/** A generational arena: a vector of slots, an intrusive free list threaded
    through the empty slots, and a per-slot generation that makes ids of
    removed values stale. */
module Arena {
  import opened Numeric

  /** A handle: slot index plus the generation the slot had when it was filled. */
  datatype EntityId = EntityId(index: uint32, generation: uint32)

  datatype Slot<T> = Slot(generation: uint32, value: Option<T>, nextFree: Option<uint32>)

  function Occ<T>(s: Slot<T>): nat { if s.value.Some? then 1 else 0 }

  /** Number of occupied slots. */
  function CountOccupied<T>(slots: seq<Slot<T>>): nat
    decreases |slots|
  {
    if slots == [] then 0 else CountOccupied(slots[..|slots| - 1]) + Occ(slots[|slots| - 1])
  }

  lemma CountAppend<T>(slots: seq<Slot<T>>, s: Slot<T>)
    ensures CountOccupied(slots + [s]) == CountOccupied(slots) + Occ(s)
  {
    assert (slots + [s])[..|slots|] == slots;
  }

  /** Replacing one slot changes the count by the change in that slot's occupancy. */
  lemma {:induction false} CountUpdate<T>(slots: seq<Slot<T>>, i: int, s: Slot<T>)
    requires 0 <= i < |slots|
    ensures CountOccupied(slots[i := s]) + Occ(slots[i]) == CountOccupied(slots) + Occ(s)
    decreases |slots|
  {
    var n := |slots| - 1;
    if i == n {
      assert slots[i := s][..n] == slots[..n];
    } else {
      assert slots[i := s][..n] == slots[..n][i := s];
      CountUpdate(slots[..n], i, s);
    }
  }

  /** No slot is counted exactly when every slot is empty. */
  lemma {:induction false} CountZero<T>(slots: seq<Slot<T>>)
    ensures CountOccupied(slots) == 0 <==> forall i | 0 <= i < |slots| :: slots[i].value.None?
    decreases |slots|
  {
    if slots != [] {
      var n := |slots| - 1;
      CountZero(slots[..n]);
      assert forall i | 0 <= i < n :: slots[..n][i] == slots[i];
    }
  }

  /** The occupied slots in increasing index order, each with the id that
      currently addresses it. */
  function Live<T>(slots: seq<Slot<T>>): (r: seq<(EntityId, T)>)
    requires |slots| <= U32_LIMIT
    ensures |r| == CountOccupied(slots)
    ensures forall k | 0 <= k < |r| ::
      r[k].0.index < |slots| && slots[r[k].0.index].generation == r[k].0.generation &&
      slots[r[k].0.index].value == Some(r[k].1)
    ensures forall j, k | 0 <= j < k < |r| :: r[j].0.index < r[k].0.index
    decreases |slots|
  {
    if slots == [] then []
    else
      var n := |slots| - 1;
      var prefix := Live(slots[..n]);
      match slots[n].value
      case Some(v) => prefix + [(EntityId(n, slots[n].generation), v)]
      case None => prefix
  }

  /** Every occupied slot appears in `Live`. */
  lemma {:induction false} LiveComplete<T>(slots: seq<Slot<T>>, i: int)
    requires |slots| <= U32_LIMIT && 0 <= i < |slots| && slots[i].value.Some?
    ensures (EntityId(i, slots[i].generation), slots[i].value.value) in Live(slots)
    decreases |slots|
  {
    var n := |slots| - 1;
    if i < n {
      LiveComplete(slots[..n], i);
    }
  }

  /** The value `id` addresses in `slots`: None for an out-of-range index,
      a generation mismatch or an empty slot. */
  function Lookup<T>(slots: seq<Slot<T>>, id: EntityId): Option<T> {
    if id.index < |slots| && slots[id.index].generation == id.generation then slots[id.index].value
    else None
  }

  /** Writing slot `i` only changes what ids with index `i` address. */
  lemma LookupAfterWrite<T>(slots: seq<Slot<T>>, i: int, s: Slot<T>)
    requires 0 <= i < |slots|
    ensures forall id :: (Lookup(slots[i := s], id) ==
      if id.index == i then (if id.generation == s.generation then s.value else None)
      else Lookup(slots, id))
  {
  }

  /** Appending a slot only gives meaning to ids with the new index. */
  lemma LookupAfterAppend<T>(slots: seq<Slot<T>>, s: Slot<T>)
    ensures forall id :: (Lookup(slots + [s], id) ==
      if id.index == |slots| then (if id.generation == s.generation then s.value else None)
      else Lookup(slots, id))
  {
  }

  function MapSlot<T>(s: Slot<T>, f: T -> T): Slot<T> {
    s.(value := match s.value case Some(v) => Some(f(v)) case None => None)
  }

  /** The free list names distinct, in-range slot indices. */
  ghost predicate FreeWellFormed<T>(slots: seq<Slot<T>>, free: seq<uint32>) {
    (forall k | 0 <= k < |free| :: free[k] < |slots|) &&
    (forall j, k | 0 <= j < k < |free| :: free[j] != free[k])
  }

  /** Each listed slot's `nextFree` link points to the following entry; the
      last one has no link. */
  ghost predicate Chained<T>(slots: seq<Slot<T>>, free: seq<uint32>)
    requires forall k | 0 <= k < |free| :: free[k] < |slots|
  {
    forall k | 0 <= k < |free| ::
      slots[free[k]].nextFree == if k + 1 < |free| then Some(free[k + 1]) else None
  }

  /** The listed slots are exactly the empty ones. */
  ghost predicate FreeAreEmpty<T>(slots: seq<Slot<T>>, free: seq<uint32>) {
    forall i | 0 <= i < |slots| :: i in free <==> slots[i].value.None?
  }

  /** Occupied slots carry no free-list link. */
  ghost predicate OccupiedUnlinked<T>(slots: seq<Slot<T>>) {
    forall i | 0 <= i < |slots| :: slots[i].value.Some? ==> slots[i].nextFree.None?
  }

  /** The arena's representation invariant over its field values: `free`
      lists distinct in-range slot indices, starts at `head`, and each listed
      slot's `nextFree` link points to the following entry; the listed slots
      are exactly the empty ones, occupied slots have no link, `len` counts
      the occupied slots, and every index fits in u32. */
  ghost predicate ArenaInv<T>(slots: seq<Slot<T>>, head: Option<uint32>, free: seq<uint32>, len: nat) {
    |slots| <= U32_LIMIT &&
    FreeWellFormed(slots, free) &&
    head == (if free == [] then None else Some(free[0])) &&
    Chained(slots, free) &&
    FreeAreEmpty(slots, free) &&
    OccupiedUnlinked(slots) &&
    len == CountOccupied(slots)
  }

  lemma ChainAt<T>(slots: seq<Slot<T>>, head: Option<uint32>, free: seq<uint32>, len: nat, j: int)
    requires ArenaInv(slots, head, free, len) && 0 <= j < |free|
    ensures slots[free[j]].nextFree == if j + 1 < |free| then Some(free[j + 1]) else None
  {
  }

  /** Filling the head of the free list and popping it keeps the invariant. */
  lemma {:induction false} InvPop<T>(slots: seq<Slot<T>>, head: Option<uint32>, free: seq<uint32>, len: nat, value: T)
    requires ArenaInv(slots, head, free, len) && head.Some?
    ensures head.value < |slots| && slots[head.value].value.None?
    ensures var i := head.value;
      ArenaInv(slots[i := Slot(slots[i].generation, Some(value), None)], slots[i].nextFree, free[1..], len + 1)
  {
    var i := head.value;
    var filled := Slot(slots[i].generation, Some(value), None);
    CountUpdate(slots, i, filled);
    PopChained(slots, head, free, len, filled);
    PopFreeAreEmpty(slots, head, free, len, filled);
    ChainAt(slots, head, free, len, 0);
  }

  /** After popping, the rest of the chain is intact: the filled slot is not
      in the rest of the list. */
  lemma {:induction false} PopChained<T>(slots: seq<Slot<T>>, head: Option<uint32>, free: seq<uint32>, len: nat, filled: Slot<T>)
    requires ArenaInv(slots, head, free, len) && head.Some?
    ensures FreeWellFormed(slots[head.value := filled], free[1..])
    ensures Chained(slots[head.value := filled], free[1..])
  {
    var i := head.value;
    var slots' := slots[i := filled];
    forall k | 0 <= k < |free[1..]|
      ensures slots'[free[1..][k]].nextFree == if k + 1 < |free[1..]| then Some(free[1..][k + 1]) else None
    {
      var j := k + 1;
      assert free[1..][k] == free[j] != free[0];
      ChainAt(slots, head, free, len, j);
      assert slots'[free[j]] == slots[free[j]];
    }
  }

  /** After filling the head slot the remaining list names exactly the
      empty slots. */
  lemma {:induction false} PopFreeAreEmpty<T>(slots: seq<Slot<T>>, head: Option<uint32>, free: seq<uint32>, len: nat, filled: Slot<T>)
    requires ArenaInv(slots, head, free, len) && head.Some? && filled.value.Some?
    ensures FreeAreEmpty(slots[head.value := filled], free[1..])
  {
    var slots' := slots[head.value := filled];
    forall j | 0 <= j < |slots'|
      ensures j in free[1..] <==> slots'[j].value.None?
    {
      if j in free[1..] {
        var k :| 0 <= k < |free[1..]| && free[1..][k] == j;
        assert free[k + 1] == j;
      }
    }
  }

  /** Appending an occupied slot when the free list is empty keeps the invariant. */
  lemma {:induction false} InvAppend<T>(slots: seq<Slot<T>>, free: seq<uint32>, len: nat, value: T)
    requires ArenaInv(slots, None, free, len) && |slots| < U32_LIMIT
    ensures ArenaInv(slots + [Slot(0, Some(value), None)], None, free, len + 1)
  {
    CountAppend(slots, Slot(0, Some(value), None));
  }

  /** Emptying an occupied slot, bumping its generation and pushing it onto
      the free list keeps the invariant. */
  lemma {:induction false} InvRelease<T>(slots: seq<Slot<T>>, head: Option<uint32>, free: seq<uint32>, len: nat, i: uint32)
    requires ArenaInv(slots, head, free, len) && i < |slots| && slots[i].value.Some?
    ensures len >= 1
    ensures ArenaInv(slots[i := Slot((slots[i].generation + 1) % U32_LIMIT, None, head)], Some(i), [i] + free, len - 1)
  {
    var emptied := Slot((slots[i].generation + 1) % U32_LIMIT, None, head);
    CountUpdate(slots, i, emptied);
    ReleaseWellFormed(slots, head, free, len, i, emptied);
    ReleaseChained(slots, head, free, len, i, emptied);
    ReleaseFreeAreEmpty(slots, head, free, len, i, emptied);
  }

  /** Pushing an occupied slot's index keeps the list distinct and in range. */
  lemma {:induction false} ReleaseWellFormed<T>(slots: seq<Slot<T>>, head: Option<uint32>, free: seq<uint32>, len: nat, i: uint32, emptied: Slot<T>)
    requires ArenaInv(slots, head, free, len) && i < |slots| && slots[i].value.Some?
    ensures FreeWellFormed(slots[i := emptied], [i] + free)
  {
    var free' := [i] + free;
    assert i !in free;
    forall a, b | 0 <= a < b < |free'|
      ensures free'[a] != free'[b]
    {
      assert free'[b] == free[b - 1] && free[b - 1] in free;
      if a > 0 {
        assert free'[a] == free[a - 1];
      }
    }
  }

  /** The pushed slot links to the old head and the old chain is intact. */
  lemma {:induction false} ReleaseChained<T>(slots: seq<Slot<T>>, head: Option<uint32>, free: seq<uint32>, len: nat, i: uint32, emptied: Slot<T>)
    requires ArenaInv(slots, head, free, len) && i < |slots| && slots[i].value.Some?
    requires emptied.nextFree == head
    ensures FreeWellFormed(slots[i := emptied], [i] + free)
    ensures Chained(slots[i := emptied], [i] + free)
  {
    ReleaseWellFormed(slots, head, free, len, i, emptied);
    var slots' := slots[i := emptied];
    var free' := [i] + free;
    forall k | 0 <= k < |free'|
      ensures slots'[free'[k]].nextFree == if k + 1 < |free'| then Some(free'[k + 1]) else None
    {
      if k > 0 {
        var j := k - 1;
        assert free[j] in free;
        assert free'[k] == free[j] != i;
        ChainAt(slots, head, free, len, j);
        assert slots'[free[j]] == slots[free[j]];
      } else {
        assert slots'[free'[0]] == emptied;
        assert |free'| > 1 ==> free'[1] == free[0];
      }
    }
    assert Chained(slots', free');
  }

  /** Emptying the pushed slot keeps "listed exactly when empty". */
  lemma {:induction false} ReleaseFreeAreEmpty<T>(slots: seq<Slot<T>>, head: Option<uint32>, free: seq<uint32>, len: nat, i: uint32, emptied: Slot<T>)
    requires ArenaInv(slots, head, free, len) && i < |slots| && emptied.value.None?
    ensures FreeAreEmpty(slots[i := emptied], [i] + free)
  {
    var slots' := slots[i := emptied];
    var free' := [i] + free;
    forall j | 0 <= j < |slots'|
      ensures j in free' <==> slots'[j].value.None?
    {
      if j != i {
        assert j in free' <==> j in free;
      }
    }
  }

  /** Rewriting a slot without changing its occupancy or link keeps the invariant. */
  lemma {:induction false} InvRewrite<T>(slots: seq<Slot<T>>, head: Option<uint32>, free: seq<uint32>, len: nat, i: int, s: Slot<T>)
    requires ArenaInv(slots, head, free, len) && 0 <= i < |slots|
    requires s.value.Some? == slots[i].value.Some? && s.nextFree == slots[i].nextFree
    ensures ArenaInv(slots[i := s], head, free, len)
  {
    CountUpdate(slots, i, s);
  }

  class Arena<T> {
    var slots: seq<Slot<T>>
    var freeHead: Option<uint32>
    var len: nat
    /** The free list as the `nextFree` chain spells it, head first. */
    ghost var freeList: seq<uint32>

    ghost predicate Valid()
      reads this
    {
      ArenaInv(slots, freeHead, freeList, len)
    }

    constructor ()
      ensures Valid() && slots == [] && freeHead == None && len == 0
    {
      slots := [];
      freeHead := None;
      len := 0;
      freeList := [];
    }

    /** Same as the plain constructor; the capacity is only an allocation hint. */
    constructor WithCapacity(cap: nat)
      ensures Valid() && slots == [] && freeHead == None && len == 0
    {
      slots := [];
      freeHead := None;
      len := 0;
      freeList := [];
    }

    /** The value `id` addresses. */
    function Get(id: EntityId): Option<T>
      reads this
    {
      Lookup(slots, id)
    }

    /** Stores `value`, reusing the head of the free list with that slot's
        current generation, or appending a generation-0 slot. No other id
        changes what it addresses. */
    method Insert(value: T) returns (id: EntityId)
      requires Valid()
      requires freeHead.Some? || |slots| < U32_LIMIT
      modifies this
      ensures Valid()
      ensures Get(id) == Some(value) && old(Get(id)).None?
      ensures forall other :: other != id ==> Get(other) == old(Get(other))
      ensures len == old(len) + 1
      ensures old(freeHead).Some? ==>
        id.index == old(freeHead).value && id.generation == old(slots[freeHead.value].generation)
      ensures old(freeHead).None? ==> id.index == old(|slots|) && id.generation == 0
    {
      match freeHead {
        case Some(head) =>
          InvPop(slots, freeHead, freeList, len, value);
          var slot := slots[head];
          LookupAfterWrite(slots, head, Slot(slot.generation, Some(value), None));
          freeHead := slot.nextFree;
          slots := slots[head := Slot(slot.generation, Some(value), None)];
          len := len + 1;
          freeList := freeList[1..];
          id := EntityId(head, slot.generation);
        case None =>
          var index := |slots|;
          InvAppend(slots, freeList, len, value);
          LookupAfterAppend(slots, Slot(0, Some(value), None));
          slots := slots + [Slot(0, Some(value), None)];
          len := len + 1;
          id := EntityId(index, 0);
      }
    }

    /** Takes the value out of a live id's slot, bumps the slot's generation
        (wrapping) and pushes the slot onto the free list; anything else
        returns None and changes nothing. */
    method Remove(id: EntityId) returns (r: Option<T>)
      requires Valid()
      modifies this
      ensures Valid()
      ensures r == old(Get(id))
      ensures forall other :: Get(other) == if other == id then None else old(Get(other))
      ensures len == old(len) - (if r.Some? then 1 else 0)
      ensures r.None? ==> slots == old(slots) && freeHead == old(freeHead)
      ensures r.Some? ==>
        freeHead == Some(id.index) && slots[id.index].generation == (id.generation + 1) % U32_LIMIT
    {
      var idx := id.index;
      if idx >= |slots| {
        return None;
      }
      var genMatches := slots[idx].generation == id.generation;
      var isOccupied := slots[idx].value.Some?;
      if !genMatches || !isOccupied {
        return None;
      }
      var slot := slots[idx];
      r := slot.value;
      InvRelease(slots, freeHead, freeList, len, idx);
      slots := slots[idx := Slot((slot.generation + 1) % U32_LIMIT, None, freeHead)];
      freeHead := Some(idx);
      len := len - 1;
      freeList := [idx] + freeList;
    }

    /** Replaces the value a live id addresses, as a write through the
        reference `get_mut` hands out; reports whether the id was live. */
    method GetMut(id: EntityId, v: T) returns (found: bool)
      requires Valid()
      modifies this
      ensures Valid()
      ensures found == old(Get(id)).Some?
      ensures forall other :: Get(other) == if found && other == id then Some(v) else old(Get(other))
      ensures len == old(len) && freeHead == old(freeHead)
    {
      var idx := id.index;
      if idx >= |slots| {
        return false;
      }
      var slot := slots[idx];
      if slot.generation != id.generation || slot.value.None? {
        return false;
      }
      var written := slot.(value := Some(v));
      InvRewrite(slots, freeHead, freeList, len, idx, written);
      slots := slots[idx := written];
      found := true;
    }

    /** Whether `id` is live: its index is in range, its generation is the
        slot's current one and the slot is occupied. */
    function Contains(id: EntityId): (b: bool)
      reads this
      ensures b <==> id.index < |slots| && slots[id.index].generation == id.generation &&
                     slots[id.index].value.Some?
    {
      Get(id).Some?
    }

    /** Number of live values. */
    function Len(): (n: nat)
      requires Valid()
      reads this
      ensures n == |Iter()|
    {
      len
    }

    /** Empty exactly when no id addresses a value. */
    function IsEmpty(): (b: bool)
      requires Valid()
      reads this
      ensures b <==> forall id :: Get(id).None?
    {
      EmptyIffNoLive();
      len == 0
    }

    lemma EmptyIffNoLive()
      requires Valid()
      ensures len == 0 <==> forall id :: Get(id).None?
    {
      CountZero(slots);
      if len != 0 {
        var i :| 0 <= i < |slots| && slots[i].value.Some?;
        assert Get(EntityId(i, slots[i].generation)).Some?;
      }
    }

    /** The live (id, value) pairs in increasing index order: exactly the
        ids `Get` resolves, each with its value. */
    function Iter(): (r: seq<(EntityId, T)>)
      requires Valid()
      reads this
      ensures |r| == len
      ensures forall k | 0 <= k < |r| :: Get(r[k].0) == Some(r[k].1)
      ensures forall j, k | 0 <= j < k < |r| :: r[j].0.index < r[k].0.index
      ensures forall id :: Get(id).Some? ==> (id, Get(id).value) in r
    {
      var r := Live(slots);
      forall id | Get(id).Some?
        ensures (id, Get(id).value) in r
      {
        LiveComplete(slots, id.index);
      }
      r
    }

    /** Applies `f` to every live value in place, as a loop over `iter_mut`
        that rewrites each yielded value; ids, generations and the free list
        are untouched. */
    method IterMut(f: T -> T)
      requires Valid()
      modifies this
      ensures Valid()
      ensures forall id :: Get(id) == match old(Get(id)) case Some(v) => Some(f(v)) case None => None
      ensures len == old(len) && freeHead == old(freeHead) && |slots| == old(|slots|)
    {
      var i := 0;
      while i < |slots|
        invariant 0 <= i <= |slots| == |old(slots)|
        invariant forall k | 0 <= k < |slots| :: slots[k] == if k < i then MapSlot(old(slots[k]), f) else old(slots[k])
        invariant freeHead == old(freeHead) && freeList == old(freeList) && len == old(len)
        invariant Valid()
      {
        InvRewrite(slots, freeHead, freeList, len, i, MapSlot(slots[i], f));
        slots := slots[i := MapSlot(slots[i], f)];
        i := i + 1;
      }
    }
  }

  /** Removing a live id and inserting again reuses its index under a new
      generation: the old id stays stale, the new one resolves. */
  method RecycleInvalidatesOld<T>(a: Arena<T>, id: EntityId, v: T) returns (id2: EntityId)
    requires a.Valid() && a.Get(id).Some?
    modifies a
    ensures a.Valid()
    ensures id2.index == id.index && id2.generation == (id.generation + 1) % U32_LIMIT
    ensures id2 != id && a.Get(id).None? && a.Get(id2) == Some(v)
  {
    var _ := a.Remove(id);
    id2 := a.Insert(v);
  }
}
