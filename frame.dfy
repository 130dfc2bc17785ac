/** kraster2d's framebuffer: a colour `Surface` plus a depth buffer slot that
    is reserved and always absent. */
module Frame {
  import opened Numeric
  import opened Pix

  class Frame {
    const surface: Surface
    /** Reserved for a later depth-testing phase; never allocated. */
    const depth: Option<seq<real>>

    ghost predicate Valid() {
      surface.Valid() && depth.None?
    }

    /** A zero-filled frame of the given size with no depth buffer. */
    constructor (width: nat, height: nat)
      requires width * height <= MAX_PIXELS
      ensures Valid() && fresh(surface) && fresh(surface.pixels)
      ensures Width() == width && Height() == height
      ensures Pixels() == seq(width * height, _ => 0)
    {
      surface := new Surface(width, height);
      depth := None;
    }

    function Width(): nat { surface.width }

    function Height(): nat { surface.height }

    /** Fills the colour buffer. */
    method Clear(color: Color)
      requires Valid()
      modifies surface.pixels
      ensures Valid()
      ensures Pixels() == seq(Width() * Height(), _ => color.ToU32())
    {
      surface.Clear(color);
    }

    /** Writes one pixel, clipped to the frame. */
    method SetPixel(x: int, y: int, color: Color)
      requires Valid()
      modifies surface.pixels
      ensures Valid()
      ensures Pixels() == WithPixel(old(Pixels()), Width(), Height(), x, y, color)
    {
      surface.SetPixel(x, y, color);
    }

    /** The packed colour buffer, read-only. */
    function Pixels(): seq<bv32>
      reads surface.pixels
    {
      surface.pixels[..]
    }

    /** The wrapped surface, whose buffer is the one `Pixels` shows. */
    function GetSurface(): (s: Surface)
      ensures s.pixels == surface.pixels
    {
      surface
    }
  }
}
