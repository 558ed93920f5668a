/** The monomorphic API of `src/lib.rs`: its own `Rgba` pixel, the
    `RgbaImageData` buffer, and the `capture` / `capture_into` entry points.
    The OpenGL driver is not modelled: the framebuffer is a parameter and
    `glReadPixels` a function of it. */
module Capture {
  import Pixel
  import Image

  type i32 = x: int | -0x8000_0000 <= x < 0x8000_0000

  const I32_MAX: i32 := 0x7FFF_FFFF

  /** `v as u32` for an `i32`: the same bits, so the same value modulo 2^32. */
  function AsU32(v: i32): (r: Image.u32)
    ensures r % Image.U32_LIMIT == v % Image.U32_LIMIT
  {
    if v < 0 then v + Image.U32_LIMIT else v
  }

  /** A pixel of four bytes in red, green, blue, alpha order. */
  datatype Rgba = Rgba(bytes: Pixel.Bytes4) {
    function R(): Pixel.u8 { bytes[0] }
    function G(): Pixel.u8 { bytes[1] }
    function B(): Pixel.u8 { bytes[2] }
    function A(): Pixel.u8 { bytes[3] }
  }

  const BLACK: Rgba := Rgba([0, 0, 0, 0xFF])

  /** `Rgba::BLACK` has no colour and full alpha, and the accessors read
      the bytes in the order their names say. */
  lemma BlackIsOpaqueBlack()
    ensures BLACK.R() == 0 && BLACK.G() == 0 && BLACK.B() == 0 && BLACK.A() == Pixel.U8_MAX
  {
  }

  /** The crate-root `Rgba` and `pixel::Rgba` read their channels alike. */
  lemma SameChannelsAsPixelRgba(p: Rgba)
    ensures var q := Pixel.Rgba(p.bytes);
      q.R() == p.R() && q.G() == p.G() && q.B() == p.B() && q.A() == p.A()
    ensures Pixel.RGBA_PIXEL.default.bytes == BLACK.bytes
  {
  }

  /** The colour of the framebuffer at window coordinates (x, y), with y
      counted upwards from the bottom row as OpenGL does. */
  type Framebuffer = (nat, nat) -> Rgba

  /** What `glReadPixels(0, 0, w, h, GL_RGBA, GL_UNSIGNED_BYTE, ptr)` writes
      with a pack alignment of 1: `w * h` pixels, row by row from the bottom
      row of the framebuffer up. No flip is applied. */
  function ReadPixels(fb: Framebuffer, w: nat, h: nat): (r: seq<Rgba>)
    ensures |r| == w * h
    ensures forall x: nat, y: nat | x < w && y < h :: r[Image.Idx(x, y, w, h)] == fb(x, y)
  {
    var r := seq(w * h, i requires 0 <= i < w * h => (Image.Decompose(i, w, h); fb(i % w, i / w)));
    forall x: nat, y: nat | x < w && y < h
      ensures r[Image.Idx(x, y, w, h)] == fb(x, y)
    {
      Image.Compose(x, y, w, h);
    }
    r
  }

  /** Whether both dimensions pass the `assert!`s of `capture_into`, i.e.
      fit the `GLsizei` (`i32`) arguments of `glReadPixels`. */
  predicate FitsI32(size: (Image.u32, Image.u32))
  {
    size.0 <= I32_MAX && size.1 <= I32_MAX
  }

  class RgbaImageData {
    var size: (Image.u32, Image.u32)
    var data: seq<Rgba>

    /** `RgbaImageData::new`: `w * h` black pixels. */
    constructor (size: (Image.u32, Image.u32))
      ensures this.size == size
      ensures |data| == Image.PixelCount(size)
      ensures forall i :: 0 <= i < |data| ==> data[i] == BLACK
    {
      this.size := size;
      this.data := seq(Image.PixelCount(size), _ => BLACK);
    }
  }

  /** `capture_into`: panics unless both dimensions fit in an `i32` (a
      precondition here), then lets the driver overwrite the first `w * h`
      pixels of `img.data` in place. The size and the vector's length stay
      as they were. */
  method CaptureInto(img: RgbaImageData, fb: Framebuffer)
    requires FitsI32(img.size)
    requires Image.PixelCount(img.size) <= |img.data|
    modifies img
    ensures img.size == old(img.size)
    ensures |img.data| == |old(img.data)|
    ensures img.data[..Image.PixelCount(img.size)] == ReadPixels(fb, img.size.0, img.size.1)
    ensures img.data[Image.PixelCount(img.size)..] == old(img.data)[Image.PixelCount(img.size)..]
  {
    var n := Image.PixelCount(img.size);
    img.data := ReadPixels(fb, img.size.0, img.size.1) + img.data[n..];
  }

  /** `capture`: reads the viewport (x, y, width, height) from the context,
      allocates an image of the viewport's size and captures into it. The
      read starts at (0, 0), not at the viewport's origin. */
  method Capture(viewport: (i32, i32, i32, i32), fb: Framebuffer) returns (img: RgbaImageData)
    requires FitsI32((AsU32(viewport.2), AsU32(viewport.3)))
    ensures fresh(img)
    ensures img.size == (viewport.2, viewport.3)
    ensures |img.data| == viewport.2 * viewport.3
    ensures img.data == ReadPixels(fb, viewport.2, viewport.3)
  {
    var size := (AsU32(viewport.2), AsU32(viewport.3));
    img := new RgbaImageData(size);
    CaptureInto(img, fb);
  }

  /** The `assert!`s of `capture_into` pass on a viewport-derived size
      exactly when the viewport's width and height are not negative: a
      negative `i32` becomes a `u32` above `i32::MAX`. */
  lemma CastFitsI32(width: i32, height: i32)
    ensures FitsI32((AsU32(width), AsU32(height))) <==> width >= 0 && height >= 0
  {
  }
}
