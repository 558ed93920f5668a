/** The packed pixel types of `src/pixel.rs` and the `Pixel` capability that
    the generic image buffer is parameterised by. */
module Pixel {
  import Format

  /** An unsigned byte, Rust's `u8`. */
  type u8 = x: int | 0 <= x < 0x100

  /** The fixed-size byte arrays `[u8; 3]` and `[u8; 4]` behind the pixel types. */
  type Bytes3 = s: seq<u8> | |s| == 3 witness [0, 0, 0]
  type Bytes4 = s: seq<u8> | |s| == 4 witness [0, 0, 0, 0]

  const U8_MAX: u8 := 0xFF

  /** The `Pixel` trait: the value a fresh or grown buffer is filled with
      (`DEFAULT`) and the format tag of the pixel type (`FORMAT`). */
  datatype PixelImpl<P> = PixelImpl(default: P, format: Format.CaptureFormat)

  /** Three bytes in red, green, blue order. */
  datatype Rgb = Rgb(bytes: Bytes3) {
    function R(): u8 { bytes[0] }
    function G(): u8 { bytes[1] }
    function B(): u8 { bytes[2] }
  }

  /** Four bytes in red, green, blue, alpha order. */
  datatype Rgba = Rgba(bytes: Bytes4) {
    function R(): u8 { bytes[0] }
    function G(): u8 { bytes[1] }
    function B(): u8 { bytes[2] }
    function A(): u8 { bytes[3] }
  }

  /** Three bytes in blue, green, red order. */
  datatype Bgr = Bgr(bytes: Bytes3) {
    function B(): u8 { bytes[0] }
    function G(): u8 { bytes[1] }
    function R(): u8 { bytes[2] }
  }

  /** Four bytes in blue, green, red, alpha order. */
  datatype Bgra = Bgra(bytes: Bytes4) {
    function B(): u8 { bytes[0] }
    function G(): u8 { bytes[1] }
    function R(): u8 { bytes[2] }
    function A(): u8 { bytes[3] }
  }

  // The `BLACK` constants of the four types.
  const RGB_BLACK: Rgb := Rgb([0, 0, 0])
  const RGBA_BLACK: Rgba := Rgba([0, 0, 0, 0xFF])
  const BGR_BLACK: Bgr := Bgr([0, 0, 0])
  const BGRA_BLACK: Bgra := Bgra([0, 0, 0, 0xFF])

  // The four `impl Pixel for ...` blocks.
  const RGB_PIXEL: PixelImpl<Rgb> := PixelImpl(RGB_BLACK, Format.CaptureFormat.Rgb)
  const RGBA_PIXEL: PixelImpl<Rgba> := PixelImpl(RGBA_BLACK, Format.CaptureFormat.Rgba)
  const BGR_PIXEL: PixelImpl<Bgr> := PixelImpl(BGR_BLACK, Format.CaptureFormat.Bgr)
  const BGRA_PIXEL: PixelImpl<Bgra> := PixelImpl(BGRA_BLACK, Format.CaptureFormat.Bgra)

  /** Every default pixel is black: each colour channel is zero and, where
      there is an alpha channel, it is fully opaque. */
  lemma DefaultsAreBlack()
    ensures RGB_PIXEL.default.R() == RGB_PIXEL.default.G() == RGB_PIXEL.default.B() == 0
    ensures BGR_PIXEL.default.R() == BGR_PIXEL.default.G() == BGR_PIXEL.default.B() == 0
    ensures RGBA_PIXEL.default.R() == RGBA_PIXEL.default.G() == RGBA_PIXEL.default.B() == 0
    ensures RGBA_PIXEL.default.A() == U8_MAX
    ensures BGRA_PIXEL.default.R() == BGRA_PIXEL.default.G() == BGRA_PIXEL.default.B() == 0
    ensures BGRA_PIXEL.default.A() == U8_MAX
  {
  }

  /** Each pixel type is tagged with the format of the same name, so no two
      pixel types share a tag. */
  lemma FormatsDistinct()
    ensures RGB_PIXEL.format == Format.CaptureFormat.Rgb && RGBA_PIXEL.format == Format.CaptureFormat.Rgba
    ensures BGR_PIXEL.format == Format.CaptureFormat.Bgr && BGRA_PIXEL.format == Format.CaptureFormat.Bgra
    ensures |{RGB_PIXEL.format, RGBA_PIXEL.format, BGR_PIXEL.format, BGRA_PIXEL.format}| == 4
  {
  }

  /** An `Rgb` and a `Bgr` report the same red, green and blue exactly when
      the bytes of one are the bytes of the other reversed. */
  lemma RgbBgrAgree(p: Rgb, q: Bgr)
    ensures (q.R() == p.R() && q.G() == p.G() && q.B() == p.B()) <==> q.bytes == [p.bytes[2], p.bytes[1], p.bytes[0]]
  {
    if q.R() == p.R() && q.G() == p.G() && q.B() == p.B() {
      assert q.bytes == [q.bytes[0], q.bytes[1], q.bytes[2]];
    }
  }

  /** The same for the four-byte types: alpha stays last, the colour bytes
      swap red and blue. */
  lemma RgbaBgraAgree(p: Rgba, q: Bgra)
    ensures (q.R() == p.R() && q.G() == p.G() && q.B() == p.B() && q.A() == p.A())
        <==> q.bytes == [p.bytes[2], p.bytes[1], p.bytes[0], p.bytes[3]]
  {
    if q.R() == p.R() && q.G() == p.G() && q.B() == p.B() && q.A() == p.A() {
      assert q.bytes == [q.bytes[0], q.bytes[1], q.bytes[2], q.bytes[3]];
    }
  }
}
