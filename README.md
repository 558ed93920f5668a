# gl-capture: pixel buffers and framebuffer capture, in Dafny

This project models the pixel-buffer core of `gl-capture`, a Rust crate that
reads the pixels of the current OpenGL framebuffer into host memory. It has
four modules:

- `Format` (`format.dfy`): the `CaptureFormat` tag that each pixel type
  names. Only its four variants are modelled.
- `Pixel` (`pixel.dfy`): the packed pixel types `Rgb`, `Rgba`, `Bgr` and
  `Bgra` from `src/pixel.rs`, with their `BLACK` constants and channel
  accessors. The `Pixel` trait (`DEFAULT`, `FORMAT`) becomes the datatype
  `PixelImpl<P>`, with one value per `impl Pixel for ...` block.
- `Image` (`image.rs` → `image.dfy`): the generic `ImageData<P>` as a class
  with the fields `size` and `data`. `data` is a `seq` that the methods
  reassign, as `Vec` is changed in place. The `Pixel` bound becomes a `const`
  field `pixel` that the constructor receives. This makes `new` and `resize`
  use the same `DEFAULT`, as `P::DEFAULT` does in the source.
  - `resize` is specified by `VecResize`, the semantics of `Vec::resize`.
  - `flip_vertically` keeps its nested `for y` / `for x` loop of swaps. It is
    proved to produce `Flipped`, the image with pixel (x, y) taken from
    (x, h-1-y), and to be a permutation of the old data.
  - Lemmas show that `Flipped` is an involution and keeps the middle row of
    an odd-height image.
- `Capture` (`capture.dfy`): the monomorphic API of `src/lib.rs`. It has that
  file's own `Rgba` pixel, the `RgbaImageData` class, `capture_into` and
  `capture`.
  - The framebuffer is a parameter: a function from window coordinates to a
    pixel, with y counted from the bottom.
  - `glReadPixels` is `ReadPixels`, which lists the framebuffer row by row
    from the bottom up.
  - `capture_into` does not flip its result, and neither does `capture`.
    The model does not claim that they do. `flip_vertically` is
    crate-private, and nothing in the modelled code calls it.

Integer widths are explicit. `u8`, `u32` and `i32` are subset types of
`int`. `flip_vertically` computes its indices in `u32` locals, so Dafny
checks that they cannot overflow under the precondition `w * h <= 2^32`.
`capture` converts the viewport's `i32` width and height with `as u32`;
`AsU32` models this cast, which wraps negative values.

The `assert!`s in `capture_into` become preconditions, because a panic is a
fatal misuse and not a recoverable error. `CastFitsI32` shows that these
checks pass for a viewport-derived size exactly when the viewport's width
and height are not negative.

## Model

| member | source | states |
|---|---|---|
| `Pixel.DefaultsAreBlack` | src/pixel.rs:17-132 | The `DEFAULT` of every pixel type has zero red, green and blue. `Rgba` and `Bgra` also have alpha 255. |
| `Pixel.FormatsDistinct` | src/pixel.rs:35-132 | The `FORMAT` of `Rgb`, `Rgba`, `Bgr` and `Bgra` is the tag of the same name, so the four tags are pairwise distinct. |
| `Pixel.RgbBgrAgree` | src/pixel.rs:14-94 | An `Rgb` and a `Bgr` report the same r, g and b exactly when the `Bgr`'s bytes are the `Rgb`'s bytes reversed. This holds because `Rgb` reads r, g, b from bytes 0, 1, 2 and `Bgr` reads them from bytes 2, 1, 0. |
| `Pixel.RgbaBgraAgree` | src/pixel.rs:42-127 | An `Rgba` and a `Bgra` report the same r, g, b and a exactly when the `Bgra` holds the `Rgba`'s bytes 2, 1, 0, 3. Both types keep alpha in byte 3. |
| `Image.Idx` | src/image.rs:39-40 | The row-major index `x + y*w` of a pixel inside a w×h image lies below `w*h`. |
| `Image.IdxInjective` | src/image.rs:39-40 | Two pixels of a w×h image have the same index exactly when they are the same pixel. |
| `Image.Decompose` | src/image.rs:39-40 | Every index below `w*h` is the index of the pixel in column `i % w` and row `i / w`, and that row is below h. |
| `Image.Compose` | src/image.rs:39-40 | The column and row of a pixel are recovered from its index by `% w` and `/ w`. |
| `Image.Mirror` | src/image.rs:39-41 | The index that a flip moves to index i is in the same column as i, its row is `h-1` minus the row of i, and it is below `w*h`. |
| `Image.Flipped` | src/image.rs:35-44 | A flipped image has the same number of pixels as the original. |
| `Image.FlippedAt` | src/image.rs:35-44 | After the flip, pixel (x, y) holds what pixel (x, h-1-y) held. |
| `Image.FlipInvolution` | src/image.rs:35-44 | Flipping twice gives back the original pixels, for every w and h, including 0 and odd heights. |
| `Image.FlipKeepsMiddleRow` | src/image.rs:37 | When h is odd, the flip leaves row h/2 unchanged. |
| `Image.FlipShortImage` | src/image.rs:37 | An image of height 0 or 1 is its own flip, since `h / 2 == 0` rows are swapped. |
| `Image.VecResize` | src/image.rs:32 | The result has length n. Elements below both n and the old length are unchanged, and elements from the old length up to n equal the fill value. The resize is a flat truncate or extend, not a 2D remap. |
| `Image.ResizeGrowShrink` | src/image.rs:28-33 | Growing a vector and then resizing it back to its old length restores it exactly. |
| `Image.ResizeShrinkGrow` | src/image.rs:28-33 | Shrinking and then growing back keeps only the common prefix. The rest comes back as the fill value, whatever it held before. |
| `Image.Swap` | src/image.rs:41 | `swap(i, j)` exchanges elements i and j, leaves every other element unchanged, and keeps the multiset of elements. |
| `Image.SwapStep` | src/image.rs:38-42 | One swap of the inner loop extends the swapped region by one pixel of the current row pair and leaves everything else as it was. |
| `Image.RowPairDone` | src/image.rs:37-43 | Once the inner loop has swapped all w pixels of rows y and h-y-1, row pair y is finished. |
| `Image.FlipDone` | src/image.rs:37-44 | After `h/2` row pairs, the first `w*h` elements equal `Flipped` of the original first `w*h` elements, and the elements after them are unchanged. |
| `Image.ImageData.constructor` | src/image.rs:20-26 | `new(size)` stores `size` unchanged, and `data` holds exactly `w*h` elements, each equal to the pixel type's `DEFAULT`. |
| `Image.ImageData.Resize` | src/image.rs:28-33 | `resize(size)` sets `size` and replaces `data` with `Vec::resize` to `w*h` elements filled with `DEFAULT`. The length invariant `\|data\| == w*h` holds afterwards. |
| `Image.ImageData.FlipVertically` | src/image.rs:35-44 | The nested swap loop leaves `size` and the length unchanged. With fewer than two rows it runs no iteration and leaves `data` untouched, whatever its length. Otherwise the first `w*h` elements become `Flipped` of their old values, later elements are untouched, and the data is a permutation of the old data. When `\|data\| == w*h`, the data is exactly `Flipped` of the old data. |
| `Capture.AsU32` | src/lib.rs:51 | `v as u32` yields a `u32` congruent to v modulo 2^32. |
| `Capture.BlackIsOpaqueBlack` | src/lib.rs:8-28 | `Rgba::BLACK` read through `r`, `g`, `b` and `a` gives 0, 0, 0 and 255. |
| `Capture.SameChannelsAsPixelRgba` | src/lib.rs:5-28 | The crate-root `Rgba` and `pixel::Rgba` read the same channels from the same bytes, and the two `BLACK` constants agree. |
| `Capture.ReadPixels` | src/lib.rs:61-70 | The readback has `w*h` pixels, and the pixel at (x, y) in the buffer is the framebuffer's pixel (x, y), counted from the bottom row. No flip is applied. |
| `Capture.RgbaImageData.constructor` | src/lib.rs:38-44 | `RgbaImageData::new(size)` stores `size`, and `data` holds `w*h` elements, each `Rgba::BLACK`. |
| `Capture.CaptureInto` | src/lib.rs:57-71 | The method requires both dimensions to be at most `i32::MAX`, as the two `assert!`s do. `size` and the length of `data` never change. The first `w*h` pixels are overwritten in place with the readback, and any later pixels are kept. |
| `Capture.Capture` | src/lib.rs:47-55 | The result is a fresh image of size `(viewport[2], viewport[3])`. Its data has length `viewport[2] * viewport[3]` and is exactly the readback of that region from (0, 0). |
| `Capture.CastFitsI32` | src/lib.rs:51-59 | The `assert!`s pass on the size cast from the viewport exactly when its width and height are not negative. |

## Left out

- OpenGL calls (`glGetIntegerv`, `glPixelStorei`, `glReadPixels`) are foreign, driver-dependent effects. The viewport and the framebuffer are parameters, and `ReadPixels` stands for the readback. The rendering context, pixel-store state and GL errors are not modelled.
- `CaptureFormat`'s mapping to GL constants, `read_pixels` and `allocate_pixel_data` are not part of this model. Their definitions are not in the modelled files; the tag is modelled only as four variants.
- `shrink_to_fit` and `Vec` capacity are not modelled, because capacity is not observable here.
- `#[repr(C, packed)]` and the raw-pointer cast of `data` are not modelled. Only byte counts are modelled, through the fixed lengths of `Bytes3` and `Bytes4`; memory layout and aliasing are not.
- `Image.ImageData.FlipVertically`: requires `w*h <= 2^32` instead of modelling `u32` wrap-around or an overflow panic in the index arithmetic. For two or more rows it also requires `w*h <= |data|`, where the source would panic on an out-of-range swap; with fewer rows no swap happens and any `data` is accepted.
- `Capture.CaptureInto`: requires `w*h <= |data|`. The source does not check this, and the raw-pointer write would go out of bounds otherwise. This case is undefined behaviour, not a modelled outcome.
- `Capture.Capture`: the allocation of `w*h` pixels cannot fail in the model. A capacity-overflow panic or an out-of-memory abort is not modelled.
- `Image.ImageData.constructor`: always succeeds. `vec![P::DEFAULT; w*h]` panics with a capacity overflow when `w*h` pixels exceed `isize::MAX` bytes, for example `(u32::MAX, u32::MAX)` with `Rgba`, and can abort on out-of-memory. On 32-bit targets the `usize` product `w*h` can also overflow. None of these failures is modelled; the pixel count is the unbounded product.
- `Image.ImageData.Resize`: always succeeds. `Vec::resize` can panic with a capacity overflow or abort on out-of-memory, and the `usize` product `w*h` can overflow on 32-bit targets. Neither is modelled.
- `Capture.RgbaImageData.constructor`: always succeeds. Allocation failure, capacity overflow and a 32-bit `usize` overflow of `w*h` are not modelled, as for `Image.ImageData.constructor`.
- The `pub` fields `size` and `data` can be set to inconsistent values by callers. The model keeps `|data| == w*h` as the invariant (`Valid`) that `new` and `resize` establish. `capture_into` needs only `w*h <= |data|`, and `flip_vertically` needs that only for two or more rows.
- The `Pixel` bound is passed as a value (`PixelImpl<P>`) to the `ImageData` constructor, not resolved from the type. Dafny has no associated constants on type parameters here.
- `examples/basic.rs` is not modelled. It is window, event-loop and PNG-encoding glue.
