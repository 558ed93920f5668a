/** The generic image buffer `ImageData<P>` of `src/image.rs`: a size in
    pixels and a flat, row-major vector of `width * height` pixels. */
module Image {
  import Pixel

  /** Rust's `u32`. */
  type u32 = x: int | 0 <= x < 0x1_0000_0000

  const U32_LIMIT: nat := 0x1_0000_0000

  /** The number of pixels of an image of the given size, `w * h`. */
  function PixelCount(size: (u32, u32)): nat
  {
    size.0 * size.1
  }

  // ---------------------------------------------------------------------
  // Row-major index arithmetic

  lemma {:induction false} MulMonotone(a: int, b: int, c: nat)
    requires a <= b
    ensures a * c <= b * c
  {
    if c > 0 {
      MulMonotone(a, b, c - 1);
      assert a * c == a * (c - 1) + a;
      assert b * c == b * (c - 1) + b;
    }
  }

  /** The flat index of pixel (x, y) in a row-major buffer of width `w`. */
  function Idx(x: nat, y: nat, w: nat, h: nat): (i: nat)
    requires x < w && y < h
    ensures i < w * h
  {
    MulMonotone(y + 1, h, w);
    x + y * w
  }

  /** Distinct pixels have distinct flat indices. */
  lemma IdxInjective(x1: nat, y1: nat, x2: nat, y2: nat, w: nat, h: nat)
    requires x1 < w && y1 < h && x2 < w && y2 < h
    ensures Idx(x1, y1, w, h) == Idx(x2, y2, w, h) <==> x1 == x2 && y1 == y2
  {
    if y1 < y2 {
      MulMonotone(y1 + 1, y2, w);
    } else if y2 < y1 {
      MulMonotone(y2 + 1, y1, w);
    }
  }

  /** Every flat index below `w * h` is the index of the pixel in column
      `i % w` and row `i / w`. */
  lemma Decompose(i: nat, w: nat, h: nat)
    requires i < w * h
    ensures w > 0 && i % w < w && i / w < h && Idx(i % w, i / w, w, h) == i
  {
    if i / w >= h {
      MulMonotone(h, i / w, w);
    }
  }

  /** Column and row are recovered from a flat index. */
  lemma Compose(x: nat, y: nat, w: nat, h: nat)
    requires x < w && y < h
    ensures Idx(x, y, w, h) % w == x && Idx(x, y, w, h) / w == y
  {
    var i := Idx(x, y, w, h);
    Decompose(i, w, h);
    IdxInjective(x, y, i % w, i / w, w, h);
  }

  // ---------------------------------------------------------------------
  // The vertical flip as a function of the pixel sequence

  /** The flat index of the pixel that a vertical flip moves to index `i`:
      same column, row `h - 1 - row`. */
  function Mirror(i: nat, w: nat, h: nat): (j: nat)
    requires i < w * h
    ensures j < w * h
    ensures w > 0 && j % w == i % w && j / w == h - 1 - i / w
  {
    Decompose(i, w, h);
    var j := Idx(i % w, h - 1 - i / w, w, h);
    Compose(i % w, h - 1 - i / w, w, h);
    j
  }

  /** The row-major image `s` of width `w` and height `h` upside down. */
  function Flipped<P>(s: seq<P>, w: nat, h: nat): (r: seq<P>)
    requires |s| == w * h
    ensures |r| == |s|
  {
    seq(|s|, i requires 0 <= i < |s| => s[Mirror(i, w, h)])
  }

  /** After a flip, pixel (x, y) holds what pixel (x, h - 1 - y) held. */
  lemma FlippedAt<P>(s: seq<P>, w: nat, h: nat, x: nat, y: nat)
    requires |s| == w * h && x < w && y < h
    ensures Flipped(s, w, h)[Idx(x, y, w, h)] == s[Idx(x, h - 1 - y, w, h)]
  {
    var i := Idx(x, y, w, h);
    Compose(x, y, w, h);
    assert Mirror(i, w, h) == Idx(x, h - 1 - y, w, h) by {
      Compose(x, h - 1 - y, w, h);
      Decompose(Mirror(i, w, h), w, h);
    }
  }

  /** Flipping twice gives the image back. */
  lemma FlipInvolution<P>(s: seq<P>, w: nat, h: nat)
    requires |s| == w * h
    ensures Flipped(Flipped(s, w, h), w, h) == s
  {
    var f := Flipped(s, w, h);
    forall i | 0 <= i < |s|
      ensures Flipped(f, w, h)[i] == s[i]
    {
      var j := Mirror(i, w, h);
      var k := Mirror(j, w, h);
      Decompose(i, w, h);
      Decompose(k, w, h);
      IdxInjective(i % w, i / w, k % w, k / w, w, h);
    }
  }

  /** For an odd height the middle row stays where it is. */
  lemma FlipKeepsMiddleRow<P>(s: seq<P>, w: nat, h: nat, x: nat)
    requires |s| == w * h && h % 2 == 1 && x < w
    ensures Flipped(s, w, h)[Idx(x, h / 2, w, h)] == s[Idx(x, h / 2, w, h)]
  {
    FlippedAt(s, w, h, x, h / 2);
  }

  /** An image of height 0 or 1 is its own flip. */
  lemma FlipShortImage<P>(s: seq<P>, w: nat, h: nat)
    requires |s| == w * h && h < 2
    ensures Flipped(s, w, h) == s
  {
    if h == 1 {
      forall i | 0 <= i < |s|
        ensures Flipped(s, w, h)[i] == s[i]
      {
        assert i == Idx(i, 0, w, h);
        Compose(i, 0, w, h);
      }
    }
  }

  // ---------------------------------------------------------------------
  // Vec::resize as a function

  /** `Vec::resize(n, fill)`: truncate to `n` elements, or extend to `n`
      elements with copies of `fill`. */
  function VecResize<P>(s: seq<P>, n: nat, fill: P): (r: seq<P>)
    ensures |r| == n
    ensures forall i :: 0 <= i < n && i < |s| ==> r[i] == s[i]
    ensures forall i :: |s| <= i < n ==> r[i] == fill
  {
    if n <= |s| then s[..n] else s + seq(n - |s|, _ => fill)
  }

  /** Growing and then shrinking back to the old length restores the
      vector. */
  lemma {:induction false} ResizeGrowShrink<P>(s: seq<P>, n: nat, fill: P)
    requires |s| <= n
    ensures VecResize(VecResize(s, n, fill), |s|, fill) == s
  {
    var r := VecResize(VecResize(s, n, fill), |s|, fill);
    assert forall i :: 0 <= i < |s| ==> r[i] == s[i];
  }

  /** Shrinking and then growing back keeps only the common prefix: the
      rest comes back as `fill`, whatever it held before. */
  lemma {:induction false} ResizeShrinkGrow<P>(s: seq<P>, n: nat, fill: P)
    requires n <= |s|
    ensures VecResize(VecResize(s, n, fill), |s|, fill) == s[..n] + seq(|s| - n, _ => fill)
  {
    var r := VecResize(VecResize(s, n, fill), |s|, fill);
    var t := s[..n] + seq(|s| - n, _ => fill);
    assert forall i :: 0 <= i < |s| ==> r[i] == t[i];
  }

  // ---------------------------------------------------------------------
  // The buffer

  /** Whether pixel (x, y) has been swapped once the flip has finished
      `rows` row pairs and the first `cols` pixels of the next pair. */
  predicate Swapped(x: nat, y: nat, h: nat, rows: nat, cols: nat)
  {
    y < rows || y + rows >= h || (x < cols && (y == rows || y + rows + 1 == h))
  }

  /** `cur` is `orig` with the pixels that `Swapped` names taken from the
      mirrored row and every other pixel, and everything past `w * h`, as
      it was. */
  ghost predicate FlipProgress<P>(cur: seq<P>, orig: seq<P>, w: nat, h: nat, rows: nat, cols: nat)
  {
    |cur| == |orig| && w * h <= |orig| &&
    (forall i :: w * h <= i < |cur| ==> cur[i] == orig[i]) &&
    (forall x: nat, y: nat | x < w && y < h ::
       cur[Idx(x, y, w, h)] == orig[Idx(x, if Swapped(x, y, h, rows, cols) then h - 1 - y else y, w, h)])
  }

  /** `<[T]>::swap(i, j)` on a sequence. */
  function Swap<P>(s: seq<P>, i: nat, j: nat): (r: seq<P>)
    requires i < |s| && j < |s|
    ensures |r| == |s| && r[i] == s[j] && r[j] == s[i]
    ensures forall k :: 0 <= k < |s| && k != i && k != j ==> r[k] == s[k]
    ensures multiset(r) == multiset(s)
  {
    s[i := s[j]][j := s[i]]
  }

  /** One swap of the inner loop advances the flip by one pixel. */
  lemma SwapStep<P>(cur: seq<P>, orig: seq<P>, w: nat, h: nat, y: nat, x: nat)
    requires FlipProgress(cur, orig, w, h, y, x)
    requires y < h / 2 && x < w
    ensures FlipProgress(Swap(cur, Idx(x, y, w, h), Idx(x, h - y - 1, w, h)), orig, w, h, y, x + 1)
  {
    var top, bottom := Idx(x, y, w, h), Idx(x, h - y - 1, w, h);
    var next := Swap(cur, top, bottom);
    forall px: nat, py: nat | px < w && py < h
      ensures next[Idx(px, py, w, h)]
           == orig[Idx(px, if Swapped(px, py, h, y, x + 1) then h - 1 - py else py, w, h)]
    {
      IdxInjective(px, py, x, y, w, h);
      IdxInjective(px, py, x, h - y - 1, w, h);
    }
  }

  /** A finished inner loop is a finished row pair. */
  lemma RowPairDone<P>(cur: seq<P>, orig: seq<P>, w: nat, h: nat, y: nat)
    requires FlipProgress(cur, orig, w, h, y, w)
    ensures FlipProgress(cur, orig, w, h, y + 1, 0)
  {
    forall x: nat, y': nat | x < w && y' < h
      ensures Swapped(x, y', h, y, w) == Swapped(x, y', h, y + 1, 0)
    {
    }
  }

  /** Once all `h / 2` row pairs are swapped the image is flipped. */
  lemma FlipDone<P>(cur: seq<P>, orig: seq<P>, w: nat, h: nat)
    requires FlipProgress(cur, orig, w, h, h / 2, 0)
    ensures cur[..w * h] == Flipped(orig[..w * h], w, h)
    ensures cur[w * h..] == orig[w * h..]
  {
    var n := w * h;
    var flipped := Flipped(orig[..n], w, h);
    forall i | 0 <= i < n
      ensures cur[i] == flipped[i]
    {
      Decompose(i, w, h);
      FlippedAt(orig[..n], w, h, i % w, i / w);
    }
  }

  class ImageData<P> {
    /** The `Pixel` implementation of `P`: its `DEFAULT` and `FORMAT`. */
    const pixel: Pixel.PixelImpl<P>
    var size: (u32, u32)
    var data: seq<P>

    /** The length invariant that `new` and `resize` establish. */
    ghost predicate Valid()
      reads this
    {
      |data| == PixelCount(size)
    }

    /** `ImageData::new`: `w * h` default pixels. */
    constructor (size: (u32, u32), pixel: Pixel.PixelImpl<P>)
      ensures this.size == size && this.pixel == pixel
      ensures Valid()
      ensures forall i :: 0 <= i < |data| ==> data[i] == pixel.default
    {
      this.pixel := pixel;
      this.size := size;
      this.data := seq(PixelCount(size), _ => pixel.default);
    }

    /** `ImageData::resize`: a new size, and the vector truncated or
        extended with default pixels to the new pixel count. */
    method Resize(size: (u32, u32))
      modifies this
      ensures this.size == size && Valid()
      ensures data == VecResize(old(data), PixelCount(size), pixel.default)
    {
      this.size := size;
      var pixelCount := PixelCount(size);
      data := VecResize(data, pixelCount, pixel.default);
    }

    /** `ImageData::flip_vertically`: swaps row `y` with row `h - y - 1`
        for every `y < h / 2`, one pixel at a time. */
    method FlipVertically()
      requires size.1 >= 2 ==> PixelCount(size) <= |data|
      requires PixelCount(size) <= U32_LIMIT
      modifies this`data
      ensures |data| == |old(data)|
      ensures size.1 < 2 ==> data == old(data)
      ensures PixelCount(size) <= |data| ==>
        data[..PixelCount(size)] == Flipped(old(data)[..PixelCount(size)], size.0, size.1) &&
        data[PixelCount(size)..] == old(data)[PixelCount(size)..]
      ensures multiset(data) == multiset(old(data))
      ensures old(Valid()) ==> Valid() && data == Flipped(old(data), size.0, size.1)
    {
      var (w, h) := size;
      for y := 0 to h / 2
        invariant if h / 2 == 0 then data == old(data) else FlipProgress(data, old(data), w, h, y, 0)
        invariant multiset(data) == multiset(old(data))
      {
        for x := 0 to w
          invariant FlipProgress(data, old(data), w, h, y, x)
          invariant multiset(data) == multiset(old(data))
        {
          var top: u32 := Idx(x, y, w, h);
          var bottom: u32 := Idx(x, h - y - 1, w, h);
          SwapStep(data, old(data), w, h, y, x);
          data := Swap(data, top, bottom);
        }
        RowPairDone(data, old(data), w, h, y);
      }
      if h / 2 == 0 {
        if w * h <= |data| {
          FlipShortImage(data[..w * h], w, h);
        }
      } else {
        FlipDone(data, old(data), w, h);
      }
    }
  }
}
