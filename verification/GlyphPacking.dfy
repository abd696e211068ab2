/** Two-bit glyph bitmaps: rows padded to whole bytes inside a font group, packed without padding for drawing. */
module GlyphPacking {
  import opened Bytes

  function Stride(width: nat): nat { (width + 3) / 4 }

  /** Bytes of a glyph with padded rows. */
  function AlignedSize(width: nat, height: nat): nat
  {
    if width > 0 && height > 0 then Stride(width) * height else 0
  }

  /** Bytes of a packed glyph: ceil(width * height / 4). */
  function PackedSize(width: nat, height: nat): nat { (width * height + 3) / 4 }

  /** The weight of pixel j of a byte; pixel 0 is the highest. */
  function Weight(j: nat): (w: nat)
    requires j < 4
    ensures w > 0
  {
    if j == 0 then 64 else if j == 1 then 16 else if j == 2 then 4 else 1
  }

  /** Pixel j of a byte. */
  function Pixel(b: byte, j: nat): (p: nat)
    requires j < 4
    ensures p < 4
  {
    (b / Weight(j)) % 4
  }

  /** The glyph's padded rows lie inside src from off on. */
  predicate Holds(src: seq<byte>, off: nat, width: nat, height: nat)
  {
    off + AlignedSize(width, height) <= |src|
  }

  lemma HoldsFits(src: seq<byte>, off: nat, width: nat, height: nat)
    requires Holds(src, off, width, height)
    ensures width > 0 && height > 0 ==> off + Stride(width) * height <= |src|
  {
  }

  lemma RowInside(width: nat, height: nat, x: nat, y: nat)
    requires x < width && y < height
    ensures y * Stride(width) + x / 4 < AlignedSize(width, height)
    ensures x / 4 < Stride(width)
  {
    assert (y + 1) * Stride(width) <= height * Stride(width) by { MulMonotone(y + 1, height, Stride(width)); }
    assert (y + 1) * Stride(width) == y * Stride(width) + Stride(width);
  }

  lemma MulMonotone(a: nat, b: nat, c: nat)
    requires a <= b
    ensures a * c <= b * c
  {
  }

  /** The pixel in column x of row y of the padded form. */
  function AlignedPixel(src: seq<byte>, off: nat, width: nat, height: nat, x: nat, y: nat): nat
    requires Holds(src, off, width, height) && x < width && y < height
  {
    RowInside(width, height, x, y);
    Pixel(src[off + y * Stride(width) + x / 4], x % 4)
  }

  /** The first n pixels of row y. */
  function Row(src: seq<byte>, off: nat, width: nat, height: nat, y: nat): (r: seq<nat>)
    requires Holds(src, off, width, height) && y < height
    ensures |r| == width
  {
    seq(width, x requires 0 <= x < width => AlignedPixel(src, off, width, height, x, y))
  }

  /** The pixels of the first n rows, row after row. */
  function Rows(src: seq<byte>, off: nat, width: nat, height: nat, n: nat): (p: seq<nat>)
    requires Holds(src, off, width, height) && n <= height
    ensures |p| == n * width
  {
    if n == 0 then [] else Rows(src, off, width, height, n - 1) + Row(src, off, width, height, n - 1)
  }

  function Pixels(src: seq<byte>, off: nat, width: nat, height: nat): (p: seq<nat>)
    requires Holds(src, off, width, height)
    ensures |p| == height * width
  {
    Rows(src, off, width, height, height)
  }

  lemma {:induction false} RowsAt(src: seq<byte>, off: nat, width: nat, height: nat, n: nat, x: nat, y: nat)
    requires Holds(src, off, width, height) && y < n <= height && x < width
    ensures 0 <= y * width + x < n * width
    ensures Rows(src, off, width, height, n)[y * width + x] == AlignedPixel(src, off, width, height, x, y)
  {
    MulMonotone(y + 1, n, width);
    assert (y + 1) * width == y * width + width;
    assert n * width == (n - 1) * width + width;
    if y < n - 1 {
      RowsAt(src, off, width, height, n - 1, x, y);
    }
  }

  /** Four pixels a byte, the last byte filled up with zeros. */
  function PixelOr0(p: seq<nat>, k: nat): nat { if k < |p| then p[k] else 0 }

  predicate TwoBit(p: seq<nat>) { forall k :: 0 <= k < |p| ==> p[k] < 4 }

  function PackByte(p: seq<nat>, i: nat): (b: byte)
    requires TwoBit(p)
  {
    PixelOr0(p, 4 * i) * 64 + PixelOr0(p, 4 * i + 1) * 16 + PixelOr0(p, 4 * i + 2) * 4 + PixelOr0(p, 4 * i + 3)
  }

  function Pack(p: seq<nat>): (b: seq<byte>)
    requires TwoBit(p)
    ensures |b| == (|p| + 3) / 4
  {
    seq((|p| + 3) / 4, i requires 0 <= i < (|p| + 3) / 4 => PackByte(p, i))
  }

  lemma {:induction false} RowsTwoBit(src: seq<byte>, off: nat, width: nat, height: nat, n: nat)
    requires Holds(src, off, width, height) && n <= height
    ensures TwoBit(Rows(src, off, width, height, n))
  {
    if n > 0 {
      RowsTwoBit(src, off, width, height, n - 1);
    }
  }

  /** The packed form of the glyph whose padded rows start at off. */
  function Packed(src: seq<byte>, off: nat, width: nat, height: nat): (b: seq<byte>)
    requires Holds(src, off, width, height)
    ensures |b| == PackedSize(width, height)
  {
    RowsTwoBit(src, off, width, height, height);
    Pack(Pixels(src, off, width, height))
  }

  lemma DigitsOfByte(a: nat, b: nat, c: nat, d: nat)
    requires a < 4 && b < 4 && c < 4 && d < 4
    ensures var v := a * 64 + b * 16 + c * 4 + d;
            v < 256 && v / 64 == a && v / 16 == a * 4 + b && v / 4 == a * 16 + b * 4 + c
  {
  }

  lemma PixelsOfDigits(a: nat, b: nat, c: nat, d: nat)
    requires a < 4 && b < 4 && c < 4 && d < 4
    ensures var v: nat := a * 64 + b * 16 + c * 4 + d;
            v < 256 && Pixel(v, 0) == a && Pixel(v, 1) == b && Pixel(v, 2) == c && Pixel(v, 3) == d
  {
    DigitsOfByte(a, b, c, d);
  }

  lemma PixelOfPackByte(p: seq<nat>, k: nat)
    requires TwoBit(p) && k < |p|
    ensures Pixel(PackByte(p, k / 4), k % 4) == p[k]
  {
    hide Pixel;
    var i, j := k / 4, k % 4;
    PixelsOfDigits(PixelOr0(p, 4 * i), PixelOr0(p, 4 * i + 1), PixelOr0(p, 4 * i + 2), PixelOr0(p, 4 * i + 3));
    assert k == 4 * i + j;
  }

  /** Packed pixel y * width + x is the padded form's pixel (x, y). */
  lemma PackedPixel(src: seq<byte>, off: nat, width: nat, height: nat, x: nat, y: nat)
    requires Holds(src, off, width, height) && x < width && y < height
    ensures var k := y * width + x;
            k / 4 < PackedSize(width, height) &&
            Pixel(Packed(src, off, width, height)[k / 4], k % 4) == AlignedPixel(src, off, width, height, x, y)
  {
    var p, k := Pixels(src, off, width, height), y * width + x;
    RowsAt(src, off, width, height, height, x, y);
    RowsTwoBit(src, off, width, height, height);
    PixelOfPackByte(p, k);
  }

  lemma ByteOfPixels(b: byte)
    ensures Pixel(b, 0) * 64 + Pixel(b, 1) * 16 + Pixel(b, 2) * 4 + Pixel(b, 3) == b
  {
  }

  /** When rows need no padding, the padded form is the packed form. */
  lemma WholeBytesArePacked(src: seq<byte>, off: nat, width: nat, height: nat)
    requires Holds(src, off, width, height) && width > 0 && height > 0 && width % 4 == 0
    ensures PackedSize(width, height) == AlignedSize(width, height)
    ensures Packed(src, off, width, height) == src[off..off + AlignedSize(width, height)]
  {
    var stride := Stride(width);
    assert width == 4 * stride;
    assert width * height == 4 * (stride * height) by { MulAssociates(4, stride, height); }
    var p := Pixels(src, off, width, height);
    RowsTwoBit(src, off, width, height, height);
    forall i | 0 <= i < stride * height
      ensures Packed(src, off, width, height)[i] == src[off + i]
    {
      WholeByte(src, off, width, height, i);
    }
  }

  lemma MulAssociates(a: nat, b: nat, c: nat)
    ensures a * b * c == a * (b * c)
  {
  }

  lemma AlignedAt(src: seq<byte>, off: nat, width: nat, height: nat, c: nat, j: nat, y: nat)
    requires Holds(src, off, width, height) && j < 4 && 4 * c + j < width && y < height
    ensures off + y * Stride(width) + c < |src|
    ensures AlignedPixel(src, off, width, height, 4 * c + j, y) == Pixel(src[off + y * Stride(width) + c], j)
  {
    hide Pixel, Stride, AlignedSize;
    RowInside(width, height, 4 * c + j, y);
    assert (4 * c + j) / 4 == c && (4 * c + j) % 4 == j;
  }

  lemma WholeIndex(i: nat, stride: nat, width: nat, y: nat, c: nat, j: nat)
    requires width == 4 * stride && i == y * stride + c
    ensures y * width + (4 * c + j) == 4 * i + j
  {
    MulAssociates(4, stride, y);
  }

  lemma WholePixel(src: seq<byte>, off: nat, width: nat, height: nat, i: nat, j: nat)
    requires Holds(src, off, width, height) && width > 0 && height > 0 && width % 4 == 0
    requires i < Stride(width) * height && j < 4
    ensures 4 * i + j < |Pixels(src, off, width, height)|
    ensures Pixels(src, off, width, height)[4 * i + j] == Pixel(src[off + i], j)
  {
    hide Pixel, Rows, AlignedPixel;
    var stride := Stride(width);
    var y, c := i / stride, i % stride;
    RowOfByte(i, stride, height);
    AlignedAt(src, off, width, height, c, j, y);
    WholeIndex(i, stride, width, y, c, j);
    RowsAt(src, off, width, height, height, 4 * c + j, y);
  }

  lemma RowOfByte(i: nat, stride: nat, height: nat)
    requires stride > 0 && i < stride * height
    ensures i / stride < height && i % stride < stride && i == i / stride * stride + i % stride
  {
    if i / stride >= height { MulMonotone(height, i / stride, stride); }
  }

  lemma WholeByte(src: seq<byte>, off: nat, width: nat, height: nat, i: nat)
    requires Holds(src, off, width, height) && width > 0 && height > 0 && width % 4 == 0
    requires i < Stride(width) * height
    ensures TwoBit(Pixels(src, off, width, height)) && PackByte(Pixels(src, off, width, height), i) == src[off + i]
  {
    hide Rows, Pixel;
    RowsTwoBit(src, off, width, height, height);
    WholePixel(src, off, width, height, i, 0);
    WholePixel(src, off, width, height, i, 1);
    WholePixel(src, off, width, height, i, 2);
    WholePixel(src, off, width, height, i, 3);
    ByteOfPixels(src[off + i]);
  }

  /** Only the glyph's own bytes decide its packed form. */
  lemma PackedOfPrefix(src: seq<byte>, prefix: seq<byte>, off: nat, width: nat, height: nat)
    requires prefix <= src && Holds(prefix, off, width, height)
    ensures Holds(src, off, width, height) && Packed(src, off, width, height) == Packed(prefix, off, width, height)
  {
    RowsOfPrefix(src, prefix, off, width, height, height);
  }

  lemma RowOfPrefix(src: seq<byte>, prefix: seq<byte>, off: nat, width: nat, height: nat, y: nat)
    requires prefix <= src && Holds(prefix, off, width, height) && y < height
    ensures Holds(src, off, width, height) && Row(src, off, width, height, y) == Row(prefix, off, width, height, y)
  {
    hide Pixel, Stride, AlignedSize;
    forall x | 0 <= x < width
      ensures AlignedPixel(src, off, width, height, x, y) == AlignedPixel(prefix, off, width, height, x, y)
    {
      RowInside(width, height, x, y);
    }
  }

  lemma {:induction false} RowsOfPrefix(src: seq<byte>, prefix: seq<byte>, off: nat, width: nat, height: nat, n: nat)
    requires prefix <= src && Holds(prefix, off, width, height) && n <= height
    ensures Holds(src, off, width, height) && Rows(src, off, width, height, n) == Rows(prefix, off, width, height, n)
  {
    hide Row, AlignedSize;
    if n > 0 {
      RowsOfPrefix(src, prefix, off, width, height, n - 1);
      RowOfPrefix(src, prefix, off, width, height, n - 1);
    }
  }

  /** A glyph in an empty group has no pixels. */
  lemma EmptyGlyph(src: seq<byte>, off: nat, width: nat, height: nat)
    requires Holds(src, off, width, height) && src == []
    ensures PackedSize(width, height) == 0
  {
    if width > 0 && height > 0 { RowInside(width, height, 0, 0); }
  }

  // ---- The repacker ----

  /** The pixels of byte k / 4 among the first k, as the accumulator holds them. */
  function Accumulated(p: seq<nat>, k: nat): nat
    requires k <= |p|
  {
    var i := k / 4 * 4;
    if k % 4 == 0 then 0
    else if k % 4 == 1 then p[i]
    else if k % 4 == 2 then p[i] * 4 + p[i + 1]
    else p[i] * 16 + p[i + 1] * 4 + p[i + 2]
  }

  /** Packs the glyph whose padded rows start at alignedSrc[srcOff] into packedDst from dstOff on. */
  method CompactSingleGlyph(alignedSrc: array<byte>, srcOff: nat, packedDst: array<byte>, dstOff: nat,
                            width: byte, height: byte)
    requires alignedSrc != packedDst && Holds(alignedSrc[..], srcOff, width, height)
    requires dstOff + PackedSize(width, height) <= packedDst.Length
    modifies packedDst
    ensures packedDst[dstOff..dstOff + PackedSize(width, height)] == Packed(alignedSrc[..], srcOff, width, height)
    ensures forall i :: 0 <= i < dstOff || dstOff + PackedSize(width, height) <= i < packedDst.Length ==>
              packedDst[i] == old(packedDst[i])
  {
    hide Packed, Holds;
    if width == 0 || height == 0 {
      assert PackedSize(width, height) == 0;
      return;
    }
    var rowStride := Stride(width);
    ghost var src := alignedSrc[..];
    HoldsFits(src, srcOff, width, height);
    if width % 4 == 0 {
      WholeBytesArePacked(src, srcOff, width, height);
      forall i | 0 <= i < rowStride * height {
        packedDst[dstOff + i] := alignedSrc[srcOff + i];
      }
      assert alignedSrc[..] == src;
      assert packedDst[dstOff..dstOff + rowStride * height] == src[srcOff..srcOff + rowStride * height];
      return;
    }
    RepackRows(alignedSrc, srcOff, packedDst, dstOff, width, height);
  }

  method RepackRows(alignedSrc: array<byte>, srcOff: nat, packedDst: array<byte>, dstOff: nat,
                    width: byte, height: byte)
    requires alignedSrc != packedDst && Holds(alignedSrc[..], srcOff, width, height) && width > 0 && height > 0
    requires dstOff + PackedSize(width, height) <= packedDst.Length
    modifies packedDst
    ensures packedDst[dstOff..dstOff + PackedSize(width, height)] == Packed(alignedSrc[..], srcOff, width, height)
    ensures forall i :: 0 <= i < dstOff || dstOff + PackedSize(width, height) <= i < packedDst.Length ==>
              packedDst[i] == old(packedDst[i])
  {
    hide Pack, Pixel, PackByte, Rows, Repacking, Holds, Weight;
    var rowStride := Stride(width);
    ghost var src := alignedSrc[..];
    ghost var p := Pixels(src, srcOff, width, height);
    RowsTwoBit(src, srcOff, width, height, height);
    RepackingStart(p);
    var outByte, outBits, writeIdx := 0, 0, 0;
    for y := 0 to height
      invariant Repacking(p, PixelsAbove(width, y), outByte, outBits, writeIdx)
      invariant Written(packedDst, old(packedDst[..]), dstOff, p, writeIdx)
    {
      outByte, outBits, writeIdx := RepackRow(alignedSrc, srcOff, packedDst, dstOff, width, height, y,
                                              outByte, outBits, writeIdx, old(packedDst[..]));
      assert PixelsAbove(width, y) + width == PixelsAbove(width, y + 1);
    }
    assert height * width == |p|;
    RepackingEnd(p, outByte, outBits, writeIdx);
    if outBits > 0 {
      packedDst[dstOff + writeIdx] := outByte * Weight(outBits / 2 - 1);
      writeIdx := writeIdx + 1;
    }
    PackIs(p, packedDst[dstOff..dstOff + PackedSize(width, height)]);
  }

  method StoreByte(dst: array<byte>, dstOff: nat, writeIdx: nat, value: byte, ghost p: seq<nat>,
                   ghost before: seq<byte>)
    requires Written(dst, before, dstOff, p, writeIdx) && writeIdx < (|p| + 3) / 4 && value == PackByte(p, writeIdx)
    modifies dst
    ensures Written(dst, before, dstOff, p, writeIdx + 1)
  {
    hide PackByte;
    dst[dstOff + writeIdx] := value;
  }

  /** Packs one pixel behind the k before it. */
  method RepackPixel(packedDst: array<byte>, dstOff: nat, pixel: nat, outByte0: int, outBits0: int, writeIdx0: int,
                     ghost p: seq<nat>, ghost k: nat, ghost before: seq<byte>)
    returns (outByte: int, outBits: int, writeIdx: int)
    requires k < |p| && pixel == p[k] && Repacking(p, k, outByte0, outBits0, writeIdx0)
    requires Written(packedDst, before, dstOff, p, writeIdx0)
    modifies packedDst
    ensures Repacking(p, k + 1, outByte, outBits, writeIdx) && Written(packedDst, before, dstOff, p, writeIdx)
  {
    hide Repacking, PackByte, Written;
    RepackingStep(p, k, outByte0, outBits0, writeIdx0);
    outByte, outBits, writeIdx := (outByte0 * 4) % 256 + pixel, outBits0 + 2, writeIdx0;
    if outBits == 8 {
      StoreByte(packedDst, dstOff, writeIdx, outByte, p, before);
      writeIdx := writeIdx + 1;
      outByte, outBits := 0, 0;
    }
  }

  /** Packs row y behind the rows before it. */
  method RepackRow(alignedSrc: array<byte>, srcOff: nat, packedDst: array<byte>, dstOff: nat, width: byte, height: byte,
                   y: nat, outByte0: int, outBits0: int, writeIdx0: int, ghost before: seq<byte>)
    returns (outByte: int, outBits: int, writeIdx: int)
    requires alignedSrc != packedDst && Holds(alignedSrc[..], srcOff, width, height) && y < height
    requires var p := Pixels(alignedSrc[..], srcOff, width, height);
             Repacking(p, PixelsAbove(width, y), outByte0, outBits0, writeIdx0) &&
             Written(packedDst, before, dstOff, p, writeIdx0)
    modifies packedDst
    ensures var p := Pixels(alignedSrc[..], srcOff, width, height);
            Repacking(p, PixelsAbove(width, y) + width, outByte, outBits, writeIdx) &&
            Written(packedDst, before, dstOff, p, writeIdx)
  {
    hide Pixels, Repacking, Holds, Pixel, Written, PixelsAbove, RowStart;
    ghost var src := alignedSrc[..];
    ghost var p := Pixels(src, srcOff, width, height);
    outByte, outBits, writeIdx := outByte0, outBits0, writeIdx0;
    var rowStart := RowStart(srcOff, width, y);
    ghost var base := PixelsAbove(width, y);
    for x := 0 to width
      invariant alignedSrc[..] == src && Repacking(p, base + x, outByte, outBits, writeIdx)
      invariant Written(packedDst, before, dstOff, p, writeIdx)
    {
      PixelNow(src, srcOff, width, height, x, y);
      var pixel := Pixel(alignedSrc[rowStart + x / 4], x % 4);
      outByte, outBits, writeIdx :=
        RepackPixel(packedDst, dstOff, pixel, outByte, outBits, writeIdx, p, base + x, before);
    }
  }

  /** The first n packed bytes are in place and nothing outside the glyph's bytes has changed. */
  ghost predicate Written(dst: array<byte>, before: seq<byte>, dstOff: nat, p: seq<nat>, n: int)
    reads dst
  {
    TwoBit(p) && |before| == dst.Length && 0 <= n <= (|p| + 3) / 4 && dstOff + (|p| + 3) / 4 <= dst.Length &&
    (forall i :: 0 <= i < n ==> dst[dstOff + i] == PackByte(p, i)) &&
    forall i :: 0 <= i < dstOff || dstOff + (|p| + 3) / 4 <= i < dst.Length ==> dst[i] == before[i]
  }

  lemma PackIs(p: seq<nat>, b: seq<byte>)
    requires TwoBit(p) && |b| == (|p| + 3) / 4 && forall i :: 0 <= i < |b| ==> b[i] == PackByte(p, i)
    ensures b == Pack(p)
  {
  }

  function RowStart(off: nat, width: nat, y: nat): nat { off + y * Stride(width) }

  function PixelsAbove(width: nat, y: nat): nat { y * width }

  /** The pixel that the inner loop reads. */
  lemma PixelNow(src: seq<byte>, off: nat, width: nat, height: nat, x: nat, y: nat)
    requires Holds(src, off, width, height) && x < width && y < height
    ensures RowStart(off, width, y) + x / 4 < |src|
    ensures PixelsAbove(width, y) + x < |Pixels(src, off, width, height)|
    ensures Pixels(src, off, width, height)[PixelsAbove(width, y) + x] ==
            Pixel(src[RowStart(off, width, y) + x / 4], x % 4)
  {
    RowInside(width, height, x, y);
    RowsAt(src, off, width, height, height, x, y);
  }

  lemma RepackingStart(p: seq<nat>)
    requires TwoBit(p)
    ensures Repacking(p, 0, 0, 0, 0)
  {
  }

  /** The loop's variables after k pixels. */
  predicate Repacking(p: seq<nat>, k: nat, outByte: int, outBits: int, writeIdx: int)
  {
    k <= |p| && TwoBit(p) && writeIdx == k / 4 && outBits == k % 4 * 2 && outByte == Accumulated(p, k) < 64
  }

  lemma RepackingStep(p: seq<nat>, k: nat, outByte: int, outBits: int, writeIdx: int)
    requires k < |p| && Repacking(p, k, outByte, outBits, writeIdx)
    ensures writeIdx < (|p| + 3) / 4
    ensures var next := (outByte * 4) % 256 + p[k];
            if outBits == 6 then 0 <= next < 256 && next == PackByte(p, writeIdx) &&
                                 Repacking(p, k + 1, 0, 0, writeIdx + 1)
            else Repacking(p, k + 1, next, outBits + 2, writeIdx)
  {
    var i := k / 4 * 4;
    assert k == i + k % 4 && i / 4 == writeIdx;
    if k % 4 == 3 {
      assert (k + 1) / 4 == writeIdx + 1 && (k + 1) % 4 == 0;
    } else {
      assert (k + 1) / 4 == writeIdx && (k + 1) % 4 == k % 4 + 1;
    }
  }

  /** The last, partly filled byte. */
  lemma RepackingEnd(p: seq<nat>, outByte: int, outBits: int, writeIdx: int)
    requires Repacking(p, |p|, outByte, outBits, writeIdx)
    ensures if outBits == 0 then writeIdx == (|p| + 3) / 4
            else writeIdx + 1 == (|p| + 3) / 4 && 2 <= outBits <= 6 &&
                 0 <= outByte * Weight(outBits / 2 - 1) < 256 &&
                 outByte * Weight(outBits / 2 - 1) == PackByte(p, writeIdx)
  {
    var i := |p| / 4 * 4;
    assert |p| == i + |p| % 4 && i / 4 == writeIdx;
  }
}
