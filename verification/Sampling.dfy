/** Where a scaled picture samples its source, and the gray values it computes from what it samples. */
module Sampling {
  import opened Bytes
  import opened Options
  import opened ImageLayout

  // ---- Sampling positions ----

  /** Source position of output index i in 8.8 fixed point, pixel centres aligned. */
  function UpscaleSource(i: nat, dst: nat, src: nat): nat
    requires dst > 0
  {
    var n := ((2 * i + 1) * src - dst) * 128;
    if n < 0 then 0 else n / dst
  }

  lemma Distribute(a: int, b: int, c: int)
    ensures (a + b) * c == a * c + b * c
  {
  }

  /** The numerator grows by 256 source pixels a step. */
  lemma NumeratorStep(i: nat, dst: nat, src: nat)
    ensures ((2 * (i + 1) + 1) * src - dst) * 128 == ((2 * i + 1) * src - dst) * 128 + 256 * src
  {
    assert 2 * (i + 1) + 1 == (2 * i + 1) + 2;
    Distribute(2 * i + 1, 2, src);
  }

  /** A sampled position is at most the end of the source, and its numerator fits 64 bits. */
  lemma UpscaleBounded(i: nat, dst: nat, src: nat)
    requires i < dst && src > 0
    ensures UpscaleSource(i, dst, src) <= 256 * src
    ensures ((2 * i + 1) * src - dst) * 128 <= dst * (256 * src)
  {
    MulMono(2 * i + 1, 2 * dst, src);
    assert 2 * dst * src * 128 == dst * (256 * src);
    DivBelow(((2 * i + 1) * src - dst) * 128, dst, 256 * src);
  }

  /** When enlarging, neighbouring output rows sample the same or the next source row. */
  lemma UpscaleStep(i: nat, dst: nat, src: nat)
    requires 0 < src <= dst
    ensures UpscaleSource(i, dst, src) <= UpscaleSource(i + 1, dst, src) <= UpscaleSource(i, dst, src) + 256
  {
    var a, b := ((2 * i + 1) * src - dst) * 128, ((2 * (i + 1) + 1) * src - dst) * 128;
    NumeratorStep(i, dst, src);
    if b >= 0 {
      DivBounds(b, dst);
      if a < 0 {
        DivBelow(b, dst, 256);
      } else {
        DivBounds(a, dst);
        Distribute(a / dst + 1, 256, dst);
        MulStrict(b / dst, a / dst + 1 + 256, dst);
        MulStrict(a / dst, b / dst + 1, dst);
      }
    }
  }

  /**
   * Output pixel centres map to source pixel centres: in units of 1/512 source pixel, the sampled position is
   * (2 i + 1) src / dst - 1, rounded down to 1/256 of a pixel and kept inside the picture.
   */
  lemma UpscaleCentres(i: nat, dst: nat, src: nat)
    requires dst > 0 && (2 * i + 1) * src >= dst
    ensures var f := UpscaleSource(i, dst, src); 2 * f * dst <= 256 * ((2 * i + 1) * src - dst) < 2 * (f + 1) * dst
  {
    var n := ((2 * i + 1) * src - dst) * 128;
    DivBounds(n, dst);
    Doubled(n / dst, dst);
    Doubled(n / dst + 1, dst);
  }

  lemma Doubled(a: int, b: int)
    ensures 2 * a * b == 2 * (a * b)
  {
  }

  lemma UpscaleStart(dst: nat, src: nat)
    requires 0 < src <= dst
    ensures UpscaleSource(0, dst, src) == 0
  {
  }

  lemma EndNumerator(dst: nat, src: nat)
    requires dst > 0
    ensures ((2 * (dst - 1) + 1) * src - dst) * 128 == 256 * (src * dst) - 128 * src - 128 * dst
  {
    Distribute(2 * dst, -1, src);
    assert 2 * dst * src == 2 * (src * dst);
  }

  lemma Scaled(k: int, src: int, dst: int)
    ensures 256 * (src + k) * dst == 256 * (src * dst) + 256 * k * dst
  {
    Distribute(256 * src, 256 * k, dst);
  }

  /** The last output row samples the last source row. */
  lemma UpscaleEnd(dst: nat, src: nat)
    requires 0 < src <= dst
    ensures 256 * (src - 1) <= UpscaleSource(dst - 1, dst, src) < 256 * src
  {
    var n := ((2 * (dst - 1) + 1) * src - dst) * 128;
    EndNumerator(dst, src);
    Scaled(-1, src, dst);
    Scaled(0, src, dst);
    MulMono(1, src, dst);
    EndQuotient(n, dst, src, src * dst);
  }

  lemma EndQuotient(n: int, dst: nat, src: nat, d: nat)
    requires 0 < src <= dst && n == 256 * d - 128 * src - 128 * dst && d >= dst
    requires 256 * (src - 1) * dst == 256 * d - 256 * dst && 256 * src * dst == 256 * d
    ensures n >= 0 && 256 * (src - 1) <= n / dst < 256 * src
  {
    DivAtLeast(n, dst, 256 * (src - 1));
    DivBounds(n, dst);
    MulStrict(n / dst, 256 * src, dst);
  }

  lemma {:induction false} UpscaleRange(i: nat, dst: nat, src: nat)
    requires 0 < src <= dst && i < dst
    ensures UpscaleSource(i, dst, src) < 256 * src
    decreases dst - i
  {
    if i == dst - 1 {
      UpscaleEnd(dst, src);
    } else {
      UpscaleStep(i, dst, src);
      UpscaleRange(i + 1, dst, src);
    }
  }

  /** A picture drawn at its own size is sampled at its own pixels. */
  lemma UpscaleSameSize(i: nat, n: nat)
    requires i < n
    ensures UpscaleSource(i, n, n) == 256 * i
  {
    var num := ((2 * i + 1) * n - n) * 128;
    Distribute(2 * i, 1, n);
    assert num == 256 * i * n;
    DivAtLeast(num, n, 256 * i);
    DivBelow(num, n, 256 * i);
  }

  /** The upper of the two source rows for output row i. */
  function Row0(i: nat, dst: nat, src: nat): (y: nat)
    requires dst > 0 && src > 0
    ensures y < src
  {
    Min(UpscaleSource(i, dst, src) / 256, src - 1)
  }

  function Row1(i: nat, dst: nat, src: nat): (y: nat)
    requires dst > 0 && src > 0
    ensures Row0(i, dst, src) <= y < src && y <= Row0(i, dst, src) + 1
  {
    Min(Row0(i, dst, src) + 1, src - 1)
  }

  lemma RowsAdvance(i: nat, dst: nat, src: nat)
    requires 0 < src <= dst
    ensures Row0(i, dst, src) <= Row0(i + 1, dst, src) <= Row0(i, dst, src) + 1
  {
    UpscaleStep(i, dst, src);
  }

  lemma RowsCover(dst: nat, src: nat)
    requires 0 < src <= dst
    ensures Row0(0, dst, src) == 0 && Row0(dst - 1, dst, src) == src - 1 && Row1(dst - 1, dst, src) == src - 1
  {
    UpscaleStart(dst, src);
    UpscaleEnd(dst, src);
  }

  // ---- Boxes ----

  /** The source pixels [BoxStart, BoxEnd) averaged into output pixel i. */
  function BoxStart(i: nat, dst: nat, src: nat): nat
    requires dst > 0
  {
    i * src / dst
  }

  function BoxEnd(i: nat, dst: nat, src: nat): nat
    requires dst > 0
  {
    Max(BoxStart(i, dst, src) + 1, (i + 1) * src / dst)
  }

  /** The next box starts where this one ends, or, when there are more boxes than pixels, may repeat its pixel. */
  lemma BoxesFollow(i: nat, dst: nat, src: nat)
    requires 0 < dst && 0 < src
    ensures BoxStart(i + 1, dst, src) == BoxEnd(i, dst, src) ||
            (BoxStart(i + 1, dst, src) == BoxStart(i, dst, src) && BoxEnd(i, dst, src) == BoxStart(i, dst, src) + 1)
    ensures dst <= src ==> BoxStart(i + 1, dst, src) == BoxEnd(i, dst, src)
  {
    var a, b := i * src, (i + 1) * src;
    Distribute(i, 1, src);
    DivBounds(a, dst);
    DivBounds(b, dst);
    MulStrict(a / dst, b / dst + 1, dst);
    if dst <= src {
      Distribute(a / dst, 1, dst);
      DivAtLeast(b, dst, a / dst + 1);
    }
  }

  lemma BoxesCover(dst: nat, src: nat)
    requires 0 < dst && 0 < src
    ensures BoxStart(0, dst, src) == 0 && BoxEnd(dst - 1, dst, src) == src && BoxStart(dst, dst, src) == src
  {
    assert 0 * src == 0;
    assert dst * src / dst == src by {
      DivAtLeast(dst * src, dst, src);
      DivBelow(dst * src, dst, src);
    }
    BoxesFollow(dst - 1, dst, src);
    BoxInside(dst - 1, dst, src);
  }

  lemma BoxInside(i: nat, dst: nat, src: nat)
    requires 0 < dst && 0 < src && i < dst
    ensures BoxStart(i, dst, src) < BoxEnd(i, dst, src) <= src
  {
    MulMono(i + 1, dst, src);
    DivBelow((i + 1) * src, dst, src);
    DivBounds(i * src, dst);
    Distribute(i, 1, src);
    if i * src / dst >= src {
      MulMono(src, i * src / dst, dst);
    }
  }

  lemma NoBoxes(dst: nat, src: nat)
    requires 0 < dst
    ensures BoxStart(0, dst, src) == 0
  {
    assert 0 * src == 0;
  }

  lemma BoxNotEmpty(i: nat, dst: nat, src: nat)
    requires 0 < dst
    ensures BoxStart(i, dst, src) < BoxEnd(i, dst, src)
  {
  }

  /** When reducing, every source pixel is in the box of exactly one output pixel. */
  lemma {:induction false} BoxesPartition(p: nat, dst: nat, src: nat, n: nat) returns (i: nat)
    requires 0 < dst <= src && n <= dst && p < BoxStart(n, dst, src)
    ensures i < n && BoxStart(i, dst, src) <= p < BoxEnd(i, dst, src)
    ensures forall j :: 0 <= j < n && BoxStart(j, dst, src) <= p < BoxEnd(j, dst, src) ==> j == i
  {
    hide BoxStart, BoxEnd;
    NoBoxes(dst, src);
    BoxesFollow(n - 1, dst, src);
    if p < BoxStart(n - 1, dst, src) {
      i := BoxesPartition(p, dst, src, n - 1);
    } else {
      i := n - 1;
      forall j | 0 <= j < n - 1 ensures BoxEnd(j, dst, src) <= p {
        BoxesAscend(j, n - 1, dst, src);
      }
    }
  }

  lemma {:induction false} BoxesAscend(i: nat, j: nat, dst: nat, src: nat)
    requires 0 < dst <= src && i < j
    ensures BoxEnd(i, dst, src) <= BoxStart(j, dst, src)
    decreases j
  {
    hide BoxStart, BoxEnd;
    BoxesFollow(j - 1, dst, src);
    if i < j - 1 {
      BoxesAscend(i, j - 1, dst, src);
      BoxNotEmpty(j - 1, dst, src);
    }
  }

  // ---- Gray values ----

  /** The bilinear mix of four pixels, with weights out of 256. */
  function Blend(p00: nat, p01: nat, p10: nat, p11: nat, wx: nat, wy: nat): int
  {
    ((p00 * (256 - wx) + p01 * wx) * (256 - wy) + (p10 * (256 - wx) + p11 * wx) * wy) / 65536
  }

  lemma Mix(a: nat, b: nat, w: nat, lo: nat, hi: nat)
    requires lo <= a <= hi && lo <= b <= hi && w <= 256
    ensures 256 * lo <= a * (256 - w) + b * w <= 256 * hi
  {
    MulMono(lo, a, 256 - w);
    MulMono(a, hi, 256 - w);
    MulMono(lo, b, w);
    MulMono(b, hi, w);
    Complement(lo, w);
    Complement(hi, w);
  }

  lemma Complement(v: nat, w: nat)
    ensures v * (256 - w) + v * w == 256 * v
  {
  }

  /** A blended value lies between the darkest and the lightest pixel it is made of, and its terms fit in 31 bits. */
  lemma BlendBetween(p00: nat, p01: nat, p10: nat, p11: nat, wx: nat, wy: nat, lo: nat, hi: nat)
    requires wx <= 256 && wy <= 256
    requires lo <= p00 <= hi && lo <= p01 <= hi && lo <= p10 <= hi && lo <= p11 <= hi
    ensures lo <= Blend(p00, p01, p10, p11, wx, wy) <= hi
    ensures hi <= 255 ==>
              (p00 * (256 - wx) + p01 * wx) * (256 - wy) + (p10 * (256 - wx) + p11 * wx) * wy < 0x8000_0000
  {
    var top, bottom := p00 * (256 - wx) + p01 * wx, p10 * (256 - wx) + p11 * wx;
    Mix(p00, p01, wx, lo, hi);
    Mix(p10, p11, wx, lo, hi);
    Mix(top, bottom, wy, 256 * lo, 256 * hi);
  }

  /** Pixels on a plane blend to the plane's value at the weighted position. */
  lemma BlendOfPlane(c: nat, a: int, b: int, wx: nat, wy: nat, p01: nat, p10: nat, p11: nat)
    requires wx <= 256 && wy <= 256 && p01 == c + a && p10 == c + b && p11 == c + a + b
    ensures Blend(c, p01, p10, p11, wx, wy) == (256 * c + a * wx + b * wy) / 256
  {
    var top, bottom := c * (256 - wx) + p01 * wx, p10 * (256 - wx) + p11 * wx;
    Edge(c, a, wx);
    Edge(c + b, a, wx);
    assert top == 256 * c + a * wx && bottom == 256 * (c + b) + a * wx;
    Edge(top, 256 * b, wy);
    TimesWeight(b, wy);
    assert top * (256 - wy) + bottom * wy == 256 * (256 * c + a * wx + b * wy);
  }

  /** Each of the four pixels counts with its own weights: where one of them has value v and the others u. */
  lemma BlendOfOne(u: nat, v: nat, wx: nat, wy: nat)
    requires wx <= 256 && wy <= 256
    ensures Blend(v, u, u, u, wx, wy) == (65536 * u + (v - u) * ((256 - wx) * (256 - wy))) / 65536
    ensures Blend(u, v, u, u, wx, wy) == (65536 * u + (v - u) * (wx * (256 - wy))) / 65536
    ensures Blend(u, u, v, u, wx, wy) == (65536 * u + (v - u) * ((256 - wx) * wy)) / 65536
    ensures Blend(u, u, u, v, wx, wy) == (65536 * u + (v - u) * (wx * wy)) / 65536
  {
    hide Blend;
    BlendInTopRow(u, v, wx, wy);
    BlendInBottomRow(u, v, wx, wy);
  }

  lemma BlendInTopRow(u: nat, v: nat, wx: nat, wy: nat)
    requires wx <= 256 && wy <= 256
    ensures Blend(v, u, u, u, wx, wy) == (65536 * u + (v - u) * ((256 - wx) * (256 - wy))) / 65536
    ensures Blend(u, v, u, u, wx, wy) == (65536 * u + (v - u) * (wx * (256 - wy))) / 65536
  {
    var d := v - u;
    RowOfOne(u, d, wx);
    ColumnOfOne(u, d, 256 - wx, wy);
    ColumnOfOne(u, d, wx, wy);
  }

  lemma BlendInBottomRow(u: nat, v: nat, wx: nat, wy: nat)
    requires wx <= 256 && wy <= 256
    ensures Blend(u, u, v, u, wx, wy) == (65536 * u + (v - u) * ((256 - wx) * wy)) / 65536
    ensures Blend(u, u, u, v, wx, wy) == (65536 * u + (v - u) * (wx * wy)) / 65536
  {
    var d := v - u;
    RowOfOne(u, d, wx);
    ColumnOfOne(u, d, 256 - wx, wy);
    ColumnOfOne(u, d, wx, wy);
  }

  /** A row of which the left, the right or no pixel is d lighter than u. */
  lemma RowOfOne(u: int, d: int, w: int)
    ensures (u + d) * (256 - w) + u * w == 256 * u + d * (256 - w)
    ensures u * (256 - w) + (u + d) * w == 256 * u + d * w && u * (256 - w) + u * w == 256 * u
  {
    Distribute(u, d, 256 - w);
    Distribute(u, d, w);
  }

  lemma ColumnOfOne(u: int, d: int, k: int, w: int)
    ensures (256 * u + d * k) * (256 - w) + 256 * u * w == 65536 * u + d * (k * (256 - w))
    ensures 256 * u * (256 - w) + (256 * u + d * k) * w == 65536 * u + d * (k * w)
  {
    Distribute(256 * u, d * k, 256 - w);
    Distribute(256 * u, d * k, w);
    assert d * k * (256 - w) == d * (k * (256 - w)) &&
        d * k * w == d * (k * w) by { Associate(d, k, 256 - w); Associate(d, k, w); }
    RowOfOne(256 * u, 0, w);
  }

  lemma Associate(a: int, b: int, c: int)
    ensures a * b * c == a * (b * c)
  {
  }

  /** From v at weight 0 to v + d at weight 256. */
  lemma Edge(v: int, d: int, w: int)
    ensures v * (256 - w) + (v + d) * w == 256 * v + d * w
  {
    Distribute(v, d, w);
  }

  lemma TimesWeight(b: int, w: int)
    ensures 256 * b * w == 256 * (b * w)
  {
  }

  function SumOf(row: seq<byte>, from: nat, end: nat): nat
    requires from <= end <= |row|
  {
    if from == end then 0 else SumOf(row, from, end - 1) + row[end - 1]
  }

  predicate Within(row: seq<byte>, from: nat, end: nat, lo: nat, hi: nat)
    requires from <= end <= |row|
  {
    forall x :: from <= x < end ==> lo <= row[x] <= hi
  }

  lemma {:induction false} SumBetween(row: seq<byte>, from: nat, end: nat, lo: nat, hi: nat)
    requires from <= end <= |row| && Within(row, from, end, lo, hi)
    ensures (end - from) * lo <= SumOf(row, from, end) <= (end - from) * hi
    decreases end
  {
    if from != end {
      SumBetween(row, from, end - 1, lo, hi);
      var n := end - 1 - from;
      SumStep(n, lo, row[end - 1], hi, SumOf(row, from, end - 1));
    }
  }

  lemma SumStep(n: nat, lo: nat, v: nat, hi: nat, sum: nat)
    requires n * lo <= sum <= n * hi && lo <= v <= hi
    ensures (n + 1) * lo <= sum + v <= (n + 1) * hi
  {
    Distribute(n, 1, lo);
    Distribute(n, 1, hi);
  }

  lemma CommuteBounds(n: int, lo: int, hi: int)
    ensures n * lo == lo * n && n * hi == hi * n
  {
  }

  function RowAverage(row: seq<byte>, from: nat, end: nat): nat
    requires from < end <= |row|
  {
    SumOf(row, from, end) / (end - from)
  }

  lemma RowAverageBetween(row: seq<byte>, from: nat, end: nat, lo: nat, hi: nat)
    requires from < end <= |row| && Within(row, from, end, lo, hi)
    ensures lo <= RowAverage(row, from, end) <= hi
  {
    SumBetween(row, from, end, lo, hi);
    CommuteBounds(end - from, lo, hi);
    DivAtLeast(SumOf(row, from, end), end - from, lo);
    DivBelow(SumOf(row, from, end), end - from, hi);
  }

  /** The pixels of [from, end) that are in marked have value v, the others u. */
  predicate TwoValued(row: seq<byte>, from: nat, end: nat, marked: set<nat>, v: byte, u: byte)
    requires from <= end <= |row|
  {
    forall x :: from <= x < end ==> row[x] == if x in marked then v else u
  }

  predicate Inside(marked: set<nat>, from: nat, end: nat) { forall x :: x in marked ==> from <= x < end }

  lemma WithoutLast(marked: set<nat>, from: nat, end: nat)
    requires from < end && Inside(marked, from, end)
    ensures var rest := marked - {end - 1};
            Inside(rest, from, end - 1) && |marked| == |rest| + if end - 1 in marked then 1 else 0
  {
    var rest := marked - {end - 1};
    assert end - 1 !in marked ==> rest == marked;
    assert end - 1 in marked ==> marked == rest + {end - 1};
  }

  lemma {:induction false} SumOfTwo(row: seq<byte>, from: nat, end: nat, marked: set<nat>, v: byte, u: byte)
    requires from <= end <= |row| && Inside(marked, from, end) && TwoValued(row, from, end, marked, v, u)
    ensures |marked| <= end - from
    ensures SumOf(row, from, end) == Weighted(|marked|, v, end - from - |marked|, u)
    decreases end
  {
    hide Weighted;
    Nothing(v, u);
    if from == end {
      assert marked == {};
    } else {
      var rest := marked - {end - 1};
      WithoutLast(marked, from, end);
      SumOfTwo(row, from, end - 1, rest, v, u);
      OneMore(|rest|, end - 1 - from - |rest|, v, u);
    }
  }

  /** k times v and m times u. */
  function Weighted(k: nat, v: nat, m: nat, u: nat): nat { k * v + m * u }

  lemma OneMore(k: nat, m: nat, v: nat, u: nat)
    ensures Weighted(k + 1, v, m, u) == Weighted(k, v, m, u) + v && Weighted(k, v, m + 1, u) == Weighted(k, v, m, u) + u
  {
  }

  lemma Nothing(v: nat, u: nat)
    ensures Weighted(0, v, 0, u) == 0
  {
  }

  /** A box of n pixels of which k have value v and the others u averages to (k v + (n - k) u) / n, rounded down. */
  lemma AverageOfTwo(row: seq<byte>, from: nat, end: nat, marked: set<nat>, v: byte, u: byte)
    requires from < end <= |row| && Inside(marked, from, end) && TwoValued(row, from, end, marked, v, u)
    ensures |marked| <= end - from
    ensures RowAverage(row, from, end) == (|marked| * v + (end - from - |marked|) * u) / (end - from)
  {
    SumOfTwo(row, from, end, marked, v, u);
  }

  lemma {:induction false} SumOfChanged(row: seq<byte>, from: nat, end: nat, x: nat, w: byte)
    requires from <= end <= |row| && x < |row|
    ensures SumOf(row[x := w], from, end) ==
            if from <= x < end then SumOf(row, from, end) - row[x] + w else SumOf(row, from, end)
    decreases end
  {
    if from < end {
      SumOfChanged(row, from, end - 1, x, w);
    }
  }

  /**
   * Whatever else is in the box, one pixel counts for its n-th part: n times the average follows it, up to
   * rounding.
   */
  lemma AverageFollowsPixel(row: seq<byte>, from: nat, end: nat, x: nat, w: byte)
    requires from <= x < end <= |row|
    ensures var n := end - from;
            var change := n * RowAverage(row[x := w], from, end) - n * RowAverage(row, from, end);
            w - row[x] - n < change < w - row[x] + n
  {
    hide SumOf;
    SumOfChanged(row, from, end, x, w);
    Rounded(SumOf(row, from, end), end - from);
    Rounded(SumOf(row[x := w], from, end), end - from);
  }

  lemma Rounded(sum: nat, n: nat)
    requires n > 0
    ensures sum - n < n * (sum / n) <= sum
  {
    DivBounds(sum, n);
    CommuteBounds(n, sum / n, 0);
    Distribute(sum / n, 1, n);
  }
}
