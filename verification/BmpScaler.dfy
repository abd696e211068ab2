/** The scaler: one pass over the source file with two cached rows, emitting the scaled rows. */
module BmpScaler {
  import opened Bytes
  import opened Options
  import opened ImageLayout
  import opened Sampling

  /** A bitmap as its rows of gray values in file order. */
  datatype Picture = Picture(rows: seq<seq<byte>>, width: nat, topDown: bool)

  predicate WellFormed(p: Picture)
  {
    |p.rows| > 0 && p.width > 0 && forall k :: 0 <= k < |p.rows| ==> |p.rows[k]| == p.width
  }

  /** The layout draws a window of the picture, and enlarges its height when it enlarges its width. */
  predicate Ready(p: Picture, lay: Layout)
  {
    WellFormed(p) && 0 <= lay.sourceX && 0 < lay.sourceWidth && lay.sourceX + lay.sourceWidth <= p.width &&
    0 <= lay.sourceY && 0 < lay.sourceHeight && lay.sourceY + lay.sourceHeight <= |p.rows| &&
    0 < lay.width && 0 < lay.height && (lay.width > lay.sourceWidth ==> lay.height >= lay.sourceHeight)
  }

  lemma CalculatedIsReady(p: Picture, targetWidth: int, targetHeight: int, crop: bool)
    requires WellFormed(p) && CalculateLayout(p.width, |p.rows|, targetWidth, targetHeight, crop).Some?
    ensures Ready(p, CalculateLayout(p.width, |p.rows|, targetWidth, targetHeight, crop).value)
  {
    hide CalculateLayout;
    LayoutFits(p.width, |p.rows|, targetWidth, targetHeight, crop);
    EnlargingWidthEnlargesHeight(p.width, |p.rows|, targetWidth, targetHeight, crop);
  }

  /** Picture row y, counted from the top, is this row of the file. */
  function FileRow(p: Picture, y: nat): (k: nat)
    requires y < |p.rows|
    ensures k < |p.rows|
  {
    if p.topDown then y else |p.rows| - 1 - y
  }

  /** Row y of the window. */
  function WindowRow(p: Picture, lay: Layout, y: nat): (row: seq<byte>)
    requires Ready(p, lay) && y < lay.sourceHeight
    ensures |row| == p.width
  {
    p.rows[FileRow(p, lay.sourceY + y)]
  }

  /** The first row of the file that belongs to the window. */
  function FirstFileRow(p: Picture, lay: Layout): nat
    requires Ready(p, lay)
  {
    if p.topDown then lay.sourceY else |p.rows| - lay.sourceY - lay.sourceHeight
  }

  /** The first n file rows of the window, in file order. */
  function FileRows(p: Picture, lay: Layout, n: nat): (rows: seq<int>)
    requires Ready(p, lay)
    ensures |rows| == n && forall k :: 0 <= k < n ==> rows[k] == FirstFileRow(p, lay) + k
  {
    seq(n, k => FirstFileRow(p, lay) + k)
  }

  /** How many rows of the window come before row y in the file. */
  function Position(p: Picture, lay: Layout, y: nat): nat
    requires Ready(p, lay) && y < lay.sourceHeight
  {
    if p.topDown then y else lay.sourceHeight - 1 - y
  }

  lemma NextFileRow(p: Picture, lay: Layout, y: nat, n: nat)
    requires Ready(p, lay) && y < lay.sourceHeight && Position(p, lay, y) == n
    ensures FileRows(p, lay, n) + [FileRow(p, lay.sourceY + y)] == FileRows(p, lay, n + 1)
  {
    var left, right := FileRows(p, lay, n) + [FileRow(p, lay.sourceY + y)], FileRows(p, lay, n + 1);
    forall k | 0 <= k < n + 1 ensures left[k] == right[k] {
      if k < n {
        assert left[k] == FileRows(p, lay, n)[k];
      }
    }
  }

  /** The output row emitted i-th. */
  function OutRow(p: Picture, lay: Layout, i: nat): (outY: nat)
    requires Ready(p, lay) && i < lay.height
    ensures outY < lay.height
  {
    if p.topDown then i else lay.height - 1 - i
  }

  // ---- What the output rows hold ----

  function EnlargedPixel(p: Picture, lay: Layout, outX: nat, outY: nat): int
    requires Ready(p, lay) && outX < lay.width && outY < lay.height
  {
    var y0, y1 := Row0(outY, lay.height, lay.sourceHeight), Row1(outY, lay.height, lay.sourceHeight);
    EnlargedFrom(WindowRow(p, lay, y0), WindowRow(p, lay, y1), lay, outX,
                 if y0 < y1 then UpscaleSource(outY, lay.height, lay.sourceHeight) % 256 else 0)
  }

  function EnlargedFrom(row0: seq<byte>, row1: seq<byte>, lay: Layout, outX: nat, wy: nat): int
    requires 0 <= lay.sourceX && 0 < lay.sourceWidth && 0 < lay.width && wy < 256
    requires lay.sourceX + lay.sourceWidth <= |row0| == |row1|
  {
    var x0 := lay.sourceX + Row0(outX, lay.width, lay.sourceWidth);
    var x1 := lay.sourceX + Row1(outX, lay.width, lay.sourceWidth);
    Blend(row0[x0], row0[x1], row1[x0], row1[x1], UpscaleSource(outX, lay.width, lay.sourceWidth) % 256, wy)
  }

  function AverageFrom(row: seq<byte>, lay: Layout, outX: nat): nat
    requires 0 <= lay.sourceX && 0 < lay.sourceWidth && outX < lay.width
    requires lay.sourceX + lay.sourceWidth <= |row|
  {
    BoxInside(outX, lay.width, lay.sourceWidth);
    RowAverage(row, lay.sourceX + BoxStart(outX, lay.width, lay.sourceWidth),
               lay.sourceX + BoxEnd(outX, lay.width, lay.sourceWidth))
  }

  /** The averages of rows [y0, y1) of the window, added up. */
  function SumRows(p: Picture, lay: Layout, outX: nat, y0: nat, y1: nat): nat
    requires Ready(p, lay) && outX < lay.width && y0 <= y1 <= lay.sourceHeight
    decreases y1 - y0
  {
    if y0 == y1 then 0 else SumRows(p, lay, outX, y0, y1 - 1) + AverageFrom(WindowRow(p, lay, y1 - 1), lay, outX)
  }

  /** The sum may as well be taken from the bottom up. */
  lemma {:induction false} SumRowsFromBelow(p: Picture, lay: Layout, outX: nat, y0: nat, y1: nat)
    requires Ready(p, lay) && outX < lay.width && y0 < y1 <= lay.sourceHeight
    ensures SumRows(p, lay, outX, y0, y1) ==
            AverageFrom(WindowRow(p, lay, y0), lay, outX) + SumRows(p, lay, outX, y0 + 1, y1)
    decreases y1 - y0
  {
    hide AverageFrom, WindowRow;
    if y0 + 1 < y1 {
      SumRowsFromBelow(p, lay, outX, y0, y1 - 1);
    }
  }

  function Mean(sum: nat, n: nat): nat
    requires n > 0
  {
    sum / n
  }

  function AveragedPixel(p: Picture, lay: Layout, outX: nat, outY: nat): nat
    requires Ready(p, lay) && outX < lay.width && outY < lay.height
  {
    BoxInside(outY, lay.height, lay.sourceHeight);
    var y0, y1 := BoxStart(outY, lay.height, lay.sourceHeight), BoxEnd(outY, lay.height, lay.sourceHeight);
    Mean(SumRows(p, lay, outX, y0, y1), y1 - y0)
  }

  function Pixel(p: Picture, lay: Layout, outX: nat, outY: nat): int
    requires Ready(p, lay) && outX < lay.width && outY < lay.height
  {
    if lay.width > lay.sourceWidth then EnlargedPixel(p, lay, outX, outY) else AveragedPixel(p, lay, outX, outY)
  }

  function OutputRow(p: Picture, lay: Layout, outY: nat): (row: seq<int>)
    requires Ready(p, lay) && outY < lay.height
    ensures |row| == lay.width
  {
    seq(lay.width, outX requires 0 <= outX < lay.width => Pixel(p, lay, outX, outY))
  }

  /** The gray value of one pixel of the window. */
  function SourcePixel(p: Picture, lay: Layout, x: nat, y: nat): byte
    requires Ready(p, lay) && x < lay.sourceWidth && y < lay.sourceHeight
  {
    WindowRow(p, lay, y)[lay.sourceX + x]
  }

  /** All pixels of columns [x0, x1) and rows [y0, y1) of the window have gray values in lo..hi. */
  predicate AllBetween(p: Picture, lay: Layout, x0: nat, x1: nat, y0: nat, y1: nat, lo: nat, hi: nat)
    requires Ready(p, lay) && x1 <= lay.sourceWidth && y1 <= lay.sourceHeight
  {
    forall x, y :: x0 <= x < x1 && y0 <= y < y1 ==> lo <= SourcePixel(p, lay, x, y) <= hi
  }

  /** An enlarged pixel stays between the extremes of the two by two source pixels around its position. */
  lemma EnlargedBetween(p: Picture, lay: Layout, outX: nat, outY: nat, lo: nat, hi: nat)
    requires Ready(p, lay) && outX < lay.width && outY < lay.height
    requires AllBetween(p, lay, Row0(outX, lay.width, lay.sourceWidth), Row1(outX, lay.width, lay.sourceWidth) + 1,
                        Row0(outY, lay.height, lay.sourceHeight), Row1(outY, lay.height, lay.sourceHeight) + 1, lo, hi)
    ensures lo <= EnlargedPixel(p, lay, outX, outY) <= hi
  {
    hide Blend, WindowRow, UpscaleSource, Row0, Row1;
    var x0, x1 := Row0(outX, lay.width, lay.sourceWidth), Row1(outX, lay.width, lay.sourceWidth);
    var y0, y1 := Row0(outY, lay.height, lay.sourceHeight), Row1(outY, lay.height, lay.sourceHeight);
    var wx := UpscaleSource(outX, lay.width, lay.sourceWidth) % 256;
    var wy := if y0 < y1 then UpscaleSource(outY, lay.height, lay.sourceHeight) % 256 else 0;
    BlendBetween(SourcePixel(p, lay, x0, y0), SourcePixel(p, lay, x1, y0), SourcePixel(p, lay, x0, y1),
                 SourcePixel(p, lay, x1, y1), wx, wy, lo, hi);
  }

  /** The window's gray values lie on a plane. */
  predicate Plane(p: Picture, lay: Layout, c: int, a: int, b: int)
    requires Ready(p, lay)
  {
    forall x, y :: 0 <= x < lay.sourceWidth && 0 <= y < lay.sourceHeight ==>
        SourcePixel(p, lay, x, y) == c + a * x + b * y
  }

  /**
   * A gradient is enlarged to the same gradient: away from the last column and row, the enlarged pixel is the
   * plane's value at the sampled position, rounded down.
   */
  lemma GradientStays(p: Picture, lay: Layout, outX: nat, outY: nat, c: int, a: int, b: int)
    requires Ready(p, lay) && outX < lay.width && outY < lay.height && Plane(p, lay, c, a, b)
    requires UpscaleSource(outX, lay.width, lay.sourceWidth) / 256 + 1 < lay.sourceWidth
    requires UpscaleSource(outY, lay.height, lay.sourceHeight) / 256 + 1 < lay.sourceHeight
    ensures var fx, fy := UpscaleSource(outX, lay.width, lay.sourceWidth),
            UpscaleSource(outY, lay.height, lay.sourceHeight);
            EnlargedPixel(p, lay, outX, outY) == (256 * c + a * fx + b * fy) / 256
  {
    hide Blend, WindowRow, UpscaleSource, SourcePixel, Plane;
    var fx, fy := UpscaleSource(outX, lay.width, lay.sourceWidth), UpscaleSource(outY, lay.height, lay.sourceHeight);
    var x, y, wx, wy := fx / 256, fy / 256, fx % 256, fy % 256;
    PlaneAt(p, lay, c, a, b, x, y);
    EnlargedCorner(p, lay, outX, outY);
    BlendOfPlane(c + a * x + b * y, a, b, wx, wy, SourcePixel(p, lay, x + 1, y), SourcePixel(p, lay, x, y + 1),
                 SourcePixel(p, lay, x + 1, y + 1));
    PlanePosition(c, a, b, x, y, wx, wy);
  }

  lemma PlaneAt(p: Picture, lay: Layout, c: int, a: int, b: int, x: nat, y: nat)
    requires Ready(p, lay) && Plane(p, lay, c, a, b) && x + 1 < lay.sourceWidth && y + 1 < lay.sourceHeight
    ensures var v := c + a * x + b * y;
            SourcePixel(p, lay, x, y) == v && SourcePixel(p, lay, x + 1, y) == v + a &&
            SourcePixel(p, lay, x, y + 1) == v + b && SourcePixel(p, lay, x + 1, y + 1) == v + a + b
  {
    hide SourcePixel;
    Distribute(x, 1, a);
    Distribute(y, 1, b);
  }

  lemma PlanePosition(c: int, a: int, b: int, x: int, y: int, wx: int, wy: int)
    ensures 256 * (c + a * x + b * y) + a * wx + b * wy == 256 * c + a * (256 * x + wx) + b * (256 * y + wy)
  {
    Distribute(256 * x, wx, a);
    Distribute(256 * y, wy, b);
  }

  /** An enlarged pixel blends the two by two pixels from its sampled position on. */
  lemma EnlargedCorner(p: Picture, lay: Layout, outX: nat, outY: nat)
    requires Ready(p, lay) && outX < lay.width && outY < lay.height
    requires UpscaleSource(outX, lay.width, lay.sourceWidth) / 256 + 1 < lay.sourceWidth
    requires UpscaleSource(outY, lay.height, lay.sourceHeight) / 256 + 1 < lay.sourceHeight
    ensures var fx, fy := UpscaleSource(outX, lay.width, lay.sourceWidth),
            UpscaleSource(outY, lay.height, lay.sourceHeight);
            var x, y := fx / 256, fy / 256;
            EnlargedPixel(p, lay, outX, outY) ==
            Blend(SourcePixel(p, lay, x, y), SourcePixel(p, lay, x + 1, y), SourcePixel(p, lay, x, y + 1),
                  SourcePixel(p, lay, x + 1, y + 1), fx % 256, fy % 256)
  {
    hide Blend, WindowRow, UpscaleSource;
  }

  lemma AverageFromBetween(p: Picture, lay: Layout, outX: nat, y: nat, lo: nat, hi: nat)
    requires Ready(p, lay) && outX < lay.width && y < lay.sourceHeight
    requires BoxEnd(outX, lay.width, lay.sourceWidth) <= lay.sourceWidth
    requires AllBetween(p, lay, BoxStart(outX, lay.width, lay.sourceWidth), BoxEnd(outX, lay.width, lay.sourceWidth),
                        y, y + 1, lo, hi)
    ensures lo <= AverageFrom(WindowRow(p, lay, y), lay, outX) <= hi
  {
    hide RowAverage, WindowRow, BoxStart, BoxEnd;
    var x0, x1 := BoxStart(outX, lay.width, lay.sourceWidth), BoxEnd(outX, lay.width, lay.sourceWidth);
    BoxInside(outX, lay.width, lay.sourceWidth);
    var row := WindowRow(p, lay, y);
    forall x | lay.sourceX + x0 <= x < lay.sourceX + x1 ensures lo <= row[x] <= hi {
      assert row[x] == SourcePixel(p, lay, x - lay.sourceX, y);
    }
    RowAverageBetween(row, lay.sourceX + x0, lay.sourceX + x1, lo, hi);
  }

  lemma {:induction false} SumRowsBetween(p: Picture, lay: Layout, outX: nat, y0: nat, y1: nat, lo: nat, hi: nat)
    requires Ready(p, lay) && outX < lay.width && y0 <= y1 <= lay.sourceHeight
    requires BoxEnd(outX, lay.width, lay.sourceWidth) <= lay.sourceWidth
    requires AllBetween(p, lay, BoxStart(outX, lay.width, lay.sourceWidth), BoxEnd(outX, lay.width, lay.sourceWidth),
                        y0, y1, lo, hi)
    ensures (y1 - y0) * lo <= SumRows(p, lay, outX, y0, y1) <= (y1 - y0) * hi
    decreases y1 - y0
  {
    hide AverageFrom, WindowRow, BoxStart, BoxEnd, SourcePixel;
    if y0 != y1 {
      SumRowsBetween(p, lay, outX, y0, y1 - 1, lo, hi);
      AverageFromBetween(p, lay, outX, y1 - 1, lo, hi);
      var n := y1 - 1 - y0;
      SumStep(n, lo, AverageFrom(WindowRow(p, lay, y1 - 1), lay, outX), hi, SumRows(p, lay, outX, y0, y1 - 1));
    }
  }

  /** An averaged pixel stays between the extremes of its box. */
  lemma AveragedBetween(p: Picture, lay: Layout, outX: nat, outY: nat, lo: nat, hi: nat)
    requires Ready(p, lay) && outX < lay.width && outY < lay.height
    requires BoxEnd(outX, lay.width, lay.sourceWidth) <= lay.sourceWidth
    requires BoxEnd(outY, lay.height, lay.sourceHeight) <= lay.sourceHeight
    requires AllBetween(p, lay, BoxStart(outX, lay.width, lay.sourceWidth), BoxEnd(outX, lay.width, lay.sourceWidth),
                        BoxStart(outY, lay.height, lay.sourceHeight),
                        BoxEnd(outY, lay.height, lay.sourceHeight), lo, hi)
    ensures lo <= AveragedPixel(p, lay, outX, outY) <= hi
  {
    hide SumRows, BoxStart, BoxEnd;
    BoxInside(outY, lay.height, lay.sourceHeight);
    var y0, y1 := BoxStart(outY, lay.height, lay.sourceHeight), BoxEnd(outY, lay.height, lay.sourceHeight);
    SumRowsBetween(p, lay, outX, y0, y1, lo, hi);
    var sum := SumRows(p, lay, outX, y0, y1);
    CommuteBounds(y1 - y0, lo, hi);
    DivAtLeast(sum, y1 - y0, lo);
    DivBelow(sum, y1 - y0, hi);
  }

  /** In row y of the window the columns of the box that are in marked have value v, the others u. */
  predicate RowTwoValued(p: Picture, lay: Layout, x0: nat, x1: nat, y: nat, marked: set<nat>, v: byte, u: byte)
    requires Ready(p, lay) && x1 <= lay.sourceWidth && y < lay.sourceHeight
  {
    forall x :: x0 <= x < x1 ==> SourcePixel(p, lay, x, y) == if x in marked then v else u
  }

  /** The average of n values of which k are v and the others u. */
  function MeanOfTwo(k: nat, n: nat, v: nat, u: nat): nat
    requires 0 < n && k <= n
  {
    var others: nat := n - k;
    (k * v + others * u) / n
  }

  lemma {:induction false} ShiftedSize(marked: set<nat>, d: nat)
    ensures var shifted := set x | x in marked :: x + d; |shifted| == |marked|
  {
    var shifted := set x | x in marked :: x + d;
    if marked != {} {
      var x :| x in marked;
      ShiftedSize(marked - {x}, d);
      var less := set z | z in marked - {x} :: z + d;
      forall y | y in shifted - {x + d} ensures y in less {
        assert y - d in marked - {x};
      }
      assert less == shifted - {x + d};
    }
  }

  lemma RowShifted(p: Picture, lay: Layout, x0: nat, x1: nat, y: nat, marked: set<nat>, v: byte, u: byte)
    returns (shifted: set<nat>)
    requires Ready(p, lay) && y < lay.sourceHeight && x0 < x1 <= lay.sourceWidth
    requires Inside(marked, x0, x1) && RowTwoValued(p, lay, x0, x1, y, marked, v, u)
    ensures |shifted| == |marked| && Inside(shifted, lay.sourceX + x0, lay.sourceX + x1)
    ensures TwoValued(WindowRow(p, lay, y), lay.sourceX + x0, lay.sourceX + x1, shifted, v, u)
  {
    hide WindowRow;
    var row := WindowRow(p, lay, y);
    shifted := set x | x in marked :: x + lay.sourceX;
    ShiftedSize(marked, lay.sourceX);
    forall x | lay.sourceX + x0 <= x < lay.sourceX + x1 ensures row[x] == if x in shifted then v else u {
      assert row[x] == SourcePixel(p, lay, x - lay.sourceX, y);
      assert x in shifted <==> x - lay.sourceX in marked;
    }
  }

  lemma AverageFromTwo(p: Picture, lay: Layout, outX: nat, y: nat, marked: set<nat>, v: byte, u: byte)
    requires Ready(p, lay) && outX < lay.width && y < lay.sourceHeight
    requires var x0, x1 := BoxStart(outX, lay.width, lay.sourceWidth), BoxEnd(outX, lay.width, lay.sourceWidth);
             x0 < x1 <= lay.sourceWidth && Inside(marked, x0, x1) && RowTwoValued(p, lay, x0, x1, y, marked, v, u)
    ensures var n := BoxEnd(outX, lay.width, lay.sourceWidth) - BoxStart(outX, lay.width, lay.sourceWidth);
            |marked| <= n && AverageFrom(WindowRow(p, lay, y), lay, outX) == MeanOfTwo(|marked|, n, v, u)
  {
    hide RowAverage, WindowRow, BoxStart, BoxEnd, TwoValued, RowTwoValued;
    var x0, x1 := BoxStart(outX, lay.width, lay.sourceWidth), BoxEnd(outX, lay.width, lay.sourceWidth);
    var shifted := RowShifted(p, lay, x0, x1, y, marked, v, u);
    AverageOfTwo(WindowRow(p, lay, y), lay.sourceX + x0, lay.sourceX + x1, shifted, v, u);
  }

  /** The rows of [y0, y1) in rows average to a, the others to b. */
  predicate RowsAverage(p: Picture, lay: Layout, outX: nat, y0: nat, y1: nat, rows: set<nat>, a: nat, b: nat)
    requires Ready(p, lay) && outX < lay.width && y1 <= lay.sourceHeight
  {
    forall y :: y0 <= y < y1 ==> AverageFrom(WindowRow(p, lay, y), lay, outX) == if y in rows then a else b
  }

  lemma {:induction false} SumRowsOfTwo(p: Picture, lay: Layout, outX: nat, y0: nat, y1: nat, rows: set<nat>, a: nat,
                                        b: nat)
    requires Ready(p, lay) && outX < lay.width && y0 <= y1 <= lay.sourceHeight
    requires Inside(rows, y0, y1) && RowsAverage(p, lay, outX, y0, y1, rows, a, b)
    ensures |rows| <= y1 - y0 && SumRows(p, lay, outX, y0, y1) == Weighted(|rows|, a, y1 - y0 - |rows|, b)
    decreases y1 - y0
  {
    hide AverageFrom, WindowRow, Weighted;
    Nothing(a, b);
    if y0 == y1 {
      assert rows == {};
    } else {
      var rest := rows - {y1 - 1};
      WithoutLast(rows, y0, y1);
      SumRowsOfTwo(p, lay, outX, y0, y1 - 1, rest, a, b);
      OneMore(|rest|, y1 - 1 - y0 - |rest|, a, b);
    }
  }

  /**
   * A picture of two values reduced: output pixel (outX, outY) averages the columns from outX * sourceWidth / width
   * and the rows from outY * sourceHeight / height to the next pixel's, one at least. If the rows in rows have value
   * v in the columns of some and the others in those of rest, and u elsewhere, it is the average of their averages.
   */
  lemma AveragedOfTwo(p: Picture, lay: Layout, outX: nat, outY: nat, rows: set<nat>, some: set<nat>, rest: set<nat>,
                      v: byte, u: byte)
    requires Ready(p, lay) && outX < lay.width && outY < lay.height
    requires var x0, y0 := outX * lay.sourceWidth / lay.width, outY * lay.sourceHeight / lay.height;
             var x1 := Max(x0 + 1, (outX + 1) * lay.sourceWidth / lay.width);
             var y1 := Max(y0 + 1, (outY + 1) * lay.sourceHeight / lay.height);
             0 <= x0 < x1 <= lay.sourceWidth && 0 <= y0 < y1 <= lay.sourceHeight &&
             Inside(rows, y0, y1) && Inside(some, x0, x1) && Inside(rest, x0, x1) &&
             forall y :: y0 <= y < y1 ==> RowTwoValued(p, lay, x0, x1, y, if y in rows then some else rest, v, u)
    ensures var n := Max(1, (outX + 1) * lay.sourceWidth / lay.width - outX * lay.sourceWidth / lay.width);
            var m := Max(1, (outY + 1) * lay.sourceHeight / lay.height - outY * lay.sourceHeight / lay.height);
            |some| <= n && |rest| <= n && |rows| <= m &&
            AveragedPixel(p, lay, outX, outY) ==
            MeanOfTwo(|rows|, m, MeanOfTwo(|some|, n, v, u), MeanOfTwo(|rest|, n, v, u))
  {
    hide AverageFrom, WindowRow, SumRows, MeanOfTwo, RowTwoValued, Weighted;
    var x0, x1 := BoxStart(outX, lay.width, lay.sourceWidth), BoxEnd(outX, lay.width, lay.sourceWidth);
    var y0, y1 := BoxStart(outY, lay.height, lay.sourceHeight), BoxEnd(outY, lay.height, lay.sourceHeight);
    InsideSize(some, x0, x1);
    InsideSize(rest, x0, x1);
    var a, b := MeanOfTwo(|some|, x1 - x0, v, u), MeanOfTwo(|rest|, x1 - x0, v, u);
    forall y | y0 <= y < y1
      ensures AverageFrom(WindowRow(p, lay, y), lay, outX) == if y in rows then a else b {
      AverageFromTwo(p, lay, outX, y, if y in rows then some else rest, v, u);
    }
    SumRowsOfTwo(p, lay, outX, y0, y1, rows, a, b);
    MeanIs(|rows|, y1 - y0, a, b);
  }

  lemma MeanIs(k: nat, n: nat, v: nat, u: nat)
    requires 0 < n && k <= n
    ensures MeanOfTwo(k, n, v, u) == Mean(Weighted(k, v, n - k, u), n)
  {
  }

  lemma {:induction false} InsideSize(marked: set<nat>, from: nat, end: nat)
    requires from <= end && Inside(marked, from, end)
    ensures |marked| <= end - from
    decreases end
  {
    if from == end {
      assert marked == {};
    } else {
      InsideSize(marked - {end - 1}, from, end - 1);
    }
  }

  /** The sum over any part of a box fits. */
  lemma BoxSumFits(row: seq<byte>, from: nat, end: nat)
    requires from <= end <= |row| && end - from <= MAX_DIMENSION
    ensures SumOf(row, from, end) <= 255 * MAX_DIMENSION
  {
    SumBetween(row, from, end, 0, 255);
    MulMono(end - from, MAX_DIMENSION, 255);
  }

  lemma AccumulatedFits(p: Picture, lay: Layout, outX: nat, y0: nat, y1: nat)
    requires Ready(p, lay) && outX < lay.width && y0 <= y1 <= lay.sourceHeight <= MAX_DIMENSION
    ensures SumRows(p, lay, outX, y0, y1) <= 255 * MAX_DIMENSION
  {
    hide SumRows, BoxStart, BoxEnd;
    BoxInside(outX, lay.width, lay.sourceWidth);
    SumRowsBetween(p, lay, outX, y0, y1, 0, 255);
    MulMono(y1 - y0, MAX_DIMENSION, 255);
  }

  /**
   * For every picture and target that are accepted, what the scaler computes in 32 bits fits them: the products that
   * bound the boxes, the positions, the sum of any part of a box in a row, and the accumulated rows.
   */
  lemma ArithmeticFits(p: Picture, targetWidth: int, targetHeight: int, crop: bool, outX: nat, outY: nat)
    requires WellFormed(p) && CalculateLayout(p.width, |p.rows|, targetWidth, targetHeight, crop).Some?
    requires var lay := CalculateLayout(p.width, |p.rows|, targetWidth, targetHeight, crop).value;
             outX < lay.width && outY < lay.height
    ensures var lay := CalculateLayout(p.width, |p.rows|, targetWidth, targetHeight, crop).value;
            Ready(p, lay) &&
            (outX + 1) * lay.sourceWidth < 0x8000_0000 && (outY + 1) * lay.sourceHeight < 0x8000_0000 &&
            256 * UpscaleSource(outX, lay.width, lay.sourceWidth) < 0x8000_0000 &&
            256 * UpscaleSource(outY, lay.height, lay.sourceHeight) < 0x8000_0000 &&
            (forall row: seq<byte>, from: nat, end: nat :: from <= end <= |row| && end - from <= lay.sourceWidth ==>
              SumOf(row, from, end) < 0x8000_0000) &&
            forall y0: nat, y1: nat :: y0 <= y1 <= lay.sourceHeight ==> SumRows(p, lay, outX, y0, y1) < 0x8000_0000
  {
    hide CalculateLayout, UpscaleSource, SumRows, SumOf;
    CalculatedIsReady(p, targetWidth, targetHeight, crop);
    CalculatedIsSmall(p.width, |p.rows|, targetWidth, targetHeight, crop);
    var lay := CalculateLayout(p.width, |p.rows|, targetWidth, targetHeight, crop).value;
    ProductFits(outX + 1, lay.sourceWidth);
    ProductFits(outY + 1, lay.sourceHeight);
    UpscaleBounded(outX, lay.width, lay.sourceWidth);
    UpscaleBounded(outY, lay.height, lay.sourceHeight);
    forall row: seq<byte>, from: nat, end: nat | from <= end <= |row| && end - from <= lay.sourceWidth
      ensures SumOf(row, from, end) < 0x8000_0000
    {
      BoxSumFits(row, from, end);
    }
    forall y0: nat, y1: nat | y0 <= y1 <= lay.sourceHeight ensures SumRows(p, lay, outX, y0, y1) < 0x8000_0000 {
      AccumulatedFits(p, lay, outX, y0, y1);
    }
  }

  lemma BoxOfSameSize(i: nat, n: nat)
    requires i < n
    ensures BoxStart(i, n, n) == i && BoxEnd(i, n, n) == i + 1
  {
    DivAtLeast(i * n, n, i);
    DivBelow(i * n, n, i);
    DivAtLeast((i + 1) * n, n, i + 1);
    DivBelow((i + 1) * n, n, i + 1);
  }

  /** A window drawn at its own size is drawn unchanged. */
  lemma SameSizeUnchanged(p: Picture, lay: Layout, outX: nat, outY: nat)
    requires Ready(p, lay) && lay.width == lay.sourceWidth && lay.height == lay.sourceHeight
    requires outX < lay.width && outY < lay.height
    ensures Pixel(p, lay, outX, outY) == SourcePixel(p, lay, outX, outY)
  {
    hide BoxStart, BoxEnd, WindowRow, AverageFrom;
    BoxOfSameSize(outX, lay.width);
    BoxOfSameSize(outY, lay.height);
    var row := WindowRow(p, lay, outY);
    assert SumRows(p, lay, outX, outY, outY + 1) == AverageFrom(row, lay, outX) by {
      assert SumRows(p, lay, outX, outY, outY) == 0;
    }
    OneByteAverage(row, lay, outX);
  }

  lemma OneByteAverage(row: seq<byte>, lay: Layout, outX: nat)
    requires 0 <= lay.sourceX && outX < lay.width == lay.sourceWidth && lay.sourceX + lay.sourceWidth <= |row|
    ensures AverageFrom(row, lay, outX) == row[lay.sourceX + outX]
  {
    hide BoxStart, BoxEnd;
    BoxOfSameSize(outX, lay.width);
    assert SumOf(row, lay.sourceX + outX, lay.sourceX + outX) == 0;
  }

  // ---- How many rows have been read ----

  /** Source rows read once i output rows are done. */
  function Reads(p: Picture, lay: Layout, i: nat): nat
    requires Ready(p, lay) && i <= lay.height
  {
    var dst, src := lay.height, lay.sourceHeight;
    if i == 0 then 0
    else if lay.width > lay.sourceWidth then
      if p.topDown then Row1(i - 1, dst, src) + 1 else src - Row0(dst - i, dst, src)
    else if p.topDown then BoxEnd(i - 1, dst, src)
    else
      BoxInside(dst - i, dst, src);
      src - BoxStart(dst - i, dst, src)
  }

  /** All of them in the end. */
  lemma ReadsAll(p: Picture, lay: Layout)
    requires Ready(p, lay)
    ensures Reads(p, lay, lay.height) == lay.sourceHeight
  {
    hide Row0, Row1, BoxStart, BoxEnd;
    if lay.width > lay.sourceWidth {
      RowsCover(lay.height, lay.sourceHeight);
    } else {
      BoxesCover(lay.height, lay.sourceHeight);
    }
  }

  /**
   * The first row an output row asks for, counted in file order, is the next unread one or the one read
   * last; the last row it asks for is the last one read when it is done.
   */
  lemma BoxAsksInOrder(p: Picture, lay: Layout, i: nat)
    requires Ready(p, lay) && i < lay.height && lay.width <= lay.sourceWidth
    requires BoxEnd(OutRow(p, lay, i), lay.height, lay.sourceHeight) <= lay.sourceHeight
    ensures var y0 := BoxStart(OutRow(p, lay, i), lay.height, lay.sourceHeight);
            var y1 := BoxEnd(OutRow(p, lay, i), lay.height, lay.sourceHeight);
            y0 < y1 && Reads(p, lay, i + 1) == Position(p, lay, if p.topDown then y1 - 1 else y0) + 1 &&
            var first := Position(p, lay, if p.topDown then y0 else y1 - 1);
            first == Reads(p, lay, i) || first + 1 == Reads(p, lay, i)
  {
    hide BoxStart, BoxEnd;
    var dst, src := lay.height, lay.sourceHeight;
    var o := OutRow(p, lay, i);
    BoxInside(o, dst, src);
    if i == 0 {
      BoxesCover(dst, src);
    } else if p.topDown {
      BoxesFollow(i - 1, dst, src);
      BoxInside(i - 1, dst, src);
    } else {
      BoxesFollow(o, dst, src);
      BoxInside(o + 1, dst, src);
    }
  }

  predicate Either(y: int, a: int, b: int) { y == a || y == b }

  /**
   * Enlarging asks for two rows. Of the two rows the output row before asked for, it uses at least one again,
   * and the other is one of them too or the next unread row of the file.
   */
  lemma EnlargingAsksInOrder(p: Picture, lay: Layout, i: nat)
    requires Ready(p, lay) && 0 < i < lay.height && lay.width > lay.sourceWidth
    ensures var dst, src := lay.height, lay.sourceHeight;
            var a, b := Row0(OutRow(p, lay, i - 1), dst, src), Row1(OutRow(p, lay, i - 1), dst, src);
            var y0, y1 := Row0(OutRow(p, lay, i), dst, src), Row1(OutRow(p, lay, i), dst, src);
            var known, other := if p.topDown then y0 else y1, if p.topDown then y1 else y0;
            Either(known, a, b) &&
            ((Either(other, a, b) && Reads(p, lay, i + 1) == Reads(p, lay, i)) ||
             (!Either(other, a, b) && Position(p, lay, other) == Reads(p, lay, i) &&
              Reads(p, lay, i + 1) == Reads(p, lay, i) + 1))
  {
    hide Row0;
    var dst, src := lay.height, lay.sourceHeight;
    RowsAdvance(if p.topDown then i - 1 else dst - 1 - i, dst, src);
  }

  lemma EnlargingStartsInOrder(p: Picture, lay: Layout)
    requires Ready(p, lay) && lay.width > lay.sourceWidth
    ensures var dst, src := lay.height, lay.sourceHeight;
            var y0, y1 := Row0(OutRow(p, lay, 0), dst, src), Row1(OutRow(p, lay, 0), dst, src);
            Position(p, lay, y0) == 0 && Reads(p, lay, 1) == (if y0 == y1 then 1 else 2) &&
            (y0 != y1 ==> Position(p, lay, y1) == 1)
  {
    hide Row0;
    RowsCover(lay.height, lay.sourceHeight);
  }

  lemma ReadsBounded(p: Picture, lay: Layout, i: nat)
    requires Ready(p, lay) && i <= lay.height
    ensures Reads(p, lay, i) <= lay.sourceHeight
  {
    hide Row0, BoxStart, BoxEnd;
    if i > 0 && lay.width <= lay.sourceWidth && p.topDown {
      BoxInside(i - 1, lay.height, lay.sourceHeight);
    }
  }

  /** File rows read to have rows y0 and y1 in a cache of rows a and b. */
  function Misses(p: Picture, lay: Layout, a: int, b: int, y0: nat, y1: nat): seq<int>
    requires Ready(p, lay) && y0 < lay.sourceHeight && y1 < lay.sourceHeight
  {
    (if Either(y0, a, b) then [] else [FileRow(p, lay.sourceY + y0)]) +
    (if Either(y1, a, b) || y1 == y0 then [] else [FileRow(p, lay.sourceY + y1)])
  }

  /** A cache slot is empty or holds one of the first n rows in file order. */
  predicate ReadBefore(p: Picture, lay: Layout, y: int, n: nat)
    requires Ready(p, lay)
  {
    y == -1 || (0 <= y < lay.sourceHeight && Position(p, lay, y) < n)
  }

  /** The cache a and b holds what the last of i enlarged rows needed. */
  predicate EnlargingCache(p: Picture, lay: Layout, i: nat, a: int, b: int)
    requires Ready(p, lay) && i <= lay.height
  {
    var dst, src := lay.height, lay.sourceHeight;
    ReadBefore(p, lay, a, Reads(p, lay, i)) && ReadBefore(p, lay, b, Reads(p, lay, i)) &&
    if i == 0 then a == b == -1
    else
      Either(Row0(OutRow(p, lay, i - 1), dst, src), a, b) && Either(Row1(OutRow(p, lay, i - 1), dst, src), a, b)
  }

  lemma MissesAreNext(p: Picture, lay: Layout, i: nat, a: int, b: int)
    requires Ready(p, lay) && i < lay.height && lay.width > lay.sourceWidth && EnlargingCache(p, lay, i, a, b)
    ensures var dst, src := lay.height, lay.sourceHeight;
            var y0, y1 := Row0(OutRow(p, lay, i), dst, src), Row1(OutRow(p, lay, i), dst, src);
            var n, missed := Reads(p, lay, i), Misses(p, lay, a, b, y0, y1);
            FileRows(p, lay, n) + missed == FileRows(p, lay, Reads(p, lay, i + 1)) &&
            (missed != [] ==>
             n < Reads(p, lay, i + 1) && FileRows(p, lay, n) + missed[..1] == FileRows(p, lay, n + 1)) &&
            n <= Reads(p, lay, i + 1) && ReadBefore(p, lay, y0, Reads(p, lay, i + 1)) &&
            ReadBefore(p, lay, y1, Reads(p, lay, i + 1))
  {
    hide Row0, Row1, FileRow, FileRows, Reads;
    var dst, src := lay.height, lay.sourceHeight;
    var y0, y1 := Row0(OutRow(p, lay, i), dst, src), Row1(OutRow(p, lay, i), dst, src);
    var n, missed := Reads(p, lay, i), Misses(p, lay, a, b, y0, y1);
    if i == 0 {
      assert Reads(p, lay, 0) == 0 by { NoReads(p, lay); }
      EnlargingStartsInOrder(p, lay);
      NextFileRow(p, lay, y0, 0);
      assert missed[..1] == [FileRow(p, lay.sourceY + y0)];
      if y0 != y1 {
        NextFileRow(p, lay, y1, 1);
        assert missed == missed[..1] + [FileRow(p, lay.sourceY + y1)];
        assert FileRows(p, lay, 0) + missed == FileRows(p, lay, 0) + missed[..1] + [FileRow(p, lay.sourceY + y1)];
      } else {
        assert missed == missed[..1];
      }
    } else {
      EnlargingAsksInOrder(p, lay, i);
      var other := if p.topDown then y1 else y0;
      if Either(other, a, b) {
        assert missed == [];
        assert FileRows(p, lay, n) + missed == FileRows(p, lay, n);
      } else {
        NextFileRow(p, lay, other, n);
        assert missed == missed[..1] == [FileRow(p, lay.sourceY + other)];
      }
    }
  }

  lemma NoReads(p: Picture, lay: Layout)
    requires Ready(p, lay)
    ensures Reads(p, lay, 0) == 0 && FileRows(p, lay, 0) == []
  {
  }

  /** y is the row read last of the first n rows in file order. */
  predicate LastRead(p: Picture, lay: Layout, y: int, n: nat)
    requires Ready(p, lay)
  {
    if n == 0 then y == -1 else 0 <= y < lay.sourceHeight && Position(p, lay, y) + 1 == n
  }

  /** The rows of box [y0, y1) in the order they are added up, after k - y0 of them. */
  function Added(p: Picture, lay: Layout, outX: nat, y0: nat, y1: nat, k: nat): nat
    requires Ready(p, lay) && outX < lay.width && y0 <= k <= y1 <= lay.sourceHeight
  {
    if p.topDown then SumRows(p, lay, outX, y0, k) else SumRows(p, lay, outX, y1 - (k - y0), y1)
  }

  /** The k-th row added. */
  function BoxRow(p: Picture, y0: nat, y1: nat, k: nat): nat
    requires y0 <= k < y1
  {
    if p.topDown then k else y0 + y1 - 1 - k
  }

  lemma AddedNext(p: Picture, lay: Layout, outX: nat, y0: nat, y1: nat, k: nat)
    requires Ready(p, lay) && outX < lay.width && y0 <= k < y1 <= lay.sourceHeight
    ensures Added(p, lay, outX, y0, y1, k + 1) ==
            Added(p, lay, outX, y0, y1, k) + AverageFrom(WindowRow(p, lay, BoxRow(p, y0, y1, k)), lay, outX)
  {
    hide AverageFrom, WindowRow;
    if !p.topDown {
      SumRowsFromBelow(p, lay, outX, y1 - (k + 1 - y0), y1);
    }
  }

  lemma AddedAll(p: Picture, lay: Layout, outX: nat, outY: nat, y0: nat, y1: nat)
    requires Ready(p, lay) && outX < lay.width && outY < lay.height && lay.width <= lay.sourceWidth
    requires y0 == BoxStart(outY, lay.height, lay.sourceHeight) && y1 == BoxEnd(outY, lay.height, lay.sourceHeight)
    requires y1 <= lay.sourceHeight
    ensures y0 < y1 && Added(p, lay, outX, y0, y1, y0) == 0
    ensures Added(p, lay, outX, y0, y1, y1) / (y1 - y0) == Pixel(p, lay, outX, outY)
  {
    hide AverageFrom, WindowRow, BoxStart, BoxEnd;
    BoxInside(outY, lay.height, lay.sourceHeight);
  }

  // ---- The pass ----

  class Scaler {
    const picture: Picture
    const lay: Layout
    /** Two rows of gray values, and which row of the window each holds (-1 for none). */
    const gray: array<byte>
    const loaded: array<int>
    const accum: array<int>
    /** File rows read so far, and output rows emitted so far. */
    var log: seq<int>
    var output: seq<seq<int>>
    ghost var faults: nat

    constructor (p: Picture, l: Layout)
      requires Ready(p, l)
      ensures picture == p && lay == l && Valid() && log == [] && output == []
      ensures loaded[0] == loaded[1] == -1
      ensures fresh(gray) && fresh(loaded) && fresh(accum)
    {
      picture, lay := p, l;
      gray := new byte[2 * p.width](_ => 0);
      loaded := new int[2](_ => -1);
      accum := new int[l.width](_ => 0);
      log, output, faults := [], [], 0;
    }

    predicate Shaped()
    {
      Ready(picture, lay) && gray.Length == 2 * picture.width && loaded.Length == 2 && accum.Length == lay.width &&
      accum != loaded
    }

    function Offset(slot: nat): nat { if slot == 0 then 0 else picture.width }

    predicate Holds(slot: nat)
      requires Shaped() && slot < 2
      reads gray, loaded
    {
      loaded[slot] == -1 ||
      (0 <= loaded[slot] < lay.sourceHeight &&
       gray[Offset(slot)..Offset(slot) + picture.width] == WindowRow(picture, lay, loaded[slot]))
    }

    /** Each cached row holds the window row it is labelled with. */
    predicate Valid()
      reads gray, loaded
    {
      Shaped() && Holds(0) && Holds(1)
    }

    predicate Cached(y: int)
      requires Shaped()
      reads loaded
    {
      loaded[0] == y || loaded[1] == y
    }

    method ReadRowGray(y: nat, slot: nat) returns (ok: bool)
      requires Shaped() && y < lay.sourceHeight && slot < 2
      modifies gray, this`log, this`faults
      ensures ok ==> gray[Offset(slot)..Offset(slot) + picture.width] == WindowRow(picture, lay, y)
      ensures ok ==> log == old(log) + [FileRow(picture, lay.sourceY + y)]
      ensures ok ==> gray[Offset(1 - slot)..Offset(1 - slot) + picture.width] ==
                     old(gray[Offset(1 - slot)..Offset(1 - slot) + picture.width])
      ensures !ok ==> gray[..] == old(gray[..]) && log == old(log)
      ensures old(faults) <= faults && (!ok ==> old(faults) < faults)
    {
      var fails: bool := *;
      if fails {
        faults := faults + 1;
        return false;
      }
      var row := WindowRow(picture, lay, y);
      var start := Offset(slot);
      ghost var before := gray[..];
      for x := 0 to picture.width
        invariant gray[start..start + x] == row[..x] && log == old(log) && faults == old(faults)
        invariant forall k :: 0 <= k < gray.Length && !(start <= k < start + x) ==> gray[k] == before[k]
      {
        gray[start + x] := row[x];
      }
      log := log + [FileRow(picture, lay.sourceY + y)];
      ok := true;
    }

    /** The slot of a row of the window; a row that is needed as well (keep) is not evicted. */
    method RowFor(y: nat, keep: int) returns (r: Option<nat>)
      requires Valid() && y < lay.sourceHeight
      modifies gray, loaded, this`log, this`faults
      ensures Valid()
      ensures r.Some? ==> r.value < 2 && loaded[r.value] == y && (r.value == 1 ==> loaded[0] != y)
      ensures old(Cached(y)) ==> r.Some? && loaded[..] == old(loaded[..]) && log == old(log)
      ensures !old(Cached(y)) && r.Some? ==>
                loaded[1 - r.value] == old(loaded[1 - r.value]) &&
                log == old(log) + [FileRow(picture, lay.sourceY + y)] &&
                (r.value == 1 <==> old(loaded[0]) == keep)
      ensures r.None? ==> loaded[..] == old(loaded[..]) && log == old(log) && old(faults) < faults
      ensures old(faults) <= faults
    {
      hide WindowRow;
      if loaded[0] == y {
        return Some(0);
      }
      if loaded[1] == y {
        return Some(1);
      }
      var slot := if loaded[0] == keep then 1 else 0;
      var ok := ReadRowGray(y, slot);
      if !ok {
        return None;
      }
      loaded[slot] := y;
      r := Some(slot);
    }

    /** The two rows an enlarged output row needs: one may take the place of a row no longer needed. */
    method RowsFor(y0: nat, y1: nat) returns (r: Option<(nat, nat)>)
      requires Valid() && y0 < lay.sourceHeight && y1 < lay.sourceHeight
      modifies gray, loaded, this`log, this`faults
      ensures Valid()
      ensures r.Some? ==> r.value.0 < 2 && r.value.1 < 2 && loaded[r.value.0] == y0 && loaded[r.value.1] == y1
      ensures r.Some? ==> log == old(log) + Misses(picture, lay, old(loaded[0]), old(loaded[1]), y0, y1)
      ensures Either(loaded[0], y0, y1) || Either(loaded[0], old(loaded[0]), old(loaded[1]))
      ensures Either(loaded[1], y0, y1) || Either(loaded[1], old(loaded[0]), old(loaded[1]))
      ensures r.None? ==> old(faults) < faults && Misses(picture, lay, old(loaded[0]), old(loaded[1]), y0, y1) != [] &&
                          (log == old(log) ||
                           log == old(log) + Misses(picture, lay, old(loaded[0]), old(loaded[1]), y0, y1)[..1])
      ensures old(faults) <= faults
    {
      hide WindowRow, FileRow, Holds;
      var a := RowFor(y0, y1);
      if a.None? {
        return None;
      }
      var b := RowFor(y1, y0);
      if b.None? {
        return None;
      }
      r := Some((a.value, b.value));
    }

    method EnlargeRow(slot0: nat, slot1: nat, outY: nat)
      requires Valid() && slot0 < 2 && slot1 < 2 && outY < lay.height
      requires lay.width > lay.sourceWidth
      requires loaded[slot0] == Row0(outY, lay.height, lay.sourceHeight)
      requires loaded[slot1] == Row1(outY, lay.height, lay.sourceHeight)
      modifies accum
      ensures accum[..] == OutputRow(picture, lay, outY)
    {
      hide WindowRow, UpscaleSource, EnlargedFrom, FileRow;
      var fy := UpscaleSource(outY, lay.height, lay.sourceHeight);
      var y0 := Min(fy / 256, lay.sourceHeight - 1);
      var y1 := Min(y0 + 1, lay.sourceHeight - 1);
      var wy := if y0 < y1 then fy % 256 else 0;
      var row0 := gray[Offset(slot0)..Offset(slot0) + picture.width];
      var row1 := gray[Offset(slot1)..Offset(slot1) + picture.width];
      for outX := 0 to lay.width
        invariant forall k :: 0 <= k < outX ==> accum[k] == EnlargedFrom(row0, row1, lay, k, wy)
      {
        accum[outX] := EnlargePixel(row0, row1, outX, wy);
      }
      assert forall k :: 0 <= k < lay.width ==> accum[k] == EnlargedPixel(picture, lay, k, outY);
    }

    method EnlargePixel(row0: seq<byte>, row1: seq<byte>, outX: nat, wy: nat) returns (v: int)
      requires Ready(picture, lay) && |row0| == |row1| == picture.width && outX < lay.width && wy < 256
      ensures v == EnlargedFrom(row0, row1, lay, outX, wy)
    {
      hide UpscaleSource, Blend;
      var fx := UpscaleSource(outX, lay.width, lay.sourceWidth);
      var x0 := lay.sourceX + Min(fx / 256, lay.sourceWidth - 1);
      var x1 := Min(x0 + 1, lay.sourceX + lay.sourceWidth - 1);
      var wx := fx % 256;
      v := Blend(row0[x0], row0[x1], row1[x0], row1[x1], wx, wy);
    }

    /** Adds the averages of one row to the accumulated ones. */
    method AddRow(slot: nat, y: nat)
      requires Valid() && slot < 2 && y < lay.sourceHeight && loaded[slot] == y
      modifies accum
      ensures forall k :: 0 <= k < lay.width ==>
                accum[k] == old(accum[k]) + AverageFrom(WindowRow(picture, lay, y), lay, k)
    {
      hide WindowRow, FileRow, AverageFrom;
      var row := gray[Offset(slot)..Offset(slot) + picture.width];
      for outX := 0 to lay.width
        invariant forall k :: 0 <= k < outX ==> accum[k] == old(accum[k]) + AverageFrom(row, lay, k)
        invariant forall k :: outX <= k < lay.width ==> accum[k] == old(accum[k])
      {
        var average := BoxAverage(row, outX);
        accum[outX] := accum[outX] + average;
      }
    }

    method BoxAverage(row: seq<byte>, outX: nat) returns (average: nat)
      requires Ready(picture, lay) && |row| == picture.width && outX < lay.width
      ensures average == AverageFrom(row, lay, outX)
    {
      hide SumOf;
      BoxInside(outX, lay.width, lay.sourceWidth);
      var x0 := outX * lay.sourceWidth / lay.width;
      var x1 := Max(x0 + 1, (outX + 1) * lay.sourceWidth / lay.width);
      var sum := BoxSum(row, lay.sourceX + x0, lay.sourceX + x1);
      average := sum / (x1 - x0);
    }

    method BoxSum(row: seq<byte>, x0: nat, x1: nat) returns (sum: nat)
      requires x0 <= x1 <= |row|
      ensures sum == SumOf(row, x0, x1)
    {
      sum := 0;
      for x := x0 to x1
        invariant sum == SumOf(row, x0, x)
      {
        sum := sum + row[x];
      }
    }

    /** The state between output rows: what is cached, read and emitted after i of them. */
    ghost predicate Between(i: nat)
      reads this, gray, loaded
    {
      Valid() && i <= lay.height && log == FileRows(picture, lay, Reads(picture, lay, i)) && |output| == i &&
      (forall k :: 0 <= k < i ==> output[k] == OutputRow(picture, lay, OutRow(picture, lay, k))) && Cache(i)
    }

    ghost predicate Cache(i: nat)
      requires Shaped() && i <= lay.height
      reads loaded
    {
      if lay.width > lay.sourceWidth then EnlargingCache(picture, lay, i, loaded[0], loaded[1])
      else loaded[0] == -1 && LastRead(picture, lay, loaded[1], Reads(picture, lay, i))
    }

    /** Where a pass that failed stopped: the rows read so far are still the first ones, in file order. */
    ghost predicate Stopped()
      reads this
    {
      Ready(picture, lay) && |log| <= lay.sourceHeight && log == FileRows(picture, lay, |log|)
    }

    /** One enlarged row. */
    method Enlarge(i: nat) returns (ok: bool)
      requires Between(i) && i < lay.height && lay.width > lay.sourceWidth
      modifies gray, loaded, accum, this`log, this`faults
      ensures Valid() && old(faults) <= faults
      ensures ok ==> accum[..] == OutputRow(picture, lay, OutRow(picture, lay, i)) && Cache(i + 1) &&
                     log == FileRows(picture, lay, Reads(picture, lay, i + 1))
      ensures !ok ==> Stopped() && old(faults) < faults
    {
      hide WindowRow, FileRow, Holds, Row0, Row1, OutputRow, FileRows, Reads, Misses;
      var outY := OutRow(picture, lay, i);
      var y0, y1 := Row0(outY, lay.height, lay.sourceHeight), Row1(outY, lay.height, lay.sourceHeight);
      MissesAreNext(picture, lay, i, loaded[0], loaded[1]);
      ReadsBounded(picture, lay, i);
      ReadsBounded(picture, lay, i + 1);
      var rows := RowsFor(y0, y1);
      if rows.None? {
        return false;
      }
      EnlargeRow(rows.value.0, rows.value.1, outY);
      ok := true;
    }

    /** Adds one row of a box, reading it unless it is the row read last. */
    method ReduceRow(y: nat, ghost n: nat) returns (ok: bool)
      requires Valid() && y < lay.sourceHeight && loaded[0] == -1 && LastRead(picture, lay, loaded[1], n)
      requires log == FileRows(picture, lay, n)
      requires Position(picture, lay, y) == n || Position(picture, lay, y) + 1 == n
      modifies gray, loaded, accum, this`log, this`faults
      ensures Valid() && old(faults) <= faults && (!ok ==> old(faults) < faults && log == old(log))
      ensures ok ==> loaded[0] == -1 && loaded[1] == y && log == FileRows(picture, lay, Position(picture, lay, y) + 1)
      ensures ok ==> forall k :: 0 <= k < lay.width ==>
                accum[k] == old(accum[k]) + AverageFrom(WindowRow(picture, lay, y), lay, k)
    {
      hide WindowRow, FileRow, Holds, AverageFrom, FileRows;
      if Position(picture, lay, y) == n {
        NextFileRow(picture, lay, y, n);
      }
      var slot := RowFor(y, -1);
      if slot.None? {
        return false;
      }
      AddRow(slot.value, y);
      ok := true;
    }

    /** One row of averages. */
    method Reduce(i: nat) returns (ok: bool)
      requires Between(i) && i < lay.height && lay.width <= lay.sourceWidth
      modifies gray, loaded, accum, this`log, this`faults
      ensures Valid() && old(faults) <= faults
      ensures ok ==> accum[..] == OutputRow(picture, lay, OutRow(picture, lay, i)) && Cache(i + 1) &&
                     log == FileRows(picture, lay, Reads(picture, lay, i + 1))
      ensures !ok ==> Stopped() && old(faults) < faults
    {
      hide WindowRow, FileRow, Holds, FileRows, Reads, AverageFrom, Added, BoxStart, BoxEnd, Pixel, OutRow;
      var outY := OutRow(picture, lay, i);
      BoxInside(outY, lay.height, lay.sourceHeight);
      var y0, y1 := BoxStart(outY, lay.height, lay.sourceHeight), BoxEnd(outY, lay.height, lay.sourceHeight);
      BoxAsksInOrder(picture, lay, i);
      ghost var n: nat := Reads(picture, lay, i);
      ReadsBounded(picture, lay, i);
      Clear();
      forall x | 0 <= x < lay.width ensures accum[x] == Added(picture, lay, x, y0, y1, y0) {
        AddedAll(picture, lay, x, outY, y0, y1);
      }
      for k := y0 to y1
        invariant Valid() && loaded[0] == -1 && LastRead(picture, lay, loaded[1], n)
        invariant n <= lay.sourceHeight && log == FileRows(picture, lay, n)
        invariant if k == y0 then n == Reads(picture, lay, i)
                  else n == Position(picture, lay, BoxRow(picture, y0, y1, k - 1)) + 1
        invariant forall x :: 0 <= x < lay.width ==> accum[x] == Added(picture, lay, x, y0, y1, k)
        invariant old(faults) <= faults
      {
        var y := BoxRow(picture, y0, y1, k);
        ok := ReduceRow(y, n);
        if !ok {
          return;
        }
        n := Position(picture, lay, y) + 1;
        forall x | 0 <= x < lay.width
          ensures Added(picture, lay, x, y0, y1, k + 1) ==
                  Added(picture, lay, x, y0, y1, k) + AverageFrom(WindowRow(picture, lay, y), lay, x)
        {
          AddedNext(picture, lay, x, y0, y1, k);
        }
      }
      forall x | 0 <= x < lay.width
        ensures y0 < y1 && Added(picture, lay, x, y0, y1, y1) / (y1 - y0) == Pixel(picture, lay, x, outY)
      {
        AddedAll(picture, lay, x, outY, y0, y1);
      }
      Divide(y1 - y0);
      ok := true;
    }

    method Clear()
      requires Shaped()
      modifies accum
      ensures forall x :: 0 <= x < lay.width ==> accum[x] == 0
    {
      for x := 0 to lay.width
        invariant forall k :: 0 <= k < x ==> accum[k] == 0
      {
        accum[x] := 0;
      }
    }

    method Divide(rows: nat)
      requires Shaped() && rows > 0
      modifies accum
      ensures forall x :: 0 <= x < lay.width ==> accum[x] == old(accum[x]) / rows
    {
      for x := 0 to lay.width
        invariant forall k :: 0 <= k < x ==> accum[k] == old(accum[k]) / rows
        invariant forall k :: x <= k < lay.width ==> accum[k] == old(accum[k])
      {
        accum[x] := accum[x] / rows;
      }
    }

    /**
     * The whole picture: on success every row of the window has been read once and in file order, and every
     * output row has been emitted once, in the order of the file that is written.
     */
    method Scale() returns (ok: bool)
      requires Ready(picture, lay) && Valid() && loaded[0] == loaded[1] == -1 && log == [] && output == []
      modifies this, gray, loaded, accum
      ensures ok ==> log == FileRows(picture, lay, lay.sourceHeight) && |output| == lay.height &&
                     forall i :: 0 <= i < lay.height ==> output[i] == OutputRow(picture, lay, OutRow(picture, lay, i))
      ensures !ok ==> Stopped() && |output| <= lay.height && old(faults) < faults
      ensures forall i :: 0 <= i < |output| ==> output[i] == OutputRow(picture, lay, OutRow(picture, lay, i))
    {
      hide WindowRow, FileRow, Holds, Reads, OutputRow, FileRows;
      NoReads(picture, lay);
      for i := 0 to lay.height
        invariant Between(i) && old(faults) <= faults
      {
        if lay.width > lay.sourceWidth {
          ok := Enlarge(i);
        } else {
          ok := Reduce(i);
        }
        if !ok {
          return;
        }
        var writeFails: bool := *;
        if writeFails {
          faults := faults + 1;
          ReadsBounded(picture, lay, i + 1);
          return false;
        }
        output := output + [accum[..]];
      }
      ReadsAll(picture, lay);
      ok := true;
    }
  }

  /**
   * The rows of the window were read in file order, each once, and the scaled rows are emitted in the same direction:
   * in a top-down file from the first row of the window on, in a bottom-up file from its last one.
   */
  predicate InFileOrder(p: Picture, lay: Layout, output: seq<seq<int>>, log: seq<int>)
    requires Ready(p, lay)
  {
    |log| == lay.sourceHeight && |output| == lay.height &&
    (forall k :: 0 <= k < |log| ==>
       log[k] == (if p.topDown then lay.sourceY else |p.rows| - lay.sourceY - lay.sourceHeight) + k) &&
    forall i, outX :: 0 <= i < |output| && 0 <= outX < lay.width ==>
      |output[i]| == lay.width &&
      var outY := if p.topDown then i else lay.height - 1 - i;
      output[i][outX] ==
      if lay.width > lay.sourceWidth then EnlargedPixel(p, lay, outX, outY) else AveragedPixel(p, lay, outX, outY)
  }

  lemma OrderIs(p: Picture, lay: Layout, output: seq<seq<int>>, log: seq<int>)
    requires Ready(p, lay) && log == FileRows(p, lay, lay.sourceHeight) && |output| == lay.height
    requires forall i :: 0 <= i < |output| ==> output[i] == OutputRow(p, lay, OutRow(p, lay, i))
    ensures InFileOrder(p, lay, output, log)
  {
    hide EnlargedPixel, AveragedPixel;
  }

  /** Row y of the window lies that many rows from the top of the picture, which a bottom-up file has at its end. */
  lemma SourceByFile(p: Picture, lay: Layout, x: nat, y: nat)
    requires Ready(p, lay) && x < lay.sourceWidth && y < lay.sourceHeight
    ensures var row := if p.topDown then lay.sourceY + y else |p.rows| - 1 - lay.sourceY - y;
            0 <= row < |p.rows| && |p.rows[row]| == p.width &&
            SourcePixel(p, lay, x, y) == p.rows[row][lay.sourceX + x]
  {
  }

  /** Scales a bitmap of acceptable size to a target, cropping or fitting. */
  method Convert(p: Picture, targetWidth: int, targetHeight: int, crop: bool)
    returns (ok: bool, lay: Option<Layout>, output: seq<seq<int>>, log: seq<int>, ghost faults: nat)
    requires WellFormed(p)
    ensures lay == CalculateLayout(p.width, |p.rows|, targetWidth, targetHeight, crop)
    ensures lay.None? ==> !ok && output == [] && log == []
    ensures lay.Some? ==> Ready(p, lay.value)
    ensures lay.Some? && faults == 0 ==> ok
    ensures ok ==> lay.Some? && log == FileRows(p, lay.value, lay.value.sourceHeight) && |output| == lay.value.height &&
                   forall i :: 0 <= i < |output| ==> output[i] == OutputRow(p, lay.value, OutRow(p, lay.value, i))
    ensures ok ==> InFileOrder(p, lay.value, output, log)
  {
    hide CalculateLayout, OutputRow, FileRows, InFileOrder;
    output, log, faults := [], [], 0;
    lay := CalculateLayout(p.width, |p.rows|, targetWidth, targetHeight, crop);
    if lay.None? {
      return false, lay, [], [], 0;
    }
    CalculatedIsReady(p, targetWidth, targetHeight, crop);
    var scaler := new Scaler(p, lay.value);
    ok := scaler.Scale();
    output, log, faults := scaler.output, scaler.log, scaler.faults;
    if ok { OrderIs(p, lay.value, output, log); }
  }
}
