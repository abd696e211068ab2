/** The tables of a font and the searches over its codepoint intervals. */
module FontTables {
  import opened Bytes
  import opened Options

  datatype Glyph = Glyph(width: byte, height: byte, advanceX: nat, dataLength: nat, dataOffset: nat)

  /** Codepoints first to last have the glyphs from offset on. */
  datatype Interval = Interval(first: nat, last: nat, offset: nat)

  /** Intervals ascend and do not overlap. */
  predicate Ascending(intervals: seq<Interval>)
  {
    (forall i :: 0 <= i < |intervals| ==> intervals[i].first <= intervals[i].last) &&
    forall i, j :: 0 <= i < j < |intervals| ==> intervals[i].last < intervals[j].first
  }

  predicate Covers(interval: Interval, cp: nat) { interval.first <= cp <= interval.last }

  /** The glyph of a codepoint by a plain scan from the front. */
  function GlyphOf(intervals: seq<Interval>, cp: nat): (r: Option<nat>)
  {
    if intervals == [] then None
    else if Covers(intervals[0], cp) then Some(intervals[0].offset + (cp - intervals[0].first))
    else GlyphOf(intervals[1..], cp)
  }

  lemma {:induction false} GlyphOfCovered(intervals: seq<Interval>, cp: nat, k: nat)
    requires Ascending(intervals) && k < |intervals| && intervals[k].first <= cp <= intervals[k].last
    ensures GlyphOf(intervals, cp) == Some(intervals[k].offset + (cp - intervals[k].first))
  {
    if k > 0 {
      assert intervals[0].last < intervals[k].first;
      GlyphOfCovered(intervals[1..], cp, k - 1);
    }
  }

  lemma {:induction false} GlyphOfUncovered(intervals: seq<Interval>, cp: nat)
    requires forall k :: 0 <= k < |intervals| ==> cp < intervals[k].first || intervals[k].last < cp
    ensures GlyphOf(intervals, cp) == None
  {
    if intervals != [] {
      assert forall k :: 0 <= k < |intervals[1..]| ==> intervals[1..][k] == intervals[k + 1];
      GlyphOfUncovered(intervals[1..], cp);
    }
  }

  /** The binary search with closed bounds that the decompressor uses. */
  method FindGlyphIndex(intervals: seq<Interval>, cp: nat) returns (r: Option<nat>)
    requires Ascending(intervals)
    ensures r == GlyphOf(intervals, cp)
  {
    var left, right := 0, |intervals| - 1;
    while left <= right
      invariant 0 <= left <= right + 1 <= |intervals|
      invariant forall k :: 0 <= k < left ==> intervals[k].last < cp
      invariant forall k :: right < k < |intervals| ==> cp < intervals[k].first
    {
      var mid := left + (right - left) / 2;
      if cp < intervals[mid].first {
        right := mid - 1;
      } else if cp > intervals[mid].last {
        left := mid + 1;
      } else {
        GlyphOfCovered(intervals, cp, mid);
        return Some(intervals[mid].offset + (cp - intervals[mid].first));
      }
    }
    GlyphOfUncovered(intervals, cp);
    r := None;
  }

  /** The number of intervals that start at or before cp: the upper bound of cp among the starts. */
  method UpperBound(intervals: seq<Interval>, cp: nat) returns (k: nat)
    requires Ascending(intervals)
    ensures k <= |intervals|
    ensures forall i :: 0 <= i < k ==> intervals[i].first <= cp
    ensures forall i :: k <= i < |intervals| ==> cp < intervals[i].first
  {
    var length := |intervals|;
    k := 0;
    while length > 0
      invariant 0 <= length && k + length <= |intervals|
      invariant forall i :: 0 <= i < k ==> intervals[i].first <= cp
      invariant forall i :: k + length <= i < |intervals| ==> cp < intervals[i].first
      decreases length
    {
      var half := length / 2;
      if cp < intervals[k + half].first {
        length := half;
      } else {
        k := k + half + 1;
        length := length - half - 1;
      }
    }
  }

  /** The search over half-open bounds that text layout uses: only the last interval starting before cp can hold it. */
  method LookUpGlyph(intervals: seq<Interval>, cp: nat) returns (r: Option<nat>)
    requires Ascending(intervals)
    ensures r == GlyphOf(intervals, cp)
  {
    var k := UpperBound(intervals, cp);
    if k > 0 && cp <= intervals[k - 1].last {
      GlyphOfCovered(intervals, cp, k - 1);
      return Some(intervals[k - 1].offset + (cp - intervals[k - 1].first));
    }
    forall i | 0 <= i < |intervals| ensures cp < intervals[i].first || intervals[i].last < cp {
      if i + 1 < k { assert intervals[i].last < intervals[k - 1].first; }
    }
    GlyphOfUncovered(intervals, cp);
    r := None;
  }
}
