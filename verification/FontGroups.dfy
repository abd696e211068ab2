/** Compressed fonts: glyph bitmaps in groups, each group inflated as a whole. */
module FontGroups {
  import opened Bytes
  import opened Options
  import opened FontTables
  import opened GlyphPacking

  datatype Group = Group(uncompressedSize: nat, glyphCount: nat, firstGlyphIndex: nat)

  datatype LigaturePair = LigaturePair(left: nat, right: nat, ligature: nat)

  /**
   * A font as the decompressor sees it. `inflated` stands for the compressed data: what a successful inflate
   * of each group yields. Two fonts are the same when they are equal; id tells copies apart.
   */
  datatype FontData = FontData(
    id: nat, glyphs: seq<Glyph>, intervals: seq<Interval>, groups: seq<Group>, glyphToGroup: Option<seq<nat>>,
    ligatures: seq<LigaturePair>, inflated: seq<seq<byte>>)

  predicate InGroup(group: Group, i: nat)
  {
    group.firstGlyphIndex <= i < group.firstGlyphIndex + group.glyphCount
  }

  /** The first group from k on whose range holds glyph i, or the number of groups. */
  function ScanGroups(groups: seq<Group>, i: nat, k: nat): (g: nat)
    requires k <= |groups|
    ensures k <= g <= |groups| && (g < |groups| ==> InGroup(groups[g], i))
    ensures forall j :: k <= j < g ==> !InGroup(groups[j], i)
    decreases |groups| - k
  {
    if k == |groups| || InGroup(groups[k], i) then k else ScanGroups(groups, i, k + 1)
  }

  /** The group of a glyph, or the number of groups when it has none. */
  function GroupIndex(font: FontData, i: nat): nat
    requires font.glyphToGroup.Some? ==> i < |font.glyphToGroup.value|
  {
    match font.glyphToGroup
    case Some(groupOf) => groupOf[i]
    case None => ScanGroups(font.groups, i, 0)
  }

  function GlyphAlignedSize(font: FontData, i: nat): nat
    requires i < |font.glyphs|
  {
    AlignedSize(font.glyphs[i].width, font.glyphs[i].height)
  }

  /** The padded bytes of the glyphs below n that the map puts into group g. */
  function MappedOffset(font: FontData, g: nat, n: nat): nat
    requires font.glyphToGroup.Some? && n <= |font.glyphToGroup.value| == |font.glyphs|
  {
    if n == 0 then 0
    else MappedOffset(font, g, n - 1) + if font.glyphToGroup.value[n - 1] == g then GlyphAlignedSize(font, n - 1) else 0
  }

  /** The padded bytes of the glyphs from first up to n. */
  function RunOffset(font: FontData, first: nat, n: nat): nat
    requires first <= n <= |font.glyphs|
  {
    if n == first then 0 else RunOffset(font, first, n - 1) + GlyphAlignedSize(font, n - 1)
  }

  /** Tables as the font generator writes them. */
  predicate WellFormed(font: FontData)
  {
    |font.groups| > 0 && |font.inflated| == |font.groups| &&
    |font.intervals| > 0 && Ascending(font.intervals) &&
    (forall k :: 0 <= k < |font.intervals| ==>
      font.intervals[k].offset + (font.intervals[k].last - font.intervals[k].first) < |font.glyphs|) &&
    (forall g :: 0 <= g < |font.groups| ==> |font.inflated[g]| == font.groups[g].uncompressedSize) &&
    (forall i :: 0 <= i < |font.glyphs| ==>
      font.glyphs[i].dataLength == PackedSize(font.glyphs[i].width, font.glyphs[i].height)) &&
    (match font.glyphToGroup
     case Some(groupOf) => MappedWell(font, groupOf)
     case None => PartitionedWell(font))
  }

  /** Frequency grouping: a group for every glyph, and the intervals end with the last glyph. */
  predicate MappedWell(font: FontData, groupOf: seq<nat>)
    requires font.glyphToGroup == Some(groupOf) && |font.inflated| == |font.groups| && |font.intervals| > 0
  {
    var last := font.intervals[|font.intervals| - 1];
    |groupOf| == |font.glyphs| == last.offset + (last.last - last.first + 1) &&
    (forall i :: 0 <= i < |groupOf| ==> groupOf[i] < |font.groups|) &&
    forall i :: 0 <= i < |groupOf| ==>
      MappedOffset(font, groupOf[i], i) + GlyphAlignedSize(font, i) <= |font.inflated[groupOf[i]]|
  }

  /** Contiguous grouping: the group ranges are disjoint and cover the glyphs. */
  predicate PartitionedWell(font: FontData)
    requires font.glyphToGroup == None && |font.inflated| == |font.groups|
  {
    (forall g :: 0 <= g < |font.groups| ==>
      font.groups[g].firstGlyphIndex + font.groups[g].glyphCount <= |font.glyphs|) &&
    (forall g, h, i :: 0 <= g < h < |font.groups| && 0 <= i < |font.glyphs| && InGroup(font.groups[g], i) ==>
      !InGroup(font.groups[h], i)) &&
    (forall i :: 0 <= i < |font.glyphs| ==> GroupIndex(font, i) < |font.groups|) &&
    forall i :: 0 <= i < |font.glyphs| ==>
      var g := GroupIndex(font, i);
      font.groups[g].firstGlyphIndex <= i &&
      RunOffset(font, font.groups[g].firstGlyphIndex, i) + GlyphAlignedSize(font, i) <= |font.inflated[g]|
  }

  lemma GroupOfGlyph(font: FontData, i: nat)
    requires WellFormed(font) && i < |font.glyphs|
    ensures font.glyphToGroup.Some? ==> |font.glyphToGroup.value| == |font.glyphs|
    ensures GroupIndex(font, i) < |font.groups|
    ensures font.glyphToGroup.None? ==> font.groups[GroupIndex(font, i)].firstGlyphIndex <= i
    ensures |font.inflated[GroupIndex(font, i)]| == font.groups[GroupIndex(font, i)].uncompressedSize
    ensures font.glyphs[i].dataLength == PackedSize(font.glyphs[i].width, font.glyphs[i].height)
  {
  }

  /** Where the padded rows of glyph i start in its inflated group. */
  function AlignedOffset(font: FontData, i: nat): nat
    requires WellFormed(font) && i < |font.glyphs|
  {
    GroupOfGlyph(font, i);
    match font.glyphToGroup
    case Some(_) => MappedOffset(font, GroupIndex(font, i), i)
    case None => RunOffset(font, font.groups[GroupIndex(font, i)].firstGlyphIndex, i)
  }

  lemma GlyphInside(font: FontData, i: nat)
    requires WellFormed(font) && i < |font.glyphs|
    ensures GroupIndex(font, i) < |font.inflated|
    ensures Holds(font.inflated[GroupIndex(font, i)], AlignedOffset(font, i), font.glyphs[i].width,
                  font.glyphs[i].height)
  {
    GroupOfGlyph(font, i);
  }

  /** The packed bitmap of glyph i, taken from its own inflated group. */
  function GlyphBits(font: FontData, i: nat): (bits: seq<byte>)
    requires WellFormed(font) && i < |font.glyphs|
    ensures |bits| == font.glyphs[i].dataLength
  {
    GlyphInside(font, i);
    GroupOfGlyph(font, i);
    Packed(font.inflated[GroupIndex(font, i)], AlignedOffset(font, i), font.glyphs[i].width, font.glyphs[i].height)
  }

  lemma GlyphOfValid(font: FontData, cp: nat)
    requires WellFormed(font)
    ensures GlyphOf(font.intervals, cp).Some? ==> GlyphOf(font.intervals, cp).value < |font.glyphs|
  {
    ScanInside(font.intervals, cp, |font.glyphs|);
  }

  lemma {:induction false} ScanInside(intervals: seq<Interval>, cp: nat, n: nat)
    requires forall k :: 0 <= k < |intervals| ==> intervals[k].offset + (intervals[k].last - intervals[k].first) < n
    ensures GlyphOf(intervals, cp).Some? ==> GlyphOf(intervals, cp).value < n
  {
    if intervals != [] && !Covers(intervals[0], cp) {
      ScanInside(intervals[1..], cp, n);
    }
  }

  // ---- The offset computations of the decompressor ----

  /** Sums the padded sizes in front of a glyph, by map or by range. */
  method GetAlignedOffset(font: FontData, i: nat) returns (offset: nat)
    requires WellFormed(font) && i < |font.glyphs|
    ensures offset == AlignedOffset(font, i)
  {
    hide WellFormed, GroupIndex, Stride;
    GroupOfGlyph(font, i);
    var group := GetGroupIndex(font, i);
    offset := 0;
    if font.glyphToGroup.Some? {
      for k := 0 to i
        invariant offset == MappedOffset(font, group, k)
      {
        if font.glyphToGroup.value[k] == group && font.glyphs[k].width > 0 && font.glyphs[k].height > 0 {
          offset := offset + Stride(font.glyphs[k].width) * font.glyphs[k].height;
        }
      }
    } else {
      var first := font.groups[group].firstGlyphIndex;
      for k := first to i
        invariant offset == RunOffset(font, first, k)
      {
        if font.glyphs[k].width > 0 && font.glyphs[k].height > 0 {
          offset := offset + Stride(font.glyphs[k].width) * font.glyphs[k].height;
        }
      }
    }
  }

  method GetGroupIndex(font: FontData, i: nat) returns (group: nat)
    requires font.glyphToGroup.Some? ==> i < |font.glyphToGroup.value|
    ensures group == GroupIndex(font, i)
  {
    if font.glyphToGroup.Some? {
      return font.glyphToGroup.value[i];
    }
    group := 0;
    while group < |font.groups|
      invariant group <= |font.groups| && ScanGroups(font.groups, i, group) == ScanGroups(font.groups, i, 0)
    {
      if InGroup(font.groups[group], i) {
        return;
      }
      group := group + 1;
    }
  }
}
