/** Preparing a page slot: which glyphs and groups it needs, where each glyph lies, and the layout of its buffer. */
module FontPrewarm {
  import opened Bytes
  import opened Options
  import opened FontTables
  import opened GlyphPacking
  import opened FontGroups
  import opened PageTable

  const MAX_PAGE_GLYPHS: nat := 512
  const MAX_PAGE_GROUPS: nat := 128

  predicate Distinct(s: seq<nat>)
  {
    forall i, j :: 0 <= i < j < |s| ==> s[i] != s[j]
  }

  method Contains(s: seq<nat>, x: nat) returns (found: bool)
    ensures found <==> x in s
  {
    for i := 0 to |s|
      invariant x !in s[..i]
    {
      if s[i] == x {
        return true;
      }
    }
    found := false;
  }

  // ---- Step 1: the glyphs ----

  /** x is the glyph of a codepoint of the text or of some ligature. */
  predicate Wanted(font: FontData, text: seq<nat>, x: nat)
  {
    (exists k :: 0 <= k < |text| && GlyphOf(font.intervals, text[k]) == Some(x)) ||
    exists l :: 0 <= l < |font.ligatures| && GlyphOf(font.intervals, font.ligatures[l].ligature) == Some(x)
  }

  predicate GlyphSet(font: FontData, text: seq<nat>, needed: seq<nat>)
  {
    Distinct(needed) && |needed| <= 512 &&
    forall i :: 0 <= i < |needed| ==> needed[i] < |font.glyphs| && Wanted(font, text, needed[i])
  }

  /** Adds a glyph that is not there yet, while there is room. */
  method AddGlyph(font: FontData, text: seq<nat>, needed: seq<nat>, x: nat) returns (r: seq<nat>)
    requires GlyphSet(font, text, needed) && x < |font.glyphs| && Wanted(font, text, x)
    ensures GlyphSet(font, text, r) && needed <= r && (x in r || |r| == MAX_PAGE_GLYPHS)
  {
    hide Wanted;
    var found := Contains(needed, x);
    r := if !found && |needed| < MAX_PAGE_GLYPHS then needed + [x] else needed;
  }

  /** The glyph of a codepoint is collected, or the set is full, or there is none. */
  predicate Collected(font: FontData, cp: nat, needed: seq<nat>)
  {
    GlyphOf(font.intervals, cp).None? || GlyphOf(font.intervals, cp).value in needed || |needed| == MAX_PAGE_GLYPHS
  }

  method CollectTextGlyphs(font: FontData, text: seq<nat>) returns (needed: seq<nat>)
    requires WellFormed(font)
    ensures GlyphSet(font, text, needed)
    ensures forall k :: 0 <= k < |text| ==> Collected(font, text[k], needed)
  {
    hide GlyphSet, Wanted;
    needed := [];
    assert GlyphSet(font, text, needed) by { NoGlyphs(font, text); }
    for k := 0 to |text|
      invariant GlyphSet(font, text, needed)
      invariant forall j :: 0 <= j < k ==> Collected(font, text[j], needed)
    {
      GlyphOfValid(font, text[k]);
      var x := FindGlyphIndex(font.intervals, text[k]);
      if x.Some? {
        TextWanted(font, text, k);
        ghost var before := needed;
        needed := AddGlyph(font, text, needed, x.value);
        GlyphSetRoom(font, text, needed);
        assert forall y :: y in before ==> y in needed;
      }
    }
  }

  lemma NoGlyphs(font: FontData, text: seq<nat>)
    ensures GlyphSet(font, text, [])
  {
  }

  lemma GlyphSetRoom(font: FontData, text: seq<nat>, needed: seq<nat>)
    requires GlyphSet(font, text, needed)
    ensures |needed| <= MAX_PAGE_GLYPHS
  {
  }

  lemma TextWanted(font: FontData, text: seq<nat>, k: nat)
    requires k < |text| && GlyphOf(font.intervals, text[k]).Some?
    ensures Wanted(font, text, GlyphOf(font.intervals, text[k]).value)
  {
  }

  lemma LigatureWanted(font: FontData, text: seq<nat>, l: nat)
    requires l < |font.ligatures| && GlyphOf(font.intervals, font.ligatures[l].ligature).Some?
    ensures Wanted(font, text, GlyphOf(font.intervals, font.ligatures[l].ligature).value)
  {
  }

  /** Both input glyphs of a ligature are in the set. */
  predicate InputsIn(font: FontData, l: LigaturePair, needed: seq<nat>)
  {
    GlyphOf(font.intervals, l.left).Some? && GlyphOf(font.intervals, l.left).value in needed &&
    GlyphOf(font.intervals, l.right).Some? && GlyphOf(font.intervals, l.right).value in needed
  }

  /** Adds the output glyph of every ligature whose inputs are both needed. */
  method AddLigatureGlyphs(font: FontData, text: seq<nat>, needed0: seq<nat>) returns (needed: seq<nat>)
    requires WellFormed(font) && GlyphSet(font, text, needed0)
    ensures GlyphSet(font, text, needed) && needed0 <= needed
    ensures forall l :: 0 <= l < |font.ligatures| && InputsIn(font, font.ligatures[l], needed0) ==>
              Collected(font, font.ligatures[l].ligature, needed)
  {
    hide GlyphSet, Wanted, WellFormed;
    needed := needed0;
    GlyphSetRoom(font, text, needed);
    var l := 0;
    while l < |font.ligatures| && |needed| < MAX_PAGE_GLYPHS
      invariant 0 <= l <= |font.ligatures| && GlyphSet(font, text, needed) && needed0 <= needed
      invariant |needed| <= MAX_PAGE_GLYPHS
      invariant forall k :: 0 <= k < l && InputsIn(font, font.ligatures[k], needed0) ==>
                  Collected(font, font.ligatures[k].ligature, needed)
    {
      needed := AddLigature(font, text, needed, l);
      GlyphSetRoom(font, text, needed);
      assert InputsIn(font, font.ligatures[l], needed0) ==> Collected(font, font.ligatures[l].ligature, needed);
      l := l + 1;
    }
  }

  method AddLigature(font: FontData, text: seq<nat>, needed: seq<nat>, l: nat) returns (r: seq<nat>)
    requires WellFormed(font) && GlyphSet(font, text, needed) && l < |font.ligatures|
    ensures GlyphSet(font, text, r) && needed <= r
    ensures forall earlier :: earlier <= needed && InputsIn(font, font.ligatures[l], earlier) ==>
              Collected(font, font.ligatures[l].ligature, r)
    ensures forall k :: 0 <= k < |font.ligatures| && Collected(font, font.ligatures[k].ligature, needed) ==>
              Collected(font, font.ligatures[k].ligature, r)
  {
    hide GlyphSet, Wanted;
    r := needed;
    var pair := font.ligatures[l];
    GlyphSetRoom(font, text, needed);
    var left := FindGlyphIndex(font.intervals, pair.left);
    var right := FindGlyphIndex(font.intervals, pair.right);
    if left.None? || right.None? {
      return;
    }
    var hasLeft := Contains(needed, left.value);
    var hasRight := Contains(needed, right.value);
    if !hasLeft || !hasRight {
      return;
    }
    var out := FindGlyphIndex(font.intervals, pair.ligature);
    if out.None? {
      return;
    }
    GlyphOfValid(font, pair.ligature);
    LigatureWanted(font, text, l);
    r := AddGlyph(font, text, needed, out.value);
    GlyphSetRoom(font, text, r);
  }

  // ---- Step 2: the groups and the buffer size ----

  function TotalLength(font: FontData, needed: seq<nat>): nat
    requires forall i :: 0 <= i < |needed| ==> needed[i] < |font.glyphs|
  {
    if needed == [] then 0
    else TotalLength(font, needed[..|needed| - 1]) + font.glyphs[needed[|needed| - 1]].dataLength
  }

  predicate GroupSet(font: FontData, groups: seq<nat>)
  {
    Distinct(groups) && |groups| <= 128 && forall j :: 0 <= j < |groups| ==> groups[j] < |font.groups|
  }

  /** The group of a glyph of a well-formed font. */
  function GroupOf(font: FontData, i: nat): (g: nat)
    requires WellFormed(font) && i < |font.glyphs|
    ensures g < |font.groups|
  {
    GroupOfGlyph(font, i);
    GroupIndex(font, i)
  }

  /** The groups that hold glyphs of the set. */
  function GroupsOf(font: FontData, needed: seq<nat>): set<nat>
    requires WellFormed(font) && forall i :: 0 <= i < |needed| ==> needed[i] < |font.glyphs|
  {
    set i | 0 <= i < |needed| :: GroupOf(font, needed[i])
  }

  function Elements(s: seq<nat>): set<nat> { set x | x in s }

  lemma {:induction false} DistinctSize(s: seq<nat>)
    requires Distinct(s)
    ensures |Elements(s)| == |s|
  {
    if s == [] {
      assert Elements(s) == {};
    } else {
      var n := |s| - 1;
      DistinctSize(s[..n]);
      assert s == s[..n] + [s[n]];
      assert Elements(s) == Elements(s[..n]) + {s[n]};
    }
  }

  lemma SubsetSize(a: set<nat>, b: set<nat>)
    requires a <= b
    ensures |a| <= |b|
  {
    if a != {} {
      var x :| x in a;
      SubsetSize(a - {x}, b - {x});
    }
  }

  /** A group that is not in a full list of needed groups is one too many. */
  lemma OneTooMany(font: FontData, needed: seq<nat>, groups: seq<nat>, group: nat)
    requires WellFormed(font) && forall i :: 0 <= i < |needed| ==> needed[i] < |font.glyphs|
    requires Distinct(groups) && group !in groups && group in GroupsOf(font, needed)
    requires forall g :: g in groups ==> g in GroupsOf(font, needed)
    ensures |GroupsOf(font, needed)| > |groups|
  {
    hide GroupsOf, WellFormed;
    var all := groups + [group];
    assert Distinct(all);
    DistinctSize(all);
    SubsetSize(Elements(all), GroupsOf(font, needed));
  }

  /** Collects the groups of the needed glyphs: all of them, if there are no more than the limit. */
  method CollectGroups(font: FontData, needed: seq<nat>) returns (groups: seq<nat>, totalBytes: nat)
    requires WellFormed(font) && forall i :: 0 <= i < |needed| ==> needed[i] < |font.glyphs|
    ensures GroupSet(font, groups) && totalBytes == TotalLength(font, needed)
    ensures forall g :: g in groups ==> g in GroupsOf(font, needed)
    ensures |GroupsOf(font, needed)| <= MAX_PAGE_GROUPS ==>
              forall i :: 0 <= i < |needed| ==> GroupOf(font, needed[i]) in groups
  {
    hide WellFormed, GroupOf;
    groups, totalBytes := [], 0;
    for i := 0 to |needed|
      invariant GroupSet(font, groups) && totalBytes == TotalLength(font, needed[..i])
      invariant forall g :: g in groups ==> g in GroupsOf(font, needed)
      invariant (forall j :: 0 <= j < i ==> GroupOf(font, needed[j]) in groups) ||
                |GroupsOf(font, needed)| > MAX_PAGE_GROUPS
    {
      assert needed[..i + 1][..i] == needed[..i];
      totalBytes := totalBytes + font.glyphs[needed[i]].dataLength;
      var group := GroupIndexOf(font, needed[i]);
      assert group in GroupsOf(font, needed);
      var found := Contains(groups, group);
      if !found {
        if |groups| < MAX_PAGE_GROUPS {
          groups := groups + [group];
        } else {
          OneTooMany(font, needed, groups, group);
        }
      }
    }
    assert needed[..|needed|] == needed;
  }

  method GroupIndexOf(font: FontData, glyph: nat) returns (group: nat)
    requires WellFormed(font) && glyph < |font.glyphs|
    ensures group == GroupOf(font, glyph) < |font.groups|
  {
    hide WellFormed;
    GroupOfGlyph(font, glyph);
    group := GetGroupIndex(font, glyph);
  }

  // ---- Step 3: the table ----

  function FreshEntry(x: nat): Entry { Entry(x, NOT_EXTRACTED, 0) }

  /** The bytes of the entries that have not been extracted. */
  function Unextracted(font: FontData, s: seq<Entry>): nat
    requires forall k :: 0 <= k < |s| ==> s[k].glyphIndex < |font.glyphs|
  {
    if s == [] then 0
    else
      var e := s[|s| - 1];
      Unextracted(font, s[..|s| - 1]) +
      if e.bufferOffset == NOT_EXTRACTED then font.glyphs[e.glyphIndex].dataLength else 0
  }

  predicate InFontRange(font: FontData, s: seq<Entry>)
  {
    forall k :: 0 <= k < |s| ==> s[k].glyphIndex < |font.glyphs|
  }

  lemma {:induction false} UnextractedConcat(font: FontData, s: seq<Entry>, t: seq<Entry>)
    requires InFontRange(font, s) && InFontRange(font, t)
    ensures Unextracted(font, s + t) == Unextracted(font, s) + Unextracted(font, t)
  {
    if t == [] {
      assert s + t == s;
    } else {
      UnextractedConcat(font, s, t[..|t| - 1]);
      assert (s + t)[..|s + t| - 1] == s + t[..|t| - 1];
    }
  }

  lemma UnextractedSplit(font: FontData, s: seq<Entry>, i: nat)
    requires InFontRange(font, s) && i < |s|
    ensures Unextracted(font, s) ==
            Unextracted(font, s[..i]) + Unextracted(font, [s[i]]) + Unextracted(font, s[i + 1..])
  {
    UnextractedConcat(font, s[..i] + [s[i]], s[i + 1..]);
    UnextractedConcat(font, s[..i], [s[i]]);
    assert s == s[..i] + [s[i]] + s[i + 1..];
  }

  /** The sum does not depend on the order. */
  lemma {:induction false} UnextractedSameBag(font: FontData, s: seq<Entry>, t: seq<Entry>)
    requires InFontRange(font, s) && InFontRange(font, t) && multiset(s) == multiset(t)
    ensures Unextracted(font, s) == Unextracted(font, t)
  {
    hide Unextracted;
    if s == [] {
      assert |multiset(t)| == 0;
    } else {
      var rest, e := s[..|s| - 1], s[|s| - 1];
      assert s[..|s| - 1] + s[|s|..] == rest;
      WithoutOne(s, |s| - 1);
      UnextractedWithout(font, s, |s| - 1);
      assert e in multiset(t);
      var k :| 0 <= k < |t| && t[k] == e;
      WithoutOne(t, k);
      UnextractedWithout(font, t, k);
      UnextractedSameBag(font, rest, t[..k] + t[k + 1..]);
    }
  }

  lemma UnextractedWithout(font: FontData, s: seq<Entry>, k: nat)
    requires InFontRange(font, s) && k < |s|
    ensures InFontRange(font, s[..k] + s[k + 1..])
    ensures Unextracted(font, s) == Unextracted(font, s[..k] + s[k + 1..]) + Unextracted(font, [s[k]])
  {
    hide Unextracted;
    UnextractedSplit(font, s, k);
    UnextractedConcat(font, s[..k], s[k + 1..]);
  }

  lemma WithoutOne<T>(s: seq<T>, k: nat)
    requires k < |s|
    ensures multiset(s[..k] + s[k + 1..]) == multiset(s) - multiset{s[k]}
  {
    assert s == s[..k] + [s[k]] + s[k + 1..];
  }

  lemma {:induction false} UnextractedFresh(font: FontData, needed: seq<nat>, s: seq<Entry>)
    requires |s| == |needed| &&
             forall i :: 0 <= i < |needed| ==> needed[i] < |font.glyphs| && s[i] == FreshEntry(needed[i])
    ensures InFontRange(font, s) && Unextracted(font, s) == TotalLength(font, needed)
  {
    if s != [] {
      UnextractedFresh(font, needed[..|s| - 1], s[..|s| - 1]);
    }
  }

  /** A table of fresh entries for the needed glyphs. */
  ghost predicate FreshTable(font: FontData, needed: seq<nat>, s: seq<Entry>)
    requires forall i :: 0 <= i < |needed| ==> needed[i] < |font.glyphs|
  {
    StrictlySorted(s) && InFontRange(font, s) && |s| == |needed| &&
    (forall k :: 0 <= k < |s| ==> s[k].glyphIndex in needed && s[k].bufferOffset == NOT_EXTRACTED) &&
    (forall i :: 0 <= i < |needed| ==> HasEntry(s, needed[i])) &&
    Unextracted(font, s) == TotalLength(font, needed)
  }

  predicate HasEntry(s: seq<Entry>, x: nat)
  {
    exists k :: 0 <= k < |s| && s[k].glyphIndex == x
  }

  method FillTable(font: FontData, needed: seq<nat>, entries: array<Entry>)
    requires Distinct(needed) && entries.Length == |needed|
    requires forall i :: 0 <= i < |needed| ==> needed[i] < |font.glyphs|
    modifies entries
    ensures FreshTable(font, needed, entries[..])
  {
    for i := 0 to |needed|
      invariant forall k :: 0 <= k < i ==> entries[k] == FreshEntry(needed[k])
    {
      entries[i] := FreshEntry(needed[i]);
    }
    ghost var filled := entries[..];
    SortByGlyph(entries);
    SortedTable(font, needed, filled, entries[..]);
  }

  lemma SortedTable(font: FontData, needed: seq<nat>, filled: seq<Entry>, s: seq<Entry>)
    requires Distinct(needed) && |filled| == |needed|
    requires forall i :: 0 <= i < |needed| ==> needed[i] < |font.glyphs| && filled[i] == FreshEntry(needed[i])
    requires Sorted(s) && multiset(s) == multiset(filled)
    ensures FreshTable(font, needed, s)
  {
    DistinctSorted(s, filled);
    UnextractedFresh(font, needed, filled);
    forall k | 0 <= k < |s| ensures s[k] in filled {
      assert s[k] in multiset(filled);
    }
    forall i | 0 <= i < |needed| ensures HasEntry(s, needed[i]) {
      assert filled[i] in multiset(s);
      var k :| 0 <= k < |s| && s[k] == filled[i];
    }
    assert InFontRange(font, s);
    UnextractedSameBag(font, s, filled);
    assert |multiset(s)| == |multiset(filled)|;
  }

  // ---- Step 3b: where each needed glyph lies in its group ----

  predicate SameButOffsets(s: seq<Entry>, t: seq<Entry>)
  {
    |s| == |t| && forall k :: 0 <= k < |s| ==> t[k] == s[k].(alignedOffset := t[k].alignedOffset)
  }

  /** The entry's offset is right if its group is among the given ones. */
  ghost predicate OffsetRight(font: FontData, groups: seq<nat>, e: Entry)
    requires WellFormed(font) && e.glyphIndex < |font.glyphs|
  {
    GroupOf(font, e.glyphIndex) in groups ==> e.alignedOffset == AlignedOffset(font, e.glyphIndex)
  }

  ghost predicate OffsetsRight(font: FontData, groups: seq<nat>, s: seq<Entry>)
    requires WellFormed(font) && InFontRange(font, s)
  {
    forall k :: 0 <= k < |s| ==> OffsetRight(font, groups, s[k])
  }

  method IndexOf(s: seq<nat>, x: nat) returns (pos: nat)
    ensures pos <= |s| && (pos < |s| ==> s[pos] == x) && (pos == |s| ==> x !in s)
    ensures forall j :: 0 <= j < pos ==> s[j] != x
  {
    pos := 0;
    while pos < |s| && s[pos] != x
      invariant pos <= |s| && forall j :: 0 <= j < pos ==> s[j] != x
    {
      pos := pos + 1;
    }
  }

  /** Notes the offset of glyph i in its entry, if it has one. */
  method NoteOffset(font: FontData, entries: array<Entry>, i: nat, offset: nat)
    requires InFontRange(font, entries[..]) && StrictlySorted(entries[..])
    modifies entries
    ensures SameButOffsets(old(entries[..]), entries[..])
    ensures InFontRange(font, entries[..]) && StrictlySorted(entries[..])
    ensures forall k :: 0 <= k < entries.Length ==>
              entries[k] == if entries[k].glyphIndex == i then old(entries[k]).(alignedOffset := offset)
                            else old(entries[k])
  {
    var pos := FindEntry(entries, i);
    ghost var before := entries[..];
    if pos >= 0 {
      entries[pos] := entries[pos].(alignedOffset := offset);
      assert forall k :: 0 <= k < entries.Length && k != pos ==> before[k].glyphIndex != before[pos].glyphIndex;
    }
    assert forall k :: 0 <= k < entries.Length ==> entries[..][k].glyphIndex == before[k].glyphIndex;
  }

  lemma MappedFacts(font: FontData)
    requires WellFormed(font) && font.glyphToGroup.Some?
    ensures var last := font.intervals[|font.intervals| - 1];
            |font.intervals| > 0 &&
            last.offset + (last.last - last.first + 1) == |font.glyphs| == |font.glyphToGroup.value|
  {
  }

  lemma MappedEntry(font: FontData, i: nat)
    requires WellFormed(font) && font.glyphToGroup.Some? && i < |font.glyphs|
    ensures |font.glyphToGroup.value| == |font.glyphs| && GroupOf(font, i) == font.glyphToGroup.value[i]
    ensures AlignedOffset(font, i) == MappedOffset(font, font.glyphToGroup.value[i], i)
  {
  }

  /** One pass over all glyphs, with a running offset for every needed group. */
  method PreScanMapped(font: FontData, groups: seq<nat>, entries: array<Entry>)
    requires WellFormed(font) && font.glyphToGroup.Some? && GroupSet(font, groups)
    requires InFontRange(font, entries[..]) && StrictlySorted(entries[..])
    modifies entries
    ensures SameButOffsets(old(entries[..]), entries[..])
    ensures InFontRange(font, entries[..]) && OffsetsRight(font, groups, entries[..])
  {
    hide WellFormed, GroupOf, AlignedOffset, SameButOffsets, StrictlySorted;
    MappedFacts(font);
    var last := font.intervals[|font.intervals| - 1];
    var totalGlyphs := last.offset + (last.last - last.first + 1);
    var tracker := new nat[MAX_PAGE_GROUPS](_ => 0);
    ghost var before := entries[..];
    SameOffsetsReflexive(before);
    for i := 0 to totalGlyphs
      invariant SameButOffsets(before, entries[..])
      invariant InFontRange(font, entries[..]) && StrictlySorted(entries[..])
      invariant forall j :: 0 <= j < |groups| ==> tracker[j] == MappedOffset(font, groups[j], i)
      invariant forall k :: 0 <= k < entries.Length && entries[k].glyphIndex < i ==>
                  OffsetRight(font, groups, entries[k])
    {
      MappedEntry(font, i);
      ghost var previous := entries[..];
      var gpPos := IndexOf(groups, font.glyphToGroup.value[i]);
      if gpPos < |groups| {
        NoteOffset(font, entries, i, tracker[gpPos]);
        SameOffsetsTransitive(before, previous, entries[..]);
        var glyph := font.glyphs[i];
        if glyph.width > 0 && glyph.height > 0 {
          tracker[gpPos] := tracker[gpPos] + Stride(glyph.width) * glyph.height;
        }
      }
    }
    assert forall k :: 0 <= k < entries.Length ==> entries[k] == entries[..][k];
  }

  lemma SameOffsetsReflexive(s: seq<Entry>)
    ensures SameButOffsets(s, s)
  {
  }

  lemma SameOffsetsTransitive(s: seq<Entry>, t: seq<Entry>, u: seq<Entry>)
    requires SameButOffsets(s, t) && SameButOffsets(t, u)
    ensures SameButOffsets(s, u)
  {
  }

  lemma PartitionedGroup(font: FontData, g: nat, i: nat)
    requires WellFormed(font) && font.glyphToGroup.None? && g < |font.groups| && InGroup(font.groups[g], i)
    ensures i < |font.glyphs| && GroupOf(font, i) == g
    ensures AlignedOffset(font, i) == RunOffset(font, font.groups[g].firstGlyphIndex, i)
  {
    var h := ScanGroups(font.groups, i, 0);
    assert h <= g;
  }

  lemma PartitionedRange(font: FontData, g: nat)
    requires WellFormed(font) && font.glyphToGroup.None? && g < |font.groups|
    ensures font.groups[g].firstGlyphIndex + font.groups[g].glyphCount <= |font.glyphs|
    ensures forall i :: 0 <= i < |font.glyphs| && GroupOf(font, i) == g ==> InGroup(font.groups[g], i)
  {
  }

  /** Walks the range of every needed group. */
  method PreScanContiguous(font: FontData, groups: seq<nat>, entries: array<Entry>)
    requires WellFormed(font) && font.glyphToGroup.None? && GroupSet(font, groups)
    requires InFontRange(font, entries[..]) && StrictlySorted(entries[..])
    modifies entries
    ensures SameButOffsets(old(entries[..]), entries[..])
    ensures InFontRange(font, entries[..]) && OffsetsRight(font, groups, entries[..])
  {
    hide WellFormed, GroupOf, AlignedOffset, SameButOffsets, StrictlySorted;
    ghost var before := entries[..];
    SameOffsetsReflexive(before);
    for g := 0 to |groups|
      invariant SameButOffsets(before, entries[..])
      invariant InFontRange(font, entries[..]) && StrictlySorted(entries[..])
      invariant OffsetsRight(font, groups[..g], entries[..])
    {
      ghost var previous := entries[..];
      ScanGroup(font, groups, g, entries);
      SameOffsetsTransitive(before, previous, entries[..]);
    }
    assert groups[..|groups|] == groups;
  }

  method ScanGroup(font: FontData, groups: seq<nat>, g: nat, entries: array<Entry>)
    requires WellFormed(font) && font.glyphToGroup.None? && GroupSet(font, groups) && g < |groups|
    requires InFontRange(font, entries[..]) && StrictlySorted(entries[..])
    requires OffsetsRight(font, groups[..g], entries[..])
    modifies entries
    ensures SameButOffsets(old(entries[..]), entries[..])
    ensures InFontRange(font, entries[..]) && StrictlySorted(entries[..])
    ensures OffsetsRight(font, groups[..g + 1], entries[..])
  {
    hide WellFormed, GroupOf, AlignedOffset, SameButOffsets, StrictlySorted;
    ghost var before := entries[..];
    SameOffsetsReflexive(before);
    var group := font.groups[groups[g]];
    PartitionedRange(font, groups[g]);
    var alignedOff := 0;
    assert forall k :: 0 <= k < entries.Length ==> entries[k] == entries[..][k];
    for j := 0 to group.glyphCount
      invariant SameButOffsets(before, entries[..])
      invariant InFontRange(font, entries[..]) && StrictlySorted(entries[..])
      invariant alignedOff == RunOffset(font, group.firstGlyphIndex, group.firstGlyphIndex + j)
      invariant forall k :: 0 <= k < entries.Length ==> OffsetRight(font, groups[..g], entries[k])
      invariant forall k :: 0 <= k < entries.Length && entries[k].glyphIndex < group.firstGlyphIndex + j ==>
                  OffsetRight(font, [groups[g]], entries[k])
    {
      var glyphI := group.firstGlyphIndex + j;
      PartitionedGroup(font, groups[g], glyphI);
      assert groups[g] !in groups[..g];
      ghost var previous := entries[..];
      NoteOffset(font, entries, glyphI, alignedOff);
      SameOffsetsTransitive(before, previous, entries[..]);
      var glyph := font.glyphs[glyphI];
      if glyph.width > 0 && glyph.height > 0 {
        alignedOff := alignedOff + Stride(glyph.width) * glyph.height;
      }
    }
    assert groups[..g + 1] == groups[..g] + [groups[g]];
    forall k | 0 <= k < entries.Length ensures OffsetRight(font, groups[..g + 1], entries[..][k]) {
      assert OffsetRight(font, groups[..g], entries[k]);
    }
  }

  // ---- Step 4: extraction ----

  predicate Extracted(e: Entry) { e.bufferOffset != NOT_EXTRACTED }

  function SliceEnd(font: FontData, e: Entry): nat
    requires e.glyphIndex < |font.glyphs|
  {
    e.bufferOffset + font.glyphs[e.glyphIndex].dataLength
  }

  /** The extracted bitmaps lie one behind the other in the first end bytes, and each is its glyph's. */
  ghost predicate LaidOut(font: FontData, buffer: seq<byte>, s: seq<Entry>, end: nat)
    requires WellFormed(font) && InFontRange(font, s)
  {
    end <= |buffer| &&
    (forall k :: 0 <= k < |s| && Extracted(s[k]) ==>
      SliceEnd(font, s[k]) <= end &&
      buffer[s[k].bufferOffset..SliceEnd(font, s[k])] == GlyphBits(font, s[k].glyphIndex)) &&
    forall j, k :: 0 <= j < k < |s| && Extracted(s[j]) && Extracted(s[k]) ==>
      SliceEnd(font, s[j]) <= s[k].bufferOffset || SliceEnd(font, s[k]) <= s[j].bufferOffset
  }

  /** The layout so far, and room for what is left. */
  ghost predicate Extracting(font: FontData, buffer: seq<byte>, s: seq<Entry>, end: nat)
    requires WellFormed(font) && InFontRange(font, s)
  {
    StrictlySorted(s) && LaidOut(font, buffer, s, end) && end + Unextracted(font, s) == |buffer| < NOT_EXTRACTED
  }

  lemma ExtractOne(font: FontData, buffer: seq<byte>, after: seq<byte>, s: seq<Entry>, i: nat, end: nat)
    requires WellFormed(font) && InFontRange(font, s) && Extracting(font, buffer, s, end)
    requires i < |s| && !Extracted(s[i])
    requires |after| == |buffer| && after[..end] == buffer[..end]
    requires var n := font.glyphs[s[i].glyphIndex].dataLength;
             end + n <= |after| ==> after[end..end + n] == GlyphBits(font, s[i].glyphIndex)
    ensures var n := font.glyphs[s[i].glyphIndex].dataLength;
            end + n <= |after| &&
            var s' := s[i := s[i].(bufferOffset := end)];
            InFontRange(font, s') && Extracting(font, after, s', end + n)
  {
    hide WellFormed, GlyphBits;
    var n := font.glyphs[s[i].glyphIndex].dataLength;
    var s' := s[i := s[i].(bufferOffset := end)];
    RoomForOne(font, s, i, end);
    forall k | 0 <= k < |s| && Extracted(s[k])
      ensures after[s[k].bufferOffset..SliceEnd(font, s[k])] == GlyphBits(font, s[k].glyphIndex)
    {
      assert after[..end][s[k].bufferOffset..SliceEnd(font, s[k])] == after[s[k].bufferOffset..SliceEnd(font, s[k])];
      assert buffer[..end][s[k].bufferOffset..SliceEnd(font, s[k])] == buffer[s[k].bufferOffset..SliceEnd(font, s[k])];
    }
  }

  lemma RoomForOne(font: FontData, s: seq<Entry>, i: nat, end: nat)
    requires InFontRange(font, s) && i < |s| && !Extracted(s[i]) && end < NOT_EXTRACTED
    ensures var s' := s[i := s[i].(bufferOffset := end)];
            InFontRange(font, s') &&
            Unextracted(font, s) == Unextracted(font, s') + font.glyphs[s[i].glyphIndex].dataLength
  {
    var s' := s[i := s[i].(bufferOffset := end)];
    UnextractedSplit(font, s, i);
    UnextractedSplit(font, s', i);
    assert s'[..i] == s[..i] && s'[i + 1..] == s[i + 1..];
  }

  /** Every entry keeps its glyph, its place in the group, and its bitmap if it has one. */
  predicate OnlyExtracts(s: seq<Entry>, t: seq<Entry>)
  {
    |s| == |t| &&
    forall k :: 0 <= k < |s| ==> t[k] == s[k] || (!Extracted(s[k]) && t[k] == s[k].(bufferOffset := t[k].bufferOffset))
  }

  lemma OnlyExtractsKeeps(font: FontData, groups: seq<nat>, s: seq<Entry>, t: seq<Entry>)
    requires WellFormed(font) && InFontRange(font, s) && OffsetsRight(font, groups, s) && OnlyExtracts(s, t)
    ensures InFontRange(font, t) && OffsetsRight(font, groups, t)
    ensures forall x :: HasEntry(s, x) ==> HasEntry(t, x)
  {
    forall k | 0 <= k < |t| ensures t[k].glyphIndex == s[k].glyphIndex && OffsetRight(font, groups, t[k]) {
      assert OffsetRight(font, groups, s[k]);
    }
    forall x | HasEntry(s, x) ensures HasEntry(t, x) {
      var k :| 0 <= k < |s| && s[k].glyphIndex == x;
      assert t[k].glyphIndex == x;
    }
  }

  lemma OnlyExtractsTransitive(s: seq<Entry>, t: seq<Entry>, u: seq<Entry>)
    requires OnlyExtracts(s, t) && OnlyExtracts(t, u)
    ensures OnlyExtracts(s, u)
  {
  }

  ghost predicate GroupExtracted(font: FontData, group: nat, s: seq<Entry>)
    requires WellFormed(font) && InFontRange(font, s)
  {
    forall k :: 0 <= k < |s| && GroupOf(font, s[k].glyphIndex) == group ==> Extracted(s[k])
  }

  /** Packs entry i's glyph behind what the buffer holds. */
  method ExtractEntry(font: FontData, tempBuf: array<byte>, entries: array<Entry>, buffer: array<byte>,
                      i: nat, end: nat)
    returns (next: nat)
    requires WellFormed(font) && InFontRange(font, entries[..]) && Extracting(font, buffer[..], entries[..], end)
    requires i < entries.Length && !Extracted(entries[i]) && tempBuf != buffer
    requires tempBuf[..] == font.inflated[GroupOf(font, entries[i].glyphIndex)]
    requires entries[i].alignedOffset == AlignedOffset(font, entries[i].glyphIndex)
    modifies entries, buffer
    ensures InFontRange(font, entries[..]) && Extracting(font, buffer[..], entries[..], next)
    ensures OnlyExtracts(old(entries[..]), entries[..]) && Extracted(entries[i])
    ensures forall k :: 0 <= k < entries.Length && k != i ==> entries[k] == old(entries[k])
  {
    hide WellFormed, GlyphBits, Packed, Extracting, LaidOut, AlignedOffset, Holds, PackedSize;
    ghost var s, before := entries[..], buffer[..];
    var x := entries[i].glyphIndex;
    var glyph := font.glyphs[x];
    GlyphInside(font, x);
    GroupOfGlyph(font, x);
    ExtractingRoom(font, before, s, i, end);
    BitsOf(font, x);
    CompactSingleGlyph(tempBuf, entries[i].alignedOffset, buffer, end, glyph.width, glyph.height);
    ExtractOne(font, before, buffer[..], s, i, end);
    entries[i] := entries[i].(bufferOffset := end);
    assert entries[..] == s[i := s[i].(bufferOffset := end)];
    next := end + glyph.dataLength;
  }

  lemma BitsOf(font: FontData, x: nat)
    requires WellFormed(font) && x < |font.glyphs|
    ensures var b := font.inflated[GroupOf(font, x)];
            Holds(b, AlignedOffset(font, x), font.glyphs[x].width, font.glyphs[x].height) &&
            GlyphBits(font, x) == Packed(b, AlignedOffset(font, x), font.glyphs[x].width, font.glyphs[x].height)
  {
    GlyphInside(font, x);
  }

  lemma ExtractingRoom(font: FontData, buffer: seq<byte>, s: seq<Entry>, i: nat, end: nat)
    requires WellFormed(font) && InFontRange(font, s) && Extracting(font, buffer, s, end)
    requires i < |s| && !Extracted(s[i])
    ensures end + font.glyphs[s[i].glyphIndex].dataLength <= |buffer| && end < NOT_EXTRACTED
  {
    RoomForOne(font, s, i, end);
  }

  /** Extracts every needed glyph of one inflated group. */
  method ExtractGroup(font: FontData, group: nat, tempBuf: array<byte>, entries: array<Entry>, buffer: array<byte>,
                      ghost groups: seq<nat>, start: nat)
    returns (end: nat)
    requires WellFormed(font) && InFontRange(font, entries[..]) && Extracting(font, buffer[..], entries[..], start)
    requires OffsetsRight(font, groups, entries[..]) && group in groups && tempBuf != buffer
    requires group < |font.inflated| && tempBuf[..] == font.inflated[group]
    modifies entries, buffer
    ensures InFontRange(font, entries[..]) && Extracting(font, buffer[..], entries[..], end)
    ensures OnlyExtracts(old(entries[..]), entries[..]) && GroupExtracted(font, group, entries[..])
  {
    hide WellFormed, Extracting, GroupOf, AlignedOffset;
    ghost var s := entries[..];
    end := start;
    for i := 0 to entries.Length
      invariant InFontRange(font, entries[..]) && Extracting(font, buffer[..], entries[..], end)
      invariant OnlyExtracts(s, entries[..]) && OffsetsRight(font, groups, entries[..]) &&
                tempBuf[..] == font.inflated[group]
      invariant forall k :: 0 <= k < i && GroupOf(font, entries[..][k].glyphIndex) == group ==>
                  Extracted(entries[..][k])
    {
      ghost var t := entries[..];
      assert t[i] == entries[i];
      assert OffsetRight(font, groups, t[i]);
      GroupOfGlyph(font, entries[i].glyphIndex);
      GroupOfIs(font, entries[i].glyphIndex);
      var groupIndex := GetGroupIndex(font, entries[i].glyphIndex);
      if entries[i].bufferOffset == NOT_EXTRACTED && groupIndex == group {
        end := ExtractEntry(font, tempBuf, entries, buffer, i, end);
        OnlyExtractsTransitive(s, t, entries[..]);
        OnlyExtractsKeeps(font, groups, t, entries[..]);
      }
    }
  }

  lemma GroupOfIs(font: FontData, i: nat)
    requires WellFormed(font) && i < |font.glyphs|
    ensures font.glyphToGroup.Some? ==> i < |font.glyphToGroup.value|
    ensures GroupOf(font, i) == GroupIndex(font, i)
  {
  }

  /** A whole page of glyphs stays far below the marker for "not extracted". */
  lemma {:induction false} TotalLengthBound(font: FontData, needed: seq<nat>)
    requires WellFormed(font) && forall i :: 0 <= i < |needed| ==> needed[i] < |font.glyphs|
    ensures TotalLength(font, needed) <= |needed| * 0x1_0000
  {
    if needed != [] {
      var x := needed[|needed| - 1];
      TotalLengthBound(font, needed[..|needed| - 1]);
      GroupOfGlyph(font, x);
      SizeBound(font.glyphs[x].width, font.glyphs[x].height);
    }
  }

  lemma SizeBound(width: byte, height: byte)
    ensures PackedSize(width, height) <= 0x1_0000
  {
    MulMonotone(width, 256, height);
  }

  lemma StaysExtracted(font: FontData, group: nat, s: seq<Entry>, t: seq<Entry>)
    requires WellFormed(font) && InFontRange(font, s) && InFontRange(font, t) && OnlyExtracts(s, t)
    requires GroupExtracted(font, group, s)
    ensures GroupExtracted(font, group, t)
  {
    hide WellFormed, GroupOf;
    forall k | 0 <= k < |t| && GroupOf(font, t[k].glyphIndex) == group ensures Extracted(t[k]) {
      assert t[k].glyphIndex == s[k].glyphIndex;
    }
  }

  lemma ExtractingBound(font: FontData, buffer: seq<byte>, s: seq<Entry>, end: nat)
    requires WellFormed(font) && InFontRange(font, s) && Extracting(font, buffer, s, end)
    ensures end <= |buffer|
  {
  }
}
