/** Glyph bitmaps on demand: prewarmed page slots first, then the last inflated group, then inflating. */
module FontDecompressor {
  import opened Bytes
  import opened Options
  import opened FontTables
  import opened GlyphPacking
  import opened FontGroups
  import FontImages
  import opened PageTable
  import opened FontPrewarm

  const MAX_PAGE_SLOTS: nat := 8

  datatype PageSlot = PageSlot(font: FontData, buffer: array<byte>, entries: array<Entry>)

  /** Where a bitmap can be read; a place in a buffer stays good until the next call. */
  datatype BitmapRef = NoBitmap | InFont(dataOffset: nat) | InBuffer(buffer: array<byte>, offset: nat)

  ghost predicate EntryHolds(font: FontData, buffer: seq<byte>, e: Entry)
    requires WellFormed(font)
  {
    e.glyphIndex < |font.glyphs| &&
    (e.bufferOffset != NOT_EXTRACTED ==>
      e.bufferOffset + font.glyphs[e.glyphIndex].dataLength <= |buffer| &&
      buffer[e.bufferOffset..e.bufferOffset + font.glyphs[e.glyphIndex].dataLength] == GlyphBits(font, e.glyphIndex))
  }

  ghost predicate SlotHolds(slot: PageSlot)
    reads slot.buffer, slot.entries
  {
    WellFormed(slot.font) && StrictlySorted(slot.entries[..]) &&
    forall k :: 0 <= k < slot.entries.Length ==> EntryHolds(slot.font, slot.buffer[..], slot.entries[k])
  }

  /** The reference shows the packed bitmap of glyph i. */
  ghost predicate Shows(r: BitmapRef, font: FontData, i: nat)
    requires WellFormed(font) && i < |font.glyphs|
    reads if r.InBuffer? then {r.buffer} else {}
  {
    r.InBuffer? && r.offset + font.glyphs[i].dataLength <= r.buffer.Length &&
    r.buffer[r.offset..r.offset + font.glyphs[i].dataLength] == GlyphBits(font, i)
  }

  /** Whatever images the font is made of, every bitmap in the slot shows the image of its glyph. */
  ghost predicate SlotShowsImages(slot: PageSlot)
    reads slot.buffer, slot.entries
  {
    forall k :: 0 <= k < slot.entries.Length && slot.entries[k].bufferOffset != NOT_EXTRACTED ==>
      EntryShowsImage(slot.font, slot.buffer[..], slot.entries[k])
  }

  ghost predicate EntryShowsImage(font: FontData, buffer: seq<byte>, e: Entry)
  {
    e.glyphIndex < |font.glyphs| && e.bufferOffset + font.glyphs[e.glyphIndex].dataLength <= |buffer| &&
    BitsShowImages(buffer[e.bufferOffset..e.bufferOffset + font.glyphs[e.glyphIndex].dataLength], font, e.glyphIndex)
  }

  lemma SlotsShowImages(slot: PageSlot)
    requires SlotHolds(slot)
    ensures SlotShowsImages(slot)
  {
    hide WellFormed, GlyphBits, FontImages.ShowsImage, FontImages.MadeOf;
    forall k | 0 <= k < slot.entries.Length && slot.entries[k].bufferOffset != NOT_EXTRACTED
      ensures EntryShowsImage(slot.font, slot.buffer[..], slot.entries[k]) {
      assert EntryHolds(slot.font, slot.buffer[..], slot.entries[k]);
      FontImages.BitsShowImage(slot.font, slot.entries[k].glyphIndex);
      FontImages.ImagesThere(slot.font);
    }
  }

  /** Whatever images the font is made of, the reference shows that of glyph i, pixel by pixel. */
  ghost predicate ShowsImages(r: BitmapRef, font: FontData, i: nat)
    requires i < |font.glyphs|
    reads if r.InBuffer? then {r.buffer} else {}
  {
    r.InBuffer? && r.offset + font.glyphs[i].dataLength <= r.buffer.Length &&
    BitsShowImages(r.buffer[r.offset..r.offset + font.glyphs[i].dataLength], font, i)
  }

  ghost predicate BitsShowImages(bits: seq<byte>, font: FontData, i: nat)
    requires i < |font.glyphs|
  {
    forall images :: FontImages.MadeOf(font, images) ==>
      FontImages.ShowsImage(bits, images[i], font.glyphs[i].width, font.glyphs[i].height)
  }

  lemma ShownImages(r: BitmapRef, font: FontData, i: nat)
    requires WellFormed(font) && i < |font.glyphs| && Shows(r, font, i)
    ensures ShowsImages(r, font, i)
  {
    hide WellFormed, GlyphBits, FontImages.ShowsImage, FontImages.MadeOf;
    FontImages.ImagesThere(font);
    FontImages.BitsShowImage(font, i);
  }

  /** Slices of extracted glyphs are disjoint, inside the buffer, and each holds its glyph's bitmap. */
  ghost predicate SlotLaidOut(slot: PageSlot)
    reads slot.buffer, slot.entries
  {
    WellFormed(slot.font) && StrictlySorted(slot.entries[..]) && InFontRange(slot.font, slot.entries[..]) &&
    exists end :: 0 <= end <= slot.buffer.Length && LaidOut(slot.font, slot.buffer[..], slot.entries[..], end)
  }

  lemma ExtractedSlot(slot: PageSlot)
    requires WellFormed(slot.font) && InFontRange(slot.font, slot.entries[..])
    requires exists end :: 0 <= end <= slot.buffer.Length &&
               Extracting(slot.font, slot.buffer[..], slot.entries[..], end)
    ensures SlotLaidOut(slot) && SlotHolds(slot)
  {
    hide WellFormed, GlyphBits;
    var s := slot.entries[..];
    var end :| 0 <= end <= slot.buffer.Length && Extracting(slot.font, slot.buffer[..], s, end);
    forall k | 0 <= k < slot.entries.Length ensures EntryHolds(slot.font, slot.buffer[..], slot.entries[k]) {
      assert slot.entries[k] == s[k];
    }
  }

  /** The glyph of a codepoint, if there is one, has an entry with its bitmap. */
  predicate Prepared(font: FontData, cp: nat, s: seq<Entry>)
  {
    GlyphOf(font.intervals, cp).None? ||
    exists k :: 0 <= k < |s| && s[k].glyphIndex == GlyphOf(font.intervals, cp).value && Extracted(s[k])
  }

  /** The glyphs of the table lie in no more groups than can be extracted at once. */
  predicate FewGroups(font: FontData, s: seq<Entry>)
  {
    WellFormed(font) && InFontRange(font, s) &&
    |(set k | 0 <= k < |s| :: GroupOf(font, s[k].glyphIndex))| <= 128
  }

  lemma GroupsShown(font: FontData, needed: seq<nat>, scanned: seq<Entry>, s: seq<Entry>)
    requires FewGroups(font, s) && OnlyExtracts(scanned, s)
    requires forall i :: 0 <= i < |needed| ==> needed[i] < |font.glyphs| && HasEntry(scanned, needed[i])
    ensures |GroupsOf(font, needed)| <= MAX_PAGE_GROUPS
  {
    hide WellFormed, GroupOf;
    var shown := set k | 0 <= k < |s| :: GroupOf(font, s[k].glyphIndex);
    forall g | g in GroupsOf(font, needed) ensures g in shown {
      var i :| 0 <= i < |needed| && g == GroupOf(font, needed[i]);
      assert HasEntry(scanned, needed[i]);
      var e :| 0 <= e < |scanned| && scanned[e].glyphIndex == needed[i];
      assert s[e].glyphIndex == needed[i];
    }
    SubsetSize(GroupsOf(font, needed), shown);
  }

  lemma GlyphSetFacts(font: FontData, text: seq<nat>, needed: seq<nat>)
    requires GlyphSet(font, text, needed) && WellFormed(font)
    ensures Distinct(needed) && |needed| <= MAX_PAGE_GLYPHS
    ensures forall i :: 0 <= i < |needed| ==> needed[i] < |font.glyphs|
    ensures TotalLength(font, needed) < NOT_EXTRACTED
  {
    TotalLengthBound(font, needed);
  }

  lemma FreshTableFacts(font: FontData, needed: seq<nat>, s: seq<Entry>, buffer: seq<byte>)
    requires forall i :: 0 <= i < |needed| ==> needed[i] < |font.glyphs|
    requires FreshTable(font, needed, s)
    ensures StrictlySorted(s) && InFontRange(font, s)
  {
  }

  lemma {:induction false} UnextractedIgnoresOffsets(font: FontData, s: seq<Entry>, t: seq<Entry>)
    requires InFontRange(font, s) && SameButOffsets(s, t)
    ensures InFontRange(font, t) && Unextracted(font, s) == Unextracted(font, t)
  {
    if s != [] {
      UnextractedIgnoresOffsets(font, s[..|s| - 1], t[..|t| - 1]);
    }
  }

  lemma ScannedTable(font: FontData, needed: seq<nat>, table: seq<Entry>, s: seq<Entry>, buffer: seq<byte>)
    requires WellFormed(font) && forall i :: 0 <= i < |needed| ==> needed[i] < |font.glyphs|
    requires FreshTable(font, needed, table) && SameButOffsets(table, s)
    requires |buffer| == TotalLength(font, needed) < NOT_EXTRACTED
    ensures InFontRange(font, s) && Extracting(font, buffer, s, 0)
    ensures forall i :: 0 <= i < |needed| ==> HasEntry(s, needed[i])
    ensures forall k :: 0 <= k < |s| ==> s[k].glyphIndex in needed
  {
    hide WellFormed, TotalLength, Unextracted, GlyphBits;
    UnextractedIgnoresOffsets(font, table, s);
    forall i | 0 <= i < |needed| ensures HasEntry(s, needed[i]) {
      assert HasEntry(table, needed[i]);
      var k :| 0 <= k < |table| && table[k].glyphIndex == needed[i];
      assert s[k].glyphIndex == needed[i];
    }
  }

  /** The ligature of any two codepoints of the text, both of which have glyphs, is prepared as well. */
  predicate LigaturesPrepared(font: FontData, text: seq<nat>, s: seq<Entry>)
  {
    forall l :: 0 <= l < |font.ligatures| && font.ligatures[l].left in text && font.ligatures[l].right in text &&
                GlyphOf(font.intervals, font.ligatures[l].left).Some? &&
                GlyphOf(font.intervals, font.ligatures[l].right).Some? ==>
      Prepared(font, font.ligatures[l].ligature, s)
  }

  lemma AllPrepared(font: FontData, text: seq<nat>, fromText: seq<nat>, needed: seq<nat>, groups: seq<nat>,
                    scanned: seq<Entry>, s: seq<Entry>)
    requires WellFormed(font) && InFontRange(font, s) && OnlyExtracts(scanned, s)
    requires forall i :: 0 <= i < |needed| ==> needed[i] < |font.glyphs| && HasEntry(scanned, needed[i])
    requires forall k :: 0 <= k < |text| ==> Collected(font, text[k], fromText)
    requires fromText <= needed && |needed| < MAX_PAGE_GLYPHS
    requires forall i :: 0 <= i < |needed| ==> GroupOf(font, needed[i]) in groups
    requires forall j :: 0 <= j < |groups| ==> GroupExtracted(font, groups[j], s)
    requires forall l :: 0 <= l < |font.ligatures| && InputsIn(font, font.ligatures[l], fromText) ==>
               Collected(font, font.ligatures[l].ligature, needed)
    ensures forall k :: 0 <= k < |text| ==> Prepared(font, text[k], s)
    ensures forall l :: 0 <= l < |font.ligatures| && InputsIn(font, font.ligatures[l], fromText) ==>
              Prepared(font, font.ligatures[l].ligature, s)
    ensures LigaturesPrepared(font, text, s)
  {
    hide WellFormed, GroupOf, Prepared;
    forall k | 0 <= k < |text| ensures Prepared(font, text[k], s) {
      assert Collected(font, text[k], fromText);
      CollectedIsPrepared(font, text[k], needed, groups, scanned, s);
    }
    forall l | 0 <= l < |font.ligatures| && InputsIn(font, font.ligatures[l], fromText)
      ensures Prepared(font, font.ligatures[l].ligature, s) {
      CollectedIsPrepared(font, font.ligatures[l].ligature, needed, groups, scanned, s);
    }
    forall l | 0 <= l < |font.ligatures| && font.ligatures[l].left in text && font.ligatures[l].right in text &&
               GlyphOf(font.intervals, font.ligatures[l].left).Some? &&
               GlyphOf(font.intervals, font.ligatures[l].right).Some?
      ensures InputsIn(font, font.ligatures[l], fromText) {
      var k :| 0 <= k < |text| && text[k] == font.ligatures[l].left;
      assert Collected(font, text[k], fromText);
      var m :| 0 <= m < |text| && text[m] == font.ligatures[l].right;
      assert Collected(font, text[m], fromText);
    }
  }

  lemma NothingCollected(font: FontData, text: seq<nat>, needed: seq<nat>)
    requires needed == [] && forall k :: 0 <= k < |text| ==> Collected(font, text[k], needed)
    ensures forall k :: 0 <= k < |text| ==> GlyphOf(font.intervals, text[k]).None?
  {
    forall k | 0 <= k < |text| ensures GlyphOf(font.intervals, text[k]).None? {
      assert Collected(font, text[k], needed);
    }
  }

  lemma CollectedIsPrepared(font: FontData, cp: nat, needed: seq<nat>, groups: seq<nat>, scanned: seq<Entry>,
                            s: seq<Entry>)
    requires WellFormed(font) && InFontRange(font, s) && OnlyExtracts(scanned, s)
    requires forall i :: 0 <= i < |needed| ==> needed[i] < |font.glyphs| && HasEntry(scanned, needed[i])
    requires Collected(font, cp, needed) && |needed| < MAX_PAGE_GLYPHS
    requires forall i :: 0 <= i < |needed| ==> GroupOf(font, needed[i]) in groups
    requires forall j :: 0 <= j < |groups| ==> GroupExtracted(font, groups[j], s)
    ensures Prepared(font, cp, s)
  {
    hide WellFormed, GroupOf;
    var glyph := GlyphOf(font.intervals, cp);
    if glyph.Some? {
      var i :| 0 <= i < |needed| && needed[i] == glyph.value;
      assert HasEntry(scanned, needed[i]);
      var e :| 0 <= e < |scanned| && scanned[e].glyphIndex == needed[i];
      assert s[e].glyphIndex == needed[i];
      var j :| 0 <= j < |groups| && groups[j] == GroupOf(font, needed[i]);
      assert GroupExtracted(font, groups[j], s);
    }
  }

  lemma GroupsInflated(font: FontData, g: nat)
    requires WellFormed(font) && g < |font.groups|
    ensures g < |font.inflated| && |font.inflated[g]| == font.groups[g].uncompressedSize
  {
  }

  /** A call of the cache. */
  datatype Request = Prewarm(font: FontData, text: seq<nat>) | Bitmap(font: FontData, glyphIndex: nat) | Clear

  predicate WellAsked(request: Request)
  {
    match request
    case Prewarm(font, _) => WellFormed(font)
    case Bitmap(font, i) => WellFormed(font) && i < |font.glyphs|
    case Clear => true
  }

  /** An answer, if there is one, is the glyph's own bitmap. */
  predicate Answers(request: Request, bits: Option<seq<byte>>)
  {
    bits.None? ||
    (request.Bitmap? && WellAsked(request) && bits.value == GlyphBits(request.font, request.glyphIndex))
  }

  /** A request for a bitmap that has bytes to show. */
  predicate HasBits(request: Request)
  {
    request.Bitmap? && request.font.groups != [] && request.glyphIndex < |request.font.glyphs| &&
    request.font.glyphs[request.glyphIndex].dataLength > 0
  }

  class FontDecompressor {
    var pageSlots: seq<PageSlot>
    var hotGroupFont: Option<FontData>
    var hotGroupIndex: nat
    var hotGroup: array?<byte>
    var hotGroupCapacity: nat
    var hotGlyphBuf: array?<byte>
    var hotGlyphBufCapacity: nat
    /** Failed allocations and inflates so far. */
    ghost var faults: nat

    ghost predicate Valid()
      reads this, hotGroup, hotGlyphBuf, set s | s in pageSlots :: s.buffer, set s | s in pageSlots :: s.entries
    {
      |pageSlots| <= MAX_PAGE_SLOTS &&
      (forall s :: s in pageSlots ==> SlotHolds(s) && s.buffer != hotGroup && s.buffer != hotGlyphBuf) &&
      hotGroupCapacity == (if hotGroup == null then 0 else hotGroup.Length) &&
      hotGlyphBufCapacity == (if hotGlyphBuf == null then 0 else hotGlyphBuf.Length) &&
      (hotGroup != null ==> hotGroup != hotGlyphBuf) &&
      (hotGroupFont.Some? ==> HotHolds(hotGroupFont.value))
    }

    /** The hot buffer holds the inflated group it is named after. */
    ghost predicate HotHolds(font: FontData)
      reads `hotGroupIndex, `hotGroup, hotGroup
    {
      WellFormed(font) && hotGroupIndex < |font.inflated| &&
      var size := |font.inflated[hotGroupIndex]|;
      if hotGroup == null then size == 0
      else size <= hotGroup.Length && hotGroup[..size] == font.inflated[hotGroupIndex]
    }

    constructor ()
      ensures Valid() && pageSlots == [] && hotGroup == null && hotGlyphBuf == null
    {
      pageSlots, hotGroupFont, hotGroupIndex := [], None, 0xFFFF;
      hotGroup, hotGroupCapacity, hotGlyphBuf, hotGlyphBufCapacity := null, 0, null, 0;
      faults := 0;
    }

    method ClearCache()
      modifies this
      ensures Valid() && pageSlots == [] && hotGroup == null && hotGlyphBuf == null && faults == old(faults)
    {
      pageSlots := [];
      hotGroup, hotGroupCapacity, hotGroupFont, hotGroupIndex := null, 0, None, 0xFFFF;
      hotGlyphBuf, hotGlyphBufCapacity := null, 0;
    }

    method Malloc(size: nat) returns (buf: array?<byte>)
      modifies this`faults
      ensures buf != null ==> fresh(buf) && buf.Length == size
      ensures old(faults) <= faults && (faults == old(faults) ==> buf != null)
    {
      var fails: bool := *;
      if fails {
        faults := faults + 1;
        return null;
      }
      buf := new byte[size];
    }

    /** Whether the next small allocation succeeds. */
    method Allocated() returns (ok: bool)
      modifies this`faults
      ensures old(faults) <= faults && (faults == old(faults) ==> ok)
    {
      var fails: bool := *;
      if fails {
        faults := faults + 1;
      }
      ok := !fails;
    }

    /** A buffer of at least `needed` bytes: the old one when it is large enough, else a new one, or none. */
    method EnsureCapacity(buf: array?<byte>, capacity: nat, needed: nat)
      returns (ok: bool, newBuf: array?<byte>, newCapacity: nat)
      requires capacity == if buf == null then 0 else buf.Length
      modifies this`faults
      ensures newCapacity == if newBuf == null then 0 else newBuf.Length
      ensures newBuf == buf || newBuf == null || fresh(newBuf)
      ensures ok ==> needed <= newCapacity
      ensures old(faults) <= faults && (faults == old(faults) ==> ok)
    {
      if capacity >= needed {
        return true, buf, capacity;
      }
      newBuf := Malloc(needed);
      newCapacity := if newBuf == null then 0 else needed;
      ok := newBuf != null;
    }

    /** Inflates one group into outBuf; a failed inflate may leave anything there. */
    method DecompressGroup(font: FontData, groupIndex: nat, outBuf: array?<byte>) returns (ok: bool)
      requires WellFormed(font) && groupIndex < |font.groups|
      requires font.groups[groupIndex].uncompressedSize <= if outBuf == null then 0 else outBuf.Length
      modifies outBuf, this`faults
      ensures ok && outBuf != null ==>
                outBuf[..font.groups[groupIndex].uncompressedSize] == font.inflated[groupIndex]
      ensures ok ==> |font.inflated[groupIndex]| == font.groups[groupIndex].uncompressedSize
      ensures old(faults) <= faults && (faults == old(faults) ==> ok)
    {
      hide Ascending, MappedWell, PartitionedWell;
      var fails: bool := *;
      var written: int := *;
      var size := font.groups[groupIndex].uncompressedSize;
      if fails {
        faults := faults + 1;
      }
      if outBuf != null {
        forall k | 0 <= k < size && (!fails || k < written) {
          outBuf[k] := font.inflated[groupIndex][k];
        }
      }
      ok := !fails;
    }

    /** Looks a glyph up in the first slot of its font. */
    method FindInPages(font: FontData, glyphIndex: nat) returns (r: BitmapRef)
      requires Valid() && WellFormed(font) && glyphIndex < |font.glyphs|
      ensures r.NoBitmap? || Shows(r, font, glyphIndex)
    {
      hide WellFormed, GlyphBits;
      for s := 0 to |pageSlots| {
        var slot := pageSlots[s];
        if slot.font != font || slot.entries.Length == 0 {
          continue;
        }
        assert slot in pageSlots;
        var pos := FindEntry(slot.entries, glyphIndex);
        if pos >= 0 && slot.entries[pos].bufferOffset != NOT_EXTRACTED {
          assert EntryHolds(slot.font, slot.buffer[..], slot.entries[pos]);
          var off := slot.entries[pos].bufferOffset;
          assert slot.buffer[..][off..off + font.glyphs[glyphIndex].dataLength] ==
                 slot.buffer[off..off + font.glyphs[glyphIndex].dataLength];
          return InBuffer(slot.buffer, off);
        }
        break;
      }
      r := NoBitmap;
    }

    /** Room for an inflated group; growing may free the buffer, so no group may be named. */
    method EnsureHotGroup(needed: nat) returns (ok: bool)
      requires Valid() && hotGroupFont.None?
      modifies this`hotGroup, this`hotGroupCapacity, this`faults
      ensures Valid() && (hotGroup == old(hotGroup) || hotGroup == null || fresh(hotGroup))
      ensures ok ==> needed <= if hotGroup == null then 0 else hotGroup.Length
      ensures old(faults) <= faults && (faults == old(faults) ==> ok)
    {
      hide SlotHolds, HotHolds;
      ok, hotGroup, hotGroupCapacity := EnsureCapacity(hotGroup, hotGroupCapacity, needed);
    }

    /** Makes the hot group the given one, inflating it unless it is already there. */
    method LoadHotGroup(font: FontData, groupIndex: nat) returns (ok: bool)
      requires Valid() && WellFormed(font) && groupIndex < |font.groups|
      modifies this`hotGroupFont, this`hotGroupIndex, this`hotGroup, this`hotGroupCapacity, this`faults, hotGroup
      ensures Valid() && (hotGroup == old(hotGroup) || hotGroup == null || fresh(hotGroup))
      ensures ok ==> hotGroupFont == Some(font) && hotGroupIndex == groupIndex
      ensures old(faults) <= faults && (faults == old(faults) ==> ok)
    {
      hide WellFormed, SlotHolds;
      if hotGroup != null && hotGroupFont == Some(font) && hotGroupIndex == groupIndex {
        return true;
      }
      hotGroupFont, hotGroupIndex := None, 0xFFFF;
      ok := EnsureHotGroup(font.groups[groupIndex].uncompressedSize);
      if !ok {
        return;
      }
      ok := DecompressGroup(font, groupIndex, hotGroup);
      if !ok {
        return;
      }
      GroupsInflated(font, groupIndex);
      hotGroupFont, hotGroupIndex := Some(font), groupIndex;
    }

    method EnsureScratch(needed: nat) returns (ok: bool)
      requires Valid()
      modifies this`hotGlyphBuf, this`hotGlyphBufCapacity, this`faults
      ensures Valid() && (hotGlyphBuf == old(hotGlyphBuf) || hotGlyphBuf == null || fresh(hotGlyphBuf))
      ensures ok ==> needed <= if hotGlyphBuf == null then 0 else hotGlyphBuf.Length
      ensures old(faults) <= faults && (faults == old(faults) ==> ok)
    {
      hide SlotHolds, WellFormed;
      ok, hotGlyphBuf, hotGlyphBufCapacity := EnsureCapacity(hotGlyphBuf, hotGlyphBufCapacity, needed);
    }

    /**
     * The bitmap of glyph glyphIndex. Whatever was cached, freed or failed before, a bitmap that is returned
     * is the packed form of that glyph, taken from its own inflated group.
     */
    method GetBitmap(font: FontData, glyphIndex: nat) returns (r: BitmapRef)
      requires Valid() && glyphIndex < |font.glyphs| && (font.groups != [] ==> WellFormed(font))
      modifies this`hotGroupFont, this`hotGroupIndex, this`hotGroup, this`hotGroupCapacity, this`hotGlyphBuf,
               this`hotGlyphBufCapacity, this`faults, hotGroup, hotGlyphBuf
      ensures Valid()
      ensures hotGroup == old(hotGroup) || hotGroup == null || fresh(hotGroup)
      ensures hotGlyphBuf == old(hotGlyphBuf) || hotGlyphBuf == null || fresh(hotGlyphBuf)
      ensures font.groups == [] ==> r == InFont(font.glyphs[glyphIndex].dataOffset)
      ensures font.groups != [] ==> r.NoBitmap? || Shows(r, font, glyphIndex)
      ensures font.groups != [] ==> r.NoBitmap? || ShowsImages(r, font, glyphIndex)
      ensures font.groups != [] && r.NoBitmap? ==> old(faults) < faults || font.glyphs[glyphIndex].dataLength == 0
      ensures old(faults) <= faults
    {
      hide WellFormed, GlyphBits, Packed, SlotHolds, HotHolds, Shows, ShowsImages;
      if font.groups == [] {
        return InFont(font.glyphs[glyphIndex].dataOffset);
      }
      r := FindInPages(font, glyphIndex);
      if !r.NoBitmap? {
        ShownImages(r, font, glyphIndex);
        return;
      }
      GroupOfGlyph(font, glyphIndex);
      var groupIndex := GetGroupIndex(font, glyphIndex);
      var ok := LoadHotGroup(font, groupIndex);
      if !ok {
        return NoBitmap;
      }
      ok := EnsureScratch(font.glyphs[glyphIndex].dataLength);
      if !ok {
        return NoBitmap;
      }
      var alignedOff := GetAlignedOffset(font, glyphIndex);
      if hotGlyphBuf == null {
        return NoBitmap;
      }
      Compact(font, glyphIndex, groupIndex, alignedOff);
      r := InBuffer(hotGlyphBuf, 0);
      ShownImages(r, font, glyphIndex);
    }

    /** Packs a glyph of the hot group into the scratch buffer; an empty glyph leaves it alone. */
    method Compact(font: FontData, glyphIndex: nat, groupIndex: nat, alignedOff: nat)
      requires Valid() && WellFormed(font) && glyphIndex < |font.glyphs|
      requires font.glyphToGroup.Some? ==> |font.glyphToGroup.value| == |font.glyphs|
      requires groupIndex == GroupIndex(font, glyphIndex) && alignedOff == AlignedOffset(font, glyphIndex)
      requires hotGroupFont == Some(font) && hotGroupIndex == groupIndex
      requires hotGlyphBuf != null && font.glyphs[glyphIndex].dataLength <= hotGlyphBuf.Length
      modifies hotGlyphBuf
      ensures Valid() && Shows(InBuffer(hotGlyphBuf, 0), font, glyphIndex)
    {
      hide WellFormed, Packed, GroupIndex, AlignedOffset;
      GlyphInside(font, glyphIndex);
      GroupOfGlyph(font, glyphIndex);
      var glyph := font.glyphs[glyphIndex];
      if hotGroup != null {
        ghost var inflated := font.inflated[groupIndex];
        assert inflated == hotGroup[..][..|inflated|];
        PackedOfPrefix(hotGroup[..], inflated, alignedOff, glyph.width, glyph.height);
        CompactSingleGlyph(hotGroup, alignedOff, hotGlyphBuf, 0, glyph.width, glyph.height);
      } else {
        EmptyGlyph(font.inflated[groupIndex], alignedOff, glyph.width, glyph.height);
      }
    }

    /** Inflates each needed group once and extracts its glyphs; groups that fail are left to the hot path. */
    method ExtractGroups(font: FontData, groups: seq<nat>, entries: array<Entry>, buffer: array<byte>)
      returns (missed: nat)
      requires WellFormed(font) && GroupSet(font, groups) && InFontRange(font, entries[..])
      requires Extracting(font, buffer[..], entries[..], 0) && OffsetsRight(font, groups, entries[..])
      requires entries !in (set s | s in pageSlots :: s.entries) && buffer !in (set s | s in pageSlots :: s.buffer)
      modifies entries, buffer, this`faults
      ensures InFontRange(font, entries[..]) && OnlyExtracts(old(entries[..]), entries[..])
      ensures exists end :: 0 <= end <= buffer.Length && Extracting(font, buffer[..], entries[..], end)
      ensures old(faults) <= faults
      ensures faults == old(faults) ==>
                missed == 0 && forall j :: 0 <= j < |groups| ==> GroupExtracted(font, groups[j], entries[..])
    {
      hide WellFormed, Extracting, GroupOf, AlignedOffset, GroupExtracted, OffsetsRight;
      ghost var s := entries[..];
      var writeOffset := 0;
      missed := 0;
      for g := 0 to |groups|
        invariant InFontRange(font, entries[..]) && Extracting(font, buffer[..], entries[..], writeOffset)
        invariant OnlyExtracts(s, entries[..]) && OffsetsRight(font, groups, entries[..])
        invariant old(faults) <= faults
        invariant faults == old(faults) ==>
                    missed == 0 && forall j :: 0 <= j < g ==> GroupExtracted(font, groups[j], entries[..])
      {
        ghost var t := entries[..];
        GroupsInflated(font, groups[g]);
        var size := font.groups[groups[g]].uncompressedSize;
        var tempBuf := Malloc(size);
        if tempBuf == null {
          missed := missed + 1;
          continue;
        }
        var ok := DecompressGroup(font, groups[g], tempBuf);
        if !ok {
          missed := missed + 1;
          continue;
        }
        assert tempBuf[..] == tempBuf[..size];
        writeOffset := ExtractGroup(font, groups[g], tempBuf, entries, buffer, groups, writeOffset);
        OnlyExtractsTransitive(s, t, entries[..]);
        OnlyExtractsKeeps(font, groups, t, entries[..]);
        forall j | 0 <= j < g && GroupExtracted(font, groups[j], t)
          ensures GroupExtracted(font, groups[j], entries[..])
        {
          StaysExtracted(font, groups[j], t, entries[..]);
        }
      }
      ExtractingBound(font, buffer[..], entries[..], writeOffset);
    }

    /**
     * Prepares the glyphs of a text in a new slot. Failures only leave glyphs unprepared; when nothing fails
     * and no limit is reached, every glyph of the text is in the slot with its bitmap.
     */
    method PrewarmCache(font: FontData, text: seq<nat>) returns (result: int)
      requires Valid() && (font.groups != [] ==> WellFormed(font))
      modifies this`pageSlots, this`faults
      ensures Valid()
      ensures old(faults) <= faults
      ensures font.groups == [] ==> result == 0 && pageSlots == old(pageSlots)
      ensures font.groups != [] && |old(pageSlots)| == 8 ==> result == -1 && pageSlots == old(pageSlots)
      ensures pageSlots == old(pageSlots) ||
              (|old(pageSlots)| < 8 && |pageSlots| == |old(pageSlots)| + 1 &&
               pageSlots[..|old(pageSlots)|] == old(pageSlots) &&
               var slot := pageSlots[|old(pageSlots)|];
               slot.font == font && fresh(slot.buffer) && fresh(slot.entries) && SlotLaidOut(slot) &&
               SlotShowsImages(slot))
      ensures (faults == old(faults) && font.groups != [] && |old(pageSlots)| < 8 &&
               exists k :: 0 <= k < |text| && GlyphOf(font.intervals, text[k]).Some?) ==>
                |pageSlots| == |old(pageSlots)| + 1
      ensures (faults == old(faults) && font.groups != [] && |pageSlots| == |old(pageSlots)| + 1 &&
               pageSlots[|old(pageSlots)|].entries.Length < 512 &&
               FewGroups(font, pageSlots[|old(pageSlots)|].entries[..])) ==>
                result == 0 && LigaturesPrepared(font, text, pageSlots[|old(pageSlots)|].entries[..]) &&
                forall k :: 0 <= k < |text| ==> Prepared(font, text[k], pageSlots[|old(pageSlots)|].entries[..])
    {
      hide WellFormed, GlyphSet, GroupSet, SlotHolds, HotHolds, SlotLaidOut, FreshTable, OffsetsRight, Extracting,
           TotalLength, Collected, Prepared, GroupExtracted, GroupOf, OnlyExtracts, SameButOffsets, GroupsOf, FewGroups,
           SlotShowsImages, LigaturesPrepared, InputsIn;
      if font.groups == [] {
        return 0;
      }
      if |pageSlots| >= MAX_PAGE_SLOTS {
        return -1;
      }
      var needed := CollectTextGlyphs(font, text);
      ghost var fromText := needed;
      needed := AddLigatureGlyphs(font, text, needed);
      GlyphSetFacts(font, text, needed);
      if needed == [] {
        NothingCollected(font, text, fromText);
        return 0;
      }
      var groups, totalBytes := CollectGroups(font, needed);
      var buffer := Malloc(totalBytes);
      var ok := Allocated();
      if buffer == null || !ok {
        return |needed|;
      }
      ghost var scanned;
      var slot;
      slot, result, scanned := BuildSlot(font, needed, groups, buffer);
      SlotsShowImages(slot);
      AddSlot(slot);
      if |needed| < MAX_PAGE_GLYPHS && faults == old(faults) && FewGroups(font, slot.entries[..]) {
        ghost var s := slot.entries[..];
        GroupsShown(font, needed, scanned, s);
        AllPrepared(font, text, fromText, needed, groups, scanned, s);
      }
    }

    method AddSlot(slot: PageSlot)
      requires Valid() && |pageSlots| < MAX_PAGE_SLOTS && SlotHolds(slot)
      requires slot.buffer != hotGroup && slot.buffer != hotGlyphBuf
      modifies this`pageSlots
      ensures Valid() && pageSlots == old(pageSlots) + [slot]
    {
      hide SlotHolds, WellFormed;
      pageSlots := pageSlots + [slot];
    }

    /** Fills a slot for the needed glyphs; scanned is its table before the extraction. */
    method BuildSlot(font: FontData, needed: seq<nat>, groups: seq<nat>, buffer: array<byte>)
      returns (slot: PageSlot, missed: nat, ghost scanned: seq<Entry>)
      requires WellFormed(font) && GroupSet(font, groups) && Distinct(needed)
      requires forall i :: 0 <= i < |needed| ==> needed[i] < |font.glyphs|
      requires buffer.Length == TotalLength(font, needed) < NOT_EXTRACTED
      requires buffer !in (set s | s in pageSlots :: s.buffer)
      modifies buffer, this`faults
      ensures slot.font == font && slot.buffer == buffer && fresh(slot.entries) && slot.entries.Length == |needed|
      ensures SlotLaidOut(slot) && SlotHolds(slot) && InFontRange(font, slot.entries[..])
      ensures OnlyExtracts(scanned, slot.entries[..])
      ensures forall i :: 0 <= i < |needed| ==> HasEntry(scanned, needed[i])
      ensures old(faults) <= faults
      ensures faults == old(faults) ==>
                missed == 0 && forall j :: 0 <= j < |groups| ==> GroupExtracted(font, groups[j], slot.entries[..])
    {
      hide WellFormed, GroupSet, SlotHolds, SlotLaidOut, FreshTable, OffsetsRight, Extracting, TotalLength,
           GroupExtracted,
           GroupOf, OnlyExtracts, SameButOffsets;
      var entries := new Entry[|needed|];
      FillTable(font, needed, entries);
      ghost var table := entries[..];
      FreshTableFacts(font, needed, table, buffer[..]);
      if font.glyphToGroup.Some? {
        PreScanMapped(font, groups, entries);
      } else {
        PreScanContiguous(font, groups, entries);
      }
      scanned := entries[..];
      ScannedTable(font, needed, table, scanned, buffer[..]);
      missed := ExtractGroups(font, groups, entries, buffer);
      slot := PageSlot(font, buffer, entries);
      ExtractedSlot(slot);
    }

    /**
     * Any run of calls: every bitmap handed out shows its glyph's own bits at the time it is handed out,
     * whatever was prewarmed, cleared, evicted or failed before; and if nothing fails, every bitmap asked for
     * that has bytes is handed out.
     */
    method Serve(requests: seq<Request>) returns (bits: seq<Option<seq<byte>>>)
      requires Valid() && forall k :: 0 <= k < |requests| ==> WellAsked(requests[k])
      modifies this, hotGroup, hotGlyphBuf
      ensures Valid() && |bits| == |requests|
      ensures forall k :: 0 <= k < |requests| ==> Answers(requests[k], bits[k])
      ensures forall k :: 0 <= k < |requests| && bits[k].Some? ==>
                requests[k].Bitmap? && requests[k].glyphIndex < |requests[k].font.glyphs| &&
                BitsShowImages(bits[k].value, requests[k].font, requests[k].glyphIndex)
      ensures faults == old(faults) ==> forall k :: 0 <= k < |requests| && HasBits(requests[k]) ==> bits[k].Some?
    {
      hide WellFormed, GlyphBits, SlotHolds, BitsShowImages;
      bits := [];
      for k := 0 to |requests|
        invariant Valid() && |bits| == k
        invariant hotGroup == old(hotGroup) || hotGroup == null || fresh(hotGroup)
        invariant hotGlyphBuf == old(hotGlyphBuf) || hotGlyphBuf == null || fresh(hotGlyphBuf)
        invariant forall j :: 0 <= j < k ==> Answers(requests[j], bits[j])
        invariant forall j :: 0 <= j < k && bits[j].Some? ==>
                    requests[j].Bitmap? && requests[j].glyphIndex < |requests[j].font.glyphs| &&
                    BitsShowImages(bits[j].value, requests[j].font, requests[j].glyphIndex)
        invariant old(faults) <= faults
        invariant faults == old(faults) ==> forall j :: 0 <= j < k && HasBits(requests[j]) ==> bits[j].Some?
      {
        var answer := None;
        match requests[k] {
        case Prewarm(font, text) =>
          var missed := PrewarmCache(font, text);
        case Clear =>
          ClearCache();
        case Bitmap(font, glyphIndex) =>
          assert WellAsked(requests[k]);
          var r := GetBitmap(font, glyphIndex);
          if r.InBuffer? {
            answer := Some(r.buffer[r.offset..r.offset + font.glyphs[glyphIndex].dataLength]);
          }
        }
        bits := bits + [answer];
      }
    }
  }
}
