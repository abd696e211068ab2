/**
 * The clipping file by positions: which bytes of it are which field, in each of its four versions, whatever way
 * they are read or written.
 */
module ClippingLayout {
  import opened Bytes
  import opened Options
  import opened ClippingFormat
  import opened Device
  import opened ClippingDisk

  /** Where the title, the text length and the text of a record lie, from the start of the record on. */
  function TitleStart(version: nat): nat { if version == 4 then 106 else if version == 3 then 24 else 20 }

  function TextStart(version: nat): nat { TitleStart(version) + 48 + if version == 1 then 4 else 2 }

  function StoredLength(b: seq<byte>, pos: nat, version: nat): nat
    requires pos + TextStart(version) <= |b|
  {
    var p := pos + TitleStart(version) + 48;
    if version == 1 then Num32(b, p) else Num16(b, p)
  }

  /** A whole record lies at pos, and its text is not too long. */
  predicate RecordFits(b: seq<byte>, pos: nat, version: nat)
  {
    pos + TextStart(version) <= |b| &&
    var n := StoredLength(b, pos, version);
    (version == 1 || n <= 4096) && pos + TextStart(version) + n <= |b|
  }

  function RecordEnd(b: seq<byte>, pos: nat, version: nat): nat
    requires RecordFits(b, pos, version)
  {
    pos + TextStart(version) + StoredLength(b, pos, version)
  }

  /** The record at pos is that of e. */
  predicate HoldsRecord(b: seq<byte>, pos: nat, version: nat, r: Record)
    requires 1 <= version <= 4 && RecordFits(b, pos, version)
  {
    r.spineIndex == Num16(b, pos) && r.startPage == Num16(b, pos + 2) && r.endPage == Num16(b, pos + 4) &&
    r.pageCount == Num16(b, pos + 6) && r.startWordIndex == Num16(b, pos + 8) && r.endWordIndex == Num16(b, pos + 10) &&
    r.wordCount == Num16(b, pos + 12) && r.paragraphIndex == Num16(b, pos + 14) && r.timestamp == Num32(b, pos + 16) &&
    r.layoutSignature == (if version >= 3 then Num32(b, pos + 20) else 0) &&
    r.chapterTitle == b[pos + TitleStart(version)..pos + TitleStart(version) + 47] + [0] &&
    if version == 4 then
      r.startOffset == Num32(b, pos + 24) && r.endOffset == Num32(b, pos + 28) &&
      r.syncRevision == Num64(b, pos + 32) &&
      r.pendingUpload == (b[pos + 40] != 0) && r.id == b[pos + 41..pos + 105] + [0]
    else
      r.startOffset == 0xFFFF_FFFF && r.endOffset == 0xFFFF_FFFF && r.syncRevision == 0 && r.pendingUpload &&
      |r.id| == 65 && forall i :: 0 <= i < 65 ==> r.id[i] == 0
  }

  /** The text of the record at pos, as far as it is shown. */
  function ShownText(b: seq<byte>, pos: nat, version: nat): seq<byte>
    requires RecordFits(b, pos, version)
  {
    var n := StoredLength(b, pos, version);
    b[pos + TextStart(version)..pos + TextStart(version) + if n < 4096 then n else 4096]
  }

  // ---- Numbers of a record ----

  /** Where the numbers of a record start. */
  lemma WidthsAt(version: nat)
    requires 1 <= version <= 4
    ensures |Widths(version)| == if version == 4 then 14 else if version == 3 then 10 else 9
    ensures forall i :: 0 <= i <= 8 ==> Sum(Widths(version)[..i]) == 2 * i
    ensures version >= 3 ==> Sum(Widths(version)[..9]) == 20
    ensures version == 4 ==> Sum(Widths(version)[..10]) == 24 && Sum(Widths(version)[..11]) == 28 &&
                             Sum(Widths(version)[..12]) == 32 && Sum(Widths(version)[..13]) == 40
  {
    hide Sum;
    var ws := Widths(version);
    NoWidths(ws);
    SumOfPrefix(ws, 0); SumOfPrefix(ws, 1); SumOfPrefix(ws, 2); SumOfPrefix(ws, 3);
    SumOfPrefix(ws, 4); SumOfPrefix(ws, 5); SumOfPrefix(ws, 6); SumOfPrefix(ws, 7);
    if version >= 3 { SumOfPrefix(ws, 8); }
    if version == 4 { SumOfPrefix(ws, 9); SumOfPrefix(ws, 10); SumOfPrefix(ws, 11); SumOfPrefix(ws, 12); }
  }

  /** Number i of a record of this version. */
  lemma NumberAt(b: seq<byte>, pos: nat, version: nat, i: nat)
    requires 1 <= version <= 4 && i < |Widths(version)| && pos + NumberBytes(version) <= |b|
    ensures Sum(Widths(version)) == NumberBytes(version)
    ensures var p, w := pos + Sum(Widths(version)[..i]), Widths(version)[i];
            p + w <= |b| &&
            DecodeNumbers(b[pos..pos + NumberBytes(version)], Widths(version))[i] == UnLE(b[p..p + w])
  {
    hide Sum, UnLE, DecodeNumbers, Widths;
    WidthsSum(version);
    var part, p, w := b[pos..pos + NumberBytes(version)], Sum(Widths(version)[..i]), Widths(version)[i];
    DecodedAt(part, Widths(version), i);
    SliceOfSlice(b, pos, pos + NumberBytes(version), p, w);
  }

  // ---- Records by positions ----

  /** The numbers that every version stores. */
  lemma FirstNumbers(b: seq<byte>, pos: nat, version: nat)
    requires 1 <= version <= 4 && pos + NumberBytes(version) <= |b|
    ensures Sum(Widths(version)) == NumberBytes(version) && |Widths(version)| >= 9
    ensures var nums := DecodeNumbers(b[pos..pos + NumberBytes(version)], Widths(version));
            nums[8] == Num32(b, pos + 16) && forall i :: 0 <= i < 8 ==> nums[i] == Num16(b, pos + 2 * i)
  {
    hide Sum, UnLE, DecodeNumbers;
    WidthsAt(version);
    WidthsSum(version);
    forall i | 0 <= i < 8
      ensures DecodeNumbers(b[pos..pos + NumberBytes(version)], Widths(version))[i] == Num16(b, pos + 2 * i) {
      NumberAt(b, pos, version, i);
      NumbersAt(b, pos + 2 * i);
    }
    NumberAt(b, pos, version, 8);
    NumbersAt(b, pos + 16);
  }

  /** The numbers that later versions added. */
  lemma LaterNumbers(b: seq<byte>, pos: nat, version: nat)
    requires 1 <= version <= 4 && pos + NumberBytes(version) <= |b|
    ensures Sum(Widths(version)) == NumberBytes(version)
    ensures |Widths(version)| == if version == 4 then 14 else if version == 3 then 10 else 9
    ensures var nums := DecodeNumbers(b[pos..pos + NumberBytes(version)], Widths(version));
            (version >= 3 ==> nums[9] == Num32(b, pos + 20)) &&
            (version == 4 ==> nums[10] == Num32(b, pos + 24) && nums[11] == Num32(b, pos + 28) &&
                              nums[12] == Num64(b, pos + 32) && nums[13] == b[pos + 40])
  {
    hide Sum, UnLE, DecodeNumbers;
    WidthsAt(version);
    WidthsSum(version);
    if version >= 3 {
      NumberAt(b, pos, version, 9);
      NumbersAt(b, pos + 20);
    }
    if version == 4 {
      NumberAt(b, pos, version, 10);
      NumbersAt(b, pos + 24);
      NumberAt(b, pos, version, 11);
      NumbersAt(b, pos + 28);
      NumberAt(b, pos, version, 12);
      NumbersAt(b, pos + 32);
      NumberAt(b, pos, version, 13);
      NumbersAt(b, pos + 40);
    }
  }

  /** Terminating a field replaces its last byte. */
  lemma Ended(s: seq<byte>)
    requires s != []
    ensures Terminate(s) == s[..|s| - 1] + [0]
  {
  }

  /**
   * A record of any version is read if and only if a whole one lies there with a text that is not too long, and
   * every field is the little-endian value of its own bytes: in all versions 16-bit numbers at 0, 2, .., 14 and the
   * timestamp at 16; from version 3 on the layout signature at 20; in version 4 offsets at 24 and 28, a 64-bit
   * revision at 32, the upload mark at 40 and the id at 41; then 48 bytes of title, the text length and the text.
   */
  lemma ReadByPositions(b: seq<byte>, pos: nat, version: nat)
    requires 1 <= version <= 4
    ensures ParseClip(b, pos, version).Some? <==> RecordFits(b, pos, version)
    ensures RecordFits(b, pos, version) ==>
              var (c, end) := ParseClip(b, pos, version).value;
              HoldsRecord(b, pos, version, c.rec) && c.textOffset == pos + TextStart(version) &&
              c.textLength == |ShownText(b, pos, version)| && end == RecordEnd(b, pos, version)
  {
    hide Sum, UnLE, DecodeNumbers, Widths, HoldsRecord;
    var p := pos + TitleStart(version);
    NumbersAt(b, p + 48);
    if RecordFits(b, pos, version) {
      FirstNumbers(b, pos, version);
      LaterNumbers(b, pos, version);
      FieldsRead(b, pos, version);
    }
  }

  lemma NumbersEnd(version: nat)
    requires 1 <= version <= 4
    ensures NumberBytes(version) == if version == 4 then 41 else TitleStart(version)
  {
  }

  lemma FieldsRead(b: seq<byte>, pos: nat, version: nat)
    requires 1 <= version <= 4 && RecordFits(b, pos, version) && ParseClip(b, pos, version).Some?
    ensures HoldsRecord(b, pos, version, ParseClip(b, pos, version).value.0.rec)
  {
    hide Sum, UnLE, DecodeNumbers, Widths, Num16, Num32, Num64, NumberBytes;
    var p := pos + TitleStart(version);
    FirstNumbers(b, pos, version);
    LaterNumbers(b, pos, version);
    NumbersEnd(version);
    Ended(b[p..p + 48]);
    assert b[p..p + 48][..47] == b[p..p + 47];
    if version == 4 {
      Ended(b[pos + 41..pos + 106]);
      assert b[pos + 41..pos + 106][..64] == b[pos + 41..pos + 105];
    }
  }

  // ---- Whole stores by positions ----

  /** A string and its 32-bit length lie at p. */
  predicate HoldsString(b: seq<byte>, p: nat, s: seq<byte>)
  {
    |s| <= 4096 && p + 4 + |s| <= |b| && Num32(b, p) == |s| && b[p + 4..p + 4 + |s|] == s
  }

  /** A version, a 16-bit number of records, then title, author and path, up to position start. */
  predicate HoldsHeader(b: seq<byte>, book: Book, count: nat, start: nat)
  {
    |b| >= 3 && 1 <= b[0] <= 4 && Num16(b, 1) == count && HoldsString(b, 3, book.title) &&
    HoldsString(b, 7 + |book.title|, book.author) &&
    HoldsString(b, 11 + |book.title| + |book.author|, book.path) &&
    start == 15 + |book.title| + |book.author| + |book.path|
  }

  lemma StringRead(b: seq<byte>, p: nat)
    ensures ParseString(b, p).Some? ==>
              var (s, end) := ParseString(b, p).value; HoldsString(b, p, s) && end == p + 4 + |s|
    ensures forall s :: HoldsString(b, p, s) ==> ParseString(b, p) == Some((s, p + 4 + |s|))
  {
    NumbersAt(b, p);
  }

  lemma HeaderFound(b: seq<byte>)
    requires ParseHeader(b).Some?
    ensures var h := ParseHeader(b).value;
            HoldsHeader(b, h.book, h.count, h.end) && |b| >= 3 && 1 <= h.version == b[0] <= 4
  {
    hide ParseString, HoldsString, Num16, UnLE;
    NumbersAt(b, 1);
    StringRead(b, 3);
    var p1 := ParseString(b, 3).value.1;
    StringRead(b, p1);
    StringRead(b, ParseString(b, p1).value.1);
  }

  lemma HeaderThere(b: seq<byte>, book: Book, count: nat, start: nat)
    requires HoldsHeader(b, book, count, start)
    ensures |b| >= 3 && 1 <= b[0] <= 4 && ParseHeader(b) == Some(Header(b[0], count, book, start))
  {
    hide ParseString, HoldsString, Num16, UnLE;
    NumbersAt(b, 1);
    StringRead(b, 3);
    StringRead(b, 7 + |book.title|);
    StringRead(b, 11 + |book.title| + |book.author|);
  }

  /** Where record n starts, when those before it lie one behind the other from pos on. */
  function RecordStart(b: seq<byte>, pos: nat, version: nat, n: nat): Option<nat>
  {
    if n == 0 then Some(pos)
    else
      match RecordStart(b, pos, version, n - 1)
      case None => None
      case Some(p) => if RecordFits(b, p, version) then Some(RecordEnd(b, p, version)) else None
  }

  /** The records from pos on are those of es, with their texts. */
  predicate HoldsRecords(b: seq<byte>, pos: nat, version: nat, es: seq<Entry>)
    requires 1 <= version <= 4
  {
    forall i :: 0 <= i < |es| ==>
      match RecordStart(b, pos, version, i)
      case None => false
      case Some(p) =>
        RecordFits(b, p, version) && HoldsRecord(b, p, version, es[i].rec) && es[i].text == ShownText(b, p, version)
  }

  /** The file holds this book and these clippings, as many as a book may have. */
  ghost predicate HoldsStore(b: seq<byte>, maxCount: nat, book: Book, es: seq<Entry>)
  {
    |es| <= maxCount && exists start :: HoldsHeader(b, book, |es|, start) && HoldsFrom(b, start, es)
  }

  predicate HoldsFrom(b: seq<byte>, start: nat, es: seq<Entry>)
  {
    |b| > 0 && 1 <= b[0] <= 4 && HoldsRecords(b, start, b[0], es)
  }

  lemma {:induction false} RecordsRead(b: seq<byte>, pos: nat, version: nat, n: nat)
    requires 1 <= version <= 4
    ensures match ParseClips(b, pos, version, n)
            case None => RecordStart(b, pos, version, n).None?
            case Some((cs, end)) =>
              RecordStart(b, pos, version, n) == Some(end) && |cs| == n && AllLinked(b, cs) &&
              HoldsRecords(b, pos, version, EntriesOf(b, cs))
  {
    hide HoldsRecord, ParseClip, RecordFits;
    if n > 0 {
      RecordsRead(b, pos, version, n - 1);
      if ParseClips(b, pos, version, n - 1).Some? {
        var (before, p) := ParseClips(b, pos, version, n - 1).value;
        ReadByPositions(b, p, version);
        if ParseClip(b, p, version).Some? {
          RecordAdded(b, pos, version, before, p);
        }
      }
    }
  }

  lemma RecordAdded(b: seq<byte>, pos: nat, version: nat, before: seq<Clipping>, p: nat)
    requires 1 <= version <= 4 && AllLinked(b, before) && HoldsRecords(b, pos, version, EntriesOf(b, before))
    requires RecordStart(b, pos, version, |before|) == Some(p) && ParseClip(b, p, version).Some?
    ensures var cs := before + [ParseClip(b, p, version).value.0];
            AllLinked(b, cs) && HoldsRecords(b, pos, version, EntriesOf(b, cs))
  {
    hide HoldsRecord, ParseClip;
    ReadByPositions(b, p, version);
    var c := ParseClip(b, p, version).value.0;
    var cs := before + [c];
    assert Linked(b, c) && TextAt(b, c) == ShownText(b, p, version);
    assert EntriesOf(b, cs) == EntriesOf(b, before) + [Entry(c.rec, TextAt(b, c))];
  }

  /** Bytes hold one list of records at most. */
  lemma SameRecords(b: seq<byte>, pos: nat, version: nat, es: seq<Entry>, es': seq<Entry>)
    requires 1 <= version <= 4 && |es| == |es'|
    requires HoldsRecords(b, pos, version, es) && HoldsRecords(b, pos, version, es')
    ensures es == es'
  {
    hide RecordFits;
    forall i | 0 <= i < |es| ensures es[i] == es'[i] {
      SameRecord(b, RecordStart(b, pos, version, i).value, version, es[i].rec, es'[i].rec);
    }
  }

  lemma SameRecord(b: seq<byte>, p: nat, version: nat, r: Record, r': Record)
    requires 1 <= version <= 4 && RecordFits(b, p, version)
    requires HoldsRecord(b, p, version, r) && HoldsRecord(b, p, version, r')
    ensures r == r'
  {
    assert r.id == r'.id;
  }

  lemma {:induction false} RecordsThere(b: seq<byte>, pos: nat, version: nat, es: seq<Entry>, n: nat)
    requires 1 <= version <= 4 && HoldsRecords(b, pos, version, es) && n <= |es|
    ensures RecordStart(b, pos, version, n).Some?
  {
    hide HoldsRecord, RecordFits;
    if n > 0 {
      RecordsThere(b, pos, version, es, n - 1);
    }
  }

  /** What a store means is what lies at the positions of its version, no more and no less. */
  lemma LoadsByPositions(b: seq<byte>, maxCount: nat, book: Book, es: seq<Entry>)
    ensures LoadsAs(b, maxCount, book, es) <==> HoldsStore(b, maxCount, book, es)
  {
    hide ParseHeader, ParseClips, HoldsHeader, HoldsRecords;
    if LoadsAs(b, maxCount, book, es) {
      var h := ParseHeader(b).value;
      HeaderFound(b);
      RecordsRead(b, h.end, h.version, h.count);
      assert HoldsHeader(b, book, |es|, h.end) && HoldsFrom(b, h.end, es);
    }
    if HoldsStore(b, maxCount, book, es) {
      var start :| HoldsHeader(b, book, |es|, start) && HoldsFrom(b, start, es);
      HeaderThere(b, book, |es|, start);
      RecordsThere(b, start, b[0], es, |es|);
      RecordsRead(b, start, b[0], |es|);
      var cs := ParseClips(b, start, b[0], |es|).value.0;
      SameRecords(b, start, b[0], es, EntriesOf(b, cs));
      assert ParseStore(b, maxCount) == Some(Store(book, cs));
    }
  }

  /** A load shows what lies on the card by positions, or nothing if there is no store. */
  lemma LoadShowsPositions(fs: Files, path: seq<byte>, maxCount: nat, es: seq<Entry>)
    ensures LoadResult(fs, path, maxCount) == Some(es) <==>
            if Name(path, Main) in fs then exists book :: HoldsStore(fs[Name(path, Main)], maxCount, book, es)
            else if Name(path, Bak) in fs then exists book :: HoldsStore(fs[Name(path, Bak)], maxCount, book, es)
            else es == []
  {
    hide ParseStore, HoldsStore;
    if Recoverable(fs, path).Some? {
      var b := Recoverable(fs, path).value;
      forall book ensures LoadsAs(b, maxCount, book, es) <==> HoldsStore(b, maxCount, book, es) {
        LoadsByPositions(b, maxCount, book, es);
      }
      if ParseStore(b, maxCount).Some? {
        ParsedStoreValid(b, maxCount);
        assert LoadsAs(b, maxCount, ParseStore(b, maxCount).value.book, es) <==>
            LoadResult(fs, path, maxCount) == Some(es);
      }
    }
  }

  /** What is written is a store of version 4 that holds the clippings by positions. */
  lemma WrittenByPositions(book: Book, es: seq<Entry>, maxCount: nat)
    requires ValidBook(book) && |es| <= maxCount < 0x1_0000 && forall i :: 0 <= i < |es| ==> ValidEntry(es[i])
    ensures var b := EncodeStore(VERSION, book, es);
            b != [] && b[0] == 4 && HoldsStore(b, maxCount, book, es)
  {
    hide HoldsStore;
    WrittenIsReadBack(book, es, maxCount);
    LoadsByPositions(EncodeStore(VERSION, book, es), maxCount, book, es);
  }
}
