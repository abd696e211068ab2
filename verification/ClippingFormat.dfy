/** The clipping file: header, then one record and its text per clipping. Four versions are read, one is written. */
module ClippingFormat {
  import opened Bytes
  import opened Options

  const LEGACY_VERSION: nat := 1
  const LAYOUT_VERSION: nat := 3
  const VERSION: nat := 4
  const TEXT_MAX: nat := 4096
  const HEADER_STRING_MAX: nat := 4096
  const ID_SIZE: nat := 65
  const TITLE_SIZE: nat := 48
  const U32_MAX: nat := 0xFFFF_FFFF

  /** What a clipping keeps besides its text. */
  datatype Record = Record(
    spineIndex: nat, startPage: nat, endPage: nat, pageCount: nat,
    startWordIndex: nat, endWordIndex: nat, wordCount: nat, paragraphIndex: nat,
    timestamp: nat, layoutSignature: nat, startOffset: nat, endOffset: nat,
    syncRevision: nat, pendingUpload: bool, id: seq<byte>, chapterTitle: seq<byte>)

  /** The in-memory form: the text stays on the card. */
  datatype Clipping = Clipping(rec: Record, textOffset: nat, textLength: nat)

  /** What a clipping means to the reader: its record and its text. */
  datatype Entry = Entry(rec: Record, text: seq<byte>)

  datatype Book = Book(title: seq<byte>, author: seq<byte>, path: seq<byte>)

  datatype Store = Store(book: Book, clips: seq<Clipping>)

  function Zeros(n: nat): (z: seq<byte>)
    ensures |z| == n && forall i :: 0 <= i < n ==> z[i] == 0
  {
    seq(n, _ => 0)
  }

  predicate ReadableVersion(version: nat) { LEGACY_VERSION <= version <= VERSION }

  // ---- Fixed part of a record ----

  function Widths(version: nat): seq<nat>
  {
    [2, 2, 2, 2, 2, 2, 2, 2, 4] +
    (if version >= LAYOUT_VERSION then [4] else []) +
    (if version >= VERSION then [4, 4, 8, 1] else [])
  }

  function NumberBytes(version: nat): nat
  {
    if version >= VERSION then 41 else if version >= LAYOUT_VERSION then 24 else 20
  }

  lemma SumCons(first: nat, rest: seq<nat>)
    ensures Sum([first] + rest) == first + Sum(rest)
  {
    assert ([first] + rest)[1..] == rest;
  }

  lemma SumOfFour(w: nat, rest: seq<nat>)
    ensures Sum([w, w, w, w] + rest) == 4 * w + Sum(rest)
  {
    SumCons(w, rest);
    SumCons(w, [w] + rest);
    SumCons(w, [w, w] + rest);
    SumCons(w, [w, w, w] + rest);
    assert [w] + ([w] + rest) == [w, w] + rest;
    assert [w] + ([w, w] + rest) == [w, w, w] + rest;
    assert [w] + ([w, w, w] + rest) == [w, w, w, w] + rest;
  }

  lemma WidthsSum(version: nat)
    ensures Sum(Widths(version)) == NumberBytes(version)
  {
    var tail := (if version >= LAYOUT_VERSION then [4] else []) + (if version >= VERSION then [4, 4, 8, 1] else []);
    SumOfFour(2, [2, 2, 2, 2, 4] + tail);
    SumOfFour(2, [4] + tail);
    assert Widths(version) == [2, 2, 2, 2] + ([2, 2, 2, 2, 4] + tail);
    assert [2, 2, 2, 2, 4] + tail == [2, 2, 2, 2] + ([4] + tail);
    TailSum(version, tail);
  }

  lemma TailSum(version: nat, tail: seq<nat>)
    requires tail == (if version >= LAYOUT_VERSION then [4] else []) + (if version >= VERSION then [4, 4, 8, 1] else [])
    ensures Sum([4] + tail) == NumberBytes(version) - 16
  {
    if version >= VERSION {
      SumOfFour(4, [8, 1]);
      SumCons(8, [1]);
      assert [4] + tail == [4, 4, 4, 4] + [8, 1] && [8] + [1] == [8, 1];
    } else {
      SumCons(4, tail);
    }
  }

  function Numbers(r: Record): seq<nat>
  {
    [r.spineIndex, r.startPage, r.endPage, r.pageCount, r.startWordIndex, r.endWordIndex, r.wordCount,
     r.paragraphIndex, r.timestamp, r.layoutSignature, r.startOffset, r.endOffset, r.syncRevision,
     if r.pendingUpload then 1 else 0]
  }

  /** Rebuilds a record; the fields a version does not store keep their member defaults. */
  function FromNumbers(n: seq<nat>, id: seq<byte>, title: seq<byte>): Record
    requires |n| in {9, 10, 14}
  {
    Record(n[0], n[1], n[2], n[3], n[4], n[5], n[6], n[7], n[8],
           if |n| >= 10 then n[9] else 0,
           if |n| == 14 then n[10] else U32_MAX,
           if |n| == 14 then n[11] else U32_MAX,
           if |n| == 14 then n[12] else 0,
           if |n| == 14 then n[13] != 0 else true,
           id, title)
  }

  predicate Terminated(s: seq<byte>, size: nat)
  {
    size > 0 && |s| == size && s[size - 1] == 0
  }

  function Terminate(s: seq<byte>): (t: seq<byte>)
    requires |s| > 0
    ensures Terminated(t, |s|)
  {
    s[|s| - 1 := 0]
  }

  predicate ValidRecord(r: Record)
  {
    FitsAll(Numbers(r), Widths(VERSION)) && Terminated(r.id, ID_SIZE) && Terminated(r.chapterTitle, TITLE_SIZE)
  }

  /** Numbers are in range when the source's integer types hold them. */
  lemma RecordInRange(r: Record)
    requires r.spineIndex < 0x1_0000 && r.startPage < 0x1_0000 && r.endPage < 0x1_0000 && r.pageCount < 0x1_0000
    requires r.startWordIndex < 0x1_0000 && r.endWordIndex < 0x1_0000 && r.wordCount < 0x1_0000
    requires r.paragraphIndex < 0x1_0000 && r.timestamp <= U32_MAX && r.layoutSignature <= U32_MAX
    requires r.startOffset <= U32_MAX && r.endOffset <= U32_MAX && r.syncRevision < 0x1_0000_0000_0000_0000
    requires Terminated(r.id, ID_SIZE) && Terminated(r.chapterTitle, TITLE_SIZE)
    ensures ValidRecord(r)
  {
    Pow256Values();
  }

  predicate ValidEntry(e: Entry) { ValidRecord(e.rec) && |e.text| <= TEXT_MAX }

  /** An entry some earlier version may hold: version 1 put no limit on the text. */
  predicate StorableEntry(version: nat, e: Entry)
  {
    ValidRecord(e.rec) && |e.text| <= (if version == LEGACY_VERSION then U32_MAX else TEXT_MAX)
  }

  predicate ValidBook(book: Book)
  {
    |book.title| <= HEADER_STRING_MAX && |book.author| <= HEADER_STRING_MAX && |book.path| <= HEADER_STRING_MAX
  }

  // ---- Writing ----

  function LengthWidth(version: nat): nat { if version == LEGACY_VERSION then 4 else 2 }

  function FixedSize(version: nat): nat
  {
    NumberBytes(version) + (if version >= VERSION then ID_SIZE else 0) + TITLE_SIZE + LengthWidth(version)
  }

  function EncodeFixed(version: nat, r: Record, textLength: nat): (b: seq<byte>)
    ensures |r.id| == ID_SIZE && |r.chapterTitle| == TITLE_SIZE ==> |b| == FixedSize(version)
  {
    WidthsSum(version);
    EncodeNumbers(Numbers(r)[..|Widths(version)|], Widths(version)) +
    (if version >= VERSION then r.id else []) + r.chapterTitle + LE(textLength, LengthWidth(version))
  }

  function EncodeEntry(version: nat, e: Entry): seq<byte>
  {
    EncodeFixed(version, e.rec, |e.text|) + e.text
  }

  function EncodeEntries(version: nat, es: seq<Entry>): seq<byte>
  {
    if es == [] then [] else EncodeEntries(version, es[..|es| - 1]) + EncodeEntry(version, es[|es| - 1])
  }

  function EncodeString(s: seq<byte>): seq<byte> { LE(|s|, 4) + s }

  function EncodeHeader(version: byte, book: Book, count: nat): seq<byte>
  {
    [version] + LE(count, 2) + EncodeString(book.title) + EncodeString(book.author) + EncodeString(book.path)
  }

  function EncodeStore(version: byte, book: Book, es: seq<Entry>): seq<byte>
  {
    EncodeHeader(version, book, |es|) + EncodeEntries(version, es)
  }

  // ---- Reading ----

  /** One record and the position after its text. */
  function ParseClip(b: seq<byte>, pos: nat, version: nat): Option<(Clipping, nat)>
  {
    var idPos := pos + NumberBytes(version);
    var titlePos := idPos + (if version >= VERSION then ID_SIZE else 0);
    var lengthPos := titlePos + TITLE_SIZE;
    var textPos := lengthPos + LengthWidth(version);
    if textPos > |b| then None
    else
      WidthsSum(version);
      var nums := DecodeNumbers(b[pos..idPos], Widths(version));
      var id := if version >= VERSION then Terminate(b[idPos..titlePos]) else Zeros(ID_SIZE);
      var len := UnLE(b[lengthPos..textPos]);
      if version != LEGACY_VERSION && len > TEXT_MAX then None
      else if textPos + len > |b| then None
      else Some((Clipping(FromNumbers(nums, id, Terminate(b[titlePos..lengthPos])), textPos,
                          if len < TEXT_MAX then len else TEXT_MAX),
                 textPos + len))
  }

  function ParseClips(b: seq<byte>, pos: nat, version: nat, n: nat): Option<(seq<Clipping>, nat)>
  {
    if n == 0 then Some(([], pos))
    else
      match ParseClips(b, pos, version, n - 1)
      case None => None
      case Some((before, next)) =>
        match ParseClip(b, next, version)
        case None => None
        case Some((c, end)) => Some((before + [c], end))
  }

  lemma {:induction false} NoLaterClips(b: seq<byte>, pos: nat, version: nat, n: nat, m: nat)
    requires n <= m && ParseClips(b, pos, version, n).None?
    ensures ParseClips(b, pos, version, m).None?
  {
    if n < m {
      NoLaterClips(b, pos, version, n, m - 1);
    }
  }

  function ParseString(b: seq<byte>, pos: nat): Option<(seq<byte>, nat)>
  {
    if pos + 4 > |b| then None
    else
      var len := UnLE(b[pos..pos + 4]);
      if len > HEADER_STRING_MAX || pos + 4 + len > |b| then None
      else Some((b[pos + 4..pos + 4 + len], pos + 4 + len))
  }

  datatype Header = Header(version: nat, count: nat, book: Book, end: nat)

  function ParseHeader(b: seq<byte>): Option<Header>
  {
    if |b| < 3 || !ReadableVersion(b[0]) then None
    else
      match ParseString(b, 3)
      case None => None
      case Some((title, p1)) =>
        match ParseString(b, p1)
        case None => None
        case Some((author, p2)) =>
          match ParseString(b, p2)
          case None => None
          case Some((path, p3)) => Some(Header(b[0], UnLE(b[1..3]), Book(title, author, path), p3))
  }

  lemma HeaderReadable(b: seq<byte>)
    ensures ParseHeader(b).Some? ==> ReadableVersion(ParseHeader(b).value.version)
  {
  }

  function ParseStore(b: seq<byte>, maxCount: nat): Option<Store>
  {
    match ParseHeader(b)
    case None => None
    case Some(h) =>
      if h.count > maxCount then None
      else
        match ParseClips(b, h.end, h.version, h.count)
        case None => None
        case Some((clips, _)) => Some(Store(h.book, clips))
  }

  // ---- Texts ----

  /** The text of c can be read from a file holding b. */
  predicate Linked(b: seq<byte>, c: Clipping)
  {
    c.textLength == 0 || c.textOffset + c.textLength <= |b|
  }

  function TextAt(b: seq<byte>, c: Clipping): (t: seq<byte>)
    requires Linked(b, c)
    ensures |t| == c.textLength
  {
    if c.textLength == 0 then [] else b[c.textOffset..c.textOffset + c.textLength]
  }

  predicate AllLinked(b: seq<byte>, clips: seq<Clipping>)
  {
    forall i :: 0 <= i < |clips| ==> Linked(b, clips[i])
  }

  function EntriesOf(b: seq<byte>, clips: seq<Clipping>): (es: seq<Entry>)
    requires AllLinked(b, clips)
    ensures |es| == |clips|
  {
    seq(|clips|, i requires 0 <= i < |clips| => Entry(clips[i].rec, TextAt(b, clips[i])))
  }

  /** Where the text of entry i starts when the entries are written from position start on. */
  function TextOffset(version: nat, start: nat, es: seq<Entry>, i: nat): nat
    requires i < |es|
  {
    start + |EncodeEntries(version, es[..i])| + FixedSize(version)
  }

  /** What a reader sees after loading an entry that was written by the given version. */
  function Upgrade(version: nat, e: Entry): Entry
  {
    var r := e.rec;
    var r1 := if version >= LAYOUT_VERSION then r else r.(layoutSignature := 0);
    var r2 := if version >= VERSION then r1
              else r1.(startOffset := U32_MAX, endOffset := U32_MAX, syncRevision := 0, pendingUpload := true,
                       id := Zeros(ID_SIZE));
    Entry(r2, if |e.text| <= TEXT_MAX then e.text else e.text[..TEXT_MAX])
  }

  function UpgradeAll(version: nat, es: seq<Entry>): seq<Entry>
  {
    seq(|es|, i requires 0 <= i < |es| => Upgrade(version, es[i]))
  }

  // ---- Round trip ----

  /** s is found in b at pos. */
  predicate At(b: seq<byte>, pos: nat, s: seq<byte>)
  {
    pos + |s| <= |b| && b[pos..pos + |s|] == s
  }

  lemma AtSplit(b: seq<byte>, pos: nat, s: seq<byte>, t: seq<byte>)
    requires At(b, pos, s + t)
    ensures At(b, pos, s) && At(b, pos + |s|, t)
  {
    assert s == (s + t)[..|s|] && t == (s + t)[|s|..];
  }

  lemma AtParts(b: seq<byte>, pos: nat, s1: seq<byte>, s2: seq<byte>, s3: seq<byte>, s4: seq<byte>, s5: seq<byte>)
    requires At(b, pos, s1 + s2 + s3 + s4 + s5)
    ensures At(b, pos, s1) && At(b, pos + |s1|, s2) && At(b, pos + |s1| + |s2|, s3)
    ensures At(b, pos + |s1| + |s2| + |s3|, s4) && At(b, pos + |s1| + |s2| + |s3| + |s4|, s5)
  {
    AtSplit(b, pos, s1 + s2 + s3 + s4, s5);
    AtSplit(b, pos, s1 + s2 + s3, s4);
    AtSplit(b, pos, s1 + s2, s3);
    AtSplit(b, pos, s1, s2);
  }

  lemma NumbersRoundTrip(version: nat, r: Record)
    requires ReadableVersion(version) && ValidRecord(r)
    ensures var ws := Widths(version);
            var vals := Numbers(r)[..|ws|];
            Sum(ws) == NumberBytes(version) && DecodeNumbers(EncodeNumbers(vals, ws), ws) == vals
  {
    var ws := Widths(version);
    assert ws == Widths(VERSION)[..|ws|];
    WidthsSum(version);
    DecodeOfEncodeNumbers(Numbers(r)[..|ws|], ws);
  }

  lemma FromNumbersUpgrades(version: nat, e: Entry)
    requires ReadableVersion(version) && StorableEntry(version, e)
    ensures FromNumbers(Numbers(e.rec)[..|Widths(version)|], if version >= VERSION then e.rec.id else Zeros(ID_SIZE),
                        e.rec.chapterTitle) == Upgrade(version, e).rec
  {
  }

  lemma ParseOfEncodedEntry(b: seq<byte>, pos: nat, version: nat, e: Entry)
    requires ReadableVersion(version) && StorableEntry(version, e)
    requires At(b, pos, EncodeEntry(version, e))
    ensures var up := Upgrade(version, e);
            ParseClip(b, pos, version) ==
            Some((Clipping(up.rec, pos + FixedSize(version), |up.text|), pos + |EncodeEntry(version, e)|))
  {
    hide Pow256, LE, UnLE, Sum, EncodeNumbers, DecodeNumbers, FromNumbers, FitsAll;
    var r, ws := e.rec, Widths(version);
    NumbersRoundTrip(version, r);
    var vals := Numbers(r)[..|ws|];
    var nums := EncodeNumbers(vals, ws);
    var id := if version >= VERSION then r.id else [];
    var len := LE(|e.text|, LengthWidth(version));
    AtParts(b, pos, nums, id, r.chapterTitle, len, e.text);
    Pow256Values();
    UnLEOfLE(|e.text|, LengthWidth(version));
    FromNumbersUpgrades(version, e);
    assert Terminate(r.chapterTitle) == r.chapterTitle && Terminate(r.id) == r.id;
    var idPos := pos + NumberBytes(version);
    var titlePos := idPos + |id|;
    var lengthPos := titlePos + TITLE_SIZE;
    var textPos := lengthPos + LengthWidth(version);
    assert DecodeNumbers(b[pos..idPos], ws) == vals;
    assert (if version >= VERSION then Terminate(b[idPos..titlePos]) else Zeros(ID_SIZE)) ==
           if version >= VERSION then r.id else Zeros(ID_SIZE);
    assert Terminate(b[titlePos..lengthPos]) == r.chapterTitle;
    assert UnLE(b[lengthPos..textPos]) == |e.text|;
  }

  /** The in-memory clippings that loading entries written from position start on gives. */
  function Clippings(version: nat, start: nat, es: seq<Entry>): (cs: seq<Clipping>)
    ensures |cs| == |es|
  {
    seq(|es|, i requires 0 <= i < |es| =>
      var up := Upgrade(version, es[i]); Clipping(up.rec, TextOffset(version, start, es, i), |up.text|))
  }

  lemma NoEntries(version: nat)
    ensures EncodeEntries(version, []) == []
  {
  }

  lemma {:induction false} EntriesPrefix(version: nat, es: seq<Entry>, i: nat)
    requires i < |es|
    ensures EncodeEntries(version, es[..i + 1]) == EncodeEntries(version, es[..i]) + EncodeEntry(version, es[i])
    ensures EncodeEntries(version, es[..i + 1]) <= EncodeEntries(version, es)
    decreases |es| - i
  {
    assert es[..i + 1][..i] == es[..i];
    if i + 1 < |es| {
      EntriesPrefix(version, es, i + 1);
    } else {
      assert es[..i + 1] == es;
    }
  }

  lemma AtPrefix(b: seq<byte>, pos: nat, s: seq<byte>, t: seq<byte>)
    requires At(b, pos, s) && t <= s
    ensures At(b, pos, t)
  {
    assert t + s[|t|..] == s;
    AtSplit(b, pos, t, s[|t|..]);
  }

  lemma EntryIsAt(b: seq<byte>, start: nat, version: nat, es: seq<Entry>, i: nat)
    requires i < |es| && At(b, start, EncodeEntries(version, es))
    ensures At(b, start + |EncodeEntries(version, es[..i])|, EncodeEntry(version, es[i]))
    ensures EncodeEntries(version, es[..i + 1]) == EncodeEntries(version, es[..i]) + EncodeEntry(version, es[i])
  {
    EntriesPrefix(version, es, i);
    AtPrefix(b, start, EncodeEntries(version, es), EncodeEntries(version, es[..i + 1]));
    AtSplit(b, start, EncodeEntries(version, es[..i]), EncodeEntry(version, es[i]));
  }

  lemma {:induction false} ParseOfEncodedEntries(b: seq<byte>, start: nat, version: nat, es: seq<Entry>, n: nat)
    requires ReadableVersion(version) && n <= |es| && At(b, start, EncodeEntries(version, es))
    requires forall i :: 0 <= i < |es| ==> StorableEntry(version, es[i])
    ensures ParseClips(b, start, version, n) ==
            Some((Clippings(version, start, es)[..n], start + |EncodeEntries(version, es[..n])|))
  {
    hide EncodeEntry, ParseClip, Upgrade, At, StorableEntry;
    if n > 0 {
      ParseOfEncodedEntries(b, start, version, es, n - 1);
      EntryIsAt(b, start, version, es, n - 1);
      ParseOfEncodedEntry(b, start + |EncodeEntries(version, es[..n - 1])|, version, es[n - 1]);
      var cs := Clippings(version, start, es);
      assert cs[..n] == cs[..n - 1] + [cs[n - 1]];
    }
  }

  /** The text of entry i is found where TextOffset says. */
  lemma TextOfWritten(b: seq<byte>, start: nat, version: nat, es: seq<Entry>, i: nat)
    requires i < |es| && ValidRecord(es[i].rec) && At(b, start, EncodeEntries(version, es))
    ensures At(b, TextOffset(version, start, es, i), es[i].text)
  {
    hide At, EncodeEntries, EncodeFixed;
    EntryIsAt(b, start, version, es, i);
    AtSplit(b, start + |EncodeEntries(version, es[..i])|, EncodeFixed(version, es[i].rec, |es[i].text|), es[i].text);
  }

  lemma TextsOfWritten(b: seq<byte>, start: nat, version: nat, es: seq<Entry>)
    requires At(b, start, EncodeEntries(version, es))
    requires forall i :: 0 <= i < |es| ==> StorableEntry(version, es[i])
    ensures var cs := Clippings(version, start, es);
            AllLinked(b, cs) && EntriesOf(b, cs) == UpgradeAll(version, es)
  {
    hide EncodeEntries, TextOffset;
    var cs := Clippings(version, start, es);
    forall i | 0 <= i < |es|
      ensures Linked(b, cs[i]) && TextAt(b, cs[i]) == Upgrade(version, es[i]).text
    {
      TextOfWritten(b, start, version, es, i);
    }
  }

  lemma ParseOfEncodedString(b: seq<byte>, pos: nat, s: seq<byte>)
    requires |s| <= HEADER_STRING_MAX && At(b, pos, EncodeString(s))
    ensures ParseString(b, pos) == Some((s, pos + |EncodeString(s)|))
  {
    AtSplit(b, pos, LE(|s|, 4), s);
    Pow256Values();
    UnLEOfLE(|s|, 4);
  }

  lemma ParseOfEncodedHeader(b: seq<byte>, version: byte, book: Book, count: nat)
    requires ReadableVersion(version) && ValidBook(book) && count < 0x1_0000
    requires At(b, 0, EncodeHeader(version, book, count))
    ensures ParseHeader(b) == Some(Header(version, count, book, |EncodeHeader(version, book, count)|))
  {
    hide ParseString, EncodeString, LE, Pow256;
    var t, a, p := EncodeString(book.title), EncodeString(book.author), EncodeString(book.path);
    AtParts(b, 0, [version], LE(count, 2), t, a, p);
    ParseOfEncodedString(b, 3, book.title);
    ParseOfEncodedString(b, 3 + |t|, book.author);
    ParseOfEncodedString(b, 3 + |t| + |a|, book.path);
    Pow256Values();
    UnLEOfLE(count, 2);
  }

  function HeaderSize(version: byte, book: Book, count: nat): nat { |EncodeHeader(version, book, count)| }

  lemma StoreParts(version: byte, book: Book, es: seq<Entry>)
    ensures var b, start := EncodeStore(version, book, es), HeaderSize(version, book, |es|);
            At(b, 0, EncodeHeader(version, book, |es|)) && At(b, start, EncodeEntries(version, es)) &&
            |b| == start + |EncodeEntries(version, es)|
  {
    AtSplit(EncodeStore(version, book, es), 0, EncodeHeader(version, book, |es|), EncodeEntries(version, es));
  }

  /** A load of b shows this book and these clippings, each with its text. */
  predicate LoadsAs(b: seq<byte>, maxCount: nat, book: Book, es: seq<Entry>)
  {
    match ParseStore(b, maxCount)
    case None => false
    case Some(s) => s.book == book && AllLinked(b, s.clips) && EntriesOf(b, s.clips) == es
  }

  /** Loading what any version wrote gives every stored field, the defaults for the newer ones, and the texts. */
  lemma LoadOfWritten(version: byte, book: Book, es: seq<Entry>, maxCount: nat)
    requires ReadableVersion(version) && ValidBook(book) && |es| <= maxCount < 0x1_0000
    requires forall i :: 0 <= i < |es| ==> StorableEntry(version, es[i])
    ensures LoadsAs(EncodeStore(version, book, es), maxCount, book, UpgradeAll(version, es))
    ensures ParseStore(EncodeStore(version, book, es), maxCount).value.clips ==
            Clippings(version, HeaderSize(version, book, |es|), es)
  {
    var b, start := EncodeStore(version, book, es), HeaderSize(version, book, |es|);
    StoreParts(version, book, es);
    ParseOfEncodedHeader(b, version, book, |es|);
    ParseOfEncodedEntries(b, start, version, es, |es|);
    TextsOfWritten(b, start, version, es);
    assert Clippings(version, start, es)[..|es|] == Clippings(version, start, es);
  }

  /** What the current version writes is read back unchanged. */
  lemma WrittenIsReadBack(book: Book, es: seq<Entry>, maxCount: nat)
    requires ValidBook(book) && |es| <= maxCount < 0x1_0000
    requires forall i :: 0 <= i < |es| ==> ValidEntry(es[i])
    ensures LoadsAs(EncodeStore(VERSION, book, es), maxCount, book, es)
  {
    LoadOfWritten(VERSION, book, es, maxCount);
    assert UpgradeAll(VERSION, es) == es;
  }

  // ---- A store that was cut short ----

  lemma ParsedStringAgrees(b: seq<byte>, n: nat, pos: nat)
    requires n <= |b| && ParseString(b[..n], pos).Some?
    ensures ParseString(b, pos) == ParseString(b[..n], pos) && ParseString(b, pos).value.1 <= n
  {
    assert b[..n][pos..pos + 4] == b[pos..pos + 4];
    var len := UnLE(b[pos..pos + 4]);
    assert b[..n][pos + 4..pos + 4 + len] == b[pos + 4..pos + 4 + len];
  }

  lemma ParsedHeaderAgrees(b: seq<byte>, n: nat)
    requires n <= |b| && ParseHeader(b[..n]).Some?
    ensures ParseHeader(b) == ParseHeader(b[..n]) && ParseHeader(b).value.end <= n
  {
    hide ParseString;
    var c := b[..n];
    assert c[1..3] == b[1..3];
    ParsedStringAgrees(b, n, 3);
    var p1 := ParseString(c, 3).value.1;
    ParsedStringAgrees(b, n, p1);
    var p2 := ParseString(c, p1).value.1;
    ParsedStringAgrees(b, n, p2);
  }

  lemma ParsedClipAgrees(b: seq<byte>, n: nat, pos: nat, version: nat)
    requires n <= |b| && ParseClip(b[..n], pos, version).Some?
    ensures ParseClip(b, pos, version) == ParseClip(b[..n], pos, version) && ParseClip(b, pos, version).value.1 <= n
  {
    hide UnLE, DecodeNumbers, FromNumbers, NumberBytes;
    var idPos := pos + NumberBytes(version);
    var titlePos := idPos + (if version >= VERSION then ID_SIZE else 0);
    var lengthPos := titlePos + TITLE_SIZE;
    var textPos := lengthPos + LengthWidth(version);
    assert b[..n][pos..idPos] == b[pos..idPos];
    assert b[..n][idPos..titlePos] == b[idPos..titlePos];
    assert b[..n][titlePos..lengthPos] == b[titlePos..lengthPos];
    assert b[..n][lengthPos..textPos] == b[lengthPos..textPos];
  }

  lemma {:induction false} ParsedClipsAgree(b: seq<byte>, n: nat, pos: nat, version: nat, count: nat)
    requires pos <= n <= |b| && ParseClips(b[..n], pos, version, count).Some?
    ensures ParseClips(b, pos, version, count) == ParseClips(b[..n], pos, version, count)
    ensures ParseClips(b, pos, version, count).value.1 <= n
  {
    hide ParseClip;
    if count > 0 {
      ParsedClipsAgree(b, n, pos, version, count - 1);
      ParsedClipAgrees(b, n, ParseClips(b, pos, version, count - 1).value.1, version);
    }
  }

  /** A store of which the end is missing does not load at all. */
  lemma TornStoreDamaged(book: Book, es: seq<Entry>, maxCount: nat, n: nat)
    requires ValidBook(book) && |es| < 0x1_0000 && n < |EncodeStore(VERSION, book, es)|
    requires forall i :: 0 <= i < |es| ==> ValidEntry(es[i])
    ensures ParseStore(EncodeStore(VERSION, book, es)[..n], maxCount).None?
  {
    hide ParseHeader, ParseClips, EncodeStore, EncodeHeader, EncodeEntries;
    var b, start := EncodeStore(VERSION, book, es), HeaderSize(VERSION, book, |es|);
    StoreParts(VERSION, book, es);
    ParseOfEncodedHeader(b, VERSION, book, |es|);
    ParseOfEncodedEntries(b, start, VERSION, es, |es|);
    assert es[..|es|] == es;
    if ParseStore(b[..n], maxCount).Some? {
      ParsedHeaderAgrees(b, n);
      ParsedClipsAgree(b, n, start, VERSION, |es|);
    }
  }

  // ---- Everything that loads is valid ----

  lemma ParsedClipValid(b: seq<byte>, pos: nat, version: nat)
    requires ReadableVersion(version) && ParseClip(b, pos, version).Some?
    ensures var (c, end) := ParseClip(b, pos, version).value;
            ValidRecord(c.rec) && c.textLength <= TEXT_MAX && Linked(b, c) && end <= |b|
  {
    var (c, end) := ParseClip(b, pos, version).value;
    WidthsSum(version);
    var ws := Widths(version);
    var nums := DecodeNumbers(b[pos..pos + NumberBytes(version)], ws);
    DecodedNumbersFit(b[pos..pos + NumberBytes(version)], ws);
    Pow256Values();
    assert ws == Widths(VERSION)[..|ws|];
    forall i | 0 <= i < 14 ensures Numbers(c.rec)[i] < Pow256(Widths(VERSION)[i]) {
      if i < |ws| { assert Numbers(c.rec)[i] <= nums[i]; }
    }
  }

  lemma {:induction false} ParsedClipsValid(b: seq<byte>, pos: nat, version: nat, n: nat)
    requires ReadableVersion(version) && ParseClips(b, pos, version, n).Some?
    ensures var (cs, _) := ParseClips(b, pos, version, n).value;
            |cs| == n && AllLinked(b, cs) &&
            forall i :: 0 <= i < n ==> ValidRecord(cs[i].rec) && cs[i].textLength <= TEXT_MAX
  {
    if n > 0 {
      ParsedClipsValid(b, pos, version, n - 1);
      var (before, next) := ParseClips(b, pos, version, n - 1).value;
      ParsedClipValid(b, next, version);
    }
  }

  lemma ParsedStoreValid(b: seq<byte>, maxCount: nat)
    requires ParseStore(b, maxCount).Some?
    ensures var s := ParseStore(b, maxCount).value;
            ValidBook(s.book) && |s.clips| <= maxCount && AllLinked(b, s.clips) &&
            forall i :: 0 <= i < |s.clips| ==> ValidRecord(s.clips[i].rec) && s.clips[i].textLength <= TEXT_MAX
  {
    var h := ParseHeader(b).value;
    ParsedClipsValid(b, h.end, h.version, h.count);
  }

  /** A file of an older version, loaded, saved and loaded again: both loads see the same clippings. */
  lemma MigrationKeepsEntries(version: byte, book: Book, es: seq<Entry>, maxCount: nat)
    requires ReadableVersion(version) && ValidBook(book) && |es| <= maxCount < 0x1_0000
    requires forall i :: 0 <= i < |es| ==> StorableEntry(version, es[i])
    ensures LoadsAs(EncodeStore(version, book, es), maxCount, book, UpgradeAll(version, es))
    ensures LoadsAs(EncodeStore(VERSION, book, UpgradeAll(version, es)), maxCount, book, UpgradeAll(version, es))
  {
    LoadOfWritten(version, book, es, maxCount);
    LoadedEntriesValid(EncodeStore(version, book, es), maxCount, book, UpgradeAll(version, es));
    WrittenIsReadBack(book, UpgradeAll(version, es), maxCount);
  }

  lemma LoadedEntriesValid(b: seq<byte>, maxCount: nat, book: Book, es: seq<Entry>)
    requires LoadsAs(b, maxCount, book, es)
    ensures ValidBook(book) && |es| <= maxCount && forall i :: 0 <= i < |es| ==> ValidEntry(es[i])
  {
    ParsedStoreValid(b, maxCount);
  }
}
