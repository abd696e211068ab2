/** What the files of one book mean, and what rewriting its store may leave on the card. */
module ClippingDisk {
  import opened Bytes
  import opened Options
  import opened ClippingFormat
  import opened Device

  /** The bytes the next load will use: the store, or its backup when the store is missing. */
  function Recoverable(fs: Files, book: seq<byte>): Option<seq<byte>>
  {
    if Name(book, Main) in fs then Some(fs[Name(book, Main)])
    else if Name(book, Bak) in fs then Some(fs[Name(book, Bak)])
    else None
  }

  function CardBytes(fs: Files, book: seq<byte>): seq<byte>
  {
    match Recoverable(fs, book)
    case None => []
    case Some(b) => b
  }

  /** The clippings a load shows, or None when the file is damaged. */
  function LoadResult(fs: Files, book: seq<byte>, maxCount: nat): Option<seq<Entry>>
  {
    match Recoverable(fs, book)
    case None => Some([])
    case Some(b) =>
      match ParseStore(b, maxCount)
      case None => None
      case Some(s) => ParsedStoreValid(b, maxCount); Some(EntriesOf(b, s.clips))
  }

  lemma RecordSizes(r: Record)
    requires ValidRecord(r)
    ensures |r.id| == ID_SIZE && |r.chapterTitle| == TITLE_SIZE
  {
  }

  // ---- Rewriting ----

  /** Every text that is not replaced can be copied from b. */
  ghost predicate CanRewrite(b: seq<byte>, clips: seq<Clipping>, replacement: Option<seq<byte>>, at: nat)
  {
    (forall i :: 0 <= i < |clips| ==> ValidRecord(clips[i].rec) && clips[i].textLength <= TEXT_MAX) &&
    (forall i :: 0 <= i < |clips| ==> (replacement.Some? && i == at) || Linked(b, clips[i])) &&
    (replacement.Some? ==> |replacement.value| <= TEXT_MAX)
  }

  /** The clippings a rewrite stores. */
  ghost function Rewritten(b: seq<byte>, clips: seq<Clipping>, replacement: Option<seq<byte>>, at: nat)
    : (es: seq<Entry>)
    requires CanRewrite(b, clips, replacement, at)
    ensures |es| == |clips|
    ensures forall i :: 0 <= i < |es| ==> ValidEntry(es[i])
  {
    seq(|clips|, i requires 0 <= i < |clips| =>
      Entry(clips[i].rec, if replacement.Some? && i == at then replacement.value else TextAt(b, clips[i])))
  }

  /** What the rewrite writes for clipping i. */
  lemma RewrittenAt(b: seq<byte>, clips: seq<Clipping>, replacement: Option<seq<byte>>, at: nat, i: nat)
    requires CanRewrite(b, clips, replacement, at) && i < |clips|
    ensures var e := Rewritten(b, clips, replacement, at)[i];
            ValidRecord(clips[i].rec) && e.rec == clips[i].rec &&
            if replacement.Some? && i == at then e.text == replacement.value
            else Linked(b, clips[i]) && e.text == TextAt(b, clips[i])
  {
  }

  lemma PlannedSize(b: seq<byte>, clips: seq<Clipping>, replacement: Option<seq<byte>>, at: nat)
    requires CanRewrite(b, clips, replacement, at)
    ensures replacement.Some? ==> |replacement.value| <= TEXT_MAX
  {
  }

  lemma SameRecovered(before: Files, after: Files, book: seq<byte>, maxCount: nat)
    ensures Recoverable(after, book) == Recoverable(before, book) ==>
            LoadResult(after, book, maxCount) == LoadResult(before, book, maxCount)
  {
  }

  /** With neither store nor backup, a load shows no clippings. */
  lemma EmptyLoads(fs: Files, book: seq<byte>, maxCount: nat)
    requires Recoverable(fs, book).None?
    ensures LoadResult(fs, book, maxCount) == Some([])
  {
  }

  lemma LoadResultDefined(fs: Files, book: seq<byte>, maxCount: nat)
    requires Recoverable(fs, book).Some?
    ensures LoadResult(fs, book, maxCount).Some? <==> ParseStore(Recoverable(fs, book).value, maxCount).Some?
  {
  }

  /** Clippings parsed from the card can be rewritten from it and are what a load shows. */
  lemma ParsedIsBacked(fs: Files, book: seq<byte>, maxCount: nat, clips: seq<Clipping>)
    requires Recoverable(fs, book).Some?
    requires var s := ParseStore(Recoverable(fs, book).value, maxCount); s.Some? && s.value.clips == clips
    ensures CanRewrite(CardBytes(fs, book), clips, None, 0)
    ensures LoadResult(fs, book, maxCount) == Some(EntriesOf(CardBytes(fs, book), clips))
  {
    ParsedStoreValid(Recoverable(fs, book).value, maxCount);
  }

  /** The clippings with the text offsets of a store of es. */
  function Relocated(clips: seq<Clipping>, start: nat, es: seq<Entry>): (cs: seq<Clipping>)
    requires |clips| == |es|
    ensures |cs| == |clips|
  {
    seq(|clips|, i requires 0 <= i < |clips| => clips[i].(textOffset := TextOffset(VERSION, start, es, i)))
  }

  /** After a rewrite, cut or not, the next load uses exactly the old bytes or exactly the new ones. */
  ghost predicate OldOrNew(before: Files, after: Files, book: seq<byte>, bytes: seq<byte>)
  {
    Recoverable(after, book) == Recoverable(before, book) || Recoverable(after, book) == Some(bytes)
  }

  /** Only the store, its backup and its temporary file may have changed. */
  ghost predicate OthersKept(before: Files, after: Files, book: seq<byte>)
  {
    SameExcept(before, after, {Name(book, Main), Name(book, Bak), Name(book, Tmp)})
  }

  /** Nothing outside the temporary file decides what is recovered. */
  lemma TmpIrrelevant(before: Files, after: Files, book: seq<byte>)
    requires SameExcept(before, after, {Name(book, Tmp)})
    ensures Recoverable(after, book) == Recoverable(before, book)
    ensures OthersKept(before, after, book)
  {
  }

  /** With lengths that match the texts, the relocated clippings read the rewritten texts. */
  lemma RelocatedReads(clips: seq<Clipping>, book: Book, es: seq<Entry>)
    requires |clips| == |es|
    requires forall i :: 0 <= i < |es| ==>
      clips[i].rec == es[i].rec && clips[i].textLength == |es[i].text| && ValidEntry(es[i])
    ensures var b, cs := EncodeStore(VERSION, book, es), Relocated(clips, HeaderSize(VERSION, book, |es|), es);
            AllLinked(b, cs) && EntriesOf(b, cs) == es
  {
    hide EncodeStore, HeaderSize, EncodeEntries, EncodeHeader, ValidRecord;
    StoreParts(VERSION, book, es);
    RelocatedReadsAt(EncodeStore(VERSION, book, es), HeaderSize(VERSION, book, |es|), clips, es);
  }

  lemma RelocatedReadsAt(b: seq<byte>, start: nat, clips: seq<Clipping>, es: seq<Entry>)
    requires |clips| == |es| && At(b, start, EncodeEntries(VERSION, es))
    requires forall i :: 0 <= i < |es| ==>
      clips[i].rec == es[i].rec && clips[i].textLength == |es[i].text| && ValidEntry(es[i])
    ensures var cs := Relocated(clips, start, es);
            AllLinked(b, cs) && EntriesOf(b, cs) == es
  {
    hide TextOffset, EncodeEntries;
    var cs := Relocated(clips, start, es);
    forall i | 0 <= i < |es| ensures Linked(b, cs[i]) && TextAt(b, cs[i]) == es[i].text {
      TextOfWritten(b, start, VERSION, es, i);
    }
  }

  /** Positions in a store fit 32 bits whatever the store holds. */
  lemma StoreSizeFits(book: Book, es: seq<Entry>)
    requires ValidBook(book) && |es| <= 1024 && forall i :: 0 <= i < |es| ==> ValidEntry(es[i])
    ensures |EncodeStore(VERSION, book, es)| <= U32_MAX
  {
    hide EncodeStore, EncodeEntries, ValidEntry;
    EntriesSize(es);
    StoreParts(VERSION, book, es);
    assert HeaderSize(VERSION, book, |es|) <= 3 + 3 * (4 + HEADER_STRING_MAX);
  }

  lemma {:induction false} EntriesSize(es: seq<Entry>)
    requires forall i :: 0 <= i < |es| ==> ValidEntry(es[i])
    ensures |EncodeEntries(VERSION, es)| <= |es| * (FixedSize(VERSION) + TEXT_MAX)
  {
    if es != [] {
      EntriesSize(es[..|es| - 1]);
    }
  }

  /** What a load shows of a store of es: the clippings, or, when its end is missing, that it is damaged. */
  function Shown(es: seq<Entry>, whole: bool): Option<seq<Entry>> { if whole then Some(es) else None }

  /** After an operation, cut or not, the next load shows exactly what it showed before or exactly the new state. */
  ghost predicate LoadsOldOrNew(before: Files, after: Files, book: seq<byte>, maxCount: nat, now: Option<seq<Entry>>)
  {
    LoadResult(after, book, maxCount) == LoadResult(before, book, maxCount) || LoadResult(after, book, maxCount) == now
  }

  /** What is left of a written store, loaded: its clippings if nothing is missing, else a damaged store. */
  lemma LeftLoads(fs: Files, store: seq<byte>, maxCount: nat, book: Book, es: seq<Entry>, left: seq<byte>)
    requires ValidBook(book) && |es| <= maxCount < 0x1_0000 && forall i :: 0 <= i < |es| ==> ValidEntry(es[i])
    requires left <= EncodeStore(VERSION, book, es) && Recoverable(fs, store) == Some(left)
    ensures LoadResult(fs, store, maxCount) == Shown(es, left == EncodeStore(VERSION, book, es))
  {
    hide EncodeStore, ParseStore, ValidRecord;
    var b := EncodeStore(VERSION, book, es);
    if left == b {
      WrittenIsReadBack(book, es, maxCount);
    } else {
      assert left == b[..|left|];
      TornStoreDamaged(book, es, maxCount, |left|);
    }
  }

  // ---- Deletion journal ----

  function Journal(fs: Files, book: seq<byte>): seq<byte>
  {
    if Name(book, Deleted) in fs then fs[Name(book, Deleted)] else []
  }

  /** The whole ids of a journal; a torn tail counts for nothing. */
  function JournalIds(j: seq<byte>): (ids: seq<seq<byte>>)
    ensures |ids| == |j| / ID_SIZE
    ensures forall k :: 0 <= k < |ids| ==> |ids[k]| == ID_SIZE
  {
    if |j| < ID_SIZE then [] else [j[..ID_SIZE]] + JournalIds(j[ID_SIZE..])
  }

  /** A torn tail adds nothing; a whole id after whole ids adds that id. */
  lemma {:induction false} JournalAppend(j: seq<byte>, tail: seq<byte>)
    requires |j| % ID_SIZE == 0
    ensures |tail| < ID_SIZE ==> JournalIds(j + tail) == JournalIds(j)
    ensures |tail| == ID_SIZE ==> JournalIds(j + tail) == JournalIds(j) + [tail]
  {
    if j == [] {
      assert j + tail == tail;
      assert |tail| == ID_SIZE ==> tail[..ID_SIZE] == tail && JournalIds(tail[ID_SIZE..]) == [];
    } else {
      JournalAppend(j[ID_SIZE..], tail);
      assert (j + tail)[ID_SIZE..] == j[ID_SIZE..] + tail;
      assert (j + tail)[..ID_SIZE] == j[..ID_SIZE];
    }
  }

  /** Cutting a journal anywhere behind its whole ids keeps them. */
  lemma {:induction false} JournalTail(j: seq<byte>, n: nat)
    requires |j| - |j| % ID_SIZE <= n <= |j|
    ensures JournalIds(j[..n]) == JournalIds(j)
  {
    if |j| >= ID_SIZE {
      var rest := j[ID_SIZE..];
      assert |rest| % ID_SIZE == |j| % ID_SIZE;
      JournalTail(rest, n - ID_SIZE);
      assert j[..n][..ID_SIZE] == j[..ID_SIZE];
      assert j[..n][ID_SIZE..] == rest[..n - ID_SIZE];
    }
  }

  lemma {:induction false} JournalAt(j: seq<byte>, k: nat)
    requires ID_SIZE * (k + 1) <= |j|
    ensures k < |JournalIds(j)| && JournalIds(j)[k] == j[ID_SIZE * k..ID_SIZE * (k + 1)]
  {
    if k > 0 {
      JournalAt(j[ID_SIZE..], k - 1);
      assert j[ID_SIZE..][ID_SIZE * (k - 1)..ID_SIZE * k] == j[ID_SIZE * k..ID_SIZE * (k + 1)];
    }
  }

  /** The bytes before the terminating zero. */
  function CString(s: seq<byte>): (c: seq<byte>)
    ensures |c| <= |s| && c == s[..|c|] && (|c| < |s| ==> s[|c|] == 0)
    ensures forall i :: 0 <= i < |c| ==> c[i] != 0
  {
    if s == [] || s[0] == 0 then [] else [s[0]] + CString(s[1..])
  }

  /** The ids of the stored clippings, as strings. */
  function StoredIds(es: seq<Entry>): (ids: seq<seq<byte>>)
    ensures |ids| == |es|
  {
    seq(|es|, i requires 0 <= i < |es| => CString(es[i].rec.id))
  }

  /** The journaled ids that no stored clipping carries, in journal order. */
  function Unstored(ids: seq<seq<byte>>, stored: seq<seq<byte>>): (r: seq<seq<byte>>)
  {
    if ids == [] then []
    else
      var last := CString(ids[|ids| - 1]);
      Unstored(ids[..|ids| - 1], stored) + if last in stored then [] else [last]
  }

  /** Every journaled id is a C string that names something. */
  predicate NamesOnly(ids: seq<seq<byte>>)
  {
    forall k :: 0 <= k < |ids| ==> Terminated(ids[k], ID_SIZE) && CString(ids[k]) != []
  }

  // ---- What an operation plans to write ----

  lemma KeepPlan(b: seq<byte>, clips: seq<Clipping>)
    requires CanRewrite(b, clips, None, 0)
    ensures Rewritten(b, clips, None, 0) == EntriesOf(b, clips)
  {
  }

  lemma AppendPlan(b: seq<byte>, clips: seq<Clipping>, c: Clipping, text: seq<byte>)
    requires CanRewrite(b, clips, None, 0) && ValidRecord(c.rec) && c.textLength == |text| <= TEXT_MAX
    ensures CanRewrite(b, clips + [c], Some(text), |clips|)
    ensures Rewritten(b, clips + [c], Some(text), |clips|) == EntriesOf(b, clips) + [Entry(c.rec, text)]
  {
    hide ValidRecord;
  }

  lemma ReplacePlan(b: seq<byte>, clips: seq<Clipping>, at: nat, c: Clipping, text: seq<byte>)
    requires CanRewrite(b, clips, None, 0) && at < |clips| && ValidRecord(c.rec) && c.textLength == |text| <= TEXT_MAX
    ensures CanRewrite(b, clips[at := c], Some(text), at)
    ensures Rewritten(b, clips[at := c], Some(text), at) == EntriesOf(b, clips)[at := Entry(c.rec, text)]
  {
    hide ValidRecord;
  }

  function Without<T>(s: seq<T>, at: nat): (r: seq<T>)
    requires at < |s|
    ensures |r| == |s| - 1
  {
    s[..at] + s[at + 1..]
  }

  lemma DropPlan(b: seq<byte>, clips: seq<Clipping>, at: nat, k: nat)
    requires CanRewrite(b, clips, None, 0) && at < |clips|
    ensures CanRewrite(b, Without(clips, at), None, k)
    ensures Rewritten(b, Without(clips, at), None, k) == Without(EntriesOf(b, clips), at)
  {
    hide ValidRecord;
  }

  /** Records may change in place while the texts stay: sync ids, upload marks. */
  lemma RemarkPlan(b: seq<byte>, clips: seq<Clipping>, at: nat, r: Record)
    requires CanRewrite(b, clips, None, 0) && at < |clips| && ValidRecord(r)
    ensures CanRewrite(b, clips[at := clips[at].(rec := r)], None, 0)
    ensures EntriesOf(b, clips[at := clips[at].(rec := r)]) ==
            EntriesOf(b, clips)[at := EntriesOf(b, clips)[at].(rec := r)]
  {
    hide ValidRecord;
  }

  ghost predicate LengthsMatch(clips: seq<Clipping>, es: seq<Entry>)
  {
    |clips| == |es| && forall i :: 0 <= i < |es| ==> clips[i].rec == es[i].rec && clips[i].textLength == |es[i].text|
  }

  /** Whatever a plan replaces, the lengths in memory match what it stores, if the replaced clipping's does. */
  lemma PlanLengths(b: seq<byte>, clips: seq<Clipping>, replacement: Option<seq<byte>>, at: nat)
    requires CanRewrite(b, clips, replacement, at)
    requires replacement.Some? && at < |clips| ==> clips[at].textLength == |replacement.value|
    ensures LengthsMatch(clips, Rewritten(b, clips, replacement, at))
  {
    hide ValidRecord;
  }

  /** After a rewrite the relocated index shows the planned clippings of the bytes that were written. */
  lemma AfterRewrite(book: Book, clips: seq<Clipping>, es: seq<Entry>)
    requires LengthsMatch(clips, es) && forall i :: 0 <= i < |es| ==> ValidEntry(es[i])
    ensures var b, cs := EncodeStore(VERSION, book, es), Relocated(clips, HeaderSize(VERSION, book, |es|), es);
            CanRewrite(b, cs, None, 0) && AllLinked(b, cs) && EntriesOf(b, cs) == es
  {
    hide EncodeStore, HeaderSize, TextOffset, ValidRecord;
    RelocatedReads(clips, book, es);
  }

  /**
   * Cut or not, after a rewrite that left so much of es in the temporary file, a load shows what it showed
   * before, or es if all is left, or else a damaged store.
   */
  lemma RewriteLoads(before: Files, after: Files, store: seq<byte>, book: Book, es: seq<Entry>, left: seq<byte>,
                     maxCount: nat)
    requires |es| <= maxCount < 0x1_0000 && forall i :: 0 <= i < |es| ==> ValidEntry(es[i])
    requires left <= EncodeStore(VERSION, book, es) && OldOrNew(before, after, store, left)
    requires ValidBook(book) || before == after
    ensures LoadsOldOrNew(before, after, store, maxCount, Shown(es, left == EncodeStore(VERSION, book, es)))
    ensures ValidBook(book) && Recoverable(after, store) == Some(left) ==>
              LoadResult(after, store, maxCount) == Shown(es, left == EncodeStore(VERSION, book, es))
  {
    hide EncodeStore, ParseStore, ValidRecord, LoadResult;
    SameRecovered(before, after, store, maxCount);
    if ValidBook(book) && Recoverable(after, store) == Some(left) {
      LeftLoads(after, store, maxCount, book, es, left);
    }
  }

  // ---- Removing with a journal ----

  lemma NoIds()
    ensures JournalIds([]) == []
  {
  }

  /**
   * What removing clipping at may leave on the card: a load shows what it showed, or now; the journal gained the
   * id or nothing; and, if the journal keeps what it is given, a load shows something else only after the id, if
   * there is one, was journaled.
   */
  ghost predicate RemovalOutcome(before: Files, after: Files, book: seq<byte>, maxCount: nat, id: seq<byte>,
                                 now: Option<seq<Entry>>, keeps: bool)
  {
    var ids, ids' := JournalIds(Journal(before, book)), JournalIds(Journal(after, book));
    LoadsOldOrNew(before, after, book, maxCount, now) &&
    (ids' == ids || (CString(id) != [] && ids' == ids + [id])) &&
    (LoadResult(after, book, maxCount) != LoadResult(before, book, maxCount) && CString(id) != [] ==>
      ids' == if keeps then ids + [id] else ids)
  }

  /** id, when it is not empty, was added to the journal. */
  predicate Journaled(before: Files, after: Files, book: seq<byte>, id: seq<byte>)
  {
    CString(id) != [] ==> JournalIds(Journal(after, book)) == JournalIds(Journal(before, book)) + [id]
  }

  predicate SameJournalIds(before: Files, after: Files, book: seq<byte>)
  {
    JournalIds(Journal(after, book)) == JournalIds(Journal(before, book))
  }

  /** The journal gained the id, which is not empty, or nothing. */
  predicate JournalGrew(before: Files, after: Files, book: seq<byte>, id: seq<byte>)
  {
    var ids, ids' := JournalIds(Journal(before, book)), JournalIds(Journal(after, book));
    ids' == ids || (CString(id) != [] && ids' == ids + [id])
  }

  lemma RemovalDone(before: Files, journaled: Files, after: Files, book: seq<byte>, maxCount: nat, id: seq<byte>,
                    now: Option<seq<Entry>>, keeps: bool)
    requires LoadResult(journaled, book, maxCount) == LoadResult(before, book, maxCount)
    requires OthersKept(journaled, after, book) && JournalGrew(before, journaled, book, id)
    requires journaled == after || (LoadsOldOrNew(journaled, after, book, maxCount, now) &&
                                    (if keeps then Journaled(before, journaled, book, id)
                                     else SameJournalIds(before, journaled, book)))
    ensures RemovalOutcome(before, after, book, maxCount, id, now, keeps)
  {
    hide LoadResult, JournalIds, CString;
    JournalKept(journaled, after, book);
  }

  lemma StillJournaled(before: Files, journaled: Files, after: Files, book: seq<byte>, id: seq<byte>)
    requires OthersKept(journaled, after, book) && Journaled(before, journaled, book, id)
    ensures Journaled(before, after, book, id)
  {
    hide JournalIds, CString;
    JournalKept(journaled, after, book);
  }

  lemma JournalOnly(before: Files, after: Files, book: seq<byte>, maxCount: nat)
    requires SameExcept(before, after, {Name(book, Deleted)})
    ensures Recoverable(after, book) == Recoverable(before, book)
    ensures CardBytes(after, book) == CardBytes(before, book)
    ensures LoadResult(after, book, maxCount) == LoadResult(before, book, maxCount)
  {
  }

  lemma JournalKept(before: Files, after: Files, book: seq<byte>)
    requires OthersKept(before, after, book)
    ensures Journal(after, book) == Journal(before, book)
  {
  }

  lemma RecordOfContent(b: seq<byte>, clips: seq<Clipping>, at: nat)
    requires CanRewrite(b, clips, None, 0) && at < |clips|
    ensures ValidRecord(clips[at].rec) && EntriesOf(b, clips)[at].rec == clips[at].rec
    ensures |clips[at].rec.id| == ID_SIZE
  {
  }

  // ---- Applying a remote clipping ----

  /** The position of the first clipping with this id, or the number of clippings. */
  function IdAt(es: seq<Entry>, id: seq<byte>): (at: nat)
    ensures at <= |es|
    ensures at < |es| ==> CString(es[at].rec.id) == CString(id)
    ensures forall i :: 0 <= i < at ==> CString(es[i].rec.id) != CString(id)
  {
    if es == [] || CString(es[0].rec.id) == CString(id) then 0 else 1 + IdAt(es[1..], id)
  }

  /**
   * The clippings after the server's word on one of them: a deleted one is gone, a new one comes last, and a
   * known one is replaced, unless it is an already acknowledged copy of the same revision.
   */
  function RemoteApplied(es: seq<Entry>, r: Record, text: seq<byte>, deleted: bool): seq<Entry>
  {
    var at := IdAt(es, r.id);
    if at == |es| then if deleted then es else es + [Entry(r, text)]
    else if deleted then Without(es, at)
    else if es[at].rec.syncRevision == r.syncRevision && !es[at].rec.pendingUpload then es
    else es[at := Entry(r, text)]
  }

  /**
   * What applying the server's word means for the clippings: of those with the id the first one counts. It goes if
   * it was deleted; it gives way to the record and text sent if its revision differs or it is pending itself, and
   * stays otherwise. Without such a clipping, the record and text come last, or nothing is deleted.
   */
  ghost predicate RemoteDone(before: seq<Entry>, after: seq<Entry>, r: Record, text: seq<byte>, deleted: bool)
  {
    (forall at :: 0 <= at < |before| && CString(before[at].rec.id) == CString(r.id) &&
                  (forall i :: 0 <= i < at ==> CString(before[i].rec.id) != CString(r.id)) ==>
       after == if deleted then before[..at] + before[at + 1..]
                else if before[at].rec.syncRevision != r.syncRevision || before[at].rec.pendingUpload then
                  before[at := Entry(r, text)]
                else before) &&
    ((forall i :: 0 <= i < |before| ==> CString(before[i].rec.id) != CString(r.id)) ==>
       after == if deleted then before else before + [Entry(r, text)])
  }

  lemma RemoteMeans(es: seq<Entry>, r: Record, text: seq<byte>, deleted: bool)
    ensures RemoteDone(es, RemoteApplied(es, r, text, deleted), r, text, deleted)
  {
    hide CString;
  }

  lemma RemotePosition(b: seq<byte>, clips: seq<Clipping>, id: seq<byte>, at: nat)
    requires CanRewrite(b, clips, None, 0) && at <= |clips|
    requires at < |clips| ==> CString(clips[at].rec.id) == CString(id)
    requires forall i :: 0 <= i < at ==> CString(clips[i].rec.id) != CString(id)
    ensures IdAt(EntriesOf(b, clips), id) == at
    ensures at < |clips| ==> EntriesOf(b, clips)[at].rec == clips[at].rec
  {
    hide CString, ValidRecord;
    var es := EntriesOf(b, clips);
    assert forall i :: 0 <= i < |clips| ==> es[i].rec == clips[i].rec;
  }

  lemma LoadsUnchanged(fs: Files, book: seq<byte>, maxCount: nat, now: Option<seq<Entry>>)
    ensures LoadsOldOrNew(fs, fs, book, maxCount, now)
    ensures OthersKept(fs, fs, book)
  {
  }

  // ---- Sync marks ----

  predicate HexId(id: seq<byte>)
  {
    |id| == ID_SIZE && (forall k :: 0 <= k < 32 ==> 48 <= id[k] <= 57 || 97 <= id[k] <= 102) &&
    forall k :: 32 <= k < ID_SIZE ==> id[k] == 0
  }

  /** b is a with a fresh sync id if a had none. */
  predicate Named(a: Entry, b: Entry)
  {
    if a.rec.id == [] || a.rec.id[0] == 0 then HexId(b.rec.id) && b == a.(rec := a.rec.(id := b.rec.id)) else b == a
  }

  predicate AllNamed(before: seq<Entry>, after: seq<Entry>)
  {
    |after| == |before| && forall i :: 0 <= i < |before| ==> Named(before[i], after[i])
  }

  function Uploaded(e: Entry): Entry { e.(rec := e.rec.(pendingUpload := false)) }

  function AllUploaded(es: seq<Entry>): seq<Entry>
  {
    seq(|es|, i requires 0 <= i < |es| => Uploaded(es[i]))
  }

  /** Uploading clears the pending mark of every clipping and nothing else. */
  lemma UploadedOnly(es: seq<Entry>)
    ensures |AllUploaded(es)| == |es|
    ensures forall i :: 0 <= i < |es| ==> AllUploaded(es)[i] == Entry(es[i].rec.(pendingUpload := false), es[i].text)
  {
  }

  lemma MarkedRecordValid(r: Record, id: seq<byte>)
    requires ValidRecord(r)
    ensures ValidRecord(r.(pendingUpload := false))
    ensures HexId(id) ==> ValidRecord(r.(id := id))
  {
    Pow256Values();
    var n := Numbers(r);
    assert Numbers(r.(id := id)) == n;
    assert Numbers(r.(pendingUpload := false)) == n[13 := 0];
  }

  lemma NamedNow(e: Entry, id: seq<byte>)
    requires HexId(id) && (e.rec.id == [] || e.rec.id[0] == 0)
    ensures Named(e, e.(rec := e.rec.(id := id)))
  {
  }

  lemma NamedAlready(e: Entry)
    requires e.rec.id != [] && e.rec.id[0] != 0
    ensures Named(e, e)
  {
  }

  // ---- Reporting deletions ----

  lemma {:induction false} UnstoredPrefix(ids: seq<seq<byte>>, stored: seq<seq<byte>>, n: nat, m: nat)
    requires n <= m <= |ids| && forall k :: n <= k < m ==> CString(ids[k]) in stored
    ensures Unstored(ids[..m], stored) == Unstored(ids[..n], stored)
    decreases m
  {
    hide CString;
    if n < m {
      UnstoredPrefix(ids, stored, n, m - 1);
      assert ids[..m][..m - 1] == ids[..m - 1];
    }
  }

  lemma UnstoredStep(ids: seq<seq<byte>>, stored: seq<seq<byte>>, n: nat)
    requires n < |ids| && CString(ids[n]) !in stored
    ensures Unstored(ids[..n + 1], stored) == Unstored(ids[..n], stored) + [CString(ids[n])]
  {
    assert ids[..n + 1][..n] == ids[..n];
  }

  /** What is reported is journaled and not stored; what is journaled is stored or reported. */
  lemma {:induction false} UnstoredExactly(ids: seq<seq<byte>>, stored: seq<seq<byte>>, id: seq<byte>)
    ensures id in Unstored(ids, stored) <==> id !in stored && IdAmong(ids, id)
  {
    hide CString;
    if ids != [] {
      var n := |ids| - 1;
      UnstoredExactly(ids[..n], stored, id);
      IdAmongLast(ids, id);
    }
  }

  /** One of the journaled ids reads as the string id. */
  predicate IdAmong(ids: seq<seq<byte>>, id: seq<byte>)
  {
    exists k :: 0 <= k < |ids| && CString(ids[k]) == id
  }

  lemma IdAmongLast(ids: seq<seq<byte>>, id: seq<byte>)
    requires ids != []
    ensures IdAmong(ids, id) <==> IdAmong(ids[..|ids| - 1], id) || CString(ids[|ids| - 1]) == id
  {
    hide CString;
    var rest := ids[..|ids| - 1];
    if k :| 0 <= k < |rest| && CString(rest[k]) == id {
      assert CString(ids[k]) == id;
    }
    if k :| 0 <= k < |rest| && CString(ids[k]) == id {
      assert CString(rest[k]) == id;
    }
  }

  lemma {:induction false} UnstoredGrows(ids: seq<seq<byte>>, stored: seq<seq<byte>>, n: nat)
    requires n <= |ids|
    ensures Unstored(ids[..n], stored) <= Unstored(ids, stored)
    decreases |ids|
  {
    hide CString;
    if n < |ids| {
      UnstoredGrows(ids[..|ids| - 1], stored, n);
      assert ids[..|ids| - 1][..n] == ids[..n];
    } else {
      assert ids[..n] == ids;
    }
  }

  lemma StoredMember(b: seq<byte>, clips: seq<Clipping>, id: seq<byte>)
    requires CanRewrite(b, clips, None, 0)
    ensures id in StoredIds(EntriesOf(b, clips)) <==>
            exists i :: 0 <= i < |clips| && CString(clips[i].rec.id) == id
  {
    hide CString;
    var ids := StoredIds(EntriesOf(b, clips));
    assert forall i :: 0 <= i < |clips| ==> ids[i] == CString(clips[i].rec.id);
    if id in ids {
      var i :| 0 <= i < |ids| && ids[i] == id;
    }
  }

  /** One report: from some position on, id is the next unstored journaled one and ends at position to. */
  predicate Reports(ids: seq<seq<byte>>, stored: seq<seq<byte>>, from: nat, to: nat, id: seq<byte>)
  {
    from <= to <= |ids| &&
    if id == [] then Unstored(ids, stored) == Unstored(ids[..from], stored)
    else from < to && Unstored(ids[..to], stored) == Unstored(ids[..from], stored) + [id]
  }

  lemma ReportsNext(ids: seq<seq<byte>>, stored: seq<seq<byte>>, from: nat, k: nat)
    requires from <= k < |ids| && (forall i :: from <= i < k ==> CString(ids[i]) in stored)
    requires CString(ids[k]) !in stored && CString(ids[k]) != []
    ensures Reports(ids, stored, from, k + 1, CString(ids[k]))
  {
    hide CString;
    UnstoredPrefix(ids, stored, from, k);
    UnstoredStep(ids, stored, k);
  }

  lemma ReportsNone(ids: seq<seq<byte>>, stored: seq<seq<byte>>, from: nat)
    requires from <= |ids| && forall i :: from <= i < |ids| ==> CString(ids[i]) in stored
    ensures Reports(ids, stored, from, |ids|, [])
  {
    hide CString;
    UnstoredPrefix(ids, stored, from, |ids|);
    assert ids[..|ids|] == ids;
  }

  lemma NothingReported(ids: seq<seq<byte>>, stored: seq<seq<byte>>)
    ensures Unstored(ids[..0], stored) == []
  {
  }
}
