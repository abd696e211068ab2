/** The clippings of the open book: an in-memory index over a store file that is rewritten crash-safely. */
module ClippingStore {
  import opened Bytes
  import opened Options
  import opened ClippingFormat
  import opened Device
  import opened ClippingIndex
  import opened ClippingDisk
  import ClippingLayout

  const TEXT_COPY_BUFFER_SIZE: nat := 128

  type u16 = x: int | 0 <= x < 0x1_0000
  type u32 = x: int | 0 <= x <= U32_MAX

  /** The slots after closing the gap at position at among the first n, and after opening it again. */
  function GapClosed<T>(s: seq<T>, n: nat, at: nat): seq<T>
    requires at < n <= |s|
  {
    s[..at] + s[at + 1..n] + s[n - 1..]
  }

  function GapOpened<T>(s: seq<T>, n: nat, at: nat): seq<T>
    requires at <= n < |s|
  {
    s[..at + 1] + s[at..n] + s[n + 1..]
  }

  lemma ClosedGapShows<T>(s: seq<T>, n: nat, at: nat)
    requires at < n <= |s|
    ensures |GapClosed(s, n, at)| == |s| && GapClosed(s, n, at)[..n - 1] == Without(s[..n], at)
  {
  }

  lemma GapRestored<T>(s: seq<T>, n: nat, at: nat)
    requires at < n <= |s|
    ensures |GapClosed(s, n, at)| == |s| == |GapOpened(GapClosed(s, n, at), n - 1, at)|
    ensures GapOpened(GapClosed(s, n, at), n - 1, at)[at := s[at]] == s
  {
  }

  lemma ClosesFurther<T>(s: seq<T>, n: nat, at: nat)
    requires at < n < |s|
    ensures |GapClosed(s, n, at)| == |s|
    ensures GapClosed(s, n, at)[n - 1 := GapClosed(s, n, at)[n]] == GapClosed(s, n + 1, at)
  {
    var a, b := GapClosed(s, n, at), GapClosed(s, n + 1, at);
    assert a[n] == s[n];
    forall k | 0 <= k < |s| ensures a[n - 1 := a[n]][k] == b[k] {
    }
  }

  lemma ClosesNothing<T>(s: seq<T>, at: nat)
    requires at < |s|
    ensures GapClosed(s, at + 1, at) == s
  {
  }

  lemma OpensFurther<T>(s: seq<T>, n: nat, at: nat)
    requires 0 < at <= n < |s|
    ensures |GapOpened(s, n, at)| == |s|
    ensures GapOpened(s, n, at)[at := GapOpened(s, n, at)[at - 1]] == GapOpened(s, n, at - 1)
  {
    var a, b := GapOpened(s, n, at), GapOpened(s, n, at - 1);
    assert a[at - 1] == s[at - 1];
    forall k | 0 <= k < |s| ensures a[at := a[at - 1]][k] == b[k] {
    }
  }

  lemma OpensNothing<T>(s: seq<T>, n: nat)
    requires n < |s|
    ensures GapOpened(s, n, n) == s
  {
  }

  /** Where a selection lies in the book. */
  datatype Selection = Selection(
    spineIndex: u16, startPage: u16, endPage: u16, pageCount: u16, startWordIndex: u16, endWordIndex: u16,
    wordCount: u16, paragraphIndex: u16, layoutSignature: u32, startOffset: u32, endOffset: u32)

  /** Bytes that the lead byte c announces. */
  function CodepointLength(c: byte): nat
  {
    if c < 0x80 then 1
    else if c / 0x20 == 0x6 then 2
    else if c / 0x10 == 0xE then 3
    else if c / 0x8 == 0x1E then 4
    else 1
  }

  /** The position of the last byte of s that is not a continuation byte, or 0. */
  function LeadPosition(s: seq<byte>): (p: nat)
    requires s != []
    ensures p < |s|
  {
    var last := |s| - 1;
    if last > 0 && s[last] / 0x40 == 2 then LeadPosition(s[..last]) else last
  }

  /** How much of s is left when a sequence cut off at its end is dropped. */
  function SafeLength(s: seq<byte>): (n: nat)
    ensures n <= |s|
  {
    if s == [] then 0
    else
      var lead := LeadPosition(s);
      if |s| - lead < CodepointLength(s[lead]) && lead > 0 then lead else |s|
  }

  /** A C string copied into the fixed-size title field. */
  function BoundedTitle(title: seq<byte>): (field: seq<byte>)
    ensures Terminated(field, TITLE_SIZE)
    ensures CString(field) <= title && |CString(field)| < TITLE_SIZE
  {
    var s := CString(title);
    var kept := if |s| < TITLE_SIZE then s else s[..TITLE_SIZE - 1];
    var field := kept + Zeros(TITLE_SIZE - |kept|);
    var n := SafeLength(kept);
    CStringPrefix(kept, n, field);
    field[n := 0]
  }

  lemma CStringPrefix(kept: seq<byte>, n: nat, field: seq<byte>)
    requires |kept| < |field| && n <= |kept| && kept <= field && forall i :: 0 <= i < |kept| ==> kept[i] != 0
    ensures CString(field[n := 0]) == kept[..n]
  {
    CStringOf(kept[..n], field[n := 0]);
  }

  lemma {:induction false} CStringOf(c: seq<byte>, s: seq<byte>)
    requires c < s && s[|c|] == 0 && forall i :: 0 <= i < |c| ==> c[i] != 0
    ensures CString(s) == c
  {
    if c != [] {
      CStringOf(c[1..], s[1..]);
    }
  }

  /** The record of a new clipping; times before 2020 count as not set. */
  function NewRecord(sel: Selection, title: seq<byte>, now: int): (r: Record)
    ensures ValidRecord(r)
  {
    var r := Record(sel.spineIndex, sel.startPage, sel.endPage, if sel.pageCount < 1 then 1 else sel.pageCount,
                    sel.startWordIndex, sel.endWordIndex, sel.wordCount, sel.paragraphIndex,
                    if now > 1577836800 then now % 0x1_0000_0000 else 0, sel.layoutSignature, sel.startOffset,
                    sel.endOffset, 0, true, Zeros(ID_SIZE), BoundedTitle(title));
    RecordInRange(r);
    r
  }

  /**
   * The record of a new clipping: every number of the selection under its own name, at least one page, a time only
   * if the clock was set, nothing of a sync yet, and what its field keeps of the title.
   */
  ghost predicate MadeFrom(r: Record, sel: Selection, title: seq<byte>, now: int)
  {
    r.spineIndex == sel.spineIndex && r.startPage == sel.startPage && r.endPage == sel.endPage &&
    r.startWordIndex == sel.startWordIndex && r.endWordIndex == sel.endWordIndex && r.wordCount == sel.wordCount &&
    r.paragraphIndex == sel.paragraphIndex && r.layoutSignature == sel.layoutSignature &&
    r.startOffset == sel.startOffset && r.endOffset == sel.endOffset &&
    r.pageCount >= 1 && (sel.pageCount >= 1 ==> r.pageCount == sel.pageCount) &&
    (sel.pageCount == 0 ==> r.pageCount == 1) &&
    (now <= 1577836800 ==> r.timestamp == 0) && (now > 1577836800 ==> r.timestamp == now % 0x1_0000_0000) &&
    r.syncRevision == 0 && r.pendingUpload && |r.id| == 65 && (forall i :: 0 <= i < 65 ==> r.id[i] == 0) &&
    r.chapterTitle == BoundedTitle(title)
  }

  lemma NewRecordFields(sel: Selection, title: seq<byte>, now: int)
    ensures MadeFrom(NewRecord(sel, title, now), sel, title, now)
  {
    hide BoundedTitle;
  }

  datatype AddResult = Added | LimitReached | SaveFailed

  class ClippingStore {
    const storage: Storage
    const index: Index
    /** 1024 on the ESP32-S3, 256 on the other boards. */
    const maxPerBook: nat
    var clippingSize: nat
    var loaded: bool
    var dirty: bool
    var bookFilePath: seq<byte>
    var bookTitle: seq<byte>
    var bookAuthor: seq<byte>
    var storeFilePath: Option<seq<byte>>
    /** The store that the text offsets point into. The card has it, or, if a close failed, only its beginning. */
    ghost var whole: seq<byte>
    /** The load found no store though there was one: an existence check had failed. */
    ghost var missed: bool

    /** What holds in memory whatever happened to the card. */
    ghost predicate Shape()
      reads this, index, index.blocks
    {
      index.Valid() && clippingSize <= index.Capacity() <= maxPerBook && maxPerBook in {256, 1024} &&
      (loaded ==> storeFilePath == Some(bookFilePath)) && (!loaded ==> clippingSize == 0)
    }

    ghost function Clips(): (cs: seq<Clipping>)
      reads this, index, index.blocks
      requires Shape()
      ensures |cs| == clippingSize
    {
      index.Slots()[..clippingSize]
    }

    /** Every text is in the store where its record says, and a clean index is exactly what a load would show. */
    ghost predicate Backed()
      reads this, index, index.blocks, storage`files
      requires Shape()
    {
      CardBytes(storage.files, bookFilePath) <= whole && CanRewrite(whole, Clips(), None, 0) &&
      (!dirty && Sound() ==>
        LoadResult(storage.files, bookFilePath, maxPerBook) == Some(EntriesOf(whole, Clips())))
    }

    /** The load overlooked nothing, and all of the store is on the card. */
    ghost predicate Sound()
      reads this, storage`files
    {
      !missed && CardBytes(storage.files, bookFilePath) == whole
    }

    ghost predicate Valid()
      reads this, index, index.blocks, storage`files, storage`dead
    {
      Shape() && (loaded && !storage.dead ==> Backed())
    }

    ghost predicate Live()
      reads this, storage`dead
    {
      loaded && !storage.dead
    }

    /** The clippings as the reader sees them. */
    ghost function Content(): (es: seq<Entry>)
      reads this, index, index.blocks, storage`files, storage`dead
      requires Valid() && Live()
      ensures |es| == clippingSize
    {
      EntriesOf(whole, Clips())
    }

    /** Every clipping shown can be stored. */
    lemma ContentValid()
      requires Valid() && Live()
      ensures forall i :: 0 <= i < |Content()| ==> ValidRecord(Content()[i].rec)
    {
      hide ValidRecord, LoadResult, Index.Slots;
    }

    ghost function CurrentBook(): Book
      reads this
    {
      Book(bookTitle, bookAuthor, bookFilePath)
    }

    constructor (storage: Storage, esp32s3: bool)
      ensures Valid() && this.storage == storage && !loaded && fresh(index) && index.blocks == []
      ensures maxPerBook == if esp32s3 then 1024 else 256
    {
      this.storage := storage;
      index := new Index();
      maxPerBook := if esp32s3 then 1024 else 256;
      clippingSize, loaded, dirty := 0, false, false;
      bookFilePath, bookTitle, bookAuthor, storeFilePath := [], [], [], None;
      whole, missed := [], false;
    }

    // ---- Rewriting the store ----

    /** Copies length bytes of the opened source, from the position it was moved to. */
    method CopyBytes(source: Name, pos: nat, target: Handle, length: nat) returns (ok: bool)
      requires source in storage.files && target.name in storage.files && source != target.name && target.safe == 0
      requires !storage.dead && pos <= |storage.files[source]|
      modifies storage`files, storage`dead, storage`faults
      ensures SameExcept(old(storage.files), storage.files, {target.name}) && target.name in storage.files
      ensures ok ==> !storage.dead && pos + length <= |old(storage.files)[source]|
      ensures ok ==> storage.files[target.name] ==
                     old(storage.files)[target.name] + old(storage.files)[source][pos..pos + length]
      ensures old(storage.faults) <= storage.faults && (storage.dead ==> old(storage.faults) < storage.faults)
      ensures storage.faults == old(storage.faults) && pos + length <= |old(storage.files)[source]| ==> ok
    {
      var done := 0;
      ghost var input, before := storage.files[source], storage.files[target.name];
      while done < length
        invariant done <= length && pos + done <= |input|
        invariant SameExcept(old(storage.files), storage.files, {target.name}) && target.name in storage.files
        invariant !storage.dead && storage.files[target.name] == before + input[pos..pos + done]
        invariant old(storage.faults) <= storage.faults
      {
        var chunk := if length - done < TEXT_COPY_BUFFER_SIZE then length - done else TEXT_COPY_BUFFER_SIZE;
        var read, buffer := storage.Read(source, pos + done, chunk);
        if !read {
          return false;
        }
        var written := storage.Append(target, buffer);
        if !written {
          return false;
        }
        assert input[pos..pos + done] + buffer == input[pos..pos + (done + chunk)];
        done := done + chunk;
      }
      ok := true;
    }

    /** What lies in the beginning of a store lies there in all of it. */
    static lemma SameSlice(part: seq<byte>, all: seq<byte>, from: nat, length: nat)
      requires part <= all && from + length <= |part|
      ensures part[from..from + length] == all[from..from + length]
    {
    }

    /**
     * Writes record i and its text at the end of the temporary file and reports where the text begins. A text is
     * copied from the store on the card, of which the end may be missing.
     */
    method WriteRecord(book: seq<byte>, h: Handle, clipping: Clipping, replacement: Option<seq<byte>>, hasSource: bool,
                       ghost b: seq<byte>, ghost text: seq<byte>)
      returns (ok: bool, textOffset: nat)
      requires !storage.dead && h == Handle(Name(book, Tmp), 0) && h.name in storage.files
      requires hasSource ==> Name(book, Main) in storage.files && storage.files[Name(book, Main)] <= b
      requires ValidRecord(clipping.rec)
      requires replacement.Some? ==> text == replacement.value
      requires replacement.None? ==> Linked(b, clipping) && text == TextAt(b, clipping)
      modifies storage`files, storage`dead, storage`faults
      ensures SameExcept(old(storage.files), storage.files, {h.name}) && h.name in storage.files
      ensures ok ==> !storage.dead && textOffset == |old(storage.files)[h.name]| + FixedSize(VERSION)
      ensures ok ==> storage.files[h.name] ==
                     old(storage.files)[h.name] + EncodeEntry(VERSION, Entry(clipping.rec, text))
      ensures old(storage.faults) <= storage.faults && (storage.dead ==> old(storage.faults) < storage.faults)
      ensures (storage.faults == old(storage.faults) &&
               (b == [] || (hasSource && old(storage.files)[Name(book, Main)] == b))) ==> ok
    {
      hide ValidRecord, EncodeFixed;
      var textLength := if replacement.Some? then |replacement.value| else clipping.textLength;
      assert textLength == |text|;
      textOffset := 0;
      var fixed := EncodeFixed(VERSION, clipping.rec, textLength);
      RecordSizes(clipping.rec);
      ok := storage.Append(h, fixed);
      if !ok {
        return;
      }
      textOffset := |storage.files[h.name]|;
      if textLength > 0 && replacement.Some? {
        ok := storage.Append(h, replacement.value);
      } else if textLength > 0 {
        ok := hasSource;
        if ok {
          ok := storage.Seek(Name(book, Main), clipping.textOffset);
        }
        if ok {
          ghost var part := storage.files[Name(book, Main)];
          ok := CopyBytes(Name(book, Main), clipping.textOffset, h, textLength);
          if ok { SameSlice(part, b, clipping.textOffset, textLength); }
        }
      }
    }

    /** Writes every record behind what the temporary file already holds. */
    method WriteRecords(book: seq<byte>, h: Handle, offsets: array<nat>, hasSource: bool,
                        replacement: Option<seq<byte>>, at: nat, ghost b: seq<byte>, ghost es: seq<Entry>)
      returns (ok: bool)
      requires Shape() && offsets.Length == clippingSize && !storage.dead
      requires h == Handle(Name(book, Tmp), 0) && h.name in storage.files
      requires hasSource ==> Name(book, Main) in storage.files && storage.files[Name(book, Main)] <= b
      requires CanRewrite(b, Clips(), replacement, at) && es == Rewritten(b, Clips(), replacement, at)
      modifies storage`files, storage`dead, storage`faults, offsets
      ensures SameExcept(old(storage.files), storage.files, {h.name}) && h.name in storage.files
      ensures ok ==> !storage.dead &&
                     storage.files[h.name] == old(storage.files)[h.name] + EncodeEntries(VERSION, es)
      ensures ok ==> forall i :: 0 <= i < clippingSize ==>
                       offsets[i] == TextOffset(VERSION, |old(storage.files)[h.name]|, es, i)
      ensures old(storage.faults) <= storage.faults && (storage.dead ==> old(storage.faults) < storage.faults)
      ensures (storage.faults == old(storage.faults) &&
               (b == [] || (hasSource && old(storage.files)[Name(book, Main)] == b))) ==> ok
    {
      hide EncodeEntry, EncodeEntries, CanRewrite, Rewritten, ValidRecord, Linked, TextAt, LE, Index.Slots;
      ghost var start := |storage.files[h.name]|;
      assert es[..0] == [];
      NoEntries(VERSION);
      for i := 0 to clippingSize
        invariant SameExcept(old(storage.files), storage.files, {h.name}) && h.name in storage.files && !storage.dead
        invariant storage.files[h.name] == old(storage.files)[h.name] + EncodeEntries(VERSION, es[..i])
        invariant forall j :: 0 <= j < i ==> offsets[j] == TextOffset(VERSION, start, es, j)
        invariant old(storage.faults) <= storage.faults
      {
        var clipping := index.Get(i);
        var newText := if replacement.Some? && i == at then replacement else None;
        RewrittenAt(b, Clips(), replacement, at, i);
        EntriesPrefix(VERSION, es, i);
        var written, textOffset := WriteRecord(book, h, clipping, newText, hasSource, b, es[i].text);
        if !written {
          return false;
        }
        offsets[i] := textOffset;
      }
      ok := true;
      assert es[..clippingSize] == es;
    }

    /**
     * Fills the emptied temporary file and closes it; a failed write removes it. What a failing flush and close
     * left of it is not looked at.
     */
    method WriteTemp(book: seq<byte>, h: Handle, offsets: array<nat>, hasSource: bool, replacement: Option<seq<byte>>,
                     at: nat, ghost b: seq<byte>, ghost es: seq<Entry>)
      returns (ok: bool)
      requires Shape() && offsets.Length == clippingSize && !storage.dead
      requires h == Handle(Name(book, Tmp), 0) && h.name in storage.files && storage.files[h.name] == []
      requires hasSource ==> Name(book, Main) in storage.files && storage.files[Name(book, Main)] <= b
      requires CanRewrite(b, Clips(), replacement, at) && es == Rewritten(b, Clips(), replacement, at)
      modifies storage`files, storage`dead, storage`faults, storage`syncs, offsets
      ensures SameExcept(old(storage.files), storage.files, {h.name})
      ensures ok && !storage.dead ==> h.name in storage.files
      ensures ok && !storage.dead ==>
                storage.files[h.name] == Survivor(StoreBytes(es), 0, old(storage.syncs))
      ensures ok ==> forall i :: 0 <= i < clippingSize ==>
                       offsets[i] == TextOffset(VERSION, HeaderSize(VERSION, CurrentBook(), |es|), es, i)
      ensures old(storage.Lossless()) ==> storage.Lossless()
      ensures old(storage.faults) <= storage.faults && (storage.dead ==> old(storage.faults) < storage.faults)
      ensures (storage.faults == old(storage.faults) &&
               (b == [] || (hasSource && old(storage.files)[Name(book, Main)] == b))) ==> ok
    {
      hide EncodeHeader, EncodeEntries, CanRewrite, Rewritten, TextOffset, LE, Index.Slots;
      ok := storage.Append(h, EncodeHeader(VERSION, Book(bookTitle, bookAuthor, bookFilePath), clippingSize));
      if ok {
        ok := WriteRecords(book, h, offsets, hasSource, replacement, at, b, es);
      }
      if ok {
        FlushAndClose(h);
      } else {
        var closed := storage.Close(h);
        var removed := storage.Remove(h.name);
      }
    }

    /** Flushes and closes a file; no result is looked at. */
    method FlushAndClose(h: Handle)
      requires h.name in storage.files && h.safe <= |storage.files[h.name]|
      modifies storage`files, storage`dead, storage`faults, storage`syncs
      ensures SameExcept(old(storage.files), storage.files, {h.name}) && h.name in storage.files
      ensures old(storage.dead) ==> storage.dead && storage.files == old(storage.files)
      ensures storage.files[h.name] <= old(storage.files)[h.name] && h.safe <= |storage.files[h.name]|
      ensures !storage.dead ==>
                storage.files[h.name] == Survivor(old(storage.files)[h.name], h.safe, old(storage.syncs))
      ensures storage.syncs == Rest(Rest(old(storage.syncs))) && (old(storage.Lossless()) ==> storage.Lossless())
      ensures old(storage.faults) <= storage.faults
      ensures storage.dead ==> old(storage.dead) || old(storage.faults) < storage.faults
    {
      var flushed := storage.Flush(h);
      var closed := storage.Close(flushed);
    }

    /** Puts the finished temporary file in the place of the store, by way of the backup. */
    method Commit(book: seq<byte>, hasDestination: bool) returns (ok: bool)
      requires !storage.dead ==> Name(book, Tmp) in storage.files
      requires hasDestination ==> Name(book, Main) in storage.files
      modifies storage`files, storage`dead, storage`faults, storage`checks
      ensures OthersKept(old(storage.files), storage.files, book)
      ensures old(storage.dead) ==> !ok && storage.dead && storage.files == old(storage.files)
      ensures !old(storage.dead) ==>
                OldOrNew(old(storage.files), storage.files, book, old(storage.files)[Name(book, Tmp)])
      ensures ok ==> Name(book, Main) in storage.files &&
                     Recoverable(storage.files, book) == Some(old(storage.files)[Name(book, Tmp)])
      ensures !ok && !storage.dead ==> Recoverable(storage.files, book) == Recoverable(old(storage.files), book)
      ensures storage.checks == old(storage.checks)
      ensures old(storage.faults) <= storage.faults
      ensures storage.dead ==> old(storage.dead) || old(storage.faults) < storage.faults
      ensures (storage.faults == old(storage.faults) && !old(storage.dead) &&
               hasDestination == (Name(book, Main) in old(storage.files)) &&
               (hasDestination ==> Name(book, Bak) !in old(storage.files))) ==> ok
    {
      var store, backup, tmp := Name(book, Main), Name(book, Bak), Name(book, Tmp);
      if hasDestination {
        ok := storage.Rename(store, backup);
        if !ok {
          var removed := storage.Remove(tmp);
          return;
        }
      }
      ok := storage.Rename(tmp, store);
      if !ok {
        var removed := storage.Remove(tmp);
        if hasDestination {
          var restored := storage.Rename(backup, store);
        }
        return;
      }
      if hasDestination {
        var stale := storage.Exists(backup, false);
        if stale {
          var removed := storage.Remove(backup);
        }
      }
    }

    /** How many existence checks bringing back a backup takes. */
    static function BackupChecks(fs: Files, checks: seq<bool>, book: seq<byte>): nat
    {
      if Name(book, Main) in fs && Works(checks, 0) then 1 else 2
    }

    /** A load stops at a backup beside a store that its first check did not find, as it cannot bring it back. */
    static predicate Stuck(fs: Files, checks: seq<bool>, book: seq<byte>)
    {
      Name(book, Main) in fs && Name(book, Bak) in fs && !Works(checks, 0) && Works(checks, 1)
    }

    /** Brings a stranded backup back as the store; listed says whether the existence checks are those of a load. */
    method RecoverBackup(book: seq<byte>, listed: bool) returns (ok: bool)
      modifies storage`files, storage`dead, storage`faults, storage`checks
      ensures OthersKept(old(storage.files), storage.files, book)
      ensures Recoverable(storage.files, book) == Recoverable(old(storage.files), book)
      ensures old(storage.dead) ==> storage.dead && storage.files == old(storage.files)
      ensures ok ==> storage.dead == old(storage.dead)
      ensures Name(book, Main) in old(storage.files) ==> storage.files == old(storage.files)
      ensures listed && ok && Name(book, Main) !in old(storage.files) && Name(book, Bak) in old(storage.files) ==>
                (Name(book, Main) in storage.files <==> Works(old(storage.checks), 1))
      ensures ok && Recoverable(old(storage.files), book).None? ==> Name(book, Main) !in storage.files
      ensures storage.checks ==
                if !listed then old(storage.checks)
                else if BackupChecks(old(storage.files), old(storage.checks), book) == 1 then Rest(old(storage.checks))
                else Rest(Rest(old(storage.checks)))
      ensures old(storage.Sighted()) ==> storage.Sighted()
      ensures old(storage.faults) <= storage.faults
      ensures storage.dead ==> old(storage.dead) || old(storage.faults) < storage.faults
      ensures storage.faults == old(storage.faults) && !storage.dead ==>
                (ok <==> !(listed && Stuck(old(storage.files), old(storage.checks), book)))
      ensures storage.faults == old(storage.faults) && !storage.dead && !listed ==>
                (Name(book, Main) in storage.files <==> Recoverable(storage.files, book).Some?)
      ensures listed && Name(book, Main) in old(storage.files) && Works(old(storage.checks), 0) ==> ok
    {
      var hasStore := storage.Exists(Name(book, Main), listed);
      if hasStore {
        return true;
      }
      var hasBackup := storage.Exists(Name(book, Bak), listed);
      if !hasBackup {
        return true;
      }
      ok := storage.Rename(Name(book, Bak), Name(book, Main));
    }

    /** Brings a stranded backup back as the store and clears what an interrupted rewrite left. */
    method Prepare(book: seq<byte>) returns (ok: bool)
      modifies storage`files, storage`dead, storage`faults, storage`checks
      ensures OthersKept(old(storage.files), storage.files, book)
      ensures Recoverable(storage.files, book) == Recoverable(old(storage.files), book)
      ensures old(storage.dead) ==> storage.dead && storage.files == old(storage.files)
      ensures storage.checks == old(storage.checks)
      ensures old(storage.faults) <= storage.faults
      ensures storage.dead ==> old(storage.dead) || old(storage.faults) < storage.faults
      ensures storage.faults == old(storage.faults) && !storage.dead ==>
                ok && (Name(book, Main) in storage.files <==> Recoverable(storage.files, book).Some?) &&
                Name(book, Bak) !in storage.files
    {
      ok := RecoverBackup(book, false);
      if ok {
        ClearLeftovers(book);
      }
    }

    /** Removes the temporary file of an interrupted rewrite, and a backup beside the store. */
    method ClearLeftovers(book: seq<byte>)
      modifies storage`files, storage`dead, storage`faults, storage`checks
      ensures OthersKept(old(storage.files), storage.files, book)
      ensures Recoverable(storage.files, book) == Recoverable(old(storage.files), book)
      ensures old(storage.dead) ==> storage.dead && storage.files == old(storage.files)
      ensures Name(book, Main) in storage.files <==> Name(book, Main) in old(storage.files)
      ensures Name(book, Bak) in storage.files ==> Name(book, Bak) in old(storage.files)
      ensures storage.checks == old(storage.checks)
      ensures old(storage.faults) <= storage.faults
      ensures storage.dead ==> old(storage.dead) || old(storage.faults) < storage.faults
      ensures (storage.faults == old(storage.faults) && !storage.dead &&
               Name(book, Main) in storage.files) ==> Name(book, Bak) !in storage.files
    {
      var store, backup, tmp := Name(book, Main), Name(book, Bak), Name(book, Tmp);
      var hasTmp := storage.Exists(tmp, false);
      if hasTmp {
        var removed := storage.Remove(tmp);
      }
      var hasBackup := storage.Exists(backup, false);
      if hasBackup {
        var hasStore := storage.Exists(store, false);
        if hasStore {
          var removed := storage.Remove(backup);
        }
      }
    }

    ghost predicate Rewritable(replacement: Option<seq<byte>>, at: nat)
      reads this, index, index.blocks
      requires Shape()
    {
      CanRewrite(whole, Clips(), replacement, at)
    }

    /** The clippings that a rewrite from the present state stores. */
    ghost function Planned(replacement: Option<seq<byte>>, at: nat): (es: seq<Entry>)
      reads this, index, index.blocks
      requires Shape() && Rewritable(replacement, at)
      ensures |es| == clippingSize
    {
      Rewritten(whole, Clips(), replacement, at)
    }

    ghost function StoreBytes(es: seq<Entry>): seq<byte>
      reads this
    {
      EncodeStore(VERSION, CurrentBook(), es)
    }

    /** What the next rewrite leaves of a store of es in the temporary file, given how flush and close fare. */
    ghost function LeftOf(es: seq<Entry>, syncs: seq<SyncFate>): (left: seq<byte>)
      reads this
    {
      Survivor(StoreBytes(es), 0, syncs)
    }

    /** Nothing of it is lost: the flush or the close works, or the close keeps all. */
    ghost predicate Keeps(es: seq<Entry>, syncs: seq<SyncFate>)
      reads this
    {
      LeftOf(es, syncs) == StoreBytes(es)
    }

    lemma KeepsExactly(es: seq<Entry>, syncs: seq<SyncFate>)
      ensures Keeps(es, syncs) <==>
              SyncKept(syncs, 0) || SyncKept(syncs, 1) || syncs[1].keeps >= |StoreBytes(es)|
    {
      hide Survivor, EncodeStore;
      SurvivorSize(StoreBytes(es), 0, syncs);
    }

    lemma LosslessKeeps(es: seq<Entry>, syncs: seq<SyncFate>)
      requires NoneLost(syncs)
      ensures Keeps(es, syncs)
    {
      hide EncodeStore;
    }

    /** What a load shows once such a store is in place. */
    ghost function Commits(es: seq<Entry>, syncs: seq<SyncFate>): Option<seq<Entry>>
      reads this
    {
      Shown(es, Keeps(es, syncs))
    }

    /** A temporary file that lost something as it was closed, unnoticed, has come into the place of the store. */
    ghost function Slipped(before: Files, after: Files, kept: bool): nat
      reads this
    {
      if kept || Recoverable(after, bookFilePath) == Recoverable(before, bookFilePath) then 0 else 1
    }

    /** Writes the temporary file and commits it. The two existence checks of the store need not agree. */
    method Rewrite(book: seq<byte>, offsets: array<nat>, hasSource: bool, hasDestination: bool,
                   replacement: Option<seq<byte>>, at: nat, ghost b: seq<byte>, ghost es: seq<Entry>)
      returns (ok: bool)
      requires Shape() && offsets.Length == clippingSize
      requires hasSource || hasDestination ==> Name(book, Main) in storage.files
      requires !storage.dead ==> CardBytes(storage.files, book) <= b && CanRewrite(b, Clips(), replacement, at) &&
                                 es == Rewritten(b, Clips(), replacement, at)
      modifies storage, offsets
      ensures OthersKept(old(storage.files), storage.files, book)
      ensures old(storage.dead) ==> !ok && storage.dead && storage.files == old(storage.files)
      ensures !old(storage.dead) ==>
                OldOrNew(old(storage.files), storage.files, book, LeftOf(es, old(storage.syncs)))
      ensures ok ==> Name(book, Main) in storage.files &&
                     Recoverable(storage.files, book) == Some(LeftOf(es, old(storage.syncs)))
      ensures ok ==> forall i :: 0 <= i < clippingSize ==>
                       offsets[i] == TextOffset(VERSION, HeaderSize(VERSION, CurrentBook(), |es|), es, i)
      ensures !ok && !storage.dead ==> Recoverable(storage.files, book) == Recoverable(old(storage.files), book)
      ensures storage.checks == old(storage.checks)
      ensures old(storage.Lossless()) ==> storage.Lossless()
      ensures storage.slips == old(storage.slips)
      ensures old(storage.faults) <= storage.faults
      ensures storage.dead ==> old(storage.dead) || old(storage.faults) < storage.faults
      ensures (storage.faults == old(storage.faults) && !old(storage.dead) &&
               hasSource == hasDestination == (Name(book, Main) in old(storage.files)) &&
               CardBytes(old(storage.files), book) == b && Name(book, Bak) !in old(storage.files)) ==> ok
    {
      hide CanRewrite, Rewritten, EncodeStore, HeaderSize, TextOffset, Index.Slots, Survivor;
      ghost var before := storage.files;
      if hasSource {
        ok := storage.OpenForRead(Name(book, Main));
        if !ok {
          return;
        }
      }
      var h;
      ok, h := storage.OpenTruncated(Name(book, Tmp));
      TmpIrrelevant(before, storage.files, book);
      if !ok {
        return;
      }
      ok := WriteTemp(book, h, offsets, hasSource, replacement, at, b, es);
      TmpIrrelevant(before, storage.files, book);
      if ok {
        ok := Commit(book, hasDestination);
      }
    }

    /** Clears what earlier crashes left, then rewrites. */
    method Renew(book: seq<byte>, offsets: array<nat>, replacement: Option<seq<byte>>, at: nat, ghost b: seq<byte>,
                 ghost es: seq<Entry>)
      returns (ok: bool)
      requires Shape() && offsets.Length == clippingSize
      requires !storage.dead ==> CardBytes(storage.files, book) <= b && CanRewrite(b, Clips(), replacement, at) &&
                                 es == Rewritten(b, Clips(), replacement, at)
      modifies storage, offsets
      ensures OthersKept(old(storage.files), storage.files, book)
      ensures old(storage.dead) ==> !ok && storage.dead && storage.files == old(storage.files)
      ensures !old(storage.dead) ==>
                OldOrNew(old(storage.files), storage.files, book, LeftOf(es, old(storage.syncs)))
      ensures ok ==> Name(book, Main) in storage.files &&
                     Recoverable(storage.files, book) == Some(LeftOf(es, old(storage.syncs)))
      ensures ok ==> forall i :: 0 <= i < clippingSize ==>
                       offsets[i] == TextOffset(VERSION, HeaderSize(VERSION, CurrentBook(), |es|), es, i)
      ensures !ok && !storage.dead ==> Recoverable(storage.files, book) == Recoverable(old(storage.files), book)
      ensures storage.checks == old(storage.checks)
      ensures old(storage.Lossless()) ==> storage.Lossless()
      ensures storage.slips == old(storage.slips)
      ensures old(storage.faults) <= storage.faults
      ensures storage.dead ==> old(storage.dead) || old(storage.faults) < storage.faults
      ensures (storage.faults == old(storage.faults) && !old(storage.dead) &&
               CardBytes(old(storage.files), book) == b) ==> ok
    {
      hide CanRewrite, Rewritten, EncodeStore, HeaderSize, TextOffset, Index.Slots, Survivor;
      ghost var before := storage.files;
      ok := Prepare(book);
      SameBytes(before, storage.files, book);
      if ok {
        var hasSource := storage.Exists(Name(book, Main), false);
        var hasDestination := storage.Exists(Name(book, Main), false);
        ok := Rewrite(book, offsets, hasSource, hasDestination, replacement, at, b, es);
      }
    }

    static lemma SameBytes(before: Files, after: Files, book: seq<byte>)
      ensures Recoverable(after, book) == Recoverable(before, book) ==>
                CardBytes(after, book) == CardBytes(before, book)
    {
    }

    /**
     * Rewrites the store with the clippings in memory, taking one text from replacement and the others from the
     * card. At every cut the card recovers the old bytes or what flush and close left of the new ones; existence
     * checks that fail change nothing of that.
     */
    method WriteToFile(replacement: Option<seq<byte>>, at: nat) returns (ok: bool)
      requires Shape()
      requires Live() ==> Rewritable(replacement, at) && CardBytes(storage.files, bookFilePath) <= whole
      modifies storage, index.blocks, this`whole, this`missed
      ensures Shape() && OthersKept(old(storage.files), storage.files, bookFilePath)
      ensures !old(Live()) || !ValidBook(CurrentBook()) ==> !ok && storage.files == old(storage.files)
      ensures old(storage.dead) ==> storage.dead
      ensures old(Live()) ==>
                OldOrNew(old(storage.files), storage.files, bookFilePath,
                         LeftOf(old(Planned(replacement, at)), old(storage.syncs)))
      ensures ok ==> Name(bookFilePath, Main) in storage.files && ValidBook(CurrentBook()) &&
                     Recoverable(storage.files, bookFilePath) ==
                     Some(LeftOf(old(Planned(replacement, at)), old(storage.syncs))) &&
                     whole == StoreBytes(old(Planned(replacement, at))) && !missed &&
                     Clips() == Relocated(old(Clips()), HeaderSize(VERSION, CurrentBook(), clippingSize),
                                          old(Planned(replacement, at)))
      ensures !ok ==> index.Slots() == old(index.Slots()) && whole == old(whole) && missed == old(missed)
      ensures |index.Slots()| == |old(index.Slots())| &&
              index.Slots()[clippingSize..] == old(index.Slots())[clippingSize..]
      ensures !ok && !storage.dead ==>
                Recoverable(storage.files, bookFilePath) == Recoverable(old(storage.files), bookFilePath)
      ensures storage.checks == old(storage.checks)
      ensures old(storage.Lossless()) ==> storage.Lossless()
      ensures old(Live()) ==>
                storage.slips == old(storage.slips) + Slipped(old(storage.files), storage.files,
                                                              old(Keeps(Planned(replacement, at), storage.syncs)))
      ensures !old(Live()) ==> storage.slips == old(storage.slips)
      ensures old(storage.faults) <= storage.faults
      ensures storage.dead ==> old(storage.dead) || old(storage.faults) < storage.faults
      ensures (old(Live()) && ValidBook(CurrentBook()) && storage.faults == old(storage.faults) &&
               old(CardBytes(storage.files, bookFilePath) == whole)) ==> ok
    {
      hide CanRewrite, Rewritten, EncodeStore, HeaderSize, TextOffset, Index.Slots, Relocated, Survivor;
      ghost var before, live := storage.files, Live();
      if live { PlannedSize(whole, Clips(), replacement, at); }
      if !loaded || |bookTitle| > HEADER_STRING_MAX || |bookAuthor| > HEADER_STRING_MAX ||
         |bookFilePath| > HEADER_STRING_MAX || (replacement.Some? && |replacement.value| > TEXT_MAX) {
        return false;
      }
      ghost var es := if live then Planned(replacement, at) else [];
      ghost var kept := Keeps(es, storage.syncs);
      ok := WriteAll(replacement, at, es);
      storage.slips := storage.slips + if live then Slipped(before, storage.files, kept) else 0;
    }

    /** The rewrite, after the sizes were found acceptable. */
    method WriteAll(replacement: Option<seq<byte>>, at: nat, ghost es: seq<Entry>) returns (ok: bool)
      requires Shape() && loaded && ValidBook(CurrentBook())
      requires Live() ==> Rewritable(replacement, at) && CardBytes(storage.files, bookFilePath) <= whole &&
                          es == Planned(replacement, at)
      modifies storage, index.blocks, this`whole, this`missed
      ensures Shape() && OthersKept(old(storage.files), storage.files, bookFilePath)
      ensures old(storage.dead) ==> !ok && storage.dead && storage.files == old(storage.files)
      ensures !old(storage.dead) ==>
                OldOrNew(old(storage.files), storage.files, bookFilePath, LeftOf(es, old(storage.syncs)))
      ensures ok ==> Name(bookFilePath, Main) in storage.files &&
                     Recoverable(storage.files, bookFilePath) == Some(LeftOf(es, old(storage.syncs))) &&
                     whole == StoreBytes(es) && !missed && |es| == clippingSize &&
                     Clips() == Relocated(old(Clips()), HeaderSize(VERSION, CurrentBook(), clippingSize), es)
      ensures !ok ==> index.Slots() == old(index.Slots()) && whole == old(whole) && missed == old(missed)
      ensures |index.Slots()| == |old(index.Slots())| &&
              index.Slots()[clippingSize..] == old(index.Slots())[clippingSize..]
      ensures !ok && !storage.dead ==>
                Recoverable(storage.files, bookFilePath) == Recoverable(old(storage.files), bookFilePath)
      ensures storage.checks == old(storage.checks)
      ensures old(storage.Lossless()) ==> storage.Lossless()
      ensures storage.slips == old(storage.slips)
      ensures old(storage.faults) <= storage.faults
      ensures storage.dead ==> old(storage.dead) || old(storage.faults) < storage.faults
      ensures (!old(storage.dead) && storage.faults == old(storage.faults) &&
               old(CardBytes(storage.files, bookFilePath) == whole)) ==> ok
    {
      hide CanRewrite, Rewritten, EncodeStore, HeaderSize, TextOffset, Index.Slots, Relocated, Survivor,
           CardBytes;
      ok := storage.Allocate();
      if clippingSize > 0 && !ok {
        return;
      }
      var newTextOffsets := new nat[clippingSize];
      ok := Renew(storeFilePath.value, newTextOffsets, replacement, at, whole, es);
      if ok {
        whole, missed := StoreBytes(es), false;
        Relocate(newTextOffsets, es);
      }
    }

    /** Points every record at its text in the new store. */
    method Relocate(offsets: array<nat>, ghost es: seq<Entry>)
      requires Shape() && offsets.Length == clippingSize == |es|
      requires forall i :: 0 <= i < clippingSize ==>
                 offsets[i] == TextOffset(VERSION, HeaderSize(VERSION, CurrentBook(), |es|), es, i)
      modifies index.blocks
      ensures Shape() && Clips() == Relocated(old(Clips()), HeaderSize(VERSION, CurrentBook(), |es|), es)
      ensures |index.Slots()| == |old(index.Slots())| &&
              index.Slots()[clippingSize..] == old(index.Slots())[clippingSize..]
    {
      hide TextOffset, HeaderSize, Index.Slots;
      ghost var start, before := HeaderSize(VERSION, CurrentBook(), |es|), index.Slots();
      for i := 0 to clippingSize
        invariant Shape() && |index.Slots()| == |before|
        invariant forall j :: 0 <= j < i ==>
                    index.Slots()[j] == before[j].(textOffset := TextOffset(VERSION, start, es, j))
        invariant forall j :: i <= j < |before| ==> index.Slots()[j] == before[j]
      {
        var clipping := index.Get(i);
        index.Set(i, clipping.(textOffset := offsets[i]));
      }
    }

    // ---- Loading ----

    method ReadString(name: Name, pos: nat) returns (r: Option<(seq<byte>, nat)>)
      requires name in storage.files
      modifies storage`faults
      ensures r.Some? ==> r == ParseString(storage.files[name], pos)
      ensures old(storage.faults) <= storage.faults
      ensures storage.faults == old(storage.faults) && !storage.dead ==> r == ParseString(storage.files[name], pos)
    {
      var ok, data := storage.Read(name, pos, 4);
      if !ok {
        return None;
      }
      var length := UnLE(data);
      if length > HEADER_STRING_MAX || pos + 4 + length > |storage.files[name]| {
        return None;
      }
      ok, data := storage.Read(name, pos + 4, length);
      r := if ok then Some((data, pos + 4 + length)) else None;
    }

    method ReadHeader(name: Name) returns (r: Option<Header>)
      requires name in storage.files
      modifies storage`faults
      ensures r.Some? ==> r == ParseHeader(storage.files[name])
      ensures old(storage.faults) <= storage.faults
      ensures storage.faults == old(storage.faults) && !storage.dead ==> r == ParseHeader(storage.files[name])
    {
      hide ParseString;
      var ok, data := storage.Read(name, 0, 1);
      if !ok {
        return None;
      }
      var version: nat := data[0];
      if !ReadableVersion(version) {
        return None;
      }
      ok, data := storage.Read(name, 1, 2);
      if !ok {
        return None;
      }
      var count := UnLE(data);
      var title := ReadString(name, 3);
      if title.None? {
        return None;
      }
      var author := ReadString(name, title.value.1);
      if author.None? {
        return None;
      }
      var path := ReadString(name, author.value.1);
      if path.None? {
        return None;
      }
      r := Some(Header(version, count, Book(title.value.0, author.value.0, path.value.0), path.value.1));
    }

    method ReadClip(name: Name, pos: nat, version: nat) returns (r: Option<(Clipping, nat)>)
      requires name in storage.files && ReadableVersion(version)
      modifies storage`faults
      ensures r.Some? ==> r == ParseClip(storage.files[name], pos, version)
      ensures old(storage.faults) <= storage.faults
      ensures storage.faults == old(storage.faults) && !storage.dead ==>
                r == ParseClip(storage.files[name], pos, version)
    {
      hide UnLE, DecodeNumbers, FromNumbers, Sum;
      var titlePos := pos + NumberBytes(version) + if version >= VERSION then ID_SIZE else 0;
      var textPos := titlePos + TITLE_SIZE + LengthWidth(version);
      var ok, numbers := storage.Read(name, pos, NumberBytes(version));
      if !ok {
        return None;
      }
      var id := Zeros(ID_SIZE);
      if version >= VERSION {
        ok, id := storage.Read(name, pos + NumberBytes(version), ID_SIZE);
        if !ok {
          return None;
        }
        id := Terminate(id);
      }
      var title, length;
      ok, title := storage.Read(name, titlePos, TITLE_SIZE);
      if !ok {
        return None;
      }
      ok, length := storage.Read(name, titlePos + TITLE_SIZE, LengthWidth(version));
      if !ok {
        return None;
      }
      var textLength := UnLE(length);
      if version != LEGACY_VERSION && textLength > TEXT_MAX {
        return None;
      }
      if textPos + textLength > |storage.files[name]| {
        return None;
      }
      if textLength > 0 {
        ok := storage.Seek(name, textPos + textLength);
        if !ok {
          return None;
        }
      }
      WidthsSum(version);
      var rec := FromNumbers(DecodeNumbers(numbers, Widths(version)), id, Terminate(title));
      r := Some((Clipping(rec, textPos, if textLength < TEXT_MAX then textLength else TEXT_MAX), textPos + textLength));
    }

    method ReadClips(store: Name, start: nat, version: nat, count: nat) returns (ok: bool)
      requires index.Valid() && clippingSize == 0 && count <= index.Capacity()
      requires store in storage.files && ReadableVersion(version)
      modifies this`clippingSize, index.blocks, storage`faults
      ensures index.Valid() && clippingSize <= count
      ensures ok ==> clippingSize == count &&
                     ParseClips(storage.files[store], start, version, count).Some? &&
                     ParseClips(storage.files[store], start, version, count).value.0 == index.Slots()[..count]
      ensures old(storage.faults) <= storage.faults
      ensures (storage.faults == old(storage.faults) && !storage.dead &&
               ParseClips(storage.files[store], start, version, count).Some?) ==> ok
    {
      hide ParseClip, Index.Slots;
      ghost var b := storage.files[store];
      var pos := start;
      while clippingSize < count
        invariant clippingSize <= count <= index.Capacity() && index.Valid()
        invariant ParseClips(b, start, version, clippingSize) == Some((index.Slots()[..clippingSize], pos))
        invariant old(storage.faults) <= storage.faults
      {
        var read := ReadClip(store, pos, version);
        ghost var before := index.Slots();
        if read.None? {
          if ParseClips(b, start, version, clippingSize + 1).None? {
            NoLaterClips(b, start, version, clippingSize + 1, count);
          }
          return false;
        }
        index.Set(clippingSize, read.value.0);
        assert index.Slots()[..clippingSize + 1] == before[..clippingSize] + [read.value.0];
        clippingSize := clippingSize + 1;
        pos := read.value.1;
      }
      ok := true;
    }

    /** Fills the index from the store file. */
    method ReadFromFile() returns (ok: bool)
      requires Shape() && storeFilePath.Some? && Name(storeFilePath.value, Main) in storage.files
      modifies this`clippingSize, this`bookTitle, this`bookAuthor, index, index.blocks, storage`faults
      ensures index.Valid() && clippingSize <= index.Capacity() <= maxPerBook
      ensures forall k :: 0 <= k < |index.blocks| ==> index.blocks[k] in old(index.blocks) || fresh(index.blocks[k])
      ensures ok ==> var s := ParseStore(storage.files[Name(storeFilePath.value, Main)], maxPerBook);
                     s.Some? && s.value.clips == index.Slots()[..clippingSize] &&
                     bookTitle == (if old(bookTitle) == [] then s.value.book.title else old(bookTitle)) &&
                     bookAuthor == (if old(bookAuthor) == [] then s.value.book.author else old(bookAuthor))
      ensures (old(bookTitle) != [] ==> bookTitle == old(bookTitle)) &&
              (old(bookAuthor) != [] ==> bookAuthor == old(bookAuthor))
      ensures old(storage.faults) <= storage.faults
      ensures (storage.faults == old(storage.faults) && !storage.dead &&
               ParseStore(storage.files[Name(storeFilePath.value, Main)], maxPerBook).Some?) ==> ok
    {
      hide ParseClips, ParseHeader, Index.Slots;
      clippingSize := 0;
      var store := Name(storeFilePath.value, Main);
      ok := storage.OpenForRead(store);
      if !ok {
        return;
      }
      var header := ReadHeader(store);
      if header.None? || header.value.count > maxPerBook {
        return false;
      }
      var h := header.value;
      HeaderReadable(storage.files[store]);
      if bookTitle == [] {
        bookTitle := h.book.title;
      }
      if bookAuthor == [] {
        bookAuthor := h.book.author;
      }
      ok := index.Reserve(h.count, maxPerBook, storage);
      if ok {
        ok := ReadClips(store, h.end, h.version, h.count);
      }
    }

    /** Publishes the records of the store file, or none of them. */
    method Fill() returns (ok: bool)
      requires Shape() && !loaded && !dirty && storeFilePath == Some(bookFilePath) && index.blocks == []
      requires Name(bookFilePath, Main) in storage.files
      requires whole == CardBytes(storage.files, bookFilePath) && !missed
      modifies this`clippingSize, this`loaded, this`bookTitle, this`bookAuthor, index, index.blocks, storage`faults
      ensures Valid() && ok == loaded
      ensures forall k :: 0 <= k < |index.blocks| ==> fresh(index.blocks[k])
      ensures ok && !storage.dead ==> LoadResult(storage.files, bookFilePath, maxPerBook) == Some(Content())
      ensures (old(bookTitle) != [] ==> bookTitle == old(bookTitle)) &&
              (old(bookAuthor) != [] ==> bookAuthor == old(bookAuthor))
      ensures old(storage.faults) <= storage.faults
      ensures (!storage.dead && storage.faults == old(storage.faults) &&
               LoadResult(storage.files, bookFilePath, maxPerBook).Some?) ==> ok
    {
      hide ParseStore, Index.Slots, EntriesOf, CanRewrite, LoadResult;
      LoadResultDefined(storage.files, bookFilePath, maxPerBook);
      ok := ReadFromFile();
      if ok {
        ParsedIsBacked(storage.files, bookFilePath, maxPerBook, index.Slots()[..clippingSize]);
      } else {
        index.Clear();
        clippingSize := 0;
      }
      loaded := ok;
    }

    /** One of the checks of a load answers no of a store, or of a stranded backup, that is there. */
    static predicate Overlooks(fs: Files, checks: seq<bool>, book: seq<byte>)
    {
      if Name(book, Main) in fs then !Works(checks, BackupChecks(fs, checks, book))
      else Name(book, Bak) in fs && !(Works(checks, 1) && Works(checks, 2))
    }

    /**
     * Opens a book's clippings. On success the index shows exactly what the card's store, or its stranded
     * backup, holds, unless an existence check fails and makes it look as if there were none: then it is empty.
     * What a load would recover is never changed by loading.
     */
    method LoadForBook(filePath: seq<byte>, title: seq<byte>, author: seq<byte>, isEpub: bool) returns (ok: bool)
      requires Shape()
      modifies this, index, index.blocks, storage`files, storage`dead, storage`faults, storage`checks, storage`slips
      ensures Valid() && ok == loaded
      ensures forall k :: 0 <= k < |index.blocks| ==> fresh(index.blocks[k])
      ensures OthersKept(old(storage.files), storage.files, filePath)
      ensures Recoverable(storage.files, filePath) == Recoverable(old(storage.files), filePath)
      ensures ok ==> bookFilePath == filePath && !dirty
      ensures ok ==> (missed <==> Overlooks(old(storage.files), old(storage.checks), filePath) &&
                                  LoadResult(old(storage.files), filePath, maxPerBook) != Some([]))
      ensures ok && missed ==> clippingSize == 0
      ensures ok && !storage.dead && !missed ==>
                Sound() && LoadResult(old(storage.files), filePath, maxPerBook) == Some(Content())
      ensures ok && !storage.dead && !missed && Name(filePath, Main) in old(storage.files) ==>
                exists book :: ClippingLayout.HoldsStore(old(storage.files)[Name(filePath, Main)], maxPerBook,
                                                         book, Content())
      ensures old(storage.Sighted()) ==> storage.Sighted()
      ensures Name(filePath, Main) in old(storage.files) && Works(old(storage.checks), 0) && isEpub &&
              filePath != [] ==>
                storage.checks == Rest(Rest(old(storage.checks))) && storage.dead == old(storage.dead)
      ensures ok ==> (title != [] ==> bookTitle == title) && (author != [] ==> bookAuthor == author)
      ensures ok ==> whole == CardBytes(storage.files, filePath)
      ensures storage.dead ==> old(storage.dead) || old(storage.faults) < storage.faults
      ensures old(storage.faults) <= storage.faults
      ensures (!old(storage.dead) && storage.faults == old(storage.faults) && isEpub && filePath != [] &&
               LoadResult(old(storage.files), filePath, maxPerBook).Some?) ==>
                (ok <==> !Stuck(old(storage.files), old(storage.checks), filePath))
      ensures storage.slips == old(storage.slips) + if ok && missed then 1 else 0
      ensures ok ==> storage.dead == old(storage.dead)
    {
      hide Index.Slots, EntriesOf, CanRewrite, LoadResult, Recoverable, Overlooks, CardBytes,
           ClippingLayout.HoldsStore;
      Reset();
      if !isEpub || filePath == [] {
        return false;
      }
      bookFilePath, bookTitle, bookAuthor := filePath, title, author;
      storeFilePath := Some(filePath);
      ok := OpenStore();
      if ok && !storage.dead && !missed {
        ClippingLayout.LoadShowsPositions(old(storage.files), filePath, maxPerBook, Content());
      }
    }

    /** Brings back a stranded backup, then reads the store if a check finds it. */
    method OpenStore() returns (ok: bool)
      requires Shape() && !loaded && !dirty && storeFilePath == Some(bookFilePath) && index.blocks == []
      modifies this`clippingSize, this`loaded, this`bookTitle, this`bookAuthor, this`whole, this`missed, index,
               index.blocks
      modifies storage`files, storage`dead, storage`faults, storage`checks, storage`slips
      ensures Valid() && ok == loaded
      ensures forall k :: 0 <= k < |index.blocks| ==> fresh(index.blocks[k])
      ensures OthersKept(old(storage.files), storage.files, bookFilePath)
      ensures Recoverable(storage.files, bookFilePath) == Recoverable(old(storage.files), bookFilePath)
      ensures ok ==> (missed <==> Overlooks(old(storage.files), old(storage.checks), bookFilePath) &&
                                  LoadResult(old(storage.files), bookFilePath, maxPerBook) != Some([]))
      ensures ok && missed ==> clippingSize == 0
      ensures ok && !storage.dead && !missed ==>
                Sound() && LoadResult(old(storage.files), bookFilePath, maxPerBook) == Some(Content())
      ensures old(storage.Sighted()) ==> storage.Sighted()
      ensures Name(bookFilePath, Main) in old(storage.files) && Works(old(storage.checks), 0) ==>
                storage.checks == Rest(Rest(old(storage.checks))) && storage.dead == old(storage.dead)
      ensures (old(bookTitle) != [] ==> bookTitle == old(bookTitle)) &&
              (old(bookAuthor) != [] ==> bookAuthor == old(bookAuthor))
      ensures ok ==> whole == CardBytes(storage.files, bookFilePath)
      ensures storage.dead ==> old(storage.dead) || old(storage.faults) < storage.faults
      ensures old(storage.faults) <= storage.faults
      ensures (!old(storage.dead) && storage.faults == old(storage.faults) &&
               LoadResult(old(storage.files), bookFilePath, maxPerBook).Some?) ==>
                (ok <==> !Stuck(old(storage.files), old(storage.checks), bookFilePath))
      ensures storage.slips == old(storage.slips) + if ok && missed then 1 else 0
      ensures ok ==> storage.dead == old(storage.dead)
    {
      hide ParseStore, Index.Slots, EntriesOf, CanRewrite, LoadResult, OthersKept, Backed;
      ghost var before := storage.files;
      ok := RecoverBackup(bookFilePath, true);
      SameRecovered(before, storage.files, bookFilePath, maxPerBook);
      whole, missed := CardBytes(storage.files, bookFilePath), false;
      if Recoverable(before, bookFilePath).None? { EmptyLoads(before, bookFilePath, maxPerBook); }
      if !ok {
        return;
      }
      ok := ReadFound();
    }

    /** Reads the store if a check finds it. */
    method ReadFound() returns (ok: bool)
      requires Shape() && !loaded && !dirty && storeFilePath == Some(bookFilePath) && index.blocks == []
      requires whole == CardBytes(storage.files, bookFilePath) && !missed
      modifies this`clippingSize, this`loaded, this`bookTitle, this`bookAuthor, this`missed, index, index.blocks
      modifies storage`faults, storage`checks, storage`slips
      ensures Valid() && ok == loaded
      ensures forall k :: 0 <= k < |index.blocks| ==> fresh(index.blocks[k])
      ensures ok ==> (missed <==> LoadResult(storage.files, bookFilePath, maxPerBook) != Some([]) &&
                                  !(Name(bookFilePath, Main) in storage.files && Works(old(storage.checks), 0)))
      ensures ok && missed ==> clippingSize == 0
      ensures ok && !storage.dead && !missed ==>
                Sound() && LoadResult(storage.files, bookFilePath, maxPerBook) == Some(Content())
      ensures storage.checks == Rest(old(storage.checks)) && (old(storage.Sighted()) ==> storage.Sighted())
      ensures (old(bookTitle) != [] ==> bookTitle == old(bookTitle)) &&
              (old(bookAuthor) != [] ==> bookAuthor == old(bookAuthor))
      ensures whole == CardBytes(storage.files, bookFilePath)
      ensures old(storage.faults) <= storage.faults
      ensures (!storage.dead && storage.faults == old(storage.faults) &&
               LoadResult(storage.files, bookFilePath, maxPerBook).Some?) ==> ok
      ensures storage.slips == old(storage.slips) + if ok && missed then 1 else 0
    {
      hide ParseStore, Index.Slots, EntriesOf, CanRewrite, LoadResult;
      var hasStore := storage.Exists(Name(bookFilePath, Main), true);
      if hasStore {
        ok := Fill();
      } else {
        missed := LoadResult(storage.files, bookFilePath, maxPerBook) != Some([]);
        storage.slips := storage.slips + if missed then 1 else 0;
        NothingToRewrite(whole);
        ok, loaded := true, true;
      }
    }

    static lemma NothingToRewrite(b: seq<byte>)
      ensures CanRewrite(b, [], None, 0)
    {
    }

    method Reset()
      modifies this`dirty, this`loaded, this`clippingSize, this`storeFilePath, index
      requires Shape()
      ensures Shape() && !loaded && !dirty && storeFilePath == None && index.blocks == []
    {
      dirty, loaded := false, false;
      index.Clear();
      clippingSize := 0;
      storeFilePath := None;
    }

    // ---- Operations ----

    /** The index shows es, and the card what the rewrite left of it. */
    ghost predicate WrittenAs(es: seq<Entry>, syncs: seq<SyncFate>)
      reads this, index, index.blocks, storage
      requires Shape()
    {
      CardBytes(storage.files, bookFilePath) <= whole && CanRewrite(whole, Clips(), None, 0) &&
      EntriesOf(whole, Clips()) == es && LoadResult(storage.files, bookFilePath, maxPerBook) == Commits(es, syncs) &&
      (Sound() <==> Keeps(es, syncs))
    }

    lemma WrittenIsBacked(es: seq<Entry>, syncs: seq<SyncFate>)
      requires Shape() && WrittenAs(es, syncs)
      ensures Backed() && EntriesOf(whole, Clips()) == es
      ensures LoadResult(storage.files, bookFilePath, maxPerBook) == Commits(es, syncs)
      ensures Sound() <==> LoadResult(storage.files, bookFilePath, maxPerBook).Some?
      ensures Sound() ==> LoadResult(storage.files, bookFilePath, maxPerBook) == Some(es)
    {
      hide CanRewrite, EntriesOf, LoadResult, Index.Slots, Survivor, EncodeStore;
    }

    /** What a rewrite of es that went through means for memory and card. */
    lemma WentThrough(clips: seq<Clipping>, es: seq<Entry>, syncs: seq<SyncFate>)
      requires Shape() && ValidBook(CurrentBook()) && LengthsMatch(clips, es)
      requires |es| <= maxPerBook && forall i :: 0 <= i < |es| ==> ValidEntry(es[i])
      requires Recoverable(storage.files, bookFilePath) == Some(LeftOf(es, syncs))
      requires whole == StoreBytes(es) && !missed
      requires Clips() == Relocated(clips, HeaderSize(VERSION, CurrentBook(), |es|), es)
      ensures WrittenAs(es, syncs)
    {
      hide CanRewrite, EncodeStore, HeaderSize, Relocated, LoadResult, Index.Slots, ValidRecord, Survivor;
      AfterRewrite(CurrentBook(), clips, es);
      LeftLoads(storage.files, bookFilePath, maxPerBook, CurrentBook(), es, LeftOf(es, syncs));
    }

    /** A rewrite of es, and what it means for memory and for a load. */
    method WriteStore(replacement: Option<seq<byte>>, at: nat, ghost es: seq<Entry>) returns (ok: bool)
      requires Shape() && loaded
      requires Live() ==> CardBytes(storage.files, bookFilePath) <= whole && Rewritable(replacement, at) &&
                          es == Planned(replacement, at) && LengthsMatch(Clips(), es)
      modifies storage, index.blocks, this`whole, this`missed
      ensures Shape() && OthersKept(old(storage.files), storage.files, bookFilePath)
      ensures old(storage.dead) ==> storage.dead && !ok && storage.files == old(storage.files)
      ensures ok ==> WrittenAs(es, old(storage.syncs)) && !missed
      ensures ok && Keeps(es, old(storage.syncs)) ==>
                var b := CardBytes(storage.files, bookFilePath);
                b != [] && b[0] == 4 && ClippingLayout.HoldsStore(b, maxPerBook, CurrentBook(), es)
      ensures !ok ==> index.Slots() == old(index.Slots()) && whole == old(whole) && missed == old(missed)
      ensures |index.Slots()| == |old(index.Slots())| &&
              index.Slots()[clippingSize..] == old(index.Slots())[clippingSize..]
      ensures !ok && !storage.dead ==>
                Recoverable(storage.files, bookFilePath) == Recoverable(old(storage.files), bookFilePath) &&
                CardBytes(storage.files, bookFilePath) == CardBytes(old(storage.files), bookFilePath) &&
                LoadResult(storage.files, bookFilePath, maxPerBook) ==
                    LoadResult(old(storage.files), bookFilePath, maxPerBook)
      ensures !old(storage.dead) ==>
                LoadsOldOrNew(old(storage.files), storage.files, bookFilePath, maxPerBook,
                              Commits(es, old(storage.syncs)))
      ensures ok && LoadResult(old(storage.files), bookFilePath, maxPerBook).Some? ==>
                (LoadsOldOrNew(old(storage.files), storage.files, bookFilePath, maxPerBook, Some(es)) <==>
                 Keeps(es, old(storage.syncs)))
      ensures storage.checks == old(storage.checks)
      ensures old(storage.Lossless()) ==> storage.Lossless()
      ensures old(storage.slips) <= storage.slips
      ensures LoadResult(old(storage.files), bookFilePath, maxPerBook).Some? ==>
                (old(storage.slips) < storage.slips <==> LoadResult(storage.files, bookFilePath, maxPerBook).None?)
      ensures old(storage.faults) <= storage.faults
      ensures storage.dead ==> old(storage.dead) || old(storage.faults) < storage.faults
      ensures (!old(storage.dead) && ValidBook(CurrentBook()) && storage.faults == old(storage.faults) &&
               old(CardBytes(storage.files, bookFilePath) == whole)) ==> ok
    {
      hide CanRewrite, Rewritten, EncodeStore, HeaderSize, Relocated, LoadResult, Index.Slots, ValidRecord, Survivor,
           OthersKept, WrittenAs, ClippingLayout.HoldsStore;
      ghost var clips, before, live, syncs := Clips(), storage.files, Live(), storage.syncs;
      if live { PlannedValid(replacement, at); }
      ok := WriteToFile(replacement, at);
      if live {
        RewriteLoads(before, storage.files, bookFilePath, CurrentBook(), es, LeftOf(es, syncs), maxPerBook);
        SameRecovered(before, storage.files, bookFilePath, maxPerBook);
        SameBytes(before, storage.files, bookFilePath);
        if ok {
          WentThrough(clips, es, syncs);
          ClippingLayout.WrittenByPositions(CurrentBook(), es, maxPerBook);
        }
      }
    }

    lemma PlannedValid(replacement: Option<seq<byte>>, at: nat)
      requires Shape() && Rewritable(replacement, at)
      ensures forall i :: 0 <= i < |Planned(replacement, at)| ==> ValidEntry(Planned(replacement, at)[i])
    {
      hide CanRewrite;
    }

    method SaveToFile() returns (ok: bool)
      requires Valid()
      modifies this`dirty, this`whole, this`missed, storage, index.blocks
      ensures Valid() && OthersKept(old(storage.files), storage.files, bookFilePath)
      ensures old(Live()) && !storage.dead ==> Content() == old(Content())
      ensures old(Live()) ==>
                LoadsOldOrNew(old(storage.files), storage.files, bookFilePath, maxPerBook,
                              old(Commits(Content(), storage.syncs)))
      ensures !old(Live()) ==> storage.files == old(storage.files)
      ensures ok ==> !dirty && loaded
      ensures old(Live()) && ok && old(dirty) ==>
                LoadResult(storage.files, bookFilePath, maxPerBook) == old(Commits(Content(), storage.syncs)) && !missed
      ensures !old(dirty) ==> storage.files == old(storage.files) && missed == old(missed)
      ensures old(Live()) && !ok && !storage.dead ==>
                LoadResult(storage.files, bookFilePath, maxPerBook) ==
                    LoadResult(old(storage.files), bookFilePath, maxPerBook)
      ensures old(Live() && Sound()) && !storage.dead && LoadResult(storage.files, bookFilePath, maxPerBook).Some? ==>
                Sound()
      ensures !ok ==> index.Slots() == old(index.Slots()) && dirty == old(dirty)
      ensures clippingSize < |index.Slots()| == |old(index.Slots())| ==>
                index.Slots()[clippingSize..] == old(index.Slots())[clippingSize..]
      ensures !ok && !storage.dead ==>
                Recoverable(storage.files, bookFilePath) == Recoverable(old(storage.files), bookFilePath)
      ensures storage.checks == old(storage.checks)
      ensures old(storage.Lossless()) ==> storage.Lossless()
      ensures old(storage.slips) <= storage.slips
      ensures LoadResult(old(storage.files), bookFilePath, maxPerBook).Some? ==>
                (old(storage.slips) < storage.slips <==> LoadResult(storage.files, bookFilePath, maxPerBook).None?)
      ensures old(storage.faults) <= storage.faults
      ensures storage.dead ==> old(storage.dead) || old(storage.faults) < storage.faults
      ensures (old(Live() && Sound()) && ValidBook(CurrentBook()) && storage.faults == old(storage.faults)) ==> ok
    {
      hide CanRewrite, Rewritten, EntriesOf, EncodeStore, HeaderSize, Relocated, LoadResult, Index.Slots, ValidRecord,
           Survivor,
           ClippingLayout.HoldsStore;
      if !loaded {
        return false;
      }
      ghost var clips, before, live := Clips(), storage.files, Live();
      LoadsUnchanged(before, bookFilePath, maxPerBook, if live then Commits(Content(), storage.syncs) else None);
      if live {
        KeepPlan(whole, clips);
        PlanLengths(whole, clips, None, 0);
      }
      if !dirty {
        return true;
      }
      ghost var es, syncs := if live then Rewritten(whole, clips, None, 0) else [], storage.syncs;
      ok := WriteStore(None, 0, es);
      if ok {
        WrittenIsBacked(es, syncs);
      }
      if ok {
        dirty := false;
      }
    }

    method ReadClippingText(i: nat) returns (ok: bool, text: seq<byte>)
      requires Valid() && Live()
      modifies storage`faults
      ensures ok ==> i < clippingSize && text == Content()[i].text
      ensures old(storage.faults) <= storage.faults
      ensures (i < clippingSize && storage.faults == old(storage.faults) && Name(bookFilePath, Main) in storage.files &&
               Sound()) ==> ok
    {
      text := [];
      if i >= clippingSize {
        return false, [];
      }
      var clipping := index.Get(i);
      assert clipping == Clips()[i];
      if clipping.textLength == 0 {
        return true, [];
      }
      var store := Name(storeFilePath.value, Main);
      ok := storage.OpenForRead(store);
      if ok {
        ok := storage.Seek(store, clipping.textOffset);
      }
      if ok {
        ok, text := storage.Read(store, clipping.textOffset, clipping.textLength);
        if ok { SameSlice(storage.files[store], whole, clipping.textOffset, clipping.textLength); }
      }
    }

    /** Moves every later record one slot down, over record at. */
    method CloseGap(at: nat)
      requires Shape() && at < clippingSize
      modifies index.blocks
      ensures Shape()
      ensures index.Slots() == GapClosed(old(index.Slots()), clippingSize, at)
    {
      hide Index.Slots, GapClosed;
      ghost var before := index.Slots();
      ClosesNothing(before, at);
      var i := at;
      while i + 1 < clippingSize
        invariant at <= i < clippingSize && Shape() && |index.Slots()| == |before|
        invariant index.Slots() == GapClosed(before, i + 1, at)
      {
        ClosesFurther(before, i + 1, at);
        var next := index.Get(i + 1);
        index.Set(i, next);
        i := i + 1;
      }
    }

    /** Moves record at and every later one a slot up; slot at keeps its record. */
    method OpenGap(at: nat)
      requires Shape() && at <= clippingSize < index.Capacity()
      modifies index.blocks
      ensures Shape()
      ensures index.Slots() == GapOpened(old(index.Slots()), clippingSize, at)
    {
      hide Index.Slots, GapOpened;
      ghost var before := index.Slots();
      OpensNothing(before, clippingSize);
      var i := clippingSize;
      while i > at
        invariant at <= i <= clippingSize && Shape() && |index.Slots()| == |before|
        invariant index.Slots() == GapOpened(before, clippingSize, i)
      {
        OpensFurther(before, clippingSize, i);
        var previous := index.Get(i - 1);
        index.Set(i, previous);
        i := i - 1;
      }
    }

    /** Puts a record behind the last one and rewrites the store; a failed rewrite drops it again. */
    method Append(c: Clipping, text: seq<byte>) returns (ok: bool)
      requires Valid() && loaded && clippingSize < index.Capacity()
      requires ValidRecord(c.rec) && c.textLength == |text| <= TEXT_MAX
      modifies this`clippingSize, this`whole, this`missed, storage, index.blocks
      ensures Shape() && OthersKept(old(storage.files), storage.files, bookFilePath)
      ensures old(storage.dead) ==> storage.dead && !ok && storage.files == old(storage.files)
      ensures ok ==> clippingSize == old(clippingSize) + 1
      ensures !ok ==> clippingSize == old(clippingSize)
      ensures ok ==> !old(storage.dead) && WrittenAs(old(Content()) + [Entry(c.rec, text)], old(storage.syncs))
      ensures !storage.dead && !ok ==> Backed() && Content() == old(Content()) && Sound() == old(Sound())
      ensures !storage.dead && !ok ==>
                LoadResult(storage.files, bookFilePath, maxPerBook) ==
                    LoadResult(old(storage.files), bookFilePath, maxPerBook)
      ensures !old(storage.dead) ==>
                LoadsOldOrNew(old(storage.files), storage.files, bookFilePath, maxPerBook,
                              old(Commits(Content() + [Entry(c.rec, text)], storage.syncs)))
      ensures storage.checks == old(storage.checks)
      ensures old(storage.Lossless()) ==> storage.Lossless()
      ensures old(storage.slips) <= storage.slips
      ensures LoadResult(old(storage.files), bookFilePath, maxPerBook).Some? ==>
                (old(storage.slips) < storage.slips <==> LoadResult(storage.files, bookFilePath, maxPerBook).None?)
      ensures old(storage.faults) <= storage.faults
      ensures storage.dead ==> old(storage.dead) || old(storage.faults) < storage.faults
      ensures (!old(storage.dead) && old(CardBytes(storage.files, bookFilePath) == whole) && ValidBook(CurrentBook()) &&
               storage.faults == old(storage.faults)) ==> ok
    {
      hide CanRewrite, Rewritten, EntriesOf, EncodeStore, HeaderSize, Relocated, LoadResult, Index.Slots, ValidRecord,
           Survivor,
           ClippingLayout.HoldsStore;
      ghost var clips, live, slots := Clips(), Live(), index.Slots();
      index.Set(clippingSize, c);
      clippingSize := clippingSize + 1;
      assert Clips() == clips + [c];
      if live {
        AppendPlan(whole, clips, c, text);
        PlanLengths(whole, clips + [c], Some(text), |clips|);
      }
      ghost var es := if live then Rewritten(whole, clips + [c], Some(text), |clips|) else [];
      ok := WriteStore(Some(text), clippingSize - 1, es);
      if !ok {
        clippingSize := clippingSize - 1;
        assert Clips() == clips;
      }
    }

    /** Adds a clipping behind the others and saves it; a clipping that cannot be saved is not added. */
    method AddClipping(sel: Selection, title: seq<byte>, now: int, text: seq<byte>) returns (r: AddResult)
      requires Valid()
      modifies this`clippingSize, this`dirty, this`whole, this`missed, storage, index, index.blocks
      ensures Valid() && OthersKept(old(storage.files), storage.files, bookFilePath)
      ensures forall k :: 0 <= k < |index.blocks| ==> index.blocks[k] in old(index.blocks) || fresh(index.blocks[k])
      ensures r.LimitReached? <==> old(clippingSize) >= maxPerBook
      ensures r.Added? && !storage.dead ==>
                old(Live()) && Content() == old(Content()) + [Entry(NewRecord(sel, title, now), text)] && !dirty
      ensures r.Added? && !storage.dead ==>
                |Content()| == old(clippingSize) + 1 && Content()[old(clippingSize)].text == text &&
                MadeFrom(Content()[old(clippingSize)].rec, sel, title, now)
      ensures r.Added? ==> old(Live())
      ensures r.Added? ==>
                LoadResult(storage.files, bookFilePath, maxPerBook) ==
                old(Commits(Content() + [Entry(NewRecord(sel, title, now), text)], storage.syncs))
      ensures !r.Added? && old(Live()) && !storage.dead ==> Content() == old(Content()) && Sound() == old(Sound())
      ensures r.Added? && !storage.dead ==>
                (Sound() <==> LoadResult(storage.files, bookFilePath, maxPerBook).Some?)
      ensures !r.Added? && old(Live()) && !storage.dead ==>
                LoadResult(storage.files, bookFilePath, maxPerBook) ==
                    LoadResult(old(storage.files), bookFilePath, maxPerBook)
      ensures old(Live()) ==>
                LoadsOldOrNew(old(storage.files), storage.files, bookFilePath, maxPerBook,
                              old(Commits(Content() + [Entry(NewRecord(sel, title, now), text)], storage.syncs)))
      ensures !old(Live()) ==> storage.files == old(storage.files)
      ensures storage.checks == old(storage.checks)
      ensures old(storage.Lossless()) ==> storage.Lossless()
      ensures old(storage.slips) <= storage.slips
      ensures LoadResult(old(storage.files), bookFilePath, maxPerBook).Some? ==>
                (old(storage.slips) < storage.slips <==> LoadResult(storage.files, bookFilePath, maxPerBook).None?)
      ensures old(storage.faults) <= storage.faults
      ensures (old(Live() && CardBytes(storage.files, bookFilePath) == whole) &&
               storage.faults == old(storage.faults) &&
               old(clippingSize) < maxPerBook && |text| <= TEXT_MAX &&
               ValidBook(CurrentBook())) ==> r.Added?
    {
      hide CanRewrite, EntriesOf, LoadResult, Index.Slots, ValidRecord, NewRecord, Survivor, EncodeStore, CardBytes,
           MadeFrom;
      NewRecordFields(sel, title, now);
      if old(Live()) {
        LoadsUnchanged(storage.files, bookFilePath, maxPerBook,
                       Commits(Content() + [Entry(NewRecord(sel, title, now), text)], storage.syncs));
      }
      if clippingSize >= maxPerBook {
        return LimitReached;
      }
      if !loaded || |text| > TEXT_MAX {
        return SaveFailed;
      }
      ghost var clips, es := Clips(), if Live() then Content() + [Entry(NewRecord(sel, title, now), text)] else [];
      ghost var syncs := storage.syncs;
      var reserved := index.Reserve(clippingSize + 1, maxPerBook, storage);
      assert Clips() == clips;
      if !reserved {
        return SaveFailed;
      }
      var ok := Append(Clipping(NewRecord(sel, title, now), 0, |text|), text);
      dirty := !ok;
      if ok {
        WrittenIsBacked(es, syncs);
      }
      r := if ok then Added else SaveFailed;
    }

    /** Takes record at out of the index. */
    method Extract(at: nat) returns (previous: Clipping)
      requires Shape() && at < clippingSize
      modifies this`clippingSize, index.blocks
      ensures Shape() && clippingSize == old(clippingSize) - 1 && previous == old(index.Slots())[at]
      ensures index.Slots() == GapClosed(old(index.Slots()), old(clippingSize), at)
      ensures Clips() == Without(old(Clips()), at)
    {
      hide Index.Slots, GapClosed, Without;
      ClosedGapShows(index.Slots(), clippingSize, at);
      previous := index.Get(at);
      CloseGap(at);
      clippingSize := clippingSize - 1;
    }

    /** Puts a record that was taken out back where it was. */
    method Reinsert(at: nat, previous: Clipping, ghost before: seq<Clipping>)
      requires Shape() && at <= clippingSize < |before| == index.Capacity() && previous == before[at]
      requires index.Slots() == GapClosed(before, clippingSize + 1, at) && loaded
      modifies this`clippingSize, index.blocks
      ensures Shape() && clippingSize == old(clippingSize) + 1 && index.Slots() == before
    {
      hide Index.Slots, GapClosed, GapOpened;
      GapRestored(before, clippingSize + 1, at);
      OpenGap(at);
      index.Set(at, previous);
      clippingSize := clippingSize + 1;
    }

    /** Drops clipping at and rewrites the store; a failed rewrite puts it back. */
    method Drop(at: nat) returns (ok: bool)
      requires Valid() && loaded && at < clippingSize
      modifies this`clippingSize, this`whole, this`missed, storage, index.blocks
      ensures Shape() && OthersKept(old(storage.files), storage.files, bookFilePath)
      ensures old(storage.dead) ==> storage.dead && !ok && storage.files == old(storage.files)
      ensures ok ==> clippingSize == old(clippingSize) - 1
      ensures !ok ==> clippingSize == old(clippingSize)
      ensures ok ==> !old(storage.dead) && WrittenAs(Without(old(Content()), at), old(storage.syncs))
      ensures !storage.dead && !ok ==> Backed() && Content() == old(Content()) && Sound() == old(Sound())
      ensures !storage.dead && !ok ==>
                LoadResult(storage.files, bookFilePath, maxPerBook) ==
                    LoadResult(old(storage.files), bookFilePath, maxPerBook)
      ensures !old(storage.dead) ==>
                LoadsOldOrNew(old(storage.files), storage.files, bookFilePath, maxPerBook,
                              old(Commits(Without(Content(), at), storage.syncs)))
      ensures storage.checks == old(storage.checks)
      ensures old(storage.Lossless()) ==> storage.Lossless()
      ensures old(storage.slips) <= storage.slips
      ensures LoadResult(old(storage.files), bookFilePath, maxPerBook).Some? ==>
                (old(storage.slips) < storage.slips <==> LoadResult(storage.files, bookFilePath, maxPerBook).None?)
      ensures old(storage.faults) <= storage.faults
      ensures storage.dead ==> old(storage.dead) || old(storage.faults) < storage.faults
      ensures (!old(storage.dead) && old(Sound()) && ValidBook(CurrentBook()) &&
               storage.faults == old(storage.faults)) ==> ok
    {
      hide CanRewrite, Rewritten, EntriesOf, EncodeStore, HeaderSize, Relocated, LoadResult, Index.Slots, ValidRecord,
           Survivor, GapClosed, GapOpened, Without,
           ClippingLayout.HoldsStore;
      ghost var clips, live, slots := Clips(), Live(), index.Slots();
      var previous := Extract(at);
      if live {
        DropPlan(whole, clips, at, at);
        PlanLengths(whole, Without(clips, at), None, at);
      }
      ghost var es := if live then Rewritten(whole, Without(clips, at), None, at) else [];
      ok := WriteStore(None, at, es);
      if !ok {
        Reinsert(at, previous, slots);
        assert Clips() == clips;
      }
    }

    /** Replaces record at and its text and rewrites the store; a failed rewrite puts the old record back. */
    method Replace(at: nat, c: Clipping, text: seq<byte>) returns (ok: bool)
      requires Valid() && loaded && at < clippingSize
      requires ValidRecord(c.rec) && c.textLength == |text| <= TEXT_MAX
      modifies this`whole, this`missed, storage, index.blocks
      ensures Shape() && OthersKept(old(storage.files), storage.files, bookFilePath)
      ensures old(storage.dead) ==> storage.dead && !ok && storage.files == old(storage.files)
      ensures ok ==> !old(storage.dead) && WrittenAs(old(Content())[at := Entry(c.rec, text)], old(storage.syncs))
      ensures !storage.dead && !ok ==> Backed() && Content() == old(Content()) && Sound() == old(Sound())
      ensures !storage.dead && !ok ==>
                LoadResult(storage.files, bookFilePath, maxPerBook) ==
                    LoadResult(old(storage.files), bookFilePath, maxPerBook)
      ensures !old(storage.dead) ==>
                LoadsOldOrNew(old(storage.files), storage.files, bookFilePath, maxPerBook,
                              old(Commits(Content()[at := Entry(c.rec, text)], storage.syncs)))
      ensures storage.checks == old(storage.checks)
      ensures old(storage.Lossless()) ==> storage.Lossless()
      ensures old(storage.slips) <= storage.slips
      ensures LoadResult(old(storage.files), bookFilePath, maxPerBook).Some? ==>
                (old(storage.slips) < storage.slips <==> LoadResult(storage.files, bookFilePath, maxPerBook).None?)
      ensures old(storage.faults) <= storage.faults
      ensures storage.dead ==> old(storage.dead) || old(storage.faults) < storage.faults
      ensures (!old(storage.dead) && old(Sound()) && ValidBook(CurrentBook()) &&
               storage.faults == old(storage.faults)) ==> ok
    {
      hide CanRewrite, Rewritten, EntriesOf, EncodeStore, HeaderSize, Relocated, LoadResult, Index.Slots, ValidRecord,
           Survivor,
           ClippingLayout.HoldsStore;
      ghost var clips, live, slots := Clips(), Live(), index.Slots();
      var previous := index.Get(at);
      index.Set(at, c);
      assert Clips() == clips[at := c];
      if live {
        ReplacePlan(whole, clips, at, c, text);
        PlanLengths(whole, clips[at := c], Some(text), at);
      }
      ghost var es := if live then Rewritten(whole, clips[at := c], Some(text), at) else [];
      ok := WriteStore(Some(text), at, es);
      if !ok {
        index.Set(at, previous);
        assert index.Slots() == slots;
      }
    }

    // ---- Deleting, with a journal for the sync server ----

    /** Drops a torn id from the end of the journal. */
    method TruncateDeletionTail(h: Handle) returns (ok: bool, next: Handle)
      requires h.name in storage.files && h.safe == |storage.files[h.name]|
      modifies storage`files, storage`dead, storage`faults
      ensures SameExcept(old(storage.files), storage.files, {h.name}) && h.name in storage.files
      ensures JournalIds(storage.files[h.name]) == JournalIds(old(storage.files)[h.name])
      ensures next == Handle(h.name, |storage.files[h.name]|)
      ensures old(storage.dead) ==> storage.dead && storage.files == old(storage.files)
      ensures ok ==> |storage.files[h.name]| % ID_SIZE == 0 && (storage.dead ==> old(storage.dead))
      ensures old(storage.faults) <= storage.faults
      ensures storage.dead ==> old(storage.dead) || old(storage.faults) < storage.faults
      ensures storage.faults == old(storage.faults) && !storage.dead ==> ok
    {
      var bytes := storage.files[h.name];
      var tail := |bytes| % ID_SIZE;
      if tail == 0 {
        return true, h;
      }
      JournalTail(bytes, |bytes| - tail);
      ok := storage.Truncate(h, |bytes| - tail);
      next := Handle(h.name, |storage.files[h.name]|);
    }

    /** An id appended to the journal is still there after the flush and the close. */
    static predicate JournalKeeps(syncs: seq<SyncFate>)
    {
      SyncKept(syncs, 0) || SyncKept(syncs, 1) || syncs[1].keeps >= ID_SIZE
    }

    /** What is left of an id behind whole ids is none of it or all of it, as far as whole ids go. */
    static lemma IdSurvives(ids: seq<byte>, id: seq<byte>, syncs: seq<SyncFate>)
      requires |ids| % ID_SIZE == 0 && |id| == ID_SIZE
      ensures JournalIds(Survivor(ids + id, |ids|, syncs)) ==
              if JournalKeeps(syncs) then JournalIds(ids) + [id] else JournalIds(ids)
    {
      hide JournalIds, Survivor;
      var bytes := ids + id;
      SurvivorSize(bytes, |ids|, syncs);
      LeftTail(ids, id, Survivor(bytes, |ids|, syncs));
    }

    static lemma LeftTail(ids: seq<byte>, id: seq<byte>, left: seq<byte>)
      requires |ids| % ID_SIZE == 0 && |id| == ID_SIZE && left <= ids + id && |ids| <= |left|
      ensures JournalIds(left) == if |left| == |ids| + ID_SIZE then JournalIds(ids) + [id] else JournalIds(ids)
    {
      hide JournalIds;
      var tail := left[|ids|..];
      assert left == ids + tail;
      assert |tail| == ID_SIZE ==> tail == id;
      JournalAppend(ids, tail);
    }

    /** Queues an id for the sync server. Whether the flush and the close worked is not looked at. */
    method JournalDeletion(id: seq<byte>) returns (ok: bool)
      requires |id| == ID_SIZE && storeFilePath.Some?
      modifies storage`files, storage`dead, storage`faults, storage`syncs
      ensures SameExcept(old(storage.files), storage.files, {Name(storeFilePath.value, Deleted)})
      ensures var ids := JournalIds(Journal(storage.files, storeFilePath.value));
              var before := JournalIds(Journal(old(storage.files), storeFilePath.value));
              (ids == before || ids == before + [id]) &&
              (ok && !storage.dead ==> ids == if JournalKeeps(old(storage.syncs)) then before + [id] else before)
      ensures old(storage.dead) ==> !ok && storage.dead && storage.files == old(storage.files)
      ensures ok ==> storage.syncs == Rest(Rest(old(storage.syncs)))
      ensures old(storage.Lossless()) ==> storage.Lossless()
      ensures old(storage.faults) <= storage.faults
      ensures storage.dead ==> old(storage.dead) || old(storage.faults) < storage.faults
      ensures storage.faults == old(storage.faults) && !storage.dead ==> ok
    {
      hide JournalIds, Survivor, JournalKeeps;
      NoIds();
      var journal := Name(storeFilePath.value, Deleted);
      var h;
      ok, h := storage.OpenForAppend(journal);
      if !ok {
        return;
      }
      ok, h := TruncateDeletionTail(h);
      if !ok {
        CloseUnchanged(h);
        return;
      }
      ok := AppendId(h, id);
    }

    /** Appends an id, or takes back what was appended. */
    method AppendId(h: Handle, id: seq<byte>) returns (ok: bool)
      requires |id| == ID_SIZE && h.name in storage.files && h.safe == |storage.files[h.name]| && !storage.dead
      requires |storage.files[h.name]| % ID_SIZE == 0
      modifies storage`files, storage`dead, storage`faults, storage`syncs
      ensures SameExcept(old(storage.files), storage.files, {h.name}) && h.name in storage.files
      ensures var ids, before := JournalIds(storage.files[h.name]), JournalIds(old(storage.files)[h.name]);
              (ids == before || ids == before + [id]) &&
              (ok && !storage.dead ==> ids == if JournalKeeps(old(storage.syncs)) then before + [id] else before)
      ensures ok ==> storage.syncs == Rest(Rest(old(storage.syncs)))
      ensures old(storage.Lossless()) ==> storage.Lossless()
      ensures old(storage.faults) <= storage.faults
      ensures storage.dead ==> old(storage.dead) || old(storage.faults) < storage.faults
      ensures storage.faults == old(storage.faults) ==> ok
    {
      hide JournalIds, Survivor, JournalKeeps;
      ghost var ids := storage.files[h.name];
      var originalSize := |storage.files[h.name]|;
      ok := storage.Append(h, id);
      if !ok {
        var rolledBack := storage.Truncate(h, originalSize);
        var closed := storage.Close(h);
        LeftTail(ids, id, storage.files[h.name]);
        return;
      }
      IdSurvives(ids, id, storage.syncs);
      FlushAndClose(h);
      LeftTail(ids, id, storage.files[h.name]);
    }

    /** Closes a file that nothing was written to. */
    method CloseUnchanged(h: Handle)
      requires h.name in storage.files && h.safe == |storage.files[h.name]|
      modifies storage`files, storage`dead, storage`faults, storage`syncs
      ensures storage.files == old(storage.files) && (old(storage.Lossless()) ==> storage.Lossless())
      ensures old(storage.faults) <= storage.faults
      ensures storage.dead ==> old(storage.dead) || old(storage.faults) < storage.faults
    {
      ghost var bytes := storage.files[h.name];
      var closed := storage.Close(h);
      assert storage.files[h.name] == bytes;
    }

    /** The flushes and closes left for the rewrite after a removal was journaled, if there was an id to journal. */
    static function SyncsAfter(id: seq<byte>, syncs: seq<SyncFate>): seq<SyncFate>
    {
      if CString(id) == [] then syncs else Rest(Rest(syncs))
    }

    /** A clipping with an id was removed, though the journal's flush and close had lost the id. */
    static ghost predicate RemovedUnqueued(before: Files, after: Files, book: seq<byte>, maxCount: nat, ok: bool,
                                           id: seq<byte>, syncs: seq<SyncFate>)
    {
      CString(id) != [] && !JournalKeeps(syncs) &&
      (ok || LoadResult(after, book, maxCount) != LoadResult(before, book, maxCount))
    }

    /**
     * Removes one clipping. Whatever fails and wherever power is cut, the next load shows the clippings with
     * it or what the rewrite left of those without it; and, unless the flush and the close of the journal lost
     * the id, without it only if its id, when it has one, is in the journal.
     */
    method RemoveClippingAt(at: nat) returns (ok: bool)
      requires Valid() && !storage.dead
      modifies this`clippingSize, this`dirty, this`whole, this`missed, storage, index.blocks
      ensures Valid()
      ensures !loaded || at >= old(clippingSize) ==> !ok && storage.files == old(storage.files) && !storage.dead &&
                                                     (loaded ==> Sound() == old(Sound()))
      ensures ok && !storage.dead ==> Content() == Without(old(Content()), at) && !dirty
      ensures ok ==> LoadResult(storage.files, bookFilePath, maxPerBook) ==
                     old(Commits(Without(Content(), at), SyncsAfter(Content()[at].rec.id, storage.syncs)))
      ensures ok && !storage.dead ==>
                (Sound() <==> LoadResult(storage.files, bookFilePath, maxPerBook).Some?)
      ensures !ok && loaded && !storage.dead ==> Content() == old(Content()) && Sound() == old(Sound())
      ensures !ok && loaded && !storage.dead ==>
                LoadResult(storage.files, bookFilePath, maxPerBook) ==
                    LoadResult(old(storage.files), bookFilePath, maxPerBook)
      ensures loaded && at < old(clippingSize) ==>
                RemovalOutcome(old(storage.files), storage.files, bookFilePath, maxPerBook, old(Content())[at].rec.id,
                               old(Commits(Without(Content(), at), SyncsAfter(Content()[at].rec.id, storage.syncs))),
                               JournalKeeps(old(storage.syncs)))
      ensures ok && JournalKeeps(old(storage.syncs)) ==>
                Journaled(old(storage.files), storage.files, bookFilePath, old(Content())[at].rec.id)
      ensures ok && !JournalKeeps(old(storage.syncs)) ==>
                JournalIds(Journal(storage.files, bookFilePath)) ==
                    JournalIds(Journal(old(storage.files), bookFilePath))
      ensures storage.checks == old(storage.checks)
      ensures old(storage.Lossless()) ==> storage.Lossless()
      ensures old(storage.slips) <= storage.slips
      ensures !loaded || at >= old(clippingSize) ==> storage.slips == old(storage.slips)
      ensures (loaded && at < old(clippingSize) && LoadResult(old(storage.files), bookFilePath, maxPerBook).Some?) ==>
                (old(storage.slips) < storage.slips <==>
                 LoadResult(storage.files, bookFilePath, maxPerBook).None? ||
                 RemovedUnqueued(old(storage.files), storage.files, bookFilePath, maxPerBook, ok,
                                 old(Content())[at].rec.id, old(storage.syncs)))
      ensures old(storage.faults) <= storage.faults
      ensures (loaded && at < old(clippingSize) && storage.faults == old(storage.faults) && old(Sound()) &&
               ValidBook(CurrentBook())) ==> ok
    {
      hide CanRewrite, EntriesOf, LoadResult, Index.Slots, ValidRecord, Without, RemovalOutcome, LoadsOldOrNew,
           Recoverable,
           JournalGrew, Journaled, Survivor, EncodeStore, JournalKeeps, JournalIds, SyncsAfter, CardBytes, Backed;
      if !loaded || at >= clippingSize {
        return false;
      }
      ghost var before, content, syncs := storage.files, Content(), storage.syncs;
      ghost var id, journaled := content[at].rec.id, storage.files;
      ok, journaled := JournalAndDrop(at);
      RemovalDone(before, journaled, storage.files, bookFilePath, maxPerBook, id,
                  Commits(Without(content, at), SyncsAfter(id, syncs)), JournalKeeps(syncs));
      JournalKept(journaled, storage.files, bookFilePath);
      if ok && JournalKeeps(syncs) {
        StillJournaled(before, journaled, storage.files, bookFilePath, id);
      }
      if RemovedUnqueued(before, storage.files, bookFilePath, maxPerBook, ok, id, syncs) {
        storage.slips := storage.slips + 1;
      }
    }

    /** Queues the id and drops the clipping; journaled is the card in between. */
    method JournalAndDrop(at: nat) returns (ok: bool, ghost journaled: Files)
      requires Valid() && loaded && !storage.dead && at < clippingSize
      modifies this`clippingSize, this`dirty, this`whole, this`missed, storage, index.blocks
      ensures Valid()
      ensures LoadResult(journaled, bookFilePath, maxPerBook) ==
              LoadResult(old(storage.files), bookFilePath, maxPerBook)
      ensures OthersKept(journaled, storage.files, bookFilePath)
      ensures JournalGrew(old(storage.files), journaled, bookFilePath, old(Content())[at].rec.id)
      ensures journaled == storage.files ||
              (LoadsOldOrNew(journaled, storage.files, bookFilePath, maxPerBook,
                             old(Commits(Without(Content(), at), SyncsAfter(Content()[at].rec.id, storage.syncs)))) &&
               (if JournalKeeps(old(storage.syncs)) then
                  Journaled(old(storage.files), journaled, bookFilePath, old(Content())[at].rec.id)
                else SameJournalIds(old(storage.files), journaled, bookFilePath)))
      ensures ok && JournalKeeps(old(storage.syncs)) ==>
                Journaled(old(storage.files), journaled, bookFilePath, old(Content())[at].rec.id)
      ensures ok && !JournalKeeps(old(storage.syncs)) ==>
                JournalIds(Journal(journaled, bookFilePath)) == JournalIds(Journal(old(storage.files), bookFilePath))
      ensures ok && !storage.dead ==> Content() == Without(old(Content()), at) && !dirty
      ensures ok ==> LoadResult(storage.files, bookFilePath, maxPerBook) ==
                     old(Commits(Without(Content(), at), SyncsAfter(Content()[at].rec.id, storage.syncs)))
      ensures ok && !storage.dead ==> (Sound() <==> LoadResult(storage.files, bookFilePath, maxPerBook).Some?)
      ensures !ok && !storage.dead ==> Content() == old(Content()) && Sound() == old(Sound())
      ensures !ok && !storage.dead ==>
                LoadResult(storage.files, bookFilePath, maxPerBook) ==
                    LoadResult(old(storage.files), bookFilePath, maxPerBook)
      ensures storage.checks == old(storage.checks)
      ensures old(storage.Lossless()) ==> storage.Lossless()
      ensures old(storage.slips) <= storage.slips
      ensures LoadResult(old(storage.files), bookFilePath, maxPerBook).Some? ==>
                (old(storage.slips) < storage.slips <==> LoadResult(storage.files, bookFilePath, maxPerBook).None?)
      ensures old(storage.faults) <= storage.faults
      ensures (storage.faults == old(storage.faults) && old(Sound()) &&
               ValidBook(CurrentBook())) ==> ok
    {
      hide CanRewrite, EntriesOf, LoadResult, Index.Slots, ValidRecord, Without, LoadsOldOrNew, Recoverable,
           JournalGrew, Journaled, Survivor, EncodeStore, JournalKeeps, JournalIds, SyncsAfter, CardBytes;
      ghost var content := Content();
      ok := JournalRemoval(at);
      journaled := storage.files;
      ghost var later := storage.syncs;
      if ok {
        ok := Drop(at);
        dirty := !ok;
        if ok { WrittenIsBacked(Without(content, at), later); }
      }
    }

    /** Puts the id of clipping at, if it has one, into the journal. */
    method JournalRemoval(at: nat) returns (ok: bool)
      requires Valid() && loaded && !storage.dead && at < clippingSize
      modifies storage`files, storage`dead, storage`faults, storage`syncs
      ensures Valid() && (!storage.dead ==> Content() == old(Content()) && Sound() == old(Sound()))
      ensures ok && !storage.dead && JournalKeeps(old(storage.syncs)) ==>
                Journaled(old(storage.files), storage.files, bookFilePath, old(Content())[at].rec.id)
      ensures ok && !storage.dead && !JournalKeeps(old(storage.syncs)) ==>
                JournalIds(Journal(storage.files, bookFilePath)) ==
                    JournalIds(Journal(old(storage.files), bookFilePath))
      ensures ok ==> storage.syncs == SyncsAfter(old(Content())[at].rec.id, old(storage.syncs))
      ensures JournalGrew(old(storage.files), storage.files, bookFilePath, old(Content())[at].rec.id)
      ensures LoadResult(storage.files, bookFilePath, maxPerBook) ==
              LoadResult(old(storage.files), bookFilePath, maxPerBook)
      ensures CardBytes(storage.files, bookFilePath) == CardBytes(old(storage.files), bookFilePath)
      ensures old(storage.Lossless()) ==> storage.Lossless()
      ensures old(storage.faults) <= storage.faults
      ensures storage.faults == old(storage.faults) ==> ok && !storage.dead
    {
      hide CanRewrite, EntriesOf, LoadResult, Index.Slots, ValidRecord, JournalIds, Journal, Recoverable, JournalKeeps,
           CardBytes;
      ghost var before := storage.files;
      var clipping := index.Get(at);
      assert clipping == Clips()[at];
      RecordOfContent(whole, Clips(), at);
      ok := clipping.rec.id[0] == 0;
      if !ok {
        ok := JournalDeletion(clipping.rec.id);
        JournalOnly(before, storage.files, bookFilePath, maxPerBook);
      }
    }

    /** The position of the clipping with this id, or the number of clippings. */
    method FindId(id: seq<byte>) returns (at: nat)
      requires Shape()
      ensures at <= clippingSize
      ensures at < clippingSize ==> CString(Clips()[at].rec.id) == CString(id)
      ensures forall i :: 0 <= i < at ==> CString(Clips()[i].rec.id) != CString(id)
    {
      hide Index.Slots, CString;
      at := 0;
      while at < clippingSize
        invariant at <= clippingSize
        invariant forall i :: 0 <= i < at ==> CString(Clips()[i].rec.id) != CString(id)
      {
        var clipping := index.Get(at);
        assert clipping == Clips()[at];
        if CString(clipping.rec.id) == CString(id) {
          return;
        }
        at := at + 1;
      }
    }

    /** Puts a clipping of the server behind the others. */
    method AppendRemote(c: Clipping, text: seq<byte>, ghost goal: seq<Entry>) returns (ok: bool)
      requires Valid() && loaded && !storage.dead
      requires ValidRecord(c.rec) && c.textLength == |text| <= TEXT_MAX && clippingSize < maxPerBook
      requires goal == Content() + [Entry(c.rec, text)]
      modifies this`clippingSize, this`whole, this`missed, storage, index, index.blocks
      ensures Valid() && OthersKept(old(storage.files), storage.files, bookFilePath)
      ensures forall k :: 0 <= k < |index.blocks| ==> index.blocks[k] in old(index.blocks) || fresh(index.blocks[k])
      ensures !storage.dead ==> Content() == if ok then goal else old(Content())
      ensures LoadsOldOrNew(old(storage.files), storage.files, bookFilePath, maxPerBook,
                            Commits(goal, old(storage.syncs)))
      ensures ok ==> LoadResult(storage.files, bookFilePath, maxPerBook) == Commits(goal, old(storage.syncs))
      ensures !ok && !storage.dead ==>
                LoadResult(storage.files, bookFilePath, maxPerBook) ==
                    LoadResult(old(storage.files), bookFilePath, maxPerBook)
      ensures !storage.dead && old(Sound()) && LoadResult(storage.files, bookFilePath, maxPerBook).Some? ==> Sound()
      ensures storage.checks == old(storage.checks)
      ensures old(storage.Lossless()) ==> storage.Lossless()
      ensures old(storage.slips) <= storage.slips
      ensures LoadResult(old(storage.files), bookFilePath, maxPerBook).Some? ==>
                (old(storage.slips) < storage.slips <==> LoadResult(storage.files, bookFilePath, maxPerBook).None?)
      ensures old(storage.faults) <= storage.faults
      ensures (storage.faults == old(storage.faults) && old(Sound()) &&
               ValidBook(CurrentBook())) ==> ok
    {
      hide CanRewrite, EntriesOf, LoadResult, Index.Slots, ValidRecord, Without, LoadsOldOrNew, Survivor, EncodeStore,
           CardBytes;
      ghost var clips, syncs := Clips(), storage.syncs;
      LoadsUnchanged(storage.files, bookFilePath, maxPerBook, Commits(goal, syncs));
      ok := index.Reserve(clippingSize + 1, maxPerBook, storage);
      assert Clips() == clips;
      if ok {
        ok := Append(c, text);
        if ok { WrittenIsBacked(goal, syncs); }
      }
    }

    /** Removes or replaces a clipping at the word of the server. */
    method ChangeAt(at: nat, c: Clipping, text: seq<byte>, deleted: bool, ghost goal: seq<Entry>) returns (ok: bool)
      requires Valid() && loaded && !storage.dead
      requires at < clippingSize && (!deleted ==> ValidRecord(c.rec) && c.textLength == |text| <= TEXT_MAX)
      requires goal == if deleted then Without(Content(), at) else Content()[at := Entry(c.rec, text)]
      modifies this`clippingSize, this`whole, this`missed, storage, index.blocks
      ensures Valid() && OthersKept(old(storage.files), storage.files, bookFilePath)
      ensures !storage.dead ==> Content() == if ok then goal else old(Content())
      ensures LoadsOldOrNew(old(storage.files), storage.files, bookFilePath, maxPerBook,
                            Commits(goal, old(storage.syncs)))
      ensures ok ==> LoadResult(storage.files, bookFilePath, maxPerBook) == Commits(goal, old(storage.syncs))
      ensures !ok && !storage.dead ==>
                LoadResult(storage.files, bookFilePath, maxPerBook) ==
                    LoadResult(old(storage.files), bookFilePath, maxPerBook)
      ensures !storage.dead && old(Sound()) && LoadResult(storage.files, bookFilePath, maxPerBook).Some? ==> Sound()
      ensures storage.checks == old(storage.checks)
      ensures old(storage.Lossless()) ==> storage.Lossless()
      ensures old(storage.slips) <= storage.slips
      ensures LoadResult(old(storage.files), bookFilePath, maxPerBook).Some? ==>
                (old(storage.slips) < storage.slips <==> LoadResult(storage.files, bookFilePath, maxPerBook).None?)
      ensures old(storage.faults) <= storage.faults
      ensures (storage.faults == old(storage.faults) && old(Sound()) &&
               ValidBook(CurrentBook())) ==> ok
    {
      hide CanRewrite, EntriesOf, LoadResult, Index.Slots, ValidRecord, Without, LoadsOldOrNew, Survivor, EncodeStore,
           CardBytes;
      ghost var syncs := storage.syncs;
      if deleted {
        ok := Drop(at);
      } else {
        ok := Replace(at, c, text);
      }
      if ok { WrittenIsBacked(goal, syncs); }
    }

    /** Applies a clipping sent by the sync server, with the text length that decoding it noted, in 16 bits. */
    method ApplyRemote(r: Record, text: seq<byte>, deleted: bool) returns (ok: bool)
      requires Valid() && !storage.dead
      requires !deleted ==> ValidRecord(r)
      modifies this`clippingSize, this`whole, this`missed, storage, index, index.blocks
      ensures Valid() && OthersKept(old(storage.files), storage.files, bookFilePath)
      ensures forall k :: 0 <= k < |index.blocks| ==> index.blocks[k] in old(index.blocks) || fresh(index.blocks[k])
      ensures !loaded ==> !ok && storage.files == old(storage.files)
      ensures loaded && !storage.dead ==>
                Content() == if ok then RemoteApplied(old(Content()), r, text, deleted) else old(Content())
      ensures ok && !storage.dead ==> RemoteDone(old(Content()), Content(), r, text, deleted)
      ensures loaded ==> LoadsOldOrNew(old(storage.files), storage.files, bookFilePath, maxPerBook,
                                       old(Commits(RemoteApplied(Content(), r, text, deleted), storage.syncs)))
      ensures ok && RemoteApplied(old(Content()), r, text, deleted) != old(Content()) ==>
                LoadResult(storage.files, bookFilePath, maxPerBook) ==
                old(Commits(RemoteApplied(Content(), r, text, deleted), storage.syncs))
      ensures loaded && !ok && !storage.dead ==>
                LoadResult(storage.files, bookFilePath, maxPerBook) ==
                    LoadResult(old(storage.files), bookFilePath, maxPerBook)
      ensures loaded && !storage.dead && old(Sound()) && LoadResult(storage.files, bookFilePath, maxPerBook).Some? ==>
                Sound()
      ensures storage.checks == old(storage.checks)
      ensures old(storage.Lossless()) ==> storage.Lossless()
      ensures old(storage.slips) <= storage.slips
      ensures LoadResult(old(storage.files), bookFilePath, maxPerBook).Some? ==>
                (old(storage.slips) < storage.slips <==> LoadResult(storage.files, bookFilePath, maxPerBook).None?)
      ensures old(storage.faults) <= storage.faults
      ensures (loaded && storage.faults == old(storage.faults) && old(Sound()) &&
               |text| <= TEXT_MAX && old(clippingSize) < maxPerBook && ValidBook(CurrentBook())) ==> ok
    {
      hide CanRewrite, EntriesOf, LoadResult, Index.Slots, ValidRecord, Without, CString, LoadsOldOrNew, IdAt, Survivor,
           EncodeStore, CardBytes, OthersKept, WrittenAs, RemoteDone;
      ghost var syncs := storage.syncs;
      LoadsUnchanged(storage.files, bookFilePath, maxPerBook,
                     if loaded then Commits(RemoteApplied(Content(), r, text, deleted), syncs) else None);
      if !loaded || (!deleted && |text| > TEXT_MAX) {
        return false;
      }
      ghost var clips, goal := Clips(), RemoteApplied(Content(), r, text, deleted);
      RemoteMeans(Content(), r, text, deleted);
      var c := Clipping(r, 0, |text| % 0x1_0000);
      var at := FindId(r.id);
      RemotePosition(whole, clips, r.id, at);
      if at == clippingSize {
        if deleted {
          return true;
        }
        if clippingSize >= maxPerBook {
          return false;
        }
        ok := AppendRemote(c, text, goal);
        return;
      }
      var present := index.Get(at);
      assert present == clips[at];
      if !deleted && present.rec.syncRevision == r.syncRevision && !present.rec.pendingUpload {
        return true;
      }
      ok := ChangeAt(at, c, text, deleted, goal);
    }

    // ---- Sync marks ----

    /** The clippings that memory and card together hold, saved or not. */
    ghost function Entries(): (es: seq<Entry>)
      reads this, index, index.blocks
      requires Shape() && Rewritable(None, 0)
      ensures |es| == clippingSize
    {
      EntriesOf(whole, Clips())
    }

    /** Gives record at new marks; its text stays where it is. */
    method Remark(at: nat, r: Record)
      requires Shape() && Rewritable(None, 0) && at < clippingSize && ValidRecord(r)
      modifies index.blocks
      ensures Shape() && Rewritable(None, 0)
      ensures Entries() == old(Entries())[at := old(Entries())[at].(rec := r)]
    {
      hide CanRewrite, EntriesOf, Index.Slots, ValidRecord;
      ghost var clips := Clips();
      var clipping := index.Get(at);
      assert clipping == clips[at];
      RemarkPlan(whole, clips, at, r);
      index.Set(at, clipping.(rec := r));
      assert Clips() == clips[at := clips[at].(rec := r)];
    }

    method RecordAt(at: nat) returns (r: Record)
      requires Shape() && Rewritable(None, 0) && at < clippingSize
      ensures r == Entries()[at].rec && ValidRecord(r) && |r.id| == ID_SIZE
    {
      hide Index.Slots, ValidRecord, CanRewrite, EntriesOf;
      var clipping := index.Get(at);
      r := clipping.rec;
      RecordOfContent(whole, Clips(), at);
    }

    /** A fresh id: 32 hexadecimal digits of 16 random bytes. */
    method RandomId() returns (id: seq<byte>)
      ensures HexId(id)
    {
      id := [];
      for k := 0 to 16
        invariant |id| == 2 * k
        invariant forall j :: 0 <= j < 2 * k ==> 48 <= id[j] <= 57 || 97 <= id[j] <= 102
      {
        var random: int := *;
        var value := random % 256;
        id := id + [HexDigit(value / 16), HexDigit(value % 16)];
      }
      id := id + Zeros(ID_SIZE - 32);
    }

    static function HexDigit(n: int): byte
      requires 0 <= n < 16
    {
      if n < 10 then 48 + n else 87 + n
    }

    method NameClippings() returns (changed: bool)
      requires Shape() && Rewritable(None, 0)
      modifies index.blocks
      ensures Shape() && Rewritable(None, 0) && AllNamed(old(Entries()), Entries())
      ensures !changed ==> Entries() == old(Entries())
    {
      hide Index.Slots, ValidRecord, HexId, Named, Rewritable, Entries;
      ghost var before := Entries();
      changed := false;
      for i := 0 to clippingSize
        invariant Shape() && Rewritable(None, 0)
        invariant Entries()[i..] == before[i..]
        invariant forall j :: 0 <= j < i ==> Named(before[j], Entries()[j])
        invariant !changed ==> Entries() == before
      {
        ghost var now := Entries();
        assert now[i] == now[i..][0] == before[i..][0] == before[i];
        var r := RecordAt(i);
        if r.id[0] == 0 {
          var id := RandomId();
          MarkedRecordValid(r, id);
          NamedNow(now[i], id);
          Remark(i, r.(id := id));
          changed := true;
        } else {
          NamedAlready(now[i]);
        }
        assert Entries()[i + 1..] == now[i..][1..];
      }
    }

    /** Gives every clipping without a sync id a fresh one and saves; es is the content this leads to. */
    method PrepareSync() returns (ok: bool, ghost es: seq<Entry>)
      requires Valid() && !storage.dead
      modifies this`dirty, this`whole, this`missed, storage, index.blocks
      ensures Valid() && OthersKept(old(storage.files), storage.files, bookFilePath)
      ensures !loaded ==> !ok && storage.files == old(storage.files)
      ensures loaded ==> AllNamed(old(Content()), es) && (!storage.dead ==> Content() == es)
      ensures loaded ==> LoadsOldOrNew(old(storage.files), storage.files, bookFilePath, maxPerBook,
                                       Commits(es, old(storage.syncs)))
      ensures ok ==> LoadResult(storage.files, bookFilePath, maxPerBook) == Commits(es, old(storage.syncs)) ||
                     (storage.files == old(storage.files) && !old(dirty) && es == old(Content()) &&
                      (old(Sound()) ==> LoadResult(storage.files, bookFilePath, maxPerBook) == Some(es)))
      ensures loaded && !storage.dead && old(Sound()) && LoadResult(storage.files, bookFilePath, maxPerBook).Some? ==>
                Sound()
      ensures loaded && !ok && !storage.dead ==>
                LoadResult(storage.files, bookFilePath, maxPerBook) ==
                    LoadResult(old(storage.files), bookFilePath, maxPerBook)
      ensures ok ==> !dirty
      ensures storage.checks == old(storage.checks)
      ensures old(storage.Lossless()) ==> storage.Lossless()
      ensures old(storage.slips) <= storage.slips
      ensures LoadResult(old(storage.files), bookFilePath, maxPerBook).Some? ==>
                (old(storage.slips) < storage.slips <==> LoadResult(storage.files, bookFilePath, maxPerBook).None?)
      ensures old(storage.faults) <= storage.faults
      ensures (loaded && ValidBook(CurrentBook()) && storage.faults == old(storage.faults) && old(Sound())) ==> ok
    {
      hide CanRewrite, EntriesOf, Index.Slots, LoadResult, AllNamed, AllUploaded, LoadsOldOrNew, Survivor,
           EncodeStore, CardBytes;
      es := [];
      if loaded {
        var changed := NameClippings();
        dirty := dirty || changed;
        es := Content();
      }
      ok := SaveToFile();
    }

    method MarkUploaded() returns (changed: bool)
      requires Shape() && Rewritable(None, 0)
      modifies index.blocks
      ensures Shape() && Rewritable(None, 0) && Entries() == AllUploaded(old(Entries()))
      ensures !changed ==> Entries() == old(Entries())
    {
      hide Index.Slots, ValidRecord, Rewritable, Entries;
      ghost var before := Entries();
      changed := false;
      for i := 0 to clippingSize
        invariant Shape() && Rewritable(None, 0)
        invariant Entries()[i..] == before[i..]
        invariant forall j :: 0 <= j < i ==> Entries()[j] == Uploaded(before[j])
        invariant !changed ==> Entries() == before
      {
        ghost var now := Entries();
        assert now[i] == now[i..][0] == before[i..][0] == before[i];
        var r := RecordAt(i);
        if r.pendingUpload {
          MarkedRecordValid(r, []);
          Remark(i, r.(pendingUpload := false));
          changed := true;
        }
        assert Entries()[i + 1..] == now[i..][1..];
      }
    }

    /** Marks every clipping uploaded and saves. */
    method FinishUploads() returns (ok: bool)
      requires Valid() && !storage.dead
      modifies this`dirty, this`whole, this`missed, storage, index.blocks
      ensures Valid() && OthersKept(old(storage.files), storage.files, bookFilePath)
      ensures !loaded ==> !ok && storage.files == old(storage.files)
      ensures loaded && !storage.dead ==> Content() == AllUploaded(old(Content()))
      ensures loaded && !storage.dead ==> forall i :: 0 <= i < |Content()| ==>
                Content()[i] == Entry(old(Content())[i].rec.(pendingUpload := false), old(Content())[i].text)
      ensures loaded ==> LoadsOldOrNew(old(storage.files), storage.files, bookFilePath, maxPerBook,
                                       old(Commits(AllUploaded(Content()), storage.syncs)))
      ensures ok ==> loaded
      ensures ok ==>
                LoadResult(storage.files, bookFilePath, maxPerBook) ==
                    old(Commits(AllUploaded(Content()), storage.syncs)) ||
                (storage.files == old(storage.files) && !old(dirty) && AllUploaded(old(Content())) == old(Content()))
      ensures loaded && !storage.dead && old(Sound()) && LoadResult(storage.files, bookFilePath, maxPerBook).Some? ==>
                Sound()
      ensures loaded && !ok && !storage.dead ==>
                LoadResult(storage.files, bookFilePath, maxPerBook) ==
                    LoadResult(old(storage.files), bookFilePath, maxPerBook)
      ensures ok ==> !dirty
      ensures storage.checks == old(storage.checks)
      ensures old(storage.Lossless()) ==> storage.Lossless()
      ensures old(storage.slips) <= storage.slips
      ensures LoadResult(old(storage.files), bookFilePath, maxPerBook).Some? ==>
                (old(storage.slips) < storage.slips <==> LoadResult(storage.files, bookFilePath, maxPerBook).None?)
      ensures old(storage.faults) <= storage.faults
      ensures (loaded && ValidBook(CurrentBook()) && storage.faults == old(storage.faults) && old(Sound())) ==> ok
    {
      hide CanRewrite, EntriesOf, Index.Slots, LoadResult, AllNamed, AllUploaded, LoadsOldOrNew, Survivor,
           EncodeStore, CardBytes;
      UploadedOnly(if loaded then Content() else []);
      if loaded {
        var changed := MarkUploaded();
        dirty := dirty || changed;
      }
      ok := SaveToFile();
    }

    /** Saves what is unsaved, as far as that works, and forgets the book. */
    method Unload()
      requires Valid() && !storage.dead
      modifies this, storage, index, index.blocks
      ensures Valid() && !loaded && index.blocks == []
      ensures OthersKept(old(storage.files), storage.files, old(bookFilePath))
      ensures old(loaded) ==>
                LoadsOldOrNew(old(storage.files), storage.files, old(bookFilePath), maxPerBook,
                              old(Commits(Content(), storage.syncs)))
      ensures !old(loaded) ==> storage.files == old(storage.files)
      ensures storage.checks == old(storage.checks)
      ensures old(storage.Lossless()) ==> storage.Lossless()
      ensures old(storage.slips) <= storage.slips
      ensures LoadResult(old(storage.files), old(bookFilePath), maxPerBook).Some? ==>
                (old(storage.slips) < storage.slips <==>
                 LoadResult(storage.files, old(bookFilePath), maxPerBook).None?)
      ensures old(storage.faults) <= storage.faults
      ensures (old(loaded) && old(Sound()) && ValidBook(old(CurrentBook())) && storage.faults == old(storage.faults) &&
               old(Keeps(Content(), storage.syncs))) ==>
                LoadResult(storage.files, old(bookFilePath), maxPerBook) == Some(old(Content()))
    {
      hide CanRewrite, EntriesOf, Index.Slots, LoadResult, Survivor, EncodeStore, CardBytes;
      if loaded {
        LoadsUnchanged(storage.files, bookFilePath, maxPerBook, Commits(Content(), storage.syncs));
      }
      if dirty {
        var saved := SaveToFile();
      }
      Reset();
      bookFilePath, bookTitle, bookAuthor := [], [], [];
    }

    // ---- Reporting deletions to the sync server ----

    ghost function JournaledIds(): seq<seq<byte>>
      reads this, storage
    {
      JournalIds(Journal(storage.files, bookFilePath))
    }

    /** Opens the journal and cuts off a torn id at its end. Closing it again loses nothing, as nothing is written. */
    method OpenJournal() returns (ok: bool)
      requires Valid() && loaded && !storage.dead && Name(bookFilePath, Deleted) in storage.files
      modifies storage`files, storage`dead, storage`faults
      ensures Valid() && JournaledIds() == old(JournaledIds())
      ensures SameExcept(old(storage.files), storage.files, {Name(bookFilePath, Deleted)})
      ensures !storage.dead ==> Content() == old(Content()) && Sound() == old(Sound())
      ensures ok ==> !storage.dead && Name(bookFilePath, Deleted) in storage.files &&
                     |storage.files[Name(bookFilePath, Deleted)]| % ID_SIZE == 0
      ensures old(storage.faults) <= storage.faults
      ensures storage.faults == old(storage.faults) ==> ok
    {
      hide CanRewrite, EntriesOf, Index.Slots, LoadResult, JournalIds;
      ghost var before := storage.files;
      var journal := Name(storeFilePath.value, Deleted);
      ok := storage.OpenForRead(journal);
      if ok {
        var next;
        ok, next := TruncateDeletionTail(Handle(journal, |storage.files[journal]|));
      }
      JournalOnly(before, storage.files, bookFilePath, maxPerBook);
    }

    /**
     * Reads the journal from offset on and stops behind the first id that no stored clipping carries;
     * an empty id means that none is left, or that the check for the journal failed.
     */
    method NextDeletion(offset: nat) returns (ok: bool, id: seq<byte>, next: nat)
      requires Valid() && loaded && !storage.dead
      modifies storage`files, storage`dead, storage`faults, storage`checks
      ensures Valid() && JournaledIds() == old(JournaledIds())
      ensures SameExcept(old(storage.files), storage.files, {Name(bookFilePath, Deleted)})
      ensures !storage.dead ==> Content() == old(Content()) && Sound() == old(Sound())
      ensures ok ==> !storage.dead
      ensures storage.checks == Rest(old(storage.checks)) && (old(storage.Sighted()) ==> storage.Sighted())
      ensures ok && Works(old(storage.checks), 0) && offset % ID_SIZE == 0 && offset / ID_SIZE <= |JournaledIds()| &&
              NamesOnly(JournaledIds()) ==>
                next % ID_SIZE == 0 &&
                Reports(JournaledIds(), StoredIds(old(Content())), offset / ID_SIZE, next / ID_SIZE, id)
      ensures !Works(old(storage.checks), 0) ==> ok && id == [] && storage.files == old(storage.files)
      ensures old(storage.faults) <= storage.faults
      ensures (storage.faults == old(storage.faults) && offset % ID_SIZE == 0 &&
               offset / ID_SIZE <= |JournaledIds()|) ==> ok
    {
      hide CanRewrite, EntriesOf, Index.Slots, LoadResult, JournalIds, CString, Unstored, StoredIds, Reports;
      var journal := Name(storeFilePath.value, Deleted);
      ghost var ids, stored := JournaledIds(), StoredIds(Content());
      ok, id, next := true, [], offset;
      var present := storage.Exists(journal, true);
      if !present {
        NoIds();
        if offset == 0 { if ids == [] { ReportsNone(ids, stored, 0); } }
        return;
      }
      ok, id, next := ReadDeletion(offset);
    }

    /** Reads from a journal that is there. */
    method ReadDeletion(offset: nat) returns (ok: bool, id: seq<byte>, next: nat)
      requires Valid() && loaded && !storage.dead && Name(bookFilePath, Deleted) in storage.files
      modifies storage`files, storage`dead, storage`faults
      ensures Valid() && JournaledIds() == old(JournaledIds())
      ensures SameExcept(old(storage.files), storage.files, {Name(bookFilePath, Deleted)})
      ensures !storage.dead ==> Content() == old(Content()) && Sound() == old(Sound())
      ensures ok ==> !storage.dead
      ensures ok && offset % ID_SIZE == 0 && offset / ID_SIZE <= |JournaledIds()| && NamesOnly(JournaledIds()) ==>
                next % ID_SIZE == 0 &&
                Reports(JournaledIds(), StoredIds(old(Content())), offset / ID_SIZE, next / ID_SIZE, id)
      ensures old(storage.faults) <= storage.faults
      ensures (storage.faults == old(storage.faults) && offset % ID_SIZE == 0 &&
               offset / ID_SIZE <= |JournaledIds()|) ==> ok
    {
      hide CanRewrite, EntriesOf, Index.Slots, LoadResult, JournalIds, CString, Unstored, StoredIds, Reports, CardBytes;
      var journal := Name(storeFilePath.value, Deleted);
      ghost var ids, stored := JournaledIds(), StoredIds(Content());
      id, next := [], offset;
      ok := OpenJournal();
      if ok {
        ok := offset % ID_SIZE == 0;
      }
      if ok {
        ok := storage.Seek(journal, offset);
      }
      if ok {
        ok, id, next := ScanJournal(journal, offset, ids, stored);
      }
    }

    method ScanJournal(journal: Name, offset: nat, ghost ids: seq<seq<byte>>, ghost stored: seq<seq<byte>>)
      returns (ok: bool, id: seq<byte>, next: nat)
      requires Shape() && Rewritable(None, 0) && !storage.dead && stored == StoredIds(Entries())
      requires journal in storage.files && offset % ID_SIZE == 0 && offset <= |storage.files[journal]|
      requires |storage.files[journal]| % ID_SIZE == 0 && ids == JournalIds(storage.files[journal])
      modifies storage`faults
      ensures ok && NamesOnly(ids) ==>
                next % ID_SIZE == 0 && Reports(ids, stored, offset / ID_SIZE, next / ID_SIZE, id)
      ensures old(storage.faults) <= storage.faults
      ensures storage.faults == old(storage.faults) ==> ok
    {
      hide CanRewrite, EntriesOf, Index.Slots, JournalIds, CString, Unstored, StoredIds, Reports;
      var bytes := storage.files[journal];
      ghost var from := offset / ID_SIZE;
      ghost var k := from;
      next := offset;
      while next < |bytes|
        invariant from <= k <= |ids| && next == ID_SIZE * k
        invariant NamesOnly(ids) ==> forall i :: from <= i < k ==> CString(ids[i]) in stored
        invariant old(storage.faults) <= storage.faults
      {
        ok, id := storage.Read(journal, next, ID_SIZE);
        if !ok {
          return;
        }
        JournalAt(bytes, k);
        next := next + ID_SIZE;
        id := Terminate(id);
        assert NamesOnly(ids) ==> id == ids[k];
        var at := FindId(id);
        StoredMember(whole, Clips(), CString(id));
        if at == clippingSize {
          if NamesOnly(ids) { ReportsNext(ids, stored, from, k); }
          id := CString(id);
          return;
        }
        k := k + 1;
      }
      id := [];
      if NamesOnly(ids) { ReportsNone(ids, stored, from); }
      ok := true;
    }

    /**
     * What a sync sends: every deletion from the start of the journal on, until none is left, a call fails or
     * the server, which acknowledges reach requests, does not answer. The deletions acknowledged are journaled
     * ids that no stored clipping carries, in journal order; at the end of a finished report they are all of
     * them, unless the check for the journal failed after these.
     */
    method ReportDeletions(reach: nat) returns (ok: bool, reported: seq<seq<byte>>)
      requires Valid() && loaded && !storage.dead && NamesOnly(JournaledIds())
      modifies storage`files, storage`dead, storage`faults, storage`checks
      ensures Valid() && JournaledIds() == old(JournaledIds())
      ensures SameExcept(old(storage.files), storage.files, {Name(bookFilePath, Deleted)})
      ensures !storage.dead ==> Content() == old(Content()) && Sound() == old(Sound())
      ensures reported <= Unstored(JournaledIds(), StoredIds(old(Content()))) && |reported| <= reach
      ensures forall n :: 0 <= n < |reported| ==> Works(old(storage.checks), n)
      ensures ok ==> !storage.dead && storage.checks == Behind(old(storage.checks), |reported| + 1)
      ensures ok && Works(old(storage.checks), |reported|) ==>
                reported == Unstored(JournaledIds(), StoredIds(old(Content())))
      ensures !Works(old(storage.checks), 0) ==> ok && reported == []
      ensures old(storage.Sighted()) ==> storage.Sighted()
      ensures old(storage.faults) <= storage.faults
      ensures (storage.faults == old(storage.faults) &&
               |Unstored(JournaledIds(), StoredIds(old(Content())))| <= reach) ==> ok
    {
      hide CanRewrite, EntriesOf, Index.Slots, LoadResult, JournalIds, CString, Unstored, StoredIds, Works,
           Behind, Rest;
      ghost var ids, stored, checks := JournaledIds(), StoredIds(Content()), storage.checks;
      var offset := 0;
      reported := [];
      NothingReported(ids, stored);
      NothingTaken(checks);
      while true
        invariant Valid() && loaded && !storage.dead && JournaledIds() == ids
        invariant SameExcept(old(storage.files), storage.files, {Name(bookFilePath, Deleted)})
        invariant Content() == old(Content()) && Sound() == old(Sound())
        invariant offset % ID_SIZE == 0 && offset / ID_SIZE <= |ids|
        invariant reported == Unstored(ids[..offset / ID_SIZE], stored) && |reported| <= reach
        invariant storage.checks == Behind(checks, |reported|)
        invariant forall n :: 0 <= n < |reported| ==> Works(checks, n)
        invariant old(storage.Sighted()) ==> storage.Sighted()
        invariant old(storage.faults) <= storage.faults
        decreases |ids| - offset / ID_SIZE
      {
        WorksBehind(checks, |reported|);
        UnstoredGrows(ids, stored, offset / ID_SIZE);
        var id, next;
        ok, id, next := NextDeletion(offset);
        if !ok || id == [] {
          return;
        }
        UnstoredGrows(ids, stored, next / ID_SIZE);
        if |reported| == reach {
          return false, reported;
        }
        reported := reported + [id];
        offset := next;
      }
    }

    static lemma NothingTaken(checks: seq<bool>)
      ensures Behind(checks, 0) == checks
    {
    }

    /** Forgets the journal once the server has acknowledged every deletion; if the check for it fails, it stays. */
    method FinishDeletions() returns (ok: bool)
      requires Valid() && loaded && !storage.dead
      modifies storage`files, storage`dead, storage`faults, storage`checks
      ensures Valid() && SameExcept(old(storage.files), storage.files, {Name(bookFilePath, Deleted)})
      ensures JournaledIds() == [] || JournaledIds() == old(JournaledIds())
      ensures ok && Works(old(storage.checks), 0) ==> JournaledIds() == []
      ensures !Works(old(storage.checks), 0) ==> ok && storage.files == old(storage.files)
      ensures !storage.dead ==> Content() == old(Content()) && Sound() == old(Sound())
      ensures ok ==> !storage.dead
      ensures old(storage.Sighted()) ==> storage.Sighted()
      ensures old(storage.faults) <= storage.faults
      ensures storage.faults == old(storage.faults) ==> ok
    {
      hide CanRewrite, EntriesOf, Index.Slots, LoadResult, JournalIds;
      NoIds();
      var journal := Name(storeFilePath.value, Deleted);
      ghost var before := storage.files;
      ok := true;
      var present := storage.Exists(journal, true);
      if present {
        ok := storage.Remove(journal);
      }
      JournalOnly(before, storage.files, bookFilePath, maxPerBook);
    }
  }
}
