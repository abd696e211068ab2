/**
 * The copy of a font file in the inactive firmware slot: NOR flash that erases to 0xFF by sectors and on
 * which writing only clears bits, and the order of erases and writes that commits a copy.
 */
module FlashCopy {
  import opened Bytes
  import opened Options
  import opened FlashFormat

  const ERASE_SIZE: nat := 4096
  const CHUNK_SIZE: nat := 4096
  const ERASE_BLOCK_SIZE: nat := 65536

  // ---- Flash cells ----

  /** Bitwise and of the low n bits. */
  function And(a: nat, b: nat, n: nat): (r: nat)
    ensures r <= a && r <= b
    decreases n
  {
    if n == 0 then 0 else (if a % 2 == 1 && b % 2 == 1 then 1 else 0) + 2 * And(a / 2, b / 2, n - 1)
  }

  function Pow2(n: nat): (p: nat)
    ensures p > 0
  {
    if n == 0 then 1 else 2 * Pow2(n - 1)
  }

  lemma AndStep(half: nat, b: nat, n: nat)
    requires n > 0
    ensures And(2 * half + 1, b, n) == b % 2 + 2 * And(half, b / 2, n - 1)
  {
    assert (2 * half + 1) / 2 == half && (2 * half + 1) % 2 == 1;
  }

  /** Writing onto cells whose bits are all set stores the value itself. */
  lemma {:induction false} AndOfOnes(b: nat, n: nat)
    requires b < Pow2(n)
    ensures And(Pow2(n) - 1, b, n) == b
  {
    if n > 0 {
      var p := Pow2(n - 1);
      AndOfOnes(b / 2, n - 1);
      assert Pow2(n) - 1 == 2 * (p - 1) + 1;
      AndStep(p - 1, b, n);
    }
  }

  function Programmed(cell: byte, b: byte): byte { And(cell, b, 8) }

  lemma ErasedCellTakes(b: byte)
    ensures Programmed(255, b) == b
  {
    assert Pow2(4) == 16 && Pow2(8) == 256 by { assert Pow2(6) == 64; }
    AndOfOnes(b, 8);
  }

  function AfterErase(data: seq<byte>, offset: nat, length: nat): (d: seq<byte>)
    requires offset + length <= |data|
    ensures |d| == |data|
  {
    data[..offset] + seq(length, _ => 255) + data[offset + length..]
  }

  function AfterWrite(data: seq<byte>, offset: nat, bytes: seq<byte>): (d: seq<byte>)
    requires offset + |bytes| <= |data|
    ensures |d| == |data|
  {
    data[..offset] +
    seq(|bytes|, i requires 0 <= i < |bytes| => Programmed(data[offset + i], bytes[i])) +
    data[offset + |bytes|..]
  }

  predicate Erased(data: seq<byte>, from: nat, to: nat)
    requires from <= to <= |data|
  {
    forall i :: from <= i < to ==> data[i] == 255
  }

  lemma WriteOntoErased(data: seq<byte>, offset: nat, bytes: seq<byte>)
    requires offset + |bytes| <= |data| && Erased(data, offset, offset + |bytes|)
    ensures AfterWrite(data, offset, bytes) == data[..offset] + bytes + data[offset + |bytes|..]
  {
    hide And, Programmed;
    forall i | 0 <= i < |bytes| ensures Programmed(data[offset + i], bytes[i]) == bytes[i] {
      ErasedCellTakes(bytes[i]);
    }
  }

  // ---- The log of flash operations ----

  datatype FlashOp = Erase(offset: nat, length: nat) | Write(offset: nat, length: nat)

  predicate Apart(a: FlashOp, b: FlashOp)
  {
    a.offset + a.length <= b.offset || b.offset + b.length <= a.offset
  }

  predicate Touches(op: FlashOp, pos: nat) { op.offset <= pos < op.offset + op.length }

  /** Some erase of the log touched the cell. */
  predicate ErasedIn(log: seq<FlashOp>, pos: nat)
  {
    exists i :: 0 <= i < |log| && log[i].Erase? && Touches(log[i], pos)
  }

  /**
   * Operations stay inside the slot; a write only goes onto cells erased before it and not written since;
   * an erase never takes back a cell that was written.
   */
  ghost predicate Disciplined(log: seq<FlashOp>, size: nat)
  {
    (forall i :: 0 <= i < |log| ==> log[i].offset + log[i].length <= size) &&
    (forall i, j :: 0 <= i < j < |log| && log[i].Write? ==> Apart(log[i], log[j])) &&
    forall j, pos :: 0 <= j < |log| && log[j].Write? && Touches(log[j], pos) ==> ErasedIn(log[..j], pos)
  }

  lemma DisciplineErase(log: seq<FlashOp>, size: nat, offset: nat, length: nat)
    requires Disciplined(log, size) && offset + length <= size
    requires forall i :: 0 <= i < |log| && log[i].Write? ==> Apart(log[i], Erase(offset, length))
    ensures Disciplined(log + [Erase(offset, length)], size)
  {
    var longer := log + [Erase(offset, length)];
    forall j, pos | 0 <= j < |longer| && longer[j].Write? && Touches(longer[j], pos)
      ensures ErasedIn(longer[..j], pos) {
      assert longer[..j] == log[..j];
    }
  }

  lemma DisciplineWrite(log: seq<FlashOp>, size: nat, offset: nat, length: nat)
    requires Disciplined(log, size) && offset + length <= size
    requires forall i :: 0 <= i < |log| && log[i].Write? ==> Apart(log[i], Write(offset, length))
    requires forall pos :: offset <= pos < offset + length ==> ErasedIn(log, pos)
    ensures Disciplined(log + [Write(offset, length)], size)
  {
    var longer := log + [Write(offset, length)];
    forall j, pos | 0 <= j < |longer| && longer[j].Write? && Touches(longer[j], pos)
      ensures ErasedIn(longer[..j], pos) {
      assert longer[..j] == log[..j];
    }
  }

  lemma ErasedStays(log: seq<FlashOp>, op: FlashOp, pos: nat)
    ensures ErasedIn(log, pos) ==> ErasedIn(log + [op], pos)
    ensures op.Erase? && Touches(op, pos) ==> ErasedIn(log + [op], pos)
  {
    var longer := log + [op];
    if ErasedIn(log, pos) {
      var i :| 0 <= i < |log| && log[i].Erase? && Touches(log[i], pos);
      assert longer[i] == log[i];
    }
    assert longer[|log|] == op;
  }

  // ---- What a copy means ----

  /** The first n payload bytes have the checksum of that much of content; with `exact` they are those bytes. */
  ghost predicate PayloadIs(data: seq<byte>, content: seq<byte>, n: nat, exact: bool)
    requires HEADER_AREA_SIZE + n <= |data| && n <= |content|
  {
    var payload := data[HEADER_AREA_SIZE..HEADER_AREA_SIZE + n];
    Crc32(payload) == Crc32(content[..n]) && (exact ==> payload == content[..n])
  }

  /** data holds a valid header that names path, and behind it that much of content. */
  ghost predicate CopyOf(data: seq<byte>, path: seq<byte>, content: seq<byte>, exact: bool)
  {
    var header := SlotHeader(data);
    header.Some? &&
    var h := header.value;
    CPath(h.sourcePath) == path && h.sourceSize == |content| && h.payloadSize <= |content| &&
    HEADER_AREA_SIZE + h.payloadSize <= |data| && PayloadIs(data, content, h.payloadSize, exact) &&
    h.payloadCrc == Crc32(content[..h.payloadSize]) as nat &&
    IdentityOf(path, content).Some? && h.contentHash == IdentityOf(path, content).value.contentHash &&
    IdentityOf(path, content).value.regularEnd <= h.payloadSize
  }

  /** A valid header is the header of a copy of one of the given files. */
  ghost predicate Trustworthy(data: seq<byte>, files: set<(seq<byte>, seq<byte>)>, exact: bool)
  {
    SlotHeader(data).Some? ==> exists f :: f in files && CopyOf(data, f.0, f.1, exact)
  }

  lemma HeaderAreaDecides(before: seq<byte>, after: seq<byte>)
    requires |before| == |after| > HEADER_AREA_SIZE && before[..HEADER_SIZE] == after[..HEADER_SIZE]
    ensures SlotHeader(after) == SlotHeader(before)
  {
  }

  lemma ErasedHeaderInvalid(data: seq<byte>)
    requires |data| > HEADER_AREA_SIZE && Erased(data, 0, HEADER_AREA_SIZE)
    ensures SlotHeader(data).None?
  {
    var h := DecodeHeader(data[..HEADER_SIZE]);
    assert h.magic[0] == data[0] == 255;
  }

  /**
   * A range operation that may have been cut short: anything may be left inside the range, but a valid
   * header only if it is the one from before or the one just written. (A torn header is told from a whole
   * one by its checksum; the checksum is taken to be collision-free for torn headers.)
   */
  predicate Torn(before: seq<byte>, after: seq<byte>, whole: seq<byte>, offset: nat, length: nat)
    requires |whole| == |before| && offset + length <= |before|
  {
    |after| == |before| && after[..offset] == before[..offset] &&
    after[offset + length..] == before[offset + length..] &&
    (SlotHeader(after).Some? ==>
      after[..HEADER_SIZE] == before[..HEADER_SIZE] || after[..HEADER_SIZE] == whole[..HEADER_SIZE])
  }

  lemma TornNothing(before: seq<byte>, whole: seq<byte>, offset: nat, length: nat)
    requires |whole| == |before| && offset + length <= |before|
    ensures Torn(before, before, whole, offset, length)
  {
  }

  /** What a range operation leaves: all of it when it reports success, else a torn range. */
  predicate RangeResult(ok: bool, before: seq<byte>, after: seq<byte>, whole: seq<byte>, offset: nat, length: nat)
    requires |whole| == |before| && offset + length <= |before|
  {
    if ok then after == whole else Torn(before, after, whole, offset, length)
  }

  predicate EraseAccepted(size: nat, offset: nat, length: nat)
  {
    offset + length <= size && offset % ERASE_SIZE == 0 && length % ERASE_SIZE == 0
  }

  datatype PreloadResult =
    | Ok | AlreadyCached | OpenFailed | InvalidFont | TooLarge | NotSafe | Oom | EraseFailed | ReadFailed
                  | WriteFailed | VerifyFailed

  // ---- The state between the first erase and the header ----

  predicate WritesWithin(log: seq<FlashOp>, from: nat, to: nat)
  {
    forall i :: 0 <= i < |log| && log[i].Write? ==> from <= log[i].offset && log[i].offset + log[i].length <= to
  }

  predicate ErasedUpTo(log: seq<FlashOp>, to: nat)
  {
    forall pos :: 0 <= pos < to ==> ErasedIn(log, pos)
  }

  /**
   * The header area is erased, offset bytes of the payload have been written (and are in place, when no cell
   * misprinted: exact), and the slot is erased up to `erased`.
   */
  ghost predicate Copying(data: seq<byte>, log: seq<FlashOp>, content: seq<byte>, offset: nat, erased: nat, exact: bool)
  {
    offset <= erased && offset <= |content| && HEADER_AREA_SIZE + erased <= |data| && |data| > HEADER_AREA_SIZE &&
    Erased(data, 0, HEADER_AREA_SIZE) &&
    (exact ==> data[HEADER_AREA_SIZE..HEADER_AREA_SIZE + offset] == content[..offset]) &&
    Erased(data, HEADER_AREA_SIZE + offset, HEADER_AREA_SIZE + erased) &&
    Disciplined(log, |data|) && WritesWithin(log, HEADER_AREA_SIZE, HEADER_AREA_SIZE + offset) &&
    ErasedUpTo(log, HEADER_AREA_SIZE + erased)
  }

  /** Where a stopped copy leaves the slot: no valid header, and the log still disciplined. */
  ghost predicate Invalidated(data: seq<byte>, log: seq<FlashOp>)
  {
    SlotHeader(data).None? && Disciplined(log, |data|)
  }

  lemma EraseExtends(log: seq<FlashOp>, size: nat, from: nat, length: nat, lo: nat)
    requires Disciplined(log, size) && WritesWithin(log, lo, from) && ErasedUpTo(log, from) && from + length <= size
    ensures var longer := log + [Erase(from, length)];
            Disciplined(longer, size) && WritesWithin(longer, lo, from) && ErasedUpTo(longer, from + length)
  {
    hide Disciplined, ErasedIn;
    var op := Erase(from, length);
    DisciplineErase(log, size, from, length);
    forall pos | 0 <= pos < from + length ensures ErasedIn(log + [op], pos) {
      ErasedStays(log, op, pos);
    }
  }

  lemma WriteExtends(log: seq<FlashOp>, size: nat, from: nat, length: nat, lo: nat, erased: nat)
    requires Disciplined(log, size) && WritesWithin(log, lo, from) && ErasedUpTo(log, erased)
    requires lo <= from && from + length <= erased <= size
    ensures var longer := log + [Write(from, length)];
            Disciplined(longer, size) && WritesWithin(longer, lo, from + length) && ErasedUpTo(longer, erased)
  {
    hide Disciplined, ErasedIn;
    var op := Write(from, length);
    DisciplineWrite(log, size, from, length);
    forall pos | 0 <= pos < erased ensures ErasedIn(log + [op], pos) {
      ErasedStays(log, op, pos);
    }
  }

  lemma CopyErase(data: seq<byte>, log: seq<FlashOp>, content: seq<byte>, offset: nat, length: nat, exact: bool)
    requires Copying(data, log, content, offset, offset, exact) && HEADER_AREA_SIZE + offset + length <= |data|
    ensures Copying(AfterErase(data, HEADER_AREA_SIZE + offset, length),
                    log + [Erase(HEADER_AREA_SIZE + offset, length)], content, offset, offset + length, exact)
  {
    hide Disciplined, ErasedUpTo, WritesWithin;
    EraseExtends(log, |data|, HEADER_AREA_SIZE + offset, length, HEADER_AREA_SIZE);
    var after := AfterErase(data, HEADER_AREA_SIZE + offset, length);
    assert after[HEADER_AREA_SIZE..HEADER_AREA_SIZE + offset] == data[HEADER_AREA_SIZE..HEADER_AREA_SIZE + offset];
  }

  /** The next chunk written onto erased flash; a misprint leaves anything in its range. */
  lemma CopyWrite(before: seq<byte>, after: seq<byte>, log: seq<FlashOp>, content: seq<byte>, offset: nat, length: nat,
                  erased: nat, exact: bool, exactNow: bool)
    requires Copying(before, log, content, offset, erased, exact)
    requires offset + length <= erased && offset + length <= |content| && |after| == |before|
    requires var p := HEADER_AREA_SIZE + offset;
             after[..p] == before[..p] && after[p + length..] == before[p + length..]
    requires exactNow ==>
               exact && after == AfterWrite(before, HEADER_AREA_SIZE + offset, content[offset..offset + length])
    ensures Copying(after, log + [Write(HEADER_AREA_SIZE + offset, length)], content, offset + length, erased, exactNow)
  {
    hide Disciplined, ErasedUpTo, WritesWithin, AfterWrite;
    WriteExtends(log, |before|, HEADER_AREA_SIZE + offset, length, HEADER_AREA_SIZE, HEADER_AREA_SIZE + erased);
    OutsideStays(before, after, HEADER_AREA_SIZE + offset, length, HEADER_AREA_SIZE + erased);
    if exactNow {
      WriteOntoErased(before, HEADER_AREA_SIZE + offset, content[offset..offset + length]);
      PayloadGrows(before, content, offset, length);
    }
  }

  lemma OutsideStays(before: seq<byte>, after: seq<byte>, p: nat, length: nat, end: nat)
    requires |before| == |after| && HEADER_AREA_SIZE <= p && p + length <= end <= |before|
    requires after[..p] == before[..p] && after[p + length..] == before[p + length..]
    requires Erased(before, 0, HEADER_AREA_SIZE) && Erased(before, p, end)
    ensures Erased(after, 0, HEADER_AREA_SIZE) && Erased(after, p + length, end)
  {
    forall i | 0 <= i < HEADER_AREA_SIZE ensures after[i] == 255 {
      assert after[i] == after[..p][i] == before[..p][i];
    }
    forall i | p + length <= i < end ensures after[i] == 255 {
      assert after[i] == after[p + length..][i - p - length] == before[p + length..][i - p - length];
    }
  }

  lemma PayloadGrows(data: seq<byte>, content: seq<byte>, offset: nat, length: nat)
    requires HEADER_AREA_SIZE + offset + length <= |data| && offset + length <= |content|
    requires data[HEADER_AREA_SIZE..HEADER_AREA_SIZE + offset] == content[..offset]
    ensures var p := HEADER_AREA_SIZE + offset;
            var after := data[..p] + content[offset..offset + length] + data[p + length..];
            after[HEADER_AREA_SIZE..p + length] == content[..offset + length]
  {
    var p := HEADER_AREA_SIZE + offset;
    var after := data[..p] + content[offset..offset + length] + data[p + length..];
    assert after[HEADER_AREA_SIZE..p + length] == data[HEADER_AREA_SIZE..p] + content[offset..offset + length];
    assert content[..offset + length] == content[..offset] + content[offset..offset + length];
  }

  /** An operation behind the header area that stops half-way leaves no valid header. */
  lemma TornPayload(before: seq<byte>, after: seq<byte>, whole: seq<byte>, offset: nat, length: nat, log: seq<FlashOp>)
    requires |before| == |whole| && HEADER_AREA_SIZE <= offset && offset + length <= |before| &&
             HEADER_AREA_SIZE < |before|
    requires Torn(before, after, whole, offset, length) && Erased(before, 0, HEADER_AREA_SIZE)
    requires Disciplined(log, |before|)
    ensures Invalidated(after, log)
  {
    hide SlotHeader, Disciplined, Erased;
    assert before[..HEADER_SIZE] == before[..offset][..HEADER_SIZE] == after[..offset][..HEADER_SIZE] ==
        after[..HEADER_SIZE];
    HeaderAreaDecides(before, after);
    ErasedHeaderInvalid(before);
  }

  lemma CrcOfNothing(content: seq<byte>)
    ensures Crc(0xFFFF_FFFF, content[..0]) == 0xFFFF_FFFF
  {
  }

  lemma SliceGrows(s: seq<byte>, from: nat, mid: nat, to: nat)
    requires from <= mid <= to <= |s|
    ensures s[from..to] == s[from..mid] + s[mid..to]
  {
  }

  lemma CrcFinished(bytes: seq<byte>, crc: bv32)
    requires crc == Crc(0xFFFF_FFFF, bytes)
    ensures crc ^ 0xFFFF_FFFF == Crc32(bytes)
  {
  }

  lemma CopyingBounds(data: seq<byte>, log: seq<FlashOp>, content: seq<byte>, offset: nat, erased: nat, exact: bool)
    requires Copying(data, log, content, offset, erased, exact)
    ensures offset <= erased && offset <= |content| && HEADER_AREA_SIZE + erased <= |data| && HEADER_AREA_SIZE < |data|
    ensures exact ==> data[HEADER_AREA_SIZE..HEADER_AREA_SIZE + offset] == content[..offset]
    ensures Erased(data, 0, HEADER_AREA_SIZE)
  {
  }

  lemma InvalidatedMeans(data: seq<byte>, log: seq<FlashOp>)
    requires Invalidated(data, log)
    ensures SlotHeader(data).None? && Disciplined(log, |data|)
  {
  }

  lemma CopyingInvalid(data: seq<byte>, log: seq<FlashOp>, content: seq<byte>, offset: nat, erased: nat, exact: bool)
    requires Copying(data, log, content, offset, erased, exact)
    ensures Invalidated(data, log)
  {
    hide SlotHeader, Disciplined;
    ErasedHeaderInvalid(data);
  }

  // ---- The first erase and the header ----

  lemma HeaderErased(data: seq<byte>, content: seq<byte>)
    requires |data| > HEADER_AREA_SIZE
    ensures Copying(AfterErase(data, 0, HEADER_AREA_SIZE), [Erase(0, HEADER_AREA_SIZE)], content, 0, 0, true)
  {
    hide ErasedIn, SlotHeader;
    EraseExtends([], |data|, 0, HEADER_AREA_SIZE, HEADER_AREA_SIZE);
    assert [] + [Erase(0, HEADER_AREA_SIZE)] == [Erase(0, HEADER_AREA_SIZE)];
  }

  lemma SameBehind(before: seq<byte>, after: seq<byte>, from: nat, a: nat, b: nat)
    requires from <= a <= b <= |before| && |after| == |before| && after[from..] == before[from..]
    ensures after[a..b] == before[a..b]
  {
    forall i | a <= i < b ensures after[i] == before[i] {
      assert after[i] == after[from..][i - from] == before[from..][i - from];
    }
  }

  /** Cut while the header sector is erased, the slot holds the old copy or none. */
  lemma HeaderTorn(before: seq<byte>, after: seq<byte>, known: set<(seq<byte>, seq<byte>)>, exact: bool)
    requires |before| > HEADER_AREA_SIZE && Trustworthy(before, known, exact)
    requires Torn(before, after, AfterErase(before, 0, HEADER_AREA_SIZE), 0, HEADER_AREA_SIZE)
    ensures Trustworthy(after, known, exact)
  {
    hide SlotHeader, IdentityOf, Crc32, CPath;
    var whole := AfterErase(before, 0, HEADER_AREA_SIZE);
    ErasedHeaderInvalid(whole);
    if SlotHeader(after).Some? {
      if after[..HEADER_SIZE] == whole[..HEADER_SIZE] {
        HeaderAreaDecides(whole, after);
      }
      HeaderAreaDecides(before, after);
      var f :| f in known && CopyOf(before, f.0, f.1, exact);
      var end := HEADER_AREA_SIZE + SlotHeader(after).value.payloadSize;
      SameBehind(before, after, HEADER_AREA_SIZE, HEADER_AREA_SIZE, end);
      assert CopyOf(after, f.0, f.1, exact);
    }
  }

  function NewHeader(path: seq<byte>, id: Identity, payloadSize: nat, payloadCrc: nat): (h: Header)
    requires |path| < PATH_SIZE
    ensures |h.magic| == 8 && |h.sourcePath| == PATH_SIZE
  {
    var h := Header(MAGIC, FORMAT_VERSION, HEADER_SIZE, payloadSize, id.size, id.contentHash, payloadCrc, 0,
                    PadPath(path));
    h.(headerCrc := HeaderCrc(h))
  }

  lemma NewHeaderStorable(path: seq<byte>, id: Identity, payloadSize: nat, payloadCrc: nat)
    requires |path| < PATH_SIZE && payloadSize <= id.size < U32 && id.contentHash < U32 && payloadCrc < U32
    ensures Storable(NewHeader(path, id, payloadSize, payloadCrc))
  {
    hide HeaderCrc, PadPath;
    Pow256Values();
    var h := NewHeader(path, id, payloadSize, payloadCrc);
    var numbers, widths := HeaderNumbers(h), HEADER_WIDTHS;
    assert |numbers| == |widths| == 7;
    assert forall i :: 0 <= i < 7 ==> numbers[i] < Pow256(widths[i]);
  }

  /** The written header reads back as the valid header of the slot. */
  lemma HeaderReadsBack(data: seq<byte>, path: seq<byte>, id: Identity, payloadSize: nat, payloadCrc: nat)
    requires |path| < PATH_SIZE && payloadSize <= id.size < U32 && id.contentHash < U32 && payloadCrc < U32
    requires 0 < payloadSize <= PayloadCapacity(|data|) && |data| > HEADER_AREA_SIZE
    requires data[..HEADER_SIZE] == EncodeHeader(NewHeader(path, id, payloadSize, payloadCrc))
    ensures SlotHeader(data) == Some(NewHeader(path, id, payloadSize, payloadCrc))
  {
    hide EncodeHeader, DecodeHeader, PadPath, Crc32;
    var h := NewHeader(path, id, payloadSize, payloadCrc);
    NewHeaderStorable(path, id, payloadSize, payloadCrc);
    DecodeOfEncodeHeader(h);
    assert h.(headerCrc := 0).(headerCrc := 0) == h.(headerCrc := 0);
  }

  /** Writing the header turns an erased header and a whole payload into a copy. */
  lemma HeaderCommits(before: seq<byte>, after: seq<byte>, path: seq<byte>, content: seq<byte>, payloadSize: nat,
                      exact: bool)
    requires IdentityOf(path, content).Some? && 0 !in path && |content| < U32
    requires var id := IdentityOf(path, content).value;
             id.regularEnd <= payloadSize <= |content| && payloadSize <= PayloadCapacity(|before|)
    requires HEADER_AREA_SIZE + payloadSize <= |before| && |after| == |before| && |path| < PATH_SIZE
    requires PayloadIs(before, content, payloadSize, exact)
    requires after[HEADER_SIZE..] == before[HEADER_SIZE..]
    requires after[..HEADER_SIZE] ==
               EncodeHeader(NewHeader(path, IdentityOf(path, content).value, payloadSize,
                                      Crc32(content[..payloadSize]) as nat))
    ensures CopyOf(after, path, content, exact) && SlotHeader(after).value.payloadSize == payloadSize
  {
    hide SlotHeader, IdentityOf, Crc32, CPath, EncodeHeader, HeaderCrc, PadPath;
    IdentityFacts(path, content);
    var id, crc := IdentityOf(path, content).value, Crc32(content[..payloadSize]) as nat;
    HeaderReadsBack(after, path, id, payloadSize, crc);
    CPathOfPadded(path, PadPath(path));
    SameBehind(before, after, HEADER_SIZE, HEADER_AREA_SIZE, HEADER_AREA_SIZE + payloadSize);
  }

  /** Whatever a cut leaves of the header write, a valid header names a copy. */
  lemma HeaderWriteOutcome(before: seq<byte>, after: seq<byte>, path: seq<byte>, content: seq<byte>,
                           payloadSize: nat, exact: bool)
    requires IdentityOf(path, content).Some? && 0 !in path && |content| < U32 && |path| < PATH_SIZE
    requires var id := IdentityOf(path, content).value;
             id.regularEnd <= payloadSize <= |content| && payloadSize <= PayloadCapacity(|before|)
    requires HEADER_AREA_SIZE + payloadSize <= |before| && Erased(before, 0, HEADER_AREA_SIZE)
    requires PayloadIs(before, content, payloadSize, exact)
    requires var h := NewHeader(path, IdentityOf(path, content).value, payloadSize,
                                Crc32(content[..payloadSize]) as nat);
             Torn(before, after, AfterWrite(before, 0, EncodeHeader(h)), 0, HEADER_SIZE)
    ensures SlotHeader(after).Some? ==> CopyOf(after, path, content, exact)
    ensures var h := NewHeader(path, IdentityOf(path, content).value, payloadSize,
                               Crc32(content[..payloadSize]) as nat);
            after == AfterWrite(before, 0, EncodeHeader(h)) ==>
              SlotHeader(after).Some? && SlotHeader(after).value.payloadSize == payloadSize
  {
    hide SlotHeader, IdentityOf, Crc32, CPath, EncodeHeader, NewHeader, AfterWrite, CopyOf, PayloadIs;
    var h := NewHeader(path, IdentityOf(path, content).value, payloadSize, Crc32(content[..payloadSize]) as nat);
    var whole := AfterWrite(before, 0, EncodeHeader(h));
    WriteOntoErased(before, 0, EncodeHeader(h));
    IdentityFacts(path, content);
    assert whole[..HEADER_SIZE] == EncodeHeader(h) && whole[HEADER_SIZE..] == before[HEADER_SIZE..];
    if after[..HEADER_SIZE] == whole[..HEADER_SIZE] {
      HeaderCommits(before, after, path, content, payloadSize, exact);
      CopyHasHeader(after, path, content, exact);
    } else {
      ErasedHeaderInvalid(before);
      if SlotHeader(after).Some? {
        HeaderAreaDecides(before, after);
      }
    }
  }

  lemma CopyHasHeader(data: seq<byte>, path: seq<byte>, content: seq<byte>, exact: bool)
    requires CopyOf(data, path, content, exact)
    ensures SlotHeader(data).Some?
  {
    hide SlotHeader, IdentityOf, Crc32, CPath;
  }

  /** The header in the slot is the one a copy of this file would carry. */
  predicate HeaderMatches(data: seq<byte>, path: seq<byte>, content: seq<byte>)
  {
    var header, source := SlotHeader(data), IdentityOf(path, content);
    header.Some? && source.Some? && CPath(header.value.sourcePath) == path &&
    header.value.sourceSize == source.value.size && header.value.contentHash == source.value.contentHash &&
    header.value.payloadSize >= source.value.regularEnd
  }

  predicate TocRead(content: seq<byte>, n: nat, ids: seq<byte>, offsets: seq<nat>)
  {
    CPFONT_HEADER_SIZE + CPFONT_TOC_ENTRY_SIZE * n <= |content| && |ids| == |offsets| == n &&
    forall j :: 0 <= j < n ==> ids[j] == StyleId(content, j) && offsets[j] == StyleOffset(content, j)
  }

  function Min(a: nat, b: nat): nat { if a < b then a else b }

  function RoundUp(value: nat): (r: nat)
    ensures r % ERASE_SIZE == 0 && value <= r < value + ERASE_SIZE
  {
    (value + ERASE_SIZE - 1) / ERASE_SIZE * ERASE_SIZE
  }

  /** How much of the payload the erase at offset prepares. */
  function EraseLength(payloadSize: nat, offset: nat): (length: nat)
    requires offset < payloadSize
    ensures 0 < length <= ERASE_BLOCK_SIZE && length % ERASE_SIZE == 0
    ensures offset + length < payloadSize ==> length == ERASE_BLOCK_SIZE
  {
    Min(RoundUp(payloadSize - offset), ERASE_BLOCK_SIZE)
  }

  predicate WholeSectors(size: nat) { size % ERASE_SIZE == 0 }

  predicate WholeBlocks(offset: nat) { offset % ERASE_BLOCK_SIZE == 0 }

  lemma NoBlocks()
    ensures WholeBlocks(0)
  {
  }

  lemma BlocksAddUp(payloadSize: nat, offset: nat)
    requires offset < payloadSize && WholeBlocks(offset)
    ensures var next := offset + EraseLength(payloadSize, offset); next < payloadSize ==> WholeBlocks(next)
  {
    hide RoundUp, Min;
  }

  /** In a slot of whole sectors the last erase stays inside. */
  lemma EraseFits(payloadSize: nat, offset: nat, size: nat)
    requires offset < payloadSize && WholeBlocks(offset) && WholeSectors(size)
    requires HEADER_AREA_SIZE + payloadSize <= size
    ensures EraseAccepted(size, HEADER_AREA_SIZE + offset, EraseLength(payloadSize, offset))
  {
    var blocks, sectors := offset / ERASE_BLOCK_SIZE, size / ERASE_SIZE;
    assert offset == ERASE_SIZE * (16 * blocks) && size == ERASE_SIZE * sectors;
    var wanted := RoundUp(payloadSize - offset) / ERASE_SIZE;
    assert RoundUp(payloadSize - offset) == ERASE_SIZE * wanted;
    assert 1 + 16 * blocks + wanted <= sectors;
  }

  /** What preload answers when every call succeeds. */
  function Verdict(data: seq<byte>, path: seq<byte>, content: seq<byte>, updated: bool, safe: bool): PreloadResult
  {
    var source := IdentityOf(path, content);
    if updated then NotSafe
    else if source.None? then InvalidFont
    else if HeaderMatches(data, path, content) then AlreadyCached
    else if !safe then NotSafe
    else if source.value.regularEnd > PayloadCapacity(|data|) then TooLarge
    else Ok
  }

  lemma InvalidatedIsSafe(data: seq<byte>, known: set<(seq<byte>, seq<byte>)>, exact: bool)
    requires SlotHeader(data).None?
    ensures Trustworthy(data, known, exact)
  {
    hide SlotHeader;
  }

  /** Trust outlives more files and less exactness. */
  lemma TrustGrows(data: seq<byte>, known: set<(seq<byte>, seq<byte>)>, path: seq<byte>, content: seq<byte>,
                   exact: bool,
                   exactNow: bool)
    requires exactNow ==> exact
    ensures Trustworthy(data, known, exact) ==> Trustworthy(data, known + {(path, content)}, exactNow)
  {
    hide SlotHeader, CopyOf;
    if Trustworthy(data, known, exact) && SlotHeader(data).Some? {
      var f :| f in known && CopyOf(data, f.0, f.1, exact);
      CopyWeakens(data, f.0, f.1, exact, exactNow);
      assert f in known + {(path, content)};
    }
  }

  lemma CopyWeakens(data: seq<byte>, path: seq<byte>, content: seq<byte>, exact: bool, exactNow: bool)
    requires CopyOf(data, path, content, exact) && (exactNow ==> exact)
    ensures CopyOf(data, path, content, exactNow)
  {
    hide SlotHeader, IdentityOf, Crc32, CPath;
  }

  lemma CommittedIsTrustworthy(data: seq<byte>, known: set<(seq<byte>, seq<byte>)>, path: seq<byte>, content: seq<byte>,
                               exact: bool)
    requires CopyOf(data, path, content, exact) && (path, content) in known
    ensures Trustworthy(data, known, exact)
  {
    hide SlotHeader, CopyOf;
    assert CopyOf(data, (path, content).0, (path, content).1, exact);
  }

  lemma TrustWeakens(data: seq<byte>, known: set<(seq<byte>, seq<byte>)>, exact: bool, exactNow: bool)
    requires Trustworthy(data, known, exact) && (exactNow ==> exact)
    ensures Trustworthy(data, known, exactNow)
  {
    hide SlotHeader, CopyOf;
    if SlotHeader(data).Some? {
      var f :| f in known && CopyOf(data, f.0, f.1, exact);
      CopyWeakens(data, f.0, f.1, exact, exactNow);
    }
  }

  lemma PayloadChecked(data: seq<byte>, content: seq<byte>, n: nat, exact: bool)
    requires HEADER_AREA_SIZE + n <= |data| && n <= |content|
    requires Crc32(data[HEADER_AREA_SIZE..HEADER_AREA_SIZE + n]) == Crc32(content[..n])
    requires exact ==> data[HEADER_AREA_SIZE..HEADER_AREA_SIZE + n] == content[..n]
    ensures PayloadIs(data, content, n, exact)
  {
  }

  lemma PayloadLess(data: seq<byte>, content: seq<byte>, n: nat, exact: bool, exactNow: bool)
    requires HEADER_AREA_SIZE + n <= |data| && n <= |content| && PayloadIs(data, content, n, exact) &&
             (exactNow ==> exact)
    ensures PayloadIs(data, content, n, exactNow)
  {
  }

  /** A header write, torn or not, leaves the payload alone. */
  lemma PayloadBehindHeader(before: seq<byte>, after: seq<byte>, whole: seq<byte>, content: seq<byte>, n: nat,
                            exact: bool)
    requires HEADER_AREA_SIZE + n <= |before| && n <= |content| && PayloadIs(before, content, n, exact)
    requires |whole| == |before| && Torn(before, after, whole, 0, HEADER_SIZE)
    ensures PayloadIs(after, content, n, exact)
  {
    hide SlotHeader, Crc32;
    SameBehind(before, after, HEADER_SIZE, HEADER_AREA_SIZE, HEADER_AREA_SIZE + n);
  }

  lemma TornOutside(before: seq<byte>, after: seq<byte>, whole: seq<byte>, offset: nat, length: nat)
    requires |whole| == |before| && offset + length <= |before| && Torn(before, after, whole, offset, length)
    ensures |after| == |before| && after[..offset] == before[..offset] &&
            after[offset + length..] == before[offset + length..]
  {
  }

  lemma WriteStaysDisciplined(data: seq<byte>, log: seq<FlashOp>, content: seq<byte>, offset: nat, length: nat,
                              erased: nat,
                              exact: bool)
    requires Copying(data, log, content, offset, erased, exact) && offset + length <= erased &&
             offset + length <= |content|
    ensures Disciplined(log, |data|) && Disciplined(log + [Write(HEADER_AREA_SIZE + offset, length)], |data|)
  {
    hide Disciplined, ErasedUpTo, WritesWithin;
    WriteExtends(log, |data|, HEADER_AREA_SIZE + offset, length, HEADER_AREA_SIZE, HEADER_AREA_SIZE + erased);
  }

  lemma CapacityFits(size: nat, payloadSize: nat)
    requires 0 < payloadSize <= PayloadCapacity(size)
    ensures HEADER_AREA_SIZE + payloadSize <= size
  {
  }

  lemma NothingDone(size: nat)
    ensures Disciplined([], size)
  {
  }

  lemma HeaderWriteDisciplined(data: seq<byte>, log: seq<FlashOp>, content: seq<byte>, offset: nat, erased: nat,
                               exact: bool)
    requires Copying(data, log, content, offset, erased, exact)
    ensures Disciplined(log, |data|) && Disciplined(log + [Write(0, HEADER_SIZE)], |data|)
  {
    hide Disciplined, ErasedIn;
    DisciplineWrite(log, |data|, 0, HEADER_SIZE);
  }

  lemma CopySlice(data: seq<byte>, path: seq<byte>, content: seq<byte>, offset: nat, length: nat)
    requires CopyOf(data, path, content, true) && SlotHeader(data).Some?
    requires offset + length <= SlotHeader(data).value.payloadSize
    ensures offset + length <= |content| && HEADER_AREA_SIZE + offset + length <= |data|
    ensures data[HEADER_AREA_SIZE + offset..HEADER_AREA_SIZE + offset + length] == content[offset..offset + length]
  {
    hide SlotHeader, IdentityOf, Crc32, CPath;
    var size := SlotHeader(data).value.payloadSize;
    assert content[..size] == content[0..size];
    SliceOfSlice(content, 0, size, offset, length);
    SliceOfSlice(data, HEADER_AREA_SIZE, HEADER_AREA_SIZE + size, offset, length);
  }

  // ---- Whose copy a valid header names ----

  /** Identification reads nothing of a file but its length and its header and style table. */
  lemma IdentityReadsTheTable(path: seq<byte>, a: seq<byte>, b: seq<byte>)
    requires |a| == |b| && CPFONT_HEADER_SIZE <= |a|
    requires var n := Min(|a|, CPFONT_HEADER_SIZE + CPFONT_TOC_ENTRY_SIZE * StyleCount(a)); a[..n] == b[..n]
    ensures IdentityOf(path, a) == IdentityOf(path, b)
  {
    hide Fnv1a, RegularStart, RegularEnd, CPFONT_MAGIC;
    var n := Min(|a|, CPFONT_HEADER_SIZE + CPFONT_TOC_ENTRY_SIZE * StyleCount(a));
    forall m | 0 <= m <= n ensures a[..m] == b[..m] {
      assert a[..m] == a[..n][..m] && b[..m] == b[..n][..m];
    }
    assert a[12] == a[..n][12] == b[..n][12] == b[12];
    assert a[8..10] == a[..10][8..] && b[8..10] == b[..10][8..];
    if CPFONT_HEADER_SIZE + CPFONT_TOC_ENTRY_SIZE * StyleCount(a) <= |a| {
      SameTable(a, b, StyleCount(a));
    }
  }

  lemma {:induction false} SameTable(a: seq<byte>, b: seq<byte>, n: nat)
    requires |a| == |b| && CPFONT_HEADER_SIZE + CPFONT_TOC_ENTRY_SIZE * n <= |a|
    requires forall m :: 0 <= m <= CPFONT_HEADER_SIZE + CPFONT_TOC_ENTRY_SIZE * n ==> a[..m] == b[..m]
    ensures RegularStart(a, n) == RegularStart(b, n)
    ensures forall start :: RegularEnd(a, start, n) == RegularEnd(b, start, n)
  {
    if n > 0 {
      SameTable(a, b, n - 1);
      var end := CPFONT_HEADER_SIZE + CPFONT_TOC_ENTRY_SIZE * n;
      assert TocAt(a, n - 1) == a[..end][end - CPFONT_TOC_ENTRY_SIZE..] == b[..end][end - CPFONT_TOC_ENTRY_SIZE..] ==
             TocAt(b, n - 1);
    }
  }

  predicate SameFingerprint(path: seq<byte>, a: seq<byte>, b: seq<byte>)
  {
    var ia, ib := IdentityOf(path, a), IdentityOf(path, b);
    ia.Some? && ib.Some? && ia.value.size == ib.value.size && ia.value.contentHash == ib.value.contentHash
  }

  /** How much of a file a slot holds. */
  function CopiedSize(size: nat, content: seq<byte>): (n: nat)
    ensures n <= |content| && n <= PayloadCapacity(size)
  {
    Min(|content|, PayloadCapacity(size))
  }

  /** A slot with the copy of a file. */
  function SlotWith(size: nat, path: seq<byte>, content: seq<byte>): (data: seq<byte>)
    requires IdentityOf(path, content).Some? && size > HEADER_AREA_SIZE
    ensures |data| == size
  {
    IdentityFacts(path, content);
    var n := CopiedSize(size, content);
    EncodeHeader(NewHeader(path, IdentityOf(path, content).value, n, Crc32(content[..n]) as nat)) +
    seq(HEADER_AREA_SIZE - HEADER_SIZE, _ => 255) + content[..n] + seq(size - HEADER_AREA_SIZE - n, _ => 255)
  }

  lemma SlotWithCopy(size: nat, path: seq<byte>, content: seq<byte>)
    requires IdentityOf(path, content).Some? && size > HEADER_AREA_SIZE && 0 !in path && |content| < U32
    requires IdentityOf(path, content).value.regularEnd <= CopiedSize(size, content)
    ensures var data := SlotWith(size, path, content);
            CopyOf(data, path, content, true) && SlotHeader(data).value.payloadSize == CopiedSize(size, content)
  {
    hide SlotHeader, IdentityOf, Crc32, CPath, EncodeHeader, HeaderCrc, PadPath, NewHeader;
    IdentityFacts(path, content);
    var id, n := IdentityOf(path, content).value, CopiedSize(size, content);
    var crc := Crc32(content[..n]) as nat;
    var data, header := SlotWith(size, path, content), EncodeHeader(NewHeader(path, id, n, crc));
    assert data[..HEADER_SIZE] == header;
    assert data[HEADER_AREA_SIZE..HEADER_AREA_SIZE + n] == content[..n];
    HeaderReadsBack(data, path, id, n, crc);
    NewHeaderNames(path, id, n, crc);
  }

  lemma NewHeaderNames(path: seq<byte>, id: Identity, payloadSize: nat, payloadCrc: nat)
    requires |path| < PATH_SIZE && 0 !in path
    ensures var h := NewHeader(path, id, payloadSize, payloadCrc);
            CPath(h.sourcePath) == path && h.sourceSize == id.size && h.payloadSize == payloadSize &&
            h.contentHash == id.contentHash && h.payloadCrc == payloadCrc
  {
    hide CPath, HeaderCrc, PadPath;
    CPathOfPadded(path, PadPath(path));
  }

  /** Paths end in their NUL, and sizes fit 32 bits. */
  predicate Files32(files: set<(seq<byte>, seq<byte>)>)
  {
    forall f :: f in files ==> 0 !in f.0 && |f.1| < U32
  }

  /** Whenever the slot may be trusted and its header matches the file, it holds a copy of this very file. */
  ghost predicate MatchesMean(size: nat, known: set<(seq<byte>, seq<byte>)>, path: seq<byte>, content: seq<byte>)
  {
    forall data: seq<byte> :: |data| == size && Trustworthy(data, known, true) && HeaderMatches(data, path, content) ==>
      CopyOf(data, path, content, true)
  }

  /** A file ever copied from the path, that this one cannot be told from, and that has other bytes in its copy. */
  predicate Double(size: nat, path: seq<byte>, was: seq<byte>, content: seq<byte>)
  {
    SameFingerprint(path, was, content) && var n := CopiedSize(size, content);
    IdentityOf(path, was).value.regularEnd <= n && IdentityOf(path, content).value.regularEnd <= n <= |was| &&
    was[..n] != content[..n]
  }

  /**
   * A match means a copy of this very file exactly when no file was ever copied from the same path that has the
   * same length and the same hash of its header and style table, and other bytes in what a slot holds of it.
   */
  lemma MatchIsThisFile(size: nat, known: set<(seq<byte>, seq<byte>)>, path: seq<byte>, content: seq<byte>)
    requires Files32(known) && size > HEADER_AREA_SIZE
    ensures MatchesMean(size, known, path, content) <==>
            forall f :: f in known && f.0 == path ==> !Double(size, path, f.1, content)
  {
    hide Double, CopyOf, HeaderMatches, Trustworthy;
    if MatchesMean(size, known, path, content) {
      forall f | f in known && f.0 == path ensures !Double(size, path, f.1, content) {
        if Double(size, path, f.1, content) {
          DoublePasses(size, path, f.1, content);
          CommittedIsTrustworthy(SlotWith(size, path, f.1), known, f.0, f.1, true);
        }
      }
    }
    if forall f :: f in known && f.0 == path ==> !Double(size, path, f.1, content) {
      forall data: seq<byte> | |data| == size && Trustworthy(data, known, true) && HeaderMatches(data, path, content)
        ensures CopyOf(data, path, content, true)
      {
        TrustedMatch(data, known, path, content);
      }
    }
  }

  lemma TrustedMatch(data: seq<byte>, known: set<(seq<byte>, seq<byte>)>, path: seq<byte>, content: seq<byte>)
    requires Trustworthy(data, known, true) && HeaderMatches(data, path, content)
    requires forall f :: f in known && f.0 == path ==> !Double(|data|, path, f.1, content)
    ensures CopyOf(data, path, content, true)
  {
    hide SlotHeader, IdentityOf, Crc32, CPath, Double;
    var f :| f in known && CopyOf(data, f.0, f.1, true);
    IdentityFacts(path, f.1);
    IdentityFacts(path, content);
    assert f.0 == path && SameFingerprint(path, f.1, content);
    HeaderInCapacity(data);
    SamePrefix(|data|, path, f.1, content, SlotHeader(data).value.payloadSize);
  }

  lemma HeaderInCapacity(data: seq<byte>)
    requires SlotHeader(data).Some?
    ensures SlotHeader(data).value.payloadSize <= PayloadCapacity(|data|)
  {
  }

  lemma SamePrefix(size: nat, path: seq<byte>, was: seq<byte>, content: seq<byte>, n: nat)
    requires SameFingerprint(path, was, content) && |was| == |content| && !Double(size, path, was, content)
    requires IdentityOf(path, was).value.regularEnd <= n && IdentityOf(path, content).value.regularEnd <= n
    requires n <= |content| && n <= PayloadCapacity(size)
    ensures was[..n] == content[..n]
  {
    hide IdentityOf;
    var m := CopiedSize(size, content);
    assert was[..n] == was[..m][..n] && content[..n] == content[..m][..n];
  }

  /** A copy of such a double passes for this file, and is none of it. */
  lemma DoublePasses(size: nat, path: seq<byte>, was: seq<byte>, content: seq<byte>)
    requires Double(size, path, was, content) && size > HEADER_AREA_SIZE && 0 !in path && |was| < U32
    ensures IdentityOf(path, was).Some?
    ensures var data := SlotWith(size, path, was);
            CopyOf(data, path, was, true) && HeaderMatches(data, path, content) && !CopyOf(data, path, content, true)
  {
    hide SlotHeader, IdentityOf, Crc32, CPath, SlotWith;
    IdentityFacts(path, was);
    IdentityFacts(path, content);
    SlotWithCopy(size, path, was);
  }

  /** Two fonts of one regular style that differ in their only byte behind the style table. */
  const SAMPLE_PATH: seq<byte> := [97]

  function SampleFont(last: byte): (content: seq<byte>)
    ensures |content| == 65
  {
    CPFONT_MAGIC + [4, 0, 0, 0, 1] + seq(19, _ => 0) + seq(24, _ => 0) + [64, 0, 0, 0] + seq(4, _ => 0) + [last]
  }

  lemma SampleIdentity(last: byte)
    ensures var id := IdentityOf(SAMPLE_PATH, SampleFont(last));
            id.Some? && id.value.regularEnd == 65
  {
    hide Fnv1a;
    var content := SampleFont(last);
    assert content[..8] == CPFONT_MAGIC;
    assert content[8..10] == [4, 0] && UnLE([4, 0]) == 4 by { assert [4, 0][1..] == [0]; assert [0][1..] == []; }
    assert StyleCount(content) == 1 && StyleId(content, 0) == 0;
    assert RegularStart(content, 1) == Some(StyleOffset(content, 0));
    var start := StyleOffset(content, 0);
    assert RegularEnd(content, start, 0) == 65 && RegularEnd(content, start, 1) == 65;
  }

  /** Two different files of one identity, and a slot that holds the first and passes for the second. */
  lemma StaleCopyPasses()
    ensures IdentityOf(SAMPLE_PATH, SampleFont(1)).Some?
    ensures var a, b, slot := SampleFont(1), SampleFont(2), SlotWith(8192, SAMPLE_PATH, SampleFont(1));
            IdentityOf(SAMPLE_PATH, a) == IdentityOf(SAMPLE_PATH, b) && CopyOf(slot, SAMPLE_PATH, a, true) &&
            HeaderMatches(slot, SAMPLE_PATH, b) && !CopyOf(slot, SAMPLE_PATH, b, true)
  {
    hide IdentityOf, CopyOf, HeaderMatches, SlotWith;
    var a, b := SampleFont(1), SampleFont(2);
    SampleIdentity(1);
    SampleIdentity(2);
    assert StyleCount(a) == 1 && a[..64] == b[..64];
    IdentityReadsTheTable(SAMPLE_PATH, a, b);
    var n := CopiedSize(8192, b);
    assert n == 65 && a[..n] == a && b[..n] == b && a[64] == 1 && b[64] == 2;
    DoublePasses(8192, SAMPLE_PATH, a, b);
  }

  /** The slot and the file on the card; a power cut is recorded by `dead`, as in the storage module. */
  class Board {
    var data: seq<byte>
    var dead: bool
    ghost var log: seq<FlashOp>
    /** Failed calls and power cuts so far, and writes that reported success but left other bytes behind. */
    ghost var faults: nat
    ghost var misprints: nat

    method Fate() returns (ok: bool)
      modifies this`faults, this`dead
      ensures ok ==> !dead && !old(dead)
      ensures old(dead) ==> dead
      ensures old(faults) <= faults && (dead ==> old(dead) || old(faults) < faults)
      ensures faults == old(faults) && !old(dead) ==> ok
    {
      var fails: bool, cut: bool := *, *;
      ok := !dead && !fails && !cut;
      if fails || cut {
        faults := faults + 1;
      }
      dead := dead || cut;
    }

    method Erase(offset: nat, length: nat) returns (ok: bool)
      modifies this`data, this`dead, this`log, this`faults
      ensures |data| == |old(data)|
      ensures !EraseAccepted(|data|, offset, length) ==> !ok && data == old(data) && log == old(log)
      ensures EraseAccepted(|data|, offset, length) ==>
                RangeResult(ok, old(data), data, AfterErase(old(data), offset, length), offset, length)
      ensures ok ==> !dead && log == old(log) + [FlashOp.Erase(offset, length)]
      ensures log == old(log) || log == old(log) + [FlashOp.Erase(offset, length)]
      ensures old(dead) ==> data == old(data) && dead && log == old(log)
      ensures old(faults) <= faults && (dead ==> old(dead) || old(faults) < faults)
      ensures faults == old(faults) && !old(dead) && EraseAccepted(|data|, offset, length) ==> ok
    {
      hide SlotHeader;
      if !EraseAccepted(|data|, offset, length) {
        return false;
      }
      var wasDead := dead;
      ok := Fate();
      if wasDead {
        TornNothing(data, AfterErase(data, offset, length), offset, length);
        return;
      }
      data := Outcome(ok, data, AfterErase(data, offset, length), offset, length);
      log := log + [FlashOp.Erase(offset, length)];
    }

    /** The whole operation, or, when it failed, some torn state. */
    method Outcome(ok: bool, before: seq<byte>, whole: seq<byte>, offset: nat, length: nat) returns (after: seq<byte>)
      requires |whole| == |before| && offset + length <= |before|
      ensures RangeResult(ok, before, after, whole, offset, length)
    {
      hide SlotHeader;
      var torn: seq<byte> := *;
      TornNothing(before, whole, offset, length);
      after := if ok then whole else if Torn(before, torn, whole, offset, length) then torn else before;
    }

    method Write(offset: nat, bytes: seq<byte>) returns (ok: bool)
      modifies this`data, this`dead, this`log, this`faults, this`misprints
      ensures |data| == |old(data)|
      ensures offset + |bytes| > |data| ==> !ok && data == old(data) && log == old(log)
      ensures offset + |bytes| <= |data| ==>
                Torn(old(data), data, AfterWrite(old(data), offset, bytes), offset, |bytes|) &&
                (ok && misprints == old(misprints) ==> data == AfterWrite(old(data), offset, bytes))
      ensures ok ==> !dead && log == old(log) + [FlashOp.Write(offset, |bytes|)]
      ensures log == old(log) || log == old(log) + [FlashOp.Write(offset, |bytes|)]
      ensures old(dead) ==> data == old(data) && dead && log == old(log)
      ensures old(faults) <= faults && old(misprints) <= misprints && (dead ==> old(dead) || old(faults) < faults)
      ensures faults == old(faults) && !old(dead) && offset + |bytes| <= |data| ==> ok
    {
      hide SlotHeader;
      if offset + |bytes| > |data| {
        return false;
      }
      var wasDead := dead;
      ok := Fate();
      if wasDead {
        TornNothing(data, AfterWrite(data, offset, bytes), offset, |bytes|);
        return;
      }
      var misprint: bool := *;
      if ok && misprint {
        misprints := misprints + 1;
      }
      data := Outcome(ok && !misprint, data, AfterWrite(data, offset, bytes), offset, |bytes|);
      log := log + [FlashOp.Write(offset, |bytes|)];
    }

    method Read(offset: nat, length: nat) returns (ok: bool, bytes: seq<byte>)
      modifies this`faults, this`dead
      ensures ok ==> !dead && offset + length <= |data| && bytes == data[offset..offset + length]
      ensures old(dead) ==> dead
      ensures old(faults) <= faults && (dead ==> old(dead) || old(faults) < faults)
      ensures faults == old(faults) && !old(dead) && offset + length <= |data| ==> ok
    {
      ok := Fate();
      ok := ok && offset + length <= |data|;
      bytes := if ok then data[offset..offset + length] else [];
    }

    /** Reads from the font file on the card. */
    method ReadFile(content: seq<byte>, offset: nat, length: nat) returns (ok: bool, bytes: seq<byte>)
      modifies this`faults, this`dead
      ensures ok ==> !dead && offset + length <= |content| && bytes == content[offset..offset + length]
      ensures old(dead) ==> dead
      ensures old(faults) <= faults && (dead ==> old(dead) || old(faults) < faults)
      ensures faults == old(faults) && !old(dead) && offset + length <= |content| ==> ok
    {
      ok := Fate();
      ok := ok && offset + length <= |content|;
      bytes := if ok then content[offset..offset + length] else [];
    }

    static lemma HeadParts(content: seq<byte>, bytes: seq<byte>)
      requires |content| >= CPFONT_HEADER_SIZE && bytes == content[0..CPFONT_HEADER_SIZE]
      ensures content[..8] == bytes[..8] && content[8..10] == bytes[8..10] && content[12] == bytes[12]
    {
    }

    /** Reads the header and style table as the font loader does, and finds where the regular style ends. */
    method IdentifySource(path: seq<byte>, content: seq<byte>) returns (r: Option<Identity>)
      modifies this`faults, this`dead
      ensures r.Some? ==> r == IdentityOf(path, content)
      ensures old(dead) ==> dead && r.None?
      ensures old(faults) <= faults && (dead ==> old(dead) || old(faults) < faults)
      ensures faults == old(faults) && !old(dead) ==> r == IdentityOf(path, content)
    {
      hide StyleId, StyleOffset, Fnv1a, RegularStart, RegularEnd;
      if |path| >= PATH_SIZE {
        return None;
      }
      var isOpen := Fate();
      if !isOpen {
        return None;
      }
      var ok, bytes := ReadFile(content, 0, CPFONT_HEADER_SIZE);
      if ok { HeadParts(content, bytes); }
      if !ok || bytes[..8] != CPFONT_MAGIC || UnLE(bytes[8..10]) != CPFONT_VERSION || bytes[12] == 0 ||
         bytes[12] > MAX_STYLES {
        return None;
      }
      var styleCount := bytes[12];
      var hash, ids, offsets;
      ok, hash, ids, offsets := ReadToc(content, styleCount, bytes);
      if !ok {
        return None;
      }
      var end := FindRegularEnd(content, ids, offsets);
      r := if end.None? then None else Some(Identity(|content|, hash, end.value));
    }

    method ReadToc(content: seq<byte>, styleCount: nat, header: seq<byte>)
      returns (ok: bool, hash: nat, ids: seq<byte>, offsets: seq<nat>)
      requires CPFONT_HEADER_SIZE <= |content| && header == content[..CPFONT_HEADER_SIZE]
      modifies this`faults, this`dead
      ensures ok ==> TocRead(content, styleCount, ids, offsets) &&
                     hash == Fnv1a(FNV_OFFSET, content[..CPFONT_HEADER_SIZE + CPFONT_TOC_ENTRY_SIZE * styleCount])
      ensures old(dead) && styleCount > 0 ==> dead && !ok
      ensures old(faults) <= faults && (dead ==> old(dead) || old(faults) < faults)
      ensures faults == old(faults) && !old(dead) ==>
                (ok <==> CPFONT_HEADER_SIZE + CPFONT_TOC_ENTRY_SIZE * styleCount <= |content|)
    {
      hide Fnv1a;
      hash := FnvUpdate(header, FNV_OFFSET);
      ids, offsets := [], [];
      for i := 0 to styleCount
        invariant TocRead(content, i, ids, offsets)
        invariant hash == Fnv1a(FNV_OFFSET, content[..CPFONT_HEADER_SIZE + CPFONT_TOC_ENTRY_SIZE * i])
        invariant hash < U32
        invariant old(dead) ==> dead && i == 0
        invariant old(faults) <= faults && (dead ==> old(dead) || old(faults) < faults)
      {
        var bytes;
        ok, bytes := ReadFile(content, CPFONT_HEADER_SIZE + CPFONT_TOC_ENTRY_SIZE * i, CPFONT_TOC_ENTRY_SIZE);
        if !ok {
          return;
        }
        assert bytes == TocAt(content, i);
        FnvOfChunks(FNV_OFFSET, content[..CPFONT_HEADER_SIZE + CPFONT_TOC_ENTRY_SIZE * i], bytes);
        assert content[..CPFONT_HEADER_SIZE + CPFONT_TOC_ENTRY_SIZE * (i + 1)] ==
               content[..CPFONT_HEADER_SIZE + CPFONT_TOC_ENTRY_SIZE * i] + bytes;
        hash := FnvUpdate(bytes, hash);
        ids, offsets := ids + [bytes[0]], offsets + [UnLE(bytes[24..28])];
      }
      ok := true;
    }

    method FindRegularEnd(content: seq<byte>, ids: seq<byte>, offsets: seq<nat>) returns (end: Option<nat>)
      requires TocRead(content, |ids|, ids, offsets)
      ensures RegularStart(content, |ids|).None? ==> end.None?
      ensures RegularStart(content, |ids|).Some? ==>
                end == Some(RegularEnd(content, RegularStart(content, |ids|).value, |ids|))
    {
      hide StyleId, StyleOffset;
      var haveRegular, regularStart := false, 0;
      for i := 0 to |ids|
        invariant RegularStart(content, i) == if haveRegular then Some(regularStart) else None
      {
        if ids[i] == 0 {
          regularStart, haveRegular := offsets[i], true;
        }
      }
      if !haveRegular {
        return None;
      }
      var regularEnd := |content|;
      for i := 0 to |ids|
        invariant regularEnd == RegularEnd(content, regularStart, i)
      {
        if ids[i] != 0 && offsets[i] > regularStart && offsets[i] < regularEnd {
          regularEnd := offsets[i];
        }
      }
      end := Some(regularEnd);
    }

    method ReadHeader() returns (header: Option<Header>)
      modifies this`faults, this`dead
      ensures header.Some? ==> header == SlotHeader(data)
      ensures old(dead) ==> dead && header.None?
      ensures old(faults) <= faults && (dead ==> old(dead) || old(faults) < faults)
      ensures faults == old(faults) && !old(dead) ==> header == SlotHeader(data)
    {
      hide IsHeaderValid, DecodeHeader;
      if |data| <= HEADER_AREA_SIZE {
        return None;
      }
      var ok, bytes := Read(0, HEADER_SIZE);
      if !ok {
        return None;
      }
      assert bytes == data[..HEADER_SIZE];
      var h := DecodeHeader(bytes);
      header := if IsHeaderValid(h, PayloadCapacity(|data|)) then Some(h) else None;
    }

    method IsValidFor(path: seq<byte>, content: seq<byte>, updated: bool) returns (valid: bool, payloadBytes: nat)
      modifies this`faults, this`dead
      ensures valid ==> HeaderMatches(data, path, content) && payloadBytes == SlotHeader(data).value.payloadSize
      ensures valid ==> !updated
      ensures old(dead) ==> dead && !valid
      ensures old(faults) <= faults && (dead ==> old(dead) || old(faults) < faults)
      ensures faults == old(faults) && !old(dead) && !updated ==> valid == HeaderMatches(data, path, content)
    {
      hide SlotHeader, IdentityOf, CPath;
      payloadBytes := 0;
      if updated {
        return false, 0;
      }
      var header := ReadHeader();
      if header.None? {
        return false, 0;
      }
      var source := IdentifySource(path, content);
      if source.None? {
        return false, 0;
      }
      var h, id := header.value, source.value;
      valid := CPath(h.sourcePath) == path && h.sourceSize == id.size && h.contentHash == id.contentHash &&
               h.payloadSize >= id.regularEnd;
      payloadBytes := if valid then h.payloadSize else 0;
    }

    /** Copies one erased block in chunks, keeping the checksum running. */
    method CopyBlock(content: seq<byte>, start: nat, blockEnd: nat, ghost erased: nat, crc: bv32, ghost m: nat)
      returns (result: PreloadResult, newCrc: bv32)
      requires Copying(data, log, content, start, erased, misprints == m) && m <= misprints
      requires start <= blockEnd <= erased && blockEnd <= |content|
      requires crc == Crc(0xFFFF_FFFF, content[..start])
      modifies this
      ensures |data| == |old(data)|
      ensures result.Ok? || result.ReadFailed? || result.WriteFailed?
      ensures result.Ok? ==> Copying(data, log, content, blockEnd, erased, misprints == m) &&
                             newCrc == Crc(0xFFFF_FFFF, content[..blockEnd])
      ensures !result.Ok? ==> Invalidated(data, log)
      ensures old(misprints) <= misprints
      ensures old(faults) <= faults && (dead ==> old(dead) || old(faults) < faults)
      ensures faults == old(faults) && !old(dead) ==> result.Ok?
    {
      hide SlotHeader, Copying, Crc, Disciplined, Invalidated, Torn, AfterWrite;
      var offset := start;
      newCrc := crc;
      while offset < blockEnd
        invariant start <= offset <= blockEnd && |data| == |old(data)|
        invariant Copying(data, log, content, offset, erased, misprints == m) && old(misprints) <= misprints
        invariant newCrc == Crc(0xFFFF_FFFF, content[..offset])
        invariant old(faults) <= faults && (dead ==> old(dead) || old(faults) < faults)
      {
        var length := Min(CHUNK_SIZE, blockEnd - offset);
        var ok, chunk := ReadFile(content, offset, length);
        if !ok {
          CopyingInvalid(data, log, content, offset, erased, misprints == m);
          return ReadFailed, newCrc;
        }
        newCrc := Crc32Update(newCrc, chunk);
        CrcOfChunks(0xFFFF_FFFF, content[..offset], chunk);
        assert content[..offset] + chunk == content[..offset + length];
        ok := WriteChunk(content, offset, length, erased, m);
        if !ok {
          return WriteFailed, newCrc;
        }
        offset := offset + length;
      }
      result := Ok;
    }

    method WriteChunk(content: seq<byte>, offset: nat, length: nat, ghost erased: nat, ghost m: nat) returns (ok: bool)
      requires Copying(data, log, content, offset, erased, misprints == m) && m <= misprints
      requires offset + length <= erased && offset + length <= |content|
      modifies this
      ensures |data| == |old(data)|
      ensures ok ==> Copying(data, log, content, offset + length, erased, misprints == m)
      ensures !ok ==> Invalidated(data, log)
      ensures old(misprints) <= misprints
      ensures old(faults) <= faults && (dead ==> old(dead) || old(faults) < faults)
      ensures faults == old(faults) && !old(dead) ==> ok
    {
      hide SlotHeader, Disciplined, Torn, AfterWrite, Erased, ErasedUpTo, WritesWithin, Invalidated;
      ghost var before, logBefore, exact := data, log, misprints == m;
      CopyingBounds(data, log, content, offset, erased, exact);
      WriteStaysDisciplined(data, log, content, offset, length, erased, exact);
      ok := Write(HEADER_AREA_SIZE + offset, content[offset..offset + length]);
      ghost var whole := AfterWrite(before, HEADER_AREA_SIZE + offset, content[offset..offset + length]);
      if ok {
        TornOutside(before, data, whole, HEADER_AREA_SIZE + offset, length);
        CopyWrite(before, data, logBefore, content, offset, length, erased, exact, misprints == m);
      } else {
        TornPayload(before, data, whole, HEADER_AREA_SIZE + offset, length, log);
      }
    }

    method EraseBlock(content: seq<byte>, offset: nat, length: nat, ghost exact: bool) returns (ok: bool)
      requires Copying(data, log, content, offset, offset, exact)
      modifies this`data, this`dead, this`log, this`faults
      ensures |data| == |old(data)|
      ensures ok ==> Copying(data, log, content, offset, offset + length, exact)
      ensures !ok ==> Invalidated(data, log)
      ensures old(faults) <= faults && (dead ==> old(dead) || old(faults) < faults)
      ensures faults == old(faults) && !old(dead) && EraseAccepted(|data|, HEADER_AREA_SIZE + offset, length) ==> ok
    {
      hide SlotHeader, Disciplined, Torn, AfterErase, Erased, ErasedUpTo, WritesWithin, Invalidated;
      ghost var before, logBefore := data, log;
      CopyingInvalid(data, log, content, offset, offset, exact);
      if HEADER_AREA_SIZE + offset + length <= |data| {
        CopyErase(data, log, content, offset, length, exact);
      }
      ok := Erase(HEADER_AREA_SIZE + offset, length);
      if !ok && EraseAccepted(|data|, HEADER_AREA_SIZE + offset, length) {
        TornPayload(before, data, AfterErase(before, HEADER_AREA_SIZE + offset, length),
                    HEADER_AREA_SIZE + offset, length, log);
      }
    }

    /** Erases and fills the payload block by block. */
    method CopyPayload(content: seq<byte>, payloadSize: nat)
      returns (result: PreloadResult, crc: bv32, ghost erased: nat)
      requires Copying(data, log, content, 0, 0, true) && payloadSize <= |content|
      requires HEADER_AREA_SIZE + payloadSize <= |data|
      modifies this
      ensures |data| == |old(data)|
      ensures result.Ok? || result.ReadFailed? || result.WriteFailed? || result.EraseFailed?
      ensures result.Ok? ==> Copying(data, log, content, payloadSize, erased, misprints == old(misprints)) &&
                             crc == Crc32(content[..payloadSize])
      ensures !result.Ok? ==> Invalidated(data, log)
      ensures old(misprints) <= misprints
      ensures old(faults) <= faults && (dead ==> old(dead) || old(faults) < faults)
      ensures faults == old(faults) && !old(dead) && WholeSectors(|data|) ==> result.Ok?
    {
      hide SlotHeader, Copying, Crc, Invalidated, EraseAccepted, EraseLength, RoundUp, WholeBlocks,
           WholeSectors, Crc32;
      var offset := 0;
      crc, erased := 0xFFFF_FFFF, 0;
      ghost var m := misprints;
      assert WholeBlocks(0) by { NoBlocks(); }
      assert Crc(0xFFFF_FFFF, content[..0]) == 0xFFFF_FFFF by { CrcOfNothing(content); }
      while offset < payloadSize
        invariant offset <= payloadSize && |data| == |old(data)|
        invariant offset < payloadSize ==> offset == erased && WholeBlocks(offset)
        invariant Copying(data, log, content, offset, erased, misprints == m) && m <= misprints
        invariant crc == Crc(0xFFFF_FFFF, content[..offset])
        invariant old(faults) <= faults && (dead ==> old(dead) || old(faults) < faults)
      {
        var eraseLength := EraseLength(payloadSize, offset);
        if WholeSectors(|data|) {
          EraseFits(payloadSize, offset, |data|);
        }
        var ok := EraseBlock(content, offset, eraseLength, misprints == m);
        if !ok {
          return EraseFailed, crc, erased;
        }
        erased := offset + eraseLength;
        var blockEnd := Min(offset + eraseLength, payloadSize);
        result, crc := CopyBlock(content, offset, blockEnd, erased, crc, m);
        if !result.Ok? {
          return;
        }
        BlocksAddUp(payloadSize, offset);
        offset := blockEnd;
      }
      CrcFinished(content[..payloadSize], crc);
      crc := crc ^ 0xFFFF_FFFF;
      result := Ok;
    }

    /** Reads the payload back and takes its checksum. */
    method PayloadCrc(payloadSize: nat) returns (ok: bool, crc: bv32)
      requires HEADER_AREA_SIZE + payloadSize <= |data|
      modifies this`faults, this`dead
      ensures ok ==> crc == Crc32(data[HEADER_AREA_SIZE..HEADER_AREA_SIZE + payloadSize])
      ensures old(faults) <= faults && (dead ==> old(dead) || old(faults) < faults)
      ensures faults == old(faults) && !old(dead) ==> ok
    {
      hide Crc, Crc32;
      var offset := 0;
      crc := 0xFFFF_FFFF;
      assert Crc(0xFFFF_FFFF, data[HEADER_AREA_SIZE..HEADER_AREA_SIZE]) == 0xFFFF_FFFF by {
        CrcOfNothing(data[HEADER_AREA_SIZE..]);
        assert data[HEADER_AREA_SIZE..HEADER_AREA_SIZE] == data[HEADER_AREA_SIZE..][..0];
      }
      while offset < payloadSize
        invariant offset <= payloadSize
        invariant crc == Crc(0xFFFF_FFFF, data[HEADER_AREA_SIZE..HEADER_AREA_SIZE + offset])
        invariant old(faults) <= faults && (dead ==> old(dead) || old(faults) < faults)
      {
        var length := Min(CHUNK_SIZE, payloadSize - offset);
        var chunk;
        ok, chunk := Read(HEADER_AREA_SIZE + offset, length);
        if !ok {
          return;
        }
        CrcOfChunks(0xFFFF_FFFF, data[HEADER_AREA_SIZE..HEADER_AREA_SIZE + offset], chunk);
        SliceGrows(data, HEADER_AREA_SIZE, HEADER_AREA_SIZE + offset, HEADER_AREA_SIZE + offset + length);
        crc := Crc32Update(crc, chunk);
        offset := offset + length;
      }
      CrcFinished(data[HEADER_AREA_SIZE..HEADER_AREA_SIZE + payloadSize], crc);
      crc := crc ^ 0xFFFF_FFFF;
      ok := true;
    }

    /** Everything between taking the slot and the committed header. */
    method WriteCopy(path: seq<byte>, content: seq<byte>, id: Identity, payloadSize: nat,
                     ghost known: set<(seq<byte>, seq<byte>)>, ghost exact: bool)
      returns (result: PreloadResult)
      requires IdentityOf(path, content) == Some(id) && 0 !in path && |content| < U32 && |path| < PATH_SIZE
      requires id.regularEnd <= payloadSize <= |content| && payloadSize <= PayloadCapacity(|data|)
      requires log == []
      modifies this
      ensures |data| == |old(data)| && Disciplined(log, |data|)
      ensures old(misprints) <= misprints
      ensures Trustworthy(old(data), known, exact) ==>
                Trustworthy(data, known + {(path, content)}, exact && misprints == old(misprints))
      ensures result.Ok? || result.ReadFailed? || result.WriteFailed? || result.EraseFailed? || result.VerifyFailed?
      ensures result.Ok? ==> HEADER_AREA_SIZE + payloadSize <= |data| &&
                             PayloadIs(data, content, payloadSize, misprints == old(misprints))
      ensures result.Ok? && misprints == old(misprints) ==>
                CopyOf(data, path, content, true) && SlotHeader(data).Some? &&
                SlotHeader(data).value.payloadSize == payloadSize
      ensures old(faults) <= faults && (dead ==> old(dead) || old(faults) < faults)
      ensures faults == old(faults) && misprints == old(misprints) && !old(dead) && WholeSectors(|data|) ==> result.Ok?
    {
      hide SlotHeader, Copying, Invalidated, CopyOf, Trustworthy, AfterErase, Disciplined, PayloadCapacity,
           IdentityOf, Crc32;
      ghost var m, trusted := misprints, known + {(path, content)};
      IdentityFacts(path, content);
      CapacityFits(|data|, payloadSize);
      var ok := EraseHeader(content, known, exact);
      if !ok {
        TrustGrows(data, known, path, content, exact, exact && misprints == m);
        return EraseFailed;
      }
      var payloadCrc;
      ghost var erased;
      result, payloadCrc, erased := CopyPayload(content, payloadSize);
      if !result.Ok? {
        InvalidatedMeans(data, log);
        InvalidatedIsSafe(data, trusted, exact && misprints == m);
        return;
      }
      CopyingInvalid(data, log, content, payloadSize, erased, misprints == m);
      InvalidatedMeans(data, log);
      InvalidatedIsSafe(data, trusted, exact && misprints == m);
      CopyingBounds(data, log, content, payloadSize, erased, misprints == m);
      var flashCrc;
      ok, flashCrc := PayloadCrc(payloadSize);
      if !ok || flashCrc != payloadCrc {
        return VerifyFailed;
      }
      ok := Commit(path, content, id, payloadSize, payloadCrc, erased, m);
      if SlotHeader(data).Some? {
        CommittedIsTrustworthy(data, trusted, path, content, misprints == m);
        TrustWeakens(data, trusted, misprints == m, exact && misprints == m);
      } else {
        InvalidatedIsSafe(data, trusted, exact && misprints == m);
      }
      result := if ok then Ok else WriteFailed;
    }

    method EraseHeader(content: seq<byte>, ghost known: set<(seq<byte>, seq<byte>)>, ghost exact: bool)
      returns (ok: bool)
      requires log == [] && |data| > HEADER_AREA_SIZE
      modifies this`data, this`dead, this`log, this`faults
      ensures |data| == |old(data)|
      ensures ok ==> Copying(data, log, content, 0, 0, true)
      ensures !ok ==> Disciplined(log, |data|) &&
                      (Trustworthy(old(data), known, exact) ==> Trustworthy(data, known, exact))
      ensures old(faults) <= faults && (dead ==> old(dead) || old(faults) < faults)
      ensures faults == old(faults) && !old(dead) ==> ok
    {
      hide SlotHeader, Copying, Trustworthy, AfterErase, Torn, ErasedIn;
      ghost var before := data;
      HeaderErased(data, content);
      ok := Erase(0, HEADER_AREA_SIZE);
      assert [] + [FlashOp.Erase(0, HEADER_AREA_SIZE)] == [FlashOp.Erase(0, HEADER_AREA_SIZE)];
      if !ok && Trustworthy(before, known, exact) {
        HeaderTorn(before, data, known, exact);
      }
    }

    /** Writes the header last. */
    method Commit(path: seq<byte>, content: seq<byte>, id: Identity, payloadSize: nat, payloadCrc: bv32,
                  ghost erased: nat,
                  ghost m: nat)
      returns (ok: bool)
      requires IdentityOf(path, content) == Some(id) && 0 !in path && |content| < U32 && |path| < PATH_SIZE
      requires id.regularEnd <= payloadSize <= |content| && payloadSize <= PayloadCapacity(|data|)
      requires Copying(data, log, content, payloadSize, erased, misprints == m) && m <= misprints
      requires HEADER_AREA_SIZE + payloadSize <= |data| && payloadCrc == Crc32(content[..payloadSize])
      requires payloadCrc == Crc32(data[HEADER_AREA_SIZE..HEADER_AREA_SIZE + payloadSize])
      modifies this
      ensures |data| == |old(data)| && Disciplined(log, |data|) && old(misprints) <= misprints
      ensures SlotHeader(data).Some? ==> CopyOf(data, path, content, misprints == m)
      ensures PayloadIs(data, content, payloadSize, misprints == m)
      ensures ok && misprints == m ==> SlotHeader(data).Some? && SlotHeader(data).value.payloadSize == payloadSize
      ensures old(faults) <= faults && (dead ==> old(dead) || old(faults) < faults)
      ensures faults == old(faults) && !old(dead) ==> ok
    {
      hide SlotHeader, Copying, CopyOf, AfterWrite, Torn, Crc32, PayloadCapacity, IdentityOf, NewHeader,
           EncodeHeader, Erased,
           Disciplined, PayloadIs;
      ghost var before, exact := data, misprints == m;
      CopyingBounds(data, log, content, payloadSize, erased, exact);
      HeaderWriteDisciplined(data, log, content, payloadSize, erased, exact);
      PayloadChecked(data, content, payloadSize, exact);
      var header := NewHeader(path, id, payloadSize, payloadCrc as nat);
      ok := Write(0, EncodeHeader(header));
      PayloadLess(before, content, payloadSize, exact, misprints == m);
      HeaderWriteOutcome(before, data, path, content, payloadSize, misprints == m);
      PayloadBehindHeader(before, data, AfterWrite(before, 0, EncodeHeader(header)), content, payloadSize,
                          misprints == m);
    }

    /**
     * Copies the file into the slot. Whatever fails and wherever the power is cut, a valid header afterwards
     * belongs to a copy: the one that was there, or this one.
     */
    method Preload(path: seq<byte>, content: seq<byte>, updated: bool, safe: bool,
                   ghost known: set<(seq<byte>, seq<byte>)>, ghost exact: bool)
      returns (result: PreloadResult)
      requires 0 !in path && |content| < U32
      modifies this
      ensures |data| == |old(data)| && Disciplined(log, |data|)
      ensures old(misprints) <= misprints
      ensures Trustworthy(old(data), known, exact) ==>
                Trustworthy(data, known + {(path, content)}, exact && misprints == old(misprints))
      ensures result.Ok? ==> var n := Min(|content|, PayloadCapacity(|data|));
                             HEADER_AREA_SIZE + n <= |data| && PayloadIs(data, content, n, misprints == old(misprints))
      ensures result.Ok? && misprints == old(misprints) ==>
                CopyOf(data, path, content, true) && SlotHeader(data).Some? &&
                SlotHeader(data).value.payloadSize == Min(|content|, PayloadCapacity(|data|))
      ensures result.AlreadyCached? ==> HeaderMatches(data, path, content)
      ensures (result.AlreadyCached? || result.InvalidFont? || result.NotSafe? || result.TooLarge? || result.Oom? ||
               result.OpenFailed?) ==> data == old(data)
      ensures old(faults) <= faults && (dead ==> old(dead) || old(faults) < faults)
      ensures faults == old(faults) && misprints == old(misprints) && !old(dead) && WholeSectors(|data|) ==>
                result == Verdict(old(data), path, content, updated, safe)
    {
      hide SlotHeader, CopyOf, Trustworthy, Disciplined, PayloadCapacity, IdentityOf, HeaderMatches;
      log := [];
      NothingDone(|data|);
      TrustGrows(data, known, path, content, exact, exact);
      if updated {
        return NotSafe;
      }
      var source := IdentifySource(path, content);
      if source.None? {
        return InvalidFont;
      }
      var id := source.value;
      var valid, payloadBytes := IsValidFor(path, content, updated);
      if valid {
        return AlreadyCached;
      }
      if !safe {
        return NotSafe;
      }
      var cap := PayloadCapacity(|data|);
      if id.regularEnd > cap {
        return TooLarge;
      }
      IdentityFacts(path, content);
      var payloadSize := Min(|content|, cap);
      var allocates := Fate();
      if !allocates {
        return Oom;
      }
      var isOpen := Fate();
      if !isOpen {
        return OpenFailed;
      }
      CapacityFits(|data|, payloadSize);
      result := WriteCopy(path, content, id, payloadSize, known, exact);
    }

    /** Reads from the copy; `blocked` is what the update and write flags said. */
    method ReadAt(offset: nat, length: nat, payloadBytes: nat, blocked: bool) returns (ok: bool, bytes: seq<byte>)
      modifies this`faults, this`dead
      ensures ok ==> !blocked && offset + length <= payloadBytes && |bytes| == length
      ensures forall path, content ::
                (ok && CopyOf(data, path, content, true) && SlotHeader(data).Some? &&
                 payloadBytes == SlotHeader(data).value.payloadSize) ==>
                  offset + length <= |content| && bytes == content[offset..offset + length]
      ensures old(faults) <= faults && (dead ==> old(dead) || old(faults) < faults)
      ensures (faults == old(faults) && !old(dead) && !blocked && payloadBytes <= PayloadCapacity(|data|) &&
               offset + length <= payloadBytes) ==> ok
    {
      hide SlotHeader, CopyOf;
      bytes := [];
      if payloadBytes > PayloadCapacity(|data|) || !ContainsPayloadRange(payloadBytes, offset, length) {
        return false, [];
      }
      if length == 0 {
        ok := !blocked;
      } else if blocked {
        ok := false;
      } else {
        ok, bytes := Read(HEADER_AREA_SIZE + offset, length);
      }
      forall path, content | ok && CopyOf(data, path, content, true) && SlotHeader(data).Some? &&
          payloadBytes == SlotHeader(data).value.payloadSize
        ensures offset + length <= |content| && bytes == content[offset..offset + length]
      {
        CopySlice(data, path, content, offset, length);
      }
    }

    /** Any run of copies and power cuts: what the slot claims to hold is a copy of one of the files given. */
    method Session(files: seq<(seq<byte>, seq<byte>)>)
      requires forall f :: f in files ==> 0 !in f.0 && |f.1| < U32
      requires SlotHeader(data).None?
      modifies this
      ensures old(misprints) <= misprints && Trustworthy(data, (set f | f in files), misprints == old(misprints))
    {
      hide SlotHeader, CopyOf, Trustworthy, Disciplined, HeaderMatches, Verdict;
      InvalidatedIsSafe(data, {}, true);
      ghost var known: set<(seq<byte>, seq<byte>)> := {};
      for i := 0 to |files|
        invariant old(misprints) <= misprints
        invariant Trustworthy(data, known, misprints == old(misprints)) && known == set f | f in files[..i]
      {
        var updated: bool, safe: bool := *, *;
        var result := Preload(files[i].0, files[i].1, updated, safe, known, misprints == old(misprints));
        known := known + {files[i]};
        dead := false;
      }
      assert files[..|files|] == files;
    }
  }
}
