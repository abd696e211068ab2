/** The header of the font copy in flash, its checksums, and what identifies a font file. */
module FlashFormat {
  import opened Bytes
  import opened Options

  const HEADER_AREA_SIZE: nat := 4096
  const HEADER_SIZE: nat := 160
  const FORMAT_VERSION: nat := 1
  const PATH_SIZE: nat := 128
  const MAX_PAYLOAD_SIZE: nat := 6549504
  const MAGIC: seq<byte> := [79, 83, 84, 83, 68, 70, 67, 49]
  const U32: nat := 0x1_0000_0000

  // ---- CRC-32 ----

  function CrcBits(crc: bv32, n: nat): bv32
    decreases n
  {
    if n == 0 then crc else CrcBits((crc >> 1) ^ (0xEDB88320 & (0 - (crc & 1))), n - 1)
  }

  function CrcByte(crc: bv32, b: byte): bv32 { CrcBits(crc ^ (b as bv32), 8) }

  function Crc(crc: bv32, data: seq<byte>): bv32
  {
    if data == [] then crc else CrcByte(Crc(crc, data[..|data| - 1]), data[|data| - 1])
  }

  method Crc32Update(crc: bv32, data: seq<byte>) returns (r: bv32)
    ensures r == Crc(crc, data)
  {
    hide CrcByte;
    r := crc;
    for i := 0 to |data|
      invariant r == Crc(crc, data[..i])
    {
      assert data[..i + 1][..i] == data[..i];
      r := UpdateByte(r, data[i]);
    }
    assert data[..|data|] == data;
  }

  method UpdateByte(crc: bv32, b: byte) returns (r: bv32)
    ensures r == CrcByte(crc, b)
  {
    hide CrcBits;
    r := crc ^ (b as bv32);
    ghost var start := r;
    for bit := 0 to 8
      invariant CrcBits(start, 8) == CrcBits(r, 8 - bit)
    {
      CrcBitStep(r, 8 - bit);
      r := (r >> 1) ^ (0xEDB88320 & (0 - (r & 1)));
    }
    CrcBitsDone(r);
  }

  lemma CrcBitStep(crc: bv32, n: nat)
    requires n > 0
    ensures CrcBits(crc, n) == CrcBits((crc >> 1) ^ (0xEDB88320 & (0 - (crc & 1))), n - 1)
  {
  }

  lemma CrcBitsDone(crc: bv32)
    ensures CrcBits(crc, 0) == crc
  {
  }

  /** Checking in chunks gives the checksum of the whole. */
  lemma {:induction false} CrcOfChunks(crc: bv32, a: seq<byte>, b: seq<byte>)
    ensures Crc(crc, a + b) == Crc(Crc(crc, a), b)
  {
    hide CrcByte;
    if b == [] {
      assert a + b == a;
    } else {
      CrcOfChunks(crc, a, b[..|b| - 1]);
      assert (a + b)[..|a + b| - 1] == a + b[..|b| - 1];
    }
  }

  function Crc32(data: seq<byte>): bv32 { Crc(0xFFFF_FFFF, data) ^ 0xFFFF_FFFF }

  // ---- Header ----

  datatype Header = Header(
    magic: seq<byte>, version: nat, headerSize: nat, payloadSize: nat, sourceSize: nat, contentHash: nat,
    payloadCrc: nat, headerCrc: nat, sourcePath: seq<byte>)

  const HEADER_WIDTHS: seq<nat> := [2, 2, 4, 4, 4, 4, 4]

  function HeaderNumbers(h: Header): seq<nat>
  {
    [h.version, h.headerSize, h.payloadSize, h.sourceSize, h.contentHash, h.payloadCrc, h.headerCrc]
  }

  /** The fields fit the bytes they are stored in. */
  predicate Storable(h: Header)
  {
    |h.magic| == 8 && |h.sourcePath| == PATH_SIZE && FitsAll(HeaderNumbers(h), HEADER_WIDTHS)
  }

  lemma HeaderWidthsSum()
    ensures Sum(HEADER_WIDTHS) == 24
  {
    assert Sum([4, 4, 4]) == 4 + Sum([4, 4]);
    assert Sum([4, 4, 4, 4]) == 4 + Sum([4, 4, 4]) by { assert [4, 4, 4, 4][1..] == [4, 4, 4]; }
    assert Sum([4, 4, 4, 4, 4]) == 4 + Sum([4, 4, 4, 4]) by { assert [4, 4, 4, 4, 4][1..] == [4, 4, 4, 4]; }
    assert HEADER_WIDTHS[1..][1..] == [4, 4, 4, 4, 4];
  }

  function EncodeHeader(h: Header): (b: seq<byte>)
    requires |h.magic| == 8 && |h.sourcePath| == PATH_SIZE
    ensures |b| == HEADER_SIZE
  {
    HeaderWidthsSum();
    h.magic + EncodeNumbers(HeaderNumbers(h), HEADER_WIDTHS) + h.sourcePath
  }

  function DecodeHeader(b: seq<byte>): (h: Header)
    requires |b| == HEADER_SIZE
    ensures |h.magic| == 8 && |h.sourcePath| == PATH_SIZE
  {
    HeaderWidthsSum();
    var n := DecodeNumbers(b[8..32], HEADER_WIDTHS);
    Header(b[..8], n[0], n[1], n[2], n[3], n[4], n[5], n[6], b[32..])
  }

  lemma DecodeOfEncodeHeader(h: Header)
    requires Storable(h)
    ensures DecodeHeader(EncodeHeader(h)) == h
  {
    HeaderWidthsSum();
    DecodeOfEncodeNumbers(HeaderNumbers(h), HEADER_WIDTHS);
    var b := EncodeHeader(h);
    assert b[..8] == h.magic && b[8..32] == EncodeNumbers(HeaderNumbers(h), HEADER_WIDTHS) && b[32..] == h.sourcePath;
  }

  function HeaderCrc(h: Header): (crc: nat)
    requires |h.magic| == 8 && |h.sourcePath| == PATH_SIZE
    ensures crc < U32
  {
    Crc32(EncodeHeader(h.(headerCrc := 0))) as nat
  }

  predicate IsHeaderValid(h: Header, payloadCapacity: nat)
    requires |h.magic| == 8 && |h.sourcePath| == PATH_SIZE
  {
    h.magic == MAGIC && h.version == FORMAT_VERSION && h.headerSize == HEADER_SIZE && h.payloadSize > 0 &&
    h.payloadSize <= payloadCapacity && h.payloadSize <= h.sourceSize && 0 in h.sourcePath &&
    h.headerCrc == HeaderCrc(h)
  }

  predicate ContainsPayloadRange(payloadSize: nat, offset: nat, length: nat)
  {
    offset <= payloadSize && length <= payloadSize - offset
  }

  function PayloadCapacity(slotSize: nat): nat
  {
    if slotSize <= HEADER_AREA_SIZE then 0
    else if slotSize - HEADER_AREA_SIZE < MAX_PAYLOAD_SIZE then slotSize - HEADER_AREA_SIZE
    else MAX_PAYLOAD_SIZE
  }

  /** The valid header of a slot, if it has one. */
  function SlotHeader(data: seq<byte>): Option<Header>
  {
    if |data| <= HEADER_AREA_SIZE then None
    else
      var h := DecodeHeader(data[..HEADER_SIZE]);
      if IsHeaderValid(h, PayloadCapacity(|data|)) then Some(h) else None
  }

  /** The string in a zero-padded field. */
  function CPath(field: seq<byte>): (p: seq<byte>)
    ensures |p| <= |field| && p == field[..|p|] && 0 !in p
    ensures |p| < |field| ==> field[|p|] == 0
  {
    if field == [] || field[0] == 0 then [] else [field[0]] + CPath(field[1..])
  }

  function PadPath(path: seq<byte>): (field: seq<byte>)
    requires |path| < PATH_SIZE
    ensures |field| == PATH_SIZE && path < field && field[|path|] == 0
  {
    var field := path + seq(PATH_SIZE - |path|, _ => 0);
    assert field[|path|] == 0;
    field
  }

  lemma {:induction false} CPathOfPadded(path: seq<byte>, field: seq<byte>)
    requires 0 !in path && path < field && field[|path|] == 0
    ensures CPath(field) == path
  {
    if path != [] {
      CPathOfPadded(path[1..], field[1..]);
    }
  }

  // ---- Identifying a .cpfont file ----

  const CPFONT_HEADER_SIZE: nat := 32
  const CPFONT_TOC_ENTRY_SIZE: nat := 32
  const CPFONT_MAGIC: seq<byte> := [67, 80, 70, 79, 78, 84, 0, 0]
  const CPFONT_VERSION: nat := 4
  const MAX_STYLES: nat := 4

  datatype Identity = Identity(size: nat, contentHash: nat, regularEnd: nat)

  function Mixed(hash: nat, b: byte): nat
    requires hash < U32
  {
    ((hash as bv32) ^ (b as bv32)) as nat
  }

  function FnvByte(hash: nat, b: byte): (r: nat)
    requires hash < U32
    ensures r < U32
  {
    Mixed(hash, b) * 16777619 % U32
  }

  const FNV_OFFSET: nat := 2166136261

  /** FNV-1a over data, continued from hash. */
  function Fnv1a(hash: nat, data: seq<byte>): (r: nat)
    requires hash < U32
    ensures r < U32
  {
    if data == [] then hash else FnvByte(Fnv1a(hash, data[..|data| - 1]), data[|data| - 1])
  }

  lemma {:induction false} FnvOfChunks(hash: nat, a: seq<byte>, b: seq<byte>)
    requires hash < U32
    ensures Fnv1a(hash, a + b) == Fnv1a(Fnv1a(hash, a), b)
  {
    hide FnvByte;
    if b == [] {
      assert a + b == a;
    } else {
      FnvOfChunks(hash, a, b[..|b| - 1]);
      assert (a + b)[..|a + b| - 1] == a + b[..|b| - 1];
    }
  }

  method FnvUpdate(data: seq<byte>, hash: nat) returns (r: nat)
    requires hash < U32
    ensures r == Fnv1a(hash, data)
  {
    hide FnvByte;
    r := hash;
    for i := 0 to |data|
      invariant r == Fnv1a(hash, data[..i])
    {
      assert data[..i + 1][..i] == data[..i];
      r := FnvByte(r, data[i]);
    }
    assert data[..|data|] == data;
  }

  function TocAt(content: seq<byte>, i: nat): (e: seq<byte>)
    requires CPFONT_HEADER_SIZE + CPFONT_TOC_ENTRY_SIZE * (i + 1) <= |content|
    ensures |e| == CPFONT_TOC_ENTRY_SIZE
  {
    content[CPFONT_HEADER_SIZE + CPFONT_TOC_ENTRY_SIZE * i..][..CPFONT_TOC_ENTRY_SIZE]
  }

  function StyleId(content: seq<byte>, i: nat): byte
    requires CPFONT_HEADER_SIZE + CPFONT_TOC_ENTRY_SIZE * (i + 1) <= |content|
  {
    TocAt(content, i)[0]
  }

  function StyleOffset(content: seq<byte>, i: nat): nat
    requires CPFONT_HEADER_SIZE + CPFONT_TOC_ENTRY_SIZE * (i + 1) <= |content|
  {
    UnLE(TocAt(content, i)[24..28])
  }

  /** Where the last of the first n styles with id 0 starts. */
  function RegularStart(content: seq<byte>, n: nat): Option<nat>
    requires CPFONT_HEADER_SIZE + CPFONT_TOC_ENTRY_SIZE * n <= |content|
  {
    if n == 0 then None
    else if StyleId(content, n - 1) == 0 then Some(StyleOffset(content, n - 1))
    else RegularStart(content, n - 1)
  }

  /** The regular style ends where the nearest other style behind it starts, or with the file. */
  function RegularEnd(content: seq<byte>, start: nat, n: nat): (end: nat)
    requires CPFONT_HEADER_SIZE + CPFONT_TOC_ENTRY_SIZE * n <= |content|
    ensures end <= |content|
  {
    if n == 0 then |content|
    else
      var end := RegularEnd(content, start, n - 1);
      if StyleId(content, n - 1) != 0 && start < StyleOffset(content, n - 1) < end then StyleOffset(content, n - 1)
      else end
  }

  lemma {:induction false} RegularEndIsNearest(content: seq<byte>, start: nat, n: nat)
    requires CPFONT_HEADER_SIZE + CPFONT_TOC_ENTRY_SIZE * n <= |content|
    ensures var end := RegularEnd(content, start, n);
            (forall i :: 0 <= i < n && StyleId(content, i) != 0 && start < StyleOffset(content, i) ==>
              end <= StyleOffset(content, i)) &&
            (end == |content| ||
             exists i :: 0 <= i < n && StyleId(content, i) != 0 && start < StyleOffset(content, i) == end)
  {
    if n > 0 {
      RegularEndIsNearest(content, start, n - 1);
    }
  }

  function StyleCount(content: seq<byte>): byte
    requires |content| >= CPFONT_HEADER_SIZE
  {
    content[12]
  }

  function IdentityOf(path: seq<byte>, content: seq<byte>): Option<Identity>
  {
    if |path| >= PATH_SIZE || |content| < CPFONT_HEADER_SIZE || content[..8] != CPFONT_MAGIC ||
       UnLE(content[8..10]) != CPFONT_VERSION || StyleCount(content) == 0 || StyleCount(content) > MAX_STYLES ||
       |content| < CPFONT_HEADER_SIZE + CPFONT_TOC_ENTRY_SIZE * StyleCount(content) then None
    else
      var n := StyleCount(content);
      match RegularStart(content, n)
      case None => None
      case Some(start) =>
        Some(Identity(|content|, Fnv1a(FNV_OFFSET, content[..CPFONT_HEADER_SIZE + CPFONT_TOC_ENTRY_SIZE * n]),
                      RegularEnd(content, start, n)))
  }

  lemma IdentityFacts(path: seq<byte>, content: seq<byte>)
    requires IdentityOf(path, content).Some?
    ensures var id := IdentityOf(path, content).value;
            id.size == |content| && id.contentHash < U32 && 0 < id.regularEnd <= id.size && |path| < PATH_SIZE
  {
    var n := StyleCount(content);
    RegularEndIsNearest(content, RegularStart(content, n).value, n);
  }
}
