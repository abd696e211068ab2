/**
 * The header of the font copy and the table of a font file by positions, and known values of the two checksums:
 * what other programs that read or write these bytes rely on.
 */
module FlashLayout {
  import opened Bytes
  import opened Options
  import opened FlashFormat
  import opened FlashCopy

  // ---- The header in flash ----

  lemma HeaderWidthsAt()
    ensures Sum(HEADER_WIDTHS) == 24
    ensures Sum(HEADER_WIDTHS[..0]) == 0 && Sum(HEADER_WIDTHS[..1]) == 2 && Sum(HEADER_WIDTHS[..2]) == 4
    ensures Sum(HEADER_WIDTHS[..3]) == 8 && Sum(HEADER_WIDTHS[..4]) == 12 && Sum(HEADER_WIDTHS[..5]) == 16
    ensures Sum(HEADER_WIDTHS[..6]) == 20
  {
    hide Sum;
    HeaderWidthsSum();
    NoWidths(HEADER_WIDTHS);
    SumOfPrefix(HEADER_WIDTHS, 0); SumOfPrefix(HEADER_WIDTHS, 1); SumOfPrefix(HEADER_WIDTHS, 2);
    SumOfPrefix(HEADER_WIDTHS, 3); SumOfPrefix(HEADER_WIDTHS, 4); SumOfPrefix(HEADER_WIDTHS, 5);
  }

  lemma HeaderNumberAt(b: seq<byte>, i: nat)
    requires |b| == 160 && i < 7
    ensures Sum(HEADER_WIDTHS) == 24
    ensures var p, w := 8 + Sum(HEADER_WIDTHS[..i]), HEADER_WIDTHS[i];
            p + w <= 160 && DecodeNumbers(b[8..32], HEADER_WIDTHS)[i] == UnLE(b[p..p + w])
  {
    hide Sum, UnLE, DecodeNumbers;
    HeaderWidthsAt();
    DecodedAt(b[8..32], HEADER_WIDTHS, i);
    SliceOfSlice(b, 8, 32, Sum(HEADER_WIDTHS[..i]), HEADER_WIDTHS[i]);
  }

  lemma FirstHeaderNumbers(b: seq<byte>)
    requires |b| == 160
    ensures Sum(HEADER_WIDTHS) == 24
    ensures var n := DecodeNumbers(b[8..32], HEADER_WIDTHS);
            n[0] == Num16(b, 8) && n[1] == Num16(b, 10) && n[2] == Num32(b, 12) && n[3] == Num32(b, 16)
  {
    hide Sum, UnLE, DecodeNumbers, Num16, Num32;
    HeaderWidthsAt();
    HeaderNumberAt(b, 0); NumbersAt(b, 8);
    HeaderNumberAt(b, 1); NumbersAt(b, 10);
    HeaderNumberAt(b, 2); NumbersAt(b, 12);
    HeaderNumberAt(b, 3); NumbersAt(b, 16);
  }

  lemma LastHeaderNumbers(b: seq<byte>)
    requires |b| == 160
    ensures Sum(HEADER_WIDTHS) == 24
    ensures var n := DecodeNumbers(b[8..32], HEADER_WIDTHS);
            n[4] == Num32(b, 20) && n[5] == Num32(b, 24) && n[6] == Num32(b, 28)
  {
    hide Sum, UnLE, DecodeNumbers, Num16, Num32;
    HeaderWidthsAt();
    HeaderNumberAt(b, 4); NumbersAt(b, 20);
    HeaderNumberAt(b, 5); NumbersAt(b, 24);
    HeaderNumberAt(b, 6); NumbersAt(b, 28);
  }

  /** 160 bytes: the magic, two 16-bit and five 32-bit numbers, and the path. */
  lemma HeaderByPositions(b: seq<byte>)
    requires |b| == 160
    ensures var h := DecodeHeader(b);
            h.magic == b[..8] && h.version == Num16(b, 8) && h.headerSize == Num16(b, 10) &&
            h.payloadSize == Num32(b, 12) && h.sourceSize == Num32(b, 16) && h.contentHash == Num32(b, 20) &&
            h.payloadCrc == Num32(b, 24) && h.headerCrc == Num32(b, 28) && h.sourcePath == b[32..160]
  {
    hide Sum, DecodeNumbers, Num16, Num32;
    FirstHeaderNumbers(b);
    LastHeaderNumbers(b);
  }

  /**
   * A slot has a valid header exactly when its first bytes say "OSTSDFC1", version 1 and 160 bytes, the payload is
   * not empty, no larger than the file or than what the slot holds behind its first 4096 bytes, the path ends, and
   * the checksum is that of the same bytes with zeros at 28 to 31.
   */
  lemma ValidByPositions(data: seq<byte>)
    ensures SlotHeader(data).Some? <==>
              |data| > 4096 && data[..8] == [0x4F, 0x53, 0x54, 0x53, 0x44, 0x46, 0x43, 0x31] &&
              Num16(data, 8) == 1 && Num16(data, 10) == 160 && 0 < Num32(data, 12) <= Num32(data, 16) &&
              Num32(data, 12) <= |data| - 4096 && Num32(data, 12) <= 6549504 && 0 in data[32..160] &&
              Num32(data, 28) == Crc32(data[..28] + [0, 0, 0, 0] + data[32..160]) as nat
    ensures SlotHeader(data).Some? ==> SlotHeader(data).value == DecodeHeader(data[..160])
  {
    hide DecodeHeader, EncodeHeader, Crc32;
    if |data| > 4096 {
      var b := data[..160];
      HeaderByPositions(b);
      SameNumbers(data, 160);
      HeaderAgain(b);
      assert b[..28] == data[..28] && b[32..160] == data[32..160] && b[..8] == data[..8];
    }
  }

  lemma SameNumbers(data: seq<byte>, n: nat)
    requires n <= |data|
    ensures forall p :: 0 <= p && p + 2 <= n ==> Num16(data[..n], p) == Num16(data, p)
    ensures forall p :: 0 <= p && p + 4 <= n ==> Num32(data[..n], p) == Num32(data, p)
  {
  }

  /** Encoding a header that was read, without its checksum, gives the bytes back with zeros for the checksum. */
  lemma HeaderAgain(b: seq<byte>)
    requires |b| == 160
    ensures EncodeHeader(DecodeHeader(b).(headerCrc := 0)) == b[..28] + [0, 0, 0, 0] + b[32..160]
  {
    hide Sum, DecodeNumbers, EncodeNumbers, LE, UnLE;
    HeaderWidthsSum();
    var h, n := DecodeHeader(b), DecodeNumbers(b[8..32], HEADER_WIDTHS);
    assert HeaderNumbers(h) == n;
    assert HeaderNumbers(h.(headerCrc := 0)) == n[6 := 0];
    EncodeOfDecodeNumbers(b[8..32], HEADER_WIDTHS);
    LastZero(n, b[8..32]);
    assert b == b[..8] + b[8..32] + b[32..160];
  }

  lemma {:induction false} EncodeOfDecodeNumbers(b: seq<byte>, widths: seq<nat>)
    requires |b| == Sum(widths)
    ensures EncodeNumbers(DecodeNumbers(b, widths), widths) == b
  {
    hide LE, UnLE;
    if widths != [] {
      var w, rest := widths[0], widths[1..];
      var first, later := UnLE(b[..w]), DecodeNumbers(b[w..], rest);
      LEOfUnLE(b[..w]);
      EncodeOfDecodeNumbers(b[w..], rest);
      var vals := [first] + later;
      assert vals[1..] == later;
      assert EncodeNumbers(vals, widths) == LE(first, w) + EncodeNumbers(later, rest);
      assert b == b[..w] + b[w..];
    }
  }

  lemma {:induction false} LEOfUnLE(b: seq<byte>)
    ensures LE(UnLE(b), |b|) == b
  {
    if b != [] {
      LEOfUnLE(b[1..]);
      assert UnLE(b) / 256 == UnLE(b[1..]) && UnLE(b) % 256 == b[0];
    }
  }

  lemma {:induction false} LastNumber(vals: seq<nat>, last: nat, widths: seq<nat>, w: nat)
    requires |vals| == |widths|
    ensures EncodeNumbers(vals + [last], widths + [w]) == EncodeNumbers(vals, widths) + LE(last, w)
  {
    if vals == [] {
      assert [last][1..] == [] && [w][1..] == [];
      assert vals + [last] == [last] && widths + [w] == [w];
    } else {
      LastNumber(vals[1..], last, widths[1..], w);
      assert (vals + [last])[1..] == vals[1..] + [last] && (widths + [w])[1..] == widths[1..] + [w];
    }
  }

  lemma LastZero(n: seq<nat>, b: seq<byte>)
    requires |n| == 7 && |b| == 24 && EncodeNumbers(n, HEADER_WIDTHS) == b
    ensures EncodeNumbers(n[6 := 0], HEADER_WIDTHS) == b[..20] + [0, 0, 0, 0]
  {
    hide EncodeNumbers, LE;
    LastNumber(n[..6], n[6], HEADER_WIDTHS[..6], 4);
    LastNumber(n[..6], 0, HEADER_WIDTHS[..6], 4);
    assert n == n[..6] + [n[6]] && n[6 := 0] == n[..6] + [0] && HEADER_WIDTHS == HEADER_WIDTHS[..6] + [4];
    ZeroIs();
  }

  lemma ZeroIs()
    ensures LE(0, 4) == [0, 0, 0, 0]
  {
    assert LE(0, 1) == [0] && LE(0, 2) == [0, 0] && LE(0, 3) == [0, 0, 0];
  }

  // ---- Known checksums ----

  lemma Bit(crc: bv32, next: bv32, n: nat)
    requires n > 0 && next == (crc >> 1) ^ (0xEDB88320 & (0 - (crc & 1)))
    ensures CrcBits(crc, n) == CrcBits(next, n - 1)
  {
  }

  lemma ByteA()
    ensures CrcByte(0xFFFF_FFFF, 0x61) == 0x1748_41BC
  {
    hide CrcBits;
    var a: byte := 0x61;
    assert a as bv32 == 0x61;
    assert 0xFFFF_FFFF ^ (a as bv32) == 0xFFFF_FF9E;
    Bit(0xFFFF_FF9E, 0x7FFF_FFCF, 8); Bit(0x7FFF_FFCF, 0xD247_7CC7, 7); Bit(0xD247_7CC7, 0x849B_3D43, 6);
    Bit(0x849B_3D43, 0xAFF5_1D81, 5); Bit(0xAFF5_1D81, 0xBA42_0DE0, 4); Bit(0xBA42_0DE0, 0x5D21_06F0, 3);
    Bit(0x5D21_06F0, 0x2E90_8378, 2); Bit(0x2E90_8378, 0x1748_41BC, 1);
    CrcBitsDone(0x1748_41BC);
  }

  /** The checksum of no bytes, and of "a", as CRC-32 has them. */
  lemma KnownCrc()
    ensures Crc32([]) == 0 && Crc32([0x61]) == 0xE8B7_BE43
  {
    hide CrcByte;
    ByteA();
    assert [0x61][..0] == [];
  }

  /** The hash of no bytes, and of "a", as FNV-1a has them. */
  lemma KnownFnv()
    ensures Fnv1a(FNV_OFFSET, []) == 0x811C_9DC5 && Fnv1a(FNV_OFFSET, [0x61]) == 0xE40C_292C
  {
    hide FnvByte;
    HashA();
    assert [0x61][..0] == [];
  }

  lemma HashA()
    ensures FnvByte(0x811C_9DC5, 0x61) == 0xE40C_292C
  {
    calc {
      Mixed(0x811C_9DC5, 0x61);
    ==
      ((0x811C_9DC5 as int) as bv32 ^ (0x61 as int) as bv32) as nat;
    ==
      0x811C_9DA4;
    }
    HashOfMixed(0x811C_9DC5, 0x61, 0x811C_9DA4);
  }

  lemma HashOfMixed(hash: nat, b: byte, mixed: nat)
    requires hash < 0x1_0000_0000 && Mixed(hash, b) == mixed
    ensures FnvByte(hash, b) == mixed * 16777619 % 0x1_0000_0000
  {
    hide Mixed;
  }

  // ---- The table of a font file ----

  /** Style i of the table, which starts at 32 and has 32 bytes for each, is the regular one. */
  predicate Regular(content: seq<byte>, i: nat)
    requires 64 + 32 * i <= |content|
  {
    content[32 + 32 * i] == 0
  }

  /** Where the data of style i start. */
  function DataStart(content: seq<byte>, i: nat): nat
    requires 64 + 32 * i <= |content|
  {
    Num32(content, 56 + 32 * i)
  }

  lemma StyleByPositions(content: seq<byte>, i: nat)
    requires 64 + 32 * i <= |content|
    ensures StyleId(content, i) == content[32 + 32 * i] && StyleOffset(content, i) == DataStart(content, i)
  {
    hide UnLE, Num32;
    var p := 32 + 32 * i;
    NumbersAt(content, p + 24);
    assert content[p..][..32] == content[p..p + 32];
    SliceOfSlice(content, p, p + 32, 24, 4);
  }

  lemma {:induction false} RegularByPositions(content: seq<byte>, n: nat)
    requires 32 + 32 * n <= |content|
    ensures RegularStart(content, n).Some? <==> exists i :: 0 <= i < n && Regular(content, i)
    ensures RegularStart(content, n).Some? ==>
              exists i :: 0 <= i < n && Regular(content, i) &&
                          RegularStart(content, n) == Some(DataStart(content, i)) &&
                          forall j :: i < j < n ==> !Regular(content, j)
  {
    hide StyleOffset, StyleId, DataStart;
    if n > 0 {
      RegularByPositions(content, n - 1);
      StyleByPositions(content, n - 1);
      if Regular(content, n - 1) {
        assert RegularStart(content, n) == Some(DataStart(content, n - 1));
      } else {
        assert RegularStart(content, n) == RegularStart(content, n - 1);
      }
    }
  }

  /** The byte behind the regular style that starts at start: where the nearest other one begins, or the end. */
  ghost predicate EndsAt(content: seq<byte>, n: nat, start: nat, end: nat)
    requires 32 + 32 * n <= |content|
  {
    end <= |content| &&
    (forall j :: 0 <= j < n && !Regular(content, j) && start < DataStart(content, j) ==>
     end <= DataStart(content, j)) &&
    (end == |content| || exists j :: 0 <= j < n && !Regular(content, j) && start < DataStart(content, j) == end)
  }

  lemma EndByPositions(content: seq<byte>, n: nat, start: nat)
    requires 32 + 32 * n <= |content|
    ensures EndsAt(content, n, start, RegularEnd(content, start, n))
  {
    hide StyleOffset, StyleId, DataStart;
    RegularEndIsNearest(content, start, n);
    forall j | 0 <= j < n
      ensures (StyleId(content, j) == 0 <==> Regular(content, j)) && StyleOffset(content, j) == DataStart(content, j) {
      StyleByPositions(content, j);
    }
  }

  /**
   * A file is identified exactly when it begins with "CPFONT", version 4 and one to four styles, has its whole table
   * and a regular style, and its path fits. Its identity is its size, the hash of header and table, and where the
   * data of the last regular style end.
   */
  lemma IdentityByPositions(path: seq<byte>, content: seq<byte>)
    ensures IdentityOf(path, content).Some? <==>
              |path| < 128 && |content| >= 32 && content[..8] == [0x43, 0x50, 0x46, 0x4F, 0x4E, 0x54, 0, 0] &&
              Num16(content, 8) == 4 && 1 <= content[12] <= 4 && |content| >= 32 + 32 * content[12] as nat &&
              exists i :: 0 <= i < content[12] && Regular(content, i)
    ensures IdentityOf(path, content).Some? ==>
              var id, n: nat := IdentityOf(path, content).value, content[12];
              id.size == |content| && id.contentHash == Fnv1a(0x811C_9DC5, content[..32 + 32 * n]) &&
              exists i :: 0 <= i < n && Regular(content, i) && (forall j :: i < j < n ==> !Regular(content, j)) &&
                          EndsAt(content, n, DataStart(content, i), id.regularEnd)
  {
    hide UnLE, Num32, Fnv1a, RegularStart, RegularEnd, StyleId, StyleOffset, DataStart, EndsAt;
    NumbersAt(content, 8);
    if |content| >= 32 {
      var n: nat := content[12];
      if |content| >= 32 + 32 * n {
        RegularByPositions(content, n);
        if RegularStart(content, n).Some? { EndByPositions(content, n, RegularStart(content, n).value); }
      }
    }
  }

  // ---- Copies by positions ----

  /** The slot's header is one that a copy of this file would carry. */
  lemma MatchByPositions(data: seq<byte>, path: seq<byte>, content: seq<byte>)
    ensures HeaderMatches(data, path, content) <==>
              SlotHeader(data).Some? && IdentityOf(path, content).Some? && CPath(data[32..160]) == path &&
              Num32(data, 16) == |content| && Num32(data, 20) == IdentityOf(path, content).value.contentHash &&
              Num32(data, 12) >= IdentityOf(path, content).value.regularEnd
  {
    hide SlotHeader, IdentityOf, Num32, DecodeHeader;
    if SlotHeader(data).Some? {
      ValidByPositions(data);
      HeaderByPositions(data[..160]);
      SameNumbers(data, 160);
      assert data[..160][32..160] == data[32..160];
      if IdentityOf(path, content).Some? { IdentityFacts(path, content); }
    }
  }

  /** Behind the first 4096 bytes a copy holds as much of the file as its header says. */
  lemma CopyByPositions(data: seq<byte>, path: seq<byte>, content: seq<byte>)
    requires CopyOf(data, path, content, true)
    ensures HeaderMatches(data, path, content) && 4096 + Num32(data, 12) <= |data| && Num32(data, 12) <= |content|
    ensures data[4096..4096 + Num32(data, 12)] == content[..Num32(data, 12)]
  {
    hide SlotHeader, IdentityOf, Num32, DecodeHeader, Crc32;
    ValidByPositions(data);
    HeaderByPositions(data[..160]);
    SameNumbers(data, 160);
    IdentityFacts(path, content);
  }

  /**
   * What preload answers when every call succeeds: nothing is written during an update, for a file that is not
   * identified, one whose copy is there, in an unsafe slot, or one whose regular style does not fit behind the first
   * 4096 bytes of the slot and into 6549504 bytes.
   */
  lemma VerdictIs(data: seq<byte>, path: seq<byte>, content: seq<byte>, updated: bool, safe: bool)
    ensures var source := IdentityOf(path, content);
            Verdict(data, path, content, updated, safe) ==
            if updated then NotSafe
            else if source.None? then InvalidFont
            else if HeaderMatches(data, path, content) then AlreadyCached
            else if !safe then NotSafe
            else if |data| < 4096 + source.value.regularEnd || 6549504 < source.value.regularEnd then TooLarge
            else Ok
  {
    hide SlotHeader, HeaderMatches;
    if IdentityOf(path, content).Some? { IdentityFacts(path, content); }
    hide IdentityOf;
  }
}
