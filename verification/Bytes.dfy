/** Bytes and the little-endian integers that the clipping store and the font copy write. */
module Bytes {
  type byte = x: int | 0 <= x < 256

  /** 256^n, one above the largest value of an n-byte integer. */
  function Pow256(n: nat): (p: nat)
    ensures p > 0
  {
    if n == 0 then 1 else 256 * Pow256(n - 1)
  }

  /** The low n bytes of v, least significant first. */
  function LE(v: nat, n: nat): (b: seq<byte>)
    ensures |b| == n
    decreases n
  {
    if n == 0 then [] else [v % 256] + LE(v / 256, n - 1)
  }

  function UnLE(b: seq<byte>): nat
  {
    if b == [] then 0 else b[0] + 256 * UnLE(b[1..])
  }

  lemma {:induction false} UnLEOfLE(v: nat, n: nat)
    requires v < Pow256(n)
    ensures UnLE(LE(v, n)) == v
    decreases n
  {
    if n > 0 {
      assert v / 256 < Pow256(n - 1);
      UnLEOfLE(v / 256, n - 1);
      assert LE(v, n)[1..] == LE(v / 256, n - 1);
    }
  }

  /** Widths in use: 1, 2, 4 and 8 bytes. */
  lemma Pow256Values()
    ensures Pow256(1) == 0x100 && Pow256(2) == 0x1_0000
    ensures Pow256(4) == 0x1_0000_0000 && Pow256(8) == 0x1_0000_0000_0000_0000
  {
    assert Pow256(3) == 256 * Pow256(2);
    assert Pow256(5) == 256 * Pow256(4);
    assert Pow256(6) == 256 * Pow256(5);
    assert Pow256(7) == 256 * Pow256(6);
  }

  predicate FitsAll(vals: seq<nat>, widths: seq<nat>)
  {
    |vals| == |widths| && forall i :: 0 <= i < |vals| ==> vals[i] < Pow256(widths[i])
  }

  function Sum(widths: seq<nat>): nat
  {
    if widths == [] then 0 else widths[0] + Sum(widths[1..])
  }

  /** A run of little-endian integers of the given widths. */
  function EncodeNumbers(vals: seq<nat>, widths: seq<nat>): (b: seq<byte>)
    requires |vals| == |widths|
    ensures |b| == Sum(widths)
  {
    if vals == [] then [] else LE(vals[0], widths[0]) + EncodeNumbers(vals[1..], widths[1..])
  }

  function DecodeNumbers(b: seq<byte>, widths: seq<nat>): (vals: seq<nat>)
    requires |b| == Sum(widths)
    ensures |vals| == |widths|
  {
    if widths == [] then []
    else [UnLE(b[..widths[0]])] + DecodeNumbers(b[widths[0]..], widths[1..])
  }

  lemma {:induction false} DecodeOfEncodeNumbers(vals: seq<nat>, widths: seq<nat>)
    requires FitsAll(vals, widths)
    ensures DecodeNumbers(EncodeNumbers(vals, widths), widths) == vals
  {
    if vals != [] {
      var head, tail := LE(vals[0], widths[0]), EncodeNumbers(vals[1..], widths[1..]);
      UnLEOfLE(vals[0], widths[0]);
      DecodeOfEncodeNumbers(vals[1..], widths[1..]);
      assert (head + tail)[..widths[0]] == head && (head + tail)[widths[0]..] == tail;
    }
  }

  /** Every decoded integer fits its width. */
  lemma {:induction false} DecodedNumbersFit(b: seq<byte>, widths: seq<nat>)
    requires |b| == Sum(widths)
    ensures FitsAll(DecodeNumbers(b, widths), widths)
  {
    if widths != [] {
      UnLEBound(b[..widths[0]]);
      DecodedNumbersFit(b[widths[0]..], widths[1..]);
    }
  }

  lemma {:induction false} UnLEBound(b: seq<byte>)
    ensures UnLE(b) < Pow256(|b|)
  {
    if b != [] {
      UnLEBound(b[1..]);
    }
  }

  // ---- Numbers by positions ----

  function Num16(b: seq<byte>, p: nat): nat
    requires p + 2 <= |b|
  {
    b[p] as nat + 0x100 * b[p + 1] as nat
  }

  function Num32(b: seq<byte>, p: nat): nat
    requires p + 4 <= |b|
  {
    Num16(b, p) + 0x1_0000 * Num16(b, p + 2)
  }

  function Num64(b: seq<byte>, p: nat): nat
    requires p + 8 <= |b|
  {
    Num32(b, p) + 0x1_0000_0000 * Num32(b, p + 4)
  }

  lemma {:induction false} UnLEOfParts(s: seq<byte>, t: seq<byte>)
    ensures UnLE(s + t) == UnLE(s) + Pow256(|s|) * UnLE(t)
  {
    if s == [] {
      assert s + t == t;
    } else {
      UnLEOfParts(s[1..], t);
      assert (s + t)[1..] == s[1..] + t;
      TimesAgain(Pow256(|s| - 1), UnLE(t));
    }
  }

  lemma TimesAgain(a: nat, b: nat)
    ensures 256 * (a * b) == 256 * a * b
  {
  }

  lemma NumbersAt(b: seq<byte>, p: nat)
    ensures p + 1 <= |b| ==> UnLE(b[p..p + 1]) == b[p]
    ensures p + 2 <= |b| ==> UnLE(b[p..p + 2]) == Num16(b, p)
    ensures p + 4 <= |b| ==> UnLE(b[p..p + 4]) == Num32(b, p)
    ensures p + 8 <= |b| ==> UnLE(b[p..p + 8]) == Num64(b, p)
  {
    Pow256Values();
    if p + 1 <= |b| { OneByte(b[p]); assert b[p..p + 1] == [b[p]]; }
    if p + 2 <= |b| { TwoBytes(b, p); }
    if p + 4 <= |b| { FourBytes(b, p); }
    if p + 8 <= |b| {
      FourBytes(b, p);
      FourBytes(b, p + 4);
      UnLEOfParts(b[p..p + 4], b[p + 4..p + 8]);
      assert b[p..p + 8] == b[p..p + 4] + b[p + 4..p + 8];
    }
  }

  lemma OneByte(v: byte)
    ensures UnLE([v]) == v
  {
    assert [v][1..] == [];
  }

  lemma TwoBytes(b: seq<byte>, p: nat)
    requires p + 2 <= |b|
    ensures UnLE(b[p..p + 2]) == Num16(b, p)
  {
    Pow256Values();
    OneByte(b[p]);
    OneByte(b[p + 1]);
    UnLEOfParts([b[p]], [b[p + 1]]);
    assert b[p..p + 2] == [b[p]] + [b[p + 1]];
  }

  lemma FourBytes(b: seq<byte>, p: nat)
    requires p + 4 <= |b|
    ensures UnLE(b[p..p + 4]) == Num32(b, p)
  {
    Pow256Values();
    TwoBytes(b, p);
    TwoBytes(b, p + 2);
    UnLEOfParts(b[p..p + 2], b[p + 2..p + 4]);
    assert b[p..p + 4] == b[p..p + 2] + b[p + 2..p + 4];
  }

  lemma {:induction false} SumOfPrefix(widths: seq<nat>, i: nat)
    requires i < |widths|
    ensures Sum(widths[..i + 1]) == Sum(widths[..i]) + widths[i]
    decreases i
  {
    var rest := widths[1..];
    if i == 0 {
      assert widths[..1][1..] == [];
    } else {
      SumOfPrefix(rest, i - 1);
      assert widths[..i + 1][1..] == rest[..i] && widths[..i][1..] == rest[..i - 1];
    }
  }

  lemma {:induction false} SumOfPrefixFits(widths: seq<nat>, i: nat)
    requires i <= |widths|
    ensures Sum(widths[..i]) <= Sum(widths)
    decreases |widths| - i
  {
    if i == |widths| {
      assert widths[..i] == widths;
    } else {
      SumOfPrefix(widths, i);
      SumOfPrefixFits(widths, i + 1);
    }
  }

  lemma {:induction false} DecodedAt(b: seq<byte>, widths: seq<nat>, i: nat)
    requires |b| == Sum(widths) && i < |widths|
    ensures Sum(widths[..i]) + widths[i] <= |b|
    ensures DecodeNumbers(b, widths)[i] == UnLE(b[Sum(widths[..i])..Sum(widths[..i]) + widths[i]])
    decreases i
  {
    hide UnLE;
    SumOfPrefix(widths, i);
    SumOfPrefixFits(widths, i + 1);
    if i > 0 {
      var w, rest, p := widths[0], widths[1..], Sum(widths[1..][..i - 1]);
      DecodedAt(b[w..], rest, i - 1);
      assert Sum(widths[..i]) == w + p by { assert widths[..i][1..] == rest[..i - 1]; }
      assert b[w..][p..p + rest[i - 1]] == b[w + p..w + p + rest[i - 1]];
    } else {
      assert widths[..0] == [];
    }
  }

  lemma NoWidths(ws: seq<nat>)
    ensures Sum(ws[..0]) == 0
  {
  }

  lemma SliceOfSlice(b: seq<byte>, from: nat, end: nat, p: nat, w: nat)
    requires from <= end <= |b| && p + w <= end - from
    ensures b[from..end][p..p + w] == b[from + p..from + p + w]
  {
    var left, right := b[from..end][p..p + w], b[from + p..from + p + w];
    assert forall k :: 0 <= k < w ==> left[k] == right[k];
  }
}
