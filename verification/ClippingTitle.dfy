/** What is kept of a chapter title: as many whole characters as its field has room for. */
module ClippingTitle {
  import opened Bytes
  import opened ClippingFormat
  import opened ClippingDisk
  import opened ClippingStore

  /** One character in UTF-8: a lead byte that tells the length, and continuation bytes. */
  predicate Character(c: seq<byte>)
  {
    1 <= |c| <= 4 && c[0] != 0 &&
    (|c| == 1 ==> c[0] < 0x80) && (|c| == 2 ==> 0xC0 <= c[0] < 0xE0) &&
    (|c| == 3 ==> 0xE0 <= c[0] < 0xF0) && (|c| == 4 ==> 0xF0 <= c[0] < 0xF8) &&
    forall i :: 1 <= i < |c| ==> 0x80 <= c[i] < 0xC0
  }

  predicate Characters(cs: seq<seq<byte>>) { forall i :: 0 <= i < |cs| ==> Character(cs[i]) }

  function Joined(cs: seq<seq<byte>>): seq<byte>
  {
    if cs == [] then [] else Joined(cs[..|cs| - 1]) + cs[|cs| - 1]
  }

  lemma JoinedNext(cs: seq<seq<byte>>, k: nat)
    requires k < |cs|
    ensures Joined(cs[..k + 1]) == Joined(cs[..k]) + cs[k]
  {
    assert cs[..k + 1][..k] == cs[..k];
  }

  lemma {:induction false} JoinedPrefix(cs: seq<seq<byte>>, k: nat)
    requires k <= |cs|
    ensures Joined(cs[..k]) <= Joined(cs)
    decreases |cs| - k
  {
    if k == |cs| {
      assert cs[..k] == cs;
    } else {
      JoinedNext(cs, k);
      JoinedPrefix(cs, k + 1);
    }
  }

  /** Any part of a character from its lead byte on is found as one. */
  lemma {:induction false} LeadOfPart(before: seq<byte>, c: seq<byte>, m: nat)
    requires Character(c) && 1 <= m <= |c|
    ensures LeadPosition(before + c[..m]) == |before| && CodepointLength(c[0]) == |c|
    decreases m
  {
    var s := before + c[..m];
    assert s[|s| - 1] == c[m - 1];
    if m > 1 {
      assert s[..|s| - 1] == before + c[..m - 1];
      LeadOfPart(before, c, m - 1);
    }
  }

  /** A whole character at the end stays; one of which the end is missing goes. */
  lemma EndsWithCharacter(before: seq<byte>, c: seq<byte>, m: nat)
    requires Character(c) && 1 <= m <= |c| && (m < |c| ==> before != [])
    ensures SafeLength(before + c[..m]) == if m == |c| then |before| + m else |before|
  {
    LeadOfPart(before, c, m);
    assert (before + c[..m])[|before|] == c[0];
  }

  lemma WholeCharacters(cs: seq<seq<byte>>)
    requires Characters(cs)
    ensures SafeLength(Joined(cs)) == |Joined(cs)|
  {
    if cs != [] {
      var n := |cs| - 1;
      EndsWithCharacter(Joined(cs[..n]), cs[n], |cs[n]|);
      assert cs[n][..|cs[n]|] == cs[n];
    }
  }

  /** The character that the first size bytes end in, or behind. */
  lemma {:induction false} CharacterAt(cs: seq<seq<byte>>, size: nat) returns (k: nat)
    requires Characters(cs) && size < |Joined(cs)|
    ensures k < |cs| && |Joined(cs[..k])| <= size < |Joined(cs[..k + 1])|
    decreases |cs|
  {
    var n := |cs| - 1;
    assert cs[..n + 1] == cs;
    if |Joined(cs[..n])| <= size {
      k := n;
    } else {
      k := CharacterAt(cs[..n], size);
      assert cs[..n][..k] == cs[..k] && cs[..n][..k + 1] == cs[..k + 1];
    }
  }

  lemma CutAt(cs: seq<seq<byte>>, k: nat, size: nat)
    requires Characters(cs) && 4 <= size < |Joined(cs)| && k < |cs|
    requires |Joined(cs[..k])| <= size < |Joined(cs[..k + 1])|
    ensures Joined(cs)[..size][..SafeLength(Joined(cs)[..size])] == Joined(cs[..k])
  {
    var before, m := Joined(cs[..k]), size - |Joined(cs[..k])|;
    JoinedNext(cs, k);
    JoinedPrefix(cs, k + 1);
    JoinedPrefix(cs, k);
    var kept := Joined(cs)[..size];
    assert kept == before + cs[k][..m];
    if m == 0 {
      assert kept == before;
      WholeCharacters(cs[..k]);
    } else {
      EndsWithCharacter(before, cs[k], m);
    }
  }

  /**
   * Of a title of any characters the field keeps the longest prefix that ends with a whole character and leaves room
   * for the terminator: all that fit into 47 bytes, and the next one would not.
   */
  lemma KeepsWholeCharacters(title: seq<byte>, cs: seq<seq<byte>>) returns (k: nat)
    requires Characters(cs) && CString(title) == Joined(cs)
    ensures k <= |cs| && CString(BoundedTitle(title)) == Joined(cs[..k]) && |Joined(cs[..k])| <= 47
    ensures k < |cs| ==> |Joined(cs[..k + 1])| > 47
  {
    var s := Joined(cs);
    if |s| < 48 {
      k := |cs|;
      assert cs[..k] == cs && s[..|s|] == s;
      WholeCharacters(cs);
      KeptTitle(title, s);
    } else {
      k := CharacterAt(cs, 47);
      CutAt(cs, k, 47);
      KeptTitle(title, s[..47]);
    }
  }

  lemma KeptTitle(title: seq<byte>, kept: seq<byte>)
    requires kept == if |CString(title)| < 48 then CString(title) else CString(title)[..47]
    ensures CString(BoundedTitle(title)) == kept[..SafeLength(kept)]
  {
    var n, field := SafeLength(kept), kept + Zeros(48 - |kept|);
    assert BoundedTitle(title) == field[n := 0];
    CStringPrefix(kept, n, field);
  }
}
