/** The lookup table of a page slot: entries sorted by glyph index, searched by halving. */
module PageTable {
  import opened FontGroups

  /** bufferOffset of an entry whose bitmap has not been extracted. */
  const NOT_EXTRACTED: nat := 0xFFFF_FFFF

  datatype Entry = Entry(glyphIndex: nat, bufferOffset: nat, alignedOffset: nat)

  predicate Sorted(s: seq<Entry>)
  {
    forall i, j :: 0 <= i < j < |s| ==> s[i].glyphIndex <= s[j].glyphIndex
  }

  predicate StrictlySorted(s: seq<Entry>)
  {
    forall i, j :: 0 <= i < j < |s| ==> s[i].glyphIndex < s[j].glyphIndex
  }

  // ---- Insertion sort ----

  /** key put into s, behind everything that is not greater. */
  function Inserted(s: seq<Entry>, key: Entry): (r: seq<Entry>)
    ensures |r| == |s| + 1
  {
    if s == [] || s[|s| - 1].glyphIndex <= key.glyphIndex then s + [key]
    else Inserted(s[..|s| - 1], key) + [s[|s| - 1]]
  }

  lemma {:induction false} InsertedKeeps(s: seq<Entry>, key: Entry)
    ensures multiset(Inserted(s, key)) == multiset(s) + multiset{key}
  {
    if s != [] && s[|s| - 1].glyphIndex > key.glyphIndex {
      InsertedKeeps(s[..|s| - 1], key);
      assert s == s[..|s| - 1] + [s[|s| - 1]];
    }
  }

  lemma {:induction false} InsertedSorted(s: seq<Entry>, key: Entry)
    requires Sorted(s)
    ensures Sorted(Inserted(s, key))
    ensures forall x :: x in Inserted(s, key) ==> x in s || x == key
  {
    if s != [] && s[|s| - 1].glyphIndex > key.glyphIndex {
      InsertedSorted(s[..|s| - 1], key);
      var r, last := Inserted(s[..|s| - 1], key), s[|s| - 1];
      forall i | 0 <= i < |r| ensures r[i].glyphIndex <= last.glyphIndex {
        assert r[i] in r;
      }
    }
  }

  /** Moves entry i down to its place among the entries before it. */
  method InsertEntry(a: array<Entry>, i: nat)
    requires i < a.Length
    modifies a
    ensures a[..i + 1] == Inserted(old(a[..i]), old(a[i])) && a[i + 1..] == old(a[i + 1..])
  {
    hide Inserted;
    ghost var s, tail := a[..i], a[i + 1..];
    var key := a[i];
    var j := i - 1;
    InsertionStop(s, key, j + 1);
    ghost var gap := key;
    while j >= 0 && a[j].glyphIndex > key.glyphIndex
      invariant -1 <= j < i
      invariant a[..] == s[..j + 1] + [gap] + s[j + 1..] + tail
      invariant Inserted(s, key) == Inserted(s[..j + 1], key) + s[j + 1..]
    {
      assert a[j] == a[..][j] == s[j];
      InsertionStep(s, key, j);
      GapMoves(s, gap, tail, j);
      a[j + 1] := a[j];
      gap := a[j];
      j := j - 1;
    }
    assert j >= 0 ==> a[j] == a[..][j] == s[j];
    a[j + 1] := key;
    assert a[..] == s[..j + 1] + [key] + s[j + 1..] + tail;
    InsertionEnd(s[..j + 1], key);
  }

  lemma GapMoves(s: seq<Entry>, gap: Entry, tail: seq<Entry>, j: nat)
    requires j < |s|
    ensures (s[..j + 1] + [gap] + s[j + 1..] + tail)[j + 1 := s[j]] == s[..j] + [s[j]] + s[j..] + tail
  {
  }

  lemma InsertionStop(s: seq<Entry>, key: Entry, n: nat)
    requires n == |s|
    ensures Inserted(s, key) == Inserted(s[..n], key) + s[n..]
  {
    assert s[..n] == s && s[n..] == [];
  }

  lemma InsertionStep(s: seq<Entry>, key: Entry, j: nat)
    requires j < |s| && s[j].glyphIndex > key.glyphIndex
    ensures Inserted(s[..j + 1], key) + s[j + 1..] == Inserted(s[..j], key) + s[j..]
  {
    assert s[..j + 1][..j] == s[..j];
    assert s[j..] == [s[j]] + s[j + 1..];
  }

  lemma InsertionEnd(s: seq<Entry>, key: Entry)
    requires s == [] || s[|s| - 1].glyphIndex <= key.glyphIndex
    ensures Inserted(s, key) == s + [key]
  {
  }

  method SortByGlyph(a: array<Entry>)
    modifies a
    ensures Sorted(a[..]) && multiset(a[..]) == multiset(old(a[..]))
  {
    hide Inserted;
    for i := 0 to a.Length
      invariant Sorted(a[..i]) && multiset(a[..]) == multiset(old(a[..]))
    {
      ghost var before := a[..];
      InsertedKeeps(before[..i], before[i]);
      InsertedSorted(before[..i], before[i]);
      assert before == before[..i] + [before[i]] + before[i + 1..];
      InsertEntry(a, i);
      assert a[..] == a[..i + 1] + a[i + 1..];
    }
    assert a[..a.Length] == a[..];
  }

  /** Sorted entries of distinct glyphs are strictly sorted. */
  lemma DistinctSorted(s: seq<Entry>, original: seq<Entry>)
    requires Sorted(s) && multiset(s) == multiset(original)
    requires forall i, j :: 0 <= i < j < |original| ==> original[i].glyphIndex != original[j].glyphIndex
    ensures StrictlySorted(s)
  {
    forall i, j | 0 <= i < j < |s| ensures s[i].glyphIndex != s[j].glyphIndex {
      if s[i].glyphIndex == s[j].glyphIndex {
        assert s[i] in multiset(original) && s[j] in multiset(original);
        var k :| 0 <= k < |original| && original[k] == s[i];
        var l :| 0 <= l < |original| && original[l] == s[j];
        assert k == l;
        TwiceInSequence(s, i, j);
        OnceInSequence(original, k);
      }
    }
  }

  lemma TwiceInSequence<T>(s: seq<T>, i: nat, j: nat)
    requires i < j < |s| && s[i] == s[j]
    ensures multiset(s)[s[i]] >= 2
  {
    assert s == s[..i] + [s[i]] + s[i + 1..j] + [s[j]] + s[j + 1..];
  }

  lemma OnceInSequence<T>(s: seq<T>, k: nat)
    requires k < |s| && forall i, j :: 0 <= i < j < |s| ==> s[i] != s[j]
    ensures multiset(s)[s[k]] == 1
  {
    assert s == s[..k] + [s[k]] + s[k + 1..];
    assert s[k] !in s[..k] && s[k] !in s[k + 1..];
  }

  // ---- Searching ----

  /** The position of a glyph's entry, or -1. */
  method FindEntry(a: array<Entry>, glyphIndex: nat) returns (pos: int)
    requires StrictlySorted(a[..])
    ensures -1 <= pos < a.Length
    ensures pos >= 0 ==> a[pos].glyphIndex == glyphIndex
    ensures pos < 0 ==> forall k :: 0 <= k < a.Length ==> a[k].glyphIndex != glyphIndex
  {
    var left, right := 0, a.Length - 1;
    while left <= right
      invariant 0 <= left <= right + 1 <= a.Length
      invariant forall k :: 0 <= k < left ==> a[..][k].glyphIndex < glyphIndex
      invariant forall k :: right < k < a.Length ==> glyphIndex < a[..][k].glyphIndex
    {
      var mid := left + (right - left) / 2;
      assert a[mid] == a[..][mid];
      if a[mid].glyphIndex == glyphIndex {
        return mid;
      }
      if a[mid].glyphIndex < glyphIndex {
        left := mid + 1;
      } else {
        right := mid - 1;
      }
    }
    assert forall k :: 0 <= k < a.Length ==> a[k] == a[..][k];
    pos := -1;
  }
}
