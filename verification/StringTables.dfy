/**
 * The deduplicated string tables of the UI languages: one blob of NUL-terminated strings and one table of
 * 16-bit offsets per language, with bit 15 for strings shared with English.
 */
module StringTables {
  import opened Bytes
  import opened Options

  const SHARED: nat := 0x8000
  const OFFSET_LIMIT: nat := 0x7FFF

  // ---- Texts ----

  type Codepoint = c: nat | c < 0x11_0000

  /** The generator works on characters; the firmware and the offsets on their UTF-8 bytes. */
  type Text = seq<Codepoint>

  const BACKSLASH: Codepoint := 92
  const QUOTE: Codepoint := 34
  const NEWLINE: Codepoint := 10

  function Utf8(c: Codepoint): (b: seq<byte>)
    ensures |b| > 0 && (c != 0 ==> 0 !in b) && (c < 0x80 ==> b == [c])
  {
    if c < 0x80 then [c]
    else if c < 0x800 then [0xC0 + c / 0x40, 0x80 + c % 0x40]
    else if c < 0x1_0000 then [0xE0 + c / 0x1000, 0x80 + c / 0x40 % 0x40, 0x80 + c % 0x40]
    else [0xF0 + c / 0x4_0000, 0x80 + c / 0x1000 % 0x40, 0x80 + c / 0x40 % 0x40, 0x80 + c % 0x40]
  }

  function Encoded(s: Text): (b: seq<byte>)
    ensures |b| >= |s| && (0 !in s ==> 0 !in b)
  {
    if s == [] then [] else Utf8(s[0]) + Encoded(s[1..])
  }

  // ---- The literal the C++ compiler sees ----

  /** Line breaks are spelled out first. */
  function SpellNewlines(s: Text): Text
  {
    if s == [] then [] else (if s[0] == NEWLINE then [BACKSLASH, 110] else [s[0]]) + SpellNewlines(s[1..])
  }

  /** The byte an escape of one letter stands for: n, t, r, the quote and the backslash. */
  function Simple(c: Codepoint): Option<byte>
  {
    if c == 110 then Some(10) else if c == 116 then Some(9) else if c == 114 then Some(13)
    else if c == QUOTE || c == BACKSLASH then Some(c) else None
  }

  function HexDigit(c: Codepoint): Option<nat>
  {
    if 48 <= c <= 57 then Some(c - 48) else if 65 <= c <= 70 then Some(c - 55)
    else if 97 <= c <= 102 then Some(c - 87) else None
  }

  /**
   * The bytes compiled from the escaped form of spelled-out text with the `\0` put behind it. A backslash before
   * n, t, r, a quote, a backslash, or an x with two more characters behind it is passed on as an escape, the x
   * with these two characters, where the literal then ends; any other backslash is doubled, but for one at the
   * very end: with the `\0` it makes a backslash and a zero digit. None when the result is no valid literal.
   */
  function Compiled(s: Text): (r: Option<seq<byte>>)
  {
    if s == [] then Some([0])
    else if s[0] != BACKSLASH then Prepend(Utf8(s[0]), Compiled(s[1..]))
    else if |s| == 1 then Some([92, 48])
    else if Simple(s[1]).Some? then Prepend([Simple(s[1]).value], Compiled(s[2..]))
    else if s[1] == 120 && |s| >= 4 then
      if HexDigit(s[2]).None? then None
      else if HexDigit(s[3]).Some? then
        Prepend([16 * HexDigit(s[2]).value + HexDigit(s[3]).value], Compiled(s[4..]))
      else if s[3] == QUOTE || s[3] == BACKSLASH then None
      else Prepend([HexDigit(s[2]).value] + Utf8(s[3]), Compiled(s[4..]))
    else Prepend([92], Compiled(s[1..]))
  }

  function Prepend(b: seq<byte>, rest: Option<seq<byte>>): (r: Option<seq<byte>>)
    ensures r.Some? <==> rest.Some?
    ensures r.Some? ==> r.value == b + rest.value
  {
    if rest.Some? then Some(b + rest.value) else None
  }

  /** What one string becomes in the firmware, the NUL behind it included. */
  function Literal(s: Text): Option<seq<byte>> { Compiled(SpellNewlines(s)) }

  /** A string arrives when its bytes and one NUL are compiled. */
  predicate Arrives(s: Text) { Literal(s) == Some(Encoded(s) + [0]) }

  lemma EncodedOne(s: Text)
    requires s != []
    ensures Encoded(s) == Utf8(s[0]) + Encoded(s[1..])
  {
  }

  /** Strings without backslashes arrive as they are, line breaks included. */
  lemma {:induction false} PlainArrives(s: Text)
    requires BACKSLASH !in s
    ensures Arrives(s)
  {
    hide Utf8;
    if s == [] {
      assert Encoded(s) + [0] == [0];
    } else {
      PlainArrives(s[1..]);
      var tail := SpellNewlines(s[1..]);
      assert Compiled(tail) == Some(Encoded(s[1..]) + [0]);
      EncodedOne(s);
      if s[0] == NEWLINE {
        assert SpellNewlines(s) == [BACKSLASH, 110] + tail && SpellNewlines(s)[2..] == tail;
        assert Utf8(NEWLINE) == [10] && Simple(110) == Some(10);
        assert Compiled(SpellNewlines(s)) == Prepend([10], Compiled(tail));
      } else {
        assert SpellNewlines(s) == [s[0]] + tail && SpellNewlines(s)[1..] == tail;
        assert Compiled(SpellNewlines(s)) == Prepend(Utf8(s[0]), Compiled(tail));
      }
      assert Utf8(s[0]) + (Encoded(s[1..]) + [0]) == Encoded(s) + [0];
      assert Literal(s) == Prepend(Utf8(s[0]), Compiled(tail));
    }
  }

  /** Every backslash is followed by a character that does not make an escape of it. */
  predicate LoneBackslashes(s: Text)
  {
    forall k :: 0 <= k < |s| && s[k] == BACKSLASH ==> LoneAt(s, k)
  }

  /**
   * The next character is no n, t, r, quote, backslash or line break, and no x with two more characters behind it, a
   * line break counting for two.
   */
  predicate LoneAt(s: Text, k: nat)
    requires k < |s|
  {
    k + 1 < |s| && s[k + 1] != 110 && s[k + 1] != 116 && s[k + 1] != 114 && s[k + 1] != 34 && s[k + 1] != 92 &&
    s[k + 1] != 10 && !(s[k + 1] == 120 && (|s| >= k + 4 || (|s| == k + 3 && s[k + 2] == 10)))
  }

  lemma LoneSpelled(s: Text, k: nat)
    requires k < |s|
    ensures LoneAt(s, k) <==> k + 1 < |s| && Simple(s[k + 1]).None? && s[k + 1] != NEWLINE &&
                              !(s[k + 1] == 120 && |SpellNewlines(s[k + 2..])| >= 2)
  {
    if k + 2 < |s| {
      SpellOne(s[k + 2..]);
      SpelledSize(s[k + 2..][1..]);
    }
  }

  lemma {:induction false} SpelledSize(s: Text)
    ensures |SpellNewlines(s)| >= |s|
  {
    if s != [] {
      SpelledSize(s[1..]);
    }
  }

  lemma EscapeCompiles(c: Codepoint)
    requires Simple(c).Some?
    ensures Literal([92, c]) == Some([Simple(c).value, 0])
  {
    hide Utf8, SpellNewlines;
    var s: Text := [92, c];
    Unbroken(s);
    assert s[2..] == [] && Literal(s) == Compiled(s) && Compiled([]) == Some([0]);
    assert Compiled(s) == Prepend([Simple(c).value], Compiled(s[2..]));
    assert [Simple(c).value] + [0] == [Simple(c).value, 0];
  }

  /** The digits of both cases, and no other character. */
  lemma HexDigitsAre(c: Codepoint, d: nat)
    ensures d < 10 ==> HexDigit(48 + d) == Some(d)
    ensures 10 <= d < 16 ==> HexDigit(55 + d) == Some(d) && HexDigit(87 + d) == Some(d)
    ensures c < 48 || 57 < c < 65 || 70 < c < 97 || 102 < c ==> HexDigit(c) == None
  {
  }

  lemma HexCompiles(a: Codepoint, b: Codepoint)
    requires HexDigit(a).Some? && HexDigit(b).Some?
    ensures 16 * HexDigit(a).value + HexDigit(b).value < 256
    ensures Literal([92, 120, a, b]) == Some([16 * HexDigit(a).value + HexDigit(b).value, 0])
  {
    hide Utf8, SpellNewlines;
    var s: Text := [92, 120, a, b];
    Unbroken(s);
    assert s[4..] == [] && Literal(s) == Compiled(s) && Compiled([]) == Some([0]);
    assert Compiled(s) == Prepend([16 * HexDigit(a).value + HexDigit(b).value], Compiled(s[4..]));
    assert [16 * HexDigit(a).value + HexDigit(b).value] + [0] == [16 * HexDigit(a).value + HexDigit(b).value, 0];
  }

  /** The escapes of a C++ string: line feed, tab, carriage return, quote, backslash and a byte in hexadecimal. */
  lemma EscapesCompile()
    ensures Literal([92, 110]) == Some([10, 0]) && Literal([92, 116]) == Some([9, 0])
    ensures Literal([92, 114]) == Some([13, 0]) && Literal([92, 34]) == Some([34, 0])
    ensures Literal([92, 92]) == Some([92, 0])
    ensures Literal([92, 120, 55, 97]) == Some([0x7A, 0]) && Literal([92, 120, 55, 70]) == Some([0x7F, 0])
  {
    hide Literal;
    EscapeCompiles(110);
    EscapeCompiles(116);
    EscapeCompiles(114);
    EscapeCompiles(34);
    EscapeCompiles(92);
    HexCompiles(55, 97);
    HexCompiles(55, 70);
  }

  lemma {:induction false} Unbroken(s: Text)
    requires NEWLINE !in s
    ensures SpellNewlines(s) == s
  {
    if s != [] {
      Unbroken(s[1..]);
    }
  }

  /** The bytes of a character are its UTF-8 form: as few as possible, and its bits can be put together again. */
  lemma Utf8Decodes(c: Codepoint)
    ensures var b := Utf8(c);
            |b| == (if c < 0x80 then 1 else if c < 0x800 then 2 else if c < 0x1_0000 then 3 else 4) &&
            (forall i :: 1 <= i < |b| ==> 0x80 <= b[i] < 0xC0) &&
            match |b|
            case 1 => c == b[0]
            case 2 => 0xC0 <= b[0] < 0xE0 && c == Bits(b[0] - 0xC0, b[1])
            case 3 => 0xE0 <= b[0] < 0xF0 && c == Bits(Bits(b[0] - 0xE0, b[1]), b[2])
            case _ => 0xF0 <= b[0] < 0xF8 && c == Bits(Bits(Bits(b[0] - 0xF0, b[1]), b[2]), b[3])
  {
    assert c / 0x1000 == c / 0x40 / 0x40 && c / 0x4_0000 == c / 0x1000 / 0x40;
  }

  /** Six more bits, from a continuation byte. */
  function Bits(front: int, b: byte): int { front * 64 + (b as int - 0x80) }

  lemma SpellOne(s: Text)
    requires s != []
    ensures SpellNewlines(s) == (if s[0] == NEWLINE then [BACKSLASH, 110] else [s[0]]) + SpellNewlines(s[1..])
  {
  }

  lemma LoneTail(s: Text)
    requires s != []
    ensures LoneBackslashes(s) <==> LoneBackslashes(s[1..]) && (s[0] == BACKSLASH ==> LoneAt(s, 0))
  {
    hide Simple, SpellNewlines;
    var t := s[1..];
    assert forall k :: 0 <= k < |t| ==> t[k] == s[k + 1];
    forall k | 0 <= k < |t| ensures LoneAt(t, k) == LoneAt(s, k + 1) {
      if k + 1 < |t| {
        assert t[k + 2..] == s[k + 3..];
      }
    }
    if LoneBackslashes(t) && (s[0] == BACKSLASH ==> LoneAt(s, 0)) {
      forall k | 0 <= k < |s| && s[k] == BACKSLASH ensures LoneAt(s, k) {
        if k > 0 {
          assert t[k - 1] == BACKSLASH && LoneAt(t, k - 1);
        }
      }
    }
    if LoneBackslashes(s) {
      forall k | 0 <= k < |t| && t[k] == BACKSLASH ensures LoneAt(t, k) {
        assert s[k + 1] == BACKSLASH;
      }
    }
  }

  /** What a text is compiled to has at most its bytes, ends in a NUL or, behind a last backslash, in a digit. */
  ghost predicate Falls(s: Text, b: seq<byte>)
  {
    0 < |b| <= |Encoded(s)| + 1 &&
    (b[|b| - 1] == 0 || (b[|b| - 1] == 48 && s != [] && s[|s| - 1] == BACKSLASH)) &&
    (LoneBackslashes(s) <==> b == Encoded(s) + [0])
  }

  /** Characters that are compiled to fewer bytes, in front of the others. */
  lemma FallsShorter(s: Text, n: nat, front: seq<byte>, b: seq<byte>)
    requires 0 < n <= |s| && Falls(s[n..], b) && !LoneBackslashes(s) && |front| + |Encoded(s[n..])| < |Encoded(s)|
    ensures Falls(s, front + b)
  {
    hide Encoded, LoneBackslashes;
    assert (front + b)[|front + b| - 1] == b[|b| - 1];
  }

  /** One character that is compiled to itself. */
  lemma FallsSame(s: Text, b: seq<byte>)
    requires s != [] && Falls(s[1..], b) && (s[0] == BACKSLASH ==> LoneAt(s, 0))
    ensures Falls(s, Utf8(s[0]) + b)
  {
    hide LoneBackslashes, LoneAt, Utf8, Encoded;
    LoneTail(s);
    EncodedOne(s);
    var u, whole := Utf8(s[0]), Encoded(s[1..]) + [0];
    assert (u + b)[|u + b| - 1] == b[|b| - 1];
    assert u + whole == Encoded(s) + [0];
    if u + b == u + whole {
      assert b == (u + b)[|u|..] == (u + whole)[|u|..] == whole;
    }
  }

  lemma EncodedFront(s: Text, n: nat)
    requires n <= |s|
    ensures |Encoded(s)| == |Encoded(s[..n])| + |Encoded(s[n..])| && |Encoded(s[..n])| >= n
    decreases n
  {
    hide Utf8;
    if n > 0 {
      EncodedFront(s[1..], n - 1);
      assert s[1..][..n - 1] == s[..n][1..] && s[1..][n - 1..] == s[n..];
    } else {
      assert s[0..] == s;
    }
  }

  /** A backslash in front of a line break makes two characters, and another second byte. */
  lemma FallsAtBreak(s: Text, b: seq<byte>)
    requires |s| > 1 && s[0] == BACKSLASH && s[1] == NEWLINE && Falls(s[2..], b)
    ensures Falls(s, [92, 110] + b)
  {
    hide LoneBackslashes, Utf8;
    LoneTail(s);
    EncodedOne(s);
    EncodedOne(s[1..]);
    assert s[1..][1..] == s[2..] && Utf8(BACKSLASH) == [92] && Utf8(NEWLINE) == [10];
    assert (Encoded(s) + [0])[1] == 10 && ([92, 110] + b)[1] == 110;
    assert ([92, 110] + b)[|b| + 1] == b[|b| - 1];
  }

  /** The literal of a text, unit by unit. */
  lemma LiteralUnits(s: Text)
    requires s != [] && Literal(s).Some?
    ensures (s[0] != BACKSLASH || LoneAt(s, 0)) ==> Literal(s) == Prepend(Utf8(s[0]), Literal(s[1..]))
    ensures s == [BACKSLASH] ==> Literal(s) == Some([92, 48])
    ensures |s| > 1 && s[0] == BACKSLASH && s[1] == NEWLINE ==> Literal(s) == Prepend([92, 110], Literal(s[2..]))
    ensures |s| > 1 && s[0] == BACKSLASH && s[1] != NEWLINE && !LoneAt(s, 0) ==>
              if Simple(s[1]).Some? then Literal(s) == Prepend([Simple(s[1]).value], Literal(s[2..]))
              else |s| >= 4 && exists front: seq<byte> :: |front| <= 1 + |Utf8(s[3])| &&
                                                          Literal(s) == Prepend(front, Literal(s[4..]))
  {
    hide Utf8, HexDigit;
    SpellOne(s);
    if |s| > 1 {
      SpellOne(s[1..]);
      assert s[1..][1..] == s[2..];
    }
    if s[0] == NEWLINE {
      BreakUnit(s);
    } else if |s| > 1 && s[0] == BACKSLASH && s[1] == NEWLINE {
      BackslashBreakUnit(s);
    } else if |s| > 1 && s[0] == BACKSLASH && Simple(s[1]).Some? {
      SimpleUnit(s);
    } else if |s| > 1 && s[0] == BACKSLASH && !LoneAt(s, 0) {
      HexUnit(s);
    } else if s[0] == BACKSLASH && LoneAt(s, 0) {
      LoneUnit(s);
    }
  }

  lemma SimpleUnit(s: Text)
    requires |s| > 1 && s[0] == BACKSLASH && Simple(s[1]).Some? && s[1] != NEWLINE
    ensures Literal(s) == Prepend([Simple(s[1]).value], Literal(s[2..]))
  {
    SpellOne(s);
    SpellOne(s[1..]);
    var t := SpellNewlines(s);
    assert s[1..][1..] == s[2..];
    assert t == [BACKSLASH, s[1]] + SpellNewlines(s[2..]) && t[2..] == SpellNewlines(s[2..]);
  }

  lemma BreakUnit(s: Text)
    requires s != [] && s[0] == NEWLINE
    ensures Literal(s) == Prepend(Utf8(NEWLINE), Literal(s[1..]))
  {
    SpellOne(s);
    var t, rest := SpellNewlines(s), SpellNewlines(s[1..]);
    assert t == [BACKSLASH, 110] + rest && t[2..] == rest;
    assert Simple(110) == Some(10);
  }

  lemma BackslashBreakUnit(s: Text)
    requires |s| > 1 && s[0] == BACKSLASH && s[1] == NEWLINE
    ensures Literal(s) == Prepend([92, 110], Literal(s[2..]))
  {
    SpellOne(s);
    SpellOne(s[1..]);
    assert s[1..][1..] == s[2..];
    assert SpellNewlines(s) == [BACKSLASH, BACKSLASH, 110] + SpellNewlines(s[2..]);
    CompiledBreak(SpellNewlines(s[2..]));
  }

  lemma CompiledBreak(rest: Text)
    ensures Compiled([BACKSLASH, BACKSLASH, 110] + rest) == Prepend([92, 110], Compiled(rest))
  {
    hide Utf8;
    var t, u := [BACKSLASH, BACKSLASH, 110] + rest, [110] + rest;
    assert t[2..] == u && u[1..] == rest;
    assert Compiled(u) == Prepend([110], Compiled(rest)) by { assert Utf8(110) == [110]; }
    assert Compiled(t) == Prepend([92], Compiled(u));
    if Compiled(rest).Some? {
      assert [92] + ([110] + Compiled(rest).value) == [92, 110] + Compiled(rest).value;
    }
  }

  /** A hex escape takes two characters of the text with it, neither of them a line break. */
  lemma HexUnit(s: Text)
    requires |s| > 1 && s[0] == BACKSLASH && s[1] != NEWLINE && Simple(s[1]).None? && !LoneAt(s, 0) && Literal(s).Some?
    ensures |s| >= 4 && exists front: seq<byte> :: |front| <= 1 + |Utf8(s[3])| &&
                                                   Literal(s) == Prepend(front, Literal(s[4..]))
  {
    hide Utf8;
    var t := SpellNewlines(s);
    SpellOne(s);
    SpellOne(s[1..]);
    assert s[1..][1..] == s[2..];
    assert t == [BACKSLASH, 120] + SpellNewlines(s[2..]) && |t| >= 4;
    SpellOne(s[2..]);
    assert HexDigit(t[2]).Some?;
    assert s[2] != NEWLINE && s[2..][1..] == s[3..];
    SpellOne(s[3..]);
    assert s[3] != NEWLINE && s[3..][1..] == s[4..];
    assert t[4..] == SpellNewlines(s[4..]) && t[3] == s[3];
    var front := if HexDigit(t[3]).Some? then [16 * HexDigit(t[2]).value + HexDigit(t[3]).value]
                 else [HexDigit(t[2]).value] + Utf8(t[3]);
    assert Literal(s) == Prepend(front, Literal(s[4..]));
  }

  lemma {:induction false} LiteralFalls(s: Text)
    requires Literal(s).Some?
    ensures Falls(s, Literal(s).value)
  {
    hide Utf8, Encoded, LoneBackslashes, Falls, Literal;
    if s == [] {
      EmptyFalls();
    } else {
      LiteralUnits(s);
      if s[0] != BACKSLASH || LoneAt(s, 0) {
        LiteralFalls(s[1..]);
        FallsSame(s, Literal(s[1..]).value);
      } else if |s| == 1 {
        TrailingFalls(s);
      } else if s[1] == NEWLINE {
        LiteralFalls(s[2..]);
        FallsAtBreak(s, Literal(s[2..]).value);
      } else {
        NotLone(s);
        var n := if Simple(s[1]).Some? then 2 else 4;
        LiteralFalls(s[n..]);
        var front: seq<byte>;
        if n == 2 {
          front := [Simple(s[1]).value];
        } else {
          front :| Literal(s) == Prepend(front, Literal(s[4..])) && |front| <= 1 + |Utf8(s[3])|;
        }
        EscapeShorter(s, n, front);
        FallsShorter(s, n, front, Literal(s[n..]).value);
      }
    }
  }

  lemma EmptyFalls()
    ensures Literal([]) == Some([0]) && Falls([], [0])
  {
  }

  lemma NotLone(s: Text)
    requires s != [] && s[0] == BACKSLASH && !LoneAt(s, 0)
    ensures !LoneBackslashes(s)
  {
    LoneTail(s);
  }

  lemma TrailingFalls(s: Text)
    requires s == [BACKSLASH]
    ensures Falls(s, [92, 48])
  {
    NotLone(s);
    EncodedOne(s);
    assert s[1..] == [];
    assert (Encoded(s) + [0])[1] == 0;
  }

  lemma EscapeShorter(s: Text, n: nat, front: seq<byte>)
    requires n == 2 || n == 4
    requires n <= |s| && |front| <= if n == 2 then 1 else 1 + |Utf8(s[3])|
    ensures |front| + |Encoded(s[n..])| < |Encoded(s)|
  {
    hide Utf8;
    if n == 4 {
      EncodedFront(s, 3);
      EncodedOne(s[3..]);
      assert s[3..][1..] == s[4..];
    } else {
      EncodedFront(s, n);
    }
  }

  /**
   * A text arrives unchanged exactly when every backslash in it is followed by a character that makes no escape of it,
   * line breaks included.
   */
  lemma LineArrives(s: Text)
    ensures Arrives(s) <==> LoneBackslashes(s)
  {
    hide Literal, Encoded, LoneBackslashes;
    if LoneBackslashes(s) {
      LoneCompiles(s);
    }
    if Literal(s).Some? {
      LiteralFalls(s);
    }
  }

  lemma {:induction false} LoneCompiles(s: Text)
    requires LoneBackslashes(s)
    ensures Literal(s).Some?
  {
    hide Utf8, LoneBackslashes, HexDigit;
    if s != [] {
      LoneTail(s);
      LoneCompiles(s[1..]);
      SpellOne(s);
      if s[0] == NEWLINE {
        BreakUnit(s);
      } else if s[0] == BACKSLASH {
        LoneUnit(s);
      } else {
        assert SpellNewlines(s)[1..] == SpellNewlines(s[1..]);
      }
    }
  }

  lemma LoneUnit(s: Text)
    requires s != [] && s[0] == BACKSLASH && LoneAt(s, 0)
    ensures Literal(s) == Prepend([92], Literal(s[1..]))
  {
    SpellOne(s);
    SpellOne(s[1..]);
    assert s[1..][1..] == s[2..];
    var t := SpellNewlines(s);
    assert t == [BACKSLASH, s[1]] + SpellNewlines(s[2..]) && t[1..] == SpellNewlines(s[1..]);
  }

  /** Where characters are not bytes: a backslash, an x and one letter of two bytes behind them arrive. */
  lemma ShortHexArrives()
    ensures var s := [BACKSLASH, 120, 0xE9];
            Arrives(s) && Encoded(s) == [92, 120, 0xC3, 0xA9]
  {
    var s: Text := [BACKSLASH, 120, 0xE9];
    SpellOne(s[2..]);
    assert s[2..][1..] == [] && SpellNewlines([]) == [];
    LineArrives(s);
    EncodedOne(s);
    EncodedOne(s[1..]);
    EncodedOne(s[2..]);
    assert s[1..][1..] == s[2..] && s[2..][1..] == [];
  }

  /** A backslash at the end of a line takes the NUL away. */
  lemma TrailingBackslash()
    ensures Literal([BACKSLASH]) == Some([92, 48])
  {
    SpellOne([BACKSLASH]);
    assert [BACKSLASH][1..] == [];
  }

  // ---- Blobs ----

  predicate Compiles(strings: seq<Text>) { forall s :: s in strings ==> Literal(s).Some? }

  /** All strings of a table, each with what is behind it. */
  function Blob(strings: seq<Text>): seq<byte>
    requires Compiles(strings)
  {
    if strings == [] then [] else Blob(strings[..|strings| - 1]) + Literal(strings[|strings| - 1]).value
  }

  /** What the generator takes the size of the blob to be. */
  function Size(strings: seq<Text>): nat
  {
    if strings == [] then 0 else Size(strings[..|strings| - 1]) + |Encoded(strings[|strings| - 1])| + 1
  }

  /** The NUL-terminated string at an offset. */
  function CString(blob: seq<byte>, offset: nat): (s: seq<byte>)
    ensures 0 !in s && (s != [] ==> offset + |s| <= |blob|)
    decreases |blob| - offset
  {
    if offset >= |blob| || blob[offset] == 0 then [] else [blob[offset]] + CString(blob, offset + 1)
  }

  /** A string is read exactly when its bytes lie there and a NUL, or the end, behind them. */
  lemma {:induction false} ReadsExactly(blob: seq<byte>, offset: nat, s: seq<byte>)
    requires offset <= |blob| && 0 !in s
    ensures CString(blob, offset) == s <==>
            offset + |s| <= |blob| && blob[offset..offset + |s|] == s &&
            (offset + |s| == |blob| || blob[offset + |s|] == 0)
    decreases |s|
  {
    if s == [] {
      assert blob[offset..offset] == [];
    } else if offset < |blob| && blob[offset] == s[0] {
      ReadsExactly(blob, offset + 1, s[1..]);
      assert s == [s[0]] + s[1..];
      if offset + |s| <= |blob| {
        assert blob[offset..offset + |s|] == [s[0]] + blob[offset + 1..offset + |s|];
      }
    } else if offset + |s| <= |blob| {
      assert blob[offset..offset + |s|][0] == blob[offset];
    }
  }

  /** The blob around its i-th string. */
  lemma {:induction false} BlobAround(strings: seq<Text>, i: nat) returns (rest: seq<byte>)
    requires Compiles(strings) && i < |strings|
    ensures Compiles(strings[..i]) && Blob(strings) == Blob(strings[..i]) + Literal(strings[i]).value + rest
    decreases |strings|
  {
    hide Literal;
    var n := |strings| - 1;
    if i == n {
      rest := [];
      assert Blob(strings) == Blob(strings[..i]) + Literal(strings[i]).value + rest;
    } else {
      var before := BlobAround(strings[..n], i);
      assert strings[..n][..i] == strings[..i];
      rest := before + Literal(strings[n]).value;
      assert Blob(strings[..i]) + Literal(strings[i]).value + rest ==
             (Blob(strings[..i]) + Literal(strings[i]).value + before) + Literal(strings[n]).value;
    }
  }

  /** The sizes are right when every string arrives as it is. */
  lemma {:induction false} SizeIsRight(strings: seq<Text>)
    requires forall s :: s in strings ==> Arrives(s)
    ensures Compiles(strings) && |Blob(strings)| == Size(strings)
  {
    hide Literal, Encoded;
    if strings != [] {
      var n := |strings| - 1;
      SizeIsRight(strings[..n]);
      assert Arrives(strings[n]);
    }
  }

  lemma {:induction false} SizeMonotone(strings: seq<Text>, i: nat)
    requires i <= |strings|
    ensures Size(strings[..i]) <= Size(strings) && (i < |strings| ==> Size(strings[..i]) < Size(strings))
  {
    hide Encoded;
    if i < |strings| {
      SizeMonotone(strings[..|strings| - 1], i);
      assert strings[..|strings| - 1][..i] == strings[..i];
    } else {
      assert strings[..i] == strings;
    }
  }

  /** Reading at the generated offset gives back the string. */
  lemma StringAtOffset(strings: seq<Text>, i: nat)
    requires i < |strings| && forall s :: s in strings ==> Arrives(s) && 0 !in s
    ensures Compiles(strings) && CString(Blob(strings), Size(strings[..i])) == Encoded(strings[i])
  {
    hide Literal, Encoded, Blob, Size, CString;
    SizeIsRight(strings);
    var rest := BlobAround(strings, i);
    SizeIsRight(strings[..i]);
    assert Arrives(strings[i]);
    IsThere(Blob(strings[..i]), Encoded(strings[i]), rest);
  }

  lemma IsThere(a: seq<byte>, s: seq<byte>, rest: seq<byte>)
    requires 0 !in s
    ensures CString(a + (s + [0]) + rest, |a|) == s
  {
    hide CString;
    var blob := a + (s + [0]) + rest;
    assert blob[|a|..|a| + |s|] == s && blob[|a| + |s|] == 0;
    ReadsExactly(blob, |a|, s);
  }

  /** The table compiles, and at every offset its string is read. */
  predicate ReadsBack(strings: seq<Text>)
  {
    Compiles(strings) && forall i :: 0 <= i < |strings| ==>
        CString(Blob(strings), Size(strings[..i])) == Encoded(strings[i])
  }

  predicate NoNuls(strings: seq<Text>)
  {
    forall s :: s in strings ==> 0 !in s
  }

  lemma {:induction false} BlobFalls(strings: seq<Text>)
    requires NoNuls(strings) && Compiles(strings)
    ensures |Blob(strings)| <= Size(strings)
  {
    hide Literal, Encoded, LoneBackslashes;
    if strings != [] {
      var n := |strings| - 1;
      BlobFalls(strings[..n]);
      LiteralFalls(strings[n]);
    }
  }

  /** How many bytes the blob falls short by up to string i, it falls short by in all. */
  lemma {:induction false} ShortfallGrows(strings: seq<Text>, i: nat)
    requires NoNuls(strings) && Compiles(strings) && i <= |strings|
    ensures Compiles(strings[..i]) && Size(strings[..i]) - |Blob(strings[..i])| <= Size(strings) - |Blob(strings)|
    decreases |strings|
  {
    hide Literal, Encoded, LoneBackslashes;
    if i == |strings| {
      assert strings[..i] == strings;
    } else {
      var n := |strings| - 1;
      ShortfallGrows(strings[..n], i);
      assert strings[..n][..i] == strings[..i];
      LiteralFalls(strings[n]);
    }
  }

  /** The last string that is not empty is read whole only if at most one byte is missing up to its end. */
  lemma LastIsRead(strings: seq<Text>, j: nat)
    requires NoNuls(strings) && ReadsBack(strings) && j < |strings| && strings[j] != []
    requires forall k :: j < k < |strings| ==> strings[k] == []
    ensures Compiles(strings[..j + 1]) && Size(strings[..j + 1]) <= |Blob(strings[..j + 1])| + 1
  {
    hide Literal, LoneBackslashes, Encoded, Blob;
    var s, blob, offset := Encoded(strings[j]), Blob(strings), Size(strings[..j]);
    var zeros := ZerosBehind(strings, j + 1);
    assert CString(blob, offset) == s && s != [];
    ReadsExactly(blob, offset, s);
    assert strings[..j + 1][..j] == strings[..j];
    assert Size(strings[..j + 1]) == offset + |s| + 1;
    var last := |s| - 1;
    assert blob[offset..offset + |s|][last] == s[last] && s[last] != 0;
    assert forall k :: |Blob(strings[..j + 1])| <= k < |blob| ==> blob[k] == 0;
  }

  /** Behind the last string that is not empty there are only NULs. */
  lemma {:induction false} ZerosBehind(strings: seq<Text>, n: nat) returns (zeros: seq<byte>)
    requires Compiles(strings) && n <= |strings| && forall k :: n <= k < |strings| ==> strings[k] == []
    ensures Compiles(strings[..n]) && Blob(strings) == Blob(strings[..n]) + zeros
    ensures forall k :: 0 <= k < |zeros| ==> zeros[k] == 0
    decreases |strings|
  {
    hide Literal;
    if n == |strings| {
      assert strings[..n] == strings;
      zeros := [];
    } else {
      var m := |strings| - 1;
      zeros := ZerosBehind(strings[..m], n);
      assert strings[..m][..n] == strings[..n];
      assert Literal([]) == Some([0]) by { EmptyLiteral(); }
      assert Blob(strings) == Blob(strings[..n]) + (zeros + [0]);
      zeros := zeros + [0];
    }
  }

  lemma EmptyLiteral()
    ensures Literal([]) == Some([0])
  {
  }

  lemma LastText(strings: seq<Text>, i: nat) returns (j: nat)
    requires i < |strings| && strings[i] != []
    ensures i <= j < |strings| && strings[j] != [] && forall k :: j < k < |strings| ==> strings[k] == []
    decreases |strings|
  {
    j := |strings| - 1;
    while strings[j] == []
      invariant i <= j < |strings| && forall k :: j < k < |strings| ==> strings[k] == []
      decreases j
    {
      j := j - 1;
    }
  }

  /** The first string that does not arrive is not read, whatever the strings behind it are compiled to. */
  lemma ChangedIsNotRead(strings: seq<Text>, i: nat)
    requires NoNuls(strings) && i < |strings| && !LoneBackslashes(strings[i])
    requires forall s :: s in strings[..i] ==> Arrives(s)
    ensures !ReadsBack(strings)
  {
    hide Literal, Encoded, Arrives, Blob, Size, CString, Falls;
    if ReadsBack(strings) {
      SizeIsRight(strings[..i]);
      LiteralFalls(strings[i]);
      AlmostWhole(strings, i);
      NotReadThere(strings, i);
    }
  }

  /** Of a string that is read back, and has only strings that arrive in front of it, at most one byte is missing. */
  lemma AlmostWhole(strings: seq<Text>, i: nat)
    requires NoNuls(strings) && ReadsBack(strings) && i < |strings| && strings[i] != []
    requires Compiles(strings[..i]) && |Blob(strings[..i])| == Size(strings[..i])
    ensures Literal(strings[i]).Some? && |Encoded(strings[i])| <= |Literal(strings[i]).value|
  {
    hide Literal, Encoded, Blob, Size, CString;
    var j := LastText(strings, i);
    LastIsRead(strings, j);
    var front := strings[..j + 1];
    assert front[..i + 1] == strings[..i + 1];
    ShortfallGrows(front, i + 1);
    BlobNext(strings, i);
  }

  lemma BlobNext(strings: seq<Text>, i: nat)
    requires Compiles(strings) && i < |strings|
    ensures Compiles(strings[..i]) && Compiles(strings[..i + 1])
    ensures Blob(strings[..i + 1]) == Blob(strings[..i]) + Literal(strings[i]).value
    ensures Size(strings[..i + 1]) == Size(strings[..i]) + |Encoded(strings[i])| + 1
  {
    hide Literal, Encoded;
    assert strings[..i + 1][..i] == strings[..i];
  }

  /** The string is one byte short and ends otherwise, or has a digit where its NUL should be. */
  lemma NotReadThere(strings: seq<Text>, i: nat)
    requires NoNuls(strings) && Compiles(strings) && i < |strings| && !LoneBackslashes(strings[i])
    requires |Blob(strings[..i])| == Size(strings[..i]) && |Encoded(strings[i])| <= |Literal(strings[i]).value|
    requires Falls(strings[i], Literal(strings[i]).value)
    ensures CString(Blob(strings), Size(strings[..i])) != Encoded(strings[i])
  {
    hide Literal, Encoded, Blob;
    var rest := BlobAround(strings, i);
    LastByte(strings[i]);
    NotThere(Blob(strings[..i]), Literal(strings[i]).value, rest, Encoded(strings[i]));
  }

  lemma NotThere(a: seq<byte>, b: seq<byte>, rest: seq<byte>, s: seq<byte>)
    requires s != [] && 0 !in s && 0 < |b| && |s| <= |b| <= |s| + 1
    requires b[|b| - 1] == 0 || (b[|b| - 1] == 48 && s[|s| - 1] == 92)
    requires b != s + [0]
    ensures CString(a + b + rest, |a|) != s
  {
    hide CString;
    var blob := a + b + rest;
    ReadsExactly(blob, |a|, s);
    assert blob[|a| + |b| - 1] == b[|b| - 1];
    assert blob[|a|..|a| + |b|] == b;
    if |b| == |s| {
      assert blob[|a|..|a| + |s|][|s| - 1] == b[|b| - 1];
    } else {
      assert b[..|s|] == blob[|a|..|a| + |s|] && b == b[..|s|] + [b[|s|]];
    }
  }

  lemma {:induction false} LastByte(s: Text)
    requires s != []
    ensures Encoded(s) != [] && (s[|s| - 1] == BACKSLASH ==> Encoded(s)[|Encoded(s)| - 1] == 92)
  {
    if |s| == 1 {
      assert s[1..] == [];
      EncodedOne(s);
    } else {
      LastByte(s[1..]);
      assert s[1..][|s[1..]| - 1] == s[|s| - 1];
      EncodedOne(s);
    }
  }

  /**
   * A table of texts without NUL compiles and reads back exactly when no text holds a backslash that makes an
   * escape, or ends in one: the offsets count the bytes of the text, not those of the compiled literal.
   */
  lemma TableReadsBack(strings: seq<Text>)
    requires NoNuls(strings)
    ensures ReadsBack(strings) <==> forall s :: s in strings ==> LoneBackslashes(s)
  {
    hide Literal, LoneBackslashes, Encoded, Blob, Size, CString, Arrives;
    forall s | s in strings ensures Arrives(s) <==> LoneBackslashes(s) {
      LineArrives(s);
    }
    if forall s :: s in strings ==> LoneBackslashes(s) {
      SizeIsRight(strings);
      forall i | 0 <= i < |strings| ensures CString(Blob(strings), Size(strings[..i])) == Encoded(strings[i]) {
        StringAtOffset(strings, i);
      }
    } else {
      var i := FirstChanged(strings, |strings|);
      ChangedIsNotRead(strings, i);
    }
  }

  /** A backslash and an n in the text compile to one byte, and the next string is read one byte late. */
  lemma EscapeShiftsOffsets()
    ensures var t := [[BACKSLASH, 110], [98]];
            Compiles(t) && Blob(t) == [10, 0, 98, 0] && Size(t[..1]) == 3 && CString(Blob(t), 3) != Encoded(t[1])
  {
    var first, second: Text := [BACKSLASH, 110], [98];
    PlainArrives(second);
    SpellOne(first);
    SpellOne(first[1..]);
    EncodedOne(second);
    assert second[1..] == [] && first[2..] == [] && first[1..][1..] == [];
    assert Compiled([]) == Some([0]) && Compiled(first) == Prepend([10], Compiled(first[2..]));
    assert Encoded(second) == [98] && Literal(second) == Some([98] + [0]);
    SimpleUnit(first);
    EmptyFalls();
    assert Literal(first) == Some([10] + [0]);
    EncodedOne(first);
    EncodedOne(first[1..]);
    var t, front: seq<Text> := [first, second], [first];
    assert t[..1] == front && front[..0] == [];
    assert Blob(front) == [] + [10, 0];
    assert Size(front) == 3;
  }

  lemma {:induction false} FirstChanged(strings: seq<Text>, n: nat) returns (i: nat)
    requires n <= |strings| && exists k :: 0 <= k < n && !Arrives(strings[k])
    ensures i < n && !Arrives(strings[i]) && forall s :: s in strings[..i] ==> Arrives(s)
  {
    hide Arrives;
    if exists k :: 0 <= k < n - 1 && !Arrives(strings[k]) {
      i := FirstChanged(strings, n - 1);
    } else {
      i := n - 1;
    }
  }

  // ---- The generated tables ----

  datatype Table = Table(offsets: seq<nat>, strings: seq<Text>)

  /** English holds all its strings. None when the blob is too large for 15-bit offsets. */
  method EnglishTable(strings: seq<Text>) returns (t: Option<Table>)
    ensures t.Some? <==> Size(strings) <= 0x7FFF
    ensures t.Some? ==> t.value.strings == strings && |t.value.offsets| == |strings|
    ensures t.Some? ==> forall i :: 0 <= i < |strings| ==> t.value.offsets[i] == Size(strings[..i]) < 0x8000
  {
    var offsets, current := [], 0;
    for i := 0 to |strings|
      invariant |offsets| == i && current == Size(strings[..i])
      invariant forall k :: 0 <= k < i ==> offsets[k] == Size(strings[..k])
    {
      offsets := offsets + [current];
      assert strings[..i + 1][..i] == strings[..i];
      current := current + |Encoded(strings[i])| + 1;
    }
    assert strings[..|strings|] == strings;
    if current > OFFSET_LIMIT {
      return None;
    }
    forall i | 0 <= i < |strings| ensures offsets[i] < SHARED {
      SizeMonotone(strings, i);
    }
    t := Some(Table(offsets, strings));
  }

  /** The strings of a language that differ from the English ones. */
  function Own(strings: seq<Text>, english: seq<Text>, n: nat): (own: seq<Text>)
    requires n <= |strings| == |english|
    ensures forall s :: s in own ==> s in strings
  {
    if n == 0 then []
    else Own(strings, english, n - 1) + (if strings[n - 1] == english[n - 1] then [] else [strings[n - 1]])
  }

  lemma {:induction false} OwnPrefix(strings: seq<Text>, english: seq<Text>, k: nat, n: nat)
    requires k < n <= |strings| == |english| && strings[k] != english[k]
    ensures var own := Own(strings, english, n);
            |Own(strings, english, k)| < |own| && own[..|Own(strings, english, k)|] == Own(strings, english, k) &&
            own[|Own(strings, english, k)|] == strings[k]
    decreases n
  {
    if k < n - 1 {
      OwnPrefix(strings, english, k, n - 1);
    }
  }

  /** The offset generated for a string. */
  function OffsetOf(strings: seq<Text>, english: seq<Text>, i: nat): nat
    requires i < |strings| == |english|
  {
    if strings[i] == english[i] then SHARED + Size(english[..i]) else Size(Own(strings, english, i))
  }

  /** Any other language holds its own strings, and points at the English ones it shares. */
  method LanguageTable(strings: seq<Text>, english: seq<Text>, englishTable: Table) returns (t: Option<Table>)
    requires |strings| == |english| == |englishTable.offsets|
    requires forall i :: 0 <= i < |english| ==> englishTable.offsets[i] == Size(english[..i]) < SHARED
    ensures t.Some? <==> Size(Own(strings, english, |strings|)) <= 0x7FFF
    ensures t.Some? ==> t.value.strings == Own(strings, english, |strings|) && |t.value.offsets| == |strings|
    ensures t.Some? ==> forall i :: 0 <= i < |strings| ==> t.value.offsets[i] == OffsetOf(strings, english, i)
    ensures t.Some? ==> forall i :: 0 <= i < |strings| ==> (t.value.offsets[i] < 0x8000 <==> strings[i] != english[i])
    ensures t.Some? ==> forall i :: 0 <= i < |strings| ==>
              (strings[i] == english[i] ==> t.value.offsets[i] == 0x8000 + Size(english[..i]))
  {
    hide Own, Size;
    var offsets, current, own := [], 0, [];
    NoneOwn(strings, english);
    for i := 0 to |strings|
      invariant |offsets| == i && own == Own(strings, english, i) && current == Size(own)
      invariant forall k :: 0 <= k < i ==> offsets[k] == OffsetOf(strings, english, k)
    {
      OwnNext(strings, english, i);
      if strings[i] == english[i] {
        offsets := offsets + [englishTable.offsets[i] + SHARED];
      } else {
        offsets := offsets + [current];
        current := current + |Encoded(strings[i])| + 1;
        own := own + [strings[i]];
      }
    }
    if current > OFFSET_LIMIT {
      return None;
    }
    forall i | 0 <= i < |strings| && strings[i] != english[i] ensures offsets[i] < SHARED {
      OwnPrefix(strings, english, i, |strings|);
      SizeMonotone(own, |Own(strings, english, i)|);
    }
    t := Some(Table(offsets, own));
  }

  lemma NoneOwn(strings: seq<Text>, english: seq<Text>)
    requires |strings| == |english|
    ensures Own(strings, english, 0) == [] && Size([]) == 0
  {
  }

  lemma OwnNext(strings: seq<Text>, english: seq<Text>, i: nat)
    requires i < |strings| == |english|
    ensures var own := Own(strings, english, i);
            Own(strings, english, i + 1) == (if strings[i] == english[i] then own else own + [strings[i]]) &&
            Size(own + [strings[i]]) == Size(own) + |Encoded(strings[i])| + 1
  {
    assert (Own(strings, english, i) + [strings[i]])[..|Own(strings, english, i)|] == Own(strings, english, i);
  }

  // ---- Looking a string up ----

  function Lookup(english: seq<byte>, blob: seq<byte>, offset: nat): seq<byte>
  {
    if offset >= SHARED then CString(english, offset - SHARED) else CString(blob, offset)
  }

  /** Every string of every language is found under its offset. */
  lemma LookupFinds(strings: seq<Text>, english: seq<Text>, i: nat)
    requires i < |strings| == |english|
    requires (forall s :: s in strings ==> Arrives(s) && 0 !in s) && forall s :: s in english ==> Arrives(s) && 0 !in s
    requires Size(english) <= OFFSET_LIMIT && Size(Own(strings, english, |strings|)) <= OFFSET_LIMIT
    ensures var own := Own(strings, english, |strings|);
            Compiles(english) && Compiles(own) &&
            Lookup(Blob(english), Blob(own), OffsetOf(strings, english, i)) == Encoded(strings[i])
  {
    hide Arrives, Own, Size, Blob, CString, Compiles;
    var own := Own(strings, english, |strings|);
    SizeIsRight(english);
    SizeIsRight(own);
    if strings[i] == english[i] {
      StringAtOffset(english, i);
    } else {
      OwnPrefix(strings, english, i, |strings|);
      var k := |Own(strings, english, i)|;
      SizeMonotone(own, k);
      StringAtOffset(own, k);
    }
  }

  // ---- The languages built in ----

  datatype Selection = All | Only(codes: set<string>) | Unknown

  predicate IsSpace(c: char) { c == ' ' || c == '\t' || c == '\n' || c == '\r' }

  function Strip(s: string): string
  {
    if s == "" then "" else if IsSpace(s[0]) then Strip(s[1..])
    else if IsSpace(s[|s| - 1]) then Strip(s[..|s| - 1]) else s
  }

  function UpperChar(c: char): char { if 'a' <= c <= 'z' then (c as int - 32) as char else c }

  function Upper(s: string): (u: string)
    ensures |u| == |s|
  {
    seq(|s|, i requires 0 <= i < |s| => UpperChar(s[i]))
  }

  /** The parts between the commas. */
  function Parts(s: string): seq<string>
  {
    if s == "" then [""]
    else
      var rest := Parts(s[1..]);
      if s[0] == ',' then [""] + rest else if rest == [] then [[s[0]]] else [[s[0]] + rest[0]] + rest[1..]
  }

  /** The codes asked for, upper-cased. */
  function Requested(parts: seq<string>): (r: seq<string>)
  {
    if parts == [] then []
    else (if Strip(parts[0]) == "" then [] else [Upper(Strip(parts[0]))]) + Requested(parts[1..])
  }

  /** Small letters become capital ones, and nothing else changes. */
  lemma UpperLetters(s: string)
    ensures Upper("abcdefghijklmnopqrstuvwxyz") == "ABCDEFGHIJKLMNOPQRSTUVWXYZ"
    ensures (forall i :: 0 <= i < |s| ==> s[i] < 'a' || 'z' < s[i]) ==> Upper(s) == s
  {
  }

  predicate Blank(s: string) { forall i :: 0 <= i < |s| ==>
                               s[i] == ' ' || s[i] == '\t' || s[i] == '\n' || s[i] == '\r' }

  /** Blanks at both ends go, and only these. */
  lemma {:induction false} StripsBlanks(before: string, s: string, after: string)
    requires Blank(before) && Blank(after)
    requires s != "" ==> !Blank(s[..1]) && !Blank(s[|s| - 1..])
    ensures Strip(before + s + after) == s
    decreases |before| + |after|
  {
    var all := before + s + after;
    if before != "" {
      StripsBlanks(before[1..], s, after);
      assert all[0] == before[0] && all[1..] == before[1..] + s + after;
    } else if after != "" {
      StripsBlanks(before, s, after[..|after| - 1]);
      assert all[..|all| - 1] == before + s + after[..|after| - 1] && all[|all| - 1] == after[|after| - 1];
      if s == "" {
        OnlyBlanks(all);
      } else {
        assert all[0] == s[0] && s[..1][0] == s[0];
      }
    } else {
      assert all == s;
      if s != "" {
        assert s[..1][0] == s[0] && s[|s| - 1..][0] == s[|s| - 1];
      }
    }
  }

  lemma {:induction false} OnlyBlanks(s: string)
    requires Blank(s)
    ensures Strip(s) == ""
  {
    if s != "" {
      OnlyBlanks(s[1..]);
    }
  }

  /** A list of codes with commas between them. */
  function Listed(codes: seq<string>): string
    requires codes != []
  {
    if |codes| == 1 then codes[0] else codes[0] + "," + Listed(codes[1..])
  }

  /** The parts of a list are what was listed. */
  lemma {:induction false} PartsOfList(codes: seq<string>)
    requires codes != [] && forall c :: c in codes ==> ',' !in c
    ensures Parts(Listed(codes)) == codes
    decreases |codes|, |codes[0]|
  {
    if codes[0] != "" {
      var rest := [codes[0][1..]] + codes[1..];
      forall c | c in rest ensures ',' !in c {
        assert c == codes[0][1..] || c in codes;
        assert codes[0] in codes;
      }
      PartsOfList(rest);
      var s := Listed(codes);
      assert rest[1..] == codes[1..];
      assert s[0] == codes[0][0] && s[1..] == Listed(rest);
      assert codes[0] in codes && s[0] in codes[0];
      assert Parts(s) == [[s[0]] + rest[0]] + rest[1..];
      assert [codes[0][0]] + codes[0][1..] == codes[0] && [codes[0]] + codes[1..] == codes;
    } else if |codes| > 1 {
      PartsOfList(codes[1..]);
      assert Listed(codes)[0] == ',' && Listed(codes)[1..] == Listed(codes[1..]);
    } else {
      assert codes == [""];
    }
  }

  /** What is asked for are the parts that are not blank, stripped and in capital letters. */
  lemma {:induction false} RequestedOf(parts: seq<string>, code: string)
    ensures code in Requested(parts) <==> exists p :: p in parts && Strip(p) != "" && code == Upper(Strip(p))
  {
    hide Strip, Upper;
    if parts != [] {
      RequestedOf(parts[1..], code);
      if code in Requested(parts) && code !in Requested(parts[1..]) {
        assert parts[0] in parts;
      }
      if p :| p in parts && Strip(p) != "" && code == Upper(Strip(p)) {
        assert p == parts[0] || p in parts[1..];
      }
    }
  }

  /** The language with this upper-cased code; the last one listed when there are several. */
  function ByUpper(languages: seq<string>, code: string): Option<string>
  {
    if languages == [] then None
    else if Upper(languages[|languages| - 1]) == code then Some(languages[|languages| - 1])
    else ByUpper(languages[..|languages| - 1], code)
  }

  lemma {:induction false} ByUpperFinds(languages: seq<string>, code: string)
    ensures match ByUpper(languages, code)
            case Some(l) => l in languages && Upper(l) == code
            case None => forall l :: l in languages ==> Upper(l) != code
  {
    if languages != [] {
      var n := |languages| - 1;
      ByUpperFinds(languages[..n], code);
      assert languages == languages[..n] + [languages[n]];
    }
  }

  /**
   * Resolves the list of languages to build in. English is always among them, every code asked for is, and
   * a code nobody knows is an error.
   */
  method ParseBuiltinLangs(value: Option<string>, languages: seq<string>) returns (r: Selection)
    ensures r.All? <==> value.None? || Upper(Strip(value.value)) in ["", "ALL"]
    ensures r.Only? ==> "EN" in r.codes && forall c :: c in r.codes ==> c == "EN" || c in languages
    ensures r.Only? ==> forall t :: t in Requested(Parts(value.value)) ==> exists c :: c in r.codes && Upper(c) == t
    ensures r.Only? ==> forall c :: c in r.codes ==> c == "EN" || Upper(c) in Requested(Parts(value.value))
    ensures r.Unknown? ==> exists t :: t in Requested(Parts(value.value)) && forall l :: l in languages ==>
              Upper(l) != t
  {
    hide Upper, Strip, Parts, Requested, ByUpper;
    if value.None? || Upper(Strip(value.value)) in ["", "ALL"] {
      return All;
    }
    var requested := Requested(Parts(value.value));
    var codes: set<string> := {};
    for i := 0 to |requested|
      invariant forall c :: c in codes ==> c in languages && Upper(c) in requested
      invariant forall k :: 0 <= k < i ==> exists c :: c in codes && Upper(c) == requested[k]
    {
      ByUpperFinds(languages, requested[i]);
      var found := ByUpper(languages, requested[i]);
      if found.None? {
        assert requested[i] in requested && forall l :: l in languages ==> Upper(l) != requested[i];
        return Unknown;
      }
      codes := codes + {found.value};
    }
    r := Only(codes + {"EN"});
  }

  /** The strings the firmware shows for a language: its own when it is built in, the English ones otherwise. */
  function Shown(codes: set<string>, code: string, strings: seq<Text>, english: seq<Text>): seq<Text>
  {
    if code in codes then strings else english
  }

  /**
   * Whatever languages are built in, the tables of a language that is not are the English ones, and every
   * lookup finds the string shown for it.
   */
  lemma EveryBuildShows(codes: set<string>, code: string, strings: seq<Text>, english: seq<Text>, i: nat)
    requires i < |strings| == |english|
    requires (forall s :: s in strings ==> Arrives(s) && 0 !in s) && forall s :: s in english ==> Arrives(s) && 0 !in s
    requires Size(english) <= OFFSET_LIMIT && Size(Own(strings, english, |strings|)) <= OFFSET_LIMIT
    ensures var own := Own(strings, english, |strings|);
            Compiles(english) && Compiles(own) &&
            (if code in codes then Lookup(Blob(english), Blob(own), OffsetOf(strings, english, i))
             else Lookup(Blob(english), Blob(english), Size(english[..i]))) ==
                 Encoded(Shown(codes, code, strings, english)[i])
  {
    hide Arrives, Own, Size, Blob, CString, Compiles, Lookup;
    LookupFinds(strings, english, i);
    if code !in codes {
      SizeIsRight(english);
      SizeMonotone(english, i);
      StringAtOffset(english, i);
      EnglishUnflagged(Blob(english), Size(english[..i]));
    }
  }

  lemma EnglishUnflagged(blob: seq<byte>, offset: nat)
    requires offset < SHARED
    ensures Lookup(blob, blob, offset) == CString(blob, offset)
  {
  }
}
