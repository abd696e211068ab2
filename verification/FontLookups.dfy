/** Kerning, ligature and glyph lookups over the tables of a font, in each of the encodings they come in. */
module FontLookups {
  import opened Bytes
  import opened Options
  import opened FontTables

  // ---- Exact keys in a sorted table ----

  predicate Ascends(keys: seq<nat>) { forall i, j :: 0 <= i < j < |keys| ==> keys[i] < keys[j] }

  /** Where the key is, by a plain scan. */
  function Scan(keys: seq<nat>, key: nat): (r: Option<nat>)
    ensures r.Some? ==> r.value < |keys| && keys[r.value] == key
    ensures r.None? <==> key !in keys
  {
    if keys == [] then None
    else if keys[0] == key then Some(0)
    else
      var rest := Scan(keys[1..], key);
      if rest.Some? then Some(rest.value + 1) else None
  }

  lemma ScanUnique(keys: seq<nat>, key: nat, k: nat)
    requires Ascends(keys) && k < |keys| && keys[k] == key
    ensures Scan(keys, key) == Some(k)
  {
  }

  /** The first position whose key is not below the wanted one, by halving. */
  method LowerBound(keys: seq<nat>, key: nat) returns (k: nat)
    requires Ascends(keys)
    ensures k <= |keys| && (forall i :: 0 <= i < k ==> keys[i] < key) && forall i :: k <= i < |keys| ==> keys[i] >= key
  {
    var length := |keys|;
    k := 0;
    while length > 0
      invariant 0 <= length && k + length <= |keys|
      invariant forall i :: 0 <= i < k ==> keys[i] < key
      invariant forall i :: k + length <= i < |keys| ==> keys[i] >= key
      decreases length
    {
      var half := length / 2;
      if keys[k + half] < key {
        k := k + half + 1;
        length := length - half - 1;
      } else {
        length := half;
      }
    }
  }

  method Find(keys: seq<nat>, key: nat) returns (r: Option<nat>)
    requires Ascends(keys)
    ensures r == Scan(keys, key)
  {
    var k := LowerBound(keys, key);
    if k < |keys| && keys[k] == key {
      ScanUnique(keys, key, k);
      return Some(k);
    }
    r := None;
  }

  // ---- Kerning classes ----

  datatype KernEntry = KernEntry(codepoint: nat, classId: byte)

  /** The class map of one side: packed entries (card fonts) or two parallel arrays (built-in fonts). */
  datatype ClassMap = Packed(entries: seq<KernEntry>) | Split(codepoints: seq<nat>, classIds: seq<byte>)

  function Keys(m: ClassMap): (k: seq<nat>)
    ensures m.Packed? ==> |k| == |m.entries|
  {
    match m
    case Packed(entries) => seq(|entries|, i requires 0 <= i < |entries| => entries[i].codepoint)
    case Split(codepoints, _) => codepoints
  }

  predicate MapOk(m: ClassMap, classes: nat)
  {
    Ascends(Keys(m)) && (forall i :: 0 <= i < |Keys(m)| ==> Keys(m)[i] <= 0xFFFF) &&
    match m
    case Packed(entries) => forall e :: e in entries ==> e.classId <= classes
    case Split(codepoints, classIds) => |classIds| == |codepoints| && forall c :: c in classIds ==> c <= classes
  }

  /** The kerning class of a codepoint, 0 for none. */
  function ClassOf(m: ClassMap, classes: nat, cp: nat): (c: byte)
    requires MapOk(m, classes)
    ensures c <= classes
  {
    var k := Scan(Keys(m), cp);
    if k.None? then 0
    else if m.Packed? then m.entries[k.value].classId
    else
      assert m.classIds[k.value] in m.classIds;
      m.classIds[k.value]
  }

  method LookupKernClass(m: ClassMap, classes: nat, cp: nat) returns (c: byte)
    requires MapOk(m, classes)
    ensures c == ClassOf(m, classes, cp)
  {
    if |Keys(m)| == 0 || cp > 0xFFFF {
      return 0;
    }
    var k := Find(Keys(m), cp);
    c := if k.None? then 0 else if m.Packed? then m.entries[k.value].classId else m.classIds[k.value];
  }

  /** The split arrays of packed entries. */
  function SplitOf(m: ClassMap): ClassMap
    requires m.Packed?
  {
    Split(Keys(m), seq(|m.entries|, i requires 0 <= i < |m.entries| => m.entries[i].classId))
  }

  lemma SplitSameClasses(m: ClassMap, classes: nat, cp: nat)
    requires m.Packed? && MapOk(m, classes)
    ensures MapOk(SplitOf(m), classes) && ClassOf(SplitOf(m), classes, cp) == ClassOf(m, classes, cp)
  {
    forall c | c in SplitOf(m).classIds ensures c <= classes {
      var i :| 0 <= i < |m.entries| && SplitOf(m).classIds[i] == c;
      assert m.entries[i] in m.entries;
    }
  }

  // ---- Kerning values ----

  /**
   * Values by left and right class: a full matrix (card fonts) or rows of the entries that are not 0 (built-in
   * fonts).
   */
  datatype Matrix =
    | Dense(values: seq<int>)
    | Sparse(rowOffsets: seq<nat>, cols: seq<nat>, entries: seq<int>)

  /** The value stored for a column in [begin, end), by a plain scan; 0 when there is none. */
  function RowValue(cols: seq<nat>, entries: seq<int>, begin: nat, end: nat, col: nat): int
    requires begin <= end <= |cols| == |entries|
    decreases end - begin
  {
    if begin == end then 0 else if cols[begin] == col then entries[begin]
      else RowValue(cols, entries, begin + 1, end, col)
  }

  /** Row l lies in the table and is sorted by column. */
  predicate RowOk(rowOffsets: seq<nat>, cols: seq<nat>, l: nat)
    requires l + 1 < |rowOffsets|
  {
    rowOffsets[l] <= rowOffsets[l + 1] <= |cols| && Ascends(cols[rowOffsets[l]..rowOffsets[l + 1]])
  }

  predicate RowsOk(rowOffsets: seq<nat>, cols: seq<nat>, entries: seq<int>, rows: nat)
  {
    |rowOffsets| == rows + 1 && |cols| == |entries| && forall l :: 0 <= l < rows ==> RowOk(rowOffsets, cols, l)
  }

  predicate MatrixOk(m: Matrix, rows: nat, columns: nat)
  {
    match m
    case Dense(values) => |values| == rows * columns
    case Sparse(rowOffsets, cols, entries) => RowsOk(rowOffsets, cols, entries, rows)
  }

  lemma CellInside(rows: nat, columns: nat, l: nat, c: nat)
    requires l < rows && c < columns
    ensures 0 <= l * columns + c < rows * columns
  {
    assert (l + 1) * columns <= rows * columns;
  }

  function ValueAt(m: Matrix, rows: nat, columns: nat, l: nat, c: nat): int
    requires MatrixOk(m, rows, columns) && l < rows && c < columns
  {
    match m
    case Dense(values) =>
      CellInside(rows, columns, l, c);
      values[l * columns + c]
    case Sparse(rowOffsets, cols, entries) =>
      assert RowOk(rowOffsets, cols, l);
      RowValue(cols, entries, rowOffsets[l], rowOffsets[l + 1], c)
  }

  /** Reads a sparse row forwards and stops once past the column. */
  method ScanRow(cols: seq<nat>, entries: seq<int>, begin: nat, end: nat, col: nat) returns (v: int)
    requires begin <= end <= |cols| == |entries| && Ascends(cols[begin..end])
    ensures v == RowValue(cols, entries, begin, end, col)
  {
    for i := begin to end
      invariant RowValue(cols, entries, begin, end, col) == RowValue(cols, entries, i, end, col)
    {
      if cols[i] == col {
        return entries[i];
      }
      if cols[i] > col {
        PastColumn(cols, entries, begin, i, end, col);
        return 0;
      }
    }
    v := 0;
  }

  lemma {:induction false} PastColumn(cols: seq<nat>, entries: seq<int>, begin: nat, i: nat, end: nat, col: nat)
    requires begin <= i <= end <= |cols| == |entries| && Ascends(cols[begin..end])
    requires i < end ==> cols[i] > col
    ensures RowValue(cols, entries, i, end, col) == 0
    decreases end - i
  {
    if i < end {
      if i + 1 < end {
        assert cols[begin..end][i - begin] < cols[begin..end][i + 1 - begin];
      }
      PastColumn(cols, entries, begin, i + 1, end, col);
    }
  }

  // ---- getKerning ----

  datatype Kerning = Kerning(left: ClassMap, right: ClassMap, matrix: Matrix, leftClasses: nat, rightClasses: nat)

  predicate KerningOk(k: Kerning)
  {
    MapOk(k.left, k.leftClasses) && MapOk(k.right, k.rightClasses) && MatrixOk(k.matrix, k.leftClasses, k.rightClasses)
  }

  /** Hangul, kana, ideographs and fullwidth forms, which are never kerned. */
  predicate IsCjkBreakable(cp: nat)
  {
    0x1100 <= cp <= 0x11FF || 0x3000 <= cp <= 0x303F || 0x3040 <= cp <= 0x309F || 0x30A0 <= cp <= 0x30FF ||
    0x3130 <= cp <= 0x318F || 0x3400 <= cp <= 0x4DBF || 0x4E00 <= cp <= 0x9FFF || 0xAC00 <= cp <= 0xD7AF ||
    0xD7B0 <= cp <= 0xD7FF || 0xF900 <= cp <= 0xFAFF || 0xFE30 <= cp <= 0xFE4F || 0xFF01 <= cp <= 0xFF60 ||
    0xFF65 <= cp <= 0xFFEF || 0x20000 <= cp <= 0x2A6DF || 0x2A700 <= cp <= 0x2B73F
  }

  /** The kerning of a pair by classes and matrix, whatever their encoding. */
  function KernOf(k: Kerning, leftCp: nat, rightCp: nat): int
    requires KerningOk(k)
  {
    var l, r := ClassOf(k.left, k.leftClasses, leftCp), ClassOf(k.right, k.rightClasses, rightCp);
    if IsCjkBreakable(leftCp) || IsCjkBreakable(rightCp) || l == 0 || r == 0 then 0
    else ValueAt(k.matrix, k.leftClasses, k.rightClasses, l - 1, r - 1)
  }

  method GetKerning(k: Kerning, leftCp: nat, rightCp: nat) returns (v: int)
    requires KerningOk(k)
    ensures v == KernOf(k, leftCp, rightCp)
  {
    hide ClassOf, MapOk;
    if IsCjkBreakable(leftCp) || IsCjkBreakable(rightCp) {
      return 0;
    }
    var lc := LookupKernClass(k.left, k.leftClasses, leftCp);
    if lc == 0 {
      return 0;
    }
    var rc := LookupKernClass(k.right, k.rightClasses, rightCp);
    if rc == 0 {
      return 0;
    }
    match k.matrix {
      case Sparse(rowOffsets, cols, entries) => {
        assert RowOk(rowOffsets, cols, lc - 1);
        v := ScanRow(cols, entries, rowOffsets[lc - 1], rowOffsets[lc], rc - 1);
      }
      case Dense(values) => {
        CellInside(k.leftClasses, k.rightClasses, lc - 1, rc - 1);
        v := values[(lc - 1) * k.rightClasses + (rc - 1)];
      }
    }
  }

  /** The blocks that are not kerned, neighbouring ones together. */
  lemma NotKerned(cp: nat)
    ensures IsCjkBreakable(cp) <==>
              0x1100 <= cp <= 0x11FF || 0x3000 <= cp <= 0x30FF || 0x3130 <= cp <= 0x318F || 0x3400 <= cp <= 0x4DBF ||
              0x4E00 <= cp <= 0x9FFF || 0xAC00 <= cp <= 0xD7FF || 0xF900 <= cp <= 0xFAFF || 0xFE30 <= cp <= 0xFE4F ||
              0xFF01 <= cp <= 0xFF60 || 0xFF65 <= cp <= 0xFFEF || 0x20000 <= cp <= 0x2A6DF || 0x2A700 <= cp <= 0x2B73F
  {
  }

  /** A codepoint that is listed with a class has that class, and one that is not listed has none. */
  lemma ClassListed(m: ClassMap, classes: nat, cp: nat)
    requires MapOk(m, classes) && m.Packed?
    ensures forall e :: e in m.entries && e.codepoint == cp ==> ClassOf(m, classes, cp) == e.classId
    ensures (forall e :: e in m.entries ==> e.codepoint != cp) ==> ClassOf(m, classes, cp) == 0
  {
    forall e | e in m.entries && e.codepoint == cp ensures ClassOf(m, classes, cp) == e.classId {
      var i :| 0 <= i < |m.entries| && m.entries[i] == e;
      ScanUnique(Keys(m), cp, i);
    }
    assert forall i :: 0 <= i < |m.entries| ==> m.entries[i] in m.entries && Keys(m)[i] == m.entries[i].codepoint;
  }

  /**
   * What the tables of a card font say of a pair: the value in the row of the left and the column of the right
   * class, counted from 1; nothing if either is listed without a class, or of a script that is not kerned.
   */
  lemma KernsByTables(k: Kerning, l: KernEntry, r: KernEntry)
    requires KerningOk(k) && k.left.Packed? && k.right.Packed? && k.matrix.Dense?
    requires l in k.left.entries && r in k.right.entries
    ensures if IsCjkBreakable(l.codepoint) || IsCjkBreakable(r.codepoint) || l.classId == 0 || r.classId == 0 then
              KernOf(k, l.codepoint, r.codepoint) == 0
            else
              var cell := (l.classId - 1) * k.rightClasses + (r.classId - 1);
              0 <= cell < |k.matrix.values| && KernOf(k, l.codepoint, r.codepoint) == k.matrix.values[cell]
  {
    hide ClassOf, IsCjkBreakable;
    ClassListed(k.left, k.leftClasses, l.codepoint);
    ClassListed(k.right, k.rightClasses, r.codepoint);
    if l.classId > 0 && r.classId > 0 {
      CellInside(k.leftClasses, k.rightClasses, l.classId - 1, r.classId - 1);
    }
  }

  /** A pair of which one side is not listed is not kerned. */
  lemma UnlistedNotKerned(k: Kerning, leftCp: nat, rightCp: nat)
    requires KerningOk(k) && k.left.Packed? && k.right.Packed?
    requires (forall e :: e in k.left.entries ==> e.codepoint != leftCp) ||
             (forall e :: e in k.right.entries ==> e.codepoint != rightCp)
    ensures KernOf(k, leftCp, rightCp) == 0
  {
    hide ClassOf;
    ClassListed(k.left, k.leftClasses, leftCp);
    ClassListed(k.right, k.rightClasses, rightCp);
  }

  // ---- The sparse rows of a full matrix ----

  function RowCols(row: seq<int>, n: nat): (cols: seq<nat>)
    requires n <= |row|
    ensures Ascends(cols) && forall k :: 0 <= k < |cols| ==> cols[k] < n && row[cols[k]] != 0
  {
    if n == 0 then [] else RowCols(row, n - 1) + (if row[n - 1] != 0 then [n - 1] else [])
  }

  function RowEntries(row: seq<int>, n: nat): (entries: seq<int>)
    requires n <= |row|
    ensures |entries| == |RowCols(row, n)|
  {
    if n == 0 then [] else RowEntries(row, n - 1) + (if row[n - 1] != 0 then [row[n - 1]] else [])
  }

  lemma {:induction false} RowValueAppend(cols: seq<nat>, entries: seq<int>, begin: nat, x: nat, y: int, col: nat)
    requires |cols| == |entries| && begin <= |cols|
    ensures RowValue(cols + [x], entries + [y], begin, |cols| + 1, col) ==
            if col in cols[begin..] then RowValue(cols, entries, begin, |cols|, col) else if x == col then y else 0
    decreases |cols| - begin
  {
    if begin < |cols| {
      RowValueAppend(cols, entries, begin + 1, x, y, col);
      assert cols[begin..] == [cols[begin]] + cols[begin + 1..];
    }
  }

  lemma {:induction false} RowValueMissing(cols: seq<nat>, entries: seq<int>, begin: nat, end: nat, col: nat)
    requires begin <= end <= |cols| == |entries| && col !in cols[begin..end]
    ensures RowValue(cols, entries, begin, end, col) == 0
    decreases end - begin
  {
    if begin < end {
      assert cols[begin..end] == [cols[begin]] + cols[begin + 1..end];
      RowValueMissing(cols, entries, begin + 1, end, col);
    }
  }

  lemma RowNext(row: seq<int>, n: nat)
    requires 0 < n <= |row|
    ensures RowCols(row, n) == if row[n - 1] != 0 then RowCols(row, n - 1) + [n - 1] else RowCols(row, n - 1)
    ensures RowEntries(row, n) == if row[n - 1] != 0 then RowEntries(row, n - 1) + [row[n - 1]]
            else RowEntries(row, n - 1)
  {
  }

  lemma EmptyRow(row: seq<int>, col: nat)
    ensures RowCols(row, 0) == [] && RowEntries(row, 0) == [] && RowValue([], [], 0, 0, col) == 0
  {
  }

  /** The entries kept of a row give back every value of it. */
  lemma {:induction false} RowKept(row: seq<int>, n: nat, col: nat)
    requires n <= |row|
    ensures RowValue(RowCols(row, n), RowEntries(row, n), 0, |RowCols(row, n)|, col) == if col < n then row[col] else 0
  {
    hide RowCols, RowEntries, RowValue;
    if n == 0 {
      EmptyRow(row, col);
    } else {
      RowKept(row, n - 1, col);
      RowNext(row, n);
      var cols, entries := RowCols(row, n - 1), RowEntries(row, n - 1);
      if row[n - 1] != 0 {
        RowValueAppend(cols, entries, 0, n - 1, row[n - 1], col);
        assert cols[0..] == cols && cols[0..|cols|] == cols;
        if col !in cols {
          RowValueMissing(cols, entries, 0, |cols|, col);
        }
      }
    }
  }

  lemma {:induction false} RowValueSlice(cols: seq<nat>, entries: seq<int>, begin: nat, i: nat, end: nat, col: nat)
    requires begin <= i <= end <= |cols| == |entries|
    ensures RowValue(cols, entries, i, end, col) ==
            RowValue(cols[begin..end], entries[begin..end], i - begin, end - begin, col)
    decreases end - i
  {
    if i < end {
      RowValueSlice(cols, entries, begin, i + 1, end, col);
    }
  }

  function Row(values: seq<int>, rows: nat, columns: nat, l: nat): (row: seq<int>)
    requires |values| == rows * columns && l < rows
    ensures |row| == columns && forall c :: 0 <= c < columns ==>
              0 <= l * columns + c < |values| && row[c] == values[l * columns + c]
  {
    assert l * columns + columns <= rows * columns by { assert (l + 1) * columns <= rows * columns; }
    values[l * columns..l * columns + columns]
  }

  /** The columns and values of the first n rows, one row after the other. */
  function AllCols(values: seq<int>, rows: nat, columns: nat, n: nat): seq<nat>
    requires |values| == rows * columns && n <= rows
  {
    if n == 0 then [] else AllCols(values, rows, columns, n - 1) + RowCols(Row(values, rows, columns, n - 1), columns)
  }

  function AllEntries(values: seq<int>, rows: nat, columns: nat, n: nat): (e: seq<int>)
    requires |values| == rows * columns && n <= rows
    ensures |e| == |AllCols(values, rows, columns, n)|
  {
    if n == 0 then []
    else AllEntries(values, rows, columns, n - 1) + RowEntries(Row(values, rows, columns, n - 1), columns)
  }

  function SparseOf(values: seq<int>, rows: nat, columns: nat): Matrix
    requires |values| == rows * columns
  {
    Sparse(seq(rows + 1, l requires 0 <= l <= rows => |AllCols(values, rows, columns, l)|),
           AllCols(values, rows, columns, rows), AllEntries(values, rows, columns, rows))
  }

  lemma SliceOfFront<T>(a: seq<T>, b: seq<T>, begin: nat, end: nat)
    requires begin <= end <= |a|
    ensures (a + b)[begin..end] == a[begin..end]
  {
  }

  lemma SliceOfBack<T>(a: seq<T>, b: seq<T>)
    ensures (a + b)[|a|..|a + b|] == b
  {
  }

  lemma {:induction false} RowInPlace(values: seq<int>, rows: nat, columns: nat, l: nat, n: nat)
    requires |values| == rows * columns && l < n <= rows
    ensures var begin, end := |AllCols(values, rows, columns, l)|, |AllCols(values, rows, columns, l + 1)|;
            begin <= end <= |AllCols(values, rows, columns, n)| &&
            AllCols(values, rows, columns, n)[begin..end] == RowCols(Row(values, rows, columns, l), columns) &&
            AllEntries(values, rows, columns, n)[begin..end] == RowEntries(Row(values, rows, columns, l), columns)
    decreases n
  {
    hide Row, RowCols, RowEntries;
    var begin, end := |AllCols(values, rows, columns, l)|, |AllCols(values, rows, columns, l + 1)|;
    if l + 1 < n {
      RowInPlace(values, rows, columns, l, n - 1);
      SliceOfFront(AllCols(values, rows, columns, n - 1), RowCols(Row(values, rows, columns, n - 1), columns),
                   begin, end);
      SliceOfFront(AllEntries(values, rows, columns, n - 1), RowEntries(Row(values, rows, columns, n - 1), columns),
                   begin, end);
    } else {
      SliceOfBack(AllCols(values, rows, columns, l), RowCols(Row(values, rows, columns, l), columns));
      SliceOfBack(AllEntries(values, rows, columns, l), RowEntries(Row(values, rows, columns, l), columns));
    }
  }

  /** The sparse rows hold the same value as the matrix for every pair of classes. */
  lemma SparseSameValues(values: seq<int>, rows: nat, columns: nat, l: nat, c: nat)
    requires |values| == rows * columns && l < rows && c < columns
    ensures MatrixOk(SparseOf(values, rows, columns), rows, columns)
    ensures ValueAt(SparseOf(values, rows, columns), rows, columns, l, c) == ValueAt(Dense(values), rows, columns, l, c)
  {
    hide RowCols, RowEntries, AllCols, AllEntries;
    SparseOk(values, rows, columns);
    RowInPlace(values, rows, columns, l, rows);
    var m := SparseOf(values, rows, columns);
    RowValueSlice(m.cols, m.entries, m.rowOffsets[l], m.rowOffsets[l], m.rowOffsets[l + 1], c);
    RowKept(Row(values, rows, columns, l), columns, c);
  }

  lemma SparseOk(values: seq<int>, rows: nat, columns: nat)
    requires |values| == rows * columns
    ensures MatrixOk(SparseOf(values, rows, columns), rows, columns)
  {
    hide RowEntries, AllCols, AllEntries;
    var m := SparseOf(values, rows, columns);
    forall l | 0 <= l < rows ensures RowOk(m.rowOffsets, m.cols, l) {
      RowInPlace(values, rows, columns, l, rows);
    }
  }

  /** A font kerns the same in the card form (packed classes, full matrix) and in the built-in form (split, sparse). */
  lemma EncodingsKernAlike(k: Kerning, leftCp: nat, rightCp: nat)
    requires KerningOk(k) && k.left.Packed? && k.right.Packed? && k.matrix.Dense?
    ensures var b := Kerning(SplitOf(k.left), SplitOf(k.right),
                             SparseOf(k.matrix.values, k.leftClasses, k.rightClasses),
                             k.leftClasses, k.rightClasses);
            KerningOk(b) && KernOf(b, leftCp, rightCp) == KernOf(k, leftCp, rightCp)
  {
    hide ClassOf, MapOk, SplitOf, SparseOf, ValueAt, MatrixOk;
    SplitSameClasses(k.left, k.leftClasses, leftCp);
    SplitSameClasses(k.right, k.rightClasses, rightCp);
    MatrixSize(k);
    SparseOk(k.matrix.values, k.leftClasses, k.rightClasses);
    var l, r := ClassOf(k.left, k.leftClasses, leftCp), ClassOf(k.right, k.rightClasses, rightCp);
    if l != 0 && r != 0 {
      SparseSameValues(k.matrix.values, k.leftClasses, k.rightClasses, l - 1, r - 1);
    }
  }

  lemma MatrixSize(k: Kerning)
    requires KerningOk(k) && k.matrix.Dense?
    ensures |k.matrix.values| == k.leftClasses * k.rightClasses
  {
  }

  // ---- Ligatures ----

  datatype LigaturePair = LigaturePair(pair: nat, ligature: nat)

  function PairKeys(pairs: seq<LigaturePair>): (k: seq<nat>)
    ensures |k| == |pairs|
  {
    seq(|pairs|, i requires 0 <= i < |pairs| => pairs[i].pair)
  }

  /** Letters that contextual shaping has already put in visual order. */
  predicate IsArabicPresentationForm(cp: nat) { 0xFB50 <= cp <= 0xFDFF || 0xFE70 <= cp <= 0xFEFF }

  /** The ligature of two codepoints, 0 for none. */
  function Ligature(pairs: seq<LigaturePair>, left: nat, right: nat): nat
  {
    if left > 0xFFFF || right > 0xFFFF || IsArabicPresentationForm(left) || IsArabicPresentationForm(right) then 0
    else
      var k := Scan(PairKeys(pairs), left * 0x1_0000 + right);
      if k.None? then 0 else pairs[k.value].ligature
  }

  method GetLigature(pairs: seq<LigaturePair>, left: nat, right: nat) returns (lig: nat)
    requires Ascends(PairKeys(pairs))
    ensures lig == Ligature(pairs, left, right)
  {
    if |pairs| == 0 || left > 0xFFFF || right > 0xFFFF {
      return 0;
    }
    if IsArabicPresentationForm(left) || IsArabicPresentationForm(right) {
      return 0;
    }
    var k := Find(PairKeys(pairs), left * 0x1_0000 + right);
    lig := if k.None? then 0 else pairs[k.value].ligature;
  }

  /** A 32-bit key names one pair of 16-bit codepoints. */
  lemma KeyNamesPair(l0: nat, r0: nat, l1: nat, r1: nat)
    requires l0 <= 0xFFFF && r0 <= 0xFFFF && l1 <= 0xFFFF && r1 <= 0xFFFF
    requires l0 * 0x1_0000 + r0 == l1 * 0x1_0000 + r1
    ensures l0 == l1 && r0 == r1
  {
  }

  /** The codepoint and the position in the text once n ligatures have been formed from position p on. */
  function Joined(pairs: seq<LigaturePair>, cp: nat, text: seq<nat>, p: nat, n: nat): nat
    requires p + n <= |text|
  {
    if n == 0 then cp else Ligature(pairs, Joined(pairs, cp, text, p, n - 1), text[p + n - 1])
  }

  /** Joins as many of the codepoints that follow as there are ligatures for; text holds no NUL. */
  method ApplyLigatures(pairs: seq<LigaturePair>, first: nat, text: seq<nat>, p: nat) returns (cp: nat, next: nat)
    requires Ascends(PairKeys(pairs)) && p <= |text|
    ensures p <= next <= |text| && cp == Joined(pairs, first, text, p, next - p)
    ensures forall n :: 0 < n <= next - p ==> Joined(pairs, first, text, p, n) != 0
    ensures next < |text| ==> Ligature(pairs, cp, text[next]) == 0
    ensures IsArabicPresentationForm(first) ==> next == p
    ensures forall k :: p <= k < next ==> !IsArabicPresentationForm(text[k])
  {
    hide Ligature;
    cp, next := first, p;
    if |pairs| == 0 {
      NoPairs(pairs, cp);
      return;
    }
    while next < |text|
      invariant p <= next <= |text| && cp == Joined(pairs, first, text, p, next - p)
      invariant forall n :: 0 < n <= next - p ==> Joined(pairs, first, text, p, n) != 0
      invariant IsArabicPresentationForm(first) ==> next == p
      invariant forall k :: p <= k < next ==> !IsArabicPresentationForm(text[k])
    {
      if IsArabicPresentationForm(cp) || IsArabicPresentationForm(text[next]) {
        ShapedNeverJoins(pairs, cp, text[next]);
      }
      var lig := GetLigature(pairs, cp, text[next]);
      if lig == 0 {
        return;
      }
      cp, next := lig, next + 1;
    }
  }

  lemma NoPairs(pairs: seq<LigaturePair>, cp: nat)
    requires pairs == []
    ensures forall r :: Ligature(pairs, cp, r) == 0
  {
  }

  lemma ShapedNeverJoins(pairs: seq<LigaturePair>, left: nat, right: nat)
    requires IsArabicPresentationForm(left) || IsArabicPresentationForm(right)
    ensures Ligature(pairs, left, right) == 0
  {
  }

  // ---- Glyphs ----

  const REPLACEMENT_GLYPH: nat := 0xFFFD
  const TURNED_COMMA: nat := 0x02BB
  const LEFT_QUOTE: nat := 0x2018

  /** A glyph of the table, or one that was loaded when it was asked for. */
  datatype Found = InTable(index: nat) | OnDemand(cp: nat)

  /** The interval table, the codepoints that can be loaded on demand, and the font's full coverage if it keeps one. */
  datatype Coverage = Coverage(intervals: seq<Interval>, loadable: Option<set<nat>>, covered: Option<set<nat>>)

  /** The glyph of exactly this codepoint. */
  function OwnGlyph(f: Coverage, cp: nat): Option<Found>
  {
    match GlyphOf(f.intervals, cp)
    case Some(index) => Some(InTable(index))
    case None => if f.loadable.Some? && cp in f.loadable.value then Some(OnDemand(cp)) else None
  }

  predicate Has(f: Coverage, cp: nat)
  {
    GlyphOf(f.intervals, cp).Some? || (f.covered.Some? && cp in f.covered.value)
  }

  method HasCodepoint(f: Coverage, cp: nat) returns (has: bool)
    requires Ascending(f.intervals)
    ensures has == Has(f, cp)
  {
    if |f.intervals| > 0 {
      var own := LookUpGlyph(f.intervals, cp);
      if own.Some? {
        return true;
      }
    }
    has := f.covered.Some? && cp in f.covered.value;
  }

  /** The first glyph of a list of codepoints that the font has. */
  function FirstOf(f: Coverage, cps: seq<nat>): Option<Found>
  {
    if cps == [] then None else if OwnGlyph(f, cps[0]).Some? then OwnGlyph(f, cps[0]) else FirstOf(f, cps[1..])
  }

  /** What stands for a codepoint, best first. */
  function Substitutes(f: Coverage, cp: nat): seq<nat>
  {
    if cp == TURNED_COMMA && Has(f, LEFT_QUOTE) then [cp, LEFT_QUOTE, REPLACEMENT_GLYPH]
    else if cp == REPLACEMENT_GLYPH then [cp]
    else [cp, REPLACEMENT_GLYPH]
  }

  method GetGlyph(f: Coverage, cp: nat) returns (g: Option<Found>)
    requires Ascending(f.intervals)
    ensures g == FirstOf(f, Substitutes(f, cp))
    decreases if cp == TURNED_COMMA then 2 else if cp == REPLACEMENT_GLYPH then 0 else 1
  {
    var count := |f.intervals|;
    if count == 0 && f.loadable.None? {
      NothingFound(f, Substitutes(f, cp));
      return None;
    }
    if count > 0 {
      var own := LookUpGlyph(f.intervals, cp);
      if own.Some? {
        return Some(InTable(own.value));
      }
    }
    if f.loadable.Some? && cp in f.loadable.value {
      return Some(OnDemand(cp));
    }
    assert OwnGlyph(f, cp).None?;
    if cp == TURNED_COMMA {
      var quote := HasCodepoint(f, LEFT_QUOTE);
      if quote {
        g := GetGlyph(f, LEFT_QUOTE);
        assert Substitutes(f, cp) == [cp] + Substitutes(f, LEFT_QUOTE);
        return;
      }
    }
    if cp != REPLACEMENT_GLYPH {
      g := GetGlyph(f, REPLACEMENT_GLYPH);
      assert Substitutes(f, cp) == [cp] + Substitutes(f, REPLACEMENT_GLYPH);
      return;
    }
    g := None;
  }

  lemma {:induction false} NothingFound(f: Coverage, cps: seq<nat>)
    requires f.intervals == [] && f.loadable.None?
    ensures FirstOf(f, cps) == None
  {
    if cps != [] {
      NothingFound(f, cps[1..]);
    }
  }

  /**
   * A codepoint the font says it has is drawn with its own glyph, provided everything the coverage index
   * lists can be loaded.
   */
  lemma HadIsDrawn(f: Coverage, cp: nat)
    requires Has(f, cp)
    requires f.covered.Some? ==> f.loadable.Some? && f.covered.value <= f.loadable.value
    ensures OwnGlyph(f, cp).Some? && FirstOf(f, Substitutes(f, cp)) == OwnGlyph(f, cp)
  {
  }

  // ---- What the lookups mean for the tables ----

  /** A pair that is listed has its ligature, unless Arabic shaping has been there before; others have none. */
  lemma LigatureListed(pairs: seq<LigaturePair>, left: nat, right: nat)
    requires Ascends(PairKeys(pairs))
    ensures left > 0xFFFF || right > 0xFFFF ==> Ligature(pairs, left, right) == 0
    ensures (0xFB50 <= left <= 0xFDFF || 0xFE70 <= left <= 0xFEFF || 0xFB50 <= right <= 0xFDFF ||
             0xFE70 <= right <= 0xFEFF) ==> Ligature(pairs, left, right) == 0
    ensures (left < 0xFB50 || 0xFDFF < left < 0xFE70 || 0xFEFF < left <= 0xFFFF) &&
            (right < 0xFB50 || 0xFDFF < right < 0xFE70 || 0xFEFF < right <= 0xFFFF) ==>
              (forall p :: p in pairs && p.pair == left * 0x1_0000 + right ==>
               Ligature(pairs, left, right) == p.ligature)
    ensures (forall p :: p in pairs ==> p.pair != left * 0x1_0000 + right) ==> Ligature(pairs, left, right) == 0
  {
    var key := left * 0x1_0000 + right;
    forall p | p in pairs && p.pair == key ensures Scan(PairKeys(pairs), key).Some? &&
                                                   pairs[Scan(PairKeys(pairs), key).value] == p {
      var i :| 0 <= i < |pairs| && pairs[i] == p;
      ScanUnique(PairKeys(pairs), key, i);
    }
    assert forall i :: 0 <= i < |pairs| ==> pairs[i] in pairs && PairKeys(pairs)[i] == pairs[i].pair;
  }

  lemma FirstIs(f: Coverage, cp: nat, rest: seq<nat>)
    ensures FirstOf(f, [cp] + rest) == if OwnGlyph(f, cp).Some? then OwnGlyph(f, cp) else FirstOf(f, rest)
    ensures FirstOf(f, []) == None
  {
    assert ([cp] + rest)[1..] == rest;
  }

  /** What stands for a codepoint: itself, then for U+02BB the quote U+2018 if the font has it, then U+FFFD. */
  lemma StandIns(f: Coverage, cp: nat)
    ensures FirstOf(f, Substitutes(f, cp)) ==
            if OwnGlyph(f, cp).Some? then OwnGlyph(f, cp)
            else if cp == 0x02BB && Has(f, 0x2018) && OwnGlyph(f, 0x2018).Some? then OwnGlyph(f, 0x2018)
            else OwnGlyph(f, 0xFFFD)
  {
    hide OwnGlyph, Has;
    FirstIs(f, cp, []);
    FirstIs(f, 0xFFFD, []);
    FirstIs(f, cp, [0xFFFD]);
    FirstIs(f, 0x2018, [0xFFFD]);
    FirstIs(f, cp, [0x2018, 0xFFFD]);
    assert [cp] + [0xFFFD] == [cp, 0xFFFD] && [0x2018] + [0xFFFD] == [0x2018, 0xFFFD];
    assert [cp] + [0x2018, 0xFFFD] == [cp, 0x2018, 0xFFFD];
    assert [cp] + [] == [cp] && [0xFFFD] + [] == [0xFFFD];
  }
}
