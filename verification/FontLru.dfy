/** The list of sized font variants: each remembers a 32-bit time of last use, and the oldest gives way. */
module FontLru {
  import opened Options

  const MAX_VARIANTS: nat := 5
  const CLOCK_LIMIT: nat := 0x1_0000_0000

  datatype Variant = Variant(fontId: int, lastUse: nat)

  /** The variants in the order they were loaded, and the clock. */
  datatype Lru = Lru(variants: seq<Variant>, clock: nat)

  const EMPTY: Lru := Lru([], 0)

  function Tick(clock: nat): (next: nat)
    ensures next < CLOCK_LIMIT
  {
    (clock + 1) % CLOCK_LIMIT
  }

  function Ids(vs: seq<Variant>): set<int> { set v | v in vs :: v.fontId }

  predicate Distinct(vs: seq<Variant>)
  {
    forall i, j :: 0 <= i < j < |vs| ==> vs[i].fontId != vs[j].fontId
  }

  /** Where the variant with this id is, or |vs|. */
  function IndexOf(vs: seq<Variant>, id: int): (k: nat)
    ensures k <= |vs| && (k < |vs| ==> vs[k].fontId == id) && forall i :: 0 <= i < k ==> vs[i].fontId != id
  {
    if vs == [] || vs[0].fontId == id then 0 else 1 + IndexOf(vs[1..], id)
  }

  /** The first variant with the least time of last use. */
  function Oldest(vs: seq<Variant>): (k: nat)
    requires vs != []
    ensures k < |vs| && (forall i :: 0 <= i < |vs| ==> vs[k].lastUse <= vs[i].lastUse) &&
            forall i :: 0 <= i < k ==> vs[k].lastUse < vs[i].lastUse
  {
    if |vs| == 1 then 0
    else
      var k := Oldest(vs[..|vs| - 1]);
      assert vs[..|vs| - 1][k] == vs[k] && forall i :: 0 <= i < |vs| - 1 ==> vs[..|vs| - 1][i] == vs[i];
      if vs[|vs| - 1].lastUse < vs[k].lastUse then |vs| - 1 else k
  }

  function Touch(l: Lru, k: nat): Lru
    requires k < |l.variants|
  {
    var now := Tick(l.clock);
    Lru(l.variants[k := l.variants[k].(lastUse := now)], now)
  }

  function Evict(l: Lru): Lru
  {
    if |l.variants| < MAX_VARIANTS then l
    else
      var k := Oldest(l.variants);
      l.(variants := l.variants[..k] + l.variants[k + 1..])
  }

  function Admit(l: Lru, id: int): Lru
  {
    var now := Tick(l.clock);
    Lru(l.variants + [Variant(id, now)], now)
  }

  /** A use of a variant that is loaded or whose load succeeds. */
  function Request(l: Lru, id: int): Lru
  {
    var k := IndexOf(l.variants, id);
    if k < |l.variants| then Touch(l, k) else Admit(Evict(l), id)
  }

  function Requests(l: Lru, ids: seq<int>): Lru
  {
    if ids == [] then l else Request(Requests(l, ids[..|ids| - 1]), ids[|ids| - 1])
  }

  // ---- The most recently used ids ----

  function Without(r: seq<int>, id: int): (w: seq<int>)
    ensures id !in w && (forall x :: x in w <==> x in r && x != id)
  {
    if r == [] then [] else if r[0] == id then Without(r[1..], id) else [r[0]] + Without(r[1..], id)
  }

  /** The different ids used, the one used last first. */
  function Recency(ids: seq<int>): (r: seq<int>)
    ensures forall x :: x in r <==> x in ids
  {
    if ids == [] then []
    else
      var id := ids[|ids| - 1];
      assert ids == ids[..|ids| - 1] + [id];
      [id] + Without(Recency(ids[..|ids| - 1]), id)
  }

  /** The number of the last use of id, counting from 1. */
  function LastUse(ids: seq<int>, id: int): (n: nat)
    ensures n <= |ids| && (n > 0 <==> id in ids) && (n > 0 ==> ids[n - 1] == id)
  {
    if ids == [] then 0
    else if ids[|ids| - 1] == id then |ids|
    else
      assert ids == ids[..|ids| - 1] + [ids[|ids| - 1]];
      LastUse(ids[..|ids| - 1], id)
  }

  /** No id is used again between its counted last use and the end. */
  lemma {:induction false} LastUseIsLast(ids: seq<int>, id: int, k: nat)
    requires k < |ids| && ids[k] == id
    ensures k < LastUse(ids, id)
  {
    if ids[|ids| - 1] != id {
      LastUseIsLast(ids[..|ids| - 1], id, k);
    }
  }

  predicate NoRepeats(r: seq<int>) { forall i, j :: 0 <= i < j < |r| ==> r[i] != r[j] }

  predicate NewestFirst(r: seq<int>, ids: seq<int>)
  {
    forall i, j :: 0 <= i < j < |r| ==> LastUse(ids, r[i]) > LastUse(ids, r[j])
  }

  lemma {:induction false} WithoutKeepsOrder(r: seq<int>, id: int, ids: seq<int>)
    requires NewestFirst(r, ids)
    ensures NewestFirst(Without(r, id), ids)
  {
    hide LastUse;
    if r != [] {
      WithoutKeepsOrder(r[1..], id, ids);
      var w := Without(r[1..], id);
      forall j | 0 <= j < |w| ensures LastUse(ids, r[0]) > LastUse(ids, w[j]) {
        assert w[j] in r[1..];
        var k :| 0 <= k < |r[1..]| && r[1..][k] == w[j];
        assert r[k + 1] == w[j];
      }
    }
  }

  lemma LaterUse(ids: seq<int>, id: int, x: int)
    ensures LastUse(ids + [id], x) == if x == id then |ids| + 1 else LastUse(ids, x)
  {
    assert (ids + [id])[..|ids|] == ids;
  }

  /** The recency list is ordered by last use. */
  lemma {:induction false} RecencyOrdered(ids: seq<int>)
    ensures NewestFirst(Recency(ids), ids) && NoRepeats(Recency(ids))
  {
    if ids != [] {
      var before, id := ids[..|ids| - 1], ids[|ids| - 1];
      assert ids == before + [id];
      RecencyOrdered(before);
      WithoutKeepsOrder(Recency(before), id, before);
      var w := Without(Recency(before), id);
      forall i, j | 0 <= i < j < |w| ensures LastUse(ids, w[i]) > LastUse(ids, w[j]) {
        LaterUse(before, id, w[i]);
        LaterUse(before, id, w[j]);
      }
      forall j | 0 <= j < |w| ensures LastUse(ids, id) > LastUse(ids, w[j]) {
        LaterUse(before, id, w[j]);
        LaterUse(before, id, id);
      }
    }
  }

  function Elements(s: seq<int>): set<int> { set x | x in s }

  function Top(r: seq<int>): seq<int> { if |r| <= MAX_VARIANTS then r else r[..MAX_VARIANTS] }

  /** The most recently used ids, as many as may stay. */
  function MostRecent(ids: seq<int>): seq<int> { Top(Recency(ids)) }

  /** What the clock shows at the n-th use after it showed `start`. */
  function Stamp(start: nat, n: nat): nat { (start + n) % CLOCK_LIMIT }

  lemma StampOrder(start: nat, a: nat, b: nat)
    requires start + a < CLOCK_LIMIT && start + b < CLOCK_LIMIT
    ensures Stamp(start, a) <= Stamp(start, b) <==> a <= b
  {
  }

  /** The list holds the most recently used ids, each with the number of its last use. */
  ghost predicate Faithful(l: Lru, start: nat, ids: seq<int>)
  {
    Distinct(l.variants) && |l.variants| == |MostRecent(ids)| && Ids(l.variants) == Elements(MostRecent(ids)) &&
    l.clock == Stamp(start, |ids|) &&
    forall i :: 0 <= i < |l.variants| ==> l.variants[i].lastUse == Stamp(start, LastUse(ids, l.variants[i].fontId))
  }

  lemma {:induction false} WithoutOf(r: seq<int>, p: nat)
    requires p < |r| && NoRepeats(r)
    ensures Without(r, r[p]) == r[..p] + r[p + 1..]
  {
    if p == 0 {
      WithoutAbsent(r[1..], r[0]);
    } else {
      var tail := r[1..];
      assert tail[p - 1] == r[p] && r[0] != r[p];
      WithoutOf(tail, p - 1);
      assert r[..p] + r[p + 1..] == [r[0]] + (tail[..p - 1] + tail[p..]);
    }
  }

  lemma {:induction false} WithoutAbsent(r: seq<int>, id: int)
    requires id !in r
    ensures Without(r, id) == r
  {
    if r != [] {
      WithoutAbsent(r[1..], id);
    }
  }

  /** What one more use does to the most recent ids. */
  lemma MostRecentNext(ids: seq<int>, id: int)
    ensures var m, n := MostRecent(ids), MostRecent(ids + [id]);
            if id in m then |n| == |m| && Elements(n) == Elements(m)
            else if |m| < MAX_VARIANTS then n == [id] + m
            else n == [id] + m[..MAX_VARIANTS - 1]
  {
    hide Recency, Without, Top, Elements;
    var r := Recency(ids);
    RecencyOrdered(ids);
    RecencyNext(ids, id);
    if id in r {
      var p :| 0 <= p < |r| && r[p] == id;
      WithoutOf(r, p);
      if p < MAX_VARIANTS {
        TopHit(r, p);
      } else {
        TopPushed(r, p);
      }
    } else {
      WithoutAbsent(r, id);
      TopNew(r, id);
    }
  }

  lemma TopHit(r: seq<int>, p: nat)
    requires p < |r| && p < MAX_VARIANTS
    ensures var m, n := Top(r), Top([r[p]] + (r[..p] + r[p + 1..]));
            r[p] in m && |n| == |m| && Elements(n) == Elements(m)
  {
    var m, n := Top(r), Top([r[p]] + (r[..p] + r[p + 1..]));
    assert m[p] == r[p];
    SamePieces(m, n, p);
  }

  lemma SamePieces(m: seq<int>, n: seq<int>, p: nat)
    requires p < |m| && n == [m[p]] + m[..p] + m[p + 1..]
    ensures Elements(n) == Elements(m)
  {
    forall x ensures x in Elements(n) <==> x in Elements(m) {
      if x in m {
        var q :| 0 <= q < |m| && m[q] == x;
        assert n[if q < p then q + 1 else if q == p then 0 else q] == x;
      }
    }
  }

  lemma TopPushed(r: seq<int>, p: nat)
    requires MAX_VARIANTS <= p < |r| && NoRepeats(r)
    ensures |Top(r)| == MAX_VARIANTS && r[p] !in Top(r) &&
            Top([r[p]] + (r[..p] + r[p + 1..])) == [r[p]] + Top(r)[..MAX_VARIANTS - 1]
  {
    forall q | 0 <= q < |Top(r)| ensures Top(r)[q] != r[p] {
      assert Top(r)[q] == r[q];
    }
  }

  lemma TopNew(r: seq<int>, id: int)
    requires id !in r
    ensures id !in Top(r) &&
            Top([id] + r) == if |r| < MAX_VARIANTS then [id] + Top(r) else [id] + Top(r)[..MAX_VARIANTS - 1]
    ensures |r| < MAX_VARIANTS <==> |Top(r)| < MAX_VARIANTS
  {
  }

  lemma RecencyNext(ids: seq<int>, id: int)
    ensures Recency(ids + [id]) == [id] + Without(Recency(ids), id)
  {
    assert (ids + [id])[..|ids|] == ids;
  }

  lemma MostRecentFacts(ids: seq<int>)
    ensures NoRepeats(MostRecent(ids)) && NewestFirst(MostRecent(ids), ids)
    ensures forall x :: x in MostRecent(ids) ==> x in ids
  {
    hide Recency, LastUse;
    RecencyOrdered(ids);
  }

  // ---- The list stays faithful ----

  lemma IdsOf(vs: seq<Variant>, id: int)
    ensures id in Ids(vs) <==> IndexOf(vs, id) < |vs|
  {
    var k := IndexOf(vs, id);
    if k < |vs| {
      assert vs[k] in vs;
    }
  }

  lemma VariantIsRecent(l: Lru, start: nat, ids: seq<int>, i: nat)
    requires Faithful(l, start, ids) && i < |l.variants|
    ensures l.variants[i].fontId in MostRecent(ids) && 0 < LastUse(ids, l.variants[i].fontId) <= |ids|
  {
    hide MostRecent, LastUse;
    MostRecentFacts(ids);
    assert l.variants[i] in l.variants;
    assert l.variants[i].fontId in Ids(l.variants);
  }

  /** Before the clock wraps, the variant with the least time is the one used longest ago. */
  lemma OldestIsLeastRecent(l: Lru, start: nat, ids: seq<int>)
    requires Faithful(l, start, ids) && start + |ids| < CLOCK_LIMIT && l.variants != []
    ensures l.variants[Oldest(l.variants)].fontId == MostRecent(ids)[|MostRecent(ids)| - 1]
  {
    hide MostRecent, LastUse, Oldest, Stamp;
    MostRecentFacts(ids);
    var m, k := MostRecent(ids), Oldest(l.variants);
    var last := m[|m| - 1];
    assert last in Elements(m);
    var v :| v in l.variants && v.fontId == last;
    var i :| 0 <= i < |l.variants| && l.variants[i] == v;
    VariantIsRecent(l, start, ids, k);
    VariantIsRecent(l, start, ids, i);
    OldestIsLeast(l.variants, i);
    StampOrder(start, LastUse(ids, l.variants[k].fontId), LastUse(ids, last));
    LeastIsLast(m, ids, l.variants[k].fontId);
  }

  lemma OldestIsLeast(vs: seq<Variant>, i: nat)
    requires i < |vs|
    ensures vs[Oldest(vs)].lastUse <= vs[i].lastUse
  {
  }

  lemma LeastIsLast(m: seq<int>, ids: seq<int>, x: int)
    requires NewestFirst(m, ids) && x in m && LastUse(ids, x) <= LastUse(ids, m[|m| - 1])
    ensures x == m[|m| - 1]
  {
    var k :| 0 <= k < |m| && m[k] == x;
  }

  lemma TouchKeeps(l: Lru, start: nat, ids: seq<int>, k: nat)
    requires Faithful(l, start, ids) && k < |l.variants|
    ensures Faithful(Touch(l, k), start, ids + [l.variants[k].fontId])
  {
    hide MostRecent, LastUse, Stamp, Tick, Ids;
    var id := l.variants[k].fontId;
    var t := Touch(l, k);
    VariantIsRecent(l, start, ids, k);
    MostRecentNext(ids, id);
    SameIds(l.variants, t.variants);
    ClockNext(start, |ids|);
    forall i | 0 <= i < |t.variants|
      ensures t.variants[i].lastUse == Stamp(start, LastUse(ids + [id], t.variants[i].fontId))
    {
      LaterUse(ids, id, t.variants[i].fontId);
      if i == k {
        assert t.variants[i] == Variant(id, Tick(l.clock));
      } else {
        assert t.variants[i] == l.variants[i];
        OthersDiffer(l.variants, i, k);
      }
    }
  }

  lemma OthersDiffer(vs: seq<Variant>, i: nat, k: nat)
    requires Distinct(vs) && i < |vs| && k < |vs| && i != k
    ensures vs[i].fontId != vs[k].fontId
  {
  }

  lemma SameIds(vs: seq<Variant>, ws: seq<Variant>)
    requires |vs| == |ws| && forall i :: 0 <= i < |vs| ==> vs[i].fontId == ws[i].fontId
    ensures Ids(vs) == Ids(ws)
  {
    forall id ensures id in Ids(vs) <==> id in Ids(ws) {
      IdsAt(vs, id);
      IdsAt(ws, id);
    }
  }

  lemma IdsAt(vs: seq<Variant>, id: int)
    ensures id in Ids(vs) <==> exists i :: 0 <= i < |vs| && vs[i].fontId == id
  {
    if id in Ids(vs) {
      var v :| v in vs && v.fontId == id;
      var i :| 0 <= i < |vs| && vs[i] == v;
      assert vs[i].fontId == id;
    }
  }

  lemma ClockNext(start: nat, n: nat)
    ensures Tick(Stamp(start, n)) == Stamp(start, n + 1)
  {
  }

  /** What loading one more variant leaves of the list, an eviction included. */
  lemma AdmitKeeps(l: Lru, start: nat, ids: seq<int>, id: int)
    requires Faithful(l, start, ids) && start + |ids| < CLOCK_LIMIT && id !in Ids(l.variants)
    ensures Faithful(Admit(Evict(l), id), start, ids + [id])
  {
    hide MostRecent, LastUse, Oldest, Ids, IndexOf, Stamp, Tick;
    var m := MostRecent(ids);
    MostRecentNext(ids, id);
    MostRecentBound(ids);
    var e, t := Evict(l), Admit(Evict(l), id);
    EvictedIds(l, start, ids);
    AdmittedIds(e, id);
    ClockNext(start, |ids|);
    assert Elements([id] + (if |m| < MAX_VARIANTS then m else m[..MAX_VARIANTS - 1])) ==
           {id} + Elements(if |m| < MAX_VARIANTS then m else m[..MAX_VARIANTS - 1]);
    forall i | 0 <= i < |t.variants|
      ensures t.variants[i].lastUse == Stamp(start, LastUse(ids + [id], t.variants[i].fontId))
    {
      LaterUse(ids, id, t.variants[i].fontId);
      if i < |e.variants| {
        assert t.variants[i] == e.variants[i];
        VariantStays(l, i);
      }
    }
  }

  lemma MostRecentBound(ids: seq<int>)
    ensures |MostRecent(ids)| <= MAX_VARIANTS
  {
  }

  /** A variant left after an eviction was there before it. */
  lemma VariantStays(l: Lru, i: nat)
    requires i < |Evict(l).variants|
    ensures exists j :: 0 <= j < |l.variants| && l.variants[j] == Evict(l).variants[i]
    ensures Evict(l).variants[i].fontId in Ids(l.variants)
  {
    hide Oldest;
    if |l.variants| >= MAX_VARIANTS {
      var k := Oldest(l.variants);
      assert l.variants[if i < k then i else i + 1] == Evict(l).variants[i];
    } else {
      assert l.variants[i] == Evict(l).variants[i];
    }
  }

  lemma EvictedIds(l: Lru, start: nat, ids: seq<int>)
    requires Faithful(l, start, ids) && start + |ids| < CLOCK_LIMIT
    ensures var m, e := MostRecent(ids), Evict(l);
            Distinct(e.variants) && e.clock == l.clock && Ids(e.variants) <= Ids(l.variants) &&
            |e.variants| == (if |m| < MAX_VARIANTS then |m| else MAX_VARIANTS - 1) &&
            Ids(e.variants) == Elements(if |m| < MAX_VARIANTS then m else m[..MAX_VARIANTS - 1])
  {
    hide MostRecent, LastUse, Oldest, Stamp;
    var m, e := MostRecent(ids), Evict(l);
    MostRecentBound(ids);
    MostRecentFacts(ids);
    if |l.variants| >= MAX_VARIANTS {
      OldestIsLeastRecent(l, start, ids);
      var k := Oldest(l.variants);
      RemovedIds(l.variants, k);
      assert m == m[..MAX_VARIANTS - 1] + [m[MAX_VARIANTS - 1]];
      ElementsOfPrefix(m);
    }
  }

  lemma ElementsOfPrefix(m: seq<int>)
    requires m != [] && NoRepeats(m)
    ensures Elements(m[..|m| - 1]) == Elements(m) - {m[|m| - 1]}
  {
    var n := |m| - 1;
    forall x ensures x in Elements(m[..n]) <==> x in Elements(m) - {m[n]} {
      if x in m[..n] {
        var k :| 0 <= k < n && m[..n][k] == x;
        assert m[k] == x;
      }
    }
  }

  lemma RemovedIds(vs: seq<Variant>, k: nat)
    requires k < |vs| && Distinct(vs)
    ensures Distinct(vs[..k] + vs[k + 1..]) && Ids(vs[..k] + vs[k + 1..]) == Ids(vs) - {vs[k].fontId}
  {
    var ws := vs[..k] + vs[k + 1..];
    forall i | 0 <= i < |ws| ensures ws[i] == vs[if i < k then i else i + 1] {
    }
    forall id ensures id in Ids(ws) <==> id in Ids(vs) - {vs[k].fontId} {
      IdsAt(vs, id);
      IdsAt(ws, id);
      if id in Ids(vs) - {vs[k].fontId} {
        var i :| 0 <= i < |vs| && vs[i].fontId == id;
        assert ws[if i < k then i else i - 1].fontId == id;
      }
    }
  }

  lemma AdmittedIds(e: Lru, id: int)
    requires Distinct(e.variants) && id !in Ids(e.variants)
    ensures Distinct(Admit(e, id).variants) && Ids(Admit(e, id).variants) == Ids(e.variants) + {id}
  {
    var ws := Admit(e, id).variants;
    forall i | 0 <= i < |e.variants| ensures e.variants[i].fontId in Ids(e.variants) {
      assert e.variants[i] in e.variants;
    }
    forall x ensures x in Ids(ws) <==> x in Ids(e.variants) + {id} {
      IdsAt(ws, x);
      IdsAt(e.variants, x);
      if x in Ids(e.variants) {
        var i :| 0 <= i < |e.variants| && e.variants[i].fontId == x;
        assert ws[i].fontId == x;
      }
      assert ws[|e.variants|].fontId == id;
    }
  }

  /**
   * After any uses since the list was empty, as long as the clock has not wrapped, the loaded variants are
   * exactly the most recently used ones.
   */
  lemma {:induction false} HoldsMostRecent(start: nat, ids: seq<int>)
    requires start + |ids| <= CLOCK_LIMIT && start < CLOCK_LIMIT
    ensures Faithful(Requests(Lru([], start), ids), start, ids)
  {
    hide Faithful, MostRecent, Touch, Admit, Evict, Ids, Oldest;
    if ids == [] {
      NothingUsed(start);
    } else {
      var before, id := ids[..|ids| - 1], ids[|ids| - 1];
      HoldsMostRecent(start, before);
      var l := Requests(Lru([], start), before);
      assert ids == before + [id];
      IdsOf(l.variants, id);
      if IndexOf(l.variants, id) < |l.variants| {
        TouchKeeps(l, start, before, IndexOf(l.variants, id));
      } else {
        AdmitKeeps(l, start, before, id);
      }
    }
  }

  lemma NothingUsed(start: nat)
    requires start < CLOCK_LIMIT
    ensures Faithful(Lru([], start), start, [])
  {
  }

  // ---- The clock wraps ----

  function Times(x: int, n: nat): (r: seq<int>)
    ensures |r| == n && forall i :: 0 <= i < n ==> r[i] == x
  {
    if n == 0 then [] else Times(x, n - 1) + [x]
  }

  lemma TimesNext(a: seq<int>, x: int, n: nat)
    requires n > 0
    ensures a + Times(x, n) == a + Times(x, n - 1) + [x]
  {
  }

  lemma {:induction false} UsedAgain(a: seq<int>, x: int, n: nat)
    requires a != [] && a[|a| - 1] == x
    ensures Recency(a + Times(x, n)) == Recency(a)
    decreases n
  {
    hide Without, Recency, Times;
    if n == 0 {
      assert Times(x, 0) == [] && a + [] == a;
    } else {
      UsedAgain(a, x, n - 1);
      TimesNext(a, x, n);
      RecencyNext(a + Times(x, n - 1), x);
      RecencyHead(a);
      RecencyOrdered(a);
      WithoutHead(Recency(a));
    }
  }

  lemma {:induction false} LastUseAgain(a: seq<int>, x: int, n: nat, y: int)
    requires a != [] && a[|a| - 1] == x
    ensures LastUse(a + Times(x, n), y) == if y == x then |a| + n else LastUse(a, y)
    decreases n
  {
    hide LastUse, Times;
    if n == 0 {
      assert Times(x, 0) == [] && a + [] == a;
      LastIsLast(a);
    } else {
      LastUseAgain(a, x, n - 1, y);
      TimesNext(a, x, n);
      LaterUse(a + Times(x, n - 1), x, y);
    }
  }

  lemma LastIsLast(a: seq<int>)
    requires a != []
    ensures LastUse(a, a[|a| - 1]) == |a|
  {
  }

  lemma WithoutHead(r: seq<int>)
    requires r != [] && NoRepeats(r)
    ensures [r[0]] + Without(r, r[0]) == r
  {
    WithoutOf(r, 0);
  }

  lemma RecencyHead(a: seq<int>)
    requires a != []
    ensures Recency(a) != [] && Recency(a)[0] == a[|a| - 1]
  {
  }

  lemma FiveUsed()
    ensures var a := [1, 2, 3, 4, 5];
            Recency(a) == [5, 4, 3, 2, 1] && forall x :: 1 <= x <= 5 ==> LastUse(a, x) == x
  {
    hide LastUse, Recency;
    assert [1, 2, 3, 4, 5] == [1, 2, 3, 4] + [5] && [1, 2, 3, 4] == [1, 2, 3] + [4] && [1, 2, 3] == [1, 2] + [3];
    assert [1, 2] == [1] + [2] && [1] == [] + [1];
    NoneUsed();
    WithoutAbsent([], 1);
    RecencyNext([], 1);
    RecencyNext([1], 2);
    RecencyNext([1, 2], 3);
    RecencyNext([1, 2, 3], 4);
    RecencyNext([1, 2, 3, 4], 5);
    WithoutAbsent([1], 2);
    WithoutAbsent([2, 1], 3);
    WithoutAbsent([3, 2, 1], 4);
    WithoutAbsent([4, 3, 2, 1], 5);
    FiveLastUses();
  }

  lemma NoneUsed()
    ensures Recency([]) == []
  {
  }

  lemma FiveLastUses()
    ensures forall x :: 1 <= x <= 5 ==> LastUse([1, 2, 3, 4, 5], x) == x
  {
    assert [1, 2, 3, 4, 5] == [1, 2, 3, 4] + [5] && [1, 2, 3, 4] == [1, 2, 3] + [4] && [1, 2, 3] == [1, 2] + [3];
    assert [1, 2] == [1] + [2] && [1] == [] + [1];
    forall x | 1 <= x <= 5 ensures LastUse([1, 2, 3, 4, 5], x) == x {
      LaterUse([1, 2, 3, 4], 5, x);
      LaterUse([1, 2, 3], 4, x);
      LaterUse([1, 2], 3, x);
      LaterUse([1], 2, x);
      LaterUse([], 1, x);
    }
  }

  /** One use more than the clock can count: the variant used last is taken for the oldest and evicted. */
  lemma WrapEvictsNewest() returns (ids: seq<int>)
    ensures |ids| == CLOCK_LIMIT + 1
    ensures ids[|ids| - 2] in MostRecent(ids) && ids[|ids| - 2] !in Ids(Requests(EMPTY, ids).variants)
  {
    hide Recency, LastUse, Requests, Oldest, Evict, Admit, Times;
    var first := [1, 2, 3, 4, 5];
    var before := first + Times(5, CLOCK_LIMIT - 5);
    ids := before + [6];
    FiveUsed();
    UsedAgain(first, 5, CLOCK_LIMIT - 5);
    forall x | 1 <= x <= 5 ensures LastUse(before, x) == if x == 5 then CLOCK_LIMIT else x {
      LastUseAgain(first, 5, CLOCK_LIMIT - 5, x);
    }
    HoldsMostRecent(0, before);
    var l := Requests(EMPTY, before);
    RequestsNext(EMPTY, before, 6);
    assert MostRecent(before) == [5, 4, 3, 2, 1];
    assert Elements([5, 4, 3, 2, 1]) == {1, 2, 3, 4, 5};
    MostRecentNext(before, 6);
    NewestLooksOldest(l, before);
    assert ids[|ids| - 2] == before[|before| - 1] == 5;
    assert MostRecent(ids) == [6] + MostRecent(before)[..4];
    assert MostRecent(ids)[1] == 5;
  }

  lemma RequestsNext(l: Lru, ids: seq<int>, id: int)
    ensures Requests(l, ids + [id]) == Request(Requests(l, ids), id)
  {
    assert (ids + [id])[..|ids|] == ids;
  }

  lemma NewestLooksOldest(l: Lru, ids: seq<int>)
    requires Distinct(l.variants) && |l.variants| == 5 && Ids(l.variants) == {1, 2, 3, 4, 5}
    requires forall i :: 0 <= i < 5 ==> l.variants[i].lastUse == LastUse(ids, l.variants[i].fontId) % CLOCK_LIMIT
    requires LastUse(ids, 5) == CLOCK_LIMIT && forall x :: 1 <= x < 5 ==> LastUse(ids, x) == x
    ensures 5 !in Ids(Request(l, 6).variants)
  {
    hide LastUse, Oldest, Ids, IndexOf;
    var vs := l.variants;
    IdsAt(vs, 5);
    var i :| 0 <= i < |vs| && vs[i].fontId == 5;
    var k := Oldest(vs);
    OldestIsLeast(vs, i);
    IdsAt(vs, vs[k].fontId);
    assert vs[k].fontId == 5;
    IdsOf(vs, 6);
    RemovedIds(vs, k);
    AdmittedIds(Evict(l), 6);
  }

  lemma LastIsLoaded(l: Lru, id: int)
    ensures id in Ids(Request(l, id).variants)
  {
    hide Oldest, Evict;
    var k := IndexOf(l.variants, id);
    var vs := Request(l, id).variants;
    assert vs[if k < |l.variants| then k else |vs| - 1].fontId == id;
    IdsAt(vs, id);
  }

  /** Using the id used last again changes nothing but times. */
  lemma {:induction false} RepeatKeeps(ids: seq<int>, x: int, n: nat)
    requires ids != [] && ids[|ids| - 1] == x
    ensures Ids(Requests(EMPTY, ids + Times(x, n)).variants) == Ids(Requests(EMPTY, ids).variants)
    ensures x in Ids(Requests(EMPTY, ids).variants)
    decreases n
  {
    hide Ids, Requests, Times, Evict, Admit;
    assert ids == ids[..|ids| - 1] + [x];
    RequestsNext(EMPTY, ids[..|ids| - 1], x);
    LastIsLoaded(Requests(EMPTY, ids[..|ids| - 1]), x);
    if n == 0 {
      assert Times(x, 0) == [] && ids + [] == ids;
    } else {
      RepeatKeeps(ids, x, n - 1);
      TimesNext(ids, x, n);
      RequestsNext(EMPTY, ids + Times(x, n - 1), x);
      var l := Requests(EMPTY, ids + Times(x, n - 1));
      IdsOf(l.variants, x);
      SameIds(l.variants, Touch(l, IndexOf(l.variants, x)).variants);
    }
  }

  /** Whatever the ids, after n uses the loaded variants are the most recently used ones. */
  ghost predicate KeepsMostRecent(n: nat)
  {
    forall ids: seq<int> :: |ids| == n ==> Ids(Requests(EMPTY, ids).variants) == Elements(MostRecent(ids))
  }

  /** That is so exactly as long as the clock can count the uses. */
  lemma KeepsMostRecentExactly(n: nat)
    ensures KeepsMostRecent(n) <==> n <= 0x1_0000_0000
  {
    hide Ids, Requests, MostRecent, Recency, Elements, Times;
    if n <= CLOCK_LIMIT {
      forall ids: seq<int> | |ids| == n ensures Ids(Requests(EMPTY, ids).variants) == Elements(MostRecent(ids)) {
        HoldsMostRecent(0, ids);
      }
    } else {
      var ids := WrapEvictsNewest();
      var x, more := ids[|ids| - 1], n - |ids|;
      RepeatKeeps(ids, x, more);
      UsedAgain(ids, x, more);
      SameRecency(ids + Times(x, more), ids);
      InElements(MostRecent(ids), ids[|ids| - 2]);
      assert |ids + Times(x, more)| == n;
    }
  }

  lemma SameRecency(a: seq<int>, b: seq<int>)
    requires Recency(a) == Recency(b)
    ensures MostRecent(a) == MostRecent(b)
  {
    hide Recency;
  }

  lemma InElements(r: seq<int>, x: int)
    requires x in r
    ensures x in Elements(r)
  {
  }

  /** The most recently used ids are all that were used, or five of them. */
  lemma FiveMostRecent(ids: seq<int>)
    ensures Elements(MostRecent(ids)) <= Elements(ids) && |MostRecent(ids)| <= 5
    ensures |MostRecent(ids)| < 5 ==> Elements(MostRecent(ids)) == Elements(ids)
  {
    RecencyOrdered(ids);
  }
}
