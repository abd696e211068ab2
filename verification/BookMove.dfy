/** Moving a book or a folder of books together with the clipping files of every book in it. */
module BookMove {
  import opened Bytes
  import opened Options
  import opened Device

  type Path = seq<string>

  /** A clipping file is named by the path of its book and a suffix. */
  type Key = (Path, Suffix)
  type Stores = map<Key, seq<byte>>

  const STORE_SUFFIXES: seq<Suffix> := [Main, Bak, Tmp, Deleted, MigrateBak]
  const MAX_MOVE_DEPTH: nat := 32
  const MAX_NAME: nat := 1024

  datatype Node = File(name: string) | Dir(name: string, children: seq<Node>)

  /** What is moved: a book, or a folder with everything below it. */
  datatype Root = Book | Folder(children: seq<Node>)

  // ---- The files of a tree, in listing order ----

  predicate IsDots(name: string) { name == "." || name == ".." }

  function Prefixed(name: string, paths: seq<Path>): (r: seq<Path>)
    ensures |r| == |paths| && forall i :: 0 <= i < |r| ==> r[i] == [name] + paths[i]
  {
    seq(|paths|, i requires 0 <= i < |paths| => [name] + paths[i])
  }

  function FilesOf(children: seq<Node>): seq<Path>
  {
    if children == [] then []
    else FilesOfNode(children[0]) + FilesOf(children[1..])
  }

  function FilesOfNode(node: Node): seq<Path>
  {
    if IsDots(node.name) then []
    else
      match node
      case File(name) => [[name]]
      case Dir(name, children) => Prefixed(name, FilesOf(children))
  }

  function RootFiles(root: Root): seq<Path>
  {
    match root
    case Book => [[]]
    case Folder(children) => FilesOf(children)
  }

  /** The walk gets through: every name fits and no folder lies deeper than the stack allows. */
  predicate Walkable(children: seq<Node>, depth: nat)
  {
    children == [] || (WalkableNode(children[0], depth) && Walkable(children[1..], depth))
  }

  predicate WalkableNode(node: Node, depth: nat)
  {
    0 < |node.name| < MAX_NAME &&
    (IsDots(node.name) || node.File? || (depth < MAX_MOVE_DEPTH && Walkable(node.children, depth + 1)))
  }

  predicate RootWalkable(root: Root)
  {
    root.Book? || Walkable(root.children, 1)
  }

  /** A file of the tree: a path of names, none of them "." or "..", that ends at a file. */
  predicate HasFile(children: seq<Node>, f: Path)
  {
    children != [] && (LeadsTo(children[0], f) || HasFile(children[1..], f))
  }

  predicate LeadsTo(node: Node, f: Path)
  {
    node.name != "." && node.name != ".." && f != [] && f[0] == node.name &&
    match node
    case File(_) => |f| == 1
    case Dir(_, children) => HasFile(children, f[1..])
  }

  /** A book of what is moved: the book itself, or a file of the folder. */
  predicate HasBook(root: Root, f: Path)
  {
    match root
    case Book => f == []
    case Folder(children) => HasFile(children, f)
  }

  lemma {:induction false} FilesAreFound(children: seq<Node>, f: Path)
    ensures f in FilesOf(children) <==> HasFile(children, f)
    decreases children
  {
    if children != [] {
      FilesAreFound(children[1..], f);
      match children[0] {
        case File(_) => { if |f| == 1 { assert f == [f[0]]; } }
        case Dir(name, inner) => {
          var paths := FilesOf(inner);
          if f != [] {
            FilesAreFound(inner, f[1..]);
            if f[0] == name && f[1..] in paths {
              var i :| 0 <= i < |paths| && paths[i] == f[1..];
              assert Prefixed(name, paths)[i] == [name] + f[1..] == f;
            }
          }
        }
      }
    }
  }

  lemma BooksAreFound(root: Root, f: Path)
    ensures f in RootFiles(root) <==> HasBook(root, f)
  {
    if root.Folder? {
      FilesAreFound(root.children, f);
    }
  }

  /** The entry that a list of positions leads to, over folders with names other than "." and "..". */
  function EntryAt(children: seq<Node>, places: seq<nat>): (entry: Option<Node>)
    ensures entry.Some? ==> places != []
  {
    if places == [] || places[0] >= |children| then None
    else
      var node := children[places[0]];
      if |places| == 1 then Some(node)
      else if node.File? || node.name == "." || node.name == ".." then None
      else EntryAt(node.children, places[1..])
  }

  /** An entry that n folders lie above can be walked: its name has 1 to 1023 bytes, and at most 32 folders nest. */
  predicate EntryFits(node: Node, n: nat)
  {
    1 <= |node.name| <= 1023 && (node.File? || node.name == "." || node.name == ".." || n < 32)
  }

  /** Every entry that can be come to fits. */
  ghost predicate AllFit(children: seq<Node>, above: nat)
  {
    forall places :: EntryAt(children, places).Some? ==>
      EntryFits(EntryAt(children, places).value, above + |places| - 1)
  }

  lemma {:induction false} WalkableExactly(children: seq<Node>, above: nat)
    ensures Walkable(children, above) <==> AllFit(children, above)
    decreases children
  {
    if children != [] {
      var node, rest := children[0], children[1..];
      WalkableExactly(rest, above);
      if node.Dir? {
        WalkableExactly(node.children, above + 1);
      }
      FirstAndRest(children, above);
    }
  }

  /** Entries other than the first are those of the rest. */
  lemma OneFurther(children: seq<Node>, k: nat, below: seq<nat>)
    requires children != []
    ensures EntryAt(children, [k + 1] + below) == EntryAt(children[1..], [k] + below)
  {
    assert ([k + 1] + below)[1..] == below && ([k] + below)[1..] == below;
  }

  /** Entries below the first are those of its folder. */
  lemma OneDeeper(children: seq<Node>, below: seq<nat>)
    requires children != [] && below != []
    ensures EntryAt(children, [0] + below) ==
            if children[0].Dir? && children[0].name != "." && children[0].name != ".." then
              EntryAt(children[0].children, below)
            else None
  {
    assert ([0] + below)[1..] == below;
  }

  lemma TheFirst(children: seq<Node>)
    requires children != []
    ensures EntryAt(children, [0]) == Some(children[0])
  {
  }

  lemma AllOfThem(children: seq<Node>, above: nat)
    requires children != [] && AllFit(children, above)
    ensures EntryFits(children[0], above) && AllFit(children[1..], above)
    ensures children[0].Dir? && children[0].name != "." && children[0].name != ".." ==>
              AllFit(children[0].children, above + 1)
  {
    hide EntryFits, EntryAt;
    var node, rest := children[0], children[1..];
    TheFirst(children);
    forall places | EntryAt(rest, places).Some?
      ensures EntryFits(EntryAt(rest, places).value, above + |places| - 1) {
      OneFurther(children, places[0], places[1..]);
      assert [places[0]] + places[1..] == places;
    }
    if node.Dir? && node.name != "." && node.name != ".." {
      forall places | EntryAt(node.children, places).Some?
        ensures EntryFits(EntryAt(node.children, places).value, above + 1 + |places| - 1) {
        OneDeeper(children, places);
      }
    }
  }

  lemma NoneIsLeft(children: seq<Node>, above: nat, places: seq<nat>)
    requires children != [] && EntryFits(children[0], above) && AllFit(children[1..], above)
    requires children[0].Dir? && children[0].name != "." && children[0].name != ".." ==>
               AllFit(children[0].children, above + 1)
    requires EntryAt(children, places).Some?
    ensures EntryFits(EntryAt(children, places).value, above + |places| - 1)
  {
    hide EntryFits, EntryAt;
    var below := places[1..];
    assert places == [places[0]] + below;
    if places[0] > 0 {
      OneFurther(children, places[0] - 1, below);
      assert |[places[0] - 1] + below| == |places|;
    } else if below == [] {
      assert places == [0];
      TheFirst(children);
    } else {
      OneDeeper(children, below);
    }
  }

  lemma FirstAndRest(children: seq<Node>, above: nat)
    requires children != []
    ensures var node := children[0];
            AllFit(children, above) <==>
            EntryFits(node, above) && AllFit(children[1..], above) &&
            (node.Dir? && node.name != "." && node.name != ".." ==> AllFit(node.children, above + 1))
  {
    hide EntryFits, EntryAt;
    if AllFit(children, above) {
      AllOfThem(children, above);
    } else {
      var places :| EntryAt(children, places).Some? &&
                    !EntryFits(EntryAt(children, places).value, above + |places| - 1);
      if EntryFits(children[0], above) && AllFit(children[1..], above) &&
         (children[0].Dir? && children[0].name != "." && children[0].name != ".." ==>
           AllFit(children[0].children, above + 1)) {
        NoneIsLeft(children, above, places);
      }
    }
  }

  // ---- What listing a folder yields ----

  /**
   * A listing ends early when reading an entry fails: openNextFile then returns what it returns at the end of
   * the folder. What a walk comes to see is the folder with some listings, its own or those below, cut short.
   */
  predicate ListedAs(children: seq<Node>, listed: seq<Node>)
  {
    listed == [] || (children != [] && NodeListedAs(children[0], listed[0]) && ListedAs(children[1..], listed[1..]))
  }

  predicate NodeListedAs(node: Node, listed: Node)
  {
    match node
    case File(_) => listed == node
    case Dir(name, children) => listed.Dir? && listed.name == name && ListedAs(children, listed.children)
  }

  /** The moved book or folder as one walk sees it. */
  function Seen(root: Root, listed: seq<Node>): Root
  {
    if root.Book? then Book else Folder(listed)
  }

  lemma {:induction false} ListedFiles(children: seq<Node>, listed: seq<Node>, f: Path)
    requires ListedAs(children, listed) && f in FilesOf(listed)
    ensures f in FilesOf(children)
    decreases children
  {
    if f in FilesOfNode(listed[0]) {
      if listed[0].Dir? {
        var inner, whole := FilesOf(listed[0].children), FilesOf(children[0].children);
        var k :| 0 <= k < |inner| && f == [listed[0].name] + inner[k];
        ListedFiles(children[0].children, listed[0].children, inner[k]);
        var m :| 0 <= m < |whole| && whole[m] == inner[k];
        assert Prefixed(children[0].name, whole)[m] == f;
      }
      assert f in FilesOfNode(children[0]);
    } else {
      ListedFiles(children[1..], listed[1..], f);
    }
  }

  /** A complete listing is the folder itself. */
  lemma {:induction false} ListedWhole(children: seq<Node>)
    ensures ListedAs(children, children)
    decreases children
  {
    if children != [] {
      ListedWhole(children[1..]);
      if children[0].Dir? {
        ListedWhole(children[0].children);
      }
    }
  }

  // ---- The renames of a move ----

  /** From and to. */
  type Pair = (Key, Key)

  /** What one walk comes to see: a listing, and the renames whose file wrongly seems to be missing. */
  datatype Sight = Sight(listed: seq<Node>, blind: set<Pair>)

  /** What the three walks of a move come to see. */
  datatype Listings = Listings(check: Sight, move: Sight, rollback: Sight)

  predicate ListingsOf(root: Root, l: Listings)
  {
    root.Folder? ==>
      ListedAs(root.children, l.check.listed) && ListedAs(root.children, l.move.listed) &&
      ListedAs(root.children, l.rollback.listed)
  }

  function PairAt(oldPath: Path, newPath: Path, i: nat): Pair
    requires i < 5
  {
    ((oldPath, STORE_SUFFIXES[i]), (newPath, STORE_SUFFIXES[i]))
  }

  /** The first n renames of one book. */
  function FilePairs(oldPath: Path, newPath: Path, n: nat): set<Pair>
    requires n <= 5
  {
    if n == 0 then {} else FilePairs(oldPath, newPath, n - 1) + {PairAt(oldPath, newPath, n - 1)}
  }

  /** Five renames for every file. */
  function Pairs(from: Path, to: Path, files: seq<Path>): set<Pair>
  {
    if files == [] then {}
    else
      var f := files[|files| - 1];
      Pairs(from, to, files[..|files| - 1]) + FilePairs(from + f, to + f, 5)
  }

  lemma {:induction false} InFilePairs(oldPath: Path, newPath: Path, n: nat, p: Pair)
    requires n <= 5
    ensures p in FilePairs(oldPath, newPath, n) <==> exists i :: 0 <= i < n && p == PairAt(oldPath, newPath, i)
  {
    hide PairAt;
    if n > 0 {
      InFilePairs(oldPath, newPath, n - 1, p);
    }
  }

  /** The renames that a walk comes to. */
  function SeenPairs(from: Path, to: Path, root: Root, sight: Sight): set<Pair>
  {
    Pairs(from, to, RootFiles(Seen(root, sight.listed))) - sight.blind
  }

  lemma {:induction false} InPairs(from: Path, to: Path, files: seq<Path>, p: Pair)
    ensures p in Pairs(from, to, files) <==>
            exists k :: 0 <= k < |files| && p in FilePairs(from + files[k], to + files[k], 5)
  {
    hide FilePairs;
    if files != [] {
      var n := |files| - 1;
      InPairs(from, to, files[..n], p);
      assert forall k :: 0 <= k < n ==> files[..n][k] == files[k];
    }
  }

  lemma PairsWithin(from: Path, to: Path, some: seq<Path>, files: seq<Path>)
    requires forall f :: f in some ==> f in files
    ensures Pairs(from, to, some) <= Pairs(from, to, files)
  {
    hide FilePairs, Pairs;
    forall p | p in Pairs(from, to, some) ensures p in Pairs(from, to, files) {
      InPairs(from, to, some, p);
      InPairs(from, to, files, p);
      var k :| 0 <= k < |some| && p in FilePairs(from + some[k], to + some[k], 5);
      assert some[k] in some;
      var m :| 0 <= m < |files| && files[m] == some[k];
    }
  }

  lemma NextPairs(from: Path, to: Path, files: seq<Path>, n: nat)
    requires n < |files|
    ensures Pairs(from, to, files[..n + 1]) ==
            Pairs(from, to, files[..n]) + FilePairs(from + files[n], to + files[n], 5)
    ensures FilePairs(from + files[n], to + files[n], 5) <= Pairs(from, to, files)
  {
    hide FilePairs;
    assert files[..n + 1][..n] == files[..n];
    forall p | p in FilePairs(from + files[n], to + files[n], 5) ensures p in Pairs(from, to, files) {
      InPairs(from, to, files, p);
    }
  }

  /** No file is moved twice, and nothing is moved onto a place that something else is moved from or to. */
  ghost predicate Separate(all: set<Pair>)
  {
    (forall p, q :: p in all && q in all && (p.0 == q.0 || p.1 == q.1) ==> p == q) &&
    (forall p, q :: p in all && q in all ==> p.0 != q.1)
  }

  predicate SameAt(s: Stores, k: Key, s0: Stores, k0: Key)
  {
    (k in s <==> k0 in s0) && (k in s ==> s[k] == s0[k0])
  }

  ghost predicate Uninvolved(k: Key, all: set<Pair>)
  {
    forall p :: p in all ==> k != p.0 && k != p.1
  }

  /**
   * What a move that came to this rename, or not, and a rollback that did, or not, leave at both places. A file
   * at the new place that was there before stays there or, if the old place is empty, is taken for a moved one.
   */
  predicate AsLeft(s0: Stores, s: Stores, p: Pair, did: bool, undid: bool)
  {
    if p.0 in s0 && p.1 !in s0 && did && !undid then p.0 !in s && SameAt(s, p.1, s0, p.0)
    else if p.0 !in s0 && p.1 in s0 && undid then p.1 !in s && SameAt(s, p.0, s0, p.1)
    else SameAt(s, p.0, s0, p.0) && SameAt(s, p.1, s0, p.1)
  }

  /** s is s0 after a move came to the renames did and a rollback to the renames undone. */
  ghost predicate LeftAs(s0: Stores, s: Stores, all: set<Pair>, did: set<Pair>, undone: set<Pair>)
  {
    (forall p :: p in all ==> AsLeft(s0, s, p, p in did, p in undone)) &&
    (forall k: Key :: Uninvolved(k, all) ==> SameAt(s, k, s0, k))
  }

  lemma NothingLeft(s0: Stores, all: set<Pair>)
    ensures LeftAs(s0, s0, all, {}, {})
  {
  }

  /** Every clipping file of the tree lies at its new place, and nothing else changed. */
  ghost predicate AllMoved(s0: Stores, s: Stores, all: set<Pair>)
  {
    (forall p :: p in all ==> p.0 !in s && (p.0 in s0 ==> p.1 !in s0 && SameAt(s, p.1, s0, p.0)) &&
                              (p.0 !in s0 ==> SameAt(s, p.1, s0, p.1))) &&
    (forall k: Key :: Uninvolved(k, all) ==> SameAt(s, k, s0, k))
  }

  /** A move leaves nothing behind exactly when it came to every rename with something to move and a free target. */
  lemma ShortListing(s0: Stores, s: Stores, all: set<Pair>, did: set<Pair>)
    requires LeftAs(s0, s, all, did, {})
    ensures AllMoved(s0, s, all) <==> forall p :: p in all && p.0 in s0 ==> p in did && p.1 !in s0
  {
    if AllMoved(s0, s, all) {
      forall p | p in all && p.0 in s0 ensures p in did && p.1 !in s0 {
        assert AsLeft(s0, s, p, p in did, false);
      }
    } else if forall p :: p in all && p.0 in s0 ==> p in did && p.1 !in s0 {
      forall p | p in all
        ensures p.0 !in s && (p.0 in s0 ==> p.1 !in s0 && SameAt(s, p.1, s0, p.0)) &&
                (p.0 !in s0 ==> SameAt(s, p.1, s0, p.1))
      {
        assert AsLeft(s0, s, p, p in did, false);
      }
    }
  }

  /**
   * A move that is rolled back leaves everything as it was exactly when the rollback came to every rename that had
   * been done, and to none whose new place alone had been taken before.
   */
  lemma ShortRollback(s0: Stores, s: Stores, all: set<Pair>, did: set<Pair>, undone: set<Pair>)
    requires LeftAs(s0, s, all, did, undone)
    ensures s == s0 <==>
            forall p :: p in all ==> (p.0 in s0 && p.1 !in s0 && p in did ==> p in undone) &&
                                     (p.0 !in s0 && p.1 in s0 ==> p !in undone)
  {
    if forall p :: p in all ==> (p.0 in s0 && p.1 !in s0 && p in did ==> p in undone) &&
                                (p.0 !in s0 && p.1 in s0 ==> p !in undone) {
      forall k: Key ensures (k in s <==> k in s0) && (k in s ==> s[k] == s0[k]) {
        if !Uninvolved(k, all) {
          var p :| p in all && (k == p.0 || k == p.1);
          assert AsLeft(s0, s, p, p in did, p in undone);
        } else {
          assert SameAt(s, k, s0, k);
        }
      }
      assert s.Keys == s0.Keys;
    } else {
      var p :| p in all && !((p.0 in s0 && p.1 !in s0 && p in did ==> p in undone) &&
                             (p.0 !in s0 && p.1 in s0 ==> p !in undone));
      assert AsLeft(s0, s, p, p in did, p in undone);
    }
  }

  /** What stops a phase at a rename: a new place that is taken, or one that cannot be moved to or back from. */
  predicate Blocks(phase: MovePhase, s0: Stores, p: Pair)
  {
    p.1 in s0 && (phase == Check || p.0 in s0)
  }

  /** Where a phase stands after it came to the renames seen; did is what the move before a rollback came to. */
  ghost predicate Reached(phase: MovePhase, s0: Stores, s: Stores, all: set<Pair>, did: set<Pair>, seen: set<Pair>)
  {
    match phase
    case Check => s == s0
    case Move => LeftAs(s0, s, all, seen, {})
    case Rollback => LeftAs(s0, s, all, did, seen)
  }

  lemma MoveOne(s0: Stores, s: Stores, all: set<Pair>, did: set<Pair>, p: Pair)
    requires Separate(all) && LeftAs(s0, s, all, did, {}) && p in all
    ensures p.0 in s && p.1 !in s ==> LeftAs(s0, Renamed(s, p.0, p.1), all, did + {p}, {}) && !Blocks(Move, s0, p)
    ensures p.0 in s && p.1 in s ==> Blocks(Move, s0, p)
    ensures p.0 !in s ==> LeftAs(s0, s, all, did + {p}, {}) && !Blocks(Move, s0, p)
  {
    assert AsLeft(s0, s, p, p in did, false);
    if p.0 in s && p.1 !in s {
      var t := Renamed(s, p.0, p.1);
      forall q | q in all ensures AsLeft(s0, t, q, q in did + {p}, false) {
        assert AsLeft(s0, s, q, q in did, false);
      }
    } else if p.0 !in s {
      forall q | q in all ensures AsLeft(s0, s, q, q in did + {p}, false) {
        assert AsLeft(s0, s, q, q in did, false);
      }
    }
  }

  lemma UndoOne(s0: Stores, s: Stores, all: set<Pair>, did: set<Pair>, undone: set<Pair>, p: Pair)
    requires Separate(all) && LeftAs(s0, s, all, did, undone) && p in all
    ensures p.1 in s && p.0 !in s ==>
              LeftAs(s0, Renamed(s, p.1, p.0), all, did, undone + {p}) && !Blocks(Rollback, s0, p)
    ensures p.1 in s && p.0 in s ==> Blocks(Rollback, s0, p)
    ensures p.1 !in s ==> LeftAs(s0, s, all, did, undone + {p}) && !Blocks(Rollback, s0, p)
  {
    assert AsLeft(s0, s, p, p in did, p in undone);
    if p.1 in s && p.0 !in s {
      var t := Renamed(s, p.1, p.0);
      forall q | q in all ensures AsLeft(s0, t, q, q in did, q in undone + {p}) {
        assert AsLeft(s0, s, q, q in did, q in undone);
      }
    } else if p.1 !in s {
      forall q | q in all ensures AsLeft(s0, s, q, q in did, q in undone + {p}) {
        assert AsLeft(s0, s, q, q in did, q in undone);
      }
    }
  }

  // ---- Why the renames do not get in each other's way ----

  predicate HasNode(children: seq<Node>, p: Path)
  {
    children != [] && (IsAt(children[0], p) || HasNode(children[1..], p))
  }

  predicate IsAt(node: Node, p: Path)
  {
    !IsDots(node.name) && p != [] && p[0] == node.name &&
    (|p| == 1 || (node.Dir? && HasNode(node.children, p[1..])))
  }

  /** The place `to` is taken by the moved tree itself or by a folder around it. */
  predicate TakenByTree(root: Root, from: Path, to: Path)
  {
    to <= from || (from <= to && root.Folder? && HasNode(root.children, to[|from|..]))
  }

  lemma {:induction false} PrefixIsNode(children: seq<Node>, f: Path, p: Path)
    requires f in FilesOf(children) && p <= f && p != []
    ensures HasNode(children, p)
    decreases children
  {
    var node := children[0];
    if f in FilesOfNode(node) {
      if node.Dir? {
        var i :| 0 <= i < |FilesOf(node.children)| && f == [node.name] + FilesOf(node.children)[i];
        if |p| > 1 {
          assert p[1..] <= FilesOf(node.children)[i];
          PrefixIsNode(node.children, FilesOf(node.children)[i], p[1..]);
        }
      }
      assert IsAt(node, p);
    } else {
      PrefixIsNode(children[1..], f, p);
    }
  }

  /** The renames of all files do not get in each other's way. */
  lemma MovesSeparate(root: Root, from: Path, to: Path)
    requires !TakenByTree(root, from, to)
    ensures Separate(Pairs(from, to, RootFiles(root)))
  {
    hide FilePairs, Pairs;
    var files := RootFiles(root);
    var all := Pairs(from, to, files);
    forall p, q | p in all && q in all
      ensures (p.0 == q.0 || p.1 == q.1 ==> p == q) && p.0 != q.1
    {
      InPairs(from, to, files, p);
      InPairs(from, to, files, q);
      var i :| 0 <= i < |files| && p in FilePairs(from + files[i], to + files[i], 5);
      var j :| 0 <= j < |files| && q in FilePairs(from + files[j], to + files[j], 5);
      InFilePairs(from + files[i], to + files[i], 5, p);
      InFilePairs(from + files[j], to + files[j], 5, q);
      PlacesApart(root, from, to, i, j);
      assert (from + files[i])[|from|..] == files[i] && (from + files[j])[|from|..] == files[j];
      assert (to + files[i])[|to|..] == files[i] && (to + files[j])[|to|..] == files[j];
    }
  }

  lemma PlacesApart(root: Root, from: Path, to: Path, i: nat, j: nat)
    requires !TakenByTree(root, from, to) && i < |RootFiles(root)| && j < |RootFiles(root)|
    ensures from + RootFiles(root)[i] != to + RootFiles(root)[j]
  {
    var f, g := RootFiles(root)[i], RootFiles(root)[j];
    if from + f == to + g {
      assert (from + f)[..|from|] == from && (to + g)[..|to|] == to;
      if |from| < |to| {
        var d := to[|from|..];
        assert f == (from + f)[|from|..] == d + g;
        PrefixIsNode(root.children, f, d);
      }
    }
  }

  // ---- The walk ----

  datatype MovePhase = Check | Move | Rollback

  /** A folder on the work stack: the entries still to be listed and where it lies below the moved folder. */
  datatype Frame = Frame(rest: seq<Node>, rel: Path)

  function Below(rel: Path, paths: seq<Path>): (r: seq<Path>)
    ensures |r| == |paths| && forall i :: 0 <= i < |r| ==> r[i] == rel + paths[i]
  {
    seq(|paths|, i requires 0 <= i < |paths| => rel + paths[i])
  }

  /** The files that the stack has still to visit. */
  function Pending(stack: seq<Frame>): seq<Path>
  {
    if stack == [] then []
    else
      var top := stack[|stack| - 1];
      Below(top.rel, FilesOf(top.rest)) + Pending(stack[..|stack| - 1])
  }

  predicate StackWalkable(stack: seq<Frame>)
  {
    stack == [] ||
    (Walkable(stack[|stack| - 1].rest, |stack|) && StackWalkable(stack[..|stack| - 1]))
  }

  function Size(children: seq<Node>): nat
  {
    if children == [] then 0 else SizeOf(children[0]) + Size(children[1..])
  }

  function SizeOf(node: Node): (n: nat)
    ensures n > 0
  {
    match node
    case File(_) => 1
    case Dir(_, children) => 2 + Size(children)
  }

  function StackSize(stack: seq<Frame>): nat
  {
    if stack == [] then 0 else 1 + Size(stack[|stack| - 1].rest) + StackSize(stack[..|stack| - 1])
  }

  lemma FirstEntry(children: seq<Node>, depth: nat)
    requires children != []
    ensures FilesOf(children) == FilesOfNode(children[0]) + FilesOf(children[1..])
    ensures Walkable(children, depth) <==> WalkableNode(children[0], depth) && Walkable(children[1..], depth)
    ensures Size(children) == SizeOf(children[0]) + Size(children[1..])
  {
  }

  lemma TopFrame(below: seq<Frame>, top: Frame)
    ensures var stack := below + [top];
            Pending(stack) == Below(top.rel, FilesOf(top.rest)) + Pending(below) &&
            (StackWalkable(stack) <==> Walkable(top.rest, |stack|) && StackWalkable(below)) &&
            StackSize(stack) == 1 + Size(top.rest) + StackSize(below)
  {
    hide FilesOf, Walkable, Size;
    assert (below + [top])[..|below|] == below;
  }

  lemma BelowBoth(rel: Path, a: seq<Path>, b: seq<Path>)
    ensures Below(rel, a + b) == Below(rel, a) + Below(rel, b)
  {
  }

  /** What listing one more entry of the top folder does to the work that is left. */
  lemma TakeEntry(stack: seq<Frame>)
    requires stack != [] && stack[|stack| - 1].rest != []
    ensures var top := stack[|stack| - 1];
            var left := stack[|stack| - 1 := Frame(top.rest[1..], top.rel)];
            Pending(stack) == Below(top.rel, FilesOfNode(top.rest[0])) + Pending(left) &&
            (StackWalkable(stack) <==> WalkableNode(top.rest[0], |stack|) && StackWalkable(left)) &&
            StackSize(stack) == SizeOf(top.rest[0]) + StackSize(left)
  {
    hide FilesOf, FilesOfNode, Walkable, WalkableNode, Size, SizeOf, Pending, StackWalkable, StackSize, Below;
    var top, below := stack[|stack| - 1], stack[..|stack| - 1];
    var next := Frame(top.rest[1..], top.rel);
    assert stack == below + [top] && stack[|stack| - 1 := next] == below + [next];
    TopFrame(below, top);
    TopFrame(below, next);
    FirstEntry(top.rest, |stack|);
    BelowBoth(top.rel, FilesOfNode(top.rest[0]), FilesOf(top.rest[1..]));
  }

  /** Opening a folder puts its entries in front of the work that is left. */
  lemma OpenFolder(stack: seq<Frame>, node: Node, rel: Path)
    requires node.Dir? && !IsDots(node.name)
    ensures var deeper := stack + [Frame(node.children, rel + [node.name])];
            Pending(deeper) == Below(rel, FilesOfNode(node)) + Pending(stack) &&
            (StackWalkable(deeper) <==> Walkable(node.children, |stack| + 1) && StackWalkable(stack)) &&
            StackSize(deeper) == 1 + Size(node.children) + StackSize(stack)
  {
    hide FilesOf, Walkable, Size, Pending, StackWalkable, StackSize;
    TopFrame(stack, Frame(node.children, rel + [node.name]));
    BelowFolder(rel, node.name, FilesOf(node.children));
  }

  lemma BelowFolder(rel: Path, name: string, paths: seq<Path>)
    ensures Below(rel + [name], paths) == Below(rel, Prefixed(name, paths))
  {
    forall i | 0 <= i < |paths| ensures rel + [name] + paths[i] == rel + ([name] + paths[i]) {
    }
  }

  lemma CloseFolder(stack: seq<Frame>)
    requires stack != [] && stack[|stack| - 1].rest == []
    ensures Pending(stack) == Pending(stack[..|stack| - 1])
    ensures StackWalkable(stack) <==> StackWalkable(stack[..|stack| - 1])
    ensures StackSize(stack) == 1 + StackSize(stack[..|stack| - 1])
  {
    hide Pending, StackWalkable, StackSize;
    var top, below := stack[|stack| - 1], stack[..|stack| - 1];
    assert stack == below + [top];
    TopFrame(below, top);
    NoEntries(|stack|);
    NoFiles(top.rel);
  }

  lemma NoEntries(depth: nat)
    ensures FilesOf([]) == [] && Walkable([], depth) && Size([]) == 0
  {
  }

  lemma StartWalk(children: seq<Node>)
    ensures Pending([Frame(children, [])]) == FilesOf(children)
    ensures StackWalkable([Frame(children, [])]) <==> Walkable(children, 1)
  {
    assert [Frame(children, [])][..0] == [];
    forall i | 0 <= i < |FilesOf(children)| ensures [] + FilesOf(children)[i] == FilesOf(children)[i] {
    }
    assert Below([], FilesOf(children)) == FilesOf(children);
  }

  lemma NoPending()
    ensures Pending([]) == [] && StackWalkable([])
  {
  }

  lemma EntryRules(entry: Node, depth: nat)
    ensures WalkableNode(entry, depth) <==>
            0 < |entry.name| < MAX_NAME &&
            (IsDots(entry.name) || entry.File? || (depth < MAX_MOVE_DEPTH && Walkable(entry.children, depth + 1)))
    ensures entry.Dir? ==> SizeOf(entry) == 2 + Size(entry.children)
  {
  }

  lemma FirstPending(files: seq<Path>, done: nat, rel: Path, rest: seq<Path>)
    requires done <= |files| && files[done..] == [rel] + rest
    ensures done < |files| && files[done] == rel && files[done + 1..] == rest
  {
    assert files[done..][0] == rel;
    assert files[done + 1..] == files[done..][1..];
  }

  lemma NoFiles(rel: Path)
    ensures Below(rel, []) == []
  {
  }

  lemma OneFile(rel: Path, name: string)
    ensures Below(rel, [[name]]) == [rel + [name]]
  {
  }

  class Card {
    var stores: Stores
    /** Whether the book lies at its new place. */
    var moved: bool
    ghost var faults: nat

    constructor (initial: Stores)
      ensures stores == initial && !moved && faults == 0
    {
      stores, moved, faults := initial, false, 0;
    }

    method Fails() returns (fails: bool)
      modifies this`faults
      ensures faults == old(faults) + if fails then 1 else 0
    {
      fails := *;
      if fails {
        faults := faults + 1;
      }
    }

    method Rename(from: Key, to: Key) returns (ok: bool)
      modifies this`stores, this`faults
      ensures if ok then CanRename(old(stores), from, to) && stores == Renamed(old(stores), from, to)
              else stores == old(stores)
      ensures old(faults) <= faults <= old(faults) + 1
      ensures !ok && CanRename(old(stores), from, to) ==> faults == old(faults) + 1
      ensures ok ==> faults == old(faults)
    {
      var fails := Fails();
      ok := !fails && CanRename(stores, from, to);
      if ok {
        stores := Renamed(stores, from, to);
      }
    }

    /** Moves or checks the five files of one book, apart from those that wrongly seem to be missing. */
    method MoveStoreFiles(oldPath: Path, newPath: Path, phase: MovePhase, blind: set<Pair>, ghost s0: Stores,
                          ghost all: set<Pair>, ghost did: set<Pair>, ghost before: set<Pair>)
      returns (ok: bool, ghost seen: set<Pair>)
      requires Separate(all) && FilePairs(oldPath, newPath, 5) <= all
      requires Reached(phase, s0, stores, all, did, before)
      modifies this`stores, this`faults
      ensures Reached(phase, s0, stores, all, did, seen)
      ensures before <= seen <= before + (FilePairs(oldPath, newPath, 5) - blind)
      ensures ok ==> seen == before + (FilePairs(oldPath, newPath, 5) - blind) && faults == old(faults)
      ensures forall p :: p in seen - before ==> !Blocks(phase, s0, p)
      ensures old(faults) <= faults <= old(faults) + 1
      ensures !ok && faults == old(faults) ==>
                exists p :: p in FilePairs(oldPath, newPath, 5) && p !in blind && Blocks(phase, s0, p)
    {
      hide LeftAs, Separate, PairAt;
      seen := before;
      for i := 0 to 5
        invariant Reached(phase, s0, stores, all, did, seen)
        invariant seen == before + (FilePairs(oldPath, newPath, i) - blind)
        invariant forall p :: p in seen - before ==> !Blocks(phase, s0, p)
        invariant FilePairs(oldPath, newPath, i) <= FilePairs(oldPath, newPath, 5)
        invariant faults == old(faults)
      {
        var oldFile, newFile := (oldPath, STORE_SUFFIXES[i]), (newPath, STORE_SUFFIXES[i]);
        ghost var p := PairAt(oldPath, newPath, i);
        assert p == (oldFile, newFile) by { ThePair(oldPath, newPath, i); }
        MorePairs(oldPath, newPath, i);
        if (oldFile, newFile) in blind {
          assert before + (FilePairs(oldPath, newPath, i + 1) - blind) == seen;
          continue;
        }
        if phase == Check {
          if newFile in stores {
            return false, seen;
          }
        } else {
          var source, target := if phase == Move then oldFile else newFile, if phase == Move then newFile else oldFile;
          if phase == Move {
            MoveOne(s0, stores, all, seen, p);
          } else {
            UndoOne(s0, stores, all, did, seen, p);
          }
          if source in stores {
            ok := Rename(source, target);
            if !ok {
              return;
            }
          }
        }
        assert seen + {p} == before + (FilePairs(oldPath, newPath, i + 1) - blind);
        seen := seen + {p};
      }
      ok := true;
    }

    static lemma ThePair(oldPath: Path, newPath: Path, i: nat)
      requires i < 5
      ensures PairAt(oldPath, newPath, i) == ((oldPath, STORE_SUFFIXES[i]), (newPath, STORE_SUFFIXES[i]))
    {
    }

    static lemma MorePairs(oldPath: Path, newPath: Path, i: nat)
      requires i < 5
      ensures FilePairs(oldPath, newPath, i + 1) == FilePairs(oldPath, newPath, i) + {PairAt(oldPath, newPath, i)}
      ensures FilePairs(oldPath, newPath, i + 1) <= FilePairs(oldPath, newPath, 5)
    {
      hide PairAt;
      forall p | p in FilePairs(oldPath, newPath, i + 1) ensures p in FilePairs(oldPath, newPath, 5) {
        InFilePairs(oldPath, newPath, i + 1, p);
        InFilePairs(oldPath, newPath, 5, p);
      }
    }

    method Open() returns (ok: bool)
      modifies this`faults
      ensures faults == old(faults) + if ok then 0 else 1
    {
      var fails := Fails();
      ok := !fails;
    }

    /**
     * Walks the folder, as it is listed to this walk, with an explicit stack of open directories and handles every
     * file in it.
     */
    method MoveTreeStores(from: Path, to: Path, listed: seq<Node>, phase: MovePhase, blind: set<Pair>, ghost s0: Stores,
                          ghost all: set<Pair>, ghost did: set<Pair>)
      returns (ok: bool, ghost seen: set<Pair>)
      requires Separate(all) && Pairs(from, to, FilesOf(listed)) <= all && Reached(phase, s0, stores, all, did, {})
      modifies this`stores, this`faults
      ensures Reached(phase, s0, stores, all, did, seen) && seen <= Pairs(from, to, FilesOf(listed)) - blind
      ensures ok ==> Walkable(listed, 1) && seen == Pairs(from, to, FilesOf(listed)) - blind && faults == old(faults)
      ensures forall p :: p in seen ==> !Blocks(phase, s0, p)
      ensures old(faults) <= faults <= old(faults) + 1
      ensures !ok && faults == old(faults) ==>
                !Walkable(listed, 1) ||
                exists p :: p in Pairs(from, to, FilesOf(listed)) && p !in blind && Blocks(phase, s0, p)
    {
      hide Separate, Walkable, FilesOf, Reached, Pending, StackWalkable, StackSize, Size, Below, Pairs,
           FilePairs, Blocks;
      ghost var files := FilesOf(listed);
      seen := {};
      NoPairs(from, to, files);
      ok := Open();
      if !ok {
        return;
      }
      var stack := [Frame(listed, [])];
      StartWalk(listed);
      ghost var done := 0;
      while stack != []
        invariant |stack| <= MAX_MOVE_DEPTH && done <= |files| && files[done..] == Pending(stack)
        invariant Walkable(listed, 1) <==> StackWalkable(stack)
        invariant Reached(phase, s0, stores, all, did, seen)
        invariant seen == Pairs(from, to, files[..done]) - blind && seen <= Pairs(from, to, files) - blind
        invariant forall p :: p in seen ==> !Blocks(phase, s0, p)
        invariant faults == old(faults)
        decreases StackSize(stack)
      {
        var top := stack[|stack| - 1];
        if top.rest == [] {
          CloseFolder(stack);
          stack := stack[..|stack| - 1];
          continue;
        }
        var entry := top.rest[0];
        TakeEntry(stack);
        EntryRules(entry, |stack|);
        if |entry.name| == 0 || |entry.name| >= MAX_NAME {
          return false, seen;
        }
        stack := stack[|stack| - 1 := Frame(top.rest[1..], top.rel)];
        if IsDots(entry.name) {
          NoFiles(top.rel);
          continue;
        }
        var rel := top.rel + [entry.name];
        if entry.Dir? {
          if |stack| == MAX_MOVE_DEPTH {
            return false, seen;
          }
          OpenFolder(stack, entry, top.rel);
          stack := stack + [Frame(entry.children, rel)];
        } else {
          OneFile(top.rel, entry.name);
          FirstPending(files, done, rel, Pending(stack));
          NextPairs(from, to, files, done);
          ok, seen := MoveStoreFiles(from + rel, to + rel, phase, blind, s0, all, did, seen);
          if !ok {
            return;
          }
          done := done + 1;
        }
      }
      ok := true;
      NoPending();
      assert files[..done] == files;
    }

    static lemma NoPairs(from: Path, to: Path, files: seq<Path>)
      ensures Pairs(from, to, files[..0]) == {}
    {
    }

    static lemma OneBook(from: Path, to: Path)
      ensures Pairs(from, to, [[]]) == FilePairs(from, to, 5)
    {
      hide FilePairs;
      var files: seq<Path> := [[]];
      assert from + [] == from && to + [] == to && files[..0] == [];
    }

    method RunPhase(from: Path, to: Path, listed: Root, phase: MovePhase, blind: set<Pair>, ghost s0: Stores,
                    ghost all: set<Pair>, ghost did: set<Pair>)
      returns (ok: bool, ghost seen: set<Pair>)
      requires Separate(all) && Pairs(from, to, RootFiles(listed)) <= all && Reached(phase, s0, stores, all, did, {})
      modifies this`stores, this`faults
      ensures Reached(phase, s0, stores, all, did, seen) && seen <= Pairs(from, to, RootFiles(listed)) - blind
      ensures ok ==> RootWalkable(listed) && seen == Pairs(from, to, RootFiles(listed)) - blind && faults == old(faults)
      ensures forall p :: p in seen ==> !Blocks(phase, s0, p)
      ensures old(faults) <= faults <= old(faults) + 1
      ensures !ok && faults == old(faults) ==>
                !RootWalkable(listed) ||
                exists p :: p in Pairs(from, to, RootFiles(listed)) && p !in blind && Blocks(phase, s0, p)
    {
      hide Reached, Separate, Walkable, FilesOf, Pairs, FilePairs, Blocks;
      match listed
      case Folder(children) =>
        ok, seen := MoveTreeStores(from, to, children, phase, blind, s0, all, did);
      case Book =>
        OneBook(from, to);
        ok, seen := MoveStoreFiles(from, to, phase, blind, s0, all, did, {});
    }

    /** Check, move and, if something fails, roll back, each walk over what it comes to see. */
    method MoveStores(from: Path, to: Path, root: Root, l: Listings)
      returns (ok: bool, ghost did: set<Pair>, ghost undone: set<Pair>)
      requires !moved && ListingsOf(root, l) && !TakenByTree(root, from, to)
      modifies this
      ensures MoveEnds(from, to, root, l, old(stores), stores, ok, did, undone, faults <= old(faults) + 1)
      ensures moved == ok && old(faults) <= faults
      ensures (faults == old(faults) && !Stuck(from, to, root, l.check, Check, old(stores)) &&
               !Stuck(from, to, root, l.move, Move, old(stores))) ==> ok
    {
      hide Separate, LeftAs, RootWalkable, RootFiles, Pairs, Blocks, ListedAs;
      did, undone := {}, {};
      ghost var s0, all := stores, Pairs(from, to, RootFiles(root));
      NothingLeft(s0, all);
      MovesSeparate(root, from, to);
      PhaseWithin(from, to, root, l.check.listed);
      PhaseWithin(from, to, root, l.move.listed);
      PhaseWithin(from, to, root, l.rollback.listed);
      ghost var checked;
      ok, checked := RunPhase(from, to, Seen(root, l.check.listed), Check, l.check.blind, s0, all, {});
      if !ok {
        return;
      }
      CheckedFree(s0, checked);
      ok, did := RunPhase(from, to, Seen(root, l.move.listed), Move, l.move.blind, s0, all, {});
      if ok {
        var fails := Fails();
        if !fails {
          moved := true;
          return;
        }
      }
      ok, undone := RunPhase(from, to, Seen(root, l.rollback.listed), Rollback, l.rollback.blind, s0, all, did);
      ok := false;
    }

    /**
     * Moves the book or folder at `from` to `to` with all clipping files. toExists says whether anything lies at
     * `to`, and l is what the three walks come to see. When that is all there is, the move is all or nothing,
     * whichever single call fails. A move that reports success has left nothing behind exactly when it came to see
     * every clipping file; one that fails, and is neither stuck nor fails twice, has changed nothing exactly when
     * the rollback came to see all that was moved, and no unchecked stray at a new place.
     */
    method MoveBook(from: Path, to: Path, root: Root, toExists: bool, l: Listings)
      returns (ok: bool, ghost did: set<Pair>, ghost undone: set<Pair>)
      requires !moved && ListingsOf(root, l)
      requires TakenByTree(root, from, to) && from != to ==> toExists
      modifies this
      ensures from == to ==> ok && stores == old(stores)
      ensures from != to && toExists ==> !ok && stores == old(stores)
      ensures moved == (ok && from != to)
      ensures LeftAs(old(stores), stores, Pairs(from, to, RootFiles(root)), did, undone)
      ensures ok && from != to ==> did == SeenPairs(from, to, root, l.move) && undone == {}
      ensures ok && from != to ==>
                (AllMoved(old(stores), stores, Pairs(from, to, RootFiles(root))) <==>
                 ListsWhatItNeeds(from, to, root, l, old(stores)))
      ensures !ok && faults <= old(faults) + 1 ==>
                did == undone == {} || Stuck(from, to, root, l.move, Move, old(stores)) ||
                Stuck(from, to, root, l.rollback, Rollback, old(stores)) ||
                (stores == old(stores) <==> ListsToUndo(from, to, root, l, old(stores), did))
      ensures Whole(root, l) && ok && from != to ==> AllMoved(old(stores), stores, Pairs(from, to, RootFiles(root)))
      ensures Whole(root, l) && ok && from != to ==> FollowTheirBooks(from, to, root, old(stores), stores)
      ensures Whole(root, l) && !ok && faults <= old(faults) + 1 ==> stores == old(stores)
      ensures (faults == old(faults) && from != to && !toExists &&
               !Stuck(from, to, root, l.check, Check, old(stores)) &&
               !Stuck(from, to, root, l.move, Move, old(stores))) ==> ok
      ensures (faults == old(faults) && from != to && !toExists && Whole(root, l) &&
               PlacesFree(to, root, old(stores)) && (root.Folder? ==> AllFit(root.children, 1))) ==> ok
    {
      hide Separate, LeftAs, RootWalkable, RootFiles, Pairs, Blocks, ListedAs, AllMoved, ListsWhatItNeeds,
           ListsToUndo, MoveEnds, Stuck, Whole, FollowTheirBooks, PlacesFree, AllFit;
      did, undone := {}, {};
      ghost var s0, all := stores, Pairs(from, to, RootFiles(root));
      NothingLeft(s0, all);
      if from == to {
        return true, did, undone;
      }
      if toExists {
        return false, did, undone;
      }
      ok := Open();
      if !ok {
        return;
      }
      if root.Folder? {
        ok := Open();
        if !ok {
          return;
        }
      }
      ghost var before := faults;
      ok, did, undone := MoveStores(from, to, root, l);
      MoveLeaves(from, to, root, l, s0, stores, ok, did, undone, faults <= before + 1);
      if ok && Whole(root, l) { MovedFollow(from, to, root, s0, stores); }
      if Whole(root, l) && PlacesFree(to, root, s0) && (root.Folder? ==> AllFit(root.children, 1)) {
        FreeIsNotStuck(from, to, root, l, s0);
      }
    }

    static lemma CheckedFree(s0: Stores, checked: set<Pair>)
      requires forall p :: p in checked ==> !Blocks(Check, s0, p)
      ensures forall p :: p in checked ==> p.1 !in s0
    {
    }

    static lemma PhaseWithin(from: Path, to: Path, root: Root, listed: seq<Node>)
      requires root.Folder? ==> ListedAs(root.children, listed)
      ensures Pairs(from, to, RootFiles(Seen(root, listed))) <= Pairs(from, to, RootFiles(root))
    {
      hide Pairs, ListedAs, FilesOf;
      forall f | f in RootFiles(Seen(root, listed)) ensures f in RootFiles(root) {
        if root.Folder? {
          ListedFiles(root.children, listed, f);
        }
      }
      PairsWithin(from, to, RootFiles(Seen(root, listed)), RootFiles(root));
    }
  }

  /** Whatever clipping files a book of the tree has had are at its new place, and none are at the old one. */
  ghost predicate FollowTheirBooks(from: Path, to: Path, root: Root, s0: Stores, s: Stores)
  {
    forall f, suffix: Suffix :: HasBook(root, f) && (from + f, suffix) in s0 ==>
      (from + f, suffix) !in s && (to + f, suffix) in s && s[(to + f, suffix)] == s0[(from + f, suffix)]
  }

  lemma MovedFollow(from: Path, to: Path, root: Root, s0: Stores, s: Stores)
    requires AllMoved(s0, s, Pairs(from, to, RootFiles(root)))
    ensures FollowTheirBooks(from, to, root, s0, s)
  {
    hide Pairs, RootFiles;
    forall f, suffix: Suffix | HasBook(root, f) && (from + f, suffix) in s0
      ensures (from + f, suffix) !in s && (to + f, suffix) in s && s[(to + f, suffix)] == s0[(from + f, suffix)]
    {
      BooksAreFound(root, f);
      var i := match suffix case Main => 0 case Bak => 1 case Tmp => 2 case Deleted => 3 case MigrateBak => 4;
      var p := ((from + f, suffix), (to + f, suffix));
      assert p == PairAt(from + f, to + f, i);
      InFilePairs(from + f, to + f, 5, p);
      InPairs(from, to, RootFiles(root), p);
    }
  }

  /** No clipping file lies where one of a book could be moved to. */
  ghost predicate PlacesFree(to: Path, root: Root, s0: Stores)
  {
    forall f, suffix: Suffix :: HasBook(root, f) ==> (to + f, suffix) !in s0
  }

  /** Nothing is in the way of a move to free places from a tree that can be walked. */
  lemma FreeIsNotStuck(from: Path, to: Path, root: Root, l: Listings, s0: Stores)
    requires Whole(root, l) && PlacesFree(to, root, s0) && (root.Folder? ==> AllFit(root.children, 1))
    ensures !Stuck(from, to, root, l.check, Check, s0) && !Stuck(from, to, root, l.move, Move, s0)
  {
    hide Pairs, RootFiles, AllFit, Walkable;
    if root.Folder? { WalkableExactly(root.children, 1); }
    var files := RootFiles(root);
    forall p | p in Pairs(from, to, files) ensures p.1 !in s0 {
      InPairs(from, to, files, p);
      var k :| 0 <= k < |files| && p in FilePairs(from + files[k], to + files[k], 5);
      InFilePairs(from + files[k], to + files[k], 5, p);
      BooksAreFound(root, files[k]);
    }
  }

  /** The three walks come to see all. */
  predicate Whole(root: Root, l: Listings)
  {
    l.check.blind == l.move.blind == l.rollback.blind == {} &&
    (root.Folder? ==> l.check.listed == l.move.listed == l.rollback.listed == root.children)
  }

  /** The move came to see every clipping file at its old place. */
  ghost predicate ListsWhatItNeeds(from: Path, to: Path, root: Root, l: Listings, s0: Stores)
  {
    forall p :: p in Pairs(from, to, RootFiles(root)) && p.0 in s0 ==> p in SeenPairs(from, to, root, l.move)
  }

  /** The rollback came to see every file moved, and none that was at its new place only. */
  ghost predicate ListsToUndo(from: Path, to: Path, root: Root, l: Listings, s0: Stores, did: set<Pair>)
  {
    var undone := SeenPairs(from, to, root, l.rollback);
    (forall p :: p in did && p.0 in s0 && p.1 !in s0 ==> p in undone) &&
    (forall p :: p in undone && p.0 !in s0 ==> p.1 !in s0)
  }

  /** How the three walks end: what they came to, and what they left. */
  ghost predicate MoveEnds(from: Path, to: Path, root: Root, l: Listings, s0: Stores, s: Stores, ok: bool,
                           did: set<Pair>, undone: set<Pair>, oneFault: bool)
  {
    var all, checked := Pairs(from, to, RootFiles(root)), SeenPairs(from, to, root, l.check);
    var listed, undo := SeenPairs(from, to, root, l.move), SeenPairs(from, to, root, l.rollback);
    LeftAs(s0, s, all, did, undone) && did <= listed <= all && undone <= undo <= all &&
    (ok || did != {} || undone != {} ==>
      RootWalkable(Seen(root, l.check.listed)) && forall p :: p in checked ==> p.1 !in s0) &&
    (ok ==> did == listed && undone == {} && forall p :: p in did ==> !Blocks(Move, s0, p)) &&
    (!ok && oneFault && (did != {} || undone != {}) ==>
      undone == undo || Stuck(from, to, root, l.move, Move, s0) || Stuck(from, to, root, l.rollback, Rollback, s0))
  }

  lemma MoveLeaves(from: Path, to: Path, root: Root, l: Listings, s0: Stores, s: Stores, ok: bool, did: set<Pair>,
                   undone: set<Pair>, oneFault: bool)
    requires MoveEnds(from, to, root, l, s0, s, ok, did, undone, oneFault)
    ensures LeftAs(s0, s, Pairs(from, to, RootFiles(root)), did, undone)
    ensures ok ==> did == SeenPairs(from, to, root, l.move) && undone == {}
    ensures ok ==> (AllMoved(s0, s, Pairs(from, to, RootFiles(root))) <==> ListsWhatItNeeds(from, to, root, l, s0))
    ensures !ok && oneFault ==>
              did == undone == {} || Stuck(from, to, root, l.move, Move, s0) ||
              Stuck(from, to, root, l.rollback, Rollback, s0) ||
              (s == s0 <==> ListsToUndo(from, to, root, l, s0, did))
    ensures Whole(root, l) && ok ==> AllMoved(s0, s, Pairs(from, to, RootFiles(root)))
    ensures Whole(root, l) && !ok && oneFault ==> s == s0
  {
    hide LeftAs, AllMoved, Pairs, RootFiles, RootWalkable;
    var all := Pairs(from, to, RootFiles(root));
    if ok {
      ShortListing(s0, s, all, did);
    } else {
      ShortRollback(s0, s, all, did, undone);
    }
  }

  /** A walk over what it comes to see cannot get through, even if nothing fails. */
  ghost predicate Stuck(from: Path, to: Path, root: Root, sight: Sight, phase: MovePhase, s0: Stores)
  {
    !RootWalkable(Seen(root, sight.listed)) ||
    exists p :: p in SeenPairs(from, to, root, sight) && Blocks(phase, s0, p)
  }

  // ---- A clipping file left behind ----

  const SAMPLE: Root := Folder([File("x.epub")])

  /** The folder lists its book to the check, and to the move and the rollback nothing. */
  const SHORT: Listings := Listings(Sight(SAMPLE.children, {}), Sight([], {}), Sight([], {}))

  lemma SampleListed(s0: Stores)
    requires s0 == map[(["a", "x.epub"], Main) := [1]]
    ensures ListingsOf(SAMPLE, SHORT) && !TakenByTree(SAMPLE, ["a"], ["b"])
    ensures !Stuck(["a"], ["b"], SAMPLE, SHORT.check, Check, s0) && !Stuck(["a"], ["b"], SAMPLE, SHORT.move, Move, s0)
    ensures SeenPairs(["a"], ["b"], SAMPLE, SHORT.move) == {}
    ensures ((["a", "x.epub"], Main), (["b", "x.epub"], Main)) in Pairs(["a"], ["b"], RootFiles(SAMPLE))
  {
    hide Pairs;
    ListedWhole(SAMPLE.children);
    var files := FilesOf(SAMPLE.children);
    assert files == [["x.epub"]];
    assert ["a"] + ["x.epub"] == ["a", "x.epub"] && ["b"] + ["x.epub"] == ["b", "x.epub"];
    assert Walkable(SAMPLE.children, 1);
    forall p | p in Pairs(["a"], ["b"], files) ensures p.1 !in s0 {
      InPairs(["a"], ["b"], files, p);
      InFilePairs(["a", "x.epub"], ["b", "x.epub"], 5, p);
    }
    var p := PairAt(["a", "x.epub"], ["b", "x.epub"], 0);
    InFilePairs(["a", "x.epub"], ["b", "x.epub"], 5, p);
    InPairs(["a"], ["b"], files, p);
    assert ["a"] + files[0] == ["a", "x.epub"] && ["b"] + files[0] == ["b", "x.epub"];
    assert ["a"][0] == "a" && ["b"][0] == "b" && "a"[0] == 'a' && "b"[0] == 'b';
    Card.NoPairs(["a"], ["b"], []);
  }

  /**
   * One book in a folder, and a listing that fails at its first entry during the move: unless another call fails,
   * the move is reported as done, and the clippings are no longer where their book is.
   */
  method LeftBehind() returns (card: Card, ok: bool)
    ensures card.faults == 0 ==>
              ok && card.moved && card.stores == map[(["a", "x.epub"], Main) := [1]] &&
              !AllMoved(card.stores, card.stores, Pairs(["a"], ["b"], RootFiles(SAMPLE)))
  {
    hide LeftAs, AllMoved, ListsToUndo, ListsWhatItNeeds, Pairs, Stuck, TakenByTree, ListingsOf;
    card := new Card(map[(["a", "x.epub"], Main) := [1]]);
    ghost var s0 := card.stores;
    SampleListed(s0);
    ghost var did, undone;
    ok, did, undone := card.MoveBook(["a"], ["b"], SAMPLE, false, SHORT);
    ShortRollback(s0, card.stores, Pairs(["a"], ["b"], RootFiles(SAMPLE)), did, undone);
    if card.faults == 0 {
      ShortListing(s0, s0, Pairs(["a"], ["b"], RootFiles(SAMPLE)), {});
    }
  }
}
