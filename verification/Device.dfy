/**
 * The card and the heap: named files and memory blocks, every request for which may fail, and power that
 * may be cut during any card call.
 *
 * A power cut is recorded by `dead`: the call it hits takes effect wholly (rename, remove, truncate) or
 * for any prefix of the bytes that were not yet safe (append, flush, close), and every later call fails and
 * changes nothing. The files a method leaves behind therefore range over every state a cut inside it could
 * leave. Memory is gone after a cut, so callers promise something about it only while `dead` is false.
 *
 * What is appended is safe only once a flush or close succeeded; a file closed in vain keeps some prefix.
 * How flushes and closes fare, and which of the listed existence checks wrongly answer no, is decided beforehand
 * by two lists, so that a run can be named in which one of them fails. All other failures and cuts are arbitrary
 * and counted by `faults`; a method may promise success for a run in which that number did not grow.
 *
 * `slips` counts how often the code went on after a failed call that it does not notice, and lost something by it.
 * No call of the card changes it.
 */
module Device {
  import opened Bytes

  /** The files of one book's clippings; books have distinct store names. */
  datatype Suffix = Main | Bak | Tmp | Deleted | MigrateBak
  datatype Name = Name(book: seq<byte>, suffix: Suffix)

  type Files = map<Name, seq<byte>>

  /** Rename is atomic and refuses an existing target. */
  predicate CanRename<N(==), B>(fs: map<N, B>, from: N, to: N) { from in fs && to !in fs }

  function Renamed<N, B>(fs: map<N, B>, from: N, to: N): map<N, B>
    requires from in fs
  {
    fs[to := fs[from]] - {from}
  }

  /** Two card states agree except, possibly, on the named files. */
  ghost predicate SameExcept(before: Files, after: Files, names: set<Name>)
  {
    forall n: Name :: n !in names ==> (n in before <==> n in after) && (n in before ==> before[n] == after[n])
  }

  /** How a flush or close fares: a failing close keeps that many of the bytes that were not safe. */
  datatype SyncFate = Kept | Lost(keeps: nat)

  /** A file open for writing, and how many of its bytes are safe. */
  datatype Handle = Handle(name: Name, safe: nat)

  /** Whether the i-th flush or close from now on succeeds. */
  predicate SyncKept(syncs: seq<SyncFate>, i: nat) { i < |syncs| ==> syncs[i].Kept? }

  /** Of two flushes or closes in a row one always succeeds. */
  predicate NoneLost(syncs: seq<SyncFate>)
  {
    forall i :: 0 <= i < |syncs| - 1 ==> syncs[i].Kept? || syncs[i + 1].Kept?
  }

  /** Whether the i-th listed existence check from now on works. */
  predicate Works(checks: seq<bool>, i: nat) { i < |checks| ==> checks[i] }

  /** What is left behind the safe bytes when a file is flushed, closed and both go as the list says. */
  function Survivor(bytes: seq<byte>, safe: nat, syncs: seq<SyncFate>): (left: seq<byte>)
    requires safe <= |bytes|
    ensures left <= bytes && |left| >= safe && (SyncKept(syncs, 0) || SyncKept(syncs, 1) ==> left == bytes)
  {
    if SyncKept(syncs, 0) || SyncKept(syncs, 1) || safe + syncs[1].keeps >= |bytes| then bytes
    else bytes[..safe + syncs[1].keeps]
  }

  lemma SurvivorSize(bytes: seq<byte>, safe: nat, syncs: seq<SyncFate>)
    requires safe <= |bytes|
    ensures |Survivor(bytes, safe, syncs)| ==
            if SyncKept(syncs, 0) || SyncKept(syncs, 1) || safe + syncs[1].keeps >= |bytes| then |bytes|
            else safe + syncs[1].keeps
  {
  }

  /** The list behind its first n entries. */
  function Behind<T>(s: seq<T>, n: nat): (r: seq<T>)
  {
    if n <= |s| then s[n..] else []
  }

  function Rest<T>(s: seq<T>): (r: seq<T>) { Behind(s, 1) }

  lemma WorksBehind(checks: seq<bool>, n: nat)
    ensures Works(Behind(checks, n), 0) == Works(checks, n) && Rest(Behind(checks, n)) == Behind(checks, n + 1)
  {
  }

  class Storage {
    var files: Files
    var dead: bool
    var syncs: seq<SyncFate>
    var checks: seq<bool>
    ghost var faults: nat
    ghost var slips: nat

    constructor (initial: Files, syncs: seq<SyncFate>, checks: seq<bool>)
      ensures files == initial && !dead && this.syncs == syncs && this.checks == checks && faults == slips == 0
    {
      files, dead, faults, slips := initial, false, 0, 0;
      this.syncs, this.checks := syncs, checks;
    }

    /** From now on every listed existence check works. */
    predicate Sighted()
      reads this
    {
      forall i :: 0 <= i < |checks| ==> checks[i]
    }

    /** From now on no flush or close fails next to another that fails. */
    predicate Lossless()
      reads this
    {
      NoneLost(syncs)
    }

    /** The outcome of one request: it may fail, and a card request may also be hit by a power cut. */
    method Fate(card: bool) returns (ok: bool, cut: bool)
      modifies this`faults
      ensures ok ==> !dead && !cut
      ensures cut ==> card
      ensures old(faults) <= faults
      ensures faults == old(faults) ==> !cut && (ok <==> !dead)
    {
      var fails: bool := *;
      cut := *;
      cut := cut && card;
      ok := !dead && !fails && !cut;
      if fails || cut {
        faults := faults + 1;
      }
    }

    /** A memory block from the heap, or none. */
    method Allocate() returns (ok: bool)
      modifies this`faults
      ensures old(faults) <= faults
      ensures faults == old(faults) && !dead ==> ok
    {
      var cut;
      ok, cut := Fate(false);
    }

    /** Whether a file is there. A check that fails answers no; listed are those whose failures the list decides. */
    method Exists(name: Name, listed: bool) returns (found: bool)
      modifies this`checks, this`faults
      ensures found ==> name in files
      ensures listed ==> found == (name in files && Works(old(checks), 0)) && checks == Rest(old(checks)) &&
                         faults == old(faults)
      ensures !listed ==> checks == old(checks) && old(faults) <= faults &&
                          (faults == old(faults) ==> found == (name in files))
      ensures old(Sighted()) ==> Sighted()
    {
      found := name in files;
      var fails: bool := *;
      if listed {
        found := found && Works(checks, 0);
        checks := Rest(checks);
      } else if fails {
        found := false;
        faults := faults + 1;
      }
    }

    method Rename(from: Name, to: Name) returns (ok: bool)
      modifies this`files, this`dead, this`faults
      ensures old(dead) ==> dead && files == old(files)
      ensures ok ==> !dead && CanRename(old(files), from, to) && files == Renamed(old(files), from, to)
      ensures !ok ==> files == old(files) ||
                      (dead && CanRename(old(files), from, to) && files == Renamed(old(files), from, to))
      ensures old(faults) <= faults && (dead ==> old(dead) || old(faults) < faults)
      ensures faults == old(faults) && !dead ==> (ok <==> CanRename(old(files), from, to))
    {
      var fine, cut := Fate(true);
      ok := fine && from in files && to !in files;
      if !dead && from in files && to !in files && (fine || cut) {
        var happens: bool := *;
        if fine || happens {
          files := Renamed(files, from, to);
        }
      }
      dead := dead || cut;
    }

    method Remove(name: Name) returns (ok: bool)
      modifies this`files, this`dead, this`faults
      ensures old(dead) ==> dead && files == old(files)
      ensures ok ==> !dead && files == old(files) - {name}
      ensures files == old(files) || files == old(files) - {name}
      ensures old(faults) <= faults && (dead ==> old(dead) || old(faults) < faults)
      ensures faults == old(faults) && !dead ==> (ok <==> name in old(files))
    {
      var fine, cut := Fate(true);
      ok := fine && name in files;
      var happens: bool := *;
      if !dead && (ok || (cut && happens)) {
        files := files - {name};
      }
      dead := dead || cut;
    }

    /** Opens a file for reading; the handle is the name. */
    method OpenForRead(name: Name) returns (ok: bool)
      modifies this`faults
      ensures ok ==> name in files && !dead
      ensures old(faults) <= faults
      ensures faults == old(faults) && !dead ==> (ok <==> name in files)
    {
      var cut;
      ok, cut := Fate(false);
      ok := ok && name in files;
    }

    /** Creates the file or empties it. */
    method OpenTruncated(name: Name) returns (ok: bool, h: Handle)
      modifies this`files, this`dead, this`faults
      ensures old(dead) ==> dead && files == old(files)
      ensures ok ==> !dead && files == old(files)[name := []]
      ensures h == Handle(name, 0)
      ensures files == old(files) || files == old(files)[name := []]
      ensures old(faults) <= faults && (dead ==> old(dead) || old(faults) < faults)
      ensures faults == old(faults) && !dead ==> ok
    {
      var cut;
      ok, cut := Fate(true);
      h := Handle(name, 0);
      var emptied: bool := *;
      if ok || (!dead && emptied) {
        files := files[name := []];
      }
      dead := dead || cut;
    }

    /** Opens a file for appending; a missing one is created. */
    method OpenForAppend(name: Name) returns (ok: bool, h: Handle)
      modifies this`files, this`dead, this`faults
      ensures old(dead) ==> dead && files == old(files)
      ensures ok ==> !dead && name in files && h == Handle(name, |files[name]|)
      ensures files == old(files) || (name !in old(files) && files == old(files)[name := []])
      ensures old(faults) <= faults && (dead ==> old(dead) || old(faults) < faults)
      ensures faults == old(faults) && !dead ==> ok
    {
      var cut;
      ok, cut := Fate(true);
      var created: bool := *;
      if name !in files && (ok || (!dead && created)) {
        files := files[name := []];
      }
      h := Handle(name, if name in files then |files[name]| else 0);
      dead := dead || cut;
    }

    /** Some prefix of the bytes, with at least those that are safe. */
    method Torn(bytes: seq<byte>, safe: nat) returns (left: seq<byte>)
      requires safe <= |bytes|
      ensures left <= bytes && |left| >= safe
    {
      var n: int := *;
      left := if safe <= n <= |bytes| then bytes[..n] else bytes;
    }

    /** Appends all of data, or some prefix of it when the call fails; a cut may take back all that is not safe. */
    method Append(h: Handle, data: seq<byte>) returns (ok: bool)
      requires h.name in files && h.safe <= |files[h.name]|
      modifies this`files, this`dead, this`faults
      ensures old(dead) ==> dead && files == old(files)
      ensures h.name in files && files == old(files)[h.name := files[h.name]]
      ensures ok ==> !dead && files[h.name] == old(files)[h.name] + data
      ensures !dead ==> old(files)[h.name] <= files[h.name]
      ensures files[h.name] <= old(files)[h.name] + data && h.safe <= |files[h.name]|
      ensures old(faults) <= faults && (dead ==> old(dead) || old(faults) < faults)
      ensures faults == old(faults) && !dead ==> ok
    {
      var cut;
      ok, cut := Fate(true);
      if !dead && ok {
        files := files[h.name := files[h.name] + data];
      } else if !dead {
        var left := Torn(files[h.name] + data, if cut then h.safe else |files[h.name]|);
        files := files[h.name := left];
      }
      dead := dead || cut;
    }

    /** Cuts a file down to its first size bytes, and makes that safe. */
    method Truncate(h: Handle, size: nat) returns (ok: bool)
      requires h.name in files && size <= |files[h.name]| && h.safe <= |files[h.name]|
      modifies this`files, this`dead, this`faults
      ensures old(dead) ==> dead && files == old(files)
      ensures h.name in files && files == old(files)[h.name := files[h.name]]
      ensures ok ==> !dead && files[h.name] == old(files)[h.name][..size]
      ensures h.safe == |old(files)[h.name]| || !dead ==>
                files == old(files) || files[h.name] == old(files)[h.name][..size]
      ensures files[h.name] <= old(files)[h.name] && (size <= |files[h.name]| || h.safe <= |files[h.name]|)
      ensures old(faults) <= faults && (dead ==> old(dead) || old(faults) < faults)
      ensures faults == old(faults) && !dead ==> ok
    {
      var cut;
      ok, cut := Fate(true);
      var happens: bool := *;
      if ok || (!dead && cut && happens) {
        files := files[h.name := files[h.name][..size]];
      } else if !dead && cut && h.safe < |files[h.name]| {
        var left := Torn(files[h.name], h.safe);
        files := files[h.name := left];
      }
      dead := dead || cut;
    }

    /** Makes what was appended safe; a flush that fails says nothing. */
    method Flush(h: Handle) returns (next: Handle)
      requires h.name in files && h.safe <= |files[h.name]|
      modifies this`files, this`dead, this`faults, this`syncs
      ensures old(dead) ==> dead && files == old(files)
      ensures h.name in files && files == old(files)[h.name := files[h.name]]
      ensures !dead ==> files == old(files) &&
                        next == if SyncKept(old(syncs), 0) then Handle(h.name, |files[h.name]|) else h
      ensures files[h.name] <= old(files)[h.name] && h.safe <= next.safe <= |files[h.name]| && next.name == h.name
      ensures syncs == Rest(old(syncs)) && (old(Lossless()) ==> Lossless())
      ensures old(faults) <= faults && (dead ==> old(dead) || old(faults) < faults)
    {
      var kept := SyncKept(syncs, 0);
      syncs := Rest(syncs);
      var ok, cut := Fate(true);
      next := h;
      if !dead && cut {
        var left := Torn(files[h.name], h.safe);
        files := files[h.name := left];
      } else if kept {
        next := Handle(h.name, |files[h.name]|);
      }
      dead := dead || cut;
    }

    /** Makes what was appended safe and ends the writing; a close that fails keeps the safe bytes and some more. */
    method Close(h: Handle) returns (ok: bool)
      requires h.name in files && h.safe <= |files[h.name]|
      modifies this`files, this`dead, this`faults, this`syncs
      ensures old(dead) ==> dead && files == old(files)
      ensures h.name in files && files == old(files)[h.name := files[h.name]]
      ensures !dead ==> ok == SyncKept(old(syncs), 0)
      ensures !dead ==>
                files[h.name] == if ok || h.safe + old(syncs)[0].keeps >= |old(files)[h.name]| then old(files)[h.name]
                                 else old(files)[h.name][..h.safe + old(syncs)[0].keeps]
      ensures files[h.name] <= old(files)[h.name] && h.safe <= |files[h.name]|
      ensures syncs == Rest(old(syncs)) && (old(Lossless()) ==> Lossless())
      ensures old(faults) <= faults && (dead ==> old(dead) || old(faults) < faults)
    {
      var fate := if syncs == [] then Kept else syncs[0];
      syncs := Rest(syncs);
      var fine, cut := Fate(true);
      ok := !dead && !cut && fate.Kept?;
      if !dead && cut {
        var left := Torn(files[h.name], h.safe);
        files := files[h.name := left];
      } else if !dead && fate.Lost? && h.safe + fate.keeps < |files[h.name]| {
        files := files[h.name := files[h.name][..h.safe + fate.keeps]];
      }
      dead := dead || cut;
    }

    /** Reads exactly n bytes at pos, or fails. */
    method Read(name: Name, pos: nat, n: nat) returns (ok: bool, data: seq<byte>)
      requires name in files
      modifies this`faults
      ensures ok ==> !dead && pos + n <= |files[name]| && data == files[name][pos..pos + n]
      ensures old(faults) <= faults
      ensures faults == old(faults) && !dead ==> (ok <==> pos + n <= |files[name]|)
    {
      var cut;
      ok, cut := Fate(false);
      ok := ok && pos + n <= |files[name]|;
      data := if ok then files[name][pos..pos + n] else [];
    }

    /** Moves a read position; fails past the end of the file. */
    method Seek(name: Name, pos: nat) returns (ok: bool)
      requires name in files
      modifies this`faults
      ensures ok ==> !dead && pos <= |files[name]|
      ensures old(faults) <= faults
      ensures faults == old(faults) && !dead ==> (ok <==> pos <= |files[name]|)
    {
      var cut;
      ok, cut := Fate(false);
      ok := ok && pos <= |files[name]|;
    }

    /** Power comes back: the files are as the cut left them. */
    method Reboot()
      modifies this`dead
      ensures !dead
    {
      dead := false;
    }
  }
}
