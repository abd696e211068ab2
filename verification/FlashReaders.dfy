/**
 * Readers of the copy in flash against the two writers of its slot, as one machine whose steps are the
 * single atomic accesses of the code, interleaved in any order.
 */
module FlashReaders {
  import opened Bytes
  import opened Options

  /** A reader counted in readsInFlight, by how far it is; `seen` is the slot as its flash read began. */
  datatype Reader =
    | Registered(offset: nat, length: nat)
    | PassedUpdated(offset: nat, length: nat)
    | Reading(offset: nat, length: nat, got: seq<byte>, seen: seq<byte>)
    | Succeeded(offset: nat, length: nat, got: seq<byte>, seen: seq<byte>)
    | Failed

  datatype Preloader = Resting | Checked | Waiting | Writing

  datatype Updater = Draining | Owning

  /** A header check under way: the bytes it has read, and the slot as it began. */
  datatype HeaderRead = HeaderRead(got: seq<byte>, seen: seq<byte>)

  /** `settled` lists what the slot held whenever no writer was at work on it. */
  datatype State = State(
    updated: bool, written: bool, inFlight: nat, readers: map<nat, Reader>, preloader: Preloader,
    updaters: map<nat, Updater>, headers: map<nat, HeaderRead>, slot: seq<byte>, settled: seq<seq<byte>>)

  datatype Step =
    | Register(r: nat, offset: nat, length: nat)
    | LoadUpdated(r: nat)
    | LoadWritten(r: nat)
    | ReadByte(r: nat)
    | EndRead(r: nat)
    | FlashFails(r: nat)
    | Unregister(r: nat)
    | PreloadChecks
    | PreloadGivesUp
    | PreloadTakes
    | PreloadSeesZero
    | PreloadWrites(bytes: seq<byte>)
    | PreloadReleases
    | UpdateTakes(u: nat)
    | UpdateSeesZero(u: nat)
    | UpdateWrites(u: nat, bytes: seq<byte>)
    | ValidateBegins(c: nat)
    | ValidateReads(c: nat)
    | ValidateEnds(c: nat)

  function Init(slot: seq<byte>): State
  {
    State(false, false, 0, map[], Resting, map[], map[], slot, [slot])
  }

  predicate Enabled(s: State, step: Step)
  {
    match step
    case Register(r, offset, length) => r !in s.readers && length > 0 && offset + length <= |s.slot|
    case LoadUpdated(r) => r in s.readers && s.readers[r].Registered?
    case LoadWritten(r) => r in s.readers && s.readers[r].PassedUpdated?
    case ReadByte(r) =>
      r in s.readers && s.readers[r].Reading? && |s.readers[r].got| < s.readers[r].length &&
      s.readers[r].offset + |s.readers[r].got| < |s.slot|
    case EndRead(r) => r in s.readers && s.readers[r].Reading? && |s.readers[r].got| == s.readers[r].length
    case FlashFails(r) => r in s.readers && s.readers[r].Reading?
    case Unregister(r) => r in s.readers && (s.readers[r].Succeeded? || s.readers[r].Failed?) && s.inFlight > 0
    case PreloadChecks => s.preloader.Resting? && !s.updated
    case PreloadGivesUp => s.preloader.Checked?
    case PreloadTakes => s.preloader.Checked?
    case PreloadSeesZero => s.preloader.Waiting? && s.inFlight == 0
    case PreloadWrites(bytes) => s.preloader.Writing? && |bytes| == |s.slot|
    case PreloadReleases => s.preloader.Writing?
    case UpdateTakes(u) => u !in s.updaters
    case UpdateSeesZero(u) => u in s.updaters && s.updaters[u].Draining? && s.inFlight == 0
    case UpdateWrites(u, bytes) => u in s.updaters && s.updaters[u].Owning? && |bytes| == |s.slot|
    case ValidateBegins(c) => !s.updated && c !in s.headers
    case ValidateReads(c) => c in s.headers && |s.headers[c].got| < |s.slot|
    case ValidateEnds(c) => c in s.headers
  }

  function Apply(s: State, step: Step): State
    requires Enabled(s, step)
  {
    match step
    case Register(r, offset, length) => s.(inFlight := s.inFlight + 1,
                                           readers := s.readers[r := Registered(offset, length)])
    case LoadUpdated(r) =>
      var reader := s.readers[r];
      s.(readers := s.readers[r := if s.updated then Failed else PassedUpdated(reader.offset, reader.length)])
    case LoadWritten(r) =>
      var reader := s.readers[r];
      s.(readers := s.readers[r := if s.written then Failed else Reading(reader.offset, reader.length, [], s.slot)])
    case ReadByte(r) =>
      var reader := s.readers[r];
      var got := reader.got + [s.slot[reader.offset + |reader.got|]];
      s.(readers := s.readers[r := Reading(reader.offset, reader.length, got, reader.seen)])
    case EndRead(r) =>
      var reader := s.readers[r];
      s.(readers := s.readers[r := Succeeded(reader.offset, reader.length, reader.got, reader.seen)])
    case FlashFails(r) => s.(readers := s.readers[r := Failed])
    case Unregister(r) => s.(inFlight := s.inFlight - 1, readers := s.readers - {r})
    case PreloadChecks => s.(preloader := Checked)
    case PreloadGivesUp => s.(preloader := Resting)
    case PreloadTakes => s.(preloader := Waiting, written := true)
    case PreloadSeesZero => s.(preloader := Writing)
    case PreloadWrites(bytes) => s.(slot := bytes)
    case PreloadReleases => s.(preloader := Resting, written := false, settled := s.settled + [s.slot])
    case UpdateTakes(u) => s.(updated := true, updaters := s.updaters[u := Draining])
    case UpdateSeesZero(u) => s.(updaters := s.updaters[u := Owning])
    case UpdateWrites(u, bytes) => s.(slot := bytes)
    case ValidateBegins(c) => s.(headers := s.headers[c := HeaderRead([], s.slot)])
    case ValidateReads(c) =>
      var got := s.headers[c].got;
      s.(headers := s.headers[c := HeaderRead(got + [s.slot[|got|]], s.headers[c].seen)])
    case ValidateEnds(c) => s.(headers := s.headers - {c})
  }

  /** The state after the steps, when each was enabled in its turn. */
  function After(s: State, steps: seq<Step>): Option<State>
  {
    if steps == [] then Some(s)
    else
      var before := After(s, steps[..|steps| - 1]);
      var step := steps[|steps| - 1];
      if before.Some? && Enabled(before.value, step) then Some(Apply(before.value, step)) else None
  }

  predicate Owned(s: State) { exists u :: u in s.updaters && s.updaters[u].Owning? }

  /** Some reader is inside its flash read. */
  predicate SomeoneReads(s: State) { exists r :: r in s.readers && s.readers[r].Reading? }

  /** What a reader that is in the flash, or left it with success, has in hand: a slice of one settled slot. */
  predicate ReaderSound(s: State, reader: Reader)
  {
    match reader
    case Reading(offset, length, got, seen) =>
      seen == s.slot && seen in s.settled && offset + length <= |seen| && |got| <= length &&
      got == seen[offset..offset + |got|]
    case Succeeded(offset, length, got, seen) =>
      seen in s.settled && offset + length <= |seen| && got == seen[offset..offset + length]
    case Registered(offset, length) => offset + length <= |s.slot|
    case PassedUpdated(offset, length) => offset + length <= |s.slot|
    case Failed => true
  }

  predicate Inv(s: State)
  {
    s.inFlight == |s.readers| && |s.settled| > 0 &&
    s.written == (s.preloader.Waiting? || s.preloader.Writing?) &&
    (s.updaters != map[] ==> s.updated) &&
    (s.preloader.Writing? ==> !SomeoneReads(s)) &&
    (Owned(s) ==> forall r :: r in s.readers ==> !s.readers[r].Reading? && !s.readers[r].PassedUpdated?) &&
    (!s.preloader.Writing? && !Owned(s) ==> s.slot == s.settled[|s.settled| - 1]) &&
    forall r :: r in s.readers ==> ReaderSound(s, s.readers[r])
  }

  lemma OneReaderChanges(s: State, t: State, r: nat)
    requires Inv(s) && r in s.readers && r in t.readers && t == s.(readers := s.readers[r := t.readers[r]])
    requires ReaderSound(t, t.readers[r])
    requires t.readers[r].Reading? ==> !s.preloader.Writing?
    requires t.readers[r].Reading? || t.readers[r].PassedUpdated? ==> !Owned(s)
    ensures Inv(t)
  {
    assert |t.readers| == |s.readers| by { assert t.readers.Keys == s.readers.Keys; }
    forall o | o in t.readers
      ensures ReaderSound(t, t.readers[o]) && (t.readers[o].Reading? ==> !s.preloader.Writing?) {
      if o != r {
        assert t.readers[o] == s.readers[o];
        assert ReaderSound(s, s.readers[o]);
      }
    }
    assert Owned(t) == Owned(s);
  }

  predicate IsReaderStep(step: Step)
  {
    step.LoadUpdated? || step.LoadWritten? || step.ReadByte? || step.EndRead? || step.FlashFails?
  }

  lemma ReaderStepKeepsInv(s: State, step: Step)
    requires Inv(s) && Enabled(s, step) && IsReaderStep(step)
    ensures Inv(Apply(s, step))
  {
    hide Owned;
    var reader := s.readers[step.r];
    assert ReaderSound(s, reader);
    if step.LoadWritten? && !s.written {
      NotOwnedHere(s, step.r);
    }
    MovedReaderSound(s, step);
    OneReaderMoves(s, step, Apply(s, step));
  }

  lemma NotOwnedHere(s: State, r: nat)
    requires Inv(s) && r in s.readers && s.readers[r].PassedUpdated? && !s.written
    ensures s.slot in s.settled
  {
    hide ReaderSound;
    assert s.slot == s.settled[|s.settled| - 1];
  }

  lemma MovedReaderSound(s: State, step: Step)
    requires Enabled(s, step) && IsReaderStep(step) && ReaderSound(s, s.readers[step.r])
    requires step.LoadWritten? && !s.written ==> s.slot in s.settled
    ensures var t := Apply(s, step); ReaderSound(t, t.readers[step.r])
  {
    var reader := s.readers[step.r];
    if step.ReadByte? {
      GotGrows(s.slot, reader.offset, |reader.got|);
    }
  }

  lemma GotGrows(slot: seq<byte>, offset: nat, n: nat)
    requires offset + n < |slot|
    ensures slot[offset..offset + n] + [slot[offset + n]] == slot[offset..offset + n + 1]
  {
  }

  lemma OneReaderMoves(s: State, step: Step, t: State)
    requires Inv(s) && Enabled(s, step) && IsReaderStep(step) && t == Apply(s, step)
    requires ReaderSound(t, t.readers[step.r])
    ensures Inv(t)
  {
    hide ReaderSound;
    if Owned(s) {
      var u :| u in s.updaters && s.updaters[u].Owning?;
      assert s.updaters != map[];
    }
    if s.readers[step.r].Reading? {
      assert SomeoneReads(s);
    }
    OneReaderChanges(s, t, step.r);
  }

  lemma RegisterKeepsInv(s: State, step: Step)
    requires Inv(s) && Enabled(s, step) && step.Register?
    ensures Inv(Apply(s, step))
  {
    hide ReaderSound, Owned, SomeoneReads;
    var t := Apply(s, step);
    assert t.readers.Keys == s.readers.Keys + {step.r};
    assert |t.readers| == |t.readers.Keys| && |s.readers| == |s.readers.Keys|;
    OthersStay(s, t);
  }

  lemma UnregisterKeepsInv(s: State, step: Step)
    requires Inv(s) && Enabled(s, step) && step.Unregister?
    ensures Inv(Apply(s, step))
  {
    hide ReaderSound, Owned, SomeoneReads;
    var t := Apply(s, step);
    assert t.readers.Keys == s.readers.Keys - {step.r};
    assert |t.readers| == |t.readers.Keys| && |s.readers| == |s.readers.Keys|;
    OthersStay(s, t);
  }

  /** Readers that were there keep what they have; any that is new has only registered. */
  lemma OthersStay(s: State, t: State)
    requires Inv(s) && t == s.(readers := t.readers, inFlight := t.inFlight)
    requires forall o :: o in t.readers ==>
               (o in s.readers && t.readers[o] == s.readers[o]) ||
               (t.readers[o].Registered? && t.readers[o].offset + t.readers[o].length <= |s.slot|)
    ensures t.inFlight == |t.readers| ==> Inv(t)
  {
    assert Owned(t) == Owned(s);
    forall o | o in t.readers ensures ReaderSound(t, t.readers[o]) && (t.readers[o].Reading? ==> SomeoneReads(s)) {
      if o in s.readers && t.readers[o] == s.readers[o] {
        assert ReaderSound(s, s.readers[o]);
      }
    }
  }

  predicate IsPreloadStep(step: Step)
  {
    step.PreloadChecks? || step.PreloadGivesUp? || step.PreloadTakes? || step.PreloadSeesZero? || step.PreloadWrites? ||
    step.PreloadReleases? || step.ValidateBegins? || step.ValidateReads? || step.ValidateEnds?
  }

  lemma PreloadStepKeepsInv(s: State, step: Step)
    requires Inv(s) && Enabled(s, step) && IsPreloadStep(step)
    ensures Inv(Apply(s, step))
  {
    var t := Apply(s, step);
    assert Owned(t) == Owned(s);
    if step.PreloadSeesZero? {
      assert |s.readers| == 0;
    }
    forall o | o in t.readers
      ensures ReaderSound(t, t.readers[o]) && (t.preloader.Writing? ==> !t.readers[o].Reading?) {
      assert ReaderSound(s, s.readers[o]);
      if s.readers[o].Reading? {
        assert SomeoneReads(s);
      }
    }
  }

  lemma UpdateStepKeepsInv(s: State, step: Step)
    requires Inv(s) && Enabled(s, step) && (step.UpdateTakes? || step.UpdateSeesZero? || step.UpdateWrites?)
    ensures Inv(Apply(s, step))
  {
    var t := Apply(s, step);
    if step.UpdateTakes? {
      UpdaterJoins(s, t, step.u);
    } else {
      assert t.updaters[step.u].Owning? && Owned(t);
    }
    if step.UpdateSeesZero? {
      assert |s.readers| == 0;
    }
    if step.UpdateWrites? {
      assert Owned(s);
    }
    forall o | o in t.readers
      ensures ReaderSound(t, t.readers[o]) && (t.preloader.Writing? ==> !t.readers[o].Reading?) {
      assert ReaderSound(s, s.readers[o]);
      if s.readers[o].Reading? {
        assert SomeoneReads(s);
      }
    }
  }

  lemma UpdaterJoins(s: State, t: State, u: nat)
    requires u !in s.updaters && t.updaters == s.updaters[u := Draining]
    ensures Owned(t) == Owned(s)
  {
    if Owned(s) {
      var o :| o in s.updaters && s.updaters[o].Owning?;
      assert t.updaters[o].Owning?;
    }
  }

  lemma StepKeepsInv(s: State, step: Step)
    requires Inv(s) && Enabled(s, step)
    ensures Inv(Apply(s, step))
  {
    hide Inv, Enabled, Apply;
    if IsReaderStep(step) {
      ReaderStepKeepsInv(s, step);
    } else if step.Register? {
      RegisterKeepsInv(s, step);
    } else if step.Unregister? {
      UnregisterKeepsInv(s, step);
    } else if IsPreloadStep(step) {
      PreloadStepKeepsInv(s, step);
    } else {
      UpdateStepKeepsInv(s, step);
    }
  }

  lemma {:induction false} RunKeepsInv(slot: seq<byte>, steps: seq<Step>)
    requires After(Init(slot), steps).Some?
    ensures Inv(After(Init(slot), steps).value)
    decreases |steps|
  {
    if steps != [] {
      RunKeepsInv(slot, steps[..|steps| - 1]);
      StepKeepsInv(After(Init(slot), steps[..|steps| - 1]).value, steps[|steps| - 1]);
    }
  }

  /**
   * In every interleaving: while preload writes, and once an update owns the slot, no reader is in the
   * flash; a read that succeeds returns a slice of the slot as it stood between two writers.
   */
  lemma ReadersAreExcluded(slot: seq<byte>, steps: seq<Step>, r: nat)
    requires After(Init(slot), steps).Some? && r in After(Init(slot), steps).value.readers
    ensures var s := After(Init(slot), steps).value;
            (s.preloader.Writing? || Owned(s) ==> !s.readers[r].Reading?) &&
            (s.readers[r].Succeeded? ==>
              var reader := s.readers[r];
              reader.seen in s.settled && reader.offset + reader.length <= |reader.seen| &&
              reader.got == reader.seen[reader.offset..reader.offset + reader.length])
  {
    RunKeepsInv(slot, steps);
  }

  /** An update owns the slot for good, and the flag that turns readers away stays up. */
  lemma {:induction false} OwnershipLasts(s: State, steps: seq<Step>)
    requires Inv(s) && Owned(s) && After(s, steps).Some?
    ensures var t := After(s, steps).value; Inv(t) && Owned(t) && t.updated && !SomeoneReads(t)
    decreases |steps|
  {
    hide Inv, Owned, Enabled, Apply;
    if steps != [] {
      OwnershipLasts(s, steps[..|steps| - 1]);
      var before := After(s, steps[..|steps| - 1]).value;
      var step := steps[|steps| - 1];
      StepKeepsInv(before, step);
      OwnershipKept(before, step);
    }
    NobodyReads(After(s, steps).value);
  }

  lemma NobodyReads(s: State)
    requires Inv(s) && Owned(s)
    ensures s.updated && !SomeoneReads(s)
  {
    hide ReaderSound;
    var u :| u in s.updaters && s.updaters[u].Owning?;
    assert s.updaters != map[];
  }

  lemma OwnershipKept(before: State, step: Step)
    requires Enabled(before, step) && Owned(before)
    ensures Owned(Apply(before, step))
  {
    var u :| u in before.updaters && before.updaters[u].Owning?;
    assert u in Apply(before, step).updaters && Apply(before, step).updaters[u].Owning?;
  }

  // ---- Waiting ends ----

  /** The reader's way out from where it is, when it takes the failing or the finished branch. */
  function WayOut(s: State, r: nat): (step: Step)
    requires Inv(s) && r in s.readers
    ensures Enabled(s, step)
  {
    match s.readers[r]
    case Registered(_, _) => LoadUpdated(r)
    case PassedUpdated(_, _) => LoadWritten(r)
    case Reading(_, _, _, _) => FlashFails(r)
    case _ => Unregister(r)
  }

  function StepsLeft(reader: Reader): nat
  {
    match reader
    case Registered(_, _) => 4
    case PassedUpdated(_, _) => 3
    case Reading(_, _, _, _) => 2
    case _ => 1
  }

  /** Readers alone can always bring the counter to zero: neither writer's wait blocks on anything else. */
  lemma {:induction false} WaitCanEnd(s: State) returns (steps: seq<Step>)
    requires Inv(s)
    ensures After(s, steps).Some?
    ensures var t := After(s, steps).value;
            t.inFlight == 0 && t.preloader == s.preloader && t.updaters == s.updaters && t.slot == s.slot
    decreases |s.readers|, 4
  {
    if |s.readers| == 0 {
      return [];
    }
    var r :| r in s.readers;
    steps := ReaderLeaves(s, r);
    var t := After(s, steps).value;
    var rest := WaitCanEnd(t);
    AfterAppend(s, steps, rest);
    steps := steps + rest;
  }

  lemma {:induction false} ReaderLeaves(s: State, r: nat) returns (steps: seq<Step>)
    requires Inv(s) && r in s.readers
    ensures After(s, steps).Some?
    ensures var t := After(s, steps).value;
            Inv(t) && |t.readers| < |s.readers| && t.preloader == s.preloader && t.updaters == s.updaters &&
            t.slot == s.slot
    decreases |s.readers|, 3, StepsLeft(s.readers[r])
  {
    hide Inv, Enabled, Apply, StepsLeft;
    var step := WayOut(s, r);
    var t := Apply(s, step);
    WayOutLeads(s, r);
    StepKeepsInv(s, step);
    AfterOne(s, step);
    steps := [step];
    if r in t.readers {
      var rest := ReaderLeaves(t, r);
      AfterAppend(s, [step], rest);
      steps := [step] + rest;
    }
  }

  lemma WayOutLeads(s: State, r: nat)
    requires Inv(s) && r in s.readers
    ensures var t := Apply(s, WayOut(s, r));
            t.preloader == s.preloader && t.updaters == s.updaters && t.slot == s.slot &&
            if r in t.readers then |t.readers| == |s.readers| && StepsLeft(t.readers[r]) < StepsLeft(s.readers[r])
            else |t.readers| < |s.readers|
  {
    hide Owned, SomeoneReads, ReaderSound;
    var t := Apply(s, WayOut(s, r));
    assert t.readers.Keys == if r in t.readers then s.readers.Keys else s.readers.Keys - {r};
    assert |t.readers| == |t.readers.Keys| && |s.readers| == |s.readers.Keys|;
  }

  lemma AfterOne(s: State, step: Step)
    requires Enabled(s, step)
    ensures After(s, [step]) == Some(Apply(s, step))
  {
    assert [step][..0] == [];
  }

  lemma {:induction false} AfterAppend(s: State, a: seq<Step>, b: seq<Step>)
    requires After(s, a).Some?
    ensures After(s, a + b) == After(After(s, a).value, b)
  {
    if b == [] {
      assert a + b == a;
    } else {
      AfterAppend(s, a, b[..|b| - 1]);
      assert (a + b)[..|a + b| - 1] == a + b[..|b| - 1];
    }
  }

  // ---- The header check is outside the protocol ----

  /** isValidFor reads the header without registering: its read can overlap a writer's. */
  predicate Overlaps(s: State)
  {
    s.headers != map[] && (s.preloader.Writing? || Owned(s))
  }

  /** A header check begins under a writer, or a writer begins under a header check. */
  predicate Careless(s: State, step: Step)
  {
    (step.ValidateBegins? && (s.preloader.Writing? || Owned(s))) ||
    ((step.PreloadSeesZero? || step.UpdateSeesZero?) && s.headers != map[])
  }

  /** The state after the first i steps of a run. */
  function At(slot: seq<byte>, steps: seq<Step>, i: nat): State
    requires i <= |steps| && After(Init(slot), steps).Some?
  {
    AfterPrefix(Init(slot), steps, i);
    After(Init(slot), steps[..i]).value
  }

  lemma {:induction false} AfterPrefix(s: State, steps: seq<Step>, i: nat)
    requires i <= |steps| && After(s, steps).Some?
    ensures After(s, steps[..i]).Some?
    decreases |steps|
  {
    if i < |steps| {
      AfterPrefix(s, steps[..|steps| - 1], i);
      assert steps[..|steps| - 1][..i] == steps[..i];
    } else {
      assert steps[..i] == steps;
    }
  }

  lemma AtNext(slot: seq<byte>, steps: seq<Step>, i: nat)
    requires i < |steps| && After(Init(slot), steps).Some?
    ensures Enabled(At(slot, steps, i), steps[i]) && At(slot, steps, i + 1) == Apply(At(slot, steps, i), steps[i])
  {
    AfterPrefix(Init(slot), steps, i + 1);
    assert steps[..i + 1][..i] == steps[..i];
  }

  predicate NeverOverlaps(slot: seq<byte>, steps: seq<Step>, n: nat)
    requires n <= |steps| && After(Init(slot), steps).Some?
  {
    forall i :: 0 <= i <= n ==> !Overlaps(At(slot, steps, i))
  }

  predicate Orderly(slot: seq<byte>, steps: seq<Step>, n: nat)
    requires n <= |steps| && After(Init(slot), steps).Some?
  {
    forall i :: 0 <= i < n ==> !Careless(At(slot, steps, i), steps[i])
  }

  lemma OverlapBegins(s: State, step: Step)
    requires Enabled(s, step) && !Overlaps(s)
    ensures Overlaps(Apply(s, step)) <==> Careless(s, step)
  {
    var t := Apply(s, step);
    if step.UpdateTakes? {
      UpdaterJoins(s, t, step.u);
    } else if step.UpdateSeesZero? {
      assert t.updaters[step.u].Owning?;
    } else {
      assert t.updaters == s.updaters;
    }
  }

  /**
   * In a run no header check is ever under way together with a writer exactly when none begins while preload
   * writes or an update owns the slot, and neither of them starts to write while one is under way.
   */
  lemma {:induction false} HeaderReadsExcludedExactly(slot: seq<byte>, steps: seq<Step>, n: nat)
    requires n <= |steps| && After(Init(slot), steps).Some?
    ensures NeverOverlaps(slot, steps, n) <==> Orderly(slot, steps, n)
  {
    hide Overlaps, Careless, Enabled, Apply, At;
    if n == 0 {
      NoOverlapAtFirst(slot, steps);
    } else {
      HeaderReadsExcludedExactly(slot, steps, n - 1);
      AtNext(slot, steps, n - 1);
      if !Overlaps(At(slot, steps, n - 1)) {
        OverlapBegins(At(slot, steps, n - 1), steps[n - 1]);
      }
    }
  }

  lemma NoOverlapAtFirst(slot: seq<byte>, steps: seq<Step>)
    requires After(Init(slot), steps).Some?
    ensures At(slot, steps, 0) == Init(slot) && !Overlaps(Init(slot))
  {
    assert steps[..0] == [];
  }

  /** No header check begins once preload has taken the slot, and neither writer takes it under a header check. */
  predicate CallsApart(slot: seq<byte>, steps: seq<Step>, n: nat)
    requires n <= |steps| && After(Init(slot), steps).Some?
  {
    forall i :: 0 <= i < n ==>
      (steps[i].ValidateBegins? ==> !At(slot, steps, i).written) &&
      (steps[i].PreloadTakes? || steps[i].UpdateTakes? ==> At(slot, steps, i).headers == map[])
  }

  /** Callers that keep the calls apart keep the reads apart. */
  lemma {:induction false} CallsApartIsOrderly(slot: seq<byte>, steps: seq<Step>, n: nat)
    requires n <= |steps| && After(Init(slot), steps).Some? && CallsApart(slot, steps, n)
    ensures Orderly(slot, steps, n)
    ensures var s := At(slot, steps, n); s.headers != map[] ==> !s.written && s.updaters == map[]
  {
    hide Inv, Owned, At;
    if n == 0 {
      NoOverlapAtFirst(slot, steps);
    } else {
      CallsApartIsOrderly(slot, steps, n - 1);
      AtNext(slot, steps, n - 1);
      var before := At(slot, steps, n - 1);
      AtKeepsInv(slot, steps, n - 1);
      WritersAreMarked(before);
    }
  }

  lemma AtKeepsInv(slot: seq<byte>, steps: seq<Step>, i: nat)
    requires i <= |steps| && After(Init(slot), steps).Some?
    ensures Inv(At(slot, steps, i))
  {
    AfterPrefix(Init(slot), steps, i);
    RunKeepsInv(slot, steps[..i]);
  }

  lemma WritersAreMarked(s: State)
    requires Inv(s)
    ensures s.preloader.Writing? || s.preloader.Waiting? ==> s.written
    ensures (s.updaters != map[] ==> s.updated) && (Owned(s) ==> s.updaters != map[])
  {
    hide ReaderSound;
    if Owned(s) {
      var u :| u in s.updaters && s.updaters[u].Owning?;
    }
  }

  /** Every header check under way has read the beginning of the slot as it is, which is as no writer left it. */
  predicate HeadersWhole(s: State)
  {
    forall c :: c in s.headers ==> HeaderWhole(s, s.headers[c])
  }

  predicate HeaderWhole(s: State, read: HeaderRead)
  {
    read.seen == s.slot && read.seen in s.settled && |read.got| <= |s.slot| && read.got == s.slot[..|read.got|]
  }

  /** In an orderly run the header bytes read are those of the slot as it stood between two writers. */
  lemma {:induction false} HeaderIsWhole(slot: seq<byte>, steps: seq<Step>, n: nat)
    requires n <= |steps| && After(Init(slot), steps).Some? && Orderly(slot, steps, n)
    ensures HeadersWhole(At(slot, steps, n))
  {
    hide Inv, At, Overlaps, Careless, Owned;
    if n == 0 {
      NoOverlapAtFirst(slot, steps);
    } else {
      HeaderIsWhole(slot, steps, n - 1);
      AtNext(slot, steps, n - 1);
      HeaderReadsExcludedExactly(slot, steps, n);
      AtKeepsInv(slot, steps, n - 1);
      assert !Overlaps(At(slot, steps, n - 1)) && !Overlaps(At(slot, steps, n));
      HeaderStep(At(slot, steps, n - 1), steps[n - 1]);
    }
  }

  lemma HeaderStep(s: State, step: Step)
    requires Inv(s) && Enabled(s, step) && !Overlaps(s) && !Overlaps(Apply(s, step))
    requires HeadersWhole(s)
    ensures HeadersWhole(Apply(s, step))
  {
    hide ReaderSound, SomeoneReads, HeaderWhole;
    var t := Apply(s, step);
    if step.ValidateBegins? {
      CheckBegun(s);
    } else if step.ValidateReads? {
      assert HeaderWhole(s, s.headers[step.c]);
      CheckReads(s, s.headers[step.c]);
    }
    forall c | c in t.headers ensures HeaderWhole(t, t.headers[c]) {
      if c in s.headers && t.headers[c] == s.headers[c] {
        assert HeaderWhole(s, s.headers[c]);
        StaysWhole(s, t, s.headers[c]);
      } else {
        StaysWhole(s, t, t.headers[c]);
      }
    }
  }

  lemma CheckBegun(s: State)
    requires Inv(s) && !s.preloader.Writing? && !Owned(s)
    ensures HeaderWhole(s, HeaderRead([], s.slot))
  {
    hide ReaderSound, SomeoneReads, Owned;
  }

  lemma CheckReads(s: State, read: HeaderRead)
    requires HeaderWhole(s, read) && |read.got| < |s.slot|
    ensures HeaderWhole(s, HeaderRead(read.got + [s.slot[|read.got|]], read.seen))
  {
  }

  lemma StaysWhole(s: State, t: State, read: HeaderRead)
    requires HeaderWhole(s, read) && t.slot == s.slot && s.settled <= t.settled
    ensures HeaderWhole(t, read)
  {
    var i :| 0 <= i < |s.settled| && s.settled[i] == read.seen;
    assert t.settled[i] == read.seen;
  }

  /** The steps of a header check that preload overtakes after k bytes. */
  function Overtaken(k: nat, n: nat, bytes: seq<byte>): (steps: seq<Step>)
    requires k <= n
  {
    [PreloadChecks, ValidateBegins(0)] + HeaderReads(k) +
    [PreloadTakes, PreloadSeesZero, PreloadWrites(bytes)] + HeaderReads(n - k)
  }

  function HeaderReads(n: nat): (steps: seq<Step>)
    ensures |steps| == n
  {
    if n == 0 then [] else HeaderReads(n - 1) + [ValidateReads(0)]
  }

  /** The state after the first check has read n more bytes of the header. */
  function ReadOn(s: State, n: nat): State
    requires 0 in s.headers && |s.headers[0].got| + n <= |s.slot|
  {
    var got := s.headers[0].got;
    s.(headers := s.headers[0 := HeaderRead(got + s.slot[|got|..|got| + n], s.headers[0].seen)])
  }

  lemma OneMoreRead(s: State, n: nat)
    requires 0 in s.headers && |s.headers[0].got| + n < |s.slot|
    ensures Enabled(ReadOn(s, n), ValidateReads(0)) && Apply(ReadOn(s, n), ValidateReads(0)) == ReadOn(s, n + 1)
  {
    var got := s.headers[0].got;
    var k := |got| + n;
    assert got + s.slot[|got|..k] + [s.slot[k]] == got + s.slot[|got|..k + 1];
  }

  lemma {:induction false} NothingRead(s: State)
    requires 0 in s.headers && |s.headers[0].got| <= |s.slot|
    ensures ReadOn(s, 0) == s && After(s, []) == Some(s)
  {
    var got := s.headers[0].got;
    assert got + s.slot[|got|..|got|] == got;
    assert s.headers[0 := s.headers[0]] == s.headers;
  }

  lemma {:induction false} ReadsOn(s: State, n: nat)
    requires 0 in s.headers && |s.headers[0].got| + n <= |s.slot|
    ensures After(s, HeaderReads(n)) == Some(ReadOn(s, n))
  {
    hide Enabled, Apply, ReadOn, After;
    if n == 0 {
      NothingRead(s);
    } else {
      ReadsOn(s, n - 1);
      OneMoreRead(s, n - 1);
      AfterOne(ReadOn(s, n - 1), ValidateReads(0));
      AfterAppend(s, HeaderReads(n - 1), [ValidateReads(0)]);
    }
  }

  /**
   * Without that care the header read is worth nothing: any bytes that preload writes, and any place where it
   * overtakes the check, give a run in which the check has read the head of the one and the tail of the other.
   */
  lemma HeaderReadsAreNotExcluded(slot: seq<byte>, bytes: seq<byte>, k: nat, n: nat)
    requires k <= n <= |slot| == |bytes|
    ensures After(Init(slot), Overtaken(k, n, bytes)).Some?
    ensures var s := After(Init(slot), Overtaken(k, n, bytes)).value;
            Overlaps(s) && 0 in s.headers && s.headers[0].got == slot[..k] + bytes[k..n]
  {
    hide Enabled, Apply, After;
    var s0 := Init(slot);
    var begun := [PreloadChecks, ValidateBegins(0)];
    var taken := [PreloadTakes, PreloadSeesZero, PreloadWrites(bytes)];
    var s1 := s0.(preloader := Checked, headers := map[0 := HeaderRead([], slot)]);
    CheckBegins(slot);
    ReadsOn(s1, k);
    AfterAppend(s0, begun, HeaderReads(k));
    var s2 := s1.(headers := map[0 := HeaderRead(slot[..k], slot)]);
    assert [] + slot[0..k] == slot[..k] && ReadOn(s1, k) == s2;
    var s3 := s2.(preloader := Writing, written := true, slot := bytes);
    PreloadOvertakes(s2, bytes);
    AfterAppend(s0, begun + HeaderReads(k), taken);
    ReadsOn(s3, n - k);
    AfterAppend(s0, begun + HeaderReads(k) + taken, HeaderReads(n - k));
  }

  lemma CheckBegins(slot: seq<byte>)
    ensures After(Init(slot), [PreloadChecks, ValidateBegins(0)]) ==
            Some(Init(slot).(preloader := Checked, headers := map[0 := HeaderRead([], slot)]))
  {
    TwoSteps(Init(slot), PreloadChecks, ValidateBegins(0));
  }

  lemma PreloadOvertakes(s: State, bytes: seq<byte>)
    requires s.preloader.Checked? && s.inFlight == 0 && |bytes| == |s.slot|
    ensures After(s, [PreloadTakes, PreloadSeesZero, PreloadWrites(bytes)]) ==
            Some(s.(preloader := Writing, written := true, slot := bytes))
  {
    TwoSteps(s, PreloadTakes, PreloadSeesZero);
    var steps := [PreloadTakes, PreloadSeesZero, PreloadWrites(bytes)];
    assert steps[..2] == [PreloadTakes, PreloadSeesZero];
  }

  lemma TwoSteps(s: State, a: Step, b: Step)
    requires Enabled(s, a) && Enabled(Apply(s, a), b)
    ensures After(s, [a, b]) == Some(Apply(Apply(s, a), b))
  {
    AfterOne(s, a);
    assert [a, b][..1] == [a];
  }
}
