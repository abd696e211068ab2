/**
 * Whole lives of a book's clippings: any number of operations on the open book, failures and power cuts at
 * any point, restarts, syncs. The code is shown to refine a small machine of views, up to the first of four
 * mishaps, each of which a call whose failure the code does not notice brings about; what is promised over
 * runs is proved of the machine.
 */
module ClippingRuns {
  import opened Bytes
  import opened Options
  import opened ClippingFormat
  import opened Device
  import opened ClippingDisk
  import opened ClippingStore

  /** What the reader, or a sync, does. reach is how many deletions the server acknowledges before it is gone. */
  datatype Action =
    | Add(sel: Selection, title: seq<byte>, now: int, text: seq<byte>)
    | Remove(at: nat)
    | Remote(r: Record, remoteText: seq<byte>, deleted: bool)
    | SendDeletions(reach: nat)
    | FinishUploads
    | Close
    | Restart

  predicate WellFormed(action: Action)
  {
    action.Remote? && !action.deleted ==> ValidRecord(action.r)
  }

  /** An action, whether it reported success, and the clippings it was on its way to. */
  datatype Event = Event(action: Action, done: bool, goal: seq<Entry>)

  /**
   * What a load would show, what the open book shows, the journaled ids, and the deletions that the server has
   * acknowledged. There is no open book after a power cut, a failed load or a close.
   */
  datatype View = View(card: Option<seq<Entry>>, memory: Option<seq<Entry>>, journal: seq<seq<byte>>,
                       acknowledged: seq<seq<byte>>)

  /** What an action makes of the clippings of the open book. */
  ghost predicate Effect(action: Action, shown: seq<Entry>, goal: seq<Entry>)
  {
    match action
    case Add(sel, title, now, text) => goal == shown + [Entry(NewRecord(sel, title, now), text)]
    case Remove(at) => goal == if at < |shown| then Without(shown, at) else shown
    case Remote(r, text, deleted) => goal == RemoteApplied(shown, r, text, deleted)
    case SendDeletions(_) => AllNamed(shown, goal)
    case FinishUploads => goal == AllUploaded(shown)
    case Close => goal == shown
    case Restart => goal == shown
  }

  /**
   * A rewrite: the card shows the clippings it showed or the goal; the goal if the action was reported done,
   * unless there was nothing to do; what it showed if the action failed while power stayed on.
   */
  predicate Rewritten(v: View, e: Event, w: View)
  {
    (w.card == v.card || w.card == Some(e.goal)) &&
    (e.done ==> w.card == Some(e.goal) || v.memory == Some(e.goal)) &&
    (!e.done && w.memory.Some? ==> w.card == v.card)
  }

  /** A failed change is taken back in memory. */
  predicate TakenBack(v: View, e: Event, w: View)
  {
    w.memory.Some? ==> w.memory == if e.done then Some(e.goal) else v.memory
  }

  /** Marks stay in memory even if they could not be saved. */
  predicate MarksStay(e: Event, w: View)
  {
    w.memory.Some? ==> w.memory == Some(e.goal)
  }

  predicate SameJournal(v: View, w: View)
  {
    w.journal == v.journal && w.acknowledged == v.acknowledged
  }

  /** The journal gained the id, which names something, or nothing; the id if there was one and the card changed. */
  predicate RemovalJournaled(v: View, e: Event, w: View, id: seq<byte>)
  {
    (w.journal == v.journal || (NamesOnly([id]) && w.journal == v.journal + [id])) &&
    ((e.done || w.card != v.card) && CString(id) != [] ==> w.journal == v.journal + [id]) &&
    w.acknowledged == v.acknowledged
  }

  /**
   * Only once the goal is saved, some of the journaled ids that it does not carry are acknowledged, in order;
   * the journal is forgotten only after all of them were.
   */
  predicate DeletionsSent(v: View, e: Event, w: View, reach: nat)
  {
    var pending := Unstored(v.journal, StoredIds(e.goal));
    v.acknowledged <= w.acknowledged &&
    var sent := w.acknowledged[|v.acknowledged|..];
    sent <= pending && |sent| <= reach &&
    (w.journal == v.journal || (w.journal == [] && sent == pending)) &&
    (e.done ==> sent == pending) &&
    (e.done || sent != [] || w.journal != v.journal ==> w.card == Some(e.goal))
  }

  /** One action of the machine. Without an open book only a restart does anything. */
  ghost predicate Step(v: View, e: Event, w: View)
  {
    if e.action.Restart? then
      w == v.(memory := w.memory) && (w.memory.Some? ==> w.memory == v.card) && (e.done ==> w.memory.Some?)
    else if v.memory.None? then w == v && !e.done
    else Effect(e.action, v.memory.value, e.goal) && OpenStep(v, e, w)
  }

  ghost predicate OpenStep(v: View, e: Event, w: View)
    requires v.memory.Some?
  {
    match e.action
    case Add(_, _, _, _) => Rewritten(v, e, w) && TakenBack(v, e, w) && SameJournal(v, w)
    case Remove(at) =>
      if at < |v.memory.value| then
        Rewritten(v, e, w) && TakenBack(v, e, w) && RemovalJournaled(v, e, w, v.memory.value[at].rec.id)
      else w == v && !e.done
    case Remote(_, _, _) => Rewritten(v, e, w) && TakenBack(v, e, w) && SameJournal(v, w)
    case SendDeletions(reach) =>
      (w.card == v.card || w.card == Some(e.goal)) && MarksStay(e, w) && DeletionsSent(v, e, w, reach)
    case FinishUploads => Rewritten(v, e, w) && MarksStay(e, w) && SameJournal(v, w)
    case Close => (w.card == v.card || w.card == Some(e.goal)) && w.memory.None? && SameJournal(v, w)
    case Restart => true
  }

  /**
   * What a call whose failure goes unnoticed can do: a rewrite whose temporary file was closed in vain leaves a
   * store that does not load; a removal goes on without its id being journaled; a load takes a store for missing;
   * the deletions are taken to be sent, or forgotten, before all were.
   */
  ghost predicate Mishap(v: View, e: Event, w: View)
  {
    (v.card.Some? && w.card.None?) ||
    (e.action.Remove? && v.memory.Some? && e.action.at < |v.memory.value| &&
     CString(v.memory.value[e.action.at].rec.id) != [] && w.journal == v.journal && (e.done || w.card != v.card)) ||
    (e.action.Restart? && w.memory.Some? && w.memory != v.card) ||
    (e.action.SendDeletions? && v.memory.Some? && v.acknowledged <= w.acknowledged &&
     w.acknowledged[|v.acknowledged|..] != Unstored(v.journal, StoredIds(e.goal)) && (e.done || w.journal != v.journal))
  }

  /** A mishap is no step of the machine. */
  lemma MishapIsNoStep(v: View, e: Event, w: View)
    requires Mishap(v, e, w)
    ensures !Step(v, e, w)
  {
    hide CString, StoredIds, Unstored, Effect, Without;
  }

  ghost predicate Run(views: seq<View>, events: seq<Event>)
  {
    |views| == |events| + 1 && forall i :: 0 <= i < |events| ==> Step(views[i], events[i], views[i + 1])
  }

  // ---- Crash atomicity over runs ----

  /** Event i is an action on an open book, and goal is what it makes of the clippings shown then. */
  ghost predicate Performed(views: seq<View>, events: seq<Event>, i: nat)
  {
    i < |events| < |views| && views[i].memory.Some? &&
    Effect(events[i].action, views[i].memory.value, events[i].goal)
  }

  /** The card shows what it showed at first or exactly what one single action led to, never a mix. */
  lemma {:induction false} RunLoadsOneVersion(views: seq<View>, events: seq<Event>)
    requires Run(views, events)
    ensures views[|events|].card == views[0].card ||
            exists i: nat :: Performed(views, events, i) && views[|events|].card == Some(events[i].goal)
  {
    hide Effect;
    if events != [] {
      var n := |events| - 1;
      assert Step(views[n], events[n], views[n + 1]);
      if views[n + 1].card != views[n].card {
        assert Performed(views, events, n);
      } else {
        var vs, es := views[..n + 1], events[..n];
        assert Run(vs, es);
        RunLoadsOneVersion(vs, es);
        if vs[n].card != vs[0].card {
          var i: nat :| Performed(vs, es, i) && vs[n].card == Some(es[i].goal);
          assert Performed(views, events, i);
        }
      }
    }
  }

  /** A store that loads before a run loads after it. */
  lemma RunNeverDamages(views: seq<View>, events: seq<Event>)
    requires Run(views, events) && views[0].card.Some?
    ensures views[|events|].card.Some?
  {
    RunLoadsOneVersion(views, events);
  }

  /** What an action reported as done is still there after any number of restarts, and a later load shows it. */
  lemma {:induction false} DoneStays(views: seq<View>, events: seq<Event>, i: nat)
    requires Run(views, events) && i < |events| && views[i].memory.Some? && events[i].done && !events[i].action.Restart?
    requires events[i].goal != views[i].memory.value || events[i].action.SendDeletions?
    requires forall k :: i < k < |events| ==> events[k].action.Restart?
    ensures views[|events|].card == Some(events[i].goal)
    ensures i + 1 < |events| && views[|events|].memory.Some? ==> views[|events|].memory == Some(events[i].goal)
    decreases |events|
  {
    hide NewRecord, RemoteApplied, AllNamed, AllUploaded, Without;
    var n := |events| - 1;
    assert Step(views[n], events[n], views[n + 1]);
    if i < n {
      assert Run(views[..n + 1], events[..n]);
      DoneStays(views[..n + 1], events[..n], i);
    }
  }

  // ---- No deletion is lost ----

  /** b carries every id that a carries. */
  ghost predicate IdsKept(a: seq<Entry>, b: seq<Entry>)
  {
    forall id :: id != [] && id in StoredIds(a) ==> id in StoredIds(b)
  }

  /** The journal names only clippings, and the open book carries every id that a load would show. */
  ghost predicate Inv(v: View)
  {
    NamesOnly(v.journal) && (v.memory.Some? ==> v.card.Some? && IdsKept(v.card.value, v.memory.value))
  }

  /** Entry for entry the ids that are there stay. */
  lemma IdsKeptBy(a: seq<Entry>, b: seq<Entry>)
    requires |a| <= |b|
    requires forall i :: 0 <= i < |a| ==> CString(a[i].rec.id) == [] || CString(b[i].rec.id) == CString(a[i].rec.id)
    ensures IdsKept(a, b)
  {
    hide CString;
    forall id | id != [] && id in StoredIds(a) ensures id in StoredIds(b) {
      var i :| 0 <= i < |a| && StoredIds(a)[i] == id;
      assert StoredIds(b)[i] == id;
    }
  }

  lemma NamedKeepsIds(a: seq<Entry>, b: seq<Entry>)
    requires AllNamed(a, b)
    ensures IdsKept(a, b)
  {
    forall i | 0 <= i < |a| ensures CString(a[i].rec.id) == [] || CString(b[i].rec.id) == CString(a[i].rec.id) {
      assert Named(a[i], b[i]);
    }
    IdsKeptBy(a, b);
  }

  lemma UploadedKeepsIds(es: seq<Entry>)
    ensures IdsKept(es, AllUploaded(es))
  {
    hide CString;
    IdsKeptBy(es, AllUploaded(es));
  }

  lemma IdsKeptTrans(a: seq<Entry>, b: seq<Entry>, c: seq<Entry>)
    requires IdsKept(a, b) && IdsKept(b, c)
    ensures IdsKept(a, c)
  {
    hide CString, StoredIds;
  }

  lemma StepKeepsInv(v: View, e: Event, w: View)
    requires Step(v, e, w) && Inv(v)
    ensures Inv(w)
  {
    hide CString, StoredIds, Unstored, RemoteApplied, NewRecord, Without, Terminated;
    if v.memory.Some? && e.action.SendDeletions? {
      NamedKeepsIds(v.memory.value, e.goal);
      IdsKeptTrans(v.card.value, v.memory.value, e.goal);
    } else if v.memory.Some? && e.action.FinishUploads? {
      UploadedKeepsIds(v.memory.value);
      IdsKeptTrans(v.card.value, v.memory.value, e.goal);
    }
  }

  lemma {:induction false} RunKeepsInv(views: seq<View>, events: seq<Event>)
    requires Run(views, events) && Inv(views[0])
    ensures forall i :: 0 <= i < |views| ==> Inv(views[i])
  {
    hide Inv, Step;
    if events != [] {
      var n := |events| - 1;
      assert Run(views[..n + 1], events[..n]);
      RunKeepsInv(views[..n + 1], events[..n]);
      assert Inv(views[..n + 1][n]);
      assert Step(views[n], events[n], views[n + 1]);
      StepKeepsInv(views[n], events[n], views[n + 1]);
      assert forall i :: 0 <= i < n + 1 ==> views[..n + 1][i] == views[i];
    }
  }

  /** What a load shows carries the id, the journal has it, or the server knows of its deletion. */
  ghost predicate Accounted(v: View, id: seq<byte>)
  {
    (v.card.Some? && id in StoredIds(v.card.value)) || IdAmong(v.journal, id) || id in v.acknowledged
  }

  /** The server itself asks for the id's clipping to go. */
  predicate Deletes(action: Action, id: seq<byte>)
  {
    action.Remote? && action.deleted && CString(action.r.id) == id
  }

  lemma WithoutKeepsOthers(es: seq<Entry>, at: nat, id: seq<byte>)
    requires at < |es| && id in StoredIds(es) && id != CString(es[at].rec.id)
    ensures id in StoredIds(Without(es, at))
  {
    hide CString;
    var k :| 0 <= k < |es| && StoredIds(es)[k] == id;
    var r := Without(es, at);
    var j := if k < at then k else k - 1;
    assert r[j] == es[k];
    assert StoredIds(r)[j] == id;
  }

  /** Only a removal and the server's word take an id out of the clippings. */
  lemma EffectKeepsIds(action: Action, shown: seq<Entry>, goal: seq<Entry>, id: seq<byte>)
    requires Effect(action, shown, goal) && id != [] && id in StoredIds(shown)
    requires !Deletes(action, id)
    ensures id in StoredIds(goal) ||
            (action.Remove? && action.at < |shown| && CString(shown[action.at].rec.id) == id)
  {
    hide CString;
    match action {
      case Add(_, _, _, _) => { IdsKeptBy(shown, goal); }
      case Remove(at) => {
        if at < |shown| && CString(shown[at].rec.id) != id { WithoutKeepsOthers(shown, at, id); }
      }
      case Remote(r, text, deleted) => {
        if deleted {
          var at := IdAt(shown, r.id);
          if at < |shown| { WithoutKeepsOthers(shown, at, id); }
        } else {
          IdsKeptBy(shown, goal);
        }
      }
      case SendDeletions(_) => { NamedKeepsIds(shown, goal); }
      case FinishUploads => { UploadedKeepsIds(shown); }
      case _ => {}
    }
  }

  lemma AmongAppended(ids: seq<seq<byte>>, gone: seq<byte>, id: seq<byte>)
    ensures IdAmong(ids + [gone], id) <==> IdAmong(ids, id) || CString(gone) == id
  {
    hide CString;
    IdAmongLast(ids + [gone], id);
    assert (ids + [gone])[..|ids|] == ids;
  }

  /** An id that is stored stays accounted for. */
  lemma StoredStaysAccounted(v: View, e: Event, w: View, id: seq<byte>)
    requires Step(v, e, w) && Inv(v) && id != [] && !Deletes(e.action, id)
    requires v.card.Some? && id in StoredIds(v.card.value)
    ensures Accounted(w, id)
  {
    hide CString, StoredIds, Effect, Unstored, IdAmong, Without;
    if w.card != v.card {
      var shown := v.memory.value;
      EffectKeepsIds(e.action, shown, e.goal, id);
      if id !in StoredIds(e.goal) {
        AmongAppended(v.journal, shown[e.action.at].rec.id, id);
      }
    }
  }

  /** An id that is journaled stays accounted for. */
  lemma JournaledStaysAccounted(v: View, e: Event, w: View, id: seq<byte>)
    requires Step(v, e, w) && id != [] && IdAmong(v.journal, id)
    ensures Accounted(w, id)
  {
    hide CString, StoredIds, Effect, Unstored, IdAmong, Without;
    if w.journal != v.journal {
      if e.action.Remove? {
        AmongAppended(v.journal, v.memory.value[e.action.at].rec.id, id);
      } else {
        UnstoredExactly(v.journal, StoredIds(e.goal), id);
        assert w.acknowledged == v.acknowledged + w.acknowledged[|v.acknowledged|..];
      }
    }
  }

  lemma StepKeepsAccount(v: View, e: Event, w: View, id: seq<byte>)
    requires Step(v, e, w) && Inv(v) && id != [] && !Deletes(e.action, id) && Accounted(v, id)
    ensures Accounted(w, id)
  {
    hide CString, StoredIds, Effect, Unstored, IdAmong;
    if IdAmong(v.journal, id) {
      JournaledStaysAccounted(v, e, w, id);
    } else if id !in v.acknowledged {
      StoredStaysAccounted(v, e, w, id);
    }
  }

  /** From position from on, an id that is accounted for stays so, unless the server deletes it. */
  lemma {:induction false} RunKeepsAccount(views: seq<View>, events: seq<Event>, from: nat, id: seq<byte>)
    requires Run(views, events) && Inv(views[0]) && from <= |events| && id != [] && Accounted(views[from], id)
    requires forall k :: from <= k < |events| ==> !Deletes(events[k].action, id)
    ensures Accounted(views[|events|], id)
    decreases |events|
  {
    hide Accounted, Step, Inv, Deletes;
    if from < |events| {
      var n := |events| - 1;
      assert Run(views[..n + 1], events[..n]);
      RunKeepsAccount(views[..n + 1], events[..n], from, id);
      RunKeepsInv(views, events);
      StepKeepsAccount(views[n], events[n], views[n + 1], id);
    }
  }

  /**
   * Whatever happened, once a sync has sent the deletions, every id that was ever stored or journaled is stored
   * or its deletion has been acknowledged, if not asked for, by the server.
   */
  lemma NoDeletionLost(views: seq<View>, events: seq<Event>, from: nat, id: seq<byte>)
    requires Run(views, events) && Inv(views[0]) && from < |events| && id != [] && Accounted(views[from], id)
    requires forall k :: from <= k < |events| ==> !Deletes(events[k].action, id)
    requires var last := events[|events| - 1]; last.action.SendDeletions? && last.done
    ensures var end := views[|events|];
            (end.card.Some? && id in StoredIds(end.card.value)) || id in end.acknowledged
  {
    hide StoredIds, CString, Unstored, Effect, Inv, Deletes, IdAmong;
    RunKeepsAccount(views, events, from, id);
    var n := |events| - 1;
    var v, e, w := views[n], events[n], views[n + 1];
    assert Step(v, e, w);
    UnstoredExactly(v.journal, StoredIds(e.goal), id);
    assert w.acknowledged == v.acknowledged + w.acknowledged[|v.acknowledged|..];
    NoneAmong(id);
  }

  lemma NoneAmong(id: seq<byte>)
    ensures !IdAmong([], id)
  {
  }

  /** No deletion is sent of an id that the card still stores, and none of an id that was not journaled. */
  lemma OnlyDeletedAreSent(v: View, e: Event, w: View, id: seq<byte>)
    requires Step(v, e, w) && id in w.acknowledged && id !in v.acknowledged
    ensures w.card.Some? && id !in StoredIds(w.card.value) && IdAmong(v.journal, id)
  {
    hide StoredIds, CString, Unstored, Effect, IdAmong, Without;
    assert v.memory.Some? && e.action.SendDeletions?;
    var sent := w.acknowledged[|v.acknowledged|..];
    assert w.acknowledged == v.acknowledged + sent;
    assert id in sent;
    UnstoredExactly(v.journal, StoredIds(e.goal), id);
  }

  /** Between two syncs the journal only grows, and at all times by nothing but ids that name something. */
  lemma {:induction false} JournalOnlyGrows(views: seq<View>, events: seq<Event>, from: nat)
    requires Run(views, events) && Inv(views[0]) && from <= |events|
    requires forall k :: from <= k < |events| ==> !events[k].action.SendDeletions?
    ensures views[from].journal <= views[|events|].journal && NamesOnly(views[|events|].journal)
    decreases |events|
  {
    hide CString, StoredIds, Effect, Unstored, Without;
    RunKeepsInv(views, events);
    if from < |events| {
      var n := |events| - 1;
      assert Run(views[..n + 1], events[..n]);
      JournalOnlyGrows(views[..n + 1], events[..n], from);
      assert Step(views[n], events[n], views[n + 1]);
    }
  }

  // ---- The code refines the machine ----

  /** The view of a card and of the store that has the book open on it. */
  ghost function ViewOf(store: ClippingStore, book: seq<byte>, acknowledged: seq<seq<byte>>): View
    reads store, store.index, store.index.blocks, store.storage
    requires store.Valid()
  {
    View(LoadResult(store.storage.files, book, store.maxPerBook), if store.Live() then Some(store.Content()) else None,
         JournalIds(Journal(store.storage.files, book)), acknowledged)
  }

  /** The open book is what the card says it is, or nothing is open. */
  ghost predicate Sane(store: ClippingStore)
    reads store, store.storage
  {
    store.Live() ==> store.Sound()
  }

  /** From now on no two flushes or closes in a row fail, and every check of a load and of the journal works. */
  predicate Careful(storage: Storage)
    reads storage
  {
    storage.Sighted() && storage.Lossless()
  }

  /** An action on a sane store was a step that leaves it sane, or a mishap. */
  ghost predicate StepOrMishap(v: View, e: Event, w: View, sane: bool)
  {
    (Step(v, e, w) && sane) || Mishap(v, e, w)
  }

  method PerformAdd(store: ClippingStore, action: Action, ghost acknowledged: seq<seq<byte>>)
    returns (ghost e: Event)
    requires store.Valid() && store.Live() && action.Add?
    modifies store`clippingSize, store`dirty, store`whole, store`missed, store.storage, store.index, store.index.blocks
    ensures store.Valid() && e.action == action
    ensures forall k :: 0 <= k < |store.index.blocks| ==>
              store.index.blocks[k] in old(store.index.blocks) || fresh(store.index.blocks[k])
    ensures var v := old(ViewOf(store, store.bookFilePath, acknowledged));
            var w := ViewOf(store, store.bookFilePath, acknowledged);
            w.journal == v.journal &&
            (old(store.Sound()) && v.card.Some? ==> StepOrMishap(v, e, w, Sane(store))) &&
            (v.card.Some? ==>
              (Mishap(v, e, w) <==> old(store.storage.slips) < store.storage.slips) &&
              (old(Careful(store.storage)) ==> !Mishap(v, e, w)))
    ensures old(store.storage.slips) <= store.storage.slips
    ensures old(Careful(store.storage)) ==> Careful(store.storage)
  {
    hide LoadResult, EntriesOf, CanRewrite, NewRecord, OthersKept, Journal, JournalIds, Recoverable,
         CardBytes, Survivor,
         EncodeStore;
    ghost var before, content, syncs := store.storage.files, store.Content(), store.storage.syncs;
    ghost var goal := content + [Entry(NewRecord(action.sel, action.title, action.now), action.text)];
    if Careful(store.storage) { store.LosslessKeeps(goal, syncs); }
    var added := store.AddClipping(action.sel, action.title, action.now, action.text);
    e := Event(action, added.Added?, goal);
    JournalKept(before, store.storage.files, store.bookFilePath);
  }

  method PerformRemove(store: ClippingStore, action: Action, ghost acknowledged: seq<seq<byte>>)
    returns (ghost e: Event)
    requires store.Valid() && store.Live() && action.Remove? && NamesOnly(store.JournaledIds())
    modifies store`clippingSize, store`dirty, store`whole, store`missed, store.storage, store.index.blocks
    ensures store.Valid() && e.action == action && NamesOnly(store.JournaledIds())
    ensures var v := old(ViewOf(store, store.bookFilePath, acknowledged));
            var w := ViewOf(store, store.bookFilePath, acknowledged);
            (old(store.Sound()) && v.card.Some? ==> StepOrMishap(v, e, w, Sane(store))) &&
            (v.card.Some? ==>
              (Mishap(v, e, w) <==> old(store.storage.slips) < store.storage.slips) &&
              (old(Careful(store.storage)) ==> !Mishap(v, e, w)))
    ensures old(store.storage.slips) <= store.storage.slips
    ensures old(Careful(store.storage)) ==> Careful(store.storage)
  {
    hide LoadResult, EntriesOf, CanRewrite, OthersKept, Journal, JournalIds, Recoverable, ValidRecord, Without, CString,
         CardBytes, Survivor, EncodeStore, ClippingStore.JournalKeeps;
    ghost var content, syncs := store.Content(), store.storage.syncs;
    store.ContentValid();
    if Careful(store.storage) && action.at < |content| {
      store.LosslessKeeps(Without(content, action.at), syncs);
      store.LosslessKeeps(Without(content, action.at), Rest(Rest(syncs)));
      LosslessJournal(store.storage);
    }
    var removed := store.RemoveClippingAt(action.at);
    e := Event(action, removed, if action.at < |content| then Without(content, action.at) else content);
    if action.at < |content| {
      IdsEnd(content[action.at].rec);
    }
  }

  lemma LosslessJournal(storage: Storage)
    requires storage.Lossless()
    ensures ClippingStore.JournalKeeps(storage.syncs)
  {
  }

  lemma IdsEnd(r: Record)
    requires ValidRecord(r)
    ensures Terminated(r.id, ID_SIZE)
  {
  }

  method PerformRemote(store: ClippingStore, action: Action, ghost acknowledged: seq<seq<byte>>)
    returns (ghost e: Event)
    requires store.Valid() && store.Live() && action.Remote? && WellFormed(action)
    modifies store`clippingSize, store`whole, store`missed, store.storage, store.index, store.index.blocks
    ensures store.Valid() && e.action == action
    ensures forall k :: 0 <= k < |store.index.blocks| ==>
              store.index.blocks[k] in old(store.index.blocks) || fresh(store.index.blocks[k])
    ensures var v := old(ViewOf(store, store.bookFilePath, acknowledged));
            var w := ViewOf(store, store.bookFilePath, acknowledged);
            w.journal == v.journal &&
            (old(store.Sound()) && v.card.Some? ==> StepOrMishap(v, e, w, Sane(store))) &&
            (v.card.Some? ==>
              (Mishap(v, e, w) <==> old(store.storage.slips) < store.storage.slips) &&
              (old(Careful(store.storage)) ==> !Mishap(v, e, w)))
    ensures old(store.storage.slips) <= store.storage.slips
    ensures old(Careful(store.storage)) ==> Careful(store.storage)
  {
    hide LoadResult, EntriesOf, CanRewrite, OthersKept, Journal, JournalIds, Recoverable, ValidRecord, RemoteApplied,
         CardBytes, Survivor, EncodeStore;
    ghost var before, content, syncs := store.storage.files, store.Content(), store.storage.syncs;
    ghost var goal := RemoteApplied(content, action.r, action.remoteText, action.deleted);
    if Careful(store.storage) { store.LosslessKeeps(goal, syncs); }
    var applied := store.ApplyRemote(action.r, action.remoteText, action.deleted);
    e := Event(action, applied, goal);
    JournalKept(before, store.storage.files, store.bookFilePath);
  }

  method PerformFinish(store: ClippingStore, action: Action, ghost acknowledged: seq<seq<byte>>)
    returns (ghost e: Event)
    requires store.Valid() && store.Live() && action.FinishUploads?
    modifies store`dirty, store`whole, store`missed, store.storage, store.index.blocks
    ensures store.Valid() && e.action == action
    ensures var v := old(ViewOf(store, store.bookFilePath, acknowledged));
            var w := ViewOf(store, store.bookFilePath, acknowledged);
            w.journal == v.journal &&
            (old(store.Sound()) && v.card.Some? ==> StepOrMishap(v, e, w, Sane(store))) &&
            (v.card.Some? ==>
              (Mishap(v, e, w) <==> old(store.storage.slips) < store.storage.slips) &&
              (old(Careful(store.storage)) ==> !Mishap(v, e, w)))
    ensures old(store.storage.slips) <= store.storage.slips
    ensures old(Careful(store.storage)) ==> Careful(store.storage)
  {
    hide LoadResult, EntriesOf, CanRewrite, OthersKept, Journal, JournalIds, Recoverable, AllUploaded,
         CardBytes, Survivor,
         EncodeStore;
    ghost var before, content, syncs := store.storage.files, store.Content(), store.storage.syncs;
    if Careful(store.storage) { store.LosslessKeeps(AllUploaded(content), syncs); }
    var uploaded := store.FinishUploads();
    e := Event(action, uploaded, AllUploaded(content));
    JournalKept(before, store.storage.files, store.bookFilePath);
  }

  method PerformClose(store: ClippingStore, action: Action, ghost acknowledged: seq<seq<byte>>)
    returns (ghost e: Event)
    requires store.Valid() && store.Live() && action.Close?
    modifies store, store.storage, store.index, store.index.blocks
    ensures store.Valid() && e.action == action && !store.loaded && store.index.blocks == []
    ensures var v := old(ViewOf(store, store.bookFilePath, acknowledged));
            var w := ViewOf(store, old(store.bookFilePath), acknowledged);
            w.journal == v.journal &&
            (old(store.Sound()) && v.card.Some? ==> StepOrMishap(v, e, w, Sane(store))) &&
            (v.card.Some? ==>
              (Mishap(v, e, w) <==> old(store.storage.slips) < store.storage.slips) &&
              (old(Careful(store.storage)) ==> !Mishap(v, e, w)))
    ensures old(store.storage.slips) <= store.storage.slips
    ensures old(Careful(store.storage)) ==> Careful(store.storage)
  {
    hide LoadResult, EntriesOf, CanRewrite, OthersKept, Journal, JournalIds, Recoverable, CardBytes, Survivor,
         EncodeStore;
    ghost var before, content, book := store.storage.files, store.Content(), store.bookFilePath;
    if Careful(store.storage) { store.LosslessKeeps(content, store.storage.syncs); }
    store.Unload();
    e := Event(action, true, content);
    JournalKept(before, store.storage.files, book);
  }

  /** A sync goes wrong if and only if the store is damaged, or not all was sent and it goes on. */
  lemma SendMishap(v: View, e: Event, w: View, reported: seq<seq<byte>>)
    requires w.acknowledged == v.acknowledged + reported && e.action.SendDeletions? && v.memory.Some?
    ensures v.card.Some? ==>
              (Mishap(v, e, w) <==>
               w.card.None? ||
               (reported != Unstored(v.journal, StoredIds(e.goal)) && (e.done || w.journal != v.journal)))
  {
    hide Unstored, StoredIds;
    assert w.acknowledged[|v.acknowledged|..] == reported;
  }

  lemma SendStep(v: View, e: Event, w: View, reported: seq<seq<byte>>, sane: bool)
    requires w.acknowledged == v.acknowledged + reported && e.action.SendDeletions? && v.memory.Some?
    requires AllNamed(v.memory.value, e.goal) && MarksStay(e, w)
    requires reported <= Unstored(v.journal, StoredIds(e.goal)) && |reported| <= e.action.reach
    requires w.journal == v.journal || w.journal == []
    ensures (v.card.Some? && (w.card == v.card || w.card == Some(e.goal) || w.card == None) &&
             (w.card.Some? ==> sane) &&
             (e.done || reported != [] || w.journal != v.journal ==> w.card == Some(e.goal) || w.card == None)) ==>
              StepOrMishap(v, e, w, sane)
  {
    hide Unstored, StoredIds, AllNamed;
    assert w.acknowledged[|v.acknowledged|..] == reported;
  }

  /**
   * The first half of a sync: name what has no id, send the deletions, forget them when all are acknowledged.
   * Nothing runs after a power cut.
   */
  method PerformSend(store: ClippingStore, action: Action, ghost acknowledged: seq<seq<byte>>)
    returns (ghost e: Event, ghost now: seq<seq<byte>>)
    requires store.Valid() && store.Live() && action.SendDeletions? && NamesOnly(store.JournaledIds())
    modifies store`dirty, store`whole, store`missed, store.storage, store.index.blocks
    ensures store.Valid() && e.action == action && NamesOnly(store.JournaledIds())
    ensures var v := old(ViewOf(store, store.bookFilePath, acknowledged));
            var w := ViewOf(store, store.bookFilePath, now);
            (old(store.Sound()) && v.card.Some? ==> StepOrMishap(v, e, w, Sane(store))) &&
            (v.card.Some? ==>
              (Mishap(v, e, w) <==> old(store.storage.slips) < store.storage.slips) &&
              (old(Careful(store.storage)) ==> !Mishap(v, e, w)))
    ensures old(store.storage.slips) <= store.storage.slips
    ensures old(Careful(store.storage)) ==> Careful(store.storage)
  {
    hide LoadResult, EntriesOf, CanRewrite, OthersKept, Journal, JournalIds, Recoverable, AllNamed, Unstored, StoredIds,
         NamesOnly, CardBytes, Survivor, EncodeStore, ClippingStore.Backed, CString, ClippingStore.LeftOf, Mishap,
         StepOrMishap;
    ghost var v := ViewOf(store, store.bookFilePath, acknowledged);
    ghost var before, goal, syncs := store.storage.files, store.Content(), store.storage.syncs;
    var done;
    done, goal := store.PrepareSync();
    if NoneLost(syncs) { store.LosslessKeeps(goal, syncs); }
    JournalKept(before, store.storage.files, store.bookFilePath);
    NoNames();
    now := acknowledged;
    e := Event(action, false, goal);
    if !done || store.storage.dead {
      SendMishap(v, e, ViewOf(store, store.bookFilePath, now), []);
      SendStep(v, e, ViewOf(store, store.bookFilePath, now), [], Sane(store));
      return;
    }
    var reported;
    done, reported := SendAll(store, action.reach);
    now := acknowledged + reported;
    e := Event(action, done, goal);
    SendMishap(v, e, ViewOf(store, store.bookFilePath, now), reported);
    SendStep(v, e, ViewOf(store, store.bookFilePath, now), reported, Sane(store));
  }

  /** Sends the deletions and forgets them. */
  method SendAll(store: ClippingStore, reach: nat) returns (done: bool, reported: seq<seq<byte>>)
    requires store.Valid() && store.Live() && NamesOnly(store.JournaledIds())
    modifies store.storage`files, store.storage`dead, store.storage`faults, store.storage`checks, store.storage`slips
    ensures store.Valid() && (store.JournaledIds() == old(store.JournaledIds()) || store.JournaledIds() == [])
    ensures LoadResult(store.storage.files, store.bookFilePath, store.maxPerBook) ==
            LoadResult(old(store.storage.files), store.bookFilePath, store.maxPerBook)
    ensures store.Live() ==> store.Content() == old(store.Content()) && store.Sound() == old(store.Sound())
    ensures var pending := Unstored(old(store.JournaledIds()), StoredIds(old(store.Content())));
            reported <= pending && |reported| <= reach &&
            store.storage.slips ==
            old(store.storage.slips) +
            (if reported != pending && (done || store.JournaledIds() != old(store.JournaledIds())) then 1 else 0) &&
            (old(store.storage.Sighted()) ==> store.storage.slips == old(store.storage.slips))
    ensures old(store.storage.Sighted()) ==> store.storage.Sighted()
    ensures !Works(old(store.storage.checks), 0) ==>
              reported == [] && (store.storage.faults == old(store.storage.faults) ==> done)
    ensures !Works(old(store.storage.checks), 0) && Works(old(store.storage.checks), 1) && done ==>
              store.JournaledIds() == []
    ensures old(store.storage.faults) <= store.storage.faults
  {
    hide LoadResult, EntriesOf, CanRewrite, OthersKept, Journal, JournalIds, Recoverable, Unstored,
         StoredIds, NamesOnly,
         CardBytes;
    ghost var before, checks, ids := store.storage.files, store.storage.checks, store.JournaledIds();
    ghost var pending := Unstored(ids, StoredIds(store.Content()));
    done, reported := store.ReportDeletions(reach);
    JournalOnly(before, store.storage.files, store.bookFilePath, store.maxPerBook);
    WorksBehind(checks, 1);
    if done {
      done := store.FinishDeletions();
      JournalOnly(before, store.storage.files, store.bookFilePath, store.maxPerBook);
      if reported != pending && (done || store.JournaledIds() != ids) {
        store.storage.slips := store.storage.slips + 1;
      }
    }
  }

  lemma NoNames()
    ensures NamesOnly([])
  {
  }

  /** One action on the open book: a step of the machine, or a mishap, whatever fails and wherever power is cut. */
  method Perform(store: ClippingStore, action: Action, ghost acknowledged: seq<seq<byte>>)
    returns (ghost e: Event, ghost now: seq<seq<byte>>)
    requires store.Valid() && store.Live() && !action.Restart? && WellFormed(action) && NamesOnly(store.JournaledIds())
    modifies store, store.storage, store.index, store.index.blocks
    ensures store.Valid() && e.action == action
    ensures store.loaded ==> store.bookFilePath == old(store.bookFilePath)
    ensures forall k :: 0 <= k < |store.index.blocks| ==>
              store.index.blocks[k] in old(store.index.blocks) || fresh(store.index.blocks[k])
    ensures var v := old(ViewOf(store, store.bookFilePath, acknowledged));
            var w := ViewOf(store, old(store.bookFilePath), now);
            NamesOnly(w.journal) &&
            (old(store.Sound()) && v.card.Some? ==> StepOrMishap(v, e, w, Sane(store))) &&
            (v.card.Some? ==>
              (Mishap(v, e, w) <==> old(store.storage.slips) < store.storage.slips) &&
              (old(Careful(store.storage)) ==> !Mishap(v, e, w)))
    ensures old(store.storage.slips) <= store.storage.slips
    ensures old(Careful(store.storage)) ==> Careful(store.storage)
  {
    hide StepOrMishap, Mishap, WellFormed, NamesOnly, Careful, Sane, LoadResult, JournalIds, Journal,
         ClippingStore.Content,
         ClippingStore.Sound;
    now := acknowledged;
    match action {
      case Add(_, _, _, _) => { e := PerformAdd(store, action, acknowledged); }
      case Remove(_) => { e := PerformRemove(store, action, acknowledged); }
      case Remote(_, _, _) => { e := PerformRemote(store, action, acknowledged); }
      case SendDeletions(_) => { e, now := PerformSend(store, action, acknowledged); }
      case FinishUploads => { e := PerformFinish(store, action, acknowledged); }
      case Close => { e := PerformClose(store, action, acknowledged); }
    }
  }

  /** Power comes back and the book is opened afresh. */
  method PerformRestart(storage: Storage, book: seq<byte>, title: seq<byte>, author: seq<byte>, esp32s3: bool,
                        ghost v: View)
    returns (store: ClippingStore, ghost e: Event)
    requires book != []
    requires v.card == LoadResult(storage.files, book, if esp32s3 then 1024 else 256)
    requires v.journal == JournalIds(Journal(storage.files, book))
    modifies storage
    ensures fresh(store) && fresh(store.index) && store.storage == storage && store.Valid() && e.action == Restart
    ensures store.maxPerBook == if esp32s3 then 1024 else 256
    ensures forall k :: 0 <= k < |store.index.blocks| ==> fresh(store.index.blocks[k])
    ensures store.loaded ==> store.bookFilePath == book
    ensures var w := ViewOf(store, book, v.acknowledged);
            w.journal == v.journal && StepOrMishap(v, e, w, Sane(store)) &&
            (Mishap(v, e, w) <==> old(storage.slips) < storage.slips) && (old(Careful(storage)) ==> !Mishap(v, e, w))
    ensures old(storage.slips) <= storage.slips
    ensures old(Careful(storage)) ==> Careful(storage)
  {
    hide LoadResult, JournalIds, Journal, Recoverable, OthersKept, EntriesOf, CanRewrite, CardBytes,
         StoredIds, Unstored;
    storage.Reboot();
    store := new ClippingStore(storage, esp32s3);
    ghost var before, checks := storage.files, storage.checks;
    if Careful(storage) { CarefulSees(storage, book); }
    var ok := store.LoadForBook(book, title, author, true);
    SameRecovered(before, storage.files, book, store.maxPerBook);
    JournalKept(before, storage.files, book);
    e := Event(Restart, ok && !storage.dead, []);
    if ok && !storage.dead && store.missed {
      EmptyContent(store);
    }
  }

  lemma CarefulSees(storage: Storage, book: seq<byte>)
    requires storage.Sighted()
    ensures !ClippingStore.Overlooks(storage.files, storage.checks, book)
  {
  }

  lemma EmptyContent(store: ClippingStore)
    requires store.Valid() && store.Live() && store.clippingSize == 0
    ensures store.Content() == []
  {
  }

  /**
   * Any number of actions on a book, with any call failing or cut anywhere and restarts anywhere: the card, the
   * open book and the journal go through a run of the machine, action by action, up to the first mishap. It is a
   * run to the end exactly if the code never slipped: never installed a torn store, removed a clipping whose id the
   * journal lost, opened a book without seeing its store, or took deletions for sent that were not. It does not
   * slip if no two flushes or closes in a row fail and the checks of loads and of the journal work.
   */
  method Live(storage: Storage, book: seq<byte>, title: seq<byte>, author: seq<byte>, esp32s3: bool,
              actions: seq<Action>)
    returns (ghost views: seq<View>, ghost events: seq<Event>, ghost n: nat)
    requires book != [] && forall a :: a in actions ==> WellFormed(a)
    requires NamesOnly(JournalIds(Journal(storage.files, book)))
    modifies storage
    ensures |views| == |events| + 1 && Tracks(events, actions) && Inv(views[0]) && n <= |events|
    ensures Run(views[..n + 1], events[..n]) && (n < |events| ==> Mishap(views[n], events[n], views[n + 1]))
    ensures n == |events| <==> storage.slips == old(storage.slips)
    ensures Run(views, events) <==> storage.slips == old(storage.slips)
    ensures old(Careful(storage)) ==> storage.slips == old(storage.slips)
    ensures var maxCount := if esp32s3 then 1024 else 256;
            Begins(views[0], LoadResult(old(storage.files), book, maxCount),
                   JournalIds(Journal(old(storage.files), book))) &&
            views[|actions|].card == LoadResult(storage.files, book, maxCount) &&
            views[|actions|].journal == JournalIds(Journal(storage.files, book))
  {
    hide LoadResult, JournalIds, Journal, Step, Inv, NamesOnly, WellFormed, ClippingStore.Content, StepOrMishap,
         Mishap, Careful,
         Sane;
    var store := new ClippingStore(storage, esp32s3);
    ghost var v := ViewOf(store, book, []);
    views, events, n := [v], [], 0;
    StartInv(v);
    StartSane(store);
    for k := 0 to |actions|
      invariant |events| == k && |views| == k + 1 && v == views[k] && NamesOnly(v.journal) && n <= k && Inv(views[0])
      invariant Run(views[..n + 1], events[..n])
      invariant if n == k then Inv(v) && Sane(store) else Mishap(views[n], events[n], views[n + 1])
      invariant old(Careful(storage)) ==> Careful(storage) && n == k
      invariant old(storage.slips) <= storage.slips && (n == k <==> storage.slips == old(storage.slips))
      invariant views[0] == old(View(LoadResult(storage.files, book, if esp32s3 then 1024 else 256), None,
                                     JournalIds(Journal(storage.files, book)), []))
      invariant forall i :: 0 <= i < k ==> events[i].action == actions[i]
      invariant fresh(store) && fresh(store.index) && store.storage == storage && store.Valid()
      invariant store.maxPerBook == if esp32s3 then 1024 else 256
      invariant forall j :: 0 <= j < |store.index.blocks| ==> fresh(store.index.blocks[j])
      invariant store.loaded ==> store.bookFilePath == book
      invariant v == ViewOf(store, book, v.acknowledged)
    {
      if n == k { SaneMeans(store, v); }
      ghost var e, now;
      store, e, now := OneAction(store, book, title, author, esp32s3, actions[k], v);
      ghost var w := ViewOf(store, book, now);
      if n == k {
        StepGrows(views, events, v, e, w, Sane(store));
        n := if Mishap(v, e, w) then k else k + 1;
      } else {
        EarlierKept(views, events, e, w, n);
      }
      views, events, v := views + [w], events + [e], w;
    }
    RunExactly(views, events, n);
  }

  /** A restart, an action on the open book, or nothing when no book is open. */
  method OneAction(store: ClippingStore, book: seq<byte>, title: seq<byte>, author: seq<byte>, esp32s3: bool,
                   action: Action, ghost v: View)
    returns (next: ClippingStore, ghost e: Event, ghost now: seq<seq<byte>>)
    requires book != [] && WellFormed(action) && store.Valid() && store.maxPerBook == (if esp32s3 then 1024 else 256)
    requires (store.loaded ==> store.bookFilePath == book) && v == ViewOf(store, book, v.acknowledged) &&
             NamesOnly(v.journal)
    modifies store, store.storage, store.index, store.index.blocks
    ensures next.storage == store.storage && next.Valid() && next.maxPerBook == store.maxPerBook && e.action == action
    ensures next == store || (fresh(next) && fresh(next.index))
    ensures forall k :: 0 <= k < |next.index.blocks| ==>
              next.index.blocks[k] in old(store.index.blocks) || fresh(next.index.blocks[k])
    ensures next.loaded ==> next.bookFilePath == book
    ensures var w := ViewOf(next, book, now);
            NamesOnly(w.journal) &&
            (old(Sane(store)) && (v.memory.Some? ==> v.card.Some?) ==> StepOrMishap(v, e, w, Sane(next))) &&
            ((v.memory.Some? ==> v.card.Some?) ==>
              (Mishap(v, e, w) <==> old(store.storage.slips) < store.storage.slips) &&
              (old(Careful(store.storage)) ==> !Mishap(v, e, w)))
    ensures old(store.storage.slips) <= store.storage.slips
    ensures old(Careful(store.storage)) ==> Careful(store.storage)
  {
    hide LoadResult, JournalIds, Journal, NamesOnly, WellFormed, ClippingStore.Content, StepOrMishap, Mishap, Careful;
    next, e, now := store, Event(action, false, []), v.acknowledged;
    if action.Restart? {
      next, e := PerformRestart(store.storage, book, title, author, esp32s3, v);
    } else if store.loaded && !store.storage.dead {
      e, now := Perform(store, action, now);
    } else {
      StartSane(store);
      NothingHappens(v, e, Sane(store));
    }
  }

  lemma StartInv(v: View)
    requires NamesOnly(v.journal) && v.memory.None?
    ensures Inv(v) && Run([v][..1], [][..0])
  {
  }

  lemma StartSane(store: ClippingStore)
    requires !store.Live()
    ensures Sane(store)
  {
  }

  lemma SaneMeans(store: ClippingStore, v: View)
    requires store.Valid() && Sane(store) && Inv(v)
    ensures v.memory.Some? ==> v.card.Some?
  {
  }

  lemma NothingHappens(v: View, e: Event, sane: bool)
    requires v.memory.None? && !e.action.Restart? && !e.done && sane
    ensures StepOrMishap(v, e, v, sane) && !Mishap(v, e, v)
  {
    hide CString, Unstored, StoredIds;
  }

  /** A step extends the run and keeps what is invariant; a mishap ends it. */
  lemma StepGrows(views: seq<View>, events: seq<Event>, v: View, e: Event, w: View, sane: bool)
    requires |views| == |events| + 1 && v == views[|events|] && Inv(v) && Run(views[..|events| + 1], events[..|events|])
    requires StepOrMishap(v, e, w, sane)
    ensures var vs, es, n := views + [w], events + [e], |events|;
            if Mishap(v, e, w) then Run(vs[..n + 1], es[..n]) && vs[n] == v && es[n] == e && vs[n + 1] == w
            else Run(vs[..n + 2], es[..n + 1]) && Inv(w) && sane
  {
    hide Step, Inv, Mishap;
    var vs, es, n := views + [w], events + [e], |events|;
    assert vs[..n + 1] == views[..n + 1] == views && es[..n] == events[..n] == events;
    if !Mishap(v, e, w) {
      StepKeepsInv(v, e, w);
      assert vs[..n + 2] == vs && es[..n + 1] == es;
    }
  }

  lemma EarlierKept(views: seq<View>, events: seq<Event>, e: Event, w: View, n: nat)
    requires |views| == |events| + 1 && n < |events| && Run(views[..n + 1], events[..n])
    ensures Run((views + [w])[..n + 1], (events + [e])[..n])
  {
    hide Step;
    assert (views + [w])[..n + 1] == views[..n + 1] && (events + [e])[..n] == events[..n];
  }

  /** A life is a run of the machine exactly when it has no mishap. */
  lemma RunExactly(views: seq<View>, events: seq<Event>, n: nat)
    requires |views| == |events| + 1 && n <= |events| && Run(views[..n + 1], events[..n])
    requires n < |events| ==> Mishap(views[n], events[n], views[n + 1])
    ensures Run(views, events) <==> n == |events|
  {
    hide Step, Mishap;
    if n < |events| {
      MishapIsNoStep(views[n], events[n], views[n + 1]);
    } else {
      assert views[..n + 1] == views && events[..n] == events;
    }
  }

  /**
   * After any number of actions, failures, power cuts and restarts the book is opened again and its deletions
   * are sent. Exactly if the code never slipped, that is a run of the machine. A load then shows what it showed at
   * first or what one of the actions made of the clippings open at the time; and once the sync is done, every id
   * that was stored or journaled at any time is stored, or its deletion was acknowledged, or asked for, by the
   * server.
   */
  method LiveSafely(storage: Storage, book: seq<byte>, title: seq<byte>, author: seq<byte>, esp32s3: bool,
                    actions: seq<Action>, reach: nat)
    returns (ghost views: seq<View>, ghost events: seq<Event>, ghost synced: bool)
    requires book != [] && forall a :: a in actions ==> WellFormed(a)
    requires NamesOnly(JournalIds(Journal(storage.files, book)))
    modifies storage
    ensures |views| == |events| + 1 && Tracks(events, actions + [Restart, SendDeletions(reach)])
    ensures Run(views, events) <==> storage.slips == old(storage.slips)
    ensures old(Careful(storage)) ==> storage.slips == old(storage.slips)
    ensures synced == events[|actions| + 1].done
    ensures var maxCount := if esp32s3 then 1024 else 256;
            var first, last := LoadResult(old(storage.files), book, maxCount),
                LoadResult(storage.files, book, maxCount);
            Begins(views[0], first, JournalIds(Journal(old(storage.files), book))) &&
            (storage.slips == old(storage.slips) ==>
              last == first || exists i: nat :: Performed(views, events, i) && last == Some(events[i].goal))
    ensures var last := LoadResult(storage.files, book, if esp32s3 then 1024 else 256);
            synced && storage.slips == old(storage.slips) ==>
              forall i, id :: 0 <= i <= |actions| && id != [] && Accounted(views[i], id) && Spared(actions, id) ==>
                last.Some? && (id in StoredIds(last.value) || id in views[|actions| + 2].acknowledged)
  {
    hide LoadResult, JournalIds, Journal, Accounted, NamesOnly, WellFormed, Inv, Step, StoredIds, Deletes, Performed,
         Mishap, Careful;
    var all := actions + [Restart, SendDeletions(reach)];
    assert forall a :: a in all ==> a in actions || a == Restart || a == SendDeletions(reach);
    WellFormedOwn(reach);
    ghost var n;
    views, events, n := Live(storage, book, title, author, esp32s3, all);
    synced := events[|actions| + 1].done;
    if n == |events| { RunLoadsOneVersion(views, events); }
    if synced && n == |events| {
      forall i, id | 0 <= i <= |actions| && id != [] && Accounted(views[i], id) && Spared(actions, id)
        ensures views[|all|].card.Some? &&
                (id in StoredIds(views[|all|].card.value) || id in views[|all|].acknowledged) {
        ServerAsksOnce(actions, events, reach, id);
        NoDeletionLost(views, events, i, id);
        DoneIsOnCard(views[|actions| + 1], events[|actions| + 1], views[|actions| + 2]);
      }
    }
  }

  /** The server never asks for the id's clipping to go. */
  predicate Spared(actions: seq<Action>, id: seq<byte>)
  {
    forall a :: a in actions ==> !Deletes(a, id)
  }

  /** The events are those of the actions. */
  predicate Tracks(events: seq<Event>, actions: seq<Action>)
  {
    |events| == |actions| && forall i :: 0 <= i < |actions| ==> events[i].action == actions[i]
  }

  /** The book is closed, and nothing has been sent. */
  predicate Begins(v: View, card: Option<seq<Entry>>, journal: seq<seq<byte>>)
  {
    v == View(card, None, journal, [])
  }

  lemma WellFormedOwn(reach: nat)
    ensures WellFormed(Restart) && WellFormed(SendDeletions(reach))
  {
  }

  lemma DoneIsOnCard(v: View, e: Event, w: View)
    requires Step(v, e, w) && e.action.SendDeletions? && e.done
    ensures w.card.Some?
  {
  }

  lemma ServerAsksOnce(actions: seq<Action>, events: seq<Event>, reach: nat, id: seq<byte>)
    requires Tracks(events, actions + [Restart, SendDeletions(reach)])
    requires Spared(actions, id)
    ensures forall k :: 0 <= k < |events| ==> !Deletes(events[k].action, id)
  {
    hide CString;
    forall k | 0 <= k < |events| ensures !Deletes(events[k].action, id) {
      if k < |actions| { assert actions[k] in actions; }
    }
  }

  /**
   * Adding a clipping with failures and a power cut anywhere, then power back and a fresh load: unless the
   * temporary file was closed in vain or the load takes the store for missing, the book shows what the card showed
   * before or its clippings with the new one, and those if adding was reported as done.
   */
  method AddCutReload(store: ClippingStore, sel: Selection, title: seq<byte>, now: int, text: seq<byte>)
    returns (added: AddResult, ok: bool, again: ClippingStore)
    requires store.Valid() && store.Live()
    modifies store, store.storage, store.index, store.index.blocks
    ensures again.Valid() && again.storage == store.storage
    ensures ok && again.Live() && !again.missed &&
            old(store.Keeps(store.Content() + [Entry(NewRecord(sel, title, now), text)], store.storage.syncs)) ==>
              var before := LoadResult(old(store.storage.files), old(store.bookFilePath), store.maxPerBook);
              var after := old(store.Content()) + [Entry(NewRecord(sel, title, now), text)];
              (Some(again.Content()) == before || again.Content() == after) &&
              (added.Added? ==> again.Content() == after)
    ensures !old(store.dirty) && old(store.Sound()) ==>
              LoadResult(old(store.storage.files), old(store.bookFilePath), store.maxPerBook) ==
                  Some(old(store.Content()))
  {
    hide NewRecord, LoadResult, EntriesOf, CardBytes, Survivor, EncodeStore, OthersKept, ClippingStore.Overlooks;
    added := store.AddClipping(sel, title, now, text);
    store.storage.Reboot();
    again := new ClippingStore(store.storage, store.maxPerBook == 1024);
    ok := again.LoadForBook(store.bookFilePath, store.bookTitle, store.bookAuthor, true);
  }
}
