/**
 * The four ways in which a call whose failure the clipping store does not notice makes it lose something, each as a
 * run on any card that shows the clippings it takes. Nothing else fails in these runs, as long as `faults` stays 0;
 * `slips` has counted the mishap then.
 */
module ClippingMishaps {
  import opened Bytes
  import opened Options
  import opened ClippingFormat
  import opened Device
  import opened ClippingDisk
  import opened ClippingStore
  import opened ClippingRuns

  /** A book on a card, with the clippings that a load shows. */
  datatype Case = Case(files: Files, path: seq<byte>, title: seq<byte>, author: seq<byte>, es: seq<Entry>)

  /** The book has a title and an author, and its store, if there is one, is sound. */
  ghost predicate Good(c: Case)
  {
    c.path != [] && c.title != [] && c.author != [] && ValidBook(Book(c.title, c.author, c.path)) &&
    LoadResult(c.files, c.path, 256) == Some(c.es)
  }

  /** The book, opened with the flushes, closes and existence checks to come. */
  method Opened(c: Case, syncs: seq<SyncFate>, checks: seq<bool>)
    returns (storage: Storage, store: ClippingStore, ok: bool)
    requires Good(c)
    ensures fresh(storage) && fresh(store) && fresh(store.index) && store.storage == storage && store.Valid()
    ensures forall k :: 0 <= k < |store.index.blocks| ==> fresh(store.index.blocks[k])
    ensures store.maxPerBook == 256 && storage.syncs == syncs && ok == store.loaded
    ensures ok ==> store.bookFilePath == c.path && ValidBook(store.CurrentBook()) && !store.dirty
    ensures LoadResult(storage.files, c.path, 256) == Some(c.es) &&
            Journal(storage.files, c.path) == Journal(c.files, c.path)
    ensures checks == [] && storage.faults == 0 ==>
              ok && store.Live() && store.Sound() && store.Content() == c.es
    ensures Name(c.path, Main) in c.files && |checks| >= 2 && checks[0] ==>
              storage.checks == checks[2..] && !storage.dead &&
              (storage.faults == 0 ==> ok) &&
              (checks[1] && ok ==> store.Content() == c.es) &&
              (!checks[1] && ok ==>
                store.Content() == [] && CardBytes(storage.files, c.path) == store.whole &&
                store.missed == (c.es != []))
    ensures storage.slips == if ok && store.missed then 1 else 0
  {
    hide LoadResult, EntriesOf, CanRewrite, OthersKept, Journal, Recoverable;
    storage := new Storage(c.files, syncs, checks);
    store := new ClippingStore(storage, false);
    ok := store.LoadForBook(c.path, c.title, c.author, true);
    SameRecovered(c.files, storage.files, c.path, 256);
    JournalKept(c.files, storage.files, c.path);
    if ok && store.Live() && store.clippingSize == 0 {
      EmptyContent(store);
    }
  }

  lemma StoresAreNotEmpty(book: Book, es: seq<Entry>)
    ensures |EncodeStore(VERSION, book, es)| > 0
  {
  }

  /**
   * A clipping is added, and flush and close of the temporary file fail without a byte of it being on the card. The
   * clipping is reported as added; the next load shows neither the old clippings nor the new ones, but a damaged store.
   */
  method TornStore(c: Case, sel: Selection, chapter: seq<byte>, now: int, text: seq<byte>)
    returns (storage: Storage, ok: bool, added: AddResult)
    requires Good(c) && |c.es| < 256 && |text| <= TEXT_MAX
    ensures storage.faults == 0 ==>
              ok && added.Added? && LoadResult(storage.files, c.path, 256) == None && 0 < storage.slips
  {
    hide LoadResult, EntriesOf, CanRewrite, NewRecord, Survivor, EncodeStore, CardBytes;
    var store;
    storage, store, ok := Opened(c, [Lost(0), Lost(0)], []);
    added := LimitReached;
    if ok {
      ghost var goal := c.es + [Entry(NewRecord(sel, chapter, now), text)];
      store.KeepsExactly(goal, storage.syncs);
      StoresAreNotEmpty(store.CurrentBook(), goal);
      added := store.AddClipping(sel, chapter, now, text);
    }
  }

  /**
   * A clipping is removed, and flush and close of the deletion journal fail. The removal is reported as done, and
   * neither the card nor the journal has its id, so that the server never hears of it.
   */
  method LostId(c: Case, at: nat) returns (storage: Storage, ok: bool, removed: bool)
    requires Good(c) && at < |c.es| && CString(c.es[at].rec.id) != []
    ensures storage.faults == 0 ==>
              ok && removed && LoadResult(storage.files, c.path, 256) == Some(Without(c.es, at)) &&
              JournalIds(Journal(storage.files, c.path)) == JournalIds(Journal(c.files, c.path)) && 0 < storage.slips
  {
    hide LoadResult, EntriesOf, CanRewrite, Survivor, EncodeStore, CardBytes, JournalIds, Journal, CString, Without;
    var store;
    storage, store, ok := Opened(c, [Lost(0), Lost(0)], []);
    removed := false;
    if ok && !storage.dead {
      store.LosslessKeeps(Without(c.es, at), []);
      removed := store.RemoveClippingAt(at);
    }
  }

  /**
   * The check of a store that is there fails once, as the book is opened; the next clipping is added, and its store
   * takes the place of the old one. All clippings of the book are gone, without a word to the server.
   */
  method OverlookedStore(c: Case, sel: Selection, chapter: seq<byte>, now: int, text: seq<byte>)
    returns (storage: Storage, ok: bool, added: AddResult)
    requires Good(c) && Name(c.path, Main) in c.files && |text| <= TEXT_MAX
    ensures storage.faults == 0 ==>
              ok && added.Added? &&
              LoadResult(storage.files, c.path, 256) == Some([Entry(NewRecord(sel, chapter, now), text)]) &&
              JournalIds(Journal(storage.files, c.path)) == JournalIds(Journal(c.files, c.path)) &&
              (c.es != [] ==> 0 < storage.slips)
  {
    hide LoadResult, EntriesOf, CanRewrite, NewRecord, Survivor, EncodeStore, CardBytes, JournalIds, Journal,
         OthersKept;
    var store;
    storage, store, ok := Opened(c, [], [true, false]);
    added := LimitReached;
    if ok {
      ghost var goal := [Entry(NewRecord(sel, chapter, now), text)];
      assert [] + goal == goal;
      store.LosslessKeeps(goal, []);
      ghost var before := storage.files;
      added := store.AddClipping(sel, chapter, now, text);
      JournalKept(before, storage.files, c.path);
    }
  }

  /** The check of the journal fails as deletions are to be sent: none is, and the journal is forgotten. */
  method ForgottenDeletions(c: Case, reach: nat)
    returns (storage: Storage, ok: bool, done: bool, reported: seq<seq<byte>>)
    requires Good(c) && Name(c.path, Main) in c.files && NamesOnly(JournalIds(Journal(c.files, c.path)))
    requires Unstored(JournalIds(Journal(c.files, c.path)), StoredIds(c.es)) != []
    ensures storage.faults == 0 ==>
              ok && done && reported == [] && JournalIds(Journal(storage.files, c.path)) == [] &&
              LoadResult(storage.files, c.path, 256) == Some(c.es) && 0 < storage.slips
  {
    hide LoadResult, EntriesOf, CanRewrite, CardBytes, JournalIds, Journal, NamesOnly, Unstored, StoredIds;
    var store;
    storage, store, ok := Opened(c, [], [true, true, false]);
    done, reported := false, [];
    if ok {
      done, reported := SendAll(store, reach);
    }
  }
}
