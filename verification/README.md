# Models of the reader firmware's stores, caches and tables

A Dafny project that models the parts of the e-reader firmware that keep state across power cuts, memory
shortage and concurrent tasks, or that compute tables and pixels other code relies on, and proves what they
promise. Seven components are modelled:

- **Clippings** (`Bytes`, `ClippingFormat`, `ClippingLayout`, `ClippingTitle`, `Device`, `ClippingIndex`,
  `ClippingDisk`, `ClippingStore`, `ClippingRuns`, `ClippingMishaps`, `BookMove`): the clipping store of a book, its rewrite through a temporary and a
  backup file, its journal of deletions, and moving a book or folder with all its sidecar files. The card is a map
  from names to bytes; every call may fail, and power may be cut during any call. A cut is recorded in a flag that
  makes every later call a no-op, so that a postcondition about the card speaks of every state a cut could leave. How
  flushes and closes, and the existence checks of loads and of the journal, fare is decided by two lists beforehand, so
  that runs in which one fails can be named. `ClippingRuns` shows that any life of a book, with many actions on one load, syncs, failures and restarts,
  refines a small machine of what the card shows, what memory shows, the journal and the deletions the server has
  acknowledged, exactly as long as the code does not go on after such a failure in one of the four ways that lose something. A
  counter records these where they happen: a torn store takes the place of the old one (`ClippingStore.WriteToFile`), a
  clipping is removed whose id the journal lost (`RemoveClippingAt`), a load does not see the store (`LoadForBook`), a
  sync takes for sent what was not (`ClippingRuns.SendAll`).
- **Glyph cache** (`FontTables`, `GlyphPacking`, `FontGroups`, `FontImages`, `PageTable`, `FontPrewarm`,
  `FontDecompressor`):
  page slots, the last inflated group and the scratch buffer, with allocation and inflation failing anywhere.
- **Font copy in flash** (`FlashFormat`, `FlashLayout`, `FlashCopy`, `FlashReaders`): the commit protocol on flash that erases to
  0xFF and otherwise only clears bits, and the register-then-check protocol of readers against the copier and a
  firmware update, as single atomic steps in any interleaving.
- **Scaler** (`ImageLayout`, `Sampling`, `BmpScaler`): fit and crop layouts, fixed-point enlarging, box averaging and
  the cache of two source rows.
- **Card fonts** (`FontLru`, `FontManager`, `FontSystem`): sized variants of the reader font with least-recently-used
  eviction, the UI sizes that fill in for the built-in fonts, and the choice of a UI language that can be drawn.
- **Font tables** (`FontLookups`): kerning, ligature and glyph lookups in each encoding.
- **UI strings** (`StringTables`): the deduplicated blobs and offset tables and what reading them gives.

`dafny verify dfyconfig.toml` checks everything. The main results are about all inputs, all failures and whole runs:
`ClippingStore.ClippingStore.WriteToFile` and `ClippingRuns.LiveSafely` (crash atomicity, conservation of deletions),
`BookMove.Card.MoveBook` (all or nothing), `FontDecompressor.FontDecompressor.Serve` (the cache is invisible),
`FlashCopy.Board.Session` and `FlashReaders.ReadersAreExcluded` (flash), `BmpScaler.Convert` (reading order and pixels),
`FontSystem.FontSystem.EnsureLoaded` and `UseVariants` (fonts), `FontLookups.EncodingsKernAlike`,
`StringTables.TableReadsBack`.

What the functions shared by code and contracts mean is stated without them: bytes by positions (`ClippingLayout`,
`FlashLayout`), glyphs by the images a font is made of (`FontImages`), averages of boxes of two values
(`BmpScaler.AveragedOfTwo`), files of a tree by their paths (`BookMove.MovedFollow`), letters by font
(`FontSystem.UiDrawsLetters`), and known values of checksums and escapes.

Some promises do not hold of the code as it stands; each has a lemma for the failing case and the exact condition
under which it holds:

- What flush and close of the new store left of it is not looked at before it takes the place of the old one:
  `ClippingMishaps.TornStore` is a run, `ClippingStore.ClippingStore.WriteStore` with
  `ClippingStore.ClippingStore.KeepsExactly` the condition. The same holds of the deletion journal:
  `ClippingMishaps.LostId`, `ClippingStore.ClippingStore.JournalDeletion`.
- An existence check that fails looks like a missing file: `ClippingMishaps.OverlookedStore` and
  `ClippingMishaps.ForgottenDeletions` are runs, `ClippingStore.ClippingStore.LoadForBook` and
  `ClippingStore.ClippingStore.ReportDeletions` state the conditions; rewriting survives such checks
  (`ClippingStore.ClippingStore.WriteToFile`). `ClippingRuns.Live` puts all four together: a life is a run of the
  machine if and only if the counter did not move, and it does not move as long as of two flushes or closes in a row
  one works and the checks of loads and of the journal do.
- A folder listing that ends early with an error looks like a complete one: `BookMove.LeftBehind` is an input,
  `BookMove.Card.MoveBook` with `BookMove.ShortListing` and `BookMove.ShortRollback` the condition.
- The validity check of the flash copy compares length and style table only: `FlashCopy.StaleCopyPasses` is an input,
  `FlashCopy.MatchIsThisFile` the condition. Its header read is outside the reader protocol:
  `FlashReaders.HeaderReadsAreNotExcluded` shows what it can return, `FlashReaders.HeaderReadsExcludedExactly` when not.
- The recency clock of the font variants wraps after 2^32 uses: `FontLru.WrapEvictsNewest` is a run,
  `FontLru.KeepsMostRecentExactly` the condition.
- A search for a UI family that found none is remembered by list generation and language, though its outcome also
  depends on the reader font: `FontSystem.RememberedTooLong` is an input and a run,
  `FontSystem.FontSystem.MemoWrongExactly` the condition. The comment that the reader family's sizes were already
  tried (src/SdCardFontSystem.cpp:490) is not true of a family without one of the probed scripts
  (src/SdCardFontSystem.cpp:272-298), such as the one of that run (`FontSystem.SampleServes`, with
  `FontSystem.FontSystem.SetupUiFallbacks`).
- String offsets count the bytes of the text, while a backslash escape in it compiles to fewer, and a backslash at
  the end takes the NUL away: `StringTables.EscapeShiftsOffsets` and `StringTables.TrailingBackslash` are inputs,
  `StringTables.TableReadsBack` the condition.

## Model

| member | source | states |
|---|---|---|
| ClippingFormat.WrittenIsReadBack | src/ClippingStore.cpp:434-523 | every valid store of the current version, written and read back, gives the same header, records, text offsets and texts |
| ClippingFormat.LoadOfWritten | src/ClippingStore.cpp:447-522 | a file in any of the versions 1 to 4 loads as its entries upgraded: missing fields get their defaults, version 1 texts are cut to 4096 bytes |
| ClippingFormat.MigrationKeepsEntries | src/ClippingStore.cpp:473-518 | an old file that is loaded, saved in the current version and loaded again shows exactly what the first load showed |
| ClippingFormat.ParseOfEncodedEntry | src/ClippingStore.cpp:463-519 | reading one record back in place gives the record, where its text starts, and where the next record starts |
| ClippingFormat.ParsedStoreValid | src/ClippingStore.cpp:455-522 | whatever bytes are on the card, a load that succeeds yields terminated ids and titles, lengths within the limit and texts inside the file |
| ClippingFormat.LoadedEntriesValid | src/ClippingStore.cpp:434-523 | the entries a load shows can all be stored again |
| ClippingLayout.ReadByPositions | src/ClippingStore.cpp:463-519 | by positions, for each of the versions 1 to 4: a record is read if and only if a whole one lies there with a text of an allowed length, and every field is the little-endian value of its own bytes (numbers at 0, 2, .., 14 and 16, layout signature at 20 from version 3 on, sync fields from 24 on in version 4, then title, length and text) |
| ClippingLayout.LoadsByPositions | src/ClippingStore.cpp:434-523 | a file loads as a book and clippings if and only if it holds them by positions: version, 16-bit count, three strings, then record behind record |
| ClippingLayout.LoadShowsPositions | src/ClippingStore.cpp:139-172 | what a load shows of a card is what the store, or its stranded backup, holds by positions, and nothing without either |
| ClippingLayout.WrittenByPositions | src/ClippingStore.cpp:567-626 | what is written is a store of version 4 that holds book and clippings by positions |
| ClippingFormat.TextOfWritten | src/ClippingStore.cpp:612-626 | the text of every record lies at the offset that the rewrite computed for it |
| Bytes.DecodeOfEncodeNumbers | src/ClippingStore.cpp:581-589 | runs of little-endian integers of any widths decode to the values that were encoded |
| ClippingIndex.Index.constructor | src/ClippingStore.h:86-90 | an index without blocks is empty |
| ClippingIndex.Index.Get | src/ClippingStore.h:89-91 | reading through block and slot is reading the i-th record of the flat sequence |
| ClippingIndex.Index.Set | src/ClippingStore.h:89-91 | writing through block and slot changes the i-th record of the flat sequence and no other |
| ClippingIndex.Index.Reserve | src/ClippingStore.cpp:420-432 | growing by blocks keeps every record in place, stays within the limit, and succeeds unless a block cannot be had |
| ClippingDisk.StoreSizeFits | src/ClippingStore.cpp:612-626 | no store of 1024 clippings or fewer can outgrow its 32-bit text offsets |
| ClippingDisk.RelocatedReads | src/ClippingStore.cpp:647-649 | after the offsets are replaced, every record in memory reads its own text from the new file |
| ClippingDisk.AfterRewrite | src/ClippingStore.cpp:647-650 | after a rewrite the records in memory show the planned clippings in the bytes that were written |
| ClippingDisk.RewriteLoads | src/ClippingStore.cpp:633-646 | a rewrite cut anywhere leaves a card from which the next load shows the old or the new clippings, or, if the end of the new store is missing, a damaged one |
| ClippingDisk.TmpIrrelevant | src/ClippingStore.cpp:562-631 | nothing that happens to the temporary file changes what is recovered |
| ClippingStore.ClippingStore.CopyBytes | src/ClippingStore.cpp:49-62 | the chunked copy appends exactly the asked-for bytes of the source, or fails having appended a prefix |
| ClippingStore.ClippingStore.WriteRecord | src/ClippingStore.cpp:580-626 | one record written is its encoding with the replaced or copied text, and its offset is noted |
| ClippingStore.ClippingStore.WriteRecords | src/ClippingStore.cpp:579-627 | the records written one after the other are the encoding of the whole list, each offset where its text starts |
| ClippingStore.ClippingStore.WriteTemp | src/ClippingStore.cpp:562-631 | the temporary file is the encoding of the planned clippings, or what flush and close left of it, which the code does not look at; a failed write changes nothing else |
| ClippingStore.ClippingStore.FlushAndClose | src/ClippingStore.cpp:629-630 | what is left is everything if the flush or the close works, else the safe bytes and as many more as the close keeps |
| ClippingStore.ClippingStore.Commit | src/ClippingStore.cpp:633-646 | from a finished temporary file, the two renames and the clean-up leave the old or the new bytes recoverable at every cut, and the new ones on success |
| ClippingStore.ClippingStore.RecoverBackup | src/ClippingStore.cpp:157-161 | bringing back a stranded backup never changes what a load recovers, and brings it back exactly if the check for it works; unless a call fails, it fails exactly when a check misses a store beside which there is a backup |
| ClippingStore.ClippingStore.Prepare | src/ClippingStore.cpp:543-551 | clearing left-overs of earlier crashes never changes what a load recovers, whatever the existence checks answer |
| ClippingStore.ClippingStore.Rewrite | src/ClippingStore.cpp:553-646 | temporary file and commit together, with the two existence checks of the store answering independently: old bytes, or what is left of the new ones, recoverable, and the latter on success |
| ClippingStore.ClippingStore.WriteToFile | src/ClippingStore.cpp:525-651 | crash atomicity: from any earlier crash state, with any call failing, existence checks included, or power cut anywhere, the card recovers exactly the old bytes or exactly what flush and close left of the planned ones, which is all of them if either worked; on success memory points into the new store; on failure memory is as before; a slip is counted exactly when less than all was left and took the place of the store |
| ClippingStore.ClippingStore.WriteStore | src/ClippingStore.cpp:525-651 | the same as a load shows it: on success the old clippings or the new ones if and only if nothing was lost at the last flush and close before the first rename, else a damaged store |
| ClippingStore.ClippingStore.KeepsExactly | src/ClippingStore.cpp:629-630 | nothing is lost if and only if the flush works, the close works, or the failing close keeps all bytes |
| ClippingFormat.TornStoreDamaged | src/ClippingStore.cpp:434-523 | a store of which any part is missing at the end does not load, so it is never taken for other clippings |
| ClippingStore.ClippingStore.Relocate | src/ClippingStore.cpp:647-649 | every record gets the offset of its own text |
| ClippingStore.ClippingStore.ReadString | src/ClippingStore.cpp:448-450 | the streamed length-prefixed read agrees with the parser on every file |
| ClippingStore.ClippingStore.ReadHeader | src/ClippingStore.cpp:447-453 | the streamed header read agrees with the parser on every file |
| ClippingStore.ClippingStore.ReadClip | src/ClippingStore.cpp:464-519 | the streamed record read agrees with the parser on every file and version |
| ClippingStore.ClippingStore.ReadClips | src/ClippingStore.cpp:462-520 | the streamed loop fills the index with exactly the parsed records |
| ClippingStore.ClippingStore.ReadFromFile | src/ClippingStore.cpp:434-523 | reading succeeds exactly on the files the parser accepts, unless a call fails, and yields its records |
| ClippingStore.ClippingStore.Fill | src/ClippingStore.cpp:166-171 | after reading the index shows all records of the file or is empty and unloaded |
| ClippingStore.ClippingStore.LoadForBook | src/ClippingStore.cpp:139-172 | a load shows exactly what the card recovers and never changes it, but shows nothing if and only if an existence check answers no of a store, or of a stranded backup, that is there; unless a call fails, a book whose store is not damaged is loaded, except when the first check misses a store beside which there is a backup; the book then shows what the store holds by positions (ClippingLayout) |
| ClippingStore.ClippingStore.OpenStore | src/ClippingStore.cpp:157-172 | which of the two or three checks has to fail for that |
| ClippingStore.ClippingStore.SaveToFile | src/ClippingStore.cpp:316-324 | saving keeps the content, and the card shows the old clippings or what was left of the saved ones at every cut |
| ClippingStore.ClippingStore.ReadClippingText | src/ClippingStore.cpp:287-314 | the text read for record i is text i of the content, and is found whenever the store file is there |
| ClippingStore.ClippingStore.CloseGap | src/ClippingStore.cpp:248-248 | the downward shift over the blocks removes one record of the flat sequence |
| ClippingStore.ClippingStore.OpenGap | src/ClippingStore.cpp:252-252 | the upward shift over the blocks opens the slot again |
| ClippingStore.GapRestored | src/ClippingStore.cpp:247-254 | shift, un-shift and putting the record back restore the slots exactly |
| ClippingStore.ClippingStore.Append | src/ClippingStore.cpp:219-226 | a record added and saved is behind the others in memory and, as far as flush and close kept it, on the card, even if power goes right after; a failed save leaves everything as it was |
| ClippingStore.ClippingStore.AddClipping | src/ClippingStore.cpp:186-228 | add refines appending one (record, text) pair, with every number of the selection under its own name; a failed add leaves the sequence as it was; the card shows old or new at every cut and new once Added is returned, or a damaged store if flush and close lost something |
| ClippingStore.NewRecord | src/ClippingStore.cpp:202-217 | the record built from a selection is storable: page count at least 1, no clock before 2020, title cut at a character boundary and terminated |
| ClippingStore.NewRecordFields | src/ClippingStore.cpp:202-217 | every number of the selection is in the record under its own name; at least one page, a time only from 2020 on, revision 0, pending, no id |
| ClippingTitle.KeepsWholeCharacters | lib/Utf8/Utf8.cpp:190-208 | of a title in UTF-8 the field keeps the longest prefix of whole characters that fits into 47 bytes |
| ClippingStore.BoundedTitle | src/ClippingStore.cpp:42-47 | the title field holds a terminated prefix of the title |
| ClippingStore.ClippingStore.Extract | src/ClippingStore.cpp:247-249 | taking a record out leaves the others in order |
| ClippingStore.ClippingStore.Reinsert | src/ClippingStore.cpp:252-254 | putting it back restores the slots as they were |
| ClippingStore.ClippingStore.Drop | src/ClippingStore.cpp:247-258 | remove refines deleting one pair; a failed save puts the record back |
| ClippingStore.ClippingStore.Replace | src/ClippingStore.cpp:404-417 | replace refines overwriting one pair; a failed save puts the old record back |
| ClippingStore.ClippingStore.TruncateDeletionTail | src/ClippingStore.cpp:26-35 | cutting a torn tail keeps every whole id of the journal |
| ClippingStore.ClippingStore.JournalDeletion | src/ClippingStore.cpp:233-245 | a torn append adds nothing or the whole id; success means the id is in if and only if the flush or the close works, or the close keeps it |
| ClippingStore.ClippingStore.JournalRemoval | src/ClippingStore.cpp:232-246 | journaling before a removal changes neither content nor what a load shows |
| ClippingStore.ClippingStore.RemoveClippingAt | src/ClippingStore.cpp:230-259 | at every cut the card shows the clippings with the removed one or what the rewrite left of those without it, and, if the journal keeps what it was given, without it only after its id was journaled; a failed removal leaves the sequence, and with power on the card, as they were |
| ClippingStore.ClippingStore.FindId | src/ClippingStore.cpp:388-388 | the search finds the first record with the id, or none |
| ClippingStore.ClippingStore.ApplyRemote | src/ClippingStore.cpp:385-418 | refines insert, replace or delete by id on the sequence, with the unchanged-revision and unknown-deletion cases, said of the first clipping with the id or of none; a failure leaves the sequence as it was; the card shows old or new |
| ClippingDisk.RemoteMeans | src/ClippingStore.cpp:387-414 | of the clippings with the id the first one goes, gives way to what was sent if its revision differs or it is pending, or stays; without one the new clipping comes last |
| ClippingStore.ClippingStore.NameClippings | src/ClippingStore.cpp:327-339 | every record without an id gets one, all else stays |
| ClippingStore.ClippingStore.RandomId | src/ClippingStore.cpp:330-337 | an id is 32 hexadecimal digits and a terminator |
| ClippingStore.ClippingStore.PrepareSync | src/ClippingStore.cpp:326-341 | refines naming every clipping; the card shows the clippings before or after |
| ClippingStore.ClippingStore.MarkUploaded | src/ClippingStore.cpp:344-349 | every pending mark is cleared, all else stays |
| ClippingStore.ClippingStore.FinishUploads | src/ClippingStore.cpp:343-351 | refines clearing the pending marks; the card shows the clippings before or after |
| ClippingDisk.UploadedOnly | src/ClippingStore.cpp:343-351 | uploading clears the pending mark of every clipping and nothing else |
| ClippingStore.ClippingStore.Unload | src/ClippingStore.cpp:174-184 | unsaved changes are saved as far as that works, then the book is forgotten |
| ClippingStore.ClippingStore.NextDeletion | src/ClippingStore.cpp:353-376 | the next reported id is the first at or behind the offset that no stored clipping carries; an empty id means none is left, or that the check for the journal failed; the journal keeps its whole ids |
| ClippingStore.ClippingStore.ScanJournal | src/ClippingStore.cpp:363-375 | the scan stops behind the first id that is not stored |
| ClippingStore.ClippingStore.ReportDeletions | src/clippings/ClippingSync.cpp:167-179 | iterating from offset 0 terminates; what was acknowledged when it stops is a prefix of the journaled ids absent from the store, and all of them when it is done, unless the check for the journal failed right after these |
| ClippingStore.ClippingStore.FinishDeletions | src/ClippingStore.cpp:378-383 | the journal is forgotten, or untouched if that or the check for it fails; the clippings stay |
| ClippingDisk.UnstoredExactly | src/ClippingStore.cpp:363-373 | the ids reported are those journaled and not stored, no more and no fewer |
| ClippingDisk.JournalAppend | src/ClippingStore.cpp:238-244 | a torn tail behind whole ids adds no id, a whole one adds that id |
| ClippingDisk.JournalTail | src/ClippingStore.cpp:26-35 | the whole ids do not depend on the torn tail |
| ClippingRuns.RunLoadsOneVersion | src/ClippingStore.cpp:186-651 | over any run of actions on one or many loads the card shows the first content or exactly what one of the actions made of the clippings open at that time, never a mix |
| ClippingRuns.RunNeverDamages | src/ClippingStore.cpp:525-651 | a store that loads before a run loads after it |
| ClippingRuns.DoneStays | src/ClippingStore.cpp:186-418 | what an action reported as done is on the card after any restarts, and a load shows it |
| ClippingRuns.AddCutReload | src/ClippingStore.cpp:186-228 | add, power cut, reboot, load, from a store with or without unsaved marks: unless flush and close lose something or the load overlooks the store, the book shows what the card showed or its clippings with the new one, and the latter if the add was reported |
| ClippingRuns.Perform | src/ClippingStore.cpp:174-418 | one action on the open book, whatever it holds that is not saved, with failures, unnoticed ones included, and a cut anywhere, is a step of the machine or one of four mishaps, and a mishap if and only if the counter of slips moved; it is a step if of two flushes or closes in a row one works and the checks of loads and of the journal do |
| ClippingRuns.PerformSend | src/clippings/ClippingSync.cpp:165-180 | the first half of a sync: ids are named and saved, the deletions sent are journaled ids that no clipping carries, in order, and the journal is forgotten only when all were acknowledged, or there is a mishap, which is counted |
| ClippingRuns.SendAll | src/clippings/ClippingSync.cpp:167-180 | what is acknowledged is a prefix of what is to be sent, and a slip is counted exactly when it is not all of it and the sync goes on as done or the journal is gone |
| ClippingRuns.MishapIsNoStep | src/ClippingStore.cpp:139-651 | each of the mishaps, a damaged store, a removal not journaled, a store overlooked, deletions forgotten unsent, breaks the machine |
| ClippingRuns.Live | src/ClippingStore.cpp:139-418 | any number of actions on each load, restarts, failures and cuts anywhere: card, memory, journal and acknowledged deletions go through a run of the machine, action by action, up to the first mishap, and to the end if and only if the counter of slips did not move; it does not if of two flushes or closes in a row one works and the checks of loads and of the journal do, whatever else fails |
| ClippingRuns.LiveSafely | src/ClippingStore.cpp:139-651 | after any such life, a restart and a sync, all this is a run of the machine if and only if the counter of slips did not move, and then: a load shows the first content or what one action made of what was open then; and if the sync is done, every id stored or journaled at any time is stored, or its deletion was acknowledged, or asked for, by the server |
| ClippingMishaps.TornStore | src/ClippingStore.cpp:629-646 | the run, on any card: a clipping is added, flush and close fail, the clipping is reported as added, and the next load shows neither the old clippings nor the new ones |
| ClippingMishaps.LostId | src/ClippingStore.cpp:233-259 | the run, on any card: a clipping is removed, flush and close of the journal fail, and its id is neither stored nor journaled |
| ClippingMishaps.OverlookedStore | src/ClippingStore.cpp:162-165 | the run, on any card with a store: one check of it fails at the load, the next clipping is added, and all others are gone |
| ClippingMishaps.ForgottenDeletions | src/clippings/ClippingSync.cpp:168-180 | the run: the check for the journal fails as deletions are sent, and a journal with deletions to send is forgotten unsent |
| ClippingRuns.StepKeepsInv | src/ClippingStore.cpp:230-383 | the journal holds only ids that name something, and the open book carries every id that the card does, unsaved or not |
| ClippingRuns.StepKeepsAccount | src/ClippingStore.cpp:230-383 | no action loses an id that is stored, journaled or acknowledged, except one that the server deletes |
| ClippingRuns.RunKeepsAccount | src/ClippingStore.cpp:230-383 | the same over any run, from any point on |
| ClippingRuns.NoDeletionLost | src/clippings/ClippingSync.cpp:165-180 | conservation: after a sync that is done, every id that was stored or journaled at any earlier point is stored or acknowledged as deleted, unless the server deleted it |
| ClippingRuns.OnlyDeletedAreSent | src/clippings/ClippingSync.cpp:168-178 | no deletion is sent of an id that the card stores, or that was not journaled |
| ClippingRuns.JournalOnlyGrows | src/ClippingStore.cpp:230-259 | between syncs the journal only grows, and only by ids that name something |
| BookMove.MovesSeparate | src/ClippingStore.cpp:66-134 | all sidecar moves of all files of a tree have distinct sources and targets |
| BookMove.ListedFiles | src/ClippingStore.cpp:109-114 | whatever listings end early, a walk meets only files of the tree |
| BookMove.ShortListing | src/ClippingStore.cpp:109-114 | a move leaves no sidecar behind if and only if it came to every sidecar that exists, each with a free target |
| BookMove.ShortRollback | src/ClippingStore.cpp:109-114 | a rolled-back move leaves everything as it was if and only if the rollback came to all that was moved, and to no sidecar that was at its new place only |
| BookMove.Card.MoveStoreFiles | src/ClippingStore.cpp:66-88 | check, move and rollback of one file's five sidecars, and exactly which of them was come to when one stops |
| BookMove.Card.MoveStores | src/ClippingStore.cpp:685-691 | check, move and rollback, each over what its listings and existence checks show it: what each came to, and what they leave |
| BookMove.Card.MoveTreeStores | src/ClippingStore.cpp:98-134 | the walk with its explicit stack visits every file listed to it once in listing order, the stack never exceeds 32 folders, it passes over exactly the sidecars whose check fails, and it stops only at a failing call, a deep folder, a bad name or a blocked sidecar |
| BookMove.Card.RunPhase | src/ClippingStore.cpp:682-684 | one phase over a file or a folder as listed to it |
| BookMove.Card.MoveBook | src/ClippingStore.cpp:666-691 | all or nothing when listings and existence checks show all: with at most one failing call the book and every sidecar are moved, or the card is exactly as before; with listings that end early and checks that fail anywhere, a success has moved everything if and only if the move came to see every sidecar, and a failure that is not stuck has changed nothing if and only if the rollback came to see all that was moved and no stray |
| BookMove.BooksAreFound | src/ClippingStore.cpp:98-134 | the files that the walk is about are the paths of the tree that end at a file, over names other than . and .. |
| BookMove.WalkableExactly | src/ClippingStore.cpp:108-128 | a tree can be walked if and only if every name that is come to has 1 to 1023 bytes and no folder lies below 32 others |
| BookMove.MovedFollow | src/ClippingStore.cpp:64-88 | moved means that every clipping file of every book of the tree, of each of the five kinds, lies with its bytes at the new place and not at the old one |
| BookMove.FreeIsNotStuck | src/ClippingStore.cpp:72-86 | a tree that can be walked and free places are all that a move without failures needs |
| BookMove.LeftBehind | src/ClippingStore.cpp:109-114 | the input: one book in a folder, a listing that ends at once during the move, and a move reported as done that leaves the clippings behind |
| BookMove.SampleListed | src/ClippingStore.cpp:109-114 | of that input: nothing is in the way of the move, and the walk sees none of it |
| GlyphPacking.PackedPixel | lib/EpdFont/FontDecompressor.cpp:131-144 | packed pixel y * width + x is pixel (x, y) of the padded rows |
| GlyphPacking.WholeBytesArePacked | lib/EpdFont/FontDecompressor.cpp:127-130 | for widths divisible by 4 the padded bytes are the packed bytes, so the plain copy agrees with the bit loop |
| GlyphPacking.CompactSingleGlyph | lib/EpdFont/FontDecompressor.cpp:123-145 | for every width and height exactly ceil(width * height / 4) bytes are written, and they are the packed form |
| GlyphPacking.RepackRows | lib/EpdFont/FontDecompressor.cpp:131-144 | the bit accumulator writes the packed form |
| GlyphPacking.RepackRow | lib/EpdFont/FontDecompressor.cpp:133-143 | one row continues the accumulator where the row before left it |
| GlyphPacking.RepackPixel | lib/EpdFont/FontDecompressor.cpp:135-142 | one pixel goes into the accumulator, and a full byte to its place |
| GlyphPacking.RepackingStep | lib/EpdFont/FontDecompressor.cpp:135-141 | one pixel keeps the accumulator equal to the pixels of the open byte, and a full byte is the packed byte |
| GlyphPacking.PackedOfPrefix | lib/EpdFont/FontDecompressor.cpp:224-224 | only the group's own bytes decide the packed form, whatever lies behind them in a larger buffer |
| FontTables.FindGlyphIndex | lib/EpdFont/FontDecompressor.cpp:231-255 | the closed binary search gives the same glyph as a linear scan, for covered and uncovered codepoints |
| FontTables.UpperBound | lib/EpdFont/EpdFont.cpp:222-226 | halving finds the number of intervals that start at or before the codepoint |
| FontTables.LookUpGlyph | lib/EpdFont/EpdFont.cpp:218-234 | the half-open search gives the same glyph as a linear scan |
| FontGroups.GetGroupIndex | lib/EpdFont/FontDecompressor.cpp:62-76 | the group found is the glyph's group in both grouping schemes |
| FontGroups.GetAlignedOffset | lib/EpdFont/FontDecompressor.cpp:96-121 | the summed offset is the glyph's aligned offset in both grouping schemes |
| FontImages.BitsAreImage | lib/EpdFont/FontDecompressor.cpp:96-121 | in a font whose groups are the padded images of their glyphs one behind the other, mapped or contiguous, the bits taken for a glyph are the packed form of its own image |
| FontImages.BitsShowImage | lib/EpdFont/FontDecompressor.cpp:62-93 | pixel by pixel: bit pair y * width + x of the bits is the pixel in column x and row y of the image, whose rows start with new bytes |
| FontImages.MadeIsWellFormed | lib/EpdFont/EpdFontData.h:144-192 | every font made of images, with tables to match, is one that the decompressor can serve |
| PageTable.InsertEntry | lib/EpdFont/FontDecompressor.cpp:390-396 | one insertion step on the array is insertion into the sorted prefix |
| PageTable.SortByGlyph | lib/EpdFont/FontDecompressor.cpp:388-397 | the array ends sorted and is a permutation of what it was |
| PageTable.DistinctSorted | lib/EpdFont/FontDecompressor.cpp:388-397 | sorted entries of distinct glyphs are strictly sorted |
| PageTable.FindEntry | lib/EpdFont/FontDecompressor.cpp:163-178 | the binary search finds the entry of a glyph exactly when there is one |
| FontPrewarm.CollectTextGlyphs | lib/EpdFont/FontDecompressor.cpp:267-297 | the glyphs collected are distinct, are glyphs of the text, and are all of them below the cap |
| FontPrewarm.AddLigatureGlyphs | lib/EpdFont/FontDecompressor.cpp:299-334 | ligature outputs are added when both inputs are collected, within the cap, without repeats |
| FontPrewarm.CollectGroups | lib/EpdFont/FontDecompressor.cpp:338-362 | the groups of the collected glyphs, once each, all of them when there are at most 128, and the sum of the glyphs' lengths |
| FontPrewarm.FillTable | lib/EpdFont/FontDecompressor.cpp:383-397 | the table holds one unextracted entry per glyph, strictly sorted |
| FontPrewarm.PreScanMapped | lib/EpdFont/FontDecompressor.cpp:403-439 | the running offsets equal the computed aligned offset for every entry of a collected group, in mapped fonts |
| FontPrewarm.PreScanContiguous | lib/EpdFont/FontDecompressor.cpp:440-467 | the same for fonts with contiguous groups |
| FontPrewarm.ExtractEntry | lib/EpdFont/FontDecompressor.cpp:499-502 | an extracted slice is the glyph's packed form, behind all slices before it |
| FontPrewarm.ExtractGroup | lib/EpdFont/FontDecompressor.cpp:493-503 | slices stay disjoint and inside the page buffer, and every entry of the group is extracted |
| FontDecompressor.FontDecompressor.GetBitmap | lib/EpdFont/FontDecompressor.cpp:149-227 | a bitmap that is returned is, in its first dataLength bytes, the packed form of that glyph from its own inflated group: page slot, hot group and fresh inflation agree; and whatever images the font is made of, it shows that of the glyph, pixel by pixel |
| FontDecompressor.FontDecompressor.FindInPages | lib/EpdFont/FontDecompressor.cpp:158-180 | a page-slot hit shows the glyph's own bits |
| FontDecompressor.FontDecompressor.LoadHotGroup | lib/EpdFont/FontDecompressor.cpp:190-214 | the hot buffer holds the group it is named after, or is named after none |
| FontDecompressor.FontDecompressor.EnsureCapacity | lib/EpdFont/FontDecompressor.cpp:52-60 | grow-only buffers: enough capacity or none |
| FontDecompressor.FontDecompressor.Compact | lib/EpdFont/FontDecompressor.cpp:223-226 | the scratch buffer shows the glyph |
| FontDecompressor.FontDecompressor.ExtractGroups | lib/EpdFont/FontDecompressor.cpp:469-506 | failed groups are skipped, all others are extracted |
| FontDecompressor.FontDecompressor.BuildSlot | lib/EpdFont/FontDecompressor.cpp:383-506 | a new slot is laid out: strictly sorted, slices disjoint, inside the buffer, each with its glyph's bits |
| FontDecompressor.FontDecompressor.PrewarmCache | lib/EpdFont/FontDecompressor.cpp:257-512 | other slots are untouched, a new one is laid out, and without failures, with fewer than 512 glyphs in at most 128 groups, every glyph of the text, and every ligature of two of its codepoints, is prepared |
| FontDecompressor.FontDecompressor.ClearCache | lib/EpdFont/FontDecompressor.cpp:27-50 | nothing is cached afterwards |
| FontDecompressor.FontDecompressor.Serve | lib/EpdFont/FontDecompressor.cpp:147-512 | cache transparency over any run of prewarm, lookup and clear calls with failures anywhere: every bitmap handed out is the glyph's own and shows its image; and if nothing fails, every bitmap with bytes that is asked for is handed out |
| FlashFormat.Crc32Update | lib/EpdFont/SdCardFontCacheFormat.h:32-41 | the byte and bit loops compute the recursively defined CRC-32 |
| FlashFormat.CrcOfChunks | lib/EpdFont/SdCardFontCache.cpp:205-224 | the checksum taken chunk by chunk is the checksum of the whole |
| FlashFormat.DecodeOfEncodeHeader | lib/EpdFont/SdCardFontCacheFormat.h:19-30 | every header read back from its 160 bytes is the header written |
| FlashLayout.HeaderByPositions | lib/EpdFont/SdCardFontCacheFormat.h:19-30 | the fields of the header by positions in its 160 bytes |
| FlashLayout.ValidByPositions | lib/EpdFont/SdCardFontCacheFormat.h:49-55 | which bytes make a valid header of a slot: magic, version, sizes, terminated path, and the CRC-32 of the same bytes with zeros in the place of the checksum |
| FlashLayout.KnownCrc | lib/EpdFont/SdCardFontCacheFormat.h:32-47 | the checksum has the known CRC-32 values of no bytes and of the byte a |
| FlashLayout.KnownFnv | lib/EpdFont/SdCardFontCache.cpp:58-64 | the hash has the known FNV-1a values of no bytes and of the byte a |
| FlashFormat.FnvOfChunks | lib/EpdFont/SdCardFontCache.cpp:82-90 | the content hash taken part by part is the hash of the whole |
| FlashFormat.FnvUpdate | lib/EpdFont/SdCardFontCache.cpp:58-64 | the loop computes FNV-1a |
| FlashFormat.RegularEndIsNearest | lib/EpdFont/SdCardFontCache.cpp:96-111 | the regular style ends where the nearest other style behind it starts, or with the file |
| FlashFormat.IdentityFacts | lib/EpdFont/SdCardFontCache.cpp:92-112 | an identified source has its size, a 32-bit hash and a non-empty regular style inside the file |
| FlashLayout.IdentityByPositions | lib/EpdFont/SdCardFontCache.cpp:66-115 | by positions: which bytes make a file that is identified, and its size, hash and end of the regular style |
| FlashFormat.CPathOfPadded | lib/EpdFont/SdCardFontCache.cpp:248-248 | the path copied into its zero-padded field reads back |
| FlashCopy.WriteOntoErased | lib/hal/HalOtaSlot.cpp:79-82 | writing only clears bits; onto erased cells it stores the bytes themselves |
| FlashCopy.HeaderReadsBack | lib/EpdFont/SdCardFontCache.cpp:240-250 | the header written into an erased sector is the valid header of the slot |
| FlashCopy.HeaderTorn | lib/EpdFont/SdCardFontCache.cpp:201-203 | cut while the header sector is erased, the slot holds the old copy or none |
| FlashCopy.HeaderWriteOutcome | lib/EpdFont/SdCardFontCache.cpp:250-250 | whatever a cut leaves of the header write, a valid header names a copy of this file |
| FlashCopy.EraseFits | lib/EpdFont/SdCardFontCache.cpp:208-210 | in a slot of whole sectors every erase of the loop is aligned and inside the slot |
| FlashCopy.CopyErase | lib/EpdFont/SdCardFontCache.cpp:209-210 | erasing the next block keeps all that was copied and takes back no written byte |
| FlashCopy.CopyWrite | lib/EpdFont/SdCardFontCache.cpp:217-219 | writing the next chunk goes onto erased flash that was never written and extends the copied prefix, exactly so when no cell misprints |
| FlashCopy.Board.IdentifySource | lib/EpdFont/SdCardFontCache.cpp:68-113 | the streamed reads and the two loops compute the identity of the file, or fail |
| FlashCopy.Board.ReadToc | lib/EpdFont/SdCardFontCache.cpp:82-90 | ids, offsets and hash of the style table are those of the file |
| FlashCopy.Board.FindRegularEnd | lib/EpdFont/SdCardFontCache.cpp:96-111 | the loops find the last regular style's start and its end |
| FlashCopy.Board.ReadHeader | lib/EpdFont/SdCardFontCache.cpp:121-125 | the valid header of the slot, or none |
| FlashCopy.Board.IsValidFor | lib/EpdFont/SdCardFontCache.cpp:147-159 | true exactly when the slot's header is one a copy of this file would carry, unless a call fails |
| FlashCopy.Board.CopyBlock | lib/EpdFont/SdCardFontCache.cpp:212-222 | chunk by chunk the prefix grows, and the running checksum is that of the file's prefix |
| FlashCopy.Board.CopyPayload | lib/EpdFont/SdCardFontCache.cpp:205-224 | the payload is the file's prefix unless a cell misprints, the checksum is that of the file's prefix, and any stop leaves no valid header |
| FlashCopy.Board.PayloadCrc | lib/EpdFont/SdCardFontCache.cpp:226-237 | reading back in chunks gives the checksum of the payload |
| FlashCopy.Board.Commit | lib/EpdFont/SdCardFontCache.cpp:240-250 | the header goes last and only behind a payload whose read-back checksum is the file's: afterwards a valid header names a copy of this file |
| FlashCopy.Board.WriteCopy | lib/EpdFont/SdCardFontCache.cpp:193-255 | from header erase to header write, at every cut a valid header belongs to the old copy or this one |
| FlashCopy.Board.Preload | lib/EpdFont/SdCardFontCache.cpp:175-255 | flash commit: at every stop or cut a valid header implies the payload is that prefix of a named file, or, when a write silently misprinted, still has its checksum; operations stay inside the slot, each cell is written at most once after its erase; without failures the answer is determined and a copy that can be made is made |
| FlashCopy.Board.ReadAt | lib/EpdFont/SdCardFontCache.cpp:161-173 | bytes read from a copy are the file's bytes at that offset |
| FlashCopy.Board.Session | lib/EpdFont/SdCardFontCache.cpp:175-255 | over any run of copies, failures and power cuts, a valid header belongs to a copy of one of the files given |
| FlashCopy.MatchIsThisFile | lib/EpdFont/SdCardFontCache.cpp:147-159 | over all slots that may be trusted: a matching header means a copy of this very file if and only if no file copied from the same path has the same length, the same hash of header and style table, and other bytes in what a slot holds |
| FlashCopy.SlotWithCopy | lib/EpdFont/SdCardFontCache.cpp:240-250 | the slot built from a file holds a copy of it, in the size that a copy has |
| FlashLayout.MatchByPositions | lib/EpdFont/SdCardFontCache.cpp:147-156 | which bytes of the slot make a match: a valid header with the path, the size and the hash of the file, and enough payload |
| FlashLayout.CopyByPositions | lib/EpdFont/SdCardFontCacheFormat.h:10-15 | behind the first 4096 bytes a copy holds as much of the file as its header says |
| FlashLayout.VerdictIs | lib/EpdFont/SdCardFontCache.cpp:175-200 | what preload answers when every call succeeds |
| FlashCopy.StaleCopyPasses | lib/EpdFont/SdCardFontCache.cpp:154-156 | the input: two files of one identity that differ in their last byte, and a slot that holds the first and passes for the second |
| FlashCopy.IdentityReadsTheTable | lib/EpdFont/SdCardFontCache.cpp:66-113 | identification depends on nothing but the length and the leading table |
| FlashReaders.StepKeepsInv | lib/EpdFont/SdCardFontCache.cpp:161-200 | every atomic step of readers, preload and update keeps the protocol's invariant |
| FlashReaders.RunKeepsInv | lib/EpdFont/SdCardFontCache.cpp:161-200 | the invariant holds in every reachable state, for any number of readers and updates |
| FlashReaders.ReadersAreExcluded | lib/EpdFont/SdCardFontCache.cpp:161-200 | in every interleaving no reader is in the flash while preload writes or once an update owns the slot; a read that succeeds is a slice of the slot as it stood between two writers |
| FlashReaders.OwnershipLasts | lib/EpdFont/SdCardFontCache.cpp:285-290 | after invalidateUntilReboot returned, no reader is in the flash ever again |
| FlashReaders.WaitCanEnd | lib/EpdFont/SdCardFontCache.cpp:196-196 | from every reachable state the readers alone can bring the counter to zero |
| FlashReaders.HeaderReadsExcludedExactly | lib/EpdFont/SdCardFontCache.cpp:147-156 | over every run: with any number of header checks at once, none is under way together with a writer if and only if none begins while one writes, and no writer begins to write while one is under way |
| FlashReaders.CallsApartIsOrderly | lib/EpdFont/SdCardFontCache.cpp:147-156 | it is enough that no check begins while the slot is marked as being written, and that neither writer takes the slot under a check |
| FlashReaders.HeaderIsWhole | lib/EpdFont/SdCardFontCache.cpp:147-156 | in such runs the header bytes that every check has read are those of the slot as it stood between two writers |
| FlashReaders.HeaderReadsAreNotExcluded | lib/EpdFont/SdCardFontCache.cpp:147-156 | otherwise, for any slot, any bytes written and any place in the header, some run reads the head of the old bytes and the tail of the new ones |
| ImageLayout.LayoutFits | lib/GifSupport/GifImageLayout.h:20-39 | the window lies inside the picture and the drawing inside the target, both non-empty |
| ImageLayout.CalculatedExactly | lib/GifSupport/GifImageLayout.h:20-23 | a layout is calculated if and only if all four sizes are from 1 to 3072 |
| ImageLayout.CropFillsTarget | lib/GifSupport/GifImageLayout.h:25-32 | cropping fills the target from the largest window of the target's shape, centred, to the pixel |
| ImageLayout.FitKeepsAll | lib/GifSupport/GifImageLayout.h:33-37 | fitting keeps the whole picture and is as large as its shape allows, to the pixel |
| ImageLayout.EnlargingWidthEnlargesHeight | lib/GifSupport/GifImageLayout.h:20-39 | a drawing wider than its window is at least as high as its window |
| ImageLayout.CalculatedIsSmall | lib/GifSupport/GifImageLayout.h:20-39 | no size of a calculated layout exceeds 3072 |
| Sampling.UpscaleStep | lib/BmpToBmpConverter/BmpToBmpConverter.cpp:44-46 | neighbouring output positions sample at most one source pixel apart when enlarging |
| Sampling.UpscaleEnd | lib/BmpToBmpConverter/BmpToBmpConverter.cpp:44-46 | the last output position samples the last source pixel |
| Sampling.UpscaleSameSize | lib/BmpToBmpConverter/BmpToBmpConverter.cpp:44-46 | at its own size a picture is sampled at its own pixels |
| Sampling.UpscaleCentres | lib/BmpToBmpConverter/BmpToBmpConverter.cpp:43-46 | output pixel centres map to source pixel centres, to within 1/256 of a pixel |
| Sampling.BlendOfPlane | lib/BmpToBmpConverter/BmpToBmpConverter.cpp:135-137 | four pixels on a plane blend to the plane's value at the weighted position, so no weight is on the wrong side |
| Sampling.BoxesPartition | lib/BmpToBmpConverter/BmpToBmpConverter.cpp:141-149 | when reducing, every source pixel lies in the box of exactly one output pixel |
| Sampling.BoxesFollow | lib/BmpToBmpConverter/BmpToBmpConverter.cpp:141-142 | the next box starts where this one ends, or repeats a single pixel |
| Sampling.BlendBetween | lib/BmpToBmpConverter/BmpToBmpConverter.cpp:135-137 | a bilinear value lies between the extremes of its four pixels, and its terms fit 31 bits |
| Sampling.RowAverageBetween | lib/BmpToBmpConverter/BmpToBmpConverter.cpp:148-152 | a box average lies between the extremes of the box |
| BmpScaler.CalculatedIsReady | lib/BmpToBmpConverter/BmpToBmpConverter.cpp:59-70 | every layout that is calculated meets what the scaler relies on |
| BmpScaler.ArithmeticFits | lib/BmpToBmpConverter/BmpToBmpConverter.cpp:121-155 | for every picture and target accepted, the box products, the fixed-point positions, any part of a box sum and the accumulated rows stay inside 31 bits |
| Sampling.UpscaleBounded | lib/BmpToBmpConverter/BmpToBmpConverter.cpp:44-46 | a sampled position is at most the end of the source |
| BmpScaler.EnlargedBetween | lib/BmpToBmpConverter/BmpToBmpConverter.cpp:122-138 | an enlarged pixel lies between the extremes of the two by two source pixels around it, all inside the window |
| BmpScaler.GradientStays | lib/BmpToBmpConverter/BmpToBmpConverter.cpp:121-138 | a gradient is enlarged to the same gradient, sampled at the aligned centres and rounded down |
| BmpScaler.AveragedBetween | lib/BmpToBmpConverter/BmpToBmpConverter.cpp:140-155 | an averaged pixel lies between the extremes of its box, all inside the window |
| Sampling.AverageOfTwo | lib/BmpToBmpConverter/BmpToBmpConverter.cpp:143-152 | a box of n pixels of which k have value v and the others u averages to (k v + (n - k) u) / n, rounded down |
| Sampling.AverageFollowsPixel | lib/BmpToBmpConverter/BmpToBmpConverter.cpp:143-152 | every pixel of a box counts for its n-th part: changing one changes n times the average by as much, up to rounding |
| BmpScaler.AveragedOfTwo | lib/BmpToBmpConverter/BmpToBmpConverter.cpp:139-155 | the same for output pixels, over the rows and columns of their boxes |
| Sampling.BlendOfOne | lib/BmpToBmpConverter/BmpToBmpConverter.cpp:135-137 | each of the four pixels of a blend counts with its own weights |
| BmpScaler.SourceByFile | lib/BmpToBmpConverter/BmpToBmpConverter.cpp:112-112 | row y of the window lies y rows further down the picture, which a bottom-up file has from its end on |
| BmpScaler.SameSizeUnchanged | lib/BmpToBmpConverter/BmpToBmpConverter.cpp:140-155 | a window drawn at its own size is unchanged |
| BmpScaler.EnlargingAsksInOrder | lib/BmpToBmpConverter/BmpToBmpConverter.cpp:121-129 | an enlarged row reuses one row of the row before and otherwise asks for the next row of the file |
| BmpScaler.BoxAsksInOrder | lib/BmpToBmpConverter/BmpToBmpConverter.cpp:139-146 | a box starts with the next unread row or the row read last |
| BmpScaler.ReadsAll | lib/BmpToBmpConverter/BmpToBmpConverter.cpp:120-176 | after the last output row every row of the window has been read |
| BmpScaler.MissesAreNext | lib/BmpToBmpConverter/BmpToBmpConverter.cpp:108-118 | the rows a cache miss reads are the next rows of the file |
| BmpScaler.Scaler.RowFor | lib/BmpToBmpConverter/BmpToBmpConverter.cpp:108-118 | the pointer returned shows the row asked for; a row still needed is not evicted |
| BmpScaler.Scaler.RowsFor | lib/BmpToBmpConverter/BmpToBmpConverter.cpp:127-129 | both row pointers show the rows asked for at the same time |
| BmpScaler.Scaler.EnlargeRow | lib/BmpToBmpConverter/BmpToBmpConverter.cpp:130-138 | the accumulated row is the bilinear row of the picture |
| BmpScaler.Scaler.AddRow | lib/BmpToBmpConverter/BmpToBmpConverter.cpp:147-154 | one source row adds its box averages |
| BmpScaler.Scaler.Enlarge | lib/BmpToBmpConverter/BmpToBmpConverter.cpp:122-138 | one enlarged row, with the cache and the reading order kept |
| BmpScaler.Scaler.Reduce | lib/BmpToBmpConverter/BmpToBmpConverter.cpp:140-155 | one averaged row, top-down or bottom-up, with the reading order kept |
| BmpScaler.Scaler.Scale | lib/BmpToBmpConverter/BmpToBmpConverter.cpp:120-177 | each row of the window is read exactly once and in file order, and every output row is right; a failed pass has read a prefix |
| BmpScaler.Convert | lib/BmpToBmpConverter/BmpToBmpConverter.cpp:50-178 | layout and pass together, for every size, target, crop or fit, top-down or bottom-up: the rows of the window are read once in file order, and each output row, in the same direction, holds the enlarged or averaged pixels |
| FontLru.HoldsMostRecent | src/SdCardFontSystem.cpp:396-425 | when loads succeed and the clock has not wrapped, the loaded variants are exactly the most recently used ids up to the cap |
| FontLru.WrapEvictsNewest | src/SdCardFontSystem.cpp:400-421 | 2^32 + 1 uses suffice for the 32-bit clock to wrap and the variant used just before to be evicted |
| FontLru.KeepsMostRecentExactly | src/SdCardFontSystem.cpp:396-425 | after n uses the loaded variants are the most recently used ones, whatever the uses, if and only if n is at most 2^32 |
| FontLru.FiveMostRecent | src/SdCardFontSystem.h:156-156 | the most recently used ids are all that were used, or five |
| FontLru.LastUseIsLast | src/SdCardFontSystem.cpp:400-400 | the use that is remembered is the last one |
| FontLru.RecencyOrdered | src/SdCardFontSystem.cpp:414-419 | the recency list is ordered by last use, without repeats |
| FontLru.OldestIsLeastRecent | src/SdCardFontSystem.cpp:415-416 | before the clock wraps the least time of use belongs to the id used longest ago |
| FontManager.FindNearestSize | lib/EpdFont/SdCardFontRegistry.cpp:28-45 | the file chosen is closest in size, ties to the smaller |
| FontManager.FontIdIs | lib/EpdFont/SdCardFontManager.cpp:28-29 | a font id is the hash as a signed 32-bit number, and never 0 |
| FontSystem.VariantHashed | src/SdCardFontSystem.cpp:312-322 | the id of a sized variant is hashed from the four bytes of the reader font's id, low byte first, and the size |
| FontManager.Manager.LoadFile | lib/EpdFont/SdCardFontManager.cpp:32-76 | a loaded font is registered under a new id and owned; a taken id or a failure changes nothing |
| FontManager.Manager.LoadFamilyExtraSize | lib/EpdFont/SdCardFontManager.cpp:142-154 | an exact size is reused, loaded or refused |
| FontManager.Manager.LoadFamilyVariant | lib/EpdFont/SdCardFontManager.cpp:156-160 | a variant is loaded under the id asked for, or nothing changes |
| FontManager.Manager.UnloadFont | lib/EpdFont/SdCardFontManager.cpp:162-170 | one owned font goes from the list and the renderer, the first stays first |
| FontManager.Manager.UnloadAll | lib/EpdFont/SdCardFontManager.cpp:172-184 | all of this manager's fonts and the fallbacks that point at them go, others stay |
| FontManager.Manager.LoadFamily | lib/EpdFont/SdCardFontManager.cpp:104-140 | the family before is dropped, and the nearest size becomes the only font or none is |
| FontSystem.FontSystem.constructor | src/SdCardFontSystem.h:152-172 | the empty system satisfies the invariant |
| FontSystem.FontSystem.LoadCpfontVariant | src/SdCardFontSystem.cpp:396-425 | the invariant is kept: variants distinct, at most five, owned, never the reader font or a UI fallback; a success is a use in the recency list exactly if the font is not resident as reader font or UI size; without failures it succeeds exactly when the font is loaded or can be |
| FontSystem.FontSystem.UseResident | src/SdCardFontSystem.cpp:398-405 | a loaded variant is touched; a resident UI size is used without entering the list |
| FontSystem.FontSystem.EvictOldest | src/SdCardFontSystem.cpp:414-419 | the variant with the least time goes, the reader font stays |
| FontSystem.FontSystem.AdmitVariant | src/SdCardFontSystem.cpp:420-421 | a new variant enters the list exactly when it loads |
| FontSystem.FontSystem.UseVariants | src/SdCardFontSystem.cpp:396-425 | over any run of requests that succeed, exactly the most recently requested ids are loaded, requests for the reader font and UI sizes aside, and those stay |
| FontSystem.FontSystem.UnloadCpfonts | src/SdCardFontSystem.cpp:325-328 | the reader family, its variants and the fallbacks to them go |
| FontSystem.DrawsLetters | src/SdCardFontSystem.cpp:82-90 | the loop decides whether every letter is drawn, Arabic base letters excepted |
| FontSystem.FontSystem.CheckUi | src/SdCardFontSystem.cpp:94-107 | the loop decides whether every UI size draws every letter |
| FontSystem.FontSystem.LoadUiSize | src/SdCardFontSystem.cpp:499-503 | one size of a candidate is registered and checked |
| FontSystem.FontSystem.TryFamily | src/SdCardFontSystem.cpp:496-514 | a candidate that serves at every size becomes the UI family; one that does not leaves nothing behind |
| FontSystem.FontSystem.LoadUiFamily | src/SdCardFontSystem.cpp:487-518 | without failures a family is found exactly when some family other than the reader's serves; otherwise nothing changes |
| FontSystem.FontSystem.UnloadUiFamily | src/SdCardFontSystem.cpp:520-525 | the UI family's fonts and fallbacks go |
| FontSystem.FontSystem.FindUiFonts | src/SdCardFontSystem.cpp:448-467 | the reuse, the remembered search and the search itself |
| FontSystem.FontSystem.ApplyUiLanguage | src/SdCardFontSystem.cpp:427-475 | ends with a language every UI size can draw or with English; keeps the invariant, with uiFamily empty exactly when its manager owns nothing; without failures the outcome is determined by what could draw the language |
| FontSystem.UiDrawsLetters | src/SdCardFontSystem.cpp:82-107 | drawable means: every letter outside U+0600 to U+06FF is in each of the three built-in UI fonts or in the registered font that fills in for it |
| FontSystem.ServesAtSizes | src/SdCardFontSystem.cpp:487-518 | a family that serves is neither a vector font nor the reader's, and has regular files of 8, 10 and 12 points with the letters that the built-in fonts lack |
| FontSystem.HelpsAtSizes | src/SdCardFontSystem.cpp:487-518 | and one with such files under free ids serves |
| FontSystem.SearchAgain | src/SdCardFontSystem.cpp:456-467 | after a search in vain another finds a family if and only if one serves by now that was skipped as the reader's, or had an id that was taken, at the first |
| FontSystem.FontSystem.MemoWrongExactly | src/SdCardFontSystem.cpp:456-467 | the remembered search gives another outcome than a new one if and only if the fonts do not draw the language as they are and a family missed then serves now |
| FontSystem.FontSystem.MemoRight | src/SdCardFontSystem.cpp:456-467 | as long as the reader family is the one of the search, and no id that was taken is free again, the remembered search is right |
| FontSystem.RememberedTooLong | src/SdCardFontSystem.cpp:456-467 | the input and the run: a family of one letter is the reader's, the search skips it, the reader goes back to a built-in font, and the UI stays English though the family would draw the language |
| FontSystem.SampleServes | src/SdCardFontSystem.cpp:490-491 | of that family: it serves unless it is the reader's, and as the reader's it gets no UI sizes |
| FontSystem.FontSystem.SetupUiFallbacks | src/SdCardFontSystem.cpp:256-310 | a reader font without a probed script changes nothing; otherwise, without failures, every installed UI size becomes the fallback of its UI font unless its id was taken, and a size that is not installed changes nothing |
| FontSystem.ScriptsProbed | src/SdCardFontSystem.cpp:278-299 | which letters make a reader font fill in for the UI fonts |
| FontSystem.FontSystem.LoadReaderFamily | src/SdCardFontSystem.cpp:169-254 | the resident family is the wanted one, at the installed size nearest to the wanted size, or the setting was cleared; without failures it is cleared only if there is no such family, no regular file or an id is taken; the firmware's fonts are untouched |
| FontSystem.FontSystem.EnsureLoaded | src/SdCardFontSystem.cpp:164-167 | reader font and UI language together keep the invariant and end with a drawable language or English |
| FontLookups.Find | lib/EpdFont/EpdFont.cpp:91-94 | the lower-bound search finds a key exactly where a plain scan does |
| FontLookups.LookupKernClass | lib/EpdFont/EpdFont.cpp:85-115 | packed entries and split arrays both give the class a scan would |
| FontLookups.SplitSameClasses | lib/EpdFont/EpdFontData.h:193-207 | the split arrays of packed entries classify every codepoint alike |
| FontLookups.ScanRow | lib/EpdFont/EpdFont.cpp:145-155 | stopping early in a sorted row misses nothing |
| FontLookups.SparseSameValues | lib/EpdFont/EpdFontData.h:209-220 | the sparse rows hold the matrix's value for every pair of classes |
| FontLookups.GetKerning | lib/EpdFont/EpdFont.cpp:117-159 | kerning is decided by classes and matrix whatever their encoding |
| FontLookups.NotKerned | lib/Utf8/Utf8.h:50-66 | which codepoints are never kerned |
| FontLookups.KernsByTables | lib/EpdFont/EpdFont.cpp:117-159 | the kerning of two listed codepoints is the value in the row of the left and the column of the right class, counted from 1, and nothing without a class or in scripts that are not kerned |
| FontLookups.UnlistedNotKerned | lib/EpdFont/EpdFont.cpp:86-116 | a pair of which one side is not listed is not kerned |
| FontLookups.EncodingsKernAlike | lib/EpdFont/EpdFontData.h:193-220 | a font kerns every pair alike in the card form and in the built-in form |
| FontLookups.GetLigature | lib/EpdFont/EpdFont.cpp:171-194 | the search finds the pair's ligature, never for shaped Arabic letters |
| FontLookups.LigatureListed | lib/EpdFont/EpdFont.cpp:171-195 | a listed pair of 16-bit codepoints has its ligature, any other none, and shaped Arabic letters have none at all |
| FontLookups.ApplyLigatures | lib/EpdFont/EpdFont.cpp:196-212 | ligatures are formed greedily as long as there is one, and shaped text is never joined |
| FontLookups.KeyNamesPair | lib/EpdFont/EpdFont.cpp:181-181 | a 32-bit key names one pair |
| FontLookups.HasCodepoint | lib/EpdFont/EpdFont.cpp:251-267 | intervals first, then the coverage index |
| FontLookups.GetGlyph | lib/EpdFont/EpdFont.cpp:214-249 | the glyph is the first that exists of the codepoint, its quotation-mark stand-in and the replacement glyph |
| FontLookups.StandIns | lib/EpdFont/EpdFont.cpp:214-249 | a codepoint is drawn with its own glyph, U+02BB without one with that of U+2018, and everything else with that of U+FFFD |
| FontLookups.HadIsDrawn | lib/EpdFont/EpdFont.cpp:236-267 | a codepoint the font says it has is drawn with its own glyph, if the coverage index lists only what can be loaded |
| StringTables.PlainArrives | scripts/gen_i18n.py:317-374 | a string without backslashes, line breaks included, arrives in the firmware byte for byte, with its NUL |
| StringTables.LineArrives | scripts/gen_i18n.py:332-358 | a text of characters, line breaks included, arrives unchanged if and only if every backslash in it is followed by a character that makes no escape of it |
| StringTables.ShortHexArrives | scripts/gen_i18n.py:352-354 | a backslash, an x and one letter of two bytes arrive, as characters are counted and not bytes |
| StringTables.TrailingBackslash | scripts/gen_i18n.py:850-854 | a backslash at the end of a line compiles to a backslash and a zero digit, without a NUL |
| StringTables.EnglishTable | scripts/gen_i18n.py:714-728 | offsets are the summed sizes, below the flag bit, or the table is refused |
| StringTables.LanguageTable | scripts/gen_i18n.py:729-746 | shared strings point at English with bit 15 set, own strings into the own blob without it |
| StringTables.StringAtOffset | scripts/gen_i18n.py:715-720 | reading up to the NUL at an offset gives back the string |
| StringTables.TableReadsBack | scripts/gen_i18n.py:720-720 | a table of any texts without NUL compiles and reads back if and only if every backslash in it is followed by a character that makes no escape of it |
| StringTables.ChangedIsNotRead | scripts/gen_i18n.py:850-854 | the first string that does not arrive is not read back, whatever follows it in the blob |
| StringTables.EscapeShiftsOffsets | scripts/gen_i18n.py:347-349 | a backslash and an n in a text shift every later string by one byte |
| StringTables.EscapesCompile | scripts/gen_i18n.py:347-355 | each escape compiles to the byte it stands for |
| StringTables.Utf8Decodes | scripts/gen_i18n.py:365-368 | the bytes of a character are its UTF-8 form |
| StringTables.LookupFinds | lib/I18n/I18n.cpp:24-28 | every string of every language is found under its offset |
| StringTables.ParseBuiltinLangs | scripts/gen_i18n.py:877-899 | English is always built in, every known code asked for is, an unknown code is an error |
| StringTables.PartsOfList | scripts/gen_i18n.py:885-888 | the parts of a list of codes with commas between them are the codes |
| StringTables.StripsBlanks | scripts/gen_i18n.py:885-888 | blanks at both ends of a code go, and only these |
| StringTables.RequestedOf | scripts/gen_i18n.py:885-888 | the codes asked for are the parts that are not blank, stripped and in capital letters |
| StringTables.EveryBuildShows | scripts/gen_i18n.py:549-560 | whatever is built in, every lookup finds the language's string, or the English one for a language left out |

## Left out

- ClippingStore.ClippingStore.ApplyRemote: is given the record and the text, and the clipping is the one that its one caller builds of them, with the length of the text (src/clippings/ClippingSync.cpp:129, 211); clippings with another length in them, which a rewrite would not correct in memory (src/ClippingStore.cpp:601-603, 647-649), are not modelled.
- ClippingStore.ClippingStore.WriteToFile: the one long function is split into preparation, temporary file, commit and relocation; the several small writes of a record are one append of which any prefix may remain; a file closed in vain keeps a prefix of what was written; making the two directories (src/ClippingStore.cpp:538-539) is omitted.
- BookMove.Card.MoveBook: the promise for failures is one for at most one failing call per move, listings that end early apart; power cuts during a move are not covered, since the rollback covers calls only.
- BookMove.MovesSeparate: distinct paths are taken to have distinct store names; the hash that names the files (src/ClippingStore.cpp:37-40) is not modelled.
- FontDecompressor.FontDecompressor.PrewarmCache: its number is not a count of glyphs (failed groups are counted, skipped groups are not); the number is promised only when nothing fails.
- FontDecompressor.FontDecompressor.GetBitmap: DEFLATE is a fixed inflated content per group, as part of the font; fonts are compared by value rather than by address.
- FlashCopy.Board.Preload: a torn header is taken to be told from a whole one by its checksum; waiting for readers is the subject of FlashReaders; whether the slot may be written is a parameter; erases are taken to be complete when they report success, while writes may misprint; progress callbacks are omitted.
- FlashReaders.ReadersAreExcluded: one copier at a time; an update that starts while a copy is being written is not kept apart from it, as the code checks for an update only at the start of a copy. isValidFor is outside the protocol.
- FlashCopy.HeaderWriteOutcome: collisions of the header checksum on torn headers are outside the model.
- BmpScaler.Scaler.Scale: rows enter as gray values (the conversion of the pixel formats in Bitmap is not part of this model) and leave before dithering; the Atkinson ditherers and the output header are omitted. Storage of 32-bit accumulators is unbounded integers, with the bounds stated by Sampling.BlendBetween, BmpScaler.AveragedBetween and BmpScaler.ArithmeticFits.
- FontSystem.FontSystem.LoadReaderFamily: vector fonts, the flash copy as a read source, and snapping the saved point size are omitted.
- FontSystem.FontSystem.UseVariants: choosing a size from a scale in floating point (src/SdCardFontSystem.cpp:330-370) is omitted; heap checks are nondeterministic failures.
- FontManager.Manager.LoadFile: one regular face stands for the styles of a font, and what it draws is a set of codepoints.
- FontLookups.GetKerning: the kerning handler of vector fonts is omitted.
- StringTables.ParseBuiltinLangs: upper-casing and stripping are those of ASCII text.
- ClippingRuns.PerformSend: the network is the number of requests that are answered; uploading the texts and parsing what the server sends (src/clippings/ClippingSync.cpp:182-211) are omitted, each clipping it sends being an action of its own.
- FontSystem.FontSystem.MemoWrongExactly: the families of the search stand for the list generation, which the registry raises whenever it reads the list anew.
- FlashReaders.HeaderIsWhole: the header is read byte by byte; that its checksum would tell a mixture from a header is not used.
- StringTables.LineArrives: characters are those that a source line may hold; line wrapping of long literals is omitted; its forced break without a space can cut inside an escape (scripts/gen_i18n.py:418-426).
- A rename, a removal and the creation of a file are taken to be atomic and, once reported, to last. Existence checks may answer no of a file that is there, but not yes of one that is not. The check of the new place of a move (src/ClippingStore.cpp:668) is taken to be reliable.
- Previews, readable layouts, deleting a book's sidecars, and word searches in clippings: easy members.
- Logging, statistics, timing and yielding: no effect on the properties.
- Random ids and the clock are arbitrary values.
- TrueType rendering, the drawing of synthetic glyphs and text bounds: not part of this model.
