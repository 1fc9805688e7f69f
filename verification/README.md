# fxa-lite, modelled

This project models the stateful parts of fxa-lite, a small Firefox Accounts and Sync server, and proves what its
clients rely on. `dafny verify dfyconfig.toml` checks all of it.

**Sync storage** (`SyncTables`, `Paging`, `SyncRequests`, `SyncStore`, `OffsetText`, `PostBody`, `PostOutcome` and the
theorem modules below). The four tables of one user are maps in a class whose methods are the statements of the store.
One HTTP operation is one atomic step: resource timestamp, precondition, write guard, handler, commit or rollback.
`SyncRequests.Exec` says what a step does, `SyncStore.SyncStore.RunRequest` does it in place, and the theorems are
about runs of steps: `SyncReads` and `SyncWrites` (what is answered and what is stored, in terms of what was sent),
`SyncOpenings` (which batches can be named), `SyncState` (what every state keeps), `SyncTheorems` and `SyncRecords`
(compare-and-swap on collections and on single records), `SyncIncremental` (exactly what an incremental sync shows),
`PagingTheorems` (offset tokens over rows at rest and under inserts), `PagingDrift`, `PagingTokens` and `PagingWalks`
(over rows that others update and delete), `SyncPages`, `SyncWalks` and `BrokenWalks` (the same over runs, with tokens
as text), `SyncBatches` (a batch against posting directly) and `SyncWipe` (nothing comes back). Clocks may come in any
order unless a statement says otherwise.

**Scopes and grants** (`ScopeText`, `Scopes`, `ScopeSets`, `ScopeDictionaries`, `Grants`, `GrantDecisions`,
`GrantOrigins`, `Renewals`, `OAuthServer`). Scope strings as in section 3.3 of RFC 6749 are parsed into component
lists and URLs; the implicants that the source derives by popping components are proved to be a partial order with a
direct description. On it stands the theory of sets without redundancy, and the class with its two dictionaries is
proved against that theory. Grants are a state machine of authorizing, redeeming (with the challenge of section 4.6 of
RFC 7636), direct grants and refreshing, in which scopes travel as text.

**Tokenserver users** (`Tokenserver`, `TokenserverTheorems`, `TokenserverValues`, `SyncUsers`). A token request is the
list of statements it executes one by one; a crash is any prefix of that list. The class executes the statements, the
theorems are about runs of requests cut short anywhere, on any clock unless a statement says otherwise.

**Two smaller cores.** `Throttle`, `ThrottleTheorems` and `FailureThrottles` refine the sliding window with its
bounded table against a plain log of all events. `AttachedClients`, `AttachedClientsTheorems` and `AttachedRows` treat
the merge of devices, grants and sessions over shared, mutable row objects.

Findings that differ from what one might expect:

- A record that has expired but is still in its table can be revived by an update that sends only a ttl. Its
  `modified` does not move, so a client that synced in between never sees it (`SyncIncremental.RevivedRowEscapes`).
  This is the only way: `SyncIncremental.IncrementalSyncComplete` shows that a visible record is missed if and only if
  it had expired when the copy was read and no accepted request has rewritten it since.
- Pages follow the tokens exactly while others only insert. When a record that was already served is updated between
  two pages, the walk can pass over a record that nobody touched (`BrokenWalks.UpdatedRowHidesAnother`) and serve
  another one twice (`BrokenWalks.UpdatedRowRepeatsAnother`). `PagingDrift.NothingIsMissed` and
  `PagingTokens.TokenStands` say exactly when; as long as the rows the tokens count on are spared,
  `SyncWalks.UntouchedIsServedOnce` holds.
- A conditional write of one record passes when the record is gone, since a record that is absent has timestamp zero
  (`SyncRecords.DeletedRecordPasses`). `SyncRecords.RecordCompareAndSwap` shows that this is the only exception.
- The tombstone of a dropped collection is stamped without a guard, so a drop at a clock that stepped back takes the
  storage timestamp back (`SyncState.BackwardDropForgets`; exactly when, in `SyncState.StorageTimestampFalls`).
- A refresh is meant not to renew `openid` and the session-token scope. It takes away just what these two imply, so
  a broader scope keeps them (`Renewals.TokensIsRenewed`; exactly when, in `Renewals.RenewsByTheBroader`).
- The throttle tells a key to wait for its oldest failure, which brings it back under the limit only if it is not
  over it. Two requests that pass the check at once can put it there, and the told wait falls short
  (`ThrottleTheorems.ToldWaitFallsShort`; exactly when, in `ThrottleTheorems.WaitIsRight`).
- A key rotation without a reported generation can keep the old generation; if the clock has then run behind the
  current row's creation, the replaced key stays current (`TokenserverTheorems.BackwardClockRevivesOldKey`).
  `TokenserverTheorems.RotationTakesOver` says exactly when that happens, `TokenserverTheorems.RotationDecides` what
  is accepted afterwards. What the code promises the storage tier, one live row, then fails too:
  `TokenserverTheorems.CompletedRequestLeavesOneLive` has the exact condition.
- The module documentation of the tokenserver says `keysChangedAt <= generation` always. The code stores whatever a
  first request reports (`TokenserverTheorems.FirstSightStoresWhatItIsGiven`), and also a first keysChangedAt that
  comes later and outruns the generation reported with it (`TokenserverTheorems.FirstReportOutruns`). By
  `TokenserverTheorems.KeysStayWithinGeneration` nothing else breaks the relation, and once a reported keysChangedAt
  is within generation it stays so (`TokenserverTheorems.KeysStayWithinAlongRuns`). The model follows the code.
- The same documentation says that a new client state must arrive with a rise in both timestamps. The code compares
  only what is reported (`TokenserverValues.RotationWithoutRise`; exactly what is accepted, in
  `TokenserverValues.AcceptedIff`).
- In a POST body, the bytes of a record that is sent back still count, so one oversized record makes the server
  defer every record behind it (`PostBody.BytesStopForGood`). Payload sizes are counted in characters, although the
  limits are named in bytes.

## Model

| member | source | states |
|---|---|---|
| Paging.OrderedLists | src/fxa_lite/syncstorage/store.py:386-394 | every set of rows has a listing in the query's order that holds each row exactly once |
| Paging.ListingUnique | src/fxa_lite/syncstorage/store.py:386-394 | the order leaves no freedom: two sorted listings of the same rows are equal |
| Paging.TailRunIsMaximal | src/fxa_lite/syncstorage/store.py:188-212 | the skip in a token counts the whole run of equal stamps at the end of a page, and no row more |
| Paging.EncodeNextOffset | src/fxa_lite/syncstorage/store.py:188-212 | the counting loop yields the token: bound and length of that run, plus the rows skipped before when one stamp filled the whole page again |
| PagingTheorems.NextStandsAfter | src/fxa_lite/syncstorage/store.py:188-212 | a token issued after row p + limit of the listing stands exactly there, however many rows share its stamp |
| PagingTheorems.PageServesNext | src/fxa_lite/syncstorage/store.py:350-445 | a query whose token stands at row p serves rows p up to p + limit, and its token stands at p + limit or is absent at the end |
| PagingTheorems.ExtendingWalk | src/fxa_lite/syncstorage/store.py:350-445 | as long as listings grow only at their end, the pages put together are a prefix of the newest listing, ending where the token stands |
| PagingTheorems.PaginationExact | src/fxa_lite/syncstorage/store.py:188-212 | over rows that do not change, following the tokens with any positive and changing page sizes serves the filtered, sorted list once and whole, in at most one page per row |
| PagingTheorems.OldestWalkStable | src/fxa_lite/syncstorage/store.py:363-372 | while others only insert, an oldest-first walk serves every row present at its last page exactly once, in order |
| PagingTheorems.NewestWalkStable | src/fxa_lite/syncstorage/store.py:363-372 | while others only insert, a newest-first walk serves exactly the rows of its first page's moment |
| PagingTheorems.IssuedTokenFits | src/fxa_lite/syncstorage/models.py:193-199 | whatever token a read was given, the window cross-check accepts the one it answers with |
| PagingTheorems.TokenIsARow | src/fxa_lite/syncstorage/store.py:188-212 | the timestamp of an issued token is that of a row the query could see |
| SyncPages.TokensAreAccepted | src/fxa_lite/syncstorage/__init__.py:381-407 | over a run: the token of each page, sent out as text and parsed again, is what was issued, and the request that carries it is answered with its page, whatever came in between |
| SyncPages.ReadTokenIsReread | src/fxa_lite/syncstorage/store.py:140-158 | in every valid state the token of any read, of any window, sort and limit, survives its text |
| SyncPages.QuietWalkIsExact | src/fxa_lite/syncstorage/store.py:350-445 | over a run: while the rows in the window stay as they are the pages are the sorted list, for any sort, window and page sizes |
| SyncPages.BusyWalkIsStable | src/fxa_lite/syncstorage/store.py:363-372 | over a run: traffic that only inserts leaves a newest-first walk with the rows of its first page, an oldest-first walk with those of its last, each once |
| SyncPages.WalkFollows | src/fxa_lite/syncstorage/__init__.py:381-407 | page requests made over a run with reparsed tokens follow the tokens over views whose stamps are whole hundredths, which is all the walk theorems ask |
| PagingDrift.PagePassesOver | src/fxa_lite/syncstorage/store.py:363-372 | rows may be updated or deleted between two pages: of the rows then due the next page passes over exactly as many as rows its token counts on are gone from their place, and goes on in order |
| PagingDrift.NothingIsMissed | src/fxa_lite/syncstorage/store.py:188-212 | so the next page misses nothing that is due if and only if all those rows are in place, or nothing is due |
| PagingDrift.DriftedListing | src/fxa_lite/syncstorage/store.py:363-394 | what a token selects after such traffic: the rows of the old listing from the bound on that are still in place, then, oldest first, what came in |
| PagingTokens.TokenStands | src/fxa_lite/syncstorage/store.py:188-212 | whatever its own query counted on, the token of a page stands right behind the page, unless the page has one stamp only, which is not its query's bound, and the row passed over just before has it too: then, and only then, it stands earlier |
| PagingTokens.StandsOnce | src/fxa_lite/syncstorage/store.py:188-212 | a token stands in one place of a listing only |
| SyncPages.TrafficDrifts | src/fxa_lite/syncstorage/store.py:473-505 | over a run: after any traffic a row of the next view has its old stamp, or a newer one than every row of the last view |
| SyncPages.TokenStandsInView | src/fxa_lite/syncstorage/__init__.py:381-407 | over a run: the token of every page stands in the listing of the view the page was read from |
| SyncPages.PageAfterTraffic | src/fxa_lite/syncstorage/__init__.py:381-407 | over a run with any inserts, updates, deletions and expiry: the next page in terms of the rows due where the last token stands, missing as many as rows it counts on have moved |
| SyncWalks.PageMissesNothing | src/fxa_lite/syncstorage/__init__.py:381-407 | over a run with any traffic: the next page misses nothing that is due if and only if its token counts on nothing that was lost, or nothing is due |
| PagingWalks.GoesOn | src/fxa_lite/syncstorage/store.py:188-212 | when every row a token counts on is in place, the page serves what is due and its own token stands where the rest of that begins |
| PagingWalks.ServedOnce | src/fxa_lite/syncstorage/store.py:363-372 | so over a whole walk a row there from the start that stays is served exactly once, and one that comes in and stays exactly once oldest first and never newest first |
| SyncWalks.ServedExactlyOnce | src/fxa_lite/syncstorage/__init__.py:381-407 | the same over a run with any inserts, updates, deletions and expiry, as long as they spare the rows the tokens count on |
| SyncWalks.UntouchedIsServedOnce | src/fxa_lite/syncstorage/__init__.py:381-407 | in particular a row nobody touches during the walk occurs exactly once in all its pages |
| SyncReads.ReadIsSound | src/fxa_lite/syncstorage/store.py:363-394 | whatever a read answers with is a record of that collection as it is stored, not expired, inside the window and among the ids asked for; never more than the limit |
| SyncReads.ReadIsInOrder | src/fxa_lite/syncstorage/store.py:386-394 | newest first the stamps of an answer never rise, oldest first they never fall, by index the sortindex never rises and absent ones come last; no record is in it twice |
| SyncReads.ReadIsComplete | src/fxa_lite/syncstorage/store.py:363-420 | a read without a token that does not reach its limit answers with every record that is wanted |
| SyncReads.ReadIsAnswered | src/fxa_lite/syncstorage/models.py:193-199 | a read is answered, at the stamp of its collection, unless its token lies outside the window it gives; then it is an error |
| SyncReads.NothingIsAskedFor | src/fxa_lite/syncstorage/store.py:395-445 | a limit of zero is answered with nothing, and of full records with a token that starts anew |
| SyncReads.RecordIsRead | src/fxa_lite/syncstorage/__init__.py:527-542 | one record is answered with if and only if it is stored and has not expired, as it is stored and at its own stamp |
| SyncReads.WalkAtRestIsExact | src/fxa_lite/syncstorage/__init__.py:381-407 | over a finished walk in any order, with the collection at rest, a record is on exactly one page if it is stored and wanted, and on none otherwise |
| SyncReads.WantedIsOnOnePage | src/fxa_lite/syncstorage/__init__.py:381-407 | the same for every record that is wanted throughout and stays in place, under any traffic that spares the rows the tokens count on |
| BrokenWalks.UpdatedRowHidesAnother | src/fxa_lite/syncstorage/store.py:188-212 | an input for the failing side, as a run from an empty account: a served row is updated before the next page, and the finished walk has no page with one of the rows that nobody touched |
| BrokenWalks.UpdatedRowRepeatsAnother | src/fxa_lite/syncstorage/store.py:188-212 | and it serves another row that nobody touched twice |
| OffsetText.SpelledIsRead | src/fxa_lite/syncstorage/store.py:154-158 | a number spelled in a token is read back, and a negative one is refused |
| OffsetText.TokenIsWritten | src/fxa_lite/syncstorage/store.py:140-146 | how a token is written, with a timestamp and without one |
| OffsetText.OffsetRoundTrip | src/fxa_lite/syncstorage/store.py:140-151 | a token survives being written and parsed if and only if its timestamp is non-negative and a whole hundredth |
| OffsetText.IssuedTokenIsReadBack | src/fxa_lite/syncstorage/store.py:188-212 | every token that ends a page of rows stamped at or after the epoch is parsed back as it was issued |
| SyncStore.OrderBy | src/fxa_lite/syncstorage/store.py:386-394 | selection by the order yields the one sorted listing |
| SyncStore.First | src/fxa_lite/syncstorage/store.py:386-394 | the row found comes before every other one |
| SyncStore.Database.constructor | src/fxa_lite/db.py:491-500 | an empty database |
| SyncStore.Database.Restore | src/fxa_lite/db.py:491-500 | a rollback brings every table back as it was |
| SyncStore.SyncStore.StorageTimestamp | src/fxa_lite/syncstorage/store.py:267-273 | the loop finds the greatest stamp, tombstone included, or zero |
| SyncStore.SyncStore.CheckWrite | src/fxa_lite/syncstorage/store.py:595-609 | the guard passes exactly when the collection has no stamp at or after this request's instant |
| SyncStore.SyncStore.GetOrCreateCollectionId | src/fxa_lite/syncstorage/store.py:244-252 | the name becomes known, nothing else moves |
| SyncStore.SyncStore.UpdateCollection | src/fxa_lite/syncstorage/store.py:611-619 | the collection's stamp is this request's instant, other stamps and all rows stay |
| SyncStore.SyncStore.PutBso | src/fxa_lite/syncstorage/store.py:449-505 | one row is inserted with defaults, or updated in just the fields that were sent; no stamp moves |
| SyncStore.SyncStore.PutBsos | src/fxa_lite/syncstorage/store.py:507-530 | a posted list is written in order, a later copy of an id over an earlier one |
| SyncStore.SyncStore.PostBsos | src/fxa_lite/syncstorage/store.py:507-530 | posting writes the list and stamps the collection, or refuses and changes nothing when the stamp would not advance |
| SyncStore.SyncStore.DeleteBso | src/fxa_lite/syncstorage/store.py:532-540 | an unexpired record goes and the collection is stamped; otherwise not found, and nothing moves |
| SyncStore.SyncStore.DeleteBsos | src/fxa_lite/syncstorage/store.py:542-551 | the named records go, the others stay, the collection is stamped |
| SyncStore.SyncStore.DeleteCollection | src/fxa_lite/syncstorage/store.py:553-583 | rows and stamp of the collection go and the tombstone is stamped; not found if there was neither |
| SyncStore.SyncStore.DeleteStorage | src/fxa_lite/syncstorage/store.py:585-593 | rows, stamps, open batches and staged items all go |
| SyncOpenings.WipeLeaves | src/fxa_lite/syncstorage/store.py:585-593 | an accepted wipe leaves the names of collections and, in every other table, nothing |
| SyncOpenings.WipedBatchIsRefused | src/fxa_lite/syncstorage/store.py:592-593 | over runs: a batch that was open before a wipe is refused and changes nothing, for appends and commits, until its id is opened again |
| SyncOpenings.CommittedBatchIsRefused | src/fxa_lite/syncstorage/store.py:756-768 | and so is a batch that was committed: one commit for each opening |
| SyncOpenings.OpenWasOpened | src/fxa_lite/syncstorage/store.py:626-649 | over runs from an empty account: an open batch was opened by an accepted request for its collection and has been open ever since |
| SyncOpenings.OpeningTakesTheFirst | src/fxa_lite/syncstorage/store.py:626-649 | opening takes the first free one of the five ids from this instant on, and is a conflict if and only if all five are taken |
| SyncOpenings.BatchIsServed | src/fxa_lite/syncstorage/store.py:651-668 | a request that names a batch is served if and only if it is open for that collection and not more than two hours old |
| SyncOpenings.CommitCloses | src/fxa_lite/syncstorage/store.py:756-768 | a commit closes its batch, items and all, and no other |
| SyncStore.SyncStore.CreateBatch | src/fxa_lite/syncstorage/store.py:626-649 | the first free id of five from this instant on is opened for the collection, or there is a conflict and no table changes |
| SyncRequests.FreeBatchIdIsFree | src/fxa_lite/syncstorage/store.py:637-649 | an allocated batch id is one that was not open, and lies within the retries of the instant |
| SyncStore.SyncStore.ValidateBatch | src/fxa_lite/syncstorage/store.py:651-668 | a batch is valid exactly if it is open for this collection and not past its two hours |
| SyncStore.SyncStore.AppendToBatch | src/fxa_lite/syncstorage/store.py:679-703 | staging replaces an id's earlier copy and no other record; an invalid batch is refused unchanged |
| SyncStore.SyncStore.CommitBatch | src/fxa_lite/syncstorage/store.py:705-759 | every staged item lands at one instant, the collection is stamped and the batch is closed |
| SyncStore.SyncStore.DeleteBatch | src/fxa_lite/syncstorage/store.py:761-768 | the batch and its items go together |
| SyncStore.SyncStore.GetBsos | src/fxa_lite/syncstorage/store.py:350-445 | the page read is the slice of the ordered rows that the query and its token ask for; which rows these are, SyncReads.ReadIsSound and SyncReads.WalkAtRestIsExact say |
| SyncStore.SyncStore.ResourceTimestamp | src/fxa_lite/syncstorage/__init__.py:247-264 | the stamp a precondition is checked against: the record's, the collection's or the whole storage's |
| SyncStore.SyncStore.PostBatch | src/fxa_lite/syncstorage/__init__.py:456-493 | append, or commit and then the carried records at the same instant; an invalid batch is an error |
| SyncStore.SyncStore.HandleRequest | src/fxa_lite/syncstorage/__init__.py:359-600 | every handler leaves the tables and the answer that the step of its operation says |
| SyncStore.SyncStore.RunRequest | src/fxa_lite/syncstorage/__init__.py:166-200 | one request is one atomic step: precondition, guard, handler; and after any error the tables are as before |
| SyncWrites.PutStores | src/fxa_lite/syncstorage/store.py:449-505 | a PUT leaves each field as it was sent, as it was, or by default, in that order; it stamps the collection and touches no other record |
| SyncWrites.PutThenGet | src/fxa_lite/syncstorage/__init__.py:527-570 | what was put is what is got, with the fields that were sent, until it expires |
| SyncWrites.PostStores | src/fxa_lite/syncstorage/store.py:507-530 | a posting leaves of each field the last one sent under the id, and every record it does not name as it was |
| SyncWrites.CommitLands | src/fxa_lite/syncstorage/store.py:705-759 | a commit leaves of each staged record its fields as staged, as they were or by default, stamped in any case, and no other record changed |
| SyncWrites.DeleteTakesOne | src/fxa_lite/syncstorage/store.py:532-540 | deleting a record takes that one and no other, and is refused if and only if it is not there or has expired |
| SyncWrites.DeleteTakesTheNamed | src/fxa_lite/syncstorage/store.py:542-551 | deleting by ids takes exactly those |
| SyncWrites.DropTakesAll | src/fxa_lite/syncstorage/store.py:553-583 | dropping a collection takes its rows and stamp and leaves a tombstone if there was anything, and no batch or other collection changes |
| SyncWrites.WriteIsListed | src/fxa_lite/syncstorage/__init__.py:272-284 | after any accepted request a collection is listed if and only if it has a stamp, at that stamp; after a PUT at the instant the client was told |
| SyncWrites.LateWriteIsRefused | src/fxa_lite/syncstorage/store.py:595-609 | a write to a collection that was stamped at its instant or later is a conflict and changes nothing |
| SyncWrites.ConditionalReadIsExact | src/fxa_lite/syncstorage/__init__.py:203-222 | a conditional read is spared if and only if the collection has not been stamped since the client looked |
| SyncWrites.BothHeadersAreRefused | src/fxa_lite/syncstorage/__init__.py:203-222 | both conditional headers at once are an error |
| SyncInvariants.ExecIsLocal | src/fxa_lite/syncstorage/__init__.py:166-200 | a request either leaves a collection untouched, or drops it, or stamps it later than before with only fresh changes in it |
| SyncState.ExecKeepsValid | src/fxa_lite/syncstorage/__init__.py:166-200 | one request keeps: records under their collection's stamp, stamps whole hundredths, staged items in open batches, an empty tombstone |
| SyncState.RunKeepsValid | src/fxa_lite/syncstorage/__init__.py:166-200 | so does any run of requests, in any order of clocks |
| SyncState.EmptyIsValid | src/fxa_lite/db.py:491-500 | and an account starts in such a state |
| SyncState.StampStrictlyRises | src/fxa_lite/syncstorage/store.py:595-619 | a request that changes an existing stamp raises it, to its own instant |
| SyncState.StorageTimestampNeverFalls | src/fxa_lite/syncstorage/store.py:267-273 | with clocks that do not run backwards the storage timestamp never falls as long as no wipe is accepted |
| SyncState.StorageTimestampFalls | src/fxa_lite/syncstorage/store.py:553-593 | on any clock, one request makes the storage timestamp fall if and only if it is an accepted wipe of a stamped account, or drops a collection at a clock behind the storage timestamp, which only the tombstone of an earlier drop still held |
| SyncState.BackwardDropForgets | src/fxa_lite/syncstorage/store.py:553-583 | an input for the second case, as a run from an empty account: after two drops the storage timestamp is back from 110 to 60 |
| SyncTheorems.StampOnlyClimbs | src/fxa_lite/syncstorage/store.py:595-619 | over any run that does not drop the collection its stamp never falls, and an unmoved stamp means unmoved rows |
| SyncTheorems.CompareAndSwap | src/fxa_lite/syncstorage/__init__.py:203-222 | a conditional collection write passes its precondition if and only if nobody stamped the collection since the client looked; its rows are then the ones it saw |
| SyncRecords.RecordCompareAndSwap | src/fxa_lite/syncstorage/__init__.py:203-264 | a conditional write of one record passes its precondition if and only if the record is absent, or was there when the client looked and no accepted request has rewritten it since; in the latter case it has the payload and sortindex the client saw |
| SyncRecords.NotRewrittenIsTheSame | src/fxa_lite/syncstorage/store.py:473-505 | a record that no accepted request has rewritten has the payload, sortindex and stamp it had; only its expiry may have moved |
| SyncRecords.StorageCheck | src/fxa_lite/syncstorage/__init__.py:203-222 | a conditional wipe is refused, and a conditional listing answered in full, if and only if some stamp, a tombstone included, is later than the one the client saw |
| SyncRecords.DeletedRecordPasses | src/fxa_lite/syncstorage/__init__.py:247-264 | an input for the former case, as a run from an empty account: the check passes for a client that saw a record which another one has deleted |
| SyncIncremental.IncrementalSyncByStamp | src/fxa_lite/syncstorage/store.py:473-505 | after any run and any order of clocks that does not drop the collection, a copy read at stamp T and overlaid with what is newer than T shows payload and sortindex of a visible row, if and only if it is not a row that had expired at the copy and is still no newer than T |
| SyncIncremental.OldAsLongAsNotRewritten | src/fxa_lite/syncstorage/store.py:473-505 | from a valid state a record is no newer than T exactly as long as no accepted request set its payload or sortindex, landed it from a batch or deleted it |
| SyncIncremental.IncrementalSyncComplete | src/fxa_lite/syncstorage/store.py:473-505 | so from a valid state the client misses a visible row if and only if it had expired when the copy was read and no accepted request has rewritten it since |
| SyncIncremental.RevivedRowEscapes | src/fxa_lite/syncstorage/store.py:481-505 | an input for the exception, as a run from an empty account: written at 10 for one second, copied at 1500, revived by a ttl-only update at 2000, and never seen by the client |
| SyncTheorems.GuardedInsertsGrow | src/fxa_lite/syncstorage/store.py:595-609 | the write guard makes every row inserted between two pages newer than all rows of the first, which is what page stability asks for |
| SyncTheorems.ViewsAreStamped | src/fxa_lite/syncstorage/store.py:161-169 | in every valid state the rows a query sees carry positive whole hundredths, as tokens and their text need |
| SyncWipe.RunTraceable | src/fxa_lite/syncstorage/store.py:585-593 | every stored or staged field of a run goes back to an accepted request that sent it to that collection under that id |
| SyncWipe.NothingComesBack | src/fxa_lite/syncstorage/store.py:585-593 | after a wipe every record was sent again by an accepted later request, whatever was stored or staged before and whichever batch ids are reused |
| SyncBatches.BatchHolds | src/fxa_lite/syncstorage/store.py:679-703 | whatever else goes on, refused commits and refused wipes included, an open batch holds exactly what was appended to it, later copies over earlier ones |
| SyncBatches.AppendIsInvisible | src/fxa_lite/syncstorage/__init__.py:479-482 | an append moves no record and no stamp |
| SyncBatches.LastCopiesAreStaged | src/fxa_lite/syncstorage/store.py:679-703 | the staged items are the last copies of the appended records, one for each id |
| SyncBatches.CommitRefinesPosting | src/fxa_lite/syncstorage/store.py:705-759 | committing and then posting the carried records agrees with posting the last copies and then those: in payload and sortindex always; in modified if and only if the record is new, not staged, was sent content or had this very instant already; in expiry if and only if it was there, is not staged or was sent a ttl, but for instant zero |
| SyncBatches.OpeningABatch | src/fxa_lite/syncstorage/__init__.py:456-482 | a batch just opened holds the records the opening request carried, under an id that was free |
| SyncBatches.BatchRefinesPosting | src/fxa_lite/syncstorage/__init__.py:456-493 | over runs, with refused requests in between: opening, appending in any traffic and committing leaves what posting the last copies and the carried records at that instant would, up to those exact conditions; from a valid state the two coincidences of instants cannot occur |
| PostBody.ParseBsoBodies | src/fxa_lite/syncstorage/models.py:316-348 | the body is refused if and only if some item is no object, has no id or repeats one; otherwise the stored records and the reason of each refused one are fixed item by item, as PostOutcome.BodyIsAsStated spells out |
| PostOutcome.ReadIs | src/fxa_lite/syncstorage/models.py:365-404 | an item is malformed if and only if it has an unknown field, a bad id, a payload that is no text, or a sortindex or ttl that is no whole number in its range, and the first of these is its reason; otherwise it stands for the record with just its fields |
| PostOutcome.OutcomeIs | src/fxa_lite/syncstorage/models.py:316-348 | what becomes of each item, from its JSON fields and those before it: malformed, too many bytes by itself or in sum, behind a hundred others, or stored |
| PostOutcome.BodyIsAsStated | src/fxa_lite/syncstorage/models.py:316-348 | of an accepted body the stored records are those of the items to be stored, field by field and in order, and every other id is refused with just its reason |
| PostOutcome.AcceptedBodies | src/fxa_lite/syncstorage/models.py:316-330 | a body is accepted if and only if every item is an object with an id in text and no two ids are the same |
| PostBody.DropOverflow | src/fxa_lite/syncstorage/models.py:344-347 | the records past the cap are moved to the refused ones, from the end |
| PostBody.PostingIsPartitioned | src/fxa_lite/syncstorage/models.py:316-348 | each posted id is either among the stored records or among the failed ones, never both |
| PostBody.StoredIsKept | src/fxa_lite/syncstorage/models.py:342 | an item that is not refused is stored as it was read, at the place its predecessors leave it |
| PostBody.KeptIsStored | src/fxa_lite/syncstorage/models.py:342 | nothing is stored that was not posted and accepted |
| PostBody.OrderIsKept | src/fxa_lite/syncstorage/models.py:342 | stored records keep posting order |
| PostBody.LimitsAreKept | src/fxa_lite/syncstorage/models.py:331-347 | at most a hundred records are stored and their payloads together stay within the limit |
| PostBody.CapDefersTheEnd | src/fxa_lite/syncstorage/models.py:344-347 | once the cap defers one record that fits, it defers every later one |
| PostBody.BytesStopForGood | src/fxa_lite/syncstorage/models.py:331-341 | a deferred record still counts: once one is over the byte limits every later well-formed record is told to retry, however small |
| ScopeText.SplitJoin | src/fxa_lite/oauth/scopes.py:77-79 | joining parts that do not hold the separator and splitting again gives the parts |
| ScopeText.WordsJoin | src/fxa_lite/oauth/scopes.py:77-79 | reading a space-separated list back gives its words |
| Scopes.SpellInjective | src/fxa_lite/oauth/scopes.py:216-299 | a valid scope is determined by its spelling |
| Scopes.ParseSpell | src/fxa_lite/oauth/scopes.py:223-299 | a valid scope is read back from its spelling |
| Grants.FixedScopesAreWritten | src/fxa_lite/oauth/scopes.py:216-299 | how the Sync, session-token and profile scopes are written |
| Scopes.SpellParse | src/fxa_lite/oauth/scopes.py:223-299 | what is accepted as a scope value is valid and spelled as it was given |
| Scopes.DeriveShort | src/fxa_lite/oauth/scopes.py:223-250 | the popping loop yields the implicants of a short name, widest last |
| Scopes.DeriveUrl | src/fxa_lite/oauth/scopes.py:253-299 | the popping loop yields the implicants of a URL |
| Scopes.ShortImplication | src/fxa_lite/oauth/scopes.py:223-250 | s implies t iff the components of s without a trailing write are a prefix of those of t, and a write t has a write s; an inner write is a component like any other |
| Scopes.UrlImplication | src/fxa_lite/oauth/scopes.py:253-299 | s implies t iff the origin is the same, the path is a segment prefix, and the fragment is empty or the same |
| Scopes.KindsDoNotMix | src/fxa_lite/oauth/scopes.py:216-220 | no short name implies a URL, nor a URL a short name |
| Scopes.ImpliesReflexive | src/fxa_lite/oauth/scopes.py:216-299 | every valid scope implies itself |
| Scopes.ImpliesAntisymmetric | src/fxa_lite/oauth/scopes.py:216-299 | two valid scopes that imply each other are the same |
| Scopes.ImpliesTransitive | src/fxa_lite/oauth/scopes.py:216-299 | implication chains |
| Scopes.ImplicantsSpellable | src/fxa_lite/oauth/scopes.py:216-299 | every derived implicant has a spelling of its own |
| ScopeSets.AddKeepsCanonical | src/fxa_lite/oauth/scopes.py:182-192 | adding a scope leaves no held scope that implies another |
| ScopeSets.AddMeaning | src/fxa_lite/oauth/scopes.py:182-192 | after adding a scope the set implies what it implied before and what the scope implies, nothing else |
| ScopeSets.AddAllMeaning | src/fxa_lite/oauth/scopes.py:172-175 | the same for adding any number of scopes, in any order |
| ScopeSets.ContainsIsInclusion | src/fxa_lite/oauth/scopes.py:124-130 | contains holds iff everything the other set implies is implied here |
| ScopeSets.SameMeaningSameScopes | src/fxa_lite/oauth/scopes.py:114-117 | sets with equal meaning hold equal scopes, however they were built |
| ScopeSets.UnionMeaning | src/fxa_lite/oauth/scopes.py:163-170 | the union implies exactly what one of the two implies, and is free of redundancy |
| ScopeSets.FilterPartitions | src/fxa_lite/oauth/scopes.py:141-161 | filtered and difference split a set: each member once, implied ones on one side and the rest on the other |
| ScopeSets.FromTextIsCanonical | src/fxa_lite/oauth/scopes.py:77-79 | whatever text is read, no held scope implies another |
| ScopeSets.TextRoundTrip | src/fxa_lite/oauth/scopes.py:77-112 | reading what a set was written as gives the same set in the same order |
| ScopeDictionaries.ScopeSet.constructor | src/fxa_lite/oauth/scopes.py:64-75 | an empty set with two empty dictionaries |
| ScopeDictionaries.ScopeSet.FromString | src/fxa_lite/oauth/scopes.py:77-79 | word after word into the set, or an error exactly if some word is no scope |
| ScopeDictionaries.ScopeSet.HasSomeScope | src/fxa_lite/oauth/scopes.py:179-180 | looking the implicants up decides whether some member implies the scope |
| ScopeDictionaries.ScopeSet.CutBuckets | src/fxa_lite/oauth/scopes.py:194-200 | the member leaves exactly the buckets of its implicants, and no empty bucket stays |
| ScopeDictionaries.ScopeSet.RemoveScope | src/fxa_lite/oauth/scopes.py:194-200 | the member leaves both dictionaries, which stay inverse to each other |
| ScopeDictionaries.ScopeSet.EnterBuckets | src/fxa_lite/oauth/scopes.py:189-192 | the member enters exactly the buckets of its implicants |
| ScopeDictionaries.ScopeSet.InsertScope | src/fxa_lite/oauth/scopes.py:189-192 | the new member enters both dictionaries, which stay inverse to each other |
| ScopeDictionaries.ScopeSet.RemoveImplied | src/fxa_lite/oauth/scopes.py:186-188 | the bucket of a scope holds all it makes redundant, and these members go |
| ScopeDictionaries.ScopeSet.AddScope | src/fxa_lite/oauth/scopes.py:182-192 | both indices are exact and nothing is redundant after an add as before; the members change as the set theory says |
| ScopeDictionaries.ScopeSet.Add | src/fxa_lite/oauth/scopes.py:172-175 | every scope of the other set is added in its order; a set added to itself is unchanged |
| ScopeDictionaries.ScopeSet.Contains | src/fxa_lite/oauth/scopes.py:124-130 | the lookups decide inclusion of meanings |
| ScopeDictionaries.ScopeSet.Intersects | src/fxa_lite/oauth/scopes.py:132-139 | the lookups decide whether some member of one set implies a member of the other |
| ScopeDictionaries.ScopeSet.Select | src/fxa_lite/oauth/scopes.py:141-161 | a new set of just the members the other set implies, or of just the others |
| ScopeDictionaries.ScopeSet.Filtered | src/fxa_lite/oauth/scopes.py:141-152 | the members the other set implies |
| ScopeDictionaries.ScopeSet.Difference | src/fxa_lite/oauth/scopes.py:154-161 | the members it does not |
| ScopeDictionaries.ScopeSet.Union | src/fxa_lite/oauth/scopes.py:163-170 | a new set, the operands untouched |
| Grants.ValidatedIsWithinCeiling | src/fxa_lite/oauth/grant.py:137-189 | what a client is granted is free of redundancy and lies within its ceiling and within what it asked for |
| Grants.KeysNeedTheAllowList | src/fxa_lite/oauth/grant.py:167-174 | a granted scope that carries a key is implied by the client's own allow-list |
| Grants.RefreshedIsWithinCeiling | src/fxa_lite/oauth/routes.py:376-392 | a refreshed scope lies within the ceiling again, narrowed or widened |
| Renewals.RefreshedCovers | src/fxa_lite/oauth/routes.py:376-392 | what a refresh leaves covers a scope if and only if something held or asked for implies it that no non-refreshable scope implies |
| Renewals.RenewsByTheBroader | src/fxa_lite/oauth/routes.py:390-392 | so a refresh renews the session-token scope if and only if it starts from the broader tokens scope, and openid if and only if it starts from openid:write |
| Renewals.OneExchangeOnly | src/fxa_lite/oauth/routes.py:369-412 | in every reachable state a refresh mints one of the two under exactly that condition, and only for a trusted client whose own allow-list implies the broader scope |
| Renewals.TokensIsRenewed | src/fxa_lite/oauth/routes.py:390-392 | an input for the renewing side: the tokens scope is kept, and with it the session-token scope |
| Grants.KeysUnderTheCeiling | src/fxa_lite/oauth/grant.py:150-174 | a ceiling covers a scope that carries a key only for a trusted client whose own allow-list implies that scope |
| Grants.StepIsBounded | src/fxa_lite/oauth/routes.py:265-455 | one request keeps every stored code and refresh token within its client's ceiling, through their text |
| Grants.RunIsBounded | src/fxa_lite/oauth/routes.py:265-455 | so does every run |
| Grants.GrantsNeverClimb | src/fxa_lite/oauth/routes.py:265-455 | after any run no minted token exceeds its client's ceiling, each key-bearing scope it covers is implied by the own allow-list of a trusted client, and it is audienced to the tokenserver exactly if it covers Sync |
| Grants.CodeMintsOnce | src/fxa_lite/oauth/routes.py:316-328 | a code that has minted never mints again unless issued anew |
| Grants.RedeemNeedsTheVerifier | src/fxa_lite/oauth/routes.py:331-343 | in every reachable state a code mints only for its own client, in time, and against the challenge it was authorized with; a public client always has one |
| GrantOrigins.RedeemIsForItsUser | src/fxa_lite/oauth/routes.py:137-158 | over runs: whatever lies between, a code mints a token for the user and client that authorized it, with the scope the client was told, against its challenge and in time, and a refresh token for the same if and only if the authorization was offline |
| GrantOrigins.RedeemTracesBack | src/fxa_lite/oauth/routes.py:299-328 | in any run from an empty server every token a code mints goes back to the last authorization that was answered with that code |
| GrantOrigins.RefreshIsForItsUser | src/fxa_lite/oauth/routes.py:369-412 | over runs: a refresh token mints for the user and client it was first minted for, no further refresh token, and keeps its scope |
| GrantOrigins.DirectIsForItsUser | src/fxa_lite/oauth/routes.py:415-449 | a direct grant mints for the user of the session |
| GrantDecisions.GrantedIff | src/fxa_lite/oauth/grant.py:137-174 | a request is granted if and only if its key-bearing scopes are implied by the allow-list, and it stays within the untrusted scopes or, from a trusted client, has something within the allow-list or the trusted scopes |
| GrantDecisions.FixedLists | src/fxa_lite/oauth/grant.py:38-50 | which scopes any client may have, and which a trusted one may |
| GrantDecisions.ServiceStandsFor | src/fxa_lite/oauth/routes.py:179-200 | without a scope the Sync service stands for Sync and profile, and no other for anything |
| GrantDecisions.GivenScopeIsRead | src/fxa_lite/oauth/routes.py:179-200 | a scope that is given is read, whatever the service, or refused |
| GrantDecisions.AuthorizedIff | src/fxa_lite/oauth/routes.py:110-167 | an authorization gets a code if and only if its client is known, its scope can be read and is granted, and it has a challenge just when its client is public |
| GrantDecisions.RedeemedIff | src/fxa_lite/oauth/routes.py:299-343 | in a reachable state a code mints if and only if it is there for this client, in time, with the verifier its challenge asks for, and the account exists |
| GrantDecisions.SpentIff | src/fxa_lite/oauth/routes.py:309-322 | a code is gone after a redeeming if and only if it had expired or came with its verifier; every other code stays |
| GrantDecisions.RefreshedIff | src/fxa_lite/oauth/routes.py:376-389 | a refresh may ask for what is implied by what is held or, for a trusted client, by its allow-list or the trusted scopes, and for nothing else |
| GrantDecisions.RefreshedMembers | src/fxa_lite/oauth/routes.py:390-392 | it keeps exactly the scopes that neither openid nor the session-token scope implies |
| GrantDecisions.RefreshMintsIff | src/fxa_lite/oauth/routes.py:369-412 | in a reachable state a refresh token mints if and only if it is there for this client, what is asked for may be, and the account exists |
| GrantDecisions.DirectIff | src/fxa_lite/oauth/routes.py:415-449 | a session gets tokens if and only if its client may grant and is public, and the scope it names is granted |
| OAuthServer.TokenEndpoint.constructor | src/fxa_lite/oauth/routes.py:265-296 | no codes and no refresh tokens at first |
| OAuthServer.TokenEndpoint.GenerateTokens | src/fxa_lite/oauth/grant.py:192-243 | an access token for the granted client and user always; exactly if the grant is offline a refresh-token row, with the scope the client was told; no other row changes |
| OAuthServer.TokenEndpoint.CheckRequest | src/fxa_lite/oauth/routes.py:232-242 | an authorization passes only if it has a challenge exactly when its client is public, and is then granted what the grant checks say |
| OAuthServer.TokenEndpoint.CreateCode | src/fxa_lite/oauth/routes.py:137-158 | of the other codes exactly those past their time are gone, and the new one is stored |
| OAuthServer.TokenEndpoint.OauthAuthorization | src/fxa_lite/oauth/routes.py:110-167 | an error changes nothing; otherwise the scope and challenge are in the row of the new code as the client was told, and only expired codes are gone |
| OAuthServer.TokenEndpoint.AuthorizationCodeGrant | src/fxa_lite/oauth/routes.py:299-328 | at most this one code is deleted: when it expired or minted it is gone, when a check failed every code stays; no refresh token appears unless one was minted |
| OAuthServer.TokenEndpoint.RefreshTokenGrant | src/fxa_lite/oauth/routes.py:369-412 | no row comes or goes and none changes but for the time of last use, which moves for the one token that minted |
| OAuthServer.TokenEndpoint.FxaCredentialsGrant | src/fxa_lite/oauth/routes.py:415-449 | tokens only for a session's own user and a public client that may grant; a refresh-token row only if one was asked for |
| Tokenserver.QueryOrderFacts | src/fxa_lite/db.py:728-743 | the query lists every row once and the current one first |
| TokenserverTheorems.FirstRequestPasses | src/fxa_lite/tokenserver/__init__.py:288-311 | a first request always passes validation and leaves the row it created alone |
| TokenserverValues.AcceptedIff | src/fxa_lite/tokenserver/__init__.py:323-361 | a request is accepted if and only if its client state is the current one or new and not withdrawn, no reported value falls, both rise with a new state if reported, keysChangedAt is not withdrawn and does not outrun the generation reported with it |
| TokenserverValues.RefusedFor | src/fxa_lite/tokenserver/__init__.py:323-361 | and the error says which of these failed, in this order of precedence |
| TokenserverValues.AcceptedIsStored | src/fxa_lite/tokenserver/__init__.py:363-412 | the row an accepted request makes or keeps current stores the reported keysChangedAt and generation; where one is not reported it keeps the stored one, or lets a newer key stand in for the generation; and its uid is the answer |
| TokenserverValues.RotationRetires | src/fxa_lite/db.py:792-807 | a completed rotation retires the current row now, and any other left over at the creation of the current one; earlier retirements stay |
| TokenserverValues.FirstIsStored | src/fxa_lite/tokenserver/__init__.py:288-311 | on first sight the one row stores just what was reported, a missing generation as zero |
| TokenserverValues.NoAccountNoRow | src/fxa_lite/tokenserver/__init__.py:296-302 | without an account nothing is stored and the credentials are refused |
| TokenserverValues.OlderIsRefused | src/fxa_lite/tokenserver/__init__.py:354-361 | over runs, on any clock: once a request was accepted and its row is current, no request that reports a smaller generation or keysChangedAt is accepted any more |
| TokenserverValues.RotationWithoutRise | src/fxa_lite/tokenserver/__init__.py:343-353 | an input: a new client state that reports neither value is accepted |
| TokenserverTheorems.AcceptedStateIsNew | src/fxa_lite/tokenserver/__init__.py:341-353 | a rotation that validation accepts brings a client state no row has |
| TokenserverTheorems.StepIsLocal | src/fxa_lite/tokenserver/__init__.py:363-383 | one request, cut short anywhere, keeps every row's identity and adds at most one with a new state |
| TokenserverTheorems.RunKeepsDistinct | src/fxa_lite/tokenserver/__init__.py:288-383 | over every run, with crashes, any clock and whatever fresh uids, the rows' client states are pairwise distinct |
| TokenserverTheorems.RotationTakesOver | src/fxa_lite/tokenserver/__init__.py:363-379 | which row is current after a rotation: the new one if and only if its generation rose or the clock has not fallen behind the current row's creation, and the old one otherwise |
| TokenserverTheorems.StepMoves | src/fxa_lite/tokenserver/__init__.py:288-383 | one request, cut short anywhere and on any clock, leaves the current row where it was or makes the row it inserted the current one, and no row changes but for its retirement and the update of the current one |
| TokenserverTheorems.RotationDecides | src/fxa_lite/tokenserver/__init__.py:341-410 | once a rotation has inserted its row, crash or not: the same request is accepted again if and only if that row took over, the replaced client state if and only if it did not, and after a takeover no request with the replaced state is accepted |
| TokenserverTheorems.BackwardClockRevivesOldKey | src/fxa_lite/tokenserver/__init__.py:390-410 | an input for the failing side, as a run: the clock steps back, the key just accepted is refused next time and the one it replaced is accepted again |
| TokenserverTheorems.RunKeepsHealthy | src/fxa_lite/tokenserver/__init__.py:288-383 | with a forward clock the newest row is always the current and unretired one, crashes included |
| TokenserverTheorems.RunContinues | src/fxa_lite/tokenserver/__init__.py:288-383 | along every run, on any clock, a row that is not current never becomes current again |
| TokenserverTheorems.CurrentNeverMovesBack | src/fxa_lite/tokenserver/__init__.py:354-360 | along every run, on any clock, the current generation and keysChangedAt never fall, and a stored keysChangedAt never disappears |
| TokenserverTheorems.ReplacedStateIsRefused | src/fxa_lite/tokenserver/__init__.py:341-353 | along every run, on any clock, a client state of a row that is not current is refused for ever, retired or not |
| TokenserverTheorems.RepairIsExact | src/fxa_lite/tokenserver/__init__.py:312-319 | the repair retires every row but the current one, at the current one's creation, and leaves that one as it is |
| TokenserverTheorems.RepairLeavesOneLive | src/fxa_lite/tokenserver/__init__.py:312-319 | after the repair a row is unretired if and only if it is the current one and was not retired before |
| TokenserverTheorems.CompletedRequestLeavesOneLive | src/fxa_lite/tokenserver/__init__.py:312-383 | a request that is not cut short, accepted or refused, ends with the current row as the only unretired one if and only if its rotation took over or, without a rotation, the current row was unretired |
| TokenserverTheorems.ForwardClockLeavesOneLive | src/fxa_lite/tokenserver/__init__.py:312-383 | with a forward clock it always does |
| TokenserverTheorems.KeysStayWithinGeneration | src/fxa_lite/tokenserver/__init__.py:390-410 | an accepted request keeps keysChangedAt within generation, with or without a reported generation, if and only if it is not a first keysChangedAt that outruns the generation reported with it |
| TokenserverTheorems.FirstReportOutruns | src/fxa_lite/tokenserver/__init__.py:390-410 | an input for the failing side, as a run: a generation alone, then a generation with a greater keysChangedAt, and the stored relation is broken |
| TokenserverTheorems.FirstSightStoresWhatItIsGiven | src/fxa_lite/tokenserver/__init__.py:303-311 | the base case is not free: the first row has keysChangedAt within generation if and only if the request had |
| TokenserverTheorems.KeysStayWithinAlongRuns | src/fxa_lite/tokenserver/__init__.py:354-410 | once the current row has a keysChangedAt, and it is within its generation, every later current row does, on any clock |
| SyncUsers.SyncUserTable.CreateSyncUser | src/fxa_lite/db.py:757-783 | one row more, at the end |
| SyncUsers.SyncUserTable.UpdateSyncUser | src/fxa_lite/db.py:785-790 | the row of that uid has the new values, all others stay |
| SyncUsers.SyncUserTable.ReplaceSyncUser | src/fxa_lite/db.py:792-796 | the row is retired unless it already was |
| SyncUsers.SyncUserTable.ReplaceOtherSyncUsers | src/fxa_lite/db.py:798-807 | each unretired row other than the kept one is retired |
| SyncUsers.SyncUserTable.CurrentUser | src/fxa_lite/tokenserver/__init__.py:288-320 | the first row in query order, created on first sight, with the history repaired |
| SyncUsers.SyncUserTable.Reconcile | src/fxa_lite/tokenserver/__init__.py:312-320 | the loop retires what a crash left unretired and collects the client states of the history |
| SyncUsers.SyncUserTable.Apply | src/fxa_lite/tokenserver/__init__.py:363-387 | a rotation inserts before it retires; otherwise the row is updated in place if it moved |
| SyncUsers.SyncUserTable.Token | src/fxa_lite/tokenserver/__init__.py:88-149 | one whole request executes exactly the statements of its plan and gives its verdict |
| FailureThrottles.PopExpired | src/fxa_lite/throttle.py:131-134 | the loop pops exactly the failures outside the window |
| FailureThrottles.FailureThrottle.constructor | src/fxa_lite/throttle.py:59-65 | an empty table |
| FailureThrottles.FailureThrottle.PruneKey | src/fxa_lite/throttle.py:121-129 | expired failures of one key go, and the key with them when none is left |
| FailureThrottles.FailureThrottle.PruneAll | src/fxa_lite/throttle.py:140-141 | the same for every key that was in the table |
| FailureThrottles.FailureThrottle.PopFirst | src/fxa_lite/throttle.py:142-143 | the entry first in iteration order leaves |
| FailureThrottles.FailureThrottle.PopWhileFull | src/fxa_lite/throttle.py:142-143 | keys leave from the front until there is room for one |
| FailureThrottles.FailureThrottle.EvictOld | src/fxa_lite/throttle.py:136-143 | expired entries go first, then the oldest |
| FailureThrottles.FailureThrottle.RetryAfter | src/fxa_lite/throttle.py:71-82 | zero under the limit, otherwise whole seconds until the oldest failure in the window expires |
| FailureThrottles.FailureThrottle.RecordFailure | src/fxa_lite/throttle.py:90-106 | the failure is entered last in a key that moves to the end of the table |
| FailureThrottles.FailureThrottle.RecordSuccess | src/fxa_lite/throttle.py:108-117 | the key's history is gone |
| ThrottleTheorems.RunKeepsValid | src/fxa_lite/throttle.py:136-143 | after any run the table has one deque for each key, no empty one, and never more than 4096 |
| ThrottleTheorems.RunRefines | src/fxa_lite/throttle.py:71-143 | while live keys fit, the table shows of every key what the log of all events shows, inside the window |
| ThrottleTheorems.RetryAfterIsExact | src/fxa_lite/throttle.py:71-82 | a key may try again if and only if fewer than limit of its failures since its last success lie inside the window |
| ThrottleTheorems.DequesNeverExceedLimit | src/fxa_lite/throttle.py:84-106 | when every failure follows a passing check no deque exceeds the limit |
| ThrottleTheorems.RunKeepsInTime | src/fxa_lite/throttle.py:90-106 | after any run every deque is in time order |
| ThrottleTheorems.WaitIsExact | src/fxa_lite/throttle.py:71-82 | however many failures a throttled key has, it passes a check at some other time if and only if the limit-th youngest of those in the window has left it |
| ThrottleTheorems.WaitIsRight | src/fxa_lite/throttle.py:71-82 | waiting a whole second less than told never is enough, and waiting as long as told is if and only if the limit-th youngest failure leaves by then; with exactly limit failures it does, and so does any longer wait |
| ThrottleTheorems.ToldWaitFallsShort | src/fxa_lite/throttle.py:71-106 | an input for the failing side, as a run: two checks pass at once, two failures follow, and the key is refused after the wait it was told |
| ThrottleTheorems.RunKeepsOrdered | src/fxa_lite/throttle.py:96-106 | the table's order is the order of most recent failures |
| ThrottleTheorems.EvictionIsOldestFirst | src/fxa_lite/throttle.py:136-143 | a live key is evicted only if no key that stays failed last before it |
| AttachedClients.MergeDevices | src/fxa_lite/auth/attached_clients.py:139-156 | one row object for each device, and two lookups that lead from a pointer to the row of its last device |
| AttachedClients.MergeGrants | src/fxa_lite/auth/attached_clients.py:158-179 | each grant updates the shared row its token is looked up to, or opens a row |
| AttachedClients.MergeSessions | src/fxa_lite/auth/attached_clients.py:181-196 | each session does the same, and overrides the scope |
| AttachedClients.FinishRows | src/fxa_lite/auth/attached_clients.py:198-203 | the last pass over the list |
| AttachedClients.Merge | src/fxa_lite/auth/attached_clients.py:122-203 | the three passes over aliased rows leave distinct row objects with the data the fold of the inputs says |
| AttachedClientsTheorems.MergedSize | src/fxa_lite/auth/attached_clients.py:122-203 | one row for each device, for each grant no device claims, and for each session no device claims |
| AttachedClientsTheorems.DevicesAreConserved | src/fxa_lite/auth/attached_clients.py:139-156 | each device is in exactly one row |
| AttachedClientsTheorems.GrantsAreConserved | src/fxa_lite/auth/attached_clients.py:158-179 | each grant's token is in exactly one row |
| AttachedClientsTheorems.SessionsAreConserved | src/fxa_lite/auth/attached_clients.py:181-196 | each session is in exactly one row |
| AttachedClientsTheorems.PointersDecide | src/fxa_lite/auth/attached_clients.py:153-186 | a grant or session shares a device's row if and only if the device points at it |
| AttachedClientsTheorems.RowsAreApart | src/fxa_lite/auth/attached_clients.py:158-186 | no two grants share a row and no two sessions do |
| AttachedClientsTheorems.RowsAreAccountedFor | src/fxa_lite/auth/attached_clients.py:158-186 | nothing is invented: a row past the devices holds one grant or one session and not both |
| AttachedClientsTheorems.MergedTimes | src/fxa_lite/auth/attached_clients.py:321-328 | a row's creation is the least and its last access the greatest of the known times that landed in it |
| AttachedClientsTheorems.MergedCurrent | src/fxa_lite/auth/attached_clients.py:189 | a row is flagged if and only if the current session landed in it |
| AttachedClientsTheorems.OneRowIsCurrent | src/fxa_lite/auth/attached_clients.py:189 | when the caller's session is listed, one row and no other is flagged |
| AttachedClientsTheorems.MergedShows | src/fxa_lite/auth/attached_clients.py:176-202 | a scope shows only where a grant and no session landed, a device without a type is mobile exactly if a grant landed there, and a device's own name and type survive |
| AttachedRows.MergedRowShows | src/fxa_lite/auth/attached_clients.py:139-203 | each row shows client, token and scope of the last grant in it, the scope only without a session, agent and system of the last session in it, and the name chosen from those on offer, rebranded |
| AttachedRows.ChosenIsFirst | src/fxa_lite/auth/attached_clients.py:158-196 | that name is the first that says something, of the device, its grants and its sessions in order |
| AttachedRows.RebrandKeeps | src/fxa_lite/auth/attached_clients.py:198-203 | a name without the old brand is shown as it is |
| AttachedRows.RebrandReplaces | src/fxa_lite/auth/attached_clients.py:198-203 | and otherwise the first place that has it is replaced, and then the rest |

## Left out

- Routing, middleware, tracing, configuration, the command line and the browser page: presentation and I/O.
- Cryptography and credentials: an authenticated request, a verified token and the challenge of a verifier are given.
- HTTP header spelling and floating-point timestamps: stamps are whole milliseconds, and no claim is made that a header
  is parsed back to the stamp it was written from.
- JSON parsing: the model takes parsed values, of the lengths and characters that the request schemas let through
  (challenges, verifiers, ids of codes and tokens).
- Of a scope URL, the address inside a bracketed host: the model does not check it, and takes whatever the URL library
  rejects outright as refused.
- `sort=index` ties and the order of ids when full records are not asked for: SQL leaves both open, the model fixes one
  order.
- Other users' rows: one user's tables are modelled, and collection names stand for their numeric ids (the tombstone for
  the empty name).
- 64-bit limits of SQLite, and the digit limit of Python's `int`.
- The base64 spelling of batch ids: an id that does not decode is a case of its own, which is refused.
- Counts, usage, quotas and the sweeping of expired rows: little to prove.
- The check for a known bad payload in `crypto` and the body of a single PUT: one condition each.
- Threads inside one tokenserver request: requests are sequential, with crashes between statements.
- Deleted accounts' rows, token lifetimes, `acr_values` and `max_age`, and the redirect URI: not part of the grant
  model. A `service` is given in lower case, and the challenge method is the one the server supports.
- Sorting and rendering of grants, and the reading of a User-Agent: sessions come with what theirs was read as.
- SyncState.StorageTimestampNeverFalls: asks for clocks that do not run backwards; SyncState.StorageTimestampFalls says
  what happens on any other.
- TokenserverTheorems.RunKeepsHealthy: asks for a clock that does not run backwards; on any other
  TokenserverTheorems.RotationTakesOver says which row is current.
- SyncIncremental.IncrementalSyncComplete: asks that the collection is not dropped between the two reads; a drop takes
  the stamp away that the client would sync by.
- SyncRecords.RecordCompareAndSwap: asks that the collection is not dropped in between, for the same reason.
- SyncPages.PageAfterTraffic: asks that no expired record was revived with its old timestamp between the two pages; such
  a record can turn up anywhere in the order. It also asks that the collection is not dropped.
- SyncWalks.ServedExactlyOnce: asks the same between any two pages.
- AttachedClientsTheorems.MergedTimes: asks for times other than zero, which the source reads as not yet known.
- AttachedClientsTheorems.GrantsAreConserved: asks for distinct ids and pointers, as the tables guarantee; with a shared
  pointer the last device claims it.
- ThrottleTheorems.RetryAfterIsExact: asks that the keys with a live failure fit in the table; beyond that
  ThrottleTheorems.EvictionIsOldestFirst says which key is forgotten. Times are real numbers, without rounding.
