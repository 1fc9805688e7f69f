/** Which batches a request can name: those that were opened, and neither committed nor wiped since. */
module SyncOpenings {
  import opened Wrappers
  import opened SyncTables
  import opened SyncRequests
  import opened SyncState

  /** An accepted request that opens a batch and is told this id for it. */
  ghost predicate Opens(t: Tables, req: Request, batch: int) {
    req.op.PostCollection? && req.op.upload == Some(BatchRequest(NewBatch, false))
    && Exec(t, req).reply.Answer? && Exec(t, req).reply.body == Staging(batch)
  }

  ghost predicate NeverOpens(t: Tables, reqs: seq<Request>, batch: int) {
    reqs == []
    || (var init, last := reqs[..|reqs| - 1], reqs[|reqs| - 1];
        NeverOpens(t, init, batch) && !Opens(Run(t, init), last, batch))
  }

  /** An append to the batch, or a commit of it. */
  predicate Names(req: Request, batch: int) {
    req.op.PostCollection? && req.op.upload.Some? && req.op.upload.value.batch == BatchId(batch)
  }

  lemma OnlyOpeningOpens(t: Tables, req: Request, batch: int)
    requires batch !in t.batches && !Opens(t, req, batch)
    ensures batch !in Exec(t, req).tables.batches
  {
  }

  lemma {:induction false} ClosedStaysClosed(t: Tables, reqs: seq<Request>, batch: int)
    requires batch !in t.batches && NeverOpens(t, reqs, batch)
    ensures batch !in Run(t, reqs).batches
  {
    if reqs != [] {
      ClosedStaysClosed(t, reqs[..|reqs| - 1], batch);
      OnlyOpeningOpens(Run(t, reqs[..|reqs| - 1]), reqs[|reqs| - 1], batch);
    }
  }

  /** A request that names a batch is served if and only if the batch is open for its collection and not two hours old. */
  lemma BatchIsServed(t: Tables, req: Request, batch: int)
    requires Names(req, batch) && req.pre == Unconditional && MayWrite(t, req.now, req.op.coll)
    ensures Exec(t, req).reply.Answer?
            <==> batch in t.batches && t.batches[batch] == req.op.coll && req.now - batch <= 7_200_000
    ensures !Exec(t, req).reply.Answer? ==> Exec(t, req) == Outcome(t, Refused(BadRequest))
  {
  }

  lemma ClosedIsRefused(t: Tables, req: Request, batch: int)
    requires Names(req, batch) && batch !in t.batches
    ensures Exec(t, req).tables == t && !Exec(t, req).reply.Answer?
    ensures req.pre == Unconditional && MayWrite(t, req.now, req.op.coll) ==> Exec(t, req).reply == Refused(BadRequest)
  {
  }

  /** Every id from the first on, up to the second, is taken. */
  predicate AllTaken(t: Tables, from: int, upTo: int) {
    forall b :: from <= b < upTo ==> b in t.batches
  }

  /** Opening a batch takes the first free one of five ids from this instant on, and is a conflict if there is none. */
  lemma OpeningTakesTheFirst(t: Tables, req: Request)
    requires req.op.PostCollection? && req.op.upload == Some(BatchRequest(NewBatch, false))
    requires req.pre == Unconditional && MayWrite(t, req.now, req.op.coll)
    ensures if AllTaken(t, req.now, req.now + 5) then Exec(t, req) == Outcome(t, Refused(Conflict))
            else exists b :: req.now <= b < req.now + 5 && Opens(t, req, b) && b !in t.batches && AllTaken(t, req.now, b)
  {
    FreeIsFirst(t.batches, req.now, 5);
    var free := FreeBatchId(t.batches, req.now, 5);
    if free.Some? { assert Opens(t, req, free.value); }
  }

  lemma {:induction false} FreeIsFirst(batches: map<int, string>, candidate: int, tries: nat)
    ensures match FreeBatchId(batches, candidate, tries)
            case None => forall b :: candidate <= b < candidate + tries ==> b in batches
            case Some(free) =>
              candidate <= free < candidate + tries && free !in batches && forall b :: candidate <= b < free ==> b in batches
    decreases tries
  {
    if tries > 0 && candidate in batches { FreeIsFirst(batches, candidate + 1, tries - 1); }
  }

  /** An accepted wipe leaves the names of collections, and nothing else in any table. */
  lemma WipeLeaves(t: Tables, wipe: Request)
    requires wipe.op == DeleteStorage && Exec(t, wipe).reply.Answer?
    ensures var u := Exec(t, wipe).tables;
            u.names == t.names
            && (forall coll :: u.RowsOf(coll) == map[] && coll !in u.stamps)
            && forall batch :: batch !in u.batches && u.StagedIn(batch) == map[]
    ensures StorageStamp(Exec(t, wipe).tables.stamps) == 0
  {
  }

  /** After an accepted wipe, a batch that was open before it is refused, whatever follows, until its id is opened again. */
  lemma WipedBatchIsRefused(t: Tables, wipe: Request, reqs: seq<Request>, req: Request, batch: int)
    requires wipe.op == DeleteStorage && Exec(t, wipe).reply.Answer? && Names(req, batch)
    requires NeverOpens(Exec(t, wipe).tables, reqs, batch)
    ensures var u := Run(Exec(t, wipe).tables, reqs);
            Exec(u, req).tables == u && !Exec(u, req).reply.Answer?
            && (req.pre == Unconditional && MayWrite(u, req.now, req.op.coll) ==> Exec(u, req).reply == Refused(BadRequest))
  {
    WipeLeaves(t, wipe);
    ClosedStaysClosed(Exec(t, wipe).tables, reqs, batch);
    ClosedIsRefused(Run(Exec(t, wipe).tables, reqs), req, batch);
  }

  lemma CommitCloses(t: Tables, commit: Request, batch: int)
    requires Names(commit, batch) && commit.op.upload.value.commit && Exec(t, commit).reply.Answer?
    ensures var u := Exec(t, commit).tables;
            batch !in u.batches && u.StagedIn(batch) == map[]
            && forall b :: b != batch ==> (b in u.batches <==> b in t.batches) && u.StagedIn(b) == t.StagedIn(b)
  {
  }

  /** And so is a batch that was committed: it is committed once for each time it is opened. */
  lemma CommittedBatchIsRefused(t: Tables, commit: Request, reqs: seq<Request>, req: Request, batch: int)
    requires Names(commit, batch) && commit.op.upload.value.commit && Exec(t, commit).reply.Answer? && Names(req, batch)
    requires NeverOpens(Exec(t, commit).tables, reqs, batch)
    ensures var u := Run(Exec(t, commit).tables, reqs);
            Exec(u, req).tables == u && !Exec(u, req).reply.Answer?
            && (req.pre == Unconditional && MayWrite(u, req.now, req.op.coll) ==> Exec(u, req).reply == Refused(BadRequest))
  {
    CommitCloses(t, commit, batch);
    ClosedStaysClosed(Exec(t, commit).tables, reqs, batch);
    ClosedIsRefused(Run(Exec(t, commit).tables, reqs), req, batch);
  }

  ghost predicate OpenFor(t: Tables, batch: int, coll: string) {
    batch in t.batches && t.batches[batch] == coll
  }

  /** From an empty account, a batch that is open was opened by some request for its collection, and has been open ever
      since: neither a commit nor a wipe came in between. */
  lemma {:induction false} OpenWasOpened(reqs: seq<Request>, batch: int) returns (i: nat)
    requires batch in Run(EMPTY, reqs).batches
    ensures i < |reqs| && Opens(Run(EMPTY, reqs[..i]), reqs[i], batch)
    ensures forall k :: i < k <= |reqs| ==> OpenFor(Run(EMPTY, reqs[..k]), batch, reqs[i].op.coll)
  {
    var init, last := reqs[..|reqs| - 1], reqs[|reqs| - 1];
    assert reqs[..|reqs|] == reqs;
    if Opens(Run(EMPTY, init), last, batch) {
      i := |init|;
      OpeningIsForItsCollection(Run(EMPTY, init), last, batch);
    } else {
      if batch !in Run(EMPTY, init).batches { OnlyOpeningOpens(Run(EMPTY, init), last, batch); }
      i := OpenWasOpened(init, batch);
      assert init[..i] == reqs[..i] && init[..|init|] == init;
      CollectionStays(Run(EMPTY, init), last, batch);
      forall k | i < k <= |reqs| ensures OpenFor(Run(EMPTY, reqs[..k]), batch, reqs[i].op.coll) {
        if k < |reqs| { assert reqs[..k] == init[..k]; }
      }
    }
  }

  lemma OpeningIsForItsCollection(t: Tables, req: Request, batch: int)
    requires Opens(t, req, batch)
    ensures OpenFor(Exec(t, req).tables, batch, req.op.coll)
  {
    FreeBatchIdIsFree(t.batches, req.now, MAX_BATCH_CREATE_RETRY);
  }

  lemma CollectionStays(t: Tables, req: Request, batch: int)
    requires batch in t.batches && batch in Exec(t, req).tables.batches
    ensures Exec(t, req).tables.batches[batch] == t.batches[batch]
  {
    if req.op.PostCollection? && Exec(t, req).reply.Answer? {
      PostedBatchStays(KnowName(t, req.op.coll), req.now, req.op.coll, req.op.upload, req.op.valid, batch);
    }
  }

  lemma PostedBatchStays(t: Tables, now: int, coll: string, upload: Option<BatchRequest>, ps: seq<Posted>, batch: int)
    requires batch in t.batches && HandlePost(t, now, coll, upload, ps).Ok?
    requires batch in HandlePost(t, now, coll, upload, ps).value.tables.batches
    ensures HandlePost(t, now, coll, upload, ps).value.tables.batches[batch] == t.batches[batch]
  {
    FreeBatchIdIsFree(t.batches, now, MAX_BATCH_CREATE_RETRY);
  }
}
