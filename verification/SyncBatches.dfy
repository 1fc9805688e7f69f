/** Staging a batch and committing it comes to the same as posting its records at that instant. */
module SyncBatches {
  import opened Wrappers
  import opened SyncTables
  import opened SyncRequests
  import opened SyncState

  // ---- what is staged ----

  /** The last copy of each id, in the order those copies were sent. */
  function LastCopies(ps: seq<Posted>): seq<Posted> {
    if ps == [] then []
    else Without(LastCopies(ps[..|ps| - 1]), ps[|ps| - 1].id) + [ps[|ps| - 1]]
  }

  function Without(ps: seq<Posted>, id: string): seq<Posted> {
    if ps == [] then []
    else Without(ps[..|ps| - 1], id) + if ps[|ps| - 1].id == id then [] else [ps[|ps| - 1]]
  }

  lemma {:induction false} StageAllConcat(staged: Staged, a: seq<Posted>, b: seq<Posted>)
    ensures StageAll(staged, a + b) == StageAll(StageAll(staged, a), b)
  {
    if b == [] {
      assert a + b == a;
    } else {
      assert (a + b)[..|a + b| - 1] == a + b[..|b| - 1];
      StageAllConcat(staged, a, b[..|b| - 1]);
    }
  }

  lemma {:induction false} PutAllConcat(rows: Rows, a: seq<Posted>, b: seq<Posted>, now: int)
    ensures PutAll(rows, a + b, now) == PutAll(PutAll(rows, a, now), b, now)
  {
    if b == [] {
      assert a + b == a;
    } else {
      assert (a + b)[..|a + b| - 1] == a + b[..|b| - 1];
      PutAllConcat(rows, a, b[..|b| - 1], now);
    }
  }

  /** The records an accepted request added to a batch. */
  ghost function Appended(t: Tables, req: Request, batch: int): seq<Posted> {
    if req.op.PostCollection? && Exec(t, req).reply.Answer? && Exec(t, req).reply.body == Staging(batch)
    then req.op.valid else []
  }

  ghost function AppendedIn(t: Tables, reqs: seq<Request>, batch: int): seq<Posted> {
    if reqs == [] then []
    else AppendedIn(t, reqs[..|reqs| - 1], batch) + Appended(Run(t, reqs[..|reqs| - 1]), reqs[|reqs| - 1], batch)
  }

  /** The request neither commits the batch nor wipes the store. */
  predicate LeavesOpen(op: Operation, batch: int) {
    op != DeleteStorage
    && (op.PostCollection? ==> op.upload != Some(BatchRequest(BatchId(batch), true)))
  }

  /** None that was accepted, that is: a refused commit can be tried again. */
  ghost predicate StaysOpen(t: Tables, reqs: seq<Request>, batch: int) {
    reqs == []
    || (StaysOpen(t, reqs[..|reqs| - 1], batch)
        && (Exec(Run(t, reqs[..|reqs| - 1]), reqs[|reqs| - 1]).reply.Answer? ==> LeavesOpen(reqs[|reqs| - 1].op, batch)))
  }

  predicate OpenFor(t: Tables, batch: int, coll: string) {
    batch in t.batches && t.batches[batch] == coll
  }

  /** The batch is open still, and holds what it held and then ps. */
  predicate Holds(t: Tables, u: Tables, batch: int, coll: string, ps: seq<Posted>) {
    OpenFor(u, batch, coll) && u.StagedIn(batch) == StageAll(t.StagedIn(batch), ps)
  }

  lemma PostLeavesOpen(t: Tables, now: int, c: string, upload: Option<BatchRequest>, ps: seq<Posted>, batch: int, coll: string)
    requires OpenFor(t, batch, coll) && upload != Some(BatchRequest(BatchId(batch), true))
    requires HandlePost(t, now, c, upload, ps).Ok?
    ensures var h := HandlePost(t, now, c, upload, ps).value;
            Holds(t, h.tables, batch, coll, if h.body == Staging(batch) then ps else [])
  {
    if upload.None? || upload.value == BatchRequest(NewBatch, true) {
      PostingLeavesOpen(t, now, c, ps, batch, coll);
    } else if upload.value.batch.NewBatch? {
      FreeBatchIdIsFree(t.batches, now, MAX_BATCH_CREATE_RETRY);
    } else if upload.value.commit {
      var landed := CommitBatch(t, now, c, upload.value.batch.id);
      CommitLeavesOpen(t, now, c, upload.value.batch.id, batch, coll);
      PostingLeavesOpen(landed, now, c, ps, batch, coll);
    }
  }

  lemma PostingLeavesOpen(t: Tables, now: int, c: string, ps: seq<Posted>, batch: int, coll: string)
    requires OpenFor(t, batch, coll)
    ensures Holds(t, PostBsos(t, now, c, ps), batch, coll, [])
  {
  }

  lemma CommitLeavesOpen(t: Tables, now: int, c: string, b: int, batch: int, coll: string)
    requires OpenFor(t, batch, coll) && b != batch
    ensures Holds(t, CommitBatch(t, now, c, b), batch, coll, [])
  {
  }

  lemma HandleLeavesOpen(t: Tables, now: int, op: Operation, batch: int, coll: string)
    requires OpenFor(t, batch, coll) && LeavesOpen(op, batch) && Handle(t, now, op).Ok?
    ensures var h := Handle(t, now, op).value;
            Holds(t, h.tables, batch, coll, if op.PostCollection? && h.body == Staging(batch) then op.valid else [])
  {
    match op
    case PostCollection(c, upload, valid) => PostLeavesOpen(t, now, c, upload, valid, batch, coll);
    case _ =>
  }

  lemma ExecLeavesOpen(t: Tables, req: Request, batch: int, coll: string)
    requires OpenFor(t, batch, coll) && (Exec(t, req).reply.Answer? ==> LeavesOpen(req.op, batch))
    ensures Holds(t, Exec(t, req).tables, batch, coll, Appended(t, req, batch))
  {
    var target := WriteTarget(req.op);
    var known := if target.Some? then KnowName(t, target.value) else t;
    if Exec(t, req).reply.Answer? {
      HandleLeavesOpen(known, req.now, req.op, batch, coll);
    }
  }

  /** While a batch is open, it holds the last copy of whatever was appended to it; the rest of the
      traffic does not matter. */
  lemma {:induction false} BatchHolds(t: Tables, reqs: seq<Request>, batch: int, coll: string)
    requires OpenFor(t, batch, coll) && StaysOpen(t, reqs, batch)
    ensures Holds(t, Run(t, reqs), batch, coll, AppendedIn(t, reqs, batch))
  {
    if reqs != [] {
      var init, req := reqs[..|reqs| - 1], reqs[|reqs| - 1];
      BatchHolds(t, init, batch, coll);
      ExecLeavesOpen(Run(t, init), req, batch, coll);
      StageAllConcat(t.StagedIn(batch), AppendedIn(t, init, batch), Appended(Run(t, init), req, batch));
    }
  }

  /** An append is invisible: no record and no timestamp moves. */
  lemma AppendIsInvisible(t: Tables, req: Request)
    requires Exec(t, req).reply.Answer? && Exec(t, req).reply.body.Staging?
    ensures Exec(t, req).tables.bsos == t.bsos && Exec(t, req).tables.stamps == t.stamps
    ensures Exec(t, req).reply.lastModified == t.Stamp(req.op.coll)
  {
  }

  // ---- committing against posting ----

  predicate Distinct(ps: seq<Posted>) {
    forall i, j :: 0 <= i < j < |ps| ==> ps[i].id != ps[j].id
  }

  lemma {:induction false} WithoutMembers(ps: seq<Posted>, id: string)
    ensures forall p :: p in Without(ps, id) <==> p in ps && p.id != id
    ensures Distinct(ps) ==> Distinct(Without(ps, id))
  {
    if ps != [] {
      var init, p := ps[..|ps| - 1], ps[|ps| - 1];
      WithoutMembers(init, id);
      assert ps == init + [p];
      if Distinct(ps) {
        assert Distinct(init);
        forall q | q in Without(init, id) ensures q.id != p.id { assert q in init; }
      }
    }
  }

  /** Each staged item is the one last copy of its id. */
  lemma {:induction false} LastCopiesAreDistinct(ps: seq<Posted>)
    ensures Distinct(LastCopies(ps))
  {
    if ps != [] {
      LastCopiesAreDistinct(ps[..|ps| - 1]);
      WithoutMembers(LastCopies(ps[..|ps| - 1]), ps[|ps| - 1].id);
    }
  }

  lemma {:induction false} LastCopiesAreStaged(ps: seq<Posted>)
    ensures forall p :: p in LastCopies(ps) <==> p.id in StageAll(map[], ps) && StageAll(map[], ps)[p.id] == p
    ensures forall id :: id in StageAll(map[], ps) ==> StageAll(map[], ps)[id].id == id
  {
    if ps != [] {
      var init, p := ps[..|ps| - 1], ps[|ps| - 1];
      LastCopiesAreStaged(init);
      WithoutMembers(LastCopies(init), p.id);
    }
  }

  /** Posting distinct records updates each row once. */
  lemma {:induction false} PutAllDistinct(rows: Rows, ps: seq<Posted>, now: int, id: string)
    requires Distinct(ps)
    ensures forall p :: p in ps && p.id == id ==>
              id in PutAll(rows, ps, now) && PutAll(rows, ps, now)[id] == PutRow(Find(rows, id), p, now)
    ensures (forall p :: p in ps ==> p.id != id) ==> Find(PutAll(rows, ps, now), id) == Find(rows, id)
  {
    if ps != [] {
      var init, p := ps[..|ps| - 1], ps[|ps| - 1];
      PutAllDistinct(rows, init, now, id);
      assert ps == init + [p];
      forall q | q in ps && q.id == id
        ensures id in PutAll(rows, ps, now) && PutAll(rows, ps, now)[id] == PutRow(Find(rows, id), q, now)
      {
        if p.id == id {
          assert forall r :: r in init ==> r.id != id;
          assert q == p;
        }
      }
    }
  }

  /** Rows that agree in payload and sortindex, and in `modified` and `expiry` exactly if told so. */
  predicate Agree(a: Option<Row>, b: Option<Row>, sameModified: bool, sameExpiry: bool) {
    (a.Some? <==> b.Some?)
    && (a.None? ==> sameModified && sameExpiry)
    && (a.Some? ==>
          a.value.payload == b.value.payload && a.value.sortindex == b.value.sortindex
          && (a.value.modified == b.value.modified <==> sameModified)
          && (a.value.expiry == b.value.expiry <==> sameExpiry))
  }

  /** Writing the same records over agreeing rows keeps them agreeing, and settles what it sets and no more. */
  lemma {:induction false} PutAllKeepsAgreement(
      a: Rows, b: Rows, ps: seq<Posted>, now: int, id: string, sameModified: bool, sameExpiry: bool)
    requires Agree(Find(a, id), Find(b, id), sameModified, sameExpiry)
    ensures Agree(Find(PutAll(a, ps, now), id), Find(PutAll(b, ps, now), id),
                  sameModified || SetsContentOf(ps, id), sameExpiry || SetsTtlOf(ps, id))
  {
    if ps != [] {
      var init, p := ps[..|ps| - 1], ps[|ps| - 1];
      PutAllKeepsAgreement(a, b, init, now, id, sameModified, sameExpiry);
      SetsByLast(ps, id);
    }
  }

  lemma SetsByLast(ps: seq<Posted>, id: string)
    requires ps != []
    ensures var init, p := ps[..|ps| - 1], ps[|ps| - 1];
            (SetsContentOf(ps, id) <==> SetsContentOf(init, id) || (p.id == id && p.SetsContent()))
            && (SetsTtlOf(ps, id) <==> SetsTtlOf(init, id) || (p.id == id && p.ttl.Some?))
  {
    assert forall q :: q in ps <==> q in ps[..|ps| - 1] || q == ps[|ps| - 1];
  }

  /** Where `modified` agrees: everywhere but on a staged record that was there, to which nobody sent content, and which
      did not carry this very instant already. */
  predicate ModifiedAgrees(rows: Rows, staged: Staged, sent: seq<Posted>, now: int, id: string) {
    id !in rows || id !in staged || SetsContentOf(sent, id) || rows[id].modified == now
  }

  /** Where `expiry` agrees: everywhere but on a staged record that is new and to which nobody sent a ttl. (At the epoch
      itself the two ways of never expiring coincide.) */
  predicate ExpiryAgrees(rows: Rows, staged: Staged, sent: seq<Posted>, now: int, id: string) {
    id in rows || id !in staged || SetsTtlOf(sent, id) || now == 0
  }

  /** A commit against posting the last copies. */
  lemma CommitAgreesWithPosting(rows: Rows, ps: seq<Posted>, now: int, id: string)
    ensures var staged, copies := StageAll(map[], ps), LastCopies(ps);
            Agree(Find(CommitAll(rows, staged, now), id), Find(PutAll(rows, copies, now), id),
                  ModifiedAgrees(rows, staged, copies, now, id), ExpiryAgrees(rows, staged, copies, now, id))
  {
    LastCopiesLand(rows, ps, now, id);
    var staged, copies := StageAll(map[], ps), LastCopies(ps);
    if id in staged {
      SetsOfLastCopy(ps, id);
    }
  }

  /** Posting the last copies updates a staged record once, with the staged copy, and no other. */
  lemma LastCopiesLand(rows: Rows, ps: seq<Posted>, now: int, id: string)
    ensures var staged := StageAll(map[], ps);
            Find(PutAll(rows, LastCopies(ps), now), id)
            == if id in staged then Some(PutRow(Find(rows, id), staged[id], now)) else Find(rows, id)
  {
    var staged, copies := StageAll(map[], ps), LastCopies(ps);
    LastCopiesAreStaged(ps);
    LastCopiesAreDistinct(ps);
    PutAllDistinct(rows, copies, now, id);
    if id in staged {
      assert staged[id] in copies;
    }
  }

  lemma SetsOfLastCopy(ps: seq<Posted>, id: string)
    requires id in StageAll(map[], ps)
    ensures SetsContentOf(LastCopies(ps), id) <==> StageAll(map[], ps)[id].SetsContent()
    ensures SetsTtlOf(LastCopies(ps), id) <==> StageAll(map[], ps)[id].ttl.Some?
  {
    LastCopiesAreStaged(ps);
    var copy := StageAll(map[], ps)[id];
    assert copy in LastCopies(ps) && copy.id == id;
  }

  /** The record as the commit leaves it and as posting would: equal, but for exactly these exceptions. */
  predicate RowsRefine(
      rows: Rows, landed: Rows, posted: Rows, staged: Staged, sent: seq<Posted>, now: int, id: string) {
    Agree(Find(landed, id), Find(posted, id),
          ModifiedAgrees(rows, staged, sent, now, id), ExpiryAgrees(rows, staged, sent, now, id))
  }

  lemma CommitRefinesPosting(rows: Rows, appended: seq<Posted>, carried: seq<Posted>, now: int, id: string)
    ensures var staged, sent := StageAll(map[], appended), LastCopies(appended) + carried;
            RowsRefine(rows, PutAll(CommitAll(rows, staged, now), carried, now), PutAll(rows, sent, now), staged, sent, now, id)
  {
    var staged, copies := StageAll(map[], appended), LastCopies(appended);
    CommitAgreesWithPosting(rows, appended, now, id);
    PutAllKeepsAgreement(CommitAll(rows, staged, now), PutAll(rows, copies, now), carried, now, id,
                         ModifiedAgrees(rows, staged, copies, now, id), ExpiryAgrees(rows, staged, copies, now, id));
    PutAllConcat(rows, copies, carried, now);
    SetsOfConcat(copies, carried, id);
  }

  lemma SetsOfConcat(a: seq<Posted>, b: seq<Posted>, id: string)
    ensures SetsContentOf(a + b, id) <==> SetsContentOf(a, id) || SetsContentOf(b, id)
    ensures SetsTtlOf(a + b, id) <==> SetsTtlOf(a, id) || SetsTtlOf(b, id)
  {
    assert forall p :: p in a + b <==> p in a || p in b;
  }

  lemma ExecCommits(t: Tables, commit: Request, batch: int)
    requires commit.op.PostCollection? && commit.op.upload == Some(BatchRequest(BatchId(batch), true))
    requires Exec(t, commit).reply.Answer?
    ensures var c, u := commit.op.coll, Exec(t, commit).tables;
            OpenFor(t, batch, c) && u.Stamp(c) == commit.now && batch !in u.batches && batch !in u.items
            && u.RowsOf(c) == PutAll(CommitAll(t.RowsOf(c), t.StagedIn(batch), commit.now), commit.op.valid, commit.now)
  {
    var c := commit.op.coll;
    var landed := CommitBatch(KnowName(t, c), commit.now, c, batch);
    assert landed.RowsOf(c) == CommitAll(t.RowsOf(c), t.StagedIn(batch), commit.now);
  }

  /** A batch that was just opened holds exactly the records the opening request carried. */
  lemma OpeningABatch(t: Tables, req: Request, batch: int)
    requires BatchesValid(t) && req.op.PostCollection? && req.op.upload == Some(BatchRequest(NewBatch, false))
    requires Exec(t, req).reply.Answer? && Exec(t, req).reply.body == Staging(batch)
    ensures batch !in t.batches && req.now <= batch < req.now + MAX_BATCH_CREATE_RETRY
    ensures OpenFor(Exec(t, req).tables, batch, req.op.coll)
    ensures Exec(t, req).tables.StagedIn(batch) == StageAll(map[], req.op.valid)
  {
    FreeBatchIdIsFree(t.batches, req.now, MAX_BATCH_CREATE_RETRY);
  }

  /** The theorem, over runs: a batch that was opened with some records (or none), filled by any
      traffic and then committed, with records carried along or not, leaves in its collection what
      posting the last staged copy of each id and then the carried records would have left there at
      that instant. In a reachable state neither coincidence of instants is possible. */
  lemma BatchRefinesPosting(
      t: Tables, first: seq<Posted>, reqs: seq<Request>, batch: int, coll: string, commit: Request, id: string)
    requires OpenFor(t, batch, coll) && t.StagedIn(batch) == StageAll(map[], first) && StaysOpen(t, reqs, batch)
    requires commit.op.PostCollection? && commit.op.upload == Some(BatchRequest(BatchId(batch), true))
    requires Exec(Run(t, reqs), commit).reply.Answer?
    ensures var before, appended := Run(t, reqs), first + AppendedIn(t, reqs, batch);
            var sent := LastCopies(appended) + commit.op.valid;
            var landed, posted := Exec(before, commit).tables, PostBsos(before, commit.now, coll, sent);
            landed.Stamp(coll) == posted.Stamp(coll) && batch !in landed.batches && batch !in landed.items
            && RowsRefine(before.RowsOf(coll), landed.RowsOf(coll), posted.RowsOf(coll),
                          StageAll(map[], appended), sent, commit.now, id)
    ensures Valid(t) && AllWellFormed(reqs) && WellFormed(commit) ==>
              commit.now != 0
              && (id in Run(t, reqs).RowsOf(coll) ==> Run(t, reqs).RowsOf(coll)[id].modified < commit.now)
  {
    BatchHolds(t, reqs, batch, coll);
    StageAllConcat(map[], first, AppendedIn(t, reqs, batch));
    ExecCommits(Run(t, reqs), commit, batch);
    CommitRefinesPosting(Run(t, reqs).RowsOf(coll), first + AppendedIn(t, reqs, batch), commit.op.valid, commit.now, id);
    if Valid(t) && AllWellFormed(reqs) {
      RunKeepsValid(t, reqs);
      assert CollectionValid(Run(t, reqs), coll);
    }
  }
}
