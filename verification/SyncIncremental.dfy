/** Incremental sync: a copy of a collection, brought up to date with what is newer than its stamp. */
module SyncIncremental {
  import opened Wrappers
  import opened SyncTables
  import opened Paging
  import opened SyncRequests
  import opened SyncInvariants
  import opened SyncState
  import opened SyncTheorems

  /** A full read of everything newer than a stamp. */
  function Since(newer: Option<int>): Query {
    Query(newer, None, Newest, None, None, [])
  }

  /** The client's copy, overlaid with what it then asks for. */
  function Overlay(copy: Rows, delta: Rows): Rows {
    copy + delta
  }

  /** What a client holds that read everything at `now` and, after the run, what is newer than the stamp it read. */
  ghost function Synced(t: Tables, now: int, reqs: seq<Request>, later: int, coll: string): Rows {
    Overlay(Visible(t.RowsOf(coll), now, Since(None)),
            Visible(Run(t, reqs).RowsOf(coll), later, Since(Some(t.Stamp(coll)))))
  }

  ghost predicate HoldsAsStored(mine: Rows, rows: Rows, id: string)
    requires id in rows
  {
    id in mine && SameContent(mine[id], rows[id])
  }

  /** After any run a visible row is held as it is stored, unless it had expired unseen when the copy was read and has
      not been modified since. */
  lemma IncrementalSyncByStamp(t: Tables, now: int, reqs: seq<Request>, later: int, coll: string, id: string)
    requires AllWellFormed(reqs) && NeverDrops(t, reqs, coll) && coll != TOMBSTONE
    requires id in Visible(Run(t, reqs).RowsOf(coll), later, Since(None))
    ensures var rows := Run(t, reqs).RowsOf(coll);
            HoldsAsStored(Synced(t, now, reqs, later, coll), rows, id)
            <==> !(id in t.RowsOf(coll) && t.RowsOf(coll)[id].expiry <= now && rows[id].modified <= t.Stamp(coll))
  {
    RunIsCaught(t, reqs, coll);
  }

  // ---- what moves a record's timestamp ----

  /** A request that, if accepted, sets payload or sortindex of the record, lands a staged copy of it, or deletes it. */
  predicate Rewrites(t: Tables, op: Operation, coll: string, id: string) {
    match op
    case PutBso(c, body) => c == coll && SetsContentOf([body], id)
    case PostCollection(c, upload, valid) =>
      c == coll
      && (match upload
          case None => SetsContentOf(valid, id)
          case Some(BatchRequest(NewBatch, commit)) => commit && SetsContentOf(valid, id)
          case Some(BatchRequest(BatchId(b), commit)) => commit && (id in t.StagedIn(b) || SetsContentOf(valid, id))
          case Some(BatchRequest(Undecodable, _)) => false)
    case DeleteCollection(c, ids) => c == coll && id in ids
    case DeleteBso(c, deleted) => c == coll && id == deleted
    case _ => false
  }

  /** No accepted request of the run does. */
  ghost predicate NeverRewrites(t: Tables, reqs: seq<Request>, coll: string, id: string) {
    reqs == []
    || (var init, last := reqs[..|reqs| - 1], reqs[|reqs| - 1];
        NeverRewrites(t, init, coll, id)
        && (Rewrites(Run(t, init), last.op, coll, id) ==> !Exec(Run(t, init), last).reply.Answer?))
  }

  /** What writing records leaves of one record's timestamp. */
  lemma {:induction false} PutAllModified(rows: Rows, ps: seq<Posted>, now: int, id: string)
    ensures var after := PutAll(rows, ps, now);
            if id !in rows then id in after ==> after[id].modified == now
            else id in after && after[id].modified == if SetsContentOf(ps, id) then now else rows[id].modified
  {
    if ps != [] {
      var init, p := ps[..|ps| - 1], ps[|ps| - 1];
      PutAllModified(rows, init, now, id);
      assert SetsContentOf(ps, id) <==> SetsContentOf(init, id) || (p.id == id && p.SetsContent()) by {
        assert forall q :: q in ps <==> q in init || q == p;
      }
    }
  }

  /** What a request may have done to one record's timestamp. */
  predicate ModifiedEffect(rows: Rows, after: Rows, now: int, id: string, rewritten: bool) {
    if id !in rows then id in after ==> after[id].modified == now
    else if rewritten then id in after ==> after[id].modified == now
    else id in after && after[id].modified == rows[id].modified
  }

  lemma PostModified(t: Tables, now: int, c: string, upload: Option<BatchRequest>, ps: seq<Posted>, coll: string, id: string)
    requires HandlePost(t, now, c, upload, ps).Ok?
    ensures ModifiedEffect(t.RowsOf(coll), HandlePost(t, now, c, upload, ps).value.tables.RowsOf(coll), now, id,
                           Rewrites(t, PostCollection(c, upload, ps), coll, id))
  {
    if upload.None? || upload.value == BatchRequest(NewBatch, true) {
      PutAllModified(t.RowsOf(c), ps, now, id);
    } else if upload.value.commit {
      var landed := CommitBatch(t, now, c, upload.value.batch.id);
      PutAllModified(landed.RowsOf(c), ps, now, id);
      if ps == [] { assert !SetsContentOf(ps, id); }
    }
  }

  lemma HandleModified(t: Tables, now: int, op: Operation, coll: string, id: string)
    requires Handle(t, now, op).Ok? && !Drops(op, coll)
    ensures ModifiedEffect(t.RowsOf(coll), Handle(t, now, op).value.tables.RowsOf(coll), now, id, Rewrites(t, op, coll, id))
  {
    match op
    case PostCollection(c, upload, valid) => PostModified(t, now, c, upload, valid, coll, id);
    case PutBso(c, body) => PutAllModified(t.RowsOf(c), [body], now, id);
    case _ =>
  }

  lemma ExecModified(t: Tables, req: Request, coll: string, id: string)
    requires Exec(t, req).reply.Answer? && !Drops(req.op, coll)
    ensures ModifiedEffect(t.RowsOf(coll), Exec(t, req).tables.RowsOf(coll), req.now, id, Rewrites(t, req.op, coll, id))
  {
    var target := WriteTarget(req.op);
    var known := if target.Some? then KnowName(t, target.value) else t;
    assert known.RowsOf(coll) == t.RowsOf(coll) && known.items == t.items;
    HandleModified(known, req.now, req.op, coll, id);
  }

  /** A record is older than the stamp exactly as long as nobody rewrote it. */
  lemma {:induction false} OldAsLongAsNotRewritten(t: Tables, reqs: seq<Request>, coll: string, id: string)
    requires Valid(t) && AllWellFormed(reqs) && NeverDrops(t, reqs, coll) && coll != TOMBSTONE && id in t.RowsOf(coll)
    ensures var rows := Run(t, reqs).RowsOf(coll);
            if NeverRewrites(t, reqs, coll, id) then id in rows && rows[id].modified <= t.Stamp(coll)
            else id in rows ==> rows[id].modified > t.Stamp(coll)
  {
    if reqs == [] {
      assert CollectionValid(t, coll);
    } else {
      var init, last := reqs[..|reqs| - 1], reqs[|reqs| - 1];
      NeverDropsInit(t, reqs, coll);
      OldAsLongAsNotRewritten(t, init, coll, id);
      StampOnlyClimbs(t, init, coll);
      if Exec(Run(t, init), last).reply.Answer? { ExecModified(Run(t, init), last, coll, id); }
    }
  }

  // ---- the theorem ----

  /** Incremental sync is complete, but for exactly this: a visible row is not held as it is stored if and only if it had
      expired when the copy was read and no accepted request since has set its payload or sortindex, landed or deleted it. */
  lemma IncrementalSyncComplete(t: Tables, now: int, reqs: seq<Request>, later: int, coll: string, id: string)
    requires Valid(t) && AllWellFormed(reqs) && NeverDrops(t, reqs, coll) && coll != TOMBSTONE
    requires id in Visible(Run(t, reqs).RowsOf(coll), later, Since(None))
    ensures HoldsAsStored(Synced(t, now, reqs, later, coll), Run(t, reqs).RowsOf(coll), id)
            <==> !(id in t.RowsOf(coll) && t.RowsOf(coll)[id].expiry <= now && NeverRewrites(t, reqs, coll, id))
  {
    IncrementalSyncByStamp(t, now, reqs, later, coll, id);
    if id in t.RowsOf(coll) { OldAsLongAsNotRewritten(t, reqs, coll, id); }
  }

  // ---- why expiry is excepted, as a run ----

  const SHORT_LIVED: Request := Request(10, Unconditional, PutBso("c", Posted("a", Some("x"), None, Some(1))))
  const TTL_ONLY: Request := Request(2000, Unconditional, PutBso("c", Posted("a", None, None, Some(1))))

  /** A record written at 10 to live a second, a client that reads at 1500, and an update at 2000 that sends nothing but
      a ttl: the record is back, with the timestamp it had, and the client sees it neither in its copy nor in what is newer. */
  lemma RevivedRowEscapes()
    ensures WellFormed(SHORT_LIVED) && WellFormed(TTL_ONLY)
    ensures var t := Run(EMPTY, [SHORT_LIVED]);
            t.Stamp("c") == 10
            && "a" in Visible(Run(t, [TTL_ONLY]).RowsOf("c"), 2500, Since(None))
            && "a" !in Synced(t, 1500, [TTL_ONLY], 2500, "c")
  {
    var t := Run(EMPTY, [SHORT_LIVED]);
    RunOne(EMPTY, SHORT_LIVED);
    SinglePut(EMPTY, SHORT_LIVED);
    RunOne(t, TTL_ONLY);
    SinglePut(t, TTL_ONLY);
    assert t.RowsOf("c")["a"] == Row(None, "x", 10, 1010);
    assert Run(t, [TTL_ONLY]).RowsOf("c")["a"] == Row(None, "x", 10, 3000);
  }
}
