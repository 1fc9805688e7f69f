/** What every request keeps, and what follows over whole runs. */
module SyncInvariants {
  import opened Wrappers
  import opened SyncTables
  import opened SyncRequests

  // ---- what one request does to one collection ----

  predicate SameStamp(t: Tables, u: Tables, coll: string) {
    (coll in t.stamps <==> coll in u.stamps) && t.Stamp(coll) == u.Stamp(coll)
  }

  predicate Untouched(t: Tables, u: Tables, coll: string) {
    t.RowsOf(coll) == u.RowsOf(coll) && SameStamp(t, u, coll)
  }

  /** The same record as far as a client can see. */
  predicate SameContent(a: Row, b: Row) {
    a.payload == b.payload && a.sortindex == b.sortindex && a.modified == b.modified
  }

  /** Every row either carries the instant `now` or has the content it had. */
  predicate OnlyFreshChanges(rows: Rows, rows': Rows, now: int) {
    forall id :: id in rows' ==>
      rows'[id].modified == now || (id in rows && SameContent(rows[id], rows'[id]))
  }

  predicate Written(t: Tables, u: Tables, coll: string, now: int) {
    MayWrite(t, now, coll) && coll in u.stamps && u.stamps[coll] == now
    && OnlyFreshChanges(t.RowsOf(coll), u.RowsOf(coll), now)
  }

  predicate Gone(u: Tables, coll: string) {
    coll !in u.stamps && u.RowsOf(coll) == map[]
  }

  /** A wipe, or the deletion of this whole collection. */
  predicate Drops(op: Operation, coll: string) {
    op == DeleteStorage || op == DeleteCollection(coll, [])
  }

  lemma {:induction false} PutAllIsFresh(rows: Rows, ps: seq<Posted>, now: int)
    ensures OnlyFreshChanges(rows, PutAll(rows, ps, now), now)
  {
    if ps != [] { PutAllIsFresh(rows, ps[..|ps| - 1], now); }
  }

  /** All that a request may do to a collection: nothing, a write past its old stamp, or dropping it. */
  predicate LocalEffect(t: Tables, u: Tables, now: int, op: Operation, coll: string) {
    Untouched(t, u, coll)
    || (WriteTarget(op) == Some(coll) && Written(t, u, coll, now))
    || (Drops(op, coll) && Gone(u, coll))
  }

  lemma PostBsosIsLocal(t: Tables, now: int, c: string, ps: seq<Posted>, coll: string)
    requires MayWrite(t, now, c)
    ensures if c == coll then Written(t, PostBsos(t, now, c, ps), coll, now)
            else Untouched(t, PostBsos(t, now, c, ps), coll)
  {
    PutAllIsFresh(t.RowsOf(c), ps, now);
  }

  lemma CommitIsLocal(t: Tables, now: int, c: string, batch: int, ps: seq<Posted>, coll: string)
    requires MayWrite(t, now, c)
    ensures var landed := CommitBatch(t, now, c, batch);
            var both := PostBsos(landed, now, c, ps);
            if c == coll then Written(t, landed, coll, now) && Written(t, both, coll, now)
            else Untouched(t, landed, coll) && Untouched(t, both, coll)
  {
    PutAllIsFresh(CommitBatch(t, now, c, batch).RowsOf(c), ps, now);
  }

  lemma PostIsLocal(t: Tables, now: int, c: string, upload: Option<BatchRequest>, ps: seq<Posted>, coll: string)
    requires HandlePost(t, now, c, upload, ps).Ok? && MayWrite(t, now, c)
    ensures var u := HandlePost(t, now, c, upload, ps).value.tables;
            Untouched(t, u, coll) || (c == coll && Written(t, u, coll, now))
  {
    if upload.None? || upload.value == BatchRequest(NewBatch, true) {
      PostBsosIsLocal(t, now, c, ps, coll);
    } else if upload.value.commit {
      CommitIsLocal(t, now, c, upload.value.batch.id, ps, coll);
    }
  }

  lemma HandleIsLocal(t: Tables, now: int, op: Operation, coll: string)
    requires Handle(t, now, op).Ok? && coll != TOMBSTONE
    requires WriteTarget(op).Some? ==> MayWrite(t, now, WriteTarget(op).value)
    ensures LocalEffect(t, Handle(t, now, op).value.tables, now, op, coll)
  {
    match op
    case PostCollection(c, upload, valid) => PostIsLocal(t, now, c, upload, valid, coll);
    case PutBso(c, body) => PostBsosIsLocal(t, now, c, [body], coll);
    case _ =>
  }

  lemma ExecIsLocal(t: Tables, req: Request, coll: string)
    requires coll != TOMBSTONE
    ensures LocalEffect(t, Exec(t, req).tables, req.now, req.op, coll)
  {
    var target := WriteTarget(req.op);
    var known := if target.Some? then KnowName(t, target.value) else t;
    assert known.RowsOf(coll) == t.RowsOf(coll);
    if Handle(known, req.now, req.op).Ok? && (target.Some? ==> MayWrite(t, req.now, target.value)) {
      HandleIsLocal(known, req.now, req.op, coll);
    }
  }
}
