/** Nothing comes back from a wipe: every stored or staged field was sent after it. */
module SyncWipe {
  import opened Wrappers
  import opened SyncTables
  import opened SyncRequests

  /** A record as some request sent it to a collection. */
  datatype Sent = Sent(coll: string, body: Posted)

  function SentBy(req: Request): set<Sent> {
    match req.op
    case PostCollection(c, _, valid) => set p | p in valid :: Sent(c, p)
    case PutBso(c, body) => {Sent(c, body)}
    case _ => {}
  }

  /** What the requests of a run sent, refused requests aside. */
  ghost function SentIn(t: Tables, reqs: seq<Request>): set<Sent> {
    if reqs == [] then {}
    else
      var init, req := reqs[..|reqs| - 1], reqs[|reqs| - 1];
      SentIn(t, init) + if Exec(Run(t, init), req).reply.Answer? then SentBy(req) else {}
  }

  /** Someone sent this id to this collection; and its payload and sortindex, unless they are the
      defaults of a record that named none. */
  ghost predicate RowSent(sent: set<Sent>, coll: string, id: string, row: Row) {
    (exists s :: s in sent && s.coll == coll && s.body.id == id)
    && (row.payload == ""
        || exists s :: s in sent && s.coll == coll && s.body.id == id && s.body.payload == Some(row.payload))
    && (row.sortindex == None
        || exists s :: s in sent && s.coll == coll && s.body.id == id && s.body.sortindex == row.sortindex)
  }

  ghost predicate RowsSent(sent: set<Sent>, coll: string, rows: Rows) {
    forall id :: id in rows ==> RowSent(sent, coll, id, rows[id])
  }

  predicate StagedSent(sent: set<Sent>, coll: string, staged: Staged) {
    forall id :: id in staged ==> staged[id].id == id && Sent(coll, staged[id]) in sent
  }

  ghost predicate Traceable(t: Tables, sent: set<Sent>) {
    (forall c :: c in t.bsos ==> RowsSent(sent, c, t.bsos[c]))
    && (forall b :: b in t.items ==> b in t.batches && StagedSent(sent, t.batches[b], t.items[b]))
  }

  lemma TraceableGrows(t: Tables, sent: set<Sent>, more: set<Sent>)
    requires Traceable(t, sent)
    ensures Traceable(t, sent + more)
  {
    forall c | c in t.bsos ensures RowsSent(sent + more, c, t.bsos[c]) {
      forall id | id in t.bsos[c] ensures RowSent(sent + more, c, id, t.bsos[c][id]) {
        RowSentGrows(sent, more, c, id, t.bsos[c][id]);
      }
    }
  }

  lemma RowSentGrows(sent: set<Sent>, more: set<Sent>, coll: string, id: string, row: Row)
    requires RowSent(sent, coll, id, row)
    ensures RowSent(sent + more, coll, id, row)
  {
    assert forall s :: s in sent ==> s in sent + more;
  }

  lemma UpdatedRowSent(sent: set<Sent>, coll: string, prior: Option<Row>, p: Posted, row: Row)
    requires Sent(coll, p) in sent
    requires prior.Some? ==> RowSent(sent, coll, p.id, prior.value)
    requires row.payload == p.payload.GetOr(if prior.Some? then prior.value.payload else "")
    requires row.sortindex == if p.sortindex.Some? || prior.None? then p.sortindex else prior.value.sortindex
    ensures RowSent(sent, coll, p.id, row)
  {
    var s := Sent(coll, p);
    assert s in sent && s.coll == coll && s.body.id == p.id;
  }

  lemma {:induction false} PutAllSent(sent: set<Sent>, coll: string, rows: Rows, ps: seq<Posted>, now: int)
    requires RowsSent(sent, coll, rows) && forall p :: p in ps ==> Sent(coll, p) in sent
    ensures RowsSent(sent, coll, PutAll(rows, ps, now))
  {
    if ps != [] {
      var init, p := ps[..|ps| - 1], ps[|ps| - 1];
      PutAllSent(sent, coll, rows, init, now);
      var before := PutAll(rows, init, now);
      UpdatedRowSent(sent, coll, Find(before, p.id), p, PutRow(Find(before, p.id), p, now));
    }
  }

  lemma CommitAllSent(sent: set<Sent>, coll: string, rows: Rows, staged: Staged, now: int)
    requires RowsSent(sent, coll, rows) && StagedSent(sent, coll, staged)
    ensures RowsSent(sent, coll, CommitAll(rows, staged, now))
  {
    var landed := CommitAll(rows, staged, now);
    forall id | id in landed ensures RowSent(sent, coll, id, landed[id]) {
      if id in staged { UpdatedRowSent(sent, coll, Find(rows, id), staged[id], landed[id]); }
    }
  }

  lemma {:induction false} StageAllSent(sent: set<Sent>, coll: string, staged: Staged, ps: seq<Posted>)
    requires StagedSent(sent, coll, staged) && forall p :: p in ps ==> Sent(coll, p) in sent
    ensures StagedSent(sent, coll, StageAll(staged, ps))
  {
    if ps != [] { StageAllSent(sent, coll, staged, ps[..|ps| - 1]); }
  }

  lemma PostBsosTraceable(t: Tables, sent: set<Sent>, now: int, coll: string, ps: seq<Posted>)
    requires Traceable(t, sent) && forall p :: p in ps ==> Sent(coll, p) in sent
    ensures Traceable(PostBsos(t, now, coll, ps), sent)
  {
    PutAllSent(sent, coll, t.RowsOf(coll), ps, now);
  }

  lemma AppendTraceable(t: Tables, sent: set<Sent>, coll: string, batch: int, ps: seq<Posted>)
    requires Traceable(t, sent) && forall p :: p in ps ==> Sent(coll, p) in sent
    requires batch in t.batches && t.batches[batch] == coll
    ensures Traceable(Append(t, batch, ps), sent)
  {
    StageAllSent(sent, coll, t.StagedIn(batch), ps);
  }

  lemma CommitTraceable(t: Tables, sent: set<Sent>, now: int, coll: string, batch: int)
    requires Traceable(t, sent) && batch in t.batches && t.batches[batch] == coll
    ensures Traceable(CommitBatch(t, now, coll, batch), sent)
  {
    CommitAllSent(sent, coll, t.RowsOf(coll), t.StagedIn(batch), now);
  }

  lemma PostTraceable(t: Tables, sent: set<Sent>, now: int, c: string, upload: Option<BatchRequest>, ps: seq<Posted>)
    requires Traceable(t, sent) && forall p :: p in ps ==> Sent(c, p) in sent
    requires HandlePost(t, now, c, upload, ps).Ok?
    ensures Traceable(HandlePost(t, now, c, upload, ps).value.tables, sent)
  {
    if upload.None? || upload.value == BatchRequest(NewBatch, true) {
      PostBsosTraceable(t, sent, now, c, ps);
    } else if upload.value.batch.NewBatch? {
      FreeBatchIdIsFree(t.batches, now, MAX_BATCH_CREATE_RETRY);
      var b := FreeBatchId(t.batches, now, MAX_BATCH_CREATE_RETRY).value;
      AppendTraceable(t.(batches := t.batches[b := c]), sent, c, b, ps);
    } else if !upload.value.commit {
      AppendTraceable(t, sent, c, upload.value.batch.id, ps);
    } else {
      CommitTraceable(t, sent, now, c, upload.value.batch.id);
      PostBsosTraceable(CommitBatch(t, now, c, upload.value.batch.id), sent, now, c, ps);
    }
  }

  lemma HandleTraceable(t: Tables, sent: set<Sent>, req: Request)
    requires Traceable(t, sent) && SentBy(req) <= sent && Handle(t, req.now, req.op).Ok?
    ensures Traceable(Handle(t, req.now, req.op).value.tables, sent)
  {
    match req.op
    case PostCollection(c, upload, valid) => PostTraceable(t, sent, req.now, c, upload, valid);
    case PutBso(c, body) => PostBsosTraceable(t, sent, req.now, c, [body]);
    case _ =>
  }

  lemma {:induction false} RunTraceable(t: Tables, sent: set<Sent>, reqs: seq<Request>)
    requires Traceable(t, sent)
    ensures Traceable(Run(t, reqs), sent + SentIn(t, reqs))
  {
    if reqs == [] {
      TraceableGrows(t, sent, {});
    } else {
      var init, req := reqs[..|reqs| - 1], reqs[|reqs| - 1];
      RunTraceable(t, sent, init);
      if Exec(Run(t, init), req).reply.Answer? {
        TraceableGrows(Run(t, init), sent + SentIn(t, init), SentBy(req));
        assert sent + SentIn(t, init) + SentBy(req) == sent + SentIn(t, reqs);
        ExecTraceable(Run(t, init), sent + SentIn(t, reqs), req);
      } else {
        assert sent + SentIn(t, reqs) == sent + SentIn(t, init);
      }
    }
  }

  lemma ExecTraceable(t: Tables, sent: set<Sent>, req: Request)
    requires Traceable(t, sent) && SentBy(req) <= sent && Exec(t, req).reply.Answer?
    ensures Traceable(Exec(t, req).tables, sent)
  {
    var target := WriteTarget(req.op);
    HandleTraceable(if target.Some? then KnowName(t, target.value) else t, sent, req);
  }

  /** After a wipe, whatever was stored or staged before it, every record in the store is one that
      an accepted request after the wipe sent, field by field. */
  lemma NothingComesBack(t: Tables, wipe: Request, reqs: seq<Request>, coll: string, id: string)
    requires wipe.op == DeleteStorage && Exec(t, wipe).reply.Answer?
    requires id in Run(Exec(t, wipe).tables, reqs).RowsOf(coll)
    ensures var empty := Exec(t, wipe).tables;
            RowSent(SentIn(empty, reqs), coll, id, Run(empty, reqs).RowsOf(coll)[id])
  {
    var empty := Exec(t, wipe).tables;
    RunTraceable(empty, {}, reqs);
    assert {} + SentIn(empty, reqs) == SentIn(empty, reqs);
  }
}
