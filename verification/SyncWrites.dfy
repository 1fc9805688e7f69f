/** What a write leaves of each record it names, in terms of the fields that were sent, and what it is answered with. */
module SyncWrites {
  import opened Wrappers
  import opened SyncTables
  import opened Paging
  import opened SyncRequests
  import opened SyncTheorems

  // ---- the fields that were sent ----

  /** Of the records sent under an id, the last one that has the field. */
  function LastPayload(ps: seq<Posted>, id: string): Option<string> {
    if ps == [] then None
    else if ps[|ps| - 1].id == id && ps[|ps| - 1].payload.Some? then ps[|ps| - 1].payload
    else LastPayload(ps[..|ps| - 1], id)
  }

  function LastSortindex(ps: seq<Posted>, id: string): Option<int> {
    if ps == [] then None
    else if ps[|ps| - 1].id == id && ps[|ps| - 1].sortindex.Some? then ps[|ps| - 1].sortindex
    else LastSortindex(ps[..|ps| - 1], id)
  }

  function LastTtl(ps: seq<Posted>, id: string): Option<int> {
    if ps == [] then None
    else if ps[|ps| - 1].id == id && ps[|ps| - 1].ttl.Some? then ps[|ps| - 1].ttl
    else LastTtl(ps[..|ps| - 1], id)
  }

  predicate IsSent(ps: seq<Posted>, id: string) {
    exists i :: 0 <= i < |ps| && ps[i].id == id
  }

  // ---- what is stored of them ----

  /** What the row of a record holds after it was written: each field as it was sent, or as it was, or by default. */
  predicate StoredAs(before: Option<Row>, after: Row, payload: Option<string>, sortindex: Option<int>, ttl: Option<int>, now: int) {
    after.payload == (if payload.Some? then payload.value else if before.Some? then before.value.payload else "")
    && after.sortindex == (if sortindex.Some? then sortindex else if before.Some? then before.value.sortindex else None)
    && after.modified == (if before.None? || payload.Some? || sortindex.Some? then now else before.value.modified)
    && after.expiry == (if ttl.Some? then now + 1000 * ttl.value
                        else if before.Some? then before.value.expiry
                        else now + 2_100_000_000_000)
  }

  lemma {:induction false} PutAllStores(rows: Rows, ps: seq<Posted>, now: int, id: string)
    ensures var after := PutAll(rows, ps, now);
            if IsSent(ps, id) then
              id in after
              && StoredAs(Find(rows, id), after[id], LastPayload(ps, id), LastSortindex(ps, id), LastTtl(ps, id), now)
            else Find(after, id) == Find(rows, id)
  {
    if ps != [] {
      var init, p := ps[..|ps| - 1], ps[|ps| - 1];
      PutAllStores(rows, init, now, id);
      SentInPrefix(ps, id);
      if !IsSent(init, id) { NothingSent(init, id); }
    }
  }

  lemma {:induction false} NothingSent(ps: seq<Posted>, id: string)
    requires !IsSent(ps, id)
    ensures LastPayload(ps, id).None? && LastSortindex(ps, id).None? && LastTtl(ps, id).None?
  {
    if ps != [] {
      SentInPrefix(ps, id);
      NothingSent(ps[..|ps| - 1], id);
    }
  }

  lemma SentInPrefix(ps: seq<Posted>, id: string)
    requires ps != []
    ensures IsSent(ps, id) <==> IsSent(ps[..|ps| - 1], id) || ps[|ps| - 1].id == id
  {
    if IsSent(ps[..|ps| - 1], id) {
      var i :| 0 <= i < |ps| - 1 && ps[..|ps| - 1][i].id == id;
      assert ps[i].id == id;
    }
  }

  /** Nothing but this collection's rows and stamp has changed, and the stamp is this instant, which the client is told. */
  ghost predicate OnlyStamps(t: Tables, u: Outcome, coll: string, now: int) {
    u.reply == Answer(now, Modified(now)) && u.tables.stamps == t.stamps[coll := now]
    && u.tables.batches == t.batches && u.tables.items == t.items
    && forall c :: c != coll ==> u.tables.RowsOf(c) == t.RowsOf(c)
  }

  /** A posting that is not batched stores the fields it sends, and leaves every other record as it was. */
  lemma PostStores(t: Tables, req: Request, id: string)
    requires req.op.PostCollection? && Exec(t, req).reply.Answer?
    requires req.op.upload.None? || req.op.upload == Some(BatchRequest(NewBatch, true))
    ensures var rows, after, sent := t.RowsOf(req.op.coll), Exec(t, req).tables.RowsOf(req.op.coll), req.op.valid;
            if IsSent(sent, id) then
              id in after && StoredAs(Find(rows, id), after[id], LastPayload(sent, id), LastSortindex(sent, id),
                                      LastTtl(sent, id), req.now)
            else Find(after, id) == Find(rows, id)
    ensures OnlyStamps(t, Exec(t, req), req.op.coll, req.now)
  {
    PutAllStores(t.RowsOf(req.op.coll), req.op.valid, req.now, id);
    WriteIs(t, req, req.op.valid);
    PostingStamps(t, req.op.coll, req.op.valid, req.now);
  }

  lemma WriteIs(t: Tables, req: Request, ps: seq<Posted>)
    requires Exec(t, req).reply.Answer?
    requires (req.op.PutBso? && ps == [req.op.body])
             || (req.op.PostCollection? && ps == req.op.valid
                 && (req.op.upload.None? || req.op.upload == Some(BatchRequest(NewBatch, true))))
    ensures Exec(t, req) == Outcome(PostBsos(KnowName(t, req.op.coll), req.now, req.op.coll, ps), Answer(req.now, Modified(req.now)))
  {
  }

  lemma PostingStamps(t: Tables, coll: string, ps: seq<Posted>, now: int)
    ensures OnlyStamps(t, Outcome(PostBsos(KnowName(t, coll), now, coll, ps), Answer(now, Modified(now))), coll, now)
    ensures PostBsos(KnowName(t, coll), now, coll, ps).RowsOf(coll) == PutAll(t.RowsOf(coll), ps, now)
  {
  }

  /** So does a single PUT; */
  lemma PutStores(t: Tables, req: Request, id: string)
    requires req.op.PutBso? && Exec(t, req).reply.Answer?
    ensures var rows, after, sent := t.RowsOf(req.op.coll), Exec(t, req).tables.RowsOf(req.op.coll), req.op.body;
            if sent.id == id then id in after && StoredAs(Find(rows, id), after[id], sent.payload, sent.sortindex, sent.ttl, req.now)
            else Find(after, id) == Find(rows, id)
    ensures OnlyStamps(t, Exec(t, req), req.op.coll, req.now)
  {
    PutAllStores(t.RowsOf(req.op.coll), [req.op.body], req.now, id);
    WriteIs(t, req, [req.op.body]);
    PostingStamps(t, req.op.coll, [req.op.body], req.now);
    OneSent(req.op.body, id);
  }

  lemma OneSent(p: Posted, id: string)
    ensures IsSent([p], id) <==> p.id == id
    ensures p.id == id ==> LastPayload([p], id) == p.payload && LastSortindex([p], id) == p.sortindex && LastTtl([p], id) == p.ttl
  {
    assert [p][0] == p && [p][..0] == [];
  }

  /** and what was put is what is got, as long as it lives. */
  lemma PutThenGet(t: Tables, put: Request, later: int)
    requires put.op.PutBso? && Exec(t, put).reply.Answer?
    ensures var c, sent, u := put.op.coll, put.op.body, Exec(t, put).tables;
            var got := Exec(u, Request(later, Unconditional, GetBso(c, sent.id))).reply;
            sent.id in u.RowsOf(c)
            && (later < u.RowsOf(c)[sent.id].expiry ==>
                  got.Answer? && got.body.Record? && got.body.bso.id == sent.id
                  && (sent.payload.Some? ==> got.body.bso.row.payload == sent.payload.value)
                  && (sent.sortindex.Some? ==> got.body.bso.row.sortindex == sent.sortindex)
                  && (sent.SetsContent() ==> got.body.bso.row.modified == put.now == got.lastModified))
            && (later >= u.RowsOf(c)[sent.id].expiry ==> got == Refused(NotFound))
            && (sent.ttl.Some? ==> u.RowsOf(c)[sent.id].expiry == put.now + 1000 * sent.ttl.value)
  {
    PutStores(t, put, put.op.body.id);
  }

  // ---- commits ----

  /** What a commit leaves of a record that was staged: it is stamped whatever was sent, and by default it never expires. */
  predicate LandedAs(before: Option<Row>, after: Row, p: Posted, now: int) {
    after.payload == (if p.payload.Some? then p.payload.value else if before.Some? then before.value.payload else "")
    && after.sortindex == (if p.sortindex.Some? then p.sortindex else if before.Some? then before.value.sortindex else None)
    && after.modified == now
    && after.expiry == (if p.ttl.Some? then now + 1000 * p.ttl.value
                        else if before.Some? then before.value.expiry
                        else 2_100_000_000_000)
  }

  /** A commit that carries no records lands each staged one and leaves the others as they were. */
  lemma CommitLands(t: Tables, req: Request, batch: int, id: string)
    requires req.op.PostCollection? && req.op.upload == Some(BatchRequest(BatchId(batch), true)) && req.op.valid == []
    requires Exec(t, req).reply.Answer?
    ensures var rows, after, staged := t.RowsOf(req.op.coll), Exec(t, req).tables.RowsOf(req.op.coll), t.StagedIn(batch);
            if id in staged then id in after && LandedAs(Find(rows, id), after[id], staged[id], req.now)
            else Find(after, id) == Find(rows, id)
    ensures Exec(t, req).reply == Answer(req.now, Modified(req.now)) && Exec(t, req).tables.stamps == t.stamps[req.op.coll := req.now]
    ensures forall c :: c != req.op.coll ==> Exec(t, req).tables.RowsOf(c) == t.RowsOf(c)
  {
  }

  // ---- deletions ----

  /** Deleting a record takes that one and no other, and is refused if and only if it is not there or has expired. */
  lemma DeleteTakesOne(t: Tables, req: Request)
    requires req.op.DeleteBso? && req.pre == Unconditional && MayWrite(t, req.now, req.op.coll)
    ensures var c, gone, u := req.op.coll, req.op.id, Exec(t, req);
            if gone in t.RowsOf(c) && req.now < t.RowsOf(c)[gone].expiry then
              gone !in u.tables.RowsOf(c) && OnlyStamps(t, u, c, req.now)
              && forall id :: id != gone ==> Find(u.tables.RowsOf(c), id) == Find(t.RowsOf(c), id)
            else u == Outcome(t, Refused(NotFound))
  {
  }

  /** Deleting by ids takes exactly those, whether they are there or not. */
  lemma DeleteTakesTheNamed(t: Tables, req: Request, id: string)
    requires req.op.DeleteCollection? && req.op.ids != [] && Exec(t, req).reply.Answer?
    ensures var c, u := req.op.coll, Exec(t, req);
            OnlyStamps(t, u, c, req.now)
            && Find(u.tables.RowsOf(c), id) == if exists i :: 0 <= i < |req.op.ids| && req.op.ids[i] == id then None
                                               else Find(t.RowsOf(c), id)
  {
  }

  /** Dropping a collection takes its rows and its stamp and leaves a tombstone; one that is not there leaves nothing. Either
      way the client is told the storage timestamp. */
  lemma DropTakesAll(t: Tables, req: Request)
    requires req.op.DeleteCollection? && req.op.ids == [] && req.op.coll != TOMBSTONE && Exec(t, req).reply.Answer?
    ensures var c, u := req.op.coll, Exec(t, req);
            u.tables.RowsOf(c) == map[] && c !in u.tables.stamps
            && (forall d :: d != c ==> u.tables.RowsOf(d) == t.RowsOf(d))
            && (forall d :: d != c && d != TOMBSTONE ==> Find(u.tables.stamps, d) == Find(t.stamps, d))
            && Find(u.tables.stamps, TOMBSTONE)
               == (if t.RowsOf(c) != map[] || c in t.stamps then Some(req.now) else Find(t.stamps, TOMBSTONE))
            && u.tables.batches == t.batches && u.tables.items == t.items
            && u.reply.body == Modified(StorageStamp(u.tables.stamps))
  {
  }

  // ---- what a client sees of it ----

  /** After a write its collection is listed at the instant that the client was told, and a drop or a wipe unlists it. */
  lemma WriteIsListed(t: Tables, req: Request, later: int, coll: string)
    requires coll != TOMBSTONE && Exec(t, req).reply.Answer?
    ensures var u := Exec(t, req).tables;
            var info := Exec(u, Request(later, Unconditional, InfoCollections)).reply;
            info.Answer? && info.body.Stamps? && info.lastModified == StorageStamp(u.stamps) && TOMBSTONE !in info.body.stamps
            && (coll in info.body.stamps <==> coll in u.stamps)
            && (coll in info.body.stamps ==> info.body.stamps[coll] == u.Stamp(coll))
            && (req.op.PutBso? && req.op.coll == coll ==>
                  coll in info.body.stamps && info.body.stamps[coll] == req.now == Exec(t, req).reply.lastModified)
  {
  }

  /** A conditional read is spared if and only if nobody has stamped the collection since the client looked. */
  lemma ConditionalReadIsExact(t: Tables, reqs: seq<Request>, coll: string, read: Request)
    requires AllWellFormed(reqs) && NeverDrops(t, reqs, coll) && coll != TOMBSTONE
    requires read.op.GetCollection? && read.op.coll == coll && TokenFits(read.op.query)
    requires read.pre == IfModifiedSince(t.Stamp(coll))
    ensures Exec(Run(t, reqs), read).reply.NotModified? <==> Run(t, reqs).Stamp(coll) == t.Stamp(coll)
    ensures Exec(Run(t, reqs), read).reply.NotModified? ==> Run(t, reqs).RowsOf(coll) == t.RowsOf(coll)
    ensures !Exec(Run(t, reqs), read).reply.NotModified? ==> Exec(Run(t, reqs), read).reply.Answer?
  {
    StampOnlyClimbs(t, reqs, coll);
  }

  /** A write to a collection that was stamped at its instant or later is a conflict, and changes nothing. */
  lemma LateWriteIsRefused(t: Tables, req: Request)
    requires WriteTarget(req.op).Some? && req.pre == Unconditional
    requires WriteTarget(req.op).value in t.stamps && t.stamps[WriteTarget(req.op).value] >= req.now
    ensures Exec(t, req) == Outcome(t, Refused(Conflict))
  {
  }

  /** Both headers at once are refused, whatever is asked. */
  lemma BothHeadersAreRefused(t: Tables, req: Request)
    requires req.pre == BothHeaders
    ensures Exec(t, req) == Outcome(t, Refused(BadRequest))
  {
  }
}
