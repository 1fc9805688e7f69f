/** What is true of the tables in every reachable state. */
module SyncState {
  import opened Wrappers
  import opened SyncTables
  import opened SyncRequests
  import opened SyncInvariants

  predicate RowsUnder(rows: Rows, stamp: int) {
    forall id :: id in rows ==> 0 < rows[id].modified <= stamp && rows[id].modified % 10 == 0
  }

  predicate CollectionValid(t: Tables, coll: string) {
    (t.RowsOf(coll) != map[] ==> coll in t.stamps)
    && RowsUnder(t.RowsOf(coll), t.Stamp(coll))
    && (coll in t.stamps ==> t.stamps[coll] > 0 && t.stamps[coll] % 10 == 0)
  }

  /** Staged items belong to open batches. */
  predicate BatchesValid(t: Tables) {
    forall b :: b in t.items ==> b in t.batches
  }

  /** Every record lies under its collection's stamp, stamps are whole hundredths, staged items
      belong to open batches, and the tombstone holds no records. */
  ghost predicate Valid(t: Tables) {
    (forall c :: CollectionValid(t, c)) && t.RowsOf(TOMBSTONE) == map[] && BatchesValid(t)
  }

  lemma HandleKeepsBatches(t: Tables, now: int, op: Operation)
    requires BatchesValid(t) && Handle(t, now, op).Ok?
    ensures BatchesValid(Handle(t, now, op).value.tables)
  {
    match op
    case PostCollection(c, upload, valid) =>
      if upload.Some? && !upload.value.batch.Undecodable? && !(upload.value.batch.NewBatch? && upload.value.commit) {
        PostKeepsBatches(t, now, c, upload.value, valid);
      }
    case _ =>
  }

  lemma PostKeepsBatches(t: Tables, now: int, c: string, upload: BatchRequest, ps: seq<Posted>)
    requires BatchesValid(t) && HandlePost(t, now, c, Some(upload), ps).Ok?
    ensures BatchesValid(HandlePost(t, now, c, Some(upload), ps).value.tables)
  {
    match upload.batch
    case NewBatch =>
    case BatchId(b) => assert BatchesValid(CommitBatch(t, now, c, b));
    case Undecodable =>
  }

  /** The tombstone's stamp moves only when a collection is deleted, and holds no records. */
  lemma TombstoneHoldsNothing(t: Tables, req: Request)
    requires WellFormed(req) && CollectionValid(t, TOMBSTONE) && t.RowsOf(TOMBSTONE) == map[]
    ensures var u := Exec(t, req).tables;
            CollectionValid(u, TOMBSTONE) && u.RowsOf(TOMBSTONE) == map[]
  {
    var target := WriteTarget(req.op);
    var known := if target.Some? then KnowName(t, target.value) else t;
    if Handle(known, req.now, req.op).Ok? {
      HandleTombstone(known, req.now, req.op);
    }
  }

  lemma HandleTombstone(t: Tables, now: int, op: Operation)
    requires Handle(t, now, op).Ok?
    requires WriteTarget(op).Some? ==> WriteTarget(op).value != TOMBSTONE
    ensures OnlyStampsTombstone(t, Handle(t, now, op).value.tables, now)
  {
    match op
    case PostCollection(c, upload, valid) => PostLeavesTombstone(t, now, c, upload, valid);
    case _ =>
  }

  predicate OnlyStampsTombstone(t: Tables, u: Tables, now: int) {
    (u.RowsOf(TOMBSTONE) == map[] || u.RowsOf(TOMBSTONE) == t.RowsOf(TOMBSTONE))
    && (SameStamp(t, u, TOMBSTONE) || TOMBSTONE !in u.stamps || u.stamps[TOMBSTONE] == now)
  }

  lemma PostLeavesTombstone(t: Tables, now: int, coll: string, upload: Option<BatchRequest>, ps: seq<Posted>)
    requires HandlePost(t, now, coll, upload, ps).Ok? && coll != TOMBSTONE
    ensures OnlyStampsTombstone(t, HandlePost(t, now, coll, upload, ps).value.tables, now)
  {
    if upload.Some? && upload.value.batch.BatchId? {
      var landed := CommitBatch(t, now, coll, upload.value.batch.id);
      assert SameStamp(t, landed, TOMBSTONE) && landed.RowsOf(TOMBSTONE) == t.RowsOf(TOMBSTONE);
    }
  }

  lemma CollectionStaysValid(t: Tables, req: Request, coll: string)
    requires WellFormed(req) && CollectionValid(t, coll) && coll != TOMBSTONE
    ensures CollectionValid(Exec(t, req).tables, coll)
  {
    ExecIsLocal(t, req, coll);
  }

  lemma ExecKeepsBatches(t: Tables, req: Request)
    requires BatchesValid(t)
    ensures BatchesValid(Exec(t, req).tables)
  {
    var target := WriteTarget(req.op);
    var known := if target.Some? then KnowName(t, target.value) else t;
    if Handle(known, req.now, req.op).Ok? {
      HandleKeepsBatches(known, req.now, req.op);
    }
  }

  lemma ExecKeepsValid(t: Tables, req: Request)
    requires WellFormed(req) && Valid(t)
    ensures Valid(Exec(t, req).tables)
  {
    forall c ensures CollectionValid(Exec(t, req).tables, c) {
      assert CollectionValid(t, c);
      if c == TOMBSTONE { TombstoneHoldsNothing(t, req); } else { CollectionStaysValid(t, req, c); }
    }
    assert CollectionValid(t, TOMBSTONE);
    TombstoneHoldsNothing(t, req);
    ExecKeepsBatches(t, req);
  }

  /** Every state a run can reach is valid, from the empty tables on. */
  lemma {:induction false} RunKeepsValid(t: Tables, reqs: seq<Request>)
    requires Valid(t) && AllWellFormed(reqs)
    ensures Valid(Run(t, reqs))
  {
    if reqs != [] {
      RunKeepsValid(t, reqs[..|reqs| - 1]);
      ExecKeepsValid(Run(t, reqs[..|reqs| - 1]), reqs[|reqs| - 1]);
    }
  }

  lemma EmptyIsValid(names: set<string>)
    ensures Valid(Tables(names, map[], map[], map[], map[]))
  {
  }

  const EMPTY: Tables := Tables({}, map[], map[], map[], map[])

  lemma RunOne(t: Tables, req: Request)
    ensures Run(t, [req]) == Exec(t, req).tables
  {
    assert [req][..0] == [];
  }

  lemma RunOneMore(t: Tables, reqs: seq<Request>, last: Request)
    ensures Run(t, reqs + [last]) == Exec(Run(t, reqs), last).tables
  {
    assert (reqs + [last])[..|reqs|] == reqs;
  }

  lemma RunTwo(t: Tables, first: Request, second: Request)
    ensures Run(t, [first, second]) == Exec(Exec(t, first).tables, second).tables
  {
    RunOne(t, first);
    assert [first, second][..1] == [first];
  }

  lemma SinglePut(t: Tables, req: Request)
    requires req.op.PutBso? && req.pre == Unconditional && MayWrite(t, req.now, req.op.coll)
    ensures var c, u := req.op.coll, Exec(t, req);
            u.reply.Answer? && u.tables.RowsOf(c) == Put(t.RowsOf(c), req.op.body, req.now)
            && u.tables.stamps == t.stamps[c := req.now]
  {
    assert [req.op.body][..0] == [];
    assert PutAll(t.RowsOf(req.op.coll), [req.op.body][..0], req.now) == t.RowsOf(req.op.coll);
  }

  /** A write that stamps a collection again moves the stamp strictly forward, whatever the clock. */
  lemma StampStrictlyRises(t: Tables, req: Request, coll: string)
    requires coll != TOMBSTONE && coll in t.stamps
    ensures var u := Exec(t, req).tables;
            coll in u.stamps && u.stamps[coll] != t.stamps[coll] ==> t.stamps[coll] < u.stamps[coll] == req.now
  {
    ExecIsLocal(t, req, coll);
  }

  // ---- the storage timestamp, when clocks do not run backwards ----

  predicate StampedBy(t: Tables, clock: int) {
    forall c :: c in t.stamps ==> t.stamps[c] <= clock
  }

  predicate ClocksClimb(clock: int, reqs: seq<Request>) {
    forall i :: 0 <= i < |reqs| ==>
      clock <= reqs[i].now && forall j :: i <= j < |reqs| ==> reqs[i].now <= reqs[j].now
  }

  /** What a request that is not a wipe does to the stamps: nothing, set its collection's to its own
      instant, or replace that one by a fresh tombstone. */
  predicate StampEffect(t: Tables, u: Tables, now: int, target: Option<string>) {
    u.stamps == t.stamps
    || (target.Some? && u.stamps == t.stamps[target.value := now])
    || (target.Some? && u.stamps == (t.stamps - {target.value})[TOMBSTONE := now])
  }

  lemma ExecStamps(t: Tables, req: Request)
    requires req.op != DeleteStorage
    ensures StampEffect(t, Exec(t, req).tables, req.now, WriteTarget(req.op))
  {
    var target := WriteTarget(req.op);
    var known := if target.Some? then KnowName(t, target.value) else t;
    if Handle(known, req.now, req.op).Ok? {
      HandleStamps(known, req.now, req.op);
    }
  }

  lemma HandleStamps(t: Tables, now: int, op: Operation)
    requires op != DeleteStorage && Handle(t, now, op).Ok?
    ensures StampEffect(t, Handle(t, now, op).value.tables, now, WriteTarget(op))
  {
    match op
    case PostCollection(c, upload, valid) =>
      assert t.stamps[c := now][c := now] == t.stamps[c := now];
    case _ =>
  }

  lemma StorageStampClimbs(t: Tables, u: Tables, clock: int, now: int, target: Option<string>)
    requires StampedBy(t, clock) && clock <= now && now > 0 && StampEffect(t, u, now, target)
    ensures StampedBy(u, now) && StorageStamp(t.stamps) <= StorageStamp(u.stamps)
  {
    if u.stamps != t.stamps {
      var c := if u.stamps == t.stamps[target.value := now] then target.value else TOMBSTONE;
      assert c in u.stamps && u.stamps[c] == now;
    }
  }

  /** No wipe was accepted. */
  ghost predicate NeverWipes(t: Tables, reqs: seq<Request>) {
    reqs == []
    || (var init, last := reqs[..|reqs| - 1], reqs[|reqs| - 1];
        NeverWipes(t, init) && (last.op == DeleteStorage ==> !Exec(Run(t, init), last).reply.Answer?))
  }

  /** While clocks do not run backwards, the storage timestamp never falls, except at a wipe. */
  lemma {:induction false} StorageTimestampNeverFalls(t: Tables, clock: int, reqs: seq<Request>)
    requires StampedBy(t, clock) && ClocksClimb(clock, reqs) && AllWellFormed(reqs) && NeverWipes(t, reqs)
    ensures StorageStamp(t.stamps) <= StorageStamp(Run(t, reqs).stamps)
    ensures StampedBy(Run(t, reqs), if reqs == [] then clock else reqs[|reqs| - 1].now)
  {
    if reqs != [] {
      var init, last := reqs[..|reqs| - 1], reqs[|reqs| - 1];
      StorageTimestampNeverFalls(t, clock, init);
      if last.op != DeleteStorage { ExecStamps(Run(t, init), last); }
      var from := if init == [] then clock else init[|init| - 1].now;
      StorageStampClimbs(Run(t, init), Run(t, reqs), from, last.now, WriteTarget(last.op));
    }
  }

  // ---- and when they may ----

  /** The storage timestamp is later than now, and neither this collection's nor a tombstone's: no other stamp reaches it. */
  ghost predicate OnlyTheTombstoneHolds(t: Tables, now: int, coll: string) {
    now < StorageStamp(t.stamps)
    && forall c :: c in t.stamps && c != TOMBSTONE && c != coll ==> t.stamps[c] < StorageStamp(t.stamps)
  }

  predicate DropsWhole(op: Operation) {
    op.DeleteCollection? && op.ids == []
  }

  /** On any clock at all, one request makes the storage timestamp fall if and only if it is an accepted wipe, or drops a
      collection at a clock that has fallen behind an earlier drop, which is then forgotten. */
  lemma StorageTimestampFalls(t: Tables, req: Request)
    requires WellFormed(req)
    ensures StorageStamp(Exec(t, req).tables.stamps) < StorageStamp(t.stamps)
            <==> Exec(t, req).reply.Answer?
                 && (if req.op == DeleteStorage then 0 < StorageStamp(t.stamps)
                     else
                       DropsWhole(req.op) && HasCollection(t, req.op.coll) && OnlyTheTombstoneHolds(t, req.now, req.op.coll))
  {
    if !Exec(t, req).reply.Answer? {
      RefusedLeavesStamps(t, req);
    } else if DropsWhole(req.op) {
      ExecDrops(t, req, req.op.coll);
      DropMovesStamp(t, req.now, req.op.coll);
    } else if req.op != DeleteStorage {
      ExecTouches(t, req);
      if WriteTarget(req.op).Some? { TouchNeverLowers(t.stamps, WriteTarget(req.op).value, req.now); }
    }
  }

  lemma RefusedLeavesStamps(t: Tables, req: Request)
    requires !Exec(t, req).reply.Answer?
    ensures Exec(t, req).tables.stamps == t.stamps
  {
  }

  lemma ExecDrops(t: Tables, req: Request, c: string)
    requires DropsWhole(req.op) && req.op.coll == c && Exec(t, req).reply.Answer?
    ensures MayWrite(t, req.now, c)
    ensures Exec(t, req).tables.stamps == if HasCollection(t, c) then DropCollection(t, req.now, c).stamps else t.stamps
  {
    assert HasCollection(KnowName(t, c), c) == HasCollection(t, c);
  }

  lemma ExecTouches(t: Tables, req: Request)
    requires Exec(t, req).reply.Answer? && !DropsWhole(req.op) && req.op != DeleteStorage
    ensures WriteTarget(req.op).Some? ==> MayWrite(t, req.now, WriteTarget(req.op).value)
    ensures Exec(t, req).tables.stamps == t.stamps
            || (WriteTarget(req.op).Some? && Exec(t, req).tables.stamps == t.stamps[WriteTarget(req.op).value := req.now])
  {
    if req.op.PostCollection? {
      assert t.stamps[req.op.coll := req.now][req.op.coll := req.now] == t.stamps[req.op.coll := req.now];
    }
  }

  lemma TouchNeverLowers(stamps: map<string, int>, c: string, now: int)
    requires now > 0 && (c in stamps ==> stamps[c] < now)
    ensures StorageStamp(stamps) <= StorageStamp(stamps[c := now])
  {
    if stamps != map[] {
      var d :| d in stamps && stamps[d] == StorageStamp(stamps);
      assert d in stamps[c := now] && c in stamps[c := now];
    }
    assert c in stamps[c := now];
  }

  lemma DropMovesStamp(t: Tables, now: int, c: string)
    requires now > 0 && c != TOMBSTONE && MayWrite(t, now, c)
    ensures StorageStamp(DropCollection(t, now, c).stamps) < StorageStamp(t.stamps) <==> OnlyTheTombstoneHolds(t, now, c)
  {
    var before, after := t.stamps, DropCollection(t, now, c).stamps;
    assert TOMBSTONE in after && after[TOMBSTONE] == now;
    var m :| m in after && after[m] == StorageStamp(after);
    forall d | d in before && d != TOMBSTONE && d != c ensures d in after && after[d] == before[d] {}
  }

  /** As a run: c is written at 100 and dropped at 110, then d is written at 50 and dropped at 60. */
  const DROP_LATE: seq<Request> := [PutAt(100, "c"), Request(110, Unconditional, DeleteCollection("c", []))]
  const DROP_AGAIN: seq<Request> := [PutAt(50, "d"), Request(60, Unconditional, DeleteCollection("d", []))]

  function PutAt(now: int, coll: string): Request {
    Request(now, Unconditional, PutBso(coll, Posted("a", Some("x"), None, None)))
  }

  lemma PutThenDrop(t: Tables, put: Request, drop: Request, coll: string)
    requires put == PutAt(put.now, coll) && drop == Request(drop.now, Unconditional, DeleteCollection(coll, []))
    requires coll !in t.stamps && put.now < drop.now && coll != TOMBSTONE
    ensures Run(t, [put, drop]).stamps == t.stamps[TOMBSTONE := drop.now]
  {
    RunTwo(t, put, drop);
    SinglePut(t, put);
    var u := Exec(t, put).tables;
    DropIsAccepted(u, drop);
    ExecDrops(u, drop, coll);
    assert t.stamps[coll := put.now] - {coll} == t.stamps;
  }

  lemma DropIsAccepted(t: Tables, drop: Request)
    requires DropsWhole(drop.op) && drop.pre == Unconditional && MayWrite(t, drop.now, drop.op.coll)
    ensures Exec(t, drop).reply.Answer?
  {
  }

  lemma OnlyStamp(c: string, stamp: int)
    ensures StorageStamp(map[c := stamp]) == stamp
  {
    var stamps := map[c := stamp];
    assert c in stamps && forall d :: d in stamps ==> stamps[d] == stamp;
  }

  lemma DropsAreWellFormed()
    ensures AllWellFormed(DROP_LATE) && AllWellFormed(DROP_AGAIN)
  {
  }

  /** The second drop takes the storage timestamp back from 110 to 60. */
  lemma BackwardDropForgets()
    ensures AllWellFormed(DROP_LATE) && AllWellFormed(DROP_AGAIN)
    ensures var t := Run(EMPTY, DROP_LATE);
            StorageStamp(t.stamps) == 110 && StorageStamp(Run(t, DROP_AGAIN).stamps) == 60
  {
    var t := Run(EMPTY, DROP_LATE);
    DropsAreWellFormed();
    PutThenDrop(EMPTY, DROP_LATE[0], DROP_LATE[1], "c");
    PutThenDrop(t, DROP_AGAIN[0], DROP_AGAIN[1], "d");
    assert t.stamps == map[TOMBSTONE := 110];
    assert Run(t, DROP_AGAIN).stamps == map[TOMBSTONE := 60];
    OnlyStamp(TOMBSTONE, 110);
    OnlyStamp(TOMBSTONE, 60);
  }
}
