/** Each HTTP operation on the storage tier as one atomic step: resource timestamp, precondition,
    write guard, handler, and commit or rollback. */
module SyncRequests {
  import opened Wrappers
  import opened SyncTables
  import opened Paging

  const BATCH_LIFETIME_MS: int := 2 * 60 * 60 * 1000
  const MAX_BATCH_CREATE_RETRY: nat := 5

  datatype Precondition =
    | Unconditional
    | IfModifiedSince(since: int)
    | IfUnmodifiedSince(since: int)
    | BothHeaders

  /** What `?batch=` names: a new batch, an id that decodes, or one that does not. */
  datatype BatchName = NewBatch | BatchId(id: int) | Undecodable

  datatype BatchRequest = BatchRequest(batch: BatchName, commit: bool)

  datatype Operation =
    | InfoCollections
    | DeleteStorage
    | GetCollection(coll: string, query: Query, full: bool)
    | PostCollection(coll: string, upload: Option<BatchRequest>, valid: seq<Posted>)
    | DeleteCollection(coll: string, ids: seq<string>)
    | GetBso(coll: string, id: string)
    | PutBso(coll: string, body: Posted)
    | DeleteBso(coll: string, id: string)

  datatype Request = Request(now: int, pre: Precondition, op: Operation)

  datatype Error = Conflict | BadRequest | NotFound

  datatype Body =
    | Null
    | Stamps(stamps: map<string, int>)
    | Records(page: Page)
    | Modified(modified: int)
    | Staging(batch: int)
    | Record(bso: Bso)

  /** A response the transaction commits behind, or an error it rolls back for. */
  datatype Reply =
    | Answer(lastModified: int, body: Body)
    | NotModified(lastModified: int)
    | PreconditionFailed(lastModified: int)
    | Refused(error: Error)

  /** What a handler leaves: the tables, the body, and an `X-Last-Modified` of its own if it set one. */
  datatype Handled = Handled(tables: Tables, lastModified: Option<int>, body: Body)

  /** The collection `_run` takes a write lock on. */
  function WriteTarget(op: Operation): Option<string> {
    match op
    case PostCollection(c, _, _) => Some(c)
    case DeleteCollection(c, _) => Some(c)
    case PutBso(c, _) => Some(c)
    case DeleteBso(c, _) => Some(c)
    case _ => None
  }

  function BsoStamp(t: Tables, coll: string, id: string): int {
    if id in t.RowsOf(coll) then t.RowsOf(coll)[id].modified else 0
  }

  /** The timestamp that answers a precondition on what the URL names. */
  ghost function Resource(t: Tables, op: Operation): int {
    match op
    case InfoCollections => StorageStamp(t.stamps)
    case DeleteStorage => StorageStamp(t.stamps)
    case GetCollection(c, _, _) => t.Stamp(c)
    case PostCollection(c, _, _) => t.Stamp(c)
    case DeleteCollection(c, _) => t.Stamp(c)
    case GetBso(c, id) => BsoStamp(t, c, id)
    case PutBso(c, body) => BsoStamp(t, c, body.id)
    case DeleteBso(c, id) => BsoStamp(t, c, id)
  }

  /** `_precondition`: an early reply, if the headers ask for one. */
  function CheckPrecondition(pre: Precondition, timestamp: int): Option<Reply> {
    match pre
    case BothHeaders => Some(Refused(BadRequest))
    case IfModifiedSince(since) => if timestamp <= since then Some(NotModified(timestamp)) else None
    case IfUnmodifiedSince(since) => if timestamp > since then Some(PreconditionFailed(timestamp)) else None
    case Unconditional => None
  }

  /** `check_write`: a write must be able to move the collection's stamp forward. */
  predicate MayWrite(t: Tables, now: int, coll: string) {
    coll in t.stamps ==> t.stamps[coll] < now
  }

  function KnowName(t: Tables, coll: string): Tables {
    t.(names := t.names + {coll})
  }

  // ---- store operations ----

  function Touch(t: Tables, now: int, coll: string): Tables {
    t.(stamps := t.stamps[coll := now])
  }

  function SetRows(t: Tables, coll: string, rows: Rows): Tables {
    t.(bsos := t.bsos[coll := rows])
  }

  function PostBsos(t: Tables, now: int, coll: string, ps: seq<Posted>): Tables {
    Touch(SetRows(t, coll, PutAll(t.RowsOf(coll), ps, now)), now, coll)
  }

  function DropBsos(t: Tables, now: int, coll: string, ids: seq<string>): Tables {
    Touch(SetRows(t, coll, DropIds(t.RowsOf(coll), ids)), now, coll)
  }

  /** A collection leaves with its stamp; only the tombstone records that something happened. */
  function DropCollection(t: Tables, now: int, coll: string): Tables {
    Touch(t.(bsos := t.bsos - {coll}, stamps := t.stamps - {coll}), now, TOMBSTONE)
  }

  predicate HasCollection(t: Tables, coll: string) {
    t.RowsOf(coll) != map[] || coll in t.stamps
  }

  function Wipe(t: Tables): Tables {
    Tables(t.names, map[], map[], map[], map[])
  }

  /** The first free id among the few that are tried. */
  function FreeBatchId(batches: map<int, string>, candidate: int, tries: nat): Option<int>
    decreases tries
  {
    if tries == 0 then None
    else if candidate !in batches then Some(candidate)
    else FreeBatchId(batches, candidate + 1, tries - 1)
  }

  lemma {:induction false} FreeBatchIdIsFree(batches: map<int, string>, candidate: int, tries: nat)
    ensures var found := FreeBatchId(batches, candidate, tries);
            found.Some? ==> found.value !in batches && candidate <= found.value < candidate + tries
    decreases tries
  {
    if tries > 0 && candidate in batches { FreeBatchIdIsFree(batches, candidate + 1, tries - 1); }
  }

  predicate ValidBatch(t: Tables, now: int, coll: string, batch: int) {
    batch + BATCH_LIFETIME_MS >= now && coll in t.names && batch in t.batches && t.batches[batch] == coll
  }

  function Append(t: Tables, batch: int, ps: seq<Posted>): Tables {
    if ps == [] then t else t.(items := t.items[batch := StageAll(t.StagedIn(batch), ps)])
  }

  function CommitBatch(t: Tables, now: int, coll: string, batch: int): Tables {
    var landed := Touch(SetRows(t, coll, CommitAll(t.RowsOf(coll), t.StagedIn(batch), now)), now, coll);
    landed.(items := landed.items - {batch}, batches := landed.batches - {batch})
  }

  // ---- handlers ----

  function HandlePost(t: Tables, now: int, coll: string, upload: Option<BatchRequest>, ps: seq<Posted>)
    : Result<Handled, Error>
  {
    if upload.None? || (upload.value.batch.NewBatch? && upload.value.commit) then
      Ok(Handled(PostBsos(t, now, coll, ps), Some(now), Modified(now)))
    else
      match upload.value.batch
      case Undecodable => Err(BadRequest)
      case NewBatch =>
        (match FreeBatchId(t.batches, now, MAX_BATCH_CREATE_RETRY)
         case None => Err(Conflict)
         case Some(b) => Ok(Handled(Append(t.(batches := t.batches[b := coll]), b, ps), None, Staging(b))))
      case BatchId(b) =>
        if !ValidBatch(t, now, coll, b) then Err(BadRequest)
        else if !upload.value.commit then Ok(Handled(Append(t, b, ps), None, Staging(b)))
        else
          var landed := CommitBatch(t, now, coll, b);
          // Records sent with the commit are written after the batch has landed.
          Ok(Handled(if ps == [] then landed else PostBsos(landed, now, coll, ps), Some(now), Modified(now)))
  }

  ghost function HandleDelete(t: Tables, now: int, coll: string, ids: seq<string>): Handled {
    if ids != [] then Handled(DropBsos(t, now, coll, ids), Some(now), Modified(now))
    else if !HasCollection(t, coll) then Handled(t, None, Modified(StorageStamp(t.stamps)))
    else
      var dropped := DropCollection(t, now, coll);
      Handled(dropped, None, Modified(StorageStamp(dropped.stamps)))
  }

  function HandleDeleteBso(t: Tables, now: int, coll: string, id: string): Result<Handled, Error> {
    if id in t.RowsOf(coll) && t.RowsOf(coll)[id].expiry > now then
      Ok(Handled(DropBsos(t, now, coll, [id]), Some(now), Modified(now)))
    else Err(NotFound)
  }

  function HandleGetBso(t: Tables, now: int, coll: string, id: string): Result<Handled, Error> {
    if id in t.RowsOf(coll) && t.RowsOf(coll)[id].expiry > now then
      Ok(Handled(t, None, Record(Bso(id, t.RowsOf(coll)[id]))))
    else Err(NotFound)
  }

  /** A name no user has ever written to is answered before any query runs. */
  ghost function ReadPage(t: Tables, now: int, coll: string, query: Query, full: bool): Page {
    if coll !in t.names then Page([], None)
    else GetBsos(t.RowsOf(coll), now, query, full)
  }

  ghost function Handle(t: Tables, now: int, op: Operation): Result<Handled, Error> {
    match op
    case InfoCollections => Ok(Handled(t, None, Stamps(t.stamps - {TOMBSTONE})))
    case DeleteStorage => Ok(Handled(Wipe(t), None, Null))
    case GetCollection(c, query, full) => Ok(Handled(t, None, Records(ReadPage(t, now, c, query, full))))
    case PostCollection(c, upload, valid) => HandlePost(t, now, c, upload, valid)
    case DeleteCollection(c, ids) => Ok(HandleDelete(t, now, c, ids))
    case GetBso(c, id) => HandleGetBso(t, now, c, id)
    case PutBso(c, body) => Ok(Handled(PostBsos(t, now, c, [body]), Some(now), Modified(now)))
    case DeleteBso(c, id) => HandleDeleteBso(t, now, c, id)
  }

  datatype Outcome = Outcome(tables: Tables, reply: Reply)

  /** One request, start to commit or rollback. */
  ghost function Exec(t: Tables, req: Request): Outcome {
    var timestamp := Resource(t, req.op);
    var early := CheckPrecondition(req.pre, timestamp);
    if req.op.GetCollection? && !TokenFits(req.op.query) then Outcome(t, Refused(BadRequest))
    else if early.Some? then Outcome(t, early.value)
    else
      var target := WriteTarget(req.op);
      if target.Some? && !MayWrite(t, req.now, target.value) then Outcome(t, Refused(Conflict))
      else
        match Handle(if target.Some? then KnowName(t, target.value) else t, req.now, req.op)
        case Err(e) => Outcome(t, Refused(e))
        case Ok(h) => Outcome(h.tables, Answer(h.lastModified.GetOr(timestamp), h.body))
  }

  /** The tables after a whole run of requests. */
  ghost function Run(t: Tables, reqs: seq<Request>): Tables {
    if reqs == [] then t
    else Exec(Run(t, reqs[..|reqs| - 1]), reqs[|reqs| - 1]).tables
  }

  /** What the HTTP layer guarantees of a request: a quantized clock, and a name the route accepts. */
  predicate WellFormed(req: Request) {
    req.now > 0 && req.now % 10 == 0
    && (WriteTarget(req.op).Some? ==> WriteTarget(req.op).value != TOMBSTONE)
  }

  predicate AllWellFormed(reqs: seq<Request>) {
    forall i :: 0 <= i < |reqs| ==> WellFormed(reqs[i])
  }
}
