/** Conditional writes of one record, which are checked against the record's own timestamp. */
module SyncRecords {
  import opened Wrappers
  import opened SyncTables
  import opened SyncRequests
  import opened SyncInvariants
  import opened SyncState
  import opened SyncTheorems
  import opened SyncIncremental

  predicate WritesRecord(op: Operation, coll: string, id: string) {
    match op
    case PutBso(c, body) => c == coll && body.id == id
    case DeleteBso(c, written) => c == coll && written == id
    case _ => false
  }

  /** The precondition lets a write pass if the record's timestamp is not later than the one the client saw. */
  lemma RecordCheck(t: Tables, req: Request, coll: string, id: string, seen: int)
    requires WritesRecord(req.op, coll, id) && req.pre == IfUnmodifiedSince(seen)
    ensures !Exec(t, req).reply.PreconditionFailed? <==> BsoStamp(t, coll, id) <= seen
  {
  }

  /** What nobody rewrote has the content it had; its ttl may have moved. */
  lemma NotRewrittenIsTheSame(t: Tables, reqs: seq<Request>, coll: string, id: string)
    requires Valid(t) && AllWellFormed(reqs) && NeverDrops(t, reqs, coll) && coll != TOMBSTONE
    requires id in t.RowsOf(coll) && NeverRewrites(t, reqs, coll, id)
    ensures id in Run(t, reqs).RowsOf(coll) && SameContent(t.RowsOf(coll)[id], Run(t, reqs).RowsOf(coll)[id])
  {
    OldAsLongAsNotRewritten(t, reqs, coll, id);
    RunIsCaught(t, reqs, coll);
  }

  /** A conditional write of one record passes its precondition if and only if the record is not there, or was there when
      the client looked and no accepted request has rewritten it since; and then it has the content the client saw. */
  lemma RecordCompareAndSwap(t: Tables, reqs: seq<Request>, coll: string, id: string, req: Request)
    requires Valid(t) && AllWellFormed(reqs) && NeverDrops(t, reqs, coll) && coll != TOMBSTONE
    requires WritesRecord(req.op, coll, id) && req.pre == IfUnmodifiedSince(BsoStamp(t, coll, id))
    ensures var known := id in t.RowsOf(coll) && NeverRewrites(t, reqs, coll, id);
            var rows := Run(t, reqs).RowsOf(coll);
            (!Exec(Run(t, reqs), req).reply.PreconditionFailed? <==> id !in rows || known)
            && (known ==> id in rows && SameContent(t.RowsOf(coll)[id], rows[id]))
  {
    var u := Run(t, reqs);
    RecordCheck(u, req, coll, id, BsoStamp(t, coll, id));
    if id in t.RowsOf(coll) {
      assert CollectionValid(t, coll);
      OldAsLongAsNotRewritten(t, reqs, coll, id);
      if NeverRewrites(t, reqs, coll, id) { NotRewrittenIsTheSame(t, reqs, coll, id); }
    } else {
      RunKeepsValid(t, reqs);
      assert CollectionValid(u, coll);
    }
  }

  // ---- the whole storage ----

  /** A conditional wipe is refused, and a conditional listing answered in full, if and only if some stamp, a tombstone's
      included, is later than the one the client saw. */
  lemma StorageCheck(t: Tables, seen: int, now: int)
    requires seen >= 0
    ensures var later := exists c :: c in t.stamps && t.stamps[c] > seen;
            (Exec(t, Request(now, IfUnmodifiedSince(seen), DeleteStorage)).reply.PreconditionFailed? <==> later)
            && (Exec(t, Request(now, IfUnmodifiedSince(seen), DeleteStorage)).reply.Answer? <==> !later)
            && (Exec(t, Request(now, IfModifiedSince(seen), InfoCollections)).reply.Answer? <==> later)
            && (Exec(t, Request(now, IfModifiedSince(seen), InfoCollections)).reply.NotModified? <==> !later)
  {
  }

  // ---- a record that is gone passes the check ----

  const WRITTEN: Request := Request(10, Unconditional, PutBso("c", Posted("a", Some("x"), None, None)))
  const DELETED: Request := Request(20, Unconditional, DeleteBso("c", "a"))
  const WRITTEN_AGAIN: Request := Request(30, IfUnmodifiedSince(10), PutBso("c", Posted("a", Some("y"), None, None)))

  /** A client that saw the record of 10 overwrites it on that condition, although another client has deleted it since. */
  lemma DeletedRecordPasses()
    ensures AllWellFormed([WRITTEN, DELETED]) && WellFormed(WRITTEN_AGAIN)
    ensures var t := Run(EMPTY, [WRITTEN]);
            BsoStamp(t, "c", "a") == 10 && Exec(t, DELETED).reply.Answer?
            && Exec(Exec(t, DELETED).tables, WRITTEN_AGAIN).reply.Answer?
  {
    var t := Run(EMPTY, [WRITTEN]);
    RunOne(EMPTY, WRITTEN);
    SinglePut(EMPTY, WRITTEN);
    assert t.RowsOf("c")["a"].modified == 10 && t.RowsOf("c")["a"].expiry > 20;
    assert "a" !in Exec(t, DELETED).tables.RowsOf("c");
  }
}
