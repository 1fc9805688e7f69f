/** What a client may rely on over any run of requests, whatever order their clocks come in. */
module SyncTheorems {
  import opened SyncTables
  import opened Paging
  import opened SyncRequests
  import opened SyncInvariants
  import opened SyncState
  import opened PagingTheorems

  /** No wipe, and no deletion of the whole collection, was accepted. */
  ghost predicate NeverDrops(t: Tables, reqs: seq<Request>, coll: string) {
    reqs == []
    || (NeverDrops(t, reqs[..|reqs| - 1], coll)
        && (Drops(reqs[|reqs| - 1].op, coll) ==> !Exec(Run(t, reqs[..|reqs| - 1]), reqs[|reqs| - 1]).reply.Answer?))
  }

  lemma NeverDropsInit(t: Tables, reqs: seq<Request>, coll: string)
    requires reqs != [] && NeverDrops(t, reqs, coll) && AllWellFormed(reqs) && coll != TOMBSTONE
    ensures NeverDrops(t, reqs[..|reqs| - 1], coll) && AllWellFormed(reqs[..|reqs| - 1])
    ensures WellFormed(reqs[|reqs| - 1])
    ensures var before, after := Run(t, reqs[..|reqs| - 1]), Run(t, reqs);
            Untouched(before, after, coll) || Written(before, after, coll, reqs[|reqs| - 1].now)
  {
    ExecIsLocal(Run(t, reqs[..|reqs| - 1]), reqs[|reqs| - 1], coll);
  }

  /** The stamp only climbs, and standing still means nobody wrote. */
  lemma {:induction false} StampOnlyClimbs(t: Tables, reqs: seq<Request>, coll: string)
    requires AllWellFormed(reqs) && NeverDrops(t, reqs, coll) && coll != TOMBSTONE
    ensures t.Stamp(coll) <= Run(t, reqs).Stamp(coll)
    ensures t.Stamp(coll) == Run(t, reqs).Stamp(coll) ==> t.RowsOf(coll) == Run(t, reqs).RowsOf(coll)
  {
    if reqs != [] {
      NeverDropsInit(t, reqs, coll);
      StampOnlyClimbs(t, reqs[..|reqs| - 1], coll);
    }
  }

  /** And so it does from any point of the run on. */
  lemma {:induction false} StampClimbsFrom(t: Tables, reqs: seq<Request>, coll: string, i: nat)
    requires AllWellFormed(reqs) && NeverDrops(t, reqs, coll) && coll != TOMBSTONE && i <= |reqs|
    ensures t.Stamp(coll) <= Run(t, reqs[..i]).Stamp(coll) <= Run(t, reqs).Stamp(coll)
    ensures Run(t, reqs[..i]).Stamp(coll) == t.Stamp(coll) ==> Run(t, reqs[..i]).RowsOf(coll) == t.RowsOf(coll)
  {
    if i < |reqs| {
      NeverDropsInit(t, reqs, coll);
      StampClimbsFrom(t, reqs[..|reqs| - 1], coll, i);
      assert reqs[..|reqs| - 1][..i] == reqs[..i];
    } else {
      assert reqs[..i] == reqs;
      StampOnlyClimbs(t, reqs, coll);
    }
  }

  /** Collection-level writes whose precondition is the collection's own stamp. */
  predicate ConditionalWrite(req: Request, coll: string, seen: int) {
    req.pre == IfUnmodifiedSince(seen)
    && (req.op.PostCollection? || req.op.DeleteCollection?) && req.op.coll == coll
  }

  /** Compare and swap: the precondition of a conditional write holds exactly when no request since
      the client looked has stamped the collection; and then its rows are the ones the client saw. */
  lemma CompareAndSwap(t: Tables, reqs: seq<Request>, coll: string, req: Request)
    requires AllWellFormed(reqs) && NeverDrops(t, reqs, coll) && coll != TOMBSTONE
    requires ConditionalWrite(req, coll, t.Stamp(coll))
    ensures !Exec(Run(t, reqs), req).reply.PreconditionFailed?
            <==> forall i :: 0 <= i <= |reqs| ==> Run(t, reqs[..i]).Stamp(coll) == t.Stamp(coll)
    ensures !Exec(Run(t, reqs), req).reply.PreconditionFailed?
            ==> forall i :: 0 <= i <= |reqs| ==> Run(t, reqs[..i]).RowsOf(coll) == t.RowsOf(coll)
  {
    forall i | 0 <= i <= |reqs|
      ensures t.Stamp(coll) <= Run(t, reqs[..i]).Stamp(coll) <= Run(t, reqs).Stamp(coll)
      ensures Run(t, reqs[..i]).Stamp(coll) == t.Stamp(coll) ==> Run(t, reqs[..i]).RowsOf(coll) == t.RowsOf(coll)
    {
      StampClimbsFrom(t, reqs, coll, i);
    }
    assert reqs[..|reqs|] == reqs;
  }

  // ---- what is new since a stamp ----

  /** Every row is either newer than what the client saw, or one it saw as it is. */
  predicate CaughtBy(seen: Rows, stamp: int, rows: Rows) {
    forall id :: id in rows ==>
      rows[id].modified > stamp || (id in seen && SameContent(seen[id], rows[id]))
  }

  lemma {:induction false} RunIsCaught(t: Tables, reqs: seq<Request>, coll: string)
    requires AllWellFormed(reqs) && NeverDrops(t, reqs, coll) && coll != TOMBSTONE
    ensures CaughtBy(t.RowsOf(coll), t.Stamp(coll), Run(t, reqs).RowsOf(coll))
  {
    if reqs != [] {
      NeverDropsInit(t, reqs, coll);
      RunIsCaught(t, reqs[..|reqs| - 1], coll);
      StampOnlyClimbs(t, reqs[..|reqs| - 1], coll);
    }
  }

  // ---- why pagination is stable ----

  /** Requests between two pages that leave every record as it is and let none expire only insert,
      and what they insert is newer than every record the first page's query could see. */
  lemma GuardedInsertsGrow(t: Tables, now: int, reqs: seq<Request>, later: int, coll: string, q: Query)
    requires Valid(t) && AllWellFormed(reqs) && NeverDrops(t, reqs, coll) && coll != TOMBSTONE
    requires forall id :: id in t.RowsOf(coll) ==>
               id in Run(t, reqs).RowsOf(coll) && Run(t, reqs).RowsOf(coll)[id] == t.RowsOf(coll)[id]
               && (t.RowsOf(coll)[id].expiry > now <==> t.RowsOf(coll)[id].expiry > later)
    ensures Grows(Visible(t.RowsOf(coll), now, q), Visible(Run(t, reqs).RowsOf(coll), later, q))
  {
    RunIsCaught(t, reqs, coll);
    assert CollectionValid(t, coll);
  }

  /** The listing theorems ask for whole hundredths after the epoch; the invariant provides them. */
  lemma ViewsAreStamped(t: Tables, now: int, coll: string, q: Query)
    requires Valid(t)
    ensures WholeHundredths(Visible(t.RowsOf(coll), now, q))
    ensures forall id :: id in Visible(t.RowsOf(coll), now, q) ==> t.RowsOf(coll)[id].modified > 0
  {
    assert CollectionValid(t, coll);
  }
}
