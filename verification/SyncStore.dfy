/** The store itself: the tables updated in place, statement by statement, inside one transaction. */
module SyncStore {
  import opened Wrappers
  import opened SyncTables
  import opened Paging
  import opened Sequences
  import opened SyncRequests

  /** `ORDER BY`, by repeatedly taking the first of what is left. */
  method OrderBy(v: Rows, sort: Sorting) returns (s: seq<Bso>)
    ensures s == Ordered(v, sort)
  {
    s := [];
    var rest := v;
    while rest != map[]
      invariant rest.Keys <= v.Keys && forall id :: id in rest ==> rest[id] == v[id]
      invariant Sorted(s, sort)
      invariant forall b: Bso :: b in s <==> b.id in v.Keys - rest.Keys && b.row == v[b.id]
      invariant forall b, id :: b in s && id in rest ==> Before(sort, b, Bso(id, rest[id]))
      decreases |rest|
    {
      var id := First(rest, sort);
      assert rest.Keys == {id} + (rest - {id}).Keys;
      forall i, j | 0 <= i < j < |s| + 1
        ensures Before(sort, (s + [Bso(id, rest[id])])[i], (s + [Bso(id, rest[id])])[j])
      {
        if j == |s| { assert s[i] in s; }
      }
      s := s + [Bso(id, rest[id])];
      rest := rest - {id};
    }
    OrderedLists(v, sort);
    ListingUnique(s, Ordered(v, sort), sort);
  }

  method First(v: Rows, sort: Sorting) returns (id: string)
    requires v != map[]
    ensures IsFirst(v, sort, id)
  {
    id :| id in v;
    var todo := v.Keys - {id};
    while todo != {}
      invariant id in v && id !in todo && todo <= v.Keys
      invariant forall k :: k in v && k !in todo && k != id ==> Before(sort, Bso(id, v[id]), Bso(k, v[k]))
    {
      var k :| k in todo;
      BeforeTotal(sort, Bso(id, v[id]), Bso(k, v[k]));
      if Before(sort, Bso(k, v[k]), Bso(id, v[id])) {
        forall j | j in v && j !in todo && j != id ensures Before(sort, Bso(k, v[k]), Bso(j, v[j])) {
          BeforeTransitive(sort, Bso(k, v[k]), Bso(id, v[id]), Bso(j, v[j]));
        }
        id := k;
      }
      todo := todo - {k};
    }
  }

  lemma PutAllOne(rows: Rows, p: Posted, now: int)
    ensures PutAll(rows, [p], now) == Put(rows, p, now)
  {
    assert PutAll(rows, [p][..0], now) == rows;
  }

  class Database {
    var names: set<string>
    var stamps: map<string, int>
    var bsos: map<string, Rows>
    var batches: map<int, string>
    var items: map<int, Staged>

    constructor ()
      ensures Contents() == Tables({}, map[], map[], map[], map[])
    {
      names, stamps, bsos, batches, items := {}, map[], map[], map[], map[];
    }

    function Contents(): Tables
      reads this
    {
      Tables(names, stamps, bsos, batches, items)
    }

    /** `ROLLBACK`. */
    method Restore(t: Tables)
      modifies this
      ensures Contents() == t
    {
      names, stamps, bsos, batches, items := t.names, t.stamps, t.bsos, t.batches, t.items;
    }
  }

  lemma PutOneMore(t: Tables, coll: string, rows: Rows, ps: seq<Posted>, i: nat, now: int)
    requires i < |ps|
    ensures var before := SetRows(t, coll, PutAll(rows, ps[..i], now));
            SetRows(before, coll, Put(before.RowsOf(coll), ps[i], now)) == SetRows(t, coll, PutAll(rows, ps[..i + 1], now))
  {
    OneMore(ps, i);
    assert PutAll(rows, ps[..i + 1], now) == Put(PutAll(rows, ps[..i], now), ps[i], now);
  }

  lemma AppendOneMore(t: Tables, batch: int, ps: seq<Posted>, i: nat)
    requires i < |ps|
    ensures var before := Append(t, batch, ps[..i]);
            Append(t, batch, ps[..i + 1])
            == before.(items := before.items[batch := before.StagedIn(batch)[ps[i].id := ps[i]]])
  {
    StageOneMore(t.StagedIn(batch), ps, i);
    StagedTwice(t.items, batch, StageAll(t.StagedIn(batch), ps[..i]), StageAll(t.StagedIn(batch), ps[..i + 1]));
  }

  lemma StageOneMore(staged: map<string, Posted>, ps: seq<Posted>, i: nat)
    requires i < |ps|
    ensures StageAll(staged, ps[..i + 1]) == StageAll(staged, ps[..i])[ps[i].id := ps[i]]
  {
    OneMore(ps, i);
  }

  lemma StagedTwice(items: map<int, map<string, Posted>>, batch: int, a: map<string, Posted>, b: map<string, Posted>)
    ensures items[batch := a][batch := b] == items[batch := b]
  {
  }

  /** One user's storage, for the duration of one request. */
  class SyncStore {
    const db: Database
    const now: int

    constructor (db: Database, now: int)
      ensures this.db == db && this.now == now
    {
      this.db, this.now := db, now;
    }

    method StorageTimestamp() returns (m: int)
      ensures m == StorageStamp(db.stamps)
    {
      m := 0;
      var todo := db.stamps.Keys;
      while todo != {}
        invariant todo <= db.stamps.Keys
        invariant forall c :: c in db.stamps && c !in todo ==> db.stamps[c] <= m
        invariant todo == db.stamps.Keys ==> m == 0
        invariant todo != db.stamps.Keys ==> exists c :: c in db.stamps && c !in todo && db.stamps[c] == m
      {
        var c :| c in todo;
        if todo == db.stamps.Keys || db.stamps[c] > m {
          m := db.stamps[c];
        }
        todo := todo - {c};
      }
    }

    method CheckWrite(coll: string) returns (ok: bool)
      ensures ok == MayWrite(db.Contents(), now, coll)
    {
      ok := coll !in db.stamps || db.stamps[coll] < now;
    }

    method GetOrCreateCollectionId(coll: string)
      modifies db
      ensures db.Contents() == KnowName(old(db.Contents()), coll)
    {
      db.names := db.names + {coll};
    }

    method UpdateCollection(coll: string)
      modifies db
      ensures db.Contents() == Touch(old(db.Contents()), now, coll)
    {
      db.stamps := db.stamps[coll := now];
    }

    /** The upsert: absent fields are not touched, and `modified` moves only with payload or sortindex. */
    method PutBso(coll: string, p: Posted)
      modifies db
      ensures db.Contents() == SetRows(old(db.Contents()), coll, Put(old(db.Contents().RowsOf(coll)), p, now))
    {
      var rows := db.Contents().RowsOf(coll);
      var row: Row;
      if p.id in rows {
        row := rows[p.id];
        if p.sortindex.Some? { row := row.(sortindex := p.sortindex); }
        if p.payload.Some? { row := row.(payload := p.payload.value); }
        if p.ttl.Some? { row := row.(expiry := now + p.ttl.value * 1000); }
        if p.payload.Some? || p.sortindex.Some? { row := row.(modified := now); }
      } else {
        row := Row(p.sortindex, p.payload.GetOr(""), now, now + p.ttl.GetOr(DEFAULT_BSO_TTL) * 1000);
      }
      db.bsos := db.bsos[coll := rows[p.id := row]];
    }

    method PutBsos(coll: string, ps: seq<Posted>)
      modifies db
      ensures db.Contents() == SetRows(old(db.Contents()), coll, PutAll(old(db.Contents().RowsOf(coll)), ps, now))
    {
      var rows := db.Contents().RowsOf(coll);
      db.bsos := db.bsos[coll := rows];
      ghost var t := old(db.Contents());
      var i := 0;
      while i < |ps|
        invariant 0 <= i <= |ps|
        invariant db.Contents() == SetRows(t, coll, PutAll(rows, ps[..i], now))
      {
        PutOneMore(t, coll, rows, ps, i, now);
        PutBso(coll, ps[i]);
        i := i + 1;
      }
      assert ps[..i] == ps;
    }

    /** Every record at one instant, and the collection stamped once; refused if the guard refuses. */
    method PostBsos(coll: string, ps: seq<Posted>, stamped: bool) returns (r: Result<int, Error>)
      modifies db
      ensures r.Ok? <==> stamped || MayWrite(old(db.Contents()), now, coll)
      ensures r.Ok? ==> r.value == now
                        && db.Contents() == SyncRequests.PostBsos(KnowName(old(db.Contents()), coll), now, coll, ps)
      ensures r.Err? ==> r.error == Conflict && db.Contents() == KnowName(old(db.Contents()), coll)
    {
      GetOrCreateCollectionId(coll);
      if !stamped {
        var ok := CheckWrite(coll);
        if !ok { return Err(Conflict); }
      }
      PutBsos(coll, ps);
      UpdateCollection(coll);
      r := Ok(now);
    }

    method DeleteBso(coll: string, id: string) returns (r: Result<int, Error>)
      modifies db
      ensures var t := old(db.Contents());
              r.Ok? <==> id in t.RowsOf(coll) && t.RowsOf(coll)[id].expiry > now
      ensures r.Ok? ==> r.value == now && db.Contents() == DropBsos(old(db.Contents()), now, coll, [id])
      ensures r.Err? ==> r.error == NotFound && db.Contents() == old(db.Contents())
    {
      var rows := db.Contents().RowsOf(coll);
      if id !in rows || rows[id].expiry <= now {
        return Err(NotFound);
      }
      db.bsos := db.bsos[coll := map k | k in rows && k != id :: rows[k]];
      assert db.bsos[coll] == DropIds(rows, [id]);
      UpdateCollection(coll);
      r := Ok(now);
    }

    method DeleteBsos(coll: string, ids: seq<string>)
      modifies db
      ensures db.Contents() == DropBsos(old(db.Contents()), now, coll, ids)
    {
      var rows := db.Contents().RowsOf(coll);
      db.bsos := db.bsos[coll := map k | k in rows && k !in ids :: rows[k]];
      UpdateCollection(coll);
    }

    method DeleteCollection(coll: string) returns (r: Result<int, Error>)
      modifies db
      ensures r.Ok? <==> HasCollection(old(db.Contents()), coll)
      ensures r.Ok? ==> db.Contents() == DropCollection(old(db.Contents()), now, coll)
                        && r.value == StorageStamp(db.stamps)
      ensures r.Err? ==> db.Contents() == old(db.Contents())
    {
      if db.Contents().RowsOf(coll) == map[] && coll !in db.stamps {
        return Err(NotFound);
      }
      db.bsos := db.bsos - {coll};
      db.stamps := db.stamps - {coll};
      UpdateCollection(TOMBSTONE);
      var m := StorageTimestamp();
      r := Ok(m);
    }

    method DeleteStorage()
      modifies db
      ensures db.Contents() == Wipe(old(db.Contents()))
    {
      db.bsos, db.stamps := map[], map[];
      db.items, db.batches := map[], map[];
    }

    // ---- batches ----

    method CreateBatch(coll: string) returns (r: Result<int, Error>)
      modifies db
      ensures var t := old(db.Contents()); var free := FreeBatchId(t.batches, now, MAX_BATCH_CREATE_RETRY);
              if free.Some? then
                r == Ok(free.value) && db.Contents() == KnowName(t, coll).(batches := t.batches[free.value := coll])
              else r == Err(Conflict) && db.Contents() == KnowName(t, coll)
    {
      GetOrCreateCollectionId(coll);
      var batch, tries := now, 0;
      while tries < MAX_BATCH_CREATE_RETRY
        invariant 0 <= tries <= MAX_BATCH_CREATE_RETRY && batch == now + tries
        invariant db.Contents() == KnowName(old(db.Contents()), coll)
        invariant FreeBatchId(db.batches, now, MAX_BATCH_CREATE_RETRY)
                  == FreeBatchId(db.batches, batch, MAX_BATCH_CREATE_RETRY - tries)
      {
        if batch !in db.batches {
          db.batches := db.batches[batch := coll];
          return Ok(batch);
        }
        batch, tries := batch + 1, tries + 1;
      }
      r := Err(Conflict);
    }

    method ValidateBatch(coll: string, batch: int) returns (ok: bool)
      ensures ok == ValidBatch(db.Contents(), now, coll, batch)
    {
      if batch + BATCH_LIFETIME_MS < now { return false; }
      if coll !in db.names { return false; }
      ok := batch in db.batches && db.batches[batch] == coll;
    }

    method AppendToBatch(coll: string, batch: int, ps: seq<Posted>) returns (r: Result<(), Error>)
      modifies db
      ensures r.Ok? <==> ValidBatch(old(db.Contents()), now, coll, batch)
      ensures r.Ok? ==> db.Contents() == Append(old(db.Contents()), batch, ps)
      ensures r.Err? ==> r.error == BadRequest && db.Contents() == old(db.Contents())
    {
      var ok := ValidateBatch(coll, batch);
      if !ok { return Err(BadRequest); }
      var i := 0;
      while i < |ps|
        invariant 0 <= i <= |ps|
        invariant db.Contents() == Append(old(db.Contents()), batch, ps[..i])
      {
        AppendOneMore(old(db.Contents()), batch, ps, i);
        db.items := db.items[batch := db.Contents().StagedIn(batch)[ps[i].id := ps[i]]];
        i := i + 1;
      }
      assert ps[..i] == ps;
      r := Ok(());
    }

    /** Row by row: an insert takes defaults, an update keeps what was not staged. */
    method CommitBatch(coll: string, batch: int) returns (modified: int)
      modifies db
      ensures modified == now
      ensures db.Contents() == SyncRequests.CommitBatch(KnowName(old(db.Contents()), coll), now, coll, batch)
    {
      GetOrCreateCollectionId(coll);
      ghost var t := db.Contents();
      var rows, staged := db.Contents().RowsOf(coll), db.Contents().StagedIn(batch);
      var todo, landed := staged.Keys, rows;
      while todo != {}
        invariant todo <= staged.Keys
        invariant landed.Keys == rows.Keys + (staged.Keys - todo)
        invariant forall id :: id in landed ==>
          landed[id] == if id in staged && id !in todo then CommitRow(Find(rows, id), staged[id], now) else rows[id]
      {
        var id :| id in todo;
        landed := landed[id := CommitRow(Find(landed, id), staged[id], now)];
        todo := todo - {id};
      }
      assert landed == CommitAll(rows, staged, now);
      db.bsos := db.bsos[coll := landed];
      UpdateCollection(coll);
      DeleteBatch(batch);
      modified := now;
    }

    method DeleteBatch(batch: int)
      modifies db
      ensures var t := old(db.Contents());
              db.Contents() == t.(items := t.items - {batch}, batches := t.batches - {batch})
    {
      db.items := db.items - {batch};
      db.batches := db.batches - {batch};
    }

    // ---- reads ----

    method GetBsos(coll: string, query: Query, full: bool) returns (page: Page)
      ensures page == ReadPage(db.Contents(), now, coll, query, full)
    {
      if coll !in db.names { return Page([], None); }
      var rows := Visible(db.Contents().RowsOf(coll), now, query);
      var listing := OrderBy(Resume(rows, query, full), query.sort);
      var limit := query.limit.GetOr(DEFAULT_LIMIT);
      var fetched := Slice(listing, Skip(query), if limit > 0 then limit + 1 else 0);
      if |fetched| > limit {
        var items := fetched[..|fetched| - 1];
        if full {
          var token := EncodeNextOffset(query.sort, Skip(query), Bound(query), Paging.Stamps(items));
          return Page(items, Some(token));
        }
        return Page(items, Some(Offset(None, limit + Skip(query))));
      }
      page := Page(fetched, if limit == 0 && full then Some(Offset(None, 0)) else None);
    }

    // ---- handlers and the transaction around them ----

    method ResourceTimestamp(op: Operation) returns (m: int)
      ensures m == Resource(db.Contents(), op)
    {
      match op
      case InfoCollections => m := StorageTimestamp();
      case DeleteStorage => m := StorageTimestamp();
      case GetCollection(c, _, _) => m := db.Contents().Stamp(c);
      case PostCollection(c, _, _) => m := db.Contents().Stamp(c);
      case DeleteCollection(c, _) => m := db.Contents().Stamp(c);
      case GetBso(c, id) => m := BsoStamp(db.Contents(), c, id);
      case PutBso(c, body) => m := BsoStamp(db.Contents(), c, body.id);
      case DeleteBso(c, id) => m := BsoStamp(db.Contents(), c, id);
    }

    /** `_post_batch`: append to a batch, and commit it if asked. */
    method PostBatch(coll: string, upload: BatchRequest, ps: seq<Posted>)
      returns (r: Result<(Option<int>, Body), Error>)
      requires !(upload.batch.NewBatch? && upload.commit)
      requires coll in db.names
      modifies db
      ensures var h := HandlePost(old(db.Contents()), now, coll, Some(upload), ps);
              if h.Err? then r == Err(h.error)
              else r == Ok((h.value.lastModified, h.value.body)) && db.Contents() == h.value.tables
    {
      ghost var t := db.Contents();
      assert KnowName(t, coll) == t;
      var batch;
      match upload.batch {
        case Undecodable => return Err(BadRequest);
        case NewBatch =>
          FreeBatchIdIsFree(t.batches, now, MAX_BATCH_CREATE_RETRY);
          var created := CreateBatch(coll);
          if created.Err? { return Err(created.error); }
          batch := created.value;
        case BatchId(id) =>
          var ok := ValidateBatch(coll, id);
          if !ok { return Err(BadRequest); }
          batch := id;
      }
      if ps != [] && !upload.commit {
        var appended := AppendToBatch(coll, batch, ps);
        assert appended.Ok?;
      }
      if !upload.commit {
        return Ok((None, Staging(batch)));
      }
      var modified := CommitBatch(coll, batch);
      if ps != [] {
        ghost var landed := db.Contents();
        assert KnowName(landed, coll) == landed;
        var posted := PostBsos(coll, ps, true);
        modified := posted.value;
      }
      r := Ok((Some(modified), Modified(modified)));
    }

    method HandleRequest(op: Operation) returns (r: Result<(Option<int>, Body), Error>)
      requires WriteTarget(op).Some? ==>
                 WriteTarget(op).value in db.names && MayWrite(db.Contents(), now, WriteTarget(op).value)
      modifies db
      ensures var h := Handle(old(db.Contents()), now, op);
              if h.Err? then r == Err(h.error)
              else r == Ok((h.value.lastModified, h.value.body)) && db.Contents() == h.value.tables
    {
      ghost var t := db.Contents();
      match op
      case InfoCollections => r := Ok((None, SyncRequests.Stamps(db.stamps - {TOMBSTONE})));
      case DeleteStorage =>
        DeleteStorage();
        r := Ok((None, Null));
      case GetCollection(c, query, full) =>
        var page := GetBsos(c, query, full);
        r := Ok((None, Records(page)));
      case PostCollection(c, upload, valid) =>
        if upload.Some? && !(upload.value.batch.NewBatch? && upload.value.commit) {
          r := PostBatch(c, upload.value, valid);
        } else {
          assert KnowName(t, c) == t;
          var posted := PostBsos(c, valid, false);
          r := Ok((Some(posted.value), Modified(posted.value)));
        }
      case DeleteCollection(c, ids) =>
        if ids != [] {
          DeleteBsos(c, ids);
          r := Ok((Some(now), Modified(now)));
        } else {
          var deleted := DeleteCollection(c);
          var modified: int;
          if deleted.Ok? { modified := deleted.value; } else { modified := StorageTimestamp(); }
          r := Ok((None, Modified(modified)));
        }
      case GetBso(c, id) =>
        var rows := db.Contents().RowsOf(c);
        if id in rows && rows[id].expiry > now {
          r := Ok((None, Record(Bso(id, rows[id]))));
        } else {
          r := Err(NotFound);
        }
      case PutBso(c, body) =>
        PutBso(c, body);
        UpdateCollection(c);
        PutAllOne(t.RowsOf(c), body, now);
        r := Ok((Some(now), Modified(now)));
      case DeleteBso(c, id) =>
        var deleted := DeleteBso(c, id);
        if deleted.Ok? { r := Ok((Some(deleted.value), Modified(deleted.value))); } else { r := Err(deleted.error); }
    }

    /** `_run`: the transaction. What the handler did stays, or all of it is undone. */
    method RunRequest(req: Request) returns (reply: Reply)
      requires now == req.now
      modifies db
      ensures Outcome(db.Contents(), reply) == Exec(old(db.Contents()), req)
    {
      var saved := db.Contents();
      if req.op.GetCollection? && !TokenFits(req.op.query) { return Refused(BadRequest); }
      var timestamp := ResourceTimestamp(req.op);
      var early := CheckPrecondition(req.pre, timestamp);
      if early.Some? { return early.value; }
      var target := WriteTarget(req.op);
      if target.Some? {
        var ok := CheckWrite(target.value);
        GetOrCreateCollectionId(target.value);
        if !ok {
          db.Restore(saved);
          return Refused(Conflict);
        }
      }
      var handled := HandleRequest(req.op);
      if handled.Err? {
        db.Restore(saved);
        return Refused(handled.error);
      }
      reply := Answer(handled.value.0.GetOr(timestamp), handled.value.1);
    }
  }
}
