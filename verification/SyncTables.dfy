/** The storage tables of one Sync user, and what each SQL statement makes of their rows. */
module SyncTables {
  import opened Wrappers

  /** The reserved collection: the schema gives id 0 the empty name, which no request can spell. */
  const TOMBSTONE: string := ""
  /** Seconds; the time to live of a record that names none. */
  const DEFAULT_BSO_TTL: int := 2_100_000_000
  /** Seconds; committed as an absolute instant, not added to the clock. */
  const MAX_TTL: int := 2_100_000_000

  datatype Row = Row(sortindex: Option<int>, payload: string, modified: int, expiry: int)

  /** A record as a client sends it, or as a batch holds it: an absent field is one not to change. */
  datatype Posted = Posted(id: string, payload: Option<string>, sortindex: Option<int>, ttl: Option<int>) {
    predicate SetsContent() {
      payload.Some? || sortindex.Some?
    }
  }

  predicate SetsContentOf(ps: seq<Posted>, id: string) {
    exists p :: p in ps && p.id == id && p.SetsContent()
  }

  predicate SetsTtlOf(ps: seq<Posted>, id: string) {
    exists p :: p in ps && p.id == id && p.ttl.Some?
  }

  type Rows = map<string, Row>
  type Staged = map<string, Posted>

  datatype Tables = Tables(
    names: set<string>,          // sync_collections
    stamps: map<string, int>,    // sync_user_collections
    bsos: map<string, Rows>,     // sync_bso, by collection
    batches: map<int, string>,   // sync_batches: the collection each open batch uploads to
    items: map<int, Staged>      // sync_batch_items, by batch
  ) {
    function RowsOf(coll: string): Rows {
      if coll in bsos then bsos[coll] else map[]
    }

    function StagedIn(batch: int): Staged {
      if batch in items then items[batch] else map[]
    }

    /** The resource timestamp of a collection: zero when this user has never written to it. */
    function Stamp(coll: string): int {
      if coll in stamps then stamps[coll] else 0
    }
  }

  function Quantize(milliseconds: int): int {
    milliseconds - milliseconds % 10
  }

  /** The row that `put_bso` leaves: an insert, or an update of just the fields that were sent. */
  function PutRow(prior: Option<Row>, p: Posted, now: int): Row {
    match prior
    case None =>
      Row(p.sortindex, p.payload.GetOr(""), now, now + p.ttl.GetOr(DEFAULT_BSO_TTL) * 1000)
    case Some(row) =>
      Row(if p.sortindex.Some? then p.sortindex else row.sortindex,
          p.payload.GetOr(row.payload),
          if p.SetsContent() then now else row.modified,
          if p.ttl.Some? then now + p.ttl.value * 1000 else row.expiry)
  }

  /** The row that `commit_batch` leaves for one staged item. */
  function CommitRow(prior: Option<Row>, p: Posted, now: int): Row {
    match prior
    case None =>
      Row(p.sortindex, p.payload.GetOr(""), now,
          if p.ttl.Some? then now + p.ttl.value * 1000 else MAX_TTL * 1000)
    case Some(row) =>
      Row(if p.sortindex.Some? then p.sortindex else row.sortindex,
          p.payload.GetOr(row.payload),
          now,
          if p.ttl.Some? then now + p.ttl.value * 1000 else row.expiry)
  }

  function Find<T>(m: map<string, T>, id: string): Option<T> {
    if id in m then Some(m[id]) else None
  }

  function Put(rows: Rows, p: Posted, now: int): Rows {
    rows[p.id := PutRow(Find(rows, p.id), p, now)]
  }

  /** A list of records, written one after another at one instant. */
  function PutAll(rows: Rows, ps: seq<Posted>, now: int): Rows {
    if ps == [] then rows
    else Put(PutAll(rows, ps[..|ps| - 1], now), ps[|ps| - 1], now)
  }

  /** Everything staged lands at once; each id is staged at most once, so order cannot matter. */
  function CommitAll(rows: Rows, staged: Staged, now: int): Rows {
    map id | id in rows.Keys + staged.Keys ::
      if id in staged then CommitRow(Find(rows, id), staged[id], now) else rows[id]
  }

  /** A record staged twice replaces its first copy outright. */
  function StageAll(staged: Staged, ps: seq<Posted>): Staged {
    if ps == [] then staged
    else StageAll(staged, ps[..|ps| - 1])[ps[|ps| - 1].id := ps[|ps| - 1]]
  }

  function DropIds(rows: Rows, ids: seq<string>): Rows {
    map id | id in rows && id !in ids :: rows[id]
  }

  /** `MAX(modified)` over every stamp, the tombstone's included; zero when there is none. */
  ghost function StorageStamp(stamps: map<string, int>): (m: int)
    ensures stamps == map[] ==> m == 0
    ensures stamps != map[] ==> exists c :: c in stamps && stamps[c] == m
    ensures forall c :: c in stamps ==> stamps[c] <= m
  {
    if stamps == map[] then 0
    else
      var c :| c in stamps;
      var rest := stamps - {c};
      if rest == map[] then
        assert stamps.Keys == {c} + rest.Keys;
        stamps[c]
      else
        assert forall d :: d in stamps ==> d == c || d in rest;
        var m := StorageStamp(rest);
        if m <= stamps[c] then stamps[c] else m
  }
}
