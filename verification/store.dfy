/**
 The expiring key-value store behind the `payloads` table.

 The table is a finite map from id to entry. The three operations are the
 three SQL statements of the service: the startup statement batch (create the
 table if absent, then delete expired rows), the insert of a new payload, and
 the liveness-filtered lookup. The database clock `NOW()` and the outcome of
 the round-trip to the database are parameters.
 */
module ExpiringStore {
  import opened Clock

  /** Declared width of the `id` column, `VARCHAR(36)`. */
  const IdWidth: nat := 36

  /** The `id` column: the text form of a `Uuid`. Both handlers only ever
      pass `Uuid::to_string()`, whose length is exactly the column's width,
      so an id is never truncated or rejected for length. */
  type Id = s: string | |s| == IdWidth witness "00000000-0000-0000-0000-000000000000"

  /** The `payload` column, `TEXT NOT NULL`: any text the database's encoding
      accepts, which excludes the character U+0000. */
  type Payload = string

  const Nul: char := '\0'

  /** One row of the `payloads` table, without its key. */
  datatype Entry = Entry(payload: Payload, createdAt: Time)

  /** The `payloads` table; `id` is its primary key. */
  type Table = map<Id, Entry>

  /** How the round-trip to the database ends, as far as the table's own
      constraints do not decide it. `Up`: the statement runs to completion and
      its answer arrives. `Down`: the statement has no effect on the table,
      because the server was unreachable or it answered with an error the row's
      constraints did not cause (a timeout, a missing table, a read-only
      server, a full disk, ...). `ReplyLost`: the statement ran and committed,
      but the connection failed before its answer arrived, so the caller still
      sees an error. */
  datatype Backend = Up | Down | ReplyLost

  /** The reasons a statement can fail; the error text is not modelled. */
  datatype StorageError =
    | Unavailable        // any failure the row's constraints did not cause
    | InvalidText        // the payload holds U+0000, which `TEXT` cannot store
    | UniqueViolation    // the id is already a primary key of the table

  datatype Option<T> = None | Some(value: T)

  datatype PutOutcome = Stored(id: Id) | PutFailed(error: StorageError)

  /** Result of an insert: what the caller is told and the table afterwards. */
  datatype PutResult = PutResult(outcome: PutOutcome, table: Table)

  /** A lookup finds a live payload, finds nothing, or fails; "nothing" and
      "failure" are different answers. */
  datatype GetOutcome = Found(payload: Payload) | NotFound | GetFailed(error: StorageError)

  datatype InitOutcome = Ready(table: Table) | InitFailed(error: StorageError)

  /** The table's constraints admit the row: the payload is storable text
      and the primary key is new. */
  predicate Admits(t: Table, id: Id, payload: Payload)
  {
    Nul !in payload && id !in t
  }

  /** The ids a table answers for at `now`. */
  ghost function LiveIds(t: Table, now: Time): set<Id>
  {
    set k | k in t && IsLive(t[k].createdAt, now)
  }

  /**
   `INSERT INTO payloads (id, payload, created_at) VALUES ($1, $2, NOW())`
   with a fresh `id`. The id is returned only when the insert committed; the
   converse fails only when the answer is lost after the commit.
   */
  function Put(t: Table, id: Id, payload: Payload, now: Time, backend: Backend): (r: PutResult)
    // the caller is handed the id exactly when the row is admitted and the round-trip is Up
    ensures r.outcome.Stored? <==> backend.Up? && Admits(t, id, payload)
    ensures r.outcome.Stored? ==> r.outcome.id == id
    // the row is committed exactly when the statement ran and the row is admitted
    ensures (id in r.table && id !in t) <==> !backend.Down? && Admits(t, id, payload)
    ensures id in r.table && id !in t ==> r.table[id] == Entry(payload, now)
    // nothing else is added, removed or changed
    ensures r.table.Keys <= t.Keys + {id}
    ensures forall k :: k in t ==> k in r.table && r.table[k] == t[k]
    ensures r.outcome.Stored? ==> r.table.Keys == t.Keys + {id}
    ensures r.outcome.PutFailed? && !backend.ReplyLost? ==> r.table == t
    // which error the caller sees
    ensures !backend.Up? ==> r.outcome == PutFailed(Unavailable)
    ensures backend.Up? && Nul in payload ==> r.outcome == PutFailed(InvalidText)
    ensures backend.Up? && Nul !in payload && id in t ==> r.outcome == PutFailed(UniqueViolation)
  {
    if backend.Down? then
      PutResult(PutFailed(Unavailable), t)
    else
      var answer :=
        if Nul in payload then PutResult(PutFailed(InvalidText), t)
        else if id in t then PutResult(PutFailed(UniqueViolation), t)
        else PutResult(Stored(id), t[id := Entry(payload, now)]);
      // a lost answer reaches the caller as a connection error, whatever it said
      if backend.ReplyLost? then PutResult(PutFailed(Unavailable), answer.table) else answer
  }

  /**
   `SELECT payload FROM payloads WHERE id = $1 AND created_at >= NOW() - INTERVAL '4 hours'`:
   the payload of a live row, otherwise NotFound; a failure exactly when
   the round-trip is not `Up`. The table is not changed.
   */
  function Get(t: Table, id: Id, now: Time, backend: Backend): (r: GetOutcome)
    ensures r.GetFailed? <==> !backend.Up?
    ensures r.GetFailed? ==> r.error == Unavailable
    ensures r.Found? <==> backend.Up? && id in LiveIds(t, now)
    ensures r.Found? ==> r.payload == t[id].payload
    ensures backend.Up? && id !in t ==> r == NotFound
  {
    if !backend.Up? then
      GetFailed(Unavailable)
    else if id in t && IsLive(t[id].createdAt, now) then
      Found(t[id].payload)
    else
      NotFound
  }

  /**
   `DELETE FROM payloads WHERE created_at < NOW() - INTERVAL '4 hours'`:
   the table keeps exactly the rows that are not expired, unchanged.
   */
  function Sweep(t: Table, now: Time): (r: Table)
    ensures forall k :: k in r <==> k in t && !IsExpired(t[k].createdAt, now)
    ensures forall k :: k in r ==> r[k] == t[k]
    ensures r.Keys == LiveIds(t, now)
  {
    map k | k in t && !IsExpired(t[k].createdAt, now) :: t[k]
  }

  /**
   The startup batch of `init_db`: create the table when it does not exist,
   then sweep it. The service starts only when the batch's round-trip is `Up`;
   on any failure it stops, and what the table holds then is not observed.
   */
  function InitDb(existing: Option<Table>, now: Time, backend: Backend): (r: InitOutcome)
    ensures r.Ready? <==> backend.Up?
    ensures r.InitFailed? ==> r.error == Unavailable
    ensures r.Ready? ==> forall k :: k in r.table ==> IsLive(r.table[k].createdAt, now)
    ensures r.Ready? && existing.None? ==> r.table == map[]
    ensures r.Ready? && existing.Some? ==>
              && r.table.Keys == LiveIds(existing.value, now)
              && forall k :: k in r.table ==> r.table[k] == existing.value[k]
  {
    if !backend.Up? then
      InitFailed(Unavailable)
    else
      var t := if existing.Some? then existing.value else map[];
      Ready(Sweep(t, now))
  }

  /**
   The sweep as the database carries it out: visit every row once and delete
   it when its creation time is before the cutoff. It deletes exactly what
   the set-level `Sweep` describes.
   */
  method DeleteExpired(t: Table, now: Time) returns (r: Table)
    ensures r == Sweep(t, now)
  {
    r := t;
    var pending := t.Keys;
    while pending != {}
      invariant pending <= t.Keys
      invariant forall k :: k in r <==> k in t && (k in pending || !IsExpired(t[k].createdAt, now))
      invariant forall k :: k in r ==> r[k] == t[k]
      decreases pending
    {
      var k :| k in pending;
      if IsExpired(t[k].createdAt, now) {
        r := r - {k};
      }
      pending := pending - {k};
    }
  }
}
