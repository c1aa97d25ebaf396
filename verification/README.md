# simple_store: the expiring payload store, in Dafny

`simple_store` is a small HTTP service. `POST /store` saves a text payload
under a fresh UUID v4 and returns the id. `GET /{id}` returns the payload
while it is at most four hours old. At startup the service deletes every row
older than four hours. All of the behaviour lives in three SQL statements in
`src/main.rs`:

- the startup batch of `init_db`, which creates the table if absent and runs `DELETE ... WHERE created_at < NOW() - INTERVAL '4 hours'`;
- the insert of `store_payload`, which runs `INSERT ... VALUES ($1, $2, NOW())`;
- the lookup of `get_payload`, which runs `SELECT ... WHERE id = $1 AND created_at >= NOW() - INTERVAL '4 hours'`.

This project models the `payloads` table as an immutable finite map from id to
`Entry(payload, createdAt)`. It models the three statements as pure functions
over that map, and the running service as a sequential trace of requests.
Time is whole seconds on the database clock, with `Ttl = 4 * 3600`.

Three things are parameters rather than modelled behaviour:

- the database clock `NOW()`, which is the `now` argument of each operation;
- the generated id, which the caller supplies;
- how the round-trip to the database ends, which is a `Backend` value:
  - `Up`: the statement runs to completion and its answer arrives;
  - `Down`: the statement has no effect on the table, because the server was unreachable or it answered with an error the row's constraints did not cause (a timeout, a missing table, a read-only server, a full disk);
  - `ReplyLost`: the statement ran and committed, but the connection failed before the answer arrived.

Modules, one per concern:

- `clock.dfy` (`Clock`): the TTL, plus the lookup's `>=` filter and the sweep's `<` filter.
- `store.dfy` (`ExpiringStore`): `Entry`, `Table`, the outcome types, `Put`, `Get`, `Sweep` and `InitDb`. It also holds `DeleteExpired`, a row-by-row sweep proved equal to `Sweep`.
- `properties.dfy` (`StoreProperties`): lemmas relating insert, lookup and sweep.
- `server.dfy` (`Server`): `Step`, `Run` and `Serve` over request sequences, and lemmas about traces.

The boundary follows the code. An entry whose age is exactly four hours is
still served, because the lookup tests `created_at >= NOW() - 4h`. It is also
not deleted, because the sweep tests `created_at < NOW() - 4h`. A prose
reading that says "live iff age < TTL" disagrees with the code at exactly that
instant. The model follows the code: live iff `now - createdAt <= Ttl`.

An id is the text form of a `Uuid`, because both handlers only ever pass
`Uuid::to_string()`. That text is always 36 characters, which is exactly the
width of the `VARCHAR(36)` column, so the model never truncates or rejects an
id for its length.

The insert can fail in three ways, each a `StorageError`:

- `UniqueViolation`: the id is already a primary key.
- `InvalidText`: the payload contains U+0000. The `TEXT` column cannot store that character, so Postgres rejects the parameter and the handler answers with an error.
- `Unavailable`: any other failure, that is, a `Down` or `ReplyLost` round-trip.

An id is handed out only when its row was committed. The converse does not
hold. An insert whose reply is lost commits its row, but the caller gets an
error and no id. Every other failure leaves the table unchanged.

A lookup reports `NotFound` for a missing or expired row. It reports
`GetFailed(Unavailable)` exactly when the round-trip is not `Up`, which
covers every error the handler turns into a server error.

## Model

| member | source | states |
|---|---|---|
| Clock.LiveIsComplementOfExpired | src/main.rs:73 | the lookup's `>=` filter holds exactly when the sweep's `<` filter fails, i.e. an entry is live iff its age is at most four hours |
| Clock.ExpiryIsPermanent | src/main.rs:32 | an expired entry stays expired as the clock advances; a live entry was live at every earlier time |
| ExpiringStore.Put | src/main.rs:46-61 | the id is handed out iff the round-trip is `Up`, the payload has no U+0000 and the id is not yet a key; the row `id ↦ (payload, now)` is committed iff the statement ran and those two constraints hold; no other row is added, removed or changed; a failure leaves the table unchanged unless only the reply was lost; the error is Unavailable when the round-trip is not `Up`, InvalidText for a U+0000 payload, and otherwise UniqueViolation for a present id |
| ExpiringStore.Get | src/main.rs:72-84 | the lookup fails, always with Unavailable, iff the round-trip is not `Up`; it finds a payload iff the id is a key whose entry is live at `now`, and then the payload is the stored one; an absent id gives NotFound |
| ExpiringStore.Sweep | src/main.rs:32 | an id is kept iff it was present and not expired; kept rows are unchanged; the kept ids are exactly the ids the lookup would serve at that time |
| ExpiringStore.InitDb | src/main.rs:23-37 | the service starts iff the startup batch's round-trip is `Up`, and otherwise fails with Unavailable; then it yields an empty table if none existed, otherwise exactly the live rows of the existing table, unchanged, so every remaining row is live |
| ExpiringStore.DeleteExpired | src/main.rs:32 | deleting expired rows one at a time leaves exactly the table `Sweep` describes |
| StoreProperties.GetIsLookupAfterSweep | src/main.rs:73 | a lookup answers exactly like a plain key lookup in the swept table |
| StoreProperties.PutThenGet | src/main.rs:48 | after a successful insert at `created`, the lookup of that id returns the same payload for every `now <= created + Ttl`, and NotFound for every later `now` |
| StoreProperties.PutLeavesOtherIdsAlone | src/main.rs:48 | an insert, successful or not, changes no other id's lookup answer |
| StoreProperties.PutOfPresentIdFails | src/main.rs:28 | inserting an id that is already a key always fails, even when that row has expired, and leaves the table unchanged |
| StoreProperties.NulPayloadIsNeverStored | src/main.rs:29 | a payload containing U+0000 is never stored: the insert fails, the table is unchanged, and when the round-trip is `Up` the error is InvalidText |
| StoreProperties.LostReplyStillCommits | src/main.rs:49-61 | an admissible insert whose reply is lost reports Unavailable and hands out no id, yet its row is committed and later served for four hours like any other |
| StoreProperties.AbsentIdIsNotFound | src/main.rs:82-83 | an id not in the table is NotFound, which differs from the storage-failure answer |
| StoreProperties.SweepTwice | src/main.rs:32 | sweeping at `a` and then at `b` equals one sweep at the later of the two; sweeping twice at one time equals sweeping once |
| StoreProperties.SweepNonInterference | src/main.rs:32 | for every id, backend outcome and lookup time not before the sweep, the lookup answers the same on the swept and the unswept table |
| StoreProperties.AgeExactlyTtlIsKeptAndServed | src/main.rs:73 | an entry exactly four hours old survives the sweep unchanged and is served, both before and after the sweep |
| StoreProperties.SweepVisibleToEarlierLookup | src/main.rs:32 | a concrete table in which a lookup at an earlier clock reading than the sweep tells the two tables apart, so non-interference needs the clock not to go back |
| StoreProperties.SweepVisibleToCollidingPut | src/main.rs:28 | a concrete table in which the lookup cannot tell an expired row from a swept one, but an insert reusing its id fails before the sweep and succeeds after it |
| Server.Step | src/main.rs:40-85 | a lookup request leaves the table unchanged; no request changes or removes an existing row; an id answered Stored is the request's own and is a new row; the only row a request can add is its own insert's |
| Server.Run | src/main.rs:40-85 | serving a sequence of requests gives one response per request and never changes or removes a row; the final table holds every handed-out id and no id beyond those the inserts tried to write |
| Server.Serve | src/main.rs:110-120 | the service serves its requests iff the startup batch succeeds, with one response per request |
| Server.StoredIdsAreDistinct | src/main.rs:28 | in any run, every id an insert hands out is different from every id handed out earlier and from every id already in the table |
| Server.StoredEntryPersists | src/main.rs:48 | a row written by a successful insert is still present and unchanged at the end of the run |
| Server.ReadAfterWrite | src/main.rs:72-80 | a lookup served later in the run, for the id of a successful insert, returns the inserted payload up to four hours after the insert and NotFound afterwards |
| Server.NeverInsertedIsNotFound | src/main.rs:82 | a lookup of an id that was not in the table and that no earlier request tried to insert is NotFound, not a failure |
| Server.GetIsReadOnly | src/main.rs:72-84 | a lookup placed in front of a run changes neither the run's later answers nor its final table; the same lookup asked twice in a row answers the same both times |
| Server.SweepIsUnobservable | src/main.rs:32 | if no request comes before the sweep and no insert reuses the id of a row the sweep deleted, the requests get the same answers from the swept table as from the unswept one |
| Server.StartupSweepIsUnobservable | src/main.rs:111-113 | under the same conditions, the whole service, startup batch included, answers exactly as serving from the table it found would |

## Left out

- HTTP plumbing is not modelled: routing, JSON bodies, status codes and the parsing of `/{id}` into a UUID. It is framework I/O with no logic of its own. A path that does not parse never reaches the lookup.
- Connection setup, the spawned connection task, `Arc` sharing, environment configuration and logging are not modelled. They are I/O and runtime plumbing.
- Ids are only the 36-character text of a `Uuid`, as both handlers produce. The `VARCHAR(36)` column's handling of longer text is therefore not modelled: it rejects longer text, except that trailing spaces are silently cut off.
- UUID v4 generation is not modelled, because it is randomness in the `uuid` crate. The id is supplied by the caller, and a collision appears as the `UniqueViolation` failure. The 36-character hyphenated form comes from that crate.
- The clock and timestamp types are reduced to an integer `now` per statement. This drops `NOW()` being the transaction start time, microsecond resolution, and `TIMESTAMP` versus `timestamptz`.
- Concurrency between requests is not modelled. Requests are a sequence in the order the database serialises them.
- Every server-side error that the row's constraints do not cause collapses into `Unavailable`, through a `Down` round-trip. This covers timeouts, a dropped table, a read-only server and a full disk. The model assumes a UTF-8 database, so U+0000 is the only payload text the column rejects. A payload character that a database with another encoding cannot represent is not modelled.
- Error text is not modelled. Failures carry only an opaque `StorageError` kind.
- The sweep runs only at startup, as in the code. No periodic sweep is modelled, so rows that expire while the service runs stay in the table until the next start. The lookup hides them, as `SweepNonInterference` shows.
- Server.Serve: states only that the service runs iff startup succeeds and answers every request; what it answers is stated by `StartupSweepIsUnobservable` and the `Run` lemmas.
