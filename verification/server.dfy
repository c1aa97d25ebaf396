/**
 The service as a sequence of requests against one table.

 After the startup batch, the service answers `POST /store` with an insert
 and `GET /{id}` with a lookup; nothing else touches the table while it runs.
 Concurrent requests are modelled in the order the database serialises them.
 Each request carries the database clock and the fate of its round-trip.
 */
module Server {
  import opened Clock
  import opened ExpiringStore
  import opened StoreProperties

  datatype Request =
    | PutRequest(id: Id, payload: Payload, now: Time, backend: Backend)
    | GetRequest(id: Id, now: Time, backend: Backend)

  datatype Response = PutResponse(put: PutOutcome) | GetResponse(get: GetOutcome)

  datatype StepResult = StepResult(table: Table, response: Response)

  /** What a run of requests answered, and the table it left behind. */
  datatype Trace = Trace(table: Table, responses: seq<Response>)

  /** One request: `store_payload` inserts, `get_payload` only reads. */
  function Step(t: Table, req: Request): (r: StepResult)
    ensures req.GetRequest? ==> r.table == t && r.response.GetResponse?
    ensures req.PutRequest? ==> r.response.PutResponse?
    ensures r.response.PutResponse? && r.response.put.Stored? ==> r.response.put.id == req.id
    ensures r.response == PutResponse(Stored(req.id)) ==> req.id !in t && req.id in r.table
    // a handed-out id is always a new row; a new row can only be the request's own id
    ensures t.Keys + (if r.response.PutResponse? && r.response.put.Stored? then {req.id} else {}) <= r.table.Keys
    ensures r.table.Keys <= t.Keys + (if req.PutRequest? then {req.id} else {})
    ensures forall k :: k in t ==> k in r.table && r.table[k] == t[k]
  {
    match req
    case PutRequest(id, payload, now, backend) =>
      var p := Put(t, id, payload, now, backend);
      StepResult(p.table, PutResponse(p.outcome))
    case GetRequest(id, now, backend) =>
      StepResult(t, GetResponse(Get(t, id, now, backend)))
  }

  /** The ids handed out by successful inserts among `rs`. */
  function StoredIds(rs: seq<Response>): set<Id>
  {
    if rs == [] then {}
    else (if rs[0].PutResponse? && rs[0].put.Stored? then {rs[0].put.id} else {}) + StoredIds(rs[1..])
  }

  /** The ids the inserts among `reqs` try to write. */
  function PutIds(reqs: seq<Request>): set<Id>
  {
    if reqs == [] then {}
    else (if reqs[0].PutRequest? then {reqs[0].id} else {}) + PutIds(reqs[1..])
  }

  /** Serve `reqs` in order, starting from table `t`. Serving never removes or
      changes a row. It adds a row for every id it hands out, and only rows
      whose id some insert tried to write (an insert whose answer was lost
      adds its row without handing out the id). */
  function Run(t: Table, reqs: seq<Request>): (r: Trace)
    ensures |r.responses| == |reqs|
    ensures t.Keys + StoredIds(r.responses) <= r.table.Keys <= t.Keys + PutIds(reqs)
    ensures forall k :: k in t ==> k in r.table && r.table[k] == t[k]
    decreases |reqs|
  {
    if reqs == [] then Trace(t, [])
    else
      var s := Step(t, reqs[0]);
      var rest := Run(s.table, reqs[1..]);
      Trace(rest.table, [s.response] + rest.responses)
  }

  /** The process: the startup batch, then the requests. A failed startup
      serves nothing. */
  function Serve(existing: Option<Table>, boot: Time, backend: Backend, reqs: seq<Request>): (r: Option<Trace>)
    ensures r.Some? <==> backend.Up?
    ensures r.Some? ==> |r.value.responses| == |reqs|
  {
    match InitDb(existing, boot, backend)
    case InitFailed(_) => None
    case Ready(t) => Some(Run(t, reqs))
  }

  lemma {:induction false} StoredIdsMembership(rs: seq<Response>, k: Id)
    ensures k in StoredIds(rs) <==> exists i :: 0 <= i < |rs| && rs[i] == PutResponse(Stored(k))
    decreases |rs|
  {
    if rs != [] {
      StoredIdsMembership(rs[1..], k);
      if k in StoredIds(rs[1..]) {
        var i :| 0 <= i < |rs[1..]| && rs[1..][i] == PutResponse(Stored(k));
        assert rs[i + 1] == PutResponse(Stored(k));
      }
      if exists i :: 0 <= i < |rs| && rs[i] == PutResponse(Stored(k)) {
        var i :| 0 <= i < |rs| && rs[i] == PutResponse(Stored(k));
        if i > 0 {
          assert rs[1..][i - 1] == PutResponse(Stored(k));
        }
      }
    }
  }

  /** The `j`-th response is the answer to `reqs[j]` on the table left by the
      requests before it. */
  lemma {:induction false} RunPrefix(t: Table, reqs: seq<Request>, j: nat)
    requires j < |reqs|
    ensures Run(t, reqs[..j]).responses == Run(t, reqs).responses[..j]
    ensures Run(t, reqs).responses[j] == Step(Run(t, reqs[..j]).table, reqs[j]).response
    decreases j
  {
    if j > 0 {
      var s := Step(t, reqs[0]);
      var before := reqs[..j];
      assert before[0] == reqs[0];
      assert before[1..] == reqs[1..][..j - 1];
      RunPrefix(s.table, reqs[1..], j - 1);
      assert Run(t, before).responses == [s.response] + Run(s.table, before[1..]).responses;
      assert Run(t, reqs).responses == [s.response] + Run(s.table, reqs[1..]).responses;
    }
  }

  /** Every id an insert hands out is new: not in the table the run started
      from and different from every id handed out before it. */
  lemma StoredIdsAreDistinct(t: Table, reqs: seq<Request>, i: nat, j: nat)
    requires i < j < |reqs|
    requires Run(t, reqs).responses[i].PutResponse? && Run(t, reqs).responses[i].put.Stored?
    requires Run(t, reqs).responses[j].PutResponse? && Run(t, reqs).responses[j].put.Stored?
    ensures Run(t, reqs).responses[i].put.id != Run(t, reqs).responses[j].put.id
    ensures Run(t, reqs).responses[j].put.id !in t
  {
    var rs := Run(t, reqs).responses;
    RunPrefix(t, reqs, j);
    StoredIdsMembership(rs[..j], rs[i].put.id);
    assert rs[..j][i] == rs[i];
  }

  /** A row written by a successful insert is still there, unchanged, at the
      end of the run. */
  lemma {:induction false} StoredEntryPersists(t: Table, reqs: seq<Request>, i: nat)
    requires i < |reqs| && reqs[i].PutRequest?
    requires Run(t, reqs).responses[i] == PutResponse(Stored(reqs[i].id))
    ensures reqs[i].id in Run(t, reqs).table
    ensures Run(t, reqs).table[reqs[i].id] == Entry(reqs[i].payload, reqs[i].now)
    decreases i
  {
    var s := Step(t, reqs[0]);
    if i > 0 {
      StoredEntryPersists(s.table, reqs[1..], i - 1);
    }
  }

  /** Read after write: a lookup served after a successful insert of the same
      id returns the inserted payload until four hours after the insert, and
      NotFound afterwards. */
  lemma ReadAfterWrite(t: Table, reqs: seq<Request>, i: nat, j: nat)
    requires i < j < |reqs|
    requires reqs[i].PutRequest? && Run(t, reqs).responses[i] == PutResponse(Stored(reqs[i].id))
    requires reqs[j] == GetRequest(reqs[i].id, reqs[j].now, Up)
    ensures Run(t, reqs).responses[j]
            == GetResponse(if reqs[j].now <= reqs[i].now + Ttl then Found(reqs[i].payload) else NotFound)
  {
    RunPrefix(t, reqs, j);
    assert reqs[..j][i] == reqs[i];
    StoredEntryPersists(t, reqs[..j], i);
  }

  lemma {:induction false} PutIdsMembership(reqs: seq<Request>, k: Id)
    ensures k in PutIds(reqs) <==> exists i :: 0 <= i < |reqs| && reqs[i].PutRequest? && reqs[i].id == k
    decreases |reqs|
  {
    if reqs != [] {
      PutIdsMembership(reqs[1..], k);
      if k in PutIds(reqs[1..]) {
        var i :| 0 <= i < |reqs[1..]| && reqs[1..][i].PutRequest? && reqs[1..][i].id == k;
        assert reqs[i + 1] == reqs[1..][i];
      }
      if exists i :: 0 <= i < |reqs| && reqs[i].PutRequest? && reqs[i].id == k {
        var i :| 0 <= i < |reqs| && reqs[i].PutRequest? && reqs[i].id == k;
        if i > 0 {
          assert reqs[1..][i - 1] == reqs[i];
        }
      }
    }
  }

  /** An id that was never in the table and that no earlier request tried to
      insert is reported NotFound, not as a failure. */
  lemma NeverInsertedIsNotFound(t: Table, reqs: seq<Request>, j: nat, k: Id)
    requires j < |reqs| && k !in t
    requires forall i :: 0 <= i < j ==> !(reqs[i].PutRequest? && reqs[i].id == k)
    requires reqs[j] == GetRequest(k, reqs[j].now, Up)
    ensures Run(t, reqs).responses[j] == GetResponse(NotFound)
  {
    RunPrefix(t, reqs, j);
    PutIdsMembership(reqs[..j], k);
  }

  /** Lookups neither consume nor change anything: a lookup placed in front
      of a run changes neither the run's answers nor its final table, and
      asking the same lookup twice in a row gives the same answer twice. */
  lemma GetIsReadOnly(t: Table, id: Id, now: Time, b: Backend, reqs: seq<Request>)
    ensures Run(t, [GetRequest(id, now, b)] + reqs).responses[1..] == Run(t, reqs).responses
    ensures Run(t, [GetRequest(id, now, b)] + reqs).table == Run(t, reqs).table
    ensures Run(t, [GetRequest(id, now, b), GetRequest(id, now, b)]).responses[0]
            == Run(t, [GetRequest(id, now, b), GetRequest(id, now, b)]).responses[1]
  {
    var g := GetRequest(id, now, b);
    assert ([g] + reqs)[1..] == reqs;
    assert [g, g][1..] == [g];
  }

  /** Two tables that agree once the rows expired at `boot` are removed answer
      every request at or after `boot` identically, as long as no insert
      reuses the id of a row only the unswept table still holds. */
  lemma {:induction false} RunAgreesWithSweep(swept: Table, full: Table, boot: Time, reqs: seq<Request>)
    requires swept == Sweep(full, boot)
    requires forall i :: 0 <= i < |reqs| ==> boot <= reqs[i].now
    requires forall i :: 0 <= i < |reqs| && reqs[i].PutRequest? ==> reqs[i].id in swept || reqs[i].id !in full
    ensures Run(swept, reqs).responses == Run(full, reqs).responses
    ensures Run(swept, reqs).table == Sweep(Run(full, reqs).table, boot)
    decreases |reqs|
  {
    if reqs != [] {
      var r := reqs[0];
      var s1 := Step(swept, r);
      var s2 := Step(full, r);
      if r.GetRequest? {
        SweepNonInterference(full, boot, r.id, r.now, r.backend);
      } else {
        assert s1.table == Sweep(s2.table, boot);
      }
      RunAgreesWithSweep(s1.table, s2.table, boot, reqs[1..]);
    }
  }

  /** The startup sweep is unobservable: serving requests, none earlier than
      the sweep and none inserting the id of a row the sweep deleted, from the
      swept table gives exactly the answers it gives from the unswept table. */
  lemma {:induction false} SweepIsUnobservable(t: Table, boot: Time, reqs: seq<Request>)
    requires forall i :: 0 <= i < |reqs| ==> boot <= reqs[i].now
    requires forall i :: 0 <= i < |reqs| && reqs[i].PutRequest? && reqs[i].id in t ==>
               !IsExpired(t[reqs[i].id].createdAt, boot)
    ensures Run(Sweep(t, boot), reqs).responses == Run(t, reqs).responses
  {
    RunAgreesWithSweep(Sweep(t, boot), t, boot, reqs);
  }

  /** At the level of the whole process: whatever table the service finds at
      startup, the requests it then serves (none earlier than startup, none
      inserting the id of a row the startup batch deleted) are answered
      exactly as they would be had the startup batch deleted nothing. */
  lemma StartupSweepIsUnobservable(existing: Option<Table>, boot: Time, reqs: seq<Request>)
    requires forall i :: 0 <= i < |reqs| ==> boot <= reqs[i].now
    requires existing.Some? ==>
               forall i :: 0 <= i < |reqs| && reqs[i].PutRequest? && reqs[i].id in existing.value ==>
                 !IsExpired(existing.value[reqs[i].id].createdAt, boot)
    ensures Serve(existing, boot, Up, reqs).Some?
    ensures Serve(existing, boot, Up, reqs).value.responses
            == Run(if existing.Some? then existing.value else map[], reqs).responses
  {
    var t: Table := if existing.Some? then existing.value else map[];
    SweepIsUnobservable(t, boot, reqs);
  }
}
