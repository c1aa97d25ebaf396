/**
 Properties relating the insert, the lookup and the startup sweep.

 The lookup never trusts a stored flag: it recomputes liveness from
 `createdAt` each time, with the boundary that is the exact complement of the
 sweep's. The lemmas below show what that buys: a stored payload comes back
 unchanged for exactly four hours, and deleting expired rows cannot be seen
 through any later lookup.
 */
module StoreProperties {
  import opened Clock
  import opened ExpiringStore

  /** A concrete id for the examples below. */
  const SampleId: Id := "0f8e2a52-3c1d-4d4e-9b6a-7c2d1e0f9a3b"

  /** A lookup answers exactly like a plain key lookup in the table with the
      expired rows removed: liveness filtering and sweeping agree. */
  lemma GetIsLookupAfterSweep(t: Table, id: Id, now: Time)
    ensures Get(t, id, now, Up) == (if id in Sweep(t, now) then Found(Sweep(t, now)[id].payload) else NotFound)
  {
  }

  /** Round trip: after a successful insert at time `created`, the lookup of
      the new id returns the same payload at every `now` up to and including
      `created + Ttl`, and NotFound at every later `now`. */
  lemma PutThenGet(t: Table, id: Id, payload: Payload, created: Time, now: Time)
    requires Put(t, id, payload, created, Up).outcome.Stored?
    ensures Get(Put(t, id, payload, created, Up).table, id, now, Up)
            == (if now <= created + Ttl then Found(payload) else NotFound)
  {
  }

  /** An insert does not change what any other id answers. */
  lemma PutLeavesOtherIdsAlone(t: Table, id: Id, payload: Payload, created: Time,
                               b: Backend, other: Id, now: Time, b': Backend)
    requires other != id
    ensures Get(Put(t, id, payload, created, b).table, other, now, b') == Get(t, other, now, b')
  {
  }

  /** A failed insert returns no id and leaves the table as it was, and the
      insert of an id already in the table always fails, whatever its age. */
  lemma PutOfPresentIdFails(t: Table, id: Id, payload: Payload, created: Time, b: Backend)
    requires id in t
    ensures Put(t, id, payload, created, b).outcome.PutFailed?
    ensures Put(t, id, payload, created, b).table == t
  {
  }

  /** A payload holding U+0000 is never stored: the insert fails, the table
      keeps what it had, and with the answer arriving the error says why. So
      the round trip holds for every payload except those. */
  lemma NulPayloadIsNeverStored(t: Table, id: Id, payload: Payload, created: Time, b: Backend)
    requires Nul in payload
    ensures Put(t, id, payload, created, b).outcome.PutFailed?
    ensures Put(t, id, payload, created, b).table == t
    ensures b.Up? ==> Put(t, id, payload, created, b).outcome == PutFailed(InvalidText)
  {
  }

  /** An insert whose answer is lost reports an error and hands out no id, yet
      its row is committed and served like any other. */
  lemma LostReplyStillCommits(t: Table, id: Id, payload: Payload, created: Time, now: Time)
    requires Admits(t, id, payload)
    ensures Put(t, id, payload, created, ReplyLost).outcome == PutFailed(Unavailable)
    ensures Get(Put(t, id, payload, created, ReplyLost).table, id, now, Up)
            == (if now <= created + Ttl then Found(payload) else NotFound)
  {
  }

  /** An id that is not in the table is reported NotFound, which is a
      different answer from the storage failure. */
  lemma AbsentIdIsNotFound(t: Table, id: Id, now: Time)
    requires id !in t
    ensures Get(t, id, now, Up) == NotFound
    ensures Get(t, id, now, Up) != Get(t, id, now, Down)
  {
  }

  /** Sweeping at `a` and then at `b` removes what the later of the two sweeps
      removes; in particular sweeping twice at the same time is sweeping once. */
  lemma SweepTwice(t: Table, a: Time, b: Time)
    ensures Sweep(Sweep(t, a), b) == Sweep(t, if a <= b then b else a)
    ensures Sweep(Sweep(t, a), a) == Sweep(t, a)
  {
  }

  /** The sweep is invisible to lookups: for any id and any lookup time not
      before the sweep, the lookup answers the same on the swept table as on
      the unswept one. */
  lemma SweepNonInterference(t: Table, swept: Time, id: Id, now: Time, b: Backend)
    requires swept <= now
    ensures Get(Sweep(t, swept), id, now, b) == Get(t, id, now, b)
  {
  }

  /** An entry exactly `Ttl` old is neither deleted by the sweep nor hidden by
      the lookup. */
  lemma AgeExactlyTtlIsKeptAndServed(t: Table, id: Id, now: Time)
    requires id in t && t[id].createdAt == now - Ttl
    ensures id in Sweep(t, now) && Sweep(t, now)[id] == t[id]
    ensures Get(t, id, now, Up) == Found(t[id].payload)
    ensures Get(Sweep(t, now), id, now, Up) == Found(t[id].payload)
  {
  }

  /** The sweep's invisibility needs the clock not to run backwards: an entry
      swept at time 2 * Ttl would still have been served at time Ttl. */
  lemma SweepVisibleToEarlierLookup()
    ensures var t := map[SampleId := Entry("p", 0)];
            && Get(t, SampleId, Ttl, Up) == Found("p")
            && Get(Sweep(t, 2 * Ttl), SampleId, Ttl, Up) == NotFound
  {
  }

  /** Lookups cannot tell an expired row from a deleted one, but an insert
      can: the insert of an id held by an expired, not yet swept row fails,
      while the same insert after the sweep succeeds. */
  lemma SweepVisibleToCollidingPut()
    ensures var t := map[SampleId := Entry("p", 0)];
            && Get(t, SampleId, 2 * Ttl, Up) == Get(Sweep(t, 2 * Ttl), SampleId, 2 * Ttl, Up)
            && Put(t, SampleId, "q", 2 * Ttl, Up).outcome == PutFailed(UniqueViolation)
            && Put(Sweep(t, 2 * Ttl), SampleId, "q", 2 * Ttl, Up).outcome == Stored(SampleId)
  {
  }
}
