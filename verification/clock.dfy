/**
 Time as the expiring store sees it.

 Both SQL statements that decide an entry's fate compare its `created_at`
 against the same point, `NOW() - INTERVAL '4 hours'`: the lookup keeps rows
 at or after that point (`>=`), the startup sweep deletes rows strictly before
 it (`<`). Timestamps are whole seconds on the database server's clock.
 */
module Clock {

  /** A point on the database server's clock, in seconds. */
  type Time = int

  const SecondsPerHour: int := 3600

  /** The lifetime of an entry: the `INTERVAL '4 hours'` of both predicates. */
  const Ttl: int := 4 * SecondsPerHour

  /** `NOW() - INTERVAL '4 hours'`: the oldest creation time still served at `now`. */
  function Cutoff(now: Time): Time
  {
    now - Ttl
  }

  /** The lookup's filter: `created_at >= NOW() - INTERVAL '4 hours'`. */
  predicate IsLive(createdAt: Time, now: Time)
  {
    createdAt >= Cutoff(now)
  }

  /** The sweep's filter: `created_at < NOW() - INTERVAL '4 hours'`. */
  predicate IsExpired(createdAt: Time, now: Time)
  {
    createdAt < Cutoff(now)
  }

  /** The two filters split every timestamp exactly in two, and an entry is
      live precisely while its age is at most the TTL (an age of exactly
      four hours is still live). */
  lemma LiveIsComplementOfExpired(createdAt: Time, now: Time)
    ensures IsLive(createdAt, now) <==> !IsExpired(createdAt, now)
    ensures IsLive(createdAt, now) <==> now - createdAt <= Ttl
  {
  }

  /** Once an entry has expired it stays expired as the clock advances, and a
      live entry was live at every earlier moment. */
  lemma ExpiryIsPermanent(createdAt: Time, now: Time, later: Time)
    requires now <= later
    ensures IsExpired(createdAt, now) ==> IsExpired(createdAt, later)
    ensures IsLive(createdAt, later) ==> IsLive(createdAt, now)
  {
  }
}
