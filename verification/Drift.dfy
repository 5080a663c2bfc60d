/** How far an expiry moves when a key is logged and replayed, in clock ticks of one nanosecond. The
    clock is read separately to store, to log, to interpret and to store again. */
module Drift {
  const MS := 1_000_000

  /** Whole milliseconds of a duration or of a time since the epoch: truncation toward zero. */
  function TruncMs(ns: int): int {
    if ns >= 0 then ns / MS else -((-ns) / MS)
  }

  /** SET with a relative expiry, or EXPIRE, storing at clock reading t. */
  function StoredExpiry(t: int, ttl: int): int {
    t + ttl * MS
  }

  /** The absolute time logged for a relative expiry, at clock reading t. */
  function LoggedTime(t: int, ttl: int): int {
    TruncMs(t + ttl * MS)
  }

  /** SET with PXAT: the time left is taken at one reading and added back at a later one. */
  function PxatExpiry(pxat: int, read: int, store: int): int {
    StoredExpiry(store, TruncMs(pxat * MS - read))
  }

  /** A reader at `now` finds the key. */
  predicate Seen(expiry: int, now: int) {
    now < expiry
  }

  /** Some reader from `from` on finds the key. */
  ghost predicate Readable(expiry: int, from: int) {
    exists now :: from <= now && Seen(expiry, now)
  }

  lemma TruncBounds(ns: int)
    ensures ns >= 0 ==> ns - MS + 1 <= TruncMs(ns) * MS <= ns
    ensures ns <= 0 ==> ns <= TruncMs(ns) * MS <= ns + MS - 1
    ensures TruncMs(ns) > 0 <==> ns >= MS
  {
  }

  /** The change of expiry of SET with EX or PX, stored at t1, logged at t2, replayed with readings t3 and t4. */
  function RelativeShift(t1: int, t2: int, t3: int, t4: int, ttl: int): int {
    PxatExpiry(LoggedTime(t2, ttl), t3, t4) - StoredExpiry(t1, ttl)
  }

  /** While the logged time is after t3 the expiry moves by at most the two delays, and by more than the
      two delays less two milliseconds. */
  lemma RelativeDrift(t1: int, t2: int, t3: int, t4: int, ttl: int)
    requires 0 <= t1 <= t2 && t3 <= t4 && ttl > 0
    requires t3 < LoggedTime(t2, ttl) * MS
    ensures var delays := (t2 - t1) + (t4 - t3);
            delays - 2 * MS + 2 <= RelativeShift(t1, t2, t3, t4, ttl) <= delays
  {
    TruncBounds(t2 + ttl * MS);
    TruncBounds(LoggedTime(t2, ttl) * MS - t3);
  }

  /** Both ends are met: for any delays and any lifetime of at least two milliseconds there are readings
      that lose nothing and readings that lose almost two milliseconds. */
  lemma DriftIsSharp(d1: nat, d2: nat, ttl: int) returns (late: int, early: int, t3: int, t3': int)
    requires ttl >= 2
    ensures 0 <= late && 0 <= early
    ensures t3 < LoggedTime(late + d1, ttl) * MS && t3' < LoggedTime(early + d1, ttl) * MS
    ensures RelativeShift(late, late + d1, t3, t3 + d2, ttl) == d1 + d2
    ensures RelativeShift(early, early + d1, t3', t3' + d2, ttl) == d1 + d2 - 2 * MS + 2
  {
    late := MS - d1 % MS;
    t3 := 0;
    early := 2 * MS - 1 - d1 % MS;
    t3' := 1;
    var q := d1 / MS;
    assert late + d1 == (1 + q) * MS && early + d1 == (1 + q) * MS + MS - 1;
    ExactTrunc(1 + q + ttl, 0);
    ExactTrunc(1 + q + ttl, MS - 1);
    assert LoggedTime(late + d1, ttl) == 1 + q + ttl && LoggedTime(early + d1, ttl) == 1 + q + ttl;
    ExactTrunc(1 + q + ttl, 0);
    ExactTrunc(q + ttl, MS - 1);
  }

  lemma ExactTrunc(n: nat, part: nat)
    requires part < MS
    ensures TruncMs(n * MS + part) == n
  {
  }

  /** Once the logged time has passed, the replayed key is never readable; in fact it is readable
      exactly when a whole millisecond is left. */
  lemma ReplayedReadable(pxat: int, t3: int, t4: int)
    ensures Readable(PxatExpiry(pxat, t3, t4), t4) <==> pxat * MS - t3 >= MS
  {
    TruncBounds(pxat * MS - t3);
    if pxat * MS - t3 >= MS {
      assert Seen(PxatExpiry(pxat, t3, t4), t4);
    }
  }

  /** SET with EXAT or PXAT: live and replayed expiry come from the same absolute time. */
  lemma AbsoluteDrift(pxat: int, t0: int, t1: int, t3: int, t4: int)
    requires t0 <= t1 && t3 <= t4 && t0 < pxat * MS && t3 < pxat * MS
    ensures var drift := PxatExpiry(pxat, t3, t4) - PxatExpiry(pxat, t0, t1);
            var delays := (t4 - t3) - (t1 - t0);
            delays - MS < drift < delays + MS
  {
    TruncBounds(pxat * MS - t0);
    TruncBounds(pxat * MS - t3);
  }

  /** EXPIRE and PEXPIRE: PEXPIREAT restores the logged time itself. */
  lemma ExpireDrift(t1: int, t2: int, ttl: int)
    requires 0 <= t1 <= t2 && ttl > 0
    ensures (t2 - t1) - MS < LoggedTime(t2, ttl) * MS - StoredExpiry(t1, ttl) <= t2 - t1
  {
    TruncBounds(t2 + ttl * MS);
  }

  /** What a snapshot or a rewritten log makes of an expiry once loaded. */
  function Rewritten(expiry: int): int {
    TruncMs(expiry) * MS
  }

  /** Snapshots and rewrites round down by less than a millisecond, once: doing it again changes nothing. */
  lemma RewriteSettles(expiry: int)
    requires expiry >= 0
    ensures expiry - MS < Rewritten(expiry) <= expiry
    ensures Rewritten(Rewritten(expiry)) == Rewritten(expiry)
  {
    TruncBounds(expiry);
    TruncBounds(Rewritten(expiry));
  }
}
