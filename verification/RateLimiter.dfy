/**
 * The per-client token bucket in front of Cap: one attempt on the shared table, as a
 * function, and the limiter object whose method carries it out in place.
 */
module RateLimiter {
  import opened GoTime
  import opened Netip
  import opened Wrappers

  const BURST: int := 15
  const REFILL: int := 3 * NANOS_PER_SECOND
  const LIFETIME: int := BURST * REFILL
  const MAX_ENTRIES: int := 10000

  datatype Entry = Entry(tokens: int, lastRefill: int)

  type Table = map<Addr, Entry>

  /** The (allowed, retryAfter) pair of one attempt, keeping the two kinds of refusal apart. */
  datatype Verdict = Admitted | Exhausted(delay: Duration) | TableFull {
    function RetryAfter(): Duration {
      match this
      case Admitted => 0
      case Exhausted(delay) => delay
      case TableFull => REFILL
    }
  }

  datatype Outcome = Outcome(table: Table, verdict: Verdict)

  predicate Stale(e: Entry, now: int) {
    Sub(now, e.lastRefill) >= LIFETIME
  }

  function Sweep(m: Table, now: int): Table {
    map addr | addr in m && !Stale(m[addr], now) :: m[addr]
  }

  /** Whole refill periods since the last one, credited at once; the phase is kept. */
  function Refill(e: Entry, now: int): Entry {
    var elapsed := Sub(now, e.lastRefill);
    if elapsed >= REFILL then
      var refills := elapsed / REFILL;
      Entry(if BURST < e.tokens + refills then BURST else e.tokens + refills, e.lastRefill + refills * REFILL)
    else
      e
  }

  /** The bucket an attempt by this client at this instant would draw from. */
  function Bucket(m: Table, client: Addr, now: int): Entry {
    Refill(if client in Sweep(m, now) then m[client] else Entry(BURST, now), now)
  }

  function Attempt(m: Table, client: Addr, now: int): Outcome {
    var swept := Sweep(m, now);
    if client !in swept && |swept| >= MAX_ENTRIES then
      Outcome(swept, TableFull)
    else
      var bucket := Bucket(m, client, now);
      if bucket.tokens == 0 then
        Outcome(swept, Exhausted(Sub(bucket.lastRefill + REFILL, now)))
      else
        Outcome(swept[client := Entry(bucket.tokens - 1, bucket.lastRefill)], Admitted)
  }

  /** The table while a sweep still has these entries to look at. */
  ghost function Sweeping(m: Table, unvisited: set<Addr>, now: int): Table {
    map addr | addr in m && (addr in unvisited || !Stale(m[addr], now)) :: m[addr]
  }

  lemma SweepEnds(m: Table, now: int)
    ensures Sweeping(m, m.Keys, now) == m && Sweeping(m, {}, now) == Sweep(m, now)
  {
  }

  lemma SweepStep(m: Table, unvisited: set<Addr>, now: int, addr: Addr)
    requires unvisited <= m.Keys && addr in unvisited
    ensures var table := Sweeping(m, unvisited, now);
            && addr in table && table[addr] == m[addr]
            && Sweeping(m, unvisited - {addr}, now) == if Stale(m[addr], now) then table - {addr} else table
  {
  }

  class VerifyRateLimiter {
    /** None is Go's nil map: it reads as empty and must be made before it is written. */
    var verifyRateLimits: Option<Table>

    ghost function Contents(): Table
      reads this
    {
      if verifyRateLimits.Some? then verifyRateLimits.value else map[]
    }

    constructor ()
      ensures Contents() == map[]
    {
      verifyRateLimits := None;
    }

    method ResetVerifyRateLimits()
      modifies this
      ensures verifyRateLimits == Some(map[])
    {
      verifyRateLimits := Some(map[]);
    }

    /** Sweep, look up or admit the client, refill, and take a token, in place. */
    method AllowVerifyAttempt(clientAddr: Addr, now: int) returns (allowed: bool, retryAfter: Duration)
      modifies this
      ensures verifyRateLimits == Some(Attempt(old(Contents()), clientAddr, now).table)
      ensures allowed == Attempt(old(Contents()), clientAddr, now).verdict.Admitted?
      ensures retryAfter == Attempt(old(Contents()), clientAddr, now).verdict.RetryAfter()
    {
      if verifyRateLimits.None? {
        verifyRateLimits := Some(map[]);
      }
      hide Sweeping, Sweep;
      ghost var before := Contents();
      SweepEnds(before, now);
      var unvisited := verifyRateLimits.value.Keys;
      while unvisited != {}
        invariant verifyRateLimits.Some? && unvisited <= before.Keys
        invariant Contents() == Sweeping(before, unvisited, now)
        decreases unvisited
      {
        var addr :| addr in unvisited;
        SweepStep(before, unvisited, now, addr);
        unvisited := unvisited - {addr};
        if Sub(now, verifyRateLimits.value[addr].lastRefill) >= LIFETIME {
          verifyRateLimits := Some(verifyRateLimits.value - {addr});
        }
      }

      var entry: Entry;
      if clientAddr in verifyRateLimits.value {
        entry := verifyRateLimits.value[clientAddr];
      } else {
        if |verifyRateLimits.value| >= MAX_ENTRIES {
          return false, REFILL;
        }
        entry := Entry(BURST, now);
      }

      var elapsed := Sub(now, entry.lastRefill);
      if elapsed >= REFILL {
        var refills := elapsed / REFILL;
        entry := entry.(tokens := if BURST < entry.tokens + refills then BURST else entry.tokens + refills);
        entry := entry.(lastRefill := entry.lastRefill + refills * REFILL);
      }
      if entry.tokens == 0 {
        return false, Sub(entry.lastRefill + REFILL, now);
      }
      entry := entry.(tokens := entry.tokens - 1);
      verifyRateLimits := Some(verifyRateLimits.value[clientAddr := entry]);
      return true, 0;
    }
  }

  /** Whole seconds for the Retry-After header; the sum can wrap in 64 bits. */
  function RetryAfterSeconds(retryAfter: Duration): int {
    if retryAfter <= 0 then 1
    else QuoTowardZero(Wrap64(retryAfter + NANOS_PER_SECOND - 1), NANOS_PER_SECOND)
  }

  /** The least number of whole seconds, at least one, that covers the delay. */
  ghost predicate LeastCoveringSeconds(seconds: int, delay: int) {
    && seconds >= 1
    && delay <= seconds * NANOS_PER_SECOND
    && (seconds == 1 || (seconds - 1) * NANOS_PER_SECOND < delay)
  }

  /**
   * The header is exact for every delay except those within a second of the largest
   * Duration, where the rounding sum wraps to a negative number.
   */
  lemma RetryAfterSecondsExact(retryAfter: Duration)
    ensures LeastCoveringSeconds(RetryAfterSeconds(retryAfter), retryAfter) <==>
            retryAfter <= MAX_DURATION - (NANOS_PER_SECOND - 1)
  {
    if retryAfter > 0 {
      var rounded := retryAfter + NANOS_PER_SECOND - 1;
      if rounded <= MAX_DURATION {
        assert Wrap64(rounded) == rounded;
      } else {
        assert Wrap64(rounded) == rounded - 0x1_0000_0000_0000_0000;
      }
    }
  }

  // ---------------------------------------------------------------------------------
  // What one attempt does to the table, for instants in any order
  // ---------------------------------------------------------------------------------

  ghost predicate ValidEntry(e: Entry) {
    0 <= e.tokens < BURST
  }

  ghost predicate ValidTable(m: Table) {
    && |m| <= MAX_ENTRIES
    && forall addr :: addr in m ==> ValidEntry(m[addr])
  }

  lemma SubsetTableSize(small: Table, big: Table)
    requires small.Keys <= big.Keys
    ensures |small| <= |big|
  {
    var rest := big.Keys - small.Keys;
    assert big.Keys == small.Keys + rest;
    assert |small.Keys| == |small| && |big.Keys| == |big|;
  }

  /** A bucket ready for an attempt: whole tokens up to the burst, and not yet stale. */
  lemma BucketBounds(m: Table, client: Addr, now: int)
    requires ValidTable(m)
    ensures var bucket := Bucket(m, client, now);
            0 <= bucket.tokens <= BURST && !Stale(bucket, now)
    ensures client in Sweep(m, now) && Sub(now, m[client].lastRefill) >= REFILL ==>
              1 <= Sub(now, m[client].lastRefill) / REFILL <= BURST - 1
  {
    var e := if client in Sweep(m, now) then m[client] else Entry(BURST, now);
    RefillBounds(e, now);
    hide Refill;
  }

  lemma RefillBounds(e: Entry, now: int)
    requires 0 <= e.tokens <= BURST && !Stale(e, now)
    ensures var bucket := Refill(e, now); 0 <= bucket.tokens <= BURST && !Stale(bucket, now)
    ensures Sub(now, e.lastRefill) >= REFILL ==> 1 <= Sub(now, e.lastRefill) / REFILL <= BURST - 1
  {
  }

  /**
   * Table invariant: at most 10000 entries, every stored bucket below its burst, every
   * surviving entry younger than its lifetime, and any refill credited 1 to 14 tokens.
   */
  lemma AttemptKeepsTable(m: Table, client: Addr, now: int)
    requires ValidTable(m)
    ensures var after := Attempt(m, client, now).table;
            && ValidTable(after)
            && forall addr :: addr in after ==> !Stale(after[addr], now)
    ensures client in Sweep(m, now) && Sub(now, m[client].lastRefill) >= REFILL ==>
              1 <= Sub(now, m[client].lastRefill) / REFILL <= BURST - 1
  {
    BucketBounds(m, client, now);
    var swept := Sweep(m, now);
    SubsetTableSize(swept, m);
    AddEntrySize(swept, client, Entry(Bucket(m, client, now).tokens - 1, Bucket(m, client, now).lastRefill));
  }

  lemma AddEntrySize(m: Table, client: Addr, e: Entry)
    ensures |m[client := e]| == if client in m then |m| else |m| + 1
  {
    assert m[client := e].Keys == m.Keys + {client};
    assert |m[client := e].Keys| == |m[client := e]| && |m.Keys| == |m|;
  }

  /** One saturating token for every elapsed refill period, credited one tick at a time. */
  ghost function EagerTicks(e: Entry, now: int): Entry
    decreases now - e.lastRefill
  {
    if now - e.lastRefill >= REFILL then
      EagerTicks(Entry(if e.tokens < BURST then e.tokens + 1 else BURST, e.lastRefill + REFILL), now)
    else
      e
  }

  lemma {:induction false} LazyEqualsEager(e: Entry, now: int)
    requires e.tokens <= BURST && now - e.lastRefill <= MAX_DURATION
    ensures Refill(e, now) == EagerTicks(e, now)
    decreases now - e.lastRefill
  {
    if now - e.lastRefill >= REFILL {
      var tick := Entry(if e.tokens < BURST then e.tokens + 1 else BURST, e.lastRefill + REFILL);
      LazyEqualsEager(tick, now);
      assert (now - e.lastRefill) / REFILL == (now - tick.lastRefill) / REFILL + 1;
    }
  }

  /** Refilling on the way and refilling only at the end agree. */
  lemma RefillTwiceIsRefillOnce(e: Entry, t1: int, t2: int)
    requires e.tokens <= BURST && t1 <= t2 && t2 - e.lastRefill <= MAX_DURATION
    ensures Refill(Refill(e, t1), t2) == Refill(e, t2)
  {
    LazyEqualsEager(e, t1);
    LazyEqualsEager(e, t2);
    EagerTicksCompose(e, t1, t2);
    LazyEqualsEager(Refill(e, t1), t2);
  }

  lemma {:induction false} EagerTicksCompose(e: Entry, t1: int, t2: int)
    requires e.tokens <= BURST && t1 <= t2
    ensures EagerTicks(EagerTicks(e, t1), t2) == EagerTicks(e, t2)
    ensures EagerTicks(e, t1).tokens <= BURST
    ensures t2 - EagerTicks(e, t1).lastRefill <= t2 - e.lastRefill
    decreases t1 - e.lastRefill
  {
    if t1 - e.lastRefill >= REFILL {
      EagerTicksCompose(Entry(if e.tokens < BURST then e.tokens + 1 else BURST, e.lastRefill + REFILL), t1, t2);
    }
  }

  /** An entry old enough to be swept would have been refilled to exactly the burst. */
  lemma EvictedBucketIsFull(e: Entry, now: int)
    requires ValidEntry(e) && Stale(e, now)
    ensures Refill(e, now).tokens == BURST
  {
    assert Sub(now, e.lastRefill) / REFILL >= BURST;
  }
}
