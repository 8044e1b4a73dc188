/**
 * How good the window bounds are: runs that attain them, and runs that break them as soon as
 * their hypothesis on the order of instants is given up.
 */
module RateLimiterSharpness {
  import opened Netip
  import opened RateLimiter
  import opened RateLimiterRuns
  import opened RateLimiterClients
  import opened RateLimiterDisorder

  function Repeat(call: Call, n: nat): seq<Call> {
    seq(n, _ => call)
  }

  ghost function CountIn(run: seq<Call>, client: Addr, lo: int, hi: int): nat {
    |Admissions(run, |run|, client, lo, hi)|
  }

  lemma NothingCounted(client: Addr, lo: int, hi: int)
    ensures CountIn([], client, lo, hi) == 0
  {
    NoAdmissionsBefore([], 0, client, lo, hi);
  }

  /** An attempt would find this many tokens, refilled at this instant, and no full table. */
  ghost predicate Ready(m: Table, client: Addr, now: int, left: int, lastRefill: int) {
    Bucket(m, client, now) == Entry(left, lastRefill) && (client in Sweep(m, now) || |m| < MAX_ENTRIES)
  }

  ghost predicate Holds(m: Table, client: Addr, tokens: int, lastRefill: int) {
    client in m && m[client] == Entry(tokens, lastRefill)
  }

  lemma ReadyStep(m: Table, client: Addr, now: int, left: int, lastRefill: int)
    requires Ready(m, client, now, left, lastRefill) && left > 0 && now - REFILL < lastRefill <= now
    ensures var out := Attempt(m, client, now);
            && out.verdict.Admitted? && Ready(out.table, client, now, left - 1, lastRefill)
            && Holds(out.table, client, left - 1, lastRefill)
  {
    SubsetTableSize(Sweep(m, now), m);
    assert Attempt(m, client, now).table[client] == Entry(left - 1, lastRefill);
  }

  lemma UnknownIsReady(m: Table, client: Addr, now: int)
    requires client !in m && |m| < MAX_ENTRIES
    ensures Ready(m, client, now, BURST, now)
  {
  }

  /** Simultaneous attempts are admitted as long as there are tokens. */
  lemma {:induction false} BurstCounts(calls: seq<Call>, client: Addr, now: int, left: int, lastRefill: int, n: nat,
                                       lo: int, hi: int)
    requires Ready(TableAt(calls, |calls|), client, now, left, lastRefill)
    requires n <= left && now - REFILL < lastRefill <= now
    ensures var run := calls + Repeat(Call(client, now), n);
            && CountIn(run, client, lo, hi) == CountIn(calls, client, lo, hi) + (if lo <= now <= hi then n else 0)
            && Ready(TableAt(run, |run|), client, now, left - n, lastRefill)
            && (n > 0 ==> Holds(TableAt(run, |run|), client, left - n, lastRefill))
  {
    hide Attempt, Ready, Holds, Admissions;
    var call := Call(client, now);
    if n == 0 {
      assert calls + Repeat(call, 0) == calls;
    } else {
      var before := calls + Repeat(call, n - 1);
      BurstCounts(calls, client, now, left, lastRefill, n - 1, lo, hi);
      assert calls + Repeat(call, n) == before + [call];
      ReadyStep(TableAt(before, |before|), client, now, left - (n - 1), lastRefill);
      TableAppend(before, call);
      AdmissionsAppend(before, call, client, lo, hi);
    }
  }

  // ---------------------------------------------------------------------------------
  // The bound for ordered instants is attained
  // ---------------------------------------------------------------------------------

  /** Just before its second refill period ends, a client that was known before bursts. */
  const BURST_AT: int := 2 * REFILL - 1

  /** One early attempt, and a full burst on the verge of the next refill. */
  function LateBurst(client: Addr): seq<Call> {
    [Call(client, 0)] + Repeat(Call(client, BURST_AT), BURST)
  }

  lemma LateBurstCounts(client: Addr, hi: int)
    requires hi >= BURST_AT
    ensures var run := LateBurst(client);
            && CountIn(run, client, BURST_AT, hi) == BURST
            && TableAt(run, |run|).Keys == {client} && Holds(TableAt(run, |run|), client, 0, REFILL)
  {
    hide Admissions;
    var first := [Call(client, 0)];
    NothingCounted(client, BURST_AT, hi);
    UnknownIsReady(map[], client, 0);
    BurstCounts([], client, 0, BURST, 0, 1, BURST_AT, hi);
    assert [] + Repeat(Call(client, 0), 1) == first;
    var m := TableAt(first, |first|);
    assert client in Sweep(m, BURST_AT) && m[client] == Entry(BURST - 1, 0);
    assert Ready(m, client, BURST_AT, BURST, REFILL);
    BurstCounts(first, client, BURST_AT, BURST, REFILL, BURST, BURST_AT, hi);
    SoloKeys(LateBurst(client), |LateBurst(client)|, client);
  }

  /** The late burst, and one attempt at every refill after. */
  function SharpRun(client: Addr, q: nat): seq<Call> {
    LateBurst(client) + seq(q + 1, i requires 0 <= i => Call(client, 2 * REFILL + i * REFILL))
  }

  lemma DrainStep(m: Table, client: Addr, lastRefill: int)
    requires Holds(m, client, 0, lastRefill)
    ensures var out := Attempt(m, client, lastRefill + REFILL);
            out.verdict.Admitted? && Holds(out.table, client, 0, lastRefill + REFILL)
  {
    assert client in Sweep(m, lastRefill + REFILL);
  }

  lemma {:induction false} SharpRunCounts(client: Addr, q: nat, hi: int)
    requires hi >= 2 * REFILL + q * REFILL
    ensures var run := SharpRun(client, q);
            && CountIn(run, client, BURST_AT, hi) == BURST + q + 1
            && Holds(TableAt(run, |run|), client, 0, 2 * REFILL + q * REFILL)
  {
    hide Attempt, Admissions, Holds;
    var run := SharpRun(client, q);
    var call := Call(client, 2 * REFILL + q * REFILL);
    var before := run[..|run| - 1];
    if q == 0 {
      LateBurstCounts(client, hi);
      assert before == LateBurst(client);
    } else {
      SharpRunCounts(client, q - 1, hi);
      assert before == SharpRun(client, q - 1);
    }
    assert run == before + [call];
    DrainStep(TableAt(before, |before|), client, REFILL + q * REFILL);
    TableAppend(before, call);
    AdmissionsAppend(before, call, client, BURST_AT, hi);
  }

  lemma SharpRunOrdered(client: Addr, q: nat)
    ensures NonDecreasing(LateBurst(client)) && NonDecreasing(SharpRun(client, q))
  {
  }

  /** The run for a window of this width. */
  function AttainingRun(client: Addr, width: nat): seq<Call> {
    if width == 0 then LateBurst(client) else SharpRun(client, (width - 1) / REFILL)
  }

  /** For every width some run in order meets the window bound exactly. */
  lemma WindowBoundAttained(client: Addr, width: nat)
    ensures var run := AttainingRun(client, width);
            NonDecreasing(run) && CountIn(run, client, BURST_AT, BURST_AT + width) == BURST + CeilDiv(width, REFILL)
  {
    hide CountIn, Holds, TableAt, SharpRun, LateBurst, NonDecreasing;
    WidthInRefills(width);
    if width == 0 {
      SharpRunOrdered(client, 0);
      LateBurstCounts(client, BURST_AT);
    } else {
      var q := (width - 1) / REFILL;
      SharpRunOrdered(client, q);
      SharpRunCounts(client, q, BURST_AT + width);
    }
  }

  lemma WidthInRefills(width: nat)
    ensures CeilDiv(0, REFILL) == 0
    ensures width > 0 ==>
              var q := (width - 1) / REFILL;
              1 + q * REFILL <= width && CeilDiv(width, REFILL) == q + 1
  {
  }

  // ---------------------------------------------------------------------------------
  // So is the tolerant bound, and one nanosecond back breaks the other
  // ---------------------------------------------------------------------------------

  /** The refill of a client's bucket after so many rounds: 45s - d after the one before. */
  function LastRefill(rounds: nat, d: nat): int {
    REFILL + rounds * (LIFETIME - d)
  }

  /** Another client's attempt when the bucket is just stale, and a burst of a handler that has been overtaken by it. */
  function Round(client: Addr, other: Addr, swept: int, d: nat): seq<Call> {
    [Call(other, swept)] + Repeat(Call(client, swept - d), BURST)
  }

  /** A late burst, and so many rounds. */
  function OvertakenRun(client: Addr, other: Addr, rounds: nat, d: nat): seq<Call> {
    if rounds == 0 then LateBurst(client)
    else
      OvertakenRun(client, other, rounds - 1, d) + Round(client, other, LastRefill(rounds - 1, d) + LIFETIME, d)
  }

  lemma NextRound(rounds: nat, d: nat)
    ensures LastRefill(rounds + 1, d) == LastRefill(rounds, d) + LIFETIME - d
    ensures LastRefill(0, d) == REFILL
    ensures d <= LIFETIME ==> LastRefill(rounds, d) >= REFILL
  {
    assert (rounds + 1) * (LIFETIME - d) == rounds * (LIFETIME - d) + (LIFETIME - d);
    if d <= LIFETIME {
      assert rounds * (LIFETIME - d) >= 0;
    }
  }

  /** The other client's attempt leaves nothing of a table whose buckets are all stale by then. */
  lemma OtherSweepsAll(m: Table, client: Addr, other: Addr, now: int)
    requires client != other && m.Keys <= {client, other} && (client in m ==> Stale(m[client], now))
    ensures client !in Attempt(m, other, now).table && |Attempt(m, other, now).table| < MAX_ENTRIES
  {
    var after := Attempt(m, other, now).table;
    assert after.Keys <= {other};
    SubsetTableSize(after, map[other := Entry(0, 0)]);
  }

  ghost predicate KnowsOnly(m: Table, client: Addr, other: Addr) {
    m.Keys <= {client, other}
  }

  /** The sweep of a round leaves the bucket away and a fresh one to be had. */
  lemma SweptAway(before: seq<Call>, client: Addr, other: Addr, lastRefill: int, again: int, lo: int, hi: int)
    requires client != other && KnowsOnly(TableAt(before, |before|), client, other)
    requires Holds(TableAt(before, |before|), client, 0, lastRefill)
    ensures var half := before + [Call(other, lastRefill + LIFETIME)];
            && CountIn(half, client, lo, hi) == CountIn(before, client, lo, hi)
            && KnowsOnly(TableAt(half, |half|), client, other)
            && Ready(TableAt(half, |half|), client, again, BURST, again)
  {
    hide Attempt, Admissions, Ready;
    var sweep := Call(other, lastRefill + LIFETIME);
    OtherSweepsAll(TableAt(before, |before|), client, other, sweep.time);
    TableAppend(before, sweep);
    AttemptKeys(TableAt(before, |before|), other, sweep.time);
    AdmissionsAppend(before, sweep, client, lo, hi);
    UnknownIsReady(TableAt(before + [sweep], |before + [sweep]|), client, again);
  }

  lemma OvertakenRound(before: seq<Call>, client: Addr, other: Addr, lastRefill: int, d: nat, lo: int, hi: int)
    requires client != other && KnowsOnly(TableAt(before, |before|), client, other)
    requires Holds(TableAt(before, |before|), client, 0, lastRefill) && lo <= lastRefill + LIFETIME - d <= hi
    ensures var run := before + Round(client, other, lastRefill + LIFETIME, d);
            && CountIn(run, client, lo, hi) == CountIn(before, client, lo, hi) + BURST
            && KnowsOnly(TableAt(run, |run|), client, other)
            && Holds(TableAt(run, |run|), client, 0, lastRefill + LIFETIME - d)
  {
    hide CountIn, TableAt, Ready, Holds, Repeat;
    var swept, again := lastRefill + LIFETIME, lastRefill + LIFETIME - d;
    var half := before + [Call(other, swept)];
    SweptAway(before, client, other, lastRefill, again, lo, hi);
    BurstCounts(half, client, again, BURST, again, BURST, lo, hi);
    BurstKeys(half, client, again, BURST);
    assert before + Round(client, other, swept, d) == half + Repeat(Call(client, again), BURST);
  }

  lemma {:induction false} OvertakenRunCounts(client: Addr, other: Addr, rounds: nat, d: nat, hi: int)
    requires client != other && d < LIFETIME - REFILL && hi >= LastRefill(rounds, d) && hi >= BURST_AT
    ensures var run := OvertakenRun(client, other, rounds, d);
            && CountIn(run, client, BURST_AT, hi) == BURST * (rounds + 1)
            && KnowsOnly(TableAt(run, |run|), client, other)
            && Holds(TableAt(run, |run|), client, 0, LastRefill(rounds, d))
  {
    hide CountIn, TableAt, Holds, LateBurst, Round, LastRefill;
    NextRound(rounds, d);
    if rounds == 0 {
      LateBurstCounts(client, hi);
    } else {
      NextRound(rounds - 1, d);
      OvertakenRunCounts(client, other, rounds - 1, d, hi);
      var before := OvertakenRun(client, other, rounds - 1, d);
      OvertakenRound(before, client, other, LastRefill(rounds - 1, d), d, BURST_AT, hi);
    }
  }

  /** Instants that go back by d from a latest one. */
  lemma RoundGoesBack(before: seq<Call>, client: Addr, other: Addr, swept: int, d: nat)
    requires BackAtMost(before, d) && AllBy(before, |before|, swept)
    ensures var run := before + Round(client, other, swept, d); BackAtMost(run, d) && AllBy(run, |run|, swept)
  {
  }

  lemma {:induction false} OvertakenRunBack(client: Addr, other: Addr, rounds: nat, d: nat)
    requires d < LIFETIME - REFILL
    ensures var run := OvertakenRun(client, other, rounds, d);
            BackAtMost(run, d) && AllBy(run, |run|, LastRefill(rounds, d) + LIFETIME)
  {
    hide LastRefill, Round, BackAtMost;
    NextRound(rounds, d);
    if rounds == 0 {
      LateBurstBack(client, d);
    } else {
      NextRound(rounds - 1, d);
      OvertakenRunBack(client, other, rounds - 1, d);
      RoundGoesBack(OvertakenRun(client, other, rounds - 1, d), client, other, LastRefill(rounds - 1, d) + LIFETIME, d);
    }
  }

  lemma LateBurstBack(client: Addr, d: nat)
    ensures var run := LateBurst(client); BackAtMost(run, d) && AllBy(run, |run|, REFILL + LIFETIME)
  {
  }

  lemma WidthOfRounds(rounds: nat, d: nat)
    requires rounds > 0 && d < 2 * REFILL
    ensures LastRefill(rounds, d) > BURST_AT
    ensures var width: nat := LastRefill(rounds, d) - BURST_AT;
            Evictions(width, d) == rounds && TolerantBound(width, d) == BURST * (rounds + 1)
  {
    var gap := LIFETIME - d;
    QuotientOfMultiple(rounds, gap);
    ProductGrows(1, rounds, gap);
    assert rounds * gap + d * rounds == rounds * LIFETIME;
  }

  /**
   * The tolerant bound cannot be improved: for every d below 6s and every number of sweeps there
   * is a run with instants going back by at most d that meets it exactly.
   */
  lemma TolerantBoundAttained(client: Addr, other: Addr, rounds: nat, d: nat)
    requires client != other && rounds > 0 && d < 2 * REFILL
    ensures LastRefill(rounds, d) > BURST_AT
    ensures var run, width: nat := OvertakenRun(client, other, rounds, d), LastRefill(rounds, d) - BURST_AT;
            && BackAtMost(run, d)
            && CountIn(run, client, BURST_AT, BURST_AT + width) == TolerantBound(width, d) == BURST * (rounds + 1)
  {
    hide CountIn, OvertakenRun, BackAtMost, LastRefill, TolerantBound, Evictions;
    WidthOfRounds(rounds, d);
    OvertakenRunCounts(client, other, rounds, d, LastRefill(rounds, d));
    OvertakenRunBack(client, other, rounds, d);
  }

  /** In every run whose instants go back by at most d, every window of the width has at most so many admissions. */
  ghost predicate Bounds(d: nat, width: nat, bound: nat) {
    forall calls, client, lo :: BackAtMost(calls, d) ==> AtMost(calls, client, lo, width, bound)
  }

  ghost predicate AtMost(calls: seq<Call>, client: Addr, lo: int, width: nat, bound: nat) {
    CountIn(calls, client, lo, lo + width) <= bound
  }

  /** The window bound holds for all runs whose instants go back by at most d exactly if d is 0. */
  lemma WindowBoundExactlyWhenOrdered(d: nat)
    ensures (forall width: nat :: Bounds(d, width, BURST + CeilDiv(width, REFILL))) <==> d == 0
  {
    hide Admissions, BackAtMost, OvertakenRun, TolerantBound;
    if d == 0 {
      forall width: nat
        ensures Bounds(d, width, BURST + CeilDiv(width, REFILL))
      {
        var bound := BURST + CeilDiv(width, REFILL);
        forall calls, client, lo | BackAtMost(calls, d)
          ensures AtMost(calls, client, lo, width, bound)
        {
          OrderedIsNotOvertaken(calls, client, 0);
          WindowBound(calls, |calls|, client, lo, width);
        }
      }
    } else {
      var run, width: nat := OvertakenRun(V4(0), V4(1), 1, 1), LIFETIME - REFILL;
      TolerantBoundAttained(V4(0), V4(1), 1, 1);
      assert LastRefill(1, 1) - BURST_AT == width;
      BackAtMostGrows(run, 1, d);
      assert !AtMost(run, V4(0), BURST_AT, width, BURST + CeilDiv(width, REFILL));
      assert !Bounds(d, width, BURST + CeilDiv(width, REFILL));
    }
  }

  lemma BackAtMostGrows(calls: seq<Call>, d: nat, more: nat)
    requires BackAtMost(calls, d) && d <= more
    ensures BackAtMost(calls, more)
  {
  }

  // ---------------------------------------------------------------------------------
  // 45 seconds back leave no bound at all
  // ---------------------------------------------------------------------------------

  /** Bursts at one instant, each swept away by an attempt that read its instant 45s later. */
  function SwingRun(client: Addr, other: Addr, rounds: nat): seq<Call> {
    if rounds == 0 then []
    else SwingRun(client, other, rounds - 1) + Repeat(Call(client, 0), BURST) + [Call(other, LIFETIME)]
  }

  /** One round, from a table that knows the other client at most: 15 admissions, and such a table again. */
  lemma SwingRound(before: seq<Call>, client: Addr, other: Addr, hi: int)
    requires client != other && hi >= 0 && TableAt(before, |before|).Keys <= {other}
    ensures var run := before + Repeat(Call(client, 0), BURST) + [Call(other, LIFETIME)];
            CountIn(run, client, 0, hi) == CountIn(before, client, 0, hi) + BURST && TableAt(run, |run|).Keys <= {other}
  {
    hide Attempt, Admissions, Ready, Repeat;
    var m := TableAt(before, |before|);
    SubsetTableSize(m, map[other := Entry(0, 0)]);
    UnknownIsReady(m, client, 0);
    BurstCounts(before, client, 0, BURST, 0, BURST, 0, hi);
    BurstKeys(before, client, 0, BURST);
    var burst, sweep := before + Repeat(Call(client, 0), BURST), Call(other, LIFETIME);
    OtherSweepsAll(TableAt(burst, |burst|), client, other, LIFETIME);
    TableAppend(burst, sweep);
    AttemptKeys(TableAt(burst, |burst|), other, LIFETIME);
    AdmissionsAppend(burst, sweep, client, 0, hi);
  }

  lemma {:induction false} SwingRunCounts(client: Addr, other: Addr, rounds: nat, hi: int)
    requires client != other && hi >= 0
    ensures var run := SwingRun(client, other, rounds);
            CountIn(run, client, 0, hi) == BURST * rounds && TableAt(run, |run|).Keys <= {other}
  {
    hide CountIn, TableAt, Repeat;
    if rounds == 0 {
      NothingCounted(client, 0, hi);
      NoCallsNoTable();
    } else {
      SwingRunCounts(client, other, rounds - 1, hi);
      SwingRound(SwingRun(client, other, rounds - 1), client, other, hi);
    }
  }

  lemma NoCallsNoTable()
    ensures TableAt([], 0) == map[]
  {
  }

  ghost predicate TimesUpTo(run: seq<Call>, hi: int) {
    forall k :: 0 <= k < |run| ==> 0 <= run[k].time <= hi
  }

  lemma {:induction false} SwingTimes(client: Addr, other: Addr, rounds: nat)
    ensures TimesUpTo(SwingRun(client, other, rounds), LIFETIME)
  {
    if rounds > 0 {
      SwingTimes(client, other, rounds - 1);
      JoinTimes(SwingRun(client, other, rounds - 1), Repeat(Call(client, 0), BURST), LIFETIME);
      var burst := SwingRun(client, other, rounds - 1) + Repeat(Call(client, 0), BURST);
      JoinTimes(burst, [Call(other, LIFETIME)], LIFETIME);
    }
  }

  lemma JoinTimes(front: seq<Call>, back: seq<Call>, hi: int)
    requires TimesUpTo(front, hi) && TimesUpTo(back, hi)
    ensures TimesUpTo(front + back, hi)
  {
  }

  lemma AttemptKeys(m: Table, caller: Addr, now: int)
    ensures Attempt(m, caller, now).table.Keys <= m.Keys + {caller}
  {
  }

  lemma {:induction false} BurstKeys(calls: seq<Call>, client: Addr, now: int, n: nat)
    ensures var run := calls + Repeat(Call(client, now), n);
            TableAt(run, |run|).Keys <= TableAt(calls, |calls|).Keys + {client}
  {
    hide Attempt;
    if n == 0 {
      assert calls + Repeat(Call(client, now), 0) == calls;
    } else {
      var before := calls + Repeat(Call(client, now), n - 1);
      BurstKeys(calls, client, now, n - 1);
      assert calls + Repeat(Call(client, now), n) == before + [Call(client, now)];
      TableAppend(before, Call(client, now));
      AttemptKeys(TableAt(before, |before|), client, now);
    }
  }

  /**
   * For windows of any width, even a single instant, there is some bound exactly if instants go back
   * by less than 45s.
   */
  lemma SomeBoundExactlyBelowLifetime(d: nat, width: nat)
    ensures (exists bound: nat :: Bounds(d, width, bound)) <==> d < LIFETIME
  {
    hide Admissions, BackAtMost, SwingRun, TolerantBound;
    if d < LIFETIME {
      forall calls, client, lo | BackAtMost(calls, d)
        ensures AtMost(calls, client, lo, width, TolerantBound(width, d))
      {
        OrderedIsNotOvertaken(calls, client, d);
        TolerantWindowBound(calls, |calls|, client, lo, width, d);
      }
      assert Bounds(d, width, TolerantBound(width, d));
    } else {
      forall bound: nat
        ensures !Bounds(d, width, bound)
      {
        var run := SwingRun(V4(0), V4(1), bound + 1);
        SwingRunCounts(V4(0), V4(1), bound + 1, width);
        SwingTimes(V4(0), V4(1), bound + 1);
        SwingsWithin(run, d);
        assert !AtMost(run, V4(0), 0, width, bound);
      }
    }
  }

  lemma SwingsWithin(run: seq<Call>, d: nat)
    requires d >= LIFETIME && TimesUpTo(run, LIFETIME)
    ensures BackAtMost(run, d)
  {
  }
}
