/**
 * What single clients owe to the order of instants and to the size of the table: exactly when
 * their theorems hold, with the runs that show it.
 */
module RateLimiterOrder {
  import opened Netip
  import opened RateLimiter
  import opened RateLimiterRuns
  import opened RateLimiterClients
  import opened RateLimiterSharpness

  // ---------------------------------------------------------------------------------
  // Delays, and refusals for want of tokens
  // ---------------------------------------------------------------------------------

  /** A burst, and an attempt that has been overtaken by it. */
  function LateAttempt(client: Addr, d: nat): seq<Call> {
    Repeat(Call(client, d), BURST) + [Call(client, 0)]
  }

  lemma LateAttemptRefused(client: Addr, d: nat)
    requires d <= MAX_OVERTAKEN
    ensures var run := LateAttempt(client, d);
            && |run| == BURST + 1 && BackAtMost(run, d)
            && VerdictAt(run, BURST) == Exhausted(REFILL + d)
            && (d > 0 ==> Admissions(run, BURST, client, -LIFETIME + 1, 0) == {})
  {
    hide Attempt, Admissions, Ready;
    var burst := Repeat(Call(client, d), BURST);
    UnknownIsReady(map[], client, d);
    BurstCounts([], client, d, BURST, d, BURST, 0, 0);
    assert [] + burst == burst;
    TableAtPrefix(burst, [Call(client, 0)], BURST);
    EmptyBucketVerdict(TableAt(burst, BURST), client, 0, d + REFILL);
    BurstElsewhere(client, d);
  }

  lemma BurstElsewhere(client: Addr, d: nat)
    ensures d > 0 ==> Admissions(LateAttempt(client, d), BURST, client, -LIFETIME + 1, 0) == {}
  {
    hide VerdictAt;
  }

  /** In every run whose instants go back by at most d, no refused client is told to wait longer than this. */
  ghost predicate DelaysUpTo(d: nat, most: int) {
    forall calls, k: nat :: BackAtMost(calls, d) ==> WaitsUpTo(calls, k, most)
  }

  ghost predicate WaitsUpTo(calls: seq<Call>, k: nat, most: int) {
    k < |calls| && VerdictAt(calls, k).Exhausted? ==> VerdictAt(calls, k).delay <= most
  }

  /** The longest delay in runs whose instants go back by at most d is exactly 3s + d; so it is 3s only in order. */
  lemma LongestDelay(d: nat, most: int)
    requires d <= MAX_OVERTAKEN
    ensures DelaysUpTo(d, most) <==> REFILL + d <= most
  {
    hide VerdictAt, BackAtMost;
    if REFILL + d <= most {
      forall calls: seq<Call>, k: nat | BackAtMost(calls, d)
        ensures WaitsUpTo(calls, k, most)
      {
        if k < |calls| && VerdictAt(calls, k).Exhausted? {
          OrderedIsNotOvertaken(calls, calls[k].client, d);
          RefusedBucket(calls, k, d);
        }
      }
    } else {
      LateAttemptRefused(V4(0), d);
      assert !WaitsUpTo(LateAttempt(V4(0), d), BURST, most);
    }
  }

  /** The client refused by attempt k was admitted 15 times in the 45 seconds up to its instant. */
  ghost predicate RecentBurst(calls: seq<Call>, k: nat) {
    k < |calls| && VerdictAt(calls, k).Exhausted? ==>
      |Admissions(calls, k, calls[k].client, calls[k].time - LIFETIME + 1, calls[k].time)| >= BURST
  }

  /** In all runs whose instants go back by at most d, a refusal means a burst in the last 45s, exactly if d is 0. */
  lemma RecentBurstExactlyWhenOrdered(d: nat)
    ensures (forall calls, k: nat :: BackAtMost(calls, d) ==> RecentBurst(calls, k)) <==> d == 0
  {
    hide VerdictAt, BackAtMost, Admissions;
    if d == 0 {
      forall calls: seq<Call>, k: nat | BackAtMost(calls, d)
        ensures RecentBurst(calls, k)
      {
        if k < |calls| && VerdictAt(calls, k).Exhausted? {
          OrderedIsNotOvertaken(calls, calls[k].client, d);
          NoFalseExhaustion(calls, k, 0);
        }
      }
    } else {
      var run := LateAttempt(V4(0), 1);
      LateAttemptRefused(V4(0), 1);
      BackAtMostGrows(run, 1, d);
      assert !RecentBurst(run, BURST);
    }
  }

  // ---------------------------------------------------------------------------------
  // Isolation
  // ---------------------------------------------------------------------------------

  /** Attempt k is as in the solo run, unless its client has met the full table. */
  ghost predicate Isolated(calls: seq<Call>, k: nat) {
    k < |calls| && NeverTableFull(calls, k + 1, calls[k].client) ==> VerdictAt(calls, k) == SoloVerdict(calls, k)
  }

  lemma {:induction false} ProjectAppend(calls: seq<Call>, more: seq<Call>, client: Addr)
    ensures Project(calls + more, client) == Project(calls, client) + Project(more, client)
  {
    if more == [] {
      assert calls + more == calls;
      NothingToProject(client);
    } else {
      var before, last := more[..|more| - 1], more[|more| - 1];
      ProjectAppend(calls, before, client);
      ProjectLast(calls + before, last, client);
      ProjectLast(before, last, client);
      assert more == before + [last] && calls + more == calls + before + [last];
    }
  }

  lemma ProjectLast(calls: seq<Call>, last: Call, client: Addr)
    ensures Project(calls + [last], client) ==
            if last.client == client then Project(calls, client) + [last] else Project(calls, client)
  {
    assert (calls + [last])[..|calls|] == calls;
  }

  lemma {:induction false} ProjectOwn(calls: seq<Call>, client: Addr)
    requires forall k :: 0 <= k < |calls| ==> calls[k].client == client
    ensures Project(calls, client) == calls
  {
    if calls != [] {
      ProjectOwn(calls[..|calls| - 1], client);
    }
  }

  /** A table of at most two clients is not full. */
  lemma {:induction false} TwoClientsFit(calls: seq<Call>, n: nat, client: Addr, other: Addr)
    requires n <= |calls| && forall k :: 0 <= k < |calls| ==> calls[k].client in {client, other}
    ensures KnowsOnly(TableAt(calls, n), client, other) && NeverTableFull(calls, n, client)
  {
    hide Attempt;
    if n > 0 {
      var m, last := TableAt(calls, n - 1), calls[n - 1];
      TwoClientsFit(calls, n - 1, client, other);
      AttemptKeys(m, last.client, last.time);
      SmallTableNotFull(m, client, other, last.client, last.time);
    }
  }

  lemma SmallTableNotFull(m: Table, client: Addr, other: Addr, caller: Addr, now: int)
    requires KnowsOnly(m, client, other)
    ensures !Attempt(m, caller, now).verdict.TableFull?
  {
    SubsetTableSize(Sweep(m, now), map[client := Entry(0, 0), other := Entry(0, 0)]);
    AddEntrySize(map[client := Entry(0, 0)], other, Entry(0, 0));
  }

  const SWEPT: int := REFILL + LIFETIME

  /** An overtaken run but for its last attempt. */
  function AllButLast(client: Addr, other: Addr): seq<Call> {
    LateBurst(client) + [Call(other, SWEPT)] + Repeat(Call(client, SWEPT - 1), BURST - 1)
  }

  lemma OvertakenShape(client: Addr, other: Addr)
    ensures OvertakenRun(client, other, 1, 1) == AllButLast(client, other) + [Call(client, SWEPT - 1)]
  {
    hide LateBurst;
    NextRound(0, 1);
    var last := Call(client, SWEPT - 1);
    assert OvertakenRun(client, other, 0, 1) == LateBurst(client);
    assert Repeat(last, BURST) == Repeat(last, BURST - 1) + [last];
    assert Round(client, other, SWEPT, 1) == [Call(other, SWEPT)] + Repeat(last, BURST - 1) + [last];
  }

  lemma LastVerdicts(before: seq<Call>, last: Call)
    ensures var run, solo := before + [last], Project(before, last.client);
            && VerdictAt(run, |before|) == Attempt(TableAt(before, |before|), last.client, last.time).verdict
            && SoloVerdict(run, |before|) == Attempt(TableAt(solo, |solo|), last.client, last.time).verdict
  {
    hide Attempt;
    assert (before + [last])[..|before|] == before;
    TableAtPrefix(before, [last], |before|);
  }

  lemma ProjectAllButLast(client: Addr, other: Addr)
    requires client != other
    ensures Project(AllButLast(client, other), client) ==
            LateBurst(client) + Repeat(Call(client, SWEPT - 1), BURST - 1)
  {
    hide LateBurst, Project;
    var burst, most := LateBurst(client), Repeat(Call(client, SWEPT - 1), BURST - 1);
    LateBurstIsOwn(client);
    ProjectOwn(burst, client);
    ProjectLast(burst, Call(other, SWEPT), client);
    ProjectOwn(most, client);
    ProjectAppend(burst + [Call(other, SWEPT)], most, client);
  }

  /** The last attempt of an overtaken run: admitted there, refused alone. */
  lemma LastOfOvertaken(client: Addr, other: Addr)
    requires client != other
    ensures var run := OvertakenRun(client, other, 1, 1); var k := |run| - 1;
            k >= 0 && VerdictAt(run, k).Admitted? && SoloVerdict(run, k).Exhausted? && run[k].client == client
  {
    hide Attempt, CountIn, Holds, TableAt, Project, VerdictAt, SoloVerdict, LateBurst, Repeat, OvertakenRun;
    OvertakenShape(client, other);
    LastVerdicts(AllButLast(client, other), Call(client, SWEPT - 1));
    LateBurstCounts(client, SWEPT);
    SharedLast(LateBurst(client), client, other, SWEPT, SWEPT - 1);
    ProjectAllButLast(client, other);
    SoloLast(LateBurst(client), client, SWEPT - 1);
  }

  lemma LateBurstIsOwn(client: Addr)
    ensures forall k :: 0 <= k < |LateBurst(client)| ==> LateBurst(client)[k].client == client
  {
  }

  /** Swept away and fresh again, the bucket has a fifteenth token. */
  lemma SharedLast(burst: seq<Call>, client: Addr, other: Addr, swept: int, again: int)
    requires client != other && TableAt(burst, |burst|).Keys == {client}
    requires Holds(TableAt(burst, |burst|), client, 0, swept - LIFETIME)
    ensures var before := burst + [Call(other, swept)] + Repeat(Call(client, again), BURST - 1);
            Attempt(TableAt(before, |before|), client, again).verdict.Admitted?
  {
    hide Attempt, Admissions, Ready, Repeat;
    var half := burst + [Call(other, swept)];
    OtherSweepsAll(TableAt(burst, |burst|), client, other, swept);
    TableAppend(burst, Call(other, swept));
    UnknownIsReady(TableAt(half, |half|), client, again);
    BurstCounts(half, client, again, BURST, again, BURST - 1, 0, 0);
    var before := half + Repeat(Call(client, again), BURST - 1);
    ReadyStep(TableAt(before, |before|), client, again, 1, again);
  }

  /** Left alone, it has been refilled 14 times only. */
  lemma SoloLast(burst: seq<Call>, client: Addr, again: int)
    requires Holds(TableAt(burst, |burst|), client, 0, again - LIFETIME + 1)
    ensures var before := burst + Repeat(Call(client, again), BURST - 1);
            Attempt(TableAt(before, |before|), client, again).verdict.Exhausted?
  {
    NearlyStaleIsReady(TableAt(burst, |burst|), client, again);
    hide Attempt, Admissions, Ready, Repeat, Holds, TableAt;
    BurstCounts(burst, client, again, BURST - 1, again - REFILL + 1, BURST - 1, 0, 0);
    var before := burst + Repeat(Call(client, again), BURST - 1);
    ReadyForNothing(TableAt(before, |before|), client, again, again - REFILL + 1);
  }

  lemma NearlyStaleIsReady(m: Table, client: Addr, again: int)
    requires Holds(m, client, 0, again - LIFETIME + 1)
    ensures Ready(m, client, again, BURST - 1, again - REFILL + 1)
  {
    assert client in Sweep(m, again);
  }

  lemma ReadyForNothing(m: Table, client: Addr, now: int, lastRefill: int)
    requires Ready(m, client, now, 0, lastRefill)
    ensures Attempt(m, client, now).verdict.Exhausted?
  {
    SubsetTableSize(Sweep(m, now), m);
  }

  lemma {:induction false} OvertakenRunClients(client: Addr, other: Addr)
    ensures var run := OvertakenRun(client, other, 1, 1); forall k :: 0 <= k < |run| ==>
            run[k].client in {client, other}
  {
    assert OvertakenRun(client, other, 0, 1) == LateBurst(client);
  }

  /**
   * In all runs whose instants go back by at most d, clients that never meet the full table are
   * isolated exactly if d is 0.
   */
  lemma IsolationExactlyWhenOrdered(d: nat)
    ensures (forall calls, k: nat :: BackAtMost(calls, d) ==> Isolated(calls, k)) <==> d == 0
  {
    hide VerdictAt, SoloVerdict, BackAtMost, NeverTableFull, OvertakenRun;
    if d == 0 {
      forall calls: seq<Call>, k: nat | BackAtMost(calls, d)
        ensures Isolated(calls, k)
      {
        if k < |calls| && NeverTableFull(calls, k + 1, calls[k].client) {
          OrderedIsNotOvertaken(calls, calls[k].client, d);
          ClientIsolation(calls, k);
        }
      }
    } else {
      var run := OvertakenRun(V4(0), V4(1), 1, 1);
      LastOfOvertaken(V4(0), V4(1));
      OvertakenRunBack(V4(0), V4(1), 1, 1);
      BackAtMostGrows(run, 1, d);
      OvertakenRunClients(V4(0), V4(1));
      TwoClientsFit(run, |run|, V4(0), V4(1));
      assert !Isolated(run, |run| - 1);
    }
  }

  // ---------------------------------------------------------------------------------
  // The full table
  // ---------------------------------------------------------------------------------

  /** So many clients, once each, at one instant. */
  function Crowd(n: nat): seq<Call>
    requires n <= MAX_ENTRIES + 1
  {
    seq(n, i requires 0 <= i < n => Call(V4(i), 0))
  }

  /** All of them are admitted and remembered. */
  ghost predicate RemembersCrowd(m: Table, n: nat)
    requires n <= MAX_ENTRIES
  {
    |m| == n && (forall i :: 0 <= i < n ==> V4(i) in m) && forall addr :: addr in m ==>
      addr.V4? && addr.v4 < n && m[addr].lastRefill == 0
  }

  lemma CrowdStep(m: Table, n: nat)
    requires n < MAX_ENTRIES && RemembersCrowd(m, n)
    ensures RemembersCrowd(Attempt(m, V4(n), 0).table, n + 1)
  {
    assert Sweep(m, 0) == m;
    AddEntrySize(m, V4(n), Entry(BURST - 1, 0));
  }

  lemma {:induction false} CrowdTable(calls: seq<Call>, n: nat)
    requires n <= MAX_ENTRIES && n <= |calls| && forall i :: 0 <= i < n ==> calls[i] == Call(V4(i), 0)
    ensures RemembersCrowd(TableAt(calls, n), n)
  {
    hide Attempt, RemembersCrowd;
    if n == 0 {
      NobodyRemembered();
    } else {
      CrowdTable(calls, n - 1);
      CrowdStep(TableAt(calls, n - 1), n - 1);
    }
  }

  lemma NobodyRemembered()
    ensures RemembersCrowd(map[], 0)
  {
  }

  /** The client that comes after 10000 others is turned away, and would be admitted alone. */
  lemma CrowdedOut()
    ensures var run := Crowd(MAX_ENTRIES + 1);
            NonDecreasing(run) && VerdictAt(run, MAX_ENTRIES).TableFull? && SoloVerdict(run, MAX_ENTRIES).Admitted?
  {
    var run, last := Crowd(MAX_ENTRIES + 1), V4(MAX_ENTRIES);
    CrowdTable(run, MAX_ENTRIES);
    CrowdIsFull(TableAt(run, MAX_ENTRIES));
    ProjectNone(run[..MAX_ENTRIES], last);
    NoCallsNoTable();
    UnknownIsReady(map[], last, 0);
    ReadyStep(map[], last, 0, BURST, 0);
  }

  lemma CrowdIsFull(m: Table)
    requires RemembersCrowd(m, MAX_ENTRIES)
    ensures Attempt(m, V4(MAX_ENTRIES), 0).verdict.TableFull?
  {
    assert Sweep(m, 0) == m;
  }

  lemma {:induction false} ProjectNone(calls: seq<Call>, client: Addr)
    requires forall k :: 0 <= k < |calls| ==> calls[k].client != client
    ensures Project(calls, client) == []
  {
    if calls != [] {
      ProjectNone(calls[..|calls| - 1], client);
    }
  }
}
