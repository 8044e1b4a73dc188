/**
 * What the shared table means to a single client: isolation from the others, and the meaning
 * of the retry delay.
 */
module RateLimiterClients {
  import opened GoTime
  import opened Netip
  import opened Wrappers
  import opened RateLimiter
  import opened RateLimiterRuns

  // ---------------------------------------------------------------------------------
  // Isolation
  // ---------------------------------------------------------------------------------

  /** The run in which only this client's attempts take place. */
  function Project(calls: seq<Call>, client: Addr): seq<Call> {
    if calls == [] then []
    else
      var before := Project(calls[..|calls| - 1], client);
      if calls[|calls| - 1].client == client then before + [calls[|calls| - 1]] else before
  }

  /** The stored bucket an attempt at this instant would find. */
  ghost function Stored(m: Table, client: Addr, now: int): Option<Entry> {
    if client in Sweep(m, now) then Some(m[client]) else None
  }

  ghost predicate NeverTableFull(calls: seq<Call>, n: nat, client: Addr)
    requires n <= |calls|
  {
    forall k :: 0 <= k < n && calls[k].client == client ==> !VerdictAt(calls, k).TableFull?
  }

  /** What is stored after an attempt follows from what it found, unless the table was full. */
  lemma StoredAfterAttempt(m: Table, caller: Addr, client: Addr, now: int)
    requires ValidTable(m)
    ensures caller != client ==> Stored(Attempt(m, caller, now).table, client, now) == Stored(m, client, now)
    ensures caller == client && Attempt(m, client, now).verdict.Admitted? ==>
              var e := Bucket(m, client, now);
              Stored(Attempt(m, caller, now).table, client, now) == Some(Entry(e.tokens - 1, e.lastRefill))
    ensures caller == client && !Attempt(m, client, now).verdict.Admitted? ==>
              Stored(Attempt(m, caller, now).table, client, now) == Stored(m, client, now)
  {
    BucketBounds(m, client, now);
  }

  lemma SameStoredSameVerdict(m: Table, solo: Table, client: Addr, now: int)
    requires Stored(m, client, now) == Stored(solo, client, now)
    requires !Attempt(m, client, now).verdict.TableFull? && |solo| < MAX_ENTRIES
    ensures Attempt(m, client, now).verdict == Attempt(solo, client, now).verdict
    ensures Bucket(m, client, now) == Bucket(solo, client, now)
  {
    SubsetTableSize(Sweep(solo, now), solo);
  }

  lemma StoredLater(m: Table, client: Addr, t1: int, t2: int)
    requires t1 <= t2
    ensures Stored(m, client, t2) ==
            if Stored(m, client, t1).Some? && !Stale(Stored(m, client, t1).value, t2)
            then Stored(m, client, t1) else None
  {
  }

  /** A run with one client stores at most that client. */
  lemma {:induction false} SoloTable(calls: seq<Call>, n: nat, client: Addr)
    requires n <= |calls| && forall k :: 0 <= k < n ==> calls[k].client == client
    ensures |TableAt(calls, n)| <= 1
  {
    SoloKeys(calls, n, client);
    if TableAt(calls, n).Keys == {client} {
      assert |TableAt(calls, n)| == |TableAt(calls, n).Keys|;
    } else {
      assert TableAt(calls, n).Keys == {};
    }
  }

  lemma {:induction false} SoloKeys(calls: seq<Call>, n: nat, client: Addr)
    requires n <= |calls| && forall k :: 0 <= k < n ==> calls[k].client == client
    ensures TableAt(calls, n).Keys <= {client}
  {
    if n > 0 {
      SoloKeys(calls, n - 1, client);
    }
  }

  lemma {:induction false} ProjectIsSolo(calls: seq<Call>, client: Addr)
    ensures forall k :: 0 <= k < |Project(calls, client)| ==> Project(calls, client)[k].client == client
  {
    if calls != [] {
      ProjectIsSolo(calls[..|calls| - 1], client);
    }
  }

  /** Unless the table was full for it, shared and solo runs find the same stored bucket at every later instant. */
  lemma {:induction false} SameStored(calls: seq<Call>, n: nat, client: Addr, now: int)
    requires n <= |calls| && OvertakenAtMost(calls, client, 0) && NeverTableFull(calls, n, client)
    requires AllBy(calls, n, now)
    ensures var solo := Project(calls[..n], client);
            Stored(TableAt(calls, n), client, now) == Stored(TableAt(solo, |solo|), client, now)
  {
    hide Attempt, Stored, OvertakenAtMost, Project, ValidTable;
    if n == 0 {
      NothingToProject(client);
    } else {
      var last, m := calls[n - 1], TableAt(calls, n - 1);
      ProjectStep(calls, n - 1, client);
      if last.client == client {
        OwnIsLatest(calls, n - 1);
        SameStored(calls, n - 1, client, last.time);
        hide TableAt;
        SameStoredOwn(calls, n - 1, now);
      } else {
        SameStored(calls, n - 1, client, now);
        TableInvariant(calls, n - 1);
        OthersStored(m, last.client, client, last.time, now);
      }
    }
  }

  lemma NothingToProject(client: Addr)
    ensures Project([], client) == []
  {
  }

  lemma ProjectStep(calls: seq<Call>, n: nat, client: Addr)
    requires n < |calls|
    ensures Project(calls[..n + 1], client) ==
            if calls[n].client == client then Project(calls[..n], client) + [calls[n]] else Project(calls[..n], client)
  {
    assert calls[..n + 1][..n] == calls[..n];
  }

  lemma OwnIsLatest(calls: seq<Call>, k: nat)
    requires k < |calls| && OvertakenAtMost(calls, calls[k].client, 0)
    ensures AllBy(calls, k, calls[k].time)
  {
  }

  /** Another client's attempt sweeps what is stale by now at the latest. */
  lemma OthersStored(m: Table, caller: Addr, client: Addr, at: int, now: int)
    requires ValidTable(m) && caller != client && at <= now
    ensures Stored(Attempt(m, caller, at).table, client, now) == Stored(m, client, now)
  {
    StoredAfterAttempt(m, caller, client, at);
    hide Attempt;
    StoredLater(m, client, at, now);
    StoredLater(Attempt(m, caller, at).table, client, at, now);
  }

  /** Both runs make the same of the client's own attempt. */
  lemma SameStoredOwn(calls: seq<Call>, k: nat, now: int)
    requires k < |calls| && calls[k].time <= now && !VerdictAt(calls, k).TableFull?
    requires var client, solo := calls[k].client, Project(calls[..k], calls[k].client);
             Stored(TableAt(calls, k), client, calls[k].time) == Stored(TableAt(solo, |solo|), client, calls[k].time)
    ensures var client, solo := calls[k].client, Project(calls[..k], calls[k].client) + [calls[k]];
            Stored(TableAt(calls, k + 1), client, now) == Stored(TableAt(solo, |solo|), client, now)
    ensures VerdictAt(calls, k) == SoloVerdict(calls, k)
  {
    hide Attempt, Bucket, Stored, Project, ValidTable;
    var last, m := calls[k], TableAt(calls, k);
    var before := Project(calls[..k], last.client);
    var solo := TableAt(before, |before|);
    TableInvariant(calls, k);
    TableInvariant(before, |before|);
    TableAppend(before, last);
    ProjectIsSolo(calls[..k], last.client);
    SoloTable(before, |before|, last.client);
    SameStoredSameVerdict(m, solo, last.client, last.time);
    StoredAfterAttempt(m, last.client, last.client, last.time);
    StoredAfterAttempt(solo, last.client, last.client, last.time);
    StoredLater(TableAt(calls, k + 1), last.client, last.time, now);
    StoredLater(Attempt(solo, last.client, last.time).table, last.client, last.time, now);
  }

  /** The verdict of an attempt in the run of its client's attempts alone. */
  function SoloVerdict(calls: seq<Call>, k: nat): Verdict
    requires k < |calls|
  {
    var before := Project(calls[..k], calls[k].client);
    Attempt(TableAt(before, |before|), calls[k].client, calls[k].time).verdict
  }

  lemma SoloVerdictInRun(calls: seq<Call>, k: nat)
    requires k < |calls|
    ensures var solo := Project(calls[..k + 1], calls[k].client);
            solo != [] && SoloVerdict(calls, k) == VerdictAt(solo, |solo| - 1)
  {
    hide Attempt;
    var before := Project(calls[..k], calls[k].client);
    ProjectStep(calls, k, calls[k].client);
    TableAtPrefix(before, [calls[k]], |before|);
  }

  /**
   * Client isolation: unless a client meets the full table, each of its attempts in a shared
   * run gets exactly the verdict, delay included, of its attempts run alone. Only its own
   * attempts must not be overtaken; others may come in any order.
   */
  lemma ClientIsolation(calls: seq<Call>, k: nat)
    requires k < |calls| && OvertakenAtMost(calls, calls[k].client, 0)
    requires NeverTableFull(calls, k + 1, calls[k].client)
    ensures VerdictAt(calls, k) == SoloVerdict(calls, k)
  {
    hide Attempt, Stored, OvertakenAtMost, Project;
    OwnIsLatest(calls, k);
    SameStored(calls, k, calls[k].client, calls[k].time);
    assert !VerdictAt(calls, k).TableFull?;
    SameStoredOwn(calls, k, calls[k].time);
  }

  /** And meeting the full table is the only thing that can tell a shared run from a solo one. */
  lemma IsolatedExactlyWithoutFullTable(calls: seq<Call>, n: nat, client: Addr)
    requires n <= |calls| && OvertakenAtMost(calls, client, 0)
    ensures NeverTableFull(calls, n, client) <==>
            forall k :: 0 <= k < n && calls[k].client == client ==> VerdictAt(calls, k) == SoloVerdict(calls, k)
  {
    hide VerdictAt, SoloVerdict, OvertakenAtMost;
    forall k | 0 <= k < n && calls[k].client == client
      ensures !SoloVerdict(calls, k).TableFull?
      ensures NeverTableFull(calls, n, client) ==> VerdictAt(calls, k) == SoloVerdict(calls, k)
    {
      SoloNeverFull(calls, k);
      if NeverTableFull(calls, n, client) {
        ClientIsolation(calls, k);
      }
    }
  }

  lemma SoloNeverFull(calls: seq<Call>, k: nat)
    requires k < |calls|
    ensures !SoloVerdict(calls, k).TableFull?
  {
    var client := calls[k].client;
    var before := Project(calls[..k], client);
    ProjectIsSolo(calls[..k], client);
    SoloTable(before, |before|, client);
    SubsetTableSize(Sweep(TableAt(before, |before|), calls[k].time), TableAt(before, |before|));
  }

  // ---------------------------------------------------------------------------------
  // The retry delay
  // ---------------------------------------------------------------------------------

  ghost predicate NoCallBetween(calls: seq<Call>, client: Addr, from: nat, to: nat)
    requires to <= |calls|
  {
    forall k :: from <= k < to ==> calls[k].client != client
  }

  /** Nobody else's attempt changes or evicts a stored bucket within its lifetime. */
  lemma {:induction false} EntryPersists(calls: seq<Call>, client: Addr, from: nat, to: nat)
    requires from <= to <= |calls| && NoCallBetween(calls, client, from, to)
    requires client in TableAt(calls, from)
    requires forall k :: from <= k < to ==> !Stale(TableAt(calls, from)[client], calls[k].time)
    ensures client in TableAt(calls, to) && TableAt(calls, to)[client] == TableAt(calls, from)[client]
  {
    hide Attempt, Stale;
    if from < to {
      EntryPersists(calls, client, from, to - 1);
      OthersKeepEntry(TableAt(calls, to - 1), calls[to - 1].client, client, calls[to - 1].time);
    }
  }

  lemma OthersKeepEntry(m: Table, caller: Addr, client: Addr, now: int)
    requires caller != client && client in m && !Stale(m[client], now)
    ensures var after := Attempt(m, caller, now).table; client in after && after[client] == m[client]
  {
    hide Bucket;
  }

  /** How long a refused client may have to wait: the sum of delay and rounding stays within a Duration. */
  const MAX_OVERTAKEN: nat := MAX_DURATION - REFILL - NANOS_PER_SECOND

  /** The empty bucket behind a refusal, and the delay until its refill. */
  lemma RefusedBucket(calls: seq<Call>, j: nat, d: nat)
    requires j < |calls| && OvertakenAtMost(calls, calls[j].client, d) && d <= MAX_OVERTAKEN
    requires VerdictAt(calls, j).Exhausted?
    ensures var client, delay := calls[j].client, VerdictAt(calls, j).delay;
            && 0 < delay <= REFILL + d
            && HoldsEmpty(TableAt(calls, j + 1), client, calls[j].time + delay)
  {
    hide Attempt;
    var client, now := calls[j].client, calls[j].time;
    TableInvariant(calls, j);
    ExhaustedIsEmpty(TableAt(calls, j), client, now);
    RefilledByOwn(calls, j, client, now + d);
  }

  ghost predicate HoldsEmpty(m: Table, client: Addr, due: int) {
    client in m && m[client] == Entry(0, due - REFILL)
  }

  /** The verdict an empty bucket gives, for as long as it is stored. */
  lemma EmptyBucketVerdict(m: Table, client: Addr, now: int, due: int)
    requires HoldsEmpty(m, client, due)
    requires due - MAX_DURATION <= now < due - REFILL + LIFETIME
    ensures now < due ==> Attempt(m, client, now).verdict == Exhausted(due - now)
                          && HoldsEmpty(Attempt(m, client, now).table, client, due)
    ensures now >= due ==> Attempt(m, client, now).verdict == Admitted
  {
  }

  ghost predicate AllBefore(calls: seq<Call>, client: Addr, from: nat, to: nat, due: int)
    requires to <= |calls|
  {
    forall k :: from <= k < to && calls[k].client == client ==> calls[k].time < due
  }

  /** Nobody's attempt comes late enough to sweep a bucket that falls due then. */
  ghost predicate NobodySweeps(calls: seq<Call>, from: nat, to: nat, due: int)
    requires to <= |calls|
  {
    forall k :: from <= k < to ==> calls[k].time < due + (LIFETIME - REFILL)
  }

  /** Until the client's first attempt at or after the due instant its empty bucket stays. */
  lemma {:induction false} EmptyBucketStays(calls: seq<Call>, j: nat, n: nat, d: nat)
    requires j < n <= |calls| && OvertakenAtMost(calls, calls[j].client, d) && d <= MAX_OVERTAKEN
    requires VerdictAt(calls, j).Exhausted?
    requires var due := calls[j].time + VerdictAt(calls, j).delay;
             AllBefore(calls, calls[j].client, j + 1, n, due) && NobodySweeps(calls, j + 1, n, due)
    ensures HoldsEmpty(TableAt(calls, n), calls[j].client, calls[j].time + VerdictAt(calls, j).delay)
  {
    hide Attempt, Bucket, OvertakenAtMost, VerdictAt;
    var client, due := calls[j].client, calls[j].time + VerdictAt(calls, j).delay;
    if n == j + 1 {
      RefusedBucket(calls, j, d);
    } else {
      EmptyBucketStays(calls, j, n - 1, d);
      if calls[n - 1].client == client {
        DueIsNear(calls, n - 1, client, due, d);
        EmptyBucketVerdict(TableAt(calls, n - 1), client, calls[n - 1].time, due);
      } else {
        EntryPersists(calls, client, n - 1, n);
      }
    }
  }

  lemma DueIsNear(calls: seq<Call>, k: nat, client: Addr, due: int, d: nat)
    requires k < |calls| && calls[k].client == client && OvertakenAtMost(calls, client, d)
    requires HoldsEmpty(TableAt(calls, k), client, due)
    ensures due <= calls[k].time + REFILL + d
  {
    RefilledByOwn(calls, k, client, calls[k].time + d);
  }

  /**
   * The delay is exact, for a client whose attempts are overtaken by at most d. After a token
   * refusal at t with that delay, 0 < delay <= 3s + d; the client's attempts before t + delay
   * are refused with what is left of it; and its first attempt at or after t + delay is admitted
   * whatever the others do, as long as nobody's attempt comes as late as t + delay + 42s.
   */
  lemma RetryDelayExact(calls: seq<Call>, j: nat, k: nat, d: nat)
    requires j < k < |calls| && OvertakenAtMost(calls, calls[j].client, d) && d <= MAX_OVERTAKEN
    requires VerdictAt(calls, j).Exhausted? && calls[k].client == calls[j].client
    requires var due := calls[j].time + VerdictAt(calls, j).delay;
             AllBefore(calls, calls[j].client, j + 1, k, due) && NobodySweeps(calls, j + 1, k + 1, due)
    ensures 0 < VerdictAt(calls, j).delay <= REFILL + d
    ensures var due := calls[j].time + VerdictAt(calls, j).delay;
            && (calls[k].time < due ==>
                  VerdictAt(calls, k).Exhausted? && VerdictAt(calls, k).delay == due - calls[k].time)
            && (calls[k].time >= due ==> VerdictAt(calls, k) == Admitted)
  {
    hide Attempt, Bucket, OvertakenAtMost;
    var due := calls[j].time + VerdictAt(calls, j).delay;
    RefusedBucket(calls, j, d);
    EmptyBucketStays(calls, j, k, d);
    DueIsNear(calls, k, calls[k].client, due, d);
    EmptyBucketVerdict(TableAt(calls, k), calls[k].client, calls[k].time, due);
  }

  /**
   * A refused client, overtaken by at most d, that waits out the whole seconds of its
   * Retry-After header and comes back within 41s - d of that, is admitted. The header is at
   * least 1, and at most 3 plus d in seconds, rounded up.
   */
  lemma WaitingOutTheHeaderSuffices(calls: seq<Call>, j: nat, k: nat, d: nat)
    requires j < k < |calls| && OvertakenAtMost(calls, calls[j].client, d) && d <= MAX_OVERTAKEN
    requires VerdictAt(calls, j).Exhausted?
    requires calls[k].client == calls[j].client && NoCallBetween(calls, calls[j].client, j + 1, k)
    requires var header := RetryAfterSeconds(VerdictAt(calls, j).RetryAfter()) * NANOS_PER_SECOND;
             0 <= calls[k].time - calls[j].time - header <= LIFETIME - REFILL - NANOS_PER_SECOND - d
    ensures 1 <= RetryAfterSeconds(VerdictAt(calls, j).RetryAfter()) <= CeilDiv(REFILL + d, NANOS_PER_SECOND)
    ensures VerdictAt(calls, k) == Admitted
  {
    hide Attempt, VerdictAt, RetryAfterSeconds;
    RefusedBucket(calls, j, d);
    RetryAfterSecondsExact(VerdictAt(calls, j).delay);
    RetryDelayExact(calls, j, k, d);
  }

  // ---------------------------------------------------------------------------------
  // Steady clients
  // ---------------------------------------------------------------------------------

  /** The client's previous attempt before k, or k itself if there is none from j on. */
  ghost function Previous(calls: seq<Call>, client: Addr, j: nat, k: nat): (p: nat)
    requires j < k <= |calls| && calls[j].client == client
    ensures j <= p < k && calls[p].client == client && NoCallBetween(calls, client, p + 1, k)
  {
    if calls[k - 1].client == client then k - 1 else Previous(calls, client, j, k - 1)
  }

  lemma AdmittedEntry(m: Table, client: Addr, now: int)
    requires ValidTable(m) && Attempt(m, client, now).verdict.Admitted?
    ensures var after := Attempt(m, client, now).table;
            client in after && after[client].tokens >= 0 && now - REFILL < after[client].lastRefill
  {
    BucketBounds(m, client, now);
  }

  lemma RefilledEntryAdmits(m: Table, client: Addr, now: int)
    requires client in m && m[client].tokens >= 0 && REFILL <= now - m[client].lastRefill < LIFETIME
    ensures Attempt(m, client, now).verdict == Admitted
  {
    assert client in Sweep(m, now);
    assert Sub(now, m[client].lastRefill) / REFILL >= 1;
  }

  /**
   * An admission serves the client's next attempt, if that is overtaken by at most d and comes 3s + d
   * to 42s - d later.
   */
  lemma NextAttemptAdmitted(calls: seq<Call>, p: nat, k: nat, d: nat)
    requires p < k < |calls| && OvertakenAtMost(calls, calls[p].client, d) && VerdictAt(calls, p).Admitted?
    requires calls[k].client == calls[p].client && NoCallBetween(calls, calls[p].client, p + 1, k)
    requires REFILL + d <= calls[k].time - calls[p].time <= LIFETIME - REFILL - d
    ensures VerdictAt(calls, k).Admitted?
  {
    hide Attempt, Bucket;
    var client := calls[p].client;
    TableInvariant(calls, p);
    AdmittedEntry(TableAt(calls, p), client, calls[p].time);
    RefilledByOwn(calls, p + 1, client, calls[p].time + d);
    EntryPersists(calls, client, p + 1, k);
    RefilledEntryAdmits(TableAt(calls, k), client, calls[k].time);
  }

  ghost predicate SteadyGaps(calls: seq<Call>, client: Addr, j: nat, d: nat) {
    forall p, q :: j <= p < q < |calls| && calls[p].client == calls[q].client == client
                   && NoCallBetween(calls, client, p + 1, q) ==>
                     REFILL + d <= calls[q].time - calls[p].time <= LIFETIME - REFILL - d
  }

  /**
   * A client once admitted that keeps returning at gaps of 3s + d to 42s - d, overtaken by at
   * most d, is always admitted, full tables and other clients notwithstanding.
   */
  lemma {:induction false} SteadyClientAdmitted(calls: seq<Call>, j: nat, k: nat, d: nat)
    requires j <= k < |calls| && OvertakenAtMost(calls, calls[j].client, d)
    requires calls[k].client == calls[j].client && VerdictAt(calls, j).Admitted?
    requires SteadyGaps(calls, calls[j].client, j, d)
    ensures VerdictAt(calls, k).Admitted?
  {
    hide VerdictAt, OvertakenAtMost;
    if j < k {
      var p := Previous(calls, calls[j].client, j, k);
      SteadyClientAdmitted(calls, j, p, d);
      NextAttemptAdmitted(calls, p, k, d);
    }
  }
}
