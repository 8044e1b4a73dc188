/**
 * Whole runs of the limiter between two resets: any number of clients, evictions and
 * full-table refusals included.
 */
module RateLimiterRuns {
  import opened GoTime
  import opened Netip
  import opened RateLimiter

  /** One attempt, with the instant its handler read before taking the lock. */
  datatype Call = Call(client: Addr, time: int)

  /** The table after the first n attempts of a run that starts from a reset. */
  function TableAt(calls: seq<Call>, n: nat): Table
    requires n <= |calls|
  {
    if n == 0 then map[]
    else Attempt(TableAt(calls, n - 1), calls[n - 1].client, calls[n - 1].time).table
  }

  function VerdictAt(calls: seq<Call>, k: nat): Verdict
    requires k < |calls|
  {
    Attempt(TableAt(calls, k), calls[k].client, calls[k].time).verdict
  }

  ghost predicate NonDecreasing(calls: seq<Call>) {
    forall i, j :: 0 <= i <= j < |calls| ==> calls[i].time <= calls[j].time
  }

  /** No attempt's instant is more than d before that of an earlier attempt. */
  ghost predicate BackAtMost(calls: seq<Call>, d: nat) {
    forall i, j :: 0 <= i <= j < |calls| ==> calls[j].time >= calls[i].time - d
  }

  /** No attempt of this client has been overtaken by more than d: others may come in any order. */
  ghost predicate OvertakenAtMost(calls: seq<Call>, client: Addr, d: nat) {
    forall i, j :: 0 <= i <= j < |calls| && calls[j].client == client ==> calls[j].time >= calls[i].time - d
  }

  lemma OrderedIsNotOvertaken(calls: seq<Call>, client: Addr, d: nat)
    ensures NonDecreasing(calls) <==> BackAtMost(calls, 0)
    ensures BackAtMost(calls, d) ==> OvertakenAtMost(calls, client, d)
  {
  }

  predicate IsAdmission(calls: seq<Call>, k: nat, client: Addr, lo: int, hi: int)
    requires k < |calls|
  {
    calls[k].client == client && lo <= calls[k].time <= hi && VerdictAt(calls, k).Admitted?
  }

  /** The attempts among the first n that admitted the client at an instant in [lo, hi]. */
  ghost function Admissions(calls: seq<Call>, n: nat, client: Addr, lo: int, hi: int): set<nat>
    requires n <= |calls|
  {
    set k: nat | k < n && IsAdmission(calls, k, client, lo, hi)
  }

  function CeilDiv(x: nat, y: nat): nat
    requires y > 0
  {
    (x + y - 1) / y
  }

  /** Later attempts do not change earlier tables and verdicts. */
  lemma {:induction false} TableAtPrefix(calls: seq<Call>, more: seq<Call>, n: nat)
    requires n <= |calls|
    ensures TableAt(calls + more, n) == TableAt(calls, n)
  {
    if n > 0 {
      TableAtPrefix(calls, more, n - 1);
    }
  }

  lemma VerdictAtPrefix(calls: seq<Call>, more: seq<Call>, k: nat)
    requires k < |calls|
    ensures VerdictAt(calls + more, k) == VerdictAt(calls, k)
  {
    TableAtPrefix(calls, more, k);
  }

  lemma TableAppend(calls: seq<Call>, call: Call)
    ensures TableAt(calls + [call], |calls| + 1) == Attempt(TableAt(calls, |calls|), call.client, call.time).table
  {
    hide Attempt;
    TableAtPrefix(calls, [call], |calls|);
  }

  // ---------------------------------------------------------------------------------
  // Invariants of every run
  // ---------------------------------------------------------------------------------

  /** Whatever order the instants come in, the table stays within its bounds. */
  lemma {:induction false} TableInvariant(calls: seq<Call>, n: nat)
    requires n <= |calls|
    ensures ValidTable(TableAt(calls, n))
    ensures n > 0 ==> forall addr :: addr in TableAt(calls, n) ==> !Stale(TableAt(calls, n)[addr], calls[n - 1].time)
  {
    if n > 0 {
      TableInvariant(calls, n - 1);
      AttemptKeepsTable(TableAt(calls, n - 1), calls[n - 1].client, calls[n - 1].time);
    }
  }

  /** No bucket was refilled after the given instant. */
  ghost predicate RefilledBy(m: Table, now: int) {
    forall addr :: addr in m ==> m[addr].lastRefill <= now
  }

  /** An instant that no attempt among the first n is after. */
  ghost predicate AllBy(calls: seq<Call>, n: nat, hi: int)
    requires n <= |calls|
  {
    forall k :: 0 <= k < n ==> calls[k].time <= hi
  }

  /**
   * An entry in the table is either as it was, or its client's, just admitted; then it is refilled up
   * to now or not at all.
   */
  lemma AttemptEntry(m: Table, caller: Addr, client: Addr, now: int)
    ensures var out := Attempt(m, caller, now);
            client in out.table ==>
              (client in m && out.table[client].lastRefill == m[client].lastRefill) ||
              (caller == client && out.verdict.Admitted? && out.table[client].lastRefill <= now)
  {
  }

  lemma {:induction false} RefilledByAll(calls: seq<Call>, n: nat, now: int)
    requires n <= |calls| && AllBy(calls, n, now)
    ensures RefilledBy(TableAt(calls, n), now)
  {
    hide Attempt;
    if n > 0 {
      RefilledByAll(calls, n - 1, now);
      forall addr | addr in TableAt(calls, n)
        ensures TableAt(calls, n)[addr].lastRefill <= now
      {
        AttemptEntry(TableAt(calls, n - 1), calls[n - 1].client, addr, calls[n - 1].time);
      }
    }
  }

  /** An instant that no attempt of the client's among the first n is after. */
  ghost predicate OwnBy(calls: seq<Call>, n: nat, client: Addr, hi: int)
    requires n <= |calls|
  {
    forall k :: 0 <= k < n && calls[k].client == client ==> calls[k].time <= hi
  }

  /** Nor is its bucket ever refilled beyond that instant. */
  lemma {:induction false} RefilledByOwn(calls: seq<Call>, n: nat, client: Addr, hi: int)
    requires n <= |calls| && OwnBy(calls, n, client, hi) && client in TableAt(calls, n)
    ensures TableAt(calls, n)[client].lastRefill <= hi
  {
    hide Attempt;
    AttemptEntry(TableAt(calls, n - 1), calls[n - 1].client, client, calls[n - 1].time);
    if client in TableAt(calls, n - 1) {
      RefilledByOwn(calls, n - 1, client, hi);
    }
  }

  lemma RunRefilledBy(calls: seq<Call>, n: nat, now: int)
    requires n <= |calls| && NonDecreasing(calls)
    requires n > 0 ==> calls[n - 1].time <= now
    ensures RefilledBy(TableAt(calls, n), now)
  {
    RefilledByAll(calls, n, now);
  }

  // ---------------------------------------------------------------------------------
  // The level of a client's bucket: tokens and elapsed phase on one scale of nanoseconds
  // ---------------------------------------------------------------------------------

  ghost function Level(m: Table, client: Addr, now: int): int {
    var bucket := Bucket(m, client, now);
    bucket.tokens * REFILL + (now - bucket.lastRefill)
  }

  /** A bucket looked up is in the middle of a refill period. */
  lemma BucketPhase(m: Table, client: Addr, now: int)
    requires ValidTable(m) && RefilledBy(m, now)
    ensures 0 <= now - Bucket(m, client, now).lastRefill < REFILL
  {
  }

  lemma LevelBounds(m: Table, client: Addr, now: int)
    requires ValidTable(m) && RefilledBy(m, now)
    ensures 0 <= Level(m, client, now) < LIFETIME + REFILL
    ensures Bucket(m, client, now).tokens == Level(m, client, now) / REFILL
  {
    assert 0 <= now - Bucket(m, client, now).lastRefill < REFILL;
  }

  ghost function EntryLevel(e: Entry, now: int): int {
    e.tokens * REFILL + (now - e.lastRefill)
  }

  /** Refilling keeps the level, except that it caps the tokens and then keeps only the phase. */
  lemma RefillLevel(e: Entry, now: int)
    requires 0 <= e.tokens <= BURST && 0 <= now - e.lastRefill < LIFETIME
    ensures var after := EntryLevel(Refill(e, now), now);
            if e.tokens + (now - e.lastRefill) / REFILL <= BURST then after == EntryLevel(e, now)
            else after == LIFETIME + (now - e.lastRefill) % REFILL
  {
  }

  lemma EntryLevelLater(e: Entry, t1: int, t2: int)
    ensures EntryLevel(e, t2) == EntryLevel(e, t1) + (t2 - t1)
    ensures EntryLevel(e, t1) == e.tokens * REFILL + (t1 - e.lastRefill)
  {
  }

  lemma RefillLevelOverTime(e: Entry, t1: int, t2: int)
    requires 0 <= e.tokens <= BURST && 0 <= t1 - e.lastRefill <= t2 - e.lastRefill < LIFETIME
    ensures var l1, l2 := EntryLevel(Refill(e, t1), t1), EntryLevel(Refill(e, t2), t2);
            l2 <= l1 + (t2 - t1) && (l2 >= LIFETIME || l2 == l1 + (t2 - t1))
  {
    RefillLevel(e, t1);
    RefillLevel(e, t2);
    DivMod(t1 - e.lastRefill, t2 - e.lastRefill);
    EntryLevelLater(e, t1, t2);
    hide Refill, EntryLevel;
  }

  lemma DivMod(x: nat, y: nat)
    requires x <= y
    ensures x / REFILL <= y / REFILL
    ensures x == x / REFILL * REFILL + x % REFILL && y == y / REFILL * REFILL + y % REFILL
  {
  }

  /** Waiting raises the level by at most the wait, and by the whole wait up to a full bucket. */
  lemma LevelOverTime(m: Table, client: Addr, t1: int, t2: int)
    requires ValidTable(m) && RefilledBy(m, t1) && t1 <= t2
    ensures Level(m, client, t2) <= Level(m, client, t1) + (t2 - t1)
    ensures Level(m, client, t2) >= LIFETIME || Level(m, client, t2) == Level(m, client, t1) + (t2 - t1)
  {
    if client in Sweep(m, t1) {
      if client in Sweep(m, t2) {
        RefillLevelOverTime(m[client], t1, t2);
      } else {
        RefillLevel(m[client], t1);
      }
    }
  }

  /** A bucket has nothing left to refill at the instant it was looked up. */
  lemma BucketIsRefilled(m: Table, client: Addr, now: int)
    requires ValidTable(m) && RefilledBy(m, now)
    ensures var bucket := Bucket(m, client, now);
            forall tokens :: Refill(Entry(tokens, bucket.lastRefill), now) == Entry(tokens, bucket.lastRefill)
  {
    assert 0 <= now - Bucket(m, client, now).lastRefill < REFILL;
  }

  /** Sweeping and then looking is looking: a sweep never changes what its own instant sees. */
  lemma BucketAfterAttempt(m: Table, caller: Addr, client: Addr, now: int)
    requires ValidTable(m) && RefilledBy(m, now)
    ensures var out := Attempt(m, caller, now);
            Bucket(out.table, client, now) ==
            if caller == client && out.verdict.Admitted?
            then Entry(Bucket(m, client, now).tokens - 1, Bucket(m, client, now).lastRefill)
            else Bucket(m, client, now)
  {
    hide Refill;
    BucketBounds(m, client, now);
    var out := Attempt(m, caller, now);
    if caller == client && out.verdict.Admitted? {
      var left := Entry(Bucket(m, client, now).tokens - 1, Bucket(m, client, now).lastRefill);
      assert client in Sweep(out.table, now) && out.table[client] == left;
      BucketIsRefilled(m, client, now);
    } else {
      assert client in Sweep(out.table, now) <==> client in Sweep(m, now);
      assert client in Sweep(m, now) ==> out.table[client] == m[client];
    }
  }

  /** An attempt costs its client 3s when admitted and nothing otherwise; others lose nothing. */
  lemma LevelOverAttempt(m: Table, caller: Addr, client: Addr, now: int)
    requires ValidTable(m) && RefilledBy(m, now)
    ensures var out := Attempt(m, caller, now);
            Level(out.table, client, now) ==
            Level(m, client, now) - if caller == client && out.verdict.Admitted? then REFILL else 0
  {
    BucketAfterAttempt(m, caller, client, now);
  }

  // ---------------------------------------------------------------------------------
  // Window bound and its converse
  // ---------------------------------------------------------------------------------

  lemma AdmissionsStep(calls: seq<Call>, n: nat, client: Addr, lo: int, hi: int)
    requires n < |calls|
    ensures |Admissions(calls, n + 1, client, lo, hi)| ==
            |Admissions(calls, n, client, lo, hi)| + if IsAdmission(calls, n, client, lo, hi) then 1 else 0
  {
    hide VerdictAt, Attempt;
    var fewer, more := Admissions(calls, n, client, lo, hi), Admissions(calls, n + 1, client, lo, hi);
    assert n !in fewer;
    forall k: nat
      ensures k in more <==> k in fewer || (k == n && IsAdmission(calls, n, client, lo, hi))
    {
    }
    assert more == fewer + if IsAdmission(calls, n, client, lo, hi) then {n} else {};
  }

  /** One more attempt adds itself to the admissions, if admitted, and changes none of them. */
  lemma AdmissionsAppend(calls: seq<Call>, call: Call, client: Addr, lo: int, hi: int)
    ensures var more := calls + [call];
            |Admissions(more, |more|, client, lo, hi)| == |Admissions(calls, |calls|, client, lo, hi)| +
              if call.client == client && lo <= call.time <= hi
                 && Attempt(TableAt(calls, |calls|), call.client, call.time).verdict.Admitted? then 1 else 0
  {
    hide Attempt;
    var more := calls + [call];
    TableAtPrefix(calls, [call], |calls|);
    forall k | 0 <= k < |calls|
      ensures VerdictAt(more, k) == VerdictAt(calls, k)
    {
      VerdictAtPrefix(calls, [call], k);
    }
    assert Admissions(more, |calls|, client, lo, hi) == Admissions(calls, |calls|, client, lo, hi);
    AdmissionsStep(more, |calls|, client, lo, hi);
  }

  /** The later of an instant and the last attempt among the first n. */
  ghost function LatestOf(calls: seq<Call>, n: nat, floor: int): int
    requires n <= |calls|
  {
    if n > 0 && calls[n - 1].time > floor then calls[n - 1].time else floor
  }

  lemma NoAdmissionsBefore(calls: seq<Call>, n: nat, client: Addr, lo: int, hi: int)
    requires n <= |calls| && (n == 0 || (NonDecreasing(calls) && calls[n - 1].time < lo))
    ensures Admissions(calls, n, client, lo, hi) == {}
  {
  }

  /** Admissions since lo and what is left in the bucket are paid for by time since lo. */
  lemma {:induction false} AdmissionsPaidFor(calls: seq<Call>, n: nat, client: Addr, lo: int, hi: int)
    requires n <= |calls| && NonDecreasing(calls) && lo <= hi
    requires n > 0 ==> calls[n - 1].time <= hi
    ensures var now := LatestOf(calls, n, lo);
            REFILL * |Admissions(calls, n, client, lo, hi)| + Level(TableAt(calls, n), client, now)
            < LIFETIME + REFILL + (now - lo)
  {
    hide Level, Attempt, Bucket, Admissions, ValidTable, RefilledBy;
    var now := LatestOf(calls, n, lo);
    TableInvariant(calls, n);
    RunRefilledBy(calls, n, now);
    if n == 0 || calls[n - 1].time < lo {
      NoAdmissionsBefore(calls, n, client, lo, hi);
      LevelBounds(TableAt(calls, n), client, now);
    } else {
      var m, before := TableAt(calls, n - 1), LatestOf(calls, n - 1, lo);
      AdmissionsPaidFor(calls, n - 1, client, lo, hi);
      TableInvariant(calls, n - 1);
      RunRefilledBy(calls, n - 1, before);
      LevelOverTime(m, client, before, now);
      LevelOverAttempt(m, calls[n - 1].client, client, now);
      AdmissionsStep(calls, n - 1, client, lo, hi);
    }
  }

  /**
   * Window bound: in any run whose instants do not decrease, one client is admitted at
   * most 15 + ceil(width / 3s) times in any closed interval of that width.
   */
  lemma {:induction false} WindowBound(calls: seq<Call>, n: nat, client: Addr, lo: int, width: nat)
    requires n <= |calls| && NonDecreasing(calls)
    ensures |Admissions(calls, n, client, lo, lo + width)| <= BURST + CeilDiv(width, REFILL)
  {
    hide Level, Attempt, Bucket, Admissions;
    if n > 0 && calls[n - 1].time > lo + width {
      WindowBound(calls, n - 1, client, lo, width);
      AdmissionsStep(calls, n - 1, client, lo, lo + width);
    } else {
      var now := LatestOf(calls, n, lo);
      AdmissionsPaidFor(calls, n, client, lo, lo + width);
      TableInvariant(calls, n);
      RunRefilledBy(calls, n, now);
      LevelBounds(TableAt(calls, n), client, now);
      CountFromTime(|Admissions(calls, n, client, lo, lo + width)|, width);
    }
  }

  lemma CountFromTime(count: nat, width: nat)
    requires REFILL * count < LIFETIME + REFILL + width
    ensures count <= BURST + CeilDiv(width, REFILL)
  {
  }

  /** What an admission does to the bucket: a full one is down to 14, any other pays its token out of what it had. */
  lemma AdmissionSpends(m: Table, client: Addr, now: int)
    requires Attempt(m, client, now).verdict.Admitted?
    ensures var after := Attempt(m, client, now).table;
            && client in after
            && (after[client].tokens == BURST - 1 ||
                (&& client in m && after[client].lastRefill >= m[client].lastRefill
                 && REFILL * after[client].tokens + REFILL - after[client].lastRefill ==
                    REFILL * m[client].tokens - m[client].lastRefill))
  {
  }

  /** Others leave the bucket alone, or take it away when it is stale; so do refusals. */
  lemma OthersSpendNothing(m: Table, caller: Addr, client: Addr, now: int)
    requires caller != client || !Attempt(m, caller, now).verdict.Admitted?
    ensures var after := Attempt(m, caller, now).table;
            client in after ==> client in m && after[client] == m[client]
  {
  }

  /**
   * What has been spent since an instant and is still there makes up a whole burst, or all the
   * time for which the bucket has been refilled since.
   */
  ghost predicate SpentSince(calls: seq<Call>, n: nat, client: Addr, since: int, hi: int, d: nat)
    requires n <= |calls|
  {
    client in TableAt(calls, n) ==>
      var e := TableAt(calls, n)[client];
      var spent := REFILL * (|Admissions(calls, n, client, since - d + 1, hi)| + e.tokens);
      spent >= LIFETIME || spent >= e.lastRefill - since
  }

  lemma SpentStep(calls: seq<Call>, n: nat, client: Addr, since: int, hi: int, d: nat)
    requires n < |calls| && SpentSince(calls, n, client, since, hi, d) && ValidTable(TableAt(calls, n))
    requires calls[n].client == client ==> since - d < calls[n].time <= hi
    ensures SpentSince(calls, n + 1, client, since, hi, d)
  {
    hide Attempt, Admissions, ValidTable;
    var last := calls[n];
    AdmissionsStep(calls, n, client, since - d + 1, hi);
    if last.client == client && VerdictAt(calls, n).Admitted? {
      AdmissionSpends(TableAt(calls, n), client, last.time);
    } else {
      OthersSpendNothing(TableAt(calls, n), last.client, client, last.time);
    }
  }

  lemma {:induction false} RunSpentSince(calls: seq<Call>, n: nat, client: Addr, since: int, hi: int, d: nat)
    requires n <= |calls| && OvertakenAtMost(calls, client, d) && OwnBy(calls, n, client, hi)
    ensures SpentSince(calls, n, client, since, hi, d)
  {
    hide Attempt, Admissions;
    TableInvariant(calls, n);
    if AllBy(calls, n, since) {
      RefilledByAll(calls, n, since);
    } else {
      hide SpentSince, ValidTable, TableAt;
      RunSpentSince(calls, n - 1, client, since, hi, d);
      TableInvariant(calls, n - 1);
      SpentStep(calls, n - 1, client, since, hi, d);
    }
  }

  /** A refusal for want of tokens finds an empty stored bucket whose refill is not due yet. */
  lemma ExhaustedIsEmpty(m: Table, client: Addr, now: int)
    requires ValidTable(m) && Attempt(m, client, now).verdict.Exhausted?
    ensures client in m && m[client].tokens == 0 && now - REFILL < m[client].lastRefill
    ensures Attempt(m, client, now).verdict.delay == Sub(m[client].lastRefill + REFILL, now)
    ensures var after := Attempt(m, client, now).table; client in after && after[client] == m[client]
  {
  }

  /**
   * A client refused for want of tokens at t was admitted at least 15 times in (t-45s-d, t+d],
   * if its attempts are overtaken by at most d; in order, that is the last 45s.
   */
  lemma NoFalseExhaustion(calls: seq<Call>, k: nat, d: nat)
    requires k < |calls| && OvertakenAtMost(calls, calls[k].client, d) && VerdictAt(calls, k).Exhausted?
    ensures |Admissions(calls, k, calls[k].client, calls[k].time - LIFETIME - d + 1, calls[k].time + d)| >= BURST
  {
    hide Attempt, Admissions;
    var client, now := calls[k].client, calls[k].time;
    TableInvariant(calls, k);
    ExhaustedIsEmpty(TableAt(calls, k), client, now);
    RunSpentSince(calls, k, client, now - LIFETIME, now + d, d);
  }

  ghost predicate WasAdmitted(calls: seq<Call>, n: nat, client: Addr, lo: int, hi: int)
    requires n <= |calls|
  {
    Admissions(calls, n, client, lo, hi) != {}
  }

  /**
   * Whatever order the instants come in: every stored bucket was last refilled no later than an
   * admission of its client.
   */
  lemma {:induction false} EntriesComeFromAdmissions(calls: seq<Call>, n: nat, client: Addr, hi: int)
    requires n <= |calls| && AllBy(calls, n, hi)
    requires client in TableAt(calls, n)
    ensures WasAdmitted(calls, n, client, TableAt(calls, n)[client].lastRefill, hi)
  {
    hide Attempt;
    var m, last := TableAt(calls, n - 1), calls[n - 1];
    var lo := TableAt(calls, n)[client].lastRefill;
    AttemptEntry(m, last.client, client, last.time);
    if last.client == client && VerdictAt(calls, n - 1).Admitted? && lo <= last.time {
      assert n - 1 in Admissions(calls, n, client, lo, hi);
    } else {
      EntriesComeFromAdmissions(calls, n - 1, client, hi);
      assert Admissions(calls, n - 1, client, lo, hi) <= Admissions(calls, n, client, lo, hi);
    }
  }

  /** In any order of instants, a new client turned away at the full table met 10000 others admitted after now - 45s. */
  lemma NoFalseTableFull(calls: seq<Call>, k: nat, hi: int) returns (others: set<Addr>)
    requires k < |calls| && AllBy(calls, k, hi) && VerdictAt(calls, k).TableFull?
    ensures |others| == MAX_ENTRIES && calls[k].client !in others
    ensures forall other :: other in others ==> WasAdmitted(calls, k, other, calls[k].time - LIFETIME + 1, hi)
  {
    var m, now := TableAt(calls, k), calls[k].time;
    others := Sweep(m, now).Keys;
    TableInvariant(calls, k);
    SubsetTableSize(Sweep(m, now), m);
    assert |others| == |Sweep(m, now)|;
    forall other | other in others
      ensures WasAdmitted(calls, k, other, now - LIFETIME + 1, hi)
    {
      EntriesComeFromAdmissions(calls, k, other, hi);
      assert Admissions(calls, k, other, m[other].lastRefill, hi)
             <= Admissions(calls, k, other, now - LIFETIME + 1, hi);
    }
  }
}
