/**
 * Handlers read their instant before they take the lock, so attempts may be overtaken by later
 * ones. What the window bound becomes for a client whose attempts are overtaken by at most d.
 */
module RateLimiterDisorder {
  import opened Netip
  import opened RateLimiter
  import opened RateLimiterRuns

  /** The latest instant among the first n attempts. */
  function Latest(calls: seq<Call>, n: nat): (latest: int)
    requires 0 < n <= |calls|
    ensures AllBy(calls, n, latest)
    ensures exists k :: 0 <= k < n && calls[k].time == latest
  {
    if n == 1 then calls[0].time
    else if Latest(calls, n - 1) < calls[n - 1].time then calls[n - 1].time
    else Latest(calls, n - 1)
  }

  lemma LatestBounds(calls: seq<Call>, n: nat, k: nat, d: nat)
    requires 0 < n <= |calls| && n - 1 <= k < |calls| && OvertakenAtMost(calls, calls[k].client, d)
    ensures Latest(calls, n) <= calls[k].time + d
  {
    var i :| 0 <= i < n && calls[i].time == Latest(calls, n);
  }

  /** How often a bucket can be swept between two admissions in a window of this width. */
  function Evictions(width: nat, d: nat): nat
    requires d < LIFETIME
  {
    (width + REFILL - 1) / (LIFETIME - d)
  }

  /** What a refill by an attempt after the window can leave inside it, beyond what that attempt costs. */
  function Excess(d: nat): nat {
    if d > REFILL then d - REFILL else 0
  }

  /** Admissions in a window of this width for a client overtaken by at most d. */
  function TolerantBound(width: nat, d: nat): nat
    requires d < LIFETIME
  {
    BURST + CeilDiv(width + Cost(Evictions(width, d), d) + Excess(d), REFILL)
  }

  function Cost(sweeps: nat, d: nat): (cost: nat)
    ensures d == 0 ==> cost == 0
  {
    d * sweeps
  }

  lemma OrderedBound(width: nat)
    ensures TolerantBound(width, 0) == BURST + CeilDiv(width, REFILL)
  {
    hide CeilDiv, Evictions;
  }

  // ---------------------------------------------------------------------------------
  // The level at a fixed instant
  // ---------------------------------------------------------------------------------

  /**
   * The level at a fixed instant of the client's entry, or of the best entry it could still
   * get if its next attempt is at most d before the latest instant.
   */
  ghost function Potential(m: Table, client: Addr, at: int, latest: int, d: nat): int {
    if client in m then EntryLevel(m[client], at) else LIFETIME + (at - (latest - d))
  }

  /** Refilling never raises the level at a fixed instant. */
  lemma RefillNeverRaises(e: Entry, now: int, at: int)
    ensures EntryLevel(Refill(e, now), at) <= EntryLevel(e, at)
    ensures Refill(e, now).lastRefill >= e.lastRefill
    ensures e.tokens >= 0 ==> Refill(e, now).tokens >= 0
  {
  }

  /** The bucket's whole state between two of its client's attempts, after `swept` sweeps of it. */
  ghost predicate Tracks(m: Table, client: Addr, start: int, latest: int, d: nat, swept: nat)
    requires d < LIFETIME
  {
    && (client in m ==> m[client].tokens >= 0 && m[client].lastRefill >= start + swept * (LIFETIME - d))
    && (client !in m ==> swept > 0)
    && (swept > 0 ==> latest >= start + swept * (LIFETIME - d) + d)
  }

  lemma NextSweep(swept: nat, d: nat)
    requires d < LIFETIME
    ensures (swept + 1) * (LIFETIME - d) == swept * (LIFETIME - d) + LIFETIME - d
  {
  }

  /** Sweeps of the client's bucket at this instant: one if it is stored and stale, none otherwise. */
  ghost function SweepsAt(m: Table, client: Addr, now: int): nat {
    if client in m && Stale(m[client], now) then 1 else 0
  }

  /** The sweep at the start of an attempt: it may take the bucket away, at the cost of d. */
  lemma SweepTracks(m: Table, client: Addr, start: int, latest: int, d: nat, swept: nat, now: int, at: int)
    requires d < LIFETIME && Tracks(m, client, start, latest, d, swept)
    ensures var newest, sweeps := if latest < now then now else latest, SweepsAt(m, client, now);
            && Tracks(Sweep(m, now), client, start, newest, d, swept + sweeps)
            && Potential(Sweep(m, now), client, at, newest, d) <= Potential(m, client, at, latest, d) + d * sweeps
  {
    NextSweep(swept, d);
  }

  /**
   * One attempt: admissions of the client are paid for, and only a sweep of its own bucket adds
   * to the potential. Others' attempts may go back as far as they like.
   */
  lemma AttemptTracks(m: Table, caller: Addr, client: Addr, start: int, latest: int, d: nat, swept: nat, now: int,
                      at: int)
    requires d < LIFETIME && Tracks(m, client, start, latest, d, swept) && (caller == client ==> now >= latest - d)
    ensures var newest := if latest < now then now else latest;
            var out, sweeps := Attempt(m, caller, now), SweepsAt(m, client, now);
            && Tracks(out.table, client, start, newest, d, swept + sweeps)
            && Potential(out.table, client, at, newest, d)
               + (if caller == client && out.verdict.Admitted? then REFILL else 0)
               <= Potential(m, client, at, latest, d) + d * sweeps
  {
    hide Attempt, Potential, Tracks, Sweep, SweepsAt;
    SweepTracks(m, client, start, latest, d, swept, now, at);
    var newest := if latest < now then now else latest;
    AfterSweep(m, caller, client, start, newest, d, swept + SweepsAt(m, client, now), now, at);
  }

  /** What an attempt makes of one client's entry in the swept table. */
  lemma EntryAfterAttempt(m: Table, caller: Addr, client: Addr, now: int)
    ensures var table, out := Sweep(m, now), Attempt(m, caller, now);
            if caller == client && out.verdict.Admitted? then
              var e := Refill(if client in table then table[client] else Entry(BURST, now), now);
              && client in out.table && out.table[client] == Entry(e.tokens - 1, e.lastRefill) && e.tokens != 0
            else
              && (client in out.table <==> client in table)
              && (client in table ==> out.table[client] == table[client])
  {
  }

  /** The rest of the attempt, on the swept table. */
  lemma AfterSweep(m: Table, caller: Addr, client: Addr, start: int, latest: int, d: nat, swept: nat, now: int, at: int)
    requires d < LIFETIME && Tracks(Sweep(m, now), client, start, latest, d, swept)
    requires now <= latest && (caller == client ==> latest - d <= now)
    ensures var out := Attempt(m, caller, now);
            && Tracks(out.table, client, start, latest, d, swept)
            && Potential(out.table, client, at, latest, d)
               + (if caller == client && out.verdict.Admitted? then REFILL else 0)
               <= Potential(Sweep(m, now), client, at, latest, d)
  {
    hide Attempt, Sweep, Refill;
    EntryAfterAttempt(m, caller, client, now);
    var table := Sweep(m, now);
    RefillNeverRaises(if client in table then table[client] else Entry(BURST, now), now, at);
  }

  /** Right after an admission the bucket holds less than 45s, and was refilled less than 3s before. */
  lemma FreshlyAdmitted(m: Table, client: Addr, now: int)
    requires ValidTable(m) && Attempt(m, client, now).verdict.Admitted?
    ensures var after := Attempt(m, client, now).table;
            && client in after && 0 <= after[client].tokens < BURST
            && after[client].lastRefill > now - REFILL
            && EntryLevel(after[client], now) < LIFETIME
  {
    BucketBounds(m, client, now);
  }

  lemma StartsTracking(m: Table, client: Addr, at: int, latest: int, d: nat)
    requires d < LIFETIME && client in m && m[client].tokens >= 0 && m[client].lastRefill > at - REFILL
    ensures Tracks(m, client, at - REFILL + 1, latest, d, 0)
    ensures Potential(m, client, at, latest, d) == EntryLevel(m[client], at)
  {
  }

  lemma LatestStep(calls: seq<Call>, n: nat)
    requires 1 < n <= |calls|
    ensures var before, last := Latest(calls, n - 1), calls[n - 1].time;
            Latest(calls, n) == if before < last then last else before
  {
  }

  lemma Distribute(d: nat, swept: nat, sweeps: nat)
    ensures d * swept + d * sweeps == d * (swept + sweeps)
  {
  }

  /**
   * Attempts of the client's beyond the end of the window that have been paid for, as far as they
   * matter: none or one.
   */
  ghost predicate Beyond(m: Table, client: Addr, hi: int, over: nat) {
    over <= 1 && (client in m && m[client].lastRefill > hi ==> over == 1)
  }

  /**
   * Counting from an admission at f: admissions in the window and what is left are paid for by
   * what was there, plus d for every sweep of the bucket; and sweeps are 45s - d apart. A bucket
   * refilled beyond the window has paid for an admission there.
   */
  ghost predicate PaidFor(calls: seq<Call>, f: nat, n: nat, client: Addr, lo: int, hi: int, d: nat, swept: nat,
                          over: nat)
    requires f < n <= |calls| && d < LIFETIME
  {
    var at, m, latest := calls[f].time, TableAt(calls, n), Latest(calls, n);
    && Tracks(m, client, at - REFILL + 1, latest, d, swept) && Beyond(m, client, hi, over)
    && Potential(m, client, at, latest, d) + REFILL * (|Admissions(calls, n, client, lo, hi)| + over)
       < LIFETIME + REFILL + d * swept
  }

  lemma PaidForStart(calls: seq<Call>, f: nat, client: Addr, lo: int, hi: int, d: nat) returns (over: nat)
    requires f < |calls| && d < LIFETIME
    requires IsAdmission(calls, f, client, lo, hi) && Admissions(calls, f, client, lo, hi) == {}
    ensures PaidFor(calls, f, f + 1, client, lo, hi, d, 0, over)
  {
    hide Attempt, Potential, Tracks, Admissions, Latest, ValidTable;
    AdmissionsStep(calls, f, client, lo, hi);
    TableInvariant(calls, f);
    FreshlyAdmitted(TableAt(calls, f), client, calls[f].time);
    StartsTracking(TableAt(calls, f + 1), client, calls[f].time, Latest(calls, f + 1), d);
    over := if TableAt(calls, f + 1)[client].lastRefill > hi then 1 else 0;
  }

  /** What is refilled beyond the window has been so before, or by an admission there. */
  lemma BeyondStep(m: Table, caller: Addr, client: Addr, now: int, hi: int, over: nat) returns (more: nat)
    requires Beyond(m, client, hi, over)
    ensures Beyond(Attempt(m, caller, now).table, client, hi, more)
    ensures more == over || (more == over + 1 && caller == client && Attempt(m, caller, now).verdict.Admitted?
            && now > hi)
  {
    AttemptEntry(m, caller, client, now);
    hide Attempt;
    return if caller == client && Attempt(m, caller, now).verdict.Admitted? && now > hi then 1 else over;
  }

  /** Sweeps are counted exactly when they happen. */
  lemma PaidForStep(calls: seq<Call>, f: nat, n: nat, client: Addr, lo: int, hi: int, d: nat, swept: nat, over: nat)
    returns (more: nat)
    requires f < n < |calls| && d < LIFETIME && OvertakenAtMost(calls, client, d)
    requires PaidFor(calls, f, n, client, lo, hi, d, swept, over)
    ensures var sweeps := SweepsAt(TableAt(calls, n), client, calls[n].time);
            PaidFor(calls, f, n + 1, client, lo, hi, d, swept + sweeps, more)
  {
    hide Attempt, Potential, Tracks, Admissions, Latest, OvertakenAtMost, SweepsAt, Beyond;
    var at, last, m := calls[f].time, calls[n], TableAt(calls, n);
    AdmissionsStep(calls, n, client, lo, hi);
    if last.client == client {
      LatestBounds(calls, n, n, d);
    }
    LatestStep(calls, n + 1);
    AttemptTracks(m, last.client, client, at - REFILL + 1, Latest(calls, n), d, swept, last.time, at);
    more := BeyondStep(m, last.client, client, last.time, hi, over);
    Distribute(d, swept, SweepsAt(m, client, last.time));
  }

  lemma {:induction false} PaidForFrom(calls: seq<Call>, f: nat, n: nat, client: Addr, lo: int, hi: int, d: nat)
    returns (swept: nat, over: nat)
    requires f < n <= |calls| && d < LIFETIME && OvertakenAtMost(calls, client, d)
    requires IsAdmission(calls, f, client, lo, hi) && Admissions(calls, f, client, lo, hi) == {}
    ensures PaidFor(calls, f, n, client, lo, hi, d, swept, over)
  {
    hide PaidFor, OvertakenAtMost, VerdictAt, Admissions;
    if n == f + 1 {
      over := PaidForStart(calls, f, client, lo, hi, d);
      return 0, over;
    }
    var before, beyond := PaidForFrom(calls, f, n - 1, client, lo, hi, d);
    over := PaidForStep(calls, f, n - 1, client, lo, hi, d, before, beyond);
    swept := before + SweepsAt(TableAt(calls, n - 1), client, calls[n - 1].time);
  }

  // ---------------------------------------------------------------------------------
  // The bound
  // ---------------------------------------------------------------------------------

  /** The first and the last admission of the window, if it has any. */
  lemma {:induction false} FirstAdmission(calls: seq<Call>, n: nat, client: Addr, lo: int, hi: int) returns (f: nat)
    requires n <= |calls| && Admissions(calls, n, client, lo, hi) != {}
    ensures f < n && IsAdmission(calls, f, client, lo, hi) && Admissions(calls, f, client, lo, hi) == {}
  {
    hide VerdictAt;
    if Admissions(calls, n - 1, client, lo, hi) == {} {
      return n - 1;
    }
    f := FirstAdmission(calls, n - 1, client, lo, hi);
  }

  lemma {:induction false} LastAdmission(calls: seq<Call>, n: nat, client: Addr, lo: int, hi: int) returns (l: nat)
    requires n <= |calls| && Admissions(calls, n, client, lo, hi) != {}
    ensures l < n && IsAdmission(calls, l, client, lo, hi)
    ensures Admissions(calls, l + 1, client, lo, hi) == Admissions(calls, n, client, lo, hi)
  {
    hide VerdictAt;
    if IsAdmission(calls, n - 1, client, lo, hi) {
      return n - 1;
    }
    assert Admissions(calls, n - 1, client, lo, hi) == Admissions(calls, n, client, lo, hi);
    l := LastAdmission(calls, n - 1, client, lo, hi);
  }

  lemma ProductGrows(x: nat, y: nat, factor: nat)
    requires x <= y
    ensures x * factor <= y * factor
  {
  }

  lemma CancelFactor(x: nat, y: nat, factor: nat)
    requires x * factor < y * factor
    ensures x < y
  {
    if y <= x {
      ProductGrows(y, x, factor);
    }
  }

  lemma SweepsFit(swept: nat, width: nat, d: nat)
    requires d < LIFETIME && swept * (LIFETIME - d) <= width + REFILL - 1
    ensures swept <= Evictions(width, d)
  {
    var gap, q := LIFETIME - d, Evictions(width, d);
    assert width + REFILL - 1 < q * gap + gap;
    assert q * gap + gap == (q + 1) * gap;
    CancelFactor(swept, q + 1, gap);
  }

  /** At an admission at the end of the window: so much time has gone into them. */
  lemma CountFromPotential(calls: seq<Call>, f: nat, l: nat, client: Addr, lo: int, width: nat, d: nat, swept: nat,
                           over: nat)
    requires f <= l < |calls| && d < LIFETIME && OvertakenAtMost(calls, client, d)
    requires IsAdmission(calls, f, client, lo, lo + width) && IsAdmission(calls, l, client, lo, lo + width)
    requires PaidFor(calls, f, l + 1, client, lo, lo + width, d, swept, over)
    ensures swept <= Evictions(width, d)
    ensures REFILL * |Admissions(calls, l + 1, client, lo,
            lo + width)| < LIFETIME + REFILL + width + d * swept + Excess(d)
  {
    hide Attempt, Admissions, OvertakenAtMost, Latest;
    LatestBounds(calls, l + 1, l, d);
    TableInvariant(calls, l);
    FreshlyAdmitted(TableAt(calls, l), client, calls[l].time);
    RefilledByAll(calls, l + 1, Latest(calls, l + 1));
    SweepsFit(swept, width, d);
  }

  /**
   * Tolerant window bound: a client whose attempts are overtaken by at most d < 45s is admitted
   * at most 15 + ceil((W + d * floor((W + 3s - 1ns) / (45s - d)) + max(0, d - 3s)) / 3s) times in
   * any closed interval of width W. With d = 0 this is the window bound.
   */
  lemma TolerantWindowBound(calls: seq<Call>, n: nat, client: Addr, lo: int, width: nat, d: nat)
    requires n <= |calls| && d < LIFETIME && OvertakenAtMost(calls, client, d)
    ensures |Admissions(calls, n, client, lo, lo + width)| <= TolerantBound(width, d)
  {
    hide VerdictAt, Admissions, OvertakenAtMost, PaidFor, Evictions, Excess;
    var hi := lo + width;
    if Admissions(calls, n, client, lo, hi) != {} {
      var l := LastAdmission(calls, n, client, lo, hi);
      var f := FirstAdmission(calls, n, client, lo, hi);
      FirstBeforeLast(calls, f, l, client, lo, hi);
      var swept, over := PaidForFrom(calls, f, l + 1, client, lo, hi, d);
      CountFromPotential(calls, f, l, client, lo, width, d, swept, over);
      ProductGrows(swept, Evictions(width, d), d);
      CountFromTime(|Admissions(calls, n, client, lo, hi)|, width + Cost(Evictions(width, d), d) + Excess(d));
    }
  }

  lemma FirstBeforeLast(calls: seq<Call>, f: nat, l: nat, client: Addr, lo: int, hi: int)
    requires f < |calls| && l < |calls| && IsAdmission(calls, l, client, lo, hi)
             && Admissions(calls, f, client, lo, hi) == {}
    ensures f <= l
  {
    hide VerdictAt;
    var earlier := Admissions(calls, f, client, lo, hi);
    assert l < f ==> l in earlier;
  }
}
