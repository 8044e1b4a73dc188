/** One attempt, in plain arithmetic: what the limiter answers and leaves, for any valid table. */
module RateLimiterExactly {
  import opened GoTime
  import opened Netip
  import opened RateLimiter

  /** The clients whose buckets are younger than 45 seconds. */
  ghost function Remembered(m: Table, now: int): set<Addr> {
    set addr | addr in m && now - m[addr].lastRefill < 45_000_000_000
  }

  /** The tokens a client has: 15 for a new one, otherwise what is left and one for each 3 seconds since, up to 15. */
  ghost function Available(m: Table, client: Addr, now: int): int {
    if client !in Remembered(m, now) then 15
    else
      var elapsed := now - m[client].lastRefill;
      var tokens := m[client].tokens + if elapsed >= 0 then elapsed / 3_000_000_000 else 0;
      if tokens < 15 then tokens else 15
  }

  lemma RememberedIsSwept(m: Table, now: int)
    ensures Sweep(m, now).Keys == Remembered(m, now)
    ensures forall addr :: addr in Sweep(m, now) ==> Sweep(m, now)[addr] == m[addr]
    ensures |Sweep(m, now)| == |Remembered(m, now)|
  {
    assert |Sweep(m, now)| == |Sweep(m, now).Keys|;
  }

  /** The three verdicts: the full table turns new clients away, and nobody else; no token means a refusal. */
  lemma VerdictExactly(m: Table, client: Addr, now: int)
    requires ValidTable(m)
    ensures var verdict := Attempt(m, client, now).verdict;
            var full := client !in Remembered(m, now) && |Remembered(m, now)| >= 10_000;
            && (verdict.TableFull? <==> full)
            && (verdict.Exhausted? <==> !full && Available(m, client, now) == 0)
            && (verdict.Admitted? <==> !full && Available(m, client, now) > 0)
  {
    RememberedIsSwept(m, now);
    BucketTokens(m, client, now);
  }

  lemma BucketTokens(m: Table, client: Addr, now: int)
    requires ValidTable(m)
    ensures Bucket(m, client, now).tokens == Available(m, client, now)
  {
    RememberedIsSwept(m, now);
  }

  /** What a refusal makes the client wait: 3 seconds at the full table, otherwise until its next refill. */
  lemma DelayExactly(m: Table, client: Addr, now: int)
    requires ValidTable(m)
    ensures var verdict := Attempt(m, client, now).verdict;
            && (verdict.Admitted? ==> verdict.RetryAfter() == 0)
            && (verdict.TableFull? ==> verdict.RetryAfter() == 3_000_000_000)
            && (verdict.Exhausted? ==>
                  client in m && verdict.RetryAfter() == Sub(m[client].lastRefill + 3_000_000_000, now))
  {
  }

  lemma SweptOrUpdated(m: Table, client: Addr, now: int)
    ensures var out, swept := Attempt(m, client, now), Sweep(m, now);
            if out.verdict.Admitted? then client in out.table && out.table == swept[client := out.table[client]]
            else out.table == swept
  {
    hide Bucket, Sweep;
  }

  /** What is left: the remembered buckets as they are, and that of an admitted client. */
  lemma KeysExactly(m: Table, client: Addr, now: int)
    ensures var out := Attempt(m, client, now);
            && out.table.Keys == Remembered(m, now) + (if out.verdict.Admitted? then {client} else {})
            && forall addr :: addr in out.table && (addr != client || !out.verdict.Admitted?) ==>
                 addr in m && out.table[addr] == m[addr]
  {
    RememberedIsSwept(m, now);
    SweptOrUpdated(m, client, now);
    SweptIsStored(m, now);
    hide Attempt, Sweep, Remembered;
  }

  lemma SweptIsStored(m: Table, now: int)
    ensures forall addr :: addr in Sweep(m, now) ==> addr in m && Sweep(m, now)[addr] == m[addr]
  {
  }

  /** An admitted client is left a token less than it had, and is refilled in whole periods. */
  lemma AdmittedExactly(m: Table, client: Addr, now: int)
    requires ValidTable(m) && Attempt(m, client, now).verdict.Admitted?
    ensures var after := Attempt(m, client, now).table;
            var last := if client in Remembered(m, now) then m[client].lastRefill else now;
            && client in after && after[client].tokens == Available(m, client, now) - 1
            && after[client].lastRefill ==
               last + if now >= last then (now - last) / 3_000_000_000 * 3_000_000_000 else 0
  {
    BucketTokens(m, client, now);
    BucketPhaseExactly(m, client, now);
    hide Bucket, Sweep, Remembered, Available, ValidTable;
    var bucket := Bucket(m, client, now);
    assert Attempt(m, client, now).table[client] == Entry(bucket.tokens - 1, bucket.lastRefill);
  }

  lemma BucketPhaseExactly(m: Table, client: Addr, now: int)
    ensures var last := if client in Remembered(m, now) then m[client].lastRefill else now;
            Bucket(m, client, now).lastRefill ==
            last + if now >= last then (now - last) / 3_000_000_000 * 3_000_000_000 else 0
  {
    RememberedIsSwept(m, now);
  }
}
