/** How many Cap calls and cookies a run can cost, client by client. */
module ProtocolAccounting {
  import opened Wrappers
  import opened Netip
  import opened Tokens
  import opened RateLimiter
  import opened RateLimiterRuns
  import opened RateLimiterDisorder
  import opened Handler
  import opened Protocol

  datatype Kind = Admission | CapCall | Cookie

  /** The event is of the kind, for the client, from a handler that read its instant in [lo, hi]. */
  predicate Counts(e: Event, kind: Kind, client: Addr, lo: int, hi: int) {
    match e
    case Attempted(ticket, verdict) => kind.Admission? && verdict.Admitted? && ticket.client == client
      && lo <= ticket.time <= hi
    case CapAnswered(ticket, _) => kind.CapCall? && ticket.client == client && lo <= ticket.time <= hi
    case CookieSet(ticket, _) => kind.Cookie? && ticket.client == client && lo <= ticket.time <= hi
    case _ => false
  }

  function CountOf(log: seq<Event>, kind: Kind, client: Addr, lo: int, hi: int): nat {
    if log == [] then 0
    else CountOf(log[..|log| - 1], kind, client, lo, hi) + if Counts(log[|log| - 1], kind, client, lo, hi) then 1 else 0
  }

  lemma CountAppend(log: seq<Event>, e: Event, kind: Kind, client: Addr, lo: int, hi: int)
    ensures CountOf(log + [e], kind, client, lo, hi) ==
            CountOf(log, kind, client, lo, hi) + if Counts(e, kind, client, lo, hi) then 1 else 0
  {
    assert (log + [e])[..|log|] == log;
  }

  /** The limiter's share of the log: its attempts, in the order they took the lock. */
  function Calls(log: seq<Event>): seq<Call> {
    if log == [] then []
    else
      var last := log[|log| - 1];
      Calls(log[..|log| - 1]) + if last.Attempted? then [Call(last.ticket.client, last.ticket.time)] else []
  }

  lemma CallsAppend(log: seq<Event>, e: Event)
    ensures Calls(log + [e]) == Calls(log) + if e.Attempted? then [Call(e.ticket.client, e.ticket.time)] else []
  {
    assert (log + [e])[..|log|] == log;
  }

  /** Requests of the client whose Cap call is still under way. */
  function Outstanding(st: State, client: Addr, lo: int, hi: int): set<nat> {
    set id | id in st.inFlight && st.inFlight[id].AtCap? && st.inFlight[id].ticket.client == client
             && lo <= st.inFlight[id].ticket.time <= hi
  }

  // ---------------------------------------------------------------------------------
  // The protocol's table is the limiter's
  // ---------------------------------------------------------------------------------

  ghost predicate TableFollowsCalls(st: State) {
    st.table == TableAt(Calls(st.log), |Calls(st.log)|)
  }

  /** Everything counted so far, and what the limiter's own run says about it. */
  ghost predicate Accounted(st: State, client: Addr, lo: int, hi: int) {
    && TableFollowsCalls(st)
    && CountOf(st.log, Admission, client, lo, hi) == |Admissions(Calls(st.log), |Calls(st.log)|, client, lo, hi)|
    && CountOf(st.log, Admission, client, lo, hi) ==
       CountOf(st.log, CapCall, client, lo, hi) + |Outstanding(st, client, lo, hi)|
    && CountOf(st.log, Cookie, client, lo, hi) <= CountOf(st.log, CapCall, client, lo, hi)
  }

  /** Replacing or removing one request in flight changes only its own share. */
  lemma OutstandingChanges(st: State, after: State, id: nat, client: Addr, lo: int, hi: int)
    requires id in st.inFlight && after.inFlight - {id} == st.inFlight - {id}
    ensures |Outstanding(after, client, lo, hi)| + (if id in Outstanding(st, client, lo, hi) then 1 else 0) ==
            |Outstanding(st, client, lo, hi)| + (if id in Outstanding(after, client, lo, hi) then 1 else 0)
  {
    var o1, o2 := Outstanding(st, client, lo, hi), Outstanding(after, client, lo, hi);
    forall other: nat | other != id
      ensures other in o1 <==> other in o2
    {
      assert other in st.inFlight <==> other in st.inFlight - {id};
      assert other in after.inFlight <==> other in after.inFlight - {id};
      if other in st.inFlight {
        assert (st.inFlight - {id})[other] == st.inFlight[other] == after.inFlight[other];
      }
    }
    assert o1 - {id} == o2 - {id};
    assert |o1 - {id}| == |o1| - if id in o1 then 1 else 0;
    assert |o2 - {id}| == |o2| - if id in o2 then 1 else 0;
  }

  lemma SameElsewhere(m: map<nat, InFlight>, id: nat, f: InFlight)
    ensures m[id := f] - {id} == m - {id} && m - {id} - {id} == m - {id}
  {
  }

  lemma AccountTake(cfg: Config, policy: Policy, st: State, id: nat, client: Addr, lo: int, hi: int)
    requires Accounted(st, client, lo, hi)
    ensures Accounted(Next(cfg, policy, st, TakeToken(id)), client, lo, hi)
  {
    if id in st.inFlight && st.inFlight[id].AtLimiter? {
      hide Attempt, Accounted;
      var after := Next(cfg, policy, st, TakeToken(id));
      var ticket := st.inFlight[id].ticket;
      var e := Attempted(ticket, Attempt(st.table, ticket.client, ticket.time).verdict);
      SameElsewhere(st.inFlight, id, AtCap(ticket));
      OutstandingChanges(st, after, id, client, lo, hi);
      assert id in Outstanding(after, client, lo, hi) <==> Counts(e, Admission, client, lo, hi);
      assert id !in Outstanding(st, client, lo, hi);
      TakeCounts(st, after, e, client, lo, hi);
    }
  }

  lemma TakeCounts(st: State, after: State, e: Event, client: Addr, lo: int, hi: int)
    requires Accounted(st, client, lo, hi)
    requires e.Attempted? && after.log == st.log + [e]
    requires var out := Attempt(st.table, e.ticket.client, e.ticket.time);
             e.verdict == out.verdict && after.table == out.table
    requires |Outstanding(after, client, lo, hi)| ==
             |Outstanding(st, client, lo, hi)| + if Counts(e, Admission, client, lo, hi) then 1 else 0
    ensures Accounted(after, client, lo, hi)
  {
    hide Attempt, TableAt, Admissions, CountOf, Calls, Outstanding;
    CallsAppend(st.log, e);
    CountAppend(st.log, e, Admission, client, lo, hi);
    CountAppend(st.log, e, CapCall, client, lo, hi);
    CountAppend(st.log, e, Cookie, client, lo, hi);
    AdmissionsAppend(Calls(st.log), Call(e.ticket.client, e.ticket.time), client, lo, hi);
    TableAppend(Calls(st.log), Call(e.ticket.client, e.ticket.time));
  }

  lemma CountAll(log: seq<Event>, e: Event, client: Addr, lo: int, hi: int)
    requires e.CapAnswered? || e.CookieSet?
    ensures Calls(log + [e]) == Calls(log)
    ensures CountOf(log + [e], Admission, client, lo, hi) == CountOf(log, Admission, client, lo, hi)
    ensures CountOf(log + [e], CapCall, client, lo, hi) ==
            CountOf(log, CapCall, client, lo, hi)
            + if e.CapAnswered? && Counts(e, CapCall, client, lo, hi) then 1 else 0
    ensures CountOf(log + [e], Cookie, client, lo, hi) ==
            CountOf(log, Cookie, client, lo, hi) + if e.CookieSet? && Counts(e, Cookie, client, lo, hi) then 1 else 0
  {
    hide CountOf, Calls;
    CallsAppend(log, e);
    assert Calls(log) + [] == Calls(log);
    CountAppend(log, e, Admission, client, lo, hi);
    CountAppend(log, e, CapCall, client, lo, hi);
    CountAppend(log, e, Cookie, client, lo, hi);
  }

  lemma AccountCap(cfg: Config, policy: Policy, st: State, id: nat, reply: CapReply, client: Addr, lo: int, hi: int)
    requires Accounted(st, client, lo, hi)
    ensures Accounted(Next(cfg, policy, st, CapReplies(id, reply)), client, lo, hi)
  {
    if id in st.inFlight && st.inFlight[id].AtCap? {
      hide Accounted, AfterCap;
      var after := Next(cfg, policy, st, CapReplies(id, reply));
      var ticket := st.inFlight[id].ticket;
      var e, cookie := CapAnswered(ticket, reply), AfterCap(cfg, ticket, reply).cookie;
      SameElsewhere(st.inFlight, id, AtCap(ticket));
      OutstandingChanges(st, after, id, client, lo, hi);
      assert id in Outstanding(st, client, lo, hi) <==> Counts(e, CapCall, client, lo, hi);
      assert id !in Outstanding(after, client, lo, hi);
      CapCounts(st, after, ticket, reply, cookie, client, lo, hi);
    }
  }

  lemma CapCounts(st: State, after: State, ticket: Ticket, reply: CapReply, cookie: Option<string>, client: Addr,
                  lo: int, hi: int)
    requires Accounted(st, client, lo, hi) && after.table == st.table
    requires after.log ==
             st.log + [CapAnswered(ticket, reply)] + if cookie.Some? then [CookieSet(ticket, cookie.value)] else []
    requires |Outstanding(st, client, lo, hi)| ==
             |Outstanding(after, client, lo, hi)|
             + if Counts(CapAnswered(ticket, reply), CapCall, client, lo, hi) then 1 else 0
    ensures Accounted(after, client, lo, hi)
  {
    hide TableAt, Admissions, CountOf, Calls, Outstanding;
    var e := CapAnswered(ticket, reply);
    CountAll(st.log, e, client, lo, hi);
    if cookie.Some? {
      CountAll(st.log + [e], CookieSet(ticket, cookie.value), client, lo, hi);
    } else {
      assert after.log == st.log + [e];
    }
  }

  lemma AccountOther(cfg: Config, policy: Policy, st: State, step: Step, client: Addr, lo: int, hi: int)
    requires Accounted(st, client, lo, hi) && (step.Http? || step.BeginVerify?)
    ensures Accounted(Next(cfg, policy, st, step), client, lo, hi)
  {
    hide TableAt, Admissions, CountOf, Calls, Decide, CreateReturnState, Gate;
    var after := Next(cfg, policy, st, step);
    assert Outstanding(after, client, lo, hi) == Outstanding(st, client, lo, hi);
    if |after.log| > |st.log| {
      var e := after.log[|st.log|];
      assert after.log == st.log + [e];
      CallsAppend(st.log, e);
      CountAppend(st.log, e, Admission, client, lo, hi);
      CountAppend(st.log, e, CapCall, client, lo, hi);
      CountAppend(st.log, e, Cookie, client, lo, hi);
      assert Calls(after.log) == Calls(st.log);
    }
  }

  /**
   * Gate accounting, for every interleaving: per client and window, admissions are the Cap
   * calls answered and under way, cookies are at most the calls answered, and the admissions
   * are those of the limiter run alone on its share of the log.
   */
  lemma {:induction false} RunIsAccounted(cfg: Config, policy: Policy, steps: seq<Step>, client: Addr, lo: int, hi: int)
    ensures Accounted(StateAfter(cfg, policy, steps), client, lo, hi)
  {
    hide Accounted, Next;
    if steps == [] {
      InitialAccounted(client, lo, hi);
    } else {
      var before := steps[..|steps| - 1];
      RunIsAccounted(cfg, policy, before, client, lo, hi);
      var st, step := StateAfter(cfg, policy, before), steps[|steps| - 1];
      match step
      case TakeToken(id) => AccountTake(cfg, policy, st, id, client, lo, hi);
      case CapReplies(id, reply) => AccountCap(cfg, policy, st, id, reply, client, lo, hi);
      case _ => AccountOther(cfg, policy, st, step, client, lo, hi);
    }
  }

  lemma InitialAccounted(client: Addr, lo: int, hi: int)
    ensures Accounted(INITIAL, client, lo, hi)
  {
    assert Outstanding(INITIAL, client, lo, hi) == {};
    assert Admissions([], 0, client, lo, hi) == {};
  }

  /**
   * In every run in which a client's attempts are overtaken by at most d < 45s, the Cap calls it
   * causes in any window, answered or under way, obey the tolerant window bound, and its cookies
   * number no more than the calls answered.
   */
  lemma CapCallsBounded(cfg: Config, policy: Policy, steps: seq<Step>, client: Addr, lo: int, width: nat, d: nat)
    requires d < LIFETIME && OvertakenAtMost(Calls(StateAfter(cfg, policy, steps).log), client, d)
    ensures var st := StateAfter(cfg, policy, steps);
            && CountOf(st.log, Cookie, client, lo, lo + width) <= CountOf(st.log, CapCall, client, lo, lo + width)
            && CountOf(st.log, CapCall, client, lo, lo + width) + |Outstanding(st, client, lo, lo + width)|
               <= TolerantBound(width, d)
  {
    hide StateAfter, Admissions, CountOf, Calls, TableFollowsCalls, OvertakenAtMost, TolerantBound;
    var log := StateAfter(cfg, policy, steps).log;
    RunIsAccounted(cfg, policy, steps, client, lo, lo + width);
    TolerantWindowBound(Calls(log), |Calls(log)|, client, lo, width, d);
  }

  /** Run to the end without interruption, the steps of a request do what handleVerify does. */
  lemma UninterruptedSteps(cfg: Config, policy: Policy, st: State, id: nat, verify: VerifyRequest, now: int,
                           reply: CapReply)
    requires id !in st.inFlight
    ensures var s1 := Next(cfg, policy, st, BeginVerify(id, verify, now));
            var s2 := Next(cfg, policy, s1, TakeToken(id));
            var s3 := Next(cfg, policy, s2, CapReplies(id, reply));
            var (response, table, asked) := Handle(cfg, st.table, verify, now, reply);
            && s3.table == table && s3.inFlight == st.inFlight
            && match Gate(cfg, verify, now)
               case Failure(refusal) => s3 == st && response == refusal && !asked
               case Success(ticket) =>
                 s3.log == st.log + [Attempted(ticket, Attempt(st.table, ticket.client, now).verdict)]
                           + (if asked then [CapAnswered(ticket, reply)] else [])
                           + (if response.cookie.Some? then [CookieSet(ticket, response.cookie.value)] else [])
  {
    hide Attempt, AllowCookieValue, VerifyReturnState, RetryAfterSeconds;
    match Gate(cfg, verify, now)
    case Failure(_) =>
    case Success(ticket) =>
      var s1 := Next(cfg, policy, st, BeginVerify(id, verify, now));
      var s2 := Next(cfg, policy, s1, TakeToken(id));
      assert s2.inFlight - {id} == st.inFlight;
      var s3 := Next(cfg, policy, s2, CapReplies(id, reply));
      assert s3.log == s2.log + s3.log[|s2.log|..];
  }
}
