/**
 * What the protocol is for: a client that solves its challenge in time gets through, whatever
 * other requests do in between; and presenting what the server issued is no forgery.
 */
module ProtocolHonest {
  import opened GoTime
  import opened Bytes
  import opened Wrappers
  import opened Netip
  import opened Text
  import opened ReturnPath
  import opened SignedValue
  import opened Tokens
  import opened RateLimiter
  import opened Handler
  import opened Protocol

  // ---------------------------------------------------------------------------------
  // Runs step by step
  // ---------------------------------------------------------------------------------

  function StateAt(cfg: Config, policy: Policy, steps: seq<Step>, n: nat): State
    requires n <= |steps|
  {
    StateAfter(cfg, policy, steps[..n])
  }

  lemma RunStep(cfg: Config, policy: Policy, steps: seq<Step>, n: nat)
    requires n < |steps|
    ensures StateAt(cfg, policy, steps, n + 1) == Next(cfg, policy, StateAt(cfg, policy, steps, n), steps[n])
    ensures AuthenticRun(cfg, policy, steps[..n + 1]) <==>
            AuthenticRun(cfg, policy, steps[..n]) && Authentic(cfg, StateAt(cfg, policy, steps, n).log, steps[n])
  {
    hide Next, Authentic;
    assert steps[..n + 1][..n] == steps[..n];
  }

  /** A run is without forgeries if each of its steps is, where it stands. */
  lemma {:induction false} AuthenticStepByStep(cfg: Config, policy: Policy, steps: seq<Step>, n: nat)
    requires n <= |steps| && forall k :: 0 <= k < n ==> Authentic(cfg, StateAt(cfg, policy, steps, k).log, steps[k])
    ensures AuthenticRun(cfg, policy, steps[..n])
  {
    hide Authentic, StateAt;
    if n > 0 {
      AuthenticStepByStep(cfg, policy, steps, n - 1);
      RunStep(cfg, policy, steps, n - 1);
    }
  }

  lemma NextGrows(cfg: Config, policy: Policy, st: State, step: Step)
    ensures st.log <= Next(cfg, policy, st, step).log
  {
    hide Decide, Gate, CreateReturnState, AfterCap, Attempt;
  }

  lemma {:induction false} LogGrows(cfg: Config, policy: Policy, steps: seq<Step>, from: nat, n: nat)
    requires from <= n <= |steps|
    ensures StateAt(cfg, policy, steps, from).log <= StateAt(cfg, policy, steps, n).log
  {
    hide Next, StateAt;
    if from < n {
      LogGrows(cfg, policy, steps, from, n - 1);
      RunStep(cfg, policy, steps, n - 1);
      NextGrows(cfg, policy, StateAt(cfg, policy, steps, n - 1), steps[n - 1]);
    }
  }

  /** The step moves this request on. */
  predicate Moves(step: Step, id: nat) {
    (step.TakeToken? || step.CapReplies?) && step.id == id
  }

  lemma NextKeepsFlight(cfg: Config, policy: Policy, st: State, step: Step, id: nat)
    requires id in st.inFlight && !Moves(step, id)
    ensures var after := Next(cfg, policy, st, step); id in after.inFlight && after.inFlight[id] == st.inFlight[id]
  {
    hide Decide, Gate, CreateReturnState, AfterCap, Attempt;
  }

  /** Others' steps, and a second request under the same number, leave a request in flight where it is. */
  lemma {:induction false} FlightKept(cfg: Config, policy: Policy, steps: seq<Step>, from: nat, n: nat, id: nat)
    requires from <= n <= |steps| && id in StateAt(cfg, policy, steps, from).inFlight
    requires forall k :: from <= k < n ==> !Moves(steps[k], id)
    ensures id in StateAt(cfg, policy, steps, n).inFlight
    ensures StateAt(cfg, policy, steps, n).inFlight[id] == StateAt(cfg, policy, steps, from).inFlight[id]
  {
    hide Next, StateAt;
    if from < n {
      FlightKept(cfg, policy, steps, from, n - 1, id);
      RunStep(cfg, policy, steps, n - 1);
      NextKeepsFlight(cfg, policy, StateAt(cfg, policy, steps, n - 1), steps[n - 1], id);
    }
  }

  // ---------------------------------------------------------------------------------
  // The honest client
  // ---------------------------------------------------------------------------------

  /** A text the server has issued under a key is no forgery under it. */
  lemma IssuedIsUnforged(cfg: Config, log: seq<Event>, k: nat)
    requires k < |log|
    ensures log[k].Challenged? ==> Unforged(cfg, log, log[k].raw, cfg.returnStateMACKey)
    ensures log[k].CookieSet? ==> Unforged(cfg, log, log[k].raw, cfg.cookieMACKey)
  {
    hide PayloadPart;
    if log[k].Challenged? {
      assert SignedBy(cfg, log[k], cfg.returnStateMACKey, PayloadPart(log[k].raw));
    } else if log[k].CookieSet? {
      assert SignedBy(cfg, log[k], cfg.cookieMACKey, PayloadPart(log[k].raw));
    }
  }

  lemma SignedIsNotBlank(cfg: Config, path: Bytes, c: int)
    requires Usable(cfg)
    ensures var raw := CreateReturnState(cfg, path, c); raw.Success? && TrimSpace(raw.value) != ""
  {
    hide SafeReturnPathFrom, StateJson, SignValue, TrimSpace;
    var claims := ReturnStateClaims(TOKEN_VERSION, SafeReturnPathFrom(path), Unix(c + RETURN_STATE_VALID_FOR));
    JsonRoundTrip(claims, AllowCookieClaims(0, 0, 0));
    SignedParts(cfg.pr, StateJson(claims), cfg.returnStateMACKey);
    var raw := CreateReturnState(cfg, path, c).value;
    assert raw[IndexOf(raw, '.')] == '.' && '.' in raw && !IsSpace('.');
    BlankExactlyWhenSpaces(raw);
  }

  /** What the client posts: its token, and the state it was served. */
  function Solution(token: string, raw: string, clientIP: Addr): VerifyRequest {
    VerifyRequest(true, Some(VerifyBody(token, raw)), Some(clientIP))
  }

  /** A served state passes the gates until it expires. */
  lemma SolutionPassesGate(cfg: Config, path: Bytes, c: int, token: string, clientIP: Addr, s: int)
    requires Usable(cfg) && TrimSpace(token) != "" && Unix(s) < Unix(c) + RETURN_STATE_SECONDS
    ensures var raw := CreateReturnState(cfg, path, c);
            && raw.Success?
            && VerifyReturnState(cfg, raw.value, s).Success?
            && Gate(cfg, Solution(token, raw.value, clientIP), s) ==
               Success(Ticket(clientIP.Unmap(), s, raw.value, VerifyReturnState(cfg, raw.value, s).value.returnPath))
  {
    hide CreateReturnState, VerifyReturnState, TrimSpace;
    SignedIsNotBlank(cfg, path, c);
    ReturnStateRoundTrip(cfg, path, c, s);
  }

  /** The cookie decides a request that would be challenged without it. */
  lemma CookieDecides(cfg: Config, policy: Policy, req: HttpRequest, t: int)
    requires Decide(cfg, policy, req.(cookie := None), t).Challenge? && HasValidAllowCookie(cfg, req.cookie, t)
    ensures Decide(cfg, policy, req, t).ForwardByCookie?
  {
    hide VerifySignedValue, CookieFromJson;
  }

  /** When, in a run, a client is challenged, posts its solution, takes its token, has Cap's answer and comes back. */
  datatype Visit = Visit(challenge: nat, begin: nat, take: nat, reply: nat, back: nat)

  /**
   * The client's own steps: the request `first` is challenged at c with the state `raw`, which is
   * posted at s under a free number, and the request `again` brings the cookie at t. Nobody else
   * moves the post on, and there is a token for it when it asks.
   */
  ghost predicate IsVisit(cfg: Config, policy: Policy, steps: seq<Step>, v: Visit, id: nat, token: string,
                          clientIP: Addr,
                          first: HttpRequest, c: int, raw: string, s: int, again: HttpRequest, t: int) {
    && v.challenge < v.begin < v.take < v.reply < v.back < |steps|
    && steps[v.challenge] == Http(first, c) && Decide(cfg, policy, first, c).Challenge?
    && CreateReturnState(cfg, first.originalURI, c) == Success(raw)
    && steps[v.begin] == BeginVerify(id, Solution(token, raw, clientIP), s) && TrimSpace(token) != ""
    && id !in StateAt(cfg, policy, steps, v.begin).inFlight
    && steps[v.take] == TakeToken(id) && steps[v.reply] == CapReplies(id, CapAccepts)
    && (forall k :: v.begin < k < v.reply && k != v.take ==> !Moves(steps[k], id))
    && Attempt(StateAt(cfg, policy, steps, v.take).table, clientIP.Unmap(), s).verdict.Admitted?
    && steps[v.back] == Http(again, t) && Decide(cfg, policy, again.(cookie := None), t).Challenge?
    && AllowCookieValue(cfg, s).Success? && again.cookie == Some(AllowCookieValue(cfg, s).value)
  }

  /** Step k adds these events to the log. */
  ghost predicate Adds(cfg: Config, policy: Policy, steps: seq<Step>, k: nat, events: seq<Event>)
    requires k < |steps|
  {
    StateAt(cfg, policy, steps, k + 1).log == StateAt(cfg, policy, steps, k).log + events
  }

  /** The challenge is logged, and its state can be presented from then on. */
  lemma ChallengeServed(cfg: Config, policy: Policy, steps: seq<Step>, k: nat, first: HttpRequest, c: int,
                        raw: string, n: nat)
    requires k < n <= |steps| && steps[k] == Http(first, c) && Decide(cfg, policy, first, c).Challenge?
    requires CreateReturnState(cfg, first.originalURI, c) == Success(raw)
    ensures Adds(cfg, policy, steps, k, [Challenged(raw, first.originalURI, c)])
    ensures Unforged(cfg, StateAt(cfg, policy, steps, n).log, raw, cfg.returnStateMACKey)
  {
    hide Decide, CreateReturnState, StateAt, Unforged;
    RunStep(cfg, policy, steps, k);
    LogGrows(cfg, policy, steps, k + 1, n);
    var log, position := StateAt(cfg, policy, steps, n).log, |StateAt(cfg, policy, steps, k).log|;
    assert log[position] == Challenged(raw, first.originalURI, c);
    IssuedIsUnforged(cfg, log, position);
  }

  /** From the post to Cap's answer, in however many steps of others. */
  lemma SolutionRewarded(cfg: Config, policy: Policy, steps: seq<Step>, v: Visit, id: nat, verify: VerifyRequest,
                         s: int,
                         ticket: Ticket, cookie: string)
    requires v.begin < v.take < v.reply < |steps|
    requires steps[v.begin] == BeginVerify(id, verify, s) && Gate(cfg, verify, s) == Success(ticket)
    requires id !in StateAt(cfg, policy, steps, v.begin).inFlight
    requires steps[v.take] == TakeToken(id) && steps[v.reply] == CapReplies(id, CapAccepts)
    requires forall k :: v.begin < k < v.reply && k != v.take ==> !Moves(steps[k], id)
    requires Attempt(StateAt(cfg, policy, steps, v.take).table, ticket.client, ticket.time).verdict.Admitted?
    requires AllowCookieValue(cfg, ticket.time) == Success(cookie)
    ensures Adds(cfg, policy, steps, v.take, [Attempted(ticket, Admitted)])
    ensures Adds(cfg, policy, steps, v.reply, [CapAnswered(ticket, CapAccepts), CookieSet(ticket, cookie)])
  {
    hide Gate, StateAt, Attempt, AllowCookieValue, SafeReturnPathFrom;
    RunStep(cfg, policy, steps, v.begin);
    FlightKept(cfg, policy, steps, v.begin + 1, v.take, id);
    RunStep(cfg, policy, steps, v.take);
    FlightKept(cfg, policy, steps, v.take + 1, v.reply, id);
    RunStep(cfg, policy, steps, v.reply);
  }

  lemma CookiePresentable(cfg: Config, policy: Policy, steps: seq<Step>, k: nat, ticket: Ticket, cookie: string, n: nat)
    requires k < n <= |steps|
    requires Adds(cfg, policy, steps, k, [CapAnswered(ticket, CapAccepts), CookieSet(ticket, cookie)])
    ensures Unforged(cfg, StateAt(cfg, policy, steps, n).log, cookie, cfg.cookieMACKey)
  {
    hide StateAt, Unforged;
    LogGrows(cfg, policy, steps, k + 1, n);
    var log, position := StateAt(cfg, policy, steps, n).log, |StateAt(cfg, policy, steps, k).log| + 1;
    assert log[position] == CookieSet(ticket, cookie);
    IssuedIsUnforged(cfg, log, position);
  }

  /**
   * In every run whose other steps present no forgeries, a client challenged at c whose solution
   * arrives at s, by whole seconds within 15 minutes, with a token left when it asks and Cap's
   * consent, gets a cookie, and any request at t from the second of s until that of s + AllowFor
   * that would be challenged without the cookie is forwarded with it. Other requests may take
   * steps anywhere in between, and the run as a whole is one without forgeries.
   */
  lemma HonestClientIsForwarded(cfg: Config, policy: Policy, steps: seq<Step>, v: Visit, id: nat, token: string,
                                clientIP: Addr,
                                first: HttpRequest, c: int, raw: string, s: int, again: HttpRequest, t: int)
    requires KeysSeparated(cfg) && IsVisit(cfg, policy, steps, v, id, token, clientIP, first, c, raw, s, again, t)
    requires forall k :: 0 <= k < |steps| && k != v.begin && k != v.back ==>
               Authentic(cfg, StateAt(cfg, policy, steps, k).log, steps[k])
    requires Unix(s) < Unix(c) + RETURN_STATE_SECONDS && Unix(s) <= Unix(t) < Unix(s + cfg.allowFor)
    ensures AuthenticRun(cfg, policy, steps)
    ensures var gate, cookie := Gate(cfg, Solution(token, raw, clientIP), s), again.cookie.value;
            && gate.Success?
            && Adds(cfg, policy, steps, v.challenge, [Challenged(raw, first.originalURI, c)])
            && Adds(cfg, policy, steps, v.take, [Attempted(gate.value, Admitted)])
            && Adds(cfg, policy, steps, v.reply, [CapAnswered(gate.value, CapAccepts), CookieSet(gate.value, cookie)])
            && Adds(cfg, policy, steps, v.back, [Forwarded(cookie, t)])
  {
    hide Decide, CreateReturnState, VerifyReturnState, AllowCookieValue, HasValidAllowCookie, Attempt, TrimSpace, Gate,
         StateAfter, StateAt, AuthenticRun, Unforged, Next, Adds;
    var verify, cookie := Solution(token, raw, clientIP), again.cookie.value;
    ChallengeServed(cfg, policy, steps, v.challenge, first, c, raw, v.begin);
    SolutionPassesGate(cfg, first.originalURI, c, token, clientIP, s);
    var ticket := Gate(cfg, verify, s).value;
    SolutionRewarded(cfg, policy, steps, v, id, verify, s, ticket, cookie);
    CookiePresentable(cfg, policy, steps, v.reply, ticket, cookie, v.back);
    AllowCookieRoundTrip(cfg, s, t);
    CookieDecides(cfg, policy, again, t);
    ForwardedByCookie(cfg, policy, steps, v.back, again, t);
    AuthenticStepByStep(cfg, policy, steps, |steps|);
    assert steps[..|steps|] == steps;
  }

  lemma ForwardedByCookie(cfg: Config, policy: Policy, steps: seq<Step>, k: nat, again: HttpRequest, t: int)
    requires k < |steps| && steps[k] == Http(again, t) && again.cookie.Some?
             && Decide(cfg, policy, again, t).ForwardByCookie?
    ensures Adds(cfg, policy, steps, k, [Forwarded(again.cookie.value, t)])
  {
    hide Decide, StateAt;
    RunStep(cfg, policy, steps, k);
  }
}
