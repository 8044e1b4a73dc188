/**
 * Challenge, verify and cookie over whole runs. Requests interleave: a verify request may be
 * suspended in front of the limiter and while Cap is asked. The log records what happened.
 */
module Protocol {
  import opened GoTime
  import opened Bytes
  import opened Wrappers
  import opened Base64Url
  import opened Utf8
  import opened ReturnPath
  import opened ReturnPathUtf8
  import opened SignedValue
  import opened Tokens
  import opened RateLimiter
  import opened Handler

  datatype Event =
    | Challenged(raw: string, path: Bytes, time: int)
    | Attempted(ticket: Ticket, verdict: Verdict)
    | CapAnswered(ticket: Ticket, reply: CapReply)
    | CookieSet(ticket: Ticket, raw: string)
    | Forwarded(raw: string, time: int)

  /** A verify request in flight: past its gates, or past the limiter and waiting for Cap. */
  datatype InFlight = AtLimiter(ticket: Ticket) | AtCap(ticket: Ticket)

  datatype State = State(table: Table, inFlight: map<nat, InFlight>, log: seq<Event>)

  const INITIAL: State := State(map[], map[], [])

  datatype Step =
    | Http(req: HttpRequest, now: int)
    | BeginVerify(id: nat, verify: VerifyRequest, now: int)
    | TakeToken(id: nat)
    | CapReplies(id: nat, reply: CapReply)

  /** One uninterrupted piece of a handler; a step of no request in flight does nothing. */
  function Next(cfg: Config, policy: Policy, st: State, step: Step): State {
    match step
    case Http(req, now) => (
      match Decide(cfg, policy, req, now)
      case ForwardByCookie => st.(log := st.log + [Forwarded(req.cookie.value, now)])
      case Challenge => (
        match CreateReturnState(cfg, req.originalURI, now)
        case Failure(_) => st
        case Success(raw) => st.(log := st.log + [Challenged(raw, req.originalURI, now)]))
      case _ => st)
    case BeginVerify(id, verify, now) => (
      match Gate(cfg, verify, now)
      case Success(ticket) => if id in st.inFlight then st else st.(inFlight := st.inFlight[id := AtLimiter(ticket)])
      case Failure(_) => st)
    case TakeToken(id) =>
      if id !in st.inFlight || !st.inFlight[id].AtLimiter? then st
      else
        var ticket := st.inFlight[id].ticket;
        var out := Attempt(st.table, ticket.client, ticket.time);
        State(out.table,
              if out.verdict.Admitted? then st.inFlight[id := AtCap(ticket)] else st.inFlight - {id},
              st.log + [Attempted(ticket, out.verdict)])
    case CapReplies(id, reply) =>
      if id !in st.inFlight || !st.inFlight[id].AtCap? then st
      else
        var ticket := st.inFlight[id].ticket;
        var cookie := AfterCap(cfg, ticket, reply).cookie;
        State(st.table, st.inFlight - {id},
              st.log + [CapAnswered(ticket, reply)] + if cookie.Some? then [CookieSet(ticket, cookie.value)] else [])
  }

  // ---------------------------------------------------------------------------------
  // Runs, and what an unforgeable MAC excludes from them
  // ---------------------------------------------------------------------------------

  /** The server itself has put a MAC under this key on this payload part. */
  ghost predicate Signed(cfg: Config, log: seq<Event>, key: Bytes, payloadPart: string) {
    exists k :: 0 <= k < |log| && SignedBy(cfg, log[k], key, payloadPart)
  }

  ghost predicate SignedBy(cfg: Config, e: Event, key: Bytes, payloadPart: string) {
    || (e.Challenged? && key == cfg.returnStateMACKey && PayloadPart(e.raw) == payloadPart)
    || (e.CookieSet? && key == cfg.cookieMACKey && PayloadPart(e.raw) == payloadPart)
  }

  /** A text whose MAC matches under a key was signed under it. */
  ghost predicate Unforged(cfg: Config, log: seq<Event>, raw: string, key: Bytes) {
    MacMatches(cfg.pr, raw, key) ==> Signed(cfg, log, key, PayloadPart(raw))
  }

  /** The texts a step presents to the server are not forgeries. */
  ghost predicate Authentic(cfg: Config, log: seq<Event>, step: Step) {
    match step
    case Http(req, _) => req.cookie.Some? ==> Unforged(cfg, log, req.cookie.value, cfg.cookieMACKey)
    case BeginVerify(_, verify, _) =>
      verify.body.Some? ==> Unforged(cfg, log, verify.body.value.state, cfg.returnStateMACKey)
    case _ => true
  }

  function StateAfter(cfg: Config, policy: Policy, steps: seq<Step>): State {
    if steps == [] then INITIAL
    else Next(cfg, policy, StateAfter(cfg, policy, steps[..|steps| - 1]), steps[|steps| - 1])
  }

  ghost predicate AuthenticRun(cfg: Config, policy: Policy, steps: seq<Step>) {
    steps == [] ||
    (var before := steps[..|steps| - 1];
     AuthenticRun(cfg, policy, before) && Authentic(cfg, StateAfter(cfg, policy, before).log, steps[|steps| - 1]))
  }

  // ---------------------------------------------------------------------------------
  // Where an accepted text comes from
  // ---------------------------------------------------------------------------------

  /** Every signed text in the log is what the server computes for its claims. */
  ghost predicate GenuineTexts(cfg: Config, log: seq<Event>) {
    forall k :: 0 <= k < |log| ==> Genuine(cfg, log[k])
  }

  ghost predicate Genuine(cfg: Config, e: Event) {
    && (e.Challenged? ==> CreateReturnState(cfg, e.path, e.time) == Success(e.raw))
    && (e.CookieSet? ==> AllowCookieValue(cfg, e.ticket.time) == Success(e.raw))
  }

  function PayloadOf(cfg: Config, json: Json): string {
    EncodeToString(cfg.pr.encodeJson(json))
  }

  function StateJsonOf(e: Event): Json
    requires e.Challenged?
  {
    StateJson(ReturnStateClaims(TOKEN_VERSION, SafeReturnPathFrom(e.path), Unix(e.time + RETURN_STATE_VALID_FOR)))
  }

  function CookieJsonOf(cfg: Config, e: Event): Json
    requires e.CookieSet?
  {
    CookieJson(AllowCookieClaims(TOKEN_VERSION, Unix(e.ticket.time), Unix(e.ticket.time + cfg.allowFor)))
  }

  /** The payload parts of genuine texts. */
  lemma GenuinePayloads(cfg: Config, e: Event)
    requires Usable(cfg) && Genuine(cfg, e)
    ensures e.Challenged? ==> ValidJson(StateJsonOf(e)) && PayloadPart(e.raw) == PayloadOf(cfg, StateJsonOf(e))
    ensures e.CookieSet? ==>
              ValidJson(CookieJsonOf(cfg, e)) && PayloadPart(e.raw) == PayloadOf(cfg, CookieJsonOf(cfg, e))
  {
    hide StateJson, CookieJson, SignValue, EncodeToString;
    if e.Challenged? {
      JsonRoundTrip(ReturnStateClaims(TOKEN_VERSION, SafeReturnPathFrom(e.path), Unix(e.time + RETURN_STATE_VALID_FOR)),
                    AllowCookieClaims(0, 0, 0));
      SignedParts(cfg.pr, StateJsonOf(e), cfg.returnStateMACKey);
    } else if e.CookieSet? {
      JsonRoundTrip(ReturnStateClaims(0, [], 0),
                    AllowCookieClaims(TOKEN_VERSION, Unix(e.ticket.time), Unix(e.ticket.time + cfg.allowFor)));
      SignedParts(cfg.pr, CookieJsonOf(cfg, e), cfg.cookieMACKey);
    }
  }

  /** Verification hands over the object whose encoding the payload part is, under a matching MAC. */
  lemma VerifiedPayload(cfg: Config, raw: string, key: Bytes, json: Json)
    requires Usable(cfg) && VerifySignedValue(cfg.pr, raw, key).Success?
    ensures MacMatches(cfg.pr, raw, key)
    ensures ValidJson(json) && PayloadPart(raw) == PayloadOf(cfg, json) ==>
              VerifySignedValue(cfg.pr, raw, key) == Success(json)
  {
    hide EncodeToString, DecodeString, IndexOf;
    EncodingRoundTrip(cfg.pr.encodeJson(json));
  }

  /** A return state served at log position k that carries the payload of this text, with this path. */
  ghost predicate ChallengeFor(log: seq<Event>, k: int, raw: string, path: Bytes, t: int) {
    && 0 <= k < |log| && log[k].Challenged?
    && PayloadPart(log[k].raw) == PayloadPart(raw)
    && path == ToValid(SafeReturnPathFrom(log[k].path))
    && t < log[k].time + RETURN_STATE_VALID_FOR
  }

  ghost predicate CookieFor(cfg: Config, log: seq<Event>, k: int, raw: string, t: int) {
    && 0 <= k < |log| && log[k].CookieSet?
    && PayloadPart(log[k].raw) == PayloadPart(raw)
    && t < log[k].ticket.time + cfg.allowFor
    && Unix(log[k].ticket.time) <= Unix(t)
  }

  /**
   * An accepted return state carries the payload and the safe path of a challenge served less than 15
   * minutes before.
   */
  lemma AcceptedStateOrigin(cfg: Config, log: seq<Event>, raw: string, t: int) returns (k: int)
    requires KeysSeparated(cfg) && GenuineTexts(cfg, log) && Unforged(cfg, log, raw, cfg.returnStateMACKey)
    requires VerifyReturnState(cfg, raw, t).Success?
    ensures ChallengeFor(log, k, raw, VerifyReturnState(cfg, raw, t).value.returnPath, t)
  {
    hide VerifySignedValue, MacMatches, EncodeToString, StateJson, StateFromJson, SafeReturnPathFrom;
    VerifiedPayload(cfg, raw, cfg.returnStateMACKey, []);
    k :| 0 <= k < |log| && SignedBy(cfg, log[k], cfg.returnStateMACKey, PayloadPart(raw));
    GenuinePayloads(cfg, log[k]);
    VerifiedPayload(cfg, raw, cfg.returnStateMACKey, StateJsonOf(log[k]));
    JsonRoundTrip(ReturnStateClaims(TOKEN_VERSION, SafeReturnPathFrom(log[k].path),
      Unix(log[k].time + RETURN_STATE_VALID_FOR)),
                  AllowCookieClaims(0, 0, 0));
    StampBeforeInstant(log[k].time + RETURN_STATE_VALID_FOR, t);
  }

  /** An accepted cookie carries the payload of one set less than AllowFor before. */
  lemma AcceptedCookieOrigin(cfg: Config, log: seq<Event>, raw: string, t: int) returns (k: int)
    requires KeysSeparated(cfg) && GenuineTexts(cfg, log) && Unforged(cfg, log, raw, cfg.cookieMACKey)
    requires HasValidAllowCookie(cfg, Some(raw), t)
    ensures CookieFor(cfg, log, k, raw, t)
  {
    hide VerifySignedValue, MacMatches, EncodeToString, CookieJson, CookieFromJson;
    VerifiedPayload(cfg, raw, cfg.cookieMACKey, []);
    k :| 0 <= k < |log| && SignedBy(cfg, log[k], cfg.cookieMACKey, PayloadPart(raw));
    GenuinePayloads(cfg, log[k]);
    VerifiedPayload(cfg, raw, cfg.cookieMACKey, CookieJsonOf(cfg, log[k]));
    JsonRoundTrip(ReturnStateClaims(0, [], 0),
                  AllowCookieClaims(TOKEN_VERSION, Unix(log[k].ticket.time), Unix(log[k].ticket.time + cfg.allowFor)));
    StampBeforeInstant(log[k].ticket.time + cfg.allowFor, t);
  }

  // ---------------------------------------------------------------------------------
  // Provenance
  // ---------------------------------------------------------------------------------

  /** Challenge, admission and Cap's consent behind a cookie, in this order. */
  ghost predicate Chain(log: seq<Event>, ch: int, ad: int, ca: int, co: int) {
    && 0 <= ch < ad < ca < co < |log|
    && log[co].CookieSet?
    && (var ticket := log[co].ticket;
        && ChallengeFor(log, ch, ticket.state, ticket.returnPath, ticket.time)
        && log[ad] == Attempted(ticket, Admitted)
        && log[ca] == CapAnswered(ticket, CapAccepts))
  }

  ghost predicate AdmittedAfter(log: seq<Event>, ch: int, ad: int, ticket: Ticket) {
    0 <= ch < ad < |log| && ChallengeFor(log, ch, ticket.state, ticket.returnPath, ticket.time)
      && log[ad] == Attempted(ticket, Admitted)
  }

  ghost predicate Backed(log: seq<Event>, f: InFlight) {
    match f
    case AtLimiter(ticket) => exists ch :: ChallengeFor(log, ch, ticket.state, ticket.returnPath, ticket.time)
    case AtCap(ticket) => exists ch, ad :: AdmittedAfter(log, ch, ad, ticket)
  }

  ghost predicate EventBacked(cfg: Config, log: seq<Event>, k: int)
    requires 0 <= k < |log|
  {
    && (log[k].CookieSet? ==> exists ch, ad, ca :: Chain(log, ch, ad, ca, k))
    && (log[k].Forwarded? ==> exists co :: co < k && CookieFor(cfg, log, co, log[k].raw, log[k].time))
  }

  ghost predicate Inv(cfg: Config, st: State) {
    && GenuineTexts(cfg, st.log)
    && (forall id :: id in st.inFlight ==> Backed(st.log, st.inFlight[id]))
    && (forall k :: 0 <= k < |st.log| ==> EventBacked(cfg, st.log, k))
  }

  /** What has been backed stays backed as the log grows. */
  lemma BackedGrows(cfg: Config, log: seq<Event>, more: seq<Event>)
    ensures forall f :: Backed(log, f) ==> Backed(log + more, f)
    ensures forall k :: 0 <= k < |log| && EventBacked(cfg, log, k) ==> EventBacked(cfg, log + more, k)
  {
    var longer := log + more;
    forall f | Backed(log, f)
      ensures Backed(longer, f)
    {
      match f
      case AtLimiter(ticket) =>
        var ch :| ChallengeFor(log, ch, ticket.state, ticket.returnPath, ticket.time);
        assert ChallengeFor(longer, ch, ticket.state, ticket.returnPath, ticket.time);
      case AtCap(ticket) =>
        var ch, ad :| AdmittedAfter(log, ch, ad, ticket);
        assert AdmittedAfter(longer, ch, ad, ticket);
    }
    forall k | 0 <= k < |log| && EventBacked(cfg, log, k)
      ensures EventBacked(cfg, longer, k)
    {
      assert longer[k] == log[k];
      if log[k].CookieSet? {
        var ch, ad, ca :| Chain(log, ch, ad, ca, k);
        assert Chain(longer, ch, ad, ca, k);
      } else if log[k].Forwarded? {
        var co :| co < k && CookieFor(cfg, log, co, log[k].raw, log[k].time);
        assert CookieFor(cfg, longer, co, longer[k].raw, longer[k].time);
      }
    }
  }

  lemma ForwardedIsBacked(cfg: Config, log: seq<Event>, k: nat, co: nat)
    requires co < k < |log| && log[k].Forwarded? && CookieFor(cfg, log, co, log[k].raw, log[k].time)
    ensures EventBacked(cfg, log, k)
  {
  }

  lemma CookieIsBacked(cfg: Config, log: seq<Event>, ch: nat, ad: nat, ca: nat, k: nat)
    requires Chain(log, ch, ad, ca, k)
    ensures EventBacked(cfg, log, k)
  {
  }

  lemma OthersAreBacked(cfg: Config, log: seq<Event>, k: nat)
    requires k < |log| && !log[k].Forwarded? && !log[k].CookieSet?
    ensures EventBacked(cfg, log, k)
  {
  }

  lemma InvHttp(cfg: Config, policy: Policy, st: State, req: HttpRequest, now: int)
    requires KeysSeparated(cfg) && Inv(cfg, st) && Authentic(cfg, st.log, Http(req, now))
    ensures Inv(cfg, Next(cfg, policy, st, Http(req, now)))
  {
    hide CreateReturnState, AllowCookieValue, VerifySignedValue, CookieFromJson, Unforged, Backed, EventBacked;
    var after := Next(cfg, policy, st, Http(req, now));
    var n := |st.log|;
    if |after.log| > n {
      assert after.log == st.log + [after.log[n]];
      BackedGrows(cfg, st.log, [after.log[n]]);
      if Decide(cfg, policy, req, now).ForwardByCookie? {
        var co := AcceptedCookieOrigin(cfg, st.log, req.cookie.value, now);
        ForwardedIsBacked(cfg, after.log, n, co);
      } else {
        OthersAreBacked(cfg, after.log, n);
      }
    }
  }

  lemma LimiterIsBacked(log: seq<Event>, ch: int, ticket: Ticket)
    requires ChallengeFor(log, ch, ticket.state, ticket.returnPath, ticket.time)
    ensures Backed(log, AtLimiter(ticket))
  {
  }

  lemma InvBegin(cfg: Config, policy: Policy, st: State, id: nat, verify: VerifyRequest, now: int)
    requires KeysSeparated(cfg) && Inv(cfg, st) && Authentic(cfg, st.log, BeginVerify(id, verify, now))
    ensures Inv(cfg, Next(cfg, policy, st, BeginVerify(id, verify, now)))
  {
    hide VerifyReturnState, Unforged, EventBacked, GenuineTexts, KeysSeparated;
    if Gate(cfg, verify, now).Success? {
      var ch := AcceptedStateOrigin(cfg, st.log, verify.body.value.state, now);
      var ticket := Gate(cfg, verify, now).value;
      hide Gate, ChallengeFor;
      LimiterIsBacked(st.log, ch, ticket);
    }
  }

  /** Growing the log by genuine, backed events keeps the invariant, for requests still backed. */
  lemma InvGrows(cfg: Config, st: State, after: State, more: seq<Event>)
    requires Inv(cfg, st) && after.log == st.log + more
    requires forall e :: e in more ==> Genuine(cfg, e)
    requires forall id :: id in after.inFlight ==>
               (id in st.inFlight && after.inFlight[id] == st.inFlight[id]) || Backed(after.log, after.inFlight[id])
    requires forall k :: |st.log| <= k < |after.log| ==> EventBacked(cfg, after.log, k)
    ensures Inv(cfg, after)
  {
    hide EventBacked, Genuine, Backed;
    BackedGrows(cfg, st.log, more);
  }

  lemma AdmittedIsBacked(log: seq<Event>, ch: int, ad: int, ticket: Ticket)
    requires AdmittedAfter(log, ch, ad, ticket)
    ensures Backed(log, AtCap(ticket))
  {
  }

  lemma ChallengeGrows(log: seq<Event>, more: seq<Event>, ch: int, raw: string, path: Bytes, t: int)
    requires ChallengeFor(log, ch, raw, path, t)
    ensures ChallengeFor(log + more, ch, raw, path, t)
  {
  }

  /** Steps of requests that are not where the step needs them do nothing. */
  lemma NoSuchRequest(cfg: Config, policy: Policy, st: State, id: nat, reply: CapReply)
    ensures !(id in st.inFlight && st.inFlight[id].AtLimiter?) ==> Next(cfg, policy, st, TakeToken(id)) == st
    ensures !(id in st.inFlight && st.inFlight[id].AtCap?) ==> Next(cfg, policy, st, CapReplies(id, reply)) == st
  {
  }

  lemma InvTake(cfg: Config, policy: Policy, st: State, id: nat)
    requires Inv(cfg, st)
    ensures Inv(cfg, Next(cfg, policy, st, TakeToken(id)))
  {
    hide Next, EventBacked, GenuineTexts, ChallengeFor;
    NoSuchRequest(cfg, policy, st, id, CapFails);
    if id in st.inFlight && st.inFlight[id].AtLimiter? {
      var ticket := st.inFlight[id].ticket;
      var ch :| ChallengeFor(st.log, ch, ticket.state, ticket.returnPath, ticket.time);
      TakeBacked(cfg, policy, st, id, ch);
    }
  }

  lemma TakeBacked(cfg: Config, policy: Policy, st: State, id: nat, ch: int)
    requires Inv(cfg, st) && id in st.inFlight && st.inFlight[id].AtLimiter?
    requires ChallengeFor(st.log, ch, st.inFlight[id].ticket.state, st.inFlight[id].ticket.returnPath,
             st.inFlight[id].ticket.time)
    ensures Inv(cfg, Next(cfg, policy, st, TakeToken(id)))
  {
    hide Inv, EventBacked, Backed, Attempt;
    var ticket, after := st.inFlight[id].ticket, Next(cfg, policy, st, TakeToken(id));
    var n := |st.log|;
    ChallengeGrows(st.log, [after.log[n]], ch, ticket.state, ticket.returnPath, ticket.time);
    OthersAreBacked(cfg, after.log, n);
    if after.log[n].verdict.Admitted? {
      AdmittedIsBacked(after.log, ch, n, ticket);
    }
    InvGrows(cfg, st, after, [after.log[n]]);
  }

  lemma CookieIsGenuine(cfg: Config, ticket: Ticket, reply: CapReply)
    ensures var cookie := AfterCap(cfg, ticket, reply).cookie;
            cookie.Some? ==> reply == CapAccepts && Genuine(cfg, CookieSet(ticket, cookie.value))
    ensures Genuine(cfg, CapAnswered(ticket, reply))
  {
  }

  lemma InvCap(cfg: Config, policy: Policy, st: State, id: nat, reply: CapReply)
    requires Inv(cfg, st)
    ensures Inv(cfg, Next(cfg, policy, st, CapReplies(id, reply)))
  {
    hide Next, EventBacked, GenuineTexts, AdmittedAfter;
    NoSuchRequest(cfg, policy, st, id, reply);
    if id in st.inFlight && st.inFlight[id].AtCap? {
      var ticket := st.inFlight[id].ticket;
      var ch, ad :| AdmittedAfter(st.log, ch, ad, ticket);
      CapBacked(cfg, policy, st, id, reply, ch, ad);
    }
  }

  lemma CapBacked(cfg: Config, policy: Policy, st: State, id: nat, reply: CapReply, ch: int, ad: int)
    requires Inv(cfg, st) && id in st.inFlight && st.inFlight[id].AtCap?
    requires AdmittedAfter(st.log, ch, ad, st.inFlight[id].ticket)
    ensures Inv(cfg, Next(cfg, policy, st, CapReplies(id, reply)))
  {
    hide Inv, EventBacked, Backed, AfterCap, Genuine;
    var ticket, after := st.inFlight[id].ticket, Next(cfg, policy, st, CapReplies(id, reply));
    var n := |st.log|;
    var more := after.log[n..];
    assert after.log == st.log + more;
    CookieIsGenuine(cfg, ticket, reply);
    OthersAreBacked(cfg, after.log, n);
    if |more| == 2 {
      ChallengeGrows(st.log, more, ch, ticket.state, ticket.returnPath, ticket.time);
      assert Chain(after.log, ch, ad, n, n + 1);
      CookieIsBacked(cfg, after.log, ch, ad, n, n + 1);
    }
    InvGrows(cfg, st, after, more);
  }

  lemma {:induction false} RunKeepsInv(cfg: Config, policy: Policy, steps: seq<Step>)
    requires KeysSeparated(cfg) && AuthenticRun(cfg, policy, steps)
    ensures Inv(cfg, StateAfter(cfg, policy, steps))
  {
    hide Inv, Next, KeysSeparated, Authentic;
    if steps == [] {
      InitialInv(cfg);
    } else {
      var before := steps[..|steps| - 1];
      RunKeepsInv(cfg, policy, before);
      var st := StateAfter(cfg, policy, before);
      match steps[|steps| - 1]
      case Http(req, now) => InvHttp(cfg, policy, st, req, now);
      case BeginVerify(id, verify, now) => InvBegin(cfg, policy, st, id, verify, now);
      case TakeToken(id) => InvTake(cfg, policy, st, id);
      case CapReplies(id, reply) => InvCap(cfg, policy, st, id, reply);
    }
  }

  lemma InitialInv(cfg: Config)
    ensures Inv(cfg, INITIAL)
  {
  }

  lemma CookieInLogIsGenuine(cfg: Config, log: seq<Event>, co: nat)
    requires co < |log| && GenuineTexts(cfg, log) && log[co].CookieSet?
    ensures Genuine(cfg, CookieSet(log[co].ticket, log[co].raw))
  {
  }

  /** A request that was set a cookie is sent to the safe path of the challenge behind its state. */
  lemma SentToChallenged(cfg: Config, ticket: Ticket, raw: string, path: Bytes)
    requires Genuine(cfg, CookieSet(ticket, raw)) && ticket.returnPath == ToValid(SafeReturnPathFrom(path))
    ensures AfterCap(cfg, ticket, CapAccepts).returnTo == Some(ToValid(SafeReturnPathFrom(path)))
  {
    hide ToValid, SafeReturnPathFrom, AllowCookieValue;
    RepairedAnswerIsStable(path);
  }

  /**
   * Provenance. In every run without forged MACs, a request forwarded for its cookie at t
   * carries the payload of a cookie set for a verify request handled at s with t < s + AllowFor;
   * that request was admitted by the limiter, then accepted by Cap, and had presented the
   * payload of a return state served by a challenge at c with s < c + 15 minutes, whose safe
   * path, with its UTF-8 repaired, is the only place that request could be sent back to.
   */
  lemma Provenance(cfg: Config, policy: Policy, steps: seq<Step>, k: nat)
    returns (ch: int, ad: int, ca: int, co: int)
    requires KeysSeparated(cfg) && AuthenticRun(cfg, policy, steps)
    requires var log := StateAfter(cfg, policy, steps).log; k < |log| && log[k].Forwarded?
    ensures var log := StateAfter(cfg, policy, steps).log;
            && 0 <= ch < ad < ca < co < k
            && log[co].CookieSet?
            && var ticket := log[co].ticket;
               && PayloadPart(log[co].raw) == PayloadPart(log[k].raw)
               && log[k].time < ticket.time + cfg.allowFor && Unix(ticket.time) <= Unix(log[k].time)
               && log[ca] == CapAnswered(ticket, CapAccepts)
               && log[ad] == Attempted(ticket, Admitted)
               && log[ch].Challenged? && PayloadPart(log[ch].raw) == PayloadPart(ticket.state)
               && ticket.time < log[ch].time + RETURN_STATE_VALID_FOR
               && AfterCap(cfg, ticket, CapAccepts).returnTo == Some(ToValid(SafeReturnPathFrom(log[ch].path)))
  {
    hide AuthenticRun, StateAfter, GenuineTexts, Genuine, KeysSeparated, PayloadPart, ToValid, SafeReturnPathFrom,
      AfterCap;
    RunKeepsInv(cfg, policy, steps);
    var log := StateAfter(cfg, policy, steps).log;
    assert EventBacked(cfg, log, k);
    co :| co < k && CookieFor(cfg, log, co, log[k].raw, log[k].time);
    assert EventBacked(cfg, log, co);
    ch, ad, ca :| Chain(log, ch, ad, ca, co);
    CookieInLogIsGenuine(cfg, log, co);
    SentToChallenged(cfg, log[co].ticket, log[co].raw, log[ch].path);
  }

  /**
   * Token kinds never mix: in every run without forged MACs, a text with the payload of an
   * issued return state is never honoured as a cookie, and one with the payload of a cookie
   * never accepted as a return state.
   */
  lemma KindsNeverMix(cfg: Config, policy: Policy, steps: seq<Step>, k: nat, raw: string, t: int)
    requires KeysSeparated(cfg) && AuthenticRun(cfg, policy, steps)
    requires var log := StateAfter(cfg, policy, steps).log;
             && k < |log|
             && Unforged(cfg, log, raw, cfg.cookieMACKey) && Unforged(cfg, log, raw, cfg.returnStateMACKey)
    ensures var e := StateAfter(cfg, policy, steps).log[k];
            && (e.Challenged? && PayloadPart(e.raw) == PayloadPart(raw) ==> !HasValidAllowCookie(cfg, Some(raw), t))
            && (e.CookieSet? && PayloadPart(e.raw) == PayloadPart(raw) ==> VerifyReturnState(cfg, raw, t).Failure?)
  {
    hide AuthenticRun, StateAfter, HasValidAllowCookie, VerifyReturnState, Unforged, PayloadPart;
    RunKeepsInv(cfg, policy, steps);
    var log := StateAfter(cfg, policy, steps).log;
    if log[k].Challenged? && PayloadPart(log[k].raw) == PayloadPart(raw) && HasValidAllowCookie(cfg, Some(raw), t) {
      var co := AcceptedCookieOrigin(cfg, log, raw, t);
      PayloadsDiffer(cfg, log[k], log[co]);
      assert false;
    }
    if log[k].CookieSet? && PayloadPart(log[k].raw) == PayloadPart(raw) && VerifyReturnState(cfg, raw, t).Success? {
      var ch := AcceptedStateOrigin(cfg, log, raw, t);
      PayloadsDiffer(cfg, log[ch], log[k]);
      assert false;
    }
  }

  lemma PayloadsDiffer(cfg: Config, challenge: Event, cookie: Event)
    requires Usable(cfg) && Genuine(cfg, challenge) && Genuine(cfg, cookie)
    requires challenge.Challenged? && cookie.CookieSet?
    ensures PayloadPart(challenge.raw) != PayloadPart(cookie.raw)
  {
    hide StateJson, CookieJson, EncodeToString, SignValue;
    GenuinePayloads(cfg, challenge);
    GenuinePayloads(cfg, cookie);
    EncodingRoundTrip(cfg.pr.encodeJson(StateJsonOf(challenge)));
    EncodingRoundTrip(cfg.pr.encodeJson(CookieJsonOf(cfg, cookie)));
    JsonRoundTrip(ReturnStateClaims(TOKEN_VERSION, SafeReturnPathFrom(challenge.path),
      Unix(challenge.time + RETURN_STATE_VALID_FOR)),
                  AllowCookieClaims(TOKEN_VERSION, Unix(cookie.ticket.time), Unix(cookie.ticket.time + cfg.allowFor)));
  }
}
