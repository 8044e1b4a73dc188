# Caddy Protector: a verified model

Caddy Protector is a Caddy middleware that serves a proof-of-work challenge to unknown clients and
forwards the ones that have passed it. This project models its four stateful parts and proves what
they promise over all inputs, all runs and all interleavings.

**The verification limiter** (`RateLimiter*.dfy`). A token bucket per client in one shared table of at
most 10000 entries: 15 tokens, one back every 3 seconds, entries swept after 45 seconds. `Attempt` is
one call as a function of the table; the class `VerifyRateLimiter` does it in place, loop and all, and
`RateLimiterExactly` says in plain numbers what it answers and leaves.
Instants are integer nanoseconds, differences saturate as `time.Time.Sub` does. The run theorems rest on
one potential, `Level`: whole tokens and elapsed phase on one scale. Waiting raises it by at most the
wait, an admission costs 3 seconds of it, and neither sweeping nor other clients move it. A run is the
list of attempts in the order they took the lock; because each handler reads its clock before that,
instants may go back. The theorems about one client are therefore stated for a client none of whose
attempts is overtaken by more than d (`OvertakenAtMost`), whatever order others come in; with d = 0 they
cover ordered runs. `RateLimiterSharpness` and `RateLimiterOrder` say exactly what order is needed for,
with the runs that show it.

**Challenge, verify, cookie** (`SafePath`, `ReturnPath`, `ReturnPathUtf8`, `Utf8`, `Utf8Runes`, `Base64Url`,
`Base64Bits`, `SignedValue`, `Tokens`, `TokensExactly`, `Handler`, `Protocol`, `ProtocolHonest`,
`ProtocolAccounting`). Base64url (RFC 4648, sections 3.2 and 5) with Go's lenient decoder, path cleaning
(as a rule and as the scan that implements it) and the UTF-8 repair that `encoding/json` performs are
concrete, and each is also said by what it does to bits, path elements and scalar values. The MAC, the key
derivation and the JSON syntax are function parameters under stated laws (`Lawful`). `Protocol` is a machine whose verify requests may
be suspended in front of the limiter and while Cap is asked; an unforgeable MAC is the hypothesis
`AuthenticRun`, that a presented text whose MAC matches carries a payload signed by the server under
that key. Base64 decoding accepts several texts for the same bytes, so provenance speaks of payload
parts, which the MAC does cover, and not of whole texts.

**IP lists** (`Text`, `Bits`, `Netip`, `PrefixBits`, `IpList`, `IpListLoad`, `IpListLookup`, `IpListEntries`).
Scanning, comments, masking, filing prefixes under their text, counting, and lookup, against the plain
reading of the lines (`Denotes`), in which a prefix stands for the addresses that share its leading bits
(`Shares`). Address parsing is a parameter under the laws `LawfulText`.

**Refresh, lookup and cleanup** (`Refresh`, `RefreshChannels`, `RefreshLists`, `CountryDb`). Two list loops, the country
loop, any number of country lookups and repeated calls of `Cleanup` as interleaved steps over the
read-write lock, the stop and done channels, and readers that must be closed once. The things that must not happen are recorded as faults
by the steps themselves and proved never to be recorded, and stated once more of the steps of a run
without that record (`EveryStepIsSafe`, `ChannelsClosedOnce`). A list load returns what `LoadIPList` is
specified to return for the configured sources of its own kind and for what could be read of them.

`LibraryLaws` builds a codec, a MAC and an address syntax that meet the laws above, so no theorem holds
for want of such functions.

Findings about the code:

- The window bound of 15 + ceil(W/3s) rests on handlers taking the lock in the order in which they read
  the clock (verification_handler.go:67 and 133). It holds for all runs going back by at most d if and only
  if d = 0 (`WindowBoundExactlyWhenOrdered`); below 45s a slightly larger bound holds
  (`TolerantWindowBound`), and from 45s on none (`SomeBoundExactlyBelowLifetime`).
- So do three more promises. The longest delay in runs going back by at most d is 3s + d, so an overtaken
  attempt can be told to wait more than 3 seconds (`LongestDelay`); a token refusal stands for 15
  admissions in the last 45s only in order (`RecentBurstExactlyWhenOrdered`), and a client is independent
  of the others only in order (`IsolationExactlyWhenOrdered`) and if it never meets the full table
  (`IsolatedExactlyWithoutFullTable`, with `CrowdedOut` for a run in which it does).
- A configured list entry with a line feed is read by Validate as one line and by the loader as several.
  The two agree if and only if what Validate reads holds no line feed and covers what the lines behind the
  first comment denote (`ReadingsAgreeExactly`); `EntryWithLineFeed` gives entries for which the loader
  lists an address Validate has not looked at. Validate can also accept an entry with a line feed in an
  address zone, which the loader then never lists (`LineFeedReadsZone`).
- The claim that a browser returns to exactly the cleaned path holds if and only if that path is valid
  UTF-8 (`ReturnTargetExactWhenValid`): the JSON encoder replaces other bytes by U+FFFD, and
  `InvalidQueryIsRepaired` gives an input. The check at verification.go:34 still never rejects a state the
  server made.
- `retryAfterSeconds` is the least covering number of seconds exactly for delays up to a second below the
  largest Duration; beyond that its sum wraps (`RetryAfterSecondsExact`). For a client overtaken by at most
  d the limiter only passes delays of at most 3s + d (`RefusedBucket`).
- The separation of the two keys is load-bearing: under one key every return state would pass as an
  allow cookie until it expires (`SharedKeyMixesKinds`).

## Model

| member | source | states |
|---|---|---|
| RateLimiter.VerifyRateLimiter.AllowVerifyAttempt | verification_handler.go:132-165 | sweeping, lookup, capacity, refill and consumption in place give exactly the table, verdict and delay of `Attempt`, whatever order the sweep visits entries in |
| RateLimiter.VerifyRateLimiter.ResetVerifyRateLimits | verification_handler.go:126-130 | a reset leaves a made, empty table |
| RateLimiter.RetryAfterSecondsExact | verification_handler.go:167-172 | the header is the least number of seconds, at least 1, that covers the delay if and only if the rounding sum fits 64 bits |
| RateLimiter.AttemptKeepsTable | verification_handler.go:136-164 | for instants in any order: at most 10000 entries, stored tokens 0 to 14, no survivor as old as 45s, and a refill credits 1 to 14 tokens, so its arithmetic cannot overflow |
| RateLimiter.LazyEqualsEager | verification_handler.go:153-157 | one lazy refill equals one saturating token per elapsed 3s tick, phase included |
| RateLimiter.RefillTwiceIsRefillOnce | verification_handler.go:153-157 | refilling at t1 and then at t2 equals refilling at t2 only |
| RateLimiter.EvictedBucketIsFull | verification_handler.go:139-143 | an entry old enough to be swept would have refilled to exactly 15 |
| RateLimiterExactly.VerdictExactly | verification_handler.go:139-164 | a new client is turned away if and only if 10000 buckets are younger than 45s; of the others an attempt is admitted if and only if a token is left, counting 15 for a new client and one back per 3s up to 15 |
| RateLimiterExactly.DelayExactly | verification_handler.go:146-160 | a refusal at the full table names exactly 3s, one for want of tokens the time to the next refill |
| RateLimiterExactly.KeysExactly | verification_handler.go:139-164 | what stays stored are the buckets younger than 45s, unchanged, and that of an admitted client |
| RateLimiterExactly.AdmittedExactly | verification_handler.go:145-164 | an admitted client is left one token less than it had, and its last refill moves on by whole periods of 3s |
| RateLimiterRuns.TableInvariant | verification_handler.go:136-164 | the table invariant after every attempt of every run, without any assumption on instants |
| RateLimiterRuns.LevelOverTime | verification_handler.go:139-157 | the level never rises by more than the wait, across saturation and eviction, and rises by exactly the wait up to a full bucket |
| RateLimiterRuns.LevelOverAttempt | verification_handler.go:139-164 | an attempt lowers the caller's level by 3s if admitted and otherwise changes no client's level: refusal without write-back and sweeps lose nothing |
| RateLimiterRuns.AdmissionsPaidFor | verification_handler.go:132-165 | conservation: 3s per admission since lo plus the present level stays below 48s plus the time since lo |
| RateLimiterRuns.WindowBound | verification_handler.go:132-165 | for instants in order: one client is admitted at most 15 + ceil(W/3s) times in any closed interval of width W, over any mix of clients, evictions and full tables |
| RateLimiterRuns.NoFalseExhaustion | verification_handler.go:153-160 | for a client overtaken by at most d: if refused for want of tokens at t, it had at least 15 admissions in (t-45s-d, t+d]; for instants in order, in (t-45s, t] |
| RateLimiterRuns.EntriesComeFromAdmissions | verification_handler.go:145-163 | for instants in any order: every stored bucket belongs to a client admitted no earlier than its last refill |
| RateLimiterRuns.NoFalseTableFull | verification_handler.go:146-149 | for instants in any order: a client turned away at the full table at t met 10000 other clients, each admitted after t-45s |
| RateLimiterClients.ClientIsolation | verification_handler.go:139-164 | for a client never overtaken, others in any order: an attempt in a shared run gets the verdict and delay it gets in the run of its client alone, unless the client meets the full table |
| RateLimiterClients.IsolatedExactlyWithoutFullTable | verification_handler.go:145-149 | for a client never overtaken: all its attempts get their solo verdicts if and only if none of them meets the full table |
| RateLimiterClients.RefusedBucket | verification_handler.go:158-160 | a refusal leaves an empty bucket due exactly after the delay, which is positive and at most 3s + d for a client overtaken by at most d |
| RateLimiterClients.RetryDelayExact | verification_handler.go:158-160 | for a client overtaken by at most d: after a refusal with some delay, 0 < delay <= 3s + d, attempts before t + delay are refused with what is left of it, and the first one from then on is admitted whatever others do, as long as no attempt comes as late as t + delay + 42s |
| RateLimiterClients.WaitingOutTheHeaderSuffices | verification_handler.go:81-83 | for a client overtaken by at most d: if it waits out its Retry-After header and returns within 41s - d of that, it is admitted; the header is at least 1 and at most 3s + d in seconds, rounded up |
| RateLimiterClients.NextAttemptAdmitted | verification_handler.go:145-164 | for a client overtaken by at most d: after an admission its next attempt 3s + d to 42s - d later is admitted |
| RateLimiterClients.SteadyClientAdmitted | verification_handler.go:139-164 | for a client overtaken by at most d: once admitted and returning at gaps of 3s + d to 42s - d, it is always admitted, full tables notwithstanding |
| RateLimiterSharpness.WindowBoundAttained | verification_handler.go:132-165 | for every width a run in order meets the window bound with equality |
| RateLimiterDisorder.TolerantWindowBound | verification_handler.go:67-81 | for a client overtaken by at most d < 45s, others in any order: at most 15 + ceil((W + d*floor((W + 3s - 1ns)/(45s - d)) + max(0, d - 3s))/3s) admissions in any closed interval of width W; for d = 0 the window bound |
| RateLimiterDisorder.PaidForStep | verification_handler.go:139-164 | what pays for admissions grows by d exactly when an attempt finds the client's own bucket stored and stale and sweeps it, and at no other step |
| RateLimiterSharpness.TolerantBoundAttained | verification_handler.go:132-143 | for every d below 6s and every number of sweeps a run going back by at most d meets the tolerant bound with equality; one sweep and 1ns give 30 admissions in 42s, one more than the bound for ordered instants |
| RateLimiterSharpness.WindowBoundExactlyWhenOrdered | verification_handler.go:132-165 | the window bound holds for all runs whose instants go back by at most d if and only if d is 0 |
| RateLimiterSharpness.SomeBoundExactlyBelowLifetime | verification_handler.go:139-143 | for windows of any width, even 0, some bound holds for all runs whose instants go back by at most d if and only if d < 45s |
| RateLimiterOrder.LongestDelay | verification_handler.go:158-160 | all delays in all runs going back by at most d are at most some length if and only if that is at least 3s + d |
| RateLimiterOrder.RecentBurstExactlyWhenOrdered | verification_handler.go:153-160 | in all runs going back by at most d a token refusal means 15 admissions in the last 45s if and only if d is 0 |
| RateLimiterOrder.IsolationExactlyWhenOrdered | verification_handler.go:139-164 | in all runs going back by at most d the clients that never meet the full table are isolated if and only if d is 0 |
| RateLimiterOrder.CrowdedOut | verification_handler.go:146-149 | after 10000 others at one instant a client is turned away that would be admitted alone |
| Handler.CaddyProtector.HandleVerify | verification_handler.go:18-117 | in place, each status (415, 400, 403, 429, 502, 500, 200) is answered if and only if its own condition on the request, the limiter and the reply holds; the cookie and target come with 200 only; a request with anything wrong leaves the limiter and the Cap count alone; otherwise Cap is asked once if admitted and not at all if not |
| Handler.HandleTable | verification_handler.go:18-117 | the same of the handler as a function: statuses, headers, the table left and whether Cap is asked as conditions free of order; a 429 names the least covering seconds of the delay, 3 at a full table |
| Handler.DecisionTable | handler.go:32-94 | the whole ServeHTTP decision, country rules included, as conditions on the fields of the request free of order: each outcome occurs if and only if its condition holds |
| ProtocolAccounting.RunIsAccounted | verification_handler.go:67-105 | in every interleaving, per client and window: admissions equal Cap calls answered plus under way and are those of the limiter alone, and cookies are at most the Cap calls answered |
| ProtocolAccounting.CapCallsBounded | verification_handler.go:81-105 | for a client overtaken by at most d < 45s, its Cap calls, answered and under way, obey the tolerant window bound, and its cookies number no more than the calls answered |
| ProtocolAccounting.UninterruptedSteps | verification_handler.go:33-117 | run without interruption, the steps of a request do exactly what handleVerify does, table, log and cookie |
| Base64Url.EncodingRoundTrip | verification.go:97-133 | unpadded base64url decodes back for every length and its alphabet has no '.', as in sections 3.2 and 5 of RFC 4648 |
| Base64Url.DecoderIsLenient | verification.go:119-129 | the decoder accepts several texts for the same bytes, so decoding is not injective |
| Base64Bits.EncodingRegroups | verification.go:102-107 | the digits written carry the bits of the bytes in order, six to a digit, and zeros to fill up the last |
| Base64Bits.EncodingExactly | verification.go:102-107 | n bytes are written as ceil(8n/6) letters, each that of its digit in the URL alphabet |
| Base64Bits.DecodingExactly | verification.go:119-129 | a text without line breaks decodes if and only if it holds nothing but letters of the alphabet and its length is not 1 modulo 4, and then to the whole bytes of its bits |
| Base64Bits.LineBreaksSkipped | verification.go:119-129 | carriage returns and line feeds are skipped wherever they stand |
| SignedValue.SignedValueRoundTrip | verification.go:97-134 | verifying a signed value under its key recovers the payload, for every payload |
| LibraryLaws.PrimitivesExist | verification.go:136-145 | there are a MAC, a key derivation separating the two contexts and a JSON codec that meet all laws assumed of them |
| LibraryLaws.AddrTextExists | refresh.go:300-312 | there is an address syntax that meets all laws assumed of it |
| SignedValue.AcceptedExactlyWhenMacCovers | verification.go:110-134 | a text is accepted with a payload if and only if it is a nonempty part without '.', a '.', and a text decoding to the MAC of exactly that part, and the part decodes to the payload |
| TokensExactly.StateReadExactly | caddyprotector.go:83-87 | an object reads as return state claims if and only if the last field of each name holds the claim, a missing one being 0 or empty, whatever else it holds |
| TokensExactly.CookieReadExactly | caddyprotector.go:89-93 | the same of the three claims of an allow cookie |
| TokensExactly.StateAcceptedExactly | verification.go:23-38 | a state is accepted with a path if and only if it verifies under the return state key, says version 1, expires after this second, and names a path that is not empty and not cleaned to "/" unless it is "/" |
| TokensExactly.CookieHonouredExactly | verification.go:81-95 | a cookie is honoured if and only if it verifies under the cookie key, says version 1, and was issued no later than this second and expires after it |
| Tokens.JsonRoundTrip | caddyprotector.go:83-93 | each kind of claims reads its own JSON back (texts repaired) and misreads the other kind with zero values |
| Tokens.ValidatedKeys | config.go:149-166 | Validate accepts exactly positive lifetimes (of the conditions modelled), derives the return state key and the cookie key each under its own context, and leaves them separated if and only if the derivation separates the two contexts |
| Tokens.ReturnStateRoundTrip | verification.go:15-38 | a state made at s is accepted at t if and only if floor(t) < floor(s) + 900 seconds, for every path; the only rejection is expiry; a second cleaning leaves the target alone |
| Tokens.ReturnTargetExactWhenValid | verification_handler.go:100 | the final returnTo equals the safe path if and only if that path is valid UTF-8 |
| Tokens.InvalidQueryIsRepaired | verification.go:98 | an accepted path whose stray byte comes back as U+FFFD |
| Tokens.AllowCookieRoundTrip | verification.go:40-95 | a cookie set at s is honoured at t exactly from the second of s until the second of s + AllowFor |
| Tokens.SharedKeyMixesKinds | verification.go:81-95 | were the keys equal, a return state would be honoured as a cookie exactly until its expiry, and a cookie would still be no return state |
| Protocol.AcceptedStateOrigin | verification.go:23-38 | an accepted return state carries the payload of a challenge served less than 15 minutes before, despite stamps in whole seconds, and the safe path of that challenge with its UTF-8 repaired |
| Protocol.AcceptedCookieOrigin | verification.go:81-95 | an accepted cookie carries the payload of one set less than AllowFor before |
| Protocol.RunKeepsInv | verification_handler.go:67-105 | every step keeps: all signed texts genuine, every request in flight and every cookie and forward backed by the earlier events it needs |
| Protocol.Provenance | handler.go:88-94 | a forward by cookie at t goes back to a cookie for a request handled at s with t < s + AllowFor, admitted by the limiter and then accepted by Cap, that presented a state served at c with s < c + 15min and was sent back to the repaired safe path of that challenge and nowhere else |
| ProtocolHonest.HonestClientIsForwarded | challenge.go:19-20 | completeness: a client challenged at c, solved at s within 15 minutes by whole seconds, with a token left when it asks and accepted by Cap, is set a cookie, and any request it would be challenged for is forwarded with it at every t from the second of s until that of s + AllowFor, with any steps of other requests anywhere in between; and the run is one without forgeries if the other steps are |
| Protocol.KindsNeverMix | verification.go:81-134 | in every run no text with a return state's payload passes as a cookie and none with a cookie's payload as a return state |
| Utf8.ToValidFixesValid | verification.go:98 | the repair inside the JSON encoder changes a text if and only if it is not valid UTF-8 |
| Utf8.ToValidIsValid | verification.go:98 | what the repair yields is valid UTF-8 |
| Utf8Runes.ValidExactlyWhenEncoding | verification.go:98 | a text is valid UTF-8 if and only if it is the encoding of some sequence of Unicode scalar values |
| Utf8Runes.RepairByRunes | verification.go:98 | the repair keeps every encoded scalar value and turns a byte at which none starts into U+FFFD on its own |
| SafePath.CleanScan | handler.go:110 | the single left-to-right scan with backtracking computes the segment-stack result of path.Clean |
| SafePath.CleanRules | handler.go:110 | the documented rules, anywhere in a rooted path: doubled slashes and "." go, ".." goes with the element in front of it, and alone at the root |
| ReturnPath.SafeReturnPath | handler.go:102-122 | the step-by-step function equals its specification, texts that do not start with exactly one '/' get "/", and the branch at lines 111-113 is dead |
| ReturnPath.ResolverAgrees | handler.go:102-122 | for every text: if it starts with '/' and its second byte is not '/', the answer is '/', the kept segments in front of the first '?', and the text from there on; for every other text it is "/" |
| ReturnPath.AnswerIsNormal | handler.go:102-122 | every answer starts with exactly one '/' and has no '.', '..' or empty interior segment |
| ReturnPath.AnswerKeeps | handler.go:107-121 | accepted texts keep their query to the byte, and end in '/' if and only if they did or all segments cancel |
| ReturnPath.FixedExactlyWhenNormal | handler.go:102-122 | the texts left unchanged are exactly those in normal form |
| ReturnPath.Idempotent | handler.go:102-122 | cleaning a cleaned path changes nothing |
| ReturnPathUtf8.SafePathCommutes | handler.go:102-122 | cleaning commutes with UTF-8 repair, for every byte text |
| ReturnPathUtf8.RepairedAnswerIsStable | verification.go:34 | a safe path repaired by JSON is nonempty and still a fixed point, so the return-path check passes it |
| Netip.MaskedKeepsMembers | refresh.go:305 | clearing host bits leaves the members of a prefix as they were |
| Netip.MaskedIsCanonical | refresh.go:271-275 | prefixes of one length share a masked form if and only if one contains the other's address |
| PrefixBits.ContainsSharedBits | refresh.go:196-199 | a prefix contains an address if and only if that has no zone, is of its family and shares the prefix's leading bits |
| PrefixBits.MaskedClearsHostBits | refresh.go:305 | masking keeps length, family and leading bits, and clears all other bits and the zone |
| PrefixBits.UnmapKeepsLowBits | verification_handler.go:81 | the limiter's key of an IPv4-mapped address is the IPv4 address of its last 32 bits, and of any other address itself |
| PrefixBits.UnmapIsInjective | verification_handler.go:81 | different IPv6 addresses of one zone keep different keys |
| Text.LinesMakeUpContent | refresh.go:260-264 | the scanned lines hold no line feed and, terminated, make up the source text, but for a missing final line feed |
| Text.SpacesExactly | refresh.go:290 | the characters trimmed are those with the Unicode property White_Space |
| Text.TrimSpaceExactly | refresh.go:290 | trimming takes all white space off both ends, and nothing else |
| Utf8Runes.TooLongExactly | refresh.go:260-284 | a line is too long for the scanner if and only if its UTF-8 encoding takes 64 KiB or more |
| IpList.ParseReadsContent | refresh.go:289-313 | the two comment checks and trims amount to reading the trimmed text before the first '#': skipped, bad, prefix or address exactly as that text says |
| IpList.ParsedDenotes | refresh.go:289-313 | a line denotes an address if and only if it parses to an entry that covers it, masking included |
| IpListLoad.AddEntry | refresh.go:271-281 | one entry added in place: the index holds exactly the old entries and the new one, counted once |
| IpListLoad.PrefixTextIsInjective | refresh.go:272-275 | filing prefixes under their text merges no two different prefixes |
| IpListLoad.ParseAllowlistLines | refresh.go:254-287 | without error the index gains exactly the entries of all lines; otherwise the error is that of the first too long or unparsable line |
| IpListLoad.NoErrorExactlyWhenGood | refresh.go:262-285 | a scan goes through if and only if every line is good |
| IpListLoad.FirstErrorIsFirst | refresh.go:262-286 | the error of a scan is that of its first line that is not good: too long, or unparsable and named by its number |
| IpListLoad.CollectPrefixes | refresh.go:241-244 | in any iteration order the list has each filed prefix exactly once |
| IpListLoad.LoadIPList | refresh.go:212-252 | a load returns an index of exactly the entries of all lines of all sources, or the first failure |
| IpListLoad.LoadSucceedsExactlyWhenAllGood | refresh.go:212-287 | a load succeeds if and only if both sources are readable and no line anywhere is bad |
| IpListLoad.LoadHasResult | refresh.go:212-252 | for whatever could be read of the sources, there is a result that a load may return |
| IpListLookup.IpListContains | refresh.go:192-202 | the lookup finds an address if and only if it is listed exactly or shares the leading bits of a listed prefix |
| IpListLookup.IndexAgreement | refresh.go:192-313 | for an index of some lines, an address is listed (exactly, or by the leading bits of a listed prefix) if and only if one of the lines denotes it |
| IpListLookup.LoadedListAnswers | refresh.go:192-313 | on a loaded list, an address is listed if and only if a line of a configured entry, of the file or of the URL text denotes it, for every configuration |
| IpListEntries.EntryWithLineFeed | refresh.go:30-34 | an entry of an address, a comment, a line feed and another address: Validate reads the first only, the loader lists both |
| IpListEntries.EntryReading | refresh.go:218 | if what Validate reads in an entry holds no line feed, the loader lists exactly that and what the lines behind the entry's first comment denote |
| IpListEntries.LineFeedReadsZone | refresh.go:289-312 | if what Validate accepts in an entry holds a line feed, it is an address that no line of the entry denotes |
| IpListEntries.ReadingsAgreeExactly | refresh.go:30-34 | for every entry Validate accepts, the loader lists exactly what Validate reads if and only if that holds no line feed and covers whatever the lines behind the first comment denote |
| IpListEntries.OneLineReadingsAgree | refresh.go:30-34 | in particular, on every entry that is one line |
| IpListEntries.SpaceSaysNothing | refresh.go:289-299 | white space in front of a line or behind it does not change what it denotes |
| IpListLookup.EntriesAccountFor | refresh.go:271-281 | the entry count is the number of distinct exact addresses plus distinct masked prefixes |
| IpListLookup.OrderAndRepetitionIrrelevant | refresh.go:212-240 | order and repetition of lines do not change the entries |
| IpListLookup.SameEntriesSameIndex | refresh.go:241-251 | two indexes of the same entries agree up to the order of prefixes |
| Refresh.StepInv | refresh.go:369-448 | every step of every loop, lookup and cleanup keeps the readers conserved, the lock and channel disciplines, and all snapshots genuine |
| Refresh.SetKeepsReaders | refresh.go:415-424 | swapping a country reader in or out hands on its ownership, and only a reader nobody else has is closed |
| CountryDb.CountrySlot.SetCountryDB | refresh.go:415-424 | in place: the new reader is current, the old one closed once more and no other; what is current is open if and only if it was handed in open and new |
| CountryDb.UninterruptedSet | refresh.go:415-424 | the interleaved steps of a call, run without interruption, have the effect of that method and free the lock |
| Refresh.NothingGoesWrong | refresh.go:154-179 | in no interleaving is a closed reader read, a reader or channel closed twice, or anything stored after a Cleanup has returned, and no reader's close count passes 1 |
| RefreshChannels.EveryStepIsSafe | refresh.go:154-179 | the same of every step of a run, without the record of faults: a lookup reads an open reader, only readers never closed are closed, and after a Cleanup has returned nothing is stored |
| RefreshChannels.ChannelsClosedOnce | lifecycle.go:36-54 | no two steps of a run close the same stop channel or the same done channel, however often Cleanup is called |
| Refresh.CleanupClosesEverything | lifecycle.go:36-58 | once a Cleanup has returned every reader ever loaded is closed exactly once, none is current and no loop runs |
| Refresh.NothingChangesAfterCleanup | lifecycle.go:36-58 | after that no step changes the published lists or the country reader |
| RefreshLists.OnlyStoresPublish | refresh.go:376-386 | only a store replaces a list, and a load whose sources are unreadable or have a bad line changes nothing but its loop's progress |
| RefreshLists.PublishedComesFromLoad | refresh.go:369-391 | at every point of every run, the list of a kind is the one of Provision or what the last store stored, which is what the last load of the same kind before it returned |
| RefreshLists.PublishedListAnswers | config.go:57-88 | and the allowlist lists an address if and only if an entry of the whitelist configuration, or a line of the text that load had read from the whitelist's own file or URL, denotes it; the blacklist likewise from its own |
| RefreshLists.InlineStaysListed | refresh.go:204-220 | what the entries of whitelist_ip denote stays on the allowlist through every run, and what those of blacklist_ip denote on the blacklist, whatever is refreshed |
| Refresh.CleanupNeverStuck | lifecycle.go:36-58 | while a Cleanup is under way some step towards its end is always possible: no deadlock on lock or channels |
| Refresh.FinishingStepsRunOut | lifecycle.go:36-58 | every such step lowers a rank, even if a tick has won against the closed stop channel |
| Refresh.CleanupCanReturn | lifecycle.go:36-58 | from every state under the invariant, at most rank-many such steps bring a Cleanup to its return |

## Left out

- RateLimiterRuns.WindowBound: asks for instants in order; `TolerantWindowBound` covers clients overtaken by less than 45s, and beyond that no bound holds. A run lies between two resets, which in the code only Provision and `Cleanup` perform.
- RateLimiterClients.RetryDelayExact: for clients overtaken by at most some 292 years, beyond which a Duration saturates.
- RateLimiterClients.ClientIsolation: excludes clients that are overtaken or meet the full table, exactly when it fails.
- Protocol.Provenance: speaks of payload parts, because several MAC texts decode to the same MAC; unforgeability itself is the hypothesis `AuthenticRun`.
- Tokens.ValidatedKeys: of Validate's conditions only the one on allow_for is modelled; the others are single tests of one field.
- Refresh: its loops and Cleanup are steps of a machine on values and not methods of a class, because a method runs uninterrupted and the claims are about interruption (`CountryDb` has setCountryDB in both forms); writer preference of the read-write lock is not modelled, which only adds interleavings.
- Refresh also starts from the state Provision leaves; a Provision that fails half way is not modelled, nor a country database whose reader is nil, which only a test hook can make.
- Panics in loops and handlers, and a process that stops.
- HTTP transport, body reading and size limits, DNS, dialing, TLS and the redirect policy; Cap's reply, a request's parsed body, its address, rule match, country and list membership are inputs.
- Cookie attributes other than the value, the same-site mode, challenge page, Content-Security-Policy, nonces, logging and redaction.
- The inside of BLAKE3, constant-time comparison and key derivation; only lengths, and for the protocol theorems distinct keys, are used.
- JSON syntax, field names matched without regard to case, null, and numbers beyond 64 bits; claims are unbounded integers.
- The textual syntax of IP addresses and prefixes (a parameter under `LawfulText`, which asks that a line feed occur in a parsed address only as part of its zone), and list texts that are not valid UTF-8.
- path.Clean for paths without a leading slash, which never reach it here; path.Clean, bufio.Scanner and strings.TrimSpace are library code, modelled by their documented behaviour.
- The clock: one integer stands for both the wall clock and the monotonic reading of a time.Time.
- The cleaning in getOriginalPath before createReturnState cleans again, which changes nothing by `Idempotent`.
- Caddyfile parsing, request-rule matching, country-code normalisation and the contents of country databases.
