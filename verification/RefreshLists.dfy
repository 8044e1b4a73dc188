/** What is published through a run of refreshes: where each list comes from, and what it answers. */
module RefreshLists {
  import opened Wrappers
  import opened Netip
  import opened IpList
  import opened IpListLoad
  import opened IpListLookup
  import opened Text
  import opened Refresh

  /**
   * Only a store that follows a successful load replaces a list; a load that must fail leaves
   * everything but its loop alone.
   */
  lemma OnlyStoresPublish(env: Env, st: State, step: Step)
    requires Enabled(env, st, step)
    ensures Do(env, st, step).published != st.published ==>
              step.Store? && Do(env, st,
                step).published == st.published[step.kind := st.Pc(ListLoop(step.kind)).snapshot]
    ensures step.ListLoadReturns? ==>
              var config := env.ConfigOf(step.kind);
              LoadFailure(env.net, NameOf(step.kind), config.inline, FileInput(config, step.reading),
                UrlInput(config, step.reading)).Some? ==>
                Do(env, st, step) == st.(pcs := st.pcs[ListLoop(step.kind) := Selecting])
  {
    hide Indexes, LoadFailure, LawfulText, DoSet, DoCleanup;
    match step
    case SetStep(setter) => SetFrame(st, setter); SetEffect(st, setter);
    case CleanupStep => CleanupEffect(env, st, step);
    case _ =>
  }

  ghost predicate StoringOf(st: State, kind: ListKind, s: Snapshot) {
    st.Pc(ListLoop(kind)) == Storing(s)
  }

  ghost predicate IsLoadOf(step: Step, kind: ListKind) {
    step.ListLoadReturns? && step.kind == kind
  }

  /** A loop gets to storing by a load of its own only, and stays there until it stores. */
  lemma StoringStep(env: Env, st: State, step: Step, kind: ListKind, s: Snapshot)
    requires Enabled(env, st, step) && StoringOf(Do(env, st, step), kind, s)
    ensures if IsLoadOf(step, kind) then step == ListLoadReturns(kind, s.reading, Success(s.list))
            else StoringOf(st, kind, s)
  {
    hide LoadYields, DoSet, DoCleanup;
    match step
    case SetStep(setter) => SetFrame(st, setter);
    case CleanupStart => CleanupEffect(env, st, step);
    case CleanupStep => CleanupEffect(env, st, step);
    case _ =>
  }

  /** The last load of the kind that returned before step n is step j, and it returned this. */
  ghost predicate LastLoad(steps: seq<Step>, j: nat, n: nat, kind: ListKind, s: Snapshot)
    requires n <= |steps|
  {
    && j < n && steps[j] == ListLoadReturns(kind, s.reading, Success(s.list))
    && forall i :: j < i < n ==> !IsLoadOf(steps[i], kind)
  }

  lemma {:induction false} StoringComesFromLoad(env: Env, states: seq<State>, steps: seq<Step>, n: nat,
                                                kind: ListKind, s: Snapshot)
    returns (j: nat)
    requires IsRun(env, states, steps) && n < |states| && StoringOf(states[n], kind, s)
    ensures LastLoad(steps, j, n, kind, s)
  {
    hide Enabled, Do;
    if n == 0 {
      InitIsNotStoring(env, states[0], kind, s);
      assert false;
    } else {
      StoringStep(env, states[n - 1], steps[n - 1], kind, s);
      if IsLoadOf(steps[n - 1], kind) {
        return n - 1;
      }
      j := StoringComesFromLoad(env, states, steps, n - 1, kind, s);
    }
  }

  lemma InitIsNotStoring(env: Env, st: State, kind: ListKind, s: Snapshot)
    requires Init(env, st)
    ensures !StoringOf(st, kind, s)
  {
  }

  /** Where a published list comes from: from Provision, or from a load that returned and was then stored. */
  datatype Origin = FromProvision | FromLoad(returned: nat, stored: nat)

  ghost predicate NoStore(steps: seq<Step>, from: nat, n: nat, kind: ListKind)
    requires n <= |steps|
  {
    forall i :: from <= i < n ==> steps[i] != Store(kind)
  }

  ghost predicate PublishedFrom(states: seq<State>, steps: seq<Step>, n: nat, kind: ListKind, s: Snapshot,
                                origin: Origin)
    requires |states| == |steps| + 1 && n < |states|
  {
    match origin
    case FromProvision => NoStore(steps, 0, n, kind) && kind in states[0].published && states[0].published[kind] == s
    case FromLoad(j, k) =>
      k < n && steps[k] == Store(kind) && NoStore(steps, k + 1, n, kind) && LastLoad(steps, j, k, kind, s)
  }

  /** Every list is published from the start, and what is there at any time is what the last store before it stored. */
  lemma {:induction false} PublishedComesFromLoad(env: Env, states: seq<State>, steps: seq<Step>, n: nat,
                                                  kind: ListKind)
    returns (origin: Origin)
    requires IsRun(env, states, steps) && n < |states|
    ensures kind in states[n].published
    ensures PublishedFrom(states, steps, n, kind, states[n].published[kind], origin)
  {
    hide Do, LastLoad, LoadYields;
    RunInv(env, states, steps, n);
    if n == 0 {
      return FromProvision;
    }
    var st, step := states[n - 1], steps[n - 1];
    OnlyStoresPublish(env, st, step);
    if step == Store(kind) {
      var s := st.Pc(ListLoop(kind)).snapshot;
      StorePublishes(env, st, kind);
      var j := StoringComesFromLoad(env, states, steps, n - 1, kind, s);
      return FromLoad(j, n - 1);
    }
    origin := PublishedComesFromLoad(env, states, steps, n - 1, kind);
  }

  lemma StorePublishes(env: Env, st: State, kind: ListKind)
    requires Enabled(env, st, Store(kind))
    ensures Do(env, st, Store(kind)).published == st.published[kind := st.Pc(ListLoop(kind)).snapshot]
    ensures StoringOf(st, kind, st.Pc(ListLoop(kind)).snapshot)
  {
  }

  /** An entry of this configuration, or a line of the text read from its file or URL, denotes the address. */
  ghost predicate SourcesDenote(net: AddrText, config: ListConfig, reading: Reading, addr: Addr)
    requires LawfulText(net)
  {
    || (exists entry :: entry in config.inline && EntryDenotes(net, entry, addr))
    || (config.filePath != "" && reading.file.Some? && SomeLineDenotes(net, RawLines(reading.file.value), addr))
    || (config.rawURL != "" && reading.url.Some? && SomeLineDenotes(net, RawLines(reading.url.value), addr))
  }

  lemma SourcesWrittenOut(net: AddrText, config: ListConfig, reading: Reading, addr: Addr)
    requires LawfulText(net)
    ensures SourcesDenote(net, config, reading, addr) <==>
            || InlineDenotes(net, config.inline, addr)
            || InputDenotes(net, FileInput(config, reading), addr)
            || InputDenotes(net, UrlInput(config, reading), addr)
  {
    hide LawfulText, EntryDenotes, SomeLineDenotes;
  }

  /** The names of the sources, for the log. */
  ghost function SourceNames(name: string, config: ListConfig): seq<string> {
    [name + ":inline"]
    + (if config.filePath != "" then [name + ":file:" + config.filePath] else [])
    + (if config.rawURL != "" then [name + ":url:" + config.rawURL] else [])
  }

  lemma KindAnswers(env: Env, states: seq<State>, steps: seq<Step>, n: nat, kind: ListKind, addr: Addr)
    returns (origin: Origin)
    requires LawfulText(env.net) && IsRun(env, states, steps) && n < |states|
    ensures kind in states[n].published && ValidList(states[n].published[kind].list)
    ensures PublishedFrom(states, steps, n, kind, states[n].published[kind], origin)
    ensures var s := states[n].published[kind];
            && (Listed(s.list, addr) <==> SourcesDenote(env.net, env.ConfigOf(kind), s.reading, addr))
            && s.list.sources == SourceNames(NameOf(kind), env.ConfigOf(kind))
  {
    hide IsRun, PublishedFrom, Listed, Indexes, LoadFailure, EntriesOf, LawfulText, AllLines, InlineDenotes,
         InputDenotes, SourcesDenote;
    RunInv(env, states, steps, n);
    origin := PublishedComesFromLoad(env, states, steps, n, kind);
    var s, config := states[n].published[kind], env.ConfigOf(kind);
    assert GenuineSnapshot(env, kind, s);
    SourcesWrittenOut(env.net, config, s.reading, addr);
    LoadedListAnswers(env.net, config.inline, FileInput(config, s.reading), UrlInput(config, s.reading), s.list, addr);
  }

  /**
   * At every point of every run, each list is the one of Provision or of the last store so far,
   * which stored what the list's own last load before it had returned; and the allowlist lists an
   * address exactly when an entry of the whitelist's configuration, or a line of the text which
   * that load had read from the whitelist's file or URL, denotes it; the blacklist likewise.
   */
  lemma PublishedListAnswers(env: Env, states: seq<State>, steps: seq<Step>, n: nat, addr: Addr)
    returns (allowOrigin: Origin, blackOrigin: Origin)
    requires LawfulText(env.net) && IsRun(env, states, steps) && n < |states|
    ensures Allowlist in states[n].published && Blacklist in states[n].published
    ensures var allow, black := states[n].published[Allowlist], states[n].published[Blacklist];
            && ValidList(allow.list) && ValidList(black.list)
            && PublishedFrom(states, steps, n, Allowlist, allow, allowOrigin)
            && PublishedFrom(states, steps, n, Blacklist, black, blackOrigin)
            && (Listed(allow.list, addr) <==> SourcesDenote(env.net, env.allowlist, allow.reading, addr))
            && (Listed(black.list, addr) <==> SourcesDenote(env.net, env.blacklist, black.reading, addr))
            && allow.list.sources == SourceNames("whitelist", env.allowlist)
            && black.list.sources == SourceNames("blacklist", env.blacklist)
  {
    hide IsRun, PublishedFrom, Listed, LawfulText, SourcesDenote;
    allowOrigin := KindAnswers(env, states, steps, n, Allowlist, addr);
    blackOrigin := KindAnswers(env, states, steps, n, Blacklist, addr);
  }

  /** What the configured entries of a list denote is on it throughout every run, whatever is refreshed. */
  lemma InlineStaysListed(env: Env, states: seq<State>, steps: seq<Step>, n: nat, addr: Addr)
    requires LawfulText(env.net) && IsRun(env, states, steps) && n < |states|
    ensures Allowlist in states[n].published && Blacklist in states[n].published
    ensures var allow, black := states[n].published[Allowlist].list, states[n].published[Blacklist].list;
            && ValidList(allow) && ValidList(black)
            && ((exists entry :: entry in env.allowlist.inline && EntryDenotes(env.net, entry, addr)) ==>
                  Listed(allow, addr))
            && ((exists entry :: entry in env.blacklist.inline && EntryDenotes(env.net, entry, addr)) ==>
                  Listed(black, addr))
  {
    hide IsRun, Listed, LawfulText, PublishedFrom, EntryDenotes, SomeLineDenotes;
    var _, _ := PublishedListAnswers(env, states, steps, n, addr);
  }
}
