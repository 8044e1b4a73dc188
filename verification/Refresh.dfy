/**
 * Background refresh, country lookups and Cleanup as one machine of interleaved steps over
 * a read-write lock, stop and done channels, and country readers that must be closed.
 */
module Refresh {
  import opened Wrappers
  import opened IpList
  import opened IpListLoad

  datatype ListKind = Allowlist | Blacklist

  datatype LoopId = ListLoop(kind: ListKind) | CountryLoop

  /** The configured sources of a list; an empty path or URL is none. */
  datatype ListConfig = ListConfig(inline: seq<string>, filePath: string, rawURL: string)

  /** What reading the file and fetching the URL yielded, where that worked. */
  datatype Reading = Reading(file: Option<string>, url: Option<string>)

  function FileInput(config: ListConfig, reading: Reading): Option<Input> {
    if config.filePath == "" then None else Some(Input(config.filePath, reading.file))
  }

  function UrlInput(config: ListConfig, reading: Reading): Option<Input> {
    if config.rawURL == "" then None else Some(Input(config.rawURL, reading.url))
  }

  /** The configuration of both lists, and the address syntax. */
  datatype Env = Env(net: AddrText, allowlist: ListConfig, blacklist: ListConfig) {
    function ConfigOf(kind: ListKind): ListConfig {
      match kind
      case Allowlist => allowlist
      case Blacklist => blacklist
    }
  }

  /** The name under which loadAllowlist and loadBlacklist load. */
  function NameOf(kind: ListKind): string {
    match kind
    case Allowlist => "whitelist"
    case Blacklist => "blacklist"
  }

  /** An index together with what the load that returned it had read. */
  datatype Snapshot = Snapshot(list: IpAllowlist, reading: Reading)

  /** A country database reader, by the order of loading. */
  type Reader = nat

  /** Progress of one setCountryDB call. */
  datatype SetPc =
    | WantLock(next: Option<Reader>)
    | Swapping(next: Option<Reader>)
    | Unlocking(prev: Option<Reader>)
    | Closing(prev: Option<Reader>)

  datatype LoopPc =
    | NotStarted
    | Selecting
    | Loading
    | Storing(snapshot: Snapshot)
    | Setting(call: SetPc)
    | Exiting
    | Exited

  /** Progress of Cleanup; the number counts the loops already dealt with. */
  datatype CleanerPc = Idle | AtStop(n: nat) | AwaitDone(n: nat) | Clearing(n: nat) | SettingNil(call: SetPc)

  datatype Setter = ByLoop | ByCleaner

  /** What must never happen. */
  datatype Fault = ReadAfterClose | ReaderClosedTwice | ChannelClosedTwice | StoreAfterCleanup

  datatype State = State(
    pcs: map<LoopId, LoopPc>,
    stopFields: set<LoopId>,
    stopClosed: set<LoopId>,
    doneClosed: set<LoopId>,
    published: map<ListKind, Snapshot>,
    country: Option<Reader>,
    writer: Option<Setter>,
    lookups: map<nat, Option<Reader>>,
    loaded: set<Reader>,
    closes: map<Reader, nat>,
    cleaner: CleanerPc,
    cleaned: bool,
    faults: set<Fault>) {

    function Pc(loop: LoopId): LoopPc {
      if loop in pcs then pcs[loop] else NotStarted
    }

    function Closes(r: Reader): nat {
      if r in closes then closes[r] else 0
    }

    function SetPcOf(setter: Setter): Option<SetPc> {
      match setter
      case ByLoop => if Pc(CountryLoop).Setting? then Some(Pc(CountryLoop).call) else None
      case ByCleaner => if cleaner.SettingNil? then Some(cleaner.call) else None
    }

    function WithSetPc(setter: Setter, pc: SetPc): State {
      match setter
      case ByLoop => this.(pcs := pcs[CountryLoop := Setting(pc)])
      case ByCleaner => this.(cleaner := SettingNil(pc))
    }

    /** The call returns: the loop selects again, Cleanup is over. */
    function SetReturns(setter: Setter): State {
      match setter
      case ByLoop => this.(pcs := pcs[CountryLoop := Selecting])
      case ByCleaner => this.(cleaner := Idle, cleaned := true)
    }
  }

  /** The order in which Cleanup stops the loops. */
  function LoopAt(n: nat): LoopId
    requires n < 3
  {
    if n == 0 then ListLoop(Allowlist) else if n == 1 then ListLoop(Blacklist) else CountryLoop
  }

  datatype Step =
    | Tick(loop: LoopId)
    | SeeStop(loop: LoopId)
    | ListLoadReturns(kind: ListKind, reading: Reading, result: Result<IpAllowlist, LoadError>)
    | Store(kind: ListKind)
    | CountryLoadFails
    | CountryLoaded(reader: Reader)
    | SetStep(setter: Setter)
    | Exit(loop: LoopId)
    | Acquire(lookup: nat)
    | Read(lookup: nat)
    | Release(lookup: nat)
    | CleanupStart
    | CleanupStep

  /** The load of this kind's own configured sources, on what it read of them, returns this. */
  ghost predicate LoadYields(env: Env, kind: ListKind, reading: Reading, result: Result<IpAllowlist, LoadError>) {
    var config := env.ConfigOf(kind);
    && LawfulText(env.net)
    && IsLoadResult(env.net, NameOf(kind), config.inline, FileInput(config, reading), UrlInput(config, reading), result)
  }

  ghost predicate GenuineSnapshot(env: Env, kind: ListKind, s: Snapshot) {
    LoadYields(env, kind, s.reading, Success(s.list))
  }

  /** A closed stop channel does not keep a tick from being taken. */
  ghost predicate Enabled(env: Env, st: State, step: Step) {
    match step
    case Tick(loop) => st.Pc(loop).Selecting?
    case SeeStop(loop) => st.Pc(loop).Selecting? && loop in st.stopClosed
    case ListLoadReturns(kind, reading, result) =>
      st.Pc(ListLoop(kind)).Loading? && LoadYields(env, kind, reading, result)
    case Store(kind) => st.Pc(ListLoop(kind)).Storing?
    case CountryLoadFails => st.Pc(CountryLoop).Loading?
    case CountryLoaded(reader) => st.Pc(CountryLoop).Loading? && reader !in st.loaded
    case SetStep(setter) =>
      var pc := st.SetPcOf(setter);
      pc.Some? && (pc.value.WantLock? ==> st.writer.None? && st.lookups == map[])
    case Exit(loop) => st.Pc(loop).Exiting?
    case Acquire(lookup) => lookup !in st.lookups && st.writer.None?
    case Read(lookup) => lookup in st.lookups && st.lookups[lookup].Some?
    case Release(lookup) => lookup in st.lookups
    case CleanupStart => st.cleaner.Idle?
    case CleanupStep =>
      match st.cleaner
      case AtStop(n) => n <= 3
      case AwaitDone(n) => n < 3 && LoopAt(n) in st.doneClosed
      case Clearing(n) => n < 3
      case _ => false
  }

  function FaultIf(st: State, condition: bool, fault: Fault): State {
    if condition then st.(faults := st.faults + {fault}) else st
  }

  function DoSet(st: State, setter: Setter): State
    requires st.SetPcOf(setter).Some?
  {
    match st.SetPcOf(setter).value
    case WantLock(next) => st.WithSetPc(setter, Swapping(next)).(writer := Some(setter))
    case Swapping(next) =>
      FaultIf(st.WithSetPc(setter, Unlocking(st.country)).(country := next),
              setter.ByLoop? && st.cleaned, StoreAfterCleanup)
    case Unlocking(prev) => st.WithSetPc(setter, Closing(prev)).(writer := None)
    case Closing(None) => st.SetReturns(setter)
    case Closing(Some(r)) =>
      FaultIf(st.SetReturns(setter).(closes := st.closes[r := st.Closes(r) + 1]), st.Closes(r) > 0, ReaderClosedTwice)
  }

  function DoCleanup(st: State): State {
    match st.cleaner
    case AtStop(n) =>
      if n >= 3 then st.(cleaner := SettingNil(WantLock(None)))
      else if LoopAt(n) !in st.stopFields then st.(cleaner := AtStop(n + 1))
      else
        FaultIf(st.(stopClosed := st.stopClosed + {LoopAt(n)}, cleaner := AwaitDone(n)),
                LoopAt(n) in st.stopClosed, ChannelClosedTwice)
    case AwaitDone(n) => st.(cleaner := Clearing(n))
    case Clearing(n) => if n < 3 then st.(stopFields := st.stopFields - {LoopAt(n)}, cleaner := AtStop(n + 1)) else st
    case _ => st
  }

  ghost function Do(env: Env, st: State, step: Step): State
    requires Enabled(env, st, step)
  {
    match step
    case Tick(loop) => st.(pcs := st.pcs[loop := Loading])
    case SeeStop(loop) => st.(pcs := st.pcs[loop := Exiting])
    case ListLoadReturns(kind, reading, result) =>
      var pc := if result.Success? then Storing(Snapshot(result.value, reading)) else Selecting;
      st.(pcs := st.pcs[ListLoop(kind) := pc])
    case Store(kind) =>
      FaultIf(st.(pcs := st.pcs[ListLoop(kind) := Selecting],
                  published := st.published[kind := st.Pc(ListLoop(kind)).snapshot]),
              st.cleaned, StoreAfterCleanup)
    case CountryLoadFails => st.(pcs := st.pcs[CountryLoop := Selecting])
    case CountryLoaded(reader) =>
      st.(pcs := st.pcs[CountryLoop := Setting(WantLock(Some(reader)))], loaded := st.loaded + {reader})
    case SetStep(setter) => DoSet(st, setter)
    case Exit(loop) =>
      FaultIf(st.(pcs := st.pcs[loop := Exited], doneClosed := st.doneClosed + {loop}),
              loop in st.doneClosed, ChannelClosedTwice)
    case Acquire(lookup) => st.(lookups := st.lookups[lookup := st.country])
    case Read(lookup) => FaultIf(st, st.Closes(st.lookups[lookup].value) > 0, ReadAfterClose)
    case Release(lookup) => st.(lookups := st.lookups - {lookup})
    case CleanupStart => st.(cleaner := AtStop(0))
    case CleanupStep => DoCleanup(st)
  }

  /** As Provision leaves it: some loops running, initial snapshots stored, perhaps a country reader. */
  ghost predicate Init(env: Env, st: State) {
    && (forall loop :: st.Pc(loop) == if loop in st.stopFields then Selecting else NotStarted)
    && st.stopClosed == {} && st.doneClosed == {}
    && (forall kind :: kind in st.published && GenuineSnapshot(env, kind, st.published[kind]))
    && st.writer.None? && st.lookups == map[] && st.closes == map[]
    && st.loaded == (if st.country.Some? then {st.country.value} else {})
    && st.cleaner.Idle? && !st.cleaned && st.faults == {}
  }

  // ---------------------------------------------------------------------------------
  // The invariant
  // ---------------------------------------------------------------------------------

  function One(condition: bool): nat {
    if condition then 1 else 0
  }

  /** A reader on its way into or out of the field by this call. */
  function Carries(pc: Option<SetPc>, r: Reader): bool {
    pc.Some? &&
    match pc.value
    case WantLock(next) => next == Some(r)
    case Swapping(next) => next == Some(r)
    case Unlocking(prev) => prev == Some(r)
    case Closing(prev) => prev == Some(r)
  }

  /** Who is responsible for the reader: the field, a setCountryDB call, or nobody any more. */
  function Tally(st: State, r: Reader): nat {
    One(st.country == Some(r)) + One(Carries(st.SetPcOf(ByLoop), r))
    + One(Carries(st.SetPcOf(ByCleaner), r)) + st.Closes(r)
  }

  /** Readers are conserved: each one loaded has exactly one owner or has been closed exactly once. */
  ghost predicate ReadersConserved(st: State) {
    forall r: Reader :: Tally(st, r) == One(r in st.loaded)
  }

  ghost predicate HoldsLock(st: State, setter: Setter) {
    var pc := st.SetPcOf(setter);
    pc.Some? && (pc.value.Swapping? || pc.value.Unlocking?)
  }

  ghost predicate LockDiscipline(st: State) {
    && (HoldsLock(st, ByLoop) <==> st.writer == Some(ByLoop))
    && (HoldsLock(st, ByCleaner) <==> st.writer == Some(ByCleaner))
    && (st.writer.Some? ==> st.lookups == map[])
    && (forall l :: l in st.lookups ==> st.lookups[l] == st.country)
  }

  /** How many loops Cleanup has finished with. */
  function Dealt(c: CleanerPc): nat {
    match c
    case Idle => 0
    case AtStop(n) => n
    case AwaitDone(n) => n
    case Clearing(n) => n
    case SettingNil(_) => 3
  }

  ghost predicate ChannelDiscipline(st: State) {
    && Dealt(st.cleaner) <= 3
    && (st.cleaner.AwaitDone? || st.cleaner.Clearing? ==>
          Dealt(st.cleaner) < 3 && LoopAt(Dealt(st.cleaner)) in st.stopFields
            && LoopAt(Dealt(st.cleaner)) in st.stopClosed)
    && (st.cleaner.Clearing? ==> LoopAt(st.cleaner.n) in st.doneClosed)
    && (forall n: nat :: n < Dealt(st.cleaner) ==> LoopAt(n) !in st.stopFields)
    && (forall loop :: loop in st.stopFields && loop in st.stopClosed ==>
          (st.cleaner.AwaitDone? || st.cleaner.Clearing?) && loop == LoopAt(st.cleaner.n))
  }

  ghost predicate LoopDiscipline(st: State) {
    && (forall loop :: loop in st.doneClosed <==> st.Pc(loop).Exited?)
    && (forall loop :: loop !in st.stopFields ==> st.Pc(loop).NotStarted? || st.Pc(loop).Exited?)
    && (forall loop :: loop in st.stopFields ==> !st.Pc(loop).NotStarted?)
    && (forall loop :: st.Pc(loop).Exiting? || st.Pc(loop).Exited? ==> loop in st.stopClosed)
    && (forall kind :: !st.Pc(ListLoop(kind)).Setting?)
    && !st.Pc(CountryLoop).Storing?
    && (st.cleaner.SettingNil? && (st.cleaner.call.WantLock? || st.cleaner.call.Swapping?) ==>
      st.cleaner.call.next.None?)
    && (st.cleaner.SettingNil? && (st.cleaner.call.Unlocking? || st.cleaner.call.Closing?) ==> st.country.None?)
    && (st.cleaned ==> st.stopFields == {} && st.country.None?)
    && (st.cleaned && st.cleaner.SettingNil? && (st.cleaner.call.Unlocking? || st.cleaner.call.Closing?) ==>
          st.cleaner.call.prev.None?)
  }

  ghost predicate SnapshotsGenuine(env: Env, st: State) {
    && (forall kind :: kind in st.published && GenuineSnapshot(env, kind, st.published[kind]))
    && (forall kind :: st.Pc(ListLoop(kind)).Storing? ==> GenuineSnapshot(env, kind, st.Pc(ListLoop(kind)).snapshot))
  }

  ghost predicate Inv(env: Env, st: State) {
    && ReadersConserved(st) && LockDiscipline(st) && ChannelDiscipline(st) && LoopDiscipline(st)
    && SnapshotsGenuine(env, st)
    && st.faults == {}
  }

  lemma InvIsLawful(env: Env, st: State)
    requires Inv(env, st)
    ensures LawfulText(env.net)
  {
    assert GenuineSnapshot(env, Allowlist, st.published[Allowlist]);
  }

  lemma InitInv(env: Env, st: State)
    requires Init(env, st)
    ensures Inv(env, st)
  {
  }

  /** Moving a running loop between its simple states touches nothing else. */
  lemma MoveInv(env: Env, st: State, loop: LoopId, pc: LoopPc)
    requires Inv(env, st) && (st.Pc(loop).Selecting? || st.Pc(loop).Loading?)
    requires pc.Selecting? || pc.Loading? || (pc.Exiting? && loop in st.stopClosed)
             || (pc.Storing? && loop.ListLoop? && GenuineSnapshot(env, loop.kind, pc.snapshot))
    ensures Inv(env, st.(pcs := st.pcs[loop := pc]))
  {
    hide GenuineSnapshot;
    var after := st.(pcs := st.pcs[loop := pc]);
    assert forall other :: after.Pc(other) == if other == loop then pc else st.Pc(other);
    assert after.SetPcOf(ByLoop) == st.SetPcOf(ByLoop) && after.SetPcOf(ByCleaner) == st.SetPcOf(ByCleaner);
    assert forall r: Reader :: Tally(after, r) == Tally(st, r);
    assert HoldsLock(after, ByLoop) == HoldsLock(st, ByLoop) && HoldsLock(after, ByCleaner) == HoldsLock(st, ByCleaner);
  }

  lemma ListLoadInv(env: Env, st: State, step: Step)
    requires Inv(env, st) && Enabled(env, st, step) && step.ListLoadReturns?
    ensures Inv(env, Do(env, st, step))
  {
    var pc := if step.result.Success? then Storing(Snapshot(step.result.value, step.reading)) else Selecting;
    assert pc.Storing? ==> GenuineSnapshot(env, step.kind, pc.snapshot);
    hide Inv, LoadYields;
    MoveInv(env, st, ListLoop(step.kind), pc);
  }

  lemma StoreInv(env: Env, st: State, kind: ListKind)
    requires Inv(env, st) && st.Pc(ListLoop(kind)).Storing?
    ensures Inv(env, Do(env, st, Store(kind)))
  {
    hide GenuineSnapshot;
    var after := Do(env, st, Store(kind));
    assert forall other :: after.Pc(other) == if other == ListLoop(kind) then Selecting else st.Pc(other);
    assert after.SetPcOf(ByLoop) == st.SetPcOf(ByLoop) && after.SetPcOf(ByCleaner) == st.SetPcOf(ByCleaner);
    assert forall r: Reader :: Tally(after, r) == Tally(st, r);
    assert HoldsLock(after, ByLoop) == HoldsLock(st, ByLoop) && HoldsLock(after, ByCleaner) == HoldsLock(st, ByCleaner);
  }

  lemma CountryLoadedInv(env: Env, st: State, reader: Reader)
    requires Inv(env, st) && Enabled(env, st, CountryLoaded(reader))
    ensures Inv(env, Do(env, st, CountryLoaded(reader)))
  {
    hide GenuineSnapshot;
    var after := Do(env, st, CountryLoaded(reader));
    assert forall other :: other != CountryLoop ==> after.Pc(other) == st.Pc(other);
    assert after.SetPcOf(ByLoop) == Some(WantLock(Some(reader))) && after.SetPcOf(ByCleaner) == st.SetPcOf(ByCleaner);
    assert Tally(st, reader) == 0;
    assert forall r: Reader :: Tally(after, r) == Tally(st, r) + One(r == reader);
  }

  lemma ExitInv(env: Env, st: State, loop: LoopId)
    requires Inv(env, st) && st.Pc(loop).Exiting?
    ensures Inv(env, Do(env, st, Exit(loop)))
  {
    hide GenuineSnapshot;
    var after := Do(env, st, Exit(loop));
    assert forall other :: after.Pc(other) == if other == loop then Exited else st.Pc(other);
    assert after.SetPcOf(ByLoop) == st.SetPcOf(ByLoop) && after.SetPcOf(ByCleaner) == st.SetPcOf(ByCleaner);
    assert forall r: Reader :: Tally(after, r) == Tally(st, r);
    assert HoldsLock(after, ByLoop) == HoldsLock(st, ByLoop) && HoldsLock(after, ByCleaner) == HoldsLock(st, ByCleaner);
  }

  lemma LookupInv(env: Env, st: State, step: Step)
    requires Inv(env, st) && Enabled(env, st, step) && (step.Acquire? || step.Read? || step.Release?)
    ensures Inv(env, Do(env, st, step))
  {
    hide GenuineSnapshot, DoSet, DoCleanup;
    var after := Do(env, st, step);
    if step.Read? {
      assert Tally(st, st.lookups[step.lookup].value) <= 1;
      assert after == st;
    } else {
      ViewsOf(after, st);
      assert forall r: Reader :: Tally(after, r) == Tally(st, r);
      assert HoldsLock(after, ByLoop) == HoldsLock(st, ByLoop)
        && HoldsLock(after, ByCleaner) == HoldsLock(st, ByCleaner);
    }
  }

  function Other(setter: Setter): Setter {
    if setter.ByLoop? then ByCleaner else ByLoop
  }

  /** Where the call stands after its step; None once it has returned. */
  function NextSetPc(pc: SetPc, country: Option<Reader>): Option<SetPc> {
    match pc
    case WantLock(next) => Some(Swapping(next))
    case Swapping(_) => Some(Unlocking(country))
    case Unlocking(prev) => Some(Closing(prev))
    case Closing(_) => None
  }

  /** Moving one call on leaves the other one, and every loop but the country loop, where they are. */
  lemma WithSetPcEffect(st: State, setter: Setter, pc: SetPc)
    requires st.SetPcOf(setter).Some?
    ensures var after := st.WithSetPc(setter, pc);
            && after.SetPcOf(setter) == Some(pc) && after.SetPcOf(Other(setter)) == st.SetPcOf(Other(setter))
            && (forall loop :: loop != CountryLoop || setter.ByCleaner? ==> after.Pc(loop) == st.Pc(loop))
            && (setter.ByLoop? ==> after.Pc(CountryLoop) == Setting(pc))
            && after == st.(pcs := after.pcs, cleaner := after.cleaner)
            && after.cleaner == if setter.ByCleaner? then SettingNil(pc) else st.cleaner
  {
  }

  lemma SetReturnsEffect(st: State, setter: Setter)
    requires st.SetPcOf(setter).Some?
    ensures var after := st.SetReturns(setter);
            && after.SetPcOf(setter) == None && after.SetPcOf(Other(setter)) == st.SetPcOf(Other(setter))
            && (forall loop :: loop != CountryLoop || setter.ByCleaner? ==> after.Pc(loop) == st.Pc(loop))
            && (setter.ByLoop? ==> after.Pc(CountryLoop) == Selecting)
            && after == st.(pcs := after.pcs, cleaner := after.cleaner, cleaned := after.cleaned)
            && after.cleaner == (if setter.ByCleaner? then Idle else st.cleaner)
            && after.cleaned == (st.cleaned || setter.ByCleaner?)
  {
  }

  /** What a state shows of the calls and loops depends on the loops' and the cleaner's progress alone. */
  lemma ViewsOf(a: State, b: State)
    requires a.pcs == b.pcs && a.cleaner == b.cleaner
    ensures a.SetPcOf(ByLoop) == b.SetPcOf(ByLoop) && a.SetPcOf(ByCleaner) == b.SetPcOf(ByCleaner)
    ensures forall loop :: a.Pc(loop) == b.Pc(loop)
  {
  }

  /** The state around a step of setCountryDB before it moves the call itself on. */
  function Moved(st: State, setter: Setter): State
    requires st.SetPcOf(setter).Some?
  {
    match st.SetPcOf(setter).value
    case WantLock(next) => st.WithSetPc(setter, Swapping(next))
    case Swapping(next) => st.WithSetPc(setter, Unlocking(st.country))
    case Unlocking(prev) => st.WithSetPc(setter, Closing(prev))
    case Closing(_) => st.SetReturns(setter)
  }

  lemma MovedEffect(st: State, setter: Setter)
    requires st.SetPcOf(setter).Some?
    ensures var pc, after := st.SetPcOf(setter).value, Moved(st, setter);
            && after.SetPcOf(setter) == NextSetPc(pc, st.country)
            && after.SetPcOf(Other(setter)) == st.SetPcOf(Other(setter))
            && (forall loop :: loop != CountryLoop || setter.ByCleaner? ==> after.Pc(loop) == st.Pc(loop))
            && (setter.ByLoop? ==>
                  after.Pc(CountryLoop) == if pc.Closing? then Selecting else Setting(NextSetPc(pc, st.country).value))
            && after == st.(pcs := after.pcs, cleaner := after.cleaner, cleaned := after.cleaned)
            && (setter.ByLoop? ==> after.cleaner == st.cleaner && after.cleaned == st.cleaned)
            && (setter.ByCleaner? ==>
                  after.cleaner == (if pc.Closing? then Idle else SettingNil(NextSetPc(pc, st.country).value))
                                      && after.cleaned == (st.cleaned || pc.Closing?))
  {
    hide State.WithSetPc, State.SetReturns, State.SetPcOf, State.Pc;
    match st.SetPcOf(setter).value
    case WantLock(next) => WithSetPcEffect(st, setter, Swapping(next));
    case Swapping(_) => WithSetPcEffect(st, setter, Unlocking(st.country));
    case Unlocking(prev) => WithSetPcEffect(st, setter, Closing(prev));
    case Closing(_) => SetReturnsEffect(st, setter);
  }

  /** A step of setCountryDB is that move, and its effect on the field, the lock or a reader. */
  lemma SetFields(st: State, setter: Setter)
    requires st.SetPcOf(setter).Some?
    ensures var pc, after, moved := st.SetPcOf(setter).value, DoSet(st, setter), Moved(st, setter);
            && after == moved.(country := after.country, writer := after.writer, closes := after.closes,
              faults := after.faults)
            && after.country == (if pc.Swapping? then pc.next else moved.country)
            && after.writer == (if pc.WantLock? then Some(setter) else if pc.Unlocking? then None else moved.writer)
            && after.closes == (if pc.Closing? && pc.prev.Some?
                                then moved.closes[pc.prev.value := st.Closes(pc.prev.value) + 1]
                                else moved.closes)
            && (after.faults == moved.faults ||
                (pc.Swapping? && setter.ByLoop? && st.cleaned)
                || (pc.Closing? && pc.prev.Some? && st.Closes(pc.prev.value) > 0))
  {
    hide State.WithSetPc, State.SetReturns, State.SetPcOf, State.Closes;
    match st.SetPcOf(setter).value
    case WantLock(next) => WithSetPcEffect(st, setter, Swapping(next));
    case Swapping(_) => WithSetPcEffect(st, setter, Unlocking(st.country));
    case Unlocking(prev) => WithSetPcEffect(st, setter, Closing(prev));
    case Closing(None) => SetReturnsEffect(st, setter);
    case Closing(Some(_)) => SetReturnsEffect(st, setter);
  }

  /** A step of setCountryDB: the two calls, the field, the lock and the closed readers. */
  lemma SetEffect(st: State, setter: Setter)
    requires st.SetPcOf(setter).Some?
    ensures var pc, after := st.SetPcOf(setter).value, DoSet(st, setter);
            && after.SetPcOf(setter) == NextSetPc(pc, st.country)
            && after.SetPcOf(Other(setter)) == st.SetPcOf(Other(setter))
            && after.country == (if pc.Swapping? then pc.next else st.country)
            && after.writer == (if pc.WantLock? then Some(setter) else if pc.Unlocking? then None else st.writer)
            && (forall r :: after.Closes(r) == st.Closes(r) + One(pc == Closing(Some(r))))
            && (after.faults == st.faults ||
                (pc.Swapping? && setter.ByLoop? && st.cleaned)
                || (pc.Closing? && pc.prev.Some? && st.Closes(pc.prev.value) > 0))
  {
    hide DoSet, Moved, State.SetPcOf, State.Pc;
    MovedEffect(st, setter);
    SetFields(st, setter);
    ViewsOf(DoSet(st, setter), Moved(st, setter));
  }

  /** And what it leaves alone, which for either caller includes the other. */
  lemma SetFrame(st: State, setter: Setter)
    requires st.SetPcOf(setter).Some?
    ensures var pc, after := st.SetPcOf(setter).value, DoSet(st, setter);
            && after.lookups == st.lookups && after.loaded == st.loaded && after.published == st.published
            && after.stopFields == st.stopFields && after.stopClosed == st.stopClosed
              && after.doneClosed == st.doneClosed
            && (forall loop :: loop != CountryLoop || setter.ByCleaner? ==> after.Pc(loop) == st.Pc(loop))
            && (setter.ByLoop? ==>
                  && after.cleaner == st.cleaner && after.cleaned == st.cleaned
                  && after.Pc(CountryLoop) ==
                     if pc.Closing? then Selecting else Setting(NextSetPc(pc, st.country).value))
            && (setter.ByCleaner? ==>
                  after.cleaner == (if pc.Closing? then Idle else SettingNil(NextSetPc(pc, st.country).value))
                                      && after.cleaned == (st.cleaned || pc.Closing?))
  {
    hide DoSet, Moved, State.SetPcOf, State.Pc, State.Closes;
    MovedEffect(st, setter);
    SetFields(st, setter);
    ViewsOf(DoSet(st, setter), Moved(st, setter));
  }

  /** It hands its reader on, and closes it only when nobody else has it. */
  lemma SetKeepsReaders(st: State, setter: Setter)
    requires ReadersConserved(st) && st.SetPcOf(setter).Some?
    ensures ReadersConserved(DoSet(st, setter))
    ensures var pc := st.SetPcOf(setter).value; pc.Closing? && pc.prev.Some? ==> st.Closes(pc.prev.value) == 0
  {
    hide DoSet, State.SetPcOf, State.Closes;
    SetEffect(st, setter);
    SetFrame(st, setter);
    var after, pc := DoSet(st, setter), st.SetPcOf(setter).value;
    if pc.Closing? && pc.prev.Some? {
      assert Tally(st, pc.prev.value) <= 1;
    }
    forall r: Reader
      ensures Tally(after, r) == Tally(st, r)
    {
    }
  }

  lemma SetKeepsLock(st: State, setter: Setter)
    requires LockDiscipline(st) && st.SetPcOf(setter).Some?
    requires st.SetPcOf(setter).value.WantLock? ==> st.writer.None? && st.lookups == map[]
    ensures LockDiscipline(DoSet(st, setter))
  {
    hide DoSet, State.SetPcOf, State.Closes;
    SetEffect(st, setter);
    SetFrame(st, setter);
    var after, pc := DoSet(st, setter), st.SetPcOf(setter).value;
    assert HoldsLock(after, Other(setter)) <==> HoldsLock(st, Other(setter));
    assert HoldsLock(after, setter) <==> pc.WantLock? || pc.Swapping?;
    assert HoldsLock(st, setter) <==> pc.Swapping? || pc.Unlocking?;
  }

  /** While the country loop may still set a reader, Cleanup has not got to its own call. */
  lemma LoopSetsBeforeCleaner(st: State)
    requires ChannelDiscipline(st) && LoopDiscipline(st) && st.SetPcOf(ByLoop).Some?
    ensures st.SetPcOf(ByCleaner).None? && !st.cleaned && CountryLoop in st.stopFields
  {
    assert LoopAt(2) == CountryLoop;
  }

  lemma NoStopFieldsLeft(st: State)
    requires ChannelDiscipline(st) && st.cleaner.SettingNil?
    ensures st.stopFields == {}
  {
    forall loop
      ensures loop !in st.stopFields
    {
      assert LoopAt(0) == ListLoop(Allowlist) && LoopAt(1) == ListLoop(Blacklist) && LoopAt(2) == CountryLoop;
      match loop
      case ListLoop(Allowlist) =>
      case ListLoop(Blacklist) =>
      case CountryLoop =>
    }
  }

  lemma SetKeepsLoops(st: State, setter: Setter)
    requires ChannelDiscipline(st) && LoopDiscipline(st) && st.SetPcOf(setter).Some?
    ensures ChannelDiscipline(DoSet(st, setter)) && LoopDiscipline(DoSet(st, setter))
  {
    hide DoSet, State.Closes;
    SetFrame(st, setter);
    SetEffect(st, setter);
    var after := DoSet(st, setter);
    if setter.ByLoop? {
      LoopSetsBeforeCleaner(st);
      assert forall loop :: after.Pc(loop).Exited? <==> st.Pc(loop).Exited?;
    } else {
      NoStopFieldsLeft(st);
    }
  }

  lemma SetInv(env: Env, st: State, setter: Setter)
    requires Inv(env, st) && Enabled(env, st, SetStep(setter))
    ensures Inv(env, DoSet(st, setter))
  {
    hide GenuineSnapshot, ReadersConserved, LockDiscipline, ChannelDiscipline, DoSet;
    SetKeepsReaders(st, setter);
    SetKeepsLock(st, setter);
    SetKeepsLoops(st, setter);
    SetFrame(st, setter);
    SetEffect(st, setter);
    if setter.ByLoop? {
      LoopSetsBeforeCleaner(st);
    }
  }

  /** All of the state but Cleanup's progress and the channels it closes. */
  function Untouched(st: State, after: State): State {
    st.(cleaner := after.cleaner, stopFields := after.stopFields, stopClosed := after.stopClosed,
      faults := after.faults)
  }

  lemma StopEffect(st: State)
    requires st.cleaner.AtStop?
    ensures var after := DoCleanup(st);
            after == Untouched(st, after) && (after.cleaner.SettingNil? ==> after.cleaner.call == WantLock(None))
  {
    var n := st.cleaner.n;
    if n < 3 && LoopAt(n) in st.stopFields {
      var closed := st.(stopClosed := st.stopClosed + {LoopAt(n)}, cleaner := AwaitDone(n));
      assert DoCleanup(st) == closed.(faults := DoCleanup(st).faults);
    }
  }

  lemma DoCleanupEffect(st: State)
    requires !st.cleaner.SettingNil?
    ensures var after := DoCleanup(st);
            after == Untouched(st, after) && (after.cleaner.SettingNil? ==> after.cleaner.call == WantLock(None))
  {
    if st.cleaner.AtStop? {
      hide DoCleanup;
      StopEffect(st);
    }
  }

  /** Cleanup's own steps move neither readers nor loops nor the lock. */
  lemma CleanupEffect(env: Env, st: State, step: Step)
    requires Enabled(env, st, step) && (step.CleanupStart? || step.CleanupStep?)
    ensures var after := Do(env, st, step);
            && after == Untouched(st, after) && !st.cleaner.SettingNil?
            && (after.cleaner.SettingNil? ==> after.cleaner.call == WantLock(None))
  {
    hide GenuineSnapshot, DoSet, DoCleanup;
    if step.CleanupStep? {
      DoCleanupEffect(st);
    }
  }

  lemma CleanupInv(env: Env, st: State, step: Step)
    requires Inv(env, st) && Enabled(env, st, step) && (step.CleanupStart? || step.CleanupStep?)
    ensures Inv(env, Do(env, st, step))
  {
    hide GenuineSnapshot, Do, Enabled, ChannelDiscipline, LoopDiscipline, ReadersConserved, LockDiscipline;
    CleanupEffect(env, st, step);
    CleanupChannels(env, st, step);
    var after := Do(env, st, step);
    CleanerMoves(st, after);
    CleanerKeepsLoops(st, after);
    assert forall other :: after.Pc(other) == st.Pc(other);
  }

  /** A cleaner that is not setting the field holds neither a reader nor the lock. */
  lemma CleanerMoves(st: State, after: State)
    requires ReadersConserved(st) && LockDiscipline(st) && !st.cleaner.SettingNil?
    requires after == Untouched(st, after)
    requires after.cleaner.SettingNil? ==> after.cleaner.call == WantLock(None)
    ensures ReadersConserved(after) && LockDiscipline(after)
  {
    assert after.SetPcOf(ByLoop) == st.SetPcOf(ByLoop);
    assert forall r: Reader :: Tally(after, r) == Tally(st, r);
    assert HoldsLock(after, ByLoop) == HoldsLock(st, ByLoop) && HoldsLock(after, ByCleaner) == HoldsLock(st, ByCleaner);
  }

  lemma CleanerKeepsLoops(st: State, after: State)
    requires LoopDiscipline(st)
    requires after == Untouched(st, after)
    requires after.cleaner.SettingNil? ==> after.cleaner.call == WantLock(None)
    requires st.stopClosed <= after.stopClosed && after.stopFields <= st.stopFields
    requires forall loop :: loop in st.stopFields && loop !in after.stopFields ==> loop in st.doneClosed
    ensures LoopDiscipline(after)
  {
    assert forall other :: after.Pc(other) == st.Pc(other);
  }

  ghost predicate ChannelsAdvance(st: State, after: State) {
    && ChannelDiscipline(after) && after.faults == st.faults
    && st.stopClosed <= after.stopClosed && after.stopFields <= st.stopFields
    && (forall loop :: loop in st.stopFields && loop !in after.stopFields ==> loop in st.doneClosed)
  }

  /** Closing a stop channel: the loop's field is still set, so no cleanup has closed it before. */
  lemma StopChannel(st: State)
    requires ChannelDiscipline(st) && st.cleaner.AtStop?
    ensures ChannelsAdvance(st, DoCleanup(st))
  {
    var n := st.cleaner.n;
    if n < 3 && LoopAt(n) in st.stopFields {
      var after := st.(stopClosed := st.stopClosed + {LoopAt(n)}, cleaner := AwaitDone(n));
      assert DoCleanup(st) == after;
      hide DoCleanup;
      assert ChannelDiscipline(after);
    }
  }

  /** Waiting and clearing: what goes from the fields has its done channel closed. */
  lemma ClearChannel(st: State)
    requires ChannelDiscipline(st)
    requires (st.cleaner.AwaitDone? && LoopAt(st.cleaner.n) in st.doneClosed) || st.cleaner.Clearing?
    ensures ChannelsAdvance(st, DoCleanup(st))
  {
    if st.cleaner.Clearing? {
      var n := st.cleaner.n;
      var after := st.(stopFields := st.stopFields - {LoopAt(n)}, cleaner := AtStop(n + 1));
      assert DoCleanup(st) == after;
      hide DoCleanup;
      assert ChannelDiscipline(after);
    }
  }

  lemma CleanupChannels(env: Env, st: State, step: Step)
    requires ChannelDiscipline(st) && st.faults == {}
    requires Enabled(env, st, step) && (step.CleanupStart? || step.CleanupStep?)
    ensures ChannelsAdvance(st, Do(env, st, step))
  {
    hide GenuineSnapshot, DoSet, DoCleanup;
    if step.CleanupStep? {
      hide ChannelsAdvance, ChannelDiscipline;
      if st.cleaner.AtStop? {
        StopChannel(st);
      } else {
        ClearChannel(st);
      }
    }
  }

  lemma StepInv(env: Env, st: State, step: Step)
    requires Inv(env, st) && Enabled(env, st, step)
    ensures Inv(env, Do(env, st, step))
  {
    hide Inv, GenuineSnapshot;
    match step
    case Tick(loop) => MoveInv(env, st, loop, Loading);
    case SeeStop(loop) => MoveInv(env, st, loop, Exiting);
    case ListLoadReturns(_, _, _) => ListLoadInv(env, st, step);
    case CountryLoadFails => MoveInv(env, st, CountryLoop, Selecting);
    case Store(kind) => StoreInv(env, st, kind);
    case CountryLoaded(reader) => CountryLoadedInv(env, st, reader);
    case SetStep(setter) => SetInv(env, st, setter);
    case Exit(loop) => ExitInv(env, st, loop);
    case Acquire(_) => LookupInv(env, st, step);
    case Read(_) => LookupInv(env, st, step);
    case Release(_) => LookupInv(env, st, step);
    case CleanupStart => CleanupInv(env, st, step);
    case CleanupStep => CleanupInv(env, st, step);
  }

  // ---------------------------------------------------------------------------------
  // Every interleaving
  // ---------------------------------------------------------------------------------

  /** A run: each state follows from the one before by an enabled step. */
  ghost predicate IsRun(env: Env, states: seq<State>, steps: seq<Step>) {
    && |states| == |steps| + 1
    && Init(env, states[0])
    && forall i :: 0 <= i < |steps| ==>
         Enabled(env, states[i], steps[i]) && states[i + 1] == Do(env, states[i], steps[i])
  }

  lemma {:induction false} RunInv(env: Env, states: seq<State>, steps: seq<Step>, n: nat)
    requires IsRun(env, states, steps) && n < |states|
    ensures Inv(env, states[n])
  {
    hide Inv, Init, Enabled, Do;
    if n == 0 {
      InitInv(env, states[0]);
    } else {
      RunInv(env, states, steps, n - 1);
      StepInv(env, states[n - 1], steps[n - 1]);
    }
  }

  /**
   * No use after close: in no interleaving of lookups, refreshes and any number of cleanups
   * is a closed reader read, a reader or a channel closed twice, or anything stored after a
   * Cleanup has returned.
   */
  lemma NothingGoesWrong(env: Env, states: seq<State>, steps: seq<Step>, n: nat)
    requires IsRun(env, states, steps) && n < |states|
    ensures states[n].faults == {}
    ensures forall l :: l in states[n].lookups && states[n].lookups[l].Some? ==>
              states[n].lookups[l] == states[n].country && states[n].Closes(states[n].lookups[l].value) == 0
    ensures forall r: Reader :: states[n].Closes(r) <= 1
  {
    hide IsRun;
    RunInv(env, states, steps, n);
    var st := states[n];
    forall l | l in st.lookups && st.lookups[l].Some?
      ensures st.lookups[l] == st.country && st.Closes(st.lookups[l].value) == 0
    {
      assert Tally(st, st.lookups[l].value) <= 1;
    }
    forall r: Reader
      ensures st.Closes(r) <= 1
    {
      assert Tally(st, r) <= 1;
    }
  }

  /** Once a Cleanup has returned, every reader ever loaded has been closed exactly once, and none is left. */
  lemma CleanupClosesEverything(env: Env, states: seq<State>, steps: seq<Step>, n: nat)
    requires IsRun(env, states, steps) && n < |states| && states[n].cleaned
    ensures states[n].country.None? && states[n].stopFields == {}
    ensures forall r :: r in states[n].loaded ==> states[n].Closes(r) == 1
    ensures forall loop :: states[n].Pc(loop).NotStarted? || states[n].Pc(loop).Exited?
  {
    hide IsRun;
    RunInv(env, states, steps, n);
    var st := states[n];
    forall r | r in st.loaded
      ensures st.Closes(r) == 1
    {
      assert Tally(st, r) == 1;
    }
  }

  /** After a Cleanup has returned no step changes what is published, ticks or no ticks. */
  lemma NothingChangesAfterCleanup(env: Env, states: seq<State>, steps: seq<Step>, n: nat)
    requires IsRun(env, states, steps) && n < |steps| && states[n].cleaned
    ensures states[n + 1].published == states[n].published && states[n + 1].country == states[n].country
    ensures states[n + 1].loaded == states[n].loaded && states[n + 1].cleaned
  {
    hide Inv;
    RunInv(env, states, steps, n);
    CleanedIsStill(env, states[n], steps[n]);
  }

  lemma CleanedIsStill(env: Env, st: State, step: Step)
    requires Inv(env, st) && Enabled(env, st, step) && st.cleaned
    ensures var after := Do(env, st, step);
            after.published == st.published && after.country == st.country && after.loaded == st.loaded && after.cleaned
  {
    hide ReadersConserved, ChannelDiscipline, LockDiscipline, SnapshotsGenuine, GenuineSnapshot, DoSet, DoCleanup;
    match step
    case SetStep(setter) => SetFrame(st, setter); SetEffect(st, setter);
    case CleanupStep => CleanupEffect(env, st, step);
    case _ =>
  }

  // ---------------------------------------------------------------------------------
  // Cleanup always comes to its end
  // ---------------------------------------------------------------------------------

  /** A step that neither takes a tick, starts a cleanup or a lookup, nor just reads. */
  predicate Finishing(step: Step) {
    !step.Tick? && !step.CleanupStart? && !step.Acquire? && !step.Read?
  }

  /** A load under way can return, if only because nothing could be read. */
  lemma ListLoadCanReturn(env: Env, st: State, kind: ListKind) returns (step: Step)
    requires Inv(env, st) && st.Pc(ListLoop(kind)).Loading?
    ensures Finishing(step) && Enabled(env, st, step)
  {
    InvIsLawful(env, st);
    hide Inv, IsLoadResult, LawfulText;
    var config, reading := env.ConfigOf(kind), Reading(None, None);
    var file, url := FileInput(config, reading), UrlInput(config, reading);
    var result := LoadHasResult(env.net, NameOf(kind), config.inline, file, url);
    return ListLoadReturns(kind, reading, result);
  }

  /**
   * Whoever holds the lock, or any lookup, can move on; otherwise the cleaner's own step or
   * one of the loop it waits for is possible.
   */
  lemma CleanupNeverStuck(env: Env, st: State) returns (step: Step)
    requires Inv(env, st) && !st.cleaner.Idle?
    ensures Finishing(step) && Enabled(env, st, step)
  {
    hide SnapshotsGenuine, ReadersConserved, LoadYields;
    if l :| l in st.lookups {
      return Release(l);
    }
    assert st.lookups == map[];
    if st.writer.Some? {
      assert HoldsLock(st, st.writer.value);
      return SetStep(st.writer.value);
    }
    match st.cleaner
    case AtStop(_) => return CleanupStep;
    case Clearing(_) => return CleanupStep;
    case SettingNil(_) => return SetStep(ByCleaner);
    case AwaitDone(k) =>
      var loop := LoopAt(k);
      match st.Pc(loop)
      case Selecting => return SeeStop(loop);
      case Loading =>
        if loop.CountryLoop? {
          return CountryLoadFails;
        }
        step := ListLoadCanReturn(env, st, loop.kind);
      case Storing(_) => return Store(loop.kind);
      case Setting(_) => return SetStep(ByLoop);
      case Exiting => return Exit(loop);
      case Exited => return CleanupStep;
  }

  function SetRank(pc: SetPc): nat {
    match pc
    case WantLock(_) => 4
    case Swapping(_) => 3
    case Unlocking(_) => 2
    case Closing(_) => 1
  }

  function LoopRank(pc: LoopPc): nat {
    match pc
    case NotStarted => 0
    case Exited => 0
    case Exiting => 1
    case Selecting => 2
    case Storing(_) => 3
    case Setting(call) => 2 + SetRank(call)
    case Loading => 7
  }

  function CleanerRank(c: CleanerPc): nat {
    match c
    case Idle => 0
    case SettingNil(call) => SetRank(call)
    case AtStop(n) => if n <= 3 then 5 + 3 * (3 - n) else 0
    case AwaitDone(n) => if n <= 3 then 4 + 3 * (3 - n) else 0
    case Clearing(n) => if n <= 3 then 3 + 3 * (3 - n) else 0
  }

  /** How many finishing steps there can still be. */
  function Rank(st: State): nat {
    LoopRank(st.Pc(ListLoop(Allowlist))) + LoopRank(st.Pc(ListLoop(Blacklist))) + LoopRank(st.Pc(CountryLoop))
    + CleanerRank(st.cleaner) + |st.lookups|
  }

  lemma LoopMoveRank(st: State, after: State, loop: LoopId, pc: LoopPc)
    requires after.pcs == st.pcs[loop := pc] && after.cleaner == st.cleaner && after.lookups == st.lookups
    requires LoopRank(pc) < LoopRank(st.Pc(loop))
    ensures Rank(after) < Rank(st)
  {
    match loop
    case ListLoop(Allowlist) =>
    case ListLoop(Blacklist) =>
    case CountryLoop =>
  }

  lemma SetRankDrops(st: State, setter: Setter)
    requires LoopDiscipline(st) && st.SetPcOf(setter).Some?
    ensures Rank(DoSet(st, setter)) < Rank(st)
  {
    hide DoSet, LoopDiscipline;
    SetFrame(st, setter);
    SetPcKinds(st);
    var after := DoSet(st, setter);
    assert forall kind :: after.Pc(ListLoop(kind)) == st.Pc(ListLoop(kind));
  }

  lemma SetPcKinds(st: State)
    ensures st.SetPcOf(ByLoop).Some? ==> st.Pc(CountryLoop) == Setting(st.SetPcOf(ByLoop).value)
    ensures st.SetPcOf(ByCleaner).Some? ==> st.cleaner == SettingNil(st.SetPcOf(ByCleaner).value)
  {
  }

  lemma CleanupRankDrops(env: Env, st: State)
    requires ChannelDiscipline(st) && Enabled(env, st, CleanupStep)
    ensures Rank(Do(env, st, CleanupStep)) < Rank(st)
  {
    CleanerAdvances(st);
    hide GenuineSnapshot, DoCleanup, ChannelDiscipline;
    DoCleanupEffect(st);
    var after := DoCleanup(st);
    assert forall loop :: after.Pc(loop) == st.Pc(loop);
  }

  lemma CleanerAdvances(st: State)
    requires Dealt(st.cleaner) <= 3 && (st.cleaner.AwaitDone? || st.cleaner.Clearing? ==> Dealt(st.cleaner) < 3)
    requires !st.cleaner.Idle? && !st.cleaner.SettingNil?
    ensures CleanerRank(DoCleanup(st).cleaner) < CleanerRank(st.cleaner)
  {
    match st.cleaner
    case AtStop(_) =>
    case AwaitDone(_) =>
    case Clearing(_) =>
  }

  lemma ReleaseRankDrops(st: State, l: nat)
    requires l in st.lookups
    ensures Rank(st.(lookups := st.lookups - {l})) < Rank(st)
  {
    var after := st.(lookups := st.lookups - {l});
    assert after.lookups.Keys == st.lookups.Keys - {l};
    assert |after.lookups| == |after.lookups.Keys| && |st.lookups| == |st.lookups.Keys|;
  }

  lemma LoopStepRank(env: Env, st: State, step: Step)
    requires Enabled(env, st, step) && Finishing(step)
    requires !step.Release? && !step.SetStep? && !step.CleanupStep?
    ensures Rank(Do(env, st, step)) < Rank(st)
  {
    hide Rank, LoadYields, DoSet, DoCleanup;
    var after := Do(env, st, step);
    match step
    case SeeStop(loop) => LoopMoveRank(st, after, loop, Exiting);
    case ListLoadReturns(kind, _, _) => LoopMoveRank(st, after, ListLoop(kind), after.Pc(ListLoop(kind)));
    case CountryLoadFails => LoopMoveRank(st, after, CountryLoop, Selecting);
    case Store(kind) => LoopMoveRank(st, after, ListLoop(kind), Selecting);
    case CountryLoaded(reader) => LoopMoveRank(st, after, CountryLoop, Setting(WantLock(Some(reader))));
    case Exit(loop) => LoopMoveRank(st, after, loop, Exited);
  }

  /** Every finishing step lowers the rank. */
  lemma FinishingStepsRunOut(env: Env, st: State, step: Step)
    requires Inv(env, st) && Enabled(env, st, step) && Finishing(step)
    ensures Rank(Do(env, st, step)) < Rank(st)
  {
    hide Rank, ReadersConserved, LockDiscipline, SnapshotsGenuine, LoopDiscipline, ChannelDiscipline, LoadYields,
         DoSet, DoCleanup;
    match step
    case Release(l) => ReleaseRankDrops(st, l);
    case SetStep(setter) => SetRankDrops(st, setter);
    case CleanupStep => CleanupRankDrops(env, st);
    case _ => LoopStepRank(env, st, step);
  }

  /** The states a sequence of steps goes through are all reached by enabled finishing steps. */
  ghost predicate FinishesWith(env: Env, st: State, steps: seq<Step>)
    decreases |steps|
  {
    if steps == [] then st.cleaner.Idle?
    else Finishing(steps[0]) && Enabled(env, st, steps[0]) && FinishesWith(env, Do(env, st, steps[0]), steps[1..])
  }

  /**
   * From every state of a run in which a Cleanup is under way, finishing steps alone, at most
   * Rank of them, lead to its return: it can neither deadlock nor wait for a tick.
   */
  lemma CleanupCanReturn(env: Env, st: State) returns (steps: seq<Step>)
    requires Inv(env, st)
    ensures FinishesWith(env, st, steps) && |steps| <= Rank(st)
    decreases Rank(st)
  {
    hide Inv, Enabled, Do, Finishing, Rank;
    if st.cleaner.Idle? {
      return [];
    }
    var step := CleanupNeverStuck(env, st);
    StepInv(env, st, step);
    FinishingStepsRunOut(env, st, step);
    var rest := CleanupCanReturn(env, Do(env, st, step));
    steps := [step] + rest;
    assert steps[1..] == rest;
  }
}
