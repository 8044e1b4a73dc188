/** Each channel is closed at most once in every run, however often Cleanup is called. */
module RefreshChannels {
  import opened Refresh

  /** Cleanup finds the loop's stop channel in its field and closes it. */
  ghost predicate ClosesStop(st: State, step: Step, loop: LoopId) {
    step.CleanupStep? && st.cleaner.AtStop? && st.cleaner.n < 3 && LoopAt(st.cleaner.n) == loop && loop in st.stopFields
  }

  /** The loop's deferred close of its done channel. */
  predicate ClosesDone(step: Step, loop: LoopId) {
    step == Exit(loop)
  }

  /** What is closed stays closed, and what a step closes is closed from then on. */
  lemma ClosedStays(env: Env, st: State, step: Step)
    requires Inv(env, st) && Enabled(env, st, step)
    ensures var after := Do(env, st, step);
            && st.stopClosed <= after.stopClosed && st.doneClosed <= after.doneClosed
            && (forall loop :: ClosesStop(st, step, loop) ==> loop in after.stopClosed && loop !in st.stopClosed)
            && (forall loop :: ClosesDone(step, loop) ==> loop in after.doneClosed && loop !in st.doneClosed)
  {
    hide ReadersConserved, LockDiscipline, SnapshotsGenuine, LoadYields, DoSet, DoCleanup;
    match step
    case SetStep(setter) => SetFrame(st, setter);
    case CleanupStart => CleanupEffect(env, st, step);
    case CleanupStep =>
      CleanupEffect(env, st, step);
      CleanupChannels(env, st, step);
      StopCloses(st);
    case _ =>
  }

  lemma StopCloses(st: State)
    ensures forall loop :: ClosesStop(st, CleanupStep, loop) ==> loop in DoCleanup(st).stopClosed
  {
  }

  lemma {:induction false} ClosedStaysInRun(env: Env, states: seq<State>, steps: seq<Step>, from: nat, n: nat)
    requires IsRun(env, states, steps) && from <= n < |states|
    ensures states[from].stopClosed <= states[n].stopClosed && states[from].doneClosed <= states[n].doneClosed
  {
    hide Inv, Enabled, Do, Init;
    if from < n {
      ClosedStaysInRun(env, states, steps, from, n - 1);
      RunInv(env, states, steps, n - 1);
      ClosedStays(env, states[n - 1], steps[n - 1]);
    }
  }

  /** No two steps of a run close the same channel. */
  lemma ChannelsClosedOnce(env: Env, states: seq<State>, steps: seq<Step>, i: nat, j: nat, loop: LoopId)
    requires IsRun(env, states, steps) && i < j < |steps|
    ensures !(ClosesStop(states[i], steps[i], loop) && ClosesStop(states[j], steps[j], loop))
    ensures !(ClosesDone(steps[i], loop) && ClosesDone(steps[j], loop))
  {
    hide Inv, Enabled, Do, Init;
    RunInv(env, states, steps, i);
    RunInv(env, states, steps, j);
    ClosedStays(env, states[i], steps[i]);
    ClosedStays(env, states[j], steps[j]);
    ClosedStaysInRun(env, states, steps, i + 1, j);
  }

  /**
   * Step by step, without recourse to the recorded faults: a lookup reads an open reader, a reader
   * is closed for the first time or not at all, and nothing is stored once a Cleanup has returned.
   */
  lemma EveryStepIsSafe(env: Env, states: seq<State>, steps: seq<Step>, n: nat)
    requires IsRun(env, states, steps) && n < |steps|
    ensures var st, step := states[n], steps[n];
            && (step.Read? ==>
                  step.lookup in st.lookups && st.lookups[step.lookup].Some?
                  && st.Closes(st.lookups[step.lookup].value) == 0)
            && (forall r: Reader :: states[n + 1].Closes(r) > st.Closes(r) ==> st.Closes(r) == 0)
            && (st.cleaned ==> !step.Store? && states[n + 1].published == st.published)
            && (st.cleaned ==> states[n + 1].country == st.country)
  {
    hide Inv, Do, Init;
    NothingGoesWrong(env, states, steps, n);
    NothingGoesWrong(env, states, steps, n + 1);
    if states[n].cleaned {
      NothingChangesAfterCleanup(env, states, steps, n);
      CleanupClosesEverything(env, states, steps, n);
    }
  }
}
