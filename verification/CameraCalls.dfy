/** What the calls on the camera backend have done by the time they return, whatever the other threads do:
    `stop` and the error callbacks, `start`, and the listener's frame callback. */
module CameraCalls {
  import opened Wrappers
  import opened CameraHandles
  import opened CameraBackend
  import opened CameraProtocol

  // ---------------------------------------------------------------- a teardown and its handles

  predicate IsPendingOrFreed(s: State, pending: Held, h: Held, slot: Slot)
    requires slot in h
  {
    (slot in pending && pending[slot] == h[slot]) || (h[slot] < |s.frees| && s.frees[h[slot]] == 1)
  }

  /** A teardown with `pending` still to release has or had all the handles `h`. */
  predicate StillToRelease(s: State, pending: Held, h: Held) {
    forall slot :: slot in h ==> IsPendingOrFreed(s, pending, h, slot)
  }

  /** Every handle of `h` has been released, once. */
  predicate IsGone(s: State, h: Held) {
    forall slot :: slot in h ==> h[slot] < |s.frees| && s.frees[h[slot]] == 1
  }

  /** What has been released stays released. */
  lemma ReleasedStaysReleased(s: State, step: Step, id: nat)
    requires Inv(s) && Enabled(s, step) && id < |s.frees| && s.frees[id] == 1
    ensures id < |Apply(s, step).frees| && Apply(s, step).frees[id] == 1
  {
    EveryStepKeepsInv(s, step);
    FreesGrow(s, step, id);
    assert Apply(s, step).frees[id] <= 1;
  }

  lemma FreesGrow(s: State, step: Step, id: nat)
    requires Enabled(s, step) && id < |s.frees|
    ensures id < |Apply(s, step).frees| && s.frees[id] <= Apply(s, step).frees[id]
  {
  }

  lemma GoneStaysGone(s: State, step: Step, h: Held)
    requires Inv(s) && Enabled(s, step) && IsGone(s, h)
    ensures IsGone(Apply(s, step), h)
  {
    hide Inv, Enabled, Apply;
    forall slot | slot in h
      ensures h[slot] < |Apply(s, step).frees| && Apply(s, step).frees[h[slot]] == 1
    {
      ReleasedStaysReleased(s, step, h[slot]);
    }
  }

  lemma PendingIsUnreleased(s: State, t: nat, slot: Slot)
    requires Inv(s) && t in s.calls && s.calls[t].Tearing? && slot in s.calls[t].pending
    ensures var id := s.calls[t].pending[slot]; id < |s.frees| && s.frees[id] == 0
    ensures forall other :: other in s.calls[t].pending && s.calls[t].pending[other] == s.calls[t].pending[slot]
                            ==> other == slot
  {
    forall other | other in s.calls[t].pending && s.calls[t].pending[other] == s.calls[t].pending[slot]
      ensures other == slot
    {
      assert Owns(s, Teardown(t, other), s.calls[t].pending[other]);
      assert Owns(s, Teardown(t, slot), s.calls[t].pending[slot]);
    }
    assert Owns(s, Teardown(t, slot), s.calls[t].pending[slot]);
  }

  lemma ReleasedHandleIsCounted(s: State, t: nat, slot: Slot)
    requires Enabled(s, Release(t)) && slot == RELEASE_ORDER[s.calls[t].next]
    ensures var n, pending := ReleaseNext(s, t), s.calls[t].pending;
            && t in n.calls && n.calls[t].Tearing? && n.calls[t].pending == pending - {slot}
            && |n.frees| == |s.frees|
            && forall id: nat :: id < |s.frees| ==>
                 n.frees[id] == s.frees[id] + if slot in pending && pending[slot] == id then 1 else 0
  {
  }

  lemma ReleasingKeepsPendingOrFreed(s: State, t: nat, h: Held, slot: Slot, released: Slot)
    requires Inv(s) && Enabled(s, Release(t)) && released == RELEASE_ORDER[s.calls[t].next]
    requires slot in h && IsPendingOrFreed(s, s.calls[t].pending, h, slot)
    ensures var n := ReleaseNext(s, t);
            t in n.calls && n.calls[t].Tearing? && IsPendingOrFreed(n, n.calls[t].pending, h, slot)
  {
    ReleasedHandleIsCounted(s, t, released);
    if released in s.calls[t].pending {
      PendingIsUnreleased(s, t, released);
    }
    hide Inv, Enabled, ReleaseNext;
  }

  predicate MovesCall(step: Step, t: nat) {
    match step
    case FirstCheck => false
    case EnterGuard => false
    case GiveUp => false
    case SecondCheck => false
    case UserReturns => false
    case LeaveGuard => false
    case _ => step.t == t
  }

  lemma OthersDoNotMoveCall(s: State, step: Step, t: nat)
    requires Enabled(s, step) && t in s.calls && !MovesCall(step, t)
    ensures t in Apply(s, step).calls && Apply(s, step).calls[t] == s.calls[t]
  {
  }

  /** A teardown goes on, and by its end has released all its handles. */
  lemma TearingGoesOn(s: State, step: Step, t: nat, h: Held)
    requires Inv(s) && Enabled(s, step) && t in s.calls && s.calls[t].Tearing?
    requires StillToRelease(s, s.calls[t].pending, h)
    ensures var n := Apply(s, step);
            if t in n.calls then n.calls[t].Tearing? && n.calls[t].stopper == s.calls[t].stopper
                                 && StillToRelease(n, n.calls[t].pending, h)
            else step == TeardownEnds(t) && IsGone(n, h)
  {
    var n := Apply(s, step);
    if !MovesCall(step, t) {
      OthersDoNotMoveCall(s, step, t);
      hide Apply;
      forall slot | slot in h
        ensures IsPendingOrFreed(n, n.calls[t].pending, h, slot)
      {
        PendingOrFreedStays(s, step, s.calls[t].pending, h, slot);
      }
    } else if step.Release? {
      forall slot | slot in h
        ensures IsPendingOrFreed(n, n.calls[t].pending, h, slot)
      {
        ReleasingKeepsPendingOrFreed(s, t, h, slot, RELEASE_ORDER[s.calls[t].next]);
      }
    } else {
      FinishedTeardownIsEmpty(s, t);
      assert forall slot :: slot in h ==> IsPendingOrFreed(s, s.calls[t].pending, h, slot);
    }
  }

  lemma PendingOrFreedStays(s: State, step: Step, pending: Held, h: Held, slot: Slot)
    requires Inv(s) && Enabled(s, step) && slot in h && IsPendingOrFreed(s, pending, h, slot)
    ensures IsPendingOrFreed(Apply(s, step), pending, h, slot)
  {
    hide Inv, Enabled, Apply;
    if !(slot in pending && pending[slot] == h[slot]) {
      ReleasedStaysReleased(s, step, h[slot]);
    }
  }

  // ---------------------------------------------------------------- stop and the error callbacks

  /** The session with the handles `h` is running. */
  predicate IsLive(s: State, h: Held) {
    s.running && s.held == h
  }

  /** A stop of that session is in progress: its handles are still in the fields, or with the thread that tears
      them down, or released. */
  ghost predicate IsEnding(s: State, h: Held) {
    s.stopping && !s.running && exists t :: EndsSession(s, t, h)
  }

  predicate EndsSession(s: State, t: nat, h: Held) {
    IsStopper(s, t)
    && (s.calls[t].AwaitingCallback? ==> s.held == h)
    && (s.calls[t].Tearing? ==> StillToRelease(s, s.calls[t].pending, h))
  }

  /** The stopping thread's own steps. */
  lemma StopperAdvances(s: State, step: Step, h: Held, t: nat)
    requires Inv(s) && Enabled(s, step) && s.stopping && EndsSession(s, t, h)
    requires step in {TeardownBegins(t), Release(t), TeardownEnds(t)}
    ensures IsEnding(Apply(s, step), h) || IsGone(Apply(s, step), h)
  {
    var n := Apply(s, step);
    StopperIsElsewhere(s, t);
    if s.calls[t].Tearing? {
      TearingGoesOn(s, step, t, h);
    }
    if t in n.calls {
      assert EndsSession(n, t, h);
    }
  }

  /** Steps of the others leave the stopping thread where it is. */
  lemma OthersLeaveStopper(s: State, step: Step, h: Held, t: nat)
    requires Inv(s) && Enabled(s, step) && s.stopping && EndsSession(s, t, h)
    requires step !in {TeardownBegins(t), Release(t), TeardownEnds(t)}
    ensures IsEnding(Apply(s, step), h)
  {
    var n := Apply(s, step);
    StopperIsElsewhere(s, t);
    OthersLeaveCall(s, step, t);
    assert n.stopping && !n.running && n.held == s.held by {
      OthersLeaveFlags(s, step, t);
    }
    if s.calls[t].Tearing? {
      TearingGoesOn(s, step, t, h);
    }
    assert EndsSession(n, t, h);
  }

  lemma OthersLeaveCall(s: State, step: Step, t: nat)
    requires Enabled(s, step) && IsStopper(s, t) && s.stopping
    requires step !in {TeardownBegins(t), Release(t), TeardownEnds(t)}
    ensures t in Apply(s, step).calls && Apply(s, step).calls[t] == s.calls[t]
  {
  }

  lemma OthersDoNotStop(s: State, t: nat)
    requires Flags(s) && IsStopper(s, t)
    ensures forall u :: u in s.calls && u != t ==> !IsStopper(s, u) && !s.calls[u].AwaitingCallback?
    ensures forall u :: u in s.calls && u != t && s.calls[u].Tearing? ==> !s.calls[u].stopper
  {
    assert forall u :: u in s.calls && u != t ==> !IsStopper(s, u);
  }

  lemma NobodyStarts(s: State)
    requires Lock(s) && (s.running || s.stopping)
    ensures forall u :: !IsStarting(s, u)
  {
  }

  lemma OthersLeaveFlags(s: State, step: Step, t: nat)
    requires Inv(s) && Enabled(s, step) && IsStopper(s, t) && s.stopping
    requires step !in {TeardownBegins(t), Release(t), TeardownEnds(t)}
    ensures Apply(s, step).stopping && !Apply(s, step).running && Apply(s, step).held == s.held
  {
    StopperIsElsewhere(s, t);
    OthersDoNotStop(s, t);
    NobodyStarts(s);
    hide Inv, Flags, Lock;
  }

  /** A stop in progress goes on, until everything has been released. */
  lemma EndingGoesOn(s: State, step: Step, h: Held)
    requires Inv(s) && Enabled(s, step) && (IsEnding(s, h) || IsGone(s, h))
    ensures IsEnding(Apply(s, step), h) || IsGone(Apply(s, step), h)
  {
    hide Inv, Enabled, Apply, EndsSession, IsGone;
    if IsGone(s, h) {
      GoneStaysGone(s, step, h);
    } else {
      var t :| EndsSession(s, t, h);
      if step in {TeardownBegins(t), Release(t), TeardownEnds(t)} {
        StopperAdvances(s, step, h, t);
      } else {
        OthersLeaveStopper(s, step, h, t);
      }
    }
  }

  predicate IsStopStep(step: Step) {
    step.StopCall? || step.ErrorStops?
  }

  /** A `stop` on a running camera begins to end the session, whoever calls it; and on a camera being stopped it
      finds that stop in progress. */
  lemma StopBeginsToEnd(s: State, step: Step)
    requires Inv(s) && Enabled(s, step) && IsStopStep(step)
    ensures IsEnding(Apply(s, step), s.held) || IsGone(Apply(s, step), s.held)
    ensures !Apply(s, step).running
  {
    var n := Apply(s, step);
    if s.running {
      var stopper := if s.inCallback && step.t == LISTENER then step.deputy else step.t;
      assert EndsSession(n, stopper, s.held);
    } else if s.stopping {
      var t :| IsStopper(s, t);
      assert EndsSession(s, t, s.held) by {
        assert s.calls[t].Tearing? ==> s.held == map[];
      }
      OthersLeaveStopper(s, step, s.held, t);
    }
  }

  lemma {:induction false} EndingOverExecution(states: seq<State>, steps: seq<Step>, i: nat, j: nat, h: Held)
    requires IsExecution(states, steps) && i <= j < |states|
    requires IsEnding(states[i], h) || IsGone(states[i], h)
    ensures IsEnding(states[j], h) || IsGone(states[j], h)
    decreases j
  {
    hide Inv, Enabled, Apply, IsEnding, IsGone;
    if i < j {
      EndingOverExecution(states, steps, i, j - 1, h);
      EveryReachableStateKeepsInv(states, steps, j - 1);
      assert Enabled(states[j - 1], steps[j - 1]) && states[j - 1 + 1] == Apply(states[j - 1], steps[j - 1]);
      EndingGoesOn(states[j - 1], steps[j - 1], h);
    }
  }

  /** Every `stop` takes effect, also one from an error callback, and one from the frame callback, which hands the
      work to a deputy: the camera stops running at once, and whenever no stop is in progress afterwards, every
      handle that was there has been released. */
  lemma StopTakesEffect(states: seq<State>, steps: seq<Step>, i: nat, j: nat)
    requires IsExecution(states, steps) && i < j < |states| && IsStopStep(steps[i])
    ensures !states[i + 1].running
    ensures !states[j].stopping ==> IsGone(states[j], states[i].held)
  {
    hide Inv, Enabled, Apply;
    EveryReachableStateKeepsInv(states, steps, i);
    assert Enabled(states[i], steps[i]) && states[i + 1] == Apply(states[i], steps[i]);
    StopBeginsToEnd(states[i], steps[i]);
    EndingOverExecution(states, steps, i + 1, j, states[i].held);
  }

  /** Where a caller of `stop`, or an error callback, is with respect to the session it came upon. */
  ghost predicate CallEnds(s: State, t: nat, h: Held) {
    if t !in s.calls then IsGone(s, h)
    else match s.calls[t]
         case ErrorSeen => IsLive(s, h) || IsEnding(s, h) || IsGone(s, h)
         case StopWaiting => IsEnding(s, h) || IsGone(s, h)
         case AwaitingCallback => IsEnding(s, h) || IsGone(s, h)
         case Tearing(_, _, stopper) => stopper && (IsEnding(s, h) || IsGone(s, h))
         case _ => false
  }

  lemma NobodyAwaits(s: State)
    requires Flags(s) && s.running
    ensures forall u :: u in s.calls ==> !s.calls[u].AwaitingCallback?
  {
    assert forall u :: u in s.calls && s.calls[u].AwaitingCallback? ==> IsStopper(s, u);
  }

  /** A running session goes on running until a stop begins to end it. */
  lemma LiveGoesOn(s: State, step: Step, h: Held)
    requires Inv(s) && Enabled(s, step) && IsLive(s, h)
    ensures var n := Apply(s, step); IsLive(n, h) || IsEnding(n, h) || IsGone(n, h)
  {
    NobodyStarts(s);
    NobodyAwaits(s);
    hide Flags, Lock, Accounts, Ordered, Guard;
    if IsStopStep(step) {
      StopBeginsToEnd(s, step);
    }
  }

  lemma CallStepEnds(s: State, step: Step, t: nat, h: Held)
    requires Inv(s) && Enabled(s, step) && t in s.calls && CallEnds(s, t, h) && t != LISTENER
    requires IsLive(Apply(s, step), h) || IsEnding(Apply(s, step), h) || IsGone(Apply(s, step), h)
    requires IsEnding(s, h) || IsGone(s, h) ==> IsEnding(Apply(s, step), h) || IsGone(Apply(s, step), h)
    ensures CallEnds(Apply(s, step), t, h)
  {
    hide IsGone, EndsSession, Accounts, Ordered, Guard, Lock;
    if !MovesCall(step, t) {
      OthersDoNotMoveCall(s, step, t);
      hide Apply;
    }
  }

  lemma {:induction false} CallEndsOverExecution(states: seq<State>, steps: seq<Step>, i: nat, j: nat, t: nat, h: Held)
    requires IsExecution(states, steps) && i <= j < |states| && t != LISTENER
    requires forall k :: i <= k < j ==> t in states[k].calls
    requires CallEnds(states[i], t, h)
    ensures CallEnds(states[j], t, h)
    decreases j
  {
    hide Inv, Enabled, Apply, IsEnding, IsGone, IsLive;
    if i < j {
      var s, step := states[j - 1], steps[j - 1];
      CallEndsOverExecution(states, steps, i, j - 1, t, h);
      EveryReachableStateKeepsInv(states, steps, j - 1);
      assert Enabled(s, step) && states[j - 1 + 1] == Apply(s, step);
      if IsEnding(s, h) || IsGone(s, h) {
        EndingGoesOn(s, step, h);
      } else {
        LiveGoesOn(s, step, h);
      }
      CallStepEnds(s, step, t, h);
    }
  }

  /** Every thread but the frame callback's that calls `stop`, and every error callback that finds the camera
      running, returns only once every handle of the session it came upon has been released. */
  lemma StoppersReturnAfterTheRelease(states: seq<State>, steps: seq<Step>, i: nat, j: nat, t: nat)
    requires IsExecution(states, steps) && i < j < |states| && t != LISTENER
    requires (steps[i].StopCall? || (steps[i].ErrorCheck? && states[i].running)) && steps[i].t == t
    requires t !in states[j].calls && forall k :: i < k < j ==> t in states[k].calls
    ensures IsGone(states[j], states[i].held)
  {
    hide Inv, Enabled, IsEnding, IsGone;
    EveryReachableStateKeepsInv(states, steps, i);
    var s, step, n := states[i], steps[i], states[i + 1];
    assert Enabled(s, step) && n == Apply(s, step);
    if step.StopCall? {
      StopBeginsToEnd(s, step);
      if t !in n.calls {
        assert !IsEnding(n, s.held) by {
          ReturningStopFindsNothing(s, step);
        }
      }
    } else {
      FlagsOfRunning(s);
    }
    hide Apply;
    CallEndsOverExecution(states, steps, i + 1, j, t, s.held);
  }

  lemma ReturningStopFindsNothing(s: State, step: Step)
    requires Enabled(s, step) && step.StopCall? && step.t != LISTENER && step.t !in Apply(s, step).calls
    ensures !IsEnding(Apply(s, step), s.held)
  {
  }

  lemma FlagsOfRunning(s: State)
    requires Inv(s) && s.running
    ensures !s.stopping
  {
  }

  // ---------------------------------------------------------------- start

  /** The attempt of thread `t` to open the camera fails. */
  predicate FailsFor(step: Step, t: nat) {
    step.StartEnds? && step.t == t && !step.ok
  }

  /** Thread `t`, in a `start`, is on its way to a running camera or, after an attempt with the handles `failed`, to
      a return that leaves none of them behind. */
  predicate StartIsUnderWay(s: State, t: nat, failed: Option<Held>) {
    t in s.calls
    && match s.calls[t]
       case StartWaiting => true
       case Starting => true
       case Tearing(pending, _, stopper) => !stopper && failed.Some? && StillToRelease(s, pending, failed.value)
       case _ => false
  }

  lemma StartIsEntered(s: State, step: Step, t: nat)
    requires Enabled(s, step) && (step == StartCall(t) || step == StartBlocks(t))
    ensures if t in Apply(s, step).calls then StartIsUnderWay(Apply(s, step), t, None) else Apply(s, step).running
  {
  }

  lemma StartMovesOn(s: State, step: Step, t: nat)
    requires Enabled(s, step) && t in s.calls && (s.calls[t].StartWaiting? || s.calls[t].Starting?)
    ensures var n := Apply(s, step);
            if FailsFor(step, t) then StartIsUnderWay(n, t, Some(step.held))
            else if t in n.calls then n.calls[t].StartWaiting? || n.calls[t].Starting?
            else n.running
  {
    if !MovesCall(step, t) {
      OthersDoNotMoveCall(s, step, t);
      hide Apply;
    }
  }

  lemma StartGoesOn(s: State, step: Step, t: nat, failed: Option<Held>)
    requires Inv(s) && Enabled(s, step) && StartIsUnderWay(s, t, failed)
    ensures var n := Apply(s, step);
            if t in n.calls then StartIsUnderWay(n, t, if FailsFor(step, t) then Some(step.held) else failed)
            else n.running || (failed.Some? && IsGone(n, failed.value))
  {
    hide Inv, Apply, StillToRelease, IsGone;
    if s.calls[t].Tearing? {
      assert !FailsFor(step, t);
      TearingGoesOn(s, step, t, failed.value);
    } else {
      StartMovesOn(s, step, t);
    }
  }

  /** The handles are those of a failed attempt of thread `t` between steps `i` and `j`. */
  ghost predicate IsFailedAttempt(steps: seq<Step>, i: nat, j: nat, t: nat, failed: Held)
    requires j <= |steps|
  {
    exists k :: i < k < j && FailsFor(steps[k], t) && steps[k].held == failed
  }

  lemma {:induction false} StartGoesOnOverExecution(states: seq<State>, steps: seq<Step>, i: nat, j: nat, t: nat)
    returns (failed: Option<Held>)
    requires IsExecution(states, steps) && i < j < |states|
    requires steps[i] == StartCall(t) || steps[i] == StartBlocks(t)
    requires forall k :: i < k <= j ==> t in states[k].calls
    ensures StartIsUnderWay(states[j], t, failed)
    ensures failed.Some? ==> IsFailedAttempt(steps, i, j, t, failed.value)
    decreases j
  {
    hide Inv, Enabled, Apply, StartIsUnderWay;
    var s, step := states[j - 1], steps[j - 1];
    assert Enabled(s, step) && states[j - 1 + 1] == Apply(s, step);
    if i == j - 1 {
      StartIsEntered(s, step, t);
      failed := None;
    } else {
      failed := StartGoesOnOverExecution(states, steps, i, j - 1, t);
      EveryReachableStateKeepsInv(states, steps, j - 1);
      StartGoesOn(s, step, t, failed);
      if FailsFor(step, t) {
        failed := Some(step.held);
      }
    }
  }

  /** Every `start` returns with the camera running, or after an attempt of its own to open the camera has failed
      and every handle that it had acquired has been released. */
  lemma StartReturnsRunningOrReleased(states: seq<State>, steps: seq<Step>, i: nat, j: nat, t: nat)
    requires IsExecution(states, steps) && i < j < |states|
    requires steps[i] == StartCall(t) || steps[i] == StartBlocks(t)
    requires t !in states[j].calls && forall k :: i < k < j ==> t in states[k].calls
    ensures states[j].running || exists k :: i < k < j && FailsFor(steps[k], t) && IsGone(states[j], steps[k].held)
  {
    hide Inv, Enabled, Apply, StartIsUnderWay, IsGone;
    var s, step := states[j - 1], steps[j - 1];
    assert Enabled(s, step) && states[j - 1 + 1] == Apply(s, step);
    if i == j - 1 {
      StartIsEntered(s, step, t);
    } else {
      var failed := StartGoesOnOverExecution(states, steps, i, j - 1, t);
      EveryReachableStateKeepsInv(states, steps, j - 1);
      StartGoesOn(s, step, t, failed);
    }
  }

  // ---------------------------------------------------------------- every call goes on

  /** How many steps of its own a call has left at most. */
  function StepsLeft(s: State, t: nat): nat {
    if t !in s.calls then 0
    else match s.calls[t]
         case StopWaiting => 1
         case Tearing(_, next, _) => if next < 8 then 9 - next else 1
         case AwaitingCallback => 10
         case Starting => 10
         case StartWaiting => 11
         case ErrorSeen => 11
  }

  lemma EveryOwnStepCounts(s: State, step: Step, t: nat)
    requires Enabled(s, step) && t in s.calls
    ensures StepsLeft(Apply(s, step), t) <= StepsLeft(s, t) - if MovesCall(step, t) then 1 else 0
  {
    if !MovesCall(step, t) {
      OthersDoNotMoveCall(s, step, t);
      hide Apply;
    }
  }

  function OwnSteps(steps: seq<Step>, i: nat, j: nat, t: nat): nat
    requires i <= j <= |steps|
    decreases j
  {
    if i == j then 0 else OwnSteps(steps, i, j - 1, t) + if MovesCall(steps[j - 1], t) then 1 else 0
  }

  /** Every call of any thread takes at most 11 steps more after its first, whatever happens between them. */
  lemma {:induction false} CallsTakeFewSteps(states: seq<State>, steps: seq<Step>, i: nat, j: nat, t: nat)
    requires IsExecution(states, steps) && i <= j < |states|
    requires forall k :: i <= k < j ==> t in states[k].calls
    ensures OwnSteps(steps, i, j, t) + StepsLeft(states[j], t) <= StepsLeft(states[i], t) <= 11
    decreases j
  {
    hide Enabled, Apply, StepsLeft, MovesCall;
    StepsLeftIsBounded(states[i], t);
    if i < j {
      CallsTakeFewSteps(states, steps, i, j - 1, t);
      assert Enabled(states[j - 1], steps[j - 1]) && states[j - 1 + 1] == Apply(states[j - 1], steps[j - 1]);
      EveryOwnStepCounts(states[j - 1], steps[j - 1], t);
    }
  }

  lemma StepsLeftIsBounded(s: State, t: nat)
    ensures StepsLeft(s, t) <= 11
  {
  }

  /** A step of a call in progress, or of a frame callback in progress. */
  predicate Continues(s: State, step: Step) {
    match step
    case EnterGuard => true
    case GiveUp => true
    case SecondCheck => true
    case UserReturns => true
    case LeaveGuard => true
    case FirstCheck => false
    case _ => step.t in s.calls
  }

  /** Some call in progress can always go on, or the frame callback can, unless that callback waits for the stop
      that waits for it. */
  lemma OnlyTheCallbackBlocks(s: State)
    requires Inv(s) && s.calls != map[] && !(s.stopping && CallbackWaits(s))
    ensures exists step :: Enabled(s, step) && Continues(s, step)
  {
    if s.stopping {
      StopIsStuckIffCallbackWaits(s);
      var step :| Enabled(s, step) && Advances(s, step);
      assert Continues(s, step);
    } else if s.locked {
      var t :| IsStarting(s, t);
      NothingAcquired(s.frees);
      var step := StartEnds(t, false, map[], s.frees, CAMERA_NO_DEVICE);
      assert Enabled(s, step) && Continues(s, step);
    } else {
      var t :| t in s.calls;
      NextStepIsEnabled(s, t);
    }
  }

  lemma NextStepIsEnabled(s: State, t: nat)
    requires Inv(s) && t in s.calls && !s.stopping && !s.locked
    ensures exists step :: Enabled(s, step) && Continues(s, step)
  {
    assert !IsStarting(s, t) && !IsStopper(s, t);
    var above := SomethingAbove(s.calls.Keys);
    var step := match s.calls[t]
      case StartWaiting => StartResumes(t)
      case StopWaiting => StopResumes(t)
      case ErrorSeen => ErrorStops(t, above + 1)
      case Tearing(_, next, _) => if next < |RELEASE_ORDER| then Release(t) else TeardownEnds(t)
      case _ => FirstCheck;
    assert Enabled(s, step) && Continues(s, step);
  }

  // ---------------------------------------------------------------- the frame callback

  /** The user's callback has got the frame, after step `i` and up to state `j`. */
  ghost predicate IsDelivered(states: seq<State>, i: nat, j: nat)
    requires j < |states|
  {
    exists k :: i < k <= j && states[k].listener.InUser?
  }

  /** The second running check has found the camera running, after step `i` and before state `j`. */
  ghost predicate PassesSecondCheck(states: seq<State>, steps: seq<Step>, i: nat, j: nat)
    requires j <= |steps| < |states|
  {
    exists k :: i < k < j && steps[k].SecondCheck? && states[k].running
  }

  lemma ListenerStep(s: State, step: Step)
    requires Enabled(s, step)
    ensures Apply(s, step).listener.InUser? && !s.listener.InUser? ==> step.SecondCheck? && s.running
    ensures step.SecondCheck? && s.running ==> Apply(s, step).listener.InUser?
  {
  }

  lemma DeliveredOneMore(states: seq<State>, steps: seq<Step>, i: nat, j: nat)
    requires IsExecution(states, steps) && i < j < |steps|
    requires IsDelivered(states, i, j) <==> PassesSecondCheck(states, steps, i, j)
    ensures IsDelivered(states, i, j + 1) <==> PassesSecondCheck(states, steps, i, j + 1)
  {
    hide Enabled, Apply;
    assert Enabled(states[j], steps[j]) && states[j + 1] == Apply(states[j], steps[j]);
    ListenerStep(states[j], steps[j]);
    if IsDelivered(states, i, j + 1) {
      var k :| i < k <= j + 1 && states[k].listener.InUser?;
      assert k <= j || states[j].listener.InUser? ==> IsDelivered(states, i, j);
    }
    if PassesSecondCheck(states, steps, i, j + 1) {
      var k :| i < k < j + 1 && steps[k].SecondCheck? && states[k].running;
      assert k < j ==> PassesSecondCheck(states, steps, i, j);
    }
  }

  lemma {:induction false} DeliveredIffChecked(states: seq<State>, steps: seq<Step>, i: nat, j: nat)
    requires IsExecution(states, steps) && i < j < |states| && steps[i].FirstCheck?
    ensures IsDelivered(states, i, j) <==> PassesSecondCheck(states, steps, i, j)
    decreases j
  {
    hide Apply;
    if j == i + 1 {
      FirstCheckDeliversNothing(states[i], steps[i]);
    } else {
      DeliveredIffChecked(states, steps, i, j - 1);
      DeliveredOneMore(states, steps, i, j - 1);
    }
  }

  lemma FirstCheckDeliversNothing(s: State, step: Step)
    requires Enabled(s, step) && step.FirstCheck?
    ensures !Apply(s, step).listener.InUser?
    ensures !s.running ==> Apply(s, step).listener.Away?
  {
  }

  /** A frame reaches the user's callback if and only if the camera was running at the first check and is running,
      in this session or a later one, at the second. */
  lemma FrameIsDeliveredIff(states: seq<State>, steps: seq<Step>, i: nat, j: nat)
    requires IsExecution(states, steps) && i < j < |states| && steps[i].FirstCheck?
    requires forall k :: i < k < j ==> !states[k].listener.Away?
    ensures IsDelivered(states, i, j) <==> states[i].running && PassesSecondCheck(states, steps, i, j)
  {
    hide Apply, Enabled, IsDelivered, PassesSecondCheck;
    DeliveredIffChecked(states, steps, i, j);
    if !states[i].running {
      assert Enabled(states[i], steps[i]) && states[i + 1] == Apply(states[i], steps[i]);
      FirstCheckDeliversNothing(states[i], steps[i]);
      NothingDeliveredYet(states, i);
    }
  }

  lemma NothingDeliveredYet(states: seq<State>, i: nat)
    requires i + 1 < |states| && !states[i + 1].listener.InUser?
    ensures !IsDelivered(states, i, i + 1)
  {
  }
}
