/** Where every event and every flag of a session comes from, and what each of its threads does from its start to
    its end, in any interleaving. */
module SessionRuns {
  import opened Wrappers
  import opened FramePipeline

  // ---------------------------------------------------------------- what an event answers

  /** The step that decides that event `e` is to be posted. */
  predicate Causes(s: State, step: Step, e: Event)
    requires Enabled(s, step)
  {
    match e
    case Armed(m) => step.Arms? && s.threads[step.t].m == m
    case Succeeded(m) => step.Runs? && s.threads[step.t].m == m && step.outcome == Success
    case Informed(m) => step.Runs? && s.threads[step.t].m == m && step.outcome == Info
    case Canceled => step.CancelReadsNext? && ReadsSetFlag(s, s.threads[step.t].i)
    case CameraFailed(m) => step.CameraAnswers? && s.threads[step.t].m == m && !step.ok
  }

  predicate ReadsSetFlag(s: State, i: nat) {
    i < |CANCEL_ORDER| && CANCEL_ORDER[i] in s.flags
  }

  /** Thread `t` is on its way to posting `e`. */
  predicate Owes(s: State, t: nat, e: Event) {
    t in s.threads
    && match s.threads[t]
       case WorkerClears(m) => e == Succeeded(m)
       case WorkerPosts(result) => e == result
       case OpDisarms(m) => e == CameraFailed(m)
       case OpReports(m) => e == CameraFailed(m)
       case CancelReports => e == Canceled
       case _ => false
  }

  function Owed(s: State, e: Event): set<nat> {
    set t | t in s.threads && Owes(s, t, e)
  }

  lemma OthersDoNotMove(s: State, step: Step, t: nat)
    requires Enabled(s, step) && step.t != t
    ensures t in s.threads ==> t in Apply(s, step).threads && Apply(s, step).threads[t] == s.threads[t]
    ensures t !in s.threads && t in Apply(s, step).threads ==> Apply(s, step).threads[t] == WorkerCheck
  {
  }

  function Posted(s: State, step: Step): seq<Event>
    requires Enabled(s, step)
  {
    match step
    case Posts(t) => [s.threads[t].result]
    case Arms(t) => [Armed(s.threads[t].m)]
    case Reports(t) => [CameraFailed(s.threads[t].m)]
    case CancelReportsNow(_) => [Canceled]
    case _ => []
  }

  lemma LogGrowsByPosted(s: State, step: Step, e: Event)
    requires Enabled(s, step)
    ensures Count(Apply(s, step).log, e) == Count(s.log, e) + if Posted(s, step) == [e] then 1 else 0
  {
    var posted := Posted(s, step);
    assert Apply(s, step).log == if posted == [] then s.log else s.log + [posted[0]];
    hide Apply, Posted;
    if posted != [] {
      CountOfMore(s.log, e, posted[0]);
    }
  }

  predicate IsWorkerStep(step: Step) {
    step.Runs? || step.Clears? || step.Posts?
  }

  lemma WorkerConserves(s: State, step: Step, e: Event)
    requires Enabled(s, step) && IsWorkerStep(step)
    ensures (if Posted(s, step) == [e] then 1 else 0) + (if Owes(Apply(s, step), step.t, e) then 1 else 0)
         == (if Owes(s, step.t, e) then 1 else 0) + (if Causes(s, step, e) then 1 else 0)
  {
  }

  lemma OthersConserve(s: State, step: Step, e: Event)
    requires Enabled(s, step) && !IsWorkerStep(step)
    ensures (if Posted(s, step) == [e] then 1 else 0) + (if Owes(Apply(s, step), step.t, e) then 1 else 0)
         == (if Owes(s, step.t, e) then 1 else 0) + (if Causes(s, step, e) then 1 else 0)
  {
  }

  /** The stepping thread's post is paid for by what it owed or by the step itself. */
  lemma StepperConserves(s: State, step: Step, e: Event)
    requires Enabled(s, step)
    ensures (if Posted(s, step) == [e] then 1 else 0) + (if Owes(Apply(s, step), step.t, e) then 1 else 0)
         == (if Owes(s, step.t, e) then 1 else 0) + (if Causes(s, step, e) then 1 else 0)
  {
    hide Posted, Owes, Apply, Causes, Enabled;
    if IsWorkerStep(step) {
      WorkerConserves(s, step, e);
    } else {
      OthersConserve(s, step, e);
    }
  }

  lemma SizeWithout(ids: set<nat>, t: nat)
    ensures |ids| == |ids - {t}| + if t in ids then 1 else 0
  {
    if t in ids {
      assert ids == ids - {t} + {t};
    } else {
      assert ids == ids - {t};
    }
  }

  lemma OthersOweTheSame(s: State, step: Step, e: Event, t: nat)
    requires Enabled(s, step) && step.t != t
    ensures Owes(Apply(s, step), t, e) <==> Owes(s, t, e)
  {
    OthersDoNotMove(s, step, t);
    hide Apply;
  }

  lemma OnlyTheStepperChangesOwed(s: State, step: Step, e: Event)
    requires Enabled(s, step)
    ensures Owed(Apply(s, step), e) - {step.t} == Owed(s, e) - {step.t}
  {
    hide Apply, Enabled, Owes;
    OwersAreThreads(s, e);
    OwersAreThreads(Apply(s, step), e);
    forall t | t != step.t
      ensures Owes(Apply(s, step), t, e) <==> Owes(s, t, e)
    {
      OthersOweTheSame(s, step, e, t);
    }
    hide Owed;
  }

  lemma StepConserves(s: State, step: Step, e: Event)
    requires Enabled(s, step)
    ensures var n := Apply(s, step);
            Count(n.log, e) + |Owed(n, e)| == Count(s.log, e) + |Owed(s, e)| + if Causes(s, step, e) then 1 else 0
  {
    hide Apply, Enabled, Owes, Owed, Posted, Causes, Count;
    var n, t := Apply(s, step), step.t;
    LogGrowsByPosted(s, step, e);
    StepperConserves(s, step, e);
    OnlyTheStepperChangesOwed(s, step, e);
    OwersAreThreads(s, e);
    OwersAreThreads(n, e);
    SizeWithout(Owed(n, e), t);
    SizeWithout(Owed(s, e), t);
  }

  lemma OwersAreThreads(s: State, e: Event)
    ensures forall t :: t in Owed(s, e) <==> Owes(s, t, e)
  {
  }

  ghost function CauseCount(states: seq<State>, steps: seq<Step>, n: nat, e: Event): nat
    requires n <= |steps| < |states|
  {
    if n == 0 then 0
    else CauseCount(states, steps, n - 1, e)
         + if Enabled(states[n - 1], steps[n - 1]) && Causes(states[n - 1], steps[n - 1], e) then 1 else 0
  }

  /** Every event answers exactly one cause, and every cause is answered or on its way to being answered: a camera
      that does not start by one camera error, an engine's success or other answer by one result, a flag that a
      `cancel` reads as set by one cancellation error. */
  lemma {:induction false} EventsAnswerCauses(states: seq<State>, steps: seq<Step>, n: nat, e: Event)
    requires IsExecution(states, steps) && n <= |steps|
    ensures CauseCount(states, steps, n, e) == Count(states[n].log, e) + |Owed(states[n], e)|
  {
    hide Enabled, Apply, Causes;
    if n == 0 {
      assert Owed(Init(), e) == {};
    } else {
      EventsAnswerCauses(states, steps, n - 1, e);
      assert Enabled(states[n - 1], steps[n - 1]) && states[n - 1 + 1] == Apply(states[n - 1], steps[n - 1]);
      hide Count, Owed;
      StepConserves(states[n - 1], steps[n - 1], e);
    }
  }

  // ---------------------------------------------------------------- where the flags come from

  /** Some step in `on` comes before `n`, and no step in `off` between them. */
  ghost predicate IsOn(on: set<nat>, off: set<nat>, n: nat) {
    exists k :: k in on && k < n && NoneBetween(off, k, n)
  }

  predicate NoneBetween(off: set<nat>, k: nat, n: nat) {
    forall l :: k < l < n ==> l !in off
  }

  lemma OnOneMore(on: set<nat>, off: set<nat>, n: nat)
    ensures IsOn(on, off, n + 1) <==> n in on || (IsOn(on, off, n) && n !in off)
  {
    if IsOn(on, off, n + 1) {
      var k :| k in on && k < n + 1 && NoneBetween(off, k, n + 1);
      assert k < n ==> NoneBetween(off, k, n) && n !in off;
    }
    if n in on {
      assert NoneBetween(off, n, n + 1);
    } else if IsOn(on, off, n) && n !in off {
      var k :| k in on && k < n && NoneBetween(off, k, n);
      assert NoneBetween(off, k, n + 1);
    }
  }

  predicate Sets(s: State, step: Step, m: Mode) {
    step.Arms? && At(s, step.t, OpStarted(m))
  }

  predicate Resets(s: State, step: Step, m: Mode) {
    || (step.Clears? && At(s, step.t, WorkerClears(m)))
    || (step.Disarms? && At(s, step.t, OpDisarms(m)))
    || (step.CancelClearsNext? && step.t in s.threads && s.threads[step.t].CancelClears?
        && s.threads[step.t].i < |CANCEL_ORDER| && CANCEL_ORDER[s.threads[step.t].i] == m)
  }

  predicate EndsCancel(s: State, step: Step) {
    step.CancelClearsNext? && step.t in s.threads && s.threads[step.t].CancelClears?
    && s.threads[step.t].i >= |CANCEL_ORDER|
  }

  function Setting(states: seq<State>, steps: seq<Step>, m: Mode): set<nat>
    requires |steps| < |states|
  {
    set k: nat | k < |steps| && Sets(states[k], steps[k], m)
  }

  function Resetting(states: seq<State>, steps: seq<Step>, m: Mode): set<nat>
    requires |steps| < |states|
  {
    set k: nat | k < |steps| && Resets(states[k], steps[k], m)
  }

  lemma FlagAfterStep(s: State, step: Step, m: Mode)
    requires Enabled(s, step)
    ensures m in Apply(s, step).flags <==> Sets(s, step, m) || (m in s.flags && !Resets(s, step, m))
  {
  }

  /** A mode's flag is set if and only if an operation of that mode has set it and since then no worker's success,
      no failed operation of the mode and no `cancel` has taken it away. */
  lemma {:induction false} FlagIsSetIff(states: seq<State>, steps: seq<Step>, n: nat, m: Mode)
    requires IsExecution(states, steps) && n <= |steps|
    ensures m in states[n].flags <==> IsOn(Setting(states, steps, m), Resetting(states, steps, m), n)
  {
    hide Enabled, Apply, Sets, Resets, IsOn;
    if n == 0 {
      NothingIsOnFirst(Setting(states, steps, m), Resetting(states, steps, m));
    } else {
      FlagIsSetIff(states, steps, n - 1, m);
      assert Enabled(states[n - 1], steps[n - 1]) && states[n - 1 + 1] == Apply(states[n - 1], steps[n - 1]);
      FlagAfterStep(states[n - 1], steps[n - 1], m);
      OnOneMore(Setting(states, steps, m), Resetting(states, steps, m), n - 1);
    }
  }

  lemma NothingIsOnFirst(on: set<nat>, off: set<nat>)
    ensures !IsOn(on, off, 0)
  {
  }

  function Winning(states: seq<State>, steps: seq<Step>): set<nat>
    requires |steps| < |states|
  {
    set k: nat | k < |steps| && steps[k].FrameCompetes? && !states[k].processing
  }

  function Leavings(steps: seq<Step>): set<nat> {
    set k: nat | k < |steps| && steps[k].Leaves?
  }

  lemma ProcessingAfterStep(s: State, step: Step)
    requires Enabled(s, step)
    ensures Apply(s, step).processing
       <==> (step.FrameCompetes? && !s.processing) || (s.processing && !step.Leaves?)
  {
  }

  /** A frame is being processed if and only if a camera thread has won the gate and no worker has left since. */
  lemma {:induction false} ProcessingIff(states: seq<State>, steps: seq<Step>, n: nat)
    requires IsExecution(states, steps) && n <= |steps|
    ensures states[n].processing <==> IsOn(Winning(states, steps), Leavings(steps), n)
  {
    hide Enabled, Apply, IsOn;
    if n == 0 {
      NothingIsOnFirst(Winning(states, steps), Leavings(steps));
    } else {
      ProcessingIff(states, steps, n - 1);
      assert Enabled(states[n - 1], steps[n - 1]) && states[n - 1 + 1] == Apply(states[n - 1], steps[n - 1]);
      ProcessingAfterStep(states[n - 1], steps[n - 1]);
      OnOneMore(Winning(states, steps), Leavings(steps), n - 1);
    }
  }

  function EndingCancels(states: seq<State>, steps: seq<Step>): set<nat>
    requires |steps| < |states|
  {
    set k: nat | k < |steps| && EndsCancel(states[k], steps[k])
  }

  function Beginnings(steps: seq<Step>): set<nat> {
    set k: nat | k < |steps| && steps[k].Begins?
  }

  lemma CancelledAfterStep(s: State, step: Step)
    requires Enabled(s, step)
    ensures Apply(s, step).cancelled <==> EndsCancel(s, step) || (s.cancelled && !step.Begins?)
  {
  }

  /** Frames are being dropped as cancelled if and only if a `cancel` has ended and no operation has begun since. */
  lemma {:induction false} CancelledIff(states: seq<State>, steps: seq<Step>, n: nat)
    requires IsExecution(states, steps) && n <= |steps|
    ensures states[n].cancelled <==> IsOn(EndingCancels(states, steps), Beginnings(steps), n)
  {
    hide Enabled, Apply, EndsCancel, IsOn;
    if n == 0 {
      NothingIsOnFirst(EndingCancels(states, steps), Beginnings(steps));
    } else {
      CancelledIff(states, steps, n - 1);
      assert Enabled(states[n - 1], steps[n - 1]) && states[n - 1 + 1] == Apply(states[n - 1], steps[n - 1]);
      CancelledAfterStep(states[n - 1], steps[n - 1]);
      OnOneMore(EndingCancels(states, steps), Beginnings(steps), n - 1);
    }
  }

  // ---------------------------------------------------------------- what one thread does

  /** A step of a thread, with the session before and after it. */
  datatype Act = Act(step: Step, before: State, after: State)

  /** What thread `t` does from state `i` to state `j`, in order. */
  function Acts(states: seq<State>, steps: seq<Step>, i: nat, j: nat, t: nat): seq<Act>
    requires i <= j <= |steps| < |states|
    decreases j
  {
    if i == j then []
    else Acts(states, steps, i, j - 1, t)
         + if steps[j - 1].t == t then [Act(steps[j - 1], states[j - 1], states[j])] else []
  }

  function Position(s: State, t: nat): Option<Pc> {
    if t in s.threads then Some(s.threads[t]) else None
  }

  /** Thread `t` is in the call that it entered with step `i`, up to state `j`, where it may have left it. */
  predicate IsIn(states: seq<State>, i: nat, j: nat, t: nat)
    requires j < |states|
  {
    forall k :: i < k < j ==> t in states[k].threads
  }

  /** The same up to one state earlier, and then possibly one act more. */
  lemma OneAct(states: seq<State>, steps: seq<Step>, i: nat, j: nat, t: nat)
    requires IsExecution(states, steps) && i + 1 < j < |states| && IsIn(states, i, j, t)
    ensures IsIn(states, i, j - 1, t) && t in states[j - 1].threads
    ensures Enabled(states[j - 1], steps[j - 1]) && states[j] == Apply(states[j - 1], steps[j - 1])
    ensures steps[j - 1].t != t ==>
              Position(states[j], t) == Position(states[j - 1], t)
              && Acts(states, steps, i + 1, j, t) == Acts(states, steps, i + 1, j - 1, t)
    ensures steps[j - 1].t == t ==>
              Acts(states, steps, i + 1, j, t)
              == Acts(states, steps, i + 1, j - 1, t) + [Act(steps[j - 1], states[j - 1], states[j])]
  {
    assert states[j - 1 + 1] == Apply(states[j - 1], steps[j - 1]);
    if steps[j - 1].t != t {
      OthersDoNotMove(states[j - 1], steps[j - 1], t);
    }
  }

  // ---------------------------------------------------------------- operations

  predicate LeavesFlagsAndLog(a: Act) {
    a.after.flags == a.before.flags && a.after.log == a.before.log
  }

  predicate SetsFlag(a: Act, m: Mode) {
    a.step.Arms? && a.after.flags == a.before.flags + {m} && a.after.log == a.before.log + [Armed(m)]
  }

  predicate CameraStarts(a: Act, ok: bool) {
    a.step.CameraAnswers? && a.step.ok == ok && LeavesFlagsAndLog(a)
  }

  predicate TakesFlagAway(a: Act, m: Mode) {
    a.step.Disarms? && a.after.flags == a.before.flags - {m} && a.after.log == a.before.log
  }

  predicate ReportsCamera(a: Act, m: Mode) {
    a.step.Reports? && a.after.flags == a.before.flags && a.after.log == a.before.log + [CameraFailed(m)]
  }

  /** What an operation of mode `m` has done at its position. */
  predicate IsOperation(acts: seq<Act>, pos: Option<Pc>, m: Mode) {
    match pos
    case None =>
      || (|acts| == 2 && SetsFlag(acts[0], m) && CameraStarts(acts[1], true))
      || (|acts| == 4 && SetsFlag(acts[0], m) && CameraStarts(acts[1], false) && TakesFlagAway(acts[2], m)
          && ReportsCamera(acts[3], m))
    case Some(pc) =>
      match pc
      case OpStarted(n) => n == m && acts == []
      case OpArmed(n) => n == m && |acts| == 1 && SetsFlag(acts[0], m)
      case OpDisarms(n) => n == m && |acts| == 2 && SetsFlag(acts[0], m) && CameraStarts(acts[1], false)
      case OpReports(n) =>
        n == m && |acts| == 3 && SetsFlag(acts[0], m) && CameraStarts(acts[1], false) && TakesFlagAway(acts[2], m)
      case _ => false
  }

  lemma OperationStep(s: State, step: Step, acts: seq<Act>, m: Mode)
    requires Enabled(s, step) && step.t in s.threads && IsOperation(acts, Position(s, step.t), m)
    ensures IsOperation(acts + [Act(step, s, Apply(s, step))], Position(Apply(s, step), step.t), m)
  {
  }

  lemma {:induction false} OperationGoesOn(states: seq<State>, steps: seq<Step>, i: nat, j: nat, t: nat, m: Mode)
    requires IsExecution(states, steps) && i < j < |states| && steps[i] == Begins(t, m) && IsIn(states, i, j, t)
    ensures IsOperation(Acts(states, steps, i + 1, j, t), Position(states[j], t), m)
    decreases j
  {
    hide IsOperation, IsIn, Enabled, Apply;
    if j == i + 1 {
      assert Enabled(states[i], steps[i]) && states[i + 1] == Apply(states[i], steps[i]);
      OperationIsEntered(states[i], steps[i], m);
    } else {
      OneAct(states, steps, i, j, t);
      OperationGoesOn(states, steps, i, j - 1, t, m);
      if steps[j - 1].t == t {
        OperationStep(states[j - 1], steps[j - 1], Acts(states, steps, i + 1, j - 1, t), m);
      }
    }
  }

  lemma OperationIsEntered(s: State, step: Step, m: Mode)
    requires Enabled(s, step) && step == Begins(step.t, m)
    ensures IsOperation([], Position(Apply(s, step), step.t), m)
  {
  }

  /** An operation sets its flag and has the camera started. If the camera starts, that is all it does; if it does
      not, the operation goes on to take its flag away and to report the camera's failure. */
  lemma OperationRuns(states: seq<State>, steps: seq<Step>, i: nat, j: nat, t: nat, m: Mode)
    requires IsExecution(states, steps) && i < j < |states| && steps[i] == Begins(t, m)
    requires IsIn(states, i, j, t) && t !in states[j].threads
    ensures var acts := Acts(states, steps, i + 1, j, t);
            || (|acts| == 2 && SetsFlag(acts[0], m) && CameraStarts(acts[1], true))
            || (|acts| == 4 && SetsFlag(acts[0], m) && CameraStarts(acts[1], false) && TakesFlagAway(acts[2], m)
                && ReportsCamera(acts[3], m))
  {
    OperationGoesOn(states, steps, i, j, t, m);
  }

  // ---------------------------------------------------------------- cancel

  ghost predicate HasReported(acts: seq<Act>) {
    exists a :: a in acts && a.step.CancelReportsNow? && a.after.log == a.before.log + [Canceled]
  }

  ghost predicate HasReadSet(acts: seq<Act>, m: Mode) {
    exists a :: a in acts && a.step.CancelReadsNext? && m in a.before.flags
  }

  ghost predicate HasReadUnset(acts: seq<Act>, m: Mode) {
    exists a :: a in acts && a.step.CancelReadsNext? && m !in a.before.flags
  }

  ghost predicate HasCleared(acts: seq<Act>, m: Mode) {
    exists a :: a in acts && a.step.CancelClearsNext? && a.after.flags == a.before.flags - {m}
  }

  /** The modes in the first `c` places of `CANCEL_ORDER`. */
  predicate IsAmong(m: Mode, c: nat) {
    exists x :: 0 <= x < c && x < |CANCEL_ORDER| && CANCEL_ORDER[x] == m
  }

  /** What `cancel` has found out and reported once it has gone past its report. */
  ghost predicate HasAnswered(acts: seq<Act>) {
    if HasReported(acts) then exists m :: HasReadSet(acts, m) else forall m :: HasReadUnset(acts, m)
  }

  ghost predicate IsCancel(acts: seq<Act>, pos: Option<Pc>) {
    match pos
    case None => HasAnswered(acts) && forall m :: HasCleared(acts, m)
    case Some(pc) =>
      match pc
      case CancelReads(c) => !HasReported(acts) && forall m :: IsAmong(m, c) ==> HasReadUnset(acts, m)
      case CancelReports => exists m :: HasReadSet(acts, m)
      case CancelClears(c) => HasAnswered(acts) && forall m :: IsAmong(m, c) ==> HasCleared(acts, m)
      case _ => false
  }

  lemma MoreActs(acts: seq<Act>, a: Act, m: Mode)
    ensures HasReported(acts + [a])
       <==> HasReported(acts) || (a.step.CancelReportsNow? && a.after.log == a.before.log + [Canceled])
    ensures HasReadSet(acts + [a], m) <==> HasReadSet(acts, m) || (a.step.CancelReadsNext? && m in a.before.flags)
    ensures HasReadUnset(acts + [a], m)
     <==> HasReadUnset(acts, m) || (a.step.CancelReadsNext? && m !in a.before.flags)
    ensures HasCleared(acts + [a], m)
       <==> HasCleared(acts, m) || (a.step.CancelClearsNext? && a.after.flags == a.before.flags - {m})
  {
    forall b ensures b in acts + [a] <==> b in acts || b == a {
    }
  }

  lemma AmongOneMore(m: Mode, c: nat)
    ensures IsAmong(m, c + 1) <==> IsAmong(m, c) || (c < |CANCEL_ORDER| && CANCEL_ORDER[c] == m)
    ensures c >= |CANCEL_ORDER| ==> IsAmong(m, c)
    ensures !IsAmong(m, 0)
  {
    if c >= |CANCEL_ORDER| {
      assert CANCEL_ORDER[match m case Authenticating => 0 case Enrolling => 1 case Detecting => 2] == m;
    }
  }

  lemma AllModesAreRead(acts: seq<Act>, c: nat)
    requires c >= |CANCEL_ORDER| && forall m :: IsAmong(m, c) ==> HasReadUnset(acts, m)
    ensures forall m :: HasReadUnset(acts, m)
  {
    hide HasReadUnset, IsAmong;
    forall m ensures HasReadUnset(acts, m) {
      AmongOneMore(m, c);
    }
  }

  lemma ReadStep(s: State, step: Step, acts: seq<Act>)
    requires Enabled(s, step) && step.CancelReadsNext? && IsCancel(acts, Position(s, step.t))
    ensures IsCancel(acts + [Act(step, s, Apply(s, step))], Position(Apply(s, step), step.t))
  {
    var a, c := Act(step, s, Apply(s, step)), s.threads[step.t].i;
    hide HasReported, HasReadSet, HasReadUnset, HasCleared, IsAmong;
    if c >= |CANCEL_ORDER| {
      AllModesAreRead(acts, c);
    }
    forall m
      ensures !HasReported(acts + [a]) && !IsAmong(m, 0)
      ensures HasReadUnset(acts, m) || (c < |CANCEL_ORDER| && CANCEL_ORDER[c] == m && m !in s.flags) ==>
                HasReadUnset(acts + [a], m)
      ensures c < |CANCEL_ORDER| && CANCEL_ORDER[c] == m && m in s.flags ==> HasReadSet(acts + [a], m)
      ensures IsAmong(m, c + 1) <==> IsAmong(m, c) || (c < |CANCEL_ORDER| && CANCEL_ORDER[c] == m)
    {
      MoreActs(acts, a, m);
      AmongOneMore(m, c);
      AmongOneMore(m, 0);
    }
  }

  lemma ReportStep(s: State, step: Step, acts: seq<Act>)
    requires Enabled(s, step) && step.CancelReportsNow? && IsCancel(acts, Position(s, step.t))
    ensures IsCancel(acts + [Act(step, s, Apply(s, step))], Position(Apply(s, step), step.t))
  {
    var a := Act(step, s, Apply(s, step));
    hide HasReported, HasReadSet, HasReadUnset, HasCleared, IsAmong;
    var m :| HasReadSet(acts, m);
    MoreActs(acts, a, m);
    forall n ensures !IsAmong(n, 0) {
      AmongOneMore(n, 0);
    }
  }

  lemma ClearStep(s: State, step: Step, acts: seq<Act>)
    requires Enabled(s, step) && step.CancelClearsNext? && IsCancel(acts, Position(s, step.t))
    ensures IsCancel(acts + [Act(step, s, Apply(s, step))], Position(Apply(s, step), step.t))
  {
    var a, c := Act(step, s, Apply(s, step)), s.threads[step.t].i;
    hide HasReported, HasReadSet, HasReadUnset, HasCleared, IsAmong;
    forall m
      ensures HasReported(acts + [a]) <==> HasReported(acts)
      ensures HasReadSet(acts + [a], m) <==> HasReadSet(acts, m)
      ensures HasReadUnset(acts + [a], m) <==> HasReadUnset(acts, m)
      ensures HasCleared(acts, m) || (c < |CANCEL_ORDER| && CANCEL_ORDER[c] == m) ==> HasCleared(acts + [a], m)
      ensures IsAmong(m, c + 1) <==> IsAmong(m, c) || (c < |CANCEL_ORDER| && CANCEL_ORDER[c] == m)
      ensures c >= |CANCEL_ORDER| ==> IsAmong(m, c)
    {
      MoreActs(acts, a, m);
      AmongOneMore(m, c);
    }
  }

  lemma CancelStep(s: State, step: Step, acts: seq<Act>)
    requires Enabled(s, step) && step.t in s.threads && IsCancel(acts, Position(s, step.t))
    ensures IsCancel(acts + [Act(step, s, Apply(s, step))], Position(Apply(s, step), step.t))
  {
    hide Apply, HasAnswered, HasReported, HasReadSet, HasReadUnset, HasCleared, IsAmong;
    match s.threads[step.t]
    case CancelReads(_) => ReadStep(s, step, acts);
    case CancelReports => ReportStep(s, step, acts);
    case CancelClears(_) => ClearStep(s, step, acts);
  }

  lemma {:induction false} CancelGoesOn(states: seq<State>, steps: seq<Step>, i: nat, j: nat, t: nat)
    requires IsExecution(states, steps) && i < j < |states| && steps[i] == CancelBegins(t) && IsIn(states, i, j, t)
    ensures IsCancel(Acts(states, steps, i + 1, j, t), Position(states[j], t))
    decreases j
  {
    hide IsCancel, IsIn, Enabled, Apply;
    if j == i + 1 {
      assert Enabled(states[i], steps[i]) && states[i + 1] == Apply(states[i], steps[i]);
      CancelIsEntered(states[i], steps[i]);
    } else {
      OneAct(states, steps, i, j, t);
      CancelGoesOn(states, steps, i, j - 1, t);
      if steps[j - 1].t == t {
        CancelStep(states[j - 1], steps[j - 1], Acts(states, steps, i + 1, j - 1, t));
      }
    }
  }

  lemma CancelIsEntered(s: State, step: Step)
    requires Enabled(s, step) && step == CancelBegins(step.t)
    ensures IsCancel([], Position(Apply(s, step), step.t)) && step.t in Apply(s, step).threads
  {
  }

  lemma CancelIsLeft(s: State, step: Step, acts: seq<Act>)
    requires Enabled(s, step) && step.t in s.threads && IsCancel(acts, Position(s, step.t))
    ensures step.t !in Apply(s, step).threads ==> Apply(s, step).cancelled
  {
  }

  lemma CancelEndsCancelled(states: seq<State>, steps: seq<Step>, i: nat, j: nat, t: nat)
    requires IsExecution(states, steps) && i < j < |states| && steps[i] == CancelBegins(t)
    requires IsIn(states, i, j, t) && t !in states[j].threads
    ensures states[j].cancelled
  {
    hide Apply, Enabled, IsCancel;
    assert Enabled(states[i], steps[i]) && states[i + 1] == Apply(states[i], steps[i]);
    CancelIsEntered(states[i], steps[i]);
    OneAct(states, steps, i, j, t);
    CancelGoesOn(states, steps, i, j - 1, t);
    CancelIsLeft(states[j - 1], steps[j - 1], Acts(states, steps, i + 1, j - 1, t));
  }

  /** `cancel` reports a cancellation only if it has read a flag that was set, and keeps quiet only if it has read
      every flag as unset; in either case it takes every flag away, and leaves the session cancelled. */
  lemma CancelRuns(states: seq<State>, steps: seq<Step>, i: nat, j: nat, t: nat)
    requires IsExecution(states, steps) && i < j < |states| && steps[i] == CancelBegins(t)
    requires IsIn(states, i, j, t) && t !in states[j].threads
    ensures var acts := Acts(states, steps, i + 1, j, t);
            && (HasReported(acts) ==> exists m :: HasReadSet(acts, m))
            && (!HasReported(acts) ==> forall m :: HasReadUnset(acts, m))
            && (forall m :: HasCleared(acts, m))
    ensures states[j].cancelled
  {
    hide HasReported, HasReadSet, HasReadUnset, HasCleared;
    CancelGoesOn(states, steps, i, j, t);
    hide Apply, Enabled, IsExecution;
    CancelEndsCancelled(states, steps, i, j, t);
  }

  // ---------------------------------------------------------------- frames

  predicate Competes(a: Act, wins: bool) {
    a.step.FrameCompetes? && a.before.processing == !wins && a.after.processing && LeavesFlagsAndLog(a)
  }

  predicate HandsOver(a: Act) {
    a.step.FrameSpawns? && At(a.after, a.step.worker, WorkerCheck) && LeavesFlagsAndLog(a)
  }

  predicate IsFrame(acts: seq<Act>, pos: Option<Pc>) {
    match pos
    case None =>
      || (|acts| == 1 && Competes(acts[0], false))
      || (|acts| == 2 && Competes(acts[0], true) && HandsOver(acts[1]))
    case Some(pc) =>
      match pc
      case FrameChecked => acts == []
      case FrameOwner => |acts| == 1 && Competes(acts[0], true)
      case _ => false
  }

  lemma FrameStep(s: State, step: Step, acts: seq<Act>)
    requires Enabled(s, step) && step.t in s.threads && IsFrame(acts, Position(s, step.t))
    ensures IsFrame(acts + [Act(step, s, Apply(s, step))], Position(Apply(s, step), step.t))
  {
  }

  lemma {:induction false} FrameGoesOn(states: seq<State>, steps: seq<Step>, i: nat, j: nat, t: nat)
    requires IsExecution(states, steps) && i < j < |states| && steps[i] == FrameArrives(t) && IsIn(states, i, j, t)
    requires !states[i].cancelled
    ensures IsFrame(Acts(states, steps, i + 1, j, t), Position(states[j], t))
    decreases j
  {
    hide IsFrame, IsIn, Enabled, Apply;
    if j == i + 1 {
      assert Enabled(states[i], steps[i]) && states[i + 1] == Apply(states[i], steps[i]);
      FrameIsEntered(states[i], steps[i]);
    } else {
      OneAct(states, steps, i, j, t);
      FrameGoesOn(states, steps, i, j - 1, t);
      if steps[j - 1].t == t {
        FrameStep(states[j - 1], steps[j - 1], Acts(states, steps, i + 1, j - 1, t));
      }
    }
  }

  lemma FrameIsEntered(s: State, step: Step)
    requires Enabled(s, step) && step == FrameArrives(step.t)
    ensures if s.cancelled then step.t !in Apply(s, step).threads
            else IsFrame([], Position(Apply(s, step), step.t))
  {
  }

  /** A frame that arrives while the operation is cancelled is dropped at once. Any other competes for the gate, and
      is handed over to a worker if it wins and dropped if a frame is being processed. */
  lemma FrameRuns(states: seq<State>, steps: seq<Step>, i: nat, j: nat, t: nat)
    requires IsExecution(states, steps) && i < j < |states| && steps[i] == FrameArrives(t)
    requires IsIn(states, i, j, t) && t !in states[j].threads
    ensures var acts := Acts(states, steps, i + 1, j, t);
            if states[i].cancelled then acts == []
            else || (|acts| == 1 && Competes(acts[0], false))
                 || (|acts| == 2 && Competes(acts[0], true) && HandsOver(acts[1]))
  {
    if states[i].cancelled {
      FrameIsEntered(states[i], steps[i]);
      assert i + 1 < j ==> t in states[i + 1].threads;
    } else {
      FrameGoesOn(states, steps, i, j, t);
    }
  }

  // ---------------------------------------------------------------- workers

  ghost predicate HasChecked(acts: seq<Act>, cancelled: bool) {
    exists a :: a in acts && a.step.Checks? && a.before.cancelled == cancelled
  }

  ghost predicate HasRead(acts: seq<Act>, m: Mode, set_: bool) {
    exists a :: a in acts && a.step.Reads? && (m in a.before.flags) == set_
  }

  ghost predicate HasRun(acts: seq<Act>, outcome: Outcome) {
    exists a :: a in acts && a.step.Runs? && a.step.outcome == outcome
  }

  ghost predicate HasTakenFlag(acts: seq<Act>, m: Mode) {
    exists a :: a in acts && a.step.Clears? && a.after.flags == a.before.flags - {m}
  }

  ghost predicate HasPosted(acts: seq<Act>, e: Event) {
    exists a :: a in acts && a.step.Posts? && a.after.log == a.before.log + [e]
  }

  predicate HasPostedNothing(acts: seq<Act>) {
    forall a :: a in acts ==> a.after.log == a.before.log
  }

  /** Authentication goes before interaction detection, and that before enrollment. */
  predicate GoesBefore(p: Mode, m: Mode) {
    (p == Authenticating && m != Authenticating) || (p == Detecting && m == Enrolling)
  }

  /** The worker has passed its cancel check and has found the flag of no mode set that goes before `m`. */
  ghost predicate HasComeTo(acts: seq<Act>, m: Mode) {
    HasChecked(acts, false) && forall p :: GoesBefore(p, m) ==> HasRead(acts, p, false)
  }

  ghost predicate HasFound(acts: seq<Act>, m: Mode) {
    HasComeTo(acts, m) && HasRead(acts, m, true)
  }

  /** What the worker does with its frame. */
  ghost predicate HasServed(acts: seq<Act>) {
    || (HasPostedNothing(acts)
        && (HasChecked(acts, true) || (forall m :: HasRead(acts, m, false))
            || (HasRun(acts, Silent) && exists m :: HasFound(acts, m))))
    || (HasRun(acts, Success)
        && exists m :: HasFound(acts, m) && HasTakenFlag(acts, m) && HasPosted(acts, Succeeded(m)))
    || (HasRun(acts, Info) && exists m :: HasFound(acts, m) && HasPosted(acts, Informed(m)))
  }

  ghost predicate IsWorker(acts: seq<Act>, pos: Option<Pc>) {
    match pos
    case None => HasServed(acts)
    case Some(pc) =>
      match pc
      case WorkerCheck => acts == []
      case WorkerReads(m) => HasComeTo(acts, m) && HasPostedNothing(acts)
      case WorkerEngine(m) => HasFound(acts, m) && HasPostedNothing(acts)
      case WorkerClears(m) => HasFound(acts, m) && HasRun(acts, Success)
      case WorkerPosts(e) =>
        (match e
         case Succeeded(m) => HasFound(acts, m) && HasRun(acts, Success) && HasTakenFlag(acts, m)
         case Informed(m) => HasFound(acts, m) && HasRun(acts, Info)
         case _ => false)
      case WorkerLeaves => HasServed(acts)
      case _ => false
  }

  lemma OldActsStay(acts: seq<Act>, a: Act, m: Mode)
    ensures forall c :: HasChecked(acts, c) ==> HasChecked(acts + [a], c)
    ensures forall p, c :: HasRead(acts, p, c) ==> HasRead(acts + [a], p, c)
    ensures forall o :: HasRun(acts, o) ==> HasRun(acts + [a], o)
    ensures forall p :: HasTakenFlag(acts, p) ==> HasTakenFlag(acts + [a], p)
    ensures forall e :: HasPosted(acts, e) ==> HasPosted(acts + [a], e)
    ensures HasPostedNothing(acts) && a.after.log == a.before.log ==> HasPostedNothing(acts + [a])
  {
    assert forall b :: b in acts ==> b in acts + [a];
  }

  lemma NewActCounts(acts: seq<Act>, a: Act)
    ensures a.step.Checks? ==> HasChecked(acts + [a], a.before.cancelled)
    ensures forall m :: a.step.Reads? ==> HasRead(acts + [a], m, m in a.before.flags)
    ensures a.step.Runs? ==> HasRun(acts + [a], a.step.outcome)
    ensures forall m :: a.step.Clears? && a.after.flags == a.before.flags - {m} ==> HasTakenFlag(acts + [a], m)
    ensures forall e :: a.step.Posts? && a.after.log == a.before.log + [e] ==> HasPosted(acts + [a], e)
  {
    assert a in acts + [a];
  }

  lemma FindingsStay(acts: seq<Act>, a: Act, m: Mode)
    ensures HasComeTo(acts, m) ==> HasComeTo(acts + [a], m)
    ensures HasFound(acts, m) ==> HasFound(acts + [a], m)
  {
    hide HasChecked, HasRead;
    OldActsStay(acts, a, m);
  }

  lemma ReadingOneFlag(acts: seq<Act>, a: Act, m: Mode)
    requires HasComeTo(acts, m) && a.step.Reads?
    ensures m in a.before.flags ==> HasFound(acts + [a], m)
    ensures m !in a.before.flags ==>
              match m
              case Authenticating => HasComeTo(acts + [a], Detecting)
              case Detecting => HasComeTo(acts + [a], Enrolling)
              case Enrolling => forall n :: HasRead(acts + [a], n, false)
  {
    hide HasChecked, HasRead;
    OldActsStay(acts, a, m);
    NewActCounts(acts, a);
  }

  lemma ServedStays(acts: seq<Act>, a: Act)
    requires HasServed(acts) && a.after.log == a.before.log
    ensures HasServed(acts + [a])
  {
    hide HasFound, HasChecked, HasRead, HasRun, HasTakenFlag, HasPosted, HasPostedNothing;
    OldActsStay(acts, a, Authenticating);
    forall m
      ensures HasFound(acts, m) ==> HasFound(acts + [a], m)
    {
      FindingsStay(acts, a, m);
    }
  }

  lemma PostingServes(acts: seq<Act>, a: Act, m: Mode)
    requires HasFound(acts, m) && a.step.Posts?
    requires || (a.after.log == a.before.log + [Succeeded(m)] && HasRun(acts, Success) && HasTakenFlag(acts, m))
             || (a.after.log == a.before.log + [Informed(m)] && HasRun(acts, Info))
    ensures HasServed(acts + [a])
  {
    OldActsStay(acts, a, m);
    NewActCounts(acts, a);
    FindingsStay(acts, a, m);
    hide HasFound, HasChecked, HasRead, HasRun, HasTakenFlag, HasPosted, HasPostedNothing;
  }

  lemma WorkerStep(s: State, step: Step, acts: seq<Act>)
    requires Enabled(s, step) && step.t in s.threads && IsWorker(acts, Position(s, step.t))
    ensures IsWorker(acts + [Act(step, s, Apply(s, step))], Position(Apply(s, step), step.t))
  {
    var a := Act(step, s, Apply(s, step));
    match s.threads[step.t]
    case WorkerReads(m) =>
      OldActsStay(acts, a, m);
      ReadingOneFlag(acts, a, m);
      hide HasChecked, HasRead, HasRun, HasTakenFlag, HasPosted, HasPostedNothing, HasFound, HasComeTo;
    case WorkerPosts(e) =>
      PostingServes(acts, a, if e.Succeeded? || e.Informed? then e.m else Authenticating);
    case WorkerLeaves =>
      ServedStays(acts, a);
    case _ =>
      WorkerAct(s, step, acts);
  }

  lemma WorkerAct(s: State, step: Step, acts: seq<Act>)
    requires Enabled(s, step) && step.t in s.threads && IsWorker(acts, Position(s, step.t))
    requires step.Checks? || step.Runs? || step.Clears?
    ensures IsWorker(acts + [Act(step, s, Apply(s, step))], Position(Apply(s, step), step.t))
  {
    var a := Act(step, s, Apply(s, step));
    var pc := s.threads[step.t];
    var m := if pc.WorkerEngine? || pc.WorkerClears? then pc.m else Detecting;
    OldActsStay(acts, a, m);
    NewActCounts(acts, a);
    FindingsStay(acts, a, m);
    hide HasChecked, HasRead, HasRun, HasTakenFlag, HasPosted, HasFound;
  }

  lemma {:induction false} WorkerGoesOn(states: seq<State>, steps: seq<Step>, i: nat, j: nat, t: nat)
    requires IsExecution(states, steps) && i < j < |states| && steps[i].FrameSpawns? && steps[i].worker == t
    requires IsIn(states, i, j, t)
    ensures IsWorker(Acts(states, steps, i + 1, j, t), Position(states[j], t))
    decreases j
  {
    hide IsWorker, IsIn, Enabled, Apply;
    if j == i + 1 {
      assert Enabled(states[i], steps[i]) && states[i + 1] == Apply(states[i], steps[i]);
      WorkerIsSpawned(states[i], steps[i]);
    } else {
      OneAct(states, steps, i, j, t);
      WorkerGoesOn(states, steps, i, j - 1, t);
      if steps[j - 1].t == t {
        WorkerStep(states[j - 1], steps[j - 1], Acts(states, steps, i + 1, j - 1, t));
      }
    }
  }

  lemma WorkerIsSpawned(s: State, step: Step)
    requires Enabled(s, step) && step.FrameSpawns?
    ensures IsWorker([], Position(Apply(s, step), step.worker))
  {
  }

  /** A worker that finds the operation cancelled, or no flag set, leaves without a word. Any other puts its frame to
      the engine for the first mode it finds set, and posts what the engine's answer calls for, on a success after
      taking that mode's flag away. */
  lemma WorkerRuns(states: seq<State>, steps: seq<Step>, i: nat, j: nat, t: nat)
    requires IsExecution(states, steps) && i < j < |states| && steps[i].FrameSpawns? && steps[i].worker == t
    requires IsIn(states, i, j, t) && t !in states[j].threads
    ensures HasServed(Acts(states, steps, i + 1, j, t))
  {
    hide HasServed;
    WorkerGoesOn(states, steps, i, j, t);
  }
}
