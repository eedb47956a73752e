/** A session's frame processing at the granularity of its atomic reads and writes, with any number
    of camera threads, detached workers, operations and cancellations interleaved. */
module FramePipeline {

  datatype Mode = Authenticating | Enrolling | Detecting

  /** What the engine's answer to a frame leads to. */
  datatype Outcome = Silent | Success | Info

  datatype Event =
    /** An operation has set its flag. */
    | Armed(m: Mode)
    /** Results of frames. */
    | Succeeded(m: Mode)
    | Informed(m: Mode)
    /** Errors from elsewhere. */
    | Canceled
    | CameraFailed(m: Mode)

  datatype Pc =
    /** A camera thread past the first cancel check. */
    | FrameChecked
    /** A camera thread that has won the compare-and-swap. */
    | FrameOwner
    /** A worker before its own cancel check, and then at its reads of the operation flags. */
    | WorkerCheck
    | WorkerReads(m: Mode)
    | WorkerEngine(m: Mode)
    | WorkerClears(m: Mode)
    | WorkerPosts(result: Event)
    | WorkerLeaves
    /** An operation between its steps. */
    | OpStarted(m: Mode)
    | OpArmed(m: Mode)
    | OpDisarms(m: Mode)
    | OpReports(m: Mode)
    /** `cancel`, with the position in `CANCEL_ORDER` it has reached. */
    | CancelReads(i: nat)
    | CancelReports
    | CancelClears(i: nat)

  const CANCEL_ORDER: seq<Mode> := [Authenticating, Enrolling, Detecting]

  datatype State = State(
    cancelled: bool,
    processing: bool,
    flags: set<Mode>,
    threads: map<nat, Pc>,
    log: seq<Event>)

  function Init(): State {
    State(false, false, {}, map[], [])
  }

  datatype Step =
    | FrameArrives(t: nat)
    | FrameCompetes(t: nat)
    | FrameSpawns(t: nat, worker: nat)
    | Checks(t: nat)
    | Reads(t: nat)
    | Runs(t: nat, outcome: Outcome)
    | Clears(t: nat)
    | Posts(t: nat)
    | Leaves(t: nat)
    | Begins(t: nat, m: Mode)
    | Arms(t: nat)
    | CameraAnswers(t: nat, ok: bool)
    | Disarms(t: nat)
    | Reports(t: nat)
    | CancelBegins(t: nat)
    | CancelReadsNext(t: nat)
    | CancelReportsNow(t: nat)
    | CancelClearsNext(t: nat)

  function Remove(s: State, t: nat): State {
    s.(threads := s.threads - {t})
  }

  function Goto(s: State, t: nat, pc: Pc): State {
    s.(threads := s.threads[t := pc])
  }

  predicate At(s: State, t: nat, pc: Pc) {
    t in s.threads && s.threads[t] == pc
  }

  predicate Enabled(s: State, step: Step) {
    match step
    case FrameArrives(t) => t !in s.threads
    case FrameCompetes(t) => At(s, t, FrameChecked)
    case FrameSpawns(t, worker) => At(s, t, FrameOwner) && worker !in s.threads
    case Checks(t) => At(s, t, WorkerCheck)
    case Reads(t) => t in s.threads && s.threads[t].WorkerReads?
    case Runs(t, outcome) =>
      t in s.threads && s.threads[t].WorkerEngine?
      && (s.threads[t].m == Enrolling ==> outcome != Silent) && (s.threads[t].m == Detecting ==> outcome != Info)
    case Clears(t) => t in s.threads && s.threads[t].WorkerClears?
    case Posts(t) => t in s.threads && s.threads[t].WorkerPosts?
    case Leaves(t) => At(s, t, WorkerLeaves)
    case Begins(t, _) => t !in s.threads
    case Arms(t) => t in s.threads && s.threads[t].OpStarted?
    case CameraAnswers(t, _) => t in s.threads && s.threads[t].OpArmed?
    case Disarms(t) => t in s.threads && s.threads[t].OpDisarms?
    case Reports(t) => t in s.threads && s.threads[t].OpReports?
    case CancelBegins(t) => t !in s.threads
    case CancelReadsNext(t) => t in s.threads && s.threads[t].CancelReads?
    case CancelReportsNow(t) => At(s, t, CancelReports)
    case CancelClearsNext(t) => t in s.threads && s.threads[t].CancelClears?
  }

  /** The worker's if-else chain over the flags: authenticating, then detecting, then enrolling. */
  function AfterRead(set_: bool, m: Mode): Pc {
    if set_ then WorkerEngine(m)
    else match m
      case Authenticating => WorkerReads(Detecting)
      case Detecting => WorkerReads(Enrolling)
      case Enrolling => WorkerLeaves
  }

  function Apply(s: State, step: Step): State
    requires Enabled(s, step)
  {
    match step
    case FrameArrives(t) => if s.cancelled then s else Goto(s, t, FrameChecked)
    case FrameCompetes(t) => if s.processing then Remove(s, t) else Goto(s, t, FrameOwner).(processing := true)
    case FrameSpawns(t, worker) => Goto(Remove(s, t), worker, WorkerCheck)
    case Checks(t) => Goto(s, t, if s.cancelled then WorkerLeaves else WorkerReads(Authenticating))
    case Reads(t) => Goto(s, t, AfterRead(s.threads[t].m in s.flags, s.threads[t].m))
    case Runs(t, outcome) =>
      var m := s.threads[t].m;
      Goto(s, t, match outcome
                 case Silent => WorkerLeaves
                 case Info => WorkerPosts(Informed(m))
                 case Success => WorkerClears(m))
    case Clears(t) =>
      var m := s.threads[t].m;
      Goto(s, t, WorkerPosts(Succeeded(m))).(flags := s.flags - {m})
    case Posts(t) => Goto(s, t, WorkerLeaves).(log := s.log + [s.threads[t].result])
    case Leaves(t) => Remove(s, t).(processing := false)
    case Begins(t, m) => Goto(s, t, OpStarted(m)).(cancelled := false)
    case Arms(t) =>
      var m := s.threads[t].m;
      Goto(s, t, OpArmed(m)).(flags := s.flags + {m}, log := s.log + [Armed(m)])
    case CameraAnswers(t, ok) => if ok then Remove(s, t) else Goto(s, t, OpDisarms(s.threads[t].m))
    case Disarms(t) =>
      var m := s.threads[t].m;
      Goto(s, t, OpReports(m)).(flags := s.flags - {m})
    case Reports(t) => Remove(s, t).(log := s.log + [CameraFailed(s.threads[t].m)])
    case CancelBegins(t) => Goto(s, t, CancelReads(0))
    case CancelReadsNext(t) =>
      var i := s.threads[t].i;
      if i >= |CANCEL_ORDER| then Goto(s, t, CancelClears(0))
      else if CANCEL_ORDER[i] in s.flags then Goto(s, t, CancelReports)
      else Goto(s, t, CancelReads(i + 1))
    case CancelReportsNow(t) => Goto(s, t, CancelClears(0)).(log := s.log + [Canceled])
    case CancelClearsNext(t) =>
      var i := s.threads[t].i;
      if i >= |CANCEL_ORDER| then Remove(s, t).(cancelled := true)
      else Goto(s, t, CancelClears(i + 1)).(flags := s.flags - {CANCEL_ORDER[i]})
  }

  // ---------------------------------------------------------------- the gate

  /** Between the compare-and-swap and the clear. */
  predicate Holds(s: State, t: nat) {
    t in s.threads
    && match s.threads[t]
       case FrameOwner => true
       case WorkerCheck => true
       case WorkerReads(_) => true
       case WorkerEngine(_) => true
       case WorkerClears(_) => true
       case WorkerPosts(_) => true
       case WorkerLeaves => true
       case _ => false
  }

  /** Past its cancel check with its post still ahead. */
  predicate MayPost(s: State, t: nat) {
    t in s.threads
    && match s.threads[t]
       case WorkerReads(_) => true
       case WorkerEngine(_) => true
       case WorkerClears(_) => true
       case WorkerPosts(_) => true
       case _ => false
  }

  ghost predicate Gate(s: State) {
    && (s.processing <==> exists t :: Holds(s, t))
    && (forall t, u :: Holds(s, t) && Holds(s, u) ==> t == u)
    && (forall t :: t in s.threads && s.threads[t].WorkerPosts? ==> IsFrameResult(s.threads[t].result))
  }

  predicate IsFrameResult(e: Event) {
    e.Succeeded? || e.Informed?
  }

  lemma HoldersAreTheSame(s: State, n: State)
    requires Gate(s) && n.processing == s.processing
    requires forall t :: Holds(n, t) <==> Holds(s, t)
    requires forall t :: t in n.threads && n.threads[t].WorkerPosts? ==> IsFrameResult(n.threads[t].result)
    ensures Gate(n)
  {
  }

  /** The gate after a step that leaves the holder's position to exactly one thread. */
  lemma OneHolder(n: State, t: nat)
    requires n.processing && Holds(n, t) && !n.threads[t].WorkerPosts?
    requires forall u :: Holds(n, u) ==> u == t
    ensures Gate(n)
  {
    assert forall u :: u in n.threads && n.threads[u].WorkerPosts? ==> Holds(n, u);
  }

  lemma WinningTakesTheGate(s: State, t: nat)
    requires Gate(s) && Enabled(s, FrameCompetes(t)) && !s.processing
    ensures Gate(Apply(s, FrameCompetes(t)))
  {
    var n := Apply(s, FrameCompetes(t));
    forall u ensures Holds(n, u) ==> u == t {
      assert !Holds(s, u);
    }
    OneHolder(n, t);
  }

  lemma SpawningPassesTheGateOn(s: State, t: nat, worker: nat)
    requires Gate(s) && Enabled(s, FrameSpawns(t, worker))
    ensures Gate(Apply(s, FrameSpawns(t, worker)))
  {
    var n := Apply(s, FrameSpawns(t, worker));
    assert Holds(s, t);
    forall u ensures Holds(n, u) ==> u == worker {
      assert u != worker && Holds(n, u) ==> Holds(s, u) && u != t;
    }
    OneHolder(n, worker);
  }

  lemma LeavingFreesTheGate(s: State, t: nat)
    requires Gate(s) && Enabled(s, Leaves(t))
    ensures Gate(Apply(s, Leaves(t)))
  {
    var n := Apply(s, Leaves(t));
    assert Holds(s, t);
    forall u ensures !Holds(n, u) {
      assert Holds(n, u) ==> Holds(s, u) && u != t;
    }
    assert forall u :: u in n.threads && n.threads[u].WorkerPosts? ==> Holds(n, u);
  }

  predicate MovesTheGate(s: State, step: Step) {
    step.FrameSpawns? || step.Leaves? || (step.FrameCompetes? && !s.processing)
  }

  lemma OtherStepsKeepHolder(s: State, step: Step, t: nat)
    requires Enabled(s, step) && !MovesTheGate(s, step)
    ensures Holds(Apply(s, step), t) <==> Holds(s, t)
  {
  }

  lemma OnlyFrameResultsArePosted(s: State, step: Step, t: nat)
    requires Enabled(s, step) && !MovesTheGate(s, step)
    ensures var n := Apply(s, step);
      t in n.threads && n.threads[t].WorkerPosts? && !IsFrameResult(n.threads[t].result)
      ==> t in s.threads && s.threads[t].WorkerPosts? && !IsFrameResult(s.threads[t].result)
  {
  }

  lemma OtherStepsKeepTheGate(s: State, step: Step)
    requires Gate(s) && Enabled(s, step) && !MovesTheGate(s, step)
    ensures Gate(Apply(s, step))
  {
    var n := Apply(s, step);
    assert n.processing == s.processing;
    hide Apply, Holds, Enabled;
    forall t
      ensures Holds(n, t) <==> Holds(s, t)
      ensures t in n.threads && n.threads[t].WorkerPosts? ==> IsFrameResult(n.threads[t].result)
    {
      OtherStepsKeepHolder(s, step, t);
      OnlyFrameResultsArePosted(s, step, t);
    }
    HoldersAreTheSame(s, n);
  }

  lemma EveryStepKeepsTheGate(s: State, step: Step)
    requires Gate(s) && Enabled(s, step)
    ensures Gate(Apply(s, step))
  {
    hide Apply, Gate;
    match step
    case FrameSpawns(t, worker) => SpawningPassesTheGateOn(s, t, worker);
    case Leaves(t) => LeavingFreesTheGate(s, t);
    case FrameCompetes(t) =>
      if s.processing {
        OtherStepsKeepTheGate(s, step);
      } else {
        WinningTakesTheGate(s, t);
      }
    case _ => OtherStepsKeepTheGate(s, step);
  }

  // ---------------------------------------------------------------- executions

  ghost predicate IsExecution(states: seq<State>, steps: seq<Step>) {
    && |states| == |steps| + 1 && states[0] == Init()
    && forall i :: 0 <= i < |steps| ==> Enabled(states[i], steps[i]) && states[i + 1] == Apply(states[i], steps[i])
  }

  /** At most one thread is ever between the compare-and-swap and the clear, so the engine never
      sees two frames of the session at once. */
  lemma {:induction false} GateIsExclusive(states: seq<State>, steps: seq<Step>, i: nat)
    requires IsExecution(states, steps) && i < |states|
    ensures Gate(states[i])
  {
    if i == 0 {
      assert forall t :: !Holds(Init(), t);
    } else {
      GateIsExclusive(states, steps, i - 1);
      EveryStepKeepsTheGate(states[i - 1], steps[i - 1]);
    }
  }

  // ---------------------------------------------------------------- results after a cancel

  function FrameResults(log: seq<Event>): nat {
    if log == [] then 0
    else FrameResults(log[..|log| - 1]) + if IsFrameResult(log[|log| - 1]) then 1 else 0
  }

  ghost predicate SomeoneMayPost(s: State) {
    exists t :: MayPost(s, t)
  }

  /** How many more results can come from the frames already admitted. */
  ghost function Pending(s: State): nat {
    if SomeoneMayPost(s) then 1 else 0
  }

  lemma FrameResultsOfMore(log: seq<Event>, e: Event)
    ensures FrameResults(log + [e]) == FrameResults(log) + if IsFrameResult(e) then 1 else 0
  {
  }

  /** While the cancel flag is set no thread passes a cancel check, and a thread posts once. */
  lemma CancelledStepsAdmitNoPoster(s: State, step: Step, t: nat)
    requires Enabled(s, step) && s.cancelled
    ensures MayPost(Apply(s, step), t) ==> MayPost(s, t)
    ensures step.Posts? && step.t == t ==> MayPost(s, t) && !MayPost(Apply(s, step), t)
  {
  }

  lemma LogGrowsByOne(s: State, step: Step)
    requires Gate(s) && Enabled(s, step)
    ensures var n := Apply(s, step);
      FrameResults(n.log) == FrameResults(s.log) + if step.Posts? then 1 else 0
  {
    var n := Apply(s, step);
    if step.Posts? || step.Arms? || step.Reports? || step.CancelReportsNow? {
      FrameResultsOfMore(s.log, n.log[|s.log|]);
      assert n.log == s.log + [n.log[|s.log|]];
    }
  }

  /** While the cancel flag stays set, a posted result uses up the one that was pending. */
  lemma CancelledStepsUseUpPending(s: State, step: Step)
    requires Gate(s) && Enabled(s, step) && s.cancelled
    ensures FrameResults(Apply(s, step).log) + Pending(Apply(s, step)) <= FrameResults(s.log) + Pending(s)
  {
    var n := Apply(s, step);
    LogGrowsByOne(s, step);
    forall t
      ensures MayPost(n, t) ==> MayPost(s, t)
      ensures step.Posts? && step.t == t ==> MayPost(s, t) && !MayPost(n, t)
      ensures MayPost(s, t) ==> Holds(s, t)
    {
      CancelledStepsAdmitNoPoster(s, step, t);
    }
    hide Apply, Enabled, Holds, MayPost, FrameResults;
    if step.Posts? {
      assert MayPost(s, step.t);
      assert forall t :: MayPost(s, t) ==> t == step.t;
    }
  }

  /** From any moment at which the operation is cancelled, and until the next one starts, at most one
      frame result is posted, in every interleaving. */
  lemma {:induction false} AtMostOneResultAfterCancel(states: seq<State>, steps: seq<Step>, i: nat, j: nat)
    requires IsExecution(states, steps) && i <= j < |states|
    requires forall k :: i <= k <= j ==> states[k].cancelled
    ensures FrameResults(states[j].log) + Pending(states[j]) <= FrameResults(states[i].log) + Pending(states[i])
    ensures FrameResults(states[j].log) <= FrameResults(states[i].log) + 1
    decreases j
  {
    if i < j {
      AtMostOneResultAfterCancel(states, steps, i, j - 1);
      GateIsExclusive(states, steps, j - 1);
      var before, step := states[j - 1], steps[j - 1];
      assert states[j - 1 + 1] == Apply(before, step);
      assert before.cancelled;
      CancelledStepsUseUpPending(before, step);
    }
  }

  ghost predicate Reachable(s: State) {
    exists states, steps :: IsExecution(states, steps) && states[|steps|] == s
  }

  lemma ReachableNext(s: State, step: Step)
    requires Reachable(s) && Enabled(s, step)
    ensures Reachable(Apply(s, step))
  {
    hide Apply, Enabled;
    var states, steps :| IsExecution(states, steps) && states[|steps|] == s;
    var more, longer := states + [Apply(s, step)], steps + [step];
    forall i | 0 <= i < |longer|
      ensures Enabled(more[i], longer[i]) && more[i + 1] == Apply(more[i], longer[i])
    {
      if i < |steps| {
        assert more[i] == states[i] && more[i + 1] == states[i + 1] && longer[i] == steps[i];
      }
    }
    assert IsExecution(more, longer) && more[|longer|] == Apply(s, step);
  }

  lemma OperationCanBeArmed() returns (s: State)
    ensures Reachable(s)
    ensures s == State(false, false, {Authenticating}, map[0 := OpArmed(Authenticating)], [Armed(Authenticating)])
  {
    s := Init();
    assert Reachable(s) by {
      assert IsExecution([Init()], []);
    }
    hide Reachable;
    ReachableNext(s, Begins(0, Authenticating));
    s := Apply(s, Begins(0, Authenticating));
    ReachableNext(s, Arms(0));
    s := Apply(s, Arms(0));
    assert s.threads == map[0 := OpArmed(Authenticating)];
  }

  /** A frame is handed to a worker, which passes its check. */
  lemma WorkerCanBeUnderWay() returns (s: State)
    ensures Reachable(s)
    ensures s == State(false, true, {Authenticating}, map[0 := OpArmed(Authenticating), 2 := WorkerReads(Authenticating)],
                       [Armed(Authenticating)])
  {
    s := OperationCanBeArmed();
    hide Reachable;
    ReachableNext(s, FrameArrives(1));
    s := Apply(s, FrameArrives(1));
    ReachableNext(s, FrameCompetes(1));
    s := Apply(s, FrameCompetes(1));
    assert s.threads == map[0 := OpArmed(Authenticating), 1 := FrameOwner];
    ReachableNext(s, FrameSpawns(1, 2));
    s := Apply(s, FrameSpawns(1, 2));
    assert s.threads == map[0 := OpArmed(Authenticating), 2 := WorkerCheck];
    ReachableNext(s, Checks(2));
    s := Apply(s, Checks(2));
    assert s.threads == map[0 := OpArmed(Authenticating), 2 := WorkerReads(Authenticating)];
  }

  lemma CancelCanReport(s: State, t: nat) returns (n: State)
    requires Reachable(s) && t !in s.threads && s.flags == {Authenticating}
    ensures Reachable(n) && n == s.(threads := s.threads[t := CancelClears(0)], log := s.log + [Canceled])
  {
    hide Reachable;
    n := s;
    ReachableNext(n, CancelBegins(t));
    n := Apply(n, CancelBegins(t));
    ReachableNext(n, CancelReadsNext(t));
    n := Apply(n, CancelReadsNext(t));
    ReachableNext(n, CancelReportsNow(t));
    n := Apply(n, CancelReportsNow(t));
  }

  lemma CancelCanClear(s: State, t: nat) returns (n: State)
    requires Reachable(s) && At(s, t, CancelClears(0)) && s.flags == {Authenticating}
    ensures Reachable(n) && n == s.(threads := s.threads[t := CancelClears(3)], flags := {})
  {
    hide Reachable;
    n := s;
    ReachableNext(n, CancelClearsNext(t));
    n := Apply(n, CancelClearsNext(t));
    ReachableNext(n, CancelClearsNext(t));
    n := Apply(n, CancelClearsNext(t));
    ReachableNext(n, CancelClearsNext(t));
    n := Apply(n, CancelClearsNext(t));
  }

  /** A whole `cancel` by thread `t`, while an operation's flag is set. */
  lemma CancelCanRun(s: State, t: nat) returns (n: State)
    requires Reachable(s) && t !in s.threads && s.flags == {Authenticating}
    ensures Reachable(n) && n == s.(cancelled := true, flags := {}, log := s.log + [Canceled])
  {
    n := CancelCanReport(s, t);
    n := CancelCanClear(n, t);
    hide Reachable;
    ReachableNext(n, CancelClearsNext(t));
    n := Apply(n, CancelClearsNext(t));
    assert n.threads == s.threads;
  }

  /** The bound is reached: a worker that was past its check posts after `cancel` has returned. */
  lemma OneResultCanFollowCancel() returns (s: State, t: nat)
    ensures Reachable(s) && s.cancelled && Enabled(s, Posts(t))
    ensures FrameResults(Apply(s, Posts(t)).log) == FrameResults(s.log) + 1
  {
    s := WorkerCanBeUnderWay();
    hide Reachable;
    ReachableNext(s, Reads(2));
    s := Apply(s, Reads(2));
    ReachableNext(s, Runs(2, Info));
    s := Apply(s, Runs(2, Info));
    s := CancelCanRun(s, 3);
    FrameResultsOfMore(s.log, Informed(Authenticating));
    t := 2;
  }

  // ---------------------------------------------------------------- exactly when a result can follow

  /** The modes that a worker reading the flag of `m` may still come to, in the order of its if-else chain. */
  function StillRead(m: Mode): seq<Mode> {
    match m
    case Authenticating => [Authenticating, Detecting, Enrolling]
    case Detecting => [Detecting, Enrolling]
    case Enrolling => [Enrolling]
  }

  /** The flag of `m` is set, or an operation under way is about to set it. */
  ghost predicate MayBeSet(s: State, m: Mode) {
    m in s.flags || exists t :: At(s, t, OpStarted(m))
  }

  /** Thread `t` is past its read of a flag that was set, or has one ahead of it that is or will be. */
  ghost predicate WillPost(s: State, t: nat) {
    t in s.threads
    && match s.threads[t]
       case WorkerReads(m) => exists n :: n in StillRead(m) && MayBeSet(s, n)
       case WorkerEngine(_) => true
       case WorkerClears(_) => true
       case WorkerPosts(_) => true
       case _ => false
  }

  /** `steps` can be taken from `s`, and the operation is cancelled throughout. */
  ghost predicate StaysCancelled(s: State, steps: seq<Step>)
    decreases |steps|
  {
    s.cancelled && (steps != [] ==> Enabled(s, steps[0]) && StaysCancelled(Apply(s, steps[0]), steps[1..]))
  }

  function After(s: State, steps: seq<Step>): State
    requires StaysCancelled(s, steps)
    decreases |steps|
  {
    if steps == [] then s else After(Apply(s, steps[0]), steps[1..])
  }

  lemma OneFirst(s: State, step: Step, rest: seq<Step>)
    requires s.cancelled && Enabled(s, step) && StaysCancelled(Apply(s, step), rest)
    ensures StaysCancelled(s, [step] + rest) && After(s, [step] + rest) == After(Apply(s, step), rest)
  {
    assert ([step] + rest)[1..] == rest;
  }

  /** From every position of a worker on its way to a post there is a continuation that posts. */
  lemma PostFollows(s: State, t: nat) returns (steps: seq<Step>)
    requires s.cancelled && t in s.threads && s.threads[t].WorkerPosts? && IsFrameResult(s.threads[t].result)
    ensures StaysCancelled(s, steps) && FrameResults(After(s, steps).log) == FrameResults(s.log) + 1
  {
    FrameResultsOfMore(s.log, s.threads[t].result);
    OneFirst(s, Posts(t), []);
    steps := [Posts(t)] + [];
  }

  lemma ClearedPostFollows(s: State, t: nat) returns (steps: seq<Step>)
    requires s.cancelled && t in s.threads && s.threads[t].WorkerClears?
    ensures StaysCancelled(s, steps) && FrameResults(After(s, steps).log) == FrameResults(s.log) + 1
  {
    var rest := PostFollows(Apply(s, Clears(t)), t);
    OneFirst(s, Clears(t), rest);
    steps := [Clears(t)] + rest;
  }

  lemma EnginePostFollows(s: State, t: nat) returns (steps: seq<Step>)
    requires s.cancelled && t in s.threads && s.threads[t].WorkerEngine?
    ensures StaysCancelled(s, steps) && FrameResults(After(s, steps).log) == FrameResults(s.log) + 1
  {
    var step := Runs(t, Success);
    var rest := ClearedPostFollows(Apply(s, step), t);
    OneFirst(s, step, rest);
    steps := [step] + rest;
  }

  lemma SetFlagPostFollows(s: State, t: nat, m: Mode) returns (steps: seq<Step>)
    requires s.cancelled && At(s, t, WorkerReads(m)) && m in s.flags
    ensures StaysCancelled(s, steps) && FrameResults(After(s, steps).log) == FrameResults(s.log) + 1
  {
    var rest := EnginePostFollows(Apply(s, Reads(t)), t);
    OneFirst(s, Reads(t), rest);
    steps := [Reads(t)] + rest;
  }

  lemma ArmedFlagPostFollows(s: State, t: nat, m: Mode, u: nat) returns (steps: seq<Step>)
    requires s.cancelled && At(s, t, WorkerReads(m)) && At(s, u, OpStarted(m))
    ensures StaysCancelled(s, steps) && FrameResults(After(s, steps).log) == FrameResults(s.log) + 1
  {
    FrameResultsOfMore(s.log, Armed(m));
    var n := Apply(s, Arms(u));
    assert At(n, t, WorkerReads(m)) && m in n.flags;
    var rest := SetFlagPostFollows(n, t, m);
    OneFirst(s, Arms(u), rest);
    steps := [Arms(u)] + rest;
  }

  lemma {:induction false} ReaderPostFollows(s: State, t: nat, m: Mode, n: Mode) returns (steps: seq<Step>)
    requires s.cancelled && At(s, t, WorkerReads(m)) && n in StillRead(m) && MayBeSet(s, n)
    ensures StaysCancelled(s, steps) && FrameResults(After(s, steps).log) == FrameResults(s.log) + 1
    decreases |StillRead(m)|
  {
    if m in s.flags {
      steps := SetFlagPostFollows(s, t, m);
    } else if m == n {
      var u :| At(s, u, OpStarted(m));
      steps := ArmedFlagPostFollows(s, t, m, u);
    } else {
      var next, later := Apply(s, Reads(t)), AfterRead(false, m).m;
      ReadingKeepsFlags(s, t, n);
      var rest := ReaderPostFollows(next, t, later, n);
      OneFirst(s, Reads(t), rest);
      steps := [Reads(t)] + rest;
    }
  }

  lemma ReadingKeepsFlags(s: State, t: nat, n: Mode)
    requires Enabled(s, Reads(t)) && MayBeSet(s, n)
    ensures MayBeSet(Apply(s, Reads(t)), n)
  {
    if u :| At(s, u, OpStarted(n)) {
      assert At(Apply(s, Reads(t)), u, OpStarted(n));
    }
  }

  lemma WillPostCanPost(s: State, t: nat) returns (steps: seq<Step>)
    requires Gate(s) && s.cancelled && WillPost(s, t)
    ensures StaysCancelled(s, steps) && FrameResults(After(s, steps).log) == FrameResults(s.log) + 1
  {
    match s.threads[t]
    case WorkerReads(m) =>
      var n :| n in StillRead(m) && MayBeSet(s, n);
      steps := ReaderPostFollows(s, t, m, n);
    case WorkerEngine(_) => steps := EnginePostFollows(s, t);
    case WorkerClears(_) => steps := ClearedPostFollows(s, t);
    case WorkerPosts(_) => steps := PostFollows(s, t);
  }

  /** While cancelled, no operation begins, so no further flag may come to be set. */
  lemma CancelledStepsSetNoFlag(s: State, step: Step, m: Mode)
    requires Enabled(s, step) && Apply(s, step).cancelled && MayBeSet(Apply(s, step), m)
    ensures MayBeSet(s, m)
  {
    var n := Apply(s, step);
    if t :| At(n, t, OpStarted(m)) {
      assert At(s, t, OpStarted(m));
    } else if step.Arms? && m !in s.flags {
      assert At(s, step.t, OpStarted(m));
    }
  }

  lemma ReadersWereReaders(s: State, step: Step, t: nat, later: Mode)
    requires s.cancelled && Enabled(s, step) && At(Apply(s, step), t, WorkerReads(later))
    ensures t in s.threads && s.threads[t].WorkerReads?
    ensures forall m :: m in StillRead(later) ==> m in StillRead(s.threads[t].m)
  {
  }

  lemma PostersWereCloser(s: State, step: Step, t: nat)
    requires s.cancelled && Enabled(s, step)
    requires var n := Apply(s, step);
             t in n.threads && (n.threads[t].WorkerEngine? || n.threads[t].WorkerClears? || n.threads[t].WorkerPosts?)
    ensures t in s.threads
    ensures s.threads[t].WorkerEngine? || s.threads[t].WorkerClears? || s.threads[t].WorkerPosts?
            || (s.threads[t].WorkerReads? && s.threads[t].m in s.flags)
  {
  }

  lemma CancelledStepsBringNoPoster(s: State, step: Step, t: nat)
    requires s.cancelled && Enabled(s, step) && Apply(s, step).cancelled && WillPost(Apply(s, step), t)
    ensures WillPost(s, t)
  {
    var n := Apply(s, step);
    hide MayBeSet, Apply, Enabled, StillRead;
    if n.threads[t].WorkerReads? {
      var m :| m in StillRead(n.threads[t].m) && MayBeSet(n, m);
      ReadersWereReaders(s, step, t, n.threads[t].m);
      CancelledStepsSetNoFlag(s, step, m);
    } else {
      PostersWereCloser(s, step, t);
      if s.threads[t].WorkerReads? {
        FlagMayBeSet(s, s.threads[t].m);
      }
    }
  }

  lemma FlagMayBeSet(s: State, m: Mode)
    requires m in s.flags
    ensures MayBeSet(s, m) && m in StillRead(m)
  {
  }

  lemma {:induction false} NobodyPosts(s: State, steps: seq<Step>)
    requires Gate(s) && StaysCancelled(s, steps) && forall t :: !WillPost(s, t)
    ensures FrameResults(After(s, steps).log) == FrameResults(s.log)
    decreases |steps|
  {
    hide WillPost, FrameResults;
    if steps == [] {
    } else {
      var n := Apply(s, steps[0]);
      EveryStepKeepsTheGate(s, steps[0]);
      LogGrowsByOne(s, steps[0]);
      if steps[0].Posts? {
        PosterWillPost(s, steps[0]);
      }
      forall t
        ensures !WillPost(n, t)
      {
        if WillPost(n, t) {
          CancelledStepsBringNoPoster(s, steps[0], t);
        }
      }
      NobodyPosts(n, steps[1..]);
    }
  }

  lemma PosterWillPost(s: State, step: Step)
    requires Enabled(s, step) && step.Posts?
    ensures WillPost(s, step.t)
  {
  }

  /** After a cancel, a frame result can still be posted before the next operation starts if and only if some
      worker has read a set flag and not posted yet, or is still to read the flag of a mode that is set or that
      an operation under way is about to set. */
  lemma ResultCanFollowCancelIff(s: State)
    requires Gate(s) && s.cancelled
    ensures (exists steps :: StaysCancelled(s, steps) && FrameResults(After(s, steps).log) > FrameResults(s.log))
       <==> exists t :: WillPost(s, t)
  {
    if t :| WillPost(s, t) {
      var steps := WillPostCanPost(s, t);
    } else {
      forall steps | StaysCancelled(s, steps)
        ensures FrameResults(After(s, steps).log) == FrameResults(s.log)
      {
        NobodyPosts(s, steps);
      }
    }
  }

  // ---------------------------------------------------------------- successes per operation

  function Count(log: seq<Event>, e: Event): nat {
    if log == [] then 0 else Count(log[..|log| - 1], e) + if log[|log| - 1] == e then 1 else 0
  }

  lemma CountOfMore(log: seq<Event>, e: Event, last: Event)
    ensures Count(log + [last], e) == Count(log, e) + if last == e then 1 else 0
  {
  }

  /** A worker that has read the flag of `m` and not yet cleared it. */
  predicate HasReadFlag(s: State, t: nat, m: Mode) {
    t in s.threads && (s.threads[t] == WorkerEngine(m) || s.threads[t] == WorkerClears(m))
  }

  predicate PostsSuccess(s: State, t: nat, m: Mode) {
    At(s, t, WorkerPosts(Succeeded(m)))
  }

  /** The successes of `m` posted, being posted, or still possible without another operation. */
  ghost function Claimed(s: State, m: Mode): nat {
    Count(s.log, Succeeded(m))
    + (if exists t :: PostsSuccess(s, t, m) then 1 else 0)
    + (if m in s.flags || exists t :: HasReadFlag(s, t, m) then 1 else 0)
  }

  /** A step that posts nothing of `m` and lets no thread come closer to it, except by reading a flag that is set. */
  lemma ClaimsDoNotGrow(s: State, n: State, m: Mode)
    requires Count(n.log, Succeeded(m)) == Count(s.log, Succeeded(m))
    requires m in n.flags ==> m in s.flags
    requires forall t :: PostsSuccess(n, t, m) ==> PostsSuccess(s, t, m)
    requires forall t :: HasReadFlag(n, t, m) ==> HasReadFlag(s, t, m) || m in s.flags
    ensures Claimed(n, m) <= Claimed(s, m)
  {
  }

  lemma ClearingMovesTheClaim(s: State, t: nat, m: Mode)
    requires Gate(s) && Enabled(s, Clears(t))
    ensures Claimed(Apply(s, Clears(t)), m) <= Claimed(s, m)
  {
    hide Count;
    var n := Apply(s, Clears(t));
    assert Holds(s, t);
    if s.threads[t].m == m {
      assert HasReadFlag(s, t, m);
      forall u ensures !PostsSuccess(s, u, m) && !HasReadFlag(n, u, m) {
        assert PostsSuccess(s, u, m) || HasReadFlag(s, u, m) ==> Holds(s, u);
      }
    } else {
      ClaimsDoNotGrow(s, n, m);
    }
  }

  lemma PostUsesUpItsClaim(s: State, n: State, t: nat, m: Mode)
    requires Count(n.log, Succeeded(m)) == Count(s.log, Succeeded(m)) + 1 && n.flags == s.flags
    requires PostsSuccess(s, t, m) && forall u :: !PostsSuccess(n, u, m)
    requires forall u :: HasReadFlag(n, u, m) ==> HasReadFlag(s, u, m)
    ensures Claimed(n, m) <= Claimed(s, m)
  {
  }

  lemma PostingBringsNoneCloser(s: State, t: nat, m: Mode, u: nat)
    requires Enabled(s, Posts(t))
    ensures HasReadFlag(Apply(s, Posts(t)), u, m) ==> HasReadFlag(s, u, m)
    ensures PostsSuccess(Apply(s, Posts(t)), u, m) ==> PostsSuccess(s, u, m)
  {
  }

  lemma PostingMovesTheClaim(s: State, t: nat, m: Mode)
    requires Gate(s) && Enabled(s, Posts(t))
    ensures Claimed(Apply(s, Posts(t)), m) <= Claimed(s, m)
    ensures Count(Apply(s, Posts(t)).log, Armed(m)) == Count(s.log, Armed(m))
  {
    var n := Apply(s, Posts(t));
    var result := s.threads[t].result;
    assert IsFrameResult(result);
    assert n.log == s.log + [result] && n.flags == s.flags;
    assert result == Succeeded(m) <==> PostsSuccess(s, t, m);
    CountOfMore(s.log, Succeeded(m), result);
    CountOfMore(s.log, Armed(m), result);
    hide Count, Claimed, PostsSuccess, HasReadFlag, Holds, Gate, Apply;
    forall u
      ensures HasReadFlag(n, u, m) ==> HasReadFlag(s, u, m)
      ensures PostsSuccess(n, u, m) ==> PostsSuccess(s, u, m)
    {
      PostingBringsNoneCloser(s, t, m, u);
    }
    if result == Succeeded(m) {
      PosterIsAlone(s, t, m);
      PostUsesUpItsClaim(s, n, t, m);
    } else {
      ClaimsDoNotGrow(s, n, m);
    }
  }

  lemma PosterIsAlone(s: State, t: nat, m: Mode)
    requires Gate(s) && PostsSuccess(s, t, m)
    ensures forall u :: !PostsSuccess(Apply(s, Posts(t)), u, m)
  {
    forall u ensures !PostsSuccess(Apply(s, Posts(t)), u, m) {
      assert Holds(s, t) && (PostsSuccess(s, u, m) ==> Holds(s, u));
    }
  }

  lemma ArmingAddsOne(s: State, t: nat, m: Mode)
    requires Enabled(s, Arms(t))
    ensures var n := Apply(s, Arms(t)); Claimed(n, m) - Claimed(s, m) <= Count(n.log, Armed(m)) - Count(s.log, Armed(m))
  {
    var n := Apply(s, Arms(t));
    CountOfMore(s.log, Succeeded(m), Armed(s.threads[t].m));
    CountOfMore(s.log, Armed(m), Armed(s.threads[t].m));
    hide Count;
    assert forall u :: PostsSuccess(n, u, m) ==> PostsSuccess(s, u, m);
    if s.threads[t].m != m {
      ClaimsDoNotGrow(s, n, m);
    }
  }

  lemma ReportingKeepsClaims(s: State, step: Step, e: Event, m: Mode)
    requires Enabled(s, step) && Apply(s, step).log == s.log + [e] && (step.Reports? || step.CancelReportsNow?)
    requires !IsFrameResult(e) && !e.Armed?
    ensures Claimed(Apply(s, step), m) <= Claimed(s, m)
    ensures Count(Apply(s, step).log, Armed(m)) == Count(s.log, Armed(m))
  {
    CountOfMore(s.log, Succeeded(m), e);
    CountOfMore(s.log, Armed(m), e);
    hide Count, Claimed;
    ClaimsDoNotGrow(s, Apply(s, step), m);
  }

  lemma QuietStepsPostNothing(s: State, step: Step, m: Mode, t: nat)
    requires Enabled(s, step) && !step.Clears?
    ensures PostsSuccess(Apply(s, step), t, m) ==> PostsSuccess(s, t, m)
  {
  }

  lemma QuietStepsReadOnlySetFlags(s: State, step: Step, m: Mode, t: nat)
    requires Enabled(s, step) && !step.Clears?
    ensures HasReadFlag(Apply(s, step), t, m) ==> HasReadFlag(s, t, m) || m in s.flags
  {
  }

  lemma QuietStepsKeepClaims(s: State, step: Step, m: Mode)
    requires Enabled(s, step) && Apply(s, step).log == s.log && !step.Clears? && !step.Arms?
    ensures Claimed(Apply(s, step), m) <= Claimed(s, m)
  {
    var n := Apply(s, step);
    assert m in n.flags ==> m in s.flags;
    hide Count, Claimed, PostsSuccess, HasReadFlag, Apply;
    forall t
      ensures PostsSuccess(n, t, m) ==> PostsSuccess(s, t, m)
      ensures HasReadFlag(n, t, m) ==> HasReadFlag(s, t, m) || m in s.flags
    {
      QuietStepsPostNothing(s, step, m, t);
      QuietStepsReadOnlySetFlags(s, step, m, t);
    }
    ClaimsDoNotGrow(s, n, m);
  }

  lemma StepsKeepClaimsCovered(s: State, step: Step, m: Mode)
    requires Gate(s) && Enabled(s, step)
    requires Claimed(s, m) <= Count(s.log, Armed(m))
    ensures Claimed(Apply(s, step), m) <= Count(Apply(s, step).log, Armed(m))
  {
    hide Count, Claimed, Gate;
    match step
    case Clears(t) => ClearingMovesTheClaim(s, t, m);
    case Posts(t) => PostingMovesTheClaim(s, t, m);
    case Arms(t) => ArmingAddsOne(s, t, m);
    case Reports(t) =>
      ReportingKeepsClaims(s, step, CameraFailed(s.threads[t].m), m);
    case CancelReportsNow(t) =>
      ReportingKeepsClaims(s, step, Canceled, m);
    case _ =>
      QuietStepsKeepClaims(s, step, m);
  }

  /** No operation succeeds twice: the successes posted for a mode never outnumber the operations of
      that mode that were started. */
  lemma {:induction false} SuccessesNeverOutnumberOperations(states: seq<State>, steps: seq<Step>, i: nat, m: Mode)
    requires IsExecution(states, steps) && i < |states|
    ensures Claimed(states[i], m) <= Count(states[i].log, Armed(m))
    ensures Count(states[i].log, Succeeded(m)) <= Count(states[i].log, Armed(m))
  {
    if i == 0 {
    } else {
      SuccessesNeverOutnumberOperations(states, steps, i - 1, m);
      GateIsExclusive(states, steps, i - 1);
      assert states[i - 1 + 1] == Apply(states[i - 1], steps[i - 1]);
      StepsKeepClaimsCovered(states[i - 1], steps[i - 1], m);
    }
  }
}
