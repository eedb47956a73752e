/** The camera backend under any interleaving of its threads. A step is what one thread does while
    it holds the backend's lock, or something it does without: a foreign release, a read of the
    failure code. A `start` that opens the camera holds the lock over two steps. */
module CameraProtocol {
  import opened CameraHandles
  import opened CameraBackend

  /** The thread that delivers camera frames. */
  const LISTENER: nat := 0

  /** Where a thread is inside `start`, `stop`, an error callback, or a deferred teardown. */
  datatype Pc =
    /** `start` waits until no teardown is in progress. */
    | StartWaiting
    /** `start` holds the lock, has zeroed the failure code and is opening the camera. */
    | Starting
    /** `stop` waits for another thread's teardown. */
    | StopWaiting
    /** The stopping thread, or its deferred deputy, waits until no frame callback runs. */
    | AwaitingCallback
    /** `teardown` after it dropped the lock: the handles it has taken out of the fields and not yet
        released, and the next position in `RELEASE_ORDER`. */
    | Tearing(pending: Held, next: nat, stopper: bool)
    /** An error callback has seen the backend running and is about to call `stop`. */
    | ErrorSeen

  /** Where the listener thread is inside `onImageAvailable`. */
  datatype Stage =
    | Away
    /** Past the first running check. */
    | Seen
    /** The callback guard is in place. */
    | Guarded
    /** Past the second running check, in the user's frame callback; `live` are the handles then. */
    | InUser(live: Held)
    /** About to run the guard's destructor. */
    | Leaving

  datatype State = State(
    running: bool,
    stopping: bool,
    inCallback: bool,
    held: Held,
    frees: Frees,
    listener: Stage,
    calls: map<nat, Pc>,
    failure: int,
    /** Whether a `start` holds the lock between its steps. */
    locked: bool)

  function Init(): State {
    State(false, false, false, map[], [], Away, map[], 0, false)
  }

  datatype Step =
    | StartCall(t: nat)
    | StartBlocks(t: nat)
    | StartResumes(t: nat)
    | StartEnds(t: nat, ok: bool, held: Held, frees: Frees, code: int)
    /** The unlocked read of the failure code by a caller of `start`. */
    | ReadCode(t: nat, code: int)
    | StopCall(t: nat, deputy: nat)
    | StopResumes(t: nat)
    | TeardownBegins(t: nat)
    | Release(t: nat)
    | TeardownEnds(t: nat)
    | ErrorCheck(t: nat)
    | ErrorStops(t: nat, deputy: nat)
    | FirstCheck
    | EnterGuard
    | GiveUp
    | SecondCheck
    | UserReturns
    | LeaveGuard

  // ---------------------------------------------------------------- the steps

  /** The thread has no call in progress, and the listener calls only from the user's callback. */
  predicate MayCall(s: State, t: nat) {
    t !in s.calls && (t == LISTENER ==> s.listener.InUser?)
  }

  /** How an attempt to open the camera may end. */
  ghost predicate StartOutcome(s: State, ok: bool, held: Held, frees: Frees, code: int) {
    && AccountsFor(s.frees, held, frees)
    && (ok ==> held.Keys == ALL_SLOTS && code == 0)
    && (!ok ==> CAMERA_NO_DEVICE <= code <= CAMERA_STREAMING_FAILED)
  }

  /** Whatever the foreign calls of a `start` answer, the contract of `StartLocked` gives such an end. */
  lemma StartLockedGivesOutcome(s: State, script: Script, warm: bool, ok: bool, held: Held, frees: Frees, code: int)
    requires AccountsFor(s.frees, held, frees)
    requires ok <==> FailureCode(script, warm) == 0
    requires code == FailureCode(script, warm)
    requires ok ==> held.Keys == ALL_SLOTS
    ensures StartOutcome(s, ok, held, frees, code)
  {
    FailureCodesAreSpecific(script, warm);
  }

  predicate IsStarting(s: State, t: nat) {
    t in s.calls && s.calls[t].Starting?
  }

  predicate FreshDeputy(s: State, t: nat, deputy: nat) {
    deputy !in s.calls && deputy != LISTENER && deputy != t
  }

  ghost predicate Enabled(s: State, step: Step) {
    match step
    case StartCall(t) => MayCall(s, t) && !s.locked && !s.stopping
    case StartBlocks(t) => MayCall(s, t) && !s.locked && s.stopping
    case StartResumes(t) => t in s.calls && s.calls[t].StartWaiting? && !s.locked && !s.stopping
    case StartEnds(t, ok, held, frees, code) => IsStarting(s, t) && StartOutcome(s, ok, held, frees, code)
    case ReadCode(t, code) => MayCall(s, t) && code == s.failure
    case StopCall(t, deputy) => MayCall(s, t) && !s.locked && FreshDeputy(s, t, deputy)
    case StopResumes(t) => t in s.calls && s.calls[t].StopWaiting? && !s.locked && !s.stopping
    case TeardownBegins(t) => t in s.calls && s.calls[t].AwaitingCallback? && !s.locked && !s.inCallback
    case Release(t) => t in s.calls && s.calls[t].Tearing? && s.calls[t].next < |RELEASE_ORDER|
    case TeardownEnds(t) => t in s.calls && s.calls[t].Tearing? && s.calls[t].next >= |RELEASE_ORDER| && !s.locked
    case ErrorCheck(t) => MayCall(s, t) && !s.locked
    case ErrorStops(t, deputy) => t in s.calls && s.calls[t].ErrorSeen? && !s.locked && FreshDeputy(s, t, deputy)
    case FirstCheck => s.listener.Away? && !s.locked
    case EnterGuard => s.listener.Seen? && !s.locked
    case GiveUp => s.listener.Guarded?
    case SecondCheck => s.listener.Guarded? && !s.locked
    case UserReturns => s.listener.InUser? && LISTENER !in s.calls
    case LeaveGuard => s.listener.Leaving? && !s.locked
  }

  /** `start` up to its return, when the camera is running, or else up to the zeroed failure code. */
  function StartEntry(s: State, t: nat): State {
    if s.running then s.(calls := s.calls - {t})
    else s.(failure := 0, locked := true, calls := s.calls[t := Starting])
  }

  /** The rest of `start` under the lock. A failed one goes on to release what it had acquired after
      dropping the lock. */
  function StartExit(s: State, t: nat, ok: bool, held: Held, frees: Frees, code: int): State {
    if ok then s.(running := true, held := held, frees := frees, locked := false, calls := s.calls - {t})
    else s.(frees := frees, failure := code, locked := false, calls := s.calls[t := Tearing(held, 0, false)])
  }

  /** `stop` up to its first wait or its return. Called from the frame callback itself, it hands the
      teardown to a deputy thread and returns. */
  function StopSection(s: State, t: nat, deputy: nat): State {
    if !s.running && !s.stopping && Manager !in s.held then s.(calls := s.calls - {t})
    else if s.stopping then s.(calls := s.calls[t := StopWaiting])
    else if s.inCallback && t == LISTENER then
      s.(running := false, stopping := true, calls := (s.calls - {t})[deputy := AwaitingCallback])
    else s.(running := false, stopping := true, calls := s.calls[t := AwaitingCallback])
  }

  function ReleaseNext(s: State, t: nat): State
    requires t in s.calls && s.calls[t].Tearing? && s.calls[t].next < |RELEASE_ORDER|
  {
    var pc := s.calls[t];
    var slot := RELEASE_ORDER[pc.next];
    var frees :=
      if slot in pc.pending && pc.pending[slot] < |s.frees|
      then s.frees[pc.pending[slot] := s.frees[pc.pending[slot]] + 1]
      else s.frees;
    s.(frees := frees, calls := s.calls[t := pc.(pending := pc.pending - {slot}, next := pc.next + 1)])
  }

  function Apply(s: State, step: Step): State
    requires Enabled(s, step)
  {
    match step
    case StartCall(t) => StartEntry(s, t)
    case StartBlocks(t) => s.(calls := s.calls[t := StartWaiting])
    case StartResumes(t) => StartEntry(s, t)
    case StartEnds(t, ok, held, frees, code) => StartExit(s, t, ok, held, frees, code)
    case ReadCode(_, _) => s
    case StopCall(t, deputy) => StopSection(s, t, deputy)
    case StopResumes(t) => s.(calls := s.calls - {t})
    case TeardownBegins(t) => s.(held := map[], calls := s.calls[t := Tearing(s.held, 0, true)])
    case Release(t) => ReleaseNext(s, t)
    case TeardownEnds(t) =>
      s.(stopping := if s.calls[t].stopper then false else s.stopping, calls := s.calls - {t})
    case ErrorCheck(t) => if s.running && !s.stopping then s.(calls := s.calls[t := ErrorSeen]) else s
    case ErrorStops(t, deputy) => StopSection(s, t, deputy)
    case FirstCheck => if s.running then s.(listener := Seen) else s
    case EnterGuard => s.(listener := Guarded, inCallback := true)
    case GiveUp => s.(listener := Leaving)
    case SecondCheck => s.(listener := if s.running then InUser(s.held) else Leaving)
    case UserReturns => s.(listener := Leaving)
    case LeaveGuard => s.(listener := Away, inCallback := false)
  }

  // ---------------------------------------------------------------- the invariant

  datatype Owner = Field(slot: Slot) | Teardown(t: nat, slot: Slot)

  /** Who is to release handle `id`. */
  predicate Owns(s: State, o: Owner, id: nat) {
    match o
    case Field(slot) => slot in s.held && s.held[slot] == id
    case Teardown(t, slot) =>
      t in s.calls && s.calls[t].Tearing? && slot in s.calls[t].pending && s.calls[t].pending[slot] == id
  }

  /** Every handle ever acquired has exactly one owner and has not been released, or has no owner
      and has been released exactly once. */
  ghost predicate Accounts(s: State) {
    && (forall o: Owner, id: nat :: Owns(s, o, id) ==> id < |s.frees| && s.frees[id] == 0)
    && (forall o, p, id: nat :: Owns(s, o, id) && Owns(s, p, id) ==> o == p)
    && (forall id: nat :: id < |s.frees| ==> s.frees[id] <= 1 && (s.frees[id] == 0 ==> exists o :: Owns(s, o, id)))
  }

  /** The thread whose teardown ends the current stop. */
  predicate IsStopper(s: State, t: nat) {
    t in s.calls && (s.calls[t].AwaitingCallback? || (s.calls[t].Tearing? && s.calls[t].stopper))
  }

  /** With the lock free: running means all handles present and not stopping, idle means all handles
      null, and a stop in progress belongs to exactly one thread. */
  ghost predicate Flags(s: State) {
    && (s.running ==> !s.stopping && s.held.Keys == ALL_SLOTS)
    && (!s.running && !s.stopping ==> s.held == map[])
    && (s.stopping <==> exists t :: IsStopper(s, t))
    && (forall t, u :: IsStopper(s, t) && IsStopper(s, u) ==> t == u)
    && (forall t :: t in s.calls && s.calls[t].AwaitingCallback? ==> s.held.Keys == ALL_SLOTS)
    && (forall t :: t in s.calls && s.calls[t].Tearing? && s.calls[t].stopper ==> s.held == map[])
  }

  /** Only one `start` opens the camera at a time, and then the backend is idle. */
  ghost predicate Lock(s: State) {
    && (s.locked ==> !s.running && !s.stopping)
    && (s.locked <==> exists t :: IsStarting(s, t))
    && (forall t, u :: IsStarting(s, t) && IsStarting(s, u) ==> t == u)
  }

  /** A teardown releases in order and has released everything by its end. */
  ghost predicate Ordered(s: State) {
    forall t, slot :: t in s.calls && s.calls[t].Tearing? && slot in s.calls[t].pending ==>
      s.calls[t].next <= Rank(slot)
  }

  /** The frame callback's guard, and the handles the user's callback relies on. */
  ghost predicate Guard(s: State) {
    && (s.inCallback <==> s.listener.Guarded? || s.listener.InUser? || s.listener.Leaving?)
    && (LISTENER in s.calls ==> s.listener.InUser? && !s.calls[LISTENER].AwaitingCallback?)
    && (s.listener.InUser? ==>
          && s.held == s.listener.live && s.held.Keys == ALL_SLOTS
          && (forall t :: t in s.calls && s.calls[t].Tearing? ==> !s.calls[t].stopper))
  }

  ghost predicate Inv(s: State) {
    Accounts(s) && Flags(s) && Lock(s) && Ordered(s) && Guard(s)
  }

  // ---------------------------------------------------------------- the invariant is kept

  lemma AccountsFollowOwners(s: State, n: State)
    requires Accounts(s) && n.frees == s.frees
    requires forall o: Owner, id: nat :: Owns(n, o, id) <==> Owns(s, o, id)
    ensures Accounts(n)
  {
  }

  lemma OwnersAfterStart(s: State, t: nat, ok: bool, held: Held, frees: Frees, code: int, o: Owner, id: nat)
    requires s.held == map[] && IsStarting(s, t)
    ensures Owns(StartExit(s, t, ok, held, frees, code), o, id)
       <==> if o == NewOwner(t, ok, o.slot) then o.slot in held && held[o.slot] == id else Owns(s, o, id)
    ensures o == NewOwner(t, ok, o.slot) ==> !Owns(s, o, id)
    ensures StartExit(s, t, ok, held, frees, code).frees == frees
  {
  }

  lemma StartExitKeepsAccounts(s: State, t: nat, ok: bool, held: Held, frees: Frees, code: int)
    requires Accounts(s) && s.held == map[] && IsStarting(s, t)
    requires StartOutcome(s, ok, held, frees, code)
    ensures Accounts(StartExit(s, t, ok, held, frees, code))
  {
    hide StartExit, Owns, AccountsFor, Accounts;
    var n := StartExit(s, t, ok, held, frees, code);
    AcquiredHandlesAreAccounted(s, held, frees);
    forall o: Owner, id: nat
      ensures Owns(n, o, id) <==>
              if o == NewOwner(t, ok, o.slot) then o.slot in held && held[o.slot] == id else Owns(s, o, id)
      ensures o == NewOwner(t, ok, o.slot) ==> !Owns(s, o, id)
    {
      OwnersAfterStart(s, t, ok, held, frees, code, o, id);
    }
    OwnersAfterStart(s, t, ok, held, frees, code, Field(Manager), 0);
    forall slot | slot in held
      ensures Owns(n, NewOwner(t, ok, slot), held[slot])
    {
    }
    NewHandlesAreOwned(s, n, held, frees);
  }

  /** Who owns what a `start` acquired: the fields on success, its own teardown on failure. */
  function NewOwner(t: nat, ok: bool, slot: Slot): Owner {
    if ok then Field(slot) else Teardown(t, slot)
  }

  lemma AcquiredHandlesAreAccounted(s: State, held: Held, frees: Frees)
    requires Accounts(s) && AccountsFor(s.frees, held, frees)
    ensures forall slot :: slot in held ==> |s.frees| <= held[slot] < |frees|
    ensures Distinct(held)
    ensures forall o: Owner, id: nat :: Owns(s, o, id) ==> id < |s.frees|
  {
  }

  /** Adding freshly acquired handles under new owners keeps the accounts. */
  lemma NewHandlesAreOwned(s: State, n: State, held: Held, frees: Frees)
    requires Accounts(s) && AccountsFor(s.frees, held, frees) && n.frees == frees
    requires forall o: Owner, id: nat :: Owns(s, o, id) ==> Owns(n, o, id)
    requires forall o: Owner, id: nat :: Owns(n, o, id) && id < |s.frees| ==> Owns(s, o, id)
    requires forall o: Owner, id: nat :: Owns(n, o, id) && id >= |s.frees| ==> o.slot in held && held[o.slot] == id
    requires forall slot :: slot in held ==> exists o: Owner :: o.slot == slot && Owns(n, o, held[slot])
    requires forall o: Owner, p: Owner, id: nat :: Owns(n, o, id) && Owns(n, p, id) && id >= |s.frees| && o.slot == p.slot ==> o == p
    ensures Accounts(n)
  {
  }

  lemma TeardownBeginsKeepsAccounts(s: State, t: nat)
    requires Accounts(s) && Enabled(s, TeardownBegins(t))
    ensures Accounts(Apply(s, TeardownBegins(t)))
  {
    var n := Apply(s, TeardownBegins(t));
    forall o: Owner, id: nat
      ensures Owns(n, o, id) <==>
              o.Teardown? && (if o.t == t then Owns(s, Field(o.slot), id) else Owns(s, o, id))
    {
    }
    forall o: Owner, id: nat | Owns(s, o, id)
      ensures Owns(n, if o.Field? then Teardown(t, o.slot) else o, id)
    {
    }
  }

  lemma ReleaseKeepsAccounts(s: State, t: nat)
    requires Accounts(s) && Enabled(s, Release(t))
    ensures Accounts(ReleaseNext(s, t))
  {
    var n, slot := ReleaseNext(s, t), RELEASE_ORDER[s.calls[t].next];
    forall o: Owner, id: nat
      ensures Owns(n, o, id) <==> Owns(s, o, id) && o != Teardown(t, slot)
    {
    }
    if slot in s.calls[t].pending {
      assert Owns(s, Teardown(t, slot), s.calls[t].pending[slot]);
    }
  }

  /** A teardown that has gone through the whole order has nothing left. */
  lemma FinishedTeardownIsEmpty(s: State, t: nat)
    requires Ordered(s) && Enabled(s, TeardownEnds(t))
    ensures s.calls[t].pending == map[]
  {
    forall slot
      ensures slot !in s.calls[t].pending
    {
      assert Rank(slot) < |RELEASE_ORDER|;
    }
  }

  lemma StartEntryKeepsInv(s: State, t: nat)
    requires Inv(s) && !s.stopping && !s.locked
    requires t in s.calls ==> s.calls[t].StartWaiting?
    requires t == LISTENER ==> s.listener.InUser?
    ensures Inv(StartEntry(s, t))
  {
    hide Accounts;
    var n := StartEntry(s, t);
    AccountsFollowOwners(s, n);
    NoStopperWhileNotStopping(s);
    assert forall u :: IsStopper(n, u) <==> IsStopper(s, u);
    forall u
      ensures IsStarting(n, u) <==> !s.running && u == t
    {
      assert !IsStarting(s, u);
    }
    assert !s.running ==> IsStarting(n, t);
  }

  lemma StartExitKeepsLock(s: State, t: nat, ok: bool, held: Held, frees: Frees, code: int)
    requires Lock(s) && IsStarting(s, t)
    ensures Lock(StartExit(s, t, ok, held, frees, code))
  {
    assert forall u :: IsStarting(StartExit(s, t, ok, held, frees, code), u) ==> IsStarting(s, u) && u != t;
  }

  lemma StartExitKeepsInv(s: State, t: nat, ok: bool, held: Held, frees: Frees, code: int)
    requires Inv(s) && Enabled(s, StartEnds(t, ok, held, frees, code))
    ensures Inv(StartExit(s, t, ok, held, frees, code))
  {
    hide Accounts, AccountsFor;
    var n := StartExit(s, t, ok, held, frees, code);
    StartExitKeepsAccounts(s, t, ok, held, frees, code);
    StartExitKeepsLock(s, t, ok, held, frees, code);
    NoStopperWhileNotStopping(s);
    assert forall u :: IsStopper(n, u) <==> IsStopper(s, u);
    assert forall u :: u in n.calls && n.calls[u].Tearing? && n.calls[u].stopper ==> IsStopper(n, u);
  }

  lemma NoStopperWhileNotStopping(s: State)
    requires Flags(s) && !s.stopping
    ensures forall u :: !IsStopper(s, u)
  {
  }

  lemma StopSectionKeepsAccounts(s: State, t: nat, deputy: nat)
    requires Accounts(s) && FreshDeputy(s, t, deputy)
    requires t in s.calls ==> s.calls[t].ErrorSeen?
    ensures Accounts(StopSection(s, t, deputy))
  {
    hide Accounts;
    AccountsFollowOwners(s, StopSection(s, t, deputy));
  }

  lemma StopSectionKeepsFlags(s: State, t: nat, deputy: nat)
    requires Flags(s) && FreshDeputy(s, t, deputy)
    requires t in s.calls ==> s.calls[t].ErrorSeen?
    ensures Flags(StopSection(s, t, deputy))
  {
    var n := StopSection(s, t, deputy);
    if n.stopping && !s.stopping {
      NoStopperWhileNotStopping(s);
      var stopper := if s.inCallback && t == LISTENER then deputy else t;
      assert IsStopper(n, stopper);
      forall u | u != stopper
        ensures !IsStopper(n, u)
      {
        assert u in n.calls ==> u in s.calls && n.calls[u] == s.calls[u];
        assert !IsStopper(s, u);
      }
    } else {
      assert forall u :: IsStopper(n, u) <==> IsStopper(s, u);
    }
  }

  lemma StopSectionKeepsGuard(s: State, t: nat, deputy: nat)
    requires Guard(s) && Ordered(s) && FreshDeputy(s, t, deputy)
    requires t in s.calls ==> s.calls[t].ErrorSeen?
    requires t == LISTENER ==> s.listener.InUser?
    ensures Guard(StopSection(s, t, deputy)) && Ordered(StopSection(s, t, deputy))
  {
  }

  lemma StopSectionKeepsLock(s: State, t: nat, deputy: nat)
    requires Lock(s) && !s.locked && FreshDeputy(s, t, deputy)
    requires t in s.calls ==> s.calls[t].ErrorSeen?
    ensures Lock(StopSection(s, t, deputy))
  {
    assert forall u :: IsStarting(StopSection(s, t, deputy), u) <==> IsStarting(s, u);
  }

  lemma StopSectionKeepsInv(s: State, t: nat, deputy: nat)
    requires Inv(s) && !s.locked && FreshDeputy(s, t, deputy)
    requires t in s.calls ==> s.calls[t].ErrorSeen?
    requires t == LISTENER ==> s.listener.InUser?
    ensures Inv(StopSection(s, t, deputy))
  {
    hide Accounts, Flags, Lock, Guard, Ordered, StopSection;
    StopSectionKeepsAccounts(s, t, deputy);
    StopSectionKeepsFlags(s, t, deputy);
    StopSectionKeepsLock(s, t, deputy);
    StopSectionKeepsGuard(s, t, deputy);
  }

  lemma TeardownBeginsKeepsInv(s: State, t: nat)
    requires Inv(s) && Enabled(s, TeardownBegins(t))
    ensures Inv(Apply(s, TeardownBegins(t)))
  {
    hide Accounts;
    var n := Apply(s, TeardownBegins(t));
    TeardownBeginsKeepsAccounts(s, t);
    assert IsStopper(s, t);
    assert forall u :: u in s.calls && s.calls[u].AwaitingCallback? ==> IsStopper(s, u);
    assert forall u :: IsStopper(n, u) <==> IsStopper(s, u);
    assert forall u :: IsStarting(n, u) <==> IsStarting(s, u);
  }

  lemma ReleaseKeepsInv(s: State, t: nat)
    requires Inv(s) && Enabled(s, Release(t))
    ensures Inv(ReleaseNext(s, t))
  {
    hide Accounts;
    var n := ReleaseNext(s, t);
    ReleaseKeepsAccounts(s, t);
    RankIsPosition(s.calls[t].next);
    assert forall u :: IsStopper(n, u) <==> IsStopper(s, u);
    assert forall u :: IsStarting(n, u) <==> IsStarting(s, u);
    assert forall slot :: Rank(slot) == s.calls[t].next ==> slot == RELEASE_ORDER[s.calls[t].next];
  }

  lemma TeardownEndsKeepsInv(s: State, t: nat)
    requires Inv(s) && Enabled(s, TeardownEnds(t))
    ensures Inv(Apply(s, TeardownEnds(t)))
  {
    hide Accounts;
    var n := Apply(s, TeardownEnds(t));
    FinishedTeardownIsEmpty(s, t);
    AccountsFollowOwners(s, n);
    if s.calls[t].stopper {
      assert IsStopper(s, t);
    }
    assert forall u :: IsStopper(n, u) <==> IsStopper(s, u) && u != t;
    assert forall u :: IsStarting(n, u) <==> IsStarting(s, u);
  }

  lemma WaitingStepsKeepInv(s: State, step: Step)
    requires Inv(s) && Enabled(s, step)
    requires step.StartBlocks? || step.StopResumes? || step.ErrorCheck?
    ensures Inv(Apply(s, step))
  {
    hide Accounts;
    var n := Apply(s, step);
    AccountsFollowOwners(s, n);
    assert forall u :: IsStopper(n, u) <==> IsStopper(s, u);
    assert forall u :: IsStarting(n, u) <==> IsStarting(s, u);
  }

  lemma ListenerStepsKeepInv(s: State, step: Step)
    requires Inv(s) && Enabled(s, step)
    requires step.FirstCheck? || step.EnterGuard? || step.GiveUp? || step.SecondCheck? || step.UserReturns?
             || step.LeaveGuard?
    ensures Inv(Apply(s, step))
  {
    hide Accounts;
    var n := Apply(s, step);
    AccountsFollowOwners(s, n);
    assert forall u :: IsStopper(n, u) <==> IsStopper(s, u);
    assert forall u :: IsStarting(n, u) <==> IsStarting(s, u);
  }

  lemma EveryStepKeepsInv(s: State, step: Step)
    requires Inv(s) && Enabled(s, step)
    ensures Inv(Apply(s, step))
  {
    assert LISTENER in s.calls ==> s.listener.InUser?;
    hide Inv, StartEntry, StartExit, StopSection, ReleaseNext;
    match step
    case StartCall(t) => StartEntryKeepsInv(s, t);
    case StartResumes(t) => StartEntryKeepsInv(s, t);
    case StartEnds(t, ok, held, frees, code) => StartExitKeepsInv(s, t, ok, held, frees, code);
    case ReadCode(_, _) =>
    case StopCall(t, deputy) => StopSectionKeepsInv(s, t, deputy);
    case ErrorStops(t, deputy) => StopSectionKeepsInv(s, t, deputy);
    case TeardownBegins(t) => TeardownBeginsKeepsInv(s, t);
    case Release(t) => ReleaseKeepsInv(s, t);
    case TeardownEnds(t) => TeardownEndsKeepsInv(s, t);
    case StartBlocks(_) => WaitingStepsKeepInv(s, step);
    case StopResumes(_) => WaitingStepsKeepInv(s, step);
    case ErrorCheck(_) => WaitingStepsKeepInv(s, step);
    case _ => ListenerStepsKeepInv(s, step);
  }

  // ---------------------------------------------------------------- whole executions

  ghost predicate IsExecution(states: seq<State>, steps: seq<Step>) {
    && |states| == |steps| + 1 && states[0] == Init()
    && forall i :: 0 <= i < |steps| ==> Enabled(states[i], steps[i]) && states[i + 1] == Apply(states[i], steps[i])
  }

  lemma {:induction false} EveryReachableStateKeepsInv(states: seq<State>, steps: seq<Step>, i: nat)
    requires IsExecution(states, steps) && i < |states|
    ensures Inv(states[i])
  {
    if i == 0 {
      assert forall t :: !IsStopper(Init(), t) && !IsStarting(Init(), t);
    } else {
      EveryReachableStateKeepsInv(states, steps, i - 1);
      EveryStepKeepsInv(states[i - 1], steps[i - 1]);
    }
  }

  /** In every interleaving no handle is released twice, one that is not released yet has exactly one
      owner, and once nothing runs and no call is in progress every handle ever acquired has been
      released exactly once. */
  lemma HandlesAreReleasedExactlyOnce(states: seq<State>, steps: seq<Step>, i: nat)
    requires IsExecution(states, steps) && i < |states|
    ensures var s := states[i];
            && (forall id: nat :: id < |s.frees| ==>
                  s.frees[id] == (if exists o: Owner :: Owns(s, o, id) then 0 else 1))
            && (forall o: Owner, p: Owner, id: nat :: Owns(s, o, id) && Owns(s, p, id) ==> o == p)
            && (!s.running && s.calls == map[] ==> forall id: nat :: id < |s.frees| ==> s.frees[id] == 1)
  {
    EveryReachableStateKeepsInv(states, steps, i);
    var s := states[i];
    if !s.running && s.calls == map[] {
      assert forall t :: !IsStopper(s, t);
      assert forall o: Owner, id: nat :: !Owns(s, o, id);
    }
  }

  /** Whenever the lock is free, running means every handle is there and no stop is in progress, and
      idle means no handle is there. */
  lemma FlagsTellTheHandles(states: seq<State>, steps: seq<Step>, i: nat)
    requires IsExecution(states, steps) && i < |states|
    ensures states[i].running ==> !states[i].stopping && states[i].held.Keys == ALL_SLOTS
    ensures !states[i].running && !states[i].stopping ==> states[i].held == map[]
  {
    EveryReachableStateKeepsInv(states, steps, i);
  }

  /** As long as the user's frame callback runs, the handles it started with stay in place and none
      of them is released, even if the callback or another thread calls `stop` meanwhile. */
  lemma {:induction false} CallbackKeepsItsHandles(states: seq<State>, steps: seq<Step>, i: nat, j: nat)
    requires IsExecution(states, steps) && i <= j < |states|
    requires forall k :: i <= k <= j ==> states[k].listener.InUser?
    ensures states[j].listener == states[i].listener
    ensures var live := states[i].listener.live;
            && live.Keys == ALL_SLOTS && states[j].held == live
            && forall slot :: slot in live ==> live[slot] < |states[j].frees| && states[j].frees[live[slot]] == 0
    decreases j
  {
    hide Inv, Apply, Enabled;
    EveryReachableStateKeepsInv(states, steps, j);
    LiveHandlesAreNotReleased(states[j]);
    if i < j {
      CallbackKeepsItsHandles(states, steps, i, j - 1);
      assert states[j] == Apply(states[j - 1], steps[j - 1]);
      ListenerKeepsItsHandles(states[j - 1], steps[j - 1]);
    }
  }

  lemma LiveHandlesAreNotReleased(s: State)
    requires Inv(s) && s.listener.InUser?
    ensures var live := s.listener.live;
            && live.Keys == ALL_SLOTS && s.held == live
            && forall slot :: slot in live ==> live[slot] < |s.frees| && s.frees[live[slot]] == 0
  {
    assert forall slot :: slot in s.held ==> Owns(s, Field(slot), s.held[slot]);
  }

  lemma ListenerKeepsItsHandles(s: State, step: Step)
    requires Enabled(s, step) && s.listener.InUser? && Apply(s, step).listener.InUser?
    ensures Apply(s, step).listener == s.listener
  {
  }

  /** While a handle waits for its release, no handle it refers to is released, with one exception:
      the output target goes while the request it was added to is still to be released. */
  lemma ReleasesRespectUseExceptTarget(s: State, t: nat, dependent: Slot)
    requires Inv(s) && Enabled(s, Release(t))
    requires dependent in s.calls[t].pending
    ensures var released := RELEASE_ORDER[s.calls[t].next];
            released in Uses(dependent) <==> dependent == Request && released == Target
  {
    RankIsPosition(s.calls[t].next);
    if RELEASE_ORDER[s.calls[t].next] in Uses(dependent) {
      OrderRespectsUseExceptTarget(dependent, RELEASE_ORDER[s.calls[t].next]);
    }
  }

  // ---------------------------------------------------------------- when a stop gets stuck

  /** Steps that bring the stop in progress, or the frame callback it waits for, nearer to its end. */
  predicate Advances(s: State, step: Step) {
    match step
    case TeardownBegins(t) => IsStopper(s, t) || t == LISTENER
    case Release(t) => IsStopper(s, t) || t == LISTENER
    case TeardownEnds(t) => IsStopper(s, t) || t == LISTENER
    case ErrorStops(t, _) => t == LISTENER
    case EnterGuard => true
    case GiveUp => true
    case SecondCheck => true
    case UserReturns => true
    case LeaveGuard => true
    case _ => false
  }

  /** The frame callback itself waits, in a nested `start` or `stop`, for the stop in progress. */
  predicate CallbackWaits(s: State) {
    s.listener.InUser? && LISTENER in s.calls && (s.calls[LISTENER].StopWaiting? || s.calls[LISTENER].StartWaiting?)
  }

  lemma {:induction false} SomethingAbove(ids: set<nat>) returns (above: nat)
    ensures forall i :: i in ids ==> i < above
    decreases |ids|
  {
    if ids == {} {
      return 0;
    }
    var i :| i in ids;
    var rest := SomethingAbove(ids - {i});
    above := if i < rest then rest else i + 1;
    assert ids == ids - {i} + {i};
  }

  /** A stop in progress can always advance, unless the frame callback waits for it. */
  lemma StopIsStuckIffCallbackWaits(s: State)
    requires Inv(s) && s.stopping
    ensures (forall step :: Enabled(s, step) ==> !Advances(s, step)) <==> CallbackWaits(s)
  {
    var t :| IsStopper(s, t);
    assert !IsStarting(s, LISTENER);
    if s.listener.InUser? {
      assert s.calls[t].AwaitingCallback?;
      if LISTENER !in s.calls {
        assert Enabled(s, UserReturns);
      } else if s.calls[LISTENER].Tearing? {
        assert Enabled(s, if s.calls[LISTENER].next < |RELEASE_ORDER| then Release(LISTENER) else TeardownEnds(LISTENER));
      } else if s.calls[LISTENER].ErrorSeen? {
        var above := SomethingAbove(s.calls.Keys);
        var deputy := above + 1;
        assert Enabled(s, ErrorStops(LISTENER, deputy));
      }
    } else if s.listener.Guarded? {
      assert Enabled(s, GiveUp);
    } else if s.listener.Leaving? {
      assert Enabled(s, LeaveGuard);
    } else if s.calls[t].AwaitingCallback? {
      assert Enabled(s, TeardownBegins(t));
    } else {
      assert Enabled(s, if s.calls[t].next < |RELEASE_ORDER| then Release(t) else TeardownEnds(t));
    }
  }

  lemma StuckStopsStayStuck(s: State, step: Step)
    requires Inv(s) && s.stopping && CallbackWaits(s) && Enabled(s, step)
    ensures Apply(s, step).stopping && CallbackWaits(Apply(s, step))
  {
  }

  /** Once that happens the stop never ends, whatever the other threads do. */
  lemma {:induction false} StuckStopsNeverEnd(states: seq<State>, steps: seq<Step>, i: nat, j: nat)
    requires IsExecution(states, steps) && i <= j < |states|
    requires states[i].stopping && CallbackWaits(states[i])
    ensures states[j].stopping && CallbackWaits(states[j])
    decreases j
  {
    hide Inv, Apply, Enabled, CallbackWaits;
    if i < j {
      StuckStopsNeverEnd(states, steps, i, j - 1);
      EveryReachableStateKeepsInv(states, steps, j - 1);
      assert states[j - 1 + 1] == Apply(states[j - 1], steps[j - 1]);
      StuckStopsStayStuck(states[j - 1], steps[j - 1]);
    }
  }

  // ---------------------------------------------------------------- how long a stop takes

  /** What is left of the frame callback. */
  function CallbackWork(s: State): nat {
    match s.listener
    case Away => 0
    case Leaving => 1
    case Guarded => 2
    case Seen => 3
    case InUser(_) =>
      2 + if LISTENER !in s.calls then 0
          else match s.calls[LISTENER]
               case ErrorSeen => 1
               case Tearing(_, next, _) => if next < 8 then 9 - next else 1
               case _ => 0
  }

  /** What is left of the stop that `t` is to end. */
  function Work(s: State, t: nat): nat
    requires IsStopper(s, t)
  {
    CallbackWork(s)
    + match s.calls[t]
      case Tearing(_, next, _) => if next < 8 then 9 - next else 1
      case _ => 10
  }

  lemma StopperIsElsewhere(s: State, t: nat)
    requires Inv(s) && s.stopping && IsStopper(s, t)
    ensures t != LISTENER && !s.running && !s.locked
    ensures LISTENER in s.calls ==>
              s.listener.InUser? && !s.calls[LISTENER].AwaitingCallback? && !s.calls[LISTENER].Starting?
    ensures forall u :: IsStopper(s, u) ==> u == t
  {
    assert !IsStarting(s, LISTENER);
  }

  predicate IsTeardownStep(step: Step) {
    step.TeardownBegins? || step.Release? || step.TeardownEnds?
  }

  lemma StepsLowerCallbackWork(s: State, step: Step)
    requires Enabled(s, step) && !s.running && s.stopping
    requires LISTENER in s.calls ==>
               s.listener.InUser? && !s.calls[LISTENER].AwaitingCallback? && !s.calls[LISTENER].Starting?
    ensures CallbackWork(Apply(s, step)) <= CallbackWork(s)
    ensures Advances(s, step) && (IsTeardownStep(step) ==> step.t == LISTENER) ==>
              CallbackWork(Apply(s, step)) < CallbackWork(s)
  {
  }

  /** No step of any thread adds to what is left of a stop, and every step that advances it takes
      something away. */
  lemma AdvancingLowersWork(s: State, step: Step, t: nat)
    requires Inv(s) && s.stopping && IsStopper(s, t) && Enabled(s, step)
    ensures var n := Apply(s, step);
            n.stopping ==> IsStopper(n, t) && Work(n, t) <= Work(s, t) && (Advances(s, step) ==> Work(n, t) < Work(s, t))
  {
    StopperIsElsewhere(s, t);
    StepsLowerCallbackWork(s, step);
  }

  lemma WorkIsBounded(s: State, t: nat)
    requires IsStopper(s, t)
    ensures Work(s, t) <= 21
  {
  }

  function AdvanceCount(states: seq<State>, steps: seq<Step>, i: nat, j: nat): nat
    requires i <= j <= |steps| < |states|
    decreases j
  {
    if i == j then 0 else AdvanceCount(states, steps, i, j - 1) + if Advances(states[j - 1], steps[j - 1]) then 1 else 0
  }

  /** A stop in progress ends after at most 21 steps that advance it, whatever else happens. */
  lemma {:induction false} StopEndsAfterItsWork(states: seq<State>, steps: seq<Step>, i: nat, j: nat, t: nat)
    requires IsExecution(states, steps) && i <= j < |states|
    requires forall k :: i <= k <= j ==> states[k].stopping
    requires IsStopper(states[i], t)
    ensures IsStopper(states[j], t)
    ensures AdvanceCount(states, steps, i, j) + Work(states[j], t) <= Work(states[i], t) <= 21
    decreases j
  {
    hide Inv, Apply, Enabled, Advances, IsStopper, Work;
    WorkIsBounded(states[i], t);
    if i < j {
      StopEndsAfterItsWork(states, steps, i, j - 1, t);
      EveryReachableStateKeepsInv(states, steps, j - 1);
      assert states[j - 1 + 1] == Apply(states[j - 1], steps[j - 1]);
      assert states[j - 1].stopping;
      AdvancingLowersWork(states[j - 1], steps[j - 1], t);
    }
  }

  // ---------------------------------------------------------------- building executions

  lemma ExecutionGrows(states: seq<State>, steps: seq<Step>, step: Step)
    requires IsExecution(states, steps) && Enabled(states[|steps|], step)
    ensures IsExecution(states + [Apply(states[|steps|], step)], steps + [step])
  {
  }

  function AllEight(): Held {
    map[Session := 0, Target := 1, Request := 2, Container := 3, Output := 4, Device := 5, Reader := 6, Manager := 7]
  }

  function EightFresh(): Frees {
    [0, 0, 0, 0, 0, 0, 0, 0]
  }

  lemma AllEightCanStart(s: State)
    requires s.frees == []
    ensures StartOutcome(s, true, AllEight(), EightFresh(), 0)
  {
    var held := AllEight();
    assert held[Session] == 0 && held[Target] == 1 && held[Request] == 2 && held[Container] == 3;
    assert held[Output] == 4 && held[Device] == 5 && held[Reader] == 6 && held[Manager] == 7;
    assert forall i: nat :: i < 8 ==> HeldSomewhere(held, i);
  }

  /** It does happen: a `stop` from the frame callback waits for a `stop` from elsewhere, which waits
      for the callback. */
  lemma CallbackCanWaitForStop() returns (states: seq<State>, steps: seq<Step>)
    ensures IsExecution(states, steps)
    ensures states[|steps|].stopping && CallbackWaits(states[|steps|])
  {
    hide IsExecution, StartOutcome, AllEight, EightFresh;
    var started := Init().(running := true, held := AllEight(), frees := EightFresh());
    states, steps := NothingYet();
    states, steps := OneMore(states, steps, StartCall(1));
    AllEightCanStart(states[1]);
    states, steps := OneMore(states, steps, StartEnds(1, true, AllEight(), EightFresh(), 0));
    assert states[2] == started;
    states, steps := OneMore(states, steps, FirstCheck);
    states, steps := OneMore(states, steps, EnterGuard);
    states, steps := OneMore(states, steps, SecondCheck);
    assert states[5] == started.(inCallback := true, listener := InUser(AllEight()));
    states, steps := OneMore(states, steps, StopCall(1, 2));
    states, steps := OneMore(states, steps, StopCall(LISTENER, 2));
  }

  lemma NothingYet() returns (states: seq<State>, steps: seq<Step>)
    ensures IsExecution(states, steps) && states == [Init()] && steps == []
  {
    states, steps := [Init()], [];
  }

  lemma OneMore(states: seq<State>, steps: seq<Step>, step: Step) returns (more: seq<State>, longer: seq<Step>)
    requires IsExecution(states, steps) && Enabled(states[|steps|], step)
    ensures IsExecution(more, longer) && |longer| == |steps| + 1 && longer == steps + [step]
    ensures |more| == |longer| + 1 && more[|longer|] == Apply(states[|steps|], step)
  {
    ExecutionGrows(states, steps, step);
    more, longer := states + [Apply(states[|steps|], step)], steps + [step];
  }

  // ---------------------------------------------------------------- the failure code between threads

  /** A `start` that does not find the camera running begins by zeroing the failure code. */
  predicate Zeroes(s: State, step: Step) {
    (step.StartCall? || step.StartResumes?) && !s.running
  }

  predicate FailsStart(step: Step) {
    step.StartEnds? && !step.ok
  }

  /** Between steps `i` and `j` a `start` has zeroed the code and no `start` has failed since. */
  ghost predicate IsZeroedBetween(states: seq<State>, steps: seq<Step>, i: nat, j: nat)
    requires j <= |steps| < |states|
  {
    exists k :: i < k < j && Zeroes(states[k], steps[k]) && NoneFails(steps, k, j)
  }

  ghost predicate NoneFails(steps: seq<Step>, k: nat, j: nat)
    requires j <= |steps|
  {
    forall l :: k < l < j ==> !FailsStart(steps[l])
  }

  /** The code is that of the failed `start` at some step from `i` on, the last one before `j`. */
  ghost predicate IsLastFailure(steps: seq<Step>, i: nat, j: nat, code: int)
    requires j <= |steps|
  {
    exists k :: i <= k < j && FailsStart(steps[k]) && steps[k].code == code && NoneFails(steps, k, j)
  }

  lemma ZeroedOneMore(states: seq<State>, steps: seq<Step>, i: nat, j: nat)
    requires i < j < |steps| < |states|
    ensures IsZeroedBetween(states, steps, i, j + 1)
       <==> Zeroes(states[j], steps[j]) || (IsZeroedBetween(states, steps, i, j) && !FailsStart(steps[j]))
  {
    if Zeroes(states[j], steps[j]) {
      assert NoneFails(steps, j, j + 1);
    }
    if IsZeroedBetween(states, steps, i, j) && !FailsStart(steps[j]) {
      var k :| i < k < j && Zeroes(states[k], steps[k]) && NoneFails(steps, k, j);
      assert NoneFails(steps, k, j + 1);
    }
    if IsZeroedBetween(states, steps, i, j + 1) {
      var k :| i < k < j + 1 && Zeroes(states[k], steps[k]) && NoneFails(steps, k, j + 1);
      if k < j {
        assert NoneFails(steps, k, j) && !FailsStart(steps[j]);
      }
    }
  }

  lemma LastFailureOneMore(steps: seq<Step>, i: nat, j: nat, code: int)
    requires i < j < |steps|
    requires if FailsStart(steps[j]) then steps[j].code == code else IsLastFailure(steps, i, j, code)
    ensures IsLastFailure(steps, i, j + 1, code)
  {
    if FailsStart(steps[j]) {
      assert NoneFails(steps, j, j + 1);
    } else {
      var k :| i <= k < j && FailsStart(steps[k]) && steps[k].code == code && NoneFails(steps, k, j);
      assert NoneFails(steps, k, j + 1);
    }
  }

  /** Only the two halves of a `start` write the failure code. */
  lemma CodeAfterStep(s: State, step: Step)
    requires Enabled(s, step)
    ensures Apply(s, step).failure
         == if Zeroes(s, step) then 0 else if FailsStart(step) then step.code else s.failure
    ensures FailsStart(step) ==> CAMERA_NO_DEVICE <= step.code <= CAMERA_STREAMING_FAILED
  {
  }

  lemma {:induction false} CodeAfterFailedStart(states: seq<State>, steps: seq<Step>, i: nat, j: nat)
    requires IsExecution(states, steps) && i < j <= |steps| && FailsStart(steps[i])
    ensures states[j].failure == 0 <==> IsZeroedBetween(states, steps, i, j)
    ensures states[j].failure != 0 ==> IsLastFailure(steps, i, j, states[j].failure)
    decreases j
  {
    hide Enabled, Apply, IsZeroedBetween, IsLastFailure, NoneFails, Zeroes;
    var s, step := states[j - 1], steps[j - 1];
    assert Enabled(s, step) && states[j - 1 + 1] == Apply(s, step);
    CodeAfterStep(s, step);
    if i == j - 1 {
      FirstFailureCounts(states, steps, i);
    } else {
      CodeAfterFailedStart(states, steps, i, j - 1);
      ZeroedOneMore(states, steps, i, j - 1);
      if states[j].failure != 0 {
        LastFailureOneMore(steps, i, j - 1, states[j].failure);
      }
    }
  }

  lemma FirstFailureCounts(states: seq<State>, steps: seq<Step>, i: nat)
    requires i < |steps| < |states| && FailsStart(steps[i])
    ensures !IsZeroedBetween(states, steps, i, i + 1) && IsLastFailure(steps, i, i + 1, steps[i].code)
    ensures !Zeroes(states[i], steps[i])
  {
    assert NoneFails(steps, i, i + 1);
  }

  /** After a failed `start`, a caller that reads the code reads 0, and so reports its own default, if
      and only if another `start` has entered since then and has not failed up to now: it may still
      be opening the camera, and may even fail later. Otherwise the caller reads the specific code of
      the last failure. */
  lemma CodeReadsZeroIffStartIntervenes(states: seq<State>, steps: seq<Step>, i: nat, j: nat)
    requires IsExecution(states, steps) && i < j < |steps| && FailsStart(steps[i]) && steps[j].ReadCode?
    ensures steps[j].code == 0 <==> IsZeroedBetween(states, steps, i, j)
    ensures steps[j].code != 0 ==> IsLastFailure(steps, i, j, steps[j].code)
    ensures steps[j].code != 0 ==> CAMERA_NO_DEVICE <= steps[j].code <= CAMERA_STREAMING_FAILED
  {
    hide Apply, IsZeroedBetween;
    CodeAfterFailedStart(states, steps, i, j);
    assert Enabled(states[j], steps[j]);
    if steps[j].code != 0 {
      var k :| i <= k < j && FailsStart(steps[k]) && steps[k].code == steps[j].code && NoneFails(steps, k, j);
      assert Enabled(states[k], steps[k]);
    }
  }

  /** A teardown with nothing to release goes through its order undisturbed. */
  lemma EmptyTeardownRuns(states: seq<State>, steps: seq<Step>, failed: State)
    returns (more: seq<State>, longer: seq<Step>)
    requires IsExecution(states, steps) && states[|steps|] == failed
    requires failed.calls == map[1 := Tearing(map[], 0, false)]
    ensures IsExecution(more, longer) && |longer| == |steps| + 8 && |more| == |longer| + 1 && steps <= longer
    ensures more[|longer|] == failed.(calls := map[1 := Tearing(map[], 8, false)])
    ensures forall k :: |steps| <= k < |longer| ==> longer[k] == Release(1)
  {
    hide IsExecution;
    more, longer := states, steps;
    LengthOfExecution(states, steps);
    for i := 0 to 8
      invariant IsExecution(more, longer) && |more| == |longer| + 1
      invariant |longer| == |steps| + i && steps <= longer
      invariant more[|longer|] == failed.(calls := map[1 := Tearing(map[], i, false)])
      invariant forall k :: |steps| <= k < |longer| ==> longer[k] == Release(1)
    {
      EmptyRelease(more[|longer|], i);
      hide Enabled, Apply;
      more, longer := OneMore(more, longer, Release(1));
      LengthOfExecution(more, longer);
    }
  }

  lemma EmptyRelease(s: State, i: nat)
    requires i < 8 && s.calls == map[1 := Tearing(map[], i, false)]
    ensures Enabled(s, Release(1))
    ensures Apply(s, Release(1)) == s.(calls := map[1 := Tearing(map[], i + 1, false)])
  {
  }

  lemma LengthOfExecution(states: seq<State>, steps: seq<Step>)
    requires IsExecution(states, steps)
    ensures |states| == |steps| + 1
  {
  }

  lemma FailedStartRuns() returns (states: seq<State>, steps: seq<Step>)
    ensures IsExecution(states, steps) && |steps| == 11 && states[11] == Init().(failure := CAMERA_MANAGER_FAILED)
    ensures steps[1] == StartEnds(1, false, map[], [], CAMERA_MANAGER_FAILED)
    ensures forall k :: 0 <= k < |steps| && k != 1 ==> !steps[k].StartEnds?
  {
    NothingAcquired([]);
    hide IsExecution, AccountsFor;
    states, steps := NothingYet();
    states, steps := OneMore(states, steps, StartCall(1));
    states, steps := OneMore(states, steps, StartEnds(1, false, map[], [], CAMERA_MANAGER_FAILED));
    states, steps := EmptyTeardownRuns(states, steps, states[2]);
    states, steps := OneMore(states, steps, TeardownEnds(1));
  }

  /** It can happen with no `start` ever succeeding: the first one's caller reads 0 while a second one,
      which is about to fail, holds the lock. */
  lemma FailureCodeCanBeLost() returns (states: seq<State>, steps: seq<Step>)
    ensures IsExecution(states, steps) && |steps| == 14
    ensures FailsStart(steps[1]) && steps[1].t == 1 && steps[12] == ReadCode(1, 0) && FailsStart(steps[13])
    ensures forall k :: 0 <= k < |steps| && steps[k].StartEnds? ==> FailsStart(steps[k])
  {
    NothingAcquired([]);
    states, steps := FailedStartRuns();
    hide IsExecution, AccountsFor;
    states, steps := OneMore(states, steps, StartCall(2));
    states, steps := OneMore(states, steps, ReadCode(1, 0));
    states, steps := OneMore(states, steps, StartEnds(2, false, map[], [], CAMERA_NO_DEVICE));
  }
}
