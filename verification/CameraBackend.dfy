/** One call of `start` and `stop` on the camera backend, with every way in which `start` fails. */
module CameraBackend {
  import opened Wrappers
  import opened CameraHandles

  const CAMERA_NO_DEVICE := 50
  const CAMERA_ID_SELECT_FAILED := 51
  const CAMERA_MANAGER_FAILED := 52
  const CAMERA_OPEN_FAILED := 53
  const CAMERA_IMAGE_READER_FAILED := 54
  const CAMERA_WINDOW_FAILED := 55
  const CAMERA_SESSION_FAILED := 56
  const CAMERA_REQUEST_FAILED := 57
  const CAMERA_STREAMING_FAILED := 58

  /** One round of the open loop. */
  datatype Attempt = Attempt(reader: bool, window: bool, open: bool)

  /** A probe for a camera: whether the list became non-empty in time, and the id selected. */
  datatype Probe = Probe(listed: bool, id: Option<string>)

  /** The outcomes of the foreign calls that a `start` may make, `attempts` by round of the open loop.
      A call that fails yields no handle. */
  datatype Script = Script(
    manager: bool,
    probe: Probe,
    attempts: nat -> Attempt,
    reprobe: Probe,
    output: bool, container: bool, add: bool,
    session: bool,
    request: bool, target: bool, addTarget: bool,
    repeating: bool)

  function ProbeFailure(p: Probe): int {
    if !p.listed then CAMERA_NO_DEVICE
    else if p.id == None || p.id.value == "" then CAMERA_ID_SELECT_FAILED
    else 0
  }

  function AttemptFailure(a: Attempt): int {
    if !a.reader then CAMERA_IMAGE_READER_FAILED
    else if !a.window then CAMERA_WINDOW_FAILED
    else if !a.open then CAMERA_OPEN_FAILED
    else 0
  }

  /** A cached camera id that fails to open is probed for again, once. */
  predicate Retries(s: Script, warm: bool) {
    warm && AttemptFailure(s.attempts(0)) == CAMERA_OPEN_FAILED
  }

  /** The code of the first stage that fails while a camera is chosen and opened, 0 if none does. */
  function OpenFailure(s: Script, warm: bool): int {
    if !s.manager then CAMERA_MANAGER_FAILED
    else if !warm && ProbeFailure(s.probe) != 0 then ProbeFailure(s.probe)
    else if !Retries(s, warm) then AttemptFailure(s.attempts(0))
    else if ProbeFailure(s.reprobe) != 0 then ProbeFailure(s.reprobe)
    else AttemptFailure(s.attempts(1))
  }

  /** The same for the stages after the camera is open. */
  function StreamFailure(s: Script): int {
    if !(s.output && s.container && s.add && s.session) then CAMERA_SESSION_FAILED
    else if !(s.request && s.target && s.addTarget) then CAMERA_REQUEST_FAILED
    else if !s.repeating then CAMERA_STREAMING_FAILED
    else 0
  }

  function FailureCode(s: Script, warm: bool): int {
    if OpenFailure(s, warm) != 0 then OpenFailure(s, warm) else StreamFailure(s)
  }

  /** A failed start always has a code of its own, so a caller never sees 0 for it. */
  lemma FailureCodesAreSpecific(s: Script, warm: bool)
    ensures FailureCode(s, warm) == 0 || CAMERA_NO_DEVICE <= FailureCode(s, warm) <= CAMERA_STREAMING_FAILED
  {
  }

  predicate FindsNoId(p: Probe) {
    p.listed && (p.id.None? || p.id.value == "")
  }

  /** The manager was made, and the camera of the last round of the open loop chosen: the cached one, or one
      that a probe listed and selected. */
  predicate IsChosen(s: Script, warm: bool) {
    s.manager && (if warm then Reprobes(s, warm) ==> s.reprobe.listed && !FindsNoId(s.reprobe)
                  else s.probe.listed && !FindsNoId(s.probe))
  }

  /** The cached camera got as far as being opened, and that failed. */
  predicate Reprobes(s: Script, warm: bool) {
    warm && s.attempts(0).reader && s.attempts(0).window && !s.attempts(0).open
  }

  function LastAttempt(s: Script, warm: bool): Attempt {
    s.attempts(if Reprobes(s, warm) then 1 else 0)
  }

  predicate IsOpen(s: Script, warm: bool) {
    var a := LastAttempt(s, warm);
    IsChosen(s, warm) && a.reader && a.window && a.open
  }

  predicate HasSession(s: Script) {
    s.output && s.container && s.add && s.session
  }

  predicate HasRequest(s: Script) {
    s.request && s.target && s.addTarget
  }

  /** Each failure code, and success, in terms of the native calls that fail. */
  lemma CodesNameTheirStages(s: Script, warm: bool)
    ensures var code, a := FailureCode(s, warm), LastAttempt(s, warm);
            && (code == 52 <==> !s.manager)
            && (code == 50 <==> s.manager && ((!warm && !s.probe.listed) || (Reprobes(s, warm) && !s.reprobe.listed)))
            && (code == 51 <==> s.manager && ((!warm && FindsNoId(s.probe)) || (Reprobes(s, warm) && FindsNoId(s.reprobe))))
            && (code == 54 <==> IsChosen(s, warm) && !a.reader)
            && (code == 55 <==> IsChosen(s, warm) && a.reader && !a.window)
            && (code == 53 <==> IsChosen(s, warm) && a.reader && a.window && !a.open)
            && (code == 56 <==> IsOpen(s, warm) && !HasSession(s))
            && (code == 57 <==> IsOpen(s, warm) && HasSession(s) && !HasRequest(s))
            && (code == 58 <==> IsOpen(s, warm) && HasSession(s) && HasRequest(s) && !s.repeating)
            && (code == 0 <==> IsOpen(s, warm) && HasSession(s) && HasRequest(s) && s.repeating)
  {
  }

  class Camera2NdkBackend {
    var held: Held
    var frees: Frees
    var isRunning: bool
    var lastStartFailure: int
    var cameraId: string
    /** The id cached when the HAL started; shared by all backends. */
    var warmId: Option<string>
    /** How often the current or last `start` has called `openCamera`. */
    var opens: nat

    constructor (warmId: Option<string>)
      ensures Valid() && !isRunning && lastStartFailure == 0 && this.warmId == warmId && frees == []
    {
      held, frees, isRunning, lastStartFailure, opens := map[], [], false, 0, 0;
      cameraId, this.warmId := "", warmId;
    }

    /** Running means every handle is there, idle means none is. */
    ghost predicate Valid()
      reads this
    {
      && (isRunning ==> held.Keys == ALL_SLOTS)
      && (!isRunning ==> held == map[])
      && (forall s :: s in held ==> held[s] < |frees|)
      && Distinct(held)
    }

    predicate IsWarm()
      reads this
    {
      warmId.Some? && warmId.value != ""
    }

    method Acquire(slot: Slot, ghost before: Frees)
      requires AccountsFor(before, held, frees) && slot !in held
      modifies this`held, this`frees
      ensures held == old(held)[slot := |old(frees)|] && AccountsFor(before, held, frees)
      ensures |frees| == |old(frees)| + 1
    {
      AcquiringKeepsAccounts(before, held, frees, slot);
      held := held[slot := |frees|];
      frees := frees + [0];
    }

    method Free(slot: Slot, ghost before: Frees)
      requires AccountsFor(before, held, frees) && slot in held
      modifies this`held, this`frees
      ensures held == old(held) - {slot} && AccountsFor(before, held, frees)
    {
      FreeingKeepsAccounts(before, held, frees, slot);
      frees := frees[held[slot] := frees[held[slot]] + 1];
      held := held - {slot};
    }

    /** Releases whatever is held, in the fixed order, each handle once and nothing else. */
    method Teardown()
      requires Distinct(held) && forall s :: s in held ==> held[s] < |frees|
      modifies this`held, this`frees
      ensures held == map[] && Released(old(held), map[], old(frees), frees)
    {
      hide Released;
      ghost var was := held;
      NothingReleased(held, frees);
      for i := 0 to |RELEASE_ORDER|
        invariant Released(was, held, old(frees), frees)
        invariant forall k :: 0 <= k < i ==> RELEASE_ORDER[k] !in held
      {
        var slot := RELEASE_ORDER[i];
        StillHeld(was, held, old(frees), frees);
        if slot in held {
          ReleasingOneMore(was, held, old(frees), frees, slot);
          frees := frees[held[slot] := frees[held[slot]] + 1];
          held := held - {slot};
        }
      }
      forall s
        ensures s !in held
      {
        assert RELEASE_ORDER[Rank(s)] == s;
      }
      assert held == map[];
    }

    method ProbeCamera(probe: Probe) returns (ok: bool)
      modifies this`lastStartFailure, this`cameraId
      ensures ok <==> ProbeFailure(probe) == 0
      ensures lastStartFailure == if ok then old(lastStartFailure) else ProbeFailure(probe)
      ensures ok ==> probe.id == Some(cameraId)
      ensures ok ==> probe.listed && !FindsNoId(probe)
    {
      if !probe.listed {
        lastStartFailure := CAMERA_NO_DEVICE;
        return false;
      }
      cameraId := if probe.id.Some? then probe.id.value else cameraId;
      if probe.id.None? || cameraId == "" {
        lastStartFailure := CAMERA_ID_SELECT_FAILED;
        return false;
      }
      return true;
    }

    /** One round of the open loop: on failure its reader is gone again. */
    method TryOpen(attempt: Attempt, ghost before: Frees) returns (failure: int)
      requires AccountsFor(before, held, frees) && held.Keys == {Manager}
      modifies this`held, this`frees, this`opens
      ensures AccountsFor(before, held, frees)
      ensures failure == AttemptFailure(attempt)
      ensures held.Keys == if failure == 0 then {Manager, Reader, Device} else {Manager}
      ensures opens == old(opens) + if failure in {0, CAMERA_OPEN_FAILED} then 1 else 0
    {
      hide AccountsFor;
      if !attempt.reader {
        return CAMERA_IMAGE_READER_FAILED;
      }
      Acquire(Reader, before);
      if !attempt.window {
        Free(Reader, before);
        return CAMERA_WINDOW_FAILED;
      }
      opens := opens + 1;
      if attempt.open {
        Acquire(Device, before);
        return 0;
      }
      Free(Reader, before);
      return CAMERA_OPEN_FAILED;
    }

    /** The open loop: a failed open is retried only while the camera id is the cached one, and then
        the id is probed for afresh. */
    method OpenLoop(script: Script, warm: bool, ghost before: Frees) returns (ok: bool)
      requires AccountsFor(before, held, frees) && held.Keys == {Manager}
      requires opens == 0 && lastStartFailure == 0
      modifies this
      ensures AccountsFor(before, held, frees)
      ensures lastStartFailure == if !Retries(script, warm) then AttemptFailure(script.attempts(0))
                                  else if ProbeFailure(script.reprobe) != 0 then ProbeFailure(script.reprobe)
                                  else AttemptFailure(script.attempts(1))
      ensures ok <==> lastStartFailure == 0
      ensures ok ==> held.Keys == {Manager, Reader, Device}
      ensures opens <= 2 && isRunning == old(isRunning)
      ensures warmId == if Reprobes(script, warm) then None else old(warmId)
      ensures ok ==> if Reprobes(script, warm) then script.reprobe.id == Some(cameraId) else cameraId == old(cameraId)
    {
      hide AccountsFor, ProbeFailure, FindsNoId;
      var usedWarmId, openAttempt: nat := warm, 0;
      while true
        invariant AccountsFor(before, held, frees) && held.Keys == {Manager}
        invariant lastStartFailure == 0 && isRunning == old(isRunning)
        invariant opens == openAttempt
        invariant openAttempt == 0 ==> warmId == old(warmId) && cameraId == old(cameraId)
        invariant openAttempt == 1 ==>
                    Reprobes(script, warm) && warmId == None && script.reprobe.id == Some(cameraId)
        invariant openAttempt == 0 ==> usedWarmId == warm
        invariant openAttempt > 0 ==>
                    openAttempt == 1 && !usedWarmId && Retries(script, warm) && ProbeFailure(script.reprobe) == 0
        decreases usedWarmId
      {
        var failure := TryOpen(script.attempts(openAttempt), before);
        if failure == 0 {
          break;
        }
        if failure != CAMERA_OPEN_FAILED || openAttempt != 0 || !usedWarmId {
          lastStartFailure := failure;
          return false;
        }
        warmId := None;
        usedWarmId := false;
        var probed := ProbeCamera(script.reprobe);
        if !probed {
          return false;
        }
        openAttempt := openAttempt + 1;
      }
      ok := true;
    }

    /** Chooses and opens a camera. */
    method OpenCamera(script: Script, ghost before: Frees) returns (ok: bool)
      requires held == map[] && frees == before && opens == 0 && lastStartFailure == 0
      modifies this
      ensures AccountsFor(before, held, frees)
      ensures ok <==> OpenFailure(script, old(IsWarm())) == 0
      ensures lastStartFailure == OpenFailure(script, old(IsWarm()))
      ensures ok ==> held.Keys == {Manager, Reader, Device}
      ensures opens <= 2 && isRunning == old(isRunning)
      ensures warmId == if script.manager && Reprobes(script, old(IsWarm())) then None else old(warmId)
      ensures ok ==> Some(cameraId) == if Reprobes(script, old(IsWarm())) then script.reprobe.id
                                       else if old(IsWarm()) then old(warmId) else script.probe.id
    {
      hide AccountsFor, Retries, AttemptFailure, FindsNoId;
      NothingAcquired(before);
      if !script.manager {
        lastStartFailure := CAMERA_MANAGER_FAILED;
        return false;
      }
      Acquire(Manager, before);
      var warm := IsWarm();
      if warm {
        cameraId := warmId.value;
      } else {
        var probed := ProbeCamera(script.probe);
        if !probed {
          return false;
        }
      }
      ok := OpenLoop(script, warm, before);
    }

    /** Builds the capture session on an open camera. */
    method StartStreaming(script: Script, ghost before: Frees) returns (ok: bool)
      requires AccountsFor(before, held, frees) && held.Keys == {Manager, Reader, Device}
      requires lastStartFailure == 0
      modifies this`held, this`frees, this`lastStartFailure
      ensures AccountsFor(before, held, frees)
      ensures ok <==> StreamFailure(script) == 0
      ensures lastStartFailure == StreamFailure(script)
      ensures ok ==> held.Keys == ALL_SLOTS
    {
      hide AccountsFor;
      if !script.output {
        lastStartFailure := CAMERA_SESSION_FAILED;
        return false;
      }
      Acquire(Output, before);
      if !script.container {
        lastStartFailure := CAMERA_SESSION_FAILED;
        return false;
      }
      Acquire(Container, before);
      if !script.add || !script.session {
        lastStartFailure := CAMERA_SESSION_FAILED;
        return false;
      }
      Acquire(Session, before);
      if !script.request {
        lastStartFailure := CAMERA_REQUEST_FAILED;
        return false;
      }
      Acquire(Request, before);
      if !script.target {
        lastStartFailure := CAMERA_REQUEST_FAILED;
        return false;
      }
      Acquire(Target, before);
      if !script.addTarget {
        lastStartFailure := CAMERA_REQUEST_FAILED;
        return false;
      }
      if !script.repeating {
        lastStartFailure := CAMERA_STREAMING_FAILED;
        return false;
      }
      return true;
    }

    /** The part of `start` that runs under the lock, up to its success or to the unlock inside
        `teardown`. */
    method StartLocked(script: Script) returns (ok: bool)
      requires Valid() && !isRunning
      modifies this
      ensures AccountsFor(old(frees), held, frees)
      ensures ok <==> FailureCode(script, old(IsWarm())) == 0
      ensures lastStartFailure == FailureCode(script, old(IsWarm()))
      ensures isRunning == ok && (ok ==> held.Keys == ALL_SLOTS)
      ensures opens <= 2
      ensures warmId == if script.manager && Reprobes(script, old(IsWarm())) then None else old(warmId)
      ensures ok ==> Some(cameraId) == if Reprobes(script, old(IsWarm())) then script.reprobe.id
                                       else if old(IsWarm()) then old(warmId) else script.probe.id
    {
      hide AccountsFor, OpenFailure, StreamFailure, Reprobes;
      lastStartFailure, opens := 0, 0;
      ghost var before := frees;
      ok := OpenCamera(script, before);
      if ok {
        ok := StartStreaming(script, before);
      }
      isRunning := ok;
    }

    /** Tries to open the camera at most twice: the cached one if there is one, and if that cannot be opened,
        forgets it and tries the one that a fresh probe selects. A failed start leaves no handle held or
        leaked and reports the stage that failed; a successful one holds them all. */
    method Start(script: Script) returns (ok: bool)
      requires Valid()
      modifies this
      ensures Valid() && isRunning == ok
      ensures old(isRunning) ==> ok && frees == old(frees) && held == old(held)
      ensures !old(isRunning) ==>
                && (ok <==> FailureCode(script, old(IsWarm())) == 0)
                && lastStartFailure == FailureCode(script, old(IsWarm()))
                && AccountsFor(old(frees), held, frees)
                && opens <= 2
                && warmId == (if script.manager && Reprobes(script, old(IsWarm())) then None else old(warmId))
                && (ok ==> Some(cameraId) == if Reprobes(script, old(IsWarm())) then script.reprobe.id
                                             else if old(IsWarm()) then old(warmId) else script.probe.id)
      ensures !ok ==> forall i :: |old(frees)| <= i < |frees| ==> frees[i] == 1
    {
      if isRunning {
        return true;
      }
      ghost var before := frees;
      ok := StartLocked(script);
      if !ok {
        ghost var acquired, start := held, frees;
        Teardown();
        ReleasingAllSettlesAccounts(before, acquired, start, frees);
      }
    }

    /** Stopping releases every handle of the running session once and no other. */
    method Stop()
      requires Valid()
      modifies this`held, this`frees, this`isRunning
      ensures Valid() && !isRunning
      ensures Released(old(held), map[], old(frees), frees)
    {
      hide Released;
      if !isRunning {
        NothingReleased(held, frees);
        return;
      }
      isRunning := false;
      Teardown();
    }
  }
}
