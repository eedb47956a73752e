/** The stub engine's cache of enrolled faces when sessions overlap. Restoring loads from disk before it
    takes the engine's lock, and deleting wipes the disk before it does, so each is two steps; only an
    enrollment saves and caches under one hold of the lock. `disk` is what loading the user's templates
    would return. */
module EngineRaces {
  import opened Wrappers
  import opened Bytes
  import opened FaceStorageCallbacks
  import opened FaceEngineStub

  type Faces = map<i32, Embedding>

  /** A call between its disk part and its cache part. */
  datatype Pc = Restoring(loaded: Faces) | Deleting(f: i32)

  datatype State = State(disk: Faces, cache: Faces, threads: map<nat, Pc>)

  datatype Step =
    | Load(t: nat)
    | Install(t: nat)
    | Wipe(t: nat, f: i32)
    | Forget(t: nat)
    | Enroll(f: i32, e: Embedding)

  ghost predicate Enabled(s: State, step: Step) {
    match step
    case Load(t) => t !in s.threads
    case Install(t) => t in s.threads && s.threads[t].Restoring?
    case Wipe(t, _) => t !in s.threads
    case Forget(t) => t in s.threads && s.threads[t].Deleting?
    case Enroll(f, _) => IsNextId(s.cache, f)
  }

  function Apply(s: State, step: Step): State
    requires Enabled(s, step)
  {
    match step
    case Load(t) => s.(threads := s.threads[t := Restoring(s.disk)])
    case Install(t) => s.(cache := s.threads[t].loaded, threads := s.threads - {t})
    case Wipe(t, f) => s.(disk := s.disk - {f}, threads := s.threads[t := Deleting(f)])
    case Forget(t) => s.(cache := s.cache - {s.threads[t].f}, threads := s.threads - {t})
    case Enroll(f, e) => s.(disk := s.disk[f := e], cache := s.cache[f := e])
  }

  /** An execution from any moment at which nothing is in progress and cache and disk agree. */
  ghost predicate IsExecution(states: seq<State>, steps: seq<Step>) {
    && |states| == |steps| + 1
    && states[0].cache == states[0].disk && states[0].threads == map[]
    && forall i :: 0 <= i < |steps| ==> Enabled(states[i], steps[i]) && states[i + 1] == Apply(states[i], steps[i])
  }

  function Entry(m: Faces, f: i32): Option<Embedding> {
    if f in m then Some(m[f]) else None
  }

  predicate WritesDisk(step: Step, f: i32) {
    match step
    case Wipe(_, g) => f == g
    case Enroll(g, _) => f == g
    case _ => false
  }

  predicate WritesCache(s: State, step: Step, f: i32) {
    match step
    case Install(_) => true
    case Forget(t) => t in s.threads && s.threads[t] == Deleting(f)
    case Enroll(g, _) => f == g
    case _ => false
  }

  predicate IsDiskPart(step: Step, t: nat) {
    (step.Load? || step.Wipe?) && step.t == t
  }

  /** The state just after the disk part of thread `t`'s call in progress before step `n`. */
  function DiskPart(steps: seq<Step>, t: nat, n: nat): (m: nat)
    requires n <= |steps|
    ensures m <= n && (m > 0 ==> IsDiskPart(steps[m - 1], t))
  {
    if n == 0 then 0 else if IsDiskPart(steps[n - 1], t) then n else DiskPart(steps, t, n - 1)
  }

  /** The number of steps up to and including the last one that wrote the cache entry of `f`. */
  function LastWrite(states: seq<State>, steps: seq<Step>, f: i32, n: nat): (m: nat)
    requires n <= |steps| < |states|
    ensures m <= n && (m > 0 ==> WritesCache(states[m - 1], steps[m - 1], f))
    ensures forall k :: m <= k < n ==> !WritesCache(states[k], steps[k], f)
  {
    if n == 0 then 0 else if WritesCache(states[n - 1], steps[n - 1], f) then n else LastWrite(states, steps, f, n - 1)
  }

  /** The state whose disk that write reflects: the one just after its call's disk part. */
  function Moment(states: seq<State>, steps: seq<Step>, f: i32, n: nat): (m: nat)
    requires n <= |steps| < |states|
    ensures m <= n
  {
    var last := LastWrite(states, steps, f, n);
    if last == 0 then 0
    else match steps[last - 1]
         case Install(t) => DiskPart(steps, t, last - 1)
         case Forget(t) => DiskPart(steps, t, last - 1)
         case _ => last
  }

  /** A call in progress knows what the disk was just after its disk part. */
  lemma {:induction false} CallsRememberTheirDiskPart(states: seq<State>, steps: seq<Step>, n: nat, t: nat)
    requires IsExecution(states, steps) && n <= |steps| && t in states[n].threads
    ensures var m := DiskPart(steps, t, n);
            && m > 0
            && match states[n].threads[t]
               case Restoring(loaded) => steps[m - 1] == Load(t) && loaded == states[m].disk
               case Deleting(f) => steps[m - 1] == Wipe(t, f) && f !in states[m].disk
  {
    if n == 0 {
      assert false;
    } else {
      assert Enabled(states[n - 1], steps[n - 1]) && states[n - 1 + 1] == Apply(states[n - 1], steps[n - 1]);
      if !IsDiskPart(steps[n - 1], t) {
        CallsRememberTheirDiskPart(states, steps, n - 1, t);
      }
    }
  }

  lemma CacheAfterWrite(states: seq<State>, steps: seq<Step>, n: nat, f: i32)
    requires IsExecution(states, steps) && n < |steps| && WritesCache(states[n], steps[n], f)
    ensures Entry(states[n + 1].cache, f) == Entry(states[Moment(states, steps, f, n + 1)].disk, f)
  {
    var s, step := states[n], steps[n];
    assert Enabled(s, step) && states[n + 1] == Apply(s, step);
    if step.Install? || step.Forget? {
      CallsRememberTheirDiskPart(states, steps, n, step.t);
    }
    hide IsExecution, DiskPart;
  }

  lemma CacheWithoutWrite(s: State, step: Step, f: i32)
    requires Enabled(s, step) && !WritesCache(s, step, f)
    ensures Entry(Apply(s, step).cache, f) == Entry(s.cache, f)
  {
  }

  /** At every moment, each cache entry is the disk entry as it was just after the disk part of the call
      that last wrote it. */
  lemma {:induction false} CacheIsDiskAsOfMoment(states: seq<State>, steps: seq<Step>, n: nat, f: i32)
    requires IsExecution(states, steps) && n <= |steps|
    ensures Entry(states[n].cache, f) == Entry(states[Moment(states, steps, f, n)].disk, f)
  {
    hide Apply, Enabled, WritesCache, Entry, DiskPart;
    if n == 0 {
    } else if WritesCache(states[n - 1], steps[n - 1], f) {
      CacheAfterWrite(states, steps, n - 1, f);
    } else {
      assert Enabled(states[n - 1], steps[n - 1]) && states[n - 1 + 1] == Apply(states[n - 1], steps[n - 1]);
      CacheWithoutWrite(states[n - 1], steps[n - 1], f);
      CacheIsDiskAsOfMoment(states, steps, n - 1, f);
    }
  }

  lemma EqualEntryByEntry(a: Faces, b: Faces)
    ensures a == b <==> forall f: i32 :: Entry(a, f) == Entry(b, f)
  {
    if forall f: i32 :: Entry(a, f) == Entry(b, f) {
      forall f: i32
        ensures f in a <==> f in b
        ensures f in a ==> a[f] == b[f]
      {
        assert Entry(a, f) == Entry(b, f);
      }
      assert a == b;
    }
  }

  /** Cache and disk are equal exactly when no face's disk entry differs from what it was when the cache's
      entry was taken from it. */
  lemma CacheEqualsDiskIff(states: seq<State>, steps: seq<Step>, n: nat)
    requires IsExecution(states, steps) && n <= |steps|
    ensures states[n].cache == states[n].disk
       <==> forall f: i32 :: Entry(states[n].disk, f) == Entry(states[Moment(states, steps, f, n)].disk, f)
  {
    var s := states[n];
    EqualEntryByEntry(s.cache, s.disk);
    hide IsExecution, Moment, Entry;
    forall f: i32
      ensures Entry(s.cache, f) == Entry(states[Moment(states, steps, f, n)].disk, f)
    {
      CacheIsDiskAsOfMoment(states, steps, n, f);
    }
  }

  /** A disk entry changes only when it is wiped or enrolled. */
  lemma {:induction false} DiskChangesAreWrites(states: seq<State>, steps: seq<Step>, m: nat, n: nat, f: i32)
    returns (k: nat)
    requires IsExecution(states, steps) && m <= n <= |steps|
    requires Entry(states[m].disk, f) != Entry(states[n].disk, f)
    ensures m <= k < n && WritesDisk(steps[k], f)
    decreases n
  {
    if m == n {
      assert false;
    } else {
      assert Enabled(states[n - 1], steps[n - 1]) && states[n - 1 + 1] == Apply(states[n - 1], steps[n - 1]);
      if WritesDisk(steps[n - 1], f) {
        k := n - 1;
      } else {
        k := DiskChangesAreWrites(states, steps, m, n - 1, f);
      }
    }
  }

  /** A wiped face is being deleted until the cache forgets it. */
  lemma {:induction false} WipedUntilForgotten(states: seq<State>, steps: seq<Step>, k: nat, n: nat, t: nat, f: i32)
    requires IsExecution(states, steps) && k < n <= |steps| && steps[k] == Wipe(t, f)
    requires forall i :: k < i < n ==> !WritesCache(states[i], steps[i], f)
    ensures t in states[n].threads && states[n].threads[t] == Deleting(f)
    decreases n
  {
    assert Enabled(states[n - 1], steps[n - 1]) && states[n - 1 + 1] == Apply(states[n - 1], steps[n - 1]);
    if k < n - 1 {
      WipedUntilForgotten(states, steps, k, n - 1, t, f);
    }
  }

  /** One call of a thread, with its disk part at step `l` and its cache part at step `j`. */
  predicate IsCall(steps: seq<Step>, l: nat, j: nat)
    requires l < j < |steps|
  {
    (steps[j].Install? || steps[j].Forget?) && DiskPart(steps, steps[j].t, j) == l + 1
  }

  /** When nothing is in progress and cache and disk disagree about a face, then the last call to write
      the cache entry was a restore or a delete that was overtaken: between its disk part and its cache
      part that face was saved or wiped by another. */
  lemma OutOfStepMeansOvertaken(states: seq<State>, steps: seq<Step>, n: nat, f: i32) returns (l: nat, k: nat, j: nat)
    requires IsExecution(states, steps) && n <= |steps| && states[n].threads == map[]
    requires Entry(states[n].cache, f) != Entry(states[n].disk, f)
    ensures l < k < j < n && IsCall(steps, l, j) && WritesDisk(steps[k], f)
    ensures j + 1 == LastWrite(states, steps, f, n)
  {
    var last, moment := LastWrite(states, steps, f, n), Moment(states, steps, f, n);
    CacheIsDiskAsOfMoment(states, steps, n, f);
    k := DiskChangesAreWrites(states, steps, moment, n, f);
    if k >= last {
      assert !WritesCache(states[k], steps[k], f);
      WipedUntilForgotten(states, steps, k, n, steps[k].t, f);
    }
    j := last - 1;
    assert Enabled(states[j], steps[j]);
    CallsRememberTheirDiskPart(states, steps, j, steps[j].t);
    l := moment - 1;
  }

  /** An enrollment saves over a stored template if and only if the disk entry of the issued id has changed since
      the disk part of the call that last wrote the cache entry: a stored face that the cache does not know. */
  lemma EnrollmentOverwritesIff(states: seq<State>, steps: seq<Step>, n: nat, f: i32, e: Embedding)
    requires IsExecution(states, steps) && n <= |steps| && Enabled(states[n], Enroll(f, e))
    ensures f in states[n].disk
       <==> Entry(states[n].disk, f) != Entry(states[Moment(states, steps, f, n)].disk, f)
  {
    CacheIsDiskAsOfMoment(states, steps, n, f);
    hide IsExecution, Moment;
    assert f !in states[n].cache;
  }

  /** It happens: a session is created while another one enrolls; its restore has loaded before the save
      and installs after it, and the next enrollment is given the id of a stored template again. */
  lemma EnrollmentCanOverwrite(e: Embedding) returns (states: seq<State>, steps: seq<Step>)
    ensures IsExecution(states, steps) && |steps| == 3
    ensures var s := states[3];
            s.threads == map[] && 2 in s.disk && Enabled(s, Enroll(2, e))
  {
    var one: Faces := map[1 := e];
    var two: Faces := map[1 := e, 2 := e];
    steps := [Load(7), Enroll(2, e), Install(7)];
    states := [State(one, one, map[]), State(one, one, map[7 := Restoring(one)]),
               State(two, two, map[7 := Restoring(one)]), State(two, one, map[])];
    assert IsNextId(one, 2);
    assert Apply(states[0], steps[0]) == states[1];
    assert Apply(states[1], steps[1]) == states[2];
    assert Apply(states[2], steps[2]) == states[3];
  }
}
