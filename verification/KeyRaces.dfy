/** Concurrent first uses of one key of the key service: a user's storage key, or the MAC key. Each caller
    opens an operation, generates the key if it is missing, and opens the operation again; nothing
    orders the callers, and generating under a name that has a key replaces it. */
module KeyRaces {
  import opened Wrappers
  import opened KeyMintService

  datatype Pc =
    /** About to open an operation for the first time. */
    | Opening
    /** Has been told that the key is missing. */
    | Missing
    /** Has generated the key, or been told that it exists by now. */
    | Reopening
    /** Has an operation under this key. */
    | Using(key: Key)

  datatype State = State(
    key: Option<Key>,
    /** Every key there has been. */
    used: set<Key>,
    threads: map<nat, Pc>,
    /** The keys under which results (payloads, or MACs) were made. */
    issued: seq<Key>)

  function Init(): State {
    State(None, {}, map[], [])
  }

  datatype Step =
    | Begin(t: nat)
    | Open(t: nat)
    | Generate(t: nat, made: Key)
    | AlreadyExists(t: nat)
    | Reopen(t: nat)
    | Issue(t: nat)
    /** A refusal for another reason, or a failed operation. */
    | GiveUp(t: nat)

  predicate At(s: State, t: nat, pc: Pc) {
    t in s.threads && s.threads[t] == pc
  }

  predicate Enabled(s: State, step: Step) {
    match step
    case Begin(t) => t !in s.threads
    case Open(t) => At(s, t, Opening)
    case Generate(t, made) => At(s, t, Missing) && made !in s.used
    case AlreadyExists(t) => At(s, t, Missing) && s.key.Some?
    case Reopen(t) => At(s, t, Reopening) && s.key.Some?
    case Issue(t) => t in s.threads && s.threads[t].Using?
    case GiveUp(t) => t in s.threads
  }

  function Apply(s: State, step: Step): State
    requires Enabled(s, step)
  {
    match step
    case Begin(t) => s.(threads := s.threads[t := Opening])
    case Open(t) => s.(threads := s.threads[t := if s.key.Some? then Using(s.key.value) else Missing])
    case Generate(t, made) => s.(key := Some(made), used := s.used + {made}, threads := s.threads[t := Reopening])
    case AlreadyExists(t) => s.(threads := s.threads[t := Reopening])
    case Reopen(t) => s.(threads := s.threads[t := Using(s.key.value)])
    case Issue(t) => s.(issued := s.issued + [s.threads[t].key], threads := s.threads - {t})
    case GiveUp(t) => s.(threads := s.threads - {t})
  }

  ghost predicate IsRun(s: State, steps: seq<Step>)
    decreases |steps|
  {
    steps != [] ==> Enabled(s, steps[0]) && IsRun(Apply(s, steps[0]), steps[1..])
  }

  function After(s: State, steps: seq<Step>): State
    requires IsRun(s, steps)
    decreases |steps|
  {
    if steps == [] then s else After(Apply(s, steps[0]), steps[1..])
  }

  /** Result `i` can be opened, or verified, with the key there is. */
  predicate Opens(s: State, i: nat)
    requires i < |s.issued|
  {
    s.key == Some(s.issued[i])
  }

  ghost predicate SomeoneMissing(s: State) {
    exists t :: At(s, t, Missing)
  }

  /** Every key in sight has been used. */
  ghost predicate KeysAreUsed(s: State) {
    && (s.key.Some? ==> s.key.value in s.used)
    && (forall k :: k in s.issued ==> k in s.used)
    && (forall t :: t in s.threads && s.threads[t].Using? ==> s.key.Some? && s.threads[t].key in s.used)
  }

  lemma EveryStepKeepsKeysUsed(s: State, step: Step)
    requires KeysAreUsed(s) && Enabled(s, step)
    ensures KeysAreUsed(Apply(s, step))
    ensures s.issued <= Apply(s, step).issued && s.used <= Apply(s, step).used
    ensures s.key.Some? ==> Apply(s, step).key.Some?
  {
  }

  lemma {:induction false} EveryRunKeepsKeysUsed(s: State, steps: seq<Step>)
    requires KeysAreUsed(s) && IsRun(s, steps)
    ensures KeysAreUsed(After(s, steps)) && s.issued <= After(s, steps).issued
    decreases |steps|
  {
    if steps == [] {
    } else {
      EveryStepKeepsKeysUsed(s, steps[0]);
      EveryRunKeepsKeysUsed(Apply(s, steps[0]), steps[1..]);
    }
  }

  // ---------------------------------------------------------------- how long a result can be opened

  lemma {:induction false} KeyStaysUnlessSomeoneMissing(s: State, steps: seq<Step>)
    requires s.key.Some? && !SomeoneMissing(s) && IsRun(s, steps)
    ensures After(s, steps).key == s.key
    decreases |steps|
  {
    if steps == [] {
    } else {
      var n := Apply(s, steps[0]);
      forall t
        ensures !At(n, t, Missing)
      {
        assert !At(s, t, Missing);
      }
      KeyStaysUnlessSomeoneMissing(n, steps[1..]);
    }
  }

  lemma {:induction false} SomeKeyIsFresh(used: set<Key>) returns (made: Key)
    ensures forall k :: k in used ==> k < made
    decreases |used|
  {
    if used == {} {
      made := 0;
    } else {
      var k :| k in used;
      var rest := SomeKeyIsFresh(used - {k});
      made := if k < rest then rest else k + 1;
      assert used == used - {k} + {k};
    }
  }

  ghost predicate OpensAfter(s: State, steps: seq<Step>, i: nat)
    requires IsRun(s, steps)
  {
    i < |After(s, steps).issued| && Opens(After(s, steps), i)
  }

  /** Result `i` can be opened in every continuation if and only if it can be opened now and no other
      caller is between being told that the key is missing and generating it. */
  lemma ResultStaysOpenIff(s: State, i: nat)
    requires KeysAreUsed(s) && i < |s.issued|
    ensures (forall steps :: IsRun(s, steps) ==> OpensAfter(s, steps, i)) <==> Opens(s, i) && !SomeoneMissing(s)
  {
    if Opens(s, i) && !SomeoneMissing(s) {
      forall steps | IsRun(s, steps)
        ensures OpensAfter(s, steps, i)
      {
        EveryRunKeepsKeysUsed(s, steps);
        KeyStaysUnlessSomeoneMissing(s, steps);
      }
    } else if Opens(s, i) {
      var t :| At(s, t, Missing);
      var made := SomeKeyIsFresh(s.used);
      var steps := [Generate(t, made)];
      OneMore(s, [], steps[0]);
      assert [] + steps == steps;
      assert s.issued[i] in s.used;
      assert !OpensAfter(s, steps, i);
    } else {
      var none: seq<Step> := [];
      assert IsRun(s, none) && !OpensAfter(s, none, i);
    }
  }

  /** A result that can no longer be opened never can be again. */
  lemma {:induction false} LostResultsStayLost(s: State, steps: seq<Step>, i: nat)
    requires KeysAreUsed(s) && IsRun(s, steps) && i < |s.issued| && !Opens(s, i)
    ensures i < |After(s, steps).issued| && !Opens(After(s, steps), i)
    decreases |steps|
  {
    if steps == [] {
    } else {
      EveryStepKeepsKeysUsed(s, steps[0]);
      assert s.issued[i] in s.used;
      LostResultsStayLost(Apply(s, steps[0]), steps[1..], i);
    }
  }

  // ---------------------------------------------------------------- callers that do not race

  /** No two callers at once have been told that the key is missing. */
  ghost predicate AtMostOneMissing(s: State) {
    forall t, u :: At(s, t, Missing) && At(s, u, Missing) ==> t == u
  }

  /** Then the one who has is the first, and every result was made under the key there is. */
  ghost predicate NothingLost(s: State) {
    && (SomeoneMissing(s) ==> s.key == None)
    && (forall k :: k in s.issued ==> s.key == Some(k))
    && (forall t :: t in s.threads && s.threads[t].Using? ==> s.key == Some(s.threads[t].key))
  }

  lemma StepsWithoutRaceLoseNothing(s: State, step: Step)
    requires NothingLost(s) && AtMostOneMissing(s) && Enabled(s, step)
    ensures NothingLost(Apply(s, step))
  {
    var n := Apply(s, step);
    if step.Generate? {
      assert At(s, step.t, Missing);
      assert forall t :: At(n, t, Missing) ==> At(s, t, Missing) && t != step.t;
    } else {
      assert forall t :: At(n, t, Missing) ==> At(s, t, Missing) || (step.Open? && s.key == None);
    }
  }

  ghost predicate NeverRaces(s: State, steps: seq<Step>)
    requires IsRun(s, steps)
    decreases |steps|
  {
    AtMostOneMissing(s) && (steps != [] ==> NeverRaces(Apply(s, steps[0]), steps[1..]))
  }

  /** In a run in which no two callers are told at once that the key is missing, every result can be
      opened. */
  lemma {:induction false} RunsWithoutRaceLoseNothing(s: State, steps: seq<Step>)
    requires NothingLost(s) && IsRun(s, steps) && NeverRaces(s, steps)
    ensures NothingLost(After(s, steps)) && forall i :: 0 <= i < |After(s, steps).issued| ==> Opens(After(s, steps), i)
    decreases |steps|
  {
    if steps == [] {
    } else {
      StepsWithoutRaceLoseNothing(s, steps[0]);
      RunsWithoutRaceLoseNothing(Apply(s, steps[0]), steps[1..]);
    }
  }

  lemma OneMore(s: State, steps: seq<Step>, step: Step)
    requires IsRun(s, steps) && Enabled(After(s, steps), step)
    ensures IsRun(s, steps + [step]) && After(s, steps + [step]) == Apply(After(s, steps), step)
    decreases |steps|
  {
    if steps == [] {
      assert (steps + [step])[1..] == [];
    } else {
      assert (steps + [step])[1..] == steps[1..] + [step];
      OneMore(Apply(s, steps[0]), steps[1..], step);
    }
  }

  lemma Extend(s: State, steps: seq<Step>, step: Step) returns (more: seq<Step>)
    requires IsRun(s, steps) && Enabled(After(s, steps), step)
    ensures IsRun(s, more) && After(s, more) == Apply(After(s, steps), step)
  {
    OneMore(s, steps, step);
    more := steps + [step];
  }

  /** It happens: two first callers are both told that the key is missing, and the second one's key
      replaces the one under which the first has issued its result. */
  lemma FirstResultCanBeLost() returns (steps: seq<Step>)
    ensures IsRun(Init(), steps)
    ensures var s := After(Init(), steps); |s.issued| == 1 && !Opens(s, 0)
  {
    steps := [];
    hide IsRun, After;
    assert IsRun(Init(), []) && After(Init(), []) == Init() by {
      EmptyRun();
    }
    steps := Extend(Init(), steps, Begin(1));
    steps := Extend(Init(), steps, Begin(2));
    steps := Extend(Init(), steps, Open(1));
    steps := Extend(Init(), steps, Open(2));
    assert After(Init(), steps).threads == map[1 := Missing, 2 := Missing];
    steps := Extend(Init(), steps, Generate(1, 7));
    steps := Extend(Init(), steps, Reopen(1));
    steps := Extend(Init(), steps, Issue(1));
    assert After(Init(), steps).threads == map[2 := Missing];
    steps := Extend(Init(), steps, Generate(2, 8));
  }

  lemma EmptyRun()
    ensures IsRun(Init(), []) && After(Init(), []) == Init()
  {
  }
}
