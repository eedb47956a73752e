/** The native camera handles that the backend acquires and must release. */
module CameraHandles {

  datatype Slot = Session | Target | Request | Container | Output | Device | Reader | Manager

  const ALL_SLOTS: set<Slot> := {Session, Target, Request, Container, Output, Device, Reader, Manager}

  /** The order in which `teardown` releases. */
  const RELEASE_ORDER: seq<Slot> := [Session, Target, Request, Container, Output, Device, Reader, Manager]

  /** The handles that a handle refers to: those it was made from, and those given to it afterwards
      (an output added to a container, a target added to a request, a request set on a session). */
  function Uses(s: Slot): set<Slot> {
    match s
    case Session => {Device, Container, Request}
    case Request => {Device, Target}
    case Container => {Output}
    case Output => {Reader}
    case Target => {Reader}
    case Device => {Manager}
    case Reader => {}
    case Manager => {}
  }

  /** The position of a slot in `RELEASE_ORDER`. */
  function Rank(s: Slot): (r: nat)
    ensures r < |RELEASE_ORDER| && RELEASE_ORDER[r] == s
  {
    match s
    case Session => 0
    case Target => 1
    case Request => 2
    case Container => 3
    case Output => 4
    case Device => 5
    case Reader => 6
    case Manager => 7
  }

  /** The handle fields; an absent slot is a null pointer. */
  type Held = map<Slot, nat>

  /** Handles are numbered in the order of their acquisition. `frees[i]` counts the calls that have
      released handle `i`. */
  type Frees = seq<nat>

  ghost predicate HeldSomewhere(held: Held, id: nat) {
    exists s :: s in held && held[s] == id
  }

  ghost predicate Distinct(held: Held) {
    forall s, t :: s in held && t in held && held[s] == held[t] ==> s == t
  }

  /** Every handle acquired since `before` is either in exactly one field and never released, or
      released exactly once; older handles are untouched. */
  ghost predicate AccountsFor(before: Frees, held: Held, after: Frees) {
    && before <= after
    && (forall s :: s in held ==> |before| <= held[s] < |after|)
    && Distinct(held)
    && (forall i :: |before| <= i < |after| ==> after[i] == if HeldSomewhere(held, i) then 0 else 1)
  }

  lemma AcquiringKeepsAccounts(before: Frees, held: Held, after: Frees, slot: Slot)
    requires AccountsFor(before, held, after) && slot !in held
    ensures AccountsFor(before, held[slot := |after|], after + [0])
  {
    var more := held[slot := |after|];
    assert more[slot] == |after|;
    forall i | |before| <= i < |after|
      ensures HeldSomewhere(more, i) <==> HeldSomewhere(held, i)
    {
      if s :| s in held && held[s] == i {
        assert more[s] == i;
      }
    }
  }

  lemma FreeingKeepsAccounts(before: Frees, held: Held, after: Frees, slot: Slot)
    requires AccountsFor(before, held, after) && slot in held
    ensures var id := held[slot];
            AccountsFor(before, held - {slot}, after[id := after[id] + 1])
  {
    var id, less := held[slot], held - {slot};
    assert HeldSomewhere(held, id);
    forall i | |before| <= i < |after|
      ensures HeldSomewhere(less, i) <==> HeldSomewhere(held, i) && i != id
    {
      if s :| s in held && held[s] == i && i != id {
        assert s in less;
      }
    }
  }

  lemma NothingAcquired(before: Frees)
    ensures AccountsFor(before, map[], before)
  {
  }

  lemma RankIsPosition(i: nat)
    requires i < |RELEASE_ORDER|
    ensures Rank(RELEASE_ORDER[i]) == i
  {
  }

  /** The release order puts a handle before every handle it refers to, with one exception: the output
      target goes before the request it was added to. */
  lemma OrderRespectsUseExceptTarget(s: Slot, base: Slot)
    requires base in Uses(s)
    ensures Rank(s) < Rank(base) <==> (s, base) != (Request, Target)
  {
  }

  /** Between `start` and `now` exactly the handles that left the fields were released, each once. */
  ghost predicate Released(was: Held, held: Held, start: Frees, now: Frees) {
    && |now| == |start|
    && (forall s :: s in held ==> s in was && held[s] == was[s])
    && (forall i :: 0 <= i < |now| ==>
          now[i] == start[i] + if HeldSomewhere(was, i) && !HeldSomewhere(held, i) then 1 else 0)
  }

  lemma NothingReleased(held: Held, frees: Frees)
    ensures Released(held, held, frees, frees)
  {
  }

  /** Handles still held have not changed since. */
  lemma StillHeld(was: Held, held: Held, start: Frees, now: Frees)
    requires Released(was, held, start, now) && forall s :: s in was ==> was[s] < |start|
    ensures |now| == |start| && forall s :: s in held ==> held[s] < |now|
  {
  }

  lemma ReleasingOneMore(was: Held, held: Held, start: Frees, now: Frees, slot: Slot)
    requires Released(was, held, start, now) && Distinct(was)
    requires slot in held && held[slot] < |now|
    ensures var id := held[slot];
            Released(was, held - {slot}, start, now[id := now[id] + 1])
  {
    var id, less := held[slot], held - {slot};
    assert HeldSomewhere(held, id) && HeldSomewhere(was, id);
    forall i | 0 <= i < |now|
      ensures HeldSomewhere(less, i) <==> HeldSomewhere(held, i) && i != id
    {
      if s :| s in held && held[s] == i && i != id {
        assert s in less;
      }
      if s :| s in less && less[s] == id {
        assert was[s] == was[slot];
      }
    }
  }

  /** Releasing everything that was acquired since `before` leaves each of it released once. */
  lemma ReleasingAllSettlesAccounts(before: Frees, held: Held, start: Frees, now: Frees)
    requires AccountsFor(before, held, start) && Released(held, map[], start, now)
    ensures AccountsFor(before, map[], now)
  {
  }
}
