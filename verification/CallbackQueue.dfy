/** The queue between a session's threads, which post callbacks, and the one worker that delivers
    them. The worker shares the queue with the session and outlives it. */
module CallbackQueue {

  /** Where the worker is between its holds of the lock. */
  datatype Worker<T> = Waiting | InHand(task: T) | Exited

  datatype State<T> = State(
    queue: seq<T>,
    running: bool,
    worker: Worker<T>,
    accepted: seq<T>,
    delivered: seq<T>)

  datatype Step<T> =
    | Post(task: T)
    | Close
    /** The worker, woken with the lock held, either takes a task or leaves. */
    | Wake
    | Deliver

  function Init<T>(): State<T> {
    State([], true, Waiting, [], [])
  }

  predicate Enabled<T(==)>(s: State<T>, step: Step<T>) {
    match step
    case Post(_) => true
    case Close => true
    case Wake => s.worker.Waiting? && (!s.running || s.queue != [])
    case Deliver => s.worker.InHand?
  }

  function Apply<T(==)>(s: State<T>, step: Step<T>): State<T>
    requires Enabled(s, step)
  {
    match step
    case Post(task) =>
      if s.running then s.(queue := s.queue + [task], accepted := s.accepted + [task]) else s
    case Close => s.(running := false)
    case Wake =>
      if !s.running && s.queue == [] then s.(worker := Exited)
      else s.(worker := InHand(s.queue[0]), queue := s.queue[1..])
    case Deliver => s.(worker := Waiting, delivered := s.delivered + [s.worker.task])
  }

  /** The queue object that posters and the worker share. The lock guards `queue` and `running`; each
      method but `RunWorker` is one hold of the lock. */
  class SessionCallbackQueue<T(==)> {
    var queue: seq<T>
    var running: bool
    ghost var worker: Worker<T>
    ghost var accepted: seq<T>
    ghost var delivered: seq<T>

    ghost function Snapshot(): State<T>
      reads this
    {
      State(queue, running, worker, accepted, delivered)
    }

    constructor ()
      ensures Snapshot() == Init()
    {
      queue, running := [], true;
      worker, accepted, delivered := Waiting, [], [];
    }

    method PostCallback(task: T)
      modifies this
      ensures Snapshot() == Apply(old(Snapshot()), Post(task))
    {
      if running {
        queue := queue + [task];
        accepted := accepted + [task];
      }
    }

    method Shutdown()
      modifies this
      ensures Snapshot() == Apply(old(Snapshot()), Close)
    {
      running := false;
    }

    /** One turn of the worker under the lock, once its wait is over. */
    method Next() returns (next: Worker<T>)
      requires Enabled(Snapshot(), Wake)
      modifies this
      ensures Snapshot() == Apply(old(Snapshot()), Wake)
      ensures next == worker
    {
      if !running && queue == [] {
        next := Exited;
      } else {
        next := InHand(queue[0]);
        queue := queue[1..];
      }
      worker := next;
    }

    /** The worker's loop from a shutdown on, when nothing else changes the queue any more. */
    method RunWorker() returns (calls: seq<T>)
      requires worker.Waiting? && !running && NothingIsLost(Snapshot())
      modifies this
      ensures worker.Exited? && NothingIsLost(Snapshot())
      ensures accepted == old(accepted) == delivered
      ensures calls == old(queue)
    {
      calls := [];
      while true
        invariant worker.Waiting? && !running && NothingIsLost(Snapshot())
        invariant accepted == old(accepted) && delivered == old(delivered) + calls
        invariant calls + queue == old(queue)
        decreases |queue|
      {
        ghost var before := Snapshot();
        var next := Next();
        EveryStepLosesNothing(before, Wake);
        if next.Exited? {
          break;
        }
        EveryStepLosesNothing(Snapshot(), Deliver);
        calls := calls + [next.task];
        delivered, worker := delivered + [next.task], Waiting;
      }
    }
  }

  predicate IsExecution<T(==)>(states: seq<State<T>>, steps: seq<Step<T>>) {
    && |states| == |steps| + 1 && states[0] == Init()
    && forall i :: 0 <= i < |steps| ==> Enabled(states[i], steps[i]) && states[i + 1] == Apply(states[i], steps[i])
  }

  function TaskInHand<T>(s: State<T>): seq<T> {
    if s.worker.InHand? then [s.worker.task] else []
  }

  /** Every accepted callback is delivered, in the worker's hand or queued, once and in order; and the
      worker leaves nothing behind. */
  predicate NothingIsLost<T(==)>(s: State<T>) {
    && s.accepted == s.delivered + TaskInHand(s) + s.queue
    && (s.worker.Exited? ==> !s.running && s.queue == [])
  }

  lemma EveryStepLosesNothing<T>(s: State<T>, step: Step<T>)
    requires NothingIsLost(s) && Enabled(s, step)
    ensures NothingIsLost(Apply(s, step))
  {
  }

  /** What a session's callbacks should be: the posts made before the first shutdown. */
  function PostsBeforeClose<T>(steps: seq<Step<T>>): seq<T> {
    if steps == [] || steps[0].Close? then []
    else (if steps[0].Post? then [steps[0].task] else []) + PostsBeforeClose(steps[1..])
  }

  predicate Closes<T>(steps: seq<Step<T>>) {
    exists i :: 0 <= i < |steps| && steps[i].Close?
  }

  lemma {:induction false} PostsBeforeCloseOfMore<T>(steps: seq<Step<T>>, step: Step<T>)
    ensures PostsBeforeClose(steps + [step])
         == PostsBeforeClose(steps) + if !Closes(steps) && step.Post? then [step.task] else []
  {
    if steps == [] {
      assert steps + [step] == [step];
    } else {
      assert (steps + [step])[1..] == steps[1..] + [step];
      if !steps[0].Close? {
        PostsBeforeCloseOfMore(steps[1..], step);
        assert Closes(steps) <==> Closes(steps[1..]) by {
          forall i | 0 < i < |steps| ensures steps[i] == steps[1..][i - 1] {}
          if Closes(steps[1..]) {
            var i :| 0 <= i < |steps[1..]| && steps[1..][i].Close?;
            assert steps[i + 1].Close?;
          }
        }
      }
    }
  }

  lemma {:induction false} AcceptedArePosts<T>(states: seq<State<T>>, steps: seq<Step<T>>, i: nat)
    requires IsExecution(states, steps) && i < |states|
    ensures NothingIsLost(states[i])
    ensures states[i].running <==> !Closes(steps[..i])
    ensures states[i].accepted == PostsBeforeClose(steps[..i])
  {
    if i > 0 {
      var s, step := states[i - 1], steps[i - 1];
      AcceptedArePosts(states, steps, i - 1);
      assert Enabled(s, step) && states[i - 1 + 1] == Apply(s, step);
      EveryStepLosesNothing(s, step);
      assert steps[..i] == steps[..i - 1] + [step];
      PostsBeforeCloseOfMore(steps[..i - 1], step);
      ClosesOfMore(steps[..i - 1], step);
    }
  }

  /** In every reachable state the accepted callbacks are the posts made before the shutdown, and what
      has been delivered is a beginning of them; once the worker has left, all of them. */
  lemma CallbacksArriveInOrder<T>(states: seq<State<T>>, steps: seq<Step<T>>, i: nat)
    requires IsExecution(states, steps) && i < |states|
    ensures NothingIsLost(states[i])
    ensures states[i].running <==> !Closes(steps[..i])
    ensures states[i].accepted == PostsBeforeClose(steps[..i])
    ensures states[i].delivered <= PostsBeforeClose(steps[..i])
    ensures states[i].worker.Exited? ==> states[i].delivered == PostsBeforeClose(steps)
  {
    AcceptedArePosts(states, steps, i);
    hide PostsBeforeClose, Closes, IsExecution;
    if states[i].worker.Exited? {
      PostsAfterCloseAreDropped(steps, i);
    }
  }

  lemma ClosesOfMore<T>(steps: seq<Step<T>>, step: Step<T>)
    ensures Closes(steps + [step]) <==> Closes(steps) || step.Close?
  {
    var more := steps + [step];
    assert more[|steps|] == step;
    if Closes(steps) {
      var i :| 0 <= i < |steps| && steps[i].Close?;
      assert more[i].Close?;
    }
  }

  lemma {:induction false} PostsAfterCloseAreDropped<T>(steps: seq<Step<T>>, i: nat)
    requires i <= |steps| && Closes(steps[..i])
    ensures PostsBeforeClose(steps) == PostsBeforeClose(steps[..i])
    decreases |steps| - i
  {
    if i == |steps| {
      assert steps[..i] == steps;
    } else {
      assert steps[..i + 1] == steps[..i] + [steps[i]];
      PostsBeforeCloseOfMore(steps[..i], steps[i]);
      ClosesOfMore(steps[..i], steps[i]);
      PostsAfterCloseAreDropped(steps, i + 1);
    }
  }

  // ---------------------------------------------------------------- the worker after a shutdown

  /** The worker's steps still ahead once nothing more is accepted. */
  function Remaining<T>(s: State<T>): nat {
    match s.worker
    case Exited => 0
    case Waiting => 2 * |s.queue| + 1
    case InHand(_) => 2 * |s.queue| + 2
  }

  function WorkerSteps<T>(steps: seq<Step<T>>): nat {
    if steps == [] then 0
    else WorkerSteps(steps[..|steps| - 1]) + if steps[|steps| - 1].Wake? || steps[|steps| - 1].Deliver? then 1 else 0
  }

  /** After a shutdown the worker is never stuck, and it exits after a number of steps fixed at the
      shutdown, whatever is posted meanwhile. */
  lemma {:induction false} WorkerDrainsAndExits<T>(states: seq<State<T>>, steps: seq<Step<T>>, i: nat, j: nat)
    requires IsExecution(states, steps) && i <= j < |states|
    requires !states[i].running
    ensures !states[j].running
    ensures Remaining(states[j]) + WorkerSteps(steps[i..j]) == Remaining(states[i])
    ensures states[j].worker.Exited? <==> WorkerSteps(steps[i..j]) == Remaining(states[i])
    ensures !states[j].worker.Exited? ==> Enabled(states[j], Wake) || Enabled(states[j], Deliver)
    decreases j
  {
    if i == j {
      assert steps[i..j] == [];
    } else {
      WorkerDrainsAndExits(states, steps, i, j - 1);
      assert Enabled(states[j - 1], steps[j - 1]) && states[j - 1 + 1] == Apply(states[j - 1], steps[j - 1]);
      assert steps[i..j][..j - 1 - i] == steps[i..j - 1];
      assert steps[i..j][j - 1 - i] == steps[j - 1];
    }
  }
}
