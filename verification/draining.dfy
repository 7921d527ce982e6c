// Draining, one atomic step at a time: however the worker and the tick interleave, a live handle whose server answers
// gets rid of its queries as long as both loops keep running.

module Draining {
  import opened Options
  import opened Trace
  import opened Pipeline
  import opened Guarantees
  import opened Passes

  /** A live handle with no native running and a worker that has not found the connection lost. */
  ghost predicate Flowing(s: Local) {
    Control(s) && s.native.Idle? && s.h.connected && !s.worker.MarkLost? && !s.worker.Redial?
  }

  /** A step of one of the two loops; pings succeed. */
  predicate LoopStep(l: Label) { l.TickStep? || (l.WorkerStep? && l.o.pingOk) }

  predicate LoopSteps(labels: seq<Label>) { forall l :: l in labels ==> LoopStep(l) }

  /** What is left to do: four units for a waiting query, three for an outcome that the worker holds, two for one that is
      queued, one for a flag to lower. */
  function Load(s: Local): nat {
    4 * |Waiting(s)| + (if s.worker.PushCallback? || s.worker.PushError? then 3 else 0)
    + 2 * (|s.h.callbacks| + |s.h.errors|) + if s.tick.LowerFlag? then 1 else 0
  }

  /** The tick has something to deliver, or a flag to lower. */
  predicate TickBusy(s: Local) { s.h.callbacks != [] || s.h.errors != [] || s.tick.LowerFlag? }

  /** How many steps the tick may need before the load falls, when it is busy. */
  function TickDistance(s: Local): nat {
    match s.tick
    case LowerFlag | PopCallback | PopError => 1
    case CallbackReturn | ErrorReturn => 2
    case CallScript(_) => 3
    case CallError(_) => 3
    case ReadCallbacks => if s.h.callbacks != [] then 4 else 6
    case ReadErrors => if s.h.callbacks != [] then 5 else 4
    case Off => if s.h.callbacks != [] then 6 else 5
  }

  /** How many steps the worker may need before the load falls, when the tick is not busy and there is a load. */
  function WorkerDistance(w: WorkerPc): nat {
    match w
    case RunQuery(_) => 1
    case PushCallback(_) => 1
    case PushError(_, _) => 1
    case SetFlag(_) => 2
    case CopyFront => 3
    case Ping => 4
    case ReadNonThreaded => 5
    case ReadProcessing => 6
    case ReadConnected => 7
    case ReadQueue => 8
    case Away => 9
    case PopQueue(_) => 10
    case ClearFlag(_) => 11
    case MarkLost => 0
    case Redial => 0
  }

  lemma LoopStepFlows(s: Local, l: Label)
    requires Flowing(s) && LoopStep(l)
    ensures Flowing(Next(s, l))
  {
    if l.TickStep? {
      TickKeepsControl(s);
    } else {
      WorkerKeepsControl(s, l.o);
    }
  }

  lemma WorkerLoad(s: Local, o: Oracle)
    requires Flowing(s) && o.pingOk
    ensures var s' := WorkerNext(s, o);
      && Load(s') <= Load(s)
      && (Load(s') == Load(s) ==> s'.tick == s.tick && s'.h.callbacks == s.h.callbacks && s'.h.errors == s.h.errors)
      && (Load(s') == Load(s) > 0 && !TickBusy(s) ==> WorkerDistance(s'.worker) < WorkerDistance(s.worker))
  {
  }

  lemma TickLoad(s: Local)
    requires Flowing(s)
    ensures var s' := TickNext(s);
      && Load(s') <= Load(s) && s'.worker == s.worker
      && (Load(s') == Load(s) ==> s'.h.callbacks == s.h.callbacks && s'.h.errors == s.h.errors)
      && (Load(s') == Load(s) ==> (TickBusy(s') <==> TickBusy(s)))
      && (Load(s') == Load(s) && TickBusy(s) ==> TickDistance(s') < TickDistance(s))
  {
  }

  function WorkerSteps(labels: seq<Label>): nat {
    if labels == [] then 0
    else WorkerSteps(labels[..|labels| - 1]) + if labels[|labels| - 1].WorkerStep? then 1 else 0
  }

  function TickSteps(labels: seq<Label>): nat {
    if labels == [] then 0
    else TickSteps(labels[..|labels| - 1]) + if labels[|labels| - 1].TickStep? then 1 else 0
  }

  /** Since s, the load has fallen, or the actor whose turn it is has come closer with each of its steps. */
  ghost predicate Progress(s: Local, labels: seq<Label>) {
    var s' := Run(s, labels);
    Load(s') <= Load(s)
    && (Load(s') == Load(s) > 0 ==>
          && (TickBusy(s') <==> TickBusy(s))
          && (if TickBusy(s) then TickDistance(s') + TickSteps(labels) <= TickDistance(s)
              else WorkerDistance(s'.worker) + WorkerSteps(labels) <= WorkerDistance(s.worker)))
  }

  lemma ProgressStep(s: Local, front: seq<Label>, l: Label)
    requires Flowing(Run(s, front)) && LoopStep(l) && Progress(s, front)
    ensures Progress(s, front + [l])
  {
    var at := Run(s, front);
    RunSnoc(s, front, l);
    assert (front + [l])[..|front|] == front;
    if l.TickStep? {
      TickLoad(at);
    } else {
      WorkerLoad(at, l.o);
    }
  }

  lemma {:induction false} RunProgresses(s: Local, labels: seq<Label>)
    requires Flowing(s) && LoopSteps(labels)
    ensures Flowing(Run(s, labels)) && Progress(s, labels)
  {
    if labels != [] {
      var front, l := labels[..|labels| - 1], labels[|labels| - 1];
      assert front + [l] == labels && l in labels && forall l' :: l' in front ==> l' in labels;
      RunProgresses(s, front);
      LoopStepFlows(Run(s, front), l);
      ProgressStep(s, front, l);
    }
  }

  /** A stretch of a run in which both loops get on: the steps may come in any order. */
  predicate Fair(labels: seq<Label>) { LoopSteps(labels) && WorkerSteps(labels) >= 11 && TickSteps(labels) >= 6 }

  lemma DistancesAreBounded(s: Local)
    ensures TickDistance(s) <= 6 && WorkerDistance(s.worker) <= 11
    ensures TickDistance(s) > 0 && (Flowing(s) ==> WorkerDistance(s.worker) > 0)
  {
  }

  /** A fair stretch reduces the load. */
  lemma FairReducesLoad(s: Local, labels: seq<Label>)
    requires Flowing(s) && Fair(labels)
    ensures Flowing(Run(s, labels))
    ensures Load(s) > 0 ==> Load(Run(s, labels)) < Load(s)
    ensures Load(s) == 0 ==> Load(Run(s, labels)) == 0
  {
    RunProgresses(s, labels);
    DistancesAreBounded(s);
    DistancesAreBounded(Run(s, labels));
  }

  function Stretches(s: Local, stretches: seq<seq<Label>>): Local
    decreases |stretches|
  {
    if stretches == [] then s else Stretches(Run(s, stretches[0]), stretches[1..])
  }

  /** Nothing waits, nothing is queued for the scripts, and nothing is in the worker's hands. */
  predicate Drained(s: Local) {
    Waiting(s) == [] && s.h.callbacks == [] && s.h.errors == [] && !s.worker.PushCallback? && !s.worker.PushError?
  }

  /** Drain over interleavings: a live handle with an answering server has got rid of everything after as many fair
      stretches as its load, in whatever order the steps of the two loops come. */
  lemma {:induction false} FairRunsDrain(s: Local, stretches: seq<seq<Label>>)
    requires Flowing(s) && (forall r :: r in stretches ==> Fair(r)) && Load(s) <= |stretches|
    ensures Drained(Stretches(s, stretches))
    decreases |stretches|
  {
    if stretches != [] {
      var next := Run(s, stretches[0]);
      assert stretches[0] in stretches && forall r :: r in stretches[1..] ==> r in stretches;
      FairReducesLoad(s, stretches[0]);
      FairRunsDrain(next, stretches[1..]);
    }
  }

  /** From a handle at rest the load is twice the work of module Passes. */
  lemma ReachableHandleDrains(s: Local, stretches: seq<seq<Label>>)
    requires Sound(s) && s.h.connected && (forall r :: r in stretches ==> Fair(r)) && 2 * Work(s.h) <= |stretches|
    ensures Drained(Stretches(s, stretches))
  {
    ReachableInv(s);
    assert Load(s) == 2 * Work(s.h);
    FairRunsDrain(s, stretches);
  }
}
