// The loops of the plugin over all handles, one atomic step at a time: every sweep and every tick reaches every handle,
// and a plugin whose two loops keep running drains.

module Scheduling {
  import opened Options
  import opened Trace
  import opened Pipeline
  import opened Guarantees
  import opened Draining
  import opened PluginSystem

  /** No handle is opened or closed. */
  predicate Steady(moves: seq<Move>) { forall m :: m in moves ==> !m.HandleOpens? && !m.HandleCloses? }

  lemma MovedStep(y: System, moves: seq<Move>, p: nat)
    requires p < |moves|
    ensures Moved(y, moves[..p + 1]) == Stepped(Moved(y, moves[..p]), moves[p])
  {
    assert moves[..p + 1][..p] == moves[..p];
  }

  lemma SteadySize(y: System, m: Move)
    requires !m.HandleOpens? && !m.HandleCloses?
    ensures |Stepped(y, m).handles| == |y.handles|
  {
  }

  // ---------- every handle is reached ----------

  /** Move k is the worker's last step in an iteration over handle j. */
  ghost predicate WorkerLeaves(y: System, moves: seq<Move>, j: nat, k: nat) {
    && k < |moves| && moves[k].WorkerMoves?
    && var before, after := Moved(y, moves[..k]), Moved(y, moves[..k + 1]);
    && before.worker == Some(j) && after.worker == Some(j + 1) && j < |before.handles| == |after.handles|
    && after.handles[j] == WorkerNext(before.handles[j], moves[k].o) && after.handles[j].worker.Away?
  }

  ghost predicate TickLeaves(y: System, moves: seq<Move>, j: nat, k: nat) {
    && k < |moves| && moves[k].TickMoves?
    && var before, after := Moved(y, moves[..k]), Moved(y, moves[..k + 1]);
    && before.tick == Some(j) && after.tick == Some(j + 1) && j < |before.handles| == |after.handles|
    && after.handles[j] == TickNext(before.handles[j]) && after.handles[j].tick.Off?
  }

  lemma WorkerIndexStep(y: System, m: Move, j: nat)
    requires !m.HandleOpens? && !m.HandleCloses? && j < |y.handles|
    requires y.worker.Some? && y.worker.value <= j
    ensures var y' := Stepped(y, m);
      && |y'.handles| == |y.handles|
      && ((y'.worker.Some? && y'.worker.value <= j)
          || (m.WorkerMoves? && y.worker == Some(j) && y'.worker == Some(j + 1)
              && y'.handles[j] == WorkerNext(y.handles[j], m.o) && y'.handles[j].worker.Away?))
  {
  }

  lemma TickIndexStep(y: System, m: Move, j: nat)
    requires !m.HandleOpens? && !m.HandleCloses? && j < |y.handles|
    requires y.tick.Some? && y.tick.value <= j
    ensures var y' := Stepped(y, m);
      && |y'.handles| == |y.handles|
      && ((y'.tick.Some? && y'.tick.value <= j)
          || (m.TickMoves? && y.tick == Some(j) && y'.tick == Some(j + 1)
              && y'.handles[j] == TickNext(y.handles[j]) && y'.handles[j].tick.Off?))
  {
  }

  lemma SteadyAt(y: System, moves: seq<Move>, p: nat)
    requires p < |moves| && !moves[p].HandleOpens? && !moves[p].HandleCloses?
    ensures |Moved(y, moves[..p + 1]).handles| == |Moved(y, moves[..p]).handles|
  {
    MovedStep(y, moves, p);
    SteadySize(Moved(y, moves[..p]), moves[p]);
  }

  lemma WorkerIndexAt(y: System, moves: seq<Move>, p: nat, j: nat)
    requires p < |moves| && !moves[p].HandleOpens? && !moves[p].HandleCloses? && j < |Moved(y, moves[..p]).handles|
    requires Moved(y, moves[..p]).worker.Some? && Moved(y, moves[..p]).worker.value <= j
    ensures (Moved(y, moves[..p + 1]).worker.Some? && Moved(y, moves[..p + 1]).worker.value <= j) || WorkerLeaves(y, moves, j, p)
  {
    MovedStep(y, moves, p);
    WorkerIndexStep(Moved(y, moves[..p]), moves[p], j);
  }

  lemma TickIndexAt(y: System, moves: seq<Move>, p: nat, j: nat)
    requires p < |moves| && !moves[p].HandleOpens? && !moves[p].HandleCloses? && j < |Moved(y, moves[..p]).handles|
    requires Moved(y, moves[..p]).tick.Some? && Moved(y, moves[..p]).tick.value <= j
    ensures (Moved(y, moves[..p + 1]).tick.Some? && Moved(y, moves[..p + 1]).tick.value <= j) || TickLeaves(y, moves, j, p)
  {
    MovedStep(y, moves, p);
    TickIndexStep(Moved(y, moves[..p]), moves[p], j);
  }

  /** What holds at a and not at the end is left somewhere in between. */
  lemma LeftInBetween(holds: seq<bool>, left: seq<bool>, a: nat) returns (k: nat)
    requires |holds| == |left| + 1 && a <= |left| && holds[a] && !holds[|left|]
    requires forall p :: a <= p < |left| && holds[p] ==> holds[p + 1] || left[p]
    ensures a <= k < |left| && left[k]
  {
    k := a;
    while !left[k]
      invariant a <= k < |left| && holds[k]
      decreases |left| - k
    {
      k := k + 1;
    }
  }

  lemma {:induction false} SteadySizes(y: System, moves: seq<Move>, a: nat, p: nat)
    requires Steady(moves) && a <= p <= |moves|
    ensures |Moved(y, moves[..p]).handles| == |Moved(y, moves[..a]).handles|
  {
    if a < p {
      assert moves[p - 1] in moves;
      SteadySizes(y, moves, a, p - 1);
      SteadyAt(y, moves, p - 1);
    }
  }

  /** After p moves the worker is in a sweep and has not got past handle j. */
  predicate WorkerNotPast(y: System, moves: seq<Move>, j: nat, p: nat)
    requires p <= |moves|
  {
    var at := Moved(y, moves[..p]); at.worker.Some? && at.worker.value <= j
  }

  predicate TickNotPast(y: System, moves: seq<Move>, j: nat, p: nat)
    requires p <= |moves|
  {
    var at := Moved(y, moves[..p]); at.tick.Some? && at.tick.value <= j
  }

  lemma WorkerGetsPast(y: System, moves: seq<Move>, a: nat, j: nat)
    requires a <= |moves| && Moved(y, moves[..a]).worker == Some(0) && Moved(y, moves).worker == None
    ensures WorkerNotPast(y, moves, j, a) && !WorkerNotPast(y, moves, j, |moves|)
  {
    assert moves[..|moves|] == moves;
  }

  lemma WorkerLeavesBehind(y: System, moves: seq<Move>, a: nat, p: nat, j: nat)
    requires Steady(moves) && a <= p < |moves| && j < |Moved(y, moves[..a]).handles| && WorkerNotPast(y, moves, j, p)
    ensures WorkerNotPast(y, moves, j, p + 1) || WorkerLeaves(y, moves, j, p)
  {
    assert moves[p] in moves;
    SteadySizes(y, moves, a, p);
    WorkerIndexAt(y, moves, p, j);
  }

  lemma TickGetsPast(y: System, moves: seq<Move>, a: nat, j: nat)
    requires a <= |moves| && Moved(y, moves[..a]).tick == Some(0) && Moved(y, moves).tick == None
    ensures TickNotPast(y, moves, j, a) && !TickNotPast(y, moves, j, |moves|)
  {
    assert moves[..|moves|] == moves;
  }

  lemma TickLeavesBehind(y: System, moves: seq<Move>, a: nat, p: nat, j: nat)
    requires Steady(moves) && a <= p < |moves| && j < |Moved(y, moves[..a]).handles| && TickNotPast(y, moves, j, p)
    ensures TickNotPast(y, moves, j, p + 1) || TickLeaves(y, moves, j, p)
  {
    assert moves[p] in moves;
    SteadySizes(y, moves, a, p);
    TickIndexAt(y, moves, p, j);
  }

  lemma WorkerBehindAll(y: System, moves: seq<Move>, a: nat, j: nat)
    requires Steady(moves) && a <= |moves| && j < |Moved(y, moves[..a]).handles|
    ensures forall p :: a <= p < |moves| && WorkerNotPast(y, moves, j, p) ==>
      WorkerNotPast(y, moves, j, p + 1) || WorkerLeaves(y, moves, j, p)
  {
    forall p | a <= p < |moves| && WorkerNotPast(y, moves, j, p)
      ensures WorkerNotPast(y, moves, j, p + 1) || WorkerLeaves(y, moves, j, p)
    {
      WorkerLeavesBehind(y, moves, a, p, j);
    }
  }

  lemma TickBehindAll(y: System, moves: seq<Move>, a: nat, j: nat)
    requires Steady(moves) && a <= |moves| && j < |Moved(y, moves[..a]).handles|
    ensures forall p :: a <= p < |moves| && TickNotPast(y, moves, j, p) ==>
      TickNotPast(y, moves, j, p + 1) || TickLeaves(y, moves, j, p)
  {
    forall p | a <= p < |moves| && TickNotPast(y, moves, j, p)
      ensures TickNotPast(y, moves, j, p + 1) || TickLeaves(y, moves, j, p)
    {
      TickLeavesBehind(y, moves, a, p, j);
    }
  }

  /** Every sweep reaches every handle: between taking the mutex and giving it back, whatever the game thread does
      meanwhile short of opening and closing handles, the worker goes through an iteration over handle j. */
  lemma SweepReachesEveryHandle(y: System, moves: seq<Move>, a: nat, j: nat) returns (k: nat)
    requires Steady(moves) && a <= |moves| && j < |Moved(y, moves[..a]).handles|
    requires Moved(y, moves[..a]).worker == Some(0) && Moved(y, moves).worker == None
    ensures a <= k < |moves| && WorkerLeaves(y, moves, j, k)
  {
    var holds := seq(|moves| + 1, p requires 0 <= p <= |moves| => WorkerNotPast(y, moves, j, p));
    var left := seq(|moves|, p requires 0 <= p < |moves| => WorkerLeaves(y, moves, j, p));
    WorkerGetsPast(y, moves, a, j);
    WorkerBehindAll(y, moves, a, j);
    k := LeftInBetween(holds, left, a);
  }

  /** Every tick reaches every handle. */
  lemma TickReachesEveryHandle(y: System, moves: seq<Move>, a: nat, j: nat) returns (k: nat)
    requires Steady(moves) && a <= |moves| && j < |Moved(y, moves[..a]).handles|
    requires Moved(y, moves[..a]).tick == Some(0) && Moved(y, moves).tick == None
    ensures a <= k < |moves| && TickLeaves(y, moves, j, k)
  {
    var holds := seq(|moves| + 1, p requires 0 <= p <= |moves| => TickNotPast(y, moves, j, p));
    var left := seq(|moves|, p requires 0 <= p < |moves| => TickLeaves(y, moves, j, p));
    TickGetsPast(y, moves, a, j);
    TickBehindAll(y, moves, a, j);
    k := LeftInBetween(holds, left, a);
  }

  // ---------- what the other moves do ----------

  /** Closing a handle takes it out and keeps the others in order; nothing else of the plugin changes. */
  lemma ClosingKeepsTheOthers(y: System, j: nat)
    requires y.worker.None? && y.tick.None? && y.native.None? && j < |y.handles|
    ensures var y' := Stepped(y, HandleCloses(j));
      && |y'.handles| == |y.handles| - 1
      && (forall i :: 0 <= i < j ==> y'.handles[i] == y.handles[i])
      && (forall i :: j <= i < |y'.handles| ==> y'.handles[i] == y.handles[i + 1])
      && y'.worker.None? && y'.tick.None? && y'.native.None?
  {
  }

  /** The game thread can act: between ticks, or while a script that the tick has called on some handle runs. */
  predicate ScriptRuns(y: System) {
    && y.native.None?
    && (y.tick.None?
        || (y.tick.value < |y.handles|
            && (y.handles[y.tick.value].tick == ErrorReturn || y.handles[y.tick.value].tick == CallbackReturn)))
  }

  /** Opening a handle appends a new one. */
  lemma OpeningAppends(y: System, dialOk: bool)
    requires ScriptRuns(y)
    ensures Stepped(y, HandleOpens(dialOk)) == y.(handles := y.handles + [Fresh(dialOk)])
  {
  }

  /** A threaded query that a script issues on a live handle is in its queue two moves later if the worker does not hold
      the mutex; no other handle changes. */
  lemma ScriptSubmits(y: System, j: nat, q: MainInfo, o: Oracle)
    requires SystemInv(y) && ScriptRuns(y) && y.worker.None? && j < |y.handles| && y.handles[j].h.connected
    ensures var y' := Stepped(Stepped(y, NativeBegins(j, ThreadedQuery(q))), NativeMoves(o));
      && |y'.handles| == |y.handles| && y'.native.None?
      && y'.handles[j].h.queue == y.handles[j].h.queue + [q]
      && y'.handles[j].trace == y.handles[j].trace + [Submit(q)]
      && (forall i :: 0 <= i < |y.handles| && i != j ==> y'.handles[i] == y.handles[i])
  {
    assert AtMostThere(y, j);
  }

  /** Any native that a script issues on a live handle begins. */
  lemma ScriptBegins(y: System, j: nat, c: Command)
    requires SystemInv(y) && ScriptRuns(y) && j < |y.handles| && y.handles[j].h.connected
    ensures NativeBegin(y, j, c).native == Some(j) && !NativeBegin(y, j, c).handles[j].native.Idle?
  {
    assert AtMostThere(y, j);
  }

  /** Natives change a queue, and handles are closed, only while the worker does not hold the mutex. */
  lemma TheMutexGuardsTheQueues(y: System, m: Move, j: nat)
    requires j < |y.handles| && (m.NativeMoves? || m.HandleCloses?) && y.worker.Some?
    ensures var y' := Stepped(y, m); |y'.handles| == |y.handles| && y'.handles[j].h.queue == y.handles[j].h.queue
  {
  }

  /** A move of a native, or its beginning, changes no handle but its own. */
  lemma NativesKeepToTheirHandle(y: System, m: Move, j: nat, i: nat)
    requires (m.NativeBegins? && m.j == j) || (m.NativeMoves? && (y.native.Some? ==> y.native.value == j))
    requires i < |y.handles| && i != j
    ensures |Stepped(y, m).handles| == |y.handles| && Stepped(y, m).handles[i] == y.handles[i]
  {
  }

  // ---------- what a handle sees of the loops ----------

  /** The moves of the two loops; pings succeed. */
  predicate Loops(m: Move) { m.TickMoves? || (m.WorkerMoves? && m.o.pingOk) }

  predicate Looping(moves: seq<Move>) { forall m :: m in moves ==> Loops(m) }

  /** The step that a move makes on handle j, if any. */
  function LabelOf(y: System, m: Move, j: nat): seq<Label> {
    if j >= |y.handles| then []
    else if m.WorkerMoves? && y.worker == Some(j) then [WorkerStep(m.o)]
    else if m.TickMoves? && y.native.None? && y.tick == Some(j) then [TickStep]
    else []
  }

  /** The steps on handle j, move by move. */
  function PartsOf(y: System, moves: seq<Move>, j: nat): (r: seq<seq<Label>>)
    ensures |r| == |moves| && forall k :: 0 <= k < |moves| ==> r[k] == LabelOf(Moved(y, moves[..k]), moves[k], j)
  {
    seq(|moves|, k requires 0 <= k < |moves| => LabelOf(Moved(y, moves[..k]), moves[k], j))
  }

  function Flat(parts: seq<seq<Label>>): seq<Label> {
    if parts == [] then [] else Flat(parts[..|parts| - 1]) + parts[|parts| - 1]
  }

  function LabelsOf(y: System, moves: seq<Move>, j: nat): seq<Label> { Flat(PartsOf(y, moves, j)) }

  lemma LabelsSnoc(y: System, front: seq<Move>, m: Move, j: nat)
    ensures LabelsOf(y, front + [m], j) == LabelsOf(y, front, j) + LabelOf(Moved(y, front), m, j)
  {
    var moves := front + [m];
    assert moves[..|front|] == front && forall k :: 0 <= k < |front| ==> front[..k] == moves[..k];
    assert PartsOf(y, moves, j)[..|front|] == PartsOf(y, front, j);
  }

  lemma LoopKeeps(y: System, m: Move)
    requires SystemInv(y) && Loops(m)
    ensures SystemInv(Stepped(y, m)) && |Stepped(y, m).handles| == |y.handles| && Stepped(y, m).native == y.native
  {
    if m.WorkerMoves? {
      WorkerMoveKeeps(y, m.o);
    } else {
      TickMoveKeeps(y);
    }
  }

  lemma {:induction false} LoopingKeeps(y: System, moves: seq<Move>)
    requires SystemInv(y) && Looping(moves)
    ensures SystemInv(Moved(y, moves)) && |Moved(y, moves).handles| == |y.handles| && Moved(y, moves).native == y.native
  {
    if moves != [] {
      var front, m := moves[..|moves| - 1], moves[|moves| - 1];
      assert m in moves && forall m' :: m' in front ==> m' in moves;
      LoopingKeeps(y, front);
      LoopKeeps(Moved(y, front), m);
    }
  }

  lemma LabelIsStep(y: System, m: Move, j: nat)
    requires Loops(m) && j < |y.handles|
    ensures |Stepped(y, m).handles| == |y.handles|
    ensures Stepped(y, m).handles[j] == (if LabelOf(y, m, j) == [] then y.handles[j] else Next(y.handles[j], LabelOf(y, m, j)[0]))
    ensures |LabelOf(y, m, j)| <= 1 && forall l :: l in LabelOf(y, m, j) ==> LoopStep(l)
  {
  }

  /** The last move of `moves`. */
  lemma OneMoreMove(y: System, moves: seq<Move>, j: nat)
    requires moves != [] && Loops(moves[|moves| - 1])
    requires var front := moves[..|moves| - 1];
      && j < |y.handles| == |Moved(y, front).handles|
      && LoopSteps(LabelsOf(y, front, j)) && Moved(y, front).handles[j] == Run(y.handles[j], LabelsOf(y, front, j))
    ensures |Moved(y, moves).handles| == |y.handles| && LoopSteps(LabelsOf(y, moves, j))
    ensures Moved(y, moves).handles[j] == Run(y.handles[j], LabelsOf(y, moves, j))
  {
    var front, m := moves[..|moves| - 1], moves[|moves| - 1];
    var at, labels := Moved(y, front), LabelsOf(y, front, j);
    LabelIsStep(at, m, j);
    LabelsSnoc(y, front, m, j);
    assert front + [m] == moves;
    if LabelOf(at, m, j) != [] {
      RunSnoc(y.handles[j], labels, LabelOf(at, m, j)[0]);
    } else {
      assert labels + [] == labels;
    }
  }

  /** A handle runs through exactly the steps that the moves make on it. */
  lemma {:induction false} HandleRuns(y: System, moves: seq<Move>, j: nat)
    requires Looping(moves) && j < |y.handles|
    ensures |Moved(y, moves).handles| == |y.handles|
    ensures LoopSteps(LabelsOf(y, moves, j)) && Moved(y, moves).handles[j] == Run(y.handles[j], LabelsOf(y, moves, j))
  {
    if moves != [] {
      var front := moves[..|moves| - 1];
      assert moves[|moves| - 1] in moves && forall m' :: m' in front ==> m' in moves;
      HandleRuns(y, front, j);
      OneMoreMove(y, moves, j);
    }
  }

  // ---------- complete sweeps and ticks ----------

  /** The worker gives the mutex back. */
  predicate EndsSweep(y: System, m: Move) { y.worker.Some? && Stepped(y, m).worker.None? }

  predicate EndsTick(y: System, m: Move) { y.tick.Some? && Stepped(y, m).tick.None? }

  function CountTrue(b: seq<bool>): nat {
    if b == [] then 0 else CountTrue(b[..|b| - 1]) + if b[|b| - 1] then 1 else 0
  }

  /** Whether each move gives the mutex back. */
  function SweepEnds(y: System, moves: seq<Move>): (r: seq<bool>)
    ensures |r| == |moves| && forall k :: 0 <= k < |moves| ==> r[k] == EndsSweep(Moved(y, moves[..k]), moves[k])
  {
    seq(|moves|, k requires 0 <= k < |moves| => EndsSweep(Moved(y, moves[..k]), moves[k]))
  }

  function TickEnds(y: System, moves: seq<Move>): (r: seq<bool>)
    ensures |r| == |moves| && forall k :: 0 <= k < |moves| ==> r[k] == EndsTick(Moved(y, moves[..k]), moves[k])
  {
    seq(|moves|, k requires 0 <= k < |moves| => EndsTick(Moved(y, moves[..k]), moves[k]))
  }

  /** The complete sweeps and ticks of a run. */
  function SweepsDone(y: System, moves: seq<Move>): nat { CountTrue(SweepEnds(y, moves)) }

  function TicksDone(y: System, moves: seq<Move>): nat { CountTrue(TickEnds(y, moves)) }

  /** What the running sweep has already done on handle j: two steps at least once it is past. */
  function WorkerCredit(y: System, j: nat): nat
    requires j < |y.handles|
  {
    if y.worker.None? || y.worker.value < j then 0
    else if y.worker.value > j then 2
    else if y.handles[j].worker.Away? then 0 else 1
  }

  function TickCredit(y: System, j: nat): nat
    requires j < |y.handles|
  {
    if y.tick.None? || y.tick.value < j then 0
    else if y.tick.value > j then 3
    else match y.handles[j].tick
      case Off => 0
      case ReadErrors => 1
      case _ => 2
  }

  lemma WorkerCreditStep(y: System, m: Move, j: nat)
    requires SystemInv(y) && Loops(m) && j < |y.handles| == |Stepped(y, m).handles|
    ensures WorkerSteps(LabelOf(y, m, j)) + WorkerCredit(y, j)
      >= (if EndsSweep(y, m) then 2 else 0) + WorkerCredit(Stepped(y, m), j)
  {
    assert AtMostThere(y, j);
  }

  lemma TickCreditStep(y: System, m: Move, j: nat)
    requires SystemInv(y) && Loops(m) && y.native.None? && j < |y.handles| == |Stepped(y, m).handles|
    ensures TickSteps(LabelOf(y, m, j)) + TickCredit(y, j)
      >= (if EndsTick(y, m) then 3 else 0) + TickCredit(Stepped(y, m), j)
  {
    assert AtMostThere(y, j);
  }

  lemma StepsSnoc(labels: seq<Label>, more: seq<Label>)
    requires |more| <= 1
    ensures WorkerSteps(labels + more) == WorkerSteps(labels) + WorkerSteps(more)
    ensures TickSteps(labels + more) == TickSteps(labels) + TickSteps(more)
  {
    if more == [] {
      assert labels + more == labels;
    } else {
      assert (labels + more)[..|labels|] == labels && more[..0] == [];
    }
  }

  function Bit(b: bool): nat { if b then 1 else 0 }

  /** Steps pay for ends and for the change of the credit. */
  lemma {:induction false} Earned(steps: seq<bool>, ends: seq<bool>, credits: seq<nat>, w: nat)
    requires |steps| == |ends| && |credits| == |steps| + 1
    requires forall k :: 0 <= k < |steps| ==> Bit(steps[k]) + credits[k] >= w * Bit(ends[k]) + credits[k + 1]
    ensures CountTrue(steps) + credits[0] >= w * CountTrue(ends) + credits[|steps|]
  {
    if steps != [] {
      var n := |steps| - 1;
      Earned(steps[..n], ends[..n], credits[..n + 1], w);
      OneMore(w, CountTrue(ends[..n]));
      assert Bit(steps[n]) + credits[n] >= w * Bit(ends[n]) + credits[n + 1];
    }
  }

  /** Whether each part has a step of the worker, or of the tick. */
  function WorkerParts(parts: seq<seq<Label>>): (r: seq<bool>)
    ensures |r| == |parts| && forall k :: 0 <= k < |parts| ==> r[k] == (WorkerSteps(parts[k]) == 1)
  {
    seq(|parts|, k requires 0 <= k < |parts| => WorkerSteps(parts[k]) == 1)
  }

  function TickParts(parts: seq<seq<Label>>): (r: seq<bool>)
    ensures |r| == |parts| && forall k :: 0 <= k < |parts| ==> r[k] == (TickSteps(parts[k]) == 1)
  {
    seq(|parts|, k requires 0 <= k < |parts| => TickSteps(parts[k]) == 1)
  }

  lemma AtMostOneStep(part: seq<Label>)
    requires |part| <= 1
    ensures WorkerSteps(part) <= 1 && TickSteps(part) <= 1
  {
    if part != [] {
      assert part[..|part| - 1] == [];
    }
  }

  lemma CountSnoc(b: seq<bool>, x: bool)
    ensures CountTrue(b + [x]) == CountTrue(b) + Bit(x)
  {
    assert (b + [x])[..|b|] == b;
  }

  lemma {:induction false} WorkerPartsAreCounted(parts: seq<seq<Label>>)
    requires forall k :: 0 <= k < |parts| ==> |parts[k]| <= 1
    ensures WorkerSteps(Flat(parts)) == CountTrue(WorkerParts(parts))
  {
    if parts != [] {
      var n := |parts| - 1;
      WorkerPartsAreCounted(parts[..n]);
      AtMostOneStep(parts[n]);
      StepsSnoc(Flat(parts[..n]), parts[n]);
      assert WorkerParts(parts)[..n] == WorkerParts(parts[..n]);
      CountSnoc(WorkerParts(parts[..n]), WorkerSteps(parts[n]) == 1);
      assert WorkerParts(parts) == WorkerParts(parts[..n]) + [WorkerSteps(parts[n]) == 1];
    }
  }

  lemma {:induction false} TickPartsAreCounted(parts: seq<seq<Label>>)
    requires forall k :: 0 <= k < |parts| ==> |parts[k]| <= 1
    ensures TickSteps(Flat(parts)) == CountTrue(TickParts(parts))
  {
    if parts != [] {
      var n := |parts| - 1;
      TickPartsAreCounted(parts[..n]);
      AtMostOneStep(parts[n]);
      StepsSnoc(Flat(parts[..n]), parts[n]);
      assert TickParts(parts)[..n] == TickParts(parts[..n]);
      CountSnoc(TickParts(parts[..n]), TickSteps(parts[n]) == 1);
      assert TickParts(parts) == TickParts(parts[..n]) + [TickSteps(parts[n]) == 1];
    }
  }

  lemma FewLabels(y: System, m: Move, j: nat)
    ensures |LabelOf(y, m, j)| <= 1
    ensures WorkerSteps(LabelOf(y, m, j)) <= 1 && TickSteps(LabelOf(y, m, j)) <= 1
  {
    AtMostOneStep(LabelOf(y, m, j));
  }

  lemma StepsAreCounted(y: System, moves: seq<Move>, j: nat)
    ensures WorkerSteps(LabelsOf(y, moves, j)) == CountTrue(WorkerParts(PartsOf(y, moves, j)))
    ensures TickSteps(LabelsOf(y, moves, j)) == CountTrue(TickParts(PartsOf(y, moves, j)))
  {
    var parts := PartsOf(y, moves, j);
    forall k | 0 <= k < |parts| ensures |parts[k]| <= 1 {
      FewLabels(Moved(y, moves[..k]), moves[k], j);
    }
    WorkerPartsAreCounted(parts);
    TickPartsAreCounted(parts);
  }

  lemma WorkerCreditAt(y: System, moves: seq<Move>, j: nat, k: nat)
    requires SystemInv(y) && Looping(moves) && j < |y.handles| && k < |moves|
    ensures |Moved(y, moves[..k]).handles| == |Moved(y, moves[..k + 1]).handles| == |y.handles|
    ensures Bit(WorkerParts(PartsOf(y, moves, j))[k]) + WorkerCredit(Moved(y, moves[..k]), j)
      >= 2 * Bit(SweepEnds(y, moves)[k]) + WorkerCredit(Moved(y, moves[..k + 1]), j)
  {
    assert moves[k] in moves && forall m :: m in moves[..k] ==> m in moves;
    LoopingKeeps(y, moves[..k]);
    LoopKeeps(Moved(y, moves[..k]), moves[k]);
    MovedStep(y, moves, k);
    FewLabels(Moved(y, moves[..k]), moves[k], j);
    WorkerCreditStep(Moved(y, moves[..k]), moves[k], j);
  }

  lemma TickCreditAt(y: System, moves: seq<Move>, j: nat, k: nat)
    requires SystemInv(y) && Looping(moves) && y.native.None? && j < |y.handles| && k < |moves|
    ensures |Moved(y, moves[..k]).handles| == |Moved(y, moves[..k + 1]).handles| == |y.handles|
    ensures Bit(TickParts(PartsOf(y, moves, j))[k]) + TickCredit(Moved(y, moves[..k]), j)
      >= 3 * Bit(TickEnds(y, moves)[k]) + TickCredit(Moved(y, moves[..k + 1]), j)
  {
    assert moves[k] in moves && forall m :: m in moves[..k] ==> m in moves;
    LoopingKeeps(y, moves[..k]);
    LoopKeeps(Moved(y, moves[..k]), moves[k]);
    MovedStep(y, moves, k);
    FewLabels(Moved(y, moves[..k]), moves[k], j);
    TickCreditStep(Moved(y, moves[..k]), moves[k], j);
  }

  lemma SizesKept(y: System, moves: seq<Move>, k: nat)
    requires SystemInv(y) && Looping(moves) && k <= |moves|
    ensures |Moved(y, moves[..k]).handles| == |y.handles|
  {
    assert forall m :: m in moves[..k] ==> m in moves;
    LoopingKeeps(y, moves[..k]);
  }

  /** Every complete sweep makes two steps at least on each handle. */
  lemma SweepsMakeSteps(y: System, moves: seq<Move>, j: nat)
    requires SystemInv(y) && Looping(moves) && j < |y.handles|
    ensures WorkerSteps(LabelsOf(y, moves, j)) + 2 >= 2 * SweepsDone(y, moves)
  {
    forall k | 0 <= k <= |moves| ensures j < |Moved(y, moves[..k]).handles| { SizesKept(y, moves, k); }
    var credits := seq(|moves| + 1, k requires 0 <= k <= |moves| => WorkerCredit(Moved(y, moves[..k]), j));
    forall k | 0 <= k < |moves|
      ensures Bit(WorkerParts(PartsOf(y, moves, j))[k]) + credits[k] >= 2 * Bit(SweepEnds(y, moves)[k]) + credits[k + 1]
    {
      WorkerCreditAt(y, moves, j, k);
    }
    Earned(WorkerParts(PartsOf(y, moves, j)), SweepEnds(y, moves), credits, 2);
    StepsAreCounted(y, moves, j);
  }

  /** Every complete tick makes three steps at least on each handle. */
  lemma TicksMakeSteps(y: System, moves: seq<Move>, j: nat)
    requires SystemInv(y) && Looping(moves) && y.native.None? && j < |y.handles|
    ensures TickSteps(LabelsOf(y, moves, j)) + 3 >= 3 * TicksDone(y, moves)
  {
    forall k | 0 <= k <= |moves| ensures j < |Moved(y, moves[..k]).handles| { SizesKept(y, moves, k); }
    var credits := seq(|moves| + 1, k requires 0 <= k <= |moves| => TickCredit(Moved(y, moves[..k]), j));
    forall k | 0 <= k < |moves|
      ensures Bit(TickParts(PartsOf(y, moves, j))[k]) + credits[k] >= 3 * Bit(TickEnds(y, moves)[k]) + credits[k + 1]
    {
      TickCreditAt(y, moves, j, k);
    }
    Earned(TickParts(PartsOf(y, moves, j)), TickEnds(y, moves), credits, 3);
    StepsAreCounted(y, moves, j);
  }

  // ---------- moves complete sweeps ----------

  function WorkerPlace(w: WorkerPc): nat {
    match w
    case Away => 0
    case ReadQueue => 1
    case ReadConnected => 2
    case ReadProcessing => 3
    case ReadNonThreaded => 4
    case Ping => 5
    case CopyFront => 6
    case SetFlag(_) => 7
    case RunQuery(_) => 8
    case PushCallback(_) => 9
    case PushError(_, _) => 9
    case ClearFlag(_) => 10
    case PopQueue(_) => 11
    case MarkLost => 6
    case Redial => 7
  }

  function TickPlace(t: TickPc): nat {
    match t
    case Off => 0
    case ReadErrors => 1
    case CallError(_) => 2
    case ErrorReturn => 3
    case PopError => 4
    case ReadCallbacks => 5
    case CallScript(_) => 6
    case CallbackReturn => 7
    case PopCallback => 8
    case LowerFlag => 9
  }

  /** How far the running sweep is: it grows with every step of the worker. */
  function SweepPlace(y: System): (p: nat)
    ensures p <= 12 * |y.handles| + 1
  {
    if y.worker.None? then 0
    else if y.worker.value >= |y.handles| then 12 * |y.handles| + 1
    else 12 * y.worker.value + 1 + WorkerPlace(y.handles[y.worker.value].worker)
  }

  function TickingPlace(y: System): (p: nat)
    ensures p <= 10 * |y.handles| + 1
  {
    if y.tick.None? then 0
    else if y.tick.value >= |y.handles| then 10 * |y.handles| + 1
    else 10 * y.tick.value + 1 + TickPlace(y.handles[y.tick.value].tick)
  }

  lemma HandleControl(y: System, j: nat)
    requires SystemInv(y) && j < |y.handles|
    ensures Control(y.handles[j]) && AtMostThere(y, j)
  {
    ReachableInv(y.handles[j]);
  }

  /** A step of the worker completes its iteration, or takes it further. */
  lemma WorkerGoesOn(s: Local, o: Oracle)
    requires Control(s)
    ensures var w := WorkerNext(s, o).worker; w.Away? || WorkerPlace(w) > WorkerPlace(s.worker)
  {
  }

  lemma TickGoesOn(s: Local)
    requires Control(s) && s.native.Idle?
    ensures var t := TickNext(s).tick; t.Off? || TickPlace(t) > TickPlace(s.tick)
  {
  }

  lemma WorkerMoveAdvances(y: System, o: Oracle)
    requires y.worker.Some? && y.worker.value < |y.handles| ==> Control(y.handles[y.worker.value])
    ensures var y' := WorkerMove(y, o);
      (if EndsSweep(y, WorkerMoves(o)) then 12 * |y.handles| + 2 else 0) + SweepPlace(y') >= SweepPlace(y) + 1
  {
    if y.worker.Some? && y.worker.value < |y.handles| {
      WorkerGoesOn(y.handles[y.worker.value], o);
    }
  }

  lemma TickMoveAdvances(y: System)
    requires y.native.None?
    requires y.tick.Some? && y.tick.value < |y.handles| ==>
      Control(y.handles[y.tick.value]) && y.handles[y.tick.value].native.Idle?
    ensures var y' := TickMove(y);
      (if EndsTick(y, TickMoves) then 10 * |y.handles| + 2 else 0) + TickingPlace(y') >= TickingPlace(y) + 1
  {
    if y.tick.Some? && y.tick.value < |y.handles| {
      TickGoesOn(y.handles[y.tick.value]);
    }
  }

  /** A move of one loop leaves the other where it is. */
  lemma TickLeavesSweep(y: System)
    ensures !EndsSweep(y, TickMoves) && SweepPlace(TickMove(y)) == SweepPlace(y)
  {
    if y.tick.Some? && y.tick.value < |y.handles| {
      TickLeavesWorker(y.handles[y.tick.value]);
    }
  }

  lemma TickLeavesWorker(s: Local)
    ensures TickNext(s).worker == s.worker
  {
  }

  lemma WorkerLeavesTick(y: System, o: Oracle)
    ensures !EndsTick(y, WorkerMoves(o)) && TickingPlace(WorkerMove(y, o)) == TickingPlace(y)
  {
    if y.worker.Some? && y.worker.value < |y.handles| {
      WorkerOnlyAdds(y.handles[y.worker.value], o);
    }
  }

  lemma SweepMove(y: System, m: Move)
    requires SystemInv(y) && Loops(m)
    ensures (if m.WorkerMoves? then 1 else 0) + SweepPlace(y)
      <= (if EndsSweep(y, m) then 12 * |y.handles| + 2 else 0) + SweepPlace(Stepped(y, m))
  {
    if m.WorkerMoves? {
      if y.worker.Some? && y.worker.value < |y.handles| {
        HandleControl(y, y.worker.value);
      }
      WorkerMoveAdvances(y, m.o);
    } else {
      TickLeavesSweep(y);
    }
  }

  lemma TickingMove(y: System, m: Move)
    requires SystemInv(y) && Loops(m) && y.native.None?
    ensures (if m.TickMoves? then 1 else 0) + TickingPlace(y)
      <= (if EndsTick(y, m) then 10 * |y.handles| + 2 else 0) + TickingPlace(Stepped(y, m))
  {
    if m.TickMoves? {
      if y.tick.Some? && y.tick.value < |y.handles| {
        HandleControl(y, y.tick.value);
      }
      TickMoveAdvances(y);
    } else {
      WorkerLeavesTick(y, m.o);
    }
  }

  /** The moves of the worker, and those of the tick. */
  function WorkerMovesIn(moves: seq<Move>): nat {
    CountTrue(seq(|moves|, k requires 0 <= k < |moves| => moves[k].WorkerMoves?))
  }

  function TickMovesIn(moves: seq<Move>): nat {
    CountTrue(seq(|moves|, k requires 0 <= k < |moves| => moves[k].TickMoves?))
  }

  lemma OneMore(c: nat, d: nat)
    ensures c * (d + 1) == c * d + c
  {
  }

  lemma SweepMoveAt(y: System, moves: seq<Move>, k: nat, c: nat)
    requires SystemInv(y) && Looping(moves) && k < |moves| && c == 12 * |y.handles| + 2
    ensures Bit(moves[k].WorkerMoves?) + SweepPlace(Moved(y, moves[..k]))
      <= c * Bit(SweepEnds(y, moves)[k]) + SweepPlace(Moved(y, moves[..k + 1]))
  {
    assert moves[k] in moves && forall m :: m in moves[..k] ==> m in moves;
    LoopingKeeps(y, moves[..k]);
    MovedStep(y, moves, k);
    SweepMove(Moved(y, moves[..k]), moves[k]);
  }

  lemma TickingMoveAt(y: System, moves: seq<Move>, k: nat, c: nat)
    requires SystemInv(y) && Looping(moves) && y.native.None? && k < |moves| && c == 10 * |y.handles| + 2
    ensures Bit(moves[k].TickMoves?) + TickingPlace(Moved(y, moves[..k]))
      <= c * Bit(TickEnds(y, moves)[k]) + TickingPlace(Moved(y, moves[..k + 1]))
  {
    assert moves[k] in moves && forall m :: m in moves[..k] ==> m in moves;
    LoopingKeeps(y, moves[..k]);
    MovedStep(y, moves, k);
    TickingMove(Moved(y, moves[..k]), moves[k]);
  }

  /** Steps are spent on ends and on getting on. */
  lemma {:induction false} Spent(steps: seq<bool>, ends: seq<bool>, places: seq<nat>, c: nat)
    requires |steps| == |ends| && |places| == |steps| + 1
    requires forall k :: 0 <= k < |steps| ==> Bit(steps[k]) + places[k] <= c * Bit(ends[k]) + places[k + 1]
    ensures CountTrue(steps) + places[0] <= c * CountTrue(ends) + places[|steps|]
  {
    if steps != [] {
      var n := |steps| - 1;
      Spent(steps[..n], ends[..n], places[..n + 1], c);
      OneMore(c, CountTrue(ends[..n]));
      assert Bit(steps[n]) + places[n] <= c * Bit(ends[n]) + places[n + 1];
    }
  }

  /** Moves of the worker add up to complete sweeps. */
  lemma MovesMakeSweeps(y: System, moves: seq<Move>, c: nat)
    requires SystemInv(y) && Looping(moves) && c == 12 * |y.handles| + 2
    ensures WorkerMovesIn(moves) < c * SweepsDone(y, moves) + c
  {
    var places := seq(|moves| + 1, k requires 0 <= k <= |moves| => SweepPlace(Moved(y, moves[..k])));
    var steps := seq(|moves|, k requires 0 <= k < |moves| => moves[k].WorkerMoves?);
    forall k | 0 <= k < |moves| ensures Bit(steps[k]) + places[k] <= c * Bit(SweepEnds(y, moves)[k]) + places[k + 1] {
      SweepMoveAt(y, moves, k, c);
    }
    Spent(steps, SweepEnds(y, moves), places, c);
    SizesKept(y, moves, |moves|);
  }

  /** Moves of the tick add up to complete ticks. */
  lemma MovesMakeTicks(y: System, moves: seq<Move>, c: nat)
    requires SystemInv(y) && Looping(moves) && y.native.None? && c == 10 * |y.handles| + 2
    ensures TickMovesIn(moves) < c * TicksDone(y, moves) + c
  {
    var places := seq(|moves| + 1, k requires 0 <= k <= |moves| => TickingPlace(Moved(y, moves[..k])));
    var steps := seq(|moves|, k requires 0 <= k < |moves| => moves[k].TickMoves?);
    forall k | 0 <= k < |moves| ensures Bit(steps[k]) + places[k] <= c * Bit(TickEnds(y, moves)[k]) + places[k + 1] {
      TickingMoveAt(y, moves, k, c);
    }
    Spent(steps, TickEnds(y, moves), places, c);
    SizesKept(y, moves, |moves|);
  }

  lemma {:induction false} AtLeast(c: nat, done: nat, k: nat)
    requires c > 0 && c * done + c > c * k
    ensures done >= k
  {
    if done < k {
      OneMore(c, done);
      Product(c, done + 1, k);
    }
  }

  lemma Product(c: nat, a: nat, b: nat)
    requires a <= b
    ensures c * a <= c * b
    decreases b - a
  {
    if a < b {
      OneMore(c, b - 1);
      Product(c, a, b - 1);
    }
  }

  // ---------- draining ----------

  /** A stretch, over n handles, in which both loops move often enough: the moves may come in any order. */
  predicate FairMoves(n: nat, moves: seq<Move>) {
    Looping(moves) && WorkerMovesIn(moves) >= 7 * (12 * n + 2) && TickMovesIn(moves) >= 3 * (10 * n + 2)
  }

  /** All connections are up, the worker has found none lost, and no native is running. */
  ghost predicate PluginFlows(y: System) {
    && SystemInv(y) && y.native.None?
    && forall j :: 0 <= j < |y.handles| ==> Flowing(y.handles[j])
  }

  /** A fair stretch is fair to every handle. */
  lemma FairToEveryHandle(y: System, moves: seq<Move>, j: nat)
    requires PluginFlows(y) && FairMoves(|y.handles|, moves) && j < |y.handles|
    ensures Fair(LabelsOf(y, moves, j))
  {
    var c, d := 12 * |y.handles| + 2, 10 * |y.handles| + 2;
    LoopingKeeps(y, moves);
    MovesMakeSweeps(y, moves, c);
    MovesMakeTicks(y, moves, d);
    AtLeast(c, SweepsDone(y, moves), 7);
    AtLeast(d, TicksDone(y, moves), 3);
    HandleRuns(y, moves, j);
    SweepsMakeSteps(y, moves, j);
    TicksMakeSteps(y, moves, j);
  }

  lemma FairMovesReduceLoads(y: System, moves: seq<Move>)
    requires PluginFlows(y) && FairMoves(|y.handles|, moves)
    ensures var y' := Moved(y, moves);
      && PluginFlows(y') && |y'.handles| == |y.handles|
      && forall j :: 0 <= j < |y.handles| ==>
           if Load(y.handles[j]) > 0 then Load(y'.handles[j]) < Load(y.handles[j]) else Load(y'.handles[j]) == 0
  {
    LoopingKeeps(y, moves);
    forall j | 0 <= j < |y.handles|
      ensures Flowing(Moved(y, moves).handles[j])
      ensures if Load(y.handles[j]) > 0 then Load(Moved(y, moves).handles[j]) < Load(y.handles[j])
              else Load(Moved(y, moves).handles[j]) == 0
    {
      HandleRuns(y, moves, j);
      FairToEveryHandle(y, moves, j);
      FairReducesLoad(y.handles[j], LabelsOf(y, moves, j));
    }
  }

  function Stretched(y: System, stretches: seq<seq<Move>>): System
    decreases |stretches|
  {
    if stretches == [] then y else Stretched(Moved(y, stretches[0]), stretches[1..])
  }

  /** Drain of the whole plugin over atomic steps: from any state in which the connections are up, every handle has got
      rid of everything after as many fair stretches as the largest load, in whatever order the moves of the two loops
      come. */
  lemma {:induction false} LoopsDrainThePlugin(y: System, stretches: seq<seq<Move>>)
    requires PluginFlows(y) && forall r :: r in stretches ==> FairMoves(|y.handles|, r)
    requires forall j :: 0 <= j < |y.handles| ==> Load(y.handles[j]) <= |stretches|
    ensures var y' := Stretched(y, stretches);
      |y'.handles| == |y.handles| && forall j :: 0 <= j < |y'.handles| ==> Drained(y'.handles[j])
    decreases |stretches|
  {
    if stretches != [] {
      assert stretches[0] in stretches && forall r :: r in stretches[1..] ==> r in stretches;
      FairMovesReduceLoads(y, stretches[0]);
      LoopsDrainThePlugin(Moved(y, stretches[0]), stretches[1..]);
    }
  }

  /** From every reachable state of the plugin in which no native runs, all connections are up and the worker has found
      none lost. */
  lemma ReachablePluginDrains(moves: seq<Move>, stretches: seq<seq<Move>>)
    requires var y := Moved(Start(), moves);
      && y.native.None?
      && (forall j :: 0 <= j < |y.handles| ==>
            var s := y.handles[j]; s.h.connected && !s.worker.MarkLost? && !s.worker.Redial? && Load(s) <= |stretches|)
      && (forall r :: r in stretches ==> FairMoves(|y.handles|, r))
    ensures var y' := Stretched(Moved(Start(), moves), stretches);
      |y'.handles| == |Moved(Start(), moves).handles| && forall j :: 0 <= j < |y'.handles| ==> Drained(y'.handles[j])
  {
    var y := Moved(Start(), moves);
    SystemKeepsInv(moves);
    forall j | 0 <= j < |y.handles| ensures Flowing(y.handles[j]) {
      HandleControl(y, j);
    }
    LoopsDrainThePlugin(y, stretches);
  }
}
