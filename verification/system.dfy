// The whole plugin as a system of handles: one worker sweeping under the mutex, one game thread, and a vector of
// handles that grows and shrinks. Every handle of the system behaves as a run of the machine of one handle, so the
// guarantees of a single handle are guarantees of the plugin.

module PluginSystem {
  import opened Options
  import opened Trace
  import opened Pipeline
  import opened Guarantees

  /** `worker` is the index that the sweep has reached, and is set exactly while the worker holds the mutex; `tick` is
      the index that ProcessTick has reached; `native` is the handle on which a native is running. */
  datatype System = System(handles: seq<Local>, worker: Option<nat>, tick: Option<nat>, native: Option<nat>)

  datatype Move =
    | WorkerMoves(o: Oracle)
    | TickMoves
    | NativeBegins(j: nat, c: Command)
    | NativeMoves(o: Oracle)
    | HandleOpens(dialOk: bool)   // mysql_connect with a new key: push_back, without the mutex
    | HandleCloses(j: nat)        // mysql_close: clear, delete and erase, under the mutex

  function Start(): System { System([], None, None, None) }

  function Put(y: System, j: nat, s: Local): System
    requires j < |y.handles|
  {
    y.(handles := y.handles[j := s])
  }

  function WorkerMove(y: System, o: Oracle): System {
    match y.worker
    case None => y.(worker := Some(0))
    case Some(i) =>
      if i >= |y.handles| then y.(worker := None)
      else
        var s := WorkerNext(y.handles[i], o);
        Put(y, i, s).(worker := Some(if s.worker.Away? then i + 1 else i))
  }

  function TickMove(y: System): System {
    if y.native.Some? then y else
    match y.tick
    case None => y.(tick := Some(0))
    case Some(i) =>
      if i >= |y.handles| then y.(tick := None)
      else
        var s := TickNext(y.handles[i]);
        Put(y, i, s).(tick := Some(if s.tick.Off? then i + 1 else i))
  }

  /** The game thread can run a native: it is between ticks, or inside a script that the tick has called. */
  predicate GameFree(y: System) {
    && y.native.None?
    && (y.tick.Some? ==>
          var i := y.tick.value;
          i < |y.handles| && (y.handles[i].tick.ErrorReturn? || y.handles[i].tick.CallbackReturn?))
  }

  function NativeBegin(y: System, j: nat, c: Command): System {
    if !GameFree(y) || j >= |y.handles| then y
    else
      var s := BeginNext(y.handles[j], c);
      Put(y, j, s).(native := if s.native.Idle? then None else Some(j))
  }

  /** Enqueuing and clearing wait for the mutex. */
  function NativeMove(y: System, o: Oracle): System {
    match y.native
    case None => y
    case Some(j) =>
      if j >= |y.handles| then y
      else if y.worker.Some? && (y.handles[j].native.Enqueue? || y.handles[j].native.ClearQueue?) then y
      else
        var s := NativeNext(y.handles[j], o);
        Put(y, j, s).(native := if s.native.Idle? then None else Some(j))
  }

  function Stepped(y: System, m: Move): System {
    match m
    case WorkerMoves(o) => WorkerMove(y, o)
    case TickMoves => TickMove(y)
    case NativeBegins(j, c) => NativeBegin(y, j, c)
    case NativeMoves(o) => NativeMove(y, o)
    case HandleOpens(dialOk) => if !GameFree(y) then y else y.(handles := y.handles + [Fresh(dialOk)])
    case HandleCloses(j) =>
      if y.tick.Some? || y.native.Some? || y.worker.Some? || j >= |y.handles| then y
      else y.(handles := y.handles[..j] + y.handles[j + 1..])
  }

  function Moved(y: System, moves: seq<Move>): System {
    if moves == [] then y else Stepped(Moved(y, moves[..|moves| - 1]), moves[|moves| - 1])
  }

  // ---------- every handle is a run ----------

  /** Each actor is at most at the handle that its index names. */
  predicate AtMostThere(y: System, j: nat)
    requires j < |y.handles|
  {
    && (y.handles[j].worker.Away? || y.worker == Some(j))
    && (y.handles[j].tick.Off? || y.tick == Some(j))
    && (y.handles[j].native.Idle? || y.native == Some(j))
  }

  ghost predicate SystemInv(y: System) {
    && (forall j :: 0 <= j < |y.handles| ==> Reachable(y.handles[j]))
    && (forall j :: 0 <= j < |y.handles| ==> AtMostThere(y, j))
  }

  lemma WorkerMoveKeeps(y: System, o: Oracle)
    requires SystemInv(y)
    ensures SystemInv(WorkerMove(y, o))
  {
    if y.worker.Some? && y.worker.value < |y.handles| {
      NextIsReachable(y.handles[y.worker.value], WorkerStep(o));
    }
    var y' := WorkerMove(y, o);
    forall j | 0 <= j < |y'.handles| ensures AtMostThere(y', j) {
      assert AtMostThere(y, j);
    }
  }

  lemma TickMoveKeeps(y: System)
    requires SystemInv(y)
    ensures SystemInv(TickMove(y))
  {
    if y.tick.Some? && y.tick.value < |y.handles| {
      NextIsReachable(y.handles[y.tick.value], TickStep);
    }
    var y' := TickMove(y);
    forall j | 0 <= j < |y'.handles| ensures AtMostThere(y', j) {
      assert AtMostThere(y, j);
    }
  }

  lemma NativeBeginKeeps(y: System, j: nat, c: Command)
    requires SystemInv(y)
    ensures SystemInv(NativeBegin(y, j, c))
  {
    if j < |y.handles| {
      NextIsReachable(y.handles[j], Begin(c));
    }
    var y' := NativeBegin(y, j, c);
    forall k | 0 <= k < |y'.handles| ensures AtMostThere(y', k) {
      assert AtMostThere(y, k);
    }
  }

  lemma NativeMoveKeeps(y: System, o: Oracle)
    requires SystemInv(y)
    ensures SystemInv(NativeMove(y, o))
  {
    if y.native.Some? && y.native.value < |y.handles| {
      NextIsReachable(y.handles[y.native.value], NativeStep(o));
    }
    var y' := NativeMove(y, o);
    forall k | 0 <= k < |y'.handles| ensures AtMostThere(y', k) {
      assert AtMostThere(y, k);
    }
  }

  lemma OpenCloseKeeps(y: System, m: Move)
    requires SystemInv(y) && (m.HandleOpens? || m.HandleCloses?)
    ensures SystemInv(Stepped(y, m))
  {
    if m.HandleOpens? {
      FreshIsReachable(m.dialOk);
    }
    var y' := Stepped(y, m);
    forall k | 0 <= k < |y'.handles| ensures AtMostThere(y', k) && Reachable(y'.handles[k]) {
      if m.HandleCloses? && y' != y {
        assert AtMostThere(y, if k < m.j then k else k + 1);
      } else if k < |y.handles| {
        assert AtMostThere(y, k);
      }
    }
  }

  lemma {:induction false} SystemKeepsInv(moves: seq<Move>)
    ensures SystemInv(Moved(Start(), moves))
  {
    if moves != [] {
      var front, m := moves[..|moves| - 1], moves[|moves| - 1];
      SystemKeepsInv(front);
      var y := Moved(Start(), front);
      match m
      case WorkerMoves(o) => WorkerMoveKeeps(y, o);
      case TickMoves => TickMoveKeeps(y);
      case NativeBegins(j, c) => NativeBeginKeeps(y, j, c);
      case NativeMoves(o) => NativeMoveKeeps(y, o);
      case _ => OpenCloseKeeps(y, m);
    }
  }

  /** In every reachable state of the plugin, each handle is in a state that its own machine reaches, so all that is
      proved about one handle holds of each of them at once. */
  lemma EveryHandleIsARun(moves: seq<Move>, j: nat) returns (dialOk: bool, labels: seq<Label>)
    requires j < |Moved(Start(), moves).handles|
    ensures Moved(Start(), moves).handles[j] == Run(Fresh(dialOk), labels)
  {
    SystemKeepsInv(moves);
    assert Reachable(Moved(Start(), moves).handles[j]);
    dialOk, labels :| Moved(Start(), moves).handles[j] == Run(Fresh(dialOk), labels);
  }

  /** What conservation, order and delivery mean for one handle. */
  ghost predicate Conserves(s: Local) {
    var b := BooksOf(s.trace);
    && b.submitted == b.resolved + Waiting(s)
    && multiset(b.submitted) == multiset(b.executed) + multiset(b.dropped) + multiset(Waiting(s))
    && Subsequence(b.executed + Waiting(s), b.submitted)
    && b.succeeded == b.delivered + Undelivered(s) && |Undelivered(s)| <= 1
    && b.raised == b.reported + Unreported(s)
    && (!s.worker.PushError? ==> b.workerFaults == b.workerRaised)
    && (s.native.Idle? ==> b.syncFaults == b.syncRaised)
    && WellPaced(s.trace)
  }

  /** What the callback queue and its flag mean for one handle, and whose result and whose errors a callback finds. */
  ghost predicate Delivers(s: Local) {
    && |s.h.callbacks| <= 1 && (TickHolds(s.tick) ==> s.h.callbacks != [])
    && (s.h.processing <==> WorkerHolds(s.worker) || s.h.callbacks != [] || s.tick.LowerFlag?)
    && (s.h.callbacks != [] ==>
          && LastRan(s.trace, s.h.callbacks[0])
          && (HasResult(s.trace, s.h.callbacks[0]) <==> GameKeptOff(s.trace, LastWhere(s.trace, WorkerAct)))
          && EarlierFaults(s.trace) == FromWorker(BooksOf(s.trace).reported) + FromWorker(Unreported(s)))
  }

  lemma RunConserves(dialOk: bool, labels: seq<Label>)
    ensures Conserves(Run(Fresh(dialOk), labels))
  {
    QueriesAreConserved(dialOk, labels);
    OutcomesAreConserved(dialOk, labels);
    FreshInv(dialOk);
    RunKeepsInv(Fresh(dialOk), labels);
  }

  lemma RunDelivers(dialOk: bool, labels: seq<Label>)
    ensures Delivers(Run(Fresh(dialOk), labels))
  {
    FlagTracksTheCallback(dialOk, labels);
    FreshInv(dialOk);
    RunKeepsInv(Fresh(dialOk), labels);
    if Run(Fresh(dialOk), labels).h.callbacks != [] {
      CallbackOwnsTheResult(dialOk, labels);
      EarlierErrorsAreQueued(dialOk, labels);
    }
  }

  /** The guarantees together, for every handle of every reachable state of the plugin. */
  lemma PluginIsSafe(moves: seq<Move>, j: nat)
    requires j < |Moved(Start(), moves).handles|
    ensures var s := Moved(Start(), moves).handles[j]; Conserves(s) && Delivers(s) && HangUpIsAlone(s)
  {
    var dialOk, labels := EveryHandleIsARun(moves, j);
    RunConserves(dialOk, labels);
    RunDelivers(dialOk, labels);
    DisconnectIsAlone(dialOk, labels);
  }

  /** No query of this handle has been dropped, and none is about to be. */
  predicate Keeps(s: Local) { !Clearing(s.native) && BooksOf(s.trace).dropped == [] }

  predicate Reconnects(m: Move) { m.NativeBegins? && m.c == Reconnect }

  lemma FreshKeeps(dialOk: bool)
    ensures Keeps(Fresh(dialOk))
  {
    BooksSnoc([], Dial(false, dialOk));
    assert [] + [Dial(false, dialOk)] == [Dial(false, dialOk)];
  }

  lemma NextKeeps(s: Local, l: Label)
    requires Keeps(s) && l != Begin(Reconnect)
    ensures Keeps(Next(s, l))
  {
    StepDrops(s, l);
    StaysUnclearing(s, l);
  }

  predicate AllKeep(y: System) { forall j :: 0 <= j < |y.handles| ==> Keeps(y.handles[j]) }

  lemma SteppedKeeps(y: System, m: Move)
    requires !Reconnects(m) && AllKeep(y)
    ensures AllKeep(Stepped(y, m))
  {
    match m
    case WorkerMoves(o) =>
      if y.worker.Some? && y.worker.value < |y.handles| { NextKeeps(y.handles[y.worker.value], WorkerStep(o)); }
    case TickMoves =>
      if y.tick.Some? && y.tick.value < |y.handles| { NextKeeps(y.handles[y.tick.value], TickStep); }
    case NativeBegins(j, c) =>
      if j < |y.handles| { NextKeeps(y.handles[j], Begin(c)); }
    case NativeMoves(o) =>
      if y.native.Some? && y.native.value < |y.handles| { NextKeeps(y.handles[y.native.value], NativeStep(o)); }
    case HandleOpens(dialOk) => FreshKeeps(dialOk);
    case HandleCloses(_) =>
  }

  /** Retention over the whole plugin: while no script reconnects, no handle that is open has lost a query, whatever
      happens to the connections. */
  lemma {:induction false} PluginRetainsQueries(moves: seq<Move>)
    requires forall m :: m in moves ==> !Reconnects(m)
    ensures AllKeep(Moved(Start(), moves))
  {
    if moves != [] {
      var front, m := moves[..|moves| - 1], moves[|moves| - 1];
      assert m in moves && forall m' :: m' in front ==> m' in moves;
      PluginRetainsQueries(front);
      SteppedKeeps(Moved(Start(), front), m);
    }
  }

  /** While the mutex is free of the worker, no handle is in the middle of an iteration of the worker. So what the
      game thread does under the mutex (enqueuing, clearing a queue, erasing a handle) never meets one. */
  lemma MutexExcludesTheWorker(moves: seq<Move>, j: nat)
    requires var y := Moved(Start(), moves); y.worker.None? && j < |y.handles|
    ensures Moved(Start(), moves).handles[j].worker.Away?
  {
    SystemKeepsInv(moves);
    assert AtMostThere(Moved(Start(), moves), j);
  }
}
