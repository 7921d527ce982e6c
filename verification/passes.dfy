// One handle seen from one pass of a loop, or one native, to the next. Each pass is a run of the fine-grained
// machine, so everything proved about runs holds for passes; what only makes sense pass by pass is proved here.

module Passes {
  import opened Options
  import opened Trace
  import opened Pipeline
  import opened Guarantees

  /** No actor is in the middle of this handle. */
  predicate AtRest(s: Local) { s.worker.Away? && s.tick.Off? && s.native.Idle? }

  /** The worker's test before it touches the connection. */
  predicate Ready(h: Handle) { h.queue != [] && h.connected && !h.processing && !h.nonThreaded }

  /** The front of the queue has been sent to the server: its outcome is queued and the front is removed. */
  function Outcome(s: Local, o: Oracle): Local
    requires s.h.queue != []
  {
    var q, rest := s.h.queue[0], s.h.queue[1..];
    match o.failure
    case None =>
      Log(s, Exec(q, None)).(h := s.h.(queue := rest, callbacks := s.h.callbacks + [q], processing := true))
    case Some(f) =>
      var e := WorkerError(q, f);
      Log(Log(s, Exec(q, o.failure)), Raise(e)).(
        h := s.h.(queue := rest, errors := s.h.errors + [e], processing := false))
  }

  /** What one iteration of ProcessQueryThread does to a handle. */
  function WorkerPass(s: Local, o: Oracle): Local {
    if !Ready(s.h) then s
    else if o.pingOk then Outcome(s, o)
    else Dialled(s.(h := s.h.(connected := false)), true, o.dialOk)
  }

  function ReportPass(s: Local): Local {
    if s.h.errors == [] then s
    else Log(s, Report(s.h.errors[0])).(h := s.h.(errors := s.h.errors[1..]))
  }

  function DeliverPass(s: Local): Local {
    if s.h.callbacks == [] then s
    else Log(s, Deliver(s.h.callbacks[0])).(h := s.h.(callbacks := s.h.callbacks[1..], processing := false))
  }

  /** What one iteration of ProcessTick does to a handle when the scripts issue no natives. */
  function TickPass(s: Local): Local { DeliverPass(ReportPass(s)) }

  /** CMySQLHandler::Query, and OldQuery with a result id. */
  function SubmitPass(s: Local, q: MainInfo): Local {
    if !s.h.connected then s else Log(s, Submit(q)).(h := s.h.(queue := s.h.queue + [q]))
  }

  /** CMySQLHandler::OldQuery without a result id. */
  function SyncPass(s: Local, text: string, failure: Option<Failure>): Local {
    if !s.h.connected then s
    else
      var run := Log(s, Sync(text, failure));
      match failure
      case None => run
      case Some(f) => Log(run, Raise(SyncError(text, f))).(h := s.h.(errors := s.h.errors + [SyncError(text, f)]))
  }

  /** CMySQLHandler::Disconnect. */
  function DisconnectPass(s: Local): Local {
    if !s.h.connected then s
    else s.(trace := s.trace + Drops(s.h.queue), h := s.h.(queue := [], connected := false))
  }

  /** A mysql_connect that finds this handle: the connection is given up and opened again. */
  function ConnectPass(s: Local, ok: bool): Local {
    Dialled(s.(h := s.h.(connected := false)), false, ok)
  }

  function ReconnectPass(s: Local, ok: bool): Local { ConnectPass(DisconnectPass(s), ok) }

  // ---------- passes are runs ----------

  function Repeat(l: Label, n: nat): seq<Label> { seq(n, _ => l) }

  function Moves(s: Local, l: Label, n: nat): Local
    decreases n
  {
    if n == 0 then s else Moves(Next(s, l), l, n - 1)
  }

  lemma {:induction false} MovesAreRuns(s: Local, l: Label, n: nat)
    ensures Moves(s, l, n) == Run(s, Repeat(l, n))
    decreases n
  {
    if n > 0 {
      MovesAreRuns(Next(s, l), l, n - 1);
      assert Repeat(l, n) == [l] + Repeat(l, n - 1);
      RunConcat(s, [l], Repeat(l, n - 1));
      RunSnoc(s, [], l);
      assert [] + [l] == [l];
    }
  }

  /** How many atomic steps the worker takes on a handle that it finds at rest. */
  function WorkerLength(h: Handle, o: Oracle): nat {
    if h.queue == [] then 2 else if !h.connected then 3 else if h.processing then 4 else if h.nonThreaded then 5
    else if !o.pingOk then 8 else if o.failure.None? then 11 else 12
  }

  lemma IdlePassIsMoves(s: Local, o: Oracle)
    requires s.worker.Away? && !Ready(s.h)
    ensures Moves(s, WorkerStep(o), WorkerLength(s.h, o)) == WorkerPass(s, o)
  {
    var l := WorkerStep(o);
    var s1 := Next(s, l);
    var s2 := Next(s1, l);
    var s3 := Next(s2, l);
    var s4 := Next(s3, l);
    assert Moves(s, l, 2) == Moves(s1, l, 1) == s2;
    assert Moves(s, l, 3) == Moves(s1, l, 2) == Moves(s2, l, 1) == s3;
    assert Moves(s, l, 4) == Moves(s1, l, 3) == Moves(s2, l, 2) == Moves(s3, l, 1) == s4;
    assert Moves(s, l, 5) == Moves(s1, l, 4) == Moves(s2, l, 3) == Moves(s3, l, 2) == Moves(s4, l, 1) == Next(s4, l);
  }

  /** The worker on a ready handle, up to its ping. */
  lemma ApproachIsMoves(s: Local, o: Oracle, n: nat)
    requires s.worker.Away? && Ready(s.h)
    ensures Moves(s, WorkerStep(o), n + 5) == Moves(s.(worker := Ping), WorkerStep(o), n)
  {
    var l := WorkerStep(o);
    var s1 := Next(s, l);
    var s2 := Next(s1, l);
    var s3 := Next(s2, l);
    var s4 := Next(s3, l);
    assert Next(s4, l) == s.(worker := Ping);
    assert Moves(s, l, n + 5) == Moves(s1, l, n + 4) == Moves(s2, l, n + 3) == Moves(s3, l, n + 2) == Moves(s4, l, n + 1);
  }

  /** From a good ping to the statement. */
  lemma CommitIsMoves(s: Local, o: Oracle, n: nat)
    requires s.worker.Ping? && o.pingOk && s.h.queue != []
    ensures Moves(s, WorkerStep(o), n + 3)
      == Moves(s.(worker := RunQuery(s.h.queue[0]), h := s.h.(processing := true)), WorkerStep(o), n)
  {
    var l := WorkerStep(o);
    var s1 := Next(s, l);
    var s2 := Next(s1, l);
    assert Next(s2, l) == s.(worker := RunQuery(s.h.queue[0]), h := s.h.(processing := true));
    assert Moves(s, l, n + 3) == Moves(s1, l, n + 2) == Moves(s2, l, n + 1);
  }

  lemma OutcomeIsMoves(s: Local, o: Oracle)
    requires s.h.queue != [] && s.worker == RunQuery(s.h.queue[0]) && s.h.processing
    ensures Moves(s, WorkerStep(o), if o.failure.None? then 3 else 4) == Outcome(s, o).(worker := Away)
  {
    var l := WorkerStep(o);
    var s1 := Next(s, l);
    var s2 := Next(s1, l);
    var s3 := Next(s2, l);
    assert Moves(s, l, 3) == Moves(s1, l, 2) == Moves(s2, l, 1) == s3;
    assert Moves(s, l, 4) == Moves(s1, l, 3) == Moves(s2, l, 2) == Moves(s3, l, 1) == Next(s3, l);
  }

  lemma LostPassIsMoves(s: Local, o: Oracle)
    requires s.worker.Away? && Ready(s.h) && !o.pingOk
    ensures Moves(s, WorkerStep(o), 8) == WorkerPass(s, o)
  {
    ApproachIsMoves(s, o, 3);
    var l, s0 := WorkerStep(o), s.(worker := Ping);
    var s1 := Next(s0, l);
    var s2 := Next(s1, l);
    assert Moves(s0, l, 3) == Moves(s1, l, 2) == Moves(s2, l, 1) == Next(s2, l);
  }

  lemma BusyPassIsMoves(s: Local, o: Oracle)
    requires s.worker.Away? && Ready(s.h) && o.pingOk
    ensures Moves(s, WorkerStep(o), WorkerLength(s.h, o)) == WorkerPass(s, o)
  {
    var n := if o.failure.None? then 3 else 4;
    ApproachIsMoves(s, o, n + 3);
    CommitIsMoves(s.(worker := Ping), o, n);
    OutcomeIsMoves(s.(worker := RunQuery(s.h.queue[0]), h := s.h.(processing := true)), o);
  }

  /** One iteration of the worker is its run of atomic steps, when nobody interferes. */
  lemma WorkerPassIsRun(s: Local, o: Oracle)
    requires s.worker.Away?
    ensures WorkerPass(s, o) == Run(s, Repeat(WorkerStep(o), WorkerLength(s.h, o)))
  {
    MovesAreRuns(s, WorkerStep(o), WorkerLength(s.h, o));
    if !Ready(s.h) {
      IdlePassIsMoves(s, o);
    } else if !o.pingOk {
      LostPassIsMoves(s, o);
    } else {
      BusyPassIsMoves(s, o);
    }
  }

  /** How many atomic steps ProcessTick takes on a handle that it finds at rest. */
  function TickLength(h: Handle): nat {
    1 + (if h.errors == [] then 1 else 4) + (if h.callbacks == [] then 1 else 5)
  }

  lemma ReportPassIsMoves(s: Local, n: nat)
    requires s.tick.ReadErrors? && s.native.Idle?
    ensures Moves(s, TickStep, n + (if s.h.errors == [] then 1 else 4)) == Moves(ReportPass(s).(tick := ReadCallbacks), TickStep, n)
  {
    var l := TickStep;
    var s1 := Next(s, l);
    if s.h.errors != [] {
      var s2 := Next(s1, l);
      var s3 := Next(s2, l);
      assert Next(s3, l) == ReportPass(s).(tick := ReadCallbacks);
      assert Moves(s, l, n + 4) == Moves(s1, l, n + 3) == Moves(s2, l, n + 2) == Moves(s3, l, n + 1);
    }
  }

  /** The tick after it has called the scripts: pop, then lower the flag. */
  lemma ReturnIsMoves(s: Local)
    requires s.tick.CallbackReturn? && s.native.Idle? && s.h.callbacks != []
    ensures Moves(s, TickStep, 3) == s.(tick := Off, h := s.h.(callbacks := s.h.callbacks[1..], processing := false))
  {
    var l := TickStep;
    var s1 := Next(s, l);
    var s2 := Next(s1, l);
    assert Moves(s, l, 3) == Moves(s1, l, 2) == Moves(s2, l, 1) == Next(s2, l);
  }

  lemma DeliverPassIsMoves(s: Local)
    requires s.tick.ReadCallbacks? && s.native.Idle?
    ensures Moves(s, TickStep, if s.h.callbacks == [] then 1 else 5) == DeliverPass(s).(tick := Off)
  {
    var l := TickStep;
    var s1 := Next(s, l);
    if s.h.callbacks == [] {
      assert Moves(s, l, 1) == Moves(s1, l, 0);
    } else {
      var s2 := Next(s1, l);
      assert s2 == Log(s, Deliver(s.h.callbacks[0])).(tick := CallbackReturn);
      assert Moves(s, l, 5) == Moves(s1, l, 4) == Moves(s2, l, 3);
      ReturnIsMoves(s2);
    }
  }

  /** One iteration of the delivery loop is its run of atomic steps. */
  lemma TickPassIsRun(s: Local)
    requires s.tick.Off? && s.native.Idle?
    ensures TickPass(s) == Run(s, Repeat(TickStep, TickLength(s.h)))
  {
    MovesAreRuns(s, TickStep, TickLength(s.h));
    var start := s.(tick := ReadErrors);
    var middle := ReportPass(start).(tick := ReadCallbacks);
    ReportPassIsMoves(start, if s.h.callbacks == [] then 1 else 5);
    DeliverPassIsMoves(middle);
  }

  /** The steps of a native that is begun in a handle at rest and then left alone. */
  function NativeRun(c: Command, o: Oracle, n: nat): seq<Label> { [Begin(c)] + Repeat(NativeStep(o), n) }

  lemma NativeRunIsMoves(s: Local, c: Command, o: Oracle, n: nat)
    ensures Run(s, NativeRun(c, o, n)) == Moves(BeginNext(s, c), NativeStep(o), n)
  {
    MovesAreRuns(BeginNext(s, c), NativeStep(o), n);
    RunConcat(s, [Begin(c)], Repeat(NativeStep(o), n));
    RunSnoc(s, [], Begin(c));
    assert [] + [Begin(c)] == [Begin(c)];
  }

  lemma SubmitPassIsRun(s: Local, q: MainInfo, o: Oracle)
    requires AtRest(s)
    ensures SubmitPass(s, q) == Run(s, NativeRun(ThreadedQuery(q), o, 1))
  {
    NativeRunIsMoves(s, ThreadedQuery(q), o, 1);
    assert Moves(BeginNext(s, ThreadedQuery(q)), NativeStep(o), 1) == NativeNext(BeginNext(s, ThreadedQuery(q)), o);
  }

  lemma {:induction false} IdleMoves(s: Local, o: Oracle, n: nat)
    requires s.native.Idle?
    ensures Moves(s, NativeStep(o), n) == s
    decreases n
  {
    if n > 0 {
      IdleMoves(s, o, n - 1);
    }
  }

  /** The last steps of a synchronous query, from its answer on. */
  lemma AnsweredIsMoves(s: Local, o: Oracle)
    requires s.native.RunSync? && s.h.nonThreaded
    ensures Moves(s, NativeStep(o), 3)
      == (var e, run := s.native.text, Log(s, Sync(s.native.text, o.failure)).(native := Idle, h := s.h.(nonThreaded := false));
          if o.failure.None? then run
          else Log(run, Raise(SyncError(e, o.failure.value))).(
            h := run.h.(errors := run.h.errors + [SyncError(e, o.failure.value)])))
  {
    var l := NativeStep(o);
    var s1 := Next(s, l);
    var s2 := Next(s1, l);
    assert Moves(s, l, 3) == Moves(s1, l, 2) == Moves(s2, l, 1) == Next(s2, l);
  }

  lemma SyncPassIsRun(s: Local, text: string, o: Oracle)
    requires AtRest(s) && !s.h.nonThreaded
    ensures SyncPass(s, text, o.failure) == Run(s, NativeRun(SyncQuery(text), o, 4))
  {
    NativeRunIsMoves(s, SyncQuery(text), o, 4);
    var s0 := BeginNext(s, SyncQuery(text));
    if s.h.connected {
      var s1 := s.(native := RunSync(text), h := s.h.(nonThreaded := true));
      assert Next(s0, NativeStep(o)) == s1;
      AnsweredIsMoves(s1, o);
    } else {
      IdleMoves(s0, o, 4);
    }
  }

  /** A native about to give up the connection: two steps to a new one, and no more after that. */
  lemma ForceDownIsMoves(s: Local, o: Oracle, n: nat)
    requires s.native.ForceDown?
    ensures Moves(s, NativeStep(o), n + 2) == ConnectPass(s.(native := Idle), o.dialOk)
  {
    var l := NativeStep(o);
    var s1 := Next(s, l);
    assert Moves(s, l, n + 2) == Moves(s1, l, n + 1) == Moves(Next(s1, l), l, n);
    IdleMoves(Next(s1, l), o, n);
  }

  lemma ConnectPassIsRun(s: Local, o: Oracle)
    requires AtRest(s)
    ensures ConnectPass(s, o.dialOk) == Run(s, NativeRun(Connect, o, 2))
  {
    NativeRunIsMoves(s, Connect, o, 2);
    ForceDownIsMoves(BeginNext(s, Connect), o, 0);
  }

  lemma ReconnectPassIsRun(s: Local, o: Oracle)
    requires AtRest(s)
    ensures ReconnectPass(s, o.dialOk) == Run(s, NativeRun(Reconnect, o, 5))
  {
    NativeRunIsMoves(s, Reconnect, o, 5);
    var l, s0 := NativeStep(o), s.(native := ReadLive);
    if s.h.connected {
      var s1 := s.(native := ClearQueue);
      var s2 := s1.(native := HangUp, trace := s.trace + Drops(s.h.queue), h := s.h.(queue := []));
      var s3 := DisconnectPass(s).(native := ForceDown);
      assert Next(s0, l) == s1 && Next(s1, l) == s2 && Next(s2, l) == s3;
      assert Moves(s0, l, 5) == Moves(s1, l, 4) == Moves(s2, l, 3) == Moves(s3, l, 2);
      ForceDownIsMoves(s3, o, 0);
    } else {
      var s1 := s.(native := ForceDown);
      assert Next(s0, l) == s1;
      ForceDownIsMoves(s1, o, 2);
    }
  }

  // ---------- what a pass keeps ----------

  /** A handle between passes, in a state that the fine-grained machine reaches. */
  ghost predicate Sound(s: Local) { AtRest(s) && Reachable(s) }

  lemma WorkerPassIsSound(s: Local, o: Oracle)
    requires Sound(s)
    ensures Sound(WorkerPass(s, o))
  {
    WorkerPassIsRun(s, o);
    RunIsReachable(s, Repeat(WorkerStep(o), WorkerLength(s.h, o)));
  }

  lemma TickPassIsSound(s: Local)
    requires Sound(s)
    ensures Sound(TickPass(s))
  {
    TickPassIsRun(s);
    RunIsReachable(s, Repeat(TickStep, TickLength(s.h)));
  }

  lemma SubmitPassIsSound(s: Local, q: MainInfo)
    requires Sound(s)
    ensures Sound(SubmitPass(s, q))
  {
    var o := Oracle(true, None, true);
    SubmitPassIsRun(s, q, o);
    RunIsReachable(s, NativeRun(ThreadedQuery(q), o, 1));
  }

  lemma SyncPassIsSound(s: Local, text: string, failure: Option<Failure>)
    requires Sound(s)
    ensures Sound(SyncPass(s, text, failure))
  {
    var o := Oracle(true, failure, true);
    FlagAtRest(s);
    SyncPassIsRun(s, text, o);
    RunIsReachable(s, NativeRun(SyncQuery(text), o, 4));
  }

  lemma ConnectPassIsSound(s: Local, ok: bool)
    requires Sound(s)
    ensures Sound(ConnectPass(s, ok))
  {
    var o := Oracle(true, None, ok);
    ConnectPassIsRun(s, o);
    RunIsReachable(s, NativeRun(Connect, o, 2));
  }

  lemma ReconnectPassIsSound(s: Local, ok: bool)
    requires Sound(s)
    ensures Sound(ReconnectPass(s, ok))
  {
    var o := Oracle(true, None, ok);
    ReconnectPassIsRun(s, o);
    RunIsReachable(s, NativeRun(Reconnect, o, 5));
  }

  /** Between passes the flag says exactly that one callback waits. */
  lemma FlagAtRest(s: Local)
    requires Sound(s)
    ensures |s.h.callbacks| <= 1 && (s.h.processing <==> s.h.callbacks != []) && !s.h.nonThreaded
  {
    ReachableInv(s);
  }

  /** The books of a handle between passes: nothing is in anyone's hands, so every entry is accounted for by a queue or
      by the history. */
  lemma BooksAtRest(s: Local)
    requires Sound(s)
    ensures var b := BooksOf(s.trace);
      && b.submitted == b.resolved + s.h.queue
      && multiset(b.submitted) == multiset(b.executed) + multiset(b.dropped) + multiset(s.h.queue)
      && Subsequence(b.executed + s.h.queue, b.submitted)
      && b.succeeded == b.delivered + s.h.callbacks
      && b.raised == b.reported + s.h.errors
      && b.workerFaults == b.workerRaised && b.syncFaults == b.syncRaised
  {
    var dialOk: bool, labels: seq<Label> :| s == Run(Fresh(dialOk), labels);
    QueriesAreConserved(dialOk, labels);
    OutcomesAreConserved(dialOk, labels);
    assert Undelivered(s) == s.h.callbacks;
  }

  // ---------- connection loss ----------

  /** A mysql_reconnect that nobody interrupts keeps the queue of a dead handle and drops exactly the queue of a live one;
      callbacks and errors that wait, and the processing flag, survive either way. */
  lemma ReconnectKeepsOutcomes(s: Local, ok: bool)
    ensures var s' := ReconnectPass(s, ok);
      var lost := if s.h.connected then s.h.queue else [];
      && s'.h == s.h.(queue := if s.h.connected then [] else s.h.queue, connected := ok)
      && BooksOf(s'.trace) == PostDrops(BooksOf(s.trace), lost)
  {
    var s1, b := DisconnectPass(s), BooksOf(s.trace);
    BooksSnoc(s1.trace, Dial(false, ok));
    if s.h.connected {
      BooksDrops(s.trace, s.h.queue);
    } else {
      assert b.resolved + [] == b.resolved && b.dropped + [] == b.dropped;
      assert PostDrops(b, []) == b;
    }
  }

  // ---------- draining ----------

  /** Work that is left: two units for a query, which has still to be run and to be reported, one for an outcome. */
  function Work(h: Handle): nat { 2 * |h.queue| + |h.callbacks| + |h.errors| }

  /** With an answering server, every pass that does anything reduces the work. */
  lemma PassesReduceWork(s: Local, o: Oracle)
    requires Sound(s)
    ensures o.pingOk && WorkerPass(s, o) != s ==> Work(WorkerPass(s, o).h) < Work(s.h)
    ensures TickPass(s) != s ==> Work(TickPass(s).h) < Work(s.h)
    ensures WorkerPass(s, o) == s && TickPass(s) == s && s.h.connected ==> Work(s.h) == 0
  {
    FlagAtRest(s);
  }

  /** One sweep of the worker followed by one tick. */
  function Round(s: Local, o: Oracle): Local { TickPass(WorkerPass(s, o)) }

  function Rounds(s: Local, answers: seq<Oracle>): Local
    decreases |answers|
  {
    if answers == [] then s else Rounds(Round(s, answers[0]), answers[1..])
  }

  /** The number of rounds that the handle may still need. */
  function Debt(h: Handle): nat {
    |h.queue| + if |h.errors| < |h.callbacks| then |h.callbacks| else |h.errors|
  }

  lemma RoundIsSound(s: Local, o: Oracle)
    requires Sound(s)
    ensures Sound(Round(s, o))
  {
    WorkerPassIsSound(s, o);
    TickPassIsSound(WorkerPass(s, o));
  }

  lemma RoundPaysDebt(s: Local, o: Oracle)
    requires Sound(s) && s.h.connected && o.pingOk
    ensures Round(s, o).h.connected
    ensures Debt(s.h) > 0 ==> Debt(Round(s, o).h) < Debt(s.h)
    ensures o.failure.Some? ==> Debt(Round(s, o).h) == if Debt(s.h) == 0 then 0 else Debt(s.h) - 1
    ensures Debt(s.h) == 0 ==> Debt(Round(s, o).h) == 0
  {
    FlagAtRest(s);
  }

  /** Drain: a live handle with an answering server is empty after as many rounds as its debt, whatever the queries
      answer; and when every query fails, not one round earlier. */
  lemma {:induction false} HandleDrains(s: Local, answers: seq<Oracle>)
    requires Sound(s) && s.h.connected && forall o :: o in answers ==> o.pingOk
    ensures var h := Rounds(s, answers).h;
      && (Debt(s.h) <= |answers| ==> h.queue == [] && h.callbacks == [] && h.errors == [])
      && ((forall o :: o in answers ==> o.failure.Some?) && |answers| < Debt(s.h) ==> Work(h) > 0)
  {
    DebtAfter(s, answers);
  }

  lemma {:induction false} DebtAfter(s: Local, answers: seq<Oracle>)
    requires Sound(s) && s.h.connected && forall o :: o in answers ==> o.pingOk
    ensures var d := Debt(Rounds(s, answers).h);
      && (Debt(s.h) <= |answers| ==> d == 0)
      && ((forall o :: o in answers ==> o.failure.Some?) && |answers| < Debt(s.h) ==> d == Debt(s.h) - |answers|)
    decreases |answers|
  {
    if answers != [] {
      assert answers[0] in answers && forall o :: o in answers[1..] ==> o in answers;
      RoundIsSound(s, answers[0]);
      RoundPaysDebt(s, answers[0]);
      DebtAfter(Round(s, answers[0]), answers[1..]);
    }
  }

  // ---------- draining the whole plugin ----------

  /** One sweep of the worker over all handles. */
  function Sweep(handles: seq<Local>, answers: seq<Oracle>): (r: seq<Local>)
    requires |answers| == |handles|
    ensures |r| == |handles| && forall i :: 0 <= i < |handles| ==> r[i] == WorkerPass(handles[i], answers[i])
  {
    seq(|handles|, i requires 0 <= i < |handles| => WorkerPass(handles[i], answers[i]))
  }

  /** One tick over all handles. */
  function Tick(handles: seq<Local>): (r: seq<Local>)
    ensures |r| == |handles| && forall i :: 0 <= i < |handles| ==> r[i] == TickPass(handles[i])
  {
    seq(|handles|, i requires 0 <= i < |handles| => TickPass(handles[i]))
  }

  /** Every sweep has one answer for each handle. */
  predicate Fits(handles: seq<Local>, answers: seq<seq<Oracle>>) {
    forall k :: 0 <= k < |answers| ==> |answers[k]| == |handles|
  }

  /** Sweeps and ticks in turn. */
  function PluginRounds(handles: seq<Local>, answers: seq<seq<Oracle>>): (r: seq<Local>)
    requires Fits(handles, answers)
    ensures |r| == |handles|
    decreases |answers|
  {
    if answers == [] then handles else PluginRounds(Tick(Sweep(handles, answers[0])), answers[1..])
  }

  /** What the server answers to handle i, sweep by sweep. */
  function AnswersTo(answers: seq<seq<Oracle>>, i: nat): (r: seq<Oracle>)
    requires forall k :: 0 <= k < |answers| ==> i < |answers[k]|
    ensures |r| == |answers| && forall k :: 0 <= k < |answers| ==> r[k] == answers[k][i]
  {
    seq(|answers|, k requires 0 <= k < |answers| => answers[k][i])
  }

  lemma {:induction false} HandlesDrainAlone(handles: seq<Local>, answers: seq<seq<Oracle>>, i: nat)
    requires Fits(handles, answers) && i < |handles|
    ensures PluginRounds(handles, answers)[i] == Rounds(handles[i], AnswersTo(answers, i))
    decreases |answers|
  {
    if answers != [] {
      var next := Tick(Sweep(handles, answers[0]));
      HandlesDrainAlone(next, answers[1..], i);
      assert AnswersTo(answers, i)[1..] == AnswersTo(answers[1..], i);
    }
  }

  /** The largest debt of a handle. */
  function MaxDebt(handles: seq<Local>): (d: nat)
    ensures forall i :: 0 <= i < |handles| ==> Debt(handles[i].h) <= d
  {
    if handles == [] then 0
    else
      var rest, last := MaxDebt(handles[..|handles| - 1]), Debt(handles[|handles| - 1].h);
      assert forall i :: 0 <= i < |handles| - 1 ==> handles[i] == handles[..|handles| - 1][i];
      if rest <= last then last else rest
  }

  lemma {:induction false} MaxDebtIsOwed(handles: seq<Local>) returns (i: nat)
    requires handles != []
    ensures i < |handles| && Debt(handles[i].h) == MaxDebt(handles)
  {
    i := |handles| - 1;
    var front := handles[..i];
    if front != [] && Debt(handles[i].h) < MaxDebt(front) {
      i := MaxDebtIsOwed(front);
    }
  }

  predicate Answering(answers: seq<seq<Oracle>>) {
    forall k, i :: 0 <= k < |answers| && 0 <= i < |answers[k]| ==> answers[k][i].pingOk
  }

  predicate AllFail(answers: seq<seq<Oracle>>) {
    forall k, i :: 0 <= k < |answers| && 0 <= i < |answers[k]| ==> answers[k][i].failure.Some?
  }

  predicate Empty(h: Handle) { h.queue == [] && h.callbacks == [] && h.errors == [] }

  lemma OneHandleDrains(handles: seq<Local>, answers: seq<seq<Oracle>>, i: nat)
    requires Fits(handles, answers) && Answering(answers) && i < |handles|
    requires Sound(handles[i]) && handles[i].h.connected
    ensures var h := PluginRounds(handles, answers)[i].h;
      && (Debt(handles[i].h) <= |answers| ==> Empty(h))
      && (AllFail(answers) && |answers| < Debt(handles[i].h) ==> !Empty(h))
  {
    HandlesDrainAlone(handles, answers, i);
    var own := AnswersTo(answers, i);
    forall o | o in own ensures o.pingOk && (AllFail(answers) ==> o.failure.Some?) {
      var k :| 0 <= k < |own| && own[k] == o;
      assert o == answers[k][i];
    }
    HandleDrains(handles[i], own);
  }

  /** The plugin drains: with live handles and an answering server, every queue of every handle is empty after as many
      sweeps and ticks as the largest debt; and when every query fails, some handle still has work one round earlier. */
  lemma PluginDrains(handles: seq<Local>, answers: seq<seq<Oracle>>)
    requires Fits(handles, answers) && Answering(answers)
    requires forall i :: 0 <= i < |handles| ==> Sound(handles[i]) && handles[i].h.connected
    ensures var r := PluginRounds(handles, answers);
      && (MaxDebt(handles) <= |answers| ==> forall i :: 0 <= i < |r| ==> Empty(r[i].h))
      && (AllFail(answers) && |answers| < MaxDebt(handles) ==> exists i :: 0 <= i < |r| && !Empty(r[i].h))
  {
    var r := PluginRounds(handles, answers);
    if MaxDebt(handles) <= |answers| {
      forall i | 0 <= i < |r| ensures Empty(r[i].h) {
        OneHandleDrains(handles, answers, i);
      }
    } else if AllFail(answers) {
      var i := MaxDebtIsOwed(handles);
      OneHandleDrains(handles, answers, i);
      assert !Empty(r[i].h);
    }
  }

  // ---------- overtaking ----------

  lemma EarlierErrorsAtRest(s: Local)
    requires Sound(s) && s.h.callbacks != []
    ensures LastRan(s.trace, s.h.callbacks[0])
    ensures EarlierFaults(s.trace) == FromWorker(BooksOf(s.trace).reported) + FromWorker(s.h.errors)
  {
    var dialOk: bool, labels: seq<Label> :| s == Run(Fresh(dialOk), labels);
    CallbackOwnsTheResult(dialOk, labels);
    EarlierErrorsAreQueued(dialOk, labels);
  }

  lemma ReportedByTick(s: Local)
    ensures BooksOf(TickPass(s).trace).reported == BooksOf(s.trace).reported + (if s.h.errors == [] then [] else [s.h.errors[0]])
  {
    var s1 := ReportPass(s);
    if s.h.errors != [] {
      BooksSnoc(s.trace, Report(s.h.errors[0]));
    }
    if s.h.callbacks != [] {
      BooksSnoc(s1.trace, Deliver(s.h.callbacks[0]));
    }
  }

  /** Once the first of the queued errors is reported, those of the worker behind it are left. */
  lemma FirstIsReported(reported: seq<ErrorInfo>, errors: seq<ErrorInfo>)
    requires errors != []
    ensures FromWorker(reported) + FromWorker(errors) == FromWorker(reported + [errors[0]]) + FromWorker(errors[1..])
    ensures FromWorker(errors[1..]) == [] <==> forall i :: 1 <= i < |errors| ==> errors[i].extra.Some?
  {
    var rest := errors[1..];
    assert reported + errors == (reported + [errors[0]]) + rest;
    FromWorkerConcat(reported, errors);
    FromWorkerConcat(reported + [errors[0]], rest);
    NoneFromWorker(rest);
    assert forall i :: 1 <= i < |errors| ==> errors[i] == rest[i - 1];
  }

  lemma LeftBehind(earlier: seq<ErrorInfo>, reported: seq<ErrorInfo>, errors: seq<ErrorInfo>)
    requires earlier == FromWorker(reported) + FromWorker(errors)
    ensures var after := FromWorker(reported + if errors == [] then [] else [errors[0]]);
      after <= earlier && (after != earlier <==> exists i :: 1 <= i < |errors| && errors[i].extra.None?)
  {
    if errors == [] {
      assert reported + [] == reported;
    } else {
      FirstIsReported(reported, errors);
    }
  }

  lemma LeftByTick(s: Local, earlier: seq<ErrorInfo>)
    requires earlier == FromWorker(BooksOf(s.trace).reported) + FromWorker(s.h.errors)
    ensures var after := FromWorker(BooksOf(TickPass(s).trace).reported);
      after <= earlier && (after != earlier <==> exists i :: 1 <= i < |s.h.errors| && s.h.errors[i].extra.None?)
  {
    ReportedByTick(s);
    LeftBehind(earlier, BooksOf(s.trace).reported, s.h.errors);
  }

  /** The exact rule for a tick that finds a callback waiting: it delivers q ahead of the error of a query that was
      executed before q if and only if a record of the worker stands behind the first entry of the error queue. */
  lemma TickOvertakesExactly(s: Local)
    requires Sound(s) && s.h.callbacks != []
    ensures var s' := TickPass(s); var q := s.h.callbacks[0];
      && s'.trace != [] && s'.trace[|s'.trace| - 1] == Deliver(q) && LastRan(s.trace, q)
      && FromWorker(BooksOf(s'.trace).reported) <= EarlierFaults(s.trace)
      && (FromWorker(BooksOf(s'.trace).reported) != EarlierFaults(s.trace)
          <==> exists i :: 1 <= i < |s.h.errors| && s.h.errors[i].extra.None?)
  {
    EarlierErrorsAtRest(s);
    LeftByTick(s, EarlierFaults(s.trace));
  }

  // ---------- what does not hold ----------

  function Submitted3(a: MainInfo, b: MainInfo, c: MainInfo): Local {
    SubmitPass(SubmitPass(SubmitPass(Fresh(true), a), b), c)
  }

  /** Errors, unlike successes, can be overtaken: two queries fail and a third one succeeds before the next tick; the
      tick then delivers the third while the error of the second still waits. */
  lemma ErrorsCanBeOvertaken(a: MainInfo, b: MainInfo, c: MainInfo, f: Failure)
    ensures var fail, ok := Oracle(true, Some(f), true), Oracle(true, None, true);
      var s := TickPass(WorkerPass(WorkerPass(WorkerPass(Submitted3(a, b, c), fail), fail), ok));
      && s.trace == [Dial(false, true), Submit(a), Submit(b), Submit(c),
          Exec(a, Some(f)), Raise(WorkerError(a, f)), Exec(b, Some(f)), Raise(WorkerError(b, f)), Exec(c, None),
          Report(WorkerError(a, f)), Deliver(c)]
      && s.h.errors == [WorkerError(b, f)]
  {
    var fail, ok := Oracle(true, Some(f), true), Oracle(true, None, true);
    var s0 := Submitted3(a, b, c);
    assert s0.h.queue == [a, b, c];
    var s1 := WorkerPass(s0, fail);
    assert s1.h.queue == [b, c];
    var s2 := WorkerPass(s1, fail);
    assert s2.h.queue == [c] && s2.h.errors == [WorkerError(a, f), WorkerError(b, f)];
    var s3 := WorkerPass(s2, ok);
  }

  /** A synchronous query between an execution and its callback takes the result away: the callback of q is next, but
      the last statement on the connection is not q. */
  lemma SyncQueryTakesTheResult(q: MainInfo, text: string)
    ensures var ok := Oracle(true, None, true);
      var s := SyncPass(WorkerPass(SubmitPass(Fresh(true), q), ok), text, None);
      && s.h.callbacks == [q]
      && s.trace == [Dial(false, true), Submit(q), Exec(q, None), Sync(text, None)]
      && LastWhere(s.trace, WorkerAct) == 2 && LastWhere(s.trace, Statement) == 3
  {
    var s := SyncPass(WorkerPass(SubmitPass(Fresh(true), q), Oracle(true, None, true)), text, None);
    assert s.trace[..3] == [Dial(false, true), Submit(q), Exec(q, None)];
  }
}
