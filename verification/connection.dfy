// How the natives that give up and open connections interleave with the worker. Only the clearing of a queue takes the
// mutex; the tests of m_bIsConnected and the dialling do not.

module Connections {
  import opened Options
  import opened Trace
  import opened Pipeline
  import opened Guarantees
  import opened Passes

  /** The worker is in a call of the library on the connection: a ping, a statement, the discarding of a result, a dial. */
  predicate Uses(w: WorkerPc) { w.Ping? || w.RunQuery? || w.MarkLost? || w.Redial? }

  /** A native is about to replace the connection that the worker is using. */
  predicate Meets(s: Local) { s.native.DialAgain? && Uses(s.worker) }

  predicate NoBegin(labels: seq<Label>) { forall l :: l in labels ==> !l.Begin? }

  /** A native begun after some steps of the two loops can come to meet the worker, with no other native in between. */
  ghost predicate CanMeet(s: Local, c: Command) {
    exists before: seq<Label>, during: seq<Label> ::
      LoopsOnly(before) && NoBegin(during) && Meets(Run(s, before + [Begin(c)] + during))
  }

  // ---------- when they cannot meet ----------

  predicate NoSubmission(labels: seq<Label>) { forall l :: l in labels && l.Begin? ==> !l.c.ThreadedQuery? }

  lemma EmptyStep(s: Local, l: Label)
    requires s.h.queue == [] && !s.native.Enqueue? && (l.Begin? ==> !l.c.ThreadedQuery?)
    ensures Next(s, l).h.queue == [] && !Next(s, l).native.Enqueue?
  {
  }

  lemma {:induction false} EmptyStaysEmpty(s: Local, labels: seq<Label>)
    requires s.h.queue == [] && !s.native.Enqueue? && NoSubmission(labels)
    ensures Run(s, labels).h.queue == [] && !Run(s, labels).native.Enqueue?
  {
    if labels != [] {
      var front, l := labels[..|labels| - 1], labels[|labels| - 1];
      assert l in labels && forall l' :: l' in front ==> l' in labels;
      EmptyStaysEmpty(s, front);
      EmptyStep(Run(s, front), l);
    }
  }

  lemma MeetingNeedsAQueue(s: Local, labels: seq<Label>)
    requires Reachable(s) && s.h.queue == [] && !s.native.Enqueue? && NoSubmission(labels)
    ensures !Meets(Run(s, labels))
  {
    EmptyStaysEmpty(s, labels);
    RunIsReachable(s, labels);
    ReachableInv(Run(s, labels));
  }

  /** Whenever a native meets the worker, there are queries waiting. */
  lemma MeetingHasAQueue(s: Local)
    requires Reachable(s) && Meets(s)
    ensures s.h.queue != []
  {
    ReachableInv(s);
  }

  /** A native has not yet dialled a handle that is down, or has finished. */
  predicate DialPending(s: Local) {
    s.native.Idle? || (Down(s) && (s.native.ReadLive? || s.native.ForceDown? || s.native.DialAgain?))
  }

  lemma DialStep(s: Local, l: Label)
    requires DialPending(s) && !l.Begin?
    ensures DialPending(Next(s, l))
  {
  }

  lemma {:induction false} DialStaysPending(s: Local, labels: seq<Label>)
    requires DialPending(s) && NoBegin(labels)
    ensures DialPending(Run(s, labels))
  {
    if labels != [] {
      var front, l := labels[..|labels| - 1], labels[|labels| - 1];
      assert l in labels && forall l' :: l' in front ==> l' in labels;
      DialStaysPending(s, front);
      DialStep(Run(s, front), l);
    }
  }

  lemma MeetingNeedsALiveHandle(s: Local, c: Command, before: seq<Label>, during: seq<Label>)
    requires Down(s) && s.native.Idle? && (c.Connect? || c.Reconnect?) && LoopsOnly(before) && NoBegin(during)
    ensures !Meets(Run(s, before + [Begin(c)] + during))
  {
    QueueIsFrozenWhileDown(s, before);
    RunSnoc(s, before, Begin(c));
    RunConcat(s, before + [Begin(c)], during);
    DialStaysPending(Run(s, before + [Begin(c)]), during);
  }

  // ---------- when they can ----------

  /** The worker on a ready handle, up to its dial after a failed ping. */
  lemma LosingIsMoves(s: Local, o: Oracle, n: nat)
    requires s.worker.Away? && Ready(s.h) && !o.pingOk
    ensures Moves(s, WorkerStep(o), n + 7) == Moves(s.(worker := Redial, h := s.h.(connected := false)), WorkerStep(o), n)
  {
    ApproachIsMoves(s, o, n + 2);
    var l, s0 := WorkerStep(o), s.(worker := Ping);
    var s1 := Next(s0, l);
    assert Moves(s0, l, n + 2) == Moves(s1, l, n + 1) == Moves(Next(s1, l), l, n);
  }

  lemma LosingIsRun(s: Local, o: Oracle, n: nat)
    requires s.worker.Away? && Ready(s.h) && !o.pingOk && n == 0
    ensures Run(s, Repeat(WorkerStep(o), n + 7)) == s.(worker := Redial, h := s.h.(connected := false))
  {
    LosingIsMoves(s, o, n);
    MovesAreRuns(s, WorkerStep(o), n + 7);
  }

  /** The steps of the native until it is about to dial a handle that is down. */
  function Dialling(c: Command, o: Oracle): seq<Label> {
    if c.Connect? then [NativeStep(o)] else [NativeStep(o), NativeStep(o)]
  }

  lemma DiallingIsRun(s: Local, c: Command, o: Oracle)
    requires !s.h.connected && s.native.Idle? && s.tick.Off? && (c.Connect? || c.Reconnect?)
    ensures Run(s, [Begin(c)] + Dialling(c, o)) == s.(native := DialAgain)
  {
    var l := NativeStep(o);
    RunSnoc(s, [], Begin(c));
    RunSnoc(s, [Begin(c)], l);
    RunSnoc(s, [Begin(c), l], l);
    assert [] + [Begin(c)] == [Begin(c)] && [Begin(c)] + [l] == [Begin(c), l] && [Begin(c), l] + [l] == [Begin(c), l, l];
    assert [Begin(c)] + Dialling(c, o) == if c.Connect? then [Begin(c), l] else [Begin(c), l, l];
  }

  /** A live handle with a queue gets ready when the tick has delivered the callback that may still wait. */
  lemma TickMakesReady(s: Local)
    requires Sound(s) && s.h.queue != [] && s.h.connected
    ensures AtRest(TickPass(s)) && Ready(TickPass(s).h)
  {
    FlagAtRest(s);
  }

  lemma ReadyLoses(s: Local, before: seq<Label>, r: Local, o: Oracle)
    requires r == Run(s, before) && r.worker.Away? && Ready(r.h) && !o.pingOk
    ensures Run(s, before + Repeat(WorkerStep(o), 7)) == r.(worker := Redial, h := r.h.(connected := false))
  {
    LosingIsRun(r, o, 0);
    RunConcat(s, before, Repeat(WorkerStep(o), 0 + 7));
  }

  /** The run to a meeting, from a handle that `before` has led to and that is ready. */
  lemma ReadyMeets(s: Local, before: seq<Label>, r: Local, c: Command, o: Oracle)
    requires r == Run(s, before) && AtRest(r) && Ready(r.h) && !o.pingOk && (c.Connect? || c.Reconnect?)
    ensures Meets(Run(s, before + Repeat(WorkerStep(o), 7) + [Begin(c)] + Dialling(c, o)))
  {
    var works, dials := Repeat(WorkerStep(o), 7), [Begin(c)] + Dialling(c, o);
    ReadyLoses(s, before, r, o);
    DiallingIsRun(Run(s, before + works), c, o);
    RunConcat(s, before + works, dials);
    assert (before + works) + dials == before + works + [Begin(c)] + Dialling(c, o);
  }

  lemma LiveQueueCanMeet(s: Local, c: Command)
    requires Sound(s) && s.h.queue != [] && s.h.connected && (c.Connect? || c.Reconnect?)
    ensures CanMeet(s, c)
  {
    var o := Oracle(false, None, true);
    var ticks := Repeat(TickStep, TickLength(s.h));
    TickMakesReady(s);
    TickPassIsRun(s);
    ReadyMeets(s, ticks, TickPass(s), c, o);
    var before, during := ticks + Repeat(WorkerStep(o), 7), Dialling(c, o);
    assert LoopsOnly(before) && NoBegin(during);
  }

  /** A mysql_connect that finds the handle, or a mysql_reconnect, can come to replace the connection while the worker is
      using it if and only if the handle was live and had queries waiting. */
  lemma NativesMeetTheWorkerExactly(s: Local, c: Command)
    requires Sound(s) && (c.Connect? || c.Reconnect?)
    ensures CanMeet(s, c) <==> s.h.connected && s.h.queue != []
  {
    if s.h.connected && s.h.queue != [] {
      LiveQueueCanMeet(s, c);
    } else {
      forall before: seq<Label>, during: seq<Label> | LoopsOnly(before) && NoBegin(during)
        ensures !Meets(Run(s, before + [Begin(c)] + during))
      {
        if s.h.queue == [] {
          MeetingNeedsAQueue(s, before + [Begin(c)] + during);
        } else {
          MeetingNeedsALiveHandle(s, c, before, during);
        }
      }
    }
  }

  // ---------- what can happen on a handle that is down ----------

  /** Any ready handle whose ping and dial fail while a native of the game thread has just begun. */
  lemma LostDuring(s: Local, c: Command, o: Oracle, n: NativePc)
    requires Sound(s) && Ready(s.h) && Next(s, Begin(c)) == s.(native := n) && !o.pingOk && !o.dialOk
    ensures Reachable(Log(s, Dial(true, false)).(native := n, h := s.h.(connected := false)))
  {
    var s1 := s.(native := n);
    NextIsReachable(s, Begin(c));
    WorkerPassIsRun(s1, o);
    RunIsReachable(s1, Repeat(WorkerStep(o), WorkerLength(s1.h, o)));
  }

  /** A query can still join the queue of a handle that is down: its native had passed its test and waited for the mutex. */
  lemma QueryJoinsADeadHandle(s: Local, q: MainInfo) returns (s': Local)
    requires Sound(s) && Ready(s.h)
    ensures Reachable(s') && Down(s') && s'.worker.Away? && s'.h.queue == s.h.queue
    ensures forall o: Oracle :: Next(s', NativeStep(o)).h.queue == s.h.queue + [q]
  {
    var o := Oracle(false, None, false);
    LostDuring(s, ThreadedQuery(q), o, Enqueue(q));
    s' := Log(s, Dial(true, false)).(native := Enqueue(q), h := s.h.(connected := false));
  }

  /** A reconnect can drop the queue of a handle that is down: the handle was still live when the reconnect tested it. */
  lemma ReconnectClearsADeadHandle(s: Local) returns (s': Local)
    requires Sound(s) && Ready(s.h)
    ensures Reachable(s') && Down(s') && s'.worker.Away? && s'.h.queue == s.h.queue
    ensures forall o: Oracle :: Next(s', NativeStep(o)).trace == s'.trace + Drops(s.h.queue)
  {
    var o := Oracle(false, None, false);
    var s1, s2 := s.(native := ReadLive), s.(native := ClearQueue);
    NextIsReachable(s, Begin(Reconnect));
    NextIsReachable(s1, NativeStep(o));
    WorkerPassIsRun(s2, o);
    RunIsReachable(s2, Repeat(WorkerStep(o), WorkerLength(s2.h, o)));
    s' := WorkerPass(s2, o);
  }

  // ---------- synchronous queries ----------

  /** The worker has not got past its test of m_bNonThreadedQuery. */
  predicate BeforeSyncTest(w: WorkerPc) {
    w.Away? || w.ReadQueue? || w.ReadConnected? || w.ReadProcessing? || w.ReadNonThreaded?
  }

  lemma HeldOffStep(s: Local, l: Label)
    requires s.h.nonThreaded && BeforeSyncTest(s.worker) && (l.WorkerStep? || l.TickStep?)
    ensures var s' := Next(s, l);
      s'.h.nonThreaded && BeforeSyncTest(s'.worker) && s'.h.queue == s.h.queue && OnlyCalls(s.trace, s'.trace)
  {
  }

  /** While a synchronous query is marked, a worker that has not got past its test of the mark neither pings nor executes
      nor dials on this handle, however often the two loops come by. */
  lemma {:induction false} SyncHoldsTheWorkerOff(s: Local, labels: seq<Label>)
    requires s.h.nonThreaded && BeforeSyncTest(s.worker) && LoopsOnly(labels)
    ensures var s' := Run(s, labels);
      && s'.h.nonThreaded && BeforeSyncTest(s'.worker) && !Uses(s'.worker)
      && s'.h.queue == s.h.queue && OnlyCalls(s.trace, s'.trace)
  {
    if labels != [] {
      var front, l := labels[..|labels| - 1], labels[|labels| - 1];
      assert l in labels && forall l' :: l' in front ==> l' in labels;
      SyncHoldsTheWorkerOff(s, front);
      HeldOffStep(Run(s, front), l);
    }
  }

  /** The mark is up exactly while the synchronous query is on its way, in every reachable state. */
  lemma MarkTracksTheSyncQuery(s: Local)
    requires Reachable(s)
    ensures s.h.nonThreaded <==> s.native.RunSync? || s.native.LowerSync? || s.native.FailSync?
  {
    ReachableInv(s);
  }

  /** Every statement of the game thread on a live handle is in the history, rejected or not, and a change of the
      character set queues nothing. */
  lemma StatementsAreSeen(s: Local, text: string, o: Oracle)
    requires AtRest(s) && s.h.connected
    ensures s.trace + [Sync(text, o.failure)] <= SyncPass(s, text, o.failure).trace
    ensures Next(Next(s, Begin(SetCharset(text))), NativeStep(o)) == s.(trace := s.trace + [Charset(text)])
  {
  }

  /** A worker that finds the connection of a ready handle lost dials once, and keeps the queue. */
  lemma LostConnectionIsDialled(s: Local, o: Oracle)
    requires Ready(s.h) && !o.pingOk
    ensures WorkerPass(s, o) == s.(trace := s.trace + [Dial(true, o.dialOk)], h := s.h.(connected := o.dialOk))
  {
  }

  // ---------- a meeting during a statement ----------

  /** A mysql_connect can be about to replace the connection while the worker is sending a query on it. */
  lemma ConnectMeetsTheWorker(q: MainInfo) returns (s: Local)
    ensures Reachable(s) && s.native.DialAgain? && s.worker == RunQuery(q) && !s.h.connected
  {
    var s1 := SendsOnTheConnection(q);
    var s2 := Next(s1, Begin(Connect));
    NextIsReachable(s1, Begin(Connect));
    var l := NativeStep(Oracle(true, None, true));
    NextIsReachable(s2, l);
    s := Next(s2, l);
  }

  /** The worker on its way to send q, with the game thread idle. */
  lemma SendsOnTheConnection(q: MainInfo) returns (s: Local)
    ensures Reachable(s) && s.tick.Off? && s.native.Idle? && s.worker == RunQuery(q)
  {
    var o := Oracle(true, None, true);
    FreshIsReachable(true);
    var s0 := SubmitPass(Fresh(true), q);
    SubmitPassIsRun(Fresh(true), q, o);
    RunIsReachable(Fresh(true), NativeRun(ThreadedQuery(q), o, 1));
    assert Ready(s0.h) && s0.h.queue[0] == q;
    SendingIsRun(s0, o, 0);
    RunIsReachable(s0, Repeat(WorkerStep(o), 8));
    s := Run(s0, Repeat(WorkerStep(o), 8));
  }

  /** The worker on a ready handle, up to its statement. */
  lemma SendingIsMoves(s: Local, o: Oracle, n: nat)
    requires s.worker.Away? && Ready(s.h) && o.pingOk
    ensures Moves(s, WorkerStep(o), n + 8)
      == Moves(s.(worker := RunQuery(s.h.queue[0]), h := s.h.(processing := true)), WorkerStep(o), n)
  {
    ApproachIsMoves(s, o, n + 3);
    CommitIsMoves(s.(worker := Ping), o, n);
  }

  lemma SendingIsRun(s: Local, o: Oracle, n: nat)
    requires s.worker.Away? && Ready(s.h) && o.pingOk
    ensures Run(s, Repeat(WorkerStep(o), n + 8))
      == Moves(s.(worker := RunQuery(s.h.queue[0]), h := s.h.(processing := true)), WorkerStep(o), n)
  {
    SendingIsMoves(s, o, n);
    MovesAreRuns(s, WorkerStep(o), n + 8);
  }
}
