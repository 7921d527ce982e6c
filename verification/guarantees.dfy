// What the pipeline guarantees about one handle, in every run: no interleaving loses, repeats or reorders a query.

module Guarantees {
  import opened Options
  import opened Trace
  import opened Pipeline

  // ---------- subsequences ----------

  /** `a` can be obtained from `b` by deleting entries. */
  predicate Subsequence<T(==)>(a: seq<T>, b: seq<T>) {
    if a == [] then true
    else if b == [] then false
    else if a[|a| - 1] == b[|b| - 1] then Subsequence(a[..|a| - 1], b[..|b| - 1])
    else Subsequence(a, b[..|b| - 1])
  }

  lemma {:induction false} SubsequenceSkip<T>(a: seq<T>, b: seq<T>, x: T)
    requires Subsequence(a, b)
    ensures Subsequence(a, b + [x])
    decreases |a| + |b|, 1
  {
    assert (b + [x])[..|b|] == b;
    if a != [] && a[|a| - 1] == x {
      // matching the last entry of `a` to x is no worse than the match it had
      SubsequenceShorter(a, b);
    }
  }

  lemma {:induction false} SubsequenceShorter<T>(a: seq<T>, b: seq<T>)
    requires a != [] && Subsequence(a, b)
    ensures Subsequence(a[..|a| - 1], b)
    decreases |a| + |b|, 0
  {
    var front := b[..|b| - 1];
    assert b == front + [b[|b| - 1]];
    if a[|a| - 1] == b[|b| - 1] {
      SubsequenceSkip(a[..|a| - 1], front, b[|b| - 1]);
    } else {
      SubsequenceShorter(a, front);
      SubsequenceSkip(a[..|a| - 1], front, b[|b| - 1]);
    }
  }

  lemma SubsequenceTake<T>(a: seq<T>, b: seq<T>, x: T)
    requires Subsequence(a, b)
    ensures Subsequence(a + [x], b + [x])
  {
    assert (a + [x])[..|a|] == a && (b + [x])[..|b|] == b;
  }

  lemma {:induction false} SubsequenceSuffix<T>(a: seq<T>, b: seq<T>, tail: seq<T>)
    requires Subsequence(a, b)
    ensures Subsequence(a + tail, b + tail)
  {
    if tail == [] {
      assert a + tail == a && b + tail == b;
    } else {
      var front, last := tail[..|tail| - 1], tail[|tail| - 1];
      SubsequenceSuffix(a, b, front);
      SubsequenceTake(a + front, b + front, last);
      assert a + tail == (a + front) + [last] && b + tail == (b + front) + [last];
    }
  }

  // ---------- conservation ----------

  /** What left the queue is what was executed and what was dropped, order kept. */
  predicate Splits(b: Books) {
    && Subsequence(b.executed, b.resolved)
    && multiset(b.resolved) == multiset(b.executed) + multiset(b.dropped)
  }

  lemma PostKeepsOrder(b: Books, e: Event)
    requires Subsequence(b.executed, b.resolved)
    ensures Subsequence(Post(b, e).executed, Post(b, e).resolved)
  {
    match e
    case Exec(q, _) => SubsequenceTake(b.executed, b.resolved, q);
    case Drop(q) => SubsequenceSkip(b.executed, b.resolved, q);
    case _ =>
  }

  /** Adding one entry to a list and to one of its two parts. */
  lemma CountOneMore<T>(whole: seq<T>, part: seq<T>, other: seq<T>, x: T)
    requires multiset(whole) == multiset(part) + multiset(other)
    ensures multiset(whole + [x]) == multiset(part + [x]) + multiset(other)
  {
  }

  lemma PostKeepsCounts(b: Books, e: Event)
    requires multiset(b.resolved) == multiset(b.executed) + multiset(b.dropped)
    ensures multiset(Post(b, e).resolved) == multiset(Post(b, e).executed) + multiset(Post(b, e).dropped)
  {
    if e.Exec? {
      CountOneMore(b.resolved, b.executed, b.dropped, e.q);
    } else if e.Drop? {
      CountOneMore(b.resolved, b.dropped, b.executed, e.q);
    }
  }

  lemma {:induction false} ResolvedSplits(trace: seq<Event>)
    ensures Splits(BooksOf(trace))
  {
    if trace != [] {
      ResolvedSplits(trace[..|trace| - 1]);
      PostKeepsOrder(BooksOf(trace[..|trace| - 1]), trace[|trace| - 1]);
      PostKeepsCounts(BooksOf(trace[..|trace| - 1]), trace[|trace| - 1]);
    }
  }

  /** Conservation and order of threaded queries, in every reachable state: the submitted queries are exactly the
      resolved ones followed by the waiting ones; the resolved ones are the executed and the dropped ones; so
      executed followed by waiting is the submission order with the dropped ones deleted. */
  lemma QueriesAreConserved(dialOk: bool, labels: seq<Label>)
    ensures var s := Run(Fresh(dialOk), labels); var b := BooksOf(s.trace);
      && b.submitted == b.resolved + Waiting(s)
      && multiset(b.submitted) == multiset(b.executed) + multiset(b.dropped) + multiset(Waiting(s))
      && Subsequence(b.executed + Waiting(s), b.submitted)
  {
    FreshInv(dialOk);
    RunKeepsInv(Fresh(dialOk), labels);
    var s := Run(Fresh(dialOk), labels);
    ResolvedSplits(s.trace);
    SubsequenceSuffix(BooksOf(s.trace).executed, BooksOf(s.trace).resolved, Waiting(s));
  }

  /** Every success reaches its script once and in order, with at most one on its way; every error record is
      reported in the order it was queued, and the records are exactly those that the failed commands owe. */
  lemma OutcomesAreConserved(dialOk: bool, labels: seq<Label>)
    ensures var s := Run(Fresh(dialOk), labels); var b := BooksOf(s.trace);
      && b.succeeded == b.delivered + Undelivered(s) && |Undelivered(s)| <= 1
      && b.raised == b.reported + Unreported(s)
      && (!s.worker.PushError? ==> b.workerFaults == b.workerRaised)
      && (s.native.Idle? ==> b.syncFaults == b.syncRaised)
  {
    FreshInv(dialOk);
    RunKeepsInv(Fresh(dialOk), labels);
  }

  /** The handshake on m_bQueryProcessing in every reachable state. */
  lemma FlagTracksTheCallback(dialOk: bool, labels: seq<Label>)
    ensures var s := Run(Fresh(dialOk), labels);
      && |s.h.callbacks| <= 1
      && (s.h.processing <==> WorkerHolds(s.worker) || s.h.callbacks != [] || s.tick.LowerFlag?)
      && (WorkerHolds(s.worker) ==> s.h.callbacks == [] && !s.tick.LowerFlag?)
  {
    FreshInv(dialOk);
    RunKeepsInv(Fresh(dialOk), labels);
  }

  // ---------- overtaking ----------

  lemma {:induction false} PacePrefix(trace: seq<Event>, p: nat)
    requires WellPaced(trace) && p <= |trace|
    ensures WellPaced(trace[..p])
    ensures p < |trace| ==> PacedBy(BooksOf(trace[..p]), trace[p])
  {
    if p < |trace| - 1 {
      PacePrefix(trace[..|trace| - 1], p);
      assert trace[..|trace| - 1][..p] == trace[..p];
    } else if p == |trace| {
      assert trace[..p] == trace;
    }
  }

  lemma BooksStep(trace: seq<Event>, p: nat)
    requires p < |trace|
    ensures BooksOf(trace[..p + 1]) == Post(BooksOf(trace[..p]), trace[p])
  {
    assert trace[..p + 1] == trace[..p] + [trace[p]];
    BooksSnoc(trace[..p], trace[p]);
  }

  lemma SameEntry<T>(a: seq<T>, x: T, y: T)
    requires a + [x] == a + [y]
    ensures x == y
  {
    assert (a + [x])[|a|] == (a + [y])[|a|];
  }

  /** After p events, q is the one success that waits for its callback. */
  predicate WaitsAt(trace: seq<Event>, p: nat, q: MainInfo)
    requires p <= |trace|
  {
    BooksOf(trace[..p]).succeeded == BooksOf(trace[..p]).delivered + [q]
  }

  lemma StartsToWait(trace: seq<Event>, p: nat)
    requires WellPaced(trace) && p < |trace| && trace[p].Exec? && trace[p].failure.None?
    ensures WaitsAt(trace, p + 1, trace[p].q)
  {
    PacePrefix(trace, p);
    BooksStep(trace, p);
  }

  /** While q waits, the next event is the delivery of q, or none of the worker's acts and q waits on. */
  lemma WaitsOn(trace: seq<Event>, p: nat, q: MainInfo)
    requires WellPaced(trace) && p < |trace| && WaitsAt(trace, p, q)
    ensures !WorkerAct(trace[p])
    ensures trace[p] == Deliver(q) || (!trace[p].Deliver? && WaitsAt(trace, p + 1, q))
  {
    var b := BooksOf(trace[..p]);
    PacePrefix(trace, p);
    assert !Settled(b);
    BooksStep(trace, p);
    if trace[p].Deliver? {
      SameEntry(b.delivered, q, trace[p].q);
    }
  }

  /** From a position at which q waits to its delivery, if the worker acts again later. */
  lemma {:induction false} WaitsUntilDelivered(trace: seq<Event>, p: nat, q: MainInfo, next: nat) returns (d: nat)
    requires WellPaced(trace) && p <= next < |trace| && WaitsAt(trace, p, q) && WorkerAct(trace[next])
    ensures p <= d < next && trace[d] == Deliver(q) && forall j :: p <= j <= d ==> !WorkerAct(trace[j])
    decreases next - p
  {
    WaitsOn(trace, p, q);
    d := p;
    if trace[p] != Deliver(q) {
      d := WaitsUntilDelivered(trace, p + 1, q, next);
    }
  }

  /** A success is never overtaken: once q has succeeded, the worker executes nothing and dials nothing on this
      handle before the callback of q has been called. */
  lemma DeliveredBeforeNextAct(trace: seq<Event>, e: nat, next: nat) returns (d: nat)
    requires WellPaced(trace) && e < next < |trace|
    requires trace[e].Exec? && trace[e].failure.None? && WorkerAct(trace[next])
    ensures e < d < next && trace[d] == Deliver(trace[e].q)
    ensures forall j :: e < j < d ==> !WorkerAct(trace[j])
  {
    StartsToWait(trace, e);
    d := WaitsUntilDelivered(trace, e + 1, trace[e].q, next);
  }

  /** The rule over all runs of the machine. */
  lemma SuccessIsNotOvertaken(dialOk: bool, labels: seq<Label>, e: nat, next: nat) returns (d: nat)
    requires var trace := Run(Fresh(dialOk), labels).trace;
      e < next < |trace| && trace[e].Exec? && trace[e].failure.None? && WorkerAct(trace[next])
    ensures var trace := Run(Fresh(dialOk), labels).trace;
      e < d < next && trace[d] == Deliver(trace[e].q) && forall j :: e < j < d ==> !WorkerAct(trace[j])
  {
    FreshInv(dialOk);
    RunKeepsInv(Fresh(dialOk), labels);
    d := DeliveredBeforeNextAct(Run(Fresh(dialOk), labels).trace, e, next);
  }

  // ---------- result ownership ----------

  /** A command that changes which result mysql_store_result would return on the connection. */
  predicate Statement(e: Event) { e.Exec? || e.Sync? || e.Charset? || e.Dial? }

  predicate GameStatement(e: Event) { Statement(e) && !WorkerAct(e) }

  /** The position of the last event that satisfies `pick`, or -1. */
  function LastWhere(trace: seq<Event>, pick: Event -> bool): (k: int)
    ensures -1 <= k < |trace|
    ensures k >= 0 ==> pick(trace[k])
    ensures forall j :: k < j < |trace| ==> !pick(trace[j])
  {
    if trace == [] then -1
    else if pick(trace[|trace| - 1]) then |trace| - 1
    else LastWhere(trace[..|trace| - 1], pick)
  }

  /** The last thing the worker did on the connection was to execute `q` successfully. */
  predicate LastRan(trace: seq<Event>, q: MainInfo) {
    var k := LastWhere(trace, WorkerAct);
    k >= 0 && trace[k] == Exec(q, None)
  }

  lemma LastRanSnoc(trace: seq<Event>, e: Event, q: MainInfo)
    ensures !WorkerAct(e) && LastRan(trace, q) ==> LastRan(trace + [e], q)
    ensures e == Exec(q, None) ==> LastRan(trace + [e], q)
  {
    assert (trace + [e])[..|trace|] == trace;
  }

  lemma {:induction false} LastRanDrops(trace: seq<Event>, queue: seq<MainInfo>, q: MainInfo)
    requires LastRan(trace, q)
    ensures LastRan(trace + Drops(queue), q)
  {
    if queue == [] {
      assert trace + Drops(queue) == trace;
    } else {
      var front, last := queue[..|queue| - 1], queue[|queue| - 1];
      LastRanDrops(trace, front, q);
      LastRanSnoc(trace + Drops(front), Drop(last), q);
      assert trace + Drops(queue) == (trace + Drops(front)) + [Drop(last)];
    }
  }

  /** Whoever waits in the callback queue, or is about to enter it, is what the worker ran last. */
  predicate Owns(s: Local) {
    && (s.worker.PushCallback? ==> LastRan(s.trace, s.worker.q))
    && (s.h.callbacks != [] ==> LastRan(s.trace, s.h.callbacks[0]))
  }

  lemma WorkerKeepsOwns(s: Local, o: Oracle)
    requires Control(s) && Owns(s)
    ensures Owns(WorkerNext(s, o))
  {
    if s.worker.RunQuery? {
      LastRanSnoc(s.trace, Exec(s.worker.q, o.failure), s.worker.q);
    } else if s.h.callbacks != [] && s.worker.PushError? {
      assert false;
    }
  }

  /** Every step but a clearing adds at most one event to the history. It is never a drop, and it is an act of the worker
      only if the worker steps. */
  lemma AtMostOneEvent(s: Local, l: Label)
    requires !(l.NativeStep? && s.native.ClearQueue?)
    ensures var t, n := Next(s, l).trace, |s.trace|;
      t == s.trace || (|t| == n + 1 && t[..n] == s.trace && !t[n].Drop? && (WorkerAct(t[n]) ==> l.WorkerStep?))
  {
  }

  /** Ownership survives whatever is no act of the worker and lets no callback in. */
  lemma OwnsSurvives(s: Local, s': Local)
    requires Owns(s) && s'.worker == s.worker && (s'.h.callbacks == s.h.callbacks || s'.h.callbacks == [])
    requires var t, n := s'.trace, |s.trace|;
      t == s.trace || (|t| == n + 1 && t[..n] == s.trace && !WorkerAct(t[n]))
    ensures Owns(s')
  {
    if s'.trace != s.trace {
      var e := s'.trace[|s.trace|];
      assert s'.trace == s.trace + [e];
      if s.worker.PushCallback? {
        LastRanSnoc(s.trace, e, s.worker.q);
      }
      if s.h.callbacks != [] {
        LastRanSnoc(s.trace, e, s.h.callbacks[0]);
      }
    }
  }

  lemma TickKeepsOwns(s: Local)
    requires Control(s) && Owns(s)
    ensures Owns(TickNext(s))
  {
    AtMostOneEvent(s, TickStep);
    OwnsSurvives(s, TickNext(s));
  }

  lemma ClearQueueKeepsOwns(s: Local, o: Oracle)
    requires Control(s) && Owns(s) && s.native.ClearQueue?
    ensures Owns(NativeNext(s, o))
  {
    if s.worker.Away? && s.h.callbacks != [] {
      LastRanDrops(s.trace, s.h.queue, s.h.callbacks[0]);
    }
  }

  lemma NativeKeepsOwns(s: Local, o: Oracle)
    requires Control(s) && Owns(s)
    ensures Owns(NativeNext(s, o))
  {
    if s.native.ClearQueue? {
      ClearQueueKeepsOwns(s, o);
    } else {
      AtMostOneEvent(s, NativeStep(o));
      NativeOnlyAdds(s, o);
      OwnsSurvives(s, NativeNext(s, o));
    }
  }

  lemma NextKeepsOwns(s: Local, l: Label)
    requires Control(s) && Owns(s)
    ensures Owns(Next(s, l))
  {
    match l
    case WorkerStep(o) => WorkerKeepsOwns(s, o);
    case TickStep => TickKeepsOwns(s);
    case Begin(c) =>
    case NativeStep(o) => NativeKeepsOwns(s, o);
  }

  lemma {:induction false} RunKeepsOwns(s: Local, labels: seq<Label>)
    requires Inv(s) && Owns(s)
    ensures Owns(Run(s, labels))
  {
    if labels != [] {
      RunKeepsOwns(s, labels[..|labels| - 1]);
      RunKeepsInv(s, labels[..|labels| - 1]);
      NextKeepsOwns(Run(s, labels[..|labels| - 1]), labels[|labels| - 1]);
    }
  }

  /** The last statement on the connection is the successful execution of q. */
  predicate HasResult(trace: seq<Event>, q: MainInfo) {
    var last := LastWhere(trace, Statement);
    last >= 0 && trace[last] == Exec(q, None)
  }

  /** No statement of the game thread after position k. */
  predicate GameKeptOff(trace: seq<Event>, k: int) {
    forall j :: 0 <= j && k < j < |trace| ==> !GameStatement(trace[j])
  }

  lemma StatementsAfter(trace: seq<Event>, q: MainInfo)
    requires LastRan(trace, q)
    ensures HasResult(trace, q) <==> GameKeptOff(trace, LastWhere(trace, WorkerAct))
  {
    var ran, last := LastWhere(trace, WorkerAct), LastWhere(trace, Statement);
    assert Statement(trace[ran]);
    if last > ran {
      assert GameStatement(trace[last]);
    }
  }

  /** Result ownership. While a callback waits or runs, the last act of the worker on the connection was to execute its
      query q successfully. So the last statement on the connection is the execution of q, and mysql_store_result
      returns the result of q, if and only if the game thread sent no statement and opened no connection on the handle
      since that execution. */
  lemma CallbackOwnsTheResult(dialOk: bool, labels: seq<Label>)
    requires Run(Fresh(dialOk), labels).h.callbacks != []
    ensures var s := Run(Fresh(dialOk), labels);
      && LastRan(s.trace, s.h.callbacks[0])
      && (HasResult(s.trace, s.h.callbacks[0]) <==> GameKeptOff(s.trace, LastWhere(s.trace, WorkerAct)))
  {
    FreshInv(dialOk);
    RunKeepsInv(Fresh(dialOk), labels);
    RunKeepsOwns(Fresh(dialOk), labels);
    var s := Run(Fresh(dialOk), labels);
    StatementsAfter(s.trace, s.h.callbacks[0]);
  }

  // ---------- errors that are overtaken ----------

  /** The records of the worker among `errors`. */
  function FromWorker(errors: seq<ErrorInfo>): seq<ErrorInfo> {
    if errors == [] then []
    else
      var last := errors[|errors| - 1];
      FromWorker(errors[..|errors| - 1]) + if last.extra.None? then [last] else []
  }

  lemma {:induction false} NoneFromWorker(errors: seq<ErrorInfo>)
    ensures FromWorker(errors) == [] <==> forall i :: 0 <= i < |errors| ==> errors[i].extra.Some?
  {
    if errors != [] {
      NoneFromWorker(errors[..|errors| - 1]);
    }
  }

  lemma FromWorkerSnoc(a: seq<ErrorInfo>, e: ErrorInfo)
    ensures FromWorker(a + [e]) == FromWorker(a) + if e.extra.None? then [e] else []
  {
    assert (a + [e])[..|a|] == a;
  }

  lemma {:induction false} FromWorkerConcat(a: seq<ErrorInfo>, b: seq<ErrorInfo>)
    ensures FromWorker(a + b) == FromWorker(a) + FromWorker(b)
  {
    if b == [] {
      assert a + b == a;
    } else {
      var front, last := b[..|b| - 1], b[|b| - 1];
      FromWorkerConcat(a, front);
      FromWorkerSnoc(a + front, last);
      assert a + b == (a + front) + [last];
      var x := if last.extra.None? then [last] else [];
      assert (FromWorker(a) + FromWorker(front)) + x == FromWorker(a) + (FromWorker(front) + x);
    }
  }

  lemma {:induction false} RaisedByWorker(trace: seq<Event>)
    ensures BooksOf(trace).workerRaised == FromWorker(BooksOf(trace).raised)
  {
    if trace != [] {
      var front, e := trace[..|trace| - 1], trace[|trace| - 1];
      RaisedByWorker(front);
      if e.Raise? {
        FromWorkerSnoc(BooksOf(front).raised, e.e);
      }
    }
  }

  /** Without a further act of the worker, no further record becomes due. */
  lemma {:induction false} FaultsStay(trace: seq<Event>, k: nat)
    requires k <= |trace| && forall j :: k <= j < |trace| ==> !WorkerAct(trace[j])
    ensures BooksOf(trace).workerFaults == BooksOf(trace[..k]).workerFaults
  {
    if k == |trace| {
      assert trace[..k] == trace;
    } else {
      var front := trace[..|trace| - 1];
      FaultsStay(front, k);
      assert front[..k] == trace[..k];
    }
  }

  /** The records owed for the queries that the worker executed before its last act. */
  function EarlierFaults(trace: seq<Event>): seq<ErrorInfo> {
    var ran := LastWhere(trace, WorkerAct);
    if ran < 0 then [] else BooksOf(trace[..ran]).workerFaults
  }

  lemma LastRanFaults(trace: seq<Event>, q: MainInfo)
    requires LastRan(trace, q)
    ensures EarlierFaults(trace) == BooksOf(trace).workerFaults
  {
    var ran := LastWhere(trace, WorkerAct);
    FaultsStay(trace, ran + 1);
    BooksStep(trace, ran);
  }

  /** While a callback waits, the failures of the queries executed before its own are, in order, the worker records
      already reported followed by the worker records still queued. */
  lemma EarlierErrorsAreQueued(dialOk: bool, labels: seq<Label>)
    requires Run(Fresh(dialOk), labels).h.callbacks != []
    ensures var s := Run(Fresh(dialOk), labels);
      EarlierFaults(s.trace) == FromWorker(BooksOf(s.trace).reported) + FromWorker(Unreported(s))
  {
    FreshInv(dialOk);
    RunKeepsInv(Fresh(dialOk), labels);
    RunKeepsOwns(Fresh(dialOk), labels);
    var s := Run(Fresh(dialOk), labels);
    LastRanFaults(s.trace, s.h.callbacks[0]);
    RaisedByWorker(s.trace);
    FromWorkerConcat(BooksOf(s.trace).reported, Unreported(s));
  }

  /** The exact rule for errors. When the tick is about to call the scripts for q, the worker has executed q last, and
      some failure of an earlier query has not been reported if and only if a record of the worker is still queued. */
  lemma ErrorsAreOvertakenExactly(dialOk: bool, labels: seq<Label>)
    requires Run(Fresh(dialOk), labels).tick.CallScript?
    ensures var s := Run(Fresh(dialOk), labels);
      && LastRan(s.trace, s.tick.q)
      && FromWorker(BooksOf(s.trace).reported) <= EarlierFaults(s.trace)
      && (FromWorker(BooksOf(s.trace).reported) != EarlierFaults(s.trace)
          <==> exists i :: 0 <= i < |Unreported(s)| && Unreported(s)[i].extra.None?)
  {
    FreshInv(dialOk);
    RunKeepsInv(Fresh(dialOk), labels);
    RunKeepsOwns(Fresh(dialOk), labels);
    EarlierErrorsAreQueued(dialOk, labels);
    NoneFromWorker(Unreported(Run(Fresh(dialOk), labels)));
  }

  // ---------- a lost connection ----------

  /** Steps of the two loops only: the script issues no native. */
  predicate LoopsOnly(labels: seq<Label>) {
    forall l :: l in labels ==> l.WorkerStep? || l.TickStep?
  }

  /** The worker has not got past its test of m_bIsConnected. */
  predicate BeforeLiveTest(w: WorkerPc) { w.Away? || w.ReadQueue? || w.ReadConnected? }

  /** Down, and not about to be redialled. */
  predicate Down(s: Local) { !s.h.connected && BeforeLiveTest(s.worker) }

  /** The later history continues the earlier one with calls into the scripts only. */
  predicate OnlyCalls(earlier: seq<Event>, later: seq<Event>) {
    && earlier <= later
    && forall j :: |earlier| <= j < |later| ==> later[j].Report? || later[j].Deliver?
  }

  /** A native on its way to a new connection. */
  predicate Redialling(n: NativePc) { n.ReadLive? || n.ClearQueue? || n.HangUp? || n.ForceDown? || n.DialAgain? }

  predicate NoRedial(labels: seq<Label>) { Begin(Reconnect) !in labels && Begin(Connect) !in labels }

  /** The later history continues the earlier one without executing, dropping or dialling anything. */
  predicate NothingResolved(earlier: seq<Event>, later: seq<Event>) {
    && earlier <= later
    && forall j :: |earlier| <= j < |later| ==> !later[j].Exec? && !later[j].Drop? && !later[j].Dial?
  }

  /** The query of a native that was waiting to enqueue it, once it has done so. */
  function Joined(before: NativePc, after: NativePc): seq<MainInfo> {
    if before.Enqueue? && !after.Enqueue? then [before.q] else []
  }

  lemma StepWhileDown(s: Local, l: Label)
    requires Down(s) && !Redialling(s.native) && l != Begin(Reconnect) && l != Begin(Connect)
    ensures var s' := Next(s, l);
      && Down(s') && !Redialling(s'.native) && NothingResolved(s.trace, s'.trace)
      && s'.h.queue == s.h.queue + Joined(s.native, s'.native) && (s'.native.Enqueue? ==> s'.native == s.native)
  {
  }

  lemma IdleStepWhileDown(s: Local, l: Label)
    requires Down(s) && s.native.Idle? && l != Begin(Reconnect) && l != Begin(Connect)
    ensures Next(s, l).native.Idle? && OnlyCalls(s.trace, Next(s, l).trace)
  {
  }

  /** The exact rule for a handle that is down, until a native dials it again: it stays down and nothing of it is
      executed, dropped or dialled, whatever else the scripts issue. Its queue stays as it is, except for the one query of
      a native that had passed its test of m_bIsConnected before the connection was lost and still waits for the mutex. */
  lemma {:induction false} QueueWhileDown(s: Local, labels: seq<Label>)
    requires Down(s) && !Redialling(s.native) && NoRedial(labels)
    ensures var s' := Run(s, labels);
      && Down(s') && !Redialling(s'.native) && NothingResolved(s.trace, s'.trace)
      && s'.h.queue == s.h.queue + Joined(s.native, s'.native) && (s'.native.Enqueue? ==> s'.native == s.native)
  {
    if labels != [] {
      var front, l := labels[..|labels| - 1], labels[|labels| - 1];
      assert l in labels && forall l' :: l' in front ==> l' in labels;
      QueueWhileDown(s, front);
      StepWhileDown(Run(s, front), l);
    }
  }

  /** If no native is running when the handle is down, the queue is frozen, and all that happens to the handle is that
      outcomes which wait already reach the scripts. */
  lemma {:induction false} QueueIsFrozenWhileDown(s: Local, labels: seq<Label>)
    requires Down(s) && s.native.Idle? && NoRedial(labels)
    ensures var s' := Run(s, labels);
      Down(s') && s'.native.Idle? && s'.h.queue == s.h.queue && OnlyCalls(s.trace, s'.trace)
  {
    QueueWhileDown(s, labels);
    if labels != [] {
      var front, l := labels[..|labels| - 1], labels[|labels| - 1];
      assert l in labels && forall l' :: l' in front ==> l' in labels;
      QueueIsFrozenWhileDown(s, front);
      IdleStepWhileDown(Run(s, front), l);
    }
  }

  // ---------- what drops a query ----------

  /** mysql_reconnect is on its way to clearing the queue. */
  predicate Clearing(n: NativePc) { n.ReadLive? || n.ClearQueue? }

  lemma EventDropsNothing(earlier: seq<Event>, later: seq<Event>)
    requires |later| == |earlier| + 1 && later[..|earlier|] == earlier && !later[|earlier|].Drop?
    ensures BooksOf(later).dropped == BooksOf(earlier).dropped
  {
    BooksSnoc(earlier, later[|earlier|]);
    assert later == earlier + [later[|earlier|]];
  }

  lemma StaysUnclearing(s: Local, l: Label)
    requires !Clearing(s.native) && l != Begin(Reconnect)
    ensures !Clearing(Next(s, l).native)
  {
  }

  /** A step drops the whole queue if it is the clearing of a reconnect that has the mutex, and nothing otherwise. */
  predicate Clears(s: Local, l: Label) { l.NativeStep? && s.native.ClearQueue? && s.worker.Away? }

  lemma StepDrops(s: Local, l: Label)
    ensures BooksOf(Next(s, l).trace).dropped == BooksOf(s.trace).dropped + if Clears(s, l) then s.h.queue else []
  {
    if Clears(s, l) {
      BooksDrops(s.trace, s.h.queue);
    } else if !(l.NativeStep? && s.native.ClearQueue?) {
      AtMostOneEvent(s, l);
      if Next(s, l).trace != s.trace {
        EventDropsNothing(s.trace, Next(s, l).trace);
      }
    }
  }

  /** Only mysql_reconnect drops queries: no failed ping, redial, mysql_connect or failing query does, in any
      interleaving. */
  lemma {:induction false} OnlyReconnectDrops(s: Local, labels: seq<Label>)
    requires !Clearing(s.native) && Begin(Reconnect) !in labels
    ensures var s' := Run(s, labels); !Clearing(s'.native) && BooksOf(s'.trace).dropped == BooksOf(s.trace).dropped
  {
    if labels != [] {
      var front, l := labels[..|labels| - 1], labels[|labels| - 1];
      assert l in labels && forall l' :: l' in front ==> l' in labels;
      OnlyReconnectDrops(s, front);
      StepDrops(Run(s, front), l);
      StaysUnclearing(Run(s, front), l);
    }
  }

  /** What a reconnect has done so far: the position of the step that made its live test and what the test saw, the
      position of its clearing and the queue it found there; -1 stands for not yet. */
  datatype Reconnection = Reconnection(test: int, live: bool, clear: int, found: seq<MainInfo>)

  /** How far the reconnect is. */
  predicate Phase(n: NativePc, r: Reconnection) {
    && (if r.test < 0 then n.ReadLive? else if r.live && r.clear < 0 then n.ClearQueue? else !Clearing(n))
    && (r.clear >= 0 ==> r.test >= 0 && r.live)
  }

  /** How far it is, and what has been dropped since it began with `before` dropped. */
  ghost predicate Stage(s: Local, before: seq<MainInfo>, r: Reconnection) {
    Phase(s.native, r) && BooksOf(s.trace).dropped == before + if r.clear < 0 then [] else r.found
  }

  function Advanced(r: Reconnection, s: Local, l: Label, k: nat): Reconnection {
    if l.NativeStep? && s.native.ReadLive? then r.(test := k, live := s.h.connected)
    else if Clears(s, l) then r.(clear := k, found := s.h.queue)
    else r
  }

  lemma StageStep(s: Local, before: seq<MainInfo>, r: Reconnection, l: Label, k: nat)
    requires Stage(s, before, r) && l != Begin(Reconnect)
    ensures Stage(Next(s, l), before, Advanced(r, s, l, k))
  {
    StepDrops(s, l);
    PhaseStep(s, r, l, k);
    if Clears(s, l) {
      assert before + [] == before;
    }
  }

  lemma PhaseStep(s: Local, r: Reconnection, l: Label, k: nat)
    requires Phase(s.native, r) && l != Begin(Reconnect)
    ensures Phase(Next(s, l).native, Advanced(r, s, l, k))
  {
    if !Clearing(s.native) {
      StaysUnclearing(s, l);
    }
  }

  /** The positions are what they are said to be, in the run of `labels` from s. */
  predicate Positioned(s: Local, labels: seq<Label>, r: Reconnection) {
    && r.test < |labels| && r.clear < |labels| && (r.clear >= 0 ==> r.test < r.clear)
    && (r.test >= 0 ==>
          var at := Run(s, labels[..r.test]);
          labels[r.test].NativeStep? && at.native.ReadLive? && at.h.connected == r.live)
    && (r.clear >= 0 ==> var at := Run(s, labels[..r.clear]); Clears(at, labels[r.clear]) && at.h.queue == r.found)
  }

  lemma PositionedStep(s: Local, front: seq<Label>, l: Label, r: Reconnection)
    requires Positioned(s, front, r) && Stage(Run(s, front), BooksOf(s.trace).dropped, r)
    ensures Positioned(s, front + [l], Advanced(r, Run(s, front), l, |front|))
  {
    var labels := front + [l];
    assert labels[..|front|] == front && labels[|front|] == l;
    assert r.test >= 0 ==> labels[..r.test] == front[..r.test] && labels[r.test] == front[r.test];
    assert r.clear >= 0 ==> labels[..r.clear] == front[..r.clear] && labels[r.clear] == front[r.clear];
  }

  /** A reconnect, over every interleaving. What it drops is exactly the queue that it finds when it clears; and it comes
      to clear if and only if its test of m_bIsConnected, some steps before, saw a live handle. */
  lemma {:induction false} ReconnectDropsExactly(s: Local, labels: seq<Label>) returns (r: Reconnection)
    requires s.native.ReadLive? && Begin(Reconnect) !in labels
    ensures Positioned(s, labels, r) && Stage(Run(s, labels), BooksOf(s.trace).dropped, r)
  {
    if labels == [] {
      r := Reconnection(-1, false, -1, []);
    } else {
      var front, l := labels[..|labels| - 1], labels[|labels| - 1];
      assert front + [l] == labels && l in labels && forall l' :: l' in front ==> l' in labels;
      r := ReconnectDropsExactly(s, front);
      StageStep(Run(s, front), BooksOf(s.trace).dropped, r, l, |front|);
      PositionedStep(s, front, l, r);
      r := Advanced(r, Run(s, front), l, |front|);
    }
  }

  lemma {:induction false} WithoutDrops(trace: seq<Event>)
    requires BooksOf(trace).dropped == []
    ensures BooksOf(trace).executed == BooksOf(trace).resolved
  {
    if trace != [] {
      WithoutDrops(trace[..|trace| - 1]);
    }
  }

  /** Retention over connection loss: as long as no script asks for a reconnect, whatever happens to the connection, the
      submitted queries are exactly the executed ones followed by the waiting ones. */
  lemma QueriesAreRetained(dialOk: bool, labels: seq<Label>)
    requires Begin(Reconnect) !in labels
    ensures var s := Run(Fresh(dialOk), labels); var b := BooksOf(s.trace);
      b.dropped == [] && b.submitted == b.executed + Waiting(s)
  {
    OnlyReconnectDrops(Fresh(dialOk), labels);
    var e := Dial(false, dialOk);
    BooksSnoc([], e);
    assert [] + [e] == [e];
    WithoutDrops(Run(Fresh(dialOk), labels).trace);
    QueriesAreConserved(dialOk, labels);
  }

  // ---------- closing and opening connections ----------

  /** The worker is not at work on the connection, nor on its way to it. */
  predicate Clear(w: WorkerPc) { w.Away? || w.ReadQueue? }

  /** A native that has cleared the queue of this handle has the connection to itself until it has closed it. */
  predicate HangUpIsAlone(s: Local) { s.native.HangUp? ==> s.h.queue == [] && Clear(s.worker) }

  lemma NextKeepsAlone(s: Local, l: Label)
    requires Control(s) && HangUpIsAlone(s)
    ensures HangUpIsAlone(Next(s, l))
  {
  }

  /** A disconnect never closes a connection that the worker is using. */
  lemma {:induction false} DisconnectIsAlone(dialOk: bool, labels: seq<Label>)
    ensures HangUpIsAlone(Run(Fresh(dialOk), labels))
  {
    if labels != [] {
      var front := labels[..|labels| - 1];
      DisconnectIsAlone(dialOk, front);
      FreshInv(dialOk);
      RunKeepsInv(Fresh(dialOk), front);
      NextKeepsAlone(Run(Fresh(dialOk), front), labels[|labels| - 1]);
    }
  }
}
