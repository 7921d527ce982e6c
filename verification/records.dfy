// What the error records say, and what the scripts are told of them.

module Records {
  import opened Options
  import opened Trace
  import opened Pipeline
  import opened Guarantees
  import opened Passes

  /** The record says which query failed, what the server reported, and whom to tell; it has no extra id. */
  predicate Describes(e: ErrorInfo, q: MainInfo, f: Failure) {
    && e.query == q.query && e.result == q.result && e.callback == q.callback
    && e.error == f.text && e.errorId == f.id && e.extra == None
  }

  /** The record of a synchronous query, which has no callback and no ids of its own. */
  predicate DescribesSync(e: ErrorInfo, text: string, f: Failure) {
    && e.query == text && e.callback == "NULL" && e.result == -1 && e.extra == Some(-1)
    && e.error == f.text && e.errorId == f.id
  }

  // ---------- one pass ----------

  /** The worker on a ready handle whose query is rejected: one record more, which describes the front of the queue. */
  lemma RejectedQueryIsRecorded(s: Local, o: Oracle)
    requires Ready(s.h) && o.pingOk && o.failure.Some?
    ensures var errors := WorkerPass(s, o).h.errors;
      && |errors| == |s.h.errors| + 1 && errors[..|s.h.errors|] == s.h.errors
      && Describes(errors[|s.h.errors|], s.h.queue[0], o.failure.value)
  {
  }

  /** A synchronous query that is rejected. */
  lemma RejectedSyncIsRecorded(s: Local, text: string, f: Failure)
    requires s.h.connected
    ensures var errors := SyncPass(s, text, Some(f)).h.errors;
      && |errors| == |s.h.errors| + 1 && errors[..|s.h.errors|] == s.h.errors
      && DescribesSync(errors[|s.h.errors|], text, f)
  {
  }

  // ---------- all runs ----------

  datatype Rejected = Rejected(q: MainInfo, f: Failure)

  datatype SyncRejected = SyncRejected(text: string, f: Failure)

  /** The executions of the worker that the server has rejected, oldest first. */
  function Rejections(trace: seq<Event>): seq<Rejected> {
    if trace == [] then []
    else
      var e := trace[|trace| - 1];
      Rejections(trace[..|trace| - 1]) + if e.Exec? && e.failure.Some? then [Rejected(e.q, e.failure.value)] else []
  }

  function SyncRejections(trace: seq<Event>): seq<SyncRejected> {
    if trace == [] then []
    else
      var e := trace[|trace| - 1];
      SyncRejections(trace[..|trace| - 1])
      + if e.Sync? && e.failure.Some? then [SyncRejected(e.text, e.failure.value)] else []
  }

  predicate DescribeAll(records: seq<ErrorInfo>, rejected: seq<Rejected>) {
    |records| <= |rejected| && forall k :: 0 <= k < |records| ==> Describes(records[k], rejected[k].q, rejected[k].f)
  }

  predicate DescribeAllSync(records: seq<ErrorInfo>, rejected: seq<SyncRejected>) {
    |records| <= |rejected| && forall k :: 0 <= k < |records| ==> DescribesSync(records[k], rejected[k].text, rejected[k].f)
  }

  lemma {:induction false} FaultsDescribe(trace: seq<Event>)
    ensures var b := BooksOf(trace);
      |b.workerFaults| == |Rejections(trace)| && DescribeAll(b.workerFaults, Rejections(trace))
  {
    if trace != [] {
      FaultsDescribe(trace[..|trace| - 1]);
    }
  }

  lemma {:induction false} SyncFaultsDescribe(trace: seq<Event>)
    ensures var b := BooksOf(trace);
      |b.syncFaults| == |SyncRejections(trace)| && DescribeAllSync(b.syncFaults, SyncRejections(trace))
  {
    if trace != [] {
      SyncFaultsDescribe(trace[..|trace| - 1]);
    }
  }

  /** The records of the game thread among `errors`. */
  function FromGame(errors: seq<ErrorInfo>): seq<ErrorInfo> {
    if errors == [] then []
    else
      var last := errors[|errors| - 1];
      FromGame(errors[..|errors| - 1]) + if last.extra.Some? then [last] else []
  }

  lemma {:induction false} RaisedByGame(trace: seq<Event>)
    ensures BooksOf(trace).syncRaised == FromGame(BooksOf(trace).raised)
  {
    if trace != [] {
      var front, e := trace[..|trace| - 1], trace[|trace| - 1];
      RaisedByGame(front);
      if e.Raise? {
        assert (BooksOf(front).raised + [e.e])[..|BooksOf(front).raised|] == BooksOf(front).raised;
      }
    }
  }

  lemma {:induction false} FromGameConcat(a: seq<ErrorInfo>, b: seq<ErrorInfo>)
    ensures FromGame(a) <= FromGame(a + b)
  {
    if b == [] {
      assert a + b == a;
    } else {
      FromGameConcat(a, b[..|b| - 1]);
      assert (a + b)[..|a + b| - 1] == a + b[..|b| - 1];
    }
  }

  /** In every run the k-th record of the worker describes the k-th rejected query and its error, and every rejected query
      has its record, but for the one that the worker is about to queue. The same holds of the game thread. */
  lemma RecordsDescribeRejections(dialOk: bool, labels: seq<Label>)
    ensures var s := Run(Fresh(dialOk), labels); var raised := BooksOf(s.trace).raised;
      && DescribeAll(FromWorker(raised), Rejections(s.trace))
      && |Rejections(s.trace)| == |FromWorker(raised)| + (if s.worker.PushError? then 1 else 0)
      && DescribeAllSync(FromGame(raised), SyncRejections(s.trace))
      && |SyncRejections(s.trace)| == |FromGame(raised)| + (if s.native.FailSync? || s.native.PushSync? then 1 else 0)
  {
    FreshInv(dialOk);
    RunKeepsInv(Fresh(dialOk), labels);
    var s := Run(Fresh(dialOk), labels);
    FaultsDescribe(s.trace);
    SyncFaultsDescribe(s.trace);
    RaisedByWorker(s.trace);
    RaisedByGame(s.trace);
  }

  /** What the scripts have been told: the k-th record of the worker that OnQueryError was called with describes the k-th
      rejected query; and so for the synchronous queries. */
  lemma ReportsDescribeRejections(dialOk: bool, labels: seq<Label>)
    ensures var s := Run(Fresh(dialOk), labels); var reported := BooksOf(s.trace).reported;
      && DescribeAll(FromWorker(reported), Rejections(s.trace))
      && DescribeAllSync(FromGame(reported), SyncRejections(s.trace))
  {
    RecordsDescribeRejections(dialOk, labels);
    OutcomesAreConserved(dialOk, labels);
    var s := Run(Fresh(dialOk), labels);
    var reported := BooksOf(s.trace).reported;
    FromWorkerConcat(reported, Unreported(s));
    FromGameConcat(reported, Unreported(s));
    FirstRecords(FromWorker(reported), FromWorker(BooksOf(s.trace).raised), Rejections(s.trace));
    FirstSyncRecords(FromGame(reported), FromGame(BooksOf(s.trace).raised), SyncRejections(s.trace));
  }

  lemma FirstRecords(some: seq<ErrorInfo>, all: seq<ErrorInfo>, rejected: seq<Rejected>)
    requires some <= all && DescribeAll(all, rejected)
    ensures DescribeAll(some, rejected)
  {
    assert forall k :: 0 <= k < |some| ==> some[k] == all[k];
  }

  lemma FirstSyncRecords(some: seq<ErrorInfo>, all: seq<ErrorInfo>, rejected: seq<SyncRejected>)
    requires some <= all && DescribeAllSync(all, rejected)
    ensures DescribeAllSync(some, rejected)
  {
    assert forall k :: 0 <= k < |some| ==> some[k] == all[k];
  }
}
