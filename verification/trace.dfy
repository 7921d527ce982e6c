// Entries of the three per-handle queues, and the history of one connection handle.

module Options {
  datatype Option<+T> = None | Some(value: T)
}

module Trace {
  import opened Options

  /** CMySQLHandler::mainInfo: a threaded query together with the callback it asks for. */
  datatype MainInfo = MainInfo(query: string, result: int, extra: int, callback: string)

  /** What mysql_errno and mysql_error report after a failed command. */
  datatype Failure = Failure(id: int, text: string)

  /** CMySQLHandler::errorInfo. The worker never assigns the extra id of its records, which is `None` here. */
  datatype ErrorInfo = ErrorInfo(query: string, error: string, errorId: int, result: int, extra: Option<int>, callback: string)

  /** The record that the worker queues when the server rejects `q`. */
  function WorkerError(q: MainInfo, f: Failure): ErrorInfo {
    ErrorInfo(q.query, f.text, f.id, q.result, None, q.callback)
  }

  /** The record that a rejected synchronous query queues. */
  function SyncError(text: string, f: Failure): ErrorInfo {
    ErrorInfo(text, f.text, f.id, -1, Some(-1), "NULL")
  }

  /** Everything that happens to one handle and that an outside observer could write down. */
  datatype Event =
    | Submit(q: MainInfo)                            // a threaded query enters the queue
    | Exec(q: MainInfo, failure: Option<Failure>)    // the worker sends q to the server
    | Drop(q: MainInfo)                              // a disconnect discards q
    | Raise(e: ErrorInfo)                            // an error record is queued
    | Report(e: ErrorInfo)                           // OnQueryError is called
    | Deliver(q: MainInfo)                           // the callback of q is called
    | Sync(text: string, failure: Option<Failure>)   // the game thread sends a statement itself
    | Charset(name: string)                          // the game thread sends a SET NAMES statement
    | Dial(byWorker: bool, ok: bool)                 // the connection is replaced

  /** The books an observer keeps: what has entered, left and failed so far, each list oldest first. */
  datatype Books = Books(
    submitted: seq<MainInfo>,     // threaded queries that entered the queue
    resolved: seq<MainInfo>,      // those executed or dropped
    executed: seq<MainInfo>,
    dropped: seq<MainInfo>,
    succeeded: seq<MainInfo>,     // executed without an error
    delivered: seq<MainInfo>,     // their callback has been called
    raised: seq<ErrorInfo>,       // error records queued
    reported: seq<ErrorInfo>,     // error records passed to OnQueryError
    workerFaults: seq<ErrorInfo>, // the record owed for each failed execution
    workerRaised: seq<ErrorInfo>, // records queued by the worker
    syncFaults: seq<ErrorInfo>,   // the record owed for each failed synchronous query
    syncRaised: seq<ErrorInfo>)   // records queued by the game thread

  const NOTHING := Books([], [], [], [], [], [], [], [], [], [], [], [])

  function Post(b: Books, e: Event): Books {
    match e
    case Submit(q) => b.(submitted := b.submitted + [q])
    case Exec(q, failure) =>
      var b' := b.(resolved := b.resolved + [q], executed := b.executed + [q]);
      if failure.None? then b'.(succeeded := b.succeeded + [q])
      else b'.(workerFaults := b.workerFaults + [WorkerError(q, failure.value)])
    case Drop(q) => b.(resolved := b.resolved + [q], dropped := b.dropped + [q])
    case Raise(r) =>
      var b' := b.(raised := b.raised + [r]);
      if r.extra.None? then b'.(workerRaised := b.workerRaised + [r]) else b'.(syncRaised := b.syncRaised + [r])
    case Report(r) => b.(reported := b.reported + [r])
    case Deliver(q) => b.(delivered := b.delivered + [q])
    case Sync(text, failure) =>
      if failure.None? then b else b.(syncFaults := b.syncFaults + [SyncError(text, failure.value)])
    case Charset(_) => b
    case Dial(_, _) => b
  }

  function BooksOf(trace: seq<Event>): Books {
    if trace == [] then NOTHING else Post(BooksOf(trace[..|trace| - 1]), trace[|trace| - 1])
  }

  lemma BooksSnoc(trace: seq<Event>, e: Event)
    ensures BooksOf(trace + [e]) == Post(BooksOf(trace), e)
  {
    assert (trace + [e])[..|trace|] == trace;
  }

  /** The events of discarding a whole queue, front first. */
  function Drops(queue: seq<MainInfo>): seq<Event> {
    if queue == [] then [] else Drops(queue[..|queue| - 1]) + [Drop(queue[|queue| - 1])]
  }

  function PostDrops(b: Books, queue: seq<MainInfo>): Books {
    b.(resolved := b.resolved + queue, dropped := b.dropped + queue)
  }

  lemma PostDropsSnoc(b: Books, front: seq<MainInfo>, last: MainInfo)
    ensures Post(PostDrops(b, front), Drop(last)) == PostDrops(b, front + [last])
  {
    assert (b.resolved + front) + [last] == b.resolved + (front + [last]);
    assert (b.dropped + front) + [last] == b.dropped + (front + [last]);
  }

  lemma {:induction false} BooksDrops(trace: seq<Event>, queue: seq<MainInfo>)
    ensures BooksOf(trace + Drops(queue)) == PostDrops(BooksOf(trace), queue)
  {
    if queue == [] {
      assert trace + Drops(queue) == trace;
    } else {
      var front, last := queue[..|queue| - 1], queue[|queue| - 1];
      assert trace + Drops(queue) == (trace + Drops(front)) + [Drop(last)];
      BooksSnoc(trace + Drops(front), Drop(last));
      BooksDrops(trace, front);
      PostDropsSnoc(BooksOf(trace), front, last);
      assert front + [last] == queue;
    }
  }

  // ---------- the pace of the worker ----------

  /** Nothing executed successfully is still waiting for its callback. */
  predicate Settled(b: Books) { b.succeeded == b.delivered }

  /** An action of the worker on the connection: a query, or a dial after a failed ping. */
  predicate WorkerAct(e: Event) { e.Exec? || (e.Dial? && e.byWorker) }

  /** The rule that ties the worker's actions to the deliveries: it acts only when nothing waits,
      and a delivery is always of the single success that waits. */
  predicate PacedBy(before: Books, e: Event) {
    && (WorkerAct(e) ==> Settled(before))
    && (e.Deliver? ==> before.succeeded == before.delivered + [e.q])
  }

  predicate WellPaced(trace: seq<Event>) {
    trace == []
    || (WellPaced(trace[..|trace| - 1]) && PacedBy(BooksOf(trace[..|trace| - 1]), trace[|trace| - 1]))
  }

  lemma WellPacedSnoc(trace: seq<Event>, e: Event)
    requires WellPaced(trace) && PacedBy(BooksOf(trace), e)
    ensures WellPaced(trace + [e])
  {
    assert (trace + [e])[..|trace|] == trace;
  }

  lemma {:induction false} WellPacedDrops(trace: seq<Event>, queue: seq<MainInfo>)
    requires WellPaced(trace)
    ensures WellPaced(trace + Drops(queue))
  {
    if queue == [] {
      assert trace + Drops(queue) == trace;
    } else {
      var front, last := queue[..|queue| - 1], queue[|queue| - 1];
      WellPacedDrops(trace, front);
      WellPacedSnoc(trace + Drops(front), Drop(last));
      assert trace + Drops(queue) == (trace + Drops(front)) + [Drop(last)];
    }
  }
}
