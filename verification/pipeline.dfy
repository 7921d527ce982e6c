// The threaded-query pipeline of one connection handle, one atomic access at a time.
//
// Three actors touch a handle: the worker thread (ProcessQueryThread, under the mutex), the delivery loop of
// the game thread (ProcessTick, without the mutex) and the natives that the game thread runs, either between
// ticks or from inside a script callback. Each actor has a program counter; every read of a flag, every queue
// operation and every command to the server is a step of its own, and the steps interleave freely, except that
// the game thread is a single thread and that the worker holds the mutex during its whole sweep.

module Pipeline {
  import opened Options
  import opened Trace

  /** The queues and flags of CMySQLHandler. */
  datatype Handle = Handle(
    queue: seq<MainInfo>, callbacks: seq<MainInfo>, errors: seq<ErrorInfo>,
    connected: bool, processing: bool, nonThreaded: bool)

  /** Where the worker is in its iteration over this handle. */
  datatype WorkerPc =
    | Away
    | ReadQueue | ReadConnected | ReadProcessing | ReadNonThreaded
    | Ping
    | CopyFront | SetFlag(q: MainInfo) | RunQuery(q: MainInfo)
    | PushCallback(q: MainInfo)
    | PushError(q: MainInfo, e: ErrorInfo) | ClearFlag(q: MainInfo)
    | PopQueue(q: MainInfo)
    | MarkLost | Redial

  /** Where ProcessTick is in its iteration over this handle. In ErrorReturn and CallbackReturn the scripts
      have been called, and natives may run. */
  datatype TickPc =
    | Off
    | ReadErrors | CallError(e: ErrorInfo) | ErrorReturn | PopError
    | ReadCallbacks | CallScript(q: MainInfo) | CallbackReturn | PopCallback | LowerFlag

  /** Where a native of the game thread is, if one runs on this handle. */
  datatype NativePc =
    | Idle
    | Enqueue(q: MainInfo)
    | RaiseSync(text: string) | RunSync(text: string) | LowerSync
    | FailSync(text: string, f: Failure) | PushSync(text: string, f: Failure)
    | RunCharset(name: string)
    | ReadLive | ClearQueue | HangUp | ForceDown | DialAgain

  datatype Local = Local(h: Handle, worker: WorkerPc, tick: TickPc, native: NativePc, trace: seq<Event>)

  /** What the server answers: to a ping, to a statement, to a connection attempt. */
  datatype Oracle = Oracle(pingOk: bool, failure: Option<Failure>, dialOk: bool)

  /** The natives that act on the pipeline; Connect is a mysql_connect that finds this handle. SetCharset, unlike
      SyncQuery, marks nothing and queues no error. */
  datatype Command = ThreadedQuery(q: MainInfo) | SyncQuery(text: string) | SetCharset(name: string) | Reconnect | Connect

  datatype Label = WorkerStep(o: Oracle) | TickStep | Begin(c: Command) | NativeStep(o: Oracle)

  function Log(s: Local, e: Event): Local { s.(trace := s.trace + [e]) }

  /** CMySQLHandler::Connect: returns at once on a live handle, otherwise asks the server. */
  function Dialled(s: Local, byWorker: bool, ok: bool): Local {
    if s.h.connected then s else Log(s, Dial(byWorker, ok)).(h := s.h.(connected := ok))
  }

  function WorkerNext(s: Local, o: Oracle): Local {
    match s.worker
    case Away => s.(worker := ReadQueue)
    case ReadQueue => s.(worker := if s.h.queue != [] then ReadConnected else Away)
    case ReadConnected => s.(worker := if s.h.connected then ReadProcessing else Away)
    case ReadProcessing => s.(worker := if s.h.processing then Away else ReadNonThreaded)
    case ReadNonThreaded => s.(worker := if s.h.nonThreaded then Away else Ping)
    case Ping => s.(worker := if o.pingOk then CopyFront else MarkLost)
    case CopyFront => if s.h.queue == [] then s else s.(worker := SetFlag(s.h.queue[0]))
    case SetFlag(q) => s.(worker := RunQuery(q), h := s.h.(processing := true))
    case RunQuery(q) =>
      var next := if o.failure.None? then PushCallback(q) else PushError(q, WorkerError(q, o.failure.value));
      Log(s, Exec(q, o.failure)).(worker := next)
    case PushCallback(q) => s.(worker := PopQueue(q), h := s.h.(callbacks := s.h.callbacks + [q]))
    case PushError(q, e) => Log(s, Raise(e)).(worker := ClearFlag(q), h := s.h.(errors := s.h.errors + [e]))
    case ClearFlag(q) => s.(worker := PopQueue(q), h := s.h.(processing := false))
    case PopQueue(q) => if s.h.queue == [] then s else s.(worker := Away, h := s.h.(queue := s.h.queue[1..]))
    case MarkLost => s.(worker := Redial, h := s.h.(connected := false))
    case Redial => Dialled(s, true, o.dialOk).(worker := Away)
  }

  /** The delivery loop; it cannot move while a native of the same thread is running. */
  function TickNext(s: Local): Local {
    if !s.native.Idle? then s else
    match s.tick
    case Off => s.(tick := ReadErrors)
    case ReadErrors => s.(tick := if s.h.errors == [] then ReadCallbacks else CallError(s.h.errors[0]))
    case CallError(e) => Log(s, Report(e)).(tick := ErrorReturn)
    case ErrorReturn => s.(tick := PopError)
    case PopError => if s.h.errors == [] then s else s.(tick := ReadCallbacks, h := s.h.(errors := s.h.errors[1..]))
    case ReadCallbacks => s.(tick := if s.h.callbacks == [] then Off else CallScript(s.h.callbacks[0]))
    case CallScript(q) => Log(s, Deliver(q)).(tick := CallbackReturn)
    case CallbackReturn => s.(tick := PopCallback)
    case PopCallback =>
      if s.h.callbacks == [] then s else s.(tick := LowerFlag, h := s.h.(callbacks := s.h.callbacks[1..]))
    case LowerFlag => s.(tick := Off, h := s.h.(processing := false))
  }

  /** The game thread is free to run a native: between ticks, or from inside a script that the tick called. */
  predicate ScriptsRun(t: TickPc) { t.Off? || t.ErrorReturn? || t.CallbackReturn? }

  function BeginNext(s: Local, c: Command): Local {
    if !s.native.Idle? || !ScriptsRun(s.tick) then s else
    match c
    case ThreadedQuery(q) => s.(native := if s.h.connected then Enqueue(q) else Idle)
    case SyncQuery(text) => s.(native := if s.h.connected then RaiseSync(text) else Idle)
    case SetCharset(name) => s.(native := if s.h.connected then RunCharset(name) else Idle)
    case Reconnect => s.(native := ReadLive)
    case Connect => s.(native := ForceDown)
  }

  /** Enqueue and ClearQueue take the mutex, so they wait while the worker is at this handle. */
  function NativeNext(s: Local, o: Oracle): Local {
    match s.native
    case Idle => s
    case Enqueue(q) =>
      if !s.worker.Away? then s else Log(s, Submit(q)).(native := Idle, h := s.h.(queue := s.h.queue + [q]))
    case RaiseSync(text) => s.(native := RunSync(text), h := s.h.(nonThreaded := true))
    case RunSync(text) =>
      Log(s, Sync(text, o.failure)).(native := if o.failure.None? then LowerSync else FailSync(text, o.failure.value))
    case LowerSync => s.(native := Idle, h := s.h.(nonThreaded := false))
    case FailSync(text, f) => s.(native := PushSync(text, f), h := s.h.(nonThreaded := false))
    case PushSync(text, f) =>
      var e := SyncError(text, f);
      Log(s, Raise(e)).(native := Idle, h := s.h.(errors := s.h.errors + [e]))
    case RunCharset(name) => Log(s, Charset(name)).(native := Idle)
    case ReadLive => s.(native := if s.h.connected then ClearQueue else ForceDown)
    case ClearQueue =>
      if !s.worker.Away? then s
      else s.(native := HangUp, trace := s.trace + Drops(s.h.queue), h := s.h.(queue := []))
    case HangUp => s.(native := ForceDown, h := s.h.(connected := false))
    case ForceDown => s.(native := DialAgain, h := s.h.(connected := false))
    case DialAgain => Dialled(s, false, o.dialOk).(native := Idle)
  }

  function Next(s: Local, l: Label): Local {
    match l
    case WorkerStep(o) => WorkerNext(s, o)
    case TickStep => TickNext(s)
    case Begin(c) => BeginNext(s, c)
    case NativeStep(o) => NativeNext(s, o)
  }

  /** A run: any interleaving of steps. A step that is not possible in a state leaves it as it is. */
  function Run(s: Local, labels: seq<Label>): Local {
    if labels == [] then s else Next(Run(s, labels[..|labels| - 1]), labels[|labels| - 1])
  }

  /** A handle just built by the constructor, after its connection attempt. */
  function Fresh(dialOk: bool): Local {
    Local(Handle([], [], [], dialOk, false, false), Away, Off, Idle, [Dial(false, dialOk)])
  }

  // ---------- the invariant ----------

  /** The worker has passed its test of m_bQueryProcessing and has not queued an outcome yet. */
  predicate Committed(w: WorkerPc) {
    w.ReadNonThreaded? || w.Ping? || w.CopyFront? || w.SetFlag? || w.RunQuery? || w.PushError? || w.ClearFlag?
    || w.PushCallback? || w.MarkLost? || w.Redial?
  }

  /** The worker is between raising the flag and the push, or the clearing on the error path. */
  predicate WorkerHolds(w: WorkerPc) { w.RunQuery? || w.PushCallback? || w.PushError? || w.ClearFlag? }

  /** The worker has executed the front of the queue and has not removed it yet. */
  predicate FrontDone(w: WorkerPc) { w.PushCallback? || w.PushError? || w.ClearFlag? || w.PopQueue? }

  /** The tick is handling the entry at the front of the callback queue. */
  predicate TickHolds(t: TickPc) { t.CallScript? || t.CallbackReturn? || t.PopCallback? }

  /** The handshake: at most one callback waits, and the processing flag says exactly when one is on its way. */
  ghost predicate Handshake(s: Local) {
    && |s.h.callbacks| <= 1
    && (s.h.processing <==> WorkerHolds(s.worker) || s.h.callbacks != [] || s.tick.LowerFlag?)
    && (Committed(s.worker) ==> s.h.callbacks == [] && !s.tick.LowerFlag?)
  }

  /** What the worker's program counter knows about the queue. */
  ghost predicate WorkerKnows(s: Local) {
    && (!s.worker.Away? && !s.worker.ReadQueue? ==> s.h.queue != [])
    && (s.worker.SetFlag? || s.worker.RunQuery? || FrontDone(s.worker) ==> s.h.queue[0] == s.worker.q)
    && (s.worker.PushError? ==> s.worker.e.extra.None?)
  }

  /** What the tick's program counter knows about the queues it delivers from. */
  ghost predicate TickKnows(s: Local) {
    && (s.tick.CallError? || s.tick.ErrorReturn? || s.tick.PopError? ==> s.h.errors != [])
    && (s.tick.CallError? ==> s.h.errors[0] == s.tick.e)
    && (TickHolds(s.tick) ==> s.h.callbacks != [])
    && (s.tick.CallScript? ==> s.h.callbacks[0] == s.tick.q)
    && (s.tick.LowerFlag? ==> s.h.callbacks == [])
  }

  ghost predicate GameKnows(s: Local) {
    && (s.h.nonThreaded <==> s.native.RunSync? || s.native.LowerSync? || s.native.FailSync?)
    && (!s.native.Idle? ==> ScriptsRun(s.tick))
  }

  ghost predicate Control(s: Local) { Handshake(s) && WorkerKnows(s) && TickKnows(s) && GameKnows(s) }

  /** The part of the queue that no step has executed or dropped. */
  function Waiting(s: Local): seq<MainInfo> {
    if FrontDone(s.worker) && s.h.queue != [] then s.h.queue[1..] else s.h.queue
  }

  /** The successes that have not reached a script yet. */
  function Undelivered(s: Local): seq<MainInfo> {
    (if s.tick.CallbackReturn? || s.tick.PopCallback? then [] else s.h.callbacks)
    + (if s.worker.PushCallback? then [s.worker.q] else [])
  }

  /** The error records that have not reached a script yet. */
  function Unreported(s: Local): seq<ErrorInfo> {
    if (s.tick.ErrorReturn? || s.tick.PopError?) && s.h.errors != [] then s.h.errors[1..] else s.h.errors
  }

  ghost predicate Accounts(s: Local) {
    && Balanced(s, BooksOf(s.trace))
    && WellPaced(s.trace)
  }

  /** The books agree with the queues and with what the three actors hold in their hands. */
  predicate Balanced(s: Local, b: Books) {
    && b.submitted == b.resolved + Waiting(s)
    && b.succeeded == b.delivered + Undelivered(s)
    && b.raised == b.reported + Unreported(s)
    && b.workerFaults == b.workerRaised + (if s.worker.PushError? then [s.worker.e] else [])
    && b.syncFaults == b.syncRaised + PendingSync(s.native)
  }

  function PendingSync(n: NativePc): seq<ErrorInfo> {
    if n.FailSync? || n.PushSync? then [SyncError(n.text, n.f)] else []
  }

  ghost predicate Inv(s: Local) { Control(s) && Accounts(s) }

  lemma FreshInv(dialOk: bool)
    ensures Inv(Fresh(dialOk))
  {
    var e := Dial(false, dialOk);
    assert [e] == [] + [e];
    BooksSnoc([], e);
    WellPacedSnoc([], e);
  }

  // ---------- every step keeps the program counters honest ----------

  lemma WorkerKeepsHandshake(s: Local, o: Oracle)
    requires Control(s)
    ensures Handshake(WorkerNext(s, o))
  {
  }

  lemma WorkerKeepsCounter(s: Local, o: Oracle)
    requires Control(s)
    ensures WorkerKnows(WorkerNext(s, o))
  {
  }

  /** The worker leaves the game thread alone, and only adds to the queues that the tick delivers from. */
  lemma WorkerOnlyAdds(s: Local, o: Oracle)
    ensures var s' := WorkerNext(s, o);
      && s'.tick == s.tick && s'.native == s.native && s'.h.nonThreaded == s.h.nonThreaded
      && s.h.errors <= s'.h.errors
      && (if s.worker.PushCallback? then s.h.callbacks < s'.h.callbacks else s.h.callbacks == s'.h.callbacks)
  {
    var s' := WorkerNext(s, o);
    if s.worker.PushCallback? {
      assert s'.h.errors == s.h.errors;
    } else if s.worker.PushError? {
      assert s'.h.callbacks == s.h.callbacks;
    } else {
      assert s'.h.errors == s.h.errors && s'.h.callbacks == s.h.callbacks;
    }
  }

  lemma WorkerKeepsGame(s: Local, o: Oracle)
    requires Control(s)
    ensures TickKnows(WorkerNext(s, o)) && GameKnows(WorkerNext(s, o))
  {
    WorkerOnlyAdds(s, o);
  }

  lemma WorkerKeepsControl(s: Local, o: Oracle)
    requires Control(s)
    ensures Control(WorkerNext(s, o))
  {
    WorkerKeepsHandshake(s, o);
    WorkerKeepsCounter(s, o);
    WorkerKeepsGame(s, o);
  }

  lemma TickKeepsHandshake(s: Local)
    requires Control(s)
    ensures Handshake(TickNext(s)) && WorkerKnows(TickNext(s))
  {
  }

  lemma TickKeepsControl(s: Local)
    requires Control(s)
    ensures Control(TickNext(s))
  {
    TickKeepsHandshake(s);
  }

  lemma BeginKeepsControl(s: Local, c: Command)
    requires Control(s)
    ensures Control(BeginNext(s, c))
  {
  }

  lemma NativeKeepsHandshake(s: Local, o: Oracle)
    requires Control(s)
    ensures Handshake(NativeNext(s, o))
  {
    match s.native
    case DialAgain => assert NativeNext(s, o).h == s.h.(connected := NativeNext(s, o).h.connected);
    case _ =>
  }

  /** A native leaves the worker where it is, and the queue too unless the worker is away. */
  lemma NativeLeavesQueue(s: Local, o: Oracle)
    ensures NativeNext(s, o).worker == s.worker && (NativeNext(s, o).h.queue == s.h.queue || s.worker.Away?)
  {
  }

  lemma NativeKeepsCounter(s: Local, o: Oracle)
    requires Control(s)
    ensures WorkerKnows(NativeNext(s, o))
  {
    NativeLeavesQueue(s, o);
  }

  /** A native leaves the tick where it is, keeps the callbacks that wait, and only adds to the errors. */
  lemma NativeOnlyAdds(s: Local, o: Oracle)
    ensures var s' := NativeNext(s, o);
      s'.worker == s.worker && s'.tick == s.tick && s.h.errors <= s'.h.errors && s'.h.callbacks == s.h.callbacks
  {
    if !s.native.PushSync? {
      assert NativeNext(s, o).h.errors == s.h.errors;
    }
  }

  lemma NativeKeepsGame(s: Local, o: Oracle)
    requires Control(s)
    ensures TickKnows(NativeNext(s, o)) && GameKnows(NativeNext(s, o))
  {
    NativeOnlyAdds(s, o);
  }

  lemma NativeKeepsControl(s: Local, o: Oracle)
    requires Control(s)
    ensures Control(NativeNext(s, o))
  {
    NativeKeepsHandshake(s, o);
    NativeKeepsCounter(s, o);
    NativeKeepsGame(s, o);
  }

  // ---------- every step keeps the books ----------

  /** One more event in the history: the books are posted, and the pace is kept if the event keeps it. */
  lemma LogPosts(s: Local, e: Event)
    requires WellPaced(s.trace) && PacedBy(BooksOf(s.trace), e)
    ensures BooksOf(Log(s, e).trace) == Post(BooksOf(s.trace), e) && WellPaced(Log(s, e).trace)
  {
    BooksSnoc(s.trace, e);
    WellPacedSnoc(s.trace, e);
  }

  /** A step that logs one event keeps the accounts if it keeps the balance and the pace. */
  lemma LogKeepsAccounts(s: Local, e: Event, s': Local)
    requires WellPaced(s.trace) && PacedBy(BooksOf(s.trace), e)
    requires s'.trace == s.trace + [e] && Balanced(s', Post(BooksOf(s.trace), e))
    ensures Accounts(s')
  {
    BooksSnoc(s.trace, e);
    WellPacedSnoc(s.trace, e);
  }

  lemma RunQueryBalances(s: Local, o: Oracle, b: Books)
    requires Control(s) && Balanced(s, b) && s.worker.RunQuery?
    ensures var e := Exec(s.worker.q, o.failure);
      PacedBy(b, e) && Balanced(WorkerNext(s, o), Post(b, e))
  {
    var q, s' := s.worker.q, WorkerNext(s, o);
    assert s.h.queue == [q] + s.h.queue[1..] && Undelivered(s) == [];
    assert b.resolved + s.h.queue == (b.resolved + [q]) + Waiting(s');
  }

  lemma RunQueryKeepsAccounts(s: Local, o: Oracle)
    requires Inv(s) && s.worker.RunQuery?
    ensures Accounts(WorkerNext(s, o))
  {
    RunQueryBalances(s, o, BooksOf(s.trace));
    LogKeepsAccounts(s, Exec(s.worker.q, o.failure), WorkerNext(s, o));
  }

  lemma PushErrorBalances(s: Local, o: Oracle, b: Books)
    requires Control(s) && Balanced(s, b) && s.worker.PushError?
    ensures Balanced(WorkerNext(s, o), Post(b, Raise(s.worker.e)))
  {
    var e, s' := s.worker.e, WorkerNext(s, o);
    assert Undelivered(s') == Undelivered(s) && Waiting(s') == Waiting(s);
    assert s.h.errors != [] ==> (s.h.errors + [e])[1..] == s.h.errors[1..] + [e];
    assert Unreported(s') == Unreported(s) + [e];
    assert b.reported + (Unreported(s) + [e]) == (b.reported + Unreported(s)) + [e];
  }

  lemma PushErrorKeepsAccounts(s: Local, o: Oracle)
    requires Inv(s) && s.worker.PushError?
    ensures Accounts(WorkerNext(s, o))
  {
    PushErrorBalances(s, o, BooksOf(s.trace));
    LogKeepsAccounts(s, Raise(s.worker.e), WorkerNext(s, o));
  }

  lemma RedialKeepsAccounts(s: Local, o: Oracle)
    requires Inv(s) && s.worker.Redial?
    ensures Accounts(WorkerNext(s, o))
  {
    assert Balanced(WorkerNext(s, o), BooksOf(s.trace));
    if !s.h.connected {
      LogKeepsAccounts(s, Dial(true, o.dialOk), WorkerNext(s, o));
    }
  }

  /** The steps of the worker that an observer does not see. */
  lemma SilentWorkBalances(s: Local, o: Oracle, b: Books)
    requires Control(s) && Balanced(s, b) && !s.worker.RunQuery? && !s.worker.PushError? && !s.worker.Redial?
    ensures Balanced(WorkerNext(s, o), b) && WorkerNext(s, o).trace == s.trace
  {
    var s' := WorkerNext(s, o);
    if s.worker.PushCallback? {
      assert Undelivered(s) == [s.worker.q] == Undelivered(s') && Waiting(s) == Waiting(s');
    } else if s.worker.PopQueue? {
      assert Waiting(s) == s.h.queue[1..] == Waiting(s');
    } else {
      assert Waiting(s) == Waiting(s') && Undelivered(s) == Undelivered(s');
    }
  }

  lemma WorkerKeepsAccounts(s: Local, o: Oracle)
    requires Inv(s)
    ensures Accounts(WorkerNext(s, o))
  {
    if s.worker.RunQuery? {
      RunQueryKeepsAccounts(s, o);
    } else if s.worker.PushError? {
      PushErrorKeepsAccounts(s, o);
    } else if s.worker.Redial? {
      RedialKeepsAccounts(s, o);
    } else {
      SilentWorkBalances(s, o, BooksOf(s.trace));
    }
  }

  lemma CallErrorBalances(s: Local, b: Books)
    requires Control(s) && Balanced(s, b) && s.native.Idle? && s.tick.CallError?
    ensures Balanced(TickNext(s), Post(b, Report(s.tick.e)))
  {
    assert Unreported(s) == [s.tick.e] + Unreported(TickNext(s));
    assert b.reported + Unreported(s) == (b.reported + [s.tick.e]) + Unreported(TickNext(s));
  }

  lemma CallScriptBalances(s: Local, b: Books)
    requires Control(s) && Balanced(s, b) && s.native.Idle? && s.tick.CallScript?
    ensures PacedBy(b, Deliver(s.tick.q)) && Balanced(TickNext(s), Post(b, Deliver(s.tick.q)))
  {
    assert Undelivered(s) == [s.tick.q] && Undelivered(TickNext(s)) == [];
  }

  lemma SilentTickBalances(s: Local, b: Books)
    requires Control(s) && Balanced(s, b) && !s.tick.CallError? && !s.tick.CallScript?
    ensures Balanced(TickNext(s), b) && TickNext(s).trace == s.trace
  {
    var s' := TickNext(s);
    assert Waiting(s') == Waiting(s) && Unreported(s') == Unreported(s);
    assert Undelivered(s') == Undelivered(s) by {
      if s.tick.PopCallback? && s.native.Idle? {
        assert |s.h.callbacks| == 1 && s.h.callbacks[1..] == [];
      }
    }
  }

  lemma TickKeepsAccounts(s: Local)
    requires Inv(s)
    ensures Accounts(TickNext(s))
  {
    if s.native.Idle? && s.tick.CallError? {
      CallErrorBalances(s, BooksOf(s.trace));
      LogKeepsAccounts(s, Report(s.tick.e), TickNext(s));
    } else if s.native.Idle? && s.tick.CallScript? {
      CallScriptBalances(s, BooksOf(s.trace));
      LogKeepsAccounts(s, Deliver(s.tick.q), TickNext(s));
    } else if s.native.Idle? {
      SilentTickBalances(s, BooksOf(s.trace));
    }
  }

  lemma LockedNativeBalances(s: Local, o: Oracle, b: Books)
    requires Control(s) && Balanced(s, b) && s.worker.Away?
    ensures s.native.Enqueue? ==> Balanced(NativeNext(s, o), Post(b, Submit(s.native.q)))
    ensures s.native.ClearQueue? ==> Balanced(NativeNext(s, o), PostDrops(b, s.h.queue))
  {
  }

  lemma SyncBalances(s: Local, o: Oracle, b: Books)
    requires Control(s) && Balanced(s, b)
    ensures s.native.RunSync? ==> Balanced(NativeNext(s, o), Post(b, Sync(s.native.text, o.failure)))
    ensures s.native.PushSync? ==> Balanced(NativeNext(s, o), Post(b, Raise(SyncError(s.native.text, s.native.f))))
  {
  }

  predicate Silent(n: NativePc) {
    !n.Enqueue? && !n.ClearQueue? && !n.RunSync? && !n.PushSync? && !n.RunCharset? && !n.DialAgain?
  }

  lemma SilentNativeBalances(s: Local, o: Oracle, b: Books)
    requires Control(s) && Balanced(s, b) && Silent(s.native)
    ensures Balanced(NativeNext(s, o), b) && NativeNext(s, o).trace == s.trace
  {
  }

  lemma LockedNativeKeepsAccounts(s: Local, o: Oracle)
    requires Inv(s) && (s.native.Enqueue? || s.native.ClearQueue?)
    ensures Accounts(NativeNext(s, o))
  {
    if s.worker.Away? {
      LockedNativeBalances(s, o, BooksOf(s.trace));
      if s.native.Enqueue? {
        LogPosts(s, Submit(s.native.q));
      } else {
        BooksDrops(s.trace, s.h.queue);
        WellPacedDrops(s.trace, s.h.queue);
      }
    }
  }

  lemma SyncKeepsAccounts(s: Local, o: Oracle)
    requires Inv(s) && (s.native.RunSync? || s.native.PushSync?)
    ensures Accounts(NativeNext(s, o))
  {
    SyncBalances(s, o, BooksOf(s.trace));
    if s.native.RunSync? {
      LogPosts(s, Sync(s.native.text, o.failure));
    } else {
      LogPosts(s, Raise(SyncError(s.native.text, s.native.f)));
    }
  }

  lemma DialAgainKeepsAccounts(s: Local, o: Oracle)
    requires Inv(s) && s.native.DialAgain?
    ensures Accounts(NativeNext(s, o))
  {
    assert Balanced(NativeNext(s, o), BooksOf(s.trace));
    if !s.h.connected {
      LogKeepsAccounts(s, Dial(false, o.dialOk), NativeNext(s, o));
    }
  }

  lemma CharsetKeepsAccounts(s: Local, o: Oracle)
    requires Inv(s) && s.native.RunCharset?
    ensures Accounts(NativeNext(s, o))
  {
    LogKeepsAccounts(s, Charset(s.native.name), NativeNext(s, o));
  }

  lemma NativeKeepsAccounts(s: Local, o: Oracle)
    requires Inv(s)
    ensures Accounts(NativeNext(s, o))
  {
    if s.native.Enqueue? || s.native.ClearQueue? {
      LockedNativeKeepsAccounts(s, o);
    } else if s.native.RunSync? || s.native.PushSync? {
      SyncKeepsAccounts(s, o);
    } else if s.native.RunCharset? {
      CharsetKeepsAccounts(s, o);
    } else if s.native.DialAgain? {
      DialAgainKeepsAccounts(s, o);
    } else {
      SilentNativeBalances(s, o, BooksOf(s.trace));
    }
  }

  lemma BeginKeepsInv(s: Local, c: Command)
    requires Inv(s)
    ensures Inv(BeginNext(s, c))
  {
    BeginKeepsControl(s, c);
    assert Balanced(BeginNext(s, c), BooksOf(s.trace));
  }

  /** One step of any actor, with any answer of the server, keeps the invariant. */
  lemma NextKeepsInv(s: Local, l: Label)
    requires Inv(s)
    ensures Inv(Next(s, l))
  {
    match l
    case WorkerStep(o) => WorkerKeepsControl(s, o); WorkerKeepsAccounts(s, o);
    case TickStep => TickKeepsControl(s); TickKeepsAccounts(s);
    case Begin(c) => BeginKeepsInv(s, c);
    case NativeStep(o) => NativeKeepsControl(s, o); NativeKeepsAccounts(s, o);
  }

  /** The invariant holds in every state that any interleaving reaches. */
  lemma {:induction false} RunKeepsInv(s: Local, labels: seq<Label>)
    requires Inv(s)
    ensures Inv(Run(s, labels))
  {
    if labels != [] {
      RunKeepsInv(s, labels[..|labels| - 1]);
      NextKeepsInv(Run(s, labels[..|labels| - 1]), labels[|labels| - 1]);
    }
  }

  // ---------- runs in sequence ----------

  lemma RunSnoc(s: Local, labels: seq<Label>, l: Label)
    ensures Run(s, labels + [l]) == Next(Run(s, labels), l)
  {
    assert (labels + [l])[..|labels|] == labels;
  }

  lemma {:induction false} RunConcat(s: Local, a: seq<Label>, b: seq<Label>)
    ensures Run(s, a + b) == Run(Run(s, a), b)
  {
    if b == [] {
      assert a + b == a;
    } else {
      var front, last := b[..|b| - 1], b[|b| - 1];
      assert a + b == (a + front) + [last];
      RunSnoc(s, a + front, last);
      RunConcat(s, a, front);
    }
  }

  /** A state that some run of the machine reaches from a newly constructed handle. */
  ghost predicate Reachable(s: Local) {
    exists dialOk: bool, labels: seq<Label> :: s == Run(Fresh(dialOk), labels)
  }

  lemma FreshIsReachable(dialOk: bool)
    ensures Reachable(Fresh(dialOk))
  {
    assert Fresh(dialOk) == Run(Fresh(dialOk), []);
  }

  lemma RunIsReachable(s: Local, labels: seq<Label>)
    requires Reachable(s)
    ensures Reachable(Run(s, labels))
  {
    var dialOk: bool, before: seq<Label> :| s == Run(Fresh(dialOk), before);
    RunConcat(Fresh(dialOk), before, labels);
    assert Run(s, labels) == Run(Fresh(dialOk), before + labels);
  }

  lemma NextIsReachable(s: Local, l: Label)
    requires Reachable(s)
    ensures Reachable(Next(s, l))
  {
    RunIsReachable(s, [l]);
    RunSnoc(s, [], l);
    assert [] + [l] == [l];
  }

  lemma ReachableInv(s: Local)
    requires Reachable(s)
    ensures Inv(s)
  {
    var dialOk: bool, labels: seq<Label> :| s == Run(Fresh(dialOk), labels);
    FreshInv(dialOk);
    RunKeepsInv(Fresh(dialOk), labels);
  }
}
