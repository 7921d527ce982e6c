// The natives of CScripting.cpp and the loops of main.cpp, over the vector of handlers.

module Plugins {
  import opened Options
  import opened Trace
  import opened Pipeline
  import opened Passes
  import opened Locks
  import opened Handlers
  import opened Registry
  import R = Rows
  import F = Fetching

  /** A loaded AMX script and the publics that amx_FindPublic finds in it. */
  datatype Script = Script(id: nat, publics: set<string>)

  /** A call that ProcessTick makes into a script, with the handle id it passes. */
  datatype ScriptCall =
    | OnError(script: Script, handle: nat, e: ErrorInfo)
    | OnResult(script: Script, handle: nat, q: MainInfo)

  const ON_ERROR := "OnQueryError"

  function ErrorCalls(scripts: seq<Script>, handle: nat, e: ErrorInfo): seq<ScriptCall> {
    if scripts == [] then []
    else
      var last := scripts[|scripts| - 1];
      ErrorCalls(scripts[..|scripts| - 1], handle, e) + (if ON_ERROR in last.publics then [OnError(last, handle, e)] else [])
  }

  function ResultCalls(scripts: seq<Script>, handle: nat, q: MainInfo): seq<ScriptCall> {
    if scripts == [] then []
    else
      var last := scripts[|scripts| - 1];
      ResultCalls(scripts[..|scripts| - 1], handle, q) + (if q.callback in last.publics then [OnResult(last, handle, q)] else [])
  }

  /** The calls that one tick makes for a handle: first its oldest error, then its callback. */
  function HandleCalls(scripts: seq<Script>, handle: nat, h: Handle): seq<ScriptCall> {
    (if h.errors == [] then [] else ErrorCalls(scripts, handle, h.errors[0]))
    + (if h.callbacks == [] then [] else ResultCalls(scripts, handle, h.callbacks[0]))
  }

  /** Scripts after the first occurrence of `script` has been removed. */
  function Unloaded(scripts: seq<Script>, script: Script): seq<Script> {
    if scripts == [] then []
    else if scripts[0] == script then scripts[1..]
    else [scripts[0]] + Unloaded(scripts[1..], script)
  }

  /** Unloading a script that was not loaded before restores the list. */
  lemma {:induction false} UnloadUndoesLoad(scripts: seq<Script>, script: Script)
    requires script !in scripts
    ensures Unloaded(scripts + [script], script) == scripts
  {
    if scripts != [] {
      UnloadUndoesLoad(scripts[1..], script);
      assert (scripts + [script])[1..] == scripts[1..] + [script];
    }
  }

  /** What the server answers to the worker on one handle: see Oracle; and the unread result that a lost connection
      still holds. */
  datatype Answer = Answer(o: Oracle, unread: Option<R.ResultSet>)

  /** The worker finds that the connection of a handle is lost. */
  predicate Loses(h: Handle, o: Oracle) { Ready(h) && !o.pingOk }

  function CursorPass(c: R.Cursor, h: Handle, a: Answer): R.Cursor {
    if Loses(h, a.o) then R.Discard(c, a.unread) else c
  }

  function CursorsAfter(cursors: seq<R.Cursor>, handles: seq<Local>, answers: seq<Answer>): (r: seq<R.Cursor>)
    requires |cursors| == |handles| == |answers|
    ensures |r| == |handles|
    ensures forall i :: 0 <= i < |handles| ==> r[i] == CursorPass(cursors[i], handles[i].h, answers[i])
  {
    seq(|handles|, i requires 0 <= i < |handles| => CursorPass(cursors[i], handles[i].h, answers[i]))
  }

  function Oracles(answers: seq<Answer>): (r: seq<Oracle>)
    ensures |r| == |answers| && forall i :: 0 <= i < |answers| ==> r[i] == answers[i].o
  {
    seq(|answers|, i requires 0 <= i < |answers| => answers[i].o)
  }

  /** p_Amx, the loaded scripts in load order. A call into the scripts is recorded by returning it. */
  class ScriptHost {
    var scripts: seq<Script>

    constructor ()
      ensures scripts == []
    {
      scripts := [];
    }

    method AmxLoad(script: Script)
      modifies this
      ensures scripts == old(scripts) + [script]
    {
      scripts := scripts + [script];
    }

    method AmxUnload(script: Script)
      modifies this
      ensures scripts == Unloaded(old(scripts), script)
    {
      var i := 0;
      while i < |scripts| && scripts[i] != script
        invariant i <= |scripts| && scripts == old(scripts)
        invariant Unloaded(scripts, script) == scripts[..i] + Unloaded(scripts[i..], script)
      {
        assert scripts[i..][1..] == scripts[i + 1..];
        i := i + 1;
      }
      if i < |scripts| {
        assert scripts[i..][1..] == scripts[i + 1..];
        scripts := scripts[..i] + scripts[i + 1..];
      }
    }

    /** OnQueryError in every script that has it. */
    method CallOnError(handle: nat, e: ErrorInfo) returns (made: seq<ScriptCall>)
      ensures made == ErrorCalls(scripts, handle, e)
    {
      made := [];
      var a := 0;
      while a < |scripts|
        invariant a <= |scripts| && made == ErrorCalls(scripts[..a], handle, e)
      {
        assert scripts[..a + 1][..a] == scripts[..a];
        if ON_ERROR in scripts[a].publics {
          made := made + [OnError(scripts[a], handle, e)];
        }
        a := a + 1;
      }
      assert scripts[..a] == scripts;
    }

    /** The callback of a query in every script that has it. */
    method CallOnResult(handle: nat, q: MainInfo) returns (made: seq<ScriptCall>)
      ensures made == ResultCalls(scripts, handle, q)
    {
      made := [];
      var a := 0;
      while a < |scripts|
        invariant a <= |scripts| && made == ResultCalls(scripts[..a], handle, q)
      {
        assert scripts[..a + 1][..a] == scripts[..a];
        if q.callback in scripts[a].publics {
          made := made + [OnResult(scripts[a], handle, q)];
        }
        a := a + 1;
      }
      assert scripts[..a] == scripts;
    }
  }

  /** What is left of a handle that mysql_close has erased. */
  function ClosePass(s: Local): Local {
    s.(trace := s.trace + Drops(s.h.queue), h := s.h.(queue := [], connected := false))
  }

  lemma FindIs(entries: seq<Entry>, key: Key, i: nat)
    requires i <= |entries| && forall j :: 0 <= j < i ==> entries[j].key != key
    requires i < |entries| ==> entries[i].key == key
    ensures Find(entries, key) == i
  {
  }

  /** What mysql_connect does once it has searched. */
  lemma OpenIs(r: Registry, key: Key, i: nat)
    requires i == Find(r.entries, key)
    ensures Apply(r, Open(key)) == if i < |r.entries| then (r, i + 1)
      else (Registry(r.entries + [Entry(r.created, key)], r.created + 1), |r.entries| + 1)
  {
  }

  /** Erasing one position leaves different handles in different positions. */
  lemma ErasingKeepsDistinct(handles: seq<MySQLHandler>, k: nat)
    requires k < |handles| && forall i, j :: 0 <= i < j < |handles| ==> handles[i] != handles[j]
    ensures var rest := Without(handles, k);
      && |rest| == |handles| - 1
      && (forall i, j :: 0 <= i < j < |rest| ==> rest[i] != rest[j])
      && (forall i :: 0 <= i < |rest| ==> rest[i] == handles[if i < k then i else i + 1])
  {
  }

  lemma ErasingKeepsUnique(r: Registry, k: nat)
    requires Unique(r) && k < |r.entries|
    ensures var rest := Without(r.entries, k);
      && Unique(r.(entries := rest)) && |rest| == |r.entries| - 1
      && (forall i :: 0 <= i < |rest| ==> rest[i] == r.entries[if i < k then i else i + 1])
  {
  }

  class Plugin {
    const mutex: Mutex
    const host: ScriptHost
    var handles: seq<MySQLHandler>
    ghost var registry: Registry

    ghost predicate Distinct()
      reads this
    {
      forall i, j :: 0 <= i < j < |handles| ==> handles[i] != handles[j]
    }

    ghost predicate Registered()
      reads this
    {
      && |registry.entries| == |handles|
      && (forall i :: 0 <= i < |handles| ==> registry.entries[i].key == handles[i].key)
      && Unique(registry)
    }

    /** The handles as the pipeline sees them. */
    ghost function Views(): (r: seq<Local>)
      reads this, handles
      ensures |r| == |handles| && forall i :: 0 <= i < |handles| ==> r[i] == handles[i].View()
    {
      seq(|handles|, i requires 0 <= i < |handles| reads this, handles => handles[i].View())
    }

    /** The row cursors of the handles. */
    ghost function Cursors(): (r: seq<R.Cursor>)
      reads this, handles
      ensures |r| == |handles| && forall i :: 0 <= i < |handles| ==> r[i] == handles[i].Rows()
    {
      seq(|handles|, i requires 0 <= i < |handles| reads this, handles => handles[i].Rows())
    }

    ghost predicate Valid()
      reads this, handles
    {
      Distinct() && Registered() && forall i :: 0 <= i < |handles| ==> handles[i].Valid()
    }

    constructor ()
      ensures Valid() && handles == [] && registry == EMPTY_REGISTRY && fresh(mutex) && fresh(host)
    {
      mutex := new Mutex();
      host := new ScriptHost();
      handles, registry := [], EMPTY_REGISTRY;
    }

    // ---------- the worker ----------

    /** One iteration of ProcessQueryThread. */
    method WorkerIteration(h: MySQLHandler, a: Answer)
      requires h.Valid() && mutex.depth > 0 && F.Acceptable(F.Lost(a.unread))
      modifies h
      ensures h.View() == WorkerPass(old(h.View()), a.o) && h.Valid()
      ensures h.Rows() == CursorPass(old(h.Rows()), old(h.View()).h, a)
    {
      WorkerPassIsSound(h.View(), a.o);
      if h.queueData != [] && h.isConnected && !h.queryProcessing && !h.nonThreadedQuery {
        if a.o.pingOk {
          RunFront(h, a.o.failure);
        } else {
          LoseConnection(h, a);
        }
      }
    }

    /** A good ping: the front of the queue is sent and its outcome is routed. */
    method RunFront(h: MySQLHandler, failure: Option<Failure>)
      requires h.queueData != [] && mutex.depth > 0
      modifies h`queueData, h`queryProcessing, h`callbackData, h`errorCallback, h`trace
      ensures h.View() == Outcome(old(h.View()), Oracle(true, failure, true))
    {
      var q := h.queueData[0];
      h.queryProcessing := true;
      h.trace := h.trace + [Exec(q, failure)];
      if failure.None? {
        h.callbackData := h.callbackData + [q];
      } else {
        var e := WorkerError(q, failure.value);
        h.errorCallback := h.errorCallback + [e];
        h.trace := h.trace + [Raise(e)];
        h.queryProcessing := false;
      }
      h.PopQueue(mutex);
    }

    /** A failed ping: the handle goes down, an unread result is dropped, and one attempt to connect is made. */
    method LoseConnection(h: MySQLHandler, a: Answer)
      requires F.Settled(h.Rows()) && F.Acceptable(F.Lost(a.unread)) && h.hasConnection
      modifies h
      ensures h.View() == Dialled(old(h.View()).(h := old(h.View()).h.(connected := false)), true, a.o.dialOk)
      ensures h.Rows() == R.Discard(old(h.Rows()), a.unread) && F.Settled(h.Rows()) && h.hasConnection
    {
      h.isConnected := false;
      h.DiscardResult(a.unread);
      var ok := h.Connect(a.o.dialOk, true);
    }

    twostate lemma SweepIs(answers: seq<Answer>)
      requires handles == old(handles) && |answers| == |handles|
      requires forall i :: 0 <= i < |handles| ==>
        && handles[i].View() == WorkerPass(old(handles[i].View()), answers[i].o)
        && handles[i].Rows() == CursorPass(old(handles[i].Rows()), old(handles[i].View()).h, answers[i])
      ensures Views() == Sweep(old(Views()), Oracles(answers))
      ensures Cursors() == CursorsAfter(old(Cursors()), old(Views()), answers)
    {
      forall i | 0 <= i < |handles|
        ensures Views()[i] == Sweep(old(Views()), Oracles(answers))[i]
        ensures Cursors()[i] == CursorsAfter(old(Cursors()), old(Views()), answers)[i]
      {
        assert old(Views())[i] == old(handles[i].View()) && old(Cursors())[i] == old(handles[i].Rows());
      }
    }

    /** The loop over the handles, under the mutex. */
    method SweepHandles(answers: seq<Answer>)
      requires Valid() && mutex.depth > 0
      requires |answers| == |handles| && forall a :: a in answers ==> F.Acceptable(F.Lost(a.unread))
      modifies handles
      ensures Valid() && Views() == Sweep(old(Views()), Oracles(answers))
      ensures Cursors() == CursorsAfter(old(Cursors()), old(Views()), answers)
    {
      var i := 0;
      while i < |handles|
        invariant i <= |handles|
        invariant forall j :: 0 <= j < i ==>
          && handles[j].Valid() && handles[j].View() == WorkerPass(old(handles[j].View()), answers[j].o)
          && handles[j].Rows() == CursorPass(old(handles[j].Rows()), old(handles[j].View()).h, answers[j])
        invariant forall j :: i <= j < |handles| ==> unchanged(handles[j])
      {
        var h := handles[i];
        assert forall j :: 0 <= j < |handles| && j != i ==> handles[j] != h;
        WorkerIteration(h, answers[i]);
        i := i + 1;
      }
      SweepIs(answers);
    }

    /** What the lock and the unlock leave alone. */
    twostate lemma HandlesKept()
      requires handles == old(handles) && registry == old(registry) && forall i :: 0 <= i < |handles| ==> unchanged(handles[i])
      ensures Valid() == old(Valid()) && Views() == old(Views()) && Cursors() == old(Cursors())
    {
    }

    /** One turn of the endless loop of ProcessQueryThread. */
    method WorkerSweep(answers: seq<Answer>)
      requires Valid() && |answers| == |handles| && forall a :: a in answers ==> F.Acceptable(F.Lost(a.unread))
      modifies handles, mutex
      ensures Valid() && Views() == Sweep(old(Views()), Oracles(answers))
      ensures Cursors() == CursorsAfter(old(Cursors()), old(Views()), answers)
      ensures mutex.depth == old(mutex.depth) && mutex.ops == old(mutex.ops) + OpsOf(Sweeping, true, true)
    {
      mutex.Lock();
      HandlesKept();
      SweepHandles(answers);
      label Swept:
      mutex.Unlock();
      HandlesKept@Swept();
    }

    // ---------- the delivery loop ----------

    method ReportOne(h: MySQLHandler, handle: nat) returns (made: seq<ScriptCall>)
      modifies h`errorCallback, h`trace
      ensures h.View() == ReportPass(old(h.View()))
      ensures made == if old(h.errorCallback) == [] then [] else ErrorCalls(host.scripts, handle, old(h.errorCallback)[0])
    {
      made := [];
      if h.errorCallback != [] {
        var e := h.errorCallback[0];
        h.trace := h.trace + [Report(e)];
        made := host.CallOnError(handle, e);
        h.errorCallback := h.errorCallback[1..];
      }
    }

    method DeliverOne(h: MySQLHandler, handle: nat) returns (made: seq<ScriptCall>)
      modifies h`callbackData, h`queryProcessing, h`trace
      ensures h.View() == DeliverPass(old(h.View()))
      ensures made == if old(h.callbackData) == [] then [] else ResultCalls(host.scripts, handle, old(h.callbackData)[0])
    {
      made := [];
      if h.callbackData != [] {
        var q := h.callbackData[0];
        h.trace := h.trace + [Deliver(q)];
        made := host.CallOnResult(handle, q);
        h.callbackData := h.callbackData[1..];
        h.queryProcessing := false;
      }
    }

    /** One iteration of ProcessTick: at most one error and one callback of h are delivered. Scripts are passed the index
        of the handle plus one as its id. */
    method TickIteration(h: MySQLHandler, handle: nat) returns (made: seq<ScriptCall>)
      modifies h`errorCallback, h`callbackData, h`queryProcessing, h`trace
      ensures h.View() == TickPass(old(h.View()))
      ensures made == HandleCalls(host.scripts, handle, old(h.View().h))
    {
      made := ReportOne(h, handle);
      var more := DeliverOne(h, handle);
      made := made + more;
    }

    /** None of the members that the tick does not write has changed. */
    twostate predicate RowsUnchanged(h: MySQLHandler)
      reads h
    {
      unchanged(h`hasConnection, h`results, h`freed, h`stResult, h`stRow, h`stField, h`dwFields, h`stream, h`szResult,
                h`delimiter)
    }

    /** The loop over the handles, without the mutex; the calls into the scripts are returned, handle by handle. */
    method TickHandles() returns (made: seq<seq<ScriptCall>>)
      requires Distinct()
      modifies handles
      ensures |made| == |handles|
      ensures forall i :: 0 <= i < |handles| ==>
        && handles[i].View() == TickPass(old(handles[i].View())) && RowsUnchanged(handles[i])
        && made[i] == HandleCalls(host.scripts, i + 1, old(handles[i].View().h))
    {
      made := [];
      var i := 0;
      while i < |handles|
        invariant |made| == i <= |handles|
        invariant forall j :: 0 <= j < i ==>
          && handles[j].View() == TickPass(old(handles[j].View())) && RowsUnchanged(handles[j])
          && made[j] == HandleCalls(host.scripts, j + 1, old(handles[j].View().h))
        invariant forall j :: i <= j < |handles| ==> unchanged(handles[j])
      {
        var h := handles[i];
        assert forall j :: 0 <= j < |handles| && j != i ==> handles[j] != h;
        var more := TickIteration(h, i + 1);
        made := made + [more];
        i := i + 1;
      }
    }

    twostate lemma TickKeepsValid(h: MySQLHandler)
      requires old(h.Valid()) && h.View() == TickPass(old(h.View())) && RowsUnchanged(h)
      ensures h.Valid()
    {
      TickPassIsSound(old(h.View()));
    }

    /** ProcessTick, with scripts that issue no natives while they are called. It does not take the mutex. */
    method ProcessTick() returns (made: seq<seq<ScriptCall>>)
      requires Valid()
      modifies handles
      ensures Valid() && Views() == Tick(old(Views())) && |made| == |handles|
      ensures forall i :: 0 <= i < |handles| ==>
        && RowsUnchanged(handles[i])
        && made[i] == HandleCalls(host.scripts, i + 1, old(handles[i].View().h))
    {
      made := TickHandles();
      forall i | 0 <= i < |handles| ensures handles[i].Valid() {
        TickKeepsValid(handles[i]);
      }
    }

    // ---------- the natives ----------

    /** The handler that passes VALID_CONNECTION_HANDLE for the cell p, if any. */
    ghost function Target(p: int): set<object>
      reads this
    {
      if Index(p) < |handles| then {handles[Index(p)]} else {}
    }

    /** mysql_query. */
    method MysqlQuery(text: string, resultID: int, extraID: int, p: int, failure: Option<Failure>) returns (r: int)
      requires Valid()
      modifies Target(p), mutex
      ensures Valid()
      ensures Index(p) >= |handles| ==> r == 0
      ensures Index(p) < |handles| ==>
        var h := handles[Index(p)];
        && h.Rows() == old(h.Rows())
        && h.View() == (if resultID != -1 then SubmitPass(old(h.View()), MainInfo(text, resultID, extraID, "OnQueryFinish"))
                        else SyncPass(old(h.View()), text, failure))
        && r == if !old(h.isConnected) then 0 else if resultID != -1 then resultID else if failure.None? then 1 else 0
      ensures mutex.depth == old(mutex.depth)
      ensures mutex.ops == old(mutex.ops)
        + OpsOf(if resultID != -1 then Enqueuing else SyncQuerying, Index(p) < |handles|, Index(p) < |handles| && old(handles[Index(p)].isConnected))
    {
      if Index(p) >= |handles| {
        return 0;
      }
      r := handles[Index(p)].OldQuery(mutex, text, resultID, extraID, failure);
    }

    /** mysql_query_callback. */
    method MysqlQueryCallback(q: MainInfo, p: int) returns (r: int)
      requires Valid()
      modifies Target(p), mutex
      ensures Valid()
      ensures Index(p) >= |handles| ==> r == 0
      ensures Index(p) < |handles| ==>
        var h := handles[Index(p)];
        && h.Rows() == old(h.Rows()) && h.View() == SubmitPass(old(h.View()), q)
        && r == if old(h.isConnected) then q.result else 0
      ensures mutex.depth == old(mutex.depth)
      ensures mutex.ops == old(mutex.ops)
        + OpsOf(Enqueuing, Index(p) < |handles|, Index(p) < |handles| && old(handles[Index(p)].isConnected))
    {
      if Index(p) >= |handles| {
        return 0;
      }
      r := handles[Index(p)].Query(mutex, q);
    }

    /** mysql_reconnect. */
    method MysqlReconnect(p: int, dialOk: bool) returns (r: int)
      requires Valid()
      modifies Target(p), mutex
      ensures Valid()
      ensures r == if Index(p) < |handles| then 1 else 0
      ensures Index(p) < |handles| ==>
        var h := handles[Index(p)];
        && h.Rows() == old(h.Rows()) && h.View() == ReconnectPass(old(h.View()), dialOk)
        && h.queueData == (if old(h.isConnected) then [] else old(h.queueData))
        && h.callbackData == old(h.callbackData) && h.errorCallback == old(h.errorCallback)
      ensures mutex.depth == old(mutex.depth)
      ensures mutex.ops == old(mutex.ops)
        + OpsOf(Reconnecting, Index(p) < |handles|, Index(p) < |handles| && old(handles[Index(p)].isConnected))
    {
      if Index(p) >= |handles| {
        return 0;
      }
      var h := handles[Index(p)];
      ghost var v := h.View();
      ReconnectPassIsSound(v, dialOk);
      h.Disconnect(mutex);
      h.isConnected := false;
      var ok := h.Connect(dialOk, false);
      assert h.View() == ReconnectPass(v, dialOk) && h.Rows() == old(h.Rows());
      return 1;
    }

    /** mysql_connect: a handle with the same key is redialled, otherwise a new one is appended. */
    method MysqlConnect(key: Key, dialOk: bool) returns (id: int)
      requires Valid()
      modifies this`handles, this`registry, handles
      ensures Valid()
      ensures (registry, id) == Apply(old(registry), Open(key))
      ensures forall i :: 0 <= i < |old(handles)| ==> i < |handles| && handles[i] == old(handles[i])
      ensures forall i :: 0 <= i < |old(handles)| && i != id - 1 ==> unchanged(handles[i])
      ensures if |handles| == |old(handles)| then
          && 1 <= id <= |handles| && handles[id - 1].View() == ConnectPass(old(handles[id - 1].View()), dialOk)
          && handles[id - 1].Rows() == old(handles[id - 1].Rows())
        else
          && |handles| == |old(handles)| + 1 == id && fresh(handles[id - 1])
          && handles[id - 1].View() == Fresh(dialOk) && handles[id - 1].Rows() == NoRows()
    {
      var i := FindHandle(key);
      OpenIs(registry, key, i);
      if i < |handles| {
        Redial(i, dialOk);
        return i + 1;
      }
      var h := Append(key, dialOk);
      assert handles[|old(handles)|] == h;
      return |handles|;
    }

    /** The branch of mysql_connect for a new key. */
    method Append(key: Key, dialOk: bool) returns (h: MySQLHandler)
      requires Valid() && Find(registry.entries, key) == |registry.entries|
      modifies this`handles, this`registry
      ensures Valid()
      ensures registry == Apply(old(registry), Open(key)).0
      ensures handles == old(handles) + [h] && fresh(h) && h.View() == Fresh(dialOk) && h.Rows() == NoRows()
    {
      h := new MySQLHandler(key, dialOk);
      HandlesKept();
      PushBack(h);
    }

    /** SQLHandle.push_back() of a handler with connection data of its own. */
    method PushBack(h: MySQLHandler)
      requires Valid() && h !in handles && h.Valid() && Find(registry.entries, h.key) == |registry.entries|
      modifies this`handles, this`registry
      ensures Valid() && handles == old(handles) + [h] && registry == Apply(old(registry), Open(h.key)).0
    {
      ApplyKeepsUnique(registry, Open(h.key));
      handles := handles + [h];
      registry := Apply(registry, Open(h.key)).0;
    }

    /** The search of mysql_connect for a handle with the same connection data. */
    method FindHandle(key: Key) returns (i: nat)
      requires Registered()
      ensures i == Find(registry.entries, key) <= |handles|
    {
      i := 0;
      while i < |handles| && handles[i].key != key
        invariant i <= |handles| && forall j :: 0 <= j < i ==> registry.entries[j].key != key
      {
        i := i + 1;
      }
      FindIs(registry.entries, key, i);
    }

    /** The branch of mysql_connect for a handle that exists already. */
    method Redial(i: nat, dialOk: bool)
      requires Valid() && i < |handles|
      modifies handles[i]
      ensures Valid() && handles[i].View() == ConnectPass(old(handles[i].View()), dialOk)
      ensures handles[i].Rows() == old(handles[i].Rows())
    {
      var h := handles[i];
      ConnectPassIsSound(h.View(), dialOk);
      h.isConnected := false;
      var ok := h.Connect(dialOk, false);
    }

    /** mysql_close. */
    method MysqlClose(p: int) returns (r: int)
      requires Valid()
      modifies this`handles, this`registry, Target(p), mutex
      ensures Valid()
      ensures (registry, r) == Apply(old(registry), Close(p))
      ensures handles == if r == 1 then Without(old(handles), Index(p)) else old(handles)
      ensures Index(p) < |old(handles)| ==>
        var h := old(handles)[Index(p)];
        h.View() == ClosePass(old(h.View())) && h.Rows() == R.FreeResult(old(h.Rows()), old(h.isConnected)).0
      ensures mutex.depth == old(mutex.depth)
      ensures mutex.ops == old(mutex.ops)
        + OpsOf(Closing, Index(p) < |old(handles)|, Index(p) < |old(handles)| && old(handles[Index(p)].isConnected))
    {
      if Index(p) >= |handles| {
        return 0;
      }
      var k := Index(p);
      mutex.Lock();
      CloseAt(k);
      mutex.Unlock();
      return 1;
    }

    /** The part of mysql_close under the mutex. */
    method CloseAt(k: nat)
      requires Valid() && mutex.depth > 0 && k < |handles|
      modifies this`handles, this`registry, handles[k], mutex
      ensures Valid() && handles == Without(old(handles), k)
      ensures registry == old(registry).(entries := Without(old(registry).entries, k))
      ensures var h := old(handles)[k];
        h.View() == ClosePass(old(h.View())) && h.Rows() == R.FreeResult(old(h.Rows()), old(h.isConnected)).0
      ensures mutex.depth == old(mutex.depth)
      ensures mutex.ops == old(mutex.ops) + OpsOf(Reconnecting, true, old(handles[k].isConnected))
    {
      var h := handles[k];
      assert forall i :: 0 <= i < |handles| && i != k ==> handles[i] != h;
      TearDown(h);
      Erase(k);
    }

    /** SQLHandle.erase(), which the plugin only does under the mutex. */
    method Erase(k: nat)
      requires Distinct() && Registered() && mutex.depth > 0 && k < |handles|
      requires forall i :: 0 <= i < |handles| && i != k ==> handles[i].Valid()
      modifies this`handles, this`registry
      ensures Valid() && handles == Without(old(handles), k)
      ensures registry == old(registry).(entries := Without(old(registry).entries, k))
    {
      ErasingKeepsUnique(registry, k);
      ErasingKeepsDistinct(handles, k);
      handles := Without(handles, k);
      registry := registry.(entries := Without(registry.entries, k));
    }

    /** What mysql_close does to the handler before it erases it. */
    method TearDown(h: MySQLHandler)
      requires h.Valid() && mutex.depth > 0
      modifies h, mutex
      ensures h.View() == ClosePass(old(h.View())) && h.Rows() == R.FreeResult(old(h.Rows()), old(h.isConnected)).0
      ensures mutex.depth == old(mutex.depth)
      ensures mutex.ops == old(mutex.ops) + OpsOf(Reconnecting, true, old(h.isConnected))
    {
      h.ClearQueue(mutex);
      h.Destroy(mutex);
    }

    /** mysql_ping; `pingOk` is the server's answer. A handle with queued queries is left to the worker. */
    method MysqlPing(p: int, pingOk: bool) returns (r: int)
      requires Valid()
      modifies mutex
      ensures r == if Index(p) >= |handles| then 0
                   else if handles[Index(p)].queueData != [] || (handles[Index(p)].isConnected && pingOk) then 1 else -1
      ensures mutex.depth == old(mutex.depth) && mutex.ops == old(mutex.ops) + OpsOf(Pinging, Index(p) < |handles|, true)
    {
      if Index(p) >= |handles| {
        return 0;
      }
      var h := handles[Index(p)];
      mutex.Lock();
      if h.queueData != [] {
        mutex.Unlock();
        return 1;
      }
      mutex.Unlock();
      return if h.isConnected && pingOk then 1 else -1;
    }

    // ---------- the fetch natives ----------

    /** A native that only moves the row members of one handler, and leaves them settled, leaves the plugin valid. */
    twostate lemma RowsKeepValid(h: MySQLHandler)
      requires old(Valid()) && handles == old(handles) && registry == old(registry)
      requires F.Settled(h.Rows()) && h.View() == old(h.View()) && h.hasConnection == old(h.hasConnection)
      requires forall j :: 0 <= j < |handles| && handles[j] != h ==> unchanged(handles[j])
      ensures Valid()
    {
    }

    /** mysql_store_result. */
    method MysqlStoreResult(p: int, incoming: Option<R.ResultSet>) returns (r: bool)
      requires Valid() && F.Acceptable(F.Store(incoming))
      modifies Target(p)
      ensures Valid()
      ensures if Index(p) >= |handles| then !r else
        var h := handles[Index(p)];
        (h.Rows(), r) == R.StoreResult(old(h.Rows()), h.isConnected, incoming) && h.View() == old(h.View())
    {
      if Index(p) >= |handles| {
        return false;
      }
      r := handles[Index(p)].StoreResult(incoming);
    }

    /** mysql_free_result. */
    method MysqlFreeResult(p: int) returns (r: bool)
      requires Valid()
      modifies Target(p)
      ensures Valid()
      ensures if Index(p) >= |handles| then !r else
        var h := handles[Index(p)];
        (h.Rows(), r) == R.FreeResult(old(h.Rows()), h.isConnected) && h.View() == old(h.View())
    {
      if Index(p) >= |handles| {
        return false;
      }
      r := handles[Index(p)].FreeResult();
    }

    /** mysql_retrieve_row. */
    method MysqlRetrieveRow(p: int) returns (r: bool)
      requires Valid()
      modifies Target(p)
      ensures Valid()
      ensures if Index(p) >= |handles| then !r else
        var h := handles[Index(p)];
        (h.Rows(), r) == R.RetrieveRow(old(h.Rows()), h.isConnected) && h.View() == old(h.View())
    {
      if Index(p) >= |handles| {
        return false;
      }
      r := handles[Index(p)].RetrieveRow();
    }

    /** mysql_fetch_row_format: `out` is what the script's buffer receives, if anything. */
    method MysqlFetchRowFormat(delimiter: string, p: int) returns (r: int, out: Option<string>)
      requires Valid()
      modifies Target(p)
      ensures Valid()
      ensures r == if out.Some? then 1 else 0
      ensures if Index(p) >= |handles| then out.None? else
        var h := handles[Index(p)];
        (h.Rows(), out) == R.FetchRowFormat(old(h.Rows()), h.isConnected, delimiter) && h.View() == old(h.View())
    {
      if Index(p) >= |handles| {
        return 0, None;
      }
      var h := handles[Index(p)];
      F.RowFormatKeepsSettled(h.Rows(), h.isConnected, delimiter);
      r, out := RowFormat(h, delimiter);
      RowsKeepValid(h);
    }

    /** What the fetch natives begin with: the delimiter is set and a row is fetched. */
    method TakeRow(h: MySQLHandler, delimiter: string) returns (text: string)
      requires F.Settled(h.Rows())
      modifies h`dwFields, h`stField, h`stRow, h`results, h`stream, h`szResult, h`delimiter
      ensures (h.Rows(), text) == R.FetchRow(old(h.Rows()).(delimiter := delimiter), h.isConnected)
      ensures h.View() == old(h.View()) && h.hasConnection == old(h.hasConnection)
    {
      h.delimiter := delimiter;
      text := h.FetchRow();
    }

    method RowFormat(h: MySQLHandler, delimiter: string) returns (r: int, out: Option<string>)
      requires F.Settled(h.Rows())
      modifies h`dwFields, h`stField, h`stRow, h`results, h`stream, h`szResult, h`delimiter
      ensures (h.Rows(), out) == R.FetchRowFormat(old(h.Rows()), h.isConnected, delimiter)
      ensures r == if out.Some? then 1 else 0
      ensures h.View() == old(h.View()) && h.hasConnection == old(h.hasConnection)
    {
      var text := TakeRow(h, delimiter);
      if text != "NULL" {
        h.szResult := "";
        return 1, Some(text);
      }
      return 0, None;
    }

    /** mysql_fetch_field_row. */
    method MysqlFetchFieldRow(name: string, p: int) returns (r: int, out: Option<string>)
      requires Valid()
      modifies Target(p)
      ensures Valid()
      ensures if Index(p) >= |handles| then r == 0 && out.None? else
        var h := handles[Index(p)];
        && r == 1 && out.Some? && h.View() == old(h.View())
        && (h.Rows(), out.value) == R.FetchFieldRow(old(h.Rows()), h.isConnected, name)
    {
      if Index(p) >= |handles| {
        return 0, None;
      }
      var h := handles[Index(p)];
      F.FieldRowKeepsSettled(h.Rows(), h.isConnected, name);
      var text := FieldRow(h, name);
      RowsKeepValid(h);
      return 1, Some(text);
    }

    method FieldRow(h: MySQLHandler, name: string) returns (text: string)
      requires h.Valid()
      modifies h`stream, h`szResult
      ensures (h.Rows(), text) == R.FetchFieldRow(old(h.Rows()), h.isConnected, name)
    {
      var ok := h.FetchField(name);
      text := h.szResult;
      h.szResult := "";
    }

    /** IsNumeric: the C string at the start of `t` consists of digits. */
    method IsNumeric(t: string) returns (r: bool)
      ensures r <==> R.AllDigits(R.CPrefix(t))
    {
      var i := 0;
      while i < |t| && t[i] != '\0'
        invariant i <= |t| && forall j :: 0 <= j < i ==> t[j] != '\0' && R.IsDigit(t[j])
      {
        if t[i] < '0' || t[i] > '9' {
          assert |R.CPrefix(t)| > i && R.CPrefix(t)[i] == t[i];
          return false;
        }
        i := i + 1;
      }
      R.CPrefixIs(t, i);
      return true;
    }

    /** mysql_fetch_int. */
    method MysqlFetchInt(p: int) returns (r: int)
      requires Valid()
      modifies Target(p)
      ensures Valid()
      ensures if Index(p) >= |handles| then r == 0 else
        var h := handles[Index(p)];
        (h.Rows(), r) == R.FetchInt(old(h.Rows()), h.isConnected) && h.View() == old(h.View())
    {
      if Index(p) >= |handles| {
        return 0;
      }
      var h := handles[Index(p)];
      F.IntKeepsSettled(h.Rows(), h.isConnected);
      r := TakeInt(h);
      RowsKeepValid(h);
    }

    method TakeInt(h: MySQLHandler) returns (r: int)
      requires F.Settled(h.Rows())
      modifies h`dwFields, h`stField, h`stRow, h`results, h`stream, h`szResult, h`delimiter
      ensures (h.Rows(), r) == R.FetchInt(old(h.Rows()), h.isConnected)
      ensures h.View() == old(h.View()) && h.hasConnection == old(h.hasConnection)
    {
      var text := TakeRow(h, " ");
      var numeric := IsNumeric(h.szResult);
      if numeric && h.szResult != "" {
        r := R.ToCell(R.CPrefix(h.szResult));
        h.szResult := "";
        return;
      }
      return -1;
    }
  }
}
