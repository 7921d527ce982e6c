// CMutex and CMySQLHandler: the objects of the plugin, with the methods that update their fields. The queues and flags
// of a handler are, between calls, a handle at rest of module Pipeline; its row members are a cursor of module Rows.

module Handlers {
  import opened Options
  import opened Trace
  import opened Pipeline
  import opened Passes
  import opened CharStream
  import R = Rows
  import F = Fetching
  import opened Registry
  import opened Locks

  /** The recursive mutex of the plugin; `depth` is how often the calling thread holds it. */
  class Mutex {
    var depth: nat
    ghost var ops: seq<LockOp>

    constructor ()
      ensures depth == 0 && ops == []
    {
      depth, ops := 0, [];
    }

    method Lock()
      modifies this
      ensures depth == old(depth) + 1 && ops == old(ops) + [Acquire]
    {
      depth, ops := depth + 1, ops + [Acquire];
    }

    method Unlock()
      requires depth > 0
      modifies this
      ensures depth == old(depth) - 1 && ops == old(ops) + [Release]
    {
      depth, ops := depth - 1, ops + [Release];
    }
  }

  /** The row cursor of a new handler. */
  function NoRows(): R.Cursor { R.Cursor([], {}, None, None, None, 0, EMPTY_STREAM, "", "") }

  class MySQLHandler {
    const key: Key
    var isConnected: bool
    var queryProcessing: bool
    var nonThreadedQuery: bool
    var hasConnection: bool  // m_stConnectionPtr is not NULL
    var queueData: seq<MainInfo>
    var callbackData: seq<MainInfo>
    var errorCallback: seq<ErrorInfo>

    var results: seq<R.ResultSet>
    var freed: set<nat>
    var stResult: Option<nat>
    var stRow: Option<R.RowRef>
    var stField: Option<nat>
    var dwFields: nat
    var stream: Stream
    var szResult: string
    var delimiter: string

    ghost var trace: seq<Event>

    ghost function View(): Local
      reads this
    {
      Local(Handle(queueData, callbackData, errorCallback, isConnected, queryProcessing, nonThreadedQuery),
            Away, Off, Idle, trace)
    }

    ghost function Rows(): R.Cursor
      reads this
    {
      R.Cursor(results, freed, stResult, stRow, stField, dwFields, stream, szResult, delimiter)
    }

    ghost predicate Valid()
      reads this
    {
      Sound(View()) && F.Settled(Rows()) && (isConnected ==> hasConnection)
    }

    /** The constructor connects at once; it leaves the row pointers unset, taken as NULL here. */
    constructor (key: Key, dialOk: bool)
      ensures this.key == key && Valid()
      ensures View() == Fresh(dialOk)
      ensures Rows() == NoRows()
    {
      this.key := key;
      isConnected, queryProcessing, nonThreadedQuery := false, false, false;
      hasConnection := false;
      queueData, callbackData, errorCallback := [], [], [];
      results, freed, stResult, stRow, stField, dwFields := [], {}, None, None, None, 0;
      stream, szResult, delimiter := EMPTY_STREAM, "", "";
      trace := [];
      new;
      var ok := Connect(dialOk, false);
      FreshIsReachable(dialOk);
      assert trace == [Dial(false, dialOk)];
    }

    /** CMySQLHandler::Connect. */
    method Connect(dialOk: bool, ghost byWorker: bool) returns (ok: bool)
      modifies this
      ensures View() == Dialled(old(View()), byWorker, dialOk) && Rows() == old(Rows())
      ensures ok <==> !old(isConnected) && dialOk
      ensures hasConnection == (old(hasConnection) || !old(isConnected))
    {
      if isConnected {
        return false;
      }
      hasConnection := true;
      trace := trace + [Dial(byWorker, dialOk)];
      isConnected := dialOk;
      return dialOk;
    }

    /** queueData.pop(), which the plugin only does under the mutex. */
    method PopQueue(mutex: Mutex)
      requires mutex.depth > 0 && queueData != []
      modifies this`queueData
      ensures queueData == old(queueData)[1..]
    {
      queueData := queueData[1..];
    }

    /** The loop that discards what is still queued. */
    method ClearQueue(mutex: Mutex)
      requires mutex.depth > 0
      modifies this
      ensures View() == old(View()).(trace := old(trace) + Drops(old(queueData)), h := old(View()).h.(queue := []))
      ensures Rows() == old(Rows()) && hasConnection == old(hasConnection)
    {
      var i: nat := 0;
      while queueData != []
        invariant i <= |old(queueData)| && queueData == old(queueData)[i..]
        invariant View() == old(View()).(trace := old(trace) + Drops(old(queueData)[..i]), h := old(View()).h.(queue := queueData))
        invariant Rows() == old(Rows()) && hasConnection == old(hasConnection)
        decreases |queueData|
      {
        var q := queueData[0];
        PopQueue(mutex);
        trace := trace + [Drop(q)];
        assert old(queueData)[..i + 1] == old(queueData)[..i] + [q];
        assert old(trace) + Drops(old(queueData)[..i + 1]) == old(trace) + Drops(old(queueData)[..i]) + [Drop(q)];
        i := i + 1;
      }
      assert old(queueData)[..i] == old(queueData);
    }

    /** CMySQLHandler::Disconnect. */
    method Disconnect(mutex: Mutex)
      requires isConnected ==> hasConnection
      modifies this, mutex
      ensures View() == DisconnectPass(old(View())) && Rows() == old(Rows())
      ensures mutex.depth == old(mutex.depth)
      ensures mutex.ops == old(mutex.ops) + OpsOf(Reconnecting, true, old(isConnected))
      ensures hasConnection == (old(hasConnection) && !old(isConnected))
    {
      if isConnected {
        if hasConnection {
          mutex.Lock();
          ClearQueue(mutex);
          mutex.Unlock();
          hasConnection := false;
        }
        isConnected := false;
      }
    }

    /** The destructor: the result is freed, then the connection is closed. */
    method Destroy(mutex: Mutex)
      requires F.Settled(Rows()) && (isConnected ==> hasConnection)
      modifies this, mutex
      ensures View() == DisconnectPass(old(View())) && Rows() == R.FreeResult(old(Rows()), old(isConnected)).0
      ensures mutex.depth == old(mutex.depth)
      ensures mutex.ops == old(mutex.ops) + OpsOf(Reconnecting, true, old(isConnected))
    {
      var freed := FreeResult();
      Disconnect(mutex);
    }

    /** The common tail of Query and of OldQuery with a result id. */
    method Enqueue(mutex: Mutex, q: MainInfo)
      requires Valid() && isConnected
      modifies this, mutex
      ensures View() == SubmitPass(old(View()), q) && Rows() == old(Rows()) && Valid()
      ensures mutex.depth == old(mutex.depth) && mutex.ops == old(mutex.ops) + [Acquire, Release]
    {
      SubmitPassIsSound(View(), q);
      mutex.Lock();
      PushQueue(mutex, q);
      mutex.Unlock();
      trace := trace + [Submit(q)];
    }

    /** queueData.push(), which the plugin only does under the mutex. */
    method PushQueue(mutex: Mutex, q: MainInfo)
      requires mutex.depth > 0
      modifies this`queueData
      ensures queueData == old(queueData) + [q]
    {
      queueData := queueData + [q];
    }

    /** CMySQLHandler::Query. */
    method Query(mutex: Mutex, q: MainInfo) returns (r: int)
      requires Valid()
      modifies this, mutex
      ensures View() == SubmitPass(old(View()), q) && Rows() == old(Rows()) && Valid()
      ensures r == if old(isConnected) then q.result else 0
      ensures mutex.depth == old(mutex.depth)
      ensures mutex.ops == old(mutex.ops) + OpsOf(Enqueuing, true, old(isConnected))
    {
      if !isConnected {
        return 0;
      }
      Enqueue(mutex, q);
      return q.result;
    }

    /** CMySQLHandler::OldQuery; `failure` is the server's answer to a synchronous query. */
    method OldQuery(mutex: Mutex, text: string, resultID: int, extraID: int, failure: Option<Failure>) returns (r: int)
      requires Valid()
      modifies this, mutex
      ensures Rows() == old(Rows()) && Valid()
      ensures View() == if resultID != -1 then SubmitPass(old(View()), MainInfo(text, resultID, extraID, "OnQueryFinish"))
                        else SyncPass(old(View()), text, failure)
      ensures r == if !old(isConnected) then 0 else if resultID != -1 then resultID else if failure.None? then 1 else 0
      ensures mutex.depth == old(mutex.depth)
      ensures mutex.ops == old(mutex.ops) + OpsOf(if resultID != -1 then Enqueuing else SyncQuerying, true, old(isConnected))
    {
      if !isConnected {
        return 0;
      }
      if resultID != -1 {
        Enqueue(mutex, MainInfo(text, resultID, extraID, "OnQueryFinish"));
        return resultID;
      }
      r := RunSync(text, failure);
    }

    /** The part of OldQuery that sends the query from the game thread. */
    method RunSync(text: string, failure: Option<Failure>) returns (r: int)
      requires Valid() && isConnected
      modifies this`nonThreadedQuery, this`errorCallback, this`trace
      ensures View() == SyncPass(old(View()), text, failure) && Valid()
      ensures r == if failure.None? then 1 else 0
    {
      FlagAtRest(View());
      SyncPassIsSound(View(), text, failure);
      nonThreadedQuery := true;
      trace := trace + [Sync(text, failure)];
      if failure.Some? {
        nonThreadedQuery := false;
        errorCallback := errorCallback + [SyncError(text, failure.value)];
        trace := trace + [Raise(SyncError(text, failure.value))];
        return 0;
      }
      nonThreadedQuery := false;
      return 1;
    }

    // ---------- rows ----------

    /** mysql_free_result, which must not be given the same result twice. */
    method MysqlFreeResult(r: nat)
      requires R.Live(Rows(), r)
      modifies this`freed
      ensures freed == old(freed) + {r}
    {
      freed := freed + {r};
    }

    /** CMySQLHandler::FreeResult. */
    method FreeResult() returns (ok: bool)
      requires F.Settled(Rows())
      modifies this`freed, this`stResult, this`stRow
      ensures (Rows(), ok) == R.FreeResult(old(Rows()), isConnected) && F.Settled(Rows())
    {
      F.PerformKeepsSettled(Rows(), isConnected, F.Free);
      if !isConnected {
        return false;
      }
      if stResult.Some? {
        MysqlFreeResult(stResult.value);
        stResult, stRow := None, None;
      }
      return true;
    }

    /** CMySQLHandler::StoreResult; `incoming` is what mysql_store_result returns. */
    method StoreResult(incoming: Option<R.ResultSet>) returns (ok: bool)
      requires Valid() && F.Acceptable(F.Store(incoming))
      modifies this
      ensures (Rows(), ok) == R.StoreResult(old(Rows()), isConnected, incoming)
      ensures View() == old(View()) && Valid()
    {
      F.PerformKeepsSettled(Rows(), isConnected, F.Store(incoming));
      if !isConnected {
        return false;
      }
      if incoming.None? {
        stResult := None;
        return false;
      }
      stResult := Some(|results|);
      results := results + [incoming.value];
      return true;
    }

    /** What ProcessQueryThread does with the row members after a failed ping. */
    method DiscardResult(incoming: Option<R.ResultSet>)
      requires F.Settled(Rows()) && F.Acceptable(F.Lost(incoming))
      modifies this`stResult, this`results, this`freed
      ensures Rows() == R.Discard(old(Rows()), incoming) && F.Settled(Rows())
    {
      F.PerformKeepsSettled(Rows(), isConnected, F.Lost(incoming));
      stResult := None;
      if incoming.Some? {
        stResult := Some(|results|);
        results := results + [incoming.value];
        MysqlFreeResult(|results| - 1);
        stResult := None;
      }
    }

    /** mysql_num_fields, mysql_fetch_fields and mysql_fetch_row on the current result, which must not be freed. */
    method NextRow() returns (row: bool)
      requires R.Coherent(Rows()) && stResult.Some?
      modifies this`dwFields, this`stField, this`stRow, this`results
      ensures Rows() == R.Advance(old(Rows())) && R.Coherent(Rows())
      ensures row <==> R.HasRow(old(Rows()))
    {
      F.AdvanceKeepsCoherent(Rows());
      var k := stResult.value;
      assert R.Live(Rows(), k);
      var r := results[k];
      dwFields := |r.names|;
      stField := Some(k);
      if r.next < |r.rows| {
        stRow := Some(R.RowRef(k, r.next));
        results := results[k := r.(next := r.next + 1)];
        return true;
      }
      stRow := None;
      return false;
    }

    /** CMySQLHandler::RetrieveRow. */
    method RetrieveRow() returns (ok: bool)
      requires Valid()
      modifies this
      ensures (Rows(), ok) == R.RetrieveRow(old(Rows()), isConnected)
      ensures View() == old(View()) && Valid()
    {
      if !isConnected || stResult.None? {
        return false;
      }
      ok := NextRow();
    }

    /** getline into m_szResult, then extraction into it. */
    method ReadBackResult()
      requires CharStream.Valid(stream)
      modifies this`stream, this`szResult
      ensures (stream, szResult) == ReadBack(old(stream), old(szResult))
    {
      var line := GetLine(stream, szResult);
      stream, szResult := line.0, line.1;
      var word := GetWord(stream, szResult);
      stream, szResult := word.0, word.1;
    }

    /** The loop of FetchRow over the fields of the row. */
    method InsertFields(row: seq<Option<string>>)
      requires |row| == dwFields
      modifies this`stream
      ensures stream == R.InsertRow(old(stream), row, delimiter)
    {
      var i := 0;
      while i < dwFields
        invariant i <= |row| && stream == R.InsertRow(old(stream), row[..i], delimiter)
      {
        R.InsertRowStep(old(stream), row, i, delimiter);
        stream := Insert(Insert(stream, R.Shown(row[i])), delimiter);
        i := i + 1;
      }
      assert row[..i] == row;
    }

    /** CMySQLHandler::FetchRow. */
    method FetchRow() returns (text: string)
      requires R.Coherent(Rows()) && CharStream.Valid(stream)
      modifies this`dwFields, this`stField, this`stRow, this`results, this`stream, this`szResult
      ensures (Rows(), text) == R.FetchRow(old(Rows()), isConnected)
    {
      if !isConnected || stResult.None? {
        return "NULL";
      }
      var more := NextRow();
      if !more {
        return "NULL";
      }
      var row := results[stRow.value.owner].rows[stRow.value.row];
      assert row == R.NextRow(old(Rows()));
      InsertFields(row);
      text := TakeText();
    }

    /** The end of FetchRow: the text is read back; unless it is empty the flags are cleared and its last character is
        erased. */
    method TakeText() returns (text: string)
      requires CharStream.Valid(stream)
      modifies this`stream, this`szResult
      ensures (Rows(), text) == R.CutText(old(Rows()))
    {
      ReadBackResult();
      if szResult == "" {
        return "NULL";
      }
      stream := Clear(stream);
      szResult := szResult[..|szResult| - 1];
      return szResult;
    }

    /** The loop of FetchField: the value of the first column of that name, if any, goes into the stream. */
    method InsertField(name: string)
      requires R.Coherent(Rows()) && stRow.Some?
      modifies this`stream
      ensures var i := R.Column(results[stRow.value.owner].names, name);
        stream == if i < dwFields then Insert(old(stream), R.Shown(R.CurrentRow(old(Rows()))[i])) else old(stream)
    {
      var at := stRow.value;
      assert R.Live(Rows(), at.owner) && R.Live(Rows(), stField.value);
      assert R.WellFormed(results[at.owner]);
      var names, row := results[stField.value].names, results[at.owner].rows[at.row];
      var i := 0;
      while i < dwFields && names[i] != name
        invariant i <= dwFields && forall j :: 0 <= j < i ==> names[j] != name
      {
        i := i + 1;
      }
      assert i == R.Column(names, name);
      if i < dwFields {
        stream := Insert(stream, R.Shown(row[i]));
      }
    }

    /** CMySQLHandler::FetchField. */
    method FetchField(name: string) returns (ok: bool)
      requires Valid()
      modifies this`stream, this`szResult
      ensures (Rows(), ok) == R.FetchField(old(Rows()), isConnected, name)
    {
      if !isConnected || stField.None? || stRow.None? {
        return false;
      }
      InsertField(name);
      ReadBackResult();
      stream := Clear(stream);
      return true;
    }
  }
}
