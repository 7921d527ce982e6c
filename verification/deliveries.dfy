// Which scripts a tick calls, what a script list loses, and what a closed handle leaves.

module Deliveries {
  import opened Options
  import opened Trace
  import opened Pipeline
  import opened Passes
  import opened Plugins
  import R = Rows

  /** The positions of the scripts that have the public `name`, in load order. */
  predicate Picks(idx: seq<nat>, scripts: seq<Script>, name: string) {
    && (forall a, b :: 0 <= a < b < |idx| ==> idx[a] < idx[b])
    && (forall a :: 0 <= a < |idx| ==> idx[a] < |scripts| && name in scripts[idx[a]].publics)
    && (forall i :: 0 <= i < |scripts| && name in scripts[i].publics ==> exists a :: 0 <= a < |idx| && idx[a] == i)
  }

  /** One more script. */
  lemma PicksSnoc(idx: seq<nat>, scripts: seq<Script>, name: string)
    requires scripts != [] && Picks(idx, scripts[..|scripts| - 1], name)
    ensures var n := |scripts| - 1;
      Picks(if name in scripts[n].publics then idx + [n] else idx, scripts, name)
  {
    var n := |scripts| - 1;
    var idx' := if name in scripts[n].publics then idx + [n] else idx;
    forall i | 0 <= i < |scripts| && name in scripts[i].publics ensures exists a :: 0 <= a < |idx'| && idx'[a] == i {
      if i == n {
        assert idx'[|idx|] == n;
      } else {
        assert scripts[..n][i] == scripts[i];
        var a :| 0 <= a < |idx| && idx[a] == i;
        assert idx'[a] == i;
      }
    }
  }

  function Positions(scripts: seq<Script>, name: string): seq<nat> {
    if scripts == [] then []
    else
      var n := |scripts| - 1;
      Positions(scripts[..n], name) + if name in scripts[n].publics then [n] else []
  }

  lemma {:induction false} PositionsPick(scripts: seq<Script>, name: string)
    ensures Picks(Positions(scripts, name), scripts, name)
  {
    if scripts != [] {
      var front := scripts[..|scripts| - 1];
      PositionsPick(front, name);
      PicksSnoc(Positions(front, name), scripts, name);
      assert Positions(front, name) + [] == Positions(front, name);
    }
  }

  /** The calls are OnResult in the scripts at the given positions, in this order. */
  predicate ResultsMade(calls: seq<ScriptCall>, idx: seq<nat>, scripts: seq<Script>, handle: nat, q: MainInfo) {
    |calls| == |idx| && forall k :: 0 <= k < |idx| ==> idx[k] < |scripts| && calls[k] == OnResult(scripts[idx[k]], handle, q)
  }

  /** One more script, and its call if it has the public. */
  lemma ResultsSnoc(calls: seq<ScriptCall>, idx: seq<nat>, scripts: seq<Script>, handle: nat, q: MainInfo)
    requires scripts != [] && ResultsMade(calls, idx, scripts[..|scripts| - 1], handle, q)
    ensures var n := |scripts| - 1;
      && ResultsMade(calls, idx, scripts, handle, q)
      && ResultsMade(calls + [OnResult(scripts[n], handle, q)], idx + [n], scripts, handle, q)
  {
    forall k | 0 <= k < |idx| ensures idx[k] < |scripts| && calls[k] == OnResult(scripts[idx[k]], handle, q) {
      assert scripts[..|scripts| - 1][idx[k]] == scripts[idx[k]];
    }
  }

  lemma {:induction false} ResultCallsStand(scripts: seq<Script>, handle: nat, q: MainInfo)
    ensures ResultsMade(ResultCalls(scripts, handle, q), Positions(scripts, q.callback), scripts, handle, q)
  {
    if scripts != [] {
      var front := scripts[..|scripts| - 1];
      ResultCallsStand(front, handle, q);
      ResultsSnoc(ResultCalls(front, handle, q), Positions(front, q.callback), scripts, handle, q);
    }
  }

  /** The callback of q is called in exactly the scripts that have the public that q names, once each, in load order. */
  lemma ResultCallsAre(scripts: seq<Script>, handle: nat, q: MainInfo) returns (idx: seq<nat>)
    ensures Picks(idx, scripts, q.callback) && ResultsMade(ResultCalls(scripts, handle, q), idx, scripts, handle, q)
  {
    idx := Positions(scripts, q.callback);
    ResultCallsStand(scripts, handle, q);
    PositionsPick(scripts, q.callback);
  }

  /** The calls are OnError in the scripts at the given positions, in this order. */
  predicate ErrorsMade(calls: seq<ScriptCall>, idx: seq<nat>, scripts: seq<Script>, handle: nat, e: ErrorInfo) {
    |calls| == |idx| && forall k :: 0 <= k < |idx| ==> idx[k] < |scripts| && calls[k] == OnError(scripts[idx[k]], handle, e)
  }

  /** One more script, and its call if it has the public. */
  lemma ErrorsSnoc(calls: seq<ScriptCall>, idx: seq<nat>, scripts: seq<Script>, handle: nat, e: ErrorInfo)
    requires scripts != [] && ErrorsMade(calls, idx, scripts[..|scripts| - 1], handle, e)
    ensures var n := |scripts| - 1;
      && ErrorsMade(calls, idx, scripts, handle, e)
      && ErrorsMade(calls + [OnError(scripts[n], handle, e)], idx + [n], scripts, handle, e)
  {
    forall k | 0 <= k < |idx| ensures idx[k] < |scripts| && calls[k] == OnError(scripts[idx[k]], handle, e) {
      assert scripts[..|scripts| - 1][idx[k]] == scripts[idx[k]];
    }
  }

  lemma {:induction false} ErrorCallsStand(scripts: seq<Script>, handle: nat, e: ErrorInfo)
    ensures ErrorsMade(ErrorCalls(scripts, handle, e), Positions(scripts, ON_ERROR), scripts, handle, e)
  {
    if scripts != [] {
      var front := scripts[..|scripts| - 1];
      ErrorCallsStand(front, handle, e);
      ErrorsSnoc(ErrorCalls(front, handle, e), Positions(front, ON_ERROR), scripts, handle, e);
    }
  }

  /** An error is reported to exactly the scripts that have OnQueryError, once each, in load order. */
  lemma ErrorCallsAre(scripts: seq<Script>, handle: nat, e: ErrorInfo) returns (idx: seq<nat>)
    ensures Picks(idx, scripts, "OnQueryError") && ErrorsMade(ErrorCalls(scripts, handle, e), idx, scripts, handle, e)
  {
    idx := Positions(scripts, ON_ERROR);
    ErrorCallsStand(scripts, handle, e);
    PositionsPick(scripts, ON_ERROR);
  }

  /** The calls of a tick for one handle: its oldest error, if any, to the scripts with OnQueryError; then its callback, if
      any, to the scripts with the public that the query names; and no others. */
  lemma TickCallsAre(scripts: seq<Script>, handle: nat, h: Handle) returns (told: seq<nat>, called: seq<nat>)
    ensures |HandleCalls(scripts, handle, h)| == |told| + |called|
    ensures h.errors == [] ==> told == []
    ensures h.errors != [] ==>
      && Picks(told, scripts, "OnQueryError")
      && ErrorsMade(HandleCalls(scripts, handle, h)[..|told|], told, scripts, handle, h.errors[0])
    ensures h.callbacks == [] ==> called == []
    ensures h.callbacks != [] ==>
      && Picks(called, scripts, h.callbacks[0].callback)
      && ResultsMade(HandleCalls(scripts, handle, h)[|told|..], called, scripts, handle, h.callbacks[0])
  {
    var errors := if h.errors == [] then [] else ErrorCalls(scripts, handle, h.errors[0]);
    var results := if h.callbacks == [] then [] else ResultCalls(scripts, handle, h.callbacks[0]);
    told, called := [], [];
    if h.errors != [] {
      told := ErrorCallsAre(scripts, handle, h.errors[0]);
    }
    if h.callbacks != [] {
      called := ResultCallsAre(scripts, handle, h.callbacks[0]);
    }
    assert HandleCalls(scripts, handle, h) == errors + results;
    assert (errors + results)[..|errors|] == errors && (errors + results)[|errors|..] == results;
  }

  /** Unloading takes the first occurrence out and keeps the scripts on both sides of it. */
  lemma {:induction false} UnloadKeepsTheOthers(before: seq<Script>, script: Script, after: seq<Script>)
    requires script !in before
    ensures Unloaded(before + [script] + after, script) == before + after
  {
    var scripts := before + [script] + after;
    if before == [] {
      assert scripts[0] == script && scripts[1..] == after && before + after == after;
    } else {
      UnloadKeepsTheOthers(before[1..], script, after);
      assert scripts[0] == before[0] && scripts[1..] == before[1..] + [script] + after;
      assert [before[0]] + (before[1..] + after) == before + after;
    }
  }

  /** Unloading a script that is not loaded changes nothing. */
  lemma {:induction false} UnloadOfAnother(scripts: seq<Script>, script: Script)
    requires script !in scripts
    ensures Unloaded(scripts, script) == scripts
  {
    if scripts != [] {
      UnloadOfAnother(scripts[1..], script);
    }
  }

  /** What a sweep does to the row cursor of a handle: the result is gone when the worker finds the connection lost, which
      it only looks for on a live handle with queries, no callback on its way and no synchronous query; otherwise nothing
      changes. */
  lemma SweepOnRows(c: R.Cursor, h: Handle, a: Answer)
    ensures var c' := CursorPass(c, h, a);
      if h.queue != [] && h.connected && !h.processing && !h.nonThreaded && !a.o.pingOk
      then c'.stResult.None? && !R.HasRow(c') && c'.stream == c.stream && c'.szResult == c.szResult
      else c' == c
  {
  }

  /** A mysql_connect that finds the handle dials in any case, live or not, and keeps queues and flags. */
  lemma ConnectAlwaysDials(s: Local, ok: bool)
    ensures var s' := ConnectPass(s, ok);
      s'.trace == s.trace + [Dial(false, ok)] && s'.h == s.h.(connected := ok)
  {
  }

  /** A closed handle is down and empty, and its books are closed: all that was submitted has been executed or dropped,
      the drops of the closing being exactly its queue. */
  lemma ClosedHandleIsSettled(s: Local)
    requires Sound(s)
    ensures var s' := ClosePass(s); var b := BooksOf(s'.trace);
      && s'.h.queue == [] && !s'.h.connected
      && b.submitted == b.resolved && b.dropped == BooksOf(s.trace).dropped + s.h.queue
      && s'.h.callbacks == s.h.callbacks && s'.h.errors == s.h.errors
  {
    BooksAtRest(s);
    BooksDrops(s.trace, s.h.queue);
  }
}
