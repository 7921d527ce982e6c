// How the natives and the worker use the mutex.

module Locks {
  datatype LockOp = Acquire | Release

  /** The entry points that can touch the mutex. Enqueuing covers mysql_query_callback and mysql_query with a result
      id; the natives that are not listed never lock. */
  datatype EntryPoint = Enqueuing | SyncQuerying | Reconnecting | Connecting | Closing | Pinging | Sweeping

  /** The mutex operations of one call. `valid` says that the handle id passed its check, `connected` that the handle was
      connected when the call began. */
  function OpsOf(entry: EntryPoint, valid: bool, connected: bool): seq<LockOp> {
    match entry
    case Enqueuing => if valid && connected then [Acquire, Release] else []
    case SyncQuerying => []
    case Reconnecting => if valid && connected then [Acquire, Release] else []
    case Connecting => []
    case Closing =>
      if !valid then [] else [Acquire] + (if connected then [Acquire, Release] else []) + [Release]
    case Pinging => if valid then [Acquire, Release] else []
    case Sweeping => [Acquire, Release]
  }

  /** The depth after one operation; a release of a mutex that is not held does not count. */
  function Next(depth: nat, op: LockOp): nat {
    if op.Acquire? then depth + 1 else if depth > 0 then depth - 1 else 0
  }

  function DepthAfter(depth: nat, ops: seq<LockOp>): nat
    decreases |ops|
  {
    if ops == [] then depth else DepthAfter(Next(depth, ops[0]), ops[1..])
  }

  /** The greatest depth on the way. */
  function Peak(depth: nat, ops: seq<LockOp>): nat
    decreases |ops|
  {
    if ops == [] then depth
    else
      var rest := Peak(Next(depth, ops[0]), ops[1..]);
      if rest < depth then depth else rest
  }

  /** With a mutex that is not recursive, the default of pthread_mutex_init, a thread that holds it and locks it again
      waits for itself. */
  predicate WaitsForItself(depth: nat, ops: seq<LockOp>)
    decreases |ops|
  {
    ops != [] && ((ops[0].Acquire? && depth > 0) || WaitsForItself(Next(depth, ops[0]), ops[1..]))
  }

  lemma Unfold(depth: nat, op: LockOp, rest: seq<LockOp>)
    ensures DepthAfter(depth, [op] + rest) == DepthAfter(Next(depth, op), rest)
    ensures Peak(depth, [op] + rest) == (var p := Peak(Next(depth, op), rest); if p < depth then depth else p)
    ensures WaitsForItself(depth, [op] + rest) <==> (op.Acquire? && depth > 0) || WaitsForItself(Next(depth, op), rest)
  {
    assert ([op] + rest)[1..] == rest;
  }

  /** Every call returns at the depth at which it entered. It goes two deep exactly when it closes a valid, connected
      handle; so with a mutex that is not recursive, mysql_close of a connected handle is the one call that never
      returns. The mutex is taken by every sweep, and with a valid id by every close and ping and, on a connected handle, by
      every threaded query and reconnect; by nothing else. */
  lemma LockDiscipline(entry: EntryPoint, valid: bool, connected: bool)
    ensures var ops := OpsOf(entry, valid, connected);
      && DepthAfter(0, ops) == 0 && Peak(0, ops) <= 2
      && (Peak(0, ops) == 2 <==> entry.Closing? && valid && connected)
      && (WaitsForItself(0, ops) <==> entry.Closing? && valid && connected)
      && (Peak(0, ops) > 0 <==>
            entry.Sweeping? || (valid && (entry.Closing? || entry.Pinging? || (connected && (entry.Enqueuing? || entry.Reconnecting?)))))
  {
    Unfold(1, Release, []);
    Unfold(0, Acquire, [Release]);
    Unfold(2, Release, [Release]);
    Unfold(1, Acquire, [Release, Release]);
    Unfold(0, Acquire, [Acquire, Release, Release]);
    assert [Release] + [] == [Release] && [Acquire] + [Release] == [Acquire, Release];
    assert [Release] + [Release] == [Release, Release];
    assert [Acquire] + [Release, Release] == [Acquire, Release, Release];
    assert [Acquire] + [Acquire, Release, Release] == [Acquire, Acquire, Release, Release];
    assert [Acquire] + [Acquire, Release] + [Release] == [Acquire, Acquire, Release, Release];
    assert [Acquire] + [] + [Release] == [Acquire, Release];
  }
}
