// The vector of connection handles as scripts see it: ids, keys, and what a close does to the other ids.

module Registry {
  import opened Options

  /** What mysql_connect compares: the connection data of a handle. */
  datatype Key = Key(host: string, user: string, password: string, db: string, port: nat)

  /** A handle in the vector; `uid` numbers the handles in the order of their creation and is never used again. */
  datatype Entry = Entry(uid: nat, key: Key)

  datatype Registry = Registry(entries: seq<Entry>, created: nat)

  const EMPTY_REGISTRY := Registry([], 0)

  // ---------- the id check ----------

  /** A 32-bit cell, as scripts pass it. */
  predicate IsCell(p: int) { -0x8000_0000 <= p < 0x8000_0000 }

  /** `unsigned int cID = params - 1`. */
  function Index(p: int): nat { (p - 1) % 0x1_0000_0000 }

  /** VALID_CONNECTION_HANDLE lets exactly the ids 1 to size through, for every cell, as long as the vector has fewer
      than 2^31 handles; with more, the least cell would pass as an id. */
  lemma IdCheckIsExact(size: nat)
    ensures (forall p :: IsCell(p) ==> (Index(p) < size <==> 1 <= p <= size)) <==> size < 0x8000_0000
  {
    assert Index(-0x8000_0000) == 0x7FFF_FFFF;
    forall p | IsCell(p) && size < 0x8000_0000
      ensures Index(p) < size <==> 1 <= p <= size
    {
      if p >= 1 {
        assert Index(p) == p - 1;
      } else {
        assert Index(p) == p - 1 + 0x1_0000_0000;
      }
    }
    if size >= 0x8000_0000 {
      assert IsCell(-0x8000_0000) && Index(-0x8000_0000) < size;
    }
  }

  // ---------- connecting and closing ----------

  datatype Op = Open(key: Key) | Close(p: int)

  /** The first handle with the given key, or the size of the vector. */
  function Find(entries: seq<Entry>, key: Key): (i: nat)
    ensures i <= |entries|
    ensures i < |entries| ==> entries[i].key == key
    ensures forall j :: 0 <= j < i ==> entries[j].key != key
  {
    if entries == [] || entries[0].key == key then 0 else 1 + Find(entries[1..], key)
  }

  function Without<T>(s: seq<T>, i: nat): seq<T>
    requires i < |s|
  {
    s[..i] + s[i + 1..]
  }

  /** mysql_connect and mysql_close, with the value that the native returns. */
  function Apply(r: Registry, op: Op): (Registry, int) {
    match op
    case Open(key) =>
      var i := Find(r.entries, key);
      if i < |r.entries| then (r, i + 1)
      else (Registry(r.entries + [Entry(r.created, key)], r.created + 1), |r.entries| + 1)
    case Close(p) =>
      if Index(p) < |r.entries| then (r.(entries := Without(r.entries, Index(p))), 1) else (r, 0)
  }

  function History(r: Registry, ops: seq<Op>): Registry
    decreases |ops|
  {
    if ops == [] then r else History(Apply(r, ops[0]).0, ops[1..])
  }

  /** No two handles share a key or a uid. */
  ghost predicate Unique(r: Registry) {
    && (forall i, j :: 0 <= i < j < |r.entries| ==>
          r.entries[i].key != r.entries[j].key && r.entries[i].uid != r.entries[j].uid)
    && (forall i :: 0 <= i < |r.entries| ==> r.entries[i].uid < r.created)
  }

  lemma ApplyKeepsUnique(r: Registry, op: Op)
    requires Unique(r)
    ensures Unique(Apply(r, op).0)
  {
  }

  /** mysql_close returns 1 and takes one handle out exactly for the ids 1 to size, and otherwise returns 0 and changes
      nothing. */
  lemma CloseAnswers(r: Registry, p: int)
    requires |r.entries| < 0x8000_0000 && IsCell(p)
    ensures var (r', answer) := Apply(r, Close(p));
      if 1 <= p <= |r.entries| then answer == 1 && |r'.entries| == |r.entries| - 1 else answer == 0 && r' == r
  {
    IdCheckIsExact(|r.entries|);
  }

  /** After any history of connects and closes the handles have pairwise distinct keys. */
  lemma {:induction false} HistoryKeepsUnique(r: Registry, ops: seq<Op>)
    requires Unique(r)
    ensures Unique(History(r, ops))
    decreases |ops|
  {
    if ops != [] {
      ApplyKeepsUnique(r, ops[0]);
      HistoryKeepsUnique(Apply(r, ops[0]).0, ops[1..]);
    }
  }

  /** mysql_connect returns the id of the one handle with the key, and asking again changes nothing. */
  lemma ConnectIsIdempotent(ops: seq<Op>, key: Key)
    ensures var r := History(EMPTY_REGISTRY, ops);
      var (r', id) := Apply(r, Open(key));
      && 1 <= id <= |r'.entries|
      && (forall j :: 0 <= j < |r'.entries| ==> (r'.entries[j].key == key <==> j == id - 1))
      && Apply(r', Open(key)) == (r', id)
      && |r'.entries| == |r.entries| + if exists j :: 0 <= j < |r.entries| && r.entries[j].key == key then 0 else 1
  {
    var r := History(EMPTY_REGISTRY, ops);
    HistoryKeepsUnique(EMPTY_REGISTRY, ops);
    ApplyKeepsUnique(r, Open(key));
    var (r', id) := Apply(r, Open(key));
    assert r'.entries[id - 1].key == key;
    var again := Find(r'.entries, key);
    assert again == id - 1;
  }

  // ---------- following a handle ----------

  /** The current id of the handle with the given uid, if it is still open. */
  function IdOf(entries: seq<Entry>, uid: nat): Option<int> {
    if entries == [] then None
    else if entries[|entries| - 1].uid == uid then Some(|entries|)
    else IdOf(entries[..|entries| - 1], uid)
  }

  lemma {:induction false} IdOfMeaning(entries: seq<Entry>, uid: nat)
    requires forall i, j :: 0 <= i < j < |entries| ==> entries[i].uid != entries[j].uid
    ensures match IdOf(entries, uid)
      case Some(x) => 1 <= x <= |entries| && entries[x - 1].uid == uid
      case None => forall i :: 0 <= i < |entries| ==> entries[i].uid != uid
  {
    if entries != [] && entries[|entries| - 1].uid != uid {
      IdOfMeaning(entries[..|entries| - 1], uid);
    }
  }

  lemma IdOfIs(entries: seq<Entry>, uid: nat, x: nat)
    requires forall i, j :: 0 <= i < j < |entries| ==> entries[i].uid != entries[j].uid
    requires 1 <= x <= |entries| && entries[x - 1].uid == uid
    ensures IdOf(entries, uid) == Some(x)
  {
    IdOfMeaning(entries, uid);
  }

  /** What a script has to do with an id it holds when it sees an operation; it never looks at the vector. */
  function Follow(id: Option<int>, op: Op): Option<int> {
    if id.None? || op.Open? || op.p < 1 || op.p > id.value then id
    else if op.p == id.value then None
    else Some(id.value - 1)
  }

  function FollowAll(id: Option<int>, ops: seq<Op>): Option<int>
    decreases |ops|
  {
    if ops == [] then id else FollowAll(Follow(id, ops[0]), ops[1..])
  }

  /** Closes, among `ops`, of an id that was smaller than the followed one at that moment. */
  function SmallerCloses(id: Option<int>, ops: seq<Op>): nat
    decreases |ops|
  {
    if ops == [] || id.None? then 0
    else (if ops[0].Close? && 1 <= ops[0].p < id.value then 1 else 0) + SmallerCloses(Follow(id, ops[0]), ops[1..])
  }

  /** The cells of an operation and the size of the vector keep within 32 bits. */
  predicate Small(r: Registry, op: Op) {
    |r.entries| < 0x8000_0000 && (op.Close? ==> IsCell(op.p))
  }

  lemma OpenMovesNoId(r: Registry, key: Key, uid: nat)
    requires Unique(r) && uid < r.created
    ensures IdOf(Apply(r, Open(key)).0.entries, uid) == IdOf(r.entries, uid)
  {
    var r' := Apply(r, Open(key)).0;
    if r' != r {
      assert r'.entries[..|r'.entries| - 1] == r.entries;
    }
  }

  /** Erasing position k of the vector: the ids behind it fall by one, the erased one is gone. */
  lemma ErasingMovesId(entries: seq<Entry>, k: nat, uid: nat)
    requires forall i, j :: 0 <= i < j < |entries| ==> entries[i].uid != entries[j].uid
    requires k < |entries|
    ensures IdOf(Without(entries, k), uid) == Follow(IdOf(entries, uid), Close(k + 1))
  {
    var rest := Without(entries, k);
    IdOfMeaning(entries, uid);
    match IdOf(entries, uid)
    case None => IdOfMeaning(rest, uid);
    case Some(x) =>
      if x == k + 1 {
        IdOfMeaning(rest, uid);
      } else {
        IdOfIs(rest, uid, if k + 1 < x then x - 1 else x);
      }
  }

  lemma CloseMovesId(r: Registry, p: int, uid: nat)
    requires Unique(r) && Small(r, Close(p))
    ensures IdOf(Apply(r, Close(p)).0.entries, uid) == Follow(IdOf(r.entries, uid), Close(p))
  {
    IdCheckIsExact(|r.entries|);
    if Index(p) < |r.entries| {
      assert Index(p) + 1 == p;
      ErasingMovesId(r.entries, Index(p), uid);
    } else {
      IdOfMeaning(r.entries, uid);
    }
  }

  lemma ApplyMovesId(r: Registry, op: Op, uid: nat)
    requires Unique(r) && uid < r.created && Small(r, op)
    ensures IdOf(Apply(r, op).0.entries, uid) == Follow(IdOf(r.entries, uid), op)
  {
    match op
    case Open(key) => OpenMovesNoId(r, key, uid);
    case Close(p) => CloseMovesId(r, p, uid);
  }

  predicate AllSmall(r: Registry, ops: seq<Op>)
    decreases |ops|
  {
    ops == [] || (Small(r, ops[0]) && AllSmall(Apply(r, ops[0]).0, ops[1..]))
  }

  lemma {:induction false} HistoryMovesId(r: Registry, ops: seq<Op>, uid: nat)
    requires Unique(r) && uid < r.created && AllSmall(r, ops)
    ensures IdOf(History(r, ops).entries, uid) == FollowAll(IdOf(r.entries, uid), ops)
    decreases |ops|
  {
    if ops != [] {
      ApplyKeepsUnique(r, ops[0]);
      ApplyMovesId(r, ops[0], uid);
      HistoryMovesId(Apply(r, ops[0]).0, ops[1..], uid);
    }
  }

  lemma {:induction false} FollowIsSubtraction(id: Option<int>, ops: seq<Op>)
    requires id.Some?
    ensures FollowAll(id, ops).Some? ==> FollowAll(id, ops).value == id.value - SmallerCloses(id, ops)
    decreases |ops|
  {
    if ops != [] {
      var next := Follow(id, ops[0]);
      if next.Some? {
        FollowIsSubtraction(next, ops[1..]);
      } else {
        DeadStaysDead(ops[1..]);
      }
    }
  }

  lemma {:induction false} DeadStaysDead(ops: seq<Op>)
    ensures FollowAll(None, ops) == None
    decreases |ops|
  {
    if ops != [] {
      DeadStaysDead(ops[1..]);
    }
  }

  /** Handle identity. A handle that mysql_connect has issued keeps, through any further connects and closes, exactly
      the id that a script computes by itself: it is gone once its own id is closed, and otherwise its id is the issued
      one minus the number of closes of ids that were smaller at the time. */
  lemma IdsCanBeFollowed(before: seq<Op>, key: Key, after: seq<Op>)
    requires var r := History(EMPTY_REGISTRY, before); Small(r, Open(key)) && AllSmall(Apply(r, Open(key)).0, after)
    ensures var (r, id) := Apply(History(EMPTY_REGISTRY, before), Open(key));
      && 1 <= id <= |r.entries|
      && var now := IdOf(History(r, after).entries, r.entries[id - 1].uid);
      && now == FollowAll(Some(id), after)
      && (now.Some? ==> now.value == id - SmallerCloses(Some(id), after))
  {
    var start := History(EMPTY_REGISTRY, before);
    HistoryKeepsUnique(EMPTY_REGISTRY, before);
    ConnectIsIdempotent(before, key);
    ApplyKeepsUnique(start, Open(key));
    var (r, id) := Apply(start, Open(key));
    var uid := r.entries[id - 1].uid;
    IdOfIs(r.entries, uid, id);
    HistoryMovesId(r, after, uid);
    FollowIsSubtraction(Some(id), after);
  }
}
