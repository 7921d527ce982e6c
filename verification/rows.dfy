// Result sets, the row cursor of a handle, and the text that the fetch natives hand to scripts.

module Rows {
  import opened Options
  import opened CharStream

  /** A MYSQL_RES: column names, rows of C strings (None for SQL NULL) and the position of mysql_fetch_row. */
  datatype ResultSet = ResultSet(names: seq<string>, rows: seq<seq<Option<string>>>, next: nat)

  predicate CString(t: string) { '\0' !in t }

  predicate WellFormed(r: ResultSet) {
    && r.next <= |r.rows|
    && (forall i :: 0 <= i < |r.rows| ==> |r.rows[i]| == |r.names|)
    && (forall i, j :: 0 <= i < |r.rows| && 0 <= j < |r.rows[i]| && r.rows[i][j].Some? ==> CString(r.rows[i][j].value))
  }

  datatype RowRef = RowRef(owner: nat, row: nat)

  /** The members of CMySQLHandler behind the fetch natives. Result sets are known by their index in `results`, the
      list of all that mysql_store_result has returned; `freed` are those passed to mysql_free_result. */
  datatype Cursor = Cursor(
    results: seq<ResultSet>, freed: set<nat>,
    stResult: Option<nat>, stRow: Option<RowRef>, stField: Option<nat>, fields: nat,
    stream: Stream, szResult: string, delimiter: string)

  predicate Live(c: Cursor, r: nat) { r < |c.results| && r !in c.freed }

  /** m_stResult is NULL or unfreed; a non-NULL row, its fields and their number come from one unfreed result. */
  ghost predicate Coherent(c: Cursor) {
    && (forall i :: 0 <= i < |c.results| ==> WellFormed(c.results[i]))
    && (forall r :: r in c.freed ==> r < |c.results|)
    && (c.stResult.Some? ==> Live(c, c.stResult.value))
    && (c.stRow.Some? ==>
          var at := c.stRow.value;
          && Live(c, at.owner) && at.row < |c.results[at.owner].rows|
          && c.stField == Some(at.owner) && c.fields == |c.results[at.owner].names|)
  }

  /** Between natives the stream can be read, or it is stuck: spent, with both flags set, and the last text empty. */
  predicate Tidy(c: Cursor) {
    && Valid(c.stream)
    && (Good(c.stream) || (c.stream == Stream(c.stream.text, |c.stream.text|, true, true) && c.szResult == ""))
  }

  // ---------- rendering ----------

  function Shown(v: Option<string>): string { if v.Some? then v.value else "NULL" }

  /** What FetchRow inserts for a row: every value followed by the delimiter. */
  function Render(row: seq<Option<string>>, delimiter: string): string {
    if row == [] then "" else Render(row[..|row| - 1], delimiter) + Shown(row[|row| - 1]) + delimiter
  }

  function Join(values: seq<string>, delimiter: string): string {
    if values == [] then ""
    else if |values| == 1 then values[0]
    else Join(values[..|values| - 1], delimiter) + delimiter + values[|values| - 1]
  }

  function Split(t: string, d: char): (r: seq<string>)
    ensures r != []
  {
    if t == "" then [""]
    else
      var front := Split(t[..|t| - 1], d);
      if t[|t| - 1] == d then front + [""]
      else front[..|front| - 1] + [front[|front| - 1] + [t[|t| - 1]]]
  }

  function ShownAll(row: seq<Option<string>>): (r: seq<string>)
    ensures |r| == |row| && forall i :: 0 <= i < |row| ==> r[i] == Shown(row[i])
  {
    if row == [] then [] else ShownAll(row[..|row| - 1]) + [Shown(row[|row| - 1])]
  }

  lemma {:induction false} RenderIsJoin(row: seq<Option<string>>, delimiter: string)
    requires row != []
    ensures Render(row, delimiter) == Join(ShownAll(row), delimiter) + delimiter
  {
    var front := row[..|row| - 1];
    assert ShownAll(row)[..|row| - 1] == ShownAll(front);
    if |row| == 1 {
      assert Render(front, delimiter) == "";
    } else {
      RenderIsJoin(front, delimiter);
    }
  }

  /** Cutting the last character off the rendered row leaves the join exactly for one-character delimiters: a longer
      one leaves part of itself behind, an empty one costs a character of data. */
  lemma CutIsJoin(row: seq<Option<string>>, delimiter: string)
    requires row != [] && Render(row, delimiter) != ""
    ensures var t := Render(row, delimiter);
      t[..|t| - 1] == Join(ShownAll(row), delimiter) <==> |delimiter| == 1
  {
    RenderIsJoin(row, delimiter);
    var t, j := Render(row, delimiter), Join(ShownAll(row), delimiter);
    assert |t| == |j| + |delimiter|;
    if |delimiter| == 1 {
      assert t[..|t| - 1] == j;
    }
  }

  /** `r` with `piece` added to its last entry. */
  function Grow(r: seq<string>, piece: string): seq<string>
    requires r != []
  {
    r[..|r| - 1] + [r[|r| - 1] + piece]
  }

  lemma {:induction false} SplitPiece(t: string, piece: string, d: char)
    requires d !in piece
    ensures Split(t + piece, d) == Grow(Split(t, d), piece)
  {
    var r := Split(t, d);
    if piece == "" {
      assert t + piece == t;
      assert r[|r| - 1] + piece == r[|r| - 1];
    } else {
      var front, last := piece[..|piece| - 1], piece[|piece| - 1];
      assert last in piece;
      SplitPiece(t, front, d);
      assert (t + piece)[..|t + piece| - 1] == t + front;
      assert Split(t + piece, d) == Grow(Grow(r, front), [last]);
      assert (r[|r| - 1] + front) + [last] == r[|r| - 1] + piece;
    }
  }

  lemma SplitAtDelimiter(t: string, last: string, d: char)
    requires d !in last
    ensures Split(t + [d] + last, d) == Split(t, d) + [last]
  {
    assert (t + [d])[..|t|] == t;
    SplitPiece(t + [d], last, d);
    assert "" + last == last;
  }

  /** Splitting a joined row at the delimiter gives the fields back, when no field contains it. */
  lemma {:induction false} SplitJoin(values: seq<string>, d: char)
    requires values != [] && forall v :: v in values ==> d !in v
    ensures Split(Join(values, [d]), d) == values
  {
    var front, last := values[..|values| - 1], values[|values| - 1];
    assert last in values && values == front + [last];
    if |values| == 1 {
      SplitPiece("", last, d);
      assert "" + last == last;
    } else {
      assert forall v :: v in front ==> v in values;
      SplitJoin(front, d);
      SplitAtDelimiter(Join(front, [d]), last, d);
    }
  }

  // ---------- fetching ----------

  /** The loop of FetchRow over the fields: a stream that is good takes the whole row, any other takes nothing. */
  function InsertRow(s: Stream, row: seq<Option<string>>, delimiter: string): Stream {
    if Good(s) || row == [] then s.(text := s.text + Render(row, delimiter)) else s.(fail := true)
  }

  lemma InsertRowStep(s: Stream, row: seq<Option<string>>, i: nat, delimiter: string)
    requires i < |row|
    ensures InsertRow(s, row[..i + 1], delimiter)
      == Insert(Insert(InsertRow(s, row[..i], delimiter), Shown(row[i])), delimiter)
  {
    assert row[..i + 1][..i] == row[..i];
    var before := Render(row[..i], delimiter);
    assert s.text + before + Shown(row[i]) + delimiter == s.text + (before + Shown(row[i]) + delimiter);
  }

  /** The end of FetchRow: the text of the row is read back, cut, and returned. */
  function CutText(c: Cursor): (Cursor, string)
    requires Valid(c.stream)
  {
    var (s, line) := ReadBack(c.stream, c.szResult);
    if line == "" then (c.(stream := s, szResult := line), "NULL")
    else
      var cut := line[..|line| - 1];
      (c.(stream := Clear(s), szResult := cut), cut)
  }

  function ReadRow(c: Cursor, row: seq<Option<string>>): (Cursor, string)
    requires Valid(c.stream)
  {
    CutText(c.(stream := InsertRow(c.stream, row, c.delimiter)))
  }

  predicate HasRow(c: Cursor) {
    c.stResult.Some? && c.stResult.value < |c.results|
    && var r := c.results[c.stResult.value]; r.next < |r.rows|
  }

  function NextRow(c: Cursor): seq<Option<string>>
    requires HasRow(c)
  {
    c.results[c.stResult.value].rows[c.results[c.stResult.value].next]
  }

  /** mysql_num_fields, mysql_fetch_fields and mysql_fetch_row on the current result. */
  function Advance(c: Cursor): Cursor
    requires c.stResult.Some? && c.stResult.value < |c.results|
  {
    var k := c.stResult.value;
    var r := c.results[k];
    var c' := c.(fields := |r.names|, stField := Some(k));
    if r.next < |r.rows| then c'.(stRow := Some(RowRef(k, r.next)), results := c.results[k := r.(next := r.next + 1)])
    else c'.(stRow := None)
  }

  /** CMySQLHandler::FetchRow. */
  function FetchRow(c: Cursor, connected: bool): (Cursor, string)
    requires Coherent(c) && Valid(c.stream)
  {
    if !connected || c.stResult.None? then (c, "NULL")
    else if HasRow(c) then ReadRow(Advance(c), NextRow(c))
    else (Advance(c), "NULL")
  }

  /** The first column of the given name, or the number of columns. */
  function Column(names: seq<string>, name: string): (i: nat)
    ensures i <= |names|
    ensures i < |names| ==> names[i] == name
    ensures forall j :: 0 <= j < i ==> names[j] != name
  {
    if names == [] || names[0] == name then 0 else 1 + Column(names[1..], name)
  }

  function CurrentRow(c: Cursor): seq<Option<string>>
    requires Coherent(c) && c.stRow.Some?
  {
    c.results[c.stRow.value.owner].rows[c.stRow.value.row]
  }

  /** CMySQLHandler::FetchField. */
  function FetchField(c: Cursor, connected: bool, name: string): (Cursor, bool)
    requires Coherent(c) && Valid(c.stream)
  {
    if !connected || c.stField.None? || c.stRow.None? then (c, false)
    else
      var i := Column(c.results[c.stRow.value.owner].names, name);
      var filled := if i < c.fields then Insert(c.stream, Shown(CurrentRow(c)[i])) else c.stream;
      var (s, line) := ReadBack(filled, c.szResult);
      (c.(stream := Clear(s), szResult := line), true)
  }

  function RetrieveRow(c: Cursor, connected: bool): (Cursor, bool)
    requires Coherent(c)
  {
    if !connected || c.stResult.None? then (c, false) else (Advance(c), HasRow(c))
  }

  /** CMySQLHandler::StoreResult; `incoming` is what mysql_store_result returns. */
  function StoreResult(c: Cursor, connected: bool, incoming: Option<ResultSet>): (Cursor, bool) {
    if !connected then (c, false)
    else match incoming
      case None => (c.(stResult := None), false)
      case Some(r) => (c.(results := c.results + [r], stResult := Some(|c.results|)), true)
  }

  function FreeResult(c: Cursor, connected: bool): (Cursor, bool) {
    if !connected then (c, false)
    else match c.stResult
      case None => (c, true)
      case Some(r) => (c.(freed := c.freed + {r}, stResult := None, stRow := None), true)
  }

  /** What the worker does to the row cursor when a ping fails: an unread result is stored and freed at once. */
  function Discard(c: Cursor, incoming: Option<ResultSet>): Cursor {
    match incoming
    case None => c.(stResult := None)
    case Some(r) => c.(results := c.results + [r], freed := c.freed + {|c.results|}, stResult := None)
  }

  // ---------- the natives ----------

  /** mysql_fetch_row_format: the text for the script, or None when it returns 0. */
  function FetchRowFormat(c: Cursor, connected: bool, delimiter: string): (Cursor, Option<string>)
    requires Coherent(c) && Valid(c.stream)
  {
    var (c', text) := FetchRow(c.(delimiter := delimiter), connected);
    if text == "NULL" then (c', None) else (c'.(szResult := ""), Some(text))
  }

  /** mysql_fetch_field_row: the text for the script. */
  function FetchFieldRow(c: Cursor, connected: bool, name: string): (Cursor, string)
    requires Coherent(c) && Valid(c.stream)
  {
    var c' := FetchField(c, connected, name).0;
    (c'.(szResult := ""), c'.szResult)
  }

  predicate IsDigit(ch: char) { '0' <= ch <= '9' }

  predicate AllDigits(t: string) { forall i :: 0 <= i < |t| ==> IsDigit(t[i]) }

  /** The C string that begins at a std::string's buffer. */
  function CPrefix(t: string): (r: string)
    ensures |r| <= |t| && r == t[..|r|] && CString(r)
    ensures |r| < |t| ==> t[|r|] == '\0'
  {
    if t == "" || t[0] == '\0' then "" else [t[0]] + CPrefix(t[1..])
  }

  lemma CPrefixIs(t: string, n: nat)
    requires n <= |t| && (forall j :: 0 <= j < n ==> t[j] != '\0') && (n < |t| ==> t[n] == '\0')
    ensures CPrefix(t) == t[..n]
  {
    assert forall i :: 0 <= i < |CPrefix(t)| ==> CPrefix(t)[i] in CPrefix(t);
  }

  function Decimal(t: string): nat
    requires AllDigits(t)
  {
    if t == "" then 0 else 10 * Decimal(t[..|t| - 1]) + (t[|t| - 1] - '0') as nat
  }

  const MAX_CELL := 0x7FFF_FFFF

  /** Extraction of a 32-bit cell from a text of digits: the value, or the largest cell on overflow. */
  function ToCell(t: string): int
    requires AllDigits(t)
  {
    if Decimal(t) <= MAX_CELL then Decimal(t) else MAX_CELL
  }

  /** mysql_fetch_int. */
  function FetchInt(c: Cursor, connected: bool): (Cursor, int)
    requires Coherent(c) && Valid(c.stream)
  {
    var c' := FetchRow(c.(delimiter := " "), connected).0;
    var digits := CPrefix(c'.szResult);
    if AllDigits(digits) && c'.szResult != "" then (c'.(szResult := ""), ToCell(digits)) else (c', -1)
  }
}
