// Which rows and fields the fetch natives hand out, said of the rows of the result themselves.

module Retrieving {
  import opened Options
  import opened CharStream
  import opened Rows
  import opened Fetching

  /** What a script is shown of one value: its text, or the word NULL. */
  predicate Stands(value: string, v: Option<string>) {
    match v
    case None => value == "NULL"
    case Some(text) => value == text
  }

  predicate StandsForAll(values: seq<string>, row: seq<Option<string>>) {
    |values| == |row| && forall i :: 0 <= i < |row| ==> Stands(values[i], row[i])
  }

  lemma StandingIsShown(values: seq<string>, row: seq<Option<string>>)
    requires StandsForAll(values, row)
    ensures ShownAll(row) == values
  {
    forall i | 0 <= i < |row| ensures ShownAll(row)[i] == values[i] {
      assert Stands(values[i], row[i]);
    }
  }

  // ---------- rows ----------

  /** A row without a newline, from a clean stream: the text is the values and the word NULL for missing ones, joined, for
      one-character delimiters and no others; and it can be split again when no value contains the delimiter. */
  lemma RowTextInFull(c: Cursor, t: string, values: seq<string>)
    requires Offers(c, t) && t != "" && !HasNewline(t) && StandsForAll(values, NextRow(c))
    ensures var text := FetchRow(c, true).1;
      && (text == Join(values, c.delimiter) <==> |c.delimiter| == 1)
      && (|c.delimiter| == 1 && (forall v :: v in values ==> c.delimiter[0] !in v) ==>
            Split(text, c.delimiter[0]) == values)
  {
    StandingIsShown(values, NextRow(c));
    RowTextIsTheJoin(c, t);
  }

  /** The row that is only a missing value reads as the end of the result, for every one-character delimiter that is not
      the newline. */
  lemma MissingValueLooksLikeTheEnd(c: Cursor, d: char)
    requires Coherent(c) && Clean(c.stream) && HasRow(c) && NextRow(c) == [None] && d != '\n'
    ensures FetchRowFormat(c, true, [d]).1 == None
  {
    MissingValueText(d);
    WholeRowText(c.(delimiter := [d]), "NULL" + [d]);
  }

  lemma MissingValueText(d: char)
    ensures Render([None], [d]) == "NULL" + [d] && ("NULL" + [d])[..4] == "NULL"
    ensures d != '\n' ==> !HasNewline("NULL" + [d])
  {
    StandingIsShown(["NULL"], [None]);
    RenderIsJoin([None], [d]);
  }

  // ---------- fields ----------

  /** i is the first column of that name. */
  predicate FirstColumn(names: seq<string>, name: string, i: nat) {
    i < |names| && names[i] == name && forall j :: 0 <= j < i ==> names[j] != name
  }

  lemma ColumnIs(names: seq<string>, name: string, i: nat)
    requires FirstColumn(names, name, i)
    ensures Column(names, name) == i
  {
  }

  /** The names of the columns of the current result. */
  function Names(c: Cursor): seq<string>
    requires Coherent(c) && c.stResult.Some?
  {
    c.results[c.stResult.value].names
  }

  /** On the row just reached, from a clean stream: the field is the value of that row in the first column of the name. */
  lemma FieldOfTheRow(c: Cursor, name: string, i: nat, value: string)
    requires Coherent(c) && Clean(c.stream) && HasRow(c) && FirstColumn(Names(c), name, i)
    requires Stands(value, NextRow(c)[i])
    ensures Coherent(Advance(c)) && Valid(Advance(c).stream)
    ensures FetchFieldRow(Advance(c), true, name).1 == value <==> !HasNewline(value)
  {
    AdvanceKeepsCoherent(c);
    ColumnIs(Names(c), name, i);
    FieldText(Advance(c), name);
  }

  /** mysql_retrieve_row and then mysql_fetch_field_row: the script gets the field of the row that was retrieved, if and
      only if the value has no newline. */
  lemma RetrievedField(c: Cursor, name: string, i: nat, value: string)
    requires Coherent(c) && Clean(c.stream) && HasRow(c) && FirstColumn(Names(c), name, i)
    requires Stands(value, NextRow(c)[i])
    ensures RetrieveRow(c, true).1 && Coherent(RetrieveRow(c, true).0) && Valid(RetrieveRow(c, true).0.stream)
    ensures FetchFieldRow(RetrieveRow(c, true).0, true, name).1 == value <==> !HasNewline(value)
  {
    FieldOfTheRow(c, name, i, value);
  }

  /** The cursor after k calls of mysql_retrieve_row. */
  function Retrieved(c: Cursor, k: nat): (r: Cursor)
    requires Coherent(c)
    ensures Coherent(r)
  {
    if k == 0 then c
    else
      var before := Retrieved(c, k - 1);
      if before.stResult.Some? then AdvanceKeepsCoherent(before); RetrieveRow(before, true).0
      else RetrieveRow(before, true).0
  }

  lemma OneRetrieved(c: Cursor)
    requires Coherent(c) && c.stResult.Some? && Remaining(c) != []
    ensures var r := RetrieveRow(c, true).0;
      && Coherent(r) && r.stResult == c.stResult && r.stream == c.stream && Names(r) == Names(c)
      && Remaining(r) == Remaining(c)[1..]
  {
    AdvanceKeepsCoherent(c);
  }

  lemma {:induction false} RetrievedRows(c: Cursor, k: nat)
    requires Coherent(c) && c.stResult.Some? && k <= |Remaining(c)|
    ensures var r := Retrieved(c, k);
      r.stResult == c.stResult && r.stream == c.stream && Names(r) == Names(c) && Remaining(r) == Remaining(c)[k..]
  {
    if k > 0 {
      RetrievedRows(c, k - 1);
      OneRetrieved(Retrieved(c, k - 1));
    }
  }

  /** After k + 1 calls of mysql_retrieve_row the fields are those of row k of what was left of the result. */
  lemma FieldOfTheKthRow(c: Cursor, k: nat, name: string, i: nat, value: string)
    requires Coherent(c) && Clean(c.stream) && c.stResult.Some? && k < |Remaining(c)| && FirstColumn(Names(c), name, i)
    requires i < |Remaining(c)[k]| && Stands(value, Remaining(c)[k][i])
    ensures Valid(Retrieved(c, k + 1).stream)
    ensures FetchFieldRow(Retrieved(c, k + 1), true, name).1 == value <==> !HasNewline(value)
  {
    RetrievedRows(c, k);
    var before := Retrieved(c, k);
    assert Remaining(before)[0] == Remaining(c)[k] == NextRow(before);
    RetrievedField(before, name, i, value);
  }

  /** After a row that printed, the fields are those of that row. */
  lemma FieldAfterFetchRow(c: Cursor, t: string, name: string, i: nat, value: string)
    requires Offers(c, t) && t != "" && !HasNewline(t) && FirstColumn(Names(c), name, i) && Stands(value, NextRow(c)[i])
    ensures Coherent(FetchRow(c, true).0) && Valid(FetchRow(c, true).0.stream)
    ensures FetchFieldRow(FetchRow(c, true).0, true, name).1 == value <==> !HasNewline(value)
  {
    FetchRowKeeps(c, true);
    WholeRowText(c, t);
    ColumnIs(Names(c), name, i);
    FieldText(Past(c, t), name);
  }

  // ---------- storing and freeing ----------

  /** Behind the last row there is no row and no field, and the result stays. */
  lemma RowsRunOut(c: Cursor, name: string)
    requires Coherent(c) && Valid(c.stream) && c.stResult.Some? && Remaining(c) == []
    ensures var (c', ok) := RetrieveRow(c, true);
      && !ok && Coherent(c') && c'.stRow.None? && c'.stResult == c.stResult && Remaining(c') == []
      && c'.stream == c.stream && !FetchField(c', true, name).1
    ensures FetchRow(c, true) == (RetrieveRow(c, true).0, "NULL")
  {
    AdvanceKeepsCoherent(c);
  }

  /** A store and a loss of the connection leave the row that is current, the stream and the kept text. */
  predicate SameRow(c: Cursor, c': Cursor) {
    && c'.stRow == c.stRow && c'.stream == c.stream && c'.szResult == c.szResult
    && (c.stRow.Some? && c.stRow.value.owner < |c.results| ==>
          c.stRow.value.owner < |c'.results| && c'.results[c.stRow.value.owner] == c.results[c.stRow.value.owner])
  }

  /** A stored result is fetched from its own rows, in order. */
  lemma StoredRowsComeNext(c: Cursor, r: ResultSet)
    requires Coherent(c) && WellFormed(r)
    ensures var (c', ok) := StoreResult(c, true, Some(r));
      && ok && Coherent(c') && c'.stResult.Some? && Remaining(c') == r.rows[r.next..] && Names(c') == r.names
      && (HasRow(c') <==> r.next < |r.rows|) && (HasRow(c') ==> NextRow(c') == r.rows[r.next])
      && SameRow(c, c')
  {
  }

  /** When there is no result to store, there is no row to fetch. */
  lemma NothingStored(c: Cursor)
    ensures var (c', ok) := StoreResult(c, true, None); !ok && !HasRow(c') && SameRow(c, c')
  {
  }

  /** After a free there is no result, no row and no field, and exactly the current result has been freed. */
  lemma FreedResultIsGone(c: Cursor, name: string)
    requires Coherent(c) && Valid(c.stream) && c.stResult.Some?
    ensures var (c', ok) := FreeResult(c, true);
      && ok && Coherent(c') && !HasRow(c') && c'.stRow.None? && c'.freed == c.freed + {c.stResult.value}
      && !FetchField(c', true, name).1 && !RetrieveRow(c', true).1
  {
  }

  /** After a failed ping there is no row to fetch until a result is stored again; an unread result has been freed. */
  lemma LostResultIsGone(c: Cursor, incoming: Option<ResultSet>)
    requires Coherent(c) && (incoming.Some? ==> WellFormed(incoming.value))
    ensures var c' := Discard(c, incoming);
      && Coherent(c') && !HasRow(c') && c'.stResult.None? && SameRow(c, c')
      && (incoming.Some? ==> |c'.results| == |c.results| + 1 && !Live(c', |c.results|))
      && (forall r :: 0 <= r < |c.results| ==> (Live(c', r) <==> Live(c, r)))
  {
  }

  /** On a dead connection nothing is fetched, stored or freed, and nothing moves. */
  lemma DeadHandleFetchesNothing(c: Cursor, delimiter: string, incoming: Option<ResultSet>)
    requires Coherent(c) && Valid(c.stream)
    ensures FetchRowFormat(c, false, delimiter) == (c.(delimiter := delimiter), None)
    ensures RetrieveRow(c, false) == (c, false) && FreeResult(c, false) == (c, false)
    ensures StoreResult(c, false, incoming) == (c, false)
  {
  }

  // ---------- texts left behind ----------

  /** Without a current row mysql_fetch_field_row hands out whatever text was left in m_szResult. */
  lemma LeftTextIsHandedOut(c: Cursor, connected: bool, name: string)
    requires Coherent(c) && Valid(c.stream) && (!connected || c.stRow.None?)
    ensures FetchFieldRow(c, connected, name) == (c.(szResult := ""), c.szResult)
  {
  }

  /** A text or a number that has been handed out is not kept. */
  lemma HandedOutIsCleared(c: Cursor, connected: bool, delimiter: string, name: string)
    requires Coherent(c) && Valid(c.stream)
    ensures var (c', text) := FetchRowFormat(c, connected, delimiter); text.Some? ==> c'.szResult == ""
    ensures FetchFieldRow(c, connected, name).0.szResult == ""
    ensures var (c', n) := FetchInt(c, connected); n != -1 ==> c'.szResult == ""
  {
  }

  /** The single column of a row. */
  lemma SingleColumn(v: string)
    ensures Render([Some(v)], " ") == v + " " && Render([Some(v)], " ")[..|v|] == v
  {
    StandingIsShown([v], [Some(v)]);
    RenderIsJoin([Some(v)], " ");
  }

  lemma TextIsNoInteger(c: Cursor, v: string)
    requires Coherent(c) && Clean(c.stream) && HasRow(c) && NextRow(c) == [Some(v)]
    requires v != "" && !HasNewline(v) && !AllDigits(v)
    ensures FetchInt(c, true).1 == -1
  {
    SingleColumn(v);
    FetchIntIsWorth(c, v + " ");
  }

  /** mysql_fetch_int leaves the text of a column that it could not take for an integer. */
  lemma IntLeavesText(c: Cursor, v: string)
    requires Coherent(c) && Clean(c.stream) && HasRow(c) && NextRow(c) == [Some(v)]
    requires v != "" && !HasNewline(v) && !AllDigits(v)
    ensures var (c', r) := FetchInt(c, true);
      r == -1 && c'.szResult == v && Coherent(c') && Valid(c'.stream) && c'.stResult.Some?
  {
    TextIsNoInteger(c, v);
    FailedIntIsFetchRow(c);
    var d := c.(delimiter := " ");
    SingleColumn(v);
    WholeRowText(d, v + " ");
    FetchRowKeeps(d, true);
  }

  lemma FailedIntIsFetchRow(c: Cursor)
    requires Coherent(c) && Valid(c.stream) && FetchInt(c, true).1 == -1
    ensures FetchInt(c, true).0 == FetchRow(c.(delimiter := " "), true).0
  {
  }

  /** So that text is handed out by the next mysql_fetch_field_row, even after the result has been freed, whatever the
      field it asks for. */
  lemma StaleText(c: Cursor, v: string, name: string)
    requires Coherent(c) && Clean(c.stream) && HasRow(c) && NextRow(c) == [Some(v)]
    requires v != "" && !HasNewline(v) && !AllDigits(v)
    ensures Coherent(FetchInt(c, true).0) && Coherent(FreeResult(FetchInt(c, true).0, true).0)
    ensures Valid(FreeResult(FetchInt(c, true).0, true).0.stream)
    ensures FetchFieldRow(FreeResult(FetchInt(c, true).0, true).0, true, name).1 == v
  {
    IntLeavesText(c, v);
    FreedText(FetchInt(c, true).0, name);
  }

  lemma FreedText(c: Cursor, name: string)
    requires Coherent(c) && Valid(c.stream) && c.stResult.Some?
    ensures var c' := FreeResult(c, true).0;
      Coherent(c') && Valid(c'.stream) && FetchFieldRow(c', true, name).1 == c.szResult
  {
    FreedResultIsGone(c, name);
  }

  // ---------- characters ----------

  /** The characters that end a word, and the digits. */
  lemma CharacterClasses(x: char)
    ensures IsSpace(x) <==> x in " \t\n\U{B}\U{C}\r"
    ensures IsDigit(x) <==> x in "0123456789"
  {
  }
}
