// What scripts can rely on when they fetch rows, fields and integers through the one stream of a handle.

module Fetching {
  import opened Options
  import opened CharStream
  import opened Rows

  // ---------- the cursor and the stream between natives ----------

  datatype Call =
    | RowFormat(delimiter: string) | FieldRow(name: string) | Int | Float | Retrieve
    | Store(incoming: Option<ResultSet>) | Free | Lost(incoming: Option<ResultSet>)

  predicate Acceptable(call: Call) {
    (call.Store? || call.Lost?) && call.incoming.Some? ==> WellFormed(call.incoming.value)
  }

  /** mysql_fetch_float without the number it parses: a text that is not empty is taken and cleared. */
  function FetchFloat(c: Cursor, connected: bool): Cursor
    requires Coherent(c) && Valid(c.stream)
  {
    FetchRow(c.(delimiter := " "), connected).0.(szResult := "")
  }

  function Perform(c: Cursor, connected: bool, call: Call): Cursor
    requires Coherent(c) && Valid(c.stream)
  {
    match call
    case RowFormat(delimiter) => FetchRowFormat(c, connected, delimiter).0
    case FieldRow(name) => FetchFieldRow(c, connected, name).0
    case Int => FetchInt(c, connected).0
    case Float => FetchFloat(c, connected)
    case Retrieve => RetrieveRow(c, connected).0
    case Store(incoming) => StoreResult(c, connected, incoming).0
    case Free => FreeResult(c, connected).0
    case Lost(incoming) => Discard(c, incoming)
  }

  /** The last text cannot be taken for an integer. */
  predicate NotANumber(t: string) { t == "" || !AllDigits(CPrefix(t)) }

  /** What holds between any two natives. */
  ghost predicate Settled(c: Cursor) { Coherent(c) && Tidy(c) && NotANumber(c.szResult) }

  lemma AdvanceKeepsCoherent(c: Cursor)
    requires Coherent(c) && c.stResult.Some?
    ensures Coherent(Advance(c))
  {
  }

  /** Reading a row back leaves a stream that is good, or stuck with the empty text. */
  lemma ReadRowKeepsTidy(c: Cursor, row: seq<Option<string>>)
    requires Tidy(c)
    ensures var (c', text) := ReadRow(c, row);
      Tidy(c') && (c'.szResult == text || (c'.szResult == "" && text == "NULL")) && c' == c.(stream := c'.stream, szResult := c'.szResult)
  {
    var s := InsertRow(c.stream, row, c.delimiter);
    if !Good(c.stream) {
      ReadBackStuck(s, c.szResult);
    } else if HasNewline(Unread(s)) {
      ReadBackBroken(s, c.szResult);
    } else {
      ReadBackWhole(s, c.szResult);
    }
  }

  lemma FetchRowKeeps(c: Cursor, connected: bool)
    requires Coherent(c) && Tidy(c)
    ensures var (c', text) := FetchRow(c, connected);
      && Coherent(c') && Tidy(c')
      && (c'.szResult == text || (text == "NULL" && (c'.szResult == "" || c'.szResult == c.szResult)))
  {
    if connected && c.stResult.Some? {
      AdvanceKeepsCoherent(c);
      if HasRow(c) {
        ReadRowKeepsTidy(Advance(c), NextRow(c));
      }
    }
  }

  lemma FetchFieldKeeps(c: Cursor, connected: bool, name: string)
    requires Coherent(c) && Tidy(c)
    ensures var c' := FetchField(c, connected, name).0;
      Coherent(c') && Valid(c'.stream) && (c' == c || Good(c'.stream))
  {
  }

  lemma NullIsNotANumber()
    ensures NotANumber("NULL")
  {
    assert CPrefix("NULL") == ['N'] + CPrefix("NULL"[1..]);
    assert !IsDigit(CPrefix("NULL")[0]);
  }

  lemma RowFormatKeepsSettled(c: Cursor, connected: bool, delimiter: string)
    requires Settled(c)
    ensures Settled(FetchRowFormat(c, connected, delimiter).0)
  {
    FetchRowKeeps(c.(delimiter := delimiter), connected);
    NullIsNotANumber();
  }

  lemma FieldRowKeepsSettled(c: Cursor, connected: bool, name: string)
    requires Settled(c)
    ensures Settled(FetchFieldRow(c, connected, name).0)
  {
    FetchFieldKeeps(c, connected, name);
  }

  /** A text that a script has taken is cleared, which settles the cursor again. */
  lemma ClearedIsSettled(c: Cursor)
    requires Coherent(c) && Tidy(c)
    ensures Settled(c.(szResult := ""))
  {
  }

  lemma IntKeepsSettled(c: Cursor, connected: bool)
    requires Settled(c)
    ensures Settled(FetchInt(c, connected).0)
  {
    var d := c.(delimiter := " ");
    FetchRowKeeps(d, connected);
    ClearedIsSettled(FetchRow(d, connected).0);
  }

  lemma FloatKeepsSettled(c: Cursor, connected: bool)
    requires Settled(c)
    ensures Settled(FetchFloat(c, connected))
  {
    var d := c.(delimiter := " ");
    FetchRowKeeps(d, connected);
    ClearedIsSettled(FetchRow(d, connected).0);
  }

  /** Every native, on a live or a dead connection, keeps the row cursor coherent, the stream tidy, and leaves no text
      behind that mysql_fetch_int could mistake for an integer. */
  lemma PerformKeepsSettled(c: Cursor, connected: bool, call: Call)
    requires Settled(c) && Acceptable(call)
    ensures Settled(Perform(c, connected, call))
  {
    match call
    case RowFormat(delimiter) => RowFormatKeepsSettled(c, connected, delimiter);
    case FieldRow(name) => FieldRowKeepsSettled(c, connected, name);
    case Int => IntKeepsSettled(c, connected);
    case Float => FloatKeepsSettled(c, connected);
    case _ =>
  }

  /** Any run of natives, from the cursor of a new handle on: the invariant of PerformKeepsSettled holds throughout. */
  function Performed(c: Cursor, calls: seq<(bool, Call)>): Cursor
    requires Settled(c) && forall call :: call in calls ==> Acceptable(call.1)
    ensures Settled(Performed(c, calls))
    decreases |calls|
  {
    if calls == [] then c
    else
      assert calls[0] in calls && forall call :: call in calls[1..] ==> call in calls;
      PerformKeepsSettled(c, calls[0].0, calls[0].1);
      Performed(Perform(c, calls[0].0, calls[0].1), calls[1..])
  }

  /** No stale integers: mysql_fetch_int returns -1 whenever there is no row to fetch, whatever ran before. */
  lemma NoRowNoInteger(c: Cursor, calls: seq<(bool, Call)>, connected: bool)
    requires Settled(c) && forall call :: call in calls ==> Acceptable(call.1)
    requires !connected || !HasRow(Performed(c, calls))
    ensures FetchInt(Performed(c, calls), connected).1 == -1
  {
  }

  // ---------- the text of a row ----------

  /** What the stream holds for the next row: nothing can be read, or the given text is still unread. */
  datatype Pending = Stuck | Left(text: string)

  function PendingOf(c: Cursor): Pending
    requires Tidy(c)
  {
    if Good(c.stream) then Left(Unread(c.stream)) else Stuck
  }

  function Cut(t: string): string { if t == "" then "" else t[..|t| - 1] }

  /** The text that m_szResult keeps of a row rendered as t. */
  function Kept(p: Pending, t: string): string { if p.Stuck? then "" else Cut(Brought(p.text + t)) }

  /** The text that FetchRow returns for it. */
  function Delivered(p: Pending, t: string): string {
    if p.Stuck? || Vanishes(p.text + t) then "NULL" else Kept(p, t)
  }

  /** What the stream holds afterwards. */
  function After(p: Pending, t: string): Pending {
    if p.Stuck? || Vanishes(p.text + t) then Stuck else Left(LeftIn(p.text + t))
  }

  lemma GoodCut(c: Cursor, u: string)
    requires Valid(c.stream) && Good(c.stream) && Unread(c.stream) == u
    ensures var (c', text) := CutText(c);
      && text == Delivered(Left(u), "") && c'.szResult == Cut(Brought(u)) && Tidy(c') && PendingOf(c') == After(Left(u), "")
      && c' == c.(stream := c'.stream, szResult := c'.szResult)
  {
    assert u + "" == u;
    var (s, line) := ReadBack(c.stream, c.szResult);
    ReadBackIs(c.stream, c.szResult);
    if line != "" {
      assert Unread(Clear(s)) == Unread(s);
    }
  }

  lemma AnyReadRow(c: Cursor, row: seq<Option<string>>)
    requires Tidy(c)
    ensures var (c', text) := ReadRow(c, row);
      var p, t := PendingOf(c), Render(row, c.delimiter);
      && text == Delivered(p, t) && c'.szResult == Kept(p, t) && Tidy(c') && PendingOf(c') == After(p, t)
      && c' == c.(stream := c'.stream, szResult := c'.szResult)
  {
    var s, t := InsertRow(c.stream, row, c.delimiter), Render(row, c.delimiter);
    if Good(c.stream) {
      var u := Unread(c.stream) + t;
      assert Unread(s) == u && u + "" == u;
      GoodCut(c.(stream := s), u);
    } else {
      ReadRowKeepsTidy(c, row);
      ReadBackStuck(s, c.szResult);
    }
  }

  /** Any row, from any stream: what is returned, what is kept, and what the stream holds for the next row. */
  lemma AnyRow(c: Cursor)
    requires Coherent(c) && Tidy(c) && HasRow(c)
    ensures var (c', text) := FetchRow(c, true);
      var p, t := PendingOf(c), Render(NextRow(c), c.delimiter);
      && text == Delivered(p, t) && c'.szResult == Kept(p, t)
      && Tidy(c') && PendingOf(c') == After(p, t)
      && c' == Advance(c).(stream := c'.stream, szResult := c'.szResult)
  {
    AnyReadRow(Advance(c), NextRow(c));
  }

  /** There is a row, the stream is clean, and the rendered row is `t`. */
  ghost predicate Offers(c: Cursor, t: string) {
    Coherent(c) && Clean(c.stream) && HasRow(c) && t == Render(NextRow(c), c.delimiter)
  }

  /** The cursor after a row without a newline: one row further, the stream clean, and `t` cut to `text`. */
  function Past(c: Cursor, t: string): Cursor
    requires HasRow(c) && t != ""
  {
    Advance(c).(stream := Stream(c.stream.text + t, |c.stream.text| + |t|, false, false), szResult := t[..|t| - 1])
  }

  lemma WholeRowText(c: Cursor, t: string)
    requires Offers(c, t) && t != "" && !HasNewline(t)
    ensures FetchRow(c, true) == (Past(c, t), t[..|t| - 1])
  {
    var s := InsertRow(c.stream, NextRow(c), c.delimiter);
    assert Unread(s) == t;
    ReadBackWhole(s, c.szResult);
  }

  /** The text that FetchRow leaves of a row with a newline, cut; "" when it is empty already. */
  function BrokenCut(t: string): (r: string)
    requires HasNewline(t)
    ensures |r| < |t| - 1 || r == ""
  {
    var left := Salvaged(t); if left == "" then "" else left[..|left| - 1]
  }

  /** A row with a newline, in full: the text that is returned, the text that is kept, and what stays in the stream for
      the next row. */
  lemma BrokenRowIs(c: Cursor, t: string)
    requires Offers(c, t) && HasNewline(t)
    ensures var (c', text) := FetchRow(c, true);
      && text == (if Vanishes(t) then "NULL" else BrokenCut(t)) && c'.szResult == BrokenCut(t)
      && Valid(c'.stream) && Unread(c'.stream) == Leftover(t) && (Good(c'.stream) <==> !Vanishes(t))
      && c'.results == Advance(c).results && c'.delimiter == c.delimiter && c'.stResult == c.stResult
  {
    var s := InsertRow(c.stream, NextRow(c), c.delimiter);
    assert Unread(s) == t;
    ReadBackSalvages(s, c.szResult);
    SalvagedNothing(t);
    assert Vanishes(t) ==> forall i :: 0 <= i < |AfterLine(t)| ==> AfterLine(t)[i] in t[1..];
  }

  lemma BrokenRowText(c: Cursor, t: string)
    requires Offers(c, t) && HasNewline(t)
    ensures FetchRow(c, true).1 != t[..|t| - 1]
  {
    BrokenRowIs(c, t);
    BrokenIsWrong(t);
  }

  lemma BrokenIsWrong(t: string)
    requires HasNewline(t)
    ensures (if Vanishes(t) then "NULL" else BrokenCut(t)) != t[..|t| - 1]
  {
    SalvagedNothing(t);
    var cut := t[..|t| - 1];
    assert |t| == 1 ==> t[0] == '\n';
    if cut != "" {
      assert cut[0] == t[0];
    }
  }

  /** The text of one row. From a clean stream FetchRow returns the rendered row without its last character exactly
      when the row has no newline in it; the cursor is then one row further and the stream clean again. */
  lemma RowText(c: Cursor, t: string)
    requires Offers(c, t) && t != ""
    ensures FetchRow(c, true).1 == t[..|t| - 1] <==> !HasNewline(t)
    ensures !HasNewline(t) ==> FetchRow(c, true).0 == Past(c, t) && Clean(Past(c, t).stream)
  {
    if HasNewline(t) {
      BrokenRowText(c, t);
    } else {
      WholeRowText(c, t);
    }
  }

  lemma CutSplits(row: seq<Option<string>>, delimiter: string)
    requires row != [] && Render(row, delimiter) != ""
    ensures var t := Render(row, delimiter);
      |delimiter| == 1 && (forall v :: v in ShownAll(row) ==> delimiter[0] !in v) ==>
        Split(t[..|t| - 1], delimiter[0]) == ShownAll(row)
  {
    CutIsJoin(row, delimiter);
    if |delimiter| == 1 && forall v :: v in ShownAll(row) ==> delimiter[0] !in v {
      assert delimiter == [delimiter[0]];
      SplitJoin(ShownAll(row), delimiter[0]);
    }
  }

  /** With a row free of newlines, the script gets the join of the fields exactly for delimiters of one character, and
      can split it again when no field contains the delimiter. */
  lemma RowTextIsTheJoin(c: Cursor, t: string)
    requires Offers(c, t) && t != "" && !HasNewline(t)
    ensures var values, text := ShownAll(NextRow(c)), FetchRow(c, true).1;
      && (text == Join(values, c.delimiter) <==> |c.delimiter| == 1)
      && (|c.delimiter| == 1 && (forall v :: v in values ==> c.delimiter[0] !in v) ==>
            Split(text, c.delimiter[0]) == values)
  {
    WholeRowText(c, t);
    CutIsJoin(NextRow(c), c.delimiter);
    CutSplits(NextRow(c), c.delimiter);
  }

  lemma PlainText(left: string, t: string)
    requires t != "" && !HasNewline(left + t)
    ensures Delivered(Left(left), t) == left + Cut(t)
    ensures left + Cut(t) == Cut(t) <==> left == ""
  {
    assert (left + t)[..|left + t| - 1] == left + Cut(t);
    assert left + t != "" && (left + t)[0] in left + t;
    if left == "" {
      assert left + Cut(t) == Cut(t);
    } else {
      assert |left + Cut(t)| > |Cut(t)|;
    }
  }

  /** What an earlier call has left unread comes out in front of the next row: the text is what the two together deliver.
      If they hold no newline, that is the leftover followed by the row, so the row is right exactly when nothing was
      left. */
  lemma LeftoverBleeds(c: Cursor, t: string)
    requires Coherent(c) && Tidy(c) && Good(c.stream) && HasRow(c) && t == Render(NextRow(c), c.delimiter)
    ensures var left, text := Unread(c.stream), FetchRow(c, true).1;
      && text == Delivered(Left(left), t)
      && (t != "" && !HasNewline(left + t) ==> text == left + Cut(t) && (text == Cut(t) <==> left == ""))
  {
    AnyRow(c);
    if t != "" && !HasNewline(Unread(c.stream) + t) {
      PlainText(Unread(c.stream), t);
    }
  }

  // ---------- a run over a whole result ----------

  /** What is left of the current result. */
  function Remaining(c: Cursor): seq<seq<Option<string>>>
    requires Coherent(c) && c.stResult.Some?
  {
    var r := c.results[c.stResult.value]; r.rows[r.next..]
  }

  /** A row renders to a text that FetchRow can return: not empty, and without a newline. */
  predicate Prints(row: seq<Option<string>>, delimiter: string) {
    Render(row, delimiter) != "" && !HasNewline(Render(row, delimiter))
  }

  predicate Printable(rows: seq<seq<Option<string>>>, n: nat, delimiter: string) {
    forall i :: 0 <= i < |rows| && i < n ==> Prints(rows[i], delimiter)
  }

  /** The cursor after k calls of FetchRow. */
  function Later(c: Cursor, k: nat): (r: Cursor)
    requires Coherent(c) && Tidy(c)
    ensures Coherent(r) && Tidy(r)
  {
    if k == 0 then c
    else
      FetchRowKeeps(Later(c, k - 1), true);
      FetchRow(Later(c, k - 1), true).0
  }

  /** One call of a run: the first remaining row, or NULL after the last one; the stream stays clean. */
  lemma OneRow(c: Cursor)
    requires Coherent(c) && Clean(c.stream) && c.stResult.Some?
    requires Remaining(c) != [] ==> Prints(Remaining(c)[0], c.delimiter)
    ensures var (next, text) := FetchRow(c, true);
      && Coherent(next) && Clean(next.stream) && next.stResult.Some? && next.delimiter == c.delimiter
      && (Remaining(c) == [] ==> Remaining(next) == [] && text == "NULL")
      && (Remaining(c) != [] ==>
            Remaining(next) == Remaining(c)[1..]
            && var t := Render(Remaining(c)[0], c.delimiter); text == t[..|t| - 1])
  {
    FetchRowKeeps(c, true);
    if HasRow(c) {
      WholeRowText(c, Render(Remaining(c)[0], c.delimiter));
    }
  }

  /** What the stream holds after a run of rows. */
  function PendingAfter(p: Pending, rows: seq<seq<Option<string>>>, delimiter: string): Pending {
    if rows == [] then p
    else After(PendingAfter(p, rows[..|rows| - 1], delimiter), Render(rows[|rows| - 1], delimiter))
  }

  function Least(a: nat, b: nat): nat { if a <= b then a else b }

  /** One call of any run: the first remaining row, or NULL after the last one. */
  lemma AnyStep(c: Cursor)
    requires Coherent(c) && Tidy(c) && c.stResult.Some?
    ensures var (next, text) := FetchRow(c, true);
      && Coherent(next) && Tidy(next) && next.stResult.Some? && next.delimiter == c.delimiter
      && (if Remaining(c) == [] then Remaining(next) == [] && PendingOf(next) == PendingOf(c) && text == "NULL"
          else
            var t := Render(Remaining(c)[0], c.delimiter);
            && Remaining(next) == Remaining(c)[1..] && PendingOf(next) == After(PendingOf(c), t)
            && text == Delivered(PendingOf(c), t))
  {
    FetchRowKeeps(c, true);
    if HasRow(c) {
      assert NextRow(c) == Remaining(c)[0];
      AnyRow(c);
    }
  }

  lemma PendingSnoc(p: Pending, rows: seq<seq<Option<string>>>, k: nat, delimiter: string)
    requires k < |rows|
    ensures PendingAfter(p, rows[..k + 1], delimiter) == After(PendingAfter(p, rows[..k], delimiter), Render(rows[k], delimiter))
  {
    assert rows[..k + 1][..k] == rows[..k];
  }

  /** Where a run of calls has got to. */
  datatype Progress = Progress(stored: bool, delimiter: string, left: seq<seq<Option<string>>>, pending: Pending)

  function ProgressOf(r: Cursor): Progress
    requires Coherent(r) && Tidy(r)
  {
    Progress(r.stResult.Some?, r.delimiter, if r.stResult.Some? then Remaining(r) else [], PendingOf(r))
  }

  /** k calls on from c: the first k rows are gone, or all of them if there are fewer. */
  function Expected(c: Cursor, k: nat): Progress
    requires Coherent(c) && Tidy(c) && c.stResult.Some?
  {
    var rows := Remaining(c);
    var m := Least(k, |rows|);
    Progress(true, c.delimiter, rows[m..], PendingAfter(PendingOf(c), rows[..m], c.delimiter))
  }

  lemma ProgressStep(c: Cursor, r: Cursor, k: nat)
    requires Coherent(c) && Tidy(c) && c.stResult.Some? && Coherent(r) && Tidy(r) && ProgressOf(r) == Expected(c, k)
    ensures var next := FetchRow(r, true).0; Coherent(next) && Tidy(next) && ProgressOf(next) == Expected(c, k + 1)
  {
    AnyStep(r);
    if k < |Remaining(c)| {
      PendingSnoc(PendingOf(c), Remaining(c), k, c.delimiter);
    }
  }

  lemma LaterStep(c: Cursor, k: nat)
    requires Coherent(c) && Tidy(c) && c.stResult.Some? && ProgressOf(Later(c, k)) == Expected(c, k)
    ensures ProgressOf(Later(c, k + 1)) == Expected(c, k + 1)
  {
    ProgressStep(c, Later(c, k), k);
  }

  lemma LaterStart(c: Cursor)
    requires Coherent(c) && Tidy(c) && c.stResult.Some?
    ensures ProgressOf(Later(c, 0)) == Expected(c, 0)
  {
    assert Remaining(c)[..0] == [];
  }

  lemma {:induction false} LaterIs(c: Cursor, k: nat)
    requires Coherent(c) && Tidy(c) && c.stResult.Some?
    ensures ProgressOf(Later(c, k)) == Expected(c, k)
  {
    if k == 0 {
      LaterStart(c);
    } else {
      LaterIs(c, k - 1);
      LaterStep(c, k - 1);
    }
  }

  /** Printable rows leave nothing behind. */
  lemma {:induction false} PrintableLeavesNothing(rows: seq<seq<Option<string>>>, delimiter: string)
    requires Printable(rows, |rows|, delimiter)
    ensures PendingAfter(Left(""), rows, delimiter) == Left("")
  {
    if rows != [] {
      var front, last := rows[..|rows| - 1], rows[|rows| - 1];
      assert Prints(last, delimiter) && forall i :: 0 <= i < |front| ==> front[i] == rows[i];
      PrintableLeavesNothing(front, delimiter);
      assert "" + Render(last, delimiter) == Render(last, delimiter);
      assert Render(last, delimiter)[0] in Render(last, delimiter);
    }
  }

  /** After k calls the first k rows are gone and the stream is clean, if those rows are printable. */
  lemma LaterRows(c: Cursor, k: nat)
    requires Coherent(c) && Clean(c.stream) && c.stResult.Some? && Printable(Remaining(c), k, c.delimiter)
    ensures var r := Later(c, k);
      && Clean(r.stream) && r.stResult.Some? && r.delimiter == c.delimiter
      && Remaining(r) == if k <= |Remaining(c)| then Remaining(c)[k..] else []
  {
    var first := Remaining(c)[..Least(k, |Remaining(c)|)];
    LaterIs(c, k);
    assert forall i :: 0 <= i < |first| ==> first[i] == Remaining(c)[i];
    PrintableLeavesNothing(first, c.delimiter);
    HeldText(c, "");
    HeldText(Later(c, k), "");
  }

  lemma HeldText(c: Cursor, left: string)
    requires Tidy(c)
    ensures PendingOf(c) == Left(left) ==> Valid(c.stream) && Unread(c.stream) == left && (left == "" ==> Clean(c.stream))
    ensures Clean(c.stream) ==> PendingOf(c) == Left("")
  {
  }

  /** Every run of FetchRow, over any rows and from any stream: the k-th text is what the k-th row delivers on top of
      what the rows before it have left; after the last row it is NULL. */
  lemma AnyRun(c: Cursor, k: nat)
    requires Coherent(c) && Tidy(c) && c.stResult.Some?
    ensures var rows, text := Remaining(c), FetchRow(Later(c, k), true).1;
      text == if k < |rows|
        then Delivered(PendingAfter(PendingOf(c), rows[..k], c.delimiter), Render(rows[k], c.delimiter))
        else "NULL"
  {
    LaterIs(c, k);
    AnyStep(Later(c, k));
  }

  /** Over a run of calls the k-th text is the k-th row, rendered and cut, if the rows up to it are printable: nothing
      bleeds from one call into the next. After the last row every call returns NULL. */
  lemma RunOfRows(c: Cursor, k: nat)
    requires Coherent(c) && Clean(c.stream) && c.stResult.Some? && Printable(Remaining(c), k + 1, c.delimiter)
    ensures FetchRow(Later(c, k), true).1 ==
      if k < |Remaining(c)| then var t := Render(Remaining(c)[k], c.delimiter); t[..|t| - 1] else "NULL"
  {
    LaterRows(c, k);
    OneRow(Later(c, k));
  }

  lemma EmptyRowText(c: Cursor)
    requires Offers(c, "")
    ensures FetchRow(c, true).1 == "NULL"
  {
    AnyRow(c);
    assert PendingOf(c) == Left("") && "" + "" == "";
  }

  /** A row that does not print, in a clean stream, does not come out right. */
  lemma UnprintableRow(c: Cursor, t: string)
    requires Offers(c, t) && !Prints(NextRow(c), c.delimiter)
    ensures FetchRow(c, true).1 != Cut(t)
  {
    if t == "" {
      EmptyRowText(c);
    } else {
      BrokenRowText(c, t);
    }
  }

  /** The k-th text is the k-th row, rendered and cut. */
  ghost predicate ComesOutRight(c: Cursor, k: nat)
    requires Coherent(c) && Tidy(c) && c.stResult.Some? && k < |Remaining(c)|
  {
    FetchRow(Later(c, k), true).1 == Cut(Render(Remaining(c)[k], c.delimiter))
  }

  lemma FirstUnprintable(c: Cursor, k: nat)
    requires Coherent(c) && Clean(c.stream) && c.stResult.Some? && k < |Remaining(c)|
    requires Printable(Remaining(c), k, c.delimiter) && !Prints(Remaining(c)[k], c.delimiter)
    ensures !ComesOutRight(c, k)
  {
    LaterRows(c, k);
    var r := Later(c, k);
    assert Remaining(r)[0] == Remaining(c)[k] == NextRow(r);
    UnprintableRow(r, Render(Remaining(c)[k], c.delimiter));
  }

  /** From a clean stream the first n texts are the first n rows, rendered and cut, if and only if each of those rows
      renders to a text that is not empty and has no newline. */
  lemma {:induction false} RunIsExact(c: Cursor, n: nat)
    requires Coherent(c) && Clean(c.stream) && c.stResult.Some? && n <= |Remaining(c)|
    ensures (forall k :: 0 <= k < n ==> ComesOutRight(c, k)) <==> Printable(Remaining(c), n, c.delimiter)
  {
    if Printable(Remaining(c), n, c.delimiter) {
      forall k | 0 <= k < n ensures ComesOutRight(c, k) {
        RunOfRows(c, k);
      }
    } else {
      RunIsExact(c, n - 1);
      if Printable(Remaining(c), n - 1, c.delimiter) {
        FirstUnprintable(c, n - 1);
      }
    }
  }

  // ---------- rows that a script does not get ----------

  /** A row leaves a clean stream stuck exactly when nothing is read back of it: when it renders to nothing, or to a
      newline followed by white space. The call then returns NULL, with the row already consumed. */
  lemma RowSticksExactly(c: Cursor, t: string)
    requires Offers(c, t)
    ensures var (c', text) := FetchRow(c, true);
      && (!Good(c'.stream) <==> Vanishes(t))
      && (Vanishes(t) ==> text == "NULL" && c'.szResult == "" && c'.results == Advance(c).results)
  {
    if t == "" {
      var s := InsertRow(c.stream, NextRow(c), c.delimiter);
      assert Unread(s) == "";
      ReadBackWhole(s, c.szResult);
    } else if HasNewline(t) {
      BrokenRowIs(c, t);
      SalvagedNothing(t);
    } else {
      WholeRowText(c, t);
    }
  }

  /** Any two rows, from a clean stream: the second one delivers what it holds together with what the first one has left.
      If the first one does not stick and the two leave no newline between them, that is the leftover followed by the
      second row, which so is right if and only if nothing was left. */
  lemma NextRowBleeds(c: Cursor, t: string, t': string)
    requires Offers(c, t) && HasRow(FetchRow(c, true).0) && t' == Render(NextRow(FetchRow(c, true).0), c.delimiter)
    ensures Coherent(FetchRow(c, true).0) && Tidy(FetchRow(c, true).0)
    ensures var text, left := FetchRow(FetchRow(c, true).0, true).1, LeftIn(t);
      && text == Delivered(After(Left(""), t), t')
      && (!Vanishes(t) && t' != "" && !HasNewline(left + t') ==>
            text == left + Cut(t') && (text == Cut(t') <==> left == ""))
  {
    FetchRowKeeps(c, true);
    var next := FetchRow(c, true).0;
    AnyRow(c);
    assert "" + t == t && Unread(c.stream) == "";
    AnyRow(next);
    if !Vanishes(t) {
      LeftoverBleeds(next, t');
    }
  }

  /** Such a row, from a clean stream: a line of any text and a second line that is one word. The delimiter stays behind,
      and the next row starts with it. */
  lemma DelimiterIsLeft(c: Cursor, line: string, d: string)
    requires Coherent(c) && Clean(c.stream) && HasRow(c) && c.delimiter == " "
    requires NextRow(c) == [Some(line + "\n" + d)] && !HasNewline(line) && d != "" && AllDigits(d)
    ensures Valid(FetchRow(c, true).0.stream) && Unread(FetchRow(c, true).0.stream) == " "
  {
    BrokenText(line, d);
    BrokenRowIs(c, Render(NextRow(c), " "));
  }

  /** A stuck stream swallows every further row: each call returns NULL and moves on. */
  lemma {:induction false} StuckStreamSwallowsRows(c: Cursor, k: nat)
    requires Coherent(c) && Tidy(c) && !Good(c.stream)
    ensures var r := Later(c, k);
      !Good(r.stream) && FetchRow(r, true).1 == "NULL" && (HasRow(r) ==> FetchRow(r, true).0.results == Advance(r).results)
  {
    if k > 0 {
      StuckStreamSwallowsRows(c, k - 1);
    }
    StuckRow(Later(c, k));
    if k > 0 {
      StuckRow(Later(c, k - 1));
    }
  }

  lemma StuckRow(c: Cursor)
    requires Coherent(c) && Tidy(c) && !Good(c.stream)
    ensures var (c', text) := FetchRow(c, true);
      !Good(c'.stream) && text == "NULL" && (HasRow(c) ==> c'.results == Advance(c).results)
  {
    if HasRow(c) {
      ReadBackStuck(InsertRow(c.stream, NextRow(c), c.delimiter), c.szResult);
    }
  }

  /** mysql_fetch_field_row always makes the stream readable again. */
  lemma FetchFieldUnsticks(c: Cursor, name: string)
    requires Coherent(c) && Tidy(c) && c.stRow.Some?
    ensures Good(FetchFieldRow(c, true, name).0.stream)
  {
  }

  /** mysql_fetch_row_format cannot tell some rows from the end of the result. With a row at hand it returns 0 exactly
      when the stream is stuck, when nothing is read back, or when the cut text is the word NULL. */
  lemma NullRowLooksLikeTheEnd(c: Cursor, delimiter: string)
    requires Coherent(c) && Tidy(c) && HasRow(c)
    ensures var p, out := PendingOf(c), FetchRowFormat(c, true, delimiter).1;
      if p.Stuck? then out.None?
      else
        var u := p.text + Render(NextRow(c), delimiter);
        && (out.None? <==> Vanishes(u) || Cut(Brought(u)) == "NULL")
        && (out.Some? ==> out.value == Cut(Brought(u)))
  {
    AnyRow(c.(delimiter := delimiter));
  }

  // ---------- single fields ----------

  /** The value of the first column of that name in the current row; "" when there is none. */
  function FieldValue(c: Cursor, name: string): string
    requires Coherent(c) && c.stRow.Some?
  {
    var i := Column(c.results[c.stRow.value.owner].names, name);
    if i < c.fields then Shown(CurrentRow(c)[i]) else ""
  }

  /** The stream that a field is read back from. */
  function WithField(c: Cursor, name: string): Stream
    requires Coherent(c) && c.stRow.Some?
  {
    if Column(c.results[c.stRow.value.owner].names, name) < c.fields then Insert(c.stream, FieldValue(c, name)) else c.stream
  }

  lemma FieldIsReadBack(c: Cursor, name: string)
    requires Coherent(c) && Valid(c.stream) && c.stRow.Some?
    ensures Valid(WithField(c, name))
    ensures var (s', line) := ReadBack(WithField(c, name), c.szResult);
      FetchFieldRow(c, true, name) == (c.(stream := Clear(s'), szResult := ""), line)
  {
  }

  lemma FieldIsInserted(c: Cursor, name: string)
    requires Coherent(c) && Tidy(c) && c.stRow.Some?
    ensures var s := WithField(c, name);
      if Good(c.stream) then Good(s) && Valid(s) && Unread(s) == Unread(c.stream) + FieldValue(c, name) else s == c.stream
  {
    if Good(c.stream) {
      assert Unread(Insert(c.stream, FieldValue(c, name))) == Unread(c.stream) + FieldValue(c, name);
      assert Unread(c.stream) + "" == Unread(c.stream);
    }
  }

  /** mysql_fetch_field_row on any stream: what the script gets, and what the stream holds for the next fetch. A stuck
      stream yields nothing, and can be read again. */
  lemma AnyField(c: Cursor, name: string)
    requires Coherent(c) && Tidy(c) && c.stRow.Some?
    ensures var (c', text) := FetchFieldRow(c, true, name);
      var p := PendingOf(c);
      && Tidy(c')
      && text == (if p.Stuck? then "" else Brought(p.text + FieldValue(c, name)))
      && PendingOf(c') == Left(if p.Stuck? then "" else LeftIn(p.text + FieldValue(c, name)))
  {
    FieldIsReadBack(c, name);
    FieldIsInserted(c, name);
    if Good(c.stream) {
      GoodField(c, WithField(c, name));
    } else {
      StuckField(c, WithField(c, name));
    }
  }

  lemma GoodField(c: Cursor, s: Stream)
    requires Valid(s) && Good(s)
    ensures var (s', line) := ReadBack(s, c.szResult);
      var c' := c.(stream := Clear(s'), szResult := "");
      line == Brought(Unread(s)) && Tidy(c') && PendingOf(c') == Left(LeftIn(Unread(s)))
  {
    ReadBackIs(s, c.szResult);
    var (s', line) := ReadBack(s, c.szResult);
    assert Unread(Clear(s')) == Unread(s');
  }

  lemma StuckField(c: Cursor, s: Stream)
    requires Tidy(c) && !Good(c.stream) && s.text == c.stream.text && s.pos == c.stream.pos && !Good(s)
    ensures var (s', line) := ReadBack(s, c.szResult);
      var c' := c.(stream := Clear(s'), szResult := "");
      line == "" && Tidy(c') && PendingOf(c') == Left("")
  {
    ReadBackStuck(s, c.szResult);
  }

  lemma CleanField(c: Cursor, name: string)
    requires Coherent(c) && Clean(c.stream) && c.stRow.Some?
    ensures var (c', text) := FetchFieldRow(c, true, name);
      Tidy(c') && text == Brought(FieldValue(c, name)) && PendingOf(c') == Left(LeftIn(FieldValue(c, name)))
  {
    AnyField(c, name);
    assert PendingOf(c) == Left("") && "" + FieldValue(c, name) == FieldValue(c, name);
  }

  /** On a clean stream the value comes back unchanged exactly when it has no newline; what follows the salvaged word of
      one that has stays unread for the next fetch. */
  lemma FieldText(c: Cursor, name: string)
    requires Coherent(c) && Clean(c.stream) && c.stRow.Some?
    ensures var (c', text) := FetchFieldRow(c, true, name);
      var value := FieldValue(c, name);
      && (text == value <==> !HasNewline(value))
      && Valid(c'.stream) && Unread(c'.stream) == LeftIn(value)
      && (!HasNewline(value) ==> Clean(c'.stream))
  {
    CleanField(c, name);
    BroughtWhole(FieldValue(c, name));
    HeldText(FetchFieldRow(c, true, name).0, LeftIn(FieldValue(c, name)));
  }

  lemma BroughtWhole(t: string)
    ensures Brought(t) == t <==> !HasNewline(t)
  {
    if HasNewline(t) {
      assert |Salvaged(t)| < |t|;
    }
  }

  // ---------- integers ----------

  /** The integer that a row is worth to mysql_fetch_int. */
  function Worth(row: seq<Option<string>>): int {
    if |row| == 1 && row[0].Some? && row[0].value != "" && AllDigits(row[0].value) then ToCell(row[0].value) else -1
  }

  lemma CPrefixWhole(t: string)
    requires CString(t)
    ensures CPrefix(t) == t
  {
    assert forall i :: 0 <= i < |t| ==> t[i] in t;
  }

  lemma {:induction false} RenderIsCString(row: seq<Option<string>>)
    requires forall i :: 0 <= i < |row| && row[i].Some? ==> CString(row[i].value)
    ensures CString(Render(row, " "))
  {
    if row != [] {
      RenderIsCString(row[..|row| - 1]);
    }
  }

  /** The cut text of a row rendered with a blank is a non-empty run of digits exactly for one numeric column. */
  lemma {:induction false} CutIsNumeric(row: seq<Option<string>>, t: string)
    requires row != [] && t == Render(row, " ")
    ensures var cut := t[..|t| - 1];
      if |row| == 1 then cut == Shown(row[0]) else exists i :: 0 <= i < |cut| && cut[i] == ' '
  {
    var front := row[..|row| - 1];
    if |row| == 1 {
      assert Render(front, " ") == "";
    } else {
      RenderIsJoin(front, " ");
      var j := Join(ShownAll(front), " ");
      var cut := t[..|t| - 1];
      assert cut == j + " " + Shown(row[|row| - 1]);
      assert cut[|j|] == ' ';
    }
  }

  /** What mysql_fetch_int makes of the text that FetchRow leaves. */
  function Taken(cut: string): int {
    if AllDigits(CPrefix(cut)) && cut != "" then ToCell(CPrefix(cut)) else -1
  }

  /** mysql_fetch_int on any row and any stream. */
  lemma AnyInt(c: Cursor)
    requires Coherent(c) && Tidy(c) && HasRow(c)
    ensures FetchInt(c, true).1 == Taken(Kept(PendingOf(c), Render(NextRow(c), " ")))
  {
    AnyRow(c.(delimiter := " "));
  }

  lemma TakenIsWorth(row: seq<Option<string>>, t: string)
    requires row != [] && t == Render(row, " ") && t != ""
    requires forall i :: 0 <= i < |row| && row[i].Some? ==> CString(row[i].value)
    ensures Taken(t[..|t| - 1]) == Worth(row)
  {
    var cut := t[..|t| - 1];
    RenderIsCString(row);
    assert CString(cut);
    CPrefixWhole(cut);
    CutIsNumeric(row, t);
    NullIsNotANumber();
  }

  /** mysql_fetch_int on a clean stream and a row without a newline: the value of the digits of a single column, with
      the largest cell for what does not fit; and -1 for any other row. */
  lemma FetchIntIsWorth(c: Cursor, t: string)
    requires Offers(c.(delimiter := " "), t) && NextRow(c) != [] && !HasNewline(t)
    ensures FetchInt(c, true).1 == Worth(NextRow(c))
  {
    RenderIsJoin(NextRow(c), " ");
    WholeRowText(c.(delimiter := " "), t);
    assert WellFormed(c.results[c.stResult.value]);
    TakenIsWorth(NextRow(c), t);
  }

  lemma BrokenInt(c: Cursor, t: string)
    requires Offers(c.(delimiter := " "), t) && HasNewline(t)
    ensures FetchInt(c, true).1 == Taken(BrokenCut(t))
  {
    BrokenRowIs(c.(delimiter := " "), t);
  }

  lemma {:induction false} NewlineIsWorthless(row: seq<Option<string>>, t: string)
    requires row != [] && t == Render(row, " ") && HasNewline(t)
    ensures Worth(row) == -1
  {
    if |row| == 1 && row[0].Some? {
      assert Render(row[..0], " ") == "";
      assert t == row[0].value + " ";
      var i :| 0 <= i < |t| && t[i] == '\n';
      assert !IsDigit(row[0].value[i]);
    }
  }

  /** A text of which two characters or more are read back, all but the last of them digits. */
  predicate PassesForAnInteger(t: string) {
    HasNewline(t) && |Salvaged(t)| > 1 && forall i :: 0 <= i < |Salvaged(t)| - 1 ==> IsDigit(Salvaged(t)[i])
  }

  lemma BrokenTaken(t: string)
    requires HasNewline(t) && CString(t)
    ensures Taken(BrokenCut(t)) == -1 <==> !PassesForAnInteger(t)
  {
    var left, cut := Salvaged(t), BrokenCut(t);
    forall i | 0 <= i < |left| ensures left[i] in t { SalvagedIsPart(t, left[i]); }
    assert forall i :: 0 <= i < |cut| ==> cut[i] == left[i];
    CPrefixWhole(cut);
  }

  /** On a clean stream mysql_fetch_int returns what the row is worth if and only if the row does not have a newline of
      which two characters or more come back that are, but for the last one, digits. */
  lemma FetchIntIsExact(c: Cursor, t: string)
    requires Offers(c.(delimiter := " "), t) && NextRow(c) != []
    ensures FetchInt(c, true).1 == Worth(NextRow(c)) <==> !PassesForAnInteger(t)
  {
    if HasNewline(t) {
      BrokenInt(c, t);
      NewlineIsWorthless(NextRow(c), t);
      assert WellFormed(c.results[c.stResult.value]);
      RenderIsCString(NextRow(c));
      BrokenTaken(t);
    } else {
      FetchIntIsWorth(c, t);
    }
  }

  /** A text with a newline can pass for an integer: a line of any text followed by a line of two digits or more reads
      as that number without its last digit. */
  lemma NewlinePassesForAnInteger(c: Cursor, line: string, d: string)
    requires Coherent(c) && Clean(c.stream) && HasRow(c) && NextRow(c) == [Some(line + "\n" + d)]
    requires !HasNewline(line) && |d| > 1 && AllDigits(d)
    ensures FetchInt(c, true).1 == ToCell(d[..|d| - 1]) && Worth(NextRow(c)) == -1
  {
    BrokenField(line, d);
    BrokenInt(c, Render(NextRow(c), " "));
  }

  lemma DigitsAreTaken(d: string)
    requires |d| > 1 && AllDigits(d)
    ensures Taken(d[..|d| - 1]) == ToCell(d[..|d| - 1])
  {
    var cut := d[..|d| - 1];
    assert forall i :: 0 <= i < |cut| ==> cut[i] == d[i];
    CPrefixWhole(cut);
  }

  lemma BrokenField(line: string, d: string)
    requires !HasNewline(line) && |d| > 1 && AllDigits(d)
    ensures var row := [Some(line + "\n" + d)];
      var t := Render(row, " ");
      HasNewline(t) && Taken(BrokenCut(t)) == ToCell(d[..|d| - 1]) && Worth(row) == -1
  {
    var row := [Some(line + "\n" + d)];
    BrokenText(line, d);
    NewlineIsWorthless(row, Render(row, " "));
    DigitsAreTaken(d);
  }

  /** The rendered row of such a field: d comes through, and the delimiter stays behind. */
  lemma BrokenText(line: string, d: string)
    requires !HasNewline(line) && d != "" && AllDigits(d)
    ensures var t := Render([Some(line + "\n" + d)], " ");
      HasNewline(t) && Salvaged(t) == d && Leftover(t) == " "
  {
    var t := Render([Some(line + "\n" + d)], " ");
    RenderIsJoin([Some(line + "\n" + d)], " ");
    assert t == line + "\n" + (d + " ");
    SalvagedWord(line, d);
  }

  lemma SalvagedWord(line: string, d: string)
    requires !HasNewline(line) && d != "" && AllDigits(d)
    ensures var t := line + "\n" + (d + " "); HasNewline(t) && Salvaged(t) == d && Leftover(t) == " "
  {
    var rest := d + " ";
    var t := line + "\n" + rest;
    assert t[|line|] == '\n';
    SpanIs(t, IsNewline, |line|);
    assert AfterLine(t) == rest;
    SpanIs(rest, NotSpace, 0);
    SpanIs(rest, IsSpace, |d|);
    assert rest[0..] == rest && rest[..|d|] == d && rest[|d|..] == " ";
  }

  // ---------- decimal texts ----------

  function Digit(n: nat): char
    requires n < 10
  {
    '0' + n as char
  }

  /** The decimal text of n. */
  function DecimalText(n: nat): (t: string)
    ensures t != "" && AllDigits(t)
  {
    if n < 10 then [Digit(n)] else DecimalText(n / 10) + [Digit(n % 10)]
  }

  lemma {:induction false} DecimalOfText(n: nat)
    ensures Decimal(DecimalText(n)) == n
  {
    if n < 10 {
      assert Decimal("") == 0;
    } else {
      DecimalOfText(n / 10);
      assert DecimalText(n)[..|DecimalText(n)| - 1] == DecimalText(n / 10);
    }
  }

  function Zeros(k: nat): (t: string)
    ensures AllDigits(t)
  {
    if k == 0 then "" else "0" + Zeros(k - 1)
  }

  lemma {:induction false} LeadingZero(t: string)
    requires AllDigits(t)
    ensures Decimal("0" + t) == Decimal(t)
  {
    if t == "" {
      assert ("0" + t)[..0] == "";
      assert Decimal("0" + t) == 10 * Decimal("") + 0;
    } else {
      LeadingZero(t[..|t| - 1]);
      assert ("0" + t)[..|t|] == "0" + t[..|t| - 1];
    }
  }

  lemma {:induction false} LeadingZeros(k: nat, t: string)
    requires AllDigits(t)
    ensures Decimal(Zeros(k) + t) == Decimal(t)
  {
    if k == 0 {
      assert Zeros(k) + t == t;
    } else {
      LeadingZeros(k - 1, t);
      assert Zeros(k) + t == "0" + (Zeros(k - 1) + t);
      LeadingZero(Zeros(k - 1) + t);
    }
  }

  /** Round trip of an integer: a single column that holds n in decimal, with any number of leading zeros, makes
      mysql_fetch_int return n if it fits a cell of 32 bits, and the largest cell otherwise. */
  lemma FetchIntRoundTrip(c: Cursor, n: nat, k: nat)
    requires Coherent(c) && Clean(c.stream) && HasRow(c) && NextRow(c) == [Some(Zeros(k) + DecimalText(n))]
    ensures FetchInt(c, true).1 == if n < 0x8000_0000 then n else 0x7FFF_FFFF
  {
    var v := Zeros(k) + DecimalText(n);
    var t := Render(NextRow(c), " ");
    RenderIsJoin(NextRow(c), " ");
    assert t == v + " ";
    assert forall i :: 0 <= i < |v| ==> IsDigit(v[i]);
    FetchIntIsWorth(c, t);
    LeadingZeros(k, DecimalText(n));
    DecimalOfText(n);
  }
}
