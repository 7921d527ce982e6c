// The std::stringstream of a handle, as far as the plugin uses it: insertion, getline, extraction of a word and
// clear, after sections 27.7.3 (output), 27.7.2.1.3 (input sentry), 21.4.8.9 (string extraction and getline) of
// ISO/IEC 14882:2011.

module CharStream {
  /** `text` is everything inserted so far, `pos` the get position; the put position is always at the end. */
  datatype Stream = Stream(text: string, pos: nat, eof: bool, fail: bool)

  const EMPTY_STREAM := Stream("", 0, false, false)

  predicate Valid(s: Stream) { s.pos <= |s.text| }

  predicate Good(s: Stream) { !s.eof && !s.fail }

  /** What has been inserted and not yet read. */
  function Unread(s: Stream): string
    requires Valid(s)
  {
    s.text[s.pos..]
  }

  /** No flag is set and nothing is left to read. */
  predicate Clean(s: Stream) { Good(s) && s.pos == |s.text| }

  predicate IsSpace(c: char) { c == ' ' || '\t' <= c <= '\r' }

  predicate Blank(t: string) { forall i :: 0 <= i < |t| ==> IsSpace(t[i]) }

  /** The length of the longest prefix without a character of the given kind. */
  function Span(t: string, stop: char -> bool): (n: nat)
    ensures n <= |t|
    ensures forall i :: 0 <= i < n ==> !stop(t[i])
    ensures n < |t| ==> stop(t[n])
  {
    if t == "" || stop(t[0]) then 0 else 1 + Span(t[1..], stop)
  }

  lemma SpanIs(t: string, stop: char -> bool, n: nat)
    requires n <= |t| && (forall i :: 0 <= i < n ==> !stop(t[i])) && (n < |t| ==> stop(t[n]))
    ensures Span(t, stop) == n
  {
  }

  predicate IsNewline(c: char) { c == '\n' }

  predicate NotSpace(c: char) { !IsSpace(c) }

  predicate HasNewline(t: string) { '\n' in t }

  /** operator<< : a stream that is not good takes nothing. */
  function Insert(s: Stream, t: string): Stream {
    if Good(s) then s.(text := s.text + t) else s.(fail := true)
  }

  function Clear(s: Stream): Stream { s.(eof := false, fail := false) }

  /** std::getline into a string that holds `was`: the string is erased only if the sentry lets the read start. */
  function GetLine(s: Stream, was: string): (r: (Stream, string))
    requires Valid(s)
    ensures Valid(r.0)
  {
    if !Good(s) then (s.(fail := true), was)
    else
      var unread := Unread(s);
      var n := Span(unread, IsNewline);
      if n < |unread| then (s.(pos := s.pos + n + 1), unread[..n])
      else (s.(pos := |s.text|, eof := true, fail := n == 0), unread)
  }

  /** operator>> into a string that holds `was`: skips white space, then reads up to the next white space. */
  function GetWord(s: Stream, was: string): (r: (Stream, string))
    requires Valid(s)
    ensures Valid(r.0)
  {
    if !Good(s) then (s.(fail := true), was)
    else
      var unread := Unread(s);
      var skip := Span(unread, NotSpace);
      if skip == |unread| then (s.(pos := |s.text|, eof := true, fail := true), was)
      else
        var rest := unread[skip..];
        var n := Span(rest, IsSpace);
        (s.(pos := s.pos + skip + n, eof := n == |rest|), rest[..n])
  }

  /** The idiom of FetchRow and FetchField: a getline followed by an extraction into the same string. */
  function ReadBack(s: Stream, was: string): (r: (Stream, string))
    requires Valid(s)
    ensures Valid(r.0)
  {
    var (s1, line) := GetLine(s, was);
    GetWord(s1, line)
  }

  lemma NoNewlineSpan(t: string)
    ensures Span(t, IsNewline) == |t| <==> !HasNewline(t)
  {
  }

  /** Text without a newline is read back whole: the getline reaches the end, the extraction fails and leaves the
      line alone, and everything has been consumed. */
  lemma ReadBackWhole(s: Stream, was: string)
    requires Valid(s) && Good(s) && !HasNewline(Unread(s))
    ensures var (s', line) := ReadBack(s, was);
      line == Unread(s) && s' == Stream(s.text, |s.text|, true, true)
  {
    NoNewlineSpan(Unread(s));
  }

  /** Text with a newline is never read back whole: the result is shorter than the text before its last character. */
  lemma ReadBackBroken(s: Stream, was: string)
    requires Valid(s) && Good(s) && HasNewline(Unread(s))
    ensures var (s', line) := ReadBack(s, was);
      && |line| < |Unread(s)|
      && (line == "" ==> Unread(s)[0] == '\n' && s'.pos == |s'.text| && s'.eof && s'.fail)
      && (s'.fail ==> s'.pos == |s'.text|)
      && s'.text == s.text
  {
    NoNewlineSpan(Unread(s));
  }

  /** What follows the first newline. */
  function AfterLine(t: string): string
    requires HasNewline(t)
  {
    NoNewlineSpan(t);
    t[Span(t, IsNewline) + 1..]
  }

  /** What is read back of a text with a newline: the first word after the newline or, when only white space follows it,
      the line before it. */
  function Salvaged(t: string): (r: string)
    requires HasNewline(t)
    ensures |r| < |t|
  {
    NoNewlineSpan(t);
    var rest := AfterLine(t);
    var skip := Span(rest, NotSpace);
    if skip == |rest| then t[..Span(t, IsNewline)]
    else rest[skip..][..Span(rest[skip..], IsSpace)]
  }

  /** What stays unread of it: everything after that word. */
  function Leftover(t: string): string
    requires HasNewline(t)
  {
    var rest := AfterLine(t);
    var skip := Span(rest, NotSpace);
    if skip == |rest| then "" else rest[skip..][Span(rest[skip..], IsSpace)..]
  }

  /** Nothing is read back of a text exactly when it is empty or a newline followed by white space. */
  predicate Vanishes(t: string) { t == "" || (t[0] == '\n' && Blank(t)) }

  lemma SalvagedNothing(t: string)
    requires HasNewline(t)
    ensures Salvaged(t) == "" <==> Vanishes(t)
  {
    NoNewlineSpan(t);
    var n, rest := Span(t, IsNewline), AfterLine(t);
    var skip := Span(rest, NotSpace);
    if skip < |rest| {
      assert rest[skip] == t[n + 1 + skip] && rest[skip..][0] == rest[skip];
    } else {
      assert forall i :: n < i < |t| ==> t[i] == rest[i - n - 1];
    }
  }

  /** getline over a text with a newline. */
  lemma LineIsRead(s: Stream, was: string)
    requires Valid(s) && Good(s) && HasNewline(Unread(s))
    ensures var (s', line) := GetLine(s, was);
      && Valid(s') && Good(s') && s'.text == s.text
      && line == Unread(s)[..Span(Unread(s), IsNewline)] && Unread(s') == AfterLine(Unread(s))
  {
    NoNewlineSpan(Unread(s));
  }

  /** Extraction from a stream that can be read. */
  lemma WordIsRead(s: Stream, was: string)
    requires Valid(s) && Good(s)
    ensures var (s', word) := GetWord(s, was);
      var skip := Span(Unread(s), NotSpace);
      if skip == |Unread(s)| then s' == Stream(s.text, |s.text|, true, true) && word == was
      else
        var rest := Unread(s)[skip..];
        && Valid(s') && !s'.fail && s'.text == s.text
        && word == rest[..Span(rest, IsSpace)] && word != "" && Unread(s') == rest[Span(rest, IsSpace)..]
  {
    var skip := Span(Unread(s), NotSpace);
    if skip < |Unread(s)| {
      var rest := Unread(s)[skip..];
      assert rest[0] == Unread(s)[skip];
      assert !IsSpace(rest[0]);
    }
  }

  /** Reading back a text with a newline: what is returned, what stays unread, and when the extraction fails. */
  lemma ReadBackSalvages(s: Stream, was: string)
    requires Valid(s) && Good(s) && HasNewline(Unread(s))
    ensures var (s', line) := ReadBack(s, was);
      && line == Salvaged(Unread(s)) && s'.text == s.text
      && Unread(s') == Leftover(Unread(s))
      && (s'.fail <==> Blank(AfterLine(Unread(s))))
  {
    var (s1, line) := GetLine(s, was);
    LineIsRead(s, was);
    WordIsRead(s1, line);
    var rest := AfterLine(Unread(s));
    var skip := Span(rest, NotSpace);
    assert skip < |rest| ==> !IsSpace(rest[skip]);
  }

  /** What is read back of a text, with or without a newline. */
  function Brought(t: string): string { if HasNewline(t) then Salvaged(t) else t }

  /** What stays unread of it. */
  function LeftIn(t: string): string { if HasNewline(t) then Leftover(t) else "" }

  /** Reading back from any stream that can be read. */
  lemma ReadBackIs(s: Stream, was: string)
    requires Valid(s) && Good(s)
    ensures var (s', line) := ReadBack(s, was);
      && line == Brought(Unread(s)) && (line == "" <==> Vanishes(Unread(s)))
      && s'.text == s.text && Unread(s') == LeftIn(Unread(s))
      && (Vanishes(Unread(s)) ==> s' == Stream(s.text, |s.text|, true, true))
  {
    var u := Unread(s);
    if HasNewline(u) {
      ReadBackSalvages(s, was);
      SalvagedNothing(u);
      ReadBackBroken(s, was);
    } else {
      ReadBackWhole(s, was);
    }
  }

  /** Every character that comes back was in the text. */
  lemma SalvagedIsPart(t: string, x: char)
    requires HasNewline(t) && x in Salvaged(t)
    ensures x in t
  {
    NoNewlineSpan(t);
    var rest := AfterLine(t);
    var skip := Span(rest, NotSpace);
    assert forall y :: y in rest ==> y in t;
    if skip < |rest| {
      assert x in rest[skip..];
    }
  }

  /** A stream that is not good reads nothing: the target keeps its old value. */
  lemma ReadBackStuck(s: Stream, was: string)
    requires Valid(s) && !Good(s)
    ensures ReadBack(s, was) == (s.(fail := true), was)
  {
  }
}
