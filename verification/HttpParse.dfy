// Parsing of start lines and header fields (lib/simple-web-server/utility.hpp).
module HttpParse {
  import opened Text
  import opened HttpText

  // A std::istream: what is left to read, and whether the stream is still good.
  datatype Stream = Stream(rest: string, good: bool)

  /** std::getline: the line, and the stream after it. A stream that is not good leaves the
      line variable as it was. */
  function GetLine(st: Stream, line: string): (string, Stream) {
    if !st.good then (line, st)
    else
      var n := Find(st.rest, '\n', 0);
      if n < |st.rest| then (st.rest[..n], Stream(st.rest[n + 1..], true))
      else (st.rest, Stream("", false))
  }

  function HasColon(line: string): bool {
    Find(line, ':', 0) < |line|
  }

  function SkipSpaces(line: string, from: nat): (r: nat)
    requires from <= |line|
    ensures from <= r <= |line|
    decreases |line| - from
  {
    if from + 1 < |line| && line[from] == ' ' then SkipSpaces(line, from + 1) else from
  }

  /** The field in a line with a colon; the last character of the line is cut off. */
  function FieldOf(line: string): Option<Field>
    requires HasColon(line)
  {
    var colon := Find(line, ':', 0);
    var start := SkipSpaces(line, colon + 1);
    if start < |line| then Some(Field(line[..colon], line[start..|line| - 1])) else None
  }

  function Fields(o: Option<Field>): Header {
    match o case Some(f) => [f] case None => []
  }

  // The parse of a header ends with fields and the stream behind the line that ended it, or
  // goes on forever: once the stream has failed, getline keeps delivering the last line.
  datatype HeaderResult = Parsed(header: Header, rest: Stream) | Diverges

  function ParseHeader(st: Stream): HeaderResult
    decreases |st.rest|, st.good
  {
    var (line, st') := GetLine(st, "");
    if !HasColon(line) then Parsed([], st')
    else if !st'.good then Diverges
    else Prepend(Fields(FieldOf(line)), ParseHeader(st'))
  }

  function Prepend(h: Header, result: HeaderResult): HeaderResult {
    match result
    case Parsed(more, rest) => Parsed(h + more, rest)
    case Diverges => Diverges
  }

  lemma PrependTwice(a: Header, b: Header, result: HeaderResult)
    ensures Prepend(a, Prepend(b, result)) == Prepend(a + b, result)
  {
    if result.Parsed? {
      assert a + (b + result.header) == (a + b) + result.header;
    }
  }

  // What the header loop will make of the line it holds and the stream behind it.
  function Loop(line: string, st: Stream): HeaderResult {
    if !HasColon(line) then Parsed([], st)
    else if !st.good then Diverges
    else Prepend(Fields(FieldOf(line)), ParseHeader(st))
  }

  class InputStream {
    var rest: string
    var good: bool

    function View(): Stream
      reads this
    {
      Stream(rest, good)
    }

    constructor (text: string)
      ensures View() == Stream(text, true)
    {
      rest, good := text, true;
    }

    method Line(before: string) returns (line: string)
      modifies this
      ensures (line, View()) == GetLine(old(View()), before)
    {
      if !good {
        return before;
      }
      var n := Find(rest, '\n', 0);
      if n < |rest| {
        line, rest := rest[..n], rest[n + 1..];
      } else {
        line, rest, good := rest, "", false;
      }
    }
  }

  /** One line of HttpHeader::parse's loop. */
  method FieldParse(line: string) returns (field: Option<Field>)
    requires HasColon(line)
    ensures field == FieldOf(line)
  {
    var colon := Find(line, ':', 0);
    var start := colon + 1;
    while start + 1 < |line| && line[start] == ' '
      invariant colon + 1 <= start <= |line|
      invariant SkipSpaces(line, start) == SkipSpaces(line, colon + 1)
    {
      start := start + 1;
    }
    field := if start < |line| then Some(Field(line[..colon], line[start..|line| - 1])) else None;
  }

  /** HttpHeader::parse. Where the source would loop forever, the method reports it. */
  method HeaderParse(stream: InputStream) returns (result: HeaderResult)
    modifies stream
    ensures result == ParseHeader(old(stream.View()))
    ensures result.Parsed? ==> stream.View() == result.rest
  {
    var header: Header := [];
    var line := stream.Line("");
    while HasColon(line)
      invariant Prepend(header, Loop(line, stream.View())) == ParseHeader(old(stream.View()))
      decreases |stream.rest|, stream.good
    {
      if !stream.good {
        return Diverges;
      }
      var field := FieldParse(line);
      PrependTwice(header, Fields(field), ParseHeader(stream.View()));
      header := header + Fields(field);
      line := stream.Line(line);
    }
    result := Parsed(header, stream.View());
  }

  // ---------- when the header loop ends ----------

  /** The loop's line and stream after k more getlines. */
  function Iterate(line: string, st: Stream, k: nat): (string, Stream)
    decreases k
  {
    if k == 0 then (line, st)
    else
      var (line', st') := GetLine(st, line);
      Iterate(line', st', k - 1)
  }

  /** Diverges means it: after any number of rounds the loop's condition still holds. */
  lemma {:induction false} DivergesForever(st: Stream, k: nat)
    requires ParseHeader(st) == Diverges
    ensures var (line, st') := GetLine(st, "");
            HasColon(Iterate(line, st', k).0)
    decreases k
  {
    var (line, st') := GetLine(st, "");
    if k > 0 {
      if st'.good {
        DivergesForever(st', k - 1);
      } else {
        SameLine(line, st', k);
      }
    }
  }

  lemma {:induction false} SameLine(line: string, st: Stream, k: nat)
    requires !st.good
    ensures Iterate(line, st, k) == (line, st)
  {
    if k > 0 {
      SameLine(line, st, k - 1);
    }
  }

  /** Otherwise the loop stops after some number of rounds, behind the line that ended it. */
  lemma {:induction false} ParsedStops(st: Stream) returns (k: nat)
    requires ParseHeader(st).Parsed?
    ensures var (line, st') := GetLine(st, "");
            !HasColon(Iterate(line, st', k).0) && Iterate(line, st', k).1 == ParseHeader(st).rest
    decreases |st.rest|, st.good
  {
    var (line, st') := GetLine(st, "");
    if !HasColon(line) {
      k := 0;
    } else {
      k := ParsedStops(st');
      k := k + 1;
    }
  }

  /** The header loop never ends exactly when every line of the stream has a colon, the text
      behind the last line break included. A blank line anywhere makes it end. */
  lemma {:induction false} DivergesIff(st: Stream)
    ensures ParseHeader(st) == Diverges
            <==> st.good && forall piece :: piece in Split(st.rest, '\n') ==> HasColon(piece)
    decreases |st.rest|
  {
    if st.good {
      var n := Find(st.rest, '\n', 0);
      if n < |st.rest| {
        DivergesIff(Stream(st.rest[n + 1..], true));
        AllHaveColons(st.rest[..n], Split(st.rest[n + 1..], '\n'));
      }
    } else {
      assert Find("", ':', 0) == 0;
    }
  }

  lemma AllHaveColons(line: string, more: seq<string>)
    ensures (forall piece :: piece in [line] + more ==> HasColon(piece))
            <==> HasColon(line) && forall piece :: piece in more ==> HasColon(piece)
  {
    assert line in [line] + more;
    assert forall piece :: piece in more ==> piece in [line] + more;
  }

  // ---------- header round trip ----------

  predicate GoodField(f: Field) {
    && ':' !in f.name && '\n' !in f.name
    && '\n' !in f.value && (f.value != "" ==> f.value[0] != ' ')
  }

  predicate GoodHeader(h: Header) {
    forall i :: 0 <= i < |h| ==> GoodField(h[i])
  }

  lemma LineRead(line: string, rest: string, before: string)
    requires '\n' !in line
    ensures GetLine(Stream(line + "\n" + rest, true), before) == (line, Stream(rest, true))
  {
    var text := line + "\n" + rest;
    FindIs(text, '\n', 0, |line|);
    assert text[..|line|] == line && text[|line| + 1..] == rest;
  }

  function Lines(lines: seq<string>): string {
    if lines == [] then "" else lines[0] + "\n" + Lines(lines[1..])
  }

  /** Header parsing consumes exactly the bytes up to the blank line if and only if every line
      before it has a colon. */
  lemma {:induction false} BlankLineReachedIff(lines: seq<string>, rest: string)
    requires forall l :: l in lines ==> '\n' !in l
    ensures var result := ParseHeader(Stream(Lines(lines) + (CRLF + rest), true));
            result.Parsed? && (result.rest == Stream(rest, true) <==> forall l :: l in lines ==> HasColon(l))
  {
    if lines == [] {
      assert Lines(lines) + (CRLF + rest) == "\r" + "\n" + rest;
      LineRead("\r", rest, "");
    } else {
      var more := Lines(lines[1..]) + (CRLF + rest);
      assert Lines(lines) + (CRLF + rest) == lines[0] + "\n" + more;
      LineRead(lines[0], more, "");
      BlankLineReachedIff(lines[1..], rest);
      assert |more| > |rest|;
    }
  }

  lemma FieldRoundTrip(f: Field)
    requires GoodField(f)
    ensures var line := f.name + ": " + f.value + "\r";
            HasColon(line) && FieldOf(line) == Some(f) && '\n' !in line
  {
    var line := f.name + ": " + f.value + "\r";
    var colon := |f.name|;
    FindIs(line, ':', 0, colon);
    assert line[..colon] == f.name && line[colon + 2..|line| - 1] == f.value;
    assert SkipSpaces(line, colon + 1) == SkipSpaces(line, colon + 2) == colon + 2;
  }

  lemma HeaderLine(h: Header, rest: string)
    requires h != []
    ensures HeaderText(h) + CRLF + rest
            == h[0].name + ": " + h[0].value + "\r" + "\n" + (HeaderText(h[1..]) + CRLF + rest)
  {
    FieldLineText(h[0], HeaderText(h[1..]) + CRLF + rest);
    Assoc(FieldLine(h[0]), HeaderText(h[1..]) + CRLF, rest);
    Assoc(FieldLine(h[0]), HeaderText(h[1..]), CRLF);
  }

  lemma FieldLineText(f: Field, more: string)
    ensures FieldLine(f) + more == f.name + ": " + f.value + "\r" + "\n" + more
  {
  }

  lemma FieldRead(f: Field, line: string, more: string)
    requires GoodField(f) && line == f.name + ": " + f.value + "\r"
    ensures ParseHeader(Stream(line + "\n" + more, true)) == Prepend([f], ParseHeader(Stream(more, true)))
  {
    FieldRoundTrip(f);
    LineRead(line, more, "");
  }

  /** Printed fields and a blank line are parsed back; what follows is left unread. */
  lemma {:induction false} HeaderRoundTrip(h: Header, rest: string)
    requires GoodHeader(h)
    ensures ParseHeader(Stream(HeaderText(h) + CRLF + rest, true)) == Parsed(h, Stream(rest, true))
  {
    if h == [] {
      assert HeaderText(h) + CRLF + rest == "\r" + "\n" + rest;
      LineRead("\r", rest, "");
    } else {
      HeaderLine(h, rest);
      FieldRead(h[0], h[0].name + ": " + h[0].value + "\r", HeaderText(h[1..]) + CRLF + rest);
      HeaderRoundTrip(h[1..], rest);
    }
  }

  /** Whatever the stream, the parsed fields are printable ones. */
  lemma {:induction false} HeaderImage(st: Stream)
    requires ParseHeader(st).Parsed?
    ensures GoodHeader(ParseHeader(st).header)
    decreases |st.rest|, st.good
  {
    var (line, st') := GetLine(st, "");
    if HasColon(line) {
      if FieldOf(line).Some? {
        FieldImage(line);
      }
      HeaderImage(st');
    }
  }

  lemma FieldImage(line: string)
    requires HasColon(line) && '\n' !in line && FieldOf(line).Some?
    ensures GoodField(FieldOf(line).value)
  {
    SkipSpacesStops(line, Find(line, ':', 0) + 1);
  }

  lemma SkipSpacesStops(line: string, from: nat)
    requires from <= |line|
    ensures var r := SkipSpaces(line, from); r + 1 < |line| ==> line[r] != ' '
    decreases |line| - from
  {
  }

  // ---------- any line of a header ----------

  lemma {:induction false} SpacesSkipped(line: string, from: nat, to: nat)
    requires from <= to < |line| && forall k :: from <= k < to ==> line[k] == ' '
    requires to + 1 < |line| ==> line[to] != ' '
    ensures SkipSpaces(line, from) == to
    decreases |line| - from
  {
    if from < to {
      SpacesSkipped(line, from + 1, to);
    }
  }

  /** Any spaces may stand behind the colon; the last character is cut off, whatever it is. */
  lemma FieldReads(name: string, spaces: string, value: string, last: char)
    requires ':' !in name && (forall k :: 0 <= k < |spaces| ==> spaces[k] == ' ') && (value != "" ==> value[0] != ' ')
    ensures var line := name + ":" + spaces + value + [last];
            HasColon(line) && FieldOf(line) == Some(Field(name, value))
  {
    var line, start := name + ":" + spaces + value + [last], |name| + 1 + |spaces|;
    FindIs(line, ':', 0, |name|);
    FieldPlaces(name, spaces, value, last);
    SpacesSkipped(line, |name| + 1, start);
  }

  lemma FieldPlaces(name: string, spaces: string, value: string, last: char)
    ensures var line, start := name + ":" + spaces + value + [last], |name| + 1 + |spaces|;
            && start < |line| && line[..|name|] == name && line[start..|line| - 1] == value
            && line[start] == (if value == "" then last else value[0])
            && (start + 1 < |line| <==> value != "")
            && forall k :: |name| + 1 <= k < start ==> line[k] == spaces[k - |name| - 1]
  {
  }

  /** What a line does in a header: without a colon it ends it, behind a bare colon there is no field. */
  lemma HeaderLineMeans(line: string, more: string, name: string, spaces: string, value: string, last: char)
    requires '\n' !in line && ':' !in name
    requires (forall k :: 0 <= k < |spaces| ==> spaces[k] == ' ') && (value != "" ==> value[0] != ' ')
    ensures ':' !in line ==> ParseHeader(Stream(line + "\n" + more, true)) == Parsed([], Stream(more, true))
    ensures line == name + ":" ==> ParseHeader(Stream(line + "\n" + more, true)) == ParseHeader(Stream(more, true))
    ensures line == name + ":" + spaces + value + [last] ==>
              ParseHeader(Stream(line + "\n" + more, true)) == Prepend([Field(name, value)], ParseHeader(Stream(more, true)))
  {
    LineRead(line, more, "");
    if ':' !in line {
      FindIs(line, ':', 0, |line|);
    }
    if line == name + ":" {
      BareColon(name);
      NothingPrepended(ParseHeader(Stream(more, true)));
    }
    if line == name + ":" + spaces + value + [last] {
      FieldReads(name, spaces, value, last);
    }
  }

  lemma BareColon(name: string)
    requires ':' !in name
    ensures HasColon(name + ":") && FieldOf(name + ":") == None
  {
    FindIs(name + ":", ':', 0, |name|);
  }

  lemma NothingPrepended(result: HeaderResult)
    ensures Prepend([], result) == result
  {
    if result.Parsed? {
      assert [] + result.header == result.header;
    }
  }

  /** The text behind the last line break is a line too, and leaves a stream that is not good; then
      a line is not touched any more. */
  lemma LastLineRead(line: string, before: string, rest: string)
    requires '\n' !in line
    ensures GetLine(Stream(line, true), before) == (line, Stream("", false))
    ensures GetLine(Stream(rest, false), before) == (before, Stream(rest, false))
  {
    FindIs(line, '\n', 0, |line|);
  }
}
