// Parsing of whole request and response heads (lib/simple-web-server/utility.hpp), and the
// printers of src/common/http.cpp that it undoes.
module HttpMessages {
  import opened Text
  import opened Numbers
  import opened HttpText
  import opened HttpParse

  // ---------- request ----------

  datatype RequestLineParts = RequestLineParts(verb: string, path: string, query: string, version: string)

  /** A request target is split at its last question mark. */
  function SplitTarget(target: string): (string, string) {
    var q := FindLast(target, '?', 0, |target|);
    if q == |target| then (target, "") else (target[..q], target[q + 1..])
  }

  /** substr(from, size - from - 1): the rest of a line without its last character. */
  function ButLast(line: string, from: nat): string
    requires from <= |line|
  {
    if from == |line| then "" else line[from..|line| - 1]
  }

  function ParseRequestLine(line: string): Option<RequestLineParts> {
    var verbEnd := Find(line, ' ', 0);
    if verbEnd == |line| then None
    else
      var targetEnd := Find(line, ' ', verbEnd + 1);
      if targetEnd == |line| then None
      else
        var (path, query) := SplitTarget(line[verbEnd + 1..targetEnd]);
        var protocolEnd := Find(line, '/', targetEnd + 1);
        if protocolEnd == |line| || line[targetEnd + 1..protocolEnd] != "HTTP" then None
        else Some(RequestLineParts(line[..verbEnd], path, query, ButLast(line, protocolEnd + 1)))
  }

  // BadMessage: the parser returns false. Hangs: it does not return.
  datatype RequestResult = Accepted(request: Request, rest: Stream) | BadMessage | Hangs

  function ParseRequest(st: Stream): RequestResult {
    var (line, st') := GetLine(st, "");
    match ParseRequestLine(line)
    case None => BadMessage
    case Some(p) =>
      match ParseHeader(st')
      case Diverges => Hangs
      case Parsed(h, rest) => Accepted(Request(p.verb, p.path, p.query, p.version, h), rest)
  }

  // The scan of RequestMessage::parse for the end of the target and the start of the query,
  // each the length of the line when there is none (npos).
  method ScanTarget(line: string, from: nat) returns (queryStart: nat, targetEnd: nat)
    requires from <= |line|
    ensures targetEnd == Find(line, ' ', from)
    ensures targetEnd < |line| ==>
              var q := FindLast(line, '?', from, targetEnd);
              queryStart == if q == targetEnd then |line| else q + 1
  {
    queryStart, targetEnd := |line|, |line|;
    var i := from;
    while i < |line|
      invariant from <= i <= |line|
      invariant targetEnd == |line| && forall k :: from <= k < i ==> line[k] != ' '
      invariant var q := FindLast(line, '?', from, i);
                i < |line| ==> queryStart == if q == i then |line| else q + 1
    {
      if line[i] == '?' && i + 1 < |line| {
        queryStart := i + 1;
      } else if line[i] == ' ' {
        targetEnd := i;
        break;
      }
      i := i + 1;
    }
  }

  lemma TargetParts(line: string, from: nat, end: nat)
    requires from <= end <= |line|
    ensures var q := FindLast(line, '?', from, end);
            SplitTarget(line[from..end]) == if q == end then (line[from..end], "") else (line[from..q], line[q + 1..end])
  {
    FindLastShift(line, '?', from, end);
    var target, q := line[from..end], FindLast(line, '?', from, end);
    if q < end {
      assert target[..q - from] == line[from..q] && target[q - from + 1..] == line[q + 1..end];
    }
  }

  method TargetParse(line: string, from: nat, queryStart: nat, end: nat) returns (path: string, query: string)
    requires from <= end < |line|
    requires var q := FindLast(line, '?', from, end); queryStart == if q == end then |line| else q + 1
    ensures (path, query) == SplitTarget(line[from..end])
  {
    TargetParts(line, from, end);
    path, query := line[from..end], "";
    if queryStart != |line| {
      path := line[from..queryStart - 1];
      query := line[queryStart..end];
    }
  }

  /** RequestMessage::parse's reading of the request line. */
  method RequestLineParse(line: string) returns (parts: Option<RequestLineParts>)
    ensures parts == ParseRequestLine(line)
  {
    var verbEnd := Find(line, ' ', 0);
    if verbEnd == |line| {
      return None;
    }
    var from := verbEnd + 1;
    var queryStart, targetEnd := ScanTarget(line, from);
    if targetEnd == |line| {
      return None;
    }
    var path, query := TargetParse(line, from, queryStart, targetEnd);
    var protocolEnd := Find(line, '/', targetEnd + 1);
    if protocolEnd == |line| || line[targetEnd + 1..protocolEnd] != "HTTP" {
      return None;
    }
    parts := Some(RequestLineParts(line[..verbEnd], path, query, ButLast(line, protocolEnd + 1)));
  }

  /** The only way to split a target at its last question mark. */
  lemma TargetSplit(target: string, path: string, query: string)
    requires target == path + "?" + query && '?' !in query
    ensures SplitTarget(target) == (path, query)
  {
    assert target[|path|] == '?';
    assert forall k :: |path| < k < |target| ==> target[k] == query[k - |path| - 1];
    var q := FindLast(target, '?', 0, |target|);
    assert q == |path|;
    assert target[..q] == path && target[q + 1..] == query;
  }

  method RequestParse(stream: InputStream) returns (result: RequestResult)
    modifies stream
    ensures result == ParseRequest(old(stream.View()))
    ensures result.Accepted? ==> stream.View() == result.rest
  {
    var line := stream.Line("");
    var parts := RequestLineParse(line);
    if parts == None {
      return BadMessage;
    }
    var header := HeaderParse(stream);
    match header
    case Diverges =>
      result := Hangs;
    case Parsed(h, rest) =>
      var p := parts.value;
      result := Accepted(Request(p.verb, p.path, p.query, p.version, h), rest);
  }

  /** A request line with any target is read back, the target split at its last question mark. */
  lemma RequestLineRoundTrip(verb: string, target: string, version: string)
    requires ' ' !in verb && ' ' !in target
    ensures var (path, query) := SplitTarget(target);
            ParseRequestLine(verb + " " + target + " HTTP/" + version + "\r")
            == Some(RequestLineParts(verb, path, query, version))
  {
    var line := verb + " " + target + " HTTP/" + version + "\r";
    LineSlices(verb, target, version, line);
    CutLine(line, verb, target, version);
  }

  predicate IsRequestLine(line: string, verb: string, target: string, version: string) {
    var v, t := |verb|, |verb| + 1 + |target|;
    && t + 7 + |version| == |line|
    && line[..v] == verb && line[v] == ' ' && line[v + 1..t] == target && line[t] == ' '
    && line[t + 1..t + 5] == "HTTP" && line[t + 5] == '/' && line[t + 6..|line| - 1] == version
  }

  lemma LineSlices(verb: string, target: string, version: string, line: string)
    requires line == verb + " " + target + " HTTP/" + version + "\r"
    ensures IsRequestLine(line, verb, target, version)
  {
  }

  /** Where a request line is cut. */
  lemma CutLine(line: string, verb: string, target: string, version: string)
    requires IsRequestLine(line, verb, target, version) && ' ' !in verb && ' ' !in target
    ensures var (path, query) := SplitTarget(target);
            ParseRequestLine(line) == Some(RequestLineParts(verb, path, query, version))
  {
    var v, t := |verb|, |verb| + 1 + |target|;
    FindBehind(line, ' ', 0, v);
    FindBehind(line, ' ', v + 1, t);
    assert '/' !in "HTTP";
    FindBehind(line, '/', t + 1, t + 5);
    PartsOfLine(line, v, t, SplitTarget(target));
  }

  lemma FindBehind(line: string, c: char, from: nat, r: nat)
    requires from <= r < |line| && line[r] == c && c !in line[from..r]
    ensures Find(line, c, from) == r
  {
    assert forall k :: from <= k < r ==> line[k] == line[from..r][k - from];
    FindIs(line, c, from, r);
  }

  lemma PartsOfLine(line: string, v: nat, t: nat, target: (string, string))
    requires v < t && t + 6 <= |line| && target == SplitTarget(line[v + 1..t])
    requires Find(line, ' ', 0) == v && Find(line, ' ', v + 1) == t && Find(line, '/', t + 1) == t + 5
    requires line[t + 1..t + 5] == "HTTP"
    ensures ParseRequestLine(line) == Some(RequestLineParts(line[..v], target.0, target.1, ButLast(line, t + 6)))
  {
  }

  /** A target without a question mark is all path. */
  lemma TargetWhole(target: string)
    requires '?' !in target
    ensures SplitTarget(target) == (target, "")
  {
  }

  // The line ends in one character that is cut off, or right behind the slash.
  ghost predicate RequestLineOf(line: string, verb: string, target: string, version: string) {
    && ' ' !in verb && ' ' !in target
    && var start := verb + " " + target + " HTTP/";
       (version == "" && line == start) || (exists c :: line == start + version + [c])
  }

  /** A line is a request line exactly when it has a method, a target and "HTTP/", and then these
      are its parts. */
  lemma RequestLineIff(line: string)
    ensures forall verb, target, version :: RequestLineOf(line, verb, target, version) ==>
              var (path, query) := SplitTarget(target);
              ParseRequestLine(line) == Some(RequestLineParts(verb, path, query, version))
    ensures ParseRequestLine(line).Some? ==> exists verb, target, version :: RequestLineOf(line, verb, target, version)
  {
    forall verb, target, version | RequestLineOf(line, verb, target, version)
      ensures var (path, query) := SplitTarget(target);
              ParseRequestLine(line) == Some(RequestLineParts(verb, path, query, version))
    {
      RequestLineReads(line, verb, target, version);
    }
    if ParseRequestLine(line).Some? {
      var verb, target, version := LineFound(line);
    }
  }

  lemma LineFound(line: string) returns (verb: string, target: string, version: string)
    requires ParseRequestLine(line).Some?
    ensures RequestLineOf(line, verb, target, version)
  {
    var v := Find(line, ' ', 0);
    var t := Find(line, ' ', v + 1);
    verb, target, version := line[..v], line[v + 1..t], ButLast(line, t + 6);
    LineRebuilt(line, v, t);
  }

  lemma LineRebuilt(line: string, v: nat, t: nat)
    requires v < t && t + 6 <= |line| && line[v] == ' ' && line[t] == ' ' && line[t + 1..t + 5] == "HTTP" && line[t + 5] == '/'
    ensures var start := line[..v] + " " + line[v + 1..t] + " HTTP/";
            && |start| == t + 6
            && line == if t + 6 == |line| then start else start + ButLast(line, t + 6) + [line[|line| - 1]]
  {
    assert line == line[..v] + [line[v]] + line[v + 1..t] + [line[t]] + line[t + 1..t + 5] + [line[t + 5]] + line[t + 6..];
    assert " " + "HTTP" + "/" == " HTTP/";
    assert line[..v] + " " + line[v + 1..t] + " HTTP/" == line[..t + 6];
    if t + 6 < |line| {
      assert line[t + 6..] == ButLast(line, t + 6) + [line[|line| - 1]];
    }
  }

  lemma RequestLineReads(line: string, verb: string, target: string, version: string)
    requires RequestLineOf(line, verb, target, version)
    ensures var (path, query) := SplitTarget(target);
            ParseRequestLine(line) == Some(RequestLineParts(verb, path, query, version))
  {
    var v, t := |verb|, |verb| + 1 + |target|;
    LineStart(line, verb, target, version);
    FindBehind(line, ' ', 0, v);
    FindBehind(line, ' ', v + 1, t);
    assert '/' !in "HTTP";
    FindBehind(line, '/', t + 1, t + 5);
    PartsOfLine(line, v, t, SplitTarget(target));
  }

  lemma LineStart(line: string, verb: string, target: string, version: string)
    requires RequestLineOf(line, verb, target, version)
    ensures var v, t := |verb|, |verb| + 1 + |target|;
            && t + 6 <= |line| && line[..v] == verb && line[v] == ' ' && line[v + 1..t] == target && line[t] == ' '
            && line[t + 1..t + 5] == "HTTP" && line[t + 5] == '/' && ButLast(line, t + 6) == version
  {
    var start := verb + " " + target + " HTTP/";
    if !(version == "" && line == start) {
      var c :| line == start + version + [c];
      assert line[|start|..|line| - 1] == version;
    }
  }

  predicate GoodRequest(r: Request) {
    && ' ' !in r.verb && '\n' !in r.verb
    && ' ' !in r.path && '\n' !in r.path
    && ' ' !in r.query && '\n' !in r.query && '?' !in r.query
    && '\n' !in r.version
    && GoodHeader(r.header)
  }

  lemma RequestTextShape(r: Request, rest: string)
    ensures RequestText(r) + rest
            == (r.verb + " " + (r.path + "?" + r.query) + " HTTP/" + r.version + "\r") + "\n"
               + (HeaderText(r.header) + CRLF + rest)
  {
    var line := r.verb + " " + (r.path + "?" + r.query) + " HTTP/" + r.version + "\r";
    assert RequestLine(r) == line + "\n";
    Assoc(RequestLine(r), HeaderText(r.header), CRLF);
    Assoc(RequestLine(r), HeaderText(r.header) + CRLF, rest);
  }

  /** A request line with any target, printed fields and a blank line are read back, and whatever
      follows is left unread. */
  lemma RequestHeadRoundTrip(verb: string, target: string, version: string, header: Header, rest: string)
    requires ' ' !in verb && '\n' !in verb && ' ' !in target && '\n' !in target && '\n' !in version
    requires GoodHeader(header)
    ensures var (path, query) := SplitTarget(target);
            ParseRequest(Stream(verb + " " + target + " HTTP/" + version + "\r" + "\n" + (HeaderText(header) + CRLF + rest), true))
            == Accepted(Request(verb, path, query, version, header), Stream(rest, true))
  {
    LineRead(verb + " " + target + " HTTP/" + version + "\r", HeaderText(header) + CRLF + rest, "");
    RequestLineRoundTrip(verb, target, version);
    HeaderRoundTrip(header, rest);
  }

  lemma RequestRoundTrip(r: Request, rest: string)
    requires GoodRequest(r)
    ensures ParseRequest(Stream(RequestText(r) + rest, true)) == Accepted(r, Stream(rest, true))
  {
    var target := r.path + "?" + r.query;
    RequestTextShape(r, rest);
    TargetSplit(target, r.path, r.query);
    RequestHeadRoundTrip(r.verb, target, r.version, r.header, rest);
  }

  lemma RequestLineImage(line: string)
    requires '\n' !in line && ParseRequestLine(line).Some?
    ensures var p := ParseRequestLine(line).value;
            && ' ' !in p.verb && '\n' !in p.verb
            && ' ' !in p.path && '\n' !in p.path
            && ' ' !in p.query && '\n' !in p.query && '?' !in p.query
            && '\n' !in p.version
  {
  }

  /** Whatever bytes are read, a request that is accepted is a printable one. */
  lemma RequestImage(st: Stream)
    requires ParseRequest(st).Accepted?
    ensures GoodRequest(ParseRequest(st).request)
  {
    var (line, st') := GetLine(st, "");
    RequestLineImage(line);
    HeaderImage(st');
  }

  /** Parsing undoes printing, whatever follows the message, exactly for good requests. */
  lemma RequestRoundTripIff(r: Request, rest: string)
    ensures ParseRequest(Stream(RequestText(r) + rest, true)) == Accepted(r, Stream(rest, true))
            <==> GoodRequest(r)
  {
    if GoodRequest(r) {
      RequestRoundTrip(r, rest);
    } else if ParseRequest(Stream(RequestText(r) + rest, true)).Accepted? {
      RequestImage(Stream(RequestText(r) + rest, true));
    }
  }

  // ---------- requests that the parser does not return from ----------

  // A request line, and behind it nothing but lines with a colon.
  ghost predicate Endless(text: string) {
    && '\n' in text
    && var n := Find(text, '\n', 0);
       && n < |text| && ParseRequestLine(text[..n]).Some?
       && forall piece :: piece in Split(text[n + 1..], '\n') ==> HasColon(piece)
  }

  lemma HangsIff(text: string)
    ensures ParseRequest(Stream(text, true)) == Hangs <==> Endless(text)
  {
    var n := Find(text, '\n', 0);
    if n < |text| {
      DivergesIff(Stream(text[n + 1..], true));
      HangsBehind(text, text[..n], Stream(text[n + 1..], true), ParseRequestLine(text[..n]));
    } else {
      DivergesIff(Stream("", false));
      HangsBehind(text, text, Stream("", false), ParseRequestLine(text));
    }
  }

  lemma HangsBehind(text: string, line: string, behind: Stream, parts: Option<RequestLineParts>)
    requires GetLine(Stream(text, true), "") == (line, behind) && parts == ParseRequestLine(line)
    ensures ParseRequest(Stream(text, true)) == Hangs <==> parts.Some? && ParseHeader(behind) == Diverges
  {
  }

  /** Among them is every request line with one field line that nothing follows. */
  lemma CutOffHangs(verb: string, target: string, version: string, field: string)
    requires ' ' !in verb && '\n' !in verb && ' ' !in target && '\n' !in target && '\n' !in version
    requires ':' in field && '\n' !in field
    ensures ParseRequest(Stream(verb + " " + target + " HTTP/" + version + "\r" + "\n" + field, true)) == Hangs
  {
    var line := verb + " " + target + " HTTP/" + version + "\r";
    RequestLineRoundTrip(verb, target, version);
    LineRead(line, field, "");
    SplitWhole(field, '\n');
    DivergesIff(Stream(field, true));
    HangsBehind(line + "\n" + field, line, Stream(field, true), ParseRequestLine(line));
  }

  // ---------- response ----------

  datatype ResponseHead = ResponseHead(version: string, status: string, header: Header)

  datatype ResponseResult = Answered(head: ResponseHead, rest: Stream) | BadResponse | NeverEnds

  function ParseStatusLine(line: string): Option<(string, string)> {
    var versionEnd := Find(line, ' ', 0);
    if versionEnd == |line| || |line| <= 5 || versionEnd + 1 >= |line| then None
    else
      // substr(5, versionEnd - 5), whose count wraps around when the space comes earlier
      var version := if versionEnd >= 5 then line[5..versionEnd] else line[5..];
      Some((version, ButLast(line, versionEnd + 1)))
  }

  function ParseResponse(st: Stream): ResponseResult {
    var (line, st') := GetLine(st, "");
    match ParseStatusLine(line)
    case None => BadResponse
    case Some((version, status)) =>
      match ParseHeader(st')
      case Diverges => NeverEnds
      case Parsed(h, rest) => Answered(ResponseHead(version, status, h), rest)
  }

  method ResponseParse(stream: InputStream) returns (result: ResponseResult)
    modifies stream
    ensures result == ParseResponse(old(stream.View()))
    ensures result.Answered? ==> stream.View() == result.rest
  {
    var line := stream.Line("");
    var versionEnd := Find(line, ' ', 0);
    if versionEnd == |line| || 5 >= |line| || versionEnd + 1 >= |line| {
      return BadResponse;
    }
    var version := if versionEnd >= 5 then line[5..versionEnd] else line[5..];
    var status := line[versionEnd + 1..|line| - 1];
    var header := HeaderParse(stream);
    match header
    case Diverges => result := NeverEnds;
    case Parsed(h, rest) => result := Answered(ResponseHead(version, status, h), rest);
  }

  /** A line is a status line exactly when it is longer than five characters and has a space with
      something behind it. The first five characters are not looked at; the version reaches from
      there to the space, or to the end of the line when the space comes earlier. */
  lemma StatusLineIff(line: string, start: string, version: string, rest: string, last: char)
    ensures |line| <= 5 || ' ' !in line ==> ParseStatusLine(line) == None
    ensures ' ' !in start && line == start + " " ==> ParseStatusLine(line) == None
    ensures |start| == 5 && ' ' !in start && ' ' !in version && line == start + version + " " + rest + [last] ==>
              ParseStatusLine(line) == Some((version, rest))
    ensures |start| < 5 < |line| && ' ' !in start && line == start + " " + rest + [last] ==>
              ParseStatusLine(line) == Some((line[5..], rest))
  {
    if ' ' !in line {
      FindIs(line, ' ', 0, |line|);
    } else if ' ' !in start && line == start + " " {
      FindIs(line, ' ', 0, |start|);
    } else if |start| == 5 && ' ' !in start && ' ' !in version && line == start + version + " " + rest + [last] {
      FindIs(line, ' ', 0, 5 + |version|);
      assert line[5..5 + |version|] == version && line[6 + |version|..|line| - 1] == rest;
    } else if |start| < 5 < |line| && ' ' !in start && line == start + " " + rest + [last] {
      FindIs(line, ' ', 0, |start|);
      assert line[|start| + 1..|line| - 1] == rest;
    }
  }

  predicate GoodStatus(version: string, status: string) {
    ' ' !in version && '\n' !in version && '\n' !in status
  }

  lemma StatusLineRoundTrip(version: string, status: string)
    requires ' ' !in version
    ensures ParseStatusLine("HTTP/" + version + " " + status + "\r") == Some((version, status))
  {
    var line := "HTTP/" + version + " " + status + "\r";
    var versionEnd := 5 + |version|;
    FindIs(line, ' ', 0, versionEnd);
    assert line[5..versionEnd] == version && line[versionEnd + 1..|line| - 1] == status;
  }

  /** A status line, printed fields and a blank line are read back; the body is left unread. */
  lemma HeadRoundTrip(head: ResponseHead, rest: string)
    requires GoodStatus(head.version, head.status) && GoodHeader(head.header)
    ensures ParseResponse(Stream("HTTP/" + head.version + " " + head.status + CRLF + HeaderText(head.header) + CRLF + rest, true))
            == Answered(head, Stream(rest, true))
  {
    var line := "HTTP/" + head.version + " " + head.status + "\r";
    var more := HeaderText(head.header) + CRLF + rest;
    assert line + "\n" + more
           == "HTTP/" + head.version + " " + head.status + CRLF + HeaderText(head.header) + CRLF + rest by {
      assert line + "\n" == "HTTP/" + head.version + " " + head.status + CRLF;
      Assoc(line + "\n", HeaderText(head.header), CRLF);
      Assoc(line + "\n", HeaderText(head.header) + CRLF, rest);
    }
    LineRead(line, more, "");
    StatusLineRoundTrip(head.version, head.status);
    HeaderRoundTrip(head.header, rest);
  }

  /** Whatever follows "HTTP/" is read, an accepted head is a printable one. */
  lemma ResponseImage(st: Stream)
    requires ParseResponse(st).Answered?
    requires st.good && |st.rest| >= 5 && st.rest[..5] == "HTTP/"
    ensures var head := ParseResponse(st).head;
            GoodStatus(head.version, head.status) && GoodHeader(head.header)
  {
    var (line, st') := GetLine(st, "");
    assert forall k :: 0 <= k < 5 ==> st.rest[k] == st.rest[..5][k];
    assert Find(st.rest, '\n', 0) >= 5;
    assert Find(line, ' ', 0) >= 5;
    HeaderImage(st');
  }

  lemma DecimalIsGood(name: string, n: nat)
    requires ':' !in name && '\n' !in name
    ensures GoodField(Field(name, Decimal(n)))
  {
    NatTextValue(n, 10);
    assert forall i :: 0 <= i < |Decimal(n)| ==> DigitValue(Decimal(n)[i]) < 10;
  }

  // What ResponseMessage::parse makes of a response: code and text stay together.
  function HeadOf(r: Response): ResponseHead {
    ResponseHead(r.version, r.code + " " + r.text, PrintedHeader(r))
  }

  predicate GoodResponse(r: Response) {
    ' ' !in r.version && '\n' !in r.version && '\n' !in r.code && '\n' !in r.text && GoodHeader(r.header)
  }

  lemma GoodResponseHead(r: Response)
    ensures GoodResponse(r) <==>
            GoodStatus(HeadOf(r).version, HeadOf(r).status) && GoodHeader(HeadOf(r).header)
  {
    DecimalIsGood("Content-Length", |r.body|);
    assert forall i :: 0 <= i < |r.header| ==> PrintedHeader(r)[i] == r.header[i];
    assert forall c :: c in r.code + " " + r.text <==> c in r.code || c == ' ' || c in r.text;
  }

  lemma ResponseTextShape(r: Response)
    ensures ResponseText(r) == "HTTP/" + r.version + " " + HeadOf(r).status + CRLF + HeaderText(PrintedHeader(r)) + CRLF + r.body
    ensures |ResponseText(r)| >= 5 && ResponseText(r)[..5] == "HTTP/"
  {
    assert StatusLine(r) == "HTTP/" + r.version + " " + HeadOf(r).status + CRLF;
  }

  /** Parsing a printed response gives back version, status and fields, the length of a body
      that is not empty among them, and leaves exactly the body unread, if and only if the
      response is a good one. */
  lemma ResponseRoundTripIff(r: Response)
    ensures ParseResponse(Stream(ResponseText(r), true)) == Answered(HeadOf(r), Stream(r.body, true))
            <==> GoodResponse(r)
  {
    GoodResponseHead(r);
    ResponseTextShape(r);
    if GoodResponse(r) {
      HeadRoundTrip(HeadOf(r), r.body);
    } else if ParseResponse(Stream(ResponseText(r), true)).Answered? {
      ResponseImage(Stream(ResponseText(r), true));
    }
  }
}
