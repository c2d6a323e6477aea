// What the library's client writes its server reads, and the other way round
// (lib/simple-web-server/client_http.hpp and server_http.hpp).
module RoundTrips {
  import opened Text
  import opened Numbers
  import opened HttpText
  import opened HttpParse
  import opened HttpMessages
  import opened Reader
  import opened Wire

  // ---------- where a printed head ends ----------

  predicate EndAt(s: string, i: int) {
    0 <= i && i + 4 <= |s| && s[i] == '\r' && s[i + 1] == '\n' && s[i + 2] == '\r' && s[i + 3] == '\n'
  }

  lemma EndIs(s: string, r: nat)
    requires EndAt(s, r) && forall k :: 0 <= k < r ==> !EndAt(s, k)
    ensures FindText(s, HEAD_END, 0) == Some(r)
  {
    assert s[r..r + 4] == HEAD_END;
    forall k | 0 <= k < r
      ensures !OccursAt(s, HEAD_END, k)
    {
      if k + 4 <= |s| {
        var t := s[k..k + 4];
        assert !EndAt(s, k);
        assert t[0] == s[k] && t[1] == s[k + 1] && t[2] == s[k + 2] && t[3] == s[k + 3];
        assert HEAD_END[0] == '\r' && HEAD_END[1] == '\n' && HEAD_END[2] == '\r' && HEAD_END[3] == '\n';
      }
    }
    FindTextIs(s, HEAD_END, 0, r);
  }

  predicate IsLine(line: string) {
    line != "" && line[|line| - 1] == '\r' && '\n' !in line
  }

  /** Lines that are not blank do not end a head. */
  lemma {:induction false} HeadEndsAt(line: string, h: Header, rest: string)
    requires IsLine(line) && GoodHeader(h)
    ensures var s := line + "\n" + (HeaderText(h) + CRLF + rest);
            var r := |line| - 1 + |HeaderText(h)|;
            EndAt(s, r) && forall k :: 0 <= k < r ==> !EndAt(s, k)
    decreases |h|
  {
    var more := HeaderText(h) + CRLF + rest;
    if h == [] {
      NoEndInLine(line, more);
      assert more[0] == '\r' && more[1] == '\n';
    } else {
      var next := h[0].name + ": " + h[0].value + "\r";
      var after := HeaderText(h[1..]) + CRLF + rest;
      NextLine(h, rest);
      assert more == next + "\n" + after;
      HeadEndsAt(next, h[1..], rest);
      assert more[1] == next[1] != '\n';
      EndBehindLine(line, more);
    }
  }

  lemma NextLine(h: Header, rest: string)
    requires h != [] && GoodHeader(h)
    ensures var next := h[0].name + ": " + h[0].value + "\r";
            && IsLine(next) && |next| >= 3
            && HeaderText(h) + CRLF + rest == next + "\n" + (HeaderText(h[1..]) + CRLF + rest)
            && |HeaderText(h)| == |next| + 1 + |HeaderText(h[1..])|
  {
    HeaderLine(h, rest);
  }

  lemma NoEndInLine(line: string, more: string)
    requires IsLine(line)
    ensures forall k :: 0 <= k < |line| - 1 ==> !EndAt(line + "\n" + more, k)
    ensures forall k :: 0 <= k <= |line| ==> (line + "\n" + more)[k] == (line + "\n")[k]
  {
    var s := line + "\n" + more;
    assert forall k :: 0 <= k < |line| ==> s[k] == line[k];
  }

  lemma EndBehindLine(line: string, more: string)
    requires IsLine(line) && |more| >= 2 && more[1] != '\n'
    ensures var s, n := line + "\n" + more, |line| + 1;
            && (forall k :: 0 <= k < n ==> !EndAt(s, k))
            && (forall k :: n <= k ==> EndAt(s, k) == EndAt(more, k - n))
  {
    var s, n := line + "\n" + more, |line| + 1;
    NoEndInLine(line, more);
    assert s[n + 1] == more[1];
    assert forall k :: n <= k < |s| ==> s[k] == more[k - n];
  }

  // ---------- the client writes a request ----------

  /** The target the client sends; through a proxy it is an absolute one. */
  function Target(path: string, proxied: Option<string>): string {
    (if proxied.Some? then "http://" + proxied.value else "") + if path == "" then "/" else path
  }

  function LengthField(content: string): Field {
    Field("Content-Length", Decimal(|content|))
  }

  /** The fields the client sends: host, the caller's, and the length of a body unless the
      caller has delimited it. */
  function ClientHeader(host: string, header: Header, content: string): Header {
    [Field("Host", host)] + header
    + if content != "" && Lookup(header, "Content-Length") == None && Lookup(header, "Transfer-Encoding") != Some("chunked")
      then [LengthField(content)] else []
  }

  function Message(line: string, header: Header, content: string): string {
    line + "\n" + (HeaderText(header) + CRLF + content)
  }

  function ClientText(verb: string, target: string, host: string, header: Header, content: string): string {
    Message(verb + " " + target + " HTTP/" + "1.1" + "\r", ClientHeader(host, header, content), content)
  }

  method CreateRequestHeader(verb: string, path: string, proxied: Option<string>, host: string, header: Header)
    returns (s: string)
    ensures s == verb + " " + Target(path, proxied) + " HTTP/1.1\r\n" + HeaderText([Field("Host", host)] + header)
    ensures var end := " HTTP/1.1\r\n" + HeaderText([Field("Host", host)] + header);
            && (proxied == None && path != "" ==> s == verb + " " + path + end)
            && (proxied == None && path == "" ==> s == verb + " /" + end)
            && (proxied.Some? && path != "" ==> s == verb + " http://" + proxied.value + path + end)
            && (proxied.Some? && path == "" ==> s == verb + " http://" + proxied.value + "/" + end)
  {
    var target := path;
    if target == "" {
      target := "/";
    }
    if proxied.Some? {
      target := "http://" + proxied.value + target;
    }
    s := verb + " " + target + " HTTP/1.1\r\n";
    var fields := PrintFields([Field("Host", host)] + header);
    s := s + fields;
  }

  /** The bytes of a request: create_request_header, and what request writes behind it. */
  method ClientWrite(verb: string, path: string, proxied: Option<string>, host: string, header: Header, content: string)
    returns (s: string)
    ensures s == ClientText(verb, Target(path, proxied), host, header, content)
  {
    s := CreateRequestHeader(verb, path, proxied, host, header);
    ClientTextShape(verb, Target(path, proxied), host, header, content);
    if |content| > 0 {
      if Lookup(header, "Content-Length") == None && Lookup(header, "Transfer-Encoding") != Some("chunked") {
        s := s + ("Content-Length: " + Decimal(|content|) + "\r\n");
      }
    }
    s := s + ("\r\n" + content);
  }

  lemma ClientTextShape(verb: string, target: string, host: string, header: Header, content: string)
    ensures var own := [Field("Host", host)] + header;
            var start := verb + " " + target + " HTTP/1.1\r\n" + HeaderText(own);
            var undelimited := Lookup(header, "Content-Length") == None && Lookup(header, "Transfer-Encoding") != Some("chunked");
            ClientText(verb, target, host, header, content)
            == (if content != "" && undelimited then start + ("Content-Length: " + Decimal(|content|) + "\r\n")
                else start)
               + ("\r\n" + content)
  {
    var own, sent := [Field("Host", host)] + header, ClientHeader(host, header, content);
    var line := verb + " " + target + " HTTP/" + "1.1" + "\r";
    StartText(verb, target);
    assert own + [] == own;
    if sent != own {
      HeaderTextSnoc(own, LengthField(content));
      LengthLine(content);
      Assoc(line + "\n", HeaderText(own), FieldLine(LengthField(content)));
    }
    Assoc(line + "\n", HeaderText(sent), CRLF + content);
    Assoc(HeaderText(sent), CRLF, content);
  }

  /** The client adds the length of a body that is not empty, unless a field named Content-Length, in
      any case, is there, or the first one named Transfer-Encoding is "chunked". */
  lemma ClientHeaderIs(host: string, header: Header, content: string)
    ensures var delimited := !NoneNamed(header, "Content-Length")
                             || exists i: nat :: FirstNamed(header, i, "Transfer-Encoding") && header[i].value == "chunked";
            ClientHeader(host, header, content)
            == [Field("Host", host)] + header
               + if content != "" && !delimited then [Field("Content-Length", Decimal(|content|))] else []
  {
    LookupFinds(header, "Content-Length");
    LookupFinds(header, "Transfer-Encoding");
    if !NoneNamed(header, "Transfer-Encoding") {
      var i := FirstIsNamed(header, "Transfer-Encoding");
    } else {
      assert forall i: nat :: !FirstNamed(header, i, "Transfer-Encoding");
    }
  }

  lemma StartText(verb: string, target: string)
    ensures verb + " " + target + " HTTP/" + "1.1" + "\r" + "\n" == verb + " " + target + " HTTP/1.1\r\n"
  {
  }

  lemma LengthLine(content: string)
    ensures FieldLine(LengthField(content)) == "Content-Length: " + Decimal(|content|) + "\r\n"
  {
    assert "Content-Length" + ": " == "Content-Length: ";
  }

  ghost predicate IsHead(bytes: string, head: string, tail: string) {
    bytes == head + tail && |head| >= 4 && FindText(bytes, HEAD_END, 0) == Some(|head| - 4)
  }

  /** A message's bytes split into its head and its content. */
  lemma MessageHead(line: string, header: Header, content: string, rest: string, head: string, bytes: string)
    requires IsLine(line) && GoodHeader(header)
    requires head == line + "\n" + (HeaderText(header) + CRLF + "")
    requires bytes == Message(line, header, content) + rest
    ensures IsHead(bytes, head, content + rest)
  {
    HeadEndsAt(line, header, content + rest);
    assert bytes == line + "\n" + (HeaderText(header) + CRLF + (content + rest)) by {
      assert HeaderText(header) + CRLF + (content + rest) == HeaderText(header) + CRLF + content + rest;
      Assoc(line + "\n", HeaderText(header) + CRLF + content, rest);
    }
    assert HeaderText(header) + CRLF + "" == HeaderText(header) + CRLF;
    Assoc(line + "\n", HeaderText(header) + CRLF, content + rest);
    EndIs(bytes, |head| - 4);
  }

  /** The length field that the client or server adds tells the reader where the content ends. */
  lemma LengthBody(head: string, content: string, rest: string, before: Header, lasts: bool, error: ReadError)
    requires Lacks(before, "Content-Length") && |content| <= MAX_UNSIGNED_LONG
    ensures BodyOf(head + (content + rest), |head|, |head|, before + [LengthField(content)], lasts, error)
            == Complete(content, rest)
  {
    LookupAppend(before, [LengthField(content)], "Content-Length");
    StoulRoundTrip(|content|);
    var bytes := head + (content + rest);
    assert bytes[|head|..|head| + |content|] == content && bytes[|head| + |content|..] == rest;
  }

  lemma OtherBody(head: string, tail: string, h: Header, lasts: bool, error: ReadError)
    requires Lacks(h, "Content-Length") && Lookup(h, "Transfer-Encoding") != Some("chunked")
    ensures BodyOf(head + tail, |head|, |head|, h, lasts, error)
            == if lasts then Complete("", tail) else Complete(tail, "")
  {
    LookupAppend(h, [], "Content-Length");
    assert h + [] == h;
    assert (head + tail)[|head|..] == tail;
  }

  /** Over any bytes that follow, the server reads the client's request back: method, target split
      at its last question mark, fields, and where the body ends. */
  lemma ServerReadsRequest(verb: string, target: string, host: string, header: Header, content: string, rest: string)
    requires ' ' !in verb && '\n' !in verb && ' ' !in target && '\n' !in target
    requires GoodField(Field("Host", host)) && GoodHeader(header)
    requires Lacks(header, "Content-Length") && Lacks(header, "Transfer-Encoding") && |content| <= MAX_UNSIGNED_LONG
    ensures var (path, query) := SplitTarget(target);
            var sent := ClientHeader(host, header, content);
            IncomingRequest(ClientText(verb, target, host, header, content) + rest)
            == Incoming(Request(verb, path, query, "1.1", sent), Complete(content, rest))
  {
    var sent := ClientHeader(host, header, content);
    var line := verb + " " + target + " HTTP/" + "1.1" + "\r";
    var head := line + "\n" + (HeaderText(sent) + CRLF + "");
    var (path, query) := SplitTarget(target);
    RequestBytesRead(verb, target, host, header, content, rest, line, head,
                     Request(verb, path, query, "1.1", sent), Message(line, sent, content) + rest);
  }

  lemma RequestBytesRead(verb: string, target: string, host: string, header: Header, content: string, rest: string,
                         line: string, head: string, r: Request, bytes: string)
    requires ' ' !in verb && '\n' !in verb && ' ' !in target && '\n' !in target
    requires GoodField(Field("Host", host)) && GoodHeader(header)
    requires Lacks(header, "Content-Length") && Lacks(header, "Transfer-Encoding") && |content| <= MAX_UNSIGNED_LONG
    requires line == verb + " " + target + " HTTP/" + "1.1" + "\r"
    requires r.header == ClientHeader(host, header, content)
    requires head == line + "\n" + (HeaderText(r.header) + CRLF + "")
    requires var (path, query) := SplitTarget(target); r == Request(verb, path, query, "1.1", r.header)
    requires bytes == Message(line, r.header, content) + rest
    ensures IncomingRequest(bytes) == Incoming(r, Complete(content, rest))
  {
    ClientHeaderGood(host, header, content);
    RequestHeadParsed(verb, target, r.header);
    ClientBody(head, host, header, content, rest);
    MessageHead(line, r.header, content, rest, head, bytes);
    RequestWithBody(bytes, head, content + rest, r, Complete(content, rest));
  }

  lemma RequestWithBody(bytes: string, head: string, tail: string, r: Request, body: Body)
    requires IsHead(bytes, head, tail)
    requires ParseRequest(Stream(head, true)) == Accepted(r, Stream("", true))
    requires BodyOf(bytes, |head|, |head|, r.header, true, ProtocolError) == body
    ensures IncomingRequest(bytes) == Incoming(r, body)
  {
    RequestHeadMeans(head, tail, r);
  }

  lemma RequestHeadParsed(verb: string, target: string, sent: Header)
    requires ' ' !in verb && '\n' !in verb && ' ' !in target && '\n' !in target && GoodHeader(sent)
    ensures var line := verb + " " + target + " HTTP/" + "1.1" + "\r";
            var head := line + "\n" + (HeaderText(sent) + CRLF + "");
            var (path, query) := SplitTarget(target);
            && IsLine(line)
            && ParseRequest(Stream(head, true)) == Accepted(Request(verb, path, query, "1.1", sent), Stream("", true))
  {
    RequestIsLine(verb, target);
    RequestHeadRoundTrip(verb, target, "1.1", sent, "");
  }

  lemma RequestHeadRead(head: string, tail: string, incoming: Incoming)
    requires |head| >= 4 && FindText(head + tail, HEAD_END, 0) == Some(|head| - 4)
    requires var parsed := ParseRequest(Stream(head, true));
             (parsed.Accepted? ==> |parsed.rest.rest| <= |head|) && incoming == RequestFrom(parsed, head + tail, |head|)
    ensures IncomingRequest(head + tail) == incoming
  {
    assert (head + tail)[..|head|] == head;
  }

  lemma RequestHeadAccepted(head: string, bytes: string, r: Request, incoming: Incoming)
    requires |head| <= |bytes| && ParseRequest(Stream(head, true)) == Accepted(r, Stream("", true))
    requires incoming == RequestFrom(ParseRequest(Stream(head, true)), bytes, |head|)
    ensures incoming == Incoming(r, BodyOf(bytes, |head|, |head|, r.header, true, ProtocolError))
  {
  }

  lemma RequestHeadMeans(head: string, tail: string, r: Request)
    requires |head| >= 4 && FindText(head + tail, HEAD_END, 0) == Some(|head| - 4)
    requires ParseRequest(Stream(head, true)) == Accepted(r, Stream("", true))
    ensures IncomingRequest(head + tail)
            == Incoming(r, BodyOf(head + tail, |head|, |head|, r.header, true, ProtocolError))
  {
    var incoming := RequestFrom(ParseRequest(Stream(head, true)), head + tail, |head|);
    RequestHeadRead(head, tail, incoming);
    RequestHeadAccepted(head, head + tail, r, incoming);
  }

  lemma ClientBody(head: string, host: string, header: Header, content: string, rest: string)
    requires GoodField(Field("Host", host)) && GoodHeader(header)
    requires Lacks(header, "Content-Length") && Lacks(header, "Transfer-Encoding") && |content| <= MAX_UNSIGNED_LONG
    ensures BodyOf(head + (content + rest), |head|, |head|, ClientHeader(host, header, content), true, ProtocolError)
            == Complete(content, rest)
  {
    var own := [Field("Host", host)] + header;
    ClientHeaderGood(host, header, content);
    if content != "" {
      LengthBody(head, content, rest, own, true, ProtocolError);
    } else {
      assert content + rest == rest;
      OtherBody(head, rest, own, true, ProtocolError);
    }
  }

  lemma ClientHeaderGood(host: string, header: Header, content: string)
    requires GoodField(Field("Host", host)) && GoodHeader(header)
    requires Lacks(header, "Content-Length") && Lacks(header, "Transfer-Encoding")
    ensures var own, sent := [Field("Host", host)] + header, ClientHeader(host, header, content);
            && GoodHeader(sent) && Lacks(own, "Content-Length")
            && Lookup(own, "Transfer-Encoding") == None
            && sent == if content == "" then own else own + [LengthField(content)]
  {
    var own := [Field("Host", host)] + header;
    LookupAppend(header, [], "Content-Length");
    LookupAppend(header, [], "Transfer-Encoding");
    LookupAppend(own, [], "Transfer-Encoding");
    assert header + [] == header && own + [] == own;
    DecimalIsGood("Content-Length", |content|);
  }

  /** What the server's handler reads of a request, and of the bytes behind it, that come in these
      slices: the body, and whatever else has arrived with the head. */
  method DeliverRequest(slices: seq<string>, ghost verb: string, ghost target: string, ghost host: string,
                        ghost header: Header, ghost sent: string, ghost rest: string)
    returns (error: Option<ReadError>, request: Request, content: string)
    requires ' ' !in verb && '\n' !in verb && ' ' !in target && '\n' !in target
    requires GoodField(Field("Host", host)) && GoodHeader(header)
    requires Lacks(header, "Content-Length") && Lacks(header, "Transfer-Encoding") && |sent| <= MAX_UNSIGNED_LONG
    requires Concat(slices) == ClientText(verb, target, host, header, sent) + rest
    ensures var (path, query) := SplitTarget(target);
            error == None && request == Request(verb, path, query, "1.1", ClientHeader(host, header, sent))
    ensures |Upto("", slices, HEAD_END)| <= |Concat(slices)|
    ensures content == sent + rest[..Extra(|Concat(slices)|, |Upto("", slices, HEAD_END)|, rest)]
  {
    ServerReadsRequest(verb, target, host, header, sent, rest);
    ClientFraming(host, header, sent);
    var connection := new Connection(slices);
    assert connection.Bytes() == Concat(slices);
    error, request := ServerRead(connection);
    content := connection.buffer;
  }

  /** Bytes that follow a request are seen as content depending on the slicing. */
  lemma RequestSlicingIff(verb: string, target: string, host: string, header: Header, content: string, rest: string)
    requires ' ' !in verb && '\n' !in verb && ' ' !in target && '\n' !in target
    requires GoodField(Field("Host", host)) && GoodHeader(header)
    requires Lacks(header, "Content-Length") && Lacks(header, "Transfer-Encoding") && |content| <= MAX_UNSIGNED_LONG
    ensures var bytes := ClientText(verb, target, host, header, content) + rest;
            IncomingRequest(bytes).Incoming? && (SameForAllSlices(IncomingRequest(bytes).body, bytes) <==> rest == "")
  {
    var bytes := ClientText(verb, target, host, header, content) + rest;
    ServerReadsRequest(verb, target, host, header, content, rest);
    RequestParts(verb, target, host, header, content, rest);
    assert (content + rest)[|content|..] == rest;
    SlicingIff(bytes, RequestHeadText(verb, target, host, header, content), content + rest, content, rest);
  }

  function RequestHeadText(verb: string, target: string, host: string, header: Header, content: string): string {
    verb + " " + target + " HTTP/" + "1.1" + "\r" + "\n" + (HeaderText(ClientHeader(host, header, content)) + CRLF + "")
  }

  lemma RequestIsLine(verb: string, target: string)
    requires '\n' !in verb && '\n' !in target
    ensures IsLine(verb + " " + target + " HTTP/" + "1.1" + "\r")
  {
  }

  lemma RequestParts(verb: string, target: string, host: string, header: Header, content: string, rest: string)
    requires '\n' !in verb && '\n' !in target
    requires GoodField(Field("Host", host)) && GoodHeader(header)
    requires Lacks(header, "Content-Length") && Lacks(header, "Transfer-Encoding")
    ensures IsHead(ClientText(verb, target, host, header, content) + rest,
                   RequestHeadText(verb, target, host, header, content), content + rest)
  {
    ClientHeaderGood(host, header, content);
    RequestIsLine(verb, target);
    MessageHead(verb + " " + target + " HTTP/" + "1.1" + "\r", ClientHeader(host, header, content), content, rest,
                RequestHeadText(verb, target, host, header, content), ClientText(verb, target, host, header, content) + rest);
  }

  lemma ClientFraming(host: string, header: Header, content: string)
    requires GoodField(Field("Host", host)) && GoodHeader(header)
    requires Lacks(header, "Content-Length") && Lacks(header, "Transfer-Encoding")
    ensures FramingOf(ClientHeader(host, header, content), true) != ByChunks
  {
    ClientHeaderGood(host, header, content);
    LookupAppend([Field("Host", host)] + header, [LengthField(content)], "Content-Length");
  }

  // ---------- the server writes a response ----------

  predicate SaysChunked(f: Field) {
    SameIgnoringCase(f.name, "Transfer-Encoding") && SameIgnoringCase(f.value, "chunked")
  }

  /** The fields the server sends: the caller's, and the length, unless the caller has
      delimited the content or the connection is to be closed behind the response. */
  function ServerHeader(header: Header, content: string, closing: bool): Header {
    if Lacks(header, "Content-Length") && !closing && forall i :: 0 <= i < |header| ==> !SaysChunked(header[i])
    then header + [LengthField(content)]
    else header
  }

  function ServerText(status: string, header: Header, content: string, closing: bool): string {
    Message("HTTP/" + "1.1" + " " + status + "\r", ServerHeader(header, content, closing), content)
  }

  /** A field named Content-Length, or a Transfer-Encoding of chunked, both in any case. */
  ghost predicate Delimited(header: Header) {
    || (exists j :: 0 <= j < |header| && Alike(header[j].name, "Content-Length"))
    || (exists j :: 0 <= j < |header| && Alike(header[j].name, "Transfer-Encoding") && Alike(header[j].value, "chunked"))
  }

  lemma ServerHeaderIs(header: Header, content: string, closing: bool)
    ensures ServerHeader(header, content, closing)
            == if closing || Delimited(header) then header else header + [Field("Content-Length", Decimal(|content|))]
  {
    LacksIff(header, "Content-Length");
    forall j | 0 <= j < |header|
      ensures SaysChunked(header[j]) <==> Alike(header[j].name, "Transfer-Encoding") && Alike(header[j].value, "chunked")
    {
      AlikeIff(header[j].name, "Transfer-Encoding");
      AlikeIff(header[j].value, "chunked");
    }
  }

  lemma ServerHeaderText(header: Header, content: string, closing: bool)
    ensures HeaderText(ServerHeader(header, content, closing))
            == if closing || Delimited(header) then HeaderText(header)
               else HeaderText(header) + ("Content-Length: " + Decimal(|content|) + "\r\n")
  {
    ServerHeaderIs(header, content, closing);
    HeaderTextSnoc(header, LengthField(content));
    LengthLine(content);
  }

  // The loop of write_header, and whether a length is still to be written.
  method WriteFields(header: Header, closing: bool, ghost content: string) returns (s: string, due: bool)
    ensures s == HeaderText(header)
    ensures due <==> ServerHeader(header, content, closing) != header
  {
    var lengthWritten, chunked := false, false;
    s := "";
    for i := 0 to |header|
      invariant lengthWritten <==> !Lacks(header[..i], "Content-Length")
      invariant chunked <==> exists k :: 0 <= k < i && SaysChunked(header[k])
      invariant s == HeaderText(header[..i])
    {
      var f := header[i];
      assert header[..i + 1] == header[..i] + [f];
      HeaderTextSnoc(header[..i], f);
      if !lengthWritten && SameIgnoringCase(f.name, "Content-Length") {
        lengthWritten := true;
      } else if !chunked && SaysChunked(f) {
        chunked := true;
      }
      s := s + (f.name + ": " + f.value + "\r\n");
    }
    assert header[..|header|] == header;
    due := !lengthWritten && !chunked && !closing;
  }

  /** Response::write_header. */
  method WriteHeader(header: Header, content: string, closing: bool) returns (s: string)
    ensures s == HeaderText(ServerHeader(header, content, closing)) + CRLF
    ensures s == (if closing || Delimited(header) then HeaderText(header)
                  else HeaderText(header) + ("Content-Length: " + Decimal(|content|) + "\r\n")) + "\r\n"
  {
    var due;
    s, due := WriteFields(header, closing, content);
    ServerHeaderIs(header, content, closing);
    ServerHeaderText(header, content, closing);
    if due {
      s := s + ("Content-Length: " + Decimal(|content|) + "\r\n") + "\r\n";
    } else {
      s := s + "\r\n";
    }
  }

  /** Response::write. */
  method ServerWrite(status: string, header: Header, content: string, closing: bool) returns (s: string)
    ensures s == ServerText(status, header, content, closing)
  {
    s := "HTTP/1.1 " + status + "\r\n";
    var head := WriteHeader(header, content, closing);
    s := s + head;
    if content != "" {
      s := s + content;
    }
    var line := "HTTP/" + "1.1" + " " + status + "\r";
    assert line + "\n" == "HTTP/1.1 " + status + "\r\n";
    Assoc(line + "\n", head, content);
  }

  lemma ResponseHeadRead(head: string, tail: string, outcome: Outcome)
    requires |head| >= 4 && FindText(head + tail, HEAD_END, 0) == Some(|head| - 4)
    requires var parsed := ParseResponse(Stream(head, true));
             (parsed.Answered? ==> |parsed.rest.rest| <= |head|) && outcome == ResponseFrom(parsed, head + tail, |head|)
    ensures IncomingResponse(head + tail) == outcome
  {
    assert (head + tail)[..|head|] == head;
  }

  lemma ResponseHeadAnswered(head: string, bytes: string, h: ResponseHead, outcome: Outcome)
    requires |head| <= |bytes| && ParseResponse(Stream(head, true)) == Answered(h, Stream("", true))
    requires outcome == ResponseFrom(ParseResponse(Stream(head, true)), bytes, |head|)
    ensures outcome == Outcome(h, Lasts(h), BodyOf(bytes, |head|, |head|, h.header, Lasts(h), Uncaught))
  {
  }

  lemma ResponseWithBody(bytes: string, head: string, tail: string, h: ResponseHead, body: Body)
    requires IsHead(bytes, head, tail)
    requires ParseResponse(Stream(head, true)) == Answered(h, Stream("", true))
    requires BodyOf(bytes, |head|, |head|, h.header, Lasts(h), Uncaught) == body
    ensures IncomingResponse(bytes) == Outcome(h, Lasts(h), body)
  {
    var outcome := ResponseFrom(ParseResponse(Stream(head, true)), head + tail, |head|);
    ResponseHeadRead(head, tail, outcome);
    ResponseHeadAnswered(head, head + tail, h, outcome);
  }

  lemma ResponseHeadParsed(status: string, h: ResponseHead)
    requires '\n' !in status && GoodHeader(h.header) && h.version == "1.1" && h.status == status
    ensures var line := "HTTP/" + "1.1" + " " + status + "\r";
            var head := line + "\n" + (HeaderText(h.header) + CRLF + "");
            IsLine(line) && ParseResponse(Stream(head, true)) == Answered(h, Stream("", true))
  {
    var line := "HTTP/" + "1.1" + " " + status + "\r";
    LineRead(line, HeaderText(h.header) + CRLF + "", "");
    StatusLineRoundTrip("1.1", status);
    HeaderRoundTrip(h.header, "");
  }

  /** What the client reads as the body of a response: all of it, unless the connection is to be
      closed, for then no length is sent, and the client looks for the wrong field. */
  function ClientBodyOf(header: Header, content: string, rest: string, closing: bool): Body {
    if !closing then Complete(content, rest)
    else if Lookup(header, "Session") == Some("close") then Complete(content + rest, "")
    else Complete("", content + rest)
  }

  lemma ServerBody(head: string, status: string, header: Header, content: string, rest: string, closing: bool)
    requires GoodHeader(header) && Lacks(header, "Content-Length") && Lacks(header, "Transfer-Encoding")
    requires |content| <= MAX_UNSIGNED_LONG
    ensures var h := ResponseHead("1.1", status, ServerHeader(header, content, closing));
            && GoodHeader(h.header)
            && BodyOf(head + (content + rest), |head|, |head|, h.header, Lasts(h), Uncaught)
               == ClientBodyOf(header, content, rest, closing)
  {
    var h := ResponseHead("1.1", status, ServerHeader(header, content, closing));
    DecimalIsGood("Content-Length", |content|);
    if closing {
      assert header + [] == header;
      LookupAppend(header, [], "Transfer-Encoding");
      SameVersion();
      OtherBody(head, content + rest, header, Lasts(h), Uncaught);
    } else {
      LengthBody(head, content, rest, header, Lasts(h), Uncaught);
    }
  }

  lemma SameVersion()
    ensures !Less("1.1", "1.1")
  {
    assert "1.1"[1..] == ".1" && ".1"[1..] == "1" && "1"[1..] == "";
    assert !Less("1", "1") && !Less(".1", ".1");
  }

  lemma ResponseBytesRead(status: string, header: Header, content: string, rest: string, closing: bool,
                          line: string, head: string, h: ResponseHead, bytes: string)
    requires '\n' !in status && GoodHeader(header)
    requires Lacks(header, "Content-Length") && Lacks(header, "Transfer-Encoding") && |content| <= MAX_UNSIGNED_LONG
    requires h == ResponseHead("1.1", status, ServerHeader(header, content, closing))
    requires line == "HTTP/" + "1.1" + " " + status + "\r"
    requires head == line + "\n" + (HeaderText(h.header) + CRLF + "")
    requires bytes == Message(line, h.header, content) + rest
    ensures IncomingResponse(bytes) == Outcome(h, Lasts(h), ClientBodyOf(header, content, rest, closing))
  {
    ServerBody(head, status, header, content, rest, closing);
    ResponseHeadParsed(status, h);
    MessageHead(line, h.header, content, rest, head, bytes);
    ResponseWithBody(bytes, head, content + rest, h, ClientBodyOf(header, content, rest, closing));
  }

  /** Head and body that the client reads from the bytes of a response and any that follow. */
  lemma ClientReadsResponse(status: string, header: Header, content: string, rest: string, closing: bool)
    requires '\n' !in status && GoodHeader(header)
    requires Lacks(header, "Content-Length") && Lacks(header, "Transfer-Encoding") && |content| <= MAX_UNSIGNED_LONG
    ensures var outcome := IncomingResponse(ServerText(status, header, content, closing) + rest);
            && outcome.Outcome?
            && outcome.head == ResponseHead("1.1", status, ServerHeader(header, content, closing))
            && outcome.body == ClientBodyOf(header, content, rest, closing)
            && FramingOf(outcome.head.header, outcome.lasts) != ByChunks
  {
    var h := ResponseHead("1.1", status, ServerHeader(header, content, closing));
    var line := "HTTP/" + "1.1" + " " + status + "\r";
    var head := line + "\n" + (HeaderText(h.header) + CRLF + "");
    ResponseBytesRead(status, header, content, rest, closing, line, head, h,
                      ServerText(status, header, content, closing) + rest);
    ServerFraming(header, content, closing, Lasts(h));
  }

  lemma ServerFraming(header: Header, content: string, closing: bool, lasts: bool)
    requires Lacks(header, "Content-Length") && Lacks(header, "Transfer-Encoding")
    ensures FramingOf(ServerHeader(header, content, closing), lasts) != ByChunks
  {
    LookupAppend(header, [], "Transfer-Encoding");
    LookupAppend(header, [LengthField(content)], "Content-Length");
    assert header + [] == header;
  }

  // ---------- what is seen under a slicing ----------

  /** The head of a message arrives before its content is read. */
  lemma HeadArrives(slices: seq<string>, head: string, tail: string)
    requires IsHead(Concat(slices), head, tail)
    ensures |head| <= |Upto("", slices, HEAD_END)| <= |Concat(slices)|
  {
    UptoIsPrefix("", slices, HEAD_END);
    assert "" + Concat(slices) == Concat(slices);
  }

  /** Everything in one slice arrives with the head. */
  lemma OneSlice(bytes: string)
    ensures Concat([bytes]) == bytes && |Upto("", [bytes], HEAD_END)| == |bytes|
  {
    assert Concat([bytes]) == bytes + Concat([]);
    assert Upto("", [bytes], HEAD_END) == Upto("" + bytes, [], HEAD_END);
  }

  /** A slice that ends behind the head brings nothing else. */
  lemma TwoSlices(first: string, second: string, e: nat)
    requires FindText(first, HEAD_END, 0) == Some(e)
    ensures Concat([first, second]) == first + second && |Upto("", [first, second], HEAD_END)| == |first|
  {
    assert [first, second][1..] == [second];
    assert Concat([second]) == second + Concat([]);
    assert Upto("", [first, second], HEAD_END) == Upto("" + first, [second], HEAD_END);
    assert "" + first == first;
  }

  ghost predicate SameForAllSlices(body: Body, bytes: string) {
    forall s, t :: Concat(s) == bytes && Concat(t) == bytes ==> SeenIn(body, s) == SeenIn(body, t)
  }

  /** The content seen does not depend on the slicing exactly when nothing follows the body. */
  lemma SlicingIff(bytes: string, head: string, tail: string, content: string, rest: string)
    requires IsHead(bytes, head, tail) && |rest| <= |tail| && rest == tail[|tail| - |rest|..]
    ensures SameForAllSlices(Complete(content, rest), bytes) <==> rest == ""
  {
    var body := Complete(content, rest);
    if rest == "" {
      forall s, t | Concat(s) == bytes && Concat(t) == bytes
        ensures SeenIn(body, s) == SeenIn(body, t)
      {
        HeadArrives(s, head, tail);
        HeadArrives(t, head, tail);
      }
    } else {
      var k := |bytes| - |rest|;
      var first, second := bytes[..k], bytes[k..];
      assert bytes == first + second;
      assert first == head + tail[..|tail| - |rest|];
      HeadAlone(bytes, head, tail, first);
      OneSlice(bytes);
      TwoSlices(first, second, |head| - 4);
      assert SeenIn(body, [bytes]) == Some(content + rest) by {
        assert rest[..|rest|] == rest;
      }
      assert SeenIn(body, [first, second]) == Some(content + "");
      assert |content + rest| != |content + ""|;
    }
  }

  /** The end of a head is found in any part of the bytes that has the head in it. */
  lemma HeadAlone(bytes: string, head: string, tail: string, first: string)
    requires IsHead(bytes, head, tail) && |head| <= |first| <= |bytes| && first == bytes[..|first|]
    ensures FindText(first, HEAD_END, 0) == Some(|head| - 4)
  {
    var more := bytes[|first|..];
    assert bytes == first + more;
    forall k | 0 <= k <= |head| - 4
      ensures OccursAt(bytes, HEAD_END, k) <==> OccursAt(first, HEAD_END, k)
    {
      OccursInPrefix(first, more, HEAD_END, k);
    }
    FindTextIs(first, HEAD_END, 0, |head| - 4);
  }

  function ResponseHeadText(status: string, header: Header, content: string, closing: bool): string {
    "HTTP/" + "1.1" + " " + status + "\r" + "\n" + (HeaderText(ServerHeader(header, content, closing)) + CRLF + "")
  }

  lemma StatusIsLine(status: string)
    requires '\n' !in status
    ensures IsLine("HTTP/" + "1.1" + " " + status + "\r")
  {
  }

  lemma ServerHeaderGood(header: Header, content: string, closing: bool)
    requires GoodHeader(header)
    ensures GoodHeader(ServerHeader(header, content, closing))
  {
    DecimalIsGood("Content-Length", |content|);
  }

  lemma ResponseParts(status: string, header: Header, content: string, rest: string, closing: bool)
    requires '\n' !in status && GoodHeader(header)
    ensures IsHead(ServerText(status, header, content, closing) + rest,
                   ResponseHeadText(status, header, content, closing), content + rest)
  {
    var line := "HTTP/" + "1.1" + " " + status + "\r";
    StatusIsLine(status);
    ServerHeaderGood(header, content, closing);
    MessageHead(line, ServerHeader(header, content, closing), content, rest,
                ResponseHeadText(status, header, content, closing), ServerText(status, header, content, closing) + rest);
  }

  predicate ClosesUnseen(header: Header, closing: bool) {
    closing && Lookup(header, "Session") != Some("close")
  }

  // A response on its own.
  lemma WholeResponse(status: string, header: Header, content: string, closing: bool, text: string)
    requires '\n' !in status && GoodHeader(header)
    requires Lacks(header, "Content-Length") && Lacks(header, "Transfer-Encoding") && |content| <= MAX_UNSIGNED_LONG
    requires text == ServerText(status, header, content, closing)
    ensures IsHead(text, ResponseHeadText(status, header, content, closing), content)
    ensures var outcome := IncomingResponse(text);
            && outcome.Outcome?
            && outcome.head == ResponseHead("1.1", status, ServerHeader(header, content, closing))
            && outcome.body == (if ClosesUnseen(header, closing) then Complete("", content) else Complete(content, ""))
            && FramingOf(outcome.head.header, outcome.lasts) != ByChunks
  {
    assert text + "" == text && content + "" == content;
    ClientReadsResponse(status, header, content, "", closing);
    ResponseParts(status, header, content, "", closing);
  }

  /** Under a slicing the client sees all of a response's content, or, if the server closes the
      connection and the client does not know, the part that has arrived with the head. */
  lemma SeenOfText(slices: seq<string>, text: string, head: string, content: string, body: Body, unseen: bool)
    requires IsHead(text, head, content) && Concat(slices) == text
    requires body == if unseen then Complete("", content) else Complete(content, "")
    ensures var arrived := |Upto("", slices, HEAD_END)|;
            && |text| - |content| == |head| <= arrived <= |text|
            && SeenIn(body, slices) == Some(if unseen then content[..arrived - |head|] else content)
  {
    HeadArrives(slices, head, content);
    var seen := content[..|Upto("", slices, HEAD_END)| - |head|];
    assert "" + seen == seen && content + "" == content;
  }

  /** Hence a slicing lets the client recover the content exactly when the connection stays open,
      the client knows that it does not, or nothing is left on the network behind the slice that
      completes the head. */
  lemma RecoveredIn(slices: seq<string>, status: string, header: Header, content: string, closing: bool)
    requires '\n' !in status && GoodHeader(header)
    requires Lacks(header, "Content-Length") && Lacks(header, "Transfer-Encoding") && |content| <= MAX_UNSIGNED_LONG
    requires Concat(slices) == ServerText(status, header, content, closing)
    ensures var text := ServerText(status, header, content, closing);
            && IncomingResponse(text).Outcome?
            && (SeenIn(IncomingResponse(text).body, slices) == Some(content)
                <==> !ClosesUnseen(header, closing) || |Upto("", slices, HEAD_END)| == |text|)
  {
    var text := ServerText(status, header, content, closing);
    WholeResponse(status, header, content, closing, text);
    RecoveredText(slices, text, ResponseHeadText(status, header, content, closing), content, IncomingResponse(text).body,
                  ClosesUnseen(header, closing));
  }

  lemma RecoveredText(slices: seq<string>, text: string, head: string, content: string, body: Body, unseen: bool)
    requires IsHead(text, head, content) && Concat(slices) == text
    requires body == if unseen then Complete("", content) else Complete(content, "")
    ensures SeenIn(body, slices) == Some(content) <==> !unseen || |Upto("", slices, HEAD_END)| == |text|
  {
    SeenOfText(slices, text, head, content, body, unseen);
    var seen := content[..|Upto("", slices, HEAD_END)| - |head|];
    assert seen == content <==> |seen| == |content|;
  }

  /** The client recovers the content of a response under every slicing exactly when the
      connection stays open, the content is empty, or the response has the field that the client
      looks for. */
  lemma ContentRecoveredIff(status: string, header: Header, content: string, closing: bool)
    requires '\n' !in status && GoodHeader(header)
    requires Lacks(header, "Content-Length") && Lacks(header, "Transfer-Encoding") && |content| <= MAX_UNSIGNED_LONG
    ensures var text := ServerText(status, header, content, closing);
            && IncomingResponse(text).Outcome?
            && ((forall slices :: Concat(slices) == text ==> SeenIn(IncomingResponse(text).body, slices) == Some(content))
                <==> !closing || content == "" || Lookup(header, "Session") == Some("close"))
  {
    var text := ServerText(status, header, content, closing);
    WholeResponse(status, header, content, closing, text);
    SeenInFull(text, ResponseHeadText(status, header, content, closing), content, IncomingResponse(text).body,
               ClosesUnseen(header, closing));
  }

  lemma SeenInFull(text: string, head: string, content: string, body: Body, unseen: bool)
    requires IsHead(text, head, content)
    requires body == if unseen then Complete("", content) else Complete(content, "")
    ensures (forall slices :: Concat(slices) == text ==> SeenIn(body, slices) == Some(content)) <==> !unseen || content == ""
  {
    if unseen && content != "" {
      HeadAlone(text, head, content, head);
      TwoSlices(head, content, |head| - 4);
      assert SeenIn(body, [head, content]) == Some("" + "");
    } else {
      forall slices | Concat(slices) == text
        ensures SeenIn(body, slices) == Some(content)
      {
        HeadArrives(slices, head, content);
        assert content + "" == content;
      }
    }
  }

  /** Bytes that follow a response are seen as content depending on the slicing. */
  lemma ResponseSlicingIff(status: string, header: Header, content: string, rest: string)
    requires '\n' !in status && GoodHeader(header)
    requires Lacks(header, "Content-Length") && Lacks(header, "Transfer-Encoding") && |content| <= MAX_UNSIGNED_LONG
    ensures var bytes := ServerText(status, header, content, false) + rest;
            IncomingResponse(bytes).Outcome? && (SameForAllSlices(IncomingResponse(bytes).body, bytes) <==> rest == "")
  {
    var bytes := ServerText(status, header, content, false) + rest;
    ClientReadsResponse(status, header, content, rest, false);
    ResponseParts(status, header, content, rest, false);
    assert (content + rest)[|content|..] == rest;
    SlicingIff(bytes, ResponseHeadText(status, header, content, false), content + rest, content, rest);
  }

  lemma ResponseReceived(outcome: Outcome, sent: string, unseen: bool, total: nat, arrived: nat, head: nat,
                         error: Option<ReadError>, answer: ResponseHead, buffer: string, net: string)
    requires outcome.Outcome? && outcome.body == if unseen then Complete("", sent) else Complete(sent, "")
    requires FramingOf(outcome.head.header, outcome.lasts) != ByChunks
    requires total - |sent| == head <= arrived <= total
    requires ResponseRead(outcome, total, arrived, error, answer, buffer, net)
    ensures error == None && answer == outcome.head && buffer == if unseen then sent[..arrived - head] else sent
  {
    assert sent + "" == sent && "" + sent[..arrived - head] == sent[..arrived - head];
  }

  // The client reads a response that comes in these slices.
  method ReceiveResponse(slices: seq<string>, ghost head: string, ghost sent: string, ghost unseen: bool,
                         ghost outcome: Outcome)
    returns (error: Option<ReadError>, answer: ResponseHead, content: string)
    requires IsHead(Concat(slices), head, sent) && outcome == IncomingResponse(Concat(slices)) && outcome.Outcome?
    requires outcome.body == if unseen then Complete("", sent) else Complete(sent, "")
    requires FramingOf(outcome.head.header, outcome.lasts) != ByChunks
    ensures error == None && answer == outcome.head
    ensures var headSize, arrived := |Concat(slices)| - |sent|, |Upto("", slices, HEAD_END)|;
            && 0 <= headSize <= arrived <= |Concat(slices)|
            && content == if unseen then sent[..arrived - headSize] else sent
  {
    HeadArrives(slices, head, sent);
    var connection := new Connection(slices);
    assert connection.Bytes() == Concat(slices);
    error, answer := ClientRead(connection);
    content := connection.buffer;
    ResponseReceived(outcome, sent, unseen, |Concat(slices)|, |Upto("", slices, HEAD_END)|, |head|, error, answer, content,
                     Concat(connection.net));
  }

  /** What the client's caller reads in the content of a response that comes in these slices. */
  method DeliverResponse(slices: seq<string>, ghost status: string, ghost header: Header, ghost sent: string,
                         ghost closing: bool)
    returns (error: Option<ReadError>, head: ResponseHead, content: string)
    requires '\n' !in status && GoodHeader(header)
    requires Lacks(header, "Content-Length") && Lacks(header, "Transfer-Encoding") && |sent| <= MAX_UNSIGNED_LONG
    requires Concat(slices) == ServerText(status, header, sent, closing)
    ensures error == None && head == ResponseHead("1.1", status, ServerHeader(header, sent, closing))
    ensures var headSize, arrived := |Concat(slices)| - |sent|, |Upto("", slices, HEAD_END)|;
            && 0 <= headSize <= arrived <= |Concat(slices)|
            && content == if ClosesUnseen(header, closing) then sent[..arrived - headSize] else sent
  {
    WholeResponse(status, header, sent, closing, Concat(slices));
    error, head, content := ReceiveResponse(slices, ResponseHeadText(status, header, sent, closing), sent,
                                            ClosesUnseen(header, closing), IncomingResponse(Concat(slices)));
  }
}
