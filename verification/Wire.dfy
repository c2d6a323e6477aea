// Whole messages over the network: how the library's server and client write and read them
// (lib/simple-web-server/server_http.hpp and client_http.hpp).
module Wire {
  import opened Text
  import opened Numbers
  import opened HttpText
  import opened HttpParse
  import opened HttpMessages
  import opened Reader

  const HEAD_END: string := "\r\n\r\n"

  // ---------- a head is parsed from the bytes up to its blank line ----------

  predicate BlankAt(s: string, i: int) {
    0 <= i && i + 3 <= |s| && s[i] == '\n' && s[i + 1] == '\r' && s[i + 2] == '\n'
  }

  /** A blank line is ahead: at the start, or behind some line break. */
  ghost predicate BlankAhead(s: string) {
    (|s| >= 2 && s[0] == '\r' && s[1] == '\n') || exists i :: BlankAt(s, i)
  }

  function Followed(result: HeaderResult, more: string): HeaderResult {
    match result
    case Parsed(h, rest) => Parsed(h, Stream(rest.rest + more, rest.good))
    case Diverges => Diverges
  }

  lemma FirstLine(s: string, more: string)
    requires '\n' in s
    ensures var n := Find(s, '\n', 0);
            && n < |s|
            && GetLine(Stream(s, true), "") == (s[..n], Stream(s[n + 1..], true))
            && GetLine(Stream(s + more, true), "") == (s[..n], Stream(s[n + 1..] + more, true))
  {
    var n := Find(s, '\n', 0);
    AroundBreak(s, more, n);
    FindIs(s + more, '\n', 0, n);
  }

  lemma AroundBreak(s: string, more: string, n: nat)
    requires n < |s|
    ensures (s + more)[..n] == s[..n] && (s + more)[n + 1..] == s[n + 1..] + more
    ensures forall k :: 0 <= k < |s| ==> (s + more)[k] == s[k]
  {
  }

  lemma BlankAheadOfNext(s: string)
    requires BlankAhead(s)
    ensures '\n' in s
    ensures var n := Find(s, '\n', 0); n < |s| && (s[..n] == "\r" || BlankAhead(s[n + 1..]))
  {
    var n := Find(s, '\n', 0);
    if |s| >= 2 && s[0] == '\r' && s[1] == '\n' {
      assert s[..1] == "\r";
    } else {
      var i :| BlankAt(s, i);
      var t := s[n + 1..];
      assert forall k :: n < k < |s| ==> s[k] == t[k - n - 1];
      if n < i {
        assert BlankAt(t, i - n - 1);
      }
    }
  }

  lemma {:induction false} ParseHeaderLocal(s: string, more: string)
    requires BlankAhead(s)
    ensures ParseHeader(Stream(s, true)).Parsed?
    ensures ParseHeader(Stream(s + more, true)) == Followed(ParseHeader(Stream(s, true)), more)
    decreases |s|
  {
    BlankAheadOfNext(s);
    FirstLine(s, more);
    var n := Find(s, '\n', 0);
    if s[..n] == "\r" {
      assert !HasColon(s[..n]);
    } else if HasColon(s[..n]) {
      ParseHeaderLocal(s[n + 1..], more);
    }
  }

  lemma HeadHasBlank(bytes: string, e: nat)
    requires OccursAt(bytes, HEAD_END, e)
    ensures BlankAhead(bytes[..e + 4])
  {
    var t := bytes[e..e + 4];
    assert t[1] == '\n' && t[2] == '\r' && t[3] == '\n';
    assert BlankAt(bytes[..e + 4], e + 1);
  }

  function FollowedRequest(result: RequestResult, more: string): RequestResult {
    match result
    case Accepted(r, rest) => Accepted(r, Stream(rest.rest + more, rest.good))
    case other => other
  }

  function FollowedResponse(result: ResponseResult, more: string): ResponseResult {
    match result
    case Answered(head, rest) => Answered(head, Stream(rest.rest + more, rest.good))
    case other => other
  }

  /** A head with a blank line is parsed without reading behind it; the parser returns. */
  lemma HeadLocal(head: string, more: string)
    requires BlankAhead(head)
    ensures !ParseRequest(Stream(head, true)).Hangs? && !ParseResponse(Stream(head, true)).NeverEnds?
    ensures ParseRequest(Stream(head + more, true)) == FollowedRequest(ParseRequest(Stream(head, true)), more)
    ensures ParseResponse(Stream(head + more, true)) == FollowedResponse(ParseResponse(Stream(head, true)), more)
  {
    BlankAheadOfNext(head);
    FirstLine(head, more);
    var n := Find(head, '\n', 0);
    var line, rest := head[..n], head[n + 1..];
    if line == "\r" {
      BlankIsNoStartLine();
    } else {
      ParseHeaderLocal(rest, more);
    }
    RequestLocal(head, more, line, rest);
    ResponseLocal(head, more, line, rest);
  }

  lemma BlankIsNoStartLine()
    ensures ParseRequestLine("\r") == None && ParseStatusLine("\r") == None
  {
  }

  ghost predicate HeaderLocal(rest: string, more: string) {
    && ParseHeader(Stream(rest, true)).Parsed?
    && ParseHeader(Stream(rest + more, true)) == Followed(ParseHeader(Stream(rest, true)), more)
  }

  lemma RequestLocal(head: string, more: string, line: string, rest: string)
    requires GetLine(Stream(head, true), "") == (line, Stream(rest, true))
    requires GetLine(Stream(head + more, true), "") == (line, Stream(rest + more, true))
    requires ParseRequestLine(line) == None || HeaderLocal(rest, more)
    ensures !ParseRequest(Stream(head, true)).Hangs?
    ensures ParseRequest(Stream(head + more, true)) == FollowedRequest(ParseRequest(Stream(head, true)), more)
  {
  }

  lemma ResponseLocal(head: string, more: string, line: string, rest: string)
    requires GetLine(Stream(head, true), "") == (line, Stream(rest, true))
    requires GetLine(Stream(head + more, true), "") == (line, Stream(rest + more, true))
    requires ParseStatusLine(line) == None || HeaderLocal(rest, more)
    ensures !ParseResponse(Stream(head, true)).NeverEnds?
    ensures ParseResponse(Stream(head + more, true)) == FollowedResponse(ParseResponse(Stream(head, true)), more)
  {
  }

  // ---------- and leaves a part of them ----------

  predicate IsSuffix(t: string, s: string) {
    |t| <= |s| && t == s[|s| - |t|..]
  }

  lemma {:induction false} ParseHeaderSuffix(st: Stream)
    requires ParseHeader(st).Parsed?
    ensures IsSuffix(ParseHeader(st).rest.rest, st.rest)
    decreases |st.rest|, st.good
  {
    var (line, st') := GetLine(st, "");
    if HasColon(line) {
      ParseHeaderSuffix(st');
    }
  }

  lemma ParseRequestSuffix(st: Stream)
    requires ParseRequest(st).Accepted?
    ensures IsSuffix(ParseRequest(st).rest.rest, st.rest)
  {
    ParseHeaderSuffix(GetLine(st, "").1);
  }

  lemma ParseResponseSuffix(st: Stream)
    requires ParseResponse(st).Answered?
    ensures IsSuffix(ParseResponse(st).rest.rest, st.rest)
  {
    ParseHeaderSuffix(GetLine(st, "").1);
  }

  lemma ParseRequestShrinks(bytes: string, end: nat)
    requires end <= |bytes|
    ensures var parsed := ParseRequest(Stream(bytes[..end], true)); parsed.Accepted? ==> |parsed.rest.rest| <= end
  {
    if ParseRequest(Stream(bytes[..end], true)).Accepted? {
      ParseRequestSuffix(Stream(bytes[..end], true));
    }
  }

  lemma ParseResponseShrinks(bytes: string, end: nat)
    requires end <= |bytes|
    ensures var parsed := ParseResponse(Stream(bytes[..end], true)); parsed.Answered? ==> |parsed.rest.rest| <= end
  {
    if ParseResponse(Stream(bytes[..end], true)).Answered? {
      ParseResponseSuffix(Stream(bytes[..end], true));
    }
  }

  // ---------- what the bytes of a connection mean ----------

  // How a body is delimited decides where the buffer keeps bytes that do not belong to it.
  datatype Framing = ByLength | ByChunks | ToTheEnd | NoBody

  function FramingOf(h: Header, lasts: bool): Framing {
    if Lookup(h, "Content-Length").Some? then ByLength
    else if Lookup(h, "Transfer-Encoding") == Some("chunked") then ByChunks
    else if lasts then NoBody
    else ToTheEnd
  }

  function LengthBodyOf(bytes: string, from: nat, end: nat, length: string, badLength: ReadError): Body
    requires from <= end <= |bytes|
  {
    match Stoul(length, 10)
    case None => Broken(badLength)
    case Some(n) =>
      if end + n > |bytes| then Broken(EndOfStream) else Complete(bytes[from..end + n], bytes[end + n..])
  }

  function OtherBodyOf(bytes: string, from: nat, end: nat, lasts: bool): Body
    requires from <= end <= |bytes|
  {
    var stop := if lasts then end else |bytes|;
    Complete(bytes[from..stop], bytes[stop..])
  }

  /** The body behind a head of `end` bytes. The head's parser stopped at `from`, and what it left
      counts as content; a body without a length is empty, unless the connection's end ends it. */
  function BodyOf(bytes: string, from: nat, end: nat, h: Header, lasts: bool, badLength: ReadError): Body
    requires from <= end <= |bytes|
  {
    match FramingOf(h, lasts)
    case ByLength => LengthBodyOf(bytes, from, end, Lookup(h, "Content-Length").value, badLength)
    case ByChunks => DecodeChunks(bytes[from..])
    case _ => OtherBodyOf(bytes, from, end, lasts)
  }

  datatype Incoming = Incoming(request: Request, body: Body) | NoRequest(error: ReadError)

  /** What a head of `end` bytes, once parsed, makes of all bytes. */
  function RequestFrom(parsed: RequestResult, bytes: string, end: nat): Incoming
    requires end <= |bytes| && (parsed.Accepted? ==> |parsed.rest.rest| <= end)
  {
    match parsed
    case BadMessage => NoRequest(ProtocolError)
    case Hangs => NoRequest(Stuck)
    case Accepted(r, rest) => Incoming(r, BodyOf(bytes, end - |rest.rest|, end, r.header, true, ProtocolError))
  }

  function IncomingRequest(bytes: string): Incoming {
    match FindText(bytes, HEAD_END, 0)
    case None => NoRequest(EndOfStream)
    case Some(e) =>
      ParseRequestShrinks(bytes, e + 4);
      RequestFrom(ParseRequest(Stream(bytes[..e + 4], true)), bytes, e + 4)
  }

  // lasts: whether the client expects the connection to last.
  datatype Outcome = Outcome(head: ResponseHead, lasts: bool, body: Body) | NoResponse(error: ReadError)

  /** std::string's operator<. */
  predicate Less(a: string, b: string) {
    if b == "" then false
    else if a == "" then true
    else if a[0] != b[0] then a[0] < b[0]
    else Less(a[1..], b[1..])
  }

  /** Whether the client expects the connection to last; the field it looks at is "Session". */
  predicate Lasts(head: ResponseHead) {
    !Less(head.version, "1.1") && Lookup(head.header, "Session") != Some("close")
  }

  /** What a head of `end` bytes, once parsed, makes of all bytes. */
  function ResponseFrom(parsed: ResponseResult, bytes: string, end: nat): Outcome
    requires end <= |bytes| && (parsed.Answered? ==> |parsed.rest.rest| <= end)
  {
    match parsed
    case BadResponse => NoResponse(ProtocolError)
    case NeverEnds => NoResponse(Stuck)
    case Answered(h, rest) =>
      var lasts := Lasts(h);
      Outcome(h, lasts, BodyOf(bytes, end - |rest.rest|, end, h.header, lasts, Uncaught))
  }

  function IncomingResponse(bytes: string): Outcome {
    match FindText(bytes, HEAD_END, 0)
    case None => NoResponse(EndOfStream)
    case Some(e) =>
      ParseResponseShrinks(bytes, e + 4);
      ResponseFrom(ParseResponse(Stream(bytes[..e + 4], true)), bytes, e + 4)
  }

  // ---------- reading ----------

  /** How much of the bytes behind a message had arrived together with its head. */
  function Extra(total: nat, arrived: nat, rest: string): (k: nat)
    requires arrived <= total && |rest| <= total
    ensures k <= |rest|
  {
    if arrived <= total - |rest| then 0 else arrived - (total - |rest|)
  }

  /** What the buffer holds when read is done, and with it the content that is seen: the body, and
      behind it whatever else had arrived with the head. After chunks it stands in front, and is
      what had arrived with the last of them. */
  predicate BodyRead(framing: Framing, body: Body, total: nat, arrived: nat, error: Option<ReadError>,
                     buffer: string, net: string) {
    match body
    case Broken(e) => error == Some(e)
    case Complete(content, rest) =>
      && error == None && arrived <= total && |rest| <= total
      && if framing == ByChunks then
           |content| <= |buffer|
           && var k := |buffer| - |content|; buffer[k..] == content && buffer[..k] + net == rest
         else
           var k := Extra(total, arrived, rest);
           buffer == content + rest[..k] && net == rest[k..]
  }

  /** The content seen behind a head, for a body that is not chunked. */
  function Seen(body: Body, total: nat, arrived: nat): Option<string> {
    if body.Complete? && arrived <= total && |body.rest| <= total
    then Some(body.content + body.rest[..Extra(total, arrived, body.rest)])
    else None
  }

  /** The content seen when the bytes of a connection come in these slices. */
  function SeenIn(body: Body, slices: seq<string>): Option<string> {
    Seen(body, |Concat(slices)|, |Upto("", slices, HEAD_END)|)
  }

  /** The part of read behind the parsed head. */
  method ReadBody(c: Connection, additional: nat, h: Header, lasts: bool, badLength: ReadError,
                  ghost bytes: string, ghost from: nat, ghost end: nat, ghost body: Body)
    returns (error: Option<ReadError>)
    requires from <= end <= |bytes| && c.Bytes() == bytes[from..]
    requires |c.buffer| == end - from + additional
    requires body == BodyOf(bytes, from, end, h, lasts, badLength)
    modifies c
    ensures BodyRead(FramingOf(h, lasts), body, |bytes|, end + additional, error, c.buffer, Concat(c.net))
  {
    BodyCases(bytes, from, end, h, lasts, badLength, body);
    var length := Lookup(h, "Content-Length");
    if length.Some? {
      error := ReadLength(c, additional, length.value, badLength, bytes, from, end);
    } else if Lookup(h, "Transfer-Encoding") == Some("chunked") {
      error := ReadChunks(c, additional, bytes, from, end);
    } else {
      error := None;
      ReadOther(c, additional, lasts, bytes, from, end);
    }
  }

  lemma BodyCases(bytes: string, from: nat, end: nat, h: Header, lasts: bool, badLength: ReadError, body: Body)
    requires from <= end <= |bytes| && body == BodyOf(bytes, from, end, h, lasts, badLength)
    ensures match FramingOf(h, lasts)
            case ByLength => body == LengthBodyOf(bytes, from, end, Lookup(h, "Content-Length").value, badLength)
            case ByChunks => body == DecodeChunks(bytes[from..])
            case _ => body == OtherBodyOf(bytes, from, end, lasts)
  {
  }

  // The part of read for a chunked body.
  method ReadChunks(c: Connection, additional: nat, ghost bytes: string, ghost from: nat, ghost end: nat)
    returns (error: Option<ReadError>)
    requires from <= end <= |bytes| && c.Bytes() == bytes[from..]
    requires |c.buffer| == end - from + additional
    modifies c
    ensures BodyRead(ByChunks, DecodeChunks(bytes[from..]), |bytes|, end + additional, error, c.buffer, Concat(c.net))
  {
    ArrivedBytes(bytes, from, c.buffer, Concat(c.net));
    ChunksRest(bytes[from..]);
    error := c.ReadChunked();
  }

  // The part of read for a body without a length of any kind.
  method ReadOther(c: Connection, additional: nat, lasts: bool, ghost bytes: string, ghost from: nat, ghost end: nat)
    requires from <= end <= |bytes| && c.Bytes() == bytes[from..]
    requires |c.buffer| == end - from + additional
    modifies c
    ensures BodyRead(NoBody, OtherBodyOf(bytes, from, end, lasts), |bytes|, end + additional, None, c.buffer, Concat(c.net))
  {
    ArrivedBytes(bytes, from, c.buffer, Concat(c.net));
    if !lasts {
      ReadToTheEnd(c);
    }
    BufferIs(bytes, from, if lasts then end else |bytes|, end + additional, c.buffer, Concat(c.net));
  }

  method ReadToTheEnd(c: Connection)
    modifies c
    ensures c.net == [] && c.buffer == old(c.Bytes())
  {
    while c.net != []
      invariant c.Bytes() == old(c.Bytes())
      decreases |c.net|
    {
      c.ReadSome();
    }
    NothingComes(c.buffer, c.net);
  }

  // The part of read for a body with a length.
  method ReadLength(c: Connection, additional: nat, length: string, badLength: ReadError,
                    ghost bytes: string, ghost from: nat, ghost end: nat)
    returns (error: Option<ReadError>)
    requires from <= end <= |bytes| && c.Bytes() == bytes[from..]
    requires |c.buffer| == end - from + additional
    modifies c
    ensures BodyRead(ByLength, LengthBodyOf(bytes, from, end, length, badLength), |bytes|, end + additional, error,
                     c.buffer, Concat(c.net))
  {
    var n := Stoul(length, 10);
    if n == None {
      return Some(badLength);
    }
    ArrivedBytes(bytes, from, c.buffer, Concat(c.net));
    if n.value > additional {
      var ok := c.ReadExactly(n.value - additional);
      if !ok {
        return Some(EndOfStream);
      }
    }
    error := None;
    ArrivedBytes(bytes, from, c.buffer, Concat(c.net));
    BufferIs(bytes, from, end + n.value, end + additional, c.buffer, Concat(c.net));
  }

  lemma ArrivedBytes(bytes: string, from: nat, buffer: string, net: string)
    requires from <= |bytes| && buffer + net == bytes[from..]
    ensures from + |buffer| <= |bytes|
  {
    assert |buffer + net| == |bytes[from..]|;
  }

  /** A buffer that starts at `from` and holds at least the body up to `stop`. */
  lemma BufferIs(bytes: string, from: nat, stop: nat, arrived: nat, buffer: string, net: string)
    requires from <= stop <= |bytes| && buffer + net == bytes[from..]
    requires arrived <= |bytes| && |buffer| == (if arrived <= stop then stop else arrived) - from
    ensures var k := Extra(|bytes|, arrived, bytes[stop..]);
            buffer == bytes[from..stop] + bytes[stop..][..k] && net == bytes[stop..][k..]
  {
    var k := Extra(|bytes|, arrived, bytes[stop..]);
    TakeFromBuffer(buffer, net, |buffer|);
    assert buffer[..|buffer|] == buffer && bytes[from..][..|buffer|] == bytes[from..stop + k];
    assert bytes[from..stop + k] == bytes[from..stop] + bytes[stop..stop + k];
    assert bytes[stop..][..k] == bytes[stop..stop + k] && bytes[stop..][k..] == bytes[stop + k..] == bytes[from..][|buffer|..];
  }

  lemma {:induction false} ChunksRest(bytes: string)
    ensures DecodeChunks(bytes).Complete? ==> |DecodeChunks(bytes).rest| <= |bytes|
    decreases |bytes|
  {
    var first := FirstChunk(bytes);
    if first.OneChunk? && first.data != "" {
      ChunksRest(first.rest);
    }
  }

  /** What the parser leaves of the buffer, and what is still on the network, is the bytes
      behind the part of the head that it has read. */
  lemma LeftOfBuffer(head: string, tail: string, net: string, rest: string)
    requires IsSuffix(rest, head)
    ensures rest + tail + net == (head + tail + net)[|head| - |rest|..]
  {
  }

  lemma HeadInBuffer(buffer: string, net: string, end: nat)
    requires end <= |buffer|
    ensures buffer[..end] + buffer[end..] == buffer && (buffer + net)[..end] == buffer[..end]
  {
  }

  predicate LeftAt(bytes: string, from: nat, end: nat, left: string) {
    from <= end <= |bytes| && left == bytes[from..]
  }

  predicate RequestMeans(result: RequestResult, incoming: Incoming, bytes: string, received: nat, net: string, end: nat) {
    match result
    case BadMessage => incoming == NoRequest(ProtocolError)
    case Hangs => false
    case Accepted(r, rest) =>
      && |rest.rest| <= received && LeftAt(bytes, received - |rest.rest|, end, rest.rest + net)
      && incoming == Incoming(r, BodyOf(bytes, received - |rest.rest|, end, r.header, true, ProtocolError))
  }

  lemma RequestMoves(parsed: RequestResult, head: string, tail: string, net: string)
    requires parsed.Accepted? ==> IsSuffix(parsed.rest.rest, head)
    requires !parsed.Hangs?
    ensures var bytes := head + tail + net;
            RequestMeans(FollowedRequest(parsed, tail), RequestFrom(parsed, bytes, |head|), bytes, |head + tail|, net, |head|)
  {
    if parsed.Accepted? {
      LeftOfBuffer(head, tail, net, parsed.rest.rest);
    }
  }

  /** Parsing the buffer gives the request that all bytes mean, wherever behind the head the
      buffer ends. */
  lemma RequestInBuffer(buffer: string, net: string, e: nat)
    requires FindText(buffer + net, HEAD_END, 0) == Some(e) && e + 4 <= |buffer|
    ensures RequestMeans(ParseRequest(Stream(buffer, true)), IncomingRequest(buffer + net), buffer + net, |buffer|, net, e + 4)
  {
    var head, tail := buffer[..e + 4], buffer[e + 4..];
    HeadInBuffer(buffer, net, e + 4);
    HeadHasBlank(buffer + net, e);
    HeadLocal(head, tail);
    var parsed := ParseRequest(Stream(head, true));
    if parsed.Accepted? {
      ParseRequestSuffix(Stream(head, true));
    }
    RequestMoves(parsed, head, tail, net);
  }

  predicate ResponseMeans(result: ResponseResult, incoming: Outcome, bytes: string, received: nat, net: string, end: nat) {
    match result
    case BadResponse => incoming == NoResponse(ProtocolError)
    case NeverEnds => false
    case Answered(h, rest) =>
      && |rest.rest| <= received && LeftAt(bytes, received - |rest.rest|, end, rest.rest + net)
      && var lasts := Lasts(h);
         incoming == Outcome(h, lasts, BodyOf(bytes, received - |rest.rest|, end, h.header, lasts, Uncaught))
  }

  lemma ResponseMoves(parsed: ResponseResult, head: string, tail: string, net: string)
    requires parsed.Answered? ==> IsSuffix(parsed.rest.rest, head)
    requires !parsed.NeverEnds?
    ensures var bytes := head + tail + net;
            ResponseMeans(FollowedResponse(parsed, tail), ResponseFrom(parsed, bytes, |head|), bytes, |head + tail|, net, |head|)
  {
    if parsed.Answered? {
      LeftOfBuffer(head, tail, net, parsed.rest.rest);
    }
  }

  lemma ResponseInBuffer(buffer: string, net: string, e: nat)
    requires FindText(buffer + net, HEAD_END, 0) == Some(e) && e + 4 <= |buffer|
    ensures ResponseMeans(ParseResponse(Stream(buffer, true)), IncomingResponse(buffer + net), buffer + net, |buffer|, net, e + 4)
  {
    var head, tail := buffer[..e + 4], buffer[e + 4..];
    HeadInBuffer(buffer, net, e + 4);
    HeadHasBlank(buffer + net, e);
    HeadLocal(head, tail);
    var parsed := ParseResponse(Stream(head, true));
    if parsed.Answered? {
      ParseResponseSuffix(Stream(head, true));
    }
    ResponseMoves(parsed, head, tail, net);
  }

  predicate RequestRead(incoming: Incoming, total: nat, arrived: nat, error: Option<ReadError>, request: Request,
                        buffer: string, net: string) {
    match incoming
    case NoRequest(e) => error == Some(e)
    case Incoming(x, body) =>
      BodyRead(FramingOf(x.header, true), body, total, arrived, error, buffer, net) && (error == None ==> request == x)
  }

  // What read does once the head is parsed and the buffer holds what the parser has left.
  method RequestRest(c: Connection, result: RequestResult, additional: nat,
                     ghost incoming: Incoming, ghost bytes: string, ghost received: nat, ghost end: nat)
    returns (error: Option<ReadError>, request: Request)
    requires RequestMeans(result, incoming, bytes, received, Concat(c.net), end)
    requires result.Accepted? ==> c.buffer == result.rest.rest
    requires received == end + additional
    modifies c
    ensures RequestRead(incoming, |bytes|, received, error, request, c.buffer, Concat(c.net))
  {
    if result.BadMessage? {
      return Some(ProtocolError), Request("", "", "", "", []);
    }
    request := result.request;
    error := ReadBody(c, additional, request.header, true, ProtocolError, bytes, received - |c.buffer|, end, incoming.body);
  }

  // What read does once a whole head has arrived.
  method RequestAtHand(c: Connection, found: nat) returns (error: Option<ReadError>, request: Request)
    requires FindText(c.Bytes(), HEAD_END, 0) == Some(found) && found + 4 <= |c.buffer|
    modifies c
    ensures RequestRead(IncomingRequest(old(c.Bytes())), |old(c.Bytes())|, old(|c.buffer|),
                        error, request, c.buffer, Concat(c.net))
  {
    var additional := |c.buffer| - (found + 4);
    ghost var bytes, received := c.Bytes(), |c.buffer|;
    RequestInBuffer(c.buffer, Concat(c.net), found);
    var stream := new InputStream(c.buffer);
    var result := RequestParse(stream);
    c.buffer := stream.rest;
    error, request := RequestRest(c, result, additional, IncomingRequest(bytes), bytes, received, found + 4);
  }

  /** ServerBase::read. */
  method ServerRead(c: Connection) returns (error: Option<ReadError>, request: Request)
    modifies c
    ensures RequestRead(IncomingRequest(old(c.Bytes())), |old(c.Bytes())|, |Upto(old(c.buffer), old(c.net), HEAD_END)|,
                        error, request, c.buffer, Concat(c.net))
  {
    var found := c.ReadUntil(HEAD_END);
    if found == None {
      return Some(EndOfStream), Request("", "", "", "", []);
    }
    error, request := RequestAtHand(c, found.value);
  }

  predicate ResponseRead(incoming: Outcome, total: nat, arrived: nat, error: Option<ReadError>, head: ResponseHead,
                         buffer: string, net: string) {
    match incoming
    case NoResponse(e) => error == Some(e)
    case Outcome(x, lasts, body) =>
      BodyRead(FramingOf(x.header, lasts), body, total, arrived, error, buffer, net) && (error == None ==> head == x)
  }

  // What read does once the head is parsed and the buffer holds what the parser has left.
  method ResponseRest(c: Connection, result: ResponseResult, additional: nat,
                     ghost incoming: Outcome, ghost bytes: string, ghost received: nat, ghost end: nat)
    returns (error: Option<ReadError>, head: ResponseHead)
    requires ResponseMeans(result, incoming, bytes, received, Concat(c.net), end)
    requires result.Answered? ==> c.buffer == result.rest.rest
    requires received == end + additional
    modifies c
    ensures ResponseRead(incoming, |bytes|, received, error, head, c.buffer, Concat(c.net))
  {
    if result.BadResponse? {
      return Some(ProtocolError), ResponseHead("", "", []);
    }
    head := result.head;
    var lasts := Lasts(head);
    error := ReadBody(c, additional, head.header, lasts, Uncaught, bytes, received - |c.buffer|, end, incoming.body);
  }

  // What read does once a whole head has arrived.
  method ResponseAtHand(c: Connection, found: nat) returns (error: Option<ReadError>, head: ResponseHead)
    requires FindText(c.Bytes(), HEAD_END, 0) == Some(found) && found + 4 <= |c.buffer|
    modifies c
    ensures ResponseRead(IncomingResponse(old(c.Bytes())), |old(c.Bytes())|, old(|c.buffer|),
                         error, head, c.buffer, Concat(c.net))
  {
    var additional := |c.buffer| - (found + 4);
    ghost var bytes, received := c.Bytes(), |c.buffer|;
    ResponseInBuffer(c.buffer, Concat(c.net), found);
    var stream := new InputStream(c.buffer);
    var result := ResponseParse(stream);
    c.buffer := stream.rest;
    error, head := ResponseRest(c, result, additional, IncomingResponse(bytes), bytes, received, found + 4);
  }

  /** ClientBase::read. */
  method ClientRead(c: Connection) returns (error: Option<ReadError>, head: ResponseHead)
    modifies c
    ensures ResponseRead(IncomingResponse(old(c.Bytes())), |old(c.Bytes())|, |Upto(old(c.buffer), old(c.net), HEAD_END)|,
                         error, head, c.buffer, Concat(c.net))
  {
    var found := c.ReadUntil(HEAD_END);
    if found == None {
      return Some(EndOfStream), ResponseHead("", "", []);
    }
    error, head := ResponseAtHand(c, found.value);
  }
}
