// How the body of a whole message is delimited, for any start line and any fields
// (lib/simple-web-server/server_http.hpp and client_http.hpp).
module Delimiters {
  import opened Text
  import opened Numbers
  import opened HttpText
  import opened HttpParse
  import opened HttpMessages
  import opened Reader
  import opened Chunked
  import opened Wire
  import opened RoundTrips

  // ---------- heads ----------

  function HeadText(line: string, header: Header): string {
    line + "\n" + (HeaderText(header) + CRLF + "")
  }

  /** The head of request r: any target that is split into its path and query, good fields, and a
      blank line. */
  ghost predicate RequestHeadOf(head: string, r: Request, target: string) {
    && ' ' !in r.verb && '\n' !in r.verb && ' ' !in target && '\n' !in target && '\n' !in r.version && GoodHeader(r.header)
    && SplitTarget(target) == (r.path, r.query)
    && head == HeadText(r.verb + " " + target + " HTTP/" + r.version + "\r", r.header)
  }

  ghost predicate ResponseHeadOf(head: string, h: ResponseHead) {
    && GoodStatus(h.version, h.status) && GoodHeader(h.header)
    && head == HeadText("HTTP/" + h.version + " " + h.status + "\r", h.header)
  }

  lemma HeadFound(line: string, header: Header, head: string, tail: string)
    requires IsLine(line) && GoodHeader(header) && head == HeadText(line, header)
    ensures IsHead(head + tail, head, tail)
  {
    HeadEndsAt(line, header, tail);
    assert HeaderText(header) + CRLF + "" == HeaderText(header) + CRLF;
    Assoc(line + "\n", HeaderText(header) + CRLF, tail);
    EndIs(head + tail, |head| - 4);
  }

  lemma RequestLineIsLine(verb: string, target: string, version: string)
    requires '\n' !in verb && '\n' !in target && '\n' !in version
    ensures IsLine(verb + " " + target + " HTTP/" + version + "\r")
  {
  }

  lemma StatusLineIsLine(version: string, status: string)
    requires '\n' !in version && '\n' !in status
    ensures IsLine("HTTP/" + version + " " + status + "\r")
  {
  }

  lemma RequestMeansBody(head: string, r: Request, target: string, tail: string, body: Body)
    requires RequestHeadOf(head, r, target)
    requires body == BodyOf(head + tail, |head|, |head|, r.header, true, ProtocolError)
    ensures IncomingRequest(head + tail) == Incoming(r, body)
  {
    RequestLineIsLine(r.verb, target, r.version);
    HeadFound(r.verb + " " + target + " HTTP/" + r.version + "\r", r.header, head, tail);
    RequestHeadRoundTrip(r.verb, target, r.version, r.header, "");
    RequestHeadMeans(head, tail, r);
  }

  lemma ResponseMeansBody(head: string, h: ResponseHead, tail: string, body: Body)
    requires ResponseHeadOf(head, h)
    requires body == BodyOf(head + tail, |head|, |head|, h.header, Lasts(h), Uncaught)
    ensures IncomingResponse(head + tail) == Outcome(h, Lasts(h), body)
  {
    StatusLineIsLine(h.version, h.status);
    HeadFound("HTTP/" + h.version + " " + h.status + "\r", h.header, head, tail);
    ResponseHeadReads(head, h);
    ResponseWithBody(head + tail, head, tail, h, body);
  }

  lemma ResponseHeadReads(head: string, h: ResponseHead)
    requires ResponseHeadOf(head, h)
    ensures ParseResponse(Stream(head, true)) == Answered(h, Stream("", true))
  {
    LineRead("HTTP/" + h.version + " " + h.status + "\r", HeaderText(h.header) + CRLF + "", "");
    StatusLineRoundTrip(h.version, h.status);
    HeaderRoundTrip(h.header, "");
  }

  // ---------- the three kinds of bodies ----------

  /** The first field named Content-Length, in any case, holds a number that stoul reads as n. */
  ghost predicate SaysLength(h: Header, i: nat, n: nat) {
    FirstNamed(h, i, "Content-Length") && Stoul(h[i].value, 10) == Some(n)
  }

  /** There is no length, and the first field named Transfer-Encoding, in any case, is "chunked". */
  ghost predicate SaysChunks(h: Header, i: nat) {
    NoneNamed(h, "Content-Length") && FirstNamed(h, i, "Transfer-Encoding") && h[i].value == "chunked"
  }

  /** There is neither. */
  ghost predicate SaysNothing(h: Header) {
    NoneNamed(h, "Content-Length") && forall i :: 0 <= i < |h| && FirstNamed(h, i, "Transfer-Encoding") ==> h[i].value != "chunked"
  }

  lemma ByLengthBody(head: string, content: string, rest: string, h: Header, i: nat, lasts: bool, error: ReadError)
    requires SaysLength(h, i, |content|)
    ensures BodyOf(head + (content + rest), |head|, |head|, h, lasts, error) == Complete(content, rest)
  {
    LookupFinds(h, "Content-Length");
    var bytes := head + (content + rest);
    assert bytes[|head|..|head| + |content|] == content && bytes[|head| + |content|..] == rest;
  }

  lemma BadLengthBody(head: string, tail: string, h: Header, i: nat, lasts: bool, error: ReadError)
    requires FirstNamed(h, i, "Content-Length")
    ensures Stoul(h[i].value, 10) == None ==> BodyOf(head + tail, |head|, |head|, h, lasts, error) == Broken(error)
    ensures forall n: nat :: SaysLength(h, i, n) && n > |tail| ==>
              BodyOf(head + tail, |head|, |head|, h, lasts, error) == Broken(EndOfStream)
  {
    LookupFinds(h, "Content-Length");
  }

  lemma ByChunksBody(head: string, tail: string, h: Header, i: nat, lasts: bool, error: ReadError)
    requires SaysChunks(h, i)
    ensures BodyOf(head + tail, |head|, |head|, h, lasts, error) == DecodeChunks(tail)
  {
    ChunksFraming(h, i, lasts);
    assert (head + tail)[|head|..] == tail;
  }

  lemma ChunksFraming(h: Header, i: nat, lasts: bool)
    requires SaysChunks(h, i)
    ensures FramingOf(h, lasts) == ByChunks
  {
    LookupFinds(h, "Content-Length");
    LookupFinds(h, "Transfer-Encoding");
  }

  lemma NoLengthBody(head: string, tail: string, h: Header, lasts: bool, error: ReadError)
    requires SaysNothing(h)
    ensures BodyOf(head + tail, |head|, |head|, h, lasts, error) == if lasts then Complete("", tail) else Complete(tail, "")
  {
    LookupFinds(h, "Content-Length");
    LookupFinds(h, "Transfer-Encoding");
    if !NoneNamed(h, "Transfer-Encoding") {
      var i := FirstIsNamed(h, "Transfer-Encoding");
    }
    assert (head + tail)[|head|..] == tail;
  }

  // ---------- requests ----------

  /** A length, in a field of any spelling, delimits the body, whatever the other fields say. */
  lemma RequestByLength(head: string, r: Request, target: string, i: nat, content: string, rest: string)
    requires RequestHeadOf(head, r, target) && SaysLength(r.header, i, |content|)
    ensures IncomingRequest(head + (content + rest)) == Incoming(r, Complete(content, rest))
  {
    ByLengthBody(head, content, rest, r.header, i, true, ProtocolError);
    RequestMeansBody(head, r, target, content + rest, Complete(content, rest));
  }

  /** A length that is no number is a protocol error; too few bytes are reported as such. */
  lemma RequestBadLength(head: string, r: Request, target: string, i: nat, tail: string)
    requires RequestHeadOf(head, r, target) && FirstNamed(r.header, i, "Content-Length")
    ensures Stoul(r.header[i].value, 10) == None ==> IncomingRequest(head + tail) == Incoming(r, Broken(ProtocolError))
    ensures forall n: nat :: SaysLength(r.header, i, n) && n > |tail| ==>
              IncomingRequest(head + tail) == Incoming(r, Broken(EndOfStream))
  {
    var body := BodyOf(head + tail, |head|, |head|, r.header, true, ProtocolError);
    BadLengthBody(head, tail, r.header, i, true, ProtocolError);
    RequestMeansBody(head, r, target, tail, body);
  }

  /** Without a length a chunked body is read as its chunks' data. */
  lemma RequestByChunks(head: string, r: Request, target: string, i: nat, chunks: seq<Chunk>, last: Chunk, rest: string)
    requires RequestHeadOf(head, r, target) && SaysChunks(r.header, i) && GoodChunks(chunks, last)
    ensures IncomingRequest(head + (Encoded(chunks, last) + rest)) == Incoming(r, Complete(Content(chunks), rest))
  {
    ByChunksBody(head, Encoded(chunks, last) + rest, r.header, i, true, ProtocolError);
    ChunksRoundTrip(chunks, last, rest);
    RequestMeansBody(head, r, target, Encoded(chunks, last) + rest, Complete(Content(chunks), rest));
  }

  /** With neither there is no body. */
  lemma RequestWithoutBody(head: string, r: Request, target: string, tail: string)
    requires RequestHeadOf(head, r, target) && SaysNothing(r.header)
    ensures IncomingRequest(head + tail) == Incoming(r, Complete("", tail))
  {
    NoLengthBody(head, tail, r.header, true, ProtocolError);
    RequestMeansBody(head, r, target, tail, Complete("", tail));
  }

  /** Without a blank line there is no request, and a first line that is no request line is an error. */
  lemma NoRequestRead(bytes: string, e: nat)
    ensures (forall i :: !OccursAt(bytes, "\r\n\r\n", i)) ==> IncomingRequest(bytes) == NoRequest(EndOfStream)
    ensures FindText(bytes, "\r\n\r\n", 0) == Some(e) && '\n' in bytes
            && (forall verb, target, version :: !RequestLineOf(bytes[..Find(bytes, '\n', 0)], verb, target, version)) ==>
              IncomingRequest(bytes) == NoRequest(ProtocolError)
  {
    if FindText(bytes, "\r\n\r\n", 0) == Some(e) && '\n' in bytes
       && (forall verb, target, version :: !RequestLineOf(bytes[..Find(bytes, '\n', 0)], verb, target, version))
    {
      BadStart(bytes, e);
    }
  }

  lemma BadStart(bytes: string, e: nat)
    requires FindText(bytes, HEAD_END, 0) == Some(e) && '\n' in bytes
    requires forall verb, target, version :: !RequestLineOf(bytes[..Find(bytes, '\n', 0)], verb, target, version)
    ensures IncomingRequest(bytes) == NoRequest(ProtocolError)
  {
    var head, n := bytes[..e + 4], Find(bytes, '\n', 0);
    assert bytes[e..e + 4][1] == '\n';
    FindIs(head, '\n', 0, n);
    assert head[..n] == bytes[..n];
    RequestLineIff(bytes[..n]);
    BadMessageRead(head, bytes[..n], GetLine(Stream(head, true), "").1);
  }

  lemma BadMessageRead(head: string, line: string, behind: Stream)
    requires GetLine(Stream(head, true), "") == (line, behind) && ParseRequestLine(line) == None
    ensures ParseRequest(Stream(head, true)) == BadMessage
  {
  }

  // ---------- responses ----------

  /** a comes before b in the order of std::string. */
  ghost predicate Precedes(a: string, b: string) {
    exists i: nat :: PrecedesAt(a, b, i)
  }

  predicate PrecedesAt(a: string, b: string, i: nat) {
    i <= |a| && i < |b| && a[..i] == b[..i] && (i < |a| ==> a[i] < b[i])
  }

  lemma PrecedesBehind(a: string, b: string, i: nat)
    requires a != "" && b != "" && a[0] == b[0]
    ensures PrecedesAt(a[1..], b[1..], i) <==> PrecedesAt(a, b, i + 1)
  {
    if i <= |a| - 1 && i <= |b| - 1 {
      assert a[..i + 1] == [a[0]] + a[1..][..i] && b[..i + 1] == [b[0]] + b[1..][..i];
    }
  }

  lemma PrecedesAtFirst(a: string, b: string, i: nat)
    requires PrecedesAt(a, b, i) && a != ""
    ensures b != "" && (a[0] == b[0] ==> i > 0) && (a[0] != b[0] ==> a[0] < b[0])
  {
    assert i > 0 ==> a[..i][0] == a[0] && b[..i][0] == b[0];
  }

  lemma {:induction false} LessIff(a: string, b: string)
    ensures Less(a, b) <==> Precedes(a, b)
  {
    if a == "" {
      assert PrecedesAt(a, b, 0) <==> b != "";
    } else if b != "" && a[0] == b[0] {
      LessIff(a[1..], b[1..]);
      if Less(a, b) {
        var i: nat :| PrecedesAt(a[1..], b[1..], i);
        PrecedesBehind(a, b, i);
      }
      if i: nat :| PrecedesAt(a, b, i) {
        PrecedesAtFirst(a, b, i);
        PrecedesBehind(a, b, i - 1);
      }
    } else {
      assert b != "" && a[0] < b[0] ==> PrecedesAt(a, b, 0);
      if i: nat :| PrecedesAt(a, b, i) {
        PrecedesAtFirst(a, b, i);
      }
    }
  }

  /** The client takes the connection to last unless the version precedes 1.1 or the first field
      named Session, in any case, is "close". */
  ghost predicate StaysOpen(h: ResponseHead) {
    && !Precedes(h.version, "1.1")
    && forall i :: 0 <= i < |h.header| && FirstNamed(h.header, i, "Session") ==> h.header[i].value != "close"
  }

  lemma LastsIff(h: ResponseHead)
    ensures Lasts(h) <==> StaysOpen(h)
  {
    LessIff(h.version, "1.1");
    LookupFinds(h.header, "Session");
    if !NoneNamed(h.header, "Session") {
      var i := FirstIsNamed(h.header, "Session");
    }
  }

  /** What the client reads behind the head of a response. */
  ghost predicate Reads(bytes: string, h: ResponseHead, body: Body) {
    IncomingResponse(bytes).Outcome? && IncomingResponse(bytes).head == h && IncomingResponse(bytes).body == body
  }

  /** A length, in a field of any spelling, delimits the body, whatever the other fields say. */
  lemma ResponseByLength(head: string, h: ResponseHead, i: nat, content: string, rest: string)
    requires ResponseHeadOf(head, h) && SaysLength(h.header, i, |content|)
    ensures Reads(head + (content + rest), h, Complete(content, rest))
  {
    ByLengthBody(head, content, rest, h.header, i, Lasts(h), Uncaught);
    ResponseMeansBody(head, h, content + rest, Complete(content, rest));
  }

  /** A length that is no number makes the client throw. */
  lemma ResponseBadLength(head: string, h: ResponseHead, i: nat, tail: string)
    requires ResponseHeadOf(head, h) && FirstNamed(h.header, i, "Content-Length")
    ensures Stoul(h.header[i].value, 10) == None ==> Reads(head + tail, h, Broken(Uncaught))
    ensures forall n: nat :: SaysLength(h.header, i, n) && n > |tail| ==> Reads(head + tail, h, Broken(EndOfStream))
  {
    var body := BodyOf(head + tail, |head|, |head|, h.header, Lasts(h), Uncaught);
    BadLengthBody(head, tail, h.header, i, Lasts(h), Uncaught);
    ResponseMeansBody(head, h, tail, body);
  }

  /** Without a length a chunked body is read as its chunks' data. */
  lemma ResponseByChunks(head: string, h: ResponseHead, i: nat, chunks: seq<Chunk>, last: Chunk, rest: string)
    requires ResponseHeadOf(head, h) && SaysChunks(h.header, i) && GoodChunks(chunks, last)
    ensures Reads(head + (Encoded(chunks, last) + rest), h, Complete(Content(chunks), rest))
  {
    ByChunksBody(head, Encoded(chunks, last) + rest, h.header, i, Lasts(h), Uncaught);
    ChunksRoundTrip(chunks, last, rest);
    ResponseMeansBody(head, h, Encoded(chunks, last) + rest, Complete(Content(chunks), rest));
  }

  /** With neither, the body reaches to the end of the connection, or there is none when the client
      takes the connection to last. */
  lemma ResponseWithoutLength(head: string, h: ResponseHead, tail: string)
    requires ResponseHeadOf(head, h) && SaysNothing(h.header)
    ensures Reads(head + tail, h, if StaysOpen(h) then Complete("", tail) else Complete(tail, ""))
  {
    LastsIff(h);
    NoLengthBody(head, tail, h.header, Lasts(h), Uncaught);
    ResponseMeansBody(head, h, tail, if StaysOpen(h) then Complete("", tail) else Complete(tail, ""));
  }

  // ---------- delivery of chunked bodies ----------

  lemma BehindAndContent(buffer: string, net: string, content: string, rest: string)
    requires |content| <= |buffer| && buffer[|buffer| - |content|..] == content
    requires buffer[..|buffer| - |content|] + net == rest
    ensures var k := |buffer| - |content|; k <= |rest| && buffer == rest[..k] + content
  {
    var k := |buffer| - |content|;
    assert rest[..k] == buffer[..k] && buffer == buffer[..k] + buffer[k..];
  }

  lemma ChunkedRequestRead(incoming: Incoming, content: string, rest: string, total: nat, arrived: nat,
                           error: Option<ReadError>, request: Request, buffer: string, net: string)
    requires incoming.Incoming? && incoming.body == Complete(content, rest)
    requires FramingOf(incoming.request.header, true) == ByChunks
    requires RequestRead(incoming, total, arrived, error, request, buffer, net)
    ensures error == None && request == incoming.request && |buffer| >= |content|
    ensures var k := |buffer| - |content|; k <= |rest| && buffer == rest[..k] + content
  {
    BehindAndContent(buffer, net, content, rest);
  }

  lemma ChunkedResponseRead(outcome: Outcome, content: string, rest: string, total: nat, arrived: nat,
                            error: Option<ReadError>, answer: ResponseHead, buffer: string, net: string)
    requires outcome.Outcome? && outcome.body == Complete(content, rest)
    requires FramingOf(outcome.head.header, outcome.lasts) == ByChunks
    requires ResponseRead(outcome, total, arrived, error, answer, buffer, net)
    ensures error == None && answer == outcome.head && |buffer| >= |content|
    ensures var k := |buffer| - |content|; k <= |rest| && buffer == rest[..k] + content
  {
    BehindAndContent(buffer, net, content, rest);
  }

  // The server reads a chunked request that comes in these slices.
  method ReceiveChunkedRequest(slices: seq<string>, ghost incoming: Incoming, ghost content: string, ghost rest: string)
    returns (error: Option<ReadError>, request: Request, seen: string)
    requires incoming == IncomingRequest(Concat(slices)) && incoming.Incoming? && incoming.body == Complete(content, rest)
    requires FramingOf(incoming.request.header, true) == ByChunks
    ensures error == None && request == incoming.request && |seen| >= |content|
    ensures var k := |seen| - |content|; k <= |rest| && seen == rest[..k] + content
  {
    var connection := new Connection(slices);
    assert connection.Bytes() == Concat(slices);
    ghost var total, arrived := |connection.Bytes()|, |Upto(connection.buffer, connection.net, HEAD_END)|;
    error, request := ServerRead(connection);
    seen := connection.buffer;
    ChunkedRequestRead(incoming, content, rest, total, arrived, error, request, seen, Concat(connection.net));
  }

  /** Under every slicing the server's handler reads the chunks' data; of what follows, a part that
      had arrived with the last chunk stands in front of it. */
  method DeliverChunkedRequest(slices: seq<string>, ghost head: string, ghost r: Request, ghost target: string, ghost i: nat,
                               ghost chunks: seq<Chunk>, ghost last: Chunk, ghost rest: string)
    returns (error: Option<ReadError>, request: Request, seen: string)
    requires RequestHeadOf(head, r, target) && SaysChunks(r.header, i) && GoodChunks(chunks, last)
    requires Concat(slices) == head + (Encoded(chunks, last) + rest)
    ensures error == None && request == r && |seen| >= |Content(chunks)|
    ensures var k := |seen| - |Content(chunks)|; k <= |rest| && seen == rest[..k] + Content(chunks)
  {
    RequestByChunks(head, r, target, i, chunks, last, rest);
    ghost var incoming := IncomingRequest(Concat(slices));
    ChunksFraming(r.header, i, true);
    error, request, seen := ReceiveChunkedRequest(slices, incoming, Content(chunks), rest);
  }

  // The client reads a chunked response that comes in these slices.
  method ReceiveChunkedResponse(slices: seq<string>, ghost outcome: Outcome, ghost content: string, ghost rest: string)
    returns (error: Option<ReadError>, answer: ResponseHead, seen: string)
    requires outcome == IncomingResponse(Concat(slices)) && outcome.Outcome? && outcome.body == Complete(content, rest)
    requires FramingOf(outcome.head.header, outcome.lasts) == ByChunks
    ensures error == None && answer == outcome.head && |seen| >= |content|
    ensures var k := |seen| - |content|; k <= |rest| && seen == rest[..k] + content
  {
    var connection := new Connection(slices);
    assert connection.Bytes() == Concat(slices);
    ghost var total, arrived := |connection.Bytes()|, |Upto(connection.buffer, connection.net, HEAD_END)|;
    error, answer := ClientRead(connection);
    seen := connection.buffer;
    ChunkedResponseRead(outcome, content, rest, total, arrived, error, answer, seen, Concat(connection.net));
  }

  lemma ChunkedOutcome(bytes: string, outcome: Outcome, head: string, h: ResponseHead, i: nat,
                       chunks: seq<Chunk>, last: Chunk, rest: string)
    requires ResponseHeadOf(head, h) && SaysChunks(h.header, i) && GoodChunks(chunks, last)
    requires bytes == head + (Encoded(chunks, last) + rest) && outcome == IncomingResponse(bytes)
    ensures outcome.Outcome? && outcome.head == h && outcome.body == Complete(Content(chunks), rest)
    ensures FramingOf(outcome.head.header, outcome.lasts) == ByChunks
  {
    ResponseByChunks(head, h, i, chunks, last, rest);
    ChunksFraming(h.header, i, outcome.lasts);
  }

  /** And so the client's caller. */
  method DeliverChunkedResponse(slices: seq<string>, ghost head: string, ghost h: ResponseHead, ghost i: nat,
                                ghost chunks: seq<Chunk>, ghost last: Chunk, ghost rest: string)
    returns (error: Option<ReadError>, answer: ResponseHead, seen: string)
    requires ResponseHeadOf(head, h) && SaysChunks(h.header, i) && GoodChunks(chunks, last)
    requires Concat(slices) == head + (Encoded(chunks, last) + rest)
    ensures error == None && answer == h && |seen| >= |Content(chunks)|
    ensures var k := |seen| - |Content(chunks)|; k <= |rest| && seen == rest[..k] + Content(chunks)
  {
    ghost var outcome := IncomingResponse(Concat(slices));
    ChunkedOutcome(Concat(slices), outcome, head, h, i, chunks, last, rest);
    error, answer, seen := ReceiveChunkedResponse(slices, outcome, Content(chunks), rest);
  }
}
