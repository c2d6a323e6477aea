// The device as the program has it: an object that reassembles a request from packets, handles
// it and sends its response back (src/device/device.cpp).
module Device {
  import opened Text
  import opened HttpText
  import opened HttpParse
  import opened HttpMessages
  import opened FileStore
  import opened Aaa
  import opened Fragments
  import opened ProxyLink
  import opened DeviceLink

  // The fields. wire: what has been sent to the proxy; replies: what ReceivePacket is going to
  // yield while a response is sent, a script that stands for the network.
  datatype State = State(
    session: Char, counter: Char, raw: string, files: Files, wire: seq<Packet>, replies: seq<Reply>)

  // Waiting for the next packet of a request, waiting for a reply to a fragment of the response,
  // or caught in the parser.
  datatype Stage = Listening | Answering | Hung

  /** SendData: a text of no fragment or more than 127 is dropped without a word. */
  function RespondAll(rs: seq<string>, session: Char, replies: seq<Reply>): RespondRun {
    if 0 < |rs| <= MAX_COUNT then RunRespond(rs, session, 0, 0, replies) else RespondRun(Finished, [], replies)
  }

  function WithRespond(s: State, run: RespondRun): State {
    s.(wire := s.wire + run.wire, replies := run.left)
  }

  /** The text that answers a request, and the files then kept. */
  function Answer(settings: Settings, files: Files, r: Request): (Files, string) {
    var (after, response) := Handle(settings, files, r);
    (after, ResponseText(match response case Some(x) => x case None => NOT_IMPLEMENTED))
  }

  /** A request that is not handled is answered with 501 and leaves the files alone. */
  lemma AnswersUnhandled(settings: Settings, files: Files, r: Request)
    requires Handle(settings, files, r).1 == None
    ensures Answer(settings, files, r) == (files, "HTTP/1.1 501 Not Implemented\r\n\r\n")
  {
    UnhandledIff(settings, files, r);
    NotImplementedText();
  }

  lemma NotImplementedText()
    ensures ResponseText(NOT_IMPLEMENTED) == "HTTP/1.1 501 Not Implemented\r\n\r\n"
  {
    assert StatusLine(NOT_IMPLEMENTED) == "HTTP/1.1 501 Not Implemented\r\n";
  }

  /** The device's part of an exchange as one call: None when the text does not parse. */
  function Serve(settings: Settings, files: Files, text: string): Option<(Files, string)> {
    match ParseRequest(Stream(text, true))
    case Accepted(r, _) => Some(Answer(settings, files, r))
    case _ => None
  }

  /** A complete request: what remains of the round in Run that received its last packet. */
  function Complete(settings: Settings, max: nat, s: State, text: string): (State, Stage)
    requires max > HEADER_SIZE
  {
    match ParseRequest(Stream(text, true))
    case BadMessage => (s.(session := IDLE_MARK, counter := IDLE_MARK), Listening)
    case Hangs => (s, Hung)
    case Accepted(r, _) =>
      var (files, response) := Answer(settings, s.files, r);
      var run := RespondAll(Chunks(response, max - HEADER_SIZE), s.session, s.replies);
      var t := WithRespond(s.(raw := "", files := files), run);
      if run.state.Responding? then (t, Answering)
      else (t.(session := IDLE_MARK, counter := IDLE_MARK), Listening)
  }

  /** One packet in Run. */
  function Take(settings: Settings, max: nat, s: State, p: Packet): (State, Stage)
    requires max > HEADER_SIZE
  {
    var r := Receive(Receiver(s.session, s.counter, s.raw), p);
    var t := s.(raw := r.next.buffer, wire := s.wire + [r.answer]);
    match r.complete
    case None => (t.(session := r.next.session, counter := r.next.counter), Listening)
    case Some(text) => Complete(settings, max, t.(session := p.session as Char, counter := 1), text)
  }

  /** An idle device is caught by one packet exactly when the packet makes its text a request line
      with nothing but lines with a colon behind it. */
  lemma CaughtIff(settings: Settings, max: nat, s: State, p: Packet)
    requires max > HEADER_SIZE && s.session == IDLE_MARK && s.counter == IDLE_MARK
    requires p.ty == Data && p.count == 1
    ensures Take(settings, max, s, p).1 == Hung <==> Endless(s.raw + p.payload)
  {
    HangsIff(s.raw + p.payload);
    CaughtIn(settings, max, s, p, s.raw + p.payload);
  }

  /** For one, by a request that breaks off in its first field. */
  lemma CaughtByCutOff(settings: Settings, max: nat, s: State, p: Packet,
                       verb: string, target: string, version: string, field: string)
    requires max > HEADER_SIZE && s.session == IDLE_MARK && s.counter == IDLE_MARK && s.raw == ""
    requires ' ' !in verb && '\n' !in verb && ' ' !in target && '\n' !in target && '\n' !in version
    requires ':' in field && '\n' !in field
    requires p.ty == Data && p.count == 1
    requires p.payload == verb + " " + target + " HTTP/" + version + "\r" + "\n" + field
    ensures Take(settings, max, s, p).1 == Hung
  {
    CutOffHangs(verb, target, version, field);
    assert "" + p.payload == p.payload;
    CaughtIn(settings, max, s, p, p.payload);
  }

  lemma CaughtIn(settings: Settings, max: nat, s: State, p: Packet, text: string)
    requires max > HEADER_SIZE && s.session == IDLE_MARK && s.counter == IDLE_MARK && text == s.raw + p.payload
    requires p.ty == Data && p.count == 1
    ensures Take(settings, max, s, p).1 == Hung <==> ParseRequest(Stream(text, true)) == Hangs
  {
  }

  // ---------- the object ----------

  function Following(sent: seq<Packet>, run: RespondRun): RespondRun {
    run.(wire := sent + run.wire)
  }

  lemma OnePass(rs: seq<string>, session: Char, i: nat, retries: nat, replies: seq<Reply>, sent: seq<Packet>)
    requires i < |rs| <= MAX_COUNT && replies != []
    ensures var next := AfterAck(|rs|, i, retries, replies[0]);
            var now := sent + [DataPacket(rs, session, i)];
            Following(sent, RunRespond(rs, session, i, retries, replies))
            == if next.Responding? then Following(now, RunRespond(rs, session, next.i, next.retries, replies[1..]))
               else RespondRun(next, now, replies[1..])
  {
    var next := AfterAck(|rs|, i, retries, replies[0]);
    if next.Responding? {
      var rest := RunRespond(rs, session, next.i, next.retries, replies[1..]);
      assert sent + ([DataPacket(rs, session, i)] + rest.wire) == sent + [DataPacket(rs, session, i)] + rest.wire;
    }
  }

  predicate Underway(rs: seq<string>, session: Char, state: RespondState, replies: seq<Reply>, sent: seq<Packet>,
                     run: RespondRun)
    requires |rs| <= MAX_COUNT
  {
    if state.Responding? then
      state.i < |rs| && run == Following(sent, RunRespond(rs, session, state.i, state.retries, replies))
    else run == RespondRun(state, sent, replies)
  }

  lemma Associate(a: seq<Packet>, b: seq<Packet>, c: seq<Packet>)
    ensures a + b + c == a + (b + c)
  {
  }

  class Device {
    const settings: Settings
    const max: nat
    var session: Char
    var counter: Char
    var raw: string
    var files: Files
    var wire: seq<Packet>
    var replies: seq<Reply>

    function View(): State
      reads this
    {
      State(session, counter, raw, files, wire, replies)
    }

    constructor (s: Settings, maxPacketSize: nat, stored: Files, script: seq<Reply>)
      ensures settings == s && max == maxPacketSize
      ensures View() == State(IDLE_MARK, IDLE_MARK, "", stored, [], script)
    {
      settings, max, session, counter := s, maxPacketSize, IDLE_MARK, IDLE_MARK;
      raw, files, wire, replies := "", stored, [], script;
    }

    method SendPacket(ty: PacketType, count: Bits7, withSession: Char, data: string)
      modifies this
      ensures View() == if |data| + HEADER_SIZE > max then old(View())
                        else old(View()).(wire := old(wire) + [OnWire(ty, count, withSession, data)])
    {
      if |data| + HEADER_SIZE > max {
        return;
      }
      wire := wire + [OnWire(ty, count, withSession, data)];
    }

    method ReceivePacket() returns (reply: Option<Reply>)
      modifies this
      ensures if old(replies) == [] then reply == None && View() == old(View())
              else reply == Some(old(replies)[0]) && View() == old(View()).(replies := old(replies)[1..])
    {
      if replies == [] {
        return None;
      }
      reply := Some(replies[0]);
      replies := replies[1..];
    }

    method SendFragment(rs: seq<string>, i: nat, retries: nat) returns (next: RespondState)
      requires i < |rs| <= MAX_COUNT && forall k :: 0 <= k < |rs| ==> |rs[k]| + HEADER_SIZE <= max
      modifies this
      ensures var data := DataPacket(rs, old(session), i);
              if old(replies) == [] then
                next == Responding(i, retries) && View() == old(View()).(wire := old(wire) + [data])
              else
                && next == AfterAck(|rs|, i, retries, old(replies)[0])
                && View() == old(View()).(wire := old(wire) + [data], replies := old(replies)[1..])
    {
      SendPacket(Data, |rs| - i, session, rs[i]);
      var reply := ReceivePacket();
      if reply == None {
        return Responding(i, retries);
      }
      if reply.value.Got? && reply.value.packet.ty == Ack {
        next := if i + 1 == |rs| then Finished else Responding(i + 1, 0);
      } else if reply.value.Got? && reply.value.packet.ty == Error {
        next := Finished;
      } else if retries >= MAX_RETRANSMISSIONS {
        next := Finished;
      } else {
        next := Responding(i, retries + 1);
      }
    }

    // The loop of SendData.
    method SendFragments(rs: seq<string>) returns (state: RespondState)
      requires 0 < |rs| <= MAX_COUNT && forall k :: 0 <= k < |rs| ==> |rs[k]| + HEADER_SIZE <= max
      modifies this
      ensures var run := RunRespond(rs, old(session), 0, 0, old(replies));
              state == run.state && View() == WithRespond(old(View()), run)
    {
      ghost var sent: seq<Packet>, before := [], View();
      ghost var run := RunRespond(rs, session, 0, 0, replies);
      state := Responding(0, 0);
      while state.Responding? && replies != []
        invariant View() == before.(wire := before.wire + sent, replies := replies)
        invariant Underway(rs, session, state, replies, sent, run)
        decreases |replies|
      {
        ghost var data := [DataPacket(rs, session, state.i)];
        Associate(before.wire, sent, data);
        OnePass(rs, session, state.i, state.retries, replies, sent);
        state := SendFragment(rs, state.i, state.retries);
        sent := sent + data;
      }
      if state.Responding? {
        ghost var data := [DataPacket(rs, session, state.i)];
        Associate(before.wire, sent, data);
        state := SendFragment(rs, state.i, state.retries);
      }
    }

    method SendData(data: string) returns (state: RespondState)
      requires max > HEADER_SIZE
      modifies this
      ensures var run := RespondAll(Chunks(data, max - HEADER_SIZE), old(session), old(replies));
              state == run.state && View() == WithRespond(old(View()), run)
    {
      var rs := ChunkData(data, max - HEADER_SIZE);
      if |rs| > MAX_COUNT || |rs| == 0 {
        return Finished;
      }
      ChunksShape(data, max - HEADER_SIZE);
      state := SendFragments(rs);
    }

    method ParseText() returns (result: RequestResult)
      ensures result == ParseRequest(Stream(raw, true))
    {
      var stream := new InputStream(raw);
      result := RequestParse(stream);
    }

    method HandleRequest(r: Request) returns (response: Option<HttpText.Response>)
      modifies this`files
      ensures (files, response) == Handle(settings, old(files), r)
    {
      var items := PathItems(r.path);
      if |items| > 0 && items[0] != settings.id {
        return Some(WRONG_DEVICE);
      }
      if r.verb == "GET" || r.verb == "POST" {
        if |items| == 2 && items[1] == "info" {
          return Some(OK.(header := [Field("Content-Type", "application/json")], body := settings.info));
        }
        if |items| == 2 && items[1] == "file" {
          var listing := settings.listing(files);
          return Some(OK.(header := [Field("Content-Type", "text/plain; charset=UTF-8")], body := listing));
        }
        if |items| == 3 && items[1] == "file" {
          var valid := IsValidFilename(items[2]);
          if !valid {
            return Some(BAD_NAME);
          }
          if items[2] !in files {
            return Some(BAD_REQUEST);
          }
          return Some(OK.(body := files[items[2]]));
        }
      } else if r.verb == "PUT" {
        if |items| == 3 && items[1] == "file" {
          response := PutFile(items[2], r);
          return;
        }
      } else if r.verb == "DELETE" {
        if |items| == 3 && items[1] == "file" {
          var valid := IsValidFilename(items[2]);
          if !valid {
            return Some(BAD_NAME);
          }
          if items[2] !in files {
            return Some(NOT_FOUND);
          }
          files := files - {items[2]};
          return Some(OK);
        }
      }
      response := None;
    }

    // HandleRequest's branch for PUT.
    method PutFile(name: string, r: Request) returns (response: Option<HttpText.Response>)
      modifies this`files
      ensures (files, response) == if !ValidName(name) then (old(files), Some(BAD_NAME))
                                   else if name in old(files) then (old(files), Some(EXISTS))
                                   else (old(files)[name := DataOf(r)], Some(OK))
    {
      var valid := IsValidFilename(name);
      if !valid {
        return Some(BAD_NAME);
      }
      if name in files {
        return Some(EXISTS);
      }
      var data := Lookup(r.header, "X-Data");
      if data == None {
        files := files[name := ""];
      } else {
        files := files[name := data.value];
      }
      response := Some(OK);
    }

    /** Handles a request and sends the response. */
    method Respond(r: Request) returns (state: RespondState)
      requires max > HEADER_SIZE
      modifies this
      ensures var (after, text) := Answer(settings, old(files), r);
              var run := RespondAll(Chunks(text, max - HEADER_SIZE), old(session), old(replies));
              state == run.state && View() == WithRespond(old(View()).(files := after), run)
    {
      var response := HandleRequest(r);
      var text := PrintResponse(if response.Some? then response.value else NOT_IMPLEMENTED);
      state := SendData(text);
    }

    /** What Run does once the last packet of a request has been acknowledged. */
    method CompleteRequest() returns (stage: Stage)
      requires max > HEADER_SIZE
      modifies this
      ensures (View(), stage) == Complete(settings, max, old(View()), old(raw))
    {
      var result := ParseText();
      match result
      case Hangs =>
        return Hung;
      case BadMessage =>
        session, counter := IDLE_MARK, IDLE_MARK;
        stage := Listening;
      case Accepted(r, _) =>
        raw := "";
        var state := Respond(r);
        if state.Responding? {
          return Answering;
        }
        session, counter := IDLE_MARK, IDLE_MARK;
        stage := Listening;
    }

    /** One packet in Run. */
    method HandlePacket(p: Packet) returns (stage: Stage)
      requires max > HEADER_SIZE
      modifies this
      ensures (View(), stage) == Take(settings, max, old(View()), p)
    {
      if counter == IDLE_MARK {
        counter := p.count as Char;
      } else if counter as int != p.count {
        SendPacket(Error, 0, p.session as Char, ErrorText(WrongCount));
        session, counter := IDLE_MARK, IDLE_MARK;
        return Listening;
      }
      if p.ty != Data {
        SendPacket(Error, p.count, session, ErrorText(WrongType));
        session, counter := IDLE_MARK, IDLE_MARK;
        return Listening;
      }
      if session == IDLE_MARK {
        session := p.session as Char;
      } else if p.session != session as int {
        SendPacket(Error, 0, session, ErrorText(WrongSession));
        session, counter := IDLE_MARK, IDLE_MARK;
        return Listening;
      }
      raw := raw + p.payload;
      SendPacket(Ack, p.count, session, "");
      if counter == 1 {
        stage := CompleteRequest();
      } else {
        counter := counter - 1;
        stage := Listening;
      }
    }
  }
}
