// The proxy as the program has it: an object whose methods send a client's request to a device
// and collect the response (src/proxy/proxy.cpp).
module Proxy {
  import opened Text
  import opened Aaa
  import opened Fragments
  import opened ProxyLink
  import opened Sessions
  import HttpText
  import Routing

  // The fields. wire: what has been sent to devices; replies: what ReceivePacket is going to
  // yield, a script that stands for the network.
  datatype State = State(
    sessions: map<string, Char>, session: Char, chunkSize: nat, response: string,
    wire: seq<Packet>, replies: seq<Reply>)

  // ---------- what one request does ----------

  /** SendDataDevice: text of no fragment or more than 127 is dropped without a word. */
  function SendAll(cs: seq<string>, session: Char, replies: seq<Reply>): SendRun {
    if 0 < |cs| <= MAX_COUNT then RunSend(cs, session, 0, 0, replies) else SendRun(Sent, [], replies)
  }

  ghost predicate Configured(max: map<string, nat>, s: State) {
    s.sessions.Keys == max.Keys && forall d :: d in max ==> max[d] > HEADER_SIZE
  }

  function Selected(max: map<string, nat>, s: State, d: string): State
    requires d in max && d in s.sessions
  {
    var session := Increment(s.sessions[d]);
    s.(sessions := s.sessions[d := session], session := session, chunkSize := max[d])
  }

  function Error500(): string { HttpText.ResponseText(HttpText.INTERNAL_SERVER_ERROR) }

  function Error502(): string { HttpText.ResponseText(HttpText.BAD_GATEWAY) }

  function Error503(): string { HttpText.ResponseText(HttpText.SERVICE_UNAVAILABLE) }

  function WithSend(s: State, run: SendRun): State {
    s.(wire := s.wire + run.wire, replies := run.left)
  }

  function WithCollect(s: State, run: CollectRun): State {
    s.(wire := s.wire + run.wire, replies := run.left, response := run.text)
  }

  /** One client request: the state it leaves, and whether the response is ready; otherwise the
      proxy is still waiting for the network. */
  function Serve(max: map<string, nat>, s: State, raw: string): (State, bool)
    requires Configured(max, s)
  {
    var d := Routing.GetDeviceId(raw);
    if d !in max then (s.(response := Error502()), true)
    else
      var t := Selected(max, s, d);
      var send := SendAll(Chunks(raw, t.chunkSize - HEADER_SIZE), t.session, t.replies);
      var u := WithSend(t, send);
      match send.state
      case Sending(_, _) => (u, false)
      case MaxRetransmissionsReached => (u.(response := Error503()), true)
      case UnexpectedType => (u.(response := Error500()), true)
      case Sent =>
        var collect := RunCollect(t.session, "", u.replies);
        var v := WithCollect(u, collect);
        match collect.state
        case Waiting => (v, false)
        case Collected => (v, true)
        case Broken => (v.(response := Error500()), true)
  }

  lemma ServeKeeps(max: map<string, nat>, s: State, raw: string)
    requires Configured(max, s)
    ensures Configured(max, Serve(max, s, raw).0)
    ensures Serve(max, s, raw).0.sessions == NextSessions(s.sessions, Routing.GetDeviceId(raw))
  {
  }

  function ServeAll(max: map<string, nat>, s: State, raws: seq<string>): (t: State)
    requires Configured(max, s)
    ensures Configured(max, t)
    decreases |raws|
  {
    if raws == [] then s
    else
      var before := ServeAll(max, s, raws[..|raws| - 1]);
      ServeKeeps(max, before, raws[|raws| - 1]);
      Serve(max, before, raws[|raws| - 1]).0
  }

  function DevicesOf(raws: seq<string>): (ds: seq<string>)
    ensures |ds| == |raws|
  {
    if raws == [] then [] else DevicesOf(raws[..|raws| - 1]) + [Routing.GetDeviceId(raws[|raws| - 1])]
  }

  /** Whatever the network does to the exchanges of a run, the proxy's session numbers count the
      requests to each device. */
  lemma {:induction false} SessionsOfRun(max: map<string, nat>, s: State, raws: seq<string>)
    requires Configured(max, s)
    ensures ServeAll(max, s, raws).sessions == SessionsAfter(s.sessions, DevicesOf(raws))
    decreases |raws|
  {
    if raws != [] {
      var before := raws[..|raws| - 1];
      SessionsOfRun(max, s, before);
      ServeKeeps(max, ServeAll(max, s, before), raws[|raws| - 1]);
      assert DevicesOf(raws)[..|raws| - 1] == DevicesOf(before);
    }
  }

  // ---------- what a client gets, by the replies ----------

  // The replies take the loop through n fragments, and leave the rest; a text without fragments or
  // with too many is not sent.
  ghost predicate SentBefore(n: nat, session: Char, replies: seq<Reply>, rest: seq<Reply>) {
    if 0 < n <= 127 then Reaches(n, session, 0, n, replies, rest) else rest == replies
  }

  ghost predicate LosesAnswer(n: nat, session: Char, replies: seq<Reply>) {
    exists rest: seq<Reply>, q: nat ::
      SentBefore(n, session, replies, rest) && KeepsCollecting(session, rest, q) && LosesResponse(session, rest[q])
  }

  ghost predicate Gets(n: nat, session: Char, replies: seq<Reply>, text: string) {
    exists rest: seq<Reply>, q: nat ::
      && SentBefore(n, session, replies, rest) && KeepsCollecting(session, rest, q) && EndsResponse(session, rest[q])
      && text == Concat(DataTexts(rest[..q + 1]))
  }

  // A response with this code, which stands at positions 9 to 11, and nothing behind its first line.
  predicate Says(response: string, code: string, text: string) {
    HttpText.CodeOf(response) == code && response == HttpText.Plain(code, text)
  }

  /** What a request with n fragments is answered, and with which status code. */
  ghost predicate AnswersClient(n: nat, session: Char, replies: seq<Reply>, answered: bool, response: string) {
    && (0 < n <= 127 && TimesOut(n, session, replies) ==> answered && Says(response, "503", "Service Unavailable"))
    && (0 < n <= 127 && Surprised(n, session, replies) ==> answered && Says(response, "500", "Internal Server Error"))
    && (LosesAnswer(n, session, replies) ==> answered && Says(response, "500", "Internal Server Error"))
    && (forall text :: Gets(n, session, replies, text) ==> answered && response == text)
  }

  lemma SentThen(cs: seq<string>, session: Char, replies: seq<Reply>, rest: seq<Reply>)
    requires SentBefore(|cs|, session, replies, rest)
    ensures SendAll(cs, session, replies).state == Sent && SendAll(cs, session, replies).left == rest
  {
    if 0 < |cs| <= 127 {
      HowSendingEnds(cs, session, replies);
    }
  }

  lemma Codes()
    ensures Says(Error500(), "500", "Internal Server Error") && Says(Error502(), "502", "Bad Gateway")
    ensures Says(Error503(), "503", "Service Unavailable")
  {
    HttpText.PlainText(HttpText.INTERNAL_SERVER_ERROR);
    HttpText.PlainText(HttpText.BAD_GATEWAY);
    HttpText.PlainText(HttpText.SERVICE_UNAVAILABLE);
    HttpText.CodeInText(HttpText.INTERNAL_SERVER_ERROR);
    HttpText.CodeInText(HttpText.BAD_GATEWAY);
    HttpText.CodeInText(HttpText.SERVICE_UNAVAILABLE);
  }

  lemma ServeRouted(max: map<string, nat>, s: State, raw: string, cs: seq<string>, session: Char)
    requires Configured(max, s) && Routing.GetDeviceId(raw) in max
    requires cs == Chunks(raw, max[Routing.GetDeviceId(raw)] - HEADER_SIZE)
    requires session == Increment(s.sessions[Routing.GetDeviceId(raw)])
    ensures var (t, answered) := Serve(max, s, raw);
            var send := SendAll(cs, session, s.replies);
            var collect := RunCollect(session, "", send.left);
            match send.state
            case Sending(_, _) => !answered
            case MaxRetransmissionsReached => answered && t.response == Error503()
            case UnexpectedType => answered && t.response == Error500()
            case Sent =>
              && (answered <==> collect.state != Waiting)
              && (collect.state == Collected ==> t.response == collect.text)
              && (collect.state == Broken ==> t.response == Error500())
  {
  }

  lemma ServeWire(max: map<string, nat>, s: State, raw: string, cs: seq<string>, session: Char)
    requires Configured(max, s) && Routing.GetDeviceId(raw) in max
    requires cs == Chunks(raw, max[Routing.GetDeviceId(raw)] - HEADER_SIZE)
    requires session == Increment(s.sessions[Routing.GetDeviceId(raw)])
    ensures var t, send := Serve(max, s, raw).0, SendAll(cs, session, s.replies);
            && t.sessions == s.sessions[Routing.GetDeviceId(raw) := session]
            && t.wire == if send.state == Sent then s.wire + send.wire + RunCollect(session, "", send.left).wire
                         else s.wire + send.wire
  {
  }

  /** The text is sent to the selected device under its next session number, in fragments of its
      configured size, before anything else is. */
  lemma ServeSends(max: map<string, nat>, s: State, raw: string, d: string, sent: seq<Packet>)
    requires Configured(max, s) && d == Routing.GetDeviceId(raw) && d in max
    requires sent == s.wire + SendAll(Chunks(raw, max[d] - 2), Increment(s.sessions[d]), s.replies).wire
    ensures var t := Serve(max, s, raw).0;
            t.sessions == s.sessions[d := Increment(s.sessions[d])] && |sent| <= |t.wire| && t.wire[..|sent|] == sent
  {
    ServeWire(max, s, raw, Chunks(raw, max[d] - 2), Increment(s.sessions[d]));
  }

  /** For an unknown device 502, and nothing is sent. Else 503 after too many timeouts, 500 after any
      other exception, and otherwise the payloads of the device's packets. */
  lemma ServeAnswers(max: map<string, nat>, s: State, raw: string)
    requires Configured(max, s)
    ensures var d, (t, answered) := Routing.GetDeviceId(raw), Serve(max, s, raw);
            if d in max then
              AnswersClient(|Chunks(raw, max[d] - 2)|, Increment(s.sessions[d]), s.replies, answered, t.response)
            else
              answered && Says(t.response, "502", "Bad Gateway") && t == s.(response := t.response)
  {
    var d := Routing.GetDeviceId(raw);
    Codes();
    if d in max {
      var cs, session := Chunks(raw, max[d] - 2), Increment(s.sessions[d]);
      ServeRouted(max, s, raw, cs, session);
      var (t, answered) := Serve(max, s, raw);
      RoutedAnswers(cs, session, s.replies, answered, t.response);
    }
  }

  lemma RoutedAnswers(cs: seq<string>, session: Char, replies: seq<Reply>, answered: bool, response: string)
    requires var send := SendAll(cs, session, replies);
             var collect := RunCollect(session, "", send.left);
             match send.state
             case Sending(_, _) => !answered
             case MaxRetransmissionsReached => answered && response == Error503()
             case UnexpectedType => answered && response == Error500()
             case Sent =>
               && (answered <==> collect.state != Waiting)
               && (collect.state == Collected ==> response == collect.text)
               && (collect.state == Broken ==> response == Error500())
    ensures AnswersClient(|cs|, session, replies, answered, response)
  {
    Codes();
    if 0 < |cs| <= 127 {
      HowSendingEnds(cs, session, replies);
    }
    if LosesAnswer(|cs|, session, replies) {
      AnswerLost(cs, session, replies);
    }
    forall text | Gets(|cs|, session, replies, text)
      ensures answered && response == text
    {
      AnswerGot(cs, session, replies, text);
    }
  }

  lemma AnswerLost(cs: seq<string>, session: Char, replies: seq<Reply>)
    requires LosesAnswer(|cs|, session, replies)
    ensures var send := SendAll(cs, session, replies);
            send.state == Sent && RunCollect(session, "", send.left).state == Broken
  {
    var rest: seq<Reply>, q: nat :|
      SentBefore(|cs|, session, replies, rest) && KeepsCollecting(session, rest, q) && LosesResponse(session, rest[q]);
    SentThen(cs, session, replies, rest);
    HowCollectingEnds(session, "", rest, q);
  }

  lemma AnswerGot(cs: seq<string>, session: Char, replies: seq<Reply>, text: string)
    requires Gets(|cs|, session, replies, text)
    ensures var send := SendAll(cs, session, replies);
            var collect := RunCollect(session, "", send.left);
            send.state == Sent && collect.state == Collected && collect.text == text
  {
    var rest: seq<Reply>, q: nat :|
      && SentBefore(|cs|, session, replies, rest) && KeepsCollecting(session, rest, q) && EndsResponse(session, rest[q])
      && text == Concat(DataTexts(rest[..q + 1]));
    SentThen(cs, session, replies, rest);
    HowCollectingEnds(session, "", rest, q);
    assert "" + text == text;
  }

  // ---------- the object ----------

  function Following(sent: seq<Packet>, run: SendRun): SendRun {
    run.(wire := sent + run.wire)
  }

  lemma OnePass(cs: seq<string>, session: Char, i: nat, retries: nat, replies: seq<Reply>, sent: seq<Packet>)
    requires i < |cs| <= MAX_COUNT && replies != []
    ensures var (next, answer) := AfterReply(|cs|, session, i, retries, replies[0]);
            var now := sent + [DataPacket(cs, session, i)] + answer;
            Following(sent, RunSend(cs, session, i, retries, replies))
            == if next.Sending? then Following(now, RunSend(cs, session, next.i, next.retries, replies[1..]))
               else SendRun(next, now, replies[1..])
  {
    var (next, answer) := AfterReply(|cs|, session, i, retries, replies[0]);
    var data := [DataPacket(cs, session, i)];
    if next.Sending? {
      var rest := RunSend(cs, session, next.i, next.retries, replies[1..]);
      assert sent + (data + answer + rest.wire) == sent + data + answer + rest.wire;
    } else {
      assert sent + (data + answer) == sent + data + answer;
    }
  }

  /** How the loop's state, the packets sent and the replies left determine the whole run. */
  predicate Underway(cs: seq<string>, session: Char, state: SendState, replies: seq<Reply>, sent: seq<Packet>, run: SendRun)
    requires |cs| <= MAX_COUNT
  {
    if state.Sending? then
      state.i < |cs| && run == Following(sent, RunSend(cs, session, state.i, state.retries, replies))
    else run == SendRun(state, sent, replies)
  }

  function Earlier(sent: seq<Packet>, run: CollectRun): CollectRun {
    run.(wire := sent + run.wire)
  }

  // What one packet in ReceiveDataDevice makes the proxy send.
  function Answers(session: Char, text: string, replies: seq<Reply>): seq<Packet> {
    if replies == [] || replies[0].Timeout? then []
    else
      match AfterData(session, text, replies[0].packet)
      case None => [OnWire(Error, 0, session, ErrorText(WrongSession))]
      case Some((_, answer, _)) => answer
  }

  lemma OneData(session: Char, text: string, replies: seq<Reply>, sent: seq<Packet>)
    ensures var run, now := Earlier(sent, RunCollect(session, text, replies)), sent + Answers(session, text, replies);
            if replies == [] then run == CollectRun(Waiting, text, now, [])
            else if replies[0].Timeout? then run == CollectRun(Broken, text, now, replies[1..])
            else
              match AfterData(session, text, replies[0].packet)
              case None => run == CollectRun(Broken, text, now, replies[1..])
              case Some((text', _, done)) =>
                run == if done then CollectRun(Collected, text', now, replies[1..])
                       else Earlier(now, RunCollect(session, text', replies[1..]))
  {
    if replies != [] && replies[0].Got? && AfterData(session, text, replies[0].packet).Some? {
      var (text', answer, done) := AfterData(session, text, replies[0].packet).value;
      if !done {
        Associate(sent, answer, RunCollect(session, text', replies[1..]).wire, []);
      }
    }
  }

  lemma Associate(a: seq<Packet>, b: seq<Packet>, c: seq<Packet>, d: seq<Packet>)
    ensures a + b + c + d == a + (b + c + d) && a + b + c == a + (b + c)
  {
  }

  class Proxy {
    const max: map<string, nat>
    var sessions: map<string, Char>
    var session: Char
    var chunkSize: nat
    var response: string
    var wire: seq<Packet>
    var replies: seq<Reply>

    function View(): State
      reads this
    {
      State(sessions, session, chunkSize, response, wire, replies)
    }

    constructor (devices: map<string, nat>, script: seq<Reply>)
      ensures max == devices && sessions == map d | d in devices :: 0
      ensures wire == [] && replies == script
    {
      max, sessions, session, chunkSize, response := devices, map d | d in devices :: 0, 0, 0, "";
      wire, replies := [], script;
    }

    method SetDeviceSocket(d: string)
      requires d in max && d in sessions
      modifies this
      ensures View() == Selected(max, old(View()), d)
    {
      chunkSize := max[d];
      sessions := sessions[d := Increment(sessions[d])];
      session := sessions[d];
    }

    /** A packet that is too large is not sent. */
    method SendPacket(ty: PacketType, count: Bits7, data: string)
      modifies this
      ensures View() == if |data| + HEADER_SIZE > chunkSize then old(View())
                        else old(View()).(wire := old(wire) + [OnWire(ty, count, session, data)])
    {
      if |data| + HEADER_SIZE > chunkSize {
        return;
      }
      wire := wire + [OnWire(ty, count, session, data)];
    }

    method ReceivePacket() returns (reply: Option<Reply>)
      modifies this
      ensures if old(replies) == [] then reply == None && View() == old(View())
              else reply == Some(old(replies)[0]) && View() == old(View()).(replies := old(replies)[1..])
    {
      if replies == [] {
        return None;
      }
      reply := Some(replies[0]);
      replies := replies[1..];
    }

    /** Sends one fragment and takes the reply to it. */
    method SendFragment(cs: seq<string>, i: nat, retries: nat) returns (next: SendState)
      requires i < |cs| <= MAX_COUNT && forall k :: 0 <= k < |cs| ==> |cs[k]| + HEADER_SIZE <= chunkSize
      requires chunkSize > HEADER_SIZE
      modifies this
      ensures if old(replies) == [] then
                next == Sending(i, retries) && View() == old(View()).(wire := old(wire) + [DataPacket(cs, session, i)])
              else
                var (state, answer) := AfterReply(|cs|, old(session), i, retries, old(replies)[0]);
                next == state
                && View() == old(View()).(wire := old(wire) + [DataPacket(cs, old(session), i)] + answer,
                                          replies := old(replies)[1..])
    {
      SendPacket(Data, |cs| - i, cs[i]);
      var reply := ReceivePacket();
      match reply
      case None =>
        next := Sending(i, retries);
      case Some(Timeout) =>
        next := if retries > MAX_RETRANSMISSIONS then MaxRetransmissionsReached else Sending(i, retries + 1);
      case Some(Got(p)) =>
        if p.ty == Ack {
          if p.session == session as int {
            if p.count == |cs| - i {
              next := if i + 1 == |cs| then Sent else Sending(i + 1, 0);
            } else {
              next := Sending(i, retries);
            }
          } else {
            SendPacket(Error, 0, ErrorText(WrongSession));
            next := Sending(i, retries + 1);
          }
        } else {
          SendPacket(Error, 0, ErrorText(WrongType));
          next := UnexpectedType;
        }
    }

    method SendDataDevice(data: string) returns (state: SendState)
      requires chunkSize > HEADER_SIZE
      modifies this
      ensures var run := SendAll(Chunks(data, old(chunkSize) - HEADER_SIZE), old(session), old(replies));
              state == run.state && View() == WithSend(old(View()), run)
    {
      var cs := ChunkData(data, chunkSize - HEADER_SIZE);
      if |cs| > MAX_COUNT || |cs| == 0 {
        return Sent;
      }
      ChunksShape(data, chunkSize - HEADER_SIZE);
      state := SendFragments(cs);
    }

    // The loop of SendDataDevice.
    method SendFragments(cs: seq<string>) returns (state: SendState)
      requires 0 < |cs| <= MAX_COUNT && forall k :: 0 <= k < |cs| ==> |cs[k]| + HEADER_SIZE <= chunkSize
      requires chunkSize > HEADER_SIZE
      modifies this
      ensures var run := RunSend(cs, old(session), 0, 0, old(replies));
              state == run.state && View() == WithSend(old(View()), run)
    {
      ghost var sent: seq<Packet>, before := [], View();
      ghost var run := RunSend(cs, session, 0, 0, replies);
      state := Sending(0, 0);
      while state.Sending? && replies != []
        invariant View() == before.(wire := before.wire + sent, replies := replies)
        invariant Underway(cs, session, state, replies, sent, run)
        decreases |replies|
      {
        ghost var data := [DataPacket(cs, session, state.i)];
        ghost var answer := AfterReply(|cs|, session, state.i, state.retries, replies[0]).1;
        Associate(before.wire, sent, data, answer);
        OnePass(cs, session, state.i, state.retries, replies, sent);
        state := SendFragment(cs, state.i, state.retries);
        sent := sent + data + answer;
      }
      if state.Sending? {
        Associate(before.wire, sent, [DataPacket(cs, session, state.i)], []);
        state := SendFragment(cs, state.i, state.retries);
      }
    }

    /** One packet in ReceiveDataDevice. */
    method TakeData() returns (state: CollectState, more: bool)
      requires chunkSize > HEADER_SIZE
      modifies this
      ensures if old(replies) == [] then state == Waiting && !more && View() == old(View())
              else
                var rest := old(View()).(replies := old(replies)[1..]);
                if old(replies)[0].Timeout? then state == Broken && !more && View() == rest
                else
                  match AfterData(old(session), old(response), old(replies)[0].packet)
                  case None =>
                    && state == Broken && !more
                    && View() == rest.(wire := old(wire) + [OnWire(Error, 0, old(session), ErrorText(WrongSession))])
                  case Some((text, answer, done)) =>
                    && state == Collected && more == !done
                    && View() == rest.(response := text, wire := old(wire) + answer)
    {
      var reply := ReceivePacket();
      match reply
      case None =>
        return Waiting, false;
      case Some(Timeout) =>
        return Broken, false;
      case Some(Got(p)) =>
        if p.session != session as int {
          SendPacket(Error, 0, ErrorText(WrongSession));
          return Broken, false;
        }
        if p.ty == Data {
          response := response + p.payload;
          SendPacket(Ack, p.count, "");
        }
        return Collected, p.count != 1;
    }

    method ReceiveDataDevice() returns (state: CollectState)
      requires chunkSize > HEADER_SIZE
      modifies this
      ensures var run := RunCollect(old(session), "", old(replies));
              state == run.state && View() == WithCollect(old(View()), run)
    {
      response := "";
      ghost var sent: seq<Packet>, before := [], View();
      ghost var run := RunCollect(session, "", replies);
      var more := true;
      state := Collected;
      while more
        invariant View() == before.(wire := before.wire + sent, replies := replies, response := response)
        invariant run == if more then Earlier(sent, RunCollect(session, response, replies))
                         else CollectRun(state, response, sent, replies)
        decreases |replies|, more
      {
        ghost var answer := Answers(session, response, replies);
        OneData(session, response, replies, sent);
        Associate(before.wire, sent, answer, []);
        state, more := TakeData();
        sent := sent + answer;
      }
    }

    /** What Run does with one request of a client; the response is then sent to it. */
    method HandleClient(raw: string) returns (answered: bool)
      requires Configured(max, View())
      modifies this
      ensures (View(), answered) == Serve(max, old(View()), raw)
      ensures var d := Routing.GetDeviceId(raw);
              if d in max then
                AnswersClient(|Chunks(raw, max[d] - 2)|, Increment(old(sessions[d])), old(replies), answered, response)
              else
                answered && Says(response, "502", "Bad Gateway") && wire == old(wire) && sessions == old(sessions)
    {
      ServeAnswers(max, View(), raw);
      var d := Routing.GetDeviceId(raw);
      if d !in max {
        response := HttpText.ResponseText(HttpText.BAD_GATEWAY);
        return true;
      }
      SetDeviceSocket(d);
      var send := SendDataDevice(raw);
      match send
      case Sending(_, _) =>
        return false;
      case MaxRetransmissionsReached =>
        response := HttpText.ResponseText(HttpText.SERVICE_UNAVAILABLE);
        return true;
      case UnexpectedType =>
        response := HttpText.ResponseText(HttpText.INTERNAL_SERVER_ERROR);
        return true;
      case Sent =>
        var collect := ReceiveDataDevice();
        if collect == Broken {
          response := HttpText.ResponseText(HttpText.INTERNAL_SERVER_ERROR);
        }
        answered := collect != Waiting;
    }
  }
}
