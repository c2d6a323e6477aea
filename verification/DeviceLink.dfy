// The device's end of the link (src/device/device.cpp): reassembling a request from
// fragments, and sending the response back fragment by fragment.
module DeviceLink {
  import opened Text
  import opened Aaa
  import opened ProxyLink

  // The fields of Device that its receive loop updates; -1 means "not set".
  datatype Receiver = Receiver(session: Char, counter: Char, buffer: string)

  const IDLE_MARK: Char := -1

  ghost predicate Idle(r: Receiver) {
    r.session == IDLE_MARK && r.counter == IDLE_MARK
  }

  // The outcome of one packet: the new fields, the packet sent in answer, and the text handed
  // to ParseRequest when the packet carried the last fragment.
  datatype Received = Received(next: Receiver, answer: Packet, complete: Option<string>)

  /** One packet in Device::Run, up to the point where a complete request is handed over. */
  function Receive(r: Receiver, p: Packet): Received
  {
    var reset := r.(session := IDLE_MARK, counter := IDLE_MARK);
    var counter := if r.counter == IDLE_MARK then p.count as Char else r.counter;
    if counter as int != p.count then
      Received(reset, OnWire(Error, 0, p.session as Char, ErrorText(WrongCount)), None)
    else if p.ty != Data then
      Received(reset, OnWire(Error, p.count, r.session, ErrorText(WrongType)), None)
    else if r.session != IDLE_MARK && r.session as int != p.session then
      Received(reset, OnWire(Error, 0, r.session, ErrorText(WrongSession)), None)
    else
      var buffer := r.buffer + p.payload;
      var ack := OnWire(Ack, p.count, p.session as Char, "");
      if counter == 1 then Received(reset.(buffer := buffer), ack, Some(buffer))
      else Received(Receiver(p.session as Char, counter - 1, buffer), ack, None)
  }

  datatype RespondState =
    | Responding(i: nat, retries: nat)   // fragment i of the response has to be (re)sent
    | Finished                           // SendData has returned

  /** One pass of SendData's loop after its DATA packet went out. Any ACK counts, whatever its
      number and session. */
  function AfterAck(n: nat, i: nat, retries: nat, reply: Reply): RespondState
    requires i < n
  {
    if reply.Got? && reply.packet.ty == Ack then
      if i + 1 == n then Finished else Responding(i + 1, 0)
    else if reply.Got? && reply.packet.ty == Error then Finished
    else if retries >= MAX_RETRANSMISSIONS then Finished
    else Responding(i, retries + 1)
  }

  // A response being sent: its fragments, the session, and whether the DATA packet of fragment
  // i is out and a reply is awaited.
  datatype Response = Response(rs: seq<string>, session: Char, i: nat, retries: nat, waiting: bool)

  datatype RespondRun = RespondRun(state: RespondState, wire: seq<Packet>, left: seq<Reply>)

  /** SendData's loop from fragment i on, fed with the given replies. */
  function RunRespond(rs: seq<string>, session: Char, i: nat, retries: nat, replies: seq<Reply>): RespondRun
    requires i < |rs| <= MAX_COUNT
    decreases |replies|
  {
    var data := DataPacket(rs, session, i);
    if replies == [] then RespondRun(Responding(i, retries), [data], [])
    else
      match AfterAck(|rs|, i, retries, replies[0])
      case Responding(i', retries') =>
        var rest := RunRespond(rs, session, i', retries', replies[1..]);
        RespondRun(rest.state, [data] + rest.wire, rest.left)
      case Finished => RespondRun(Finished, [data], replies[1..])
  }

  /** Whatever the replies, SendData sends at most 13 packets per remaining fragment, one per
      reply while it goes on: it always stops. */
  lemma {:induction false} RespondBound(rs: seq<string>, session: Char, i: nat, retries: nat, replies: seq<Reply>)
    requires i < |rs| <= MAX_COUNT && retries <= MAX_RETRANSMISSIONS
    ensures var run := RunRespond(rs, session, i, retries, replies);
            && |run.wire| + retries <= (MAX_RETRANSMISSIONS + 1) * (|rs| - i)
            && DataSends(run.wire) == |run.wire|
            && (run.state.Responding? ==> |run.wire| == |replies| + 1)
    decreases |replies|
  {
    var data := DataPacket(rs, session, i);
    if replies == [] {
      assert DataSends([data]) == 1;
    } else {
      var next := AfterAck(|rs|, i, retries, replies[0]);
      if next.Responding? {
        RespondBound(rs, session, next.i, next.retries, replies[1..]);
      } else {
        assert DataSends([data]) == 1;
      }
    }
  }

  /** Hence 13 replies per fragment always end it. */
  lemma RespondTerminates(rs: seq<string>, session: Char, replies: seq<Reply>)
    requires 0 < |rs| <= MAX_COUNT && |replies| >= (MAX_RETRANSMISSIONS + 1) * |rs|
    ensures RunRespond(rs, session, 0, 0, replies).state == Finished
  {
    RespondBound(rs, session, 0, 0, replies);
  }

  // ---------- what a packet means ----------

  /** The expected DATA packet: any when idle, else the next one of the session. */
  predicate Expected(r: Receiver, p: Packet) {
    && p.ty == Data
    && (r.counter == -1 || r.counter as int == p.count)
    && (r.session == -1 || r.session as int == p.session)
  }

  /** An expected packet adds its payload and is acknowledged with its number and session; the one
      with number 1 completes the text. Any other packet resets session and counter, but not the
      text, and draws an ERROR with the code of the first thing that is wrong. */
  lemma ReceiveMeans(r: Receiver, p: Packet)
    ensures Expected(r, p) ==>
              && Receive(r, p).answer == Packet(Ack, p.count, p.session, "")
              && Receive(r, p).next.buffer == r.buffer + p.payload
              && (p.count == 1 ==> Idle(Receive(r, p).next) && Receive(r, p).complete == Some(r.buffer + p.payload))
              && (p.count != 1 ==>
                    && Receive(r, p).next.session as int == p.session && Receive(r, p).next.counter as int == p.count - 1
                    && Receive(r, p).complete == None)
    ensures !Expected(r, p) ==>
              && Receive(r, p).next == Receiver(-1, -1, r.buffer) && Receive(r, p).complete == None
              && Receive(r, p).answer
                 == if r.counter != -1 && r.counter as int != p.count then OnWire(Error, 0, p.session as Char, [2 as char])
                    else if p.ty != Data then OnWire(Error, p.count, r.session, [1 as char])
                    else OnWire(Error, 0, r.session, [3 as char])
  {
  }

  // ---------- how a response ends, by the replies ----------

  // Neither an acknowledgement nor an ERROR.
  predicate Silence(reply: Reply) {
    reply.Got? ==> reply.packet.ty != Ack && reply.packet.ty != Error
  }

  lemma OneAnswer(rs: seq<string>, session: Char, i: nat, retries: nat, reply: Reply, rest: seq<Reply>)
    requires i < |rs| <= MAX_COUNT
    ensures var next := AfterAck(|rs|, i, retries, reply);
            var run := RunRespond(rs, session, i, retries, [reply] + rest);
            if next.Responding? then
              var later := RunRespond(rs, session, next.i, next.retries, rest);
              run.state == later.state && run.left == later.left
            else run.state == Finished && run.left == rest
  {
    assert ([reply] + rest)[1..] == rest;
  }

  /** What is put on the wire: the fragment at which the loop stands, before each reply. */
  lemma RespondsWithTheFragment(rs: seq<string>, session: Char, i: nat, retries: nat, reply: Reply, rest: seq<Reply>)
    requires i < |rs| <= MAX_COUNT
    ensures var data := [OnWire(Data, |rs| - i, session, rs[i])];
            var next := AfterAck(|rs|, i, retries, reply);
            && RunRespond(rs, session, i, retries, []).wire == data
            && RunRespond(rs, session, i, retries, [reply] + rest).wire
               == data + if next.Responding? then RunRespond(rs, session, next.i, next.retries, rest).wire else []
  {
    assert ([reply] + rest)[1..] == rest;
    assert [OnWire(Data, |rs| - i, session, rs[i])] + [] == [OnWire(Data, |rs| - i, session, rs[i])];
  }

  /** At each fragment up to 12 other replies are borne, and the 13th ends the response, as does an
      ERROR; an acknowledgement, whatever its number and session, brings the next fragment. */
  lemma {:induction false} HowRespondingGoesOn(rs: seq<string>, session: Char, i: nat, retries: nat, noise: seq<Reply>,
                                               reply: Reply, rest: seq<Reply>)
    requires i < |rs| <= MAX_COUNT && retries + |noise| <= 12
    requires forall q :: 0 <= q < |noise| ==> Silence(noise[q])
    ensures var run := RunRespond(rs, session, i, retries, noise + ([reply] + rest));
            if reply.Got? && reply.packet.ty == Ack then
              if i + 1 == |rs| then run.state == Finished && run.left == rest
              else
                var later := RunRespond(rs, session, i + 1, 0, rest);
                run.state == later.state && run.left == later.left
            else if reply.Got? && reply.packet.ty == Error then run.state == Finished && run.left == rest
            else retries + |noise| == 12 ==> run.state == Finished && run.left == rest
    decreases |noise|
  {
    if noise == [] {
      assert noise + ([reply] + rest) == [reply] + rest;
      OneAnswer(rs, session, i, retries, reply, rest);
    } else {
      assert noise + ([reply] + rest) == [noise[0]] + (noise[1..] + ([reply] + rest));
      OneAnswer(rs, session, i, retries, noise[0], noise[1..] + ([reply] + rest));
      HowRespondingGoesOn(rs, session, i, retries + 1, noise[1..], reply, rest);
    }
  }
}
