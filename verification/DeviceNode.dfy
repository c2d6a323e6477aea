// The device's object is the node of the interleaved system: what one packet of a request, and the
// replies that follow it, make of the one, they make of the other (src/device/device.cpp).
module DeviceNode {
  import opened Text
  import opened HttpParse
  import opened HttpMessages
  import opened FileStore
  import opened Aaa
  import opened Fragments
  import opened ProxyLink
  import opened DeviceLink
  import opened Device
  import Exchange

  // The node sends what it has to send, and takes what the replies bring, until they are used up.
  datatype NodeRun = NodeRun(node: Exchange.Node<Files>, wire: seq<Packet>, left: seq<Reply>)

  ghost predicate Sends(node: Exchange.Node<Files>) {
    node.response.Some? ==> Exchange.InResponse(node, false)
  }

  ghost function Responds(node: Exchange.Node<Files>, replies: seq<Reply>): NodeRun
    requires Sends(node)
    decreases |replies|
  {
    if node.response == None then NodeRun(node, [], replies)
    else
      var (sent, data) := Exchange.NodeSend(node);
      if replies == [] then NodeRun(sent, [data], [])
      else
        var rest := Responds(Exchange.NodeAfter(sent, replies[0]), replies[1..]);
        NodeRun(rest.node, [data] + rest.wire, rest.left)
  }

  // The node once its response has come to this.
  function At(node: Exchange.Node<Files>, rs: seq<string>, session: Char, state: RespondState): Exchange.Node<Files> {
    node.(response := match state
                      case Responding(i, retries) => Some(Response(rs, session, i, retries, true))
                      case Finished => None)
  }

  lemma {:induction false} RespondsAlike(node: Exchange.Node<Files>, rs: seq<string>, session: Char, i: nat, retries: nat,
                                         replies: seq<Reply>)
    requires i < |rs| <= MAX_COUNT && node.response == Some(Response(rs, session, i, retries, false))
    ensures var run := RunRespond(rs, session, i, retries, replies);
            Responds(node, replies) == NodeRun(At(node, rs, session, run.state), run.wire, run.left)
    decreases |replies|
  {
    if replies != [] {
      var data := DataPacket(rs, session, i);
      var next := AfterAck(|rs|, i, retries, replies[0]);
      var after := Exchange.NodeAfter(Exchange.NodeSend(node).0, replies[0]);
      if next.Responding? {
        RespondsAlike(after, rs, session, next.i, next.retries, replies[1..]);
      } else {
        assert [data] + [] == [data];
      }
    }
  }

  // Device d of a system is one with these settings and this packet size.
  ghost predicate Runs(c: Exchange.Config<Files>, d: string, settings: Settings, max: nat) {
    && Exchange.WellFormed(c) && d in c.max && c.max[d] == max
    && forall files, text :: c.serve(d, files, text) == Serve(settings, files, text)
  }

  ghost function NodeOf(s: State, inbox: seq<Packet>): Exchange.Node<Files> {
    Exchange.Node(Receiver(s.session, s.counter, s.raw), None, s.files, inbox)
  }

  // The object is in the state of the node.
  ghost predicate Follows(t: State, stage: Stage, sent: seq<Packet>, run: NodeRun) {
    && t.files == run.node.store && t.raw == run.node.receiver.buffer
    && t.wire == sent + run.wire && t.replies == run.left
    && stage == (if run.node.response.Some? then Answering else Listening)
    && (stage == Listening ==> t.session == run.node.receiver.session && t.counter == run.node.receiver.counter)
  }

  // The node that has a response to send, if it has any fragment and no more than 127.
  ghost predicate Receives(node: Exchange.Node<Files>, rs: seq<string>, session: Char, store: Files) {
    && node.receiver == Receiver(IDLE_MARK, IDLE_MARK, "") && node.store == store
    && node.response == if 0 < |rs| <= MAX_COUNT then Some(Response(rs, session, 0, 0, false)) else None
  }

  lemma RespondsAll(node: Exchange.Node<Files>, rs: seq<string>, session: Char, replies: seq<Reply>)
    requires Receives(node, rs, session, node.store)
    ensures Sends(node)
    ensures var run := RespondAll(rs, session, replies);
            Responds(node, replies) == NodeRun(At(node, rs, session, run.state), run.wire, run.left)
  {
    if 0 < |rs| <= MAX_COUNT {
      RespondsAlike(node, rs, session, 0, 0, replies);
    }
  }

  lemma CompletesAsNode(settings: Settings, max: nat, s: State, text: string, served: (Files, string),
                        node: Exchange.Node<Files>)
    requires max > HEADER_SIZE && Serve(settings, s.files, text) == Some(served)
    requires Receives(node, Chunks(served.1, max - HEADER_SIZE), s.session, served.0)
    ensures Sends(node)
    ensures var (t, stage) := Complete(settings, max, s, text); Follows(t, stage, s.wire, Responds(node, s.replies))
  {
    RespondsAll(node, Chunks(served.1, max - HEADER_SIZE), s.session, s.replies);
  }

  lemma ServesAs(c: Exchange.Config<Files>, d: string, settings: Settings, max: nat, files: Files, text: string)
    requires Runs(c, d, settings, max)
    ensures c.serve(d, files, text) == Serve(settings, files, text)
  {
  }

  lemma TakesOn(settings: Settings, max: nat, s: State, p: Packet, node: Exchange.Node<Files>)
    requires max > HEADER_SIZE
    requires var r := Receive(Receiver(s.session, s.counter, s.raw), p);
             && (r.complete == None || Serve(settings, s.files, r.complete.value) == None)
             && node.receiver == r.next
    requires node.store == s.files && node.response == None
    ensures var (t, stage) := Take(settings, max, s, p);
            var r := Receive(Receiver(s.session, s.counter, s.raw), p);
            stage != Hung ==> Follows(t, stage, s.wire + [r.answer], NodeRun(node, [], s.replies))
  {
  }

  lemma TakesLast(settings: Settings, max: nat, s: State, p: Packet, text: string, served: (Files, string),
                  node: Exchange.Node<Files>)
    requires max > HEADER_SIZE && Serve(settings, s.files, text) == Some(served)
    requires Receive(Receiver(s.session, s.counter, s.raw), p).complete == Some(text)
    requires Receives(node, Chunks(served.1, max - HEADER_SIZE), p.session as Char, served.0)
    ensures Sends(node)
    ensures var (t, stage) := Take(settings, max, s, p);
            var r := Receive(Receiver(s.session, s.counter, s.raw), p);
            Follows(t, stage, s.wire + [r.answer], Responds(node, s.replies))
  {
    var r := Receive(Receiver(s.session, s.counter, s.raw), p);
    var at := State(p.session as Char, 1, r.next.buffer, s.files, s.wire + [r.answer], s.replies);
    TakesComplete(settings, max, s, p, text, at);
    CompletesAsNode(settings, max, at, text, served, node);
  }

  lemma TakesComplete(settings: Settings, max: nat, s: State, p: Packet, text: string, at: State)
    requires max > HEADER_SIZE
    requires var r := Receive(Receiver(s.session, s.counter, s.raw), p);
             && r.complete == Some(text)
             && at == State(p.session as Char, 1, r.next.buffer, s.files, s.wire + [r.answer], s.replies)
    ensures Take(settings, max, s, p) == Complete(settings, max, at, text)
  {
  }

  // The object and the node after the packet.
  ghost predicate TakenAlike(settings: Settings, max: nat, s: State, p: Packet, node: Exchange.Node<Files>, answer: Packet)
    requires max > HEADER_SIZE
  {
    var (t, stage) := Take(settings, max, s, p);
    Sends(node) && (stage != Hung ==> Follows(t, stage, s.wire + [answer], Responds(node, s.replies)))
  }

  // What the node becomes that takes a packet, by what its text is served with.
  ghost predicate Taken(max: nat, store: Files, r: Received, p: Packet, served: Option<(Files, string)>,
                        node: Exchange.Node<Files>)
    requires max > HEADER_SIZE
  {
    match served
    case None => node.receiver == r.next && node.store == store && node.response == None
    case Some((after, response)) => Receives(node, Chunks(response, max - HEADER_SIZE), p.session as Char, after)
  }

  lemma NodeTakes(c: Exchange.Config<Files>, d: string, before: Exchange.Node<Files>, p: Packet, inbox: seq<Packet>,
                  served: Option<(Files, string)>)
    requires Exchange.WellFormed(c) && d in c.max && before.inbox == [p] + inbox && before.response == None
    requires served == match Receive(before.receiver, p).complete
                       case Some(text) => c.serve(d, before.store, text)
                       case None => None
    ensures var (node, answer) := Exchange.NodeReceive(c, d, before);
            && answer == Receive(before.receiver, p).answer && node.inbox == inbox
            && Taken(c.max[d], before.store, Receive(before.receiver, p), p, served, node)
  {
    assert ([p] + inbox)[1..] == inbox;
  }

  lemma TakesEither(settings: Settings, max: nat, s: State, p: Packet, text: string, served: Option<(Files, string)>,
                    node: Exchange.Node<Files>)
    requires max > HEADER_SIZE
    requires Receive(Receiver(s.session, s.counter, s.raw), p).complete == Some(text)
    requires served == Serve(settings, s.files, text)
    requires Taken(max, s.files, Receive(Receiver(s.session, s.counter, s.raw), p), p, served, node)
    ensures TakenAlike(settings, max, s, p, node, Receive(Receiver(s.session, s.counter, s.raw), p).answer)
  {
    match served
    case None => TakesOn(settings, max, s, p, node);
    case Some(value) => TakesLast(settings, max, s, p, text, value, node);
  }

  /** One packet in Run, with any replies: unless the parser hangs, the object puts the packets on
      the wire that the node sends, and ends with its text, files, marks and response. */
  lemma TakesAsNode(c: Exchange.Config<Files>, d: string, settings: Settings, max: nat, s: State, p: Packet,
                    inbox: seq<Packet>)
    requires Runs(c, d, settings, max)
    ensures var (node, answer) := Exchange.NodeReceive(c, d, NodeOf(s, [p] + inbox));
            node.inbox == inbox && TakenAlike(settings, max, s, p, node, answer)
  {
    var before := NodeOf(s, [p] + inbox);
    match Receive(before.receiver, p).complete
    case None =>
      NodeTakes(c, d, before, p, inbox, None);
      TakesOn(settings, max, s, p, Exchange.NodeReceive(c, d, before).0);
    case Some(text) =>
      ServesAs(c, d, settings, max, s.files, text);
      NodeTakes(c, d, before, p, inbox, Serve(settings, s.files, text));
      TakesEither(settings, max, s, p, text, Serve(settings, s.files, text), Exchange.NodeReceive(c, d, before).0);
  }
}
