// Many requests to many devices over reliable first-in-first-out channels: as long as no receive
// timeout fires while anything else can still happen, the interleaved system of one proxy and its
// devices refines one plain call of the handler per request.
module Exchange {
  import opened Text
  import opened Aaa
  import opened Fragments
  import opened ProxyLink
  import opened DeviceLink

  datatype Request = Request(device: string, text: string)

  // max: the configured max_aaa_size of each device. serve: what the device's ParseRequest and
  // HandleRequest make of a text, None when it does not parse.
  datatype Config<!S> = Config(
    max: map<string, nat>,
    stores: map<string, S>,
    serve: (string, S, string) -> Option<(S, string)>,
    requests: seq<Request>,
    badGateway: string)

  // ---------- the specification: one call per request ----------

  ghost predicate Routed<S>(c: Config<S>, k: nat)
    requires k < |c.requests|
  {
    c.requests[k].device in c.max
  }

  ghost predicate WellFormed<S>(c: Config<S>) {
    && c.stores.Keys == c.max.Keys
    && forall d :: d in c.max ==> c.max[d] > HEADER_SIZE
  }

  /** The devices' stores after the first k requests. */
  ghost function StoresAfter<S>(c: Config<S>, k: nat): (stores: map<string, S>)
    requires WellFormed(c) && k <= |c.requests|
    ensures stores.Keys == c.max.Keys
  {
    if k == 0 then c.stores
    else
      var before := StoresAfter(c, k - 1);
      var r := c.requests[k - 1];
      if !Routed(c, k - 1) then before
      else
        match c.serve(r.device, before[r.device], r.text)
        case Some(served) => before[r.device := served.0]
        case None => before
  }

  ghost function Served<S>(c: Config<S>, k: nat): Option<(S, string)>
    requires WellFormed(c) && k < |c.requests| && Routed(c, k)
  {
    var r := c.requests[k];
    c.serve(r.device, StoresAfter(c, k)[r.device], r.text)
  }

  lemma NextStore<S>(c: Config<S>, k: nat, d: string)
    requires WellFormed(c) && k < |c.requests| && d in c.max
    requires Routed(c, k) ==> Served(c, k).Some?
    ensures StoresAfter(c, k + 1)[d]
            == if c.requests[k].device == d then Served(c, k).value.0 else StoresAfter(c, k)[d]
  {
  }

  ghost function ResponseTo<S>(c: Config<S>, k: nat): string
    requires WellFormed(c) && k < |c.requests|
  {
    if !Routed(c, k) then c.badGateway
    else match Served(c, k) case Some(served) => served.1 case None => ""
  }

  /** How many of the first k requests go to device d. */
  ghost function Uses<S>(c: Config<S>, k: nat, d: string): nat
    requires k <= |c.requests|
  {
    if k == 0 then 0 else Uses(c, k - 1, d) + (if c.requests[k - 1].device == d then 1 else 0)
  }

  ghost predicate FitsFragments(text: string, max: nat)
    requires max > HEADER_SIZE
  {
    0 < |Chunks(text, max - HEADER_SIZE)| <= MAX_COUNT
  }

  // A routed request parses, and it and its response have at most 127 fragments.
  ghost predicate Servable<S>(c: Config<S>, k: nat)
    requires WellFormed(c) && k < |c.requests|
  {
    Routed(c, k) ==>
      && FitsFragments(c.requests[k].text, c.max[c.requests[k].device])
      && Served(c, k).Some?
      && FitsFragments(Served(c, k).value.1, c.max[c.requests[k].device])
  }

  // Servable requests, at most 127 of them per device.
  ghost predicate Good<S>(c: Config<S>) {
    && WellFormed(c)
    && (forall d :: d in c.max ==> Uses(c, |c.requests|, d) <= 127)
    && forall k :: 0 <= k < |c.requests| ==> Servable(c, k)
  }

  type GoodConfig<!S> = c: Config<S> | Good(c)
    ghost witness Config(map[], map[], (d: string, s: S, text: string) => None, [], "")

  // ---------- the interleaved system ----------

  // A device with the channel that leads to it.
  datatype Node<!S> = Node(receiver: Receiver, response: Option<Response>, store: S, inbox: seq<Packet>)

  datatype Phase =
    | Ready                                      // waiting for a client
    | Busy(send: SendState, waiting: bool)       // in SendDataDevice
    | Collecting(text: string)                   // in ReceiveDataDevice
    | Failed                                     // an exception was thrown

  datatype World<!S> = World(
    phase: Phase, sessions: map<string, Char>, responses: seq<string>,
    nodes: map<string, Node<S>>, toProxy: seq<Packet>)

  datatype Action =
    | Start | ProxySend | ProxyAck | ProxyCollect
    | DeviceReceive(d: string) | DeviceSend(d: string) | DeviceReply(d: string)
    | ProxyTimeout | DeviceTimeout(d: string)

  predicate IsTimeout(a: Action) {
    a.ProxyTimeout? || a.DeviceTimeout?
  }

  /** The node takes a packet of a request from its inbox; the packet it answers with. */
  ghost function NodeReceive<S>(c: Config<S>, d: string, node: Node<S>): (Node<S>, Packet)
    requires WellFormed(c) && d in c.max && node.inbox != []
  {
    var p := node.inbox[0];
    var r := Receive(node.receiver, p);
    var popped := node.(receiver := r.next, inbox := node.inbox[1..]);
    var served := if r.complete.Some? then c.serve(d, node.store, r.complete.value) else None;
    if served.Some? then
      var rs := Chunks(served.value.1, c.max[d] - HEADER_SIZE);
      var response := if 0 < |rs| <= MAX_COUNT then Some(Response(rs, p.session as Char, 0, 0, false)) else None;
      (popped.(receiver := r.next.(buffer := ""), store := served.value.0, response := response), r.answer)
    else (popped, r.answer)
  }

  ghost predicate InResponse<S>(node: Node<S>, waiting: bool) {
    && node.response.Some? && node.response.value.waiting == waiting
    && node.response.value.i < |node.response.value.rs| <= MAX_COUNT
  }

  /** The node sends a fragment of its response. */
  ghost function NodeSend<S>(node: Node<S>): (Node<S>, Packet)
    requires InResponse(node, false)
  {
    var r := node.response.value;
    (node.(response := Some(r.(waiting := true))), DataPacket(r.rs, r.session, r.i))
  }

  /** The node, in its response, gets a reply or times out. */
  ghost function NodeAfter<S>(node: Node<S>, reply: Reply): Node<S>
    requires InResponse(node, true)
  {
    var r := node.response.value;
    var next := AfterAck(|r.rs|, r.i, r.retries, reply);
    node.(response := if next.Responding? then Some(r.(i := next.i, retries := next.retries, waiting := false)) else None)
  }

  /** The node, in its response, takes a packet from its inbox. */
  ghost function NodeReply<S>(node: Node<S>): Node<S>
    requires InResponse(node, true) && node.inbox != []
  {
    NodeAfter(node, Got(node.inbox[0])).(inbox := node.inbox[1..])
  }

  /** Where SendDataDevice's caller goes from a state of the send loop. */
  function AfterSend(next: SendState): Phase {
    if next.Sending? then Busy(next, false) else if next.Sent? then Collecting("") else Failed
  }

  ghost predicate Consistent<S>(c: Config<S>, w: World<S>) {
    && WellFormed(c)
    && w.nodes.Keys == c.max.Keys && w.sessions.Keys == c.max.Keys
    && |w.responses| <= |c.requests|
    && (w.phase != Ready ==> |w.responses| < |c.requests| && Routed(c, |w.responses|))
  }

  ghost function Current<S>(c: Config<S>, w: World<S>): (d: string)
    requires Consistent(c, w) && w.phase != Ready
    ensures d in c.max
  {
    c.requests[|w.responses|].device
  }

  ghost function RequestChunks<S>(c: Config<S>, k: nat): seq<string>
    requires WellFormed(c) && k < |c.requests| && Routed(c, k)
  {
    Chunks(c.requests[k].text, c.max[c.requests[k].device] - HEADER_SIZE)
  }

  ghost predicate MaySend<S>(c: Config<S>, w: World<S>, waiting: bool)
    requires Consistent(c, w)
  {
    && w.phase.Busy? && w.phase.waiting == waiting && w.phase.send.Sending?
    && w.phase.send.i < |RequestChunks(c, |w.responses|)| <= MAX_COUNT
  }

  ghost predicate Enabled<S>(c: Config<S>, w: World<S>, a: Action)
    requires Consistent(c, w)
  {
    match a
    case Start => w.phase == Ready && |w.responses| < |c.requests|
                  && (Routed(c, |w.responses|) ==> w.sessions[c.requests[|w.responses|].device] < 127)
    case ProxySend => MaySend(c, w, false)
    case ProxyAck => MaySend(c, w, true) && w.toProxy != []
    case ProxyCollect => w.phase.Collecting? && w.toProxy != []
    case DeviceReceive(d) => d in w.nodes && w.nodes[d].response == None && w.nodes[d].inbox != []
    case DeviceSend(d) => d in w.nodes && InResponse(w.nodes[d], false)
    case DeviceReply(d) => d in w.nodes && InResponse(w.nodes[d], true) && w.nodes[d].inbox != []
    case ProxyTimeout => MaySend(c, w, true)
    case DeviceTimeout(d) => d in w.nodes && InResponse(w.nodes[d], true)
  }

  ghost function Post<S>(node: Node<S>, packets: seq<Packet>): Node<S> {
    node.(inbox := node.inbox + packets)
  }

  /** The proxy takes up the next request: SetDeviceSocket, then SendDataDevice up to its loop. */
  ghost function Started<S>(c: Config<S>, w: World<S>): World<S>
    requires Consistent(c, w) && Enabled(c, w, Start)
  {
    var k := |w.responses|;
    var d := c.requests[k].device;
    if d !in c.max then w.(responses := w.responses + [c.badGateway])
    else
      w.(sessions := w.sessions[d := w.sessions[d] + 1],
         phase := if 0 < |RequestChunks(c, k)| <= MAX_COUNT then Busy(Sending(0, 0), false) else Collecting(""))
  }

  ghost function Apply<S>(c: Config<S>, w: World<S>, a: Action): (w': World<S>)
    requires Consistent(c, w) && Enabled(c, w, a)
    ensures Consistent(c, w')
  {
    match a
    case Start => Started(c, w)
    case ProxySend =>
      var d := Current(c, w);
      var data := DataPacket(RequestChunks(c, |w.responses|), w.sessions[d], w.phase.send.i);
      w.(phase := w.phase.(waiting := true), nodes := w.nodes[d := Post(w.nodes[d], [data])])
    case ProxyAck =>
      var d := Current(c, w);
      var (next, answer) := AfterReply(|RequestChunks(c, |w.responses|)|, w.sessions[d],
                                       w.phase.send.i, w.phase.send.retries, Got(w.toProxy[0]));
      w.(phase := AfterSend(next), toProxy := w.toProxy[1..], nodes := w.nodes[d := Post(w.nodes[d], answer)])
    case ProxyCollect =>
      var d := Current(c, w);
      var rest := w.(toProxy := w.toProxy[1..]);
      (match AfterData(w.sessions[d], w.phase.text, w.toProxy[0])
       case None => rest.(phase := Failed)
       case Some((text, answer, done)) =>
         var sent := rest.(nodes := w.nodes[d := Post(w.nodes[d], answer)]);
         if done then sent.(phase := Ready, responses := w.responses + [text])
         else sent.(phase := Collecting(text)))
    case DeviceReceive(d) =>
      var (node, answer) := NodeReceive(c, d, w.nodes[d]);
      w.(nodes := w.nodes[d := node], toProxy := w.toProxy + [answer])
    case DeviceSend(d) =>
      var (node, data) := NodeSend(w.nodes[d]);
      w.(nodes := w.nodes[d := node], toProxy := w.toProxy + [data])
    case DeviceReply(d) =>
      w.(nodes := w.nodes[d := NodeReply(w.nodes[d])])
    case ProxyTimeout =>
      var d := Current(c, w);
      w.(phase := AfterSend(AfterReply(|RequestChunks(c, |w.responses|)|, w.sessions[d],
                                       w.phase.send.i, w.phase.send.retries, Timeout).0))
    case DeviceTimeout(d) =>
      w.(nodes := w.nodes[d := NodeAfter(w.nodes[d], Timeout)])
  }

  // Idle with an empty buffer.
  ghost predicate Quiet<S>(node: Node<S>) {
    Idle(node.receiver) && node.receiver.buffer == "" && node.response == None
  }

  ghost predicate Initial<S>(c: Config<S>, w: World<S>) {
    && WellFormed(c)
    && w.nodes.Keys == c.max.Keys && w.sessions.Keys == c.max.Keys
    && w.phase == Ready && w.responses == [] && w.toProxy == []
    && forall d :: d in c.max ==>
         w.sessions[d] == 0 && Quiet(w.nodes[d]) && w.nodes[d].inbox == [] && w.nodes[d].store == c.stores[d]
  }

  ghost predicate Steps<S>(c: Config<S>, w: World<S>, actions: seq<Action>, t: World<S>)
    requires Consistent(c, w)
    decreases |actions|
  {
    if actions == [] then w == t
    else Enabled(c, w, actions[0]) && Steps(c, Apply(c, w, actions[0]), actions[1..], t)
  }

  /** A timeout is in time when nothing else can happen. */
  ghost predicate InTime<S>(c: Config<S>, w: World<S>, a: Action)
    requires Consistent(c, w)
  {
    IsTimeout(a) ==> forall b :: Enabled(c, w, b) ==> IsTimeout(b)
  }

  // A run in which no timeout fires early.
  ghost predicate TimelySteps<S>(c: Config<S>, w: World<S>, actions: seq<Action>, t: World<S>)
    requires Consistent(c, w)
    decreases |actions|
  {
    if actions == [] then w == t
    else
      && Enabled(c, w, actions[0]) && InTime(c, w, actions[0])
      && TimelySteps(c, Apply(c, w, actions[0]), actions[1..], t)
  }

  // ---------- the invariant ----------

  ghost predicate LastAwaited(r: Option<Response>) {
    r.Some? && r.value.waiting && r.value.i + 1 == |r.value.rs| <= MAX_COUNT
  }

  // The node is done with every earlier request, except that the acknowledgement of its last
  // response may still be on the way to it, ahead of the packets in tail.
  ghost predicate Behind<S>(node: Node<S>, tail: seq<Packet>) {
    && Idle(node.receiver) && node.receiver.buffer == ""
    && (|| (node.response == None && node.inbox == tail)
        || (LastAwaited(node.response) && node.inbox != [] && node.inbox[0].ty == Ack && node.inbox[1..] == tail))
  }

  // The node has accepted the first i fragments; tail is in its inbox.
  ghost predicate Expecting<S>(cs: seq<string>, session: Char, node: Node<S>, i: nat, tail: seq<Packet>)
    requires i < |cs| <= MAX_COUNT
  {
    if i == 0 then Behind(node, tail)
    else
      && node.response == None && node.inbox == tail
      && node.receiver == Receiver(session, (|cs| - i) as Char, Concat(cs[..i]))
  }

  // The node sends fragment i of its response.
  ghost predicate Answering<S>(rs: seq<string>, session: Char, node: Node<S>, i: nat, waiting: bool) {
    && Idle(node.receiver) && node.receiver.buffer == ""
    && node.response == Some(Response(rs, session, i, 0, waiting))
  }

  // An exchange with one device: the request's fragments, its session, the response's fragments,
  // and the device's store before and after.
  datatype Talk<!S> = Talk(cs: seq<string>, session: Char, rs: seq<string>, before: S, after: S)

  ghost predicate GoodTalk<S>(t: Talk<S>) {
    0 < |t.cs| <= MAX_COUNT && 0 < |t.rs| <= MAX_COUNT && t.session >= 0
  }

  // The proxy is in SendDataDevice at fragment i: its last packet is on the way or answered.
  ghost predicate BusyInv<S>(t: Talk<S>, i: nat, waiting: bool, toProxy: seq<Packet>, node: Node<S>)
    requires GoodTalk(t) && i < |t.cs|
  {
    var ack := OnWire(Ack, |t.cs| - i, t.session, "");
    if !waiting then
      toProxy == [] && Expecting(t.cs, t.session, node, i, []) && node.store == t.before
    else
      || (toProxy == [] && Expecting(t.cs, t.session, node, i, [DataPacket(t.cs, t.session, i)]) && node.store == t.before)
      || (i + 1 < |t.cs| && toProxy == [ack] && Expecting(t.cs, t.session, node, i + 1, []) && node.store == t.before)
      || (i + 1 == |t.cs| && toProxy == [ack] && node.inbox == []
          && Answering(t.rs, t.session, node, 0, false) && node.store == t.after)
      || (i + 1 == |t.cs| && toProxy == [ack, DataPacket(t.rs, t.session, 0)] && node.inbox == []
          && Answering(t.rs, t.session, node, 0, true) && node.store == t.after)
  }

  // The proxy is in ReceiveDataDevice.
  ghost predicate CollectingInv<S>(t: Talk<S>, text: string, toProxy: seq<Packet>, node: Node<S>)
    requires GoodTalk(t)
  {
    && node.response.Some? && node.response.value.i < |t.rs| && node.store == t.after
    && var r := node.response.value;
       && Answering(t.rs, t.session, node, r.i, r.waiting)
       && (|| (!r.waiting && toProxy == [] && node.inbox == [] && text == Concat(t.rs[..r.i]))
           || (r.waiting && toProxy == [DataPacket(t.rs, t.session, r.i)] && node.inbox == [] && text == Concat(t.rs[..r.i]))
           || (r.waiting && r.i + 1 < |t.rs| && toProxy == [] && |node.inbox| == 1 && node.inbox[0].ty == Ack
               && text == Concat(t.rs[..r.i + 1])))
  }

  ghost predicate LinkInv<S>(t: Talk<S>, phase: Phase, toProxy: seq<Packet>, node: Node<S>)
    requires GoodTalk(t)
  {
    match phase
    case Busy(Sending(i, retries), waiting) => retries == 0 && i < |t.cs| && BusyInv(t, i, waiting, toProxy, node)
    case Collecting(text) => CollectingInv(t, text, toProxy, node)
    case _ => false
  }

  // ---------- one step between the proxy and one node ----------

  lemma LinkSend<S>(t: Talk<S>, send: SendState, toProxy: seq<Packet>, node: Node<S>)
    requires GoodTalk(t) && LinkInv(t, Busy(send, false), toProxy, node)
    ensures LinkInv(t, Busy(send, true), toProxy, Post(node, [DataPacket(t.cs, t.session, send.i)]))
  {
  }

  lemma LinkAck<S>(t: Talk<S>, send: SendState, toProxy: seq<Packet>, node: Node<S>)
    requires GoodTalk(t) && LinkInv(t, Busy(send, true), toProxy, node) && toProxy != []
    ensures var (next, answer) := AfterReply(|t.cs|, t.session, send.i, send.retries, Got(toProxy[0]));
            answer == [] && LinkInv(t, AfterSend(next), toProxy[1..], node)
  {
    assert t.rs[..0] == [];
  }

  lemma LinkCollect<S>(t: Talk<S>, text: string, toProxy: seq<Packet>, node: Node<S>)
    requires GoodTalk(t) && LinkInv(t, Collecting(text), toProxy, node) && toProxy != []
    ensures var after := AfterData(t.session, text, toProxy[0]);
            && after.Some?
            && var (text', answer, done) := after.value;
               && toProxy[1..] == []
               && (!done ==> LinkInv(t, Collecting(text'), [], Post(node, answer)))
               && (done ==> text' == Concat(t.rs) && Behind(Post(node, answer), []) && node.store == t.after)
  {
    var i := node.response.value.i;
    assert t.rs[..i + 1] == t.rs[..i] + [t.rs[i]];
    ConcatSnoc(t.rs[..i], t.rs[i]);
    assert i + 1 == |t.rs| ==> t.rs[..i + 1] == t.rs;
  }

  lemma ReceiveStep<S>(t: Talk<S>, i: nat, toProxy: seq<Packet>, node: Node<S>)
    requires GoodTalk(t) && i < |t.cs| && BusyInv(t, i, true, toProxy, node)
    requires node.response == None && node.inbox != []
    ensures toProxy == [] && node.inbox[1..] == [] && node.inbox[0].session == t.session as int && node.store == t.before
    ensures var r := Receive(node.receiver, node.inbox[0]);
            && r.answer == OnWire(Ack, |t.cs| - i, t.session, "")
            && (i + 1 < |t.cs| ==> r.complete == None)
            && (i + 1 < |t.cs| ==> Expecting(t.cs, t.session, node.(receiver := r.next, inbox := []), i + 1, []))
            && (i + 1 == |t.cs| ==> Idle(r.next) && r.complete == Some(Concat(t.cs)))
  {
    assert t.cs[..0] == [];
    assert t.cs[..i + 1] == t.cs[..i] + [t.cs[i]];
    ConcatSnoc(t.cs[..i], t.cs[i]);
    assert i + 1 == |t.cs| ==> t.cs[..i + 1] == t.cs;
  }

  lemma LinkReceive<S>(c: Config<S>, d: string, text: string, t: Talk<S>, phase: Phase, toProxy: seq<Packet>, node: Node<S>)
    requires WellFormed(c) && d in c.max && GoodTalk(t)
    requires LinkInv(t, phase, toProxy, node) && node.response == None && node.inbox != []
    requires t.cs == Chunks(text, c.max[d] - HEADER_SIZE)
    requires var served := c.serve(d, t.before, text);
             served.Some? && served.value.0 == t.after && Chunks(served.value.1, c.max[d] - HEADER_SIZE) == t.rs
    ensures var (node', answer) := NodeReceive(c, d, node);
            LinkInv(t, phase, toProxy + [answer], node')
  {
    ReceiveStep(t, phase.send.i, toProxy, node);
    ChunksShape(text, c.max[d] - HEADER_SIZE);
  }

  lemma LinkNodeSend<S>(t: Talk<S>, phase: Phase, toProxy: seq<Packet>, node: Node<S>)
    requires GoodTalk(t) && LinkInv(t, phase, toProxy, node) && InResponse(node, false)
    ensures var (node', data) := NodeSend(node);
            LinkInv(t, phase, toProxy + [data], node')
  {
  }

  lemma LinkNodeReply<S>(t: Talk<S>, phase: Phase, toProxy: seq<Packet>, node: Node<S>)
    requires GoodTalk(t) && LinkInv(t, phase, toProxy, node) && InResponse(node, true) && node.inbox != []
    ensures LinkInv(t, phase, toProxy, NodeReply(node))
  {
    if phase.Busy? {
      Drain(node, node.inbox[1..]);
    }
  }

  // The acknowledgement that a node was still waiting for reaches it.
  lemma Drain<S>(node: Node<S>, tail: seq<Packet>)
    requires Behind(node, tail) && node.response.Some?
    ensures InResponse(node, true) && node.inbox != []
    ensures Behind(NodeReply(node), tail) && NodeReply(node).response == None && NodeReply(node).store == node.store
  {
  }

  // ---------- the whole system ----------

  ghost function TalkAbout<S>(c: GoodConfig<S>, k: nat, session: Char): (t: Talk<S>)
    requires k < |c.requests| && Routed(c, k)
    ensures session >= 0 ==> GoodTalk(t)
  {
    assert Servable(c, k);
    var d := c.requests[k].device;
    Talk(RequestChunks(c, k), session, Chunks(Served(c, k).value.1, c.max[d] - HEADER_SIZE),
         StoresAfter(c, k)[d], Served(c, k).value.0)
  }

  ghost predicate CurrentInv<S>(c: GoodConfig<S>, k: nat, session: Char, phase: Phase, toProxy: seq<Packet>, node: Node<S>)
    requires k < |c.requests| && Routed(c, k)
  {
    && session as int == Uses(c, k, c.requests[k].device) + 1
    && LinkInv(TalkAbout(c, k, session), phase, toProxy, node)
  }

  // A device between requests.
  ghost predicate ElsewhereInv<S>(c: GoodConfig<S>, k: nat, d: string, session: Char, node: Node<S>)
    requires k <= |c.requests| && d in c.max
  {
    session as int == Uses(c, k, d) && Behind(node, []) && node.store == StoresAfter(c, k)[d]
  }

  ghost predicate Inv<S>(c: GoodConfig<S>, w: World<S>) {
    && Consistent(c, w)
    && var k := |w.responses|;
       && (w.phase == Ready ==> w.toProxy == [])
       && (w.phase != Ready ==>
             CurrentInv(c, k, w.sessions[Current(c, w)], w.phase, w.toProxy, w.nodes[Current(c, w)]))
       && (forall j :: 0 <= j < k ==> w.responses[j] == ResponseTo(c, j))
       && (forall d :: d in c.max && (w.phase == Ready || d != Current(c, w)) ==>
             ElsewhereInv(c, k, d, w.sessions[d], w.nodes[d]))
  }

  lemma InitInv<S>(c: GoodConfig<S>, w: World<S>)
    requires Initial(c, w)
    ensures Inv(c, w)
  {
  }

  lemma {:induction false} UsesMonotone<S>(c: GoodConfig<S>, k: nat, m: nat, d: string)
    requires k <= m <= |c.requests|
    ensures Uses(c, k, d) <= Uses(c, m, d)
    decreases m
  {
    if k < m {
      UsesMonotone(c, k, m - 1, d);
    }
  }

  // Other devices are not affected by request k.
  lemma ElsewhereNext<S>(c: GoodConfig<S>, k: nat, d: string, session: Char, node: Node<S>)
    requires k < |c.requests| && d in c.max && c.requests[k].device != d
    requires ElsewhereInv(c, k, d, session, node)
    ensures ElsewhereInv(c, k + 1, d, session, node)
  {
  }

  lemma Fits<S>(c: GoodConfig<S>, k: nat)
    requires k < |c.requests| && Routed(c, k)
    ensures 0 < |RequestChunks(c, k)| <= MAX_COUNT
  {
    assert Servable(c, k);
  }

  lemma StartLink<S>(c: GoodConfig<S>, k: nat, session: Char, node: Node<S>)
    requires k < |c.requests| && Routed(c, k) && session < 127
    requires ElsewhereInv(c, k, c.requests[k].device, session, node)
    ensures 0 < |RequestChunks(c, k)| <= MAX_COUNT
    ensures CurrentInv(c, k, session + 1, Busy(Sending(0, 0), false), [], node)
  {
    assert Servable(c, k);
  }

  // The proxy has set out on a request to a configured device.
  lemma StartRoutedInv<S>(c: GoodConfig<S>, w: World<S>, w': World<S>, d: string)
    requires Inv(c, w) && w.phase == Ready && |w.responses| < |c.requests| && Routed(c, |w.responses|)
    requires d == c.requests[|w.responses|].device && w.sessions[d] < 127
    requires w' == w.(sessions := w.sessions[d := w.sessions[d] + 1], phase := Busy(Sending(0, 0), false))
    ensures Inv(c, w')
  {
    var k := |w.responses|;
    assert ElsewhereInv(c, k, d, w.sessions[d], w.nodes[d]);
    StartLink(c, k, w.sessions[d], w.nodes[d]);
    assert w'.sessions[d] == w.sessions[d] + 1;
    forall e | e in c.max && e != d
      ensures ElsewhereInv(c, k, e, w'.sessions[e], w'.nodes[e])
    {
      assert ElsewhereInv(c, k, e, w.sessions[e], w.nodes[e]);
    }
  }

  // The proxy has refused a request for an unknown device.
  lemma StartUnroutedInv<S>(c: GoodConfig<S>, w: World<S>, w': World<S>)
    requires Inv(c, w) && w.phase == Ready && |w.responses| < |c.requests| && !Routed(c, |w.responses|)
    requires w' == w.(responses := w.responses + [c.badGateway])
    ensures Inv(c, w')
  {
    var k := |w.responses|;
    forall e | e in c.max
      ensures ElsewhereInv(c, k + 1, e, w.sessions[e], w.nodes[e])
    {
      var session, node := w.sessions[e], w.nodes[e];
      assert ElsewhereInv(c, k, e, session, node);
      ElsewhereNext(c, k, e, session, node);
    }
    ResponsesExtend(c, w.responses);
  }

  // The proxy starts on a request, which has fragments, and no more than 127.
  lemma RoutedStep<S>(c: GoodConfig<S>, w: World<S>, d: string) returns (w': World<S>)
    requires Consistent(c, w) && Enabled(c, w, Start) && d == c.requests[|w.responses|].device && d in c.max
    ensures w' == Started(c, w)
    ensures w' == w.(sessions := w.sessions[d := w.sessions[d] + 1], phase := Busy(Sending(0, 0), false))
  {
    Fits(c, |w.responses|);
    w' := Started(c, w);
  }

  lemma UnroutedStep<S>(c: Config<S>, w: World<S>) returns (w': World<S>)
    requires Consistent(c, w) && Enabled(c, w, Start) && !Routed(c, |w.responses|)
    ensures w' == Started(c, w) && w' == w.(responses := w.responses + [c.badGateway])
  {
    w' := Started(c, w);
  }

  lemma StartInv<S>(c: GoodConfig<S>, w: World<S>)
    requires Inv(c, w) && Enabled(c, w, Start)
    ensures Inv(c, Apply(c, w, Start))
  {
    if Routed(c, |w.responses|) {
      var d := c.requests[|w.responses|].device;
      var w' := RoutedStep(c, w, d);
      StartRoutedInv(c, w, w', d);
    } else {
      var w' := UnroutedStep(c, w);
      StartUnroutedInv(c, w, w');
    }
  }

  lemma CollectLink<S>(c: GoodConfig<S>, k: nat, session: Char, text: string, toProxy: seq<Packet>, node: Node<S>)
    requires k < |c.requests| && Routed(c, k) && toProxy != []
    requires CurrentInv(c, k, session, Collecting(text), toProxy, node)
    ensures var after := AfterData(session, text, toProxy[0]);
            && after.Some? && toProxy[1..] == []
            && var (text', answer, done) := after.value;
               && (!done ==> CurrentInv(c, k, session, Collecting(text'), [], Post(node, answer)))
               && (done ==> text' == ResponseTo(c, k)
                            && ElsewhereInv(c, k + 1, c.requests[k].device, session, Post(node, answer)))
  {
    assert Servable(c, k);
    var t := TalkAbout(c, k, session);
    LinkCollect(t, text, toProxy, node);
    ChunksShape(Served(c, k).value.1, c.max[c.requests[k].device] - HEADER_SIZE);
    assert Concat(t.rs) == ResponseTo(c, k);
  }

  lemma ProxyCollectInv<S>(c: GoodConfig<S>, w: World<S>)
    requires Inv(c, w) && Enabled(c, w, ProxyCollect)
    ensures Inv(c, Apply(c, w, ProxyCollect))
  {
    var d, w' := Current(c, w), Apply(c, w, ProxyCollect);
    CollectLink(c, |w.responses|, w.sessions[d], w.phase.text, w.toProxy, w.nodes[d]);
    CollectStep(c, w, d, w');
    CollectInv(c, w, d, w');
  }

  // What the proxy's step leaves when it takes a packet that is not refused.
  ghost predicate Collects<S>(c: Config<S>, w: World<S>, d: string, w': World<S>)
    requires Consistent(c, w) && w.phase.Collecting? && w.toProxy != [] && d == Current(c, w) && Consistent(c, w')
  {
    && AfterData(w.sessions[d], w.phase.text, w.toProxy[0]).Some?
    && w'.toProxy == w.toProxy[1..] && w'.sessions == w.sessions
    && (forall e :: e in c.max && e != d ==> w'.nodes[e] == w.nodes[e])
    && var (text, answer, done) := AfterData(w.sessions[d], w.phase.text, w.toProxy[0]).value;
       && w'.nodes[d] == Post(w.nodes[d], answer)
       && w'.phase == (if done then Ready else Collecting(text))
       && w'.responses == (if done then w.responses + [text] else w.responses)
  }

  lemma CollectStep<S>(c: Config<S>, w: World<S>, d: string, w': World<S>)
    requires Consistent(c, w) && Enabled(c, w, ProxyCollect) && d == Current(c, w)
    requires AfterData(w.sessions[d], w.phase.text, w.toProxy[0]).Some?
    requires w' == Apply(c, w, ProxyCollect)
    ensures Collects(c, w, d, w')
  {
  }

  lemma CollectInv<S>(c: GoodConfig<S>, w: World<S>, d: string, w': World<S>)
    requires Inv(c, w) && w.phase.Collecting? && w.toProxy != [] && d == Current(c, w) && Consistent(c, w')
    requires Collects(c, w, d, w')
    ensures Inv(c, w')
  {
    var k := |w.responses|;
    var (text, answer, done) := AfterData(w.sessions[d], w.phase.text, w.toProxy[0]).value;
    CollectLink(c, k, w.sessions[d], w.phase.text, w.toProxy, w.nodes[d]);
    if done {
      ReadyAgain(c, w, d, w', text);
    } else {
      assert CurrentInv(c, k, w.sessions[d], w'.phase, w'.toProxy, w'.nodes[d]);
      CurrentOnly(c, w, w');
    }
  }

  // The current request is answered.
  lemma ReadyAgain<S>(c: GoodConfig<S>, w: World<S>, d: string, w': World<S>, text: string)
    requires Inv(c, w) && w.phase != Ready && d == Current(c, w) && Consistent(c, w') && w'.phase == Ready && w'.toProxy == []
    requires w'.responses == w.responses + [text] && text == ResponseTo(c, |w.responses|) && w'.sessions == w.sessions
    requires forall e :: e in c.max && e != d ==> w'.nodes[e] == w.nodes[e]
    requires ElsewhereInv(c, |w.responses| + 1, d, w.sessions[d], w'.nodes[d])
    ensures Inv(c, w')
  {
    var k := |w.responses|;
    forall e | e in c.max
      ensures ElsewhereInv(c, k + 1, e, w'.sessions[e], w'.nodes[e])
    {
      if e != d {
        var session, node := w.sessions[e], w.nodes[e];
        assert ElsewhereInv(c, k, e, session, node);
        ElsewhereNext(c, k, e, session, node);
      }
    }
    ResponsesExtend(c, w.responses);
  }

  lemma ResponsesExtend<S>(c: GoodConfig<S>, responses: seq<string>)
    requires |responses| < |c.requests| && forall j :: 0 <= j < |responses| ==> responses[j] == ResponseTo(c, j)
    ensures var more := responses + [ResponseTo(c, |responses|)];
            forall j :: 0 <= j < |more| ==> more[j] == ResponseTo(c, j)
  {
  }

  // A step that only concerns the proxy and the current device.
  lemma CurrentOnly<S>(c: GoodConfig<S>, w: World<S>, w': World<S>)
    requires Inv(c, w) && w.phase != Ready && Consistent(c, w') && w'.phase != Ready
    requires w'.responses == w.responses && w'.sessions == w.sessions
    requires forall e :: e in c.max && e != Current(c, w) ==> w'.nodes[e] == w.nodes[e]
    requires var d := Current(c, w); CurrentInv(c, |w.responses|, w.sessions[d], w'.phase, w'.toProxy, w'.nodes[d])
    ensures Inv(c, w')
  {
  }

  lemma ProxyInv<S>(c: GoodConfig<S>, w: World<S>, a: Action)
    requires Inv(c, w) && Enabled(c, w, a) && (a == ProxySend || a == ProxyAck)
    ensures Inv(c, Apply(c, w, a))
  {
    var d, t := Current(c, w), TalkAbout(c, |w.responses|, w.sessions[Current(c, w)]);
    if a == ProxySend {
      LinkSend(t, w.phase.send, w.toProxy, w.nodes[d]);
    } else {
      LinkAck(t, w.phase.send, w.toProxy, w.nodes[d]);
      assert Post(w.nodes[d], []) == w.nodes[d];
    }
    CurrentOnly(c, w, Apply(c, w, a));
  }

  // A step that only concerns a device between requests.
  lemma OtherOnly<S>(c: GoodConfig<S>, w: World<S>, d: string, node: Node<S>)
    requires Inv(c, w) && d in c.max && (w.phase == Ready || d != Current(c, w))
    requires ElsewhereInv(c, |w.responses|, d, w.sessions[d], node)
    ensures Inv(c, w.(nodes := w.nodes[d := node]))
  {
  }

  // A device between requests has no fragment to receive and none to send.
  lemma Resting<S>(c: GoodConfig<S>, k: nat, d: string, session: Char, node: Node<S>)
    requires k <= |c.requests| && d in c.max && ElsewhereInv(c, k, d, session, node)
    ensures !(node.response == None && node.inbox != []) && !InResponse(node, false)
  {
  }

  lemma ReceiveLink<S>(c: GoodConfig<S>, k: nat, session: Char, phase: Phase, toProxy: seq<Packet>, node: Node<S>)
    requires k < |c.requests| && Routed(c, k) && node.response == None && node.inbox != []
    requires CurrentInv(c, k, session, phase, toProxy, node)
    ensures var (node', answer) := NodeReceive(c, c.requests[k].device, node);
            CurrentInv(c, k, session, phase, toProxy + [answer], node')
  {
    assert Servable(c, k);
    LinkReceive(c, c.requests[k].device, c.requests[k].text, TalkAbout(c, k, session), phase, toProxy, node);
  }

  lemma DeviceReceiveInv<S>(c: GoodConfig<S>, w: World<S>, d: string)
    requires Inv(c, w) && Enabled(c, w, DeviceReceive(d))
    ensures Inv(c, Apply(c, w, DeviceReceive(d)))
  {
    var k := |w.responses|;
    if w.phase == Ready || d != Current(c, w) {
      Resting(c, k, d, w.sessions[d], w.nodes[d]);
    } else {
      ReceiveLink(c, k, w.sessions[d], w.phase, w.toProxy, w.nodes[d]);
      CurrentOnly(c, w, Apply(c, w, DeviceReceive(d)));
    }
  }

  lemma DeviceSendInv<S>(c: GoodConfig<S>, w: World<S>, d: string)
    requires Inv(c, w) && Enabled(c, w, DeviceSend(d))
    ensures Inv(c, Apply(c, w, DeviceSend(d)))
  {
    if w.phase == Ready || d != Current(c, w) {
      Resting(c, |w.responses|, d, w.sessions[d], w.nodes[d]);
    } else {
      LinkNodeSend(TalkAbout(c, |w.responses|, w.sessions[d]), w.phase, w.toProxy, w.nodes[d]);
    }
  }

  lemma DeviceReplyInv<S>(c: GoodConfig<S>, w: World<S>, d: string)
    requires Inv(c, w) && Enabled(c, w, DeviceReply(d))
    ensures Inv(c, Apply(c, w, DeviceReply(d)))
  {
    if w.phase != Ready && d == Current(c, w) {
      LinkNodeReply(TalkAbout(c, |w.responses|, w.sessions[d]), w.phase, w.toProxy, w.nodes[d]);
      CurrentOnly(c, w, Apply(c, w, DeviceReply(d)));
    } else {
      assert ElsewhereInv(c, |w.responses|, d, w.sessions[d], w.nodes[d]);
      Drain(w.nodes[d], []);
      OtherOnly(c, w, d, NodeReply(w.nodes[d]));
    }
  }

  lemma StepInv<S>(c: GoodConfig<S>, w: World<S>, a: Action)
    requires Inv(c, w) && Enabled(c, w, a) && !IsTimeout(a)
    ensures Inv(c, Apply(c, w, a))
  {
    match a
    case Start => StartInv(c, w);
    case ProxyCollect => ProxyCollectInv(c, w);
    case DeviceReceive(d) => DeviceReceiveInv(c, w, d);
    case DeviceSend(d) => DeviceSendInv(c, w, d);
    case DeviceReply(d) => DeviceReplyInv(c, w, d);
    case _ => ProxyInv(c, w, a);
  }

  // ---------- every run makes progress ----------

  // The steps left in the current exchange, up to the proxy's return.
  ghost function LinkRank<S>(t: Talk<S>, phase: Phase, toProxy: seq<Packet>, node: Node<S>): int {
    match phase
    case Busy(Sending(i, _), waiting) => 3 * (|t.cs| - i) + 3 * |t.rs| - (if waiting then 1 else 0) - |toProxy|
    case Collecting(_) =>
      if node.response == None then 0
      else
        var r := node.response.value;
        3 * (|t.rs| - r.i) - (if !r.waiting then 0 else if toProxy != [] then 1 else 2)
    case _ => 0
  }

  // The node's last acknowledgement is on its way to it.
  ghost predicate Draining<S>(node: Node<S>) {
    LastAwaited(node.response) && node.inbox != []
  }

  ghost function LinkWork<S>(t: Talk<S>, phase: Phase, toProxy: seq<Packet>, node: Node<S>): int {
    LinkRank(t, phase, toProxy, node) + NodeWork(node)
  }

  ghost function NodeWork<S>(node: Node<S>): nat {
    if Draining(node) then 1 else 0
  }

  lemma LinkProxyWork<S>(t: Talk<S>, phase: Phase, toProxy: seq<Packet>, node: Node<S>)
    requires GoodTalk(t) && LinkInv(t, phase, toProxy, node) && phase.Busy?
    ensures !phase.waiting ==>
              LinkWork(t, phase.(waiting := true), toProxy, Post(node, [DataPacket(t.cs, t.session, phase.send.i)]))
              == LinkWork(t, phase, toProxy, node) - 1
    ensures phase.waiting && toProxy != [] ==>
              LinkWork(t, AfterSend(AfterReply(|t.cs|, t.session, phase.send.i, 0, Got(toProxy[0])).0), toProxy[1..], node)
              == LinkWork(t, phase, toProxy, node) - 1
  {
  }

  lemma LinkCollectWork<S>(t: Talk<S>, text: string, toProxy: seq<Packet>, node: Node<S>)
    requires GoodTalk(t) && LinkInv(t, Collecting(text), toProxy, node) && toProxy != []
    ensures var after := AfterData(t.session, text, toProxy[0]);
            && after.Some?
            && var (text', answer, done) := after.value;
               LinkWork(t, Collecting(text), toProxy, node) - 1
               == if done then NodeWork(Post(node, answer))
                  else LinkWork(t, Collecting(text'), toProxy[1..], Post(node, answer))
  {
  }

  lemma LinkNodeWork<S>(t: Talk<S>, phase: Phase, toProxy: seq<Packet>, node: Node<S>)
    requires GoodTalk(t) && LinkInv(t, phase, toProxy, node)
    ensures InResponse(node, false) ==>
              LinkWork(t, phase, toProxy + [NodeSend(node).1], NodeSend(node).0)
              == LinkWork(t, phase, toProxy, node) - 1
    ensures InResponse(node, true) && node.inbox != [] ==>
              LinkWork(t, phase, toProxy, NodeReply(node)) == LinkWork(t, phase, toProxy, node) - 1
  {
  }

  lemma LinkReceiveWork<S>(c: GoodConfig<S>, d: string, text: string, t: Talk<S>, phase: Phase, toProxy: seq<Packet>,
                           node: Node<S>)
    requires d in c.max && GoodTalk(t)
    requires LinkInv(t, phase, toProxy, node) && node.response == None && node.inbox != []
    ensures var (node', answer) := NodeReceive(c, d, node);
            LinkWork(t, phase, toProxy + [answer], node') == LinkWork(t, phase, toProxy, node) - 1
  {
    ReceiveStep(t, phase.send.i, toProxy, node);
  }

  /** The steps that request k takes: starting it, and three for each fragment either way. */
  ghost function Cost<S>(c: GoodConfig<S>, k: nat): nat
    requires k < |c.requests|
  {
    if !Routed(c, k) then 1
    else 1 + 3 * |RequestChunks(c, k)| + 3 * |TalkAbout(c, k, 0).rs|
  }

  ghost function Future<S>(c: GoodConfig<S>, k: nat): nat
    requires k <= |c.requests|
    decreases |c.requests| - k
  {
    if k == |c.requests| then 0 else Cost(c, k) + Future(c, k + 1)
  }

  ghost function DrainingNodes<S>(nodes: map<string, Node<S>>): nat {
    |set d | d in nodes && Draining(nodes[d])|
  }

  lemma DrainingUpdate<S>(nodes: map<string, Node<S>>, d: string, node: Node<S>)
    requires d in nodes
    ensures DrainingNodes(nodes[d := node]) == DrainingNodes(nodes) - NodeWork(nodes[d]) + NodeWork(node)
  {
    var others := set e | e in nodes && e != d && Draining(nodes[e]);
    var before := set e | e in nodes && Draining(nodes[e]);
    var updated := nodes[d := node];
    var after := set e | e in updated && Draining(updated[e]);
    assert before == if Draining(nodes[d]) then others + {d} else others;
    assert after == if Draining(node) then others + {d} else others;
  }

  // The steps that are left in every run from w.
  ghost function Rank<S>(c: GoodConfig<S>, w: World<S>): int
    requires Consistent(c, w)
  {
    var k := |w.responses|;
    DrainingNodes(w.nodes) +
    if w.phase == Ready then Future(c, k)
    else Future(c, k + 1) + LinkRank(TalkAbout(c, k, w.sessions[Current(c, w)]), w.phase, w.toProxy, w.nodes[Current(c, w)])
  }

  lemma StartCost<S>(c: GoodConfig<S>, k: nat, session: Char, node: Node<S>)
    requires k < |c.requests| && Routed(c, k)
    ensures LinkRank(TalkAbout(c, k, session), Busy(Sending(0, 0), false), [], node) == Cost(c, k) - 1
  {
  }

  lemma StartRoutedRank<S>(c: GoodConfig<S>, w: World<S>, w': World<S>, d: string)
    requires Consistent(c, w) && w.phase == Ready && |w.responses| < |c.requests| && w.toProxy == []
    requires d == c.requests[|w.responses|].device && d in c.max && w.sessions[d] < 127
    requires w' == w.(sessions := w.sessions[d := w.sessions[d] + 1], phase := Busy(Sending(0, 0), false))
    ensures Consistent(c, w') && Rank(c, w') == Rank(c, w) - 1
  {
    StartCost(c, |w.responses|, w'.sessions[d], w.nodes[d]);
    assert Future(c, |w.responses|) == Cost(c, |w.responses|) + Future(c, |w.responses| + 1);
  }

  lemma StartRank<S>(c: GoodConfig<S>, w: World<S>)
    requires Inv(c, w) && Enabled(c, w, Start)
    ensures Rank(c, Apply(c, w, Start)) == Rank(c, w) - 1
  {
    if Routed(c, |w.responses|) {
      var d := c.requests[|w.responses|].device;
      var w' := RoutedStep(c, w, d);
      StartRoutedRank(c, w, w', d);
    } else {
      var w' := UnroutedStep(c, w);
    }
  }

  // A step of the proxy or the current device uses up one step of the link.
  lemma CurrentRank<S>(c: GoodConfig<S>, w: World<S>, w': World<S>, d: string, t: Talk<S>)
    requires Inv(c, w) && w.phase != Ready && d == Current(c, w)
    requires Consistent(c, w') && w'.phase != Ready && w'.responses == w.responses && w'.sessions == w.sessions
    requires w'.nodes == w.nodes[d := w'.nodes[d]]
    requires t == TalkAbout(c, |w.responses|, w.sessions[d])
    requires LinkWork(t, w'.phase, w'.toProxy, w'.nodes[d]) == LinkWork(t, w.phase, w.toProxy, w.nodes[d]) - 1
    ensures Rank(c, w') == Rank(c, w) - 1
  {
    DrainingUpdate(w.nodes, d, w'.nodes[d]);
  }

  lemma ProxyRank<S>(c: GoodConfig<S>, w: World<S>, a: Action)
    requires Inv(c, w) && Enabled(c, w, a) && (a == ProxySend || a == ProxyAck)
    ensures Rank(c, Apply(c, w, a)) == Rank(c, w) - 1
  {
    var d := Current(c, w);
    var t := TalkAbout(c, |w.responses|, w.sessions[d]);
    LinkProxyWork(t, w.phase, w.toProxy, w.nodes[d]);
    if a == ProxyAck {
      LinkAck(t, w.phase.send, w.toProxy, w.nodes[d]);
    }
    CurrentRank(c, w, Apply(c, w, a), d, t);
  }

  lemma CollectRank<S>(c: GoodConfig<S>, w: World<S>)
    requires Inv(c, w) && Enabled(c, w, ProxyCollect)
    ensures Rank(c, Apply(c, w, ProxyCollect)) == Rank(c, w) - 1
  {
    var d, w' := Current(c, w), Apply(c, w, ProxyCollect);
    var t := TalkAbout(c, |w.responses|, w.sessions[d]);
    LinkCollectWork(t, w.phase.text, w.toProxy, w.nodes[d]);
    var (text, answer, done) := AfterData(t.session, w.phase.text, w.toProxy[0]).value;
    if done {
      DrainingUpdate(w.nodes, d, Post(w.nodes[d], answer));
      assert Rank(c, w') == DrainingNodes(w'.nodes) + Future(c, |w.responses| + 1);
    } else {
      CurrentRank(c, w, w', d, t);
    }
  }

  lemma ReceiveRank<S>(c: GoodConfig<S>, w: World<S>, d: string)
    requires Inv(c, w) && Enabled(c, w, DeviceReceive(d))
    ensures Rank(c, Apply(c, w, DeviceReceive(d))) == Rank(c, w) - 1
  {
    var k := |w.responses|;
    if w.phase == Ready || d != Current(c, w) {
      Resting(c, k, d, w.sessions[d], w.nodes[d]);
    } else {
      var t := TalkAbout(c, k, w.sessions[d]);
      LinkReceiveWork(c, d, c.requests[k].text, t, w.phase, w.toProxy, w.nodes[d]);
      CurrentRank(c, w, Apply(c, w, DeviceReceive(d)), d, t);
    }
  }

  lemma NodeRank<S>(c: GoodConfig<S>, w: World<S>, a: Action)
    requires Inv(c, w) && Enabled(c, w, a) && (a.DeviceSend? || a.DeviceReply?)
    requires w.phase != Ready && a.d == Current(c, w)
    ensures Rank(c, Apply(c, w, a)) == Rank(c, w) - 1
  {
    var t := TalkAbout(c, |w.responses|, w.sessions[a.d]);
    LinkNodeWork(t, w.phase, w.toProxy, w.nodes[a.d]);
    CurrentRank(c, w, Apply(c, w, a), a.d, t);
  }

  lemma DrainRank<S>(c: GoodConfig<S>, w: World<S>, d: string)
    requires Inv(c, w) && Enabled(c, w, DeviceReply(d)) && (w.phase == Ready || d != Current(c, w))
    ensures Rank(c, Apply(c, w, DeviceReply(d))) == Rank(c, w) - 1
  {
    Drain(w.nodes[d], []);
    DrainingUpdate(w.nodes, d, NodeReply(w.nodes[d]));
  }

  /** Every step but a timeout uses up exactly one of the steps left. */
  lemma StepRank<S>(c: GoodConfig<S>, w: World<S>, a: Action)
    requires Inv(c, w) && Enabled(c, w, a) && !IsTimeout(a)
    ensures Rank(c, Apply(c, w, a)) == Rank(c, w) - 1
  {
    match a
    case Start => StartRank(c, w);
    case ProxyCollect => CollectRank(c, w);
    case DeviceReceive(d) => ReceiveRank(c, w, d);
    case DeviceSend(d) =>
      if w.phase == Ready || d != Current(c, w) {
        Resting(c, |w.responses|, d, w.sessions[d], w.nodes[d]);
      } else {
        NodeRank(c, w, a);
      }
    case DeviceReply(d) =>
      if w.phase == Ready || d != Current(c, w) {
        DrainRank(c, w, d);
      } else {
        NodeRank(c, w, a);
      }
    case _ => ProxyRank(c, w, a);
  }

  // What can happen on a link.
  ghost predicate CanMove<S>(t: Talk<S>, d: string, phase: Phase, toProxy: seq<Packet>, node: Node<S>, a: Action) {
    match a
    case ProxySend => phase.Busy? && !phase.waiting && phase.send.Sending? && phase.send.i < |t.cs|
    case ProxyAck => phase.Busy? && phase.waiting && phase.send.Sending? && phase.send.i < |t.cs| && toProxy != []
    case ProxyCollect => phase.Collecting? && toProxy != []
    case DeviceReceive(e) => e == d && node.response == None && node.inbox != []
    case DeviceSend(e) => e == d && InResponse(node, false)
    case DeviceReply(e) => e == d && InResponse(node, true) && node.inbox != []
    case _ => false
  }

  lemma LinkMoves<S>(t: Talk<S>, d: string, phase: Phase, toProxy: seq<Packet>, node: Node<S>) returns (a: Action)
    requires GoodTalk(t) && LinkInv(t, phase, toProxy, node)
    ensures CanMove(t, d, phase, toProxy, node, a)
  {
    if phase.Collecting? && toProxy != [] {
      a := ProxyCollect;
    } else if phase.Busy? && !phase.waiting {
      a := ProxySend;
    } else if phase.Busy? && toProxy != [] {
      a := ProxyAck;
    } else if node.response == None {
      a := DeviceReceive(d);
    } else if node.response.value.waiting {
      a := DeviceReply(d);
    } else {
      a := DeviceSend(d);
    }
  }

  lemma LinkEnabled<S>(c: Config<S>, w: World<S>, t: Talk<S>, a: Action)
    requires Consistent(c, w) && w.phase != Ready && t.cs == RequestChunks(c, |w.responses|) && |t.cs| <= MAX_COUNT
    requires CanMove(t, Current(c, w), w.phase, w.toProxy, w.nodes[Current(c, w)], a)
    ensures Enabled(c, w, a) && !IsTimeout(a)
  {
  }

  lemma StartEnabled<S>(c: GoodConfig<S>, w: World<S>)
    requires Inv(c, w) && w.phase == Ready && |w.responses| < |c.requests|
    ensures Enabled(c, w, Start)
  {
    var k := |w.responses|;
    var d := c.requests[k].device;
    UsesMonotone(c, k + 1, |c.requests|, d);
    if Routed(c, k) {
      assert ElsewhereInv(c, k, d, w.sessions[d], w.nodes[d]);
    }
  }

  /** Until the last request is answered, something can happen. */
  lemma NextMove<S>(c: GoodConfig<S>, w: World<S>) returns (a: Action)
    requires Inv(c, w) && !(w.phase == Ready && |w.responses| == |c.requests|)
    ensures Enabled(c, w, a) && !IsTimeout(a)
  {
    if w.phase == Ready {
      StartEnabled(c, w);
      a := Start;
    } else {
      var d := Current(c, w);
      var t := TalkAbout(c, |w.responses|, w.sessions[d]);
      a := LinkMoves(t, d, w.phase, w.toProxy, w.nodes[d]);
      LinkEnabled(c, w, t, a);
    }
  }

  /** In a reachable state in which a timeout could fire something else can happen too, so over
      reliable channels every timeout is early. */
  lemma TimeoutIsEarly<S>(c: GoodConfig<S>, w: World<S>, a: Action) returns (b: Action)
    requires Inv(c, w) && Enabled(c, w, a) && IsTimeout(a)
    ensures Enabled(c, w, b) && !IsTimeout(b)
  {
    if a.DeviceTimeout? && (w.phase == Ready || a.d != Current(c, w)) {
      assert ElsewhereInv(c, |w.responses|, a.d, w.sessions[a.d], w.nodes[a.d]);
      b := DeviceReply(a.d);
    } else {
      b := NextMove(c, w);
    }
  }

  /** Every timely run of m steps has used up exactly m of the steps that its start state allows. */
  lemma {:induction false} RunInv<S>(c: GoodConfig<S>, w: World<S>, actions: seq<Action>, t: World<S>)
    requires Inv(c, w) && TimelySteps(c, w, actions, t)
    ensures Inv(c, t) && Rank(c, t) + |actions| == Rank(c, w)
    decreases |actions|
  {
    if actions != [] {
      var a := actions[0];
      if IsTimeout(a) {
        var b := TimeoutIsEarly(c, w, a);
      }
      StepInv(c, w, a);
      StepRank(c, w, a);
      RunInv(c, Apply(c, w, a), actions[1..], t);
    }
  }

  lemma RankNonNegative<S>(c: GoodConfig<S>, w: World<S>)
    requires Inv(c, w)
    ensures Rank(c, w) >= 0
  {
  }

  ghost predicate Stuck<S>(c: GoodConfig<S>, w: World<S>)
    requires Consistent(c, w)
  {
    forall a :: !Enabled(c, w, a)
  }

  // Every request answered as the calls would have, nothing in flight, every device idle with
  // an empty buffer and the store that the calls would have left.
  ghost predicate Completed<S>(c: GoodConfig<S>, w: World<S>)
    requires Consistent(c, w)
  {
    && w.phase == Ready && |w.responses| == |c.requests| && w.toProxy == []
    && (forall j :: 0 <= j < |c.requests| ==> w.responses[j] == ResponseTo(c, j))
    && forall d :: d in c.max ==>
         Quiet(w.nodes[d]) && w.nodes[d].inbox == [] && w.nodes[d].store == StoresAfter(c, |c.requests|)[d]
  }

  lemma StuckMeansCompleted<S>(c: GoodConfig<S>, w: World<S>)
    requires Inv(c, w) && Stuck(c, w)
    ensures Completed(c, w)
  {
    var k := |w.responses|;
    if !(w.phase == Ready && k == |c.requests|) {
      var a := NextMove(c, w);
    } else {
      forall d | d in c.max
        ensures Quiet(w.nodes[d]) && w.nodes[d].inbox == [] && w.nodes[d].store == StoresAfter(c, k)[d]
      {
        assert ElsewhereInv(c, k, d, w.sessions[d], w.nodes[d]);
        assert !Enabled(c, w, DeviceReply(d));
      }
    }
  }

  // ---------- what it means ----------

  /** In every timely run, every response that the proxy has handed back is the text that the plain
      call of the device's handler gives, and no exception has been thrown. */
  lemma RunRefinesCalls<S>(c: GoodConfig<S>, w0: World<S>, actions: seq<Action>, w: World<S>)
    requires Initial(c, w0) && TimelySteps(c, w0, actions, w)
    ensures |w.responses| <= |c.requests| && w.phase != Failed
    ensures forall j :: 0 <= j < |w.responses| ==> w.responses[j] == ResponseTo(c, j)
  {
    InitInv(c, w0);
    RunInv(c, w0, actions, w);
  }

  /** In every timely run, between exchanges nothing is on the way to the proxy, and every device is
      idle with an empty buffer; at most the acknowledgement of its last response is on the way. */
  lemma BetweenExchanges<S>(c: GoodConfig<S>, w0: World<S>, actions: seq<Action>, w: World<S>, d: string)
    requires Initial(c, w0) && TimelySteps(c, w0, actions, w) && w.phase == Ready && d in c.max
    ensures Consistent(c, w) && w.toProxy == []
    ensures Idle(w.nodes[d].receiver) && w.nodes[d].receiver.buffer == ""
    ensures || (w.nodes[d].response == None && w.nodes[d].inbox == [])
            || (LastAwaited(w.nodes[d].response) && |w.nodes[d].inbox| == 1 && w.nodes[d].inbox[0].ty == Ack)
    ensures w.nodes[d].store == StoresAfter(c, |w.responses|)[d]
  {
    InitInv(c, w0);
    RunInv(c, w0, actions, w);
    assert ElsewhereInv(c, |w.responses|, d, w.sessions[d], w.nodes[d]);
  }

  // A node's store is what the first k requests have made of it, or also request k, which the
  // proxy is carrying out.
  ghost predicate StoreAsCalled<S>(c: GoodConfig<S>, w: World<S>, d: string)
    requires Consistent(c, w) && d in c.max
  {
    var k := |w.responses|;
    || w.nodes[d].store == StoresAfter(c, k)[d]
    || (w.phase != Ready && d == Current(c, w) && w.nodes[d].store == StoresAfter(c, k + 1)[d])
  }

  lemma StoreInLink<S>(c: GoodConfig<S>, k: nat, session: Char, phase: Phase, toProxy: seq<Packet>, node: Node<S>)
    requires k < |c.requests| && Routed(c, k) && CurrentInv(c, k, session, phase, toProxy, node)
    ensures var d := c.requests[k].device;
            node.store == StoresAfter(c, k)[d] || node.store == StoresAfter(c, k + 1)[d]
  {
    assert Servable(c, k);
    NextStore(c, k, c.requests[k].device);
  }

  /** In every timely run each device's own store is what the plain calls have made of it. */
  lemma StoresInRun<S>(c: GoodConfig<S>, w0: World<S>, actions: seq<Action>, w: World<S>, d: string)
    requires Initial(c, w0) && TimelySteps(c, w0, actions, w) && d in c.max
    ensures Consistent(c, w) && StoreAsCalled(c, w, d)
  {
    InitInv(c, w0);
    RunInv(c, w0, actions, w);
    var k := |w.responses|;
    if w.phase == Ready || d != Current(c, w) {
      assert ElsewhereInv(c, k, d, w.sessions[d], w.nodes[d]);
    } else {
      StoreInLink(c, k, w.sessions[d], w.phase, w.toProxy, w.nodes[d]);
    }
  }

  /** No timely run is longer than one step per request and three per fragment, and one that cannot
      be continued has answered every request and left both directions empty. */
  lemma EveryRunCompletes<S>(c: GoodConfig<S>, w0: World<S>, actions: seq<Action>, w: World<S>)
    requires Initial(c, w0) && TimelySteps(c, w0, actions, w)
    ensures Consistent(c, w) && |actions| <= Future(c, 0)
    ensures Stuck(c, w) ==> Completed(c, w)
  {
    InitInv(c, w0);
    RunInv(c, w0, actions, w);
    RankNonNegative(c, w);
    assert (set d | d in w0.nodes && Draining(w0.nodes[d])) == {};
    if Stuck(c, w) {
      StuckMeansCompleted(c, w);
    }
  }
}
