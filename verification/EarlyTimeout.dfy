// What one receive timeout of the proxy can do that fires while the device is still at work, on
// channels that lose nothing: a response is corrupted, or an exception is thrown.
module EarlyTimeout {
  import opened Text
  import opened Aaa
  import opened ProxyLink
  import opened DeviceLink
  import opened Exchange
  import Fragments

  function ProxyTimeouts(actions: seq<Action>): nat {
    if actions == [] then 0
    else (if actions[0] == ProxyTimeout then 1 else 0) + ProxyTimeouts(actions[1..])
  }

  lemma {:induction false} ProxyTimeoutsSnoc(actions: seq<Action>, a: Action)
    ensures ProxyTimeouts(actions + [a]) == ProxyTimeouts(actions) + if a == ProxyTimeout then 1 else 0
  {
    if actions == [] {
      assert [a][1..] == [];
    } else {
      ProxyTimeoutsSnoc(actions[1..], a);
      assert (actions + [a])[1..] == actions[1..] + [a];
    }
  }

  // No device times out; in the source its timeout is cut to zero, which means none.
  ghost predicate Patient(actions: seq<Action>) {
    forall i :: 0 <= i < |actions| ==> !actions[i].DeviceTimeout?
  }

  // A run of the system under construction, with all its states, in which no device times out,
  // and the proxy times out `spent` times.
  datatype Trace<!S> = Trace(
    c: GoodConfig<S>, first: World<S>, states: seq<World<S>>, actions: seq<Action>, last: World<S>, spent: nat)

  ghost predicate Follows<S>(c: GoodConfig<S>, w: World<S>, a: Action, t: World<S>) {
    Consistent(c, w) && Enabled(c, w, a) && t == Apply(c, w, a)
  }

  ghost predicate Ran<S>(r: Trace<S>) {
    && |r.states| == |r.actions| + 1 && r.states[0] == r.first && r.states[|r.actions|] == r.last
    && Consistent(r.c, r.last) && Patient(r.actions) && r.spent == ProxyTimeouts(r.actions)
    && forall i :: 0 <= i < |r.actions| ==> Follows(r.c, r.states[i], r.actions[i], r.states[i + 1])
  }

  type Run<!S> = r: Trace<S> | Ran(r) ghost witness NoRun<S>()

  ghost function NoRun<S>(): (r: Trace<S>)
    ensures Ran(r)
  {
    var c: GoodConfig<S> := Config(map[], map[], (d: string, s: S, text: string) => None, [], "");
    var w: World<S> := World(Ready, map[], [], map[], []);
    Trace(c, w, [w], [], w, 0)
  }

  /** It is a run in the sense of the system. */
  lemma {:induction false} RunSteps<S>(r: Run<S>, k: nat)
    requires k <= |r.actions|
    ensures Consistent(r.c, r.states[k]) && Steps(r.c, r.states[k], r.actions[k..], r.last)
    decreases |r.actions| - k
  {
    if k < |r.actions| {
      RunSteps(r, k + 1);
      assert Follows(r.c, r.states[k], r.actions[k], r.states[k + 1]);
      assert r.actions[k..][0] == r.actions[k] && r.actions[k..][1..] == r.actions[k + 1..];
    } else {
      assert r.actions[k..] == [];
    }
  }

  // r' goes on from r, with some more timeouts of the proxy.
  ghost predicate GoesOn<S>(r: Run<S>, r': Run<S>, timeouts: nat) {
    r'.c == r.c && r'.first == r.first && r'.spent == r.spent + timeouts
  }

  // The run with one more action.
  lemma Then<S>(r: Run<S>, a: Action) returns (r': Run<S>)
    requires Enabled(r.c, r.last, a) && !a.DeviceTimeout?
    ensures GoesOn(r, r', if a == ProxyTimeout then 1 else 0)
    ensures r'.actions == r.actions + [a] && r'.last == Apply(r.c, r.last, a)
  {
    var t := Apply(r.c, r.last, a);
    ThenRan(r, a, t);
    r' := Longer(r, a, t);
  }

  ghost function Longer<S>(r: Run<S>, a: Action, t: World<S>): Trace<S> {
    Trace(r.c, r.first, r.states + [t], r.actions + [a], t, r.spent + if a == ProxyTimeout then 1 else 0)
  }

  lemma ThenRan<S>(r: Run<S>, a: Action, t: World<S>)
    requires Follows(r.c, r.last, a, t) && !a.DeviceTimeout?
    ensures Ran(Longer(r, a, t))
  {
    var more := Longer(r, a, t);
    ProxyTimeoutsSnoc(r.actions, a);
    forall i | 0 <= i < |more.actions|
      ensures Follows(r.c, more.states[i], more.actions[i], more.states[i + 1])
    {
      if i < |r.actions| {
        assert Follows(r.c, r.states[i], r.actions[i], r.states[i + 1]);
      }
    }
  }

  // What the proxy and device d look like.
  datatype Scene<!S> = Scene(phase: Phase, toProxy: seq<Packet>, node: Node<S>)

  ghost predicate At<S>(c: Config<S>, w: World<S>, d: string, k: nat, session: Char, x: Scene<S>) {
    && d in w.nodes && d in w.sessions && |w.responses| == k && w.sessions[d] == session
    && w.phase == x.phase && w.toProxy == x.toProxy && w.nodes[d] == x.node
  }

  // Request k goes to device d.
  ghost predicate Goes<S>(c: GoodConfig<S>, k: nat, d: string) {
    k < |c.requests| && c.requests[k].device == d && d in c.max
  }

  // And it fits one packet.
  ghost predicate Small<S>(c: GoodConfig<S>, k: nat, d: string) {
    Goes(c, k, d) && |RequestChunks(c, k)| == 1
  }

  ghost function RequestPacket<S>(c: GoodConfig<S>, k: nat, d: string, session: Char, i: nat): Packet
    requires Goes(c, k, d) && i < |RequestChunks(c, k)|
  {
    assert Servable(c, k);
    DataPacket(RequestChunks(c, k), session, i)
  }

  ghost function FirstPacket<S>(c: GoodConfig<S>, k: nat, d: string, session: Char): Packet
    requires Goes(c, k, d)
  {
    assert Servable(c, k);
    RequestPacket(c, k, d, session, 0)
  }

  // ---------- single steps ----------

  lemma Starts<S>(c: GoodConfig<S>, r: Run<S>, d: string, k: nat, session: Char, x: Scene<S>) returns (r': Run<S>)
    requires r.c == c && At(c, r.last, d, k, session, x) && x.phase == Ready
    requires Goes(c, k, d) && session < 127
    ensures GoesOn(r, r', 0) && r'.actions == r.actions + [Start]
    ensures At(c, r'.last, d, k, session + 1, x.(phase := Busy(Sending(0, 0), false)))
  {
    var w := RoutedStep(c, r.last, d);
    r' := Then(r, Start);
  }

  lemma ProxySends<S>(c: GoodConfig<S>, r: Run<S>, d: string, k: nat, session: Char, x: Scene<S>, i: nat, retries: nat)
    returns (r': Run<S>)
    requires r.c == c && At(c, r.last, d, k, session, x) && x.phase == Busy(Sending(i, retries), false)
    requires Goes(c, k, d) && i < |RequestChunks(c, k)|
    ensures GoesOn(r, r', 0) && r'.actions == r.actions + [ProxySend]
    ensures At(c, r'.last, d, k, session, x.(phase := Busy(Sending(i, retries), true),
                                             node := Post(x.node, [RequestPacket(c, k, d, session, i)])))
  {
    assert Servable(c, k);
    r' := Then(r, ProxySend);
  }

  lemma ProxyTimesOut<S>(c: GoodConfig<S>, r: Run<S>, d: string, k: nat, session: Char, x: Scene<S>, retries: nat)
    returns (r': Run<S>)
    requires r.c == c && At(c, r.last, d, k, session, x) && x.phase == Busy(Sending(0, retries), true)
    requires Goes(c, k, d)
    ensures GoesOn(r, r', 1) && r'.actions == r.actions + [ProxyTimeout]
    ensures At(c, r'.last, d, k, session,
               x.(phase := if retries > MAX_RETRANSMISSIONS then Failed else Busy(Sending(0, retries + 1), false)))
  {
    assert Servable(c, k);
    r' := Then(r, ProxyTimeout);
  }

  lemma ProxyAcknowledged<S>(c: GoodConfig<S>, r: Run<S>, d: string, k: nat, session: Char, x: Scene<S>, retries: nat)
    returns (r': Run<S>)
    requires r.c == c && At(c, r.last, d, k, session, x) && x.phase == Busy(Sending(0, retries), true)
    requires Goes(c, k, d) && session >= 0 && |RequestChunks(c, k)| <= MAX_COUNT
    requires x.toProxy != [] && x.toProxy[0] == OnWire(Ack, |RequestChunks(c, k)|, session, "")
    ensures GoesOn(r, r', 0) && r'.actions == r.actions + [ProxyAck]
    ensures At(c, r'.last, d, k, session,
               x.(phase := if |RequestChunks(c, k)| == 1 then Collecting("") else Busy(Sending(1, 0), false),
                  toProxy := x.toProxy[1..]))
  {
    assert Servable(c, k);
    assert Post(x.node, []) == x.node;
    r' := Then(r, ProxyAck);
  }

  /** Another packet in place of an acknowledgement makes the proxy throw. */
  lemma ProxySurprised<S>(c: GoodConfig<S>, r: Run<S>, d: string, k: nat, session: Char, x: Scene<S>, i: nat)
    returns (r': Run<S>)
    requires r.c == c && At(c, r.last, d, k, session, x) && x.phase == Busy(Sending(i, 0), true)
    requires Goes(c, k, d) && i < |RequestChunks(c, k)| && x.toProxy != [] && x.toProxy[0].ty != Ack
    ensures GoesOn(r, r', 0) && r'.actions == r.actions + [ProxyAck]
    ensures r'.last.phase == Failed && |r'.last.responses| == k
  {
    assert Servable(c, k);
    r' := Then(r, ProxyAck);
  }

  lemma ProxyCollects<S>(c: GoodConfig<S>, r: Run<S>, d: string, k: nat, session: Char, x: Scene<S>, text: string)
    returns (r': Run<S>)
    requires r.c == c && At(c, r.last, d, k, session, x) && x.phase == Collecting(text)
    requires Goes(c, k, d) && x.toProxy != []
    requires x.toProxy[0].ty == Data && x.toProxy[0].session == session as int
    ensures GoesOn(r, r', 0) && r'.actions == r.actions + [ProxyCollect]
    ensures var p := x.toProxy[0];
            var all := text + p.payload;
            At(c, r'.last, d, if p.count == 1 then k + 1 else k, session,
               Scene(if p.count == 1 then Ready else Collecting(all), x.toProxy[1..],
                     Post(x.node, [OnWire(Ack, p.count, session, "")])))
    ensures r'.last.responses
            == r.last.responses + if x.toProxy[0].count == 1 then [text + x.toProxy[0].payload] else []
  {
    r' := Then(r, ProxyCollect);
  }

  lemma NodeSends<S>(c: GoodConfig<S>, r: Run<S>, d: string, k: nat, session: Char, x: Scene<S>) returns (r': Run<S>)
    requires r.c == c && At(c, r.last, d, k, session, x) && InResponse(x.node, false)
    ensures GoesOn(r, r', 0) && r'.actions == r.actions + [DeviceSend(d)]
    ensures At(c, r'.last, d, k, session, x.(toProxy := x.toProxy + [NodeSend(x.node).1], node := NodeSend(x.node).0))
  {
    r' := Then(r, DeviceSend(d));
  }

  lemma NodeReplied<S>(c: GoodConfig<S>, r: Run<S>, d: string, k: nat, session: Char, x: Scene<S>) returns (r': Run<S>)
    requires r.c == c && At(c, r.last, d, k, session, x) && InResponse(x.node, true) && x.node.inbox != []
    ensures GoesOn(r, r', 0) && r'.actions == r.actions + [DeviceReply(d)]
    ensures At(c, r'.last, d, k, session, x.(node := NodeReply(x.node)))
  {
    r' := Then(r, DeviceReply(d));
  }

  lemma NodeReceives<S>(c: GoodConfig<S>, r: Run<S>, d: string, k: nat, session: Char, x: Scene<S>) returns (r': Run<S>)
    requires r.c == c && At(c, r.last, d, k, session, x) && d in c.max && x.node.response == None && x.node.inbox != []
    ensures GoesOn(r, r', 0) && r'.actions == r.actions + [DeviceReceive(d)]
    ensures var (node, answer) := NodeReceive(c, d, x.node);
            At(c, r'.last, d, k, session, x.(toProxy := x.toProxy + [answer], node := node))
  {
    r' := Then(r, DeviceReceive(d));
  }

  // ---------- the device's steps in the run ----------

  ghost function IdleNode<S>(store: S, response: Option<Response>, inbox: seq<Packet>): Node<S> {
    Node(Receiver(IDLE_MARK, IDLE_MARK, ""), response, store, inbox)
  }

  // The response of device d to request k, which fits one packet.
  ghost predicate Serves<S>(c: GoodConfig<S>, k: nat, d: string, before: S, after: S, rs: seq<string>) {
    && Small(c, k, d) && 0 < |rs| <= MAX_COUNT
    && var served := c.serve(d, before, c.requests[k].text);
       served.Some? && served.value.0 == after && Fragments.Chunks(served.value.1, c.max[d] - HEADER_SIZE) == rs
  }

  lemma WholeRequest<S>(c: GoodConfig<S>, k: nat, d: string, session: Char)
    requires Small(c, k, d) && session >= 0
    ensures FirstPacket(c, k, d, session) == Packet(Data, 1, session as nat, c.requests[k].text)
  {
    Fragments.ChunksShape(c.requests[k].text, c.max[d] - HEADER_SIZE);
    assert Concat(RequestChunks(c, k)) == RequestChunks(c, k)[0] + "";
  }

  lemma ServedFirst<S>(c: GoodConfig<S>, k: nat, d: string, session: Char, before: S, after: S, rs: seq<string>,
                       rest: seq<Packet>)
    requires Serves(c, k, d, before, after, rs) && session >= 0
    ensures NodeReceive(c, d, IdleNode(before, None, [FirstPacket(c, k, d, session)] + rest))
            == (IdleNode(after, Some(Response(rs, session, 0, 0, false)), rest), OnWire(Ack, 1, session, ""))
  {
    WholeRequest(c, k, d, session);
    var node, text := IdleNode(before, None, [FirstPacket(c, k, d, session)] + rest), c.requests[k].text;
    assert "" + text == text;
    assert node.inbox[0] == FirstPacket(c, k, d, session) && node.inbox[1..] == rest;
  }

  /** The device takes the resent fragment for a missing acknowledgement. */
  lemma TakesResent<S>(store: S, rs: seq<string>, session: Char, p: Packet, rest: seq<Packet>)
    requires 0 < |rs| <= MAX_COUNT && p.ty == Data
    ensures NodeReply(IdleNode(store, Some(Response(rs, session, 0, 0, true)), [p] + rest))
            == IdleNode(store, Some(Response(rs, session, 0, 1, false)), rest)
  {
    assert ([p] + rest)[1..] == rest;
  }

  // ---------- the run ----------

  // A node that answers the request, with a second copy of it in its inbox.
  ghost predicate ServedTwice<S>(c: GoodConfig<S>, k: nat, d: string, s: Char, after: S, rs: seq<string>, node: Node<S>) {
    && Small(c, k, d) && node.response == None && node.inbox != []
    && NodeReceive(c, d, node)
       == (IdleNode(after, Some(Response(rs, s, 0, 0, false)), [FirstPacket(c, k, d, s)]), OnWire(Ack, 1, s, ""))
  }

  lemma ServesTwice<S>(c: GoodConfig<S>, k: nat, d: string, s: Char, before: S, after: S, rs: seq<string>)
    requires Serves(c, k, d, before, after, rs) && s >= 0
    ensures var p := FirstPacket(c, k, d, s);
            ServedTwice(c, k, d, s, after, rs, Post(Post(IdleNode(before, None, []), [p]), [p]))
  {
    var p := FirstPacket(c, k, d, s);
    ServedFirst(c, k, d, s, before, after, rs, [p]);
    assert [] + [p] + [p] == [p] + [p];
  }

  lemma SendOnce<S>(c: GoodConfig<S>, r0: Run<S>, d: string, k: nat, session: Char, store: S) returns (r: Run<S>)
    requires r0.c == c && Goes(c, k, d) && session < 127
    requires At(c, r0.last, d, k, session, Scene(Ready, [], IdleNode(store, None, [])))
    ensures GoesOn(r0, r, 0) && r.actions == r0.actions + [Start] + [ProxySend]
    ensures At(c, r.last, d, k, session + 1,
               Scene(Busy(Sending(0, 0), true), [], Post(IdleNode(store, None, []), [FirstPacket(c, k, d, session + 1)])))
  {
    assert Servable(c, k);
    r := Starts(c, r0, d, k, session, Scene(Ready, [], IdleNode(store, None, [])));
    r := ProxySends(c, r, d, k, session + 1, Scene(Busy(Sending(0, 0), false), [], IdleNode(store, None, [])), 0, 0);
  }

  lemma SendAgain<S>(c: GoodConfig<S>, r0: Run<S>, d: string, k: nat, session: Char, node: Node<S>, retries: nat)
    returns (r: Run<S>)
    requires r0.c == c && Goes(c, k, d) && retries <= MAX_RETRANSMISSIONS
    requires At(c, r0.last, d, k, session, Scene(Busy(Sending(0, retries), true), [], node))
    ensures GoesOn(r0, r, 1) && r.actions == r0.actions + [ProxyTimeout] + [ProxySend]
    ensures At(c, r.last, d, k, session,
               Scene(Busy(Sending(0, retries + 1), true), [], Post(node, [FirstPacket(c, k, d, session)])))
  {
    assert Servable(c, k);
    r := ProxyTimesOut(c, r0, d, k, session, Scene(Busy(Sending(0, retries), true), [], node), retries);
    r := ProxySends(c, r, d, k, session, Scene(Busy(Sending(0, retries + 1), false), [], node), 0, retries + 1);
  }

  /** The proxy times out before the device has answered. */
  lemma SendTwice<S>(c: GoodConfig<S>, r0: Run<S>, d: string, k: nat, session: Char, store: S) returns (r: Run<S>)
    requires r0.c == c && Goes(c, k, d) && session < 127
    requires At(c, r0.last, d, k, session, Scene(Ready, [], IdleNode(store, None, [])))
    ensures GoesOn(r0, r, 1)
    ensures r.actions == r0.actions + [Start] + [ProxySend] + [ProxyTimeout] + [ProxySend]
    ensures var p := FirstPacket(c, k, d, session + 1);
            At(c, r.last, d, k, session + 1,
               Scene(Busy(Sending(0, 1), true), [], Post(Post(IdleNode(store, None, []), [p]), [p])))
  {
    assert Servable(c, k);
    r := SendOnce(c, r0, d, k, session, store);
    r := SendAgain(c, r, d, k, session + 1, Post(IdleNode(store, None, []), [FirstPacket(c, k, d, session + 1)]), 0);
  }

  // The device's first answer, with the resent request still in its inbox.
  lemma FirstAnswer<S>(c: GoodConfig<S>, r0: Run<S>, d: string, k: nat, s: Char, before: S, after: S, rs: seq<string>,
                       node0: Node<S>)
    returns (r: Run<S>)
    requires r0.c == c && Serves(c, k, d, before, after, rs) && s >= 0
    requires ServedTwice(c, k, d, s, after, rs, node0)
    requires At(c, r0.last, d, k, s, Scene(Busy(Sending(0, 1), true), [], node0))
    ensures GoesOn(r0, r, 0) && r.actions == r0.actions + [DeviceReceive(d)] + [DeviceSend(d)] + [ProxyAck]
    ensures At(c, r.last, d, k, s, Scene(Collecting(""), [DataPacket(rs, s, 0)],
                                         IdleNode(after, Some(Response(rs, s, 0, 0, true)), [FirstPacket(c, k, d, s)])))
  {
    var busy := Busy(Sending(0, 1), true);
    var p, ack, data := FirstPacket(c, k, d, s), OnWire(Ack, 1, s, ""), DataPacket(rs, s, 0);
    assert [] + [ack] == [ack] && [ack] + [data] == [ack, data] && [ack, data][1..] == [data];
    r := NodeReceives(c, r0, d, k, s, Scene(busy, [], node0));
    r := NodeSends(c, r, d, k, s, Scene(busy, [ack], IdleNode(after, Some(Response(rs, s, 0, 0, false)), [p])));
    r := ProxyAcknowledged(c, r, d, k, s, Scene(busy, [ack, data], IdleNode(after, Some(Response(rs, s, 0, 0, true)), [p])), 1);
  }

  // The resent request makes the device send the fragment again.
  lemma SendsAgain<S>(c: GoodConfig<S>, r0: Run<S>, d: string, k: nat, s: Char, x: Scene<S>, store: S, rs: seq<string>,
                      p: Packet, rest: seq<Packet>)
    returns (r: Run<S>)
    requires r0.c == c && 0 < |rs| <= MAX_COUNT && p.ty == Data && At(c, r0.last, d, k, s, x)
    requires x.node == IdleNode(store, Some(Response(rs, s, 0, 0, true)), [p] + rest)
    ensures GoesOn(r0, r, 0) && r.actions == r0.actions + [DeviceReply(d)] + [DeviceSend(d)]
    ensures At(c, r.last, d, k, s, Scene(x.phase, x.toProxy + [DataPacket(rs, s, 0)],
                                         IdleNode(store, Some(Response(rs, s, 0, 1, true)), rest)))
  {
    TakesResent(store, rs, s, p, rest);
    r := NodeReplied(c, r0, d, k, s, x);
    r := NodeSends(c, r, d, k, s, x.(node := IdleNode(store, Some(Response(rs, s, 0, 1, false)), rest)));
  }

  // So far an exchange in which the proxy times out before the device has answered.
  lemma FirstAnswered<S>(c: GoodConfig<S>, r0: Run<S>, d: string, k: nat, session: Char, before: S, after: S,
                         rs: seq<string>)
    returns (r: Run<S>)
    requires r0.c == c && Serves(c, k, d, before, after, rs) && 0 <= session < 127
    requires At(c, r0.last, d, k, session, Scene(Ready, [], IdleNode(before, None, [])))
    ensures GoesOn(r0, r, 1)
    ensures r.actions == r0.actions + [Start] + [ProxySend] + [ProxyTimeout] + [ProxySend]
                         + [DeviceReceive(d)] + [DeviceSend(d)] + [ProxyAck]
    ensures var s := session + 1;
            At(c, r.last, d, k, s, Scene(Collecting(""), [DataPacket(rs, s, 0)],
                                         IdleNode(after, Some(Response(rs, s, 0, 0, true)), [FirstPacket(c, k, d, s)])))
  {
    r := SendTwice(c, r0, d, k, session, before);
    var p := FirstPacket(c, k, d, session + 1);
    ServesTwice(c, k, d, session + 1, before, after, rs);
    r := FirstAnswer(c, r, d, k, session + 1, before, after, rs, Post(Post(IdleNode(before, None, []), [p]), [p]));
  }

  /** The device answers a second time. */
  lemma AnswerAgain<S>(c: GoodConfig<S>, r0: Run<S>, d: string, k: nat, s: Char, store: S, rs: seq<string>, p: Packet)
    returns (r: Run<S>)
    requires r0.c == c && |rs| == 1 && p.ty == Data
    requires At(c, r0.last, d, k, s,
                Scene(Ready, [], IdleNode(store, Some(Response(rs, s, 0, 0, true)), [p, OnWire(Ack, 1, s, "")])))
    ensures GoesOn(r0, r, 0)
    ensures r.actions == r0.actions + [DeviceReply(d)] + [DeviceSend(d)] + [DeviceReply(d)]
    ensures At(c, r.last, d, k, s, Scene(Ready, [DataPacket(rs, s, 0)], IdleNode(store, None, [])))
  {
    var ack, data := OnWire(Ack, 1, s, ""), DataPacket(rs, s, 0);
    assert [p] + [ack] == [p, ack] && [] + [data] == [data] && [ack][1..] == [];
    r := SendsAgain(c, r0, d, k, s, Scene(Ready, [], IdleNode(store, Some(Response(rs, s, 0, 0, true)), [p, ack])),
                    store, rs, p, [ack]);
    r := NodeReplied(c, r, d, k, s, Scene(Ready, [data], IdleNode(store, Some(Response(rs, s, 0, 1, true)), [ack])));
  }

  lemma NextFails<S>(c: GoodConfig<S>, r0: Run<S>, d: string, k: nat, s: Char, data: Packet, node: Node<S>)
    returns (r: Run<S>)
    requires r0.c == c && Goes(c, k, d) && s < 127 && data.ty == Data
    requires At(c, r0.last, d, k, s, Scene(Ready, [data], node))
    ensures GoesOn(r0, r, 0) && r.actions == r0.actions + [Start] + [ProxySend] + [ProxyAck]
    ensures r.last.phase == Failed && |r.last.responses| == k
  {
    assert Servable(c, k);
    r := Starts(c, r0, d, k, s, Scene(Ready, [data], node));
    r := ProxySends(c, r, d, k, s + 1, Scene(Busy(Sending(0, 0), false), [data], node), 0, 0);
    r := ProxySurprised(c, r, d, k, s + 1,
                        Scene(Busy(Sending(0, 0), true), [data], Post(node, [FirstPacket(c, k, d, s + 1)])), 0);
  }

  /** With a response of one packet the exchange itself still succeeds; the resent request stays
      with the device. */
  lemma AnsweredOnce<S>(c: GoodConfig<S>, r0: Run<S>, d: string, k: nat, session: Char, before: S, after: S,
                        rs: seq<string>)
    returns (r: Run<S>)
    requires r0.c == c && Serves(c, k, d, before, after, rs) && |rs| == 1 && 0 <= session < 127
    requires At(c, r0.last, d, k, session, Scene(Ready, [], IdleNode(before, None, [])))
    ensures GoesOn(r0, r, 1)
    ensures r.actions == r0.actions + [Start] + [ProxySend] + [ProxyTimeout] + [ProxySend]
                         + [DeviceReceive(d)] + [DeviceSend(d)] + [ProxyAck] + [ProxyCollect]
    ensures var s := session + 1;
            At(c, r.last, d, k + 1, s,
               Scene(Ready, [], IdleNode(after, Some(Response(rs, s, 0, 0, true)),
                                        [FirstPacket(c, k, d, s), OnWire(Ack, 1, s, "")])))
  {
    var s := session + 1;
    var p, ack, data := FirstPacket(c, k, d, s), OnWire(Ack, 1, s, ""), DataPacket(rs, s, 0);
    assert [p] + [ack] == [p, ack] && [data][1..] == [];
    r := FirstAnswered(c, r0, d, k, session, before, after, rs);
    r := ProxyCollects(c, r, d, k, s, Scene(Collecting(""), [data], IdleNode(after, Some(Response(rs, s, 0, 0, true)), [p])), "");
  }

  lemma AnsweredTwice<S>(c: GoodConfig<S>, r0: Run<S>, d: string, k: nat, session: Char, before: S, after: S,
                         rs: seq<string>)
    returns (r: Run<S>)
    requires r0.c == c && Serves(c, k, d, before, after, rs) && |rs| == 1 && 0 <= session < 127
    requires At(c, r0.last, d, k, session, Scene(Ready, [], IdleNode(before, None, [])))
    ensures GoesOn(r0, r, 1)
    ensures r.actions == r0.actions + [Start] + [ProxySend] + [ProxyTimeout] + [ProxySend]
                         + [DeviceReceive(d)] + [DeviceSend(d)] + [ProxyAck] + [ProxyCollect]
                         + [DeviceReply(d)] + [DeviceSend(d)] + [DeviceReply(d)]
    ensures At(c, r.last, d, k + 1, session + 1, Scene(Ready, [DataPacket(rs, session + 1, 0)], IdleNode(after, None, [])))
  {
    WholeRequest(c, k, d, session + 1);
    r := AnsweredOnce(c, r0, d, k, session, before, after, rs);
    r := AnswerAgain(c, r, d, k + 1, session + 1, after, rs, FirstPacket(c, k, d, session + 1));
  }

  /** The actions of the run: one early timeout and nothing else out of order. */
  function EarlyRun(d: string): seq<Action> {
    [] + [Start] + [ProxySend] + [ProxyTimeout] + [ProxySend]
    + [DeviceReceive(d)] + [DeviceSend(d)] + [ProxyAck] + [ProxyCollect]
    + [DeviceReply(d)] + [DeviceSend(d)] + [DeviceReply(d)]
    + [Start] + [ProxySend] + [ProxyAck]
  }

  /** Requests k and k + 1 go to one device and fit one packet, like the response to request k.
      From any quiet state: if the proxy times out once while the device is at work, request k is
      still answered, but the device answers it twice, and the second copy, met where request
      k + 1 expects its acknowledgement, makes the proxy throw. */
  lemma EarlyTimeoutFails<S>(c: GoodConfig<S>, w0: World<S>, d: string, k: nat, session: Char,
                             before: S, after: S, rs: seq<string>)
    returns (w: World<S>)
    requires Serves(c, k, d, before, after, rs) && |rs| == 1 && Goes(c, k + 1, d) && 0 <= session < 126
    requires Consistent(c, w0) && At(c, w0, d, k, session, Scene(Ready, [], IdleNode(before, None, [])))
    ensures Steps(c, w0, EarlyRun(d), w)
    ensures w.phase == Failed && |w.responses| == k + 1
  {
    var r := AnsweredTwice(c, Trace(c, w0, [w0], [], w0, 0), d, k, session, before, after, rs);
    r := NextFails(c, r, d, k + 1, session + 1, DataPacket(rs, session + 1, 0), IdleNode(after, None, []));
    RunSteps(r, 0);
    assert r.actions[0..] == EarlyRun(d);
    w := r.last;
  }

  // ---------- a request of several fragments ----------

  // What the first fragment and a second copy of it do to a device.
  lemma MeetsCopy<S>(c: GoodConfig<S>, k: nat, d: string, s: Char, store: S) returns (node: Node<S>)
    requires Goes(c, k, d) && 2 <= |RequestChunks(c, k)| <= MAX_COUNT && s >= 0
    ensures var p := FirstPacket(c, k, d, s);
            NodeReceive(c, d, IdleNode(store, None, [p, p])) == (node, OnWire(Ack, |RequestChunks(c, k)|, s, ""))
    ensures node.response == None && node.inbox != [] && NodeReceive(c, d, node).1.ty == Error
  {
    var p := FirstPacket(c, k, d, s);
    assert [p, p][1..] == [p];
    node := NodeReceive(c, d, IdleNode(store, None, [p, p])).0;
  }

  /** From any quiet state, with a request of two or more fragments: the second copy of the first
      draws an ERROR, which the proxy meets where it expects the second acknowledgement. */
  lemma EarlyTimeoutThrows<S>(c: GoodConfig<S>, r0: Run<S>, d: string, k: nat, session: Char, store: S) returns (r: Run<S>)
    requires r0.c == c && Goes(c, k, d) && |RequestChunks(c, k)| >= 2 && 0 <= session < 127
    requires At(c, r0.last, d, k, session, Scene(Ready, [], IdleNode(store, None, [])))
    ensures GoesOn(r0, r, 1) && r.last.phase == Failed
  {
    assert Servable(c, k);
    var p := FirstPacket(c, k, d, session + 1);
    r := SendTwice(c, r0, d, k, session, store);
    assert Post(Post(IdleNode(store, None, []), [p]), [p]) == IdleNode(store, None, [p, p]);
    r := CopyThrows(c, r, d, k, session + 1, store);
  }

  lemma CopyThrows<S>(c: GoodConfig<S>, r0: Run<S>, d: string, k: nat, s: Char, store: S) returns (r: Run<S>)
    requires r0.c == c && Goes(c, k, d) && 2 <= |RequestChunks(c, k)| <= MAX_COUNT && s >= 0
    requires var p := FirstPacket(c, k, d, s);
             At(c, r0.last, d, k, s, Scene(Busy(Sending(0, 1), true), [], IdleNode(store, None, [p, p])))
    ensures GoesOn(r0, r, 0) && r.last.phase == Failed
  {
    var p, busy := FirstPacket(c, k, d, s), Busy(Sending(0, 1), true);
    var node := MeetsCopy(c, k, d, s, store);
    var (node', error) := NodeReceive(c, d, node);
    var ack := OnWire(Ack, |RequestChunks(c, k)|, s, "");
    assert [] + [ack] == [ack] && [ack] + [error] == [ack, error] && [ack, error][1..] == [error];
    r := NodeReceives(c, r0, d, k, s, Scene(busy, [], IdleNode(store, None, [p, p])));
    r := NodeReceives(c, r, d, k, s, Scene(busy, [ack], node));
    r := ProxyAcknowledged(c, r, d, k, s, Scene(busy, [ack, error], node'), 1);
    r := ErrorThrows(c, r, d, k, s, error, node');
  }

  lemma ErrorThrows<S>(c: GoodConfig<S>, r0: Run<S>, d: string, k: nat, s: Char, error: Packet, node: Node<S>)
    returns (r: Run<S>)
    requires r0.c == c && Goes(c, k, d) && |RequestChunks(c, k)| >= 2 && error.ty == Error
    requires At(c, r0.last, d, k, s, Scene(Busy(Sending(1, 0), false), [error], node))
    ensures GoesOn(r0, r, 0) && r.last.phase == Failed
  {
    r := ProxySends(c, r0, d, k, s, Scene(Busy(Sending(1, 0), false), [error], node), 1, 0);
    var posted := Post(node, [RequestPacket(c, k, d, s, 1)]);
    r := ProxySurprised(c, r, d, k, s, Scene(Busy(Sending(1, 0), true), [error], posted), 1);
  }

  // ---------- a response of several fragments ----------

  // The device has sent fragment i of its response, and has one acknowledgement too many.
  ghost predicate RunsAhead<S>(c: GoodConfig<S>, r: Run<S>, d: string, k: nat, s: Char, store: S, rs: seq<string>,
                               i: nat, ack: Packet, text: string)
    requires i < |rs| <= MAX_COUNT
  {
    && r.c == c && ack.ty == Ack
    && At(c, r.last, d, k, s, Scene(Collecting(text), [DataPacket(rs, s, i)],
                                    IdleNode(store, Some(Response(rs, s, i, 0, true)), [ack])))
  }

  // An acknowledgement makes the device send the next fragment.
  lemma SendsNext<S>(c: GoodConfig<S>, r0: Run<S>, d: string, k: nat, s: Char, phase: Phase, store: S, rs: seq<string>,
                     i: nat, retries: nat, ack: Packet, rest: seq<Packet>)
    returns (r: Run<S>)
    requires r0.c == c && i + 1 < |rs| <= MAX_COUNT && ack.ty == Ack
    requires At(c, r0.last, d, k, s,
                Scene(phase, [], IdleNode(store, Some(Response(rs, s, i, retries, true)), [ack] + rest)))
    ensures GoesOn(r0, r, 0)
    ensures At(c, r.last, d, k, s, Scene(phase, [DataPacket(rs, s, i + 1)],
                                         IdleNode(store, Some(Response(rs, s, i + 1, 0, true)), rest)))
  {
    var before := IdleNode(store, Some(Response(rs, s, i, retries, true)), [ack] + rest);
    var after := IdleNode(store, Some(Response(rs, s, i + 1, 0, false)), rest);
    Acknowledged(store, rs, s, i, retries, ack, rest);
    assert [] + [DataPacket(rs, s, i + 1)] == [DataPacket(rs, s, i + 1)];
    r := NodeReplied(c, r0, d, k, s, Scene(phase, [], before));
    r := NodeSends(c, r, d, k, s, Scene(phase, [], after));
  }

  lemma Acknowledged<S>(store: S, rs: seq<string>, s: Char, i: nat, retries: nat, ack: Packet, rest: seq<Packet>)
    requires i + 1 < |rs| <= MAX_COUNT && ack.ty == Ack
    ensures NodeReply(IdleNode(store, Some(Response(rs, s, i, retries, true)), [ack] + rest))
            == IdleNode(store, Some(Response(rs, s, i + 1, 0, false)), rest)
  {
    assert ([ack] + rest)[1..] == rest;
  }

  // It sends the next fragment as soon as it likes.
  lemma StaysAhead<S>(c: GoodConfig<S>, r0: Run<S>, d: string, k: nat, s: Char, store: S, rs: seq<string>,
                      i: nat, ack: Packet, text: string)
    returns (r: Run<S>)
    requires Goes(c, k, d) && i + 1 < |rs| <= MAX_COUNT && s >= 0 && RunsAhead(c, r0, d, k, s, store, rs, i, ack, text)
    ensures GoesOn(r0, r, 0)
    ensures RunsAhead(c, r, d, k, s, store, rs, i + 1, OnWire(Ack, |rs| - i, s, ""), text + rs[i])
  {
    var next := OnWire(Ack, |rs| - i, s, "");
    r := ProxyCollects(c, r0, d, k, s, Scene(Collecting(text), [DataPacket(rs, s, i)],
                                             IdleNode(store, Some(Response(rs, s, i, 0, true)), [ack])), text);
    r := SendsNext(c, r, d, k, s, Collecting(text + rs[i]), store, rs, i, 0, ack, [next]);
  }

  lemma {:induction false} AheadToTheEnd<S>(c: GoodConfig<S>, r0: Run<S>, d: string, k: nat, s: Char, store: S,
                                            rs: seq<string>, i: nat, ack: Packet, text: string)
    returns (r: Run<S>)
    requires Goes(c, k, d) && i < |rs| <= MAX_COUNT && s >= 0 && RunsAhead(c, r0, d, k, s, store, rs, i, ack, text)
    ensures GoesOn(r0, r, 0) && r.last.phase == Ready
    ensures |r.last.responses| == k + 1 && r.last.responses[k] == text + Concat(rs[i..])
    decreases |rs| - i
  {
    assert rs[i..][0] == rs[i] && rs[i..][1..] == rs[i + 1..];
    if i + 1 < |rs| {
      r := StaysAhead(c, r0, d, k, s, store, rs, i, ack, text);
      Assoc(text, rs[i], Concat(rs[i + 1..]));
      r := AheadToTheEnd(c, r, d, k, s, store, rs, i + 1, OnWire(Ack, |rs| - i, s, ""), text + rs[i]);
    } else {
      assert Concat(rs[i..]) == rs[i];
      r := ProxyCollects(c, r0, d, k, s, Scene(Collecting(text), [DataPacket(rs, s, i)],
                                               IdleNode(store, Some(Response(rs, s, i, 0, true)), [ack])), text);
    }
  }

  // The proxy takes both, and the device is ahead by one acknowledgement.
  lemma BothTaken<S>(c: GoodConfig<S>, r0: Run<S>, d: string, k: nat, s: Char, store: S, rs: seq<string>)
    returns (r: Run<S>)
    requires r0.c == c && Goes(c, k, d) && 2 <= |rs| <= MAX_COUNT && s >= 0
    requires At(c, r0.last, d, k, s, Scene(Collecting(""), [DataPacket(rs, s, 0), DataPacket(rs, s, 0)],
                                           IdleNode(store, Some(Response(rs, s, 0, 1, true)), [])))
    ensures GoesOn(r0, r, 0) && RunsAhead(c, r, d, k, s, store, rs, 1, OnWire(Ack, |rs|, s, ""), rs[0] + rs[0])
  {
    var ack, node := OnWire(Ack, |rs|, s, ""), IdleNode(store, Some(Response(rs, s, 0, 1, true)), []);
    r := TakesTwo(c, r0, d, k, s, rs[0], DataPacket(rs, s, 0), node);
    assert [] + [ack] + [ack] == [ack] + [ack];
    r := SendsNext(c, r, d, k, s, Collecting(rs[0] + rs[0]), store, rs, 0, 1, ack, [ack]);
  }

  lemma TakesTwo<S>(c: GoodConfig<S>, r0: Run<S>, d: string, k: nat, s: Char, text: string, data: Packet, node: Node<S>)
    returns (r: Run<S>)
    requires r0.c == c && Goes(c, k, d) && s >= 0
    requires data.ty == Data && data.session == s as int && data.count > 1 && data.payload == text
    requires At(c, r0.last, d, k, s, Scene(Collecting(""), [data, data], node))
    ensures GoesOn(r0, r, 0)
    ensures var ack := OnWire(Ack, data.count, s, "");
            At(c, r.last, d, k, s, Scene(Collecting(text + text), [], Post(Post(node, [ack]), [ack])))
  {
    assert [data, data][1..] == [data] && [data][1..] == [] && "" + text == text;
    r := ProxyCollects(c, r0, d, k, s, Scene(Collecting(""), [data, data], node), "");
    r := ProxyCollects(c, r, d, k, s, Scene(Collecting(text), [data], Post(node, [OnWire(Ack, data.count, s, "")])), text);
  }

  lemma BothSent<S>(c: GoodConfig<S>, r0: Run<S>, d: string, k: nat, session: Char, before: S, after: S, rs: seq<string>)
    returns (r: Run<S>)
    requires r0.c == c && Serves(c, k, d, before, after, rs) && 0 <= session < 127
    requires At(c, r0.last, d, k, session, Scene(Ready, [], IdleNode(before, None, [])))
    ensures GoesOn(r0, r, 1)
    ensures var s := session + 1;
            At(c, r.last, d, k, s, Scene(Collecting(""), [DataPacket(rs, s, 0), DataPacket(rs, s, 0)],
                                         IdleNode(after, Some(Response(rs, s, 0, 1, true)), [])))
  {
    var s := session + 1;
    var p, data := FirstPacket(c, k, d, s), DataPacket(rs, s, 0);
    assert [p] + [] == [p] && [data] + [data] == [data, data];
    r := FirstAnswered(c, r0, d, k, session, before, after, rs);
    r := SendsAgain(c, r, d, k, s, Scene(Collecting(""), [data], IdleNode(after, Some(Response(rs, s, 0, 0, true)), [p])),
                    after, rs, p, []);
  }

  /** From any quiet state, with a request of one packet and a response of two or more: no exception
      is thrown, and the client gets a response that has its first fragment twice. */
  lemma EarlyTimeoutCorrupts<S>(c: GoodConfig<S>, r0: Run<S>, d: string, k: nat, session: Char, before: S, after: S,
                                rs: seq<string>)
    returns (r: Run<S>)
    requires r0.c == c && Serves(c, k, d, before, after, rs) && |rs| >= 2 && 0 <= session < 127
    requires At(c, r0.last, d, k, session, Scene(Ready, [], IdleNode(before, None, [])))
    ensures GoesOn(r0, r, 1) && r.last.phase == Ready
    ensures |r.last.responses| == k + 1 && r.last.responses[k] == rs[0] + Concat(rs)
  {
    var s := session + 1;
    r := BothSent(c, r0, d, k, session, before, after, rs);
    r := BothTaken(c, r, d, k, s, after, rs);
    r := AheadToTheEnd(c, r, d, k, s, after, rs, 1, OnWire(Ack, |rs|, s, ""), rs[0] + rs[0]);
    Assoc(rs[0], rs[0], Concat(rs[1..]));
  }
}
