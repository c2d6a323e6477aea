// How many early timeouts of the proxy the system of Exchange survives, on channels that lose
// nothing: the condition on the configuration, for every number of timeouts.
module Timeouts {
  import opened Text
  import opened Aaa
  import opened Fragments
  import opened ProxyLink
  import opened DeviceLink
  import opened Exchange
  import opened EarlyTimeout

  predicate OnePacket(text: string, max: nat) {
    |text| + HEADER_SIZE <= max
  }

  ghost predicate SmallExchange<S>(c: GoodConfig<S>, k: nat)
    requires k < |c.requests| && Routed(c, k)
  {
    assert Servable(c, k);
    var max := c.max[c.requests[k].device];
    OnePacket(c.requests[k].text, max) && OnePacket(Served(c, k).value.1, max)
  }

  /** At most one request is routed to a device, and it and its response fit one packet each. */
  ghost predicate OneSmallExchange<S>(c: GoodConfig<S>) {
    && (forall j, k :: 0 <= j < k < |c.requests| ==> !(Routed(c, j) && Routed(c, k)))
    && (forall k :: 0 <= k < |c.requests| && Routed(c, k) ==> SmallExchange(c, k))
  }

  ghost predicate NothingRouted<S>(c: GoodConfig<S>) {
    forall k :: 0 <= k < |c.requests| ==> !Routed(c, k)
  }

  // Every response handed back is that of the plain call, and nothing has been thrown.
  ghost predicate RightSoFar<S>(c: GoodConfig<S>, w: World<S>) {
    && w.phase != Failed && |w.responses| <= |c.requests|
    && forall j :: 0 <= j < |w.responses| ==> w.responses[j] == ResponseTo(c, j)
  }

  // At most n timeouts of the proxy and, if devices are patient, none of a device.
  ghost predicate Within(actions: seq<Action>, n: nat, patient: bool) {
    ProxyTimeouts(actions) <= n && (patient ==> Patient(actions))
  }

  /** Every run with so few timeouts, at any points, is right. */
  ghost predicate Right<S(!new)>(c: GoodConfig<S>, n: nat, patient: bool) {
    forall w0: World<S>, actions: seq<Action>, w: World<S> ::
      Initial(c, w0) && Within(actions, n, patient) && Steps(c, w0, actions, w) ==> RightSoFar(c, w)
  }

  /** No run with so few timeouts ends in an exception. */
  ghost predicate NeverThrows<S(!new)>(c: GoodConfig<S>, n: nat, patient: bool) {
    forall w0: World<S>, actions: seq<Action>, w: World<S> ::
      Initial(c, w0) && Within(actions, n, patient) && Steps(c, w0, actions, w) ==> w.phase != Failed
  }

  // The proxy throws at the next timeout.
  const PATIENCE: nat := MAX_RETRANSMISSIONS + 1

  // ---------- what is kept with one small exchange ----------

  lemma SmallTalk<S>(c: GoodConfig<S>, k: nat, session: Char)
    requires k < |c.requests| && Routed(c, k)
    ensures SmallExchange(c, k)
            <==> |TalkAbout(c, k, session).cs| == 1 && |TalkAbout(c, k, session).rs| == 1
  {
    assert Servable(c, k);
    var size := c.max[c.requests[k].device] - HEADER_SIZE;
    SingleChunkIff(c.requests[k].text, size);
    SingleChunkIff(Served(c, k).value.1, size);
    ChunksShape(c.requests[k].text, size);
    ChunksShape(Served(c, k).value.1, size);
  }

  // The node has sent nothing yet.
  ghost predicate Unheard<S>(t: Talk<S>, node: Node<S>)
    requires 0 < |t.cs| <= MAX_COUNT
  {
    && Quiet(node) && node.store == t.before
    && forall i :: 0 <= i < |node.inbox| ==> node.inbox[i] == DataPacket(t.cs, t.session, 0)
  }

  // The node has acknowledged the request, and now can do nothing but send its response.
  ghost predicate Answers<S>(t: Talk<S>, node: Node<S>) {
    node.response == Some(Response(t.rs, t.session, 0, 0, false))
  }

  // The acknowledgement and the response are the first packets that the proxy gets. What else it
  // may get, and what the device does later, makes no difference.
  ghost predicate Heard<S>(t: Talk<S>, phase: Phase, toProxy: seq<Packet>, node: Node<S>, left: nat)
    requires |t.cs| == 1 && |t.rs| == 1
  {
    var ack, data := OnWire(Ack, 1, t.session, ""), DataPacket(t.rs, t.session, 0);
    match phase
    case Busy(Sending(i, retries), waiting) =>
      && i == 0 && retries + left <= PATIENCE
      && (|| (toProxy == [] && Unheard(t, node))
          || (toProxy == [ack] && Answers(t, node))
          || (|toProxy| >= 2 && toProxy[0] == ack && toProxy[1] == data))
    case Collecting(text) =>
      text == "" && ((toProxy == [] && Answers(t, node)) || (toProxy != [] && toProxy[0] == data))
    case _ => false
  }

  lemma HeardSend<S>(t: Talk<S>, send: SendState, toProxy: seq<Packet>, node: Node<S>, left: nat)
    requires |t.cs| == 1 && |t.rs| == 1 && Heard(t, Busy(send, false), toProxy, node, left)
    ensures Heard(t, Busy(send, true), toProxy, Post(node, [DataPacket(t.cs, t.session, 0)]), left)
  {
  }

  lemma HeardAck<S>(t: Talk<S>, send: SendState, toProxy: seq<Packet>, node: Node<S>, left: nat)
    requires |t.cs| == 1 && |t.rs| == 1 && t.session >= 0 && Heard(t, Busy(send, true), toProxy, node, left) && toProxy != []
    ensures var (next, answer) := AfterReply(1, t.session, send.i, send.retries, Got(toProxy[0]));
            answer == [] && Heard(t, AfterSend(next), toProxy[1..], node, left)
  {
  }

  lemma HeardTimeout<S>(t: Talk<S>, send: SendState, toProxy: seq<Packet>, node: Node<S>, left: nat)
    requires |t.cs| == 1 && |t.rs| == 1 && Heard(t, Busy(send, true), toProxy, node, left) && left > 0
    ensures Heard(t, AfterSend(AfterReply(1, t.session, send.i, send.retries, Timeout).0), toProxy, node, left - 1)
  {
  }

  lemma HeardCollect<S>(t: Talk<S>, text: string, toProxy: seq<Packet>, node: Node<S>, left: nat)
    requires |t.cs| == 1 && |t.rs| == 1 && t.session >= 0 && Heard(t, Collecting(text), toProxy, node, left) && toProxy != []
    ensures AfterData(t.session, text, toProxy[0]) == Some((Concat(t.rs), [OnWire(Ack, 1, t.session, "")], true))
  {
    assert t.rs[1..] == [] && "" + t.rs[0] == t.rs[0] == t.rs[0] + "";
  }

  lemma HeardReceive<S>(c: GoodConfig<S>, k: nat, t: Talk<S>, phase: Phase, toProxy: seq<Packet>, node: Node<S>, left: nat)
    requires k < |c.requests| && Routed(c, k) && t == TalkAbout(c, k, t.session) && t.session >= 0
    requires |t.cs| == 1 && |t.rs| == 1 && Heard(t, phase, toProxy, node, left) && node.response == None && node.inbox != []
    ensures var (node', answer) := NodeReceive(c, c.requests[k].device, node);
            Heard(t, phase, toProxy + [answer], node', left)
  {
    if phase.Busy? && toProxy == [] {
      assert Servable(c, k);
      FirstReceived(c, c.requests[k].device, c.requests[k].text, t, node);
    }
  }

  lemma FirstReceived<S>(c: Config<S>, d: string, text: string, t: Talk<S>, node: Node<S>)
    requires WellFormed(c) && d in c.max && t.session >= 0
    requires |t.cs| == 1 && |t.rs| == 1 && Unheard(t, node) && node.inbox != []
    requires t.cs == Chunks(text, c.max[d] - HEADER_SIZE)
    requires var served := c.serve(d, t.before, text);
             served.Some? && Chunks(served.value.1, c.max[d] - HEADER_SIZE) == t.rs
    ensures Answers(t, NodeReceive(c, d, node).0) && NodeReceive(c, d, node).1 == OnWire(Ack, 1, t.session, "")
  {
    ChunksShape(text, c.max[d] - HEADER_SIZE);
    assert t.cs[1..] == [] && t.cs[0] + "" == t.cs[0] == "" + t.cs[0];
    assert node.inbox[0] == DataPacket(t.cs, t.session, 0);
  }

  lemma HeardNodeSend<S>(t: Talk<S>, phase: Phase, toProxy: seq<Packet>, node: Node<S>, left: nat)
    requires |t.cs| == 1 && |t.rs| == 1 && Heard(t, phase, toProxy, node, left) && InResponse(node, false)
    ensures Heard(t, phase, toProxy + [NodeSend(node).1], NodeSend(node).0, left)
  {
  }

  lemma HeardNodeAfter<S>(t: Talk<S>, phase: Phase, toProxy: seq<Packet>, node: Node<S>, left: nat, node': Node<S>)
    requires |t.cs| == 1 && |t.rs| == 1 && Heard(t, phase, toProxy, node, left) && InResponse(node, true)
    ensures Heard(t, phase, toProxy, node', left)
  {
  }

  ghost predicate Silent<S>(node: Node<S>) {
    node.response == None && node.inbox == []
  }

  ghost predicate Untouched<S>(c: GoodConfig<S>, k: nat, d: string, node: Node<S>)
    requires k <= |c.requests| && d in c.max
  {
    Quiet(node) && node.inbox == [] && node.store == StoresAfter(c, k)[d]
  }

  ghost predicate SomeRouted<S>(c: GoodConfig<S>, k: nat)
    requires k <= |c.requests|
  {
    exists j :: 0 <= j < k && Routed(c, j)
  }

  ghost predicate CurrentCalm<S>(c: GoodConfig<S>, k: nat, session: Char, phase: Phase, toProxy: seq<Packet>,
                                 node: Node<S>, left: nat)
    requires k < |c.requests| && Routed(c, k)
  {
    var t := TalkAbout(c, k, session);
    session >= 0 && |t.cs| == 1 && |t.rs| == 1 && Heard(t, phase, toProxy, node, left)
  }

  // Before the exchange every device is as it was. During it only one is at work. After it no
  // device matters.
  ghost predicate Calm<S>(c: GoodConfig<S>, w: World<S>, left: nat) {
    && Consistent(c, w) && RightSoFar(c, w)
    && (forall d :: d in c.max ==> w.sessions[d] >= 0)
    && var k := |w.responses|;
       if w.phase == Ready then
         SomeRouted(c, k) || (w.toProxy == [] && forall d :: d in c.max ==> Untouched(c, k, d, w.nodes[d]))
       else
         var d := Current(c, w);
         && CurrentCalm(c, k, w.sessions[d], w.phase, w.toProxy, w.nodes[d], left)
         && forall e :: e in c.max && e != d ==> Silent(w.nodes[e])
  }

  lemma StartCalm<S>(c: GoodConfig<S>, w: World<S>, left: nat)
    requires OneSmallExchange(c) && (left <= PATIENCE || NothingRouted(c))
    requires Calm(c, w, left) && Enabled(c, w, Start)
    ensures Calm(c, Apply(c, w, Start), left)
  {
    var k := |w.responses|;
    if Routed(c, k) {
      var d := c.requests[k].device;
      var w' := RoutedStep(c, w, d);
      assert !SomeRouted(c, k);
      SmallTalk(c, k, w'.sessions[d]);
      assert Untouched(c, k, d, w.nodes[d]);
      StartedCalm(c, w, d, w', left);
    } else {
      var w' := UnroutedStep(c, w);
      RefusedCalm(c, w, w', left);
    }
  }

  lemma StartedCalm<S>(c: GoodConfig<S>, w: World<S>, d: string, w': World<S>, left: nat)
    requires Calm(c, w, left) && w.phase == Ready && |w.responses| < |c.requests| && !SomeRouted(c, |w.responses|)
    requires d == c.requests[|w.responses|].device && d in c.max && w.sessions[d] < 127 && left <= PATIENCE
    requires SmallExchange(c, |w.responses|)
    requires w' == w.(sessions := w.sessions[d := w.sessions[d] + 1], phase := Busy(Sending(0, 0), false))
    ensures Calm(c, w', left)
  {
    var k := |w.responses|;
    SmallTalk(c, k, w'.sessions[d]);
    assert Untouched(c, k, d, w.nodes[d]);
    assert CurrentCalm(c, k, w'.sessions[d], w'.phase, [], w.nodes[d], left);
    forall e | e in c.max && e != d
      ensures Silent(w'.nodes[e])
    {
      assert Untouched(c, k, e, w.nodes[e]);
    }
  }

  lemma RefusedCalm<S>(c: GoodConfig<S>, w: World<S>, w': World<S>, left: nat)
    requires Calm(c, w, left) && w.phase == Ready && |w.responses| < |c.requests| && !Routed(c, |w.responses|)
    requires w' == w.(responses := w.responses + [c.badGateway])
    ensures Calm(c, w', left)
  {
    var k := |w.responses|;
    ResponsesExtend(c, w.responses);
    if SomeRouted(c, k) {
      var j :| 0 <= j < k && Routed(c, j);
      assert Routed(c, j);
    } else {
      forall d | d in c.max
        ensures Untouched(c, k + 1, d, w'.nodes[d])
      {
        assert Untouched(c, k, d, w.nodes[d]);
        NextStore(c, k, d);
      }
    }
  }

  // A step that only concerns the proxy and the current device.
  lemma CurrentOnlyCalm<S>(c: GoodConfig<S>, w: World<S>, w': World<S>, left: nat, left': nat)
    requires Calm(c, w, left) && w.phase != Ready && Consistent(c, w') && w'.phase != Ready
    requires w'.responses == w.responses && w'.sessions == w.sessions
    requires forall e :: e in c.max && e != Current(c, w) ==> w'.nodes[e] == w.nodes[e]
    requires var d := Current(c, w);
             CurrentCalm(c, |w.responses|, w.sessions[d], w'.phase, w'.toProxy, w'.nodes[d], left')
    ensures Calm(c, w', left')
  {
  }

  lemma ProxyCalm<S>(c: GoodConfig<S>, w: World<S>, a: Action, left: nat)
    requires Calm(c, w, left) && Enabled(c, w, a) && (a == ProxySend || a == ProxyAck)
    ensures Calm(c, Apply(c, w, a), left)
  {
    var d, t := Current(c, w), TalkAbout(c, |w.responses|, w.sessions[Current(c, w)]);
    if a == ProxySend {
      HeardSend(t, w.phase.send, w.toProxy, w.nodes[d], left);
    } else {
      HeardAck(t, w.phase.send, w.toProxy, w.nodes[d], left);
      assert Post(w.nodes[d], []) == w.nodes[d];
    }
    CurrentOnlyCalm(c, w, Apply(c, w, a), left, left);
  }

  lemma TimeoutCalm<S>(c: GoodConfig<S>, w: World<S>, left: nat)
    requires Calm(c, w, left) && Enabled(c, w, ProxyTimeout) && left > 0
    ensures Calm(c, Apply(c, w, ProxyTimeout), left - 1)
  {
    var d, t := Current(c, w), TalkAbout(c, |w.responses|, w.sessions[Current(c, w)]);
    HeardTimeout(t, w.phase.send, w.toProxy, w.nodes[d], left);
    CurrentOnlyCalm(c, w, Apply(c, w, ProxyTimeout), left, left - 1);
  }

  lemma CollectCalm<S>(c: GoodConfig<S>, w: World<S>, left: nat)
    requires Calm(c, w, left) && Enabled(c, w, ProxyCollect)
    ensures Calm(c, Apply(c, w, ProxyCollect), left)
  {
    var k, d, w' := |w.responses|, Current(c, w), Apply(c, w, ProxyCollect);
    var t := TalkAbout(c, k, w.sessions[d]);
    HeardCollect(t, w.phase.text, w.toProxy, w.nodes[d], left);
    WholeResponse(c, k, w.sessions[d]);
    Exchange.CollectStep(c, w, d, w');
    ResponsesExtend(c, w.responses);
    assert Routed(c, k);
  }

  lemma WholeResponse<S>(c: GoodConfig<S>, k: nat, session: Char)
    requires k < |c.requests| && Routed(c, k)
    ensures Concat(TalkAbout(c, k, session).rs) == ResponseTo(c, k)
  {
    assert Servable(c, k);
    ChunksShape(Served(c, k).value.1, c.max[c.requests[k].device] - HEADER_SIZE);
  }

  ghost predicate ByDevice(a: Action) {
    a.DeviceReceive? || a.DeviceSend? || a.DeviceReply? || a.DeviceTimeout?
  }

  // A device that is not in an exchange can do something only after the exchange.
  lemma NothingToDo<S>(c: GoodConfig<S>, w: World<S>, a: Action, left: nat)
    requires Calm(c, w, left) && ByDevice(a) && (w.phase == Ready || a.d != Current(c, w))
    ensures Enabled(c, w, a) ==> w.phase == Ready && SomeRouted(c, |w.responses|)
  {
    if a.d in c.max && !(w.phase == Ready && SomeRouted(c, |w.responses|)) {
      assert w.phase == Ready ==> Untouched(c, |w.responses|, a.d, w.nodes[a.d]);
      SilentNode(c, w, a);
    }
  }

  lemma SilentNode<S>(c: Config<S>, w: World<S>, a: Action)
    requires Consistent(c, w) && ByDevice(a) && a.d in w.nodes && Silent(w.nodes[a.d])
    ensures !Enabled(c, w, a)
  {
  }

  lemma IdleCalm<S>(c: GoodConfig<S>, w: World<S>, a: Action, left: nat)
    requires Calm(c, w, left) && Enabled(c, w, a) && ByDevice(a) && (w.phase == Ready || a.d != Current(c, w))
    ensures Calm(c, Apply(c, w, a), left)
  {
    NothingToDo(c, w, a, left);
  }

  lemma DeviceCalm<S>(c: GoodConfig<S>, w: World<S>, a: Action, left: nat)
    requires Calm(c, w, left) && Enabled(c, w, a) && w.phase != Ready
    requires a == DeviceReceive(Current(c, w)) || a == DeviceSend(Current(c, w))
    ensures Calm(c, Apply(c, w, a), left)
  {
    var k, d := |w.responses|, Current(c, w);
    var t := TalkAbout(c, k, w.sessions[d]);
    if a.DeviceReceive? {
      HeardReceive(c, k, t, w.phase, w.toProxy, w.nodes[d], left);
    } else {
      HeardNodeSend(t, w.phase, w.toProxy, w.nodes[d], left);
    }
    CurrentOnlyCalm(c, w, Apply(c, w, a), left, left);
  }

  lemma DeviceAfterCalm<S>(c: GoodConfig<S>, w: World<S>, a: Action, left: nat)
    requires Calm(c, w, left) && Enabled(c, w, a) && w.phase != Ready
    requires a == DeviceReply(Current(c, w)) || a == DeviceTimeout(Current(c, w))
    ensures Calm(c, Apply(c, w, a), left)
  {
    var k, d, w' := |w.responses|, Current(c, w), Apply(c, w, a);
    HeardNodeAfter(TalkAbout(c, k, w.sessions[d]), w.phase, w.toProxy, w.nodes[d], left, w'.nodes[d]);
    CurrentOnlyCalm(c, w, w', left, left);
  }

  lemma StepCalm<S>(c: GoodConfig<S>, w: World<S>, a: Action, left: nat)
    requires OneSmallExchange(c) && (left <= PATIENCE || NothingRouted(c))
    requires Calm(c, w, left) && Enabled(c, w, a) && (a == ProxyTimeout ==> left > 0)
    ensures Calm(c, Apply(c, w, a), if a == ProxyTimeout then left - 1 else left)
  {
    match a
    case Start => StartCalm(c, w, left);
    case ProxyCollect => CollectCalm(c, w, left);
    case ProxyTimeout => TimeoutCalm(c, w, left);
    case ProxySend => ProxyCalm(c, w, a, left);
    case ProxyAck => ProxyCalm(c, w, a, left);
    case DeviceReceive(d) =>
      if w.phase == Ready || d != Current(c, w) { IdleCalm(c, w, a, left); } else { DeviceCalm(c, w, a, left); }
    case DeviceSend(d) =>
      if w.phase == Ready || d != Current(c, w) { IdleCalm(c, w, a, left); } else { DeviceCalm(c, w, a, left); }
    case _ =>
      if w.phase == Ready || a.d != Current(c, w) { IdleCalm(c, w, a, left); } else { DeviceAfterCalm(c, w, a, left); }
  }

  lemma {:induction false} RunCalm<S>(c: GoodConfig<S>, w: World<S>, actions: seq<Action>, t: World<S>, left: nat)
    requires OneSmallExchange(c) && (left <= PATIENCE || NothingRouted(c))
    requires Calm(c, w, left) && Steps(c, w, actions, t) && ProxyTimeouts(actions) <= left
    ensures RightSoFar(c, t)
    decreases |actions|
  {
    if actions != [] {
      var a := actions[0];
      StepCalm(c, w, a, left);
      RunCalm(c, Apply(c, w, a), actions[1..], t, if a == ProxyTimeout then left - 1 else left);
    }
  }

  lemma InitCalm<S>(c: GoodConfig<S>, w: World<S>, left: nat)
    requires Initial(c, w)
    ensures Calm(c, w, left)
  {
    assert forall d :: d in c.max ==> Untouched(c, 0, d, w.nodes[d]);
  }

  /** With one small exchange, and up to 13 timeouts of the proxy, every run is right, whatever the
      devices' own timeouts do. */
  lemma OneSmallIsRight<S>(c: GoodConfig<S>, w0: World<S>, actions: seq<Action>, w: World<S>)
    requires OneSmallExchange(c) && (ProxyTimeouts(actions) <= PATIENCE || NothingRouted(c))
    requires Initial(c, w0) && Steps(c, w0, actions, w)
    ensures RightSoFar(c, w)
  {
    InitCalm(c, w0, ProxyTimeouts(actions));
    RunCalm(c, w0, actions, w, ProxyTimeouts(actions));
  }

  // ---------- the runs that go wrong ----------

  lemma FromTheStart<S>(c: GoodConfig<S>) returns (r: Run<S>)
    ensures r.c == c && r.spent == 0 && Initial(c, r.first) && r.last == r.first
  {
    var w := World(Ready, map d | d in c.max :: 0 as Char, [],
                   map d | d in c.max :: IdleNode(c.stores[d], None, []), []);
    r := Trace(c, w, [w], [], w, 0);
  }

  // The proxy refuses requests up to request m.
  lemma {:induction false} Refuses<S>(c: GoodConfig<S>, r0: Run<S>, m: nat) returns (r: Run<S>)
    requires r0.c == c && r0.last.phase == Ready && |r0.last.responses| <= m <= |c.requests|
    requires forall j :: |r0.last.responses| <= j < m ==> !Routed(c, j)
    ensures GoesOn(r0, r, 0) && |r.last.responses| == m && r.last == r0.last.(responses := r.last.responses)
    decreases m - |r0.last.responses|
  {
    r := r0;
    if |r0.last.responses| < m {
      var w := UnroutedStep(c, r0.last);
      r := Then(r0, Start);
      r := Refuses(c, r, m);
    }
  }

  lemma {:induction false} FirstRouted<S>(c: GoodConfig<S>, from: nat, k: nat) returns (m: nat)
    requires from <= k < |c.requests| && Routed(c, k)
    ensures from <= m <= k && Routed(c, m) && forall j :: from <= j < m ==> !Routed(c, j)
    decreases k - from
  {
    if Routed(c, from) {
      m := from;
    } else {
      m := FirstRouted(c, from + 1, k);
    }
  }

  lemma {:induction false} StoresUntouched<S>(c: GoodConfig<S>, k: nat)
    requires k <= |c.requests| && forall j :: 0 <= j < k ==> !Routed(c, j)
    ensures StoresAfter(c, k) == c.stores
  {
    if k > 0 {
      StoresUntouched(c, k - 1);
    }
  }

  // A run up to the first request that is routed.
  lemma UpToRequest<S>(c: GoodConfig<S>, k: nat, d: string) returns (r: Run<S>)
    requires Goes(c, k, d) && forall j :: 0 <= j < k ==> !Routed(c, j)
    ensures r.c == c && r.spent == 0 && Initial(c, r.first)
    ensures At(c, r.last, d, k, 0, Scene(Ready, [], IdleNode(StoresAfter(c, k)[d], None, [])))
  {
    var r0 := FromTheStart(c);
    StoresUntouched(c, k);
    r := Refuses(c, r0, k);
  }

  /** Timed out again and again, the proxy gives up. */
  lemma {:induction false} TimesOutAgain<S>(c: GoodConfig<S>, r0: Run<S>, d: string, k: nat, session: Char, node: Node<S>,
                                            retries: nat)
    returns (r: Run<S>)
    requires r0.c == c && Goes(c, k, d) && retries <= PATIENCE
    requires At(c, r0.last, d, k, session, Scene(Busy(Sending(0, retries), true), [], node))
    ensures GoesOn(r0, r, PATIENCE + 1 - retries) && r.last.phase == Failed
    decreases PATIENCE - retries
  {
    if retries < PATIENCE {
      r := SendAgain(c, r0, d, k, session, node, retries);
      r := TimesOutAgain(c, r, d, k, session, Post(node, [FirstPacket(c, k, d, session)]), retries + 1);
    } else {
      r := ProxyTimesOut(c, r0, d, k, session, Scene(Busy(Sending(0, retries), true), [], node), retries);
    }
  }

  /** As soon as one request is routed, there is a run with 14 timeouts in which the proxy gives up. */
  lemma GivesUp<S>(c: GoodConfig<S>) returns (r: Run<S>)
    requires !NothingRouted(c)
    ensures r.c == c && r.spent == PATIENCE + 1 && Initial(c, r.first) && r.last.phase == Failed
  {
    var some :| 0 <= some < |c.requests| && Routed(c, some);
    var k := FirstRouted(c, 0, some);
    var d := c.requests[k].device;
    var store := StoresAfter(c, k)[d];
    r := UpToRequest(c, k, d);
    r := SendOnce(c, r, d, k, 0, store);
    r := TimesOutAgain(c, r, d, k, 1, Post(IdleNode(store, None, []), [FirstPacket(c, k, d, 1)]), 0);
  }

  // ---------- session numbers in any run ----------

  ghost predicate Counted<S>(c: GoodConfig<S>, w: World<S>)
    requires Consistent(c, w)
  {
    forall d :: d in c.max ==>
      w.sessions[d] as int == Uses(c, |w.responses|, d) + if w.phase != Ready && d == Current(c, w) then 1 else 0
  }

  // Nothing is counted while an exchange goes on; its end counts it among the answered ones.
  lemma StillCounted<S>(c: GoodConfig<S>, w: World<S>, w': World<S>)
    requires Consistent(c, w) && Counted(c, w) && Consistent(c, w') && w'.sessions == w.sessions
    requires || (w'.responses == w.responses && (w'.phase == Ready <==> w.phase == Ready))
             || (|w'.responses| == |w.responses| + 1 && w'.phase == Ready && (w.phase == Ready ==> !Routed(c, |w.responses|)))
    ensures Counted(c, w')
  {
  }

  lemma StartCounted<S>(c: GoodConfig<S>, w: World<S>)
    requires Consistent(c, w) && Counted(c, w) && Enabled(c, w, Start)
    ensures Counted(c, Apply(c, w, Start))
  {
    if Routed(c, |w.responses|) {
      var w' := RoutedStep(c, w, c.requests[|w.responses|].device);
    } else {
      var w' := UnroutedStep(c, w);
      StillCounted(c, w, w');
    }
  }

  lemma StepCounted<S>(c: GoodConfig<S>, w: World<S>, a: Action)
    requires Consistent(c, w) && Counted(c, w) && Enabled(c, w, a)
    ensures Counted(c, Apply(c, w, a))
  {
    if a == Start {
      StartCounted(c, w);
    } else {
      StillCounted(c, w, Apply(c, w, a));
    }
  }

  lemma {:induction false} RunCounted<S>(r: Run<S>, i: nat)
    requires i <= |r.actions| && Initial(r.c, r.first)
    ensures Consistent(r.c, r.states[i]) && Counted(r.c, r.states[i])
  {
    if i > 0 {
      RunCounted(r, i - 1);
      assert Follows(r.c, r.states[i - 1], r.actions[i - 1], r.states[i - 1 + 1]);
      StepCounted(r.c, r.states[i - 1], r.actions[i - 1]);
    }
  }

  lemma RoomForOneMore<S>(c: GoodConfig<S>, r: Run<S>, k: nat, d: string)
    requires r.c == c && Initial(c, r.first) && r.last.phase == Ready && |r.last.responses| == k && Goes(c, k, d)
    ensures r.last.sessions[d] < 127
  {
    RunCounted(r, |r.actions|);
    UsesMonotone(c, k + 1, |c.requests|, d);
  }

  // ---------- one early timeout ----------

  /** After a small exchange with a timeout the next request that is routed, to whichever device,
      meets the second copy of the response. */
  lemma LaterFails<S>(c: GoodConfig<S>, r0: Run<S>, k: nat, data: Packet, m: nat) returns (r: Run<S>)
    requires r0.c == c && Initial(c, r0.first) && data.ty == Data
    requires r0.last.phase == Ready && r0.last.toProxy == [data] && |r0.last.responses| == k <= m < |c.requests|
    requires Routed(c, m) && forall j :: k <= j < m ==> !Routed(c, j)
    ensures GoesOn(r0, r, 0) && r.last.phase == Failed
  {
    var e := c.requests[m].device;
    r := Refuses(c, r0, m);
    RoomForOneMore(c, r, m, e);
    r := NextFails(c, r, e, m, r.last.sessions[e], data, r.last.nodes[e]);
  }

  // What one timeout in the first exchange does, by the sizes of its messages.
  lemma FirstHarmed<S>(c: GoodConfig<S>, r0: Run<S>, d: string, k: nat, t: Talk<S>) returns (r: Run<S>)
    requires r0.c == c && Goes(c, k, d) && t == TalkAbout(c, k, 1) && (|t.cs| >= 2 || |t.rs| >= 2)
    requires At(c, r0.last, d, k, 0, Scene(Ready, [], IdleNode(t.before, None, [])))
    ensures GoesOn(r0, r, 1) && !RightSoFar(c, r.last)
  {
    if |t.cs| >= 2 {
      r := EarlyTimeoutThrows(c, r0, d, k, 0, t.before);
    } else {
      ServesTalk(c, d, k, t);
      r := EarlyTimeoutCorrupts(c, r0, d, k, 0, t.before, t.after, t.rs);
      WholeResponse(c, k, 1);
      assert |t.rs[0] + Concat(t.rs)| > |Concat(t.rs)|;
    }
  }

  lemma ServesTalk<S>(c: GoodConfig<S>, d: string, k: nat, t: Talk<S>)
    requires Goes(c, k, d) && t == TalkAbout(c, k, 1) && |t.cs| == 1
    ensures Serves(c, k, d, t.before, t.after, t.rs) && t.rs[0] != ""
  {
    assert Servable(c, k);
    ChunksShape(Served(c, k).value.1, c.max[d] - HEADER_SIZE);
  }

  lemma LeavesCopy<S>(c: GoodConfig<S>, r0: Run<S>, d: string, k: nat, t: Talk<S>) returns (r: Run<S>)
    requires r0.c == c && Goes(c, k, d) && t == TalkAbout(c, k, 1) && |t.cs| == 1 && |t.rs| == 1
    requires At(c, r0.last, d, k, 0, Scene(Ready, [], IdleNode(t.before, None, [])))
    ensures GoesOn(r0, r, 1)
    ensures r.last.phase == Ready && |r.last.responses| == k + 1 && r.last.toProxy == [DataPacket(t.rs, 1, 0)]
  {
    ServesTalk(c, d, k, t);
    r := AnsweredTwice(c, r0, d, k, 0, t.before, t.after, t.rs);
  }

  lemma SecondHarmed<S>(c: GoodConfig<S>, r0: Run<S>, d: string, k: nat, t: Talk<S>, m: nat) returns (r: Run<S>)
    requires r0.c == c && Initial(c, r0.first) && Goes(c, k, d) && t == TalkAbout(c, k, 1) && |t.cs| == 1 && |t.rs| == 1
    requires At(c, r0.last, d, k, 0, Scene(Ready, [], IdleNode(t.before, None, [])))
    requires k < m < |c.requests| && Routed(c, m) && forall j :: k < j < m ==> !Routed(c, j)
    ensures GoesOn(r0, r, 1) && r.last.phase == Failed
  {
    r := LeavesCopy(c, r0, d, k, t);
    r := LaterFails(c, r, k + 1, DataPacket(t.rs, 1, 0), m);
  }

  /** Whatever else than one small exchange there is, one early timeout does harm. */
  lemma OneTimeoutHarms<S>(c: GoodConfig<S>) returns (r: Run<S>)
    requires !OneSmallExchange(c)
    ensures r.c == c && r.spent == 1 && Initial(c, r.first) && !RightSoFar(c, r.last)
  {
    var k := FirstOfAll(c);
    r := UpToRequest(c, k, c.requests[k].device);
    r := HarmedFrom(c, r, c.requests[k].device, k);
  }

  lemma HarmedFrom<S>(c: GoodConfig<S>, r0: Run<S>, d: string, k: nat) returns (r: Run<S>)
    requires !OneSmallExchange(c) && Goes(c, k, d) && forall j :: 0 <= j < k ==> !Routed(c, j)
    requires r0.c == c && Initial(c, r0.first)
    requires At(c, r0.last, d, k, 0, Scene(Ready, [], IdleNode(StoresAfter(c, k)[d], None, [])))
    ensures GoesOn(r0, r, 1) && !RightSoFar(c, r.last)
  {
    var t := TalkAbout(c, k, 1);
    SmallTalk(c, k, 1);
    if |t.cs| >= 2 || |t.rs| >= 2 {
      r := FirstHarmed(c, r0, d, k, t);
    } else {
      var m := SecondOfAll(c, k);
      r := SecondHarmed(c, r0, d, k, t, m);
    }
  }

  lemma FirstOfAll<S>(c: GoodConfig<S>) returns (k: nat)
    requires !OneSmallExchange(c)
    ensures k < |c.requests| && Routed(c, k) && forall j :: 0 <= j < k ==> !Routed(c, j)
  {
    var some :| 0 <= some < |c.requests| && Routed(c, some);
    k := FirstRouted(c, 0, some);
  }

  // If the first exchange is small, there is a second one.
  lemma SecondOfAll<S>(c: GoodConfig<S>, k: nat) returns (m: nat)
    requires !OneSmallExchange(c) && k < |c.requests| && Routed(c, k) && SmallExchange(c, k)
    requires forall j :: 0 <= j < k ==> !Routed(c, j)
    ensures k < m < |c.requests| && Routed(c, m) && forall j :: k < j < m ==> !Routed(c, j)
  {
    var some :| k < some < |c.requests| && Routed(c, some);
    m := FirstRouted(c, k + 1, some);
  }

  // ---------- the condition ----------

  lemma WrongRun<S(!new)>(c: GoodConfig<S>, r: Run<S>, n: nat, patient: bool)
    requires r.c == c && Initial(c, r.first) && r.spent <= n
    ensures !RightSoFar(c, r.last) ==> !Right(c, n, patient)
    ensures r.last.phase == Failed ==> !NeverThrows(c, n, patient)
  {
    RunSteps(r, 0);
    assert r.actions[0..] == r.actions;
    assert Steps(c, r.first, r.actions, r.last) && Within(r.actions, n, patient);
  }

  lemma {:induction false} NoTimeoutIsTimely<S>(c: GoodConfig<S>, w: World<S>, actions: seq<Action>, t: World<S>)
    requires Consistent(c, w) && Steps(c, w, actions, t) && ProxyTimeouts(actions) == 0 && Patient(actions)
    ensures TimelySteps(c, w, actions, t)
    decreases |actions|
  {
    if actions != [] {
      NoTimeoutIsTimely(c, Apply(c, w, actions[0]), actions[1..], t);
    }
  }

  lemma RightWithout<S(!new)>(c: GoodConfig<S>)
    ensures Right(c, 0, true)
  {
    forall w0: World<S>, actions: seq<Action>, w: World<S> |
      Initial(c, w0) && Within(actions, 0, true) && Steps(c, w0, actions, w)
      ensures RightSoFar(c, w)
    {
      NoTimeoutIsTimely(c, w0, actions, w);
      RunRefinesCalls(c, w0, actions, w);
    }
  }

  lemma RightWith<S(!new)>(c: GoodConfig<S>, n: nat, patient: bool)
    requires OneSmallExchange(c) && (n <= PATIENCE || NothingRouted(c))
    ensures Right(c, n, patient)
  {
    forall w0: World<S>, actions: seq<Action>, w: World<S> |
      Initial(c, w0) && Within(actions, n, patient) && Steps(c, w0, actions, w)
      ensures RightSoFar(c, w)
    {
      OneSmallIsRight(c, w0, actions, w);
    }
  }

  /** When every run is right, by the number of timeouts of the proxy: always without any; with 1 to
      13, if and only if at most one request is routed, and it and its response fit one packet;
      with more, if and only if no request is routed, and then and only then nothing is thrown. */
  lemma RightIff<S(!new)>(c: GoodConfig<S>, n: nat, patient: bool)
    ensures n == 0 && patient ==> Right(c, n, patient)
    ensures 1 <= n <= PATIENCE ==> (Right(c, n, patient) <==> OneSmallExchange(c))
    ensures n > PATIENCE ==> (Right(c, n, patient) <==> NothingRouted(c))
    ensures n > PATIENCE ==> (NeverThrows(c, n, patient) <==> NothingRouted(c))
  {
    if n == 0 {
      RightWithout(c);
    } else if n <= PATIENCE {
      if OneSmallExchange(c) {
        RightWith(c, n, patient);
      } else {
        var r := OneTimeoutHarms(c);
        WrongRun(c, r, n, patient);
      }
    } else if NothingRouted(c) {
      RightWith(c, n, patient);
    } else {
      var r := GivesUp(c);
      WrongRun(c, r, n, patient);
    }
  }
}
