// One request crossing from the proxy to the device over a network that may lose, duplicate,
// delay and reorder packets. A packet once sent can be delivered at any later time, any
// number of times or never: each direction is the set of all packets sent so far.
module StopAndWait {
  import opened Text
  import opened Aaa
  import opened ProxyLink
  import opened DeviceLink

  // The fragments of a request and its session.
  datatype Parameters = Parameters(cs: seq<string>, session: Char) {
    // What the caller of SendDataDevice and the session counter guarantee.
    predicate Valid() {
      && 0 < |cs| <= MAX_COUNT
      && session >= 0
      && forall i :: 0 <= i < |cs| ==> cs[i] != ""
    }
  }

  type Config = c: Parameters | c.Valid() witness Parameters(["x"], 1)

  datatype Sys = Sys(
    proxy: SendState, waiting: bool,
    device: Receiver, response: Option<Response>,
    toDevice: set<Packet>, toProxy: set<Packet>,
    // History, up to the first complete request: the fragments accepted, in order, and whether
    // an ERROR was sent. And all texts that were handed to ParseRequest.
    accepted: seq<nat>, errored: bool, delivered: seq<string>)

  datatype Action =
    | ProxySend
    | ProxyReceive(reply: Reply)
    | DeviceReceive(packet: Packet, handled: Option<seq<string>>)  // None: the parse failed
    | DeviceSend
    | DeviceReply(answer: Reply)

  ghost predicate Initial(c: Config, s: Sys) {
    && s.proxy == Sending(0, 0) && !s.waiting
    && Idle(s.device) && s.device.buffer == "" && s.response == None
    && s.toDevice == {}
    // Left over from earlier sessions: acknowledgements with other session ids, and anything else.
    && (forall p :: p in s.toProxy && p.ty == Ack ==> p.session != c.session as int)
    && s.accepted == [] && !s.errored && s.delivered == []
  }

  ghost predicate Arrives(reply: Reply, network: set<Packet>) {
    reply.Got? ==> reply.packet in network
  }

  ghost predicate Enabled(c: Config, s: Sys, a: Action) {
    match a
    case ProxySend => s.proxy.Sending? && s.proxy.i < |c.cs| && !s.waiting
    case ProxyReceive(reply) => s.proxy.Sending? && s.proxy.i < |c.cs| && s.waiting && Arrives(reply, s.toProxy)
    case DeviceReceive(p, _) => s.response == None && p in s.toDevice
    case DeviceSend => s.response.Some? && !s.response.value.waiting && GoodResponse(s.response.value)
    case DeviceReply(reply) =>
      s.response.Some? && s.response.value.waiting && GoodResponse(s.response.value) && Arrives(reply, s.toDevice)
  }

  ghost predicate GoodResponse(r: Response) {
    r.i < |r.rs| <= MAX_COUNT
  }

  ghost function Apply(c: Config, s: Sys, a: Action): Sys
    requires Enabled(c, s, a)
  {
    match a
    case ProxySend =>
      s.(waiting := true, toDevice := s.toDevice + {DataPacket(c.cs, c.session, s.proxy.i)})
    case ProxyReceive(reply) =>
      var (next, answer) := AfterReply(|c.cs|, c.session, s.proxy.i, s.proxy.retries, reply);
      s.(proxy := next, waiting := false, toDevice := s.toDevice + (set p | p in answer))
    case DeviceReceive(p, handled) =>
      var r := Receive(s.device, p);
      var t := s.(
        toProxy := s.toProxy + {r.answer},
        accepted := if r.answer.ty == Ack && s.delivered == [] && p.count <= |c.cs|
                    then s.accepted + [|c.cs| - p.count] else s.accepted,
        errored := s.errored || (r.answer.ty == Error && s.delivered == []),
        delivered := if r.complete.Some? then s.delivered + [r.complete.value] else s.delivered);
      if r.complete.Some? && handled.Some? then
        t.(device := r.next.(buffer := ""),
           response := if 0 < |handled.value| <= MAX_COUNT
                       then Some(Response(handled.value, p.session as Char, 0, 0, false)) else None)
      else
        t.(device := r.next)
    case DeviceSend =>
      var r := s.response.value;
      s.(response := Some(r.(waiting := true)), toProxy := s.toProxy + {DataPacket(r.rs, r.session, r.i)})
    case DeviceReply(reply) =>
      var r := s.response.value;
      var next := AfterAck(|r.rs|, r.i, r.retries, reply);
      s.(response := if next.Responding? then Some(r.(i := next.i, retries := next.retries, waiting := false)) else None)
  }

  // A run from s to t.
  ghost predicate Steps(c: Config, s: Sys, actions: seq<Action>, t: Sys)
    decreases |actions|
  {
    if actions == [] then s == t
    else Enabled(c, s, actions[0]) && Steps(c, Apply(c, s, actions[0]), actions[1..], t)
  }

  ghost predicate Reachable(c: Config, s: Sys)
  {
    exists s0, actions :: Initial(c, s0) && Steps(c, s0, actions, s)
  }

  // ---------- accepted fragments ----------

  /** How many fragments, from the first on, have been accepted at least once, when no fragment
      is accepted before its predecessor. */
  ghost function Covered(accepted: seq<nat>): nat {
    if accepted == [] then 0
    else
      var n := |accepted| - 1;
      var before := Covered(accepted[..n]);
      if accepted[n] == before then before + 1 else before
  }

  ghost predicate InOrder(accepted: seq<nat>) {
    forall j :: 0 <= j < |accepted| ==> accepted[j] <= Covered(accepted[..j])
  }

  /** The accepted fragments' texts, in the order of acceptance. */
  ghost function Gathered(cs: seq<string>, accepted: seq<nat>): string
    requires forall j :: 0 <= j < |accepted| ==> accepted[j] < |cs|
  {
    if accepted == [] then ""
    else
      var n := |accepted| - 1;
      Gathered(cs, accepted[..n]) + cs[accepted[n]]
  }

  lemma {:induction false} CoveredBelow(accepted: seq<nat>, m: nat)
    requires forall j :: 0 <= j < |accepted| ==> accepted[j] < m
    ensures Covered(accepted) <= m
  {
    if accepted != [] {
      var n := |accepted| - 1;
      CoveredBelow(accepted[..n], m);
      assert accepted[n] < m;
    }
  }

  lemma InOrderSnoc(accepted: seq<nat>, k: nat)
    requires InOrder(accepted) && k <= Covered(accepted)
    ensures InOrder(accepted + [k])
    ensures Covered(accepted + [k]) == if k == Covered(accepted) then k + 1 else Covered(accepted)
  {
    var longer := accepted + [k];
    assert longer[..|accepted|] == accepted;
    forall j | 0 <= j < |longer|
      ensures longer[j] <= Covered(longer[..j])
    {
      if j < |accepted| {
        assert longer[..j] == accepted[..j];
      }
    }
  }

  lemma GatheredSnoc(cs: seq<string>, accepted: seq<nat>, k: nat)
    requires k < |cs| && forall j :: 0 <= j < |accepted| ==> accepted[j] < |cs|
    ensures Gathered(cs, accepted + [k]) == Gathered(cs, accepted) + cs[k]
  {
    assert (accepted + [k])[..|accepted|] == accepted;
  }

  lemma InOrderPrefix(accepted: seq<nat>)
    requires accepted != [] && InOrder(accepted)
    ensures InOrder(accepted[..|accepted| - 1]) && accepted[|accepted| - 1] <= Covered(accepted[..|accepted| - 1])
  {
    var n := |accepted| - 1;
    forall j | 0 <= j < n
      ensures accepted[..n][j] <= Covered(accepted[..n][..j])
    {
      assert accepted[..n][..j] == accepted[..j];
    }
  }

  lemma NextChunk(cs: seq<string>, k: nat)
    requires k < |cs|
    ensures Concat(cs[..k + 1]) == Concat(cs[..k]) + cs[k]
  {
    assert cs[..k + 1] == cs[..k] + [cs[k]];
    ConcatSnoc(cs[..k], cs[k]);
  }

  /** Every repeated acceptance makes the gathered text longer than what it covers. */
  lemma {:induction false} GatheredLength(cs: seq<string>, accepted: seq<nat>)
    requires forall j :: 0 <= j < |accepted| ==> accepted[j] < |cs|
    requires forall i :: 0 <= i < |cs| ==> cs[i] != ""
    requires InOrder(accepted)
    ensures Covered(accepted) <= |accepted| && Covered(accepted) <= |cs|
    ensures |Gathered(cs, accepted)| >= |Concat(cs[..Covered(accepted)])| + |accepted| - Covered(accepted)
    ensures |accepted| == Covered(accepted) ==> Gathered(cs, accepted) == Concat(cs[..|accepted|])
  {
    if accepted != [] {
      var n := |accepted| - 1;
      var before := Covered(accepted[..n]);
      InOrderPrefix(accepted);
      GatheredLength(cs, accepted[..n]);
      if accepted[n] == before {
        NextChunk(cs, before);
      }
    }
  }

  /** The gathered text is the whole data exactly when nothing was accepted twice. */
  lemma GatheredExactIff(cs: seq<string>, accepted: seq<nat>)
    requires forall j :: 0 <= j < |accepted| ==> accepted[j] < |cs|
    requires forall i :: 0 <= i < |cs| ==> cs[i] != ""
    requires InOrder(accepted) && Covered(accepted) == |cs|
    ensures Gathered(cs, accepted) == Concat(cs) <==> |accepted| == |cs|
  {
    GatheredLength(cs, accepted);
    assert cs[..|cs|] == cs;
  }

  // ---------- the invariant ----------

  // How far the proxy's index has come.
  ghost function Index(c: Config, proxy: SendState): nat {
    match proxy
    case Sending(i, _) => i
    case _ => |c.cs|
  }

  // The accepted fragments are in range and in order.
  ghost predicate LogOk(c: Config, accepted: seq<nat>) {
    (forall j :: 0 <= j < |accepted| ==> accepted[j] < |c.cs|) && InOrder(accepted)
  }

  ghost predicate LogInv(c: Config, s: Sys) {
    LogOk(c, s.accepted) && (s.proxy.Sending? ==> s.proxy.i < |c.cs|)
  }

  // Every DATA packet is a fragment that the proxy has reached.
  ghost predicate DataOk(c: Config, toDevice: set<Packet>, index: nat, accepted: seq<nat>, open: bool) {
    var n := |c.cs|;
    forall p :: p in toDevice && p.ty == Data ==>
      && p.session == c.session as int && 1 <= p.count <= n && p.payload == c.cs[n - p.count]
      && n - p.count <= index
      && (open ==> n - p.count <= Covered(accepted))
  }

  // Every acknowledgement of this session is one of an accepted fragment.
  ghost predicate AcksOk(c: Config, toProxy: set<Packet>, accepted: seq<nat>) {
    var n := |c.cs|;
    forall p :: p in toProxy && p.ty == Ack && p.session == c.session as int && p.count <= n ==>
      n - p.count < Covered(accepted)
  }

  ghost predicate WireInv(c: Config, s: Sys) {
    && DataOk(c, s.toDevice, Index(c, s.proxy), s.accepted, s.delivered == [])
    && (s.delivered == [] ==> AcksOk(c, s.toProxy, s.accepted))
  }

  // Up to the first complete request: proxy and device are at most one fragment apart, and the
  // buffer holds the accepted fragments.
  ghost predicate CollectOk(c: Config, proxy: SendState, response: Option<Response>, accepted: seq<nat>, buffer: string)
    requires LogOk(c, accepted)
  {
    && proxy != Sent && response == None
    && Covered(accepted) < |c.cs|
    && (proxy.Sending? ==> proxy.i <= Covered(accepted) <= proxy.i + 1)
    && buffer == Gathered(c.cs, accepted)
  }

  ghost predicate CollectInv(c: Config, s: Sys)
    requires LogInv(c, s)
  {
    s.delivered == [] ==> CollectOk(c, s.proxy, s.response, s.accepted, s.device.buffer)
  }

  ghost predicate DeliveredOk(c: Config, first: string, accepted: seq<nat>)
    requires LogOk(c, accepted)
  {
    && first == Gathered(c.cs, accepted)
    && Covered(accepted) == |c.cs|
    && accepted != [] && Covered(accepted[..|accepted| - 1]) < |c.cs|
  }

  ghost predicate DeliveredInv(c: Config, s: Sys)
    requires LogInv(c, s)
  {
    s.delivered != [] ==> DeliveredOk(c, s.delivered[0], s.accepted)
  }

  // Without an ERROR no fragment is accepted twice, and the device expects the next one.
  ghost predicate QuietOk(c: Config, accepted: seq<nat>) {
    Covered(accepted) == |accepted| <= |c.cs|
  }

  ghost predicate ExpectsNext(c: Config, accepted: seq<nat>, device: Receiver)
    requires |accepted| <= |c.cs|
  {
    && device.counter == (if accepted == [] then IDLE_MARK else (|c.cs| - |accepted|) as Char)
    && device.session == (if accepted == [] then IDLE_MARK else c.session)
  }

  ghost predicate QuietInv(c: Config, s: Sys) {
    !s.errored ==> QuietOk(c, s.accepted) && (s.delivered == [] ==> ExpectsNext(c, s.accepted, s.device))
  }

  ghost predicate Inv(c: Config, s: Sys)
  {
    LogInv(c, s) && WireInv(c, s) && CollectInv(c, s) && DeliveredInv(c, s) && QuietInv(c, s)
  }

  lemma InitInv(c: Config, s: Sys)
    requires Initial(c, s)
    ensures Inv(c, s)
  {
  }

  /** ERRORs of the proxy add no DATA, and its index only grows. */
  lemma DataKept(c: Config, toDevice: set<Packet>, index: nat, accepted: seq<nat>, open: bool, answer: seq<Packet>, next: nat)
    requires DataOk(c, toDevice, index, accepted, open) && index <= next
    requires forall p :: p in answer ==> p.ty == Error
    ensures DataOk(c, toDevice + (set p | p in answer), next, accepted, open)
  {
  }

  lemma ProxyReceiveInv(c: Config, s: Sys, reply: Reply)
    requires Inv(c, s) && Enabled(c, s, ProxyReceive(reply))
    ensures Inv(c, Apply(c, s, ProxyReceive(reply)))
  {
    var (next, answer) := AfterReply(|c.cs|, c.session, s.proxy.i, s.proxy.retries, reply);
    var t := Apply(c, s, ProxyReceive(reply));
    DataKept(c, s.toDevice, Index(c, s.proxy), s.accepted, s.delivered == [], answer, Index(c, next));
    assert LogInv(c, t) && WireInv(c, t);
    assert s.delivered == [] ==> CollectOk(c, s.proxy, s.response, s.accepted, s.device.buffer);
  }

  lemma ProxySendInv(c: Config, s: Sys)
    requires Inv(c, s) && Enabled(c, s, ProxySend)
    ensures Inv(c, Apply(c, s, ProxySend))
  {
  }

  lemma DeviceRespondInv(c: Config, s: Sys, a: Action)
    requires Inv(c, s) && Enabled(c, s, a) && (a.DeviceSend? || a.DeviceReply?)
    ensures Inv(c, Apply(c, s, a))
  {
  }

  lemma DeviceErrorInv(c: Config, s: Sys, p: Packet, handled: Option<seq<string>>)
    requires Inv(c, s) && Enabled(c, s, DeviceReceive(p, handled))
    requires Receive(s.device, p).answer.ty == Error
    ensures Inv(c, Apply(c, s, DeviceReceive(p, handled)))
  {
    var t := Apply(c, s, DeviceReceive(p, handled));
    assert t == s.(device := s.device.(session := IDLE_MARK, counter := IDLE_MARK),
                   toProxy := s.toProxy + {Receive(s.device, p).answer},
                   errored := s.errored || s.delivered == []);
  }

  lemma DeviceLaterInv(c: Config, s: Sys, p: Packet, handled: Option<seq<string>>)
    requires Inv(c, s) && Enabled(c, s, DeviceReceive(p, handled))
    requires Receive(s.device, p).answer.ty == Ack && s.delivered != []
    ensures Inv(c, Apply(c, s, DeviceReceive(p, handled)))
  {
    var t := Apply(c, s, DeviceReceive(p, handled));
    assert t.accepted == s.accepted && t.errored == s.errored && t.proxy == s.proxy && t.toDevice == s.toDevice;
    assert t.delivered[0] == s.delivered[0];
    assert LogInv(c, t) && WireInv(c, t);
  }

  lemma AckMeansData(r: Receiver, p: Packet)
    requires Receive(r, p).answer.ty == Ack
    ensures p.ty == Data
  {
  }

  ghost predicate Accepts(c: Config, s: Sys, p: Packet, handled: Option<seq<string>>) {
    Enabled(c, s, DeviceReceive(p, handled)) && Receive(s.device, p).answer.ty == Ack && s.delivered == []
  }

  // t is s after fragment k has been accepted.
  ghost predicate AcceptedAs(c: Config, s: Sys, t: Sys, k: nat) {
    var n := |c.cs|;
    && k < n && k <= Covered(s.accepted) && k <= Index(c, s.proxy)
    && t.accepted == s.accepted + [k] && t.toDevice == s.toDevice && t.proxy == s.proxy && t.errored == s.errored
    && t.toProxy == s.toProxy + {OnWire(Ack, n - k, c.session, "")}
    && (if k + 1 == n then t.delivered == [s.device.buffer + c.cs[k]]
        else t.delivered == [] && t.response == s.response
             && t.device == Receiver(c.session, (n - k - 1) as Char, s.device.buffer + c.cs[k]))
    && (s.device.counter != IDLE_MARK ==> s.device.counter as int == n - k)
  }

  lemma AcceptFacts(c: Config, s: Sys, p: Packet, handled: Option<seq<string>>)
    requires WireInv(c, s) && Accepts(c, s, p, handled)
    ensures 1 <= p.count <= |c.cs| && AcceptedAs(c, s, Apply(c, s, DeviceReceive(p, handled)), |c.cs| - p.count)
  {
    AckMeansData(s.device, p);
  }

  lemma AcceptLog(c: Config, s: Sys, t: Sys, k: nat)
    requires LogInv(c, s) && AcceptedAs(c, s, t, k)
    ensures LogInv(c, t)
    ensures Covered(t.accepted) == (if k == Covered(s.accepted) then k + 1 else Covered(s.accepted))
    ensures Gathered(c.cs, t.accepted) == Gathered(c.cs, s.accepted) + c.cs[k]
  {
    InOrderSnoc(s.accepted, k);
    GatheredSnoc(c.cs, s.accepted, k);
  }

  lemma AcceptWire(c: Config, s: Sys, t: Sys, k: nat)
    requires LogInv(c, s) && WireInv(c, s) && s.delivered == [] && AcceptedAs(c, s, t, k)
    ensures WireInv(c, t)
  {
    AcceptLog(c, s, t, k);
  }

  lemma AcceptCollect(c: Config, s: Sys, t: Sys, k: nat)
    requires LogInv(c, s) && CollectInv(c, s) && s.delivered == [] && AcceptedAs(c, s, t, k)
    ensures LogInv(c, t) && CollectInv(c, t) && DeliveredInv(c, t)
  {
    AcceptLog(c, s, t, k);
    CoveredBelow(t.accepted, |c.cs|);
    assert t.accepted[..|s.accepted|] == s.accepted;
  }

  lemma AcceptQuiet(c: Config, s: Sys, t: Sys, k: nat)
    requires LogInv(c, s) && CollectInv(c, s) && QuietInv(c, s) && s.delivered == [] && AcceptedAs(c, s, t, k)
    ensures LogInv(c, t) && QuietInv(c, t)
  {
    AcceptLog(c, s, t, k);
  }

  lemma DeviceAcceptInv(c: Config, s: Sys, p: Packet, handled: Option<seq<string>>)
    requires Inv(c, s) && Accepts(c, s, p, handled)
    ensures Inv(c, Apply(c, s, DeviceReceive(p, handled)))
  {
    var t, k := Apply(c, s, DeviceReceive(p, handled)), |c.cs| - p.count;
    AcceptFacts(c, s, p, handled);
    AcceptLog(c, s, t, k);
    AcceptWire(c, s, t, k);
    AcceptCollect(c, s, t, k);
    AcceptQuiet(c, s, t, k);
  }

  lemma DeviceReceiveInv(c: Config, s: Sys, p: Packet, handled: Option<seq<string>>)
    requires Inv(c, s) && Enabled(c, s, DeviceReceive(p, handled))
    ensures Inv(c, Apply(c, s, DeviceReceive(p, handled)))
  {
    if Receive(s.device, p).answer.ty == Error {
      DeviceErrorInv(c, s, p, handled);
    } else if s.delivered == [] {
      DeviceAcceptInv(c, s, p, handled);
    } else {
      DeviceLaterInv(c, s, p, handled);
    }
  }

  lemma StepInv(c: Config, s: Sys, a: Action)
    requires Inv(c, s) && Enabled(c, s, a)
    ensures Inv(c, Apply(c, s, a))
  {
    match a
    case ProxySend => ProxySendInv(c, s);
    case ProxyReceive(reply) => ProxyReceiveInv(c, s, reply);
    case DeviceReceive(p, handled) => DeviceReceiveInv(c, s, p, handled);
    case _ => DeviceRespondInv(c, s, a);
  }

  lemma {:induction false} StepsInv(c: Config, s: Sys, actions: seq<Action>, t: Sys)
    requires Inv(c, s) && Steps(c, s, actions, t)
    ensures Inv(c, t)
    decreases |actions|
  {
    if actions != [] {
      StepInv(c, s, actions[0]);
      StepsInv(c, Apply(c, s, actions[0]), actions[1..], t);
    }
  }

  lemma ReachableInv(c: Config, s: Sys)
    requires Reachable(c, s)
    ensures Inv(c, s)
  {
    var s0, actions :| Initial(c, s0) && Steps(c, s0, actions, s);
    InitInv(c, s0);
    StepsInv(c, s0, actions, s);
  }

  // ---------- what the protocol guarantees ----------

  /** As long as the device has sent no ERROR, its buffer is the first a fragments, where a is
      the proxy's index or one more, and what is handed to ParseRequest first is the data. */
  lemma SafeWithoutError(c: Config, s: Sys)
    requires Reachable(c, s) && !s.errored
    ensures s.delivered == [] ==>
              exists a :: 0 <= a <= |c.cs| && s.device.buffer == Concat(c.cs[..a])
                          && (s.proxy.Sending? ==> s.proxy.i <= a <= s.proxy.i + 1)
    ensures s.delivered != [] ==> s.delivered[0] == Concat(c.cs)
    ensures s.proxy == Sent ==> s.delivered != []
  {
    ReachableInv(c, s);
    GatheredLength(c.cs, s.accepted);
    assert c.cs[..|c.cs|] == c.cs;
  }

  /** In every run, with or without ERRORs: a normal return of SendDataDevice means that the
      device has handed over a request, the first of which is the accepted fragments in order:
      all of them, none before its predecessor. It is the data exactly when no fragment was
      accepted twice. */
  lemma ReturnMeansDelivered(c: Config, s: Sys)
    requires Reachable(c, s) && s.proxy == Sent
    ensures s.delivered != [] && InOrder(s.accepted) && Covered(s.accepted) == |c.cs|
    ensures (forall j :: 0 <= j < |s.accepted| ==> s.accepted[j] < |c.cs|) && s.delivered[0] == Gathered(c.cs, s.accepted)
    ensures s.delivered[0] == Concat(c.cs) <==> |s.accepted| == |c.cs|
  {
    ReachableInv(c, s);
    GatheredLength(c.cs, s.accepted);
    GatheredExactIff(c.cs, s.accepted);
    assert c.cs[..|c.cs|] == c.cs;
  }

  // ---------- a network that only loses ----------

  // A state with what is on the way to the device and to the proxy. Each direction hands over
  // what was sent, once and in order, less what is lost.
  datatype Lossy = Lossy(sys: Sys, down: seq<Packet>, up: seq<Packet>)

  ghost predicate Taken(before: seq<Packet>, p: Packet, after: seq<Packet>) {
    exists i :: 0 <= i < |before| && before[i] == p && after == before[i + 1..]
  }

  ghost predicate TakenBy(before: seq<Packet>, reply: Reply, after: seq<Packet>) {
    if reply.Timeout? then after == before else Taken(before, reply.packet, after)
  }

  ghost predicate LossyStep(c: Config, x: Lossy, a: Action, y: Lossy) {
    && Enabled(c, x.sys, a) && y.sys == Apply(c, x.sys, a)
    && match a
       case ProxySend => y.up == x.up && y.down == x.down + [DataPacket(c.cs, c.session, x.sys.proxy.i)]
       case ProxyReceive(reply) =>
         && TakenBy(x.up, reply, y.up)
         && y.down == x.down + AfterReply(|c.cs|, c.session, x.sys.proxy.i, x.sys.proxy.retries, reply).1
       case DeviceReceive(p, _) => Taken(x.down, p, y.down) && y.up == x.up + [Receive(x.sys.device, p).answer]
       case DeviceSend =>
         var r := x.sys.response.value;
         y.down == x.down && y.up == x.up + [DataPacket(r.rs, r.session, r.i)]
       case DeviceReply(reply) => y.up == x.up && TakenBy(x.down, reply, y.down)
  }

  ghost predicate LossyRun(c: Config, states: seq<Lossy>, actions: seq<Action>) {
    && |states| == |actions| + 1
    && Initial(c, states[0].sys) && states[0].down == [] && states[0].up == []
    && forall i :: 0 <= i < |actions| ==> LossyStep(c, states[i], actions[i], states[i + 1])
  }

  lemma {:induction false} StepsSnoc(c: Config, s: Sys, actions: seq<Action>, t: Sys, a: Action)
    requires Steps(c, s, actions, t) && Enabled(c, t, a)
    ensures Steps(c, s, actions + [a], Apply(c, t, a))
    decreases |actions|
  {
    if actions == [] {
      assert [a][1..] == [];
    } else {
      StepsSnoc(c, Apply(c, s, actions[0]), actions[1..], t, a);
      assert (actions + [a])[1..] == actions[1..] + [a];
    }
  }

  lemma {:induction false} LossySteps(c: Config, states: seq<Lossy>, actions: seq<Action>, n: nat)
    requires LossyRun(c, states, actions) && n <= |actions|
    ensures Steps(c, states[0].sys, actions[..n], states[n].sys)
    decreases n
  {
    if n > 0 {
      LossySteps(c, states, actions, n - 1);
      assert LossyStep(c, states[n - 1], actions[n - 1], states[n]);
      StepsSnoc(c, states[0].sys, actions[..n - 1], states[n - 1].sys, actions[n - 1]);
      assert actions[..n - 1] + [actions[n - 1]] == actions[..n];
    }
  }

  /** The states of a network that only loses are among those of the unreliable one. */
  lemma LossyReachable(c: Config, states: seq<Lossy>, actions: seq<Action>)
    requires LossyRun(c, states, actions)
    ensures Reachable(c, states[|actions|].sys)
  {
    LossySteps(c, states, actions, |actions|);
    assert actions[..|actions|] == actions;
  }

  // A run under construction, and its last state.
  datatype Trace = Trace(states: seq<Lossy>, actions: seq<Action>)

  ghost predicate Ends(c: Config, t: Trace, x: Lossy) {
    LossyRun(c, t.states, t.actions) && t.states[|t.actions|] == x
  }

  function Extended(t: Trace, a: Action, y: Lossy): Trace {
    Trace(t.states + [y], t.actions + [a])
  }

  lemma Extend(c: Config, t: Trace, x: Lossy, a: Action, y: Lossy)
    requires Ends(c, t, x) && LossyStep(c, x, a, y)
    ensures Ends(c, Extended(t, a, y), y)
  {
    var u := Extended(t, a, y);
    forall i | 0 <= i < |u.actions|
      ensures LossyStep(c, u.states[i], u.actions[i], u.states[i + 1])
    {
      if i < |t.actions| {
        assert LossyStep(c, t.states[i], t.actions[i], t.states[i + 1]);
      }
    }
  }

  // The proxy sends its fragment, and the device gets it.
  ghost function Delivered(c: Config, x: Lossy): Lossy
    requires x.sys.proxy.Sending? && x.sys.proxy.i < |c.cs| && !x.sys.waiting && x.sys.response == None
  {
    var p := DataPacket(c.cs, c.session, x.sys.proxy.i);
    var sent := Apply(c, x.sys, ProxySend);
    Lossy(Apply(c, sent, DeviceReceive(p, None)), [], x.up + [Receive(x.sys.device, p).answer])
  }

  lemma Deliver(c: Config, t: Trace, x: Lossy) returns (u: Trace)
    requires Ends(c, t, x) && x.down == []
    requires x.sys.proxy.Sending? && x.sys.proxy.i < |c.cs| && !x.sys.waiting && x.sys.response == None
    ensures Ends(c, u, Delivered(c, x))
    ensures u.actions == t.actions + [ProxySend, DeviceReceive(DataPacket(c.cs, c.session, x.sys.proxy.i), None)]
  {
    var p := DataPacket(c.cs, c.session, x.sys.proxy.i);
    var y := Lossy(Apply(c, x.sys, ProxySend), [p], x.up);
    assert [] + [p] == [p];
    Extend(c, t, x, ProxySend, y);
    var z := Delivered(c, x);
    assert y.down[0] == p && y.down[1..] == [];
    Extend(c, Extended(t, ProxySend, y), y, DeviceReceive(p, None), z);
    u := Extended(Extended(t, ProxySend, y), DeviceReceive(p, None), z);
    assert t.actions + [ProxySend] + [DeviceReceive(p, None)] == t.actions + [ProxySend, DeviceReceive(p, None)];
  }

  // The proxy gets the last packet on the way to it; any others are lost.
  ghost function Answered(c: Config, x: Lossy): Lossy
    requires x.sys.proxy.Sending? && x.sys.proxy.i < |c.cs| && x.sys.waiting && x.up != [] && x.up[|x.up| - 1] in x.sys.toProxy
  {
    var reply := Got(x.up[|x.up| - 1]);
    Lossy(Apply(c, x.sys, ProxyReceive(reply)),
          x.down + AfterReply(|c.cs|, c.session, x.sys.proxy.i, x.sys.proxy.retries, reply).1, [])
  }

  lemma AnswerProxy(c: Config, t: Trace, x: Lossy) returns (u: Trace)
    requires Ends(c, t, x)
    requires x.sys.proxy.Sending? && x.sys.proxy.i < |c.cs| && x.sys.waiting && x.up != [] && x.up[|x.up| - 1] in x.sys.toProxy
    ensures Ends(c, u, Answered(c, x)) && u.actions == t.actions + [ProxyReceive(Got(x.up[|x.up| - 1]))]
  {
    var n := |x.up| - 1;
    var a, y := ProxyReceive(Got(x.up[n])), Answered(c, x);
    assert x.up[n + 1..] == [];
    Extend(c, t, x, a, y);
    u := Extended(t, a, y);
  }

  // The proxy times out; whatever is on the way to it will be lost.
  ghost function TimedOut(c: Config, x: Lossy): Lossy
    requires x.sys.proxy.Sending? && x.sys.proxy.i < |c.cs| && x.sys.waiting
  {
    x.(sys := Apply(c, x.sys, ProxyReceive(Timeout)))
  }

  lemma TimeOut(c: Config, t: Trace, x: Lossy) returns (u: Trace)
    requires Ends(c, t, x) && x.sys.proxy.Sending? && x.sys.proxy.i < |c.cs| && x.sys.waiting
    ensures Ends(c, u, TimedOut(c, x)) && u.actions == t.actions + [ProxyReceive(Timeout)]
  {
    var y := TimedOut(c, x);
    assert x.down + [] == x.down;
    Extend(c, t, x, ProxyReceive(Timeout), y);
    u := Extended(t, ProxyReceive(Timeout), y);
  }

  ghost predicate Clear(x: Lossy) {
    x.down == [] && x.sys.response == None && x.sys.delivered == []
  }

  // The device expects fragment i next, and the proxy is about to send it.
  ghost predicate InStep(c: Config, x: Lossy, i: nat) {
    && Clear(x) && x.sys.proxy == Sending(i, 0) && !x.sys.waiting && i < |c.cs|
    && x.sys.device.counter == (|c.cs| - i) as Char && x.sys.device.session == c.session
  }

  function FirstPacket(c: Config): Packet {
    DataPacket(c.cs, c.session, 0)
  }

  function AckOf(c: Config, i: nat): Packet
    requires i < |c.cs|
  {
    OnWire(Ack, |c.cs| - i, c.session, "")
  }

  /** One undisturbed round: fragment i is sent, accepted and acknowledged. */
  lemma CleanRound(c: Config, t: Trace, x: Lossy, i: nat) returns (u: Trace, y: Lossy)
    requires Ends(c, t, x) && InStep(c, x, i)
    ensures Ends(c, u, y) && t.actions <= u.actions
    ensures i + 1 < |c.cs| ==> InStep(c, y, i + 1) && y.sys.device.buffer == x.sys.device.buffer + c.cs[i]
    ensures i + 1 == |c.cs| ==> y.sys.proxy == Sent && y.sys.delivered == [x.sys.device.buffer + c.cs[i]]
  {
    u := Deliver(c, t, x);
    var z := Delivered(c, x);
    assert z.up[|z.up| - 1] == AckOf(c, i);
    u := AnswerProxy(c, u, z);
    y := Answered(c, z);
  }

  /** On a good network the rest of the data arrives behind whatever is in the buffer. */
  lemma {:induction false} CleanFinish(c: Config, t: Trace, x: Lossy, i: nat) returns (u: Trace, y: Lossy)
    requires Ends(c, t, x) && InStep(c, x, i)
    ensures Ends(c, u, y) && t.actions <= u.actions
    ensures y.sys.proxy == Sent && y.sys.delivered == [x.sys.device.buffer + Concat(c.cs[i..])]
    decreases |c.cs| - i
  {
    u, y := CleanRound(c, t, x, i);
    var tail := c.cs[i..];
    assert tail[0] == c.cs[i] && tail[1..] == c.cs[i + 1..];
    if i + 1 < |c.cs| {
      u, y := CleanFinish(c, u, y, i + 1);
      Assoc(x.sys.device.buffer, c.cs[i], Concat(tail[1..]));
    } else {
      assert Concat(tail) == c.cs[i];
    }
  }

  // The first fragment has arrived, its acknowledgement is lost, and the proxy has resent it.
  function LostAck(c: Config): seq<Action> {
    var receive := DeviceReceive(FirstPacket(c), None);
    [ProxySend, receive, ProxyReceive(Timeout), ProxySend, receive]
  }

  const WRONG_COUNT_TEXT: string := ErrorText(WrongCount)

  lemma LoseAck(c: Config) returns (t: Trace, x: Lossy)
    requires |c.cs| >= 2
    ensures Ends(c, t, x) && t.actions == LostAck(c) && Clear(x)
    ensures x.sys.proxy == Sending(0, 1) && x.sys.waiting && x.sys.device == Receiver(IDLE_MARK, IDLE_MARK, c.cs[0])
    ensures x.up == [AckOf(c, 0), OnWire(Error, 0, c.session, WRONG_COUNT_TEXT)] && x.up[1] in x.sys.toProxy
  {
    var s0 := Sys(Sending(0, 0), false, Receiver(IDLE_MARK, IDLE_MARK, ""), None, {}, {}, [], false, []);
    x := Lossy(s0, [], []);
    t := Trace([x], []);
    t := Deliver(c, t, x);
    x := Delivered(c, x);
    assert x.sys.device == Receiver(c.session, (|c.cs| - 1) as Char, c.cs[0]) && x.up == [AckOf(c, 0)];
    t := TimeOut(c, t, x);
    x := TimedOut(c, x);
    t := Deliver(c, t, x);
    x := Delivered(c, x);
  }

  /** With two or more fragments, one lost acknowledgement and nothing else makes the proxy give
      up: the resent fragment draws an ERROR, for which it throws. */
  lemma LostAckThrows(c: Config) returns (t: Trace, x: Lossy)
    requires |c.cs| >= 2
    ensures Ends(c, t, x)
    ensures t.actions == LostAck(c) + [ProxyReceive(Got(OnWire(Error, 0, c.session, WRONG_COUNT_TEXT)))]
    ensures x.sys.proxy == UnexpectedType && x.sys.delivered == [] && x.sys.device.buffer == c.cs[0]
  {
    t, x := LoseAck(c);
    t := AnswerProxy(c, t, x);
    x := Answered(c, x);
  }

  /** If the ERROR is lost too, the fragment, sent a third time, is accepted again: it ends up in
      the buffer twice, everything else arrives, and the proxy returns normally. */
  lemma LostAckAndErrorCorrupt(c: Config) returns (t: Trace, x: Lossy)
    requires |c.cs| >= 2
    ensures Ends(c, t, x)
    ensures LostAck(c) + [ProxyReceive(Timeout), ProxySend, DeviceReceive(FirstPacket(c), None), ProxyReceive(Got(AckOf(c, 0)))]
            <= t.actions
    ensures x.sys.proxy == Sent && x.sys.delivered == [c.cs[0] + Concat(c.cs)]
  {
    t, x := LoseAck(c);
    t := TimeOut(c, t, x);
    x := TimedOut(c, x);
    t := Deliver(c, t, x);
    x := Delivered(c, x);
    assert x.sys.device == Receiver(c.session, (|c.cs| - 1) as Char, c.cs[0] + c.cs[0]);
    assert x.up[|x.up| - 1] == AckOf(c, 0);
    t := AnswerProxy(c, t, x);
    x := Answered(c, x);
    assert t.actions == LostAck(c) + [ProxyReceive(Timeout), ProxySend, DeviceReceive(FirstPacket(c), None),
                                      ProxyReceive(Got(AckOf(c, 0)))];
    t, x := CleanFinish(c, t, x, 1);
    Assoc(c.cs[0], c.cs[0], Concat(c.cs[1..]));
  }

  // ---------- when delivery is exact ----------

  /** On the unreliable network every normal return is an exact delivery. */
  ghost predicate AlwaysExact(c: Config) {
    forall s :: Reachable(c, s) && s.proxy == Sent ==> s.delivered != [] && s.delivered[0] == Concat(c.cs)
  }

  ghost predicate Exact(c: Config, s: Sys) {
    s.proxy == Sent ==> s.delivered != [] && s.delivered[0] == Concat(c.cs)
  }

  /** So it is on a network that only loses. */
  ghost predicate AlwaysExactUnderLoss(c: Config) {
    forall states: seq<Lossy>, actions: seq<Action> :: LossyRun(c, states, actions) ==> Exact(c, states[|actions|].sys)
  }

  /** A normal return guarantees that exactly the data was reassembled precisely for data that
      fits one fragment, whatever the network does, and also if it does no worse than lose. */
  lemma AlwaysExactIffOneFragment(c: Config)
    ensures AlwaysExact(c) <==> |c.cs| == 1
    ensures AlwaysExactUnderLoss(c) <==> |c.cs| == 1
  {
    if |c.cs| >= 2 {
      var t, x := LostAckAndErrorCorrupt(c);
      LossyReachable(c, t.states, t.actions);
      assert |c.cs[0] + Concat(c.cs)| > |Concat(c.cs)|;
      assert !Exact(c, x.sys);
    } else {
      forall s | Reachable(c, s) && s.proxy == Sent
        ensures s.delivered != [] && s.delivered[0] == Concat(c.cs)
      {
        OneFragmentExact(c, s);
      }
      forall states: seq<Lossy>, actions: seq<Action> | LossyRun(c, states, actions)
        ensures Exact(c, states[|actions|].sys)
      {
        LossyReachable(c, states, actions);
      }
    }
  }

  lemma OneFragmentExact(c: Config, s: Sys)
    requires |c.cs| == 1 && Reachable(c, s) && s.proxy == Sent
    ensures s.delivered != [] && s.delivered[0] == Concat(c.cs)
  {
    ReturnMeansDelivered(c, s);
    ReachableInv(c, s);
    var before := s.accepted[..|s.accepted| - 1];
    if before != [] {
      assert s.accepted[..0] == [];
      CoveredPositive(before);
    }
  }

  lemma {:induction false} CoveredPositive(accepted: seq<nat>)
    requires accepted != [] && accepted[0] == 0
    ensures Covered(accepted) >= 1
  {
    if |accepted| > 1 {
      CoveredPositive(accepted[..|accepted| - 1]);
    }
  }
}
