// The proxy's end of the link to a device (src/proxy/proxy.cpp): sending a request
// fragment by fragment and collecting the response.
module ProxyLink {
  import opened Text
  import opened Aaa

  // What one call of ReceivePacket yields. A receive timeout is an event like any other.
  datatype Reply = Timeout | Got(packet: Packet)

  datatype SendState =
    | Sending(i: nat, retries: nat)   // fragment i has to be (re)sent
    | Sent                            // normal return
    | MaxRetransmissionsReached       // thrown
    | UnexpectedType                  // thrown

  /** The payload of an ERROR packet: its code. */
  function ErrorText(code: ErrorCode): string {
    match code
    case UnknownError => "\0"
    case WrongType => [1 as char]
    case WrongCount => [2 as char]
    case WrongSession => [3 as char]
  }

  function DataPacket(cs: seq<string>, session: Char, i: nat): Packet
    requires i < |cs| <= MAX_COUNT
  {
    OnWire(Data, |cs| - i, session, cs[i])
  }

  /** One pass of the send loop after the DATA packet went out: where the loop goes next,
      and the packets it sends in answer. */
  function AfterReply(n: nat, session: Char, i: nat, retries: nat, reply: Reply): (SendState, seq<Packet>)
    requires i < n
  {
    match reply
    case Timeout =>
      if retries > MAX_RETRANSMISSIONS then (MaxRetransmissionsReached, [])
      else (Sending(i, retries + 1), [])
    case Got(p) =>
      if p.ty != Ack then
        (UnexpectedType, [OnWire(Error, 0, session, ErrorText(WrongType))])
      else if p.session != session as int then
        (Sending(i, retries + 1), [OnWire(Error, 0, session, ErrorText(WrongSession))])
      else if p.count == n - i then
        (if i + 1 == n then Sent else Sending(i + 1, 0), [])
      else
        (Sending(i, retries), [])
  }

  // Where the send loop stands after some replies, everything it has put on the wire, and the
  // replies it has not taken.
  datatype SendRun = SendRun(state: SendState, wire: seq<Packet>, left: seq<Reply>)

  /** The send loop from fragment i on, fed with the given replies; it still waits for a reply
      when they run out in the state Sending. */
  function RunSend(cs: seq<string>, session: Char, i: nat, retries: nat, replies: seq<Reply>): SendRun
    requires i < |cs| <= MAX_COUNT
    decreases |replies|
  {
    var data := DataPacket(cs, session, i);
    if replies == [] then SendRun(Sending(i, retries), [data], [])
    else
      var (next, answer) := AfterReply(|cs|, session, i, retries, replies[0]);
      match next
      case Sending(i', retries') =>
        var rest := RunSend(cs, session, i', retries', replies[1..]);
        SendRun(rest.state, [data] + answer + rest.wire, rest.left)
      case _ => SendRun(next, [data] + answer, replies[1..])
  }

  /** The number of DATA packets among those sent. */
  function DataSends(wire: seq<Packet>): nat {
    if wire == [] then 0 else (if wire[0].ty == Data then 1 else 0) + DataSends(wire[1..])
  }

  lemma {:induction false} DataSendsAppend(a: seq<Packet>, b: seq<Packet>)
    ensures DataSends(a + b) == DataSends(a) + DataSends(b)
  {
    if a == [] {
      assert a + b == b;
    } else {
      DataSendsAppend(a[1..], b);
      assert (a + b)[1..] == a[1..] + b;
    }
  }

  /** Replies that make no progress and consume no retry: acknowledgements with the wrong
      number for the fragment in flight, or of another session. */
  function Strays(cs: seq<string>, session: Char, i: nat, retries: nat, replies: seq<Reply>): nat
    requires i < |cs| <= MAX_COUNT
    decreases |replies|
  {
    if replies == [] then 0
    else
      var stray := replies[0].Got? && replies[0].packet.ty == Ack
                   && !(replies[0].packet.session == session as int && replies[0].packet.count == |cs| - i);
      var next := AfterReply(|cs|, session, i, retries, replies[0]).0;
      (if stray then 1 else 0)
      + (if next.Sending? then Strays(cs, session, next.i, next.retries, replies[1..]) else 0)
  }

  /** However the network answers, the loop sends DATA at most 14 times per remaining
      fragment, less the retries already spent, plus once per stray acknowledgement; and while
      it is still sending, every reply it was given cost one DATA packet. */
  lemma {:induction false} SendBound(cs: seq<string>, session: Char, i: nat, retries: nat, replies: seq<Reply>)
    requires i < |cs| <= MAX_COUNT
    ensures var run := RunSend(cs, session, i, retries, replies);
            var spent := if retries > MAX_RETRANSMISSIONS then MAX_RETRANSMISSIONS + 1 else retries;
            && DataSends(run.wire) + spent
               <= (MAX_RETRANSMISSIONS + 2) * (|cs| - i) + Strays(cs, session, i, retries, replies)
            && (run.state.Sending? ==> DataSends(run.wire) == |replies| + 1)
    decreases |replies|
  {
    var data := DataPacket(cs, session, i);
    if replies == [] {
      assert DataSends([data]) == 1;
    } else {
      var (next, answer) := AfterReply(|cs|, session, i, retries, replies[0]);
      DataSendsAppend([data], answer);
      assert DataSends([data]) == 1 && DataSends(answer) == 0;
      if next.Sending? {
        SendBound(cs, session, next.i, next.retries, replies[1..]);
        DataSendsAppend([data] + answer, RunSend(cs, session, next.i, next.retries, replies[1..]).wire);
      }
    }
  }

  /** Hence the loop has ended once it has had 14 replies per fragment and one per stray. */
  lemma SendTerminates(cs: seq<string>, session: Char, replies: seq<Reply>)
    requires 0 < |cs| <= MAX_COUNT
    requires |replies| >= (MAX_RETRANSMISSIONS + 2) * |cs| + Strays(cs, session, 0, 0, replies)
    ensures !RunSend(cs, session, 0, 0, replies).state.Sending?
  {
    SendBound(cs, session, 0, 0, replies);
  }

  /** Without a bound on strays there is none on the loop: acknowledgements with a wrong number
      never touch the retry counter, and keep it resending for as long as they come. */
  lemma {:induction false} WrongNumbersNeverEnd(cs: seq<string>, session: Char, i: nat, retries: nat,
                                                replies: seq<Reply>)
    requires i < |cs| <= MAX_COUNT && session >= 0
    requires forall r :: r in replies ==>
               r.Got? && r.packet.ty == Ack && r.packet.session == session as int && r.packet.count != |cs| - i
    ensures RunSend(cs, session, i, retries, replies).state == Sending(i, retries)
    ensures DataSends(RunSend(cs, session, i, retries, replies).wire) == |replies| + 1
    decreases |replies|
  {
    if replies != [] {
      assert replies[0] in replies;
      WrongNumbersNeverEnd(cs, session, i, retries, replies[1..]);
      SendBound(cs, session, i, retries, replies);
    } else {
      SendBound(cs, session, i, retries, replies);
    }
  }

  // ---------- how sending ends, by the replies ----------

  predicate RightAck(n: nat, session: Char, i: nat, reply: Reply) {
    reply.Got? && reply.packet.ty == Ack && reply.packet.session == session as int && reply.packet.count == n - i
  }

  // A timeout or an acknowledgement of another session costs a retry.
  predicate Spends(session: Char, reply: Reply) {
    reply == Timeout || (reply.Got? && reply.packet.ty == Ack && reply.packet.session != session as int)
  }

  // An acknowledgement of the session with another number costs nothing.
  predicate WrongNumber(n: nat, session: Char, i: nat, reply: Reply) {
    reply.Got? && reply.packet.ty == Ack && reply.packet.session == session as int && reply.packet.count != n - i
  }

  predicate NotAck(reply: Reply) {
    reply.Got? && reply.packet.ty != Ack
  }

  // Where the loop is behind some replies makes the rest of the run.
  predicate SameEnd(a: SendRun, b: SendRun) {
    a.state == b.state && a.left == b.left
  }

  lemma OneReply(cs: seq<string>, session: Char, i: nat, retries: nat, reply: Reply, rest: seq<Reply>)
    requires i < |cs| <= MAX_COUNT
    ensures var next := AfterReply(|cs|, session, i, retries, reply).0;
            var run := RunSend(cs, session, i, retries, [reply] + rest);
            if next.Sending? then SameEnd(run, RunSend(cs, session, next.i, next.retries, rest))
            else run.state == next && run.left == rest
  {
    assert ([reply] + rest)[1..] == rest;
  }

  /** What is put on the wire: the fragment at which the loop stands, before each reply, and what is
      said to the reply. */
  lemma SendsTheFragment(cs: seq<string>, session: Char, i: nat, retries: nat, reply: Reply, rest: seq<Reply>)
    requires i < |cs| <= MAX_COUNT
    ensures var data := [OnWire(Data, |cs| - i, session, cs[i])];
            var (next, answer) := AfterReply(|cs|, session, i, retries, reply);
            && RunSend(cs, session, i, retries, []).wire == data
            && RunSend(cs, session, i, retries, [reply] + rest).wire
               == data + answer + if next.Sending? then RunSend(cs, session, next.i, next.retries, rest).wire else []
  {
    assert ([reply] + rest)[1..] == rest;
  }

  /** Every timeout and every acknowledgement of another session costs one retry, as long as no
      timeout finds more than 12 of them spent. */
  lemma {:induction false} SpendsRetries(cs: seq<string>, session: Char, i: nat, retries: nat, spent: seq<Reply>, rest: seq<Reply>)
    requires i < |cs| <= MAX_COUNT && retries + |spent| <= 13
    requires forall q :: 0 <= q < |spent| ==> Spends(session, spent[q])
    ensures SameEnd(RunSend(cs, session, i, retries, spent + rest), RunSend(cs, session, i, retries + |spent|, rest))
    decreases |spent|
  {
    if spent == [] {
      assert spent + rest == rest;
    } else {
      assert spent + rest == [spent[0]] + (spent[1..] + rest);
      OneReply(cs, session, i, retries, spent[0], spent[1..] + rest);
      SpendsRetries(cs, session, i, retries + 1, spent[1..], rest);
    }
  }

  /** Replies that do not concern the fragment leave the loop at it. */
  lemma {:induction false} StaysAtFragment(cs: seq<string>, session: Char, i: nat, retries: nat, noise: seq<Reply>, rest: seq<Reply>)
    returns (after: nat)
    requires i < |cs| <= MAX_COUNT && retries + |noise| <= 13
    requires forall q :: 0 <= q < |noise| ==> Spends(session, noise[q]) || WrongNumber(|cs|, session, i, noise[q])
    ensures SameEnd(RunSend(cs, session, i, retries, noise + rest), RunSend(cs, session, i, after, rest))
    decreases |noise|
  {
    if noise == [] {
      assert noise + rest == rest;
      after := retries;
    } else {
      assert noise + rest == [noise[0]] + (noise[1..] + rest);
      OneReply(cs, session, i, retries, noise[0], noise[1..] + rest);
      after := StaysAtFragment(cs, session, i, if Spends(session, noise[0]) then retries + 1 else retries, noise[1..], rest);
    }
  }

  // The first m replies do not concern fragment i, and are not too many.
  predicate Passes(n: nat, session: Char, i: nat, replies: seq<Reply>, m: nat) {
    && m < |replies| && m <= 13
    && forall q :: 0 <= q < m ==> Spends(session, replies[q]) || WrongNumber(n, session, i, replies[q])
  }

  /** The replies bring the loop from fragment i to fragment j, and leave the rest: each fragment is
      acknowledged, perhaps after up to 13 other replies. */
  ghost predicate Reaches(n: nat, session: Char, i: nat, j: nat, replies: seq<Reply>, rest: seq<Reply>)
    requires i <= j <= n
    decreases j - i
  {
    if i == j then replies == rest
    else
      exists m: nat :: Passes(n, session, i, replies, m) && RightAck(n, session, i, replies[m])
                       && Reaches(n, session, i + 1, j, replies[m + 1..], rest)
  }

  lemma AtReply(replies: seq<Reply>, m: nat)
    requires m < |replies|
    ensures replies == replies[..m] + replies[m..] && replies[m..] == [replies[m]] + replies[m + 1..]
  {
  }

  lemma PassesTo(cs: seq<string>, session: Char, i: nat, replies: seq<Reply>, m: nat) returns (after: nat)
    requires i < |cs| <= MAX_COUNT && Passes(|cs|, session, i, replies, m)
    ensures SameEnd(RunSend(cs, session, i, 0, replies), RunSend(cs, session, i, after, replies[m..]))
  {
    AtReply(replies, m);
    after := StaysAtFragment(cs, session, i, 0, replies[..m], replies[m..]);
  }

  lemma Acknowledged(cs: seq<string>, session: Char, i: nat, replies: seq<Reply>, m: nat)
    requires i < |cs| <= MAX_COUNT && Passes(|cs|, session, i, replies, m) && RightAck(|cs|, session, i, replies[m])
    ensures var run := RunSend(cs, session, i, 0, replies);
            if i + 1 < |cs| then SameEnd(run, RunSend(cs, session, i + 1, 0, replies[m + 1..]))
            else run.state == Sent && run.left == replies[m + 1..]
  {
    var after := PassesTo(cs, session, i, replies, m);
    AtReply(replies, m);
    OneReply(cs, session, i, after, replies[m], replies[m + 1..]);
  }

  lemma {:induction false} Reached(cs: seq<string>, session: Char, i: nat, j: nat, replies: seq<Reply>, rest: seq<Reply>)
    requires i < |cs| <= MAX_COUNT && i <= j <= |cs| && Reaches(|cs|, session, i, j, replies, rest)
    ensures if j < |cs| then SameEnd(RunSend(cs, session, i, 0, replies), RunSend(cs, session, j, 0, rest))
            else RunSend(cs, session, i, 0, replies).state == Sent && RunSend(cs, session, i, 0, replies).left == rest
    decreases j - i
  {
    if i < j {
      var m: nat :| Passes(|cs|, session, i, replies, m) && RightAck(|cs|, session, i, replies[m])
                    && Reaches(|cs|, session, i + 1, j, replies[m + 1..], rest);
      Acknowledged(cs, session, i, replies, m);
      if i + 1 < |cs| {
        Reached(cs, session, i + 1, j, replies[m + 1..], rest);
      }
    }
  }

  /** The replies reach a fragment, and there 13 of them cost a retry before the next timeout. */
  ghost predicate TimesOut(n: nat, session: Char, replies: seq<Reply>) {
    exists i: nat, rest: seq<Reply> ::
      && i < n && Reaches(n, session, 0, i, replies, rest) && |rest| > 13
      && (forall q :: 0 <= q < 13 ==> Spends(session, rest[q])) && rest[13] == Timeout
  }

  /** The replies reach a fragment, and there a packet comes that is no acknowledgement. */
  ghost predicate Surprised(n: nat, session: Char, replies: seq<Reply>) {
    exists i: nat, rest: seq<Reply>, m: nat ::
      i < n && Reaches(n, session, 0, i, replies, rest) && Passes(n, session, i, rest, m) && NotAck(rest[m])
  }

  /** Both end in an exception, and acknowledgements for all fragments in a normal return. */
  lemma HowSendingEnds(cs: seq<string>, session: Char, replies: seq<Reply>)
    requires 0 < |cs| <= MAX_COUNT
    ensures TimesOut(|cs|, session, replies) ==> RunSend(cs, session, 0, 0, replies).state == MaxRetransmissionsReached
    ensures Surprised(|cs|, session, replies) ==> RunSend(cs, session, 0, 0, replies).state == UnexpectedType
    ensures forall rest :: Reaches(|cs|, session, 0, |cs|, replies, rest) ==>
              RunSend(cs, session, 0, 0, replies).state == Sent && RunSend(cs, session, 0, 0, replies).left == rest
  {
    if TimesOut(|cs|, session, replies) {
      var i: nat, rest: seq<Reply> :|
        && i < |cs| && Reaches(|cs|, session, 0, i, replies, rest) && |rest| > 13
        && (forall q :: 0 <= q < 13 ==> Spends(session, rest[q])) && rest[13] == Timeout;
      TimeoutEnds(cs, session, i, replies, rest);
    }
    if Surprised(|cs|, session, replies) {
      var i: nat, rest: seq<Reply>, m: nat :|
        i < |cs| && Reaches(|cs|, session, 0, i, replies, rest) && Passes(|cs|, session, i, rest, m) && NotAck(rest[m]);
      SurpriseEnds(cs, session, i, replies, rest, m);
    }
    forall rest | Reaches(|cs|, session, 0, |cs|, replies, rest)
      ensures RunSend(cs, session, 0, 0, replies).state == Sent && RunSend(cs, session, 0, 0, replies).left == rest
    {
      Reached(cs, session, 0, |cs|, replies, rest);
    }
  }

  lemma TimeoutEnds(cs: seq<string>, session: Char, i: nat, replies: seq<Reply>, rest: seq<Reply>)
    requires i < |cs| <= MAX_COUNT && Reaches(|cs|, session, 0, i, replies, rest) && |rest| > 13
    requires (forall q :: 0 <= q < 13 ==> Spends(session, rest[q])) && rest[13] == Timeout
    ensures RunSend(cs, session, 0, 0, replies).state == MaxRetransmissionsReached
  {
    Reached(cs, session, 0, i, replies, rest);
    AtReply(rest, 13);
    SpendsRetries(cs, session, i, 0, rest[..13], rest[13..]);
    OneReply(cs, session, i, 13, rest[13], rest[14..]);
  }

  lemma SurpriseEnds(cs: seq<string>, session: Char, i: nat, replies: seq<Reply>, rest: seq<Reply>, m: nat)
    requires i < |cs| <= MAX_COUNT && Reaches(|cs|, session, 0, i, replies, rest)
    requires Passes(|cs|, session, i, rest, m) && NotAck(rest[m])
    ensures RunSend(cs, session, 0, 0, replies).state == UnexpectedType
  {
    Reached(cs, session, 0, i, replies, rest);
    var after := PassesTo(cs, session, i, rest, m);
    AtReply(rest, m);
    OneReply(cs, session, i, after, rest[m], rest[m + 1..]);
  }

  /** What the proxy says to a reply: an ERROR with its code to a foreign session or type, else nothing. */
  lemma SaysToReply(n: nat, session: Char, i: nat, retries: nat, reply: Reply)
    requires i < n
    ensures AfterReply(n, session, i, retries, reply).1
            == if NotAck(reply) then [OnWire(Error, 0, session, [1 as char])]
               else if reply.Got? && reply.packet.session != session as int then [OnWire(Error, 0, session, [3 as char])]
               else []
  {
  }

  // ---------- collecting the response ----------

  /** One packet in ReceiveDataDevice: the text collected so far, the packets sent back, and
      whether the function returns. None: it throws. */
  function AfterData(session: Char, text: string, p: Packet): Option<(string, seq<Packet>, bool)> {
    if p.session != session as int then None
    else if p.ty == Data then Some((text + p.payload, [OnWire(Ack, p.count, session, "")], p.count == 1))
    else Some((text, [], p.count == 1))
  }

  datatype CollectState = Waiting | Collected | Broken

  datatype CollectRun = CollectRun(state: CollectState, text: string, wire: seq<Packet>, left: seq<Reply>)

  /** ReceiveDataDevice's loop, with some text collected, fed with the given replies. */
  function RunCollect(session: Char, text: string, replies: seq<Reply>): CollectRun
    decreases |replies|
  {
    if replies == [] then CollectRun(Waiting, text, [], [])
    else if replies[0].Timeout? then CollectRun(Broken, text, [], replies[1..])
    else
      match AfterData(session, text, replies[0].packet)
      case None => CollectRun(Broken, text, [OnWire(Error, 0, session, ErrorText(WrongSession))], replies[1..])
      case Some((text', answer, done)) =>
        if done then CollectRun(Collected, text', answer, replies[1..])
        else
          var rest := RunCollect(session, text', replies[1..]);
          rest.(wire := answer + rest.wire)
  }

  function DataTexts(replies: seq<Reply>): seq<string> {
    if replies == [] then []
    else (if replies[0].Got? && replies[0].packet.ty == Data then [replies[0].packet.payload] else []) + DataTexts(replies[1..])
  }

  /** A response that is handed back is the payloads of the DATA packets received, in the order
      in which they came, duplicates included, up to the first packet with number 1; and all
      packets up to there carried the session's number. */
  lemma {:induction false} CollectedText(session: Char, text: string, replies: seq<Reply>) returns (used: nat)
    requires RunCollect(session, text, replies).state == Collected
    ensures 0 < used <= |replies| && RunCollect(session, text, replies).left == replies[used..]
    ensures RunCollect(session, text, replies).text == text + Concat(DataTexts(replies[..used]))
    ensures forall i :: 0 <= i < used ==>
              replies[i].Got? && replies[i].packet.session == session as int && (replies[i].packet.count == 1 <==> i == used - 1)
    decreases |replies|
  {
    var (text', answer, done) := AfterData(session, text, replies[0].packet).value;
    if done {
      used := 1;
      assert replies[..1][1..] == [];
      assert DataTexts(replies[..1]) == if replies[0].packet.ty == Data then [replies[0].packet.payload] else [];
    } else {
      var later := CollectedText(session, text', replies[1..]);
      used := later + 1;
      assert replies[..used][1..] == replies[1..][..later];
      assert replies[1..][later..] == replies[used..];
      CollectStep(text, text', replies, used);
    }
  }

  lemma CollectStep(text: string, text': string, replies: seq<Reply>, used: nat)
    requires 0 < used <= |replies| && replies[0].Got?
    requires text' == if replies[0].packet.ty == Data then text + replies[0].packet.payload else text
    ensures text' + Concat(DataTexts(replies[..used][1..])) == text + Concat(DataTexts(replies[..used]))
  {
    var rest := DataTexts(replies[..used][1..]);
    if replies[0].packet.ty == Data {
      var all := [replies[0].packet.payload] + rest;
      assert all[0] == replies[0].packet.payload && all[1..] == rest;
      Assoc(text, replies[0].packet.payload, Concat(rest));
    } else {
      assert [] + rest == rest;
    }
  }

  // ---------- how collecting ends, by the replies ----------

  // The first q packets are of the session, and none has number 1.
  predicate KeepsCollecting(session: Char, replies: seq<Reply>, q: nat) {
    && q < |replies|
    && forall j :: 0 <= j < q ==>
         replies[j].Got? && replies[j].packet.session == session as int && replies[j].packet.count != 1
  }

  predicate LosesResponse(session: Char, reply: Reply) {
    reply == Timeout || (reply.Got? && reply.packet.session != session as int)
  }

  predicate EndsResponse(session: Char, reply: Reply) {
    reply.Got? && reply.packet.session == session as int && reply.packet.count == 1
  }

  /** An acknowledgement for each DATA packet, with its number. */
  function AcksFor(session: Char, replies: seq<Reply>): seq<Packet> {
    if replies == [] then []
    else
      (if replies[0].Got? && replies[0].packet.ty == Data then [OnWire(Ack, replies[0].packet.count, session, "")] else [])
      + AcksFor(session, replies[1..])
  }

  /** A timeout or a packet of another session loses the response; else the packet with number 1
      ends it, and its text is the payloads of the DATA packets. Each of these is acknowledged. */
  lemma {:induction false} HowCollectingEnds(session: Char, text: string, replies: seq<Reply>, q: nat)
    requires KeepsCollecting(session, replies, q)
    ensures var run := RunCollect(session, text, replies);
            && (LosesResponse(session, replies[q]) ==>
                  && run.state == Broken
                  && run.wire == AcksFor(session, replies[..q])
                                 + if replies[q] == Timeout then [] else [OnWire(Error, 0, session, [3 as char])])
            && (EndsResponse(session, replies[q]) ==>
                  && run.state == Collected && run.left == replies[q + 1..]
                  && run.text == text + Concat(DataTexts(replies[..q + 1]))
                  && run.wire == AcksFor(session, replies[..q + 1]))
    decreases |replies|
  {
    if q == 0 {
      CollectsLast(session, text, replies);
    } else {
      var (text', answer, done) := AfterData(session, text, replies[0].packet).value;
      HowCollectingEnds(session, text', replies[1..], q - 1);
      assert replies[..q][1..] == replies[1..][..q - 1] && replies[..q + 1][1..] == replies[1..][..q];
      CollectStep(text, text', replies, q + 1);
      AcksStep(session, replies, q);
      AcksStep(session, replies, q + 1);
      Wires(answer, AcksFor(session, replies[1..][..q - 1]), [OnWire(Error, 0, session, [3 as char])]);
    }
  }

  lemma CollectsLast(session: Char, text: string, replies: seq<Reply>)
    requires replies != []
    ensures LosesResponse(session, replies[0]) ==>
              RunCollect(session, text, replies)
              == CollectRun(Broken, text, if replies[0] == Timeout then [] else [OnWire(Error, 0, session, [3 as char])], replies[1..])
    ensures EndsResponse(session, replies[0]) ==>
              RunCollect(session, text, replies)
              == CollectRun(Collected, text + Concat(DataTexts(replies[..1])), AcksFor(session, replies[..1]), replies[1..])
    ensures AcksFor(session, replies[..0]) == []
  {
    assert replies[..1][1..] == [] && replies[..1][0] == replies[0];
    if replies[0].Got? {
      assert [replies[0].packet.payload] + [] == [replies[0].packet.payload];
      assert Concat([replies[0].packet.payload]) == replies[0].packet.payload + "";
      assert text + "" == text;
    }
  }

  lemma AcksStep(session: Char, replies: seq<Reply>, q: nat)
    requires 0 < q <= |replies|
    ensures AcksFor(session, replies[..q])
            == (if replies[0].Got? && replies[0].packet.ty == Data then [OnWire(Ack, replies[0].packet.count, session, "")] else [])
               + AcksFor(session, replies[1..][..q - 1])
  {
    assert replies[..q][1..] == replies[1..][..q - 1];
  }

  lemma Wires(a: seq<Packet>, b: seq<Packet>, c: seq<Packet>)
    ensures a + (b + c) == a + b + c && a + (b + []) == a + b + []
  {
  }

  /** The payloads, packet by packet. */
  lemma {:induction false} DataTextsOf(replies: seq<Reply>, more: seq<Reply>, p: Packet)
    ensures DataTexts(replies + more) == DataTexts(replies) + DataTexts(more)
    ensures DataTexts([Got(p)]) == if p.ty == Data then [p.payload] else []
    ensures DataTexts([Timeout]) == []
  {
    assert [Got(p)][1..] == [] && [Timeout][1..] == [];
    if replies == [] {
      assert replies + more == more;
    } else {
      DataTextsOf(replies[1..], more, p);
      assert (replies + more)[1..] == replies[1..] + more && (replies + more)[0] == replies[0];
    }
  }
}
