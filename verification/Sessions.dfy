// Session numbers: a signed char per device, incremented for every request, of which seven
// bits travel on the wire (src/proxy/proxy.cpp, src/common/aaa.cpp).
module Sessions {
  import opened Text
  import opened Aaa
  import opened ProxyLink
  import opened DeviceLink
  import StopAndWait

  /** c++ on a signed char. */
  function Increment(c: Char): Char {
    if c == 127 then -128 else c + 1
  }

  /** The session number of the k-th request to a device. */
  function SessionOf(k: nat): Char {
    if k == 0 then 0 else Increment(SessionOf(k - 1))
  }

  /** Eight bits, read as a signed number. */
  function Wrapped(k: nat): int {
    if k % 256 < 128 then k % 256 else k % 256 - 256
  }

  lemma WrappedNext(k: nat)
    ensures Wrapped(k + 1) == if Wrapped(k) == 127 then -128 else Wrapped(k) + 1
  {
    var q, r := k / 256, k % 256;
    assert k + 1 == if r == 255 then 256 * (q + 1) else 256 * q + (r + 1);
    RemainderIs(k + 1, if r == 255 then q + 1 else q, if r == 255 then 0 else r + 1);
  }

  lemma RemainderIs(x: nat, q: nat, r: nat)
    requires x == 256 * q + r && r < 256
    ensures x % 256 == r
  {
  }

  lemma {:induction false} SessionValue(k: nat)
    ensures SessionOf(k) as int == Wrapped(k)
  {
    if k > 0 {
      SessionValue(k - 1);
      WrappedNext(k - 1);
    }
  }

  /** The numbers of two requests to a device differ unless the requests are a multiple of 256
      apart; so the first 127 have the distinct numbers 1 to 127. */
  lemma SessionsDistinctIff(j: nat, k: nat)
    ensures SessionOf(j) == SessionOf(k) <==> j % 256 == k % 256
    ensures 1 <= k <= 127 ==> SessionOf(k) as int == k
  {
    SessionValue(j);
    SessionValue(k);
  }

  function Count(ds: seq<string>, d: string): nat {
    if ds == [] then 0 else Count(ds[..|ds| - 1], d) + if ds[|ds| - 1] == d then 1 else 0
  }

  /** SetDeviceSocket's effect on the session numbers. */
  function NextSessions(sessions: map<string, Char>, d: string): map<string, Char> {
    if d in sessions then sessions[d := Increment(sessions[d])] else sessions
  }

  function SessionsAfter(sessions: map<string, Char>, ds: seq<string>): map<string, Char> {
    if ds == [] then sessions else NextSessions(SessionsAfter(sessions, ds[..|ds| - 1]), ds[|ds| - 1])
  }

  /** In every run each device has the number of its own requests, whatever the others get. */
  lemma {:induction false} SessionsCount(sessions: map<string, Char>, ds: seq<string>, d: string)
    requires forall e :: e in sessions ==> sessions[e] == 0
    requires d in sessions
    ensures d in SessionsAfter(sessions, ds) && SessionsAfter(sessions, ds)[d] == SessionOf(Count(ds, d))
    decreases |ds|
  {
    if ds != [] {
      SessionsCount(sessions, ds[..|ds| - 1], d);
    }
  }

  lemma {:induction false} CountMonotone(ds: seq<string>, i: nat, j: nat, d: string)
    requires i <= j <= |ds|
    ensures Count(ds[..i], d) <= Count(ds[..j], d)
    decreases j
  {
    if i < j {
      assert ds[..j][..j - 1] == ds[..j - 1];
      CountMonotone(ds, i, j - 1, d);
    }
  }

  /** Over any run with at most 127 requests to a device, the numbers it is given are pairwise
      distinct and between 1 and 127. */
  lemma FreshNumbers(sessions: map<string, Char>, ds: seq<string>, i: nat, j: nat, d: string)
    requires forall e :: e in sessions ==> sessions[e] == 0
    requires d in sessions && Count(ds, d) <= 127
    requires i < j < |ds| && ds[i] == d && ds[j] == d
    ensures d in SessionsAfter(sessions, ds[..i + 1]) && d in SessionsAfter(sessions, ds[..j + 1])
    ensures 1 <= SessionsAfter(sessions, ds[..i + 1])[d] < SessionsAfter(sessions, ds[..j + 1])[d] <= 127
  {
    assert ds[..i + 1][..i] == ds[..i] && ds[..j + 1][..j] == ds[..j] && ds[..|ds|] == ds;
    SessionsCount(sessions, ds[..i + 1], d);
    SessionsCount(sessions, ds[..j + 1], d);
    CountMonotone(ds, i + 1, j, d);
    CountMonotone(ds, j + 1, |ds|, d);
    SessionsDistinctIff(0, Count(ds[..i + 1], d));
    SessionsDistinctIff(0, Count(ds[..j + 1], d));
  }

  predicate Advances(n: nat, session: Char, i: nat, retries: nat, p: Packet)
    requires i < n
  {
    var next := AfterReply(n, session, i, retries, Got(p)).0;
    next.Sent? || (next.Sending? && next.i > i)
  }

  /** What a device sends back for fragment data of a request's exchange. */
  lemma AnswerSession(r: Receiver, data: Packet)
    ensures var answer := Receive(r, data).answer;
            answer.ty == Ack ==> answer.session == data.session && answer.count == data.count
  {
  }

  /** An acknowledgement of the j-th exchange of some device, left over when fragment i of the
      k-th exchange of that or another device is under way, is taken for one of that fragment
      exactly when it has the fragment's number, k's session number is not negative, and j and
      k agree in seven bits. */
  lemma StaleAckAdvancesIff(n: nat, i: nat, retries: nat, j: nat, k: nat, count: Bits7, r: Receiver, payload: string)
    requires i < n <= MAX_COUNT
    requires Receive(r, OnWire(Data, count, SessionOf(j), payload)).answer.ty == Ack
    ensures var p := Receive(r, OnWire(Data, count, SessionOf(j), payload)).answer;
            Advances(n, SessionOf(k), i, retries, p)
            <==> OnWire(Data, count, SessionOf(j), payload).count == n - i && k % 256 < 128 && j % 128 == k % 128
  {
    AnswerSession(r, OnWire(Data, count, SessionOf(j), payload));
    SessionValue(j);
    SessionValue(k);
    SevenBits(j);
    SevenBits(k);
  }

  lemma SevenBits(k: nat)
    ensures OnWire(Data, 0, SessionOf(k), "").session == k % 128
    ensures SessionOf(k) >= 0 <==> k % 256 < 128
    ensures SessionOf(k) >= 0 ==> SessionOf(k) as int == k % 128
  {
    SessionValue(k);
    LowSeven(k, k / 256, k % 256);
  }

  lemma LowSeven(k: nat, q: nat, r: nat)
    requires k == 256 * q + r && r < 256
    ensures k % 128 == if r < 128 then r else r - 128
  {
    if r < 128 {
      RemainderOf128(k, 2 * q, r);
    } else {
      RemainderOf128(k, 2 * q + 1, r - 128);
    }
  }

  lemma RemainderOf128(x: nat, q: nat, r: nat)
    requires x == 128 * q + r && r < 128
    ensures x % 128 == r
  {
  }

  // ---------- left-over acknowledgements in a run ----------

  /** The session number that request i of a run is given. */
  function NumberAt(sessions: map<string, Char>, ds: seq<string>, i: nat): Char
    requires i < |ds|
  {
    var after := SessionsAfter(sessions, ds[..i + 1]);
    if ds[i] in after then after[ds[i]] else 0
  }

  // p acknowledges a DATA packet sent under this session number.
  ghost predicate Acknowledges(p: Packet, session: Char) {
    exists r: Receiver, count: Bits7, payload: string ::
      p == Receive(r, OnWire(Data, count, session, payload)).answer && p.ty == Ack
  }

  // p is left over from an earlier request to the device of request j.
  ghost predicate LeftOver(sessions: map<string, Char>, ds: seq<string>, j: nat, p: Packet)
    requires j < |ds|
  {
    exists i :: 0 <= i < j && ds[i] == ds[j] && Acknowledges(p, NumberAt(sessions, ds, i))
  }

  /** Within 127 requests to a device no acknowledgement that is left over from an earlier one
      has the session number of a later one, or advances its sender. */
  lemma LeftOverNeverAdvances(sessions: map<string, Char>, ds: seq<string>, j: nat, p: Packet,
                              n: nat, f: nat, retries: nat)
    requires forall e :: e in sessions ==> sessions[e] == 0
    requires j < |ds| && ds[j] in sessions && Count(ds, ds[j]) <= 127
    requires LeftOver(sessions, ds, j, p) && f < n <= MAX_COUNT
    ensures 1 <= NumberAt(sessions, ds, j) && p.session != NumberAt(sessions, ds, j) as int
    ensures !Advances(n, NumberAt(sessions, ds, j), f, retries, p)
  {
    var i :| 0 <= i < j && ds[i] == ds[j] && Acknowledges(p, NumberAt(sessions, ds, i));
    FreshNumbers(sessions, ds, i, j, ds[j]);
    var session := NumberAt(sessions, ds, i);
    var r: Receiver, count: Bits7, payload: string :|
      p == Receive(r, OnWire(Data, count, session, payload)).answer && p.ty == Ack;
    AnswerSession(r, OnWire(Data, count, session, payload));
  }

  lemma NumberInRange(sessions: map<string, Char>, ds: seq<string>, j: nat)
    requires forall e :: e in sessions ==> sessions[e] == 0
    requires j < |ds| && ds[j] in sessions && Count(ds, ds[j]) <= 127
    ensures 1 <= NumberAt(sessions, ds, j)
  {
    assert ds[..j + 1][..j] == ds[..j] && ds[..|ds|] == ds;
    SessionsCount(sessions, ds[..j + 1], ds[j]);
    CountMonotone(ds, j + 1, |ds|, ds[j]);
    SessionsDistinctIff(0, Count(ds[..j + 1], ds[j]));
  }

  /** So the single exchange of StopAndWait may start in any state in which the acknowledgements
      on the network are left over from earlier requests to the device. */
  lemma LeftOversMayBeThere(sessions: map<string, Char>, ds: seq<string>, j: nat, cs: seq<string>, s: StopAndWait.Sys)
    requires forall e :: e in sessions ==> sessions[e] == 0
    requires j < |ds| && ds[j] in sessions && Count(ds, ds[j]) <= 127
    requires 0 < |cs| <= MAX_COUNT && forall i :: 0 <= i < |cs| ==> cs[i] != ""
    requires s.proxy == Sending(0, 0) && !s.waiting && s.toDevice == {}
    requires Idle(s.device) && s.device.buffer == "" && s.response == None
    requires s.accepted == [] && !s.errored && s.delivered == []
    requires forall p :: p in s.toProxy && p.ty == Ack ==> LeftOver(sessions, ds, j, p)
    ensures var c := StopAndWait.Parameters(cs, NumberAt(sessions, ds, j));
            c.Valid() && StopAndWait.Initial(c, s)
  {
    NumberInRange(sessions, ds, j);
    forall p | p in s.toProxy && p.ty == Ack
      ensures p.session != NumberAt(sessions, ds, j) as int
    {
      LeftOverNeverAdvances(sessions, ds, j, p, 1, 0, 0);
    }
  }

  // ---------- which exchanges can succeed ----------

  /** With a negative session number no acknowledgement is ever recognised. */
  lemma {:induction false} NegativeNeverSent(cs: seq<string>, session: Char, i: nat, retries: nat, replies: seq<Reply>)
    requires i < |cs| <= MAX_COUNT && session < 0
    ensures var state := RunSend(cs, session, i, retries, replies).state;
            state != Sent && (state.Sending? ==> state.i == i)
    decreases |replies|
  {
    if replies != [] {
      var next := AfterReply(|cs|, session, i, retries, replies[0]).0;
      if next.Sending? {
        NegativeNeverSent(cs, session, i, next.retries, replies[1..]);
      }
    }
  }

  function Acks(cs: seq<string>, session: Char, i: nat): seq<Reply>
    requires i <= |cs| <= MAX_COUNT
    decreases |cs| - i
  {
    if i == |cs| then [] else [Got(OnWire(Ack, |cs| - i, session, ""))] + Acks(cs, session, i + 1)
  }

  lemma {:induction false} AcksSend(cs: seq<string>, session: Char, i: nat)
    requires i < |cs| <= MAX_COUNT && session >= 0
    ensures RunSend(cs, session, i, 0, Acks(cs, session, i)).state == Sent
    decreases |cs| - i
  {
    var ack := OnWire(Ack, |cs| - i, session, "");
    assert AfterReply(|cs|, session, i, 0, Got(ack)).0 == if i + 1 == |cs| then Sent else Sending(i + 1, 0);
    assert Acks(cs, session, i)[0] == Got(ack) && Acks(cs, session, i)[1..] == Acks(cs, session, i + 1);
    if i + 1 < |cs| {
      AcksSend(cs, session, i + 1);
    }
  }

  /** The k-th request to a device can be delivered, by whatever network, exactly when k mod 256
      is less than 128: every second 128 requests in a row fail. */
  lemma DeliverableIff(cs: seq<string>, k: nat)
    requires 0 < |cs| <= MAX_COUNT
    ensures (exists replies :: RunSend(cs, SessionOf(k), 0, 0, replies).state == Sent) <==> k % 256 < 128
  {
    SevenBits(k);
    if SessionOf(k) >= 0 {
      AcksSend(cs, SessionOf(k), 0);
    } else {
      forall replies
        ensures RunSend(cs, SessionOf(k), 0, 0, replies).state != Sent
      {
        NegativeNeverSent(cs, SessionOf(k), 0, 0, replies);
      }
    }
  }
}
