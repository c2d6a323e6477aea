// The whole program: clients' requests through the proxy to the devices' handlers and files.
module Program {
  import opened Text
  import opened Aaa
  import opened Fragments
  import opened FileStore
  import HttpText
  import HttpParse
  import HttpMessages
  import Routing
  import Device
  import DeviceNode
  import ProxyLink
  import StopAndWait
  import Exchange
  import Timeouts

  // ---------- fragments of a message ----------

  /** A message of at most 127 fragments is sent in packets numbered from the number of fragments
      down to 1, each of which fits the configured size and arrives under its number and
      session when the session number is not negative. */
  lemma FragmentPackets(data: string, max: nat, session: Char, i: nat)
    requires max > HEADER_SIZE && session >= 0
    requires i < |Chunks(data, max - HEADER_SIZE)| <= MAX_COUNT
    ensures var cs := Chunks(data, max - HEADER_SIZE);
            var p := ProxyLink.DataPacket(cs, session, i);
            && p == Packet(Data, |cs| - i, session as nat, cs[i])
            && 1 <= p.count <= MAX_COUNT && (p.count == 1 <==> i == |cs| - 1)
            && HEADER_SIZE < HEADER_SIZE + |p.payload| <= max
            && Concat(cs) == data
  {
    ChunksShape(data, max - HEADER_SIZE);
  }

  /** A normal return of SendDataDevice guarantees that the device has reassembled exactly the data
      precisely when the data fits one packet: on a network that loses, duplicates, delays and
      reorders packets, and on one that only loses them. */
  lemma DeliveryExactIff(data: string, max: nat, session: Char)
    requires max > HEADER_SIZE && session >= 0
    requires 0 < |Chunks(data, max - HEADER_SIZE)| <= MAX_COUNT
    ensures var c := StopAndWait.Parameters(Chunks(data, max - HEADER_SIZE), session);
            && c.Valid() && Concat(c.cs) == data
            && (StopAndWait.AlwaysExact(c) <==> |data| + HEADER_SIZE <= max)
            && (StopAndWait.AlwaysExactUnderLoss(c) <==> |data| + HEADER_SIZE <= max)
  {
    var c := StopAndWait.Parameters(Chunks(data, max - HEADER_SIZE), session);
    ChunksShape(data, max - HEADER_SIZE);
    assert c.Valid();
    StopAndWait.AlwaysExactIffOneFragment(c);
    SingleChunkIff(data, max - HEADER_SIZE);
  }

  // ---------- a run of requests ----------

  // The configured devices, the files they start with, the texts that clients send, what these say
  // when they are parsed, and the device that the proxy selects for each.
  datatype Setup = Setup(
    max: map<string, nat>, settings: map<string, Settings>, files: map<string, Files>,
    texts: seq<string>, requests: seq<HttpText.Request>, devices: seq<string>)

  predicate Says(text: string, r: HttpText.Request) {
    var parsed := HttpMessages.ParseRequest(HttpParse.Stream(text, true));
    parsed.Accepted? && parsed.request == r
  }

  function RequestAt(u: Setup, k: nat): Exchange.Request
    requires k < |u.texts| == |u.devices|
  {
    Exchange.Request(u.devices[k], u.texts[k])
  }

  ghost function System(u: Setup): Exchange.Config<Files>
    requires |u.texts| == |u.devices|
  {
    Exchange.Config(
      u.max, u.files,
      (d, files, text) => if d in u.settings then Device.Serve(u.settings[d], files, text) else None,
      seq(|u.texts|, k requires 0 <= k < |u.texts| => RequestAt(u, k)),
      HttpText.ResponseText(HttpText.BAD_GATEWAY))
  }

  // Any texts, as long as those for configured devices can be parsed.
  ghost predicate Proper(u: Setup) {
    && |u.texts| == |u.requests| == |u.devices|
    && u.settings.Keys == u.max.Keys == u.files.Keys
    && (forall d :: d in u.max ==> u.max[d] > HEADER_SIZE)
    && (forall k {:trigger Says(u.texts[k], u.requests[k])} ::
          0 <= k < |u.texts| && u.devices[k] in u.max ==> Says(u.texts[k], u.requests[k]))
  }

  type ProperSetup = u: Setup | Proper(u) ghost witness Setup(map[], map[], map[], [], [], [])

  /** The requests among the first k that go to device d. */
  function History(rs: seq<HttpText.Request>, ds: seq<string>, k: nat, d: string): seq<HttpText.Request>
    requires k <= |rs| == |ds|
  {
    if k == 0 then []
    else
      var earlier := History(rs, ds, k - 1, d);
      if ds[k - 1] == d then earlier + [rs[k - 1]] else earlier
  }

  lemma ServedText(s: Settings, files: Files, text: string, r: HttpText.Request)
    requires Says(text, r)
    ensures Device.Serve(s, files, text) == Some(Device.Answer(s, files, r))
  {
  }

  lemma ServedAt(u: ProperSetup, k: nat)
    requires k < |u.requests| && u.devices[k] in u.max
    ensures var d := u.devices[k];
            && System(u).requests[k] == RequestAt(u, k) && Exchange.Routed(System(u), k)
            && Exchange.Served(System(u), k)
               == Some(Device.Answer(u.settings[d], Exchange.StoresAfter(System(u), k)[d], u.requests[k]))
  {
    var d := u.devices[k];
    assert System(u).requests[k] == RequestAt(u, k);
    assert Says(u.texts[k], u.requests[k]);
    ServedText(u.settings[d], Exchange.StoresAfter(System(u), k)[d], u.texts[k], u.requests[k]);
  }

  /** The devices' objects are the nodes of this system. */
  lemma DevicesAreNodes(u: ProperSetup, d: string)
    requires d in u.max
    ensures DeviceNode.Runs(System(u), d, u.settings[d], u.max[d])
  {
  }

  lemma OneStore(u: ProperSetup, k: nat, d: string)
    requires k < |u.requests| && d in u.max
    ensures var before := Exchange.StoresAfter(System(u), k)[d];
            Exchange.StoresAfter(System(u), k + 1)[d]
            == if u.devices[k] == d then Device.Answer(u.settings[d], before, u.requests[k]).0 else before
  {
    assert System(u).requests[k] == RequestAt(u, k);
    if u.devices[k] in u.max {
      ServedAt(u, k);
    }
    Exchange.NextStore(System(u), k, d);
  }

  // Any step on a device's files, over a history.
  function Fold(step: (Files, HttpText.Request) -> Files, files: Files, h: seq<HttpText.Request>): Files
    decreases |h|
  {
    if h == [] then files else step(Fold(step, files, h[..|h| - 1]), h[|h| - 1])
  }

  function HandlerStep(s: Settings): (Files, HttpText.Request) -> Files {
    (files, r) => Handle(s, files, r).0
  }

  lemma {:induction false} FoldIsFiles(s: Settings, files: Files, h: seq<HttpText.Request>)
    ensures Fold(HandlerStep(s), files, h) == FilesAfter(s, files, h)
    decreases |h|
  {
    if h != [] {
      FoldIsFiles(s, files, h[..|h| - 1]);
    }
  }

  lemma StoreStep(u: ProperSetup, k: nat, d: string, step: (Files, HttpText.Request) -> Files, before: Files, after: Files)
    requires k < |u.requests| && d in u.max && step == HandlerStep(u.settings[d])
    requires before == Exchange.StoresAfter(System(u), k)[d] && after == Exchange.StoresAfter(System(u), k + 1)[d]
    ensures OneMove(step, before, u.requests[k], u.devices[k] == d, after)
  {
    OneStore(u, k, d);
  }

  // What a step does to a device's files between two requests of a run.
  predicate OneMove(step: (Files, HttpText.Request) -> Files, before: Files, r: HttpText.Request, mine: bool, after: Files) {
    after == if mine then step(before, r) else before
  }

  ghost predicate Moves(stores: nat -> Files, step: (Files, HttpText.Request) -> Files,
                        rs: seq<HttpText.Request>, ds: seq<string>, d: string)
  {
    |rs| == |ds| && forall i: nat :: i < |rs| ==> OneMove(step, stores(i), rs[i], ds[i] == d, stores(i + 1))
  }

  lemma {:induction false} FoldOfHistory(stores: nat -> Files, step: (Files, HttpText.Request) -> Files,
                                         rs: seq<HttpText.Request>, ds: seq<string>, d: string, k: nat)
    requires k <= |rs| && Moves(stores, step, rs, ds, d)
    ensures stores(k) == Fold(step, stores(0), History(rs, ds, k, d))
    decreases k
  {
    if k > 0 {
      FoldOfHistory(stores, step, rs, ds, d, k - 1);
      FoldStep(step, stores(0), rs, ds, k - 1, d);
      assert OneMove(step, stores(k - 1), rs[k - 1], ds[k - 1] == d, stores(k - 1 + 1));
    }
  }

  lemma FoldStep(step: (Files, HttpText.Request) -> Files, files: Files, rs: seq<HttpText.Request>, ds: seq<string>,
                 k: nat, d: string)
    requires k < |rs| == |ds|
    ensures var before := Fold(step, files, History(rs, ds, k, d));
            Fold(step, files, History(rs, ds, k + 1, d)) == if ds[k] == d then step(before, rs[k]) else before
  {
    var earlier := History(rs, ds, k, d);
    assert (earlier + [rs[k]])[..|earlier|] == earlier;
  }

  ghost function StoresOf(u: ProperSetup, d: string): nat -> Files
    requires d in u.max
  {
    (k: nat) => if k <= |u.requests| then Exchange.StoresAfter(System(u), k)[d] else map[]
  }

  lemma StoreMove(u: ProperSetup, d: string, stores: nat -> Files, step: (Files, HttpText.Request) -> Files, i: nat)
    requires d in u.max && stores == StoresOf(u, d) && step == HandlerStep(u.settings[d])
    requires i < |u.requests|
    ensures OneMove(step, stores(i), u.requests[i], u.devices[i] == d, stores(i + 1))
  {
    var before, after := stores(i), stores(i + 1);
    StoresAt(u, d, stores, i, before);
    StoresAt(u, d, stores, i + 1, after);
    StoreStep(u, i, d, step, before, after);
  }

  lemma StoresAt(u: ProperSetup, d: string, stores: nat -> Files, k: nat, files: Files)
    requires d in u.max && stores == StoresOf(u, d) && k <= |u.requests| && files == stores(k)
    ensures files == Exchange.StoresAfter(System(u), k)[d]
  {
  }

  lemma StoreMoves(u: ProperSetup, d: string, stores: nat -> Files, step: (Files, HttpText.Request) -> Files)
    requires d in u.max && stores == StoresOf(u, d) && step == HandlerStep(u.settings[d])
    ensures Moves(stores, step, u.requests, u.devices, d)
  {
    forall i: nat | i < |u.requests|
      ensures OneMove(step, stores(i), u.requests[i], u.devices[i] == d, stores(i + 1))
    {
      StoreMove(u, d, stores, step, i);
    }
  }

  /** A device's files are what its own requests make of them. */
  lemma StoresAreFiles(u: ProperSetup, k: nat, d: string)
    requires k <= |u.requests| && d in u.max
    ensures Exchange.StoresAfter(System(u), k)[d] == FilesAfter(u.settings[d], u.files[d], History(u.requests, u.devices, k, d))
  {
    var stores, step := StoresOf(u, d), HandlerStep(u.settings[d]);
    StoreMoves(u, d, stores, step);
    FoldOfHistory(stores, step, u.requests, u.devices, d, k);
    FoldIsFiles(u.settings[d], u.files[d], History(u.requests, u.devices, k, d));
    assert stores(0) == u.files[d];
  }

  /** And they are what the device itself keeps: in every timely run its node has the files that
      its own answered requests make, or also the request that is being carried out. */
  lemma FilesInRun(u: ProperSetup, w0: Exchange.World<Files>, actions: seq<Exchange.Action>,
                   w: Exchange.World<Files>, d: string)
    requires Exchange.Good(System(u)) && Exchange.Initial(System(u), w0) && Exchange.TimelySteps(System(u), w0, actions, w)
    requires d in u.max
    ensures |w.responses| <= |u.requests| && d in w.nodes
    ensures var k, files := |w.responses|, w.nodes[d].store;
            || files == FilesAfter(u.settings[d], u.files[d], History(u.requests, u.devices, k, d))
            || (k < |u.requests| && u.devices[k] == d
                && files == FilesAfter(u.settings[d], u.files[d], History(u.requests, u.devices, k + 1, d)))
  {
    Exchange.StoresInRun(System(u), w0, actions, w, d);
    var k := |w.responses|;
    StoresAreFiles(u, k, d);
    if w.phase != Exchange.Ready {
      assert System(u).requests[k] == RequestAt(u, k);
      StoresAreFiles(u, k + 1, d);
    }
  }

  /** What the plain handler answers to request k, on the files that the device's earlier
      requests have left; 502 for an unknown device. */
  function AnswerTo(u: ProperSetup, k: nat): string
    requires k < |u.requests|
  {
    var d := u.devices[k];
    if d in u.max then
      Device.Answer(u.settings[d], FilesAfter(u.settings[d], u.files[d], History(u.requests, u.devices, k, d)), u.requests[k]).1
    else HttpText.ResponseText(HttpText.BAD_GATEWAY)
  }

  lemma CallIsAnswer(u: ProperSetup, k: nat)
    requires k < |u.requests|
    ensures Exchange.ResponseTo(System(u), k) == AnswerTo(u, k)
  {
    assert System(u).requests[k] == RequestAt(u, k);
    if u.devices[k] in u.max {
      StoresAreFiles(u, k, u.devices[k]);
      ServedAt(u, k);
    }
  }

  /** Every response that the proxy has handed back, in every run over reliable channels, is the
      plain handler's answer to that request. */
  lemma ProxyAnswersAsHandler(u: ProperSetup, w0: Exchange.World<Files>, actions: seq<Exchange.Action>,
                              w: Exchange.World<Files>)
    requires Exchange.Good(System(u)) && Exchange.Initial(System(u), w0) && Exchange.TimelySteps(System(u), w0, actions, w)
    ensures |w.responses| <= |u.requests|
    ensures forall k :: 0 <= k < |w.responses| ==> w.responses[k] == AnswerTo(u, k)
  {
    Exchange.RunRefinesCalls(System(u), w0, actions, w);
    forall k | 0 <= k < |w.responses|
      ensures w.responses[k] == AnswerTo(u, k)
    {
      CallIsAnswer(u, k);
    }
  }

  // Requests j and k of a run, for the same file of the same device, with no DELETE between.
  ghost predicate SameFile(u: ProperSetup, j: nat, k: nat, name: string)
    requires j < k < |u.requests|
  {
    var d := u.devices[j];
    && d in u.max && u.devices[k] == d
    && Addressed(u.settings[d], u.requests[j]) == Some(name)
    && Addressed(u.settings[d], u.requests[k]) == Some(name)
    && forall i :: j < i < k && u.devices[i] == d && Addressed(u.settings[d], u.requests[i]) == Some(name)
                   ==> u.requests[i].verb != "DELETE"
  }

  /** Through the whole program: a read of a file returns the data that the PUT that created it
      carried, the value of its first field named X-Data in any case, as long as no DELETE of the
      file came between, whatever other requests did. */
  lemma ReadThroughProxy(u: ProperSetup, w0: Exchange.World<Files>, actions: seq<Exchange.Action>,
                         w: Exchange.World<Files>, j: nat, k: nat, name: string, data: string)
    requires Exchange.Good(System(u)) && Exchange.Initial(System(u), w0) && Exchange.TimelySteps(System(u), w0, actions, w)
    requires j < k < |w.responses| <= |u.requests| && SameFile(u, j, k, name)
    requires u.requests[j].verb == "PUT" && Carries(u.requests[j], data)
    requires w.responses[j] == "HTTP/1.1 200 OK\r\n\r\n"
    requires u.requests[k].verb == "GET" || u.requests[k].verb == "POST"
    ensures w.responses[k] == HttpText.ResponseText(HttpText.Response("1.1", "200", "OK", [], data))
  {
    ProxyAnswersAsHandler(u, w0, actions, w);
    OkIs();
    ReadInRun(u, j, k, name, data);
  }

  lemma OkIs()
    ensures HttpText.ResponseText(HttpText.OK) == "HTTP/1.1 200 OK\r\n\r\n"
  {
    assert HttpText.StatusLine(HttpText.OK) == "HTTP/1.1 200 OK\r\n";
  }

  lemma ReadInRun(u: ProperSetup, j: nat, k: nat, name: string, data: string)
    requires j < k < |u.requests| && SameFile(u, j, k, name) && Carries(u.requests[j], data)
    requires u.requests[j].verb == "PUT" && AnswerTo(u, j) == HttpText.ResponseText(HttpText.OK) && IsRead(u.requests[k])
    ensures AnswerTo(u, k) == HttpText.ResponseText(HttpText.OK.(body := data))
  {
    var d := u.devices[j];
    var h, m := History(u.requests, u.devices, k, d), |History(u.requests, u.devices, j, d)|;
    HistoryExtends(u.requests, u.devices, j, k, d);
    assert forall i :: m < i < |h| && Addressed(u.settings[d], h[i]) == Some(name) ==> h[i].verb != "DELETE";
    ReadInHistory(u.settings[d], u.files[d], h, m, u.requests[k], name, data);
  }

  lemma ReadInHistory(s: Settings, files: Files, h: seq<HttpText.Request>, m: nat, r: HttpText.Request, name: string, data: string)
    requires m < |h| && Addressed(s, h[m]) == Some(name) && Addressed(s, r) == Some(name)
    requires h[m].verb == "PUT" && Carries(h[m], data) && IsRead(r)
    requires Device.Answer(s, FilesAfter(s, files, h[..m]), h[m]).1 == HttpText.ResponseText(HttpText.OK)
    requires forall i :: m < i < |h| && Addressed(s, h[i]) == Some(name) ==> h[i].verb != "DELETE"
    ensures Device.Answer(s, FilesAfter(s, files, h), r).1 == HttpText.ResponseText(HttpText.OK.(body := data))
  {
    var all := h + [r];
    assert all[..|h|] == h && all[..m] == h[..m];
    OkText(s, FilesAfter(s, files, h[..m]), h[m]);
    assert forall i :: m < i < |h| ==> all[i] == h[i];
    ReadsReturnWhatWasPut(s, files, all, name, m, |h|, data);
  }

  // A request with an index between j and k that goes to device d.
  ghost predicate Between(rs: seq<HttpText.Request>, ds: seq<string>, j: nat, k: nat, d: string, r: HttpText.Request)
    requires k <= |rs| == |ds|
  {
    exists q :: j < q < k && ds[q] == d && rs[q] == r
  }

  lemma BetweenMore(rs: seq<HttpText.Request>, ds: seq<string>, j: nat, k: nat, d: string, r: HttpText.Request)
    requires 0 < k <= |rs| == |ds| && Between(rs, ds, j, k - 1, d, r)
    ensures Between(rs, ds, j, k, d, r)
  {
    var q :| j < q < k - 1 && ds[q] == d && rs[q] == r;
    assert ds[q] == d && rs[q] == r;
  }

  lemma {:induction false} HistoryExtends(rs: seq<HttpText.Request>, ds: seq<string>, j: nat, k: nat, d: string)
    requires j < k <= |rs| == |ds| && ds[j] == d
    ensures var h, m := History(rs, ds, k, d), |History(rs, ds, j, d)|;
            && m < |h| && h[..m] == History(rs, ds, j, d) && h[m] == rs[j]
            && forall i :: m < i < |h| ==> Between(rs, ds, j, k, d, h[i])
    decreases k
  {
    var h, m := History(rs, ds, k, d), |History(rs, ds, j, d)|;
    if j < k - 1 {
      HistoryExtends(rs, ds, j, k - 1, d);
      var before := History(rs, ds, k - 1, d);
      assert h[..m] == before[..m];
      forall i | m < i < |h|
        ensures Between(rs, ds, j, k, d, h[i])
      {
        if i < |before| {
          assert Between(rs, ds, j, k - 1, d, before[i]);
          BetweenMore(rs, ds, j, k, d, before[i]);
        } else {
          assert rs[k - 1] == h[i];
        }
      }
    }
  }

  // A PUT was answered with 200 exactly when its text is that of an empty 200 response.
  lemma OkText(s: Settings, files: Files, r: HttpText.Request)
    requires Addressed(s, r).Some? && r.verb == "PUT"
    ensures Device.Answer(s, files, r).1 == HttpText.ResponseText(HttpText.OK) ==> Handle(s, files, r).1 == Some(HttpText.OK)
  {
    HandleCell(s, files, r, Addressed(s, r).value);
    HttpText.CodeInText(HttpText.OK);
    HttpText.CodeInText(EXISTS);
  }

  /** A text that says a request for "/d/..." is routed to device d, and d, when its name is not
      empty, never answers "Wrong device.". */
  lemma RoutedToTheRightDevice(s: Settings, files: Files, text: string, r: HttpText.Request, tail: string)
    requires Says(text, r) && '/' !in r.verb && r.path == "/" + s.id + "/" + tail
    requires s.id != "" && '/' !in s.id
    ensures Routing.GetDeviceId(text) == s.id
    ensures Handle(s, files, r).1 != Some(WRONG_DEVICE)
  {
    Routing.SelectsParsedSegment(text, r, s.id, tail);
    assert r.path[..|s.id| + 2] == "/" + s.id + "/";
    Routing.FirstItem(r.path, s.id);
    Routing.OnlyWrongDevice(s, files, r);
  }

  // Each request goes to the device that the proxy selects from its text, and each device knows
  // itself by the name under which it is configured, which a target can hold.
  ghost predicate ProxyRouted(u: ProperSetup) {
    && (forall k :: 0 <= k < |u.texts| ==> u.devices[k] == Routing.GetDeviceId(u.texts[k]))
    && (forall d :: d in u.max ==> u.settings[d].id == d && ' ' !in d && '?' !in d)
  }

  predicate OriginForm(r: HttpText.Request) {
    '/' !in r.verb && r.path != "" && r.path[0] == '/'
  }

  /** In every timely run, with the proxy's own choice of devices, a request in origin form is
      answered "Wrong device." exactly when it selects the empty name, a device of that name is
      configured, and its path has an item; a text for an unknown device never is. */
  lemma WrongDeviceInRun(u: ProperSetup, w0: Exchange.World<Files>, actions: seq<Exchange.Action>,
                         w: Exchange.World<Files>)
    requires Exchange.Good(System(u)) && Exchange.Initial(System(u), w0) && Exchange.TimelySteps(System(u), w0, actions, w)
    requires ProxyRouted(u)
    ensures |w.responses| <= |u.requests|
    ensures forall k :: 0 <= k < |w.responses| && (u.devices[k] in u.max ==> OriginForm(u.requests[k])) ==>
              (w.responses[k] == HttpText.ResponseText(WRONG_DEVICE)
               <==> u.devices[k] == "" && "" in u.max && Items(u.requests[k].path) != [])
  {
    ProxyAnswersAsHandler(u, w0, actions, w);
    forall k | 0 <= k < |w.responses| && (u.devices[k] in u.max ==> OriginForm(u.requests[k]))
      ensures w.responses[k] == HttpText.ResponseText(WRONG_DEVICE)
              <==> u.devices[k] == "" && "" in u.max && Items(u.requests[k].path) != []
    {
      WrongDeviceAnswer(u, k);
    }
  }

  lemma WrongDeviceAnswer(u: ProperSetup, k: nat)
    requires k < |u.requests| && ProxyRouted(u) && (u.devices[k] in u.max ==> OriginForm(u.requests[k]))
    ensures AnswerTo(u, k) == HttpText.ResponseText(WRONG_DEVICE)
            <==> u.devices[k] == "" && "" in u.max && Items(u.requests[k].path) != []
  {
    var d, r := u.devices[k], u.requests[k];
    if d in u.max {
      var files := FilesAfter(u.settings[d], u.files[d], History(u.requests, u.devices, k, d));
      WrongDeviceText(u.settings[d], files, r);
      assert Says(u.texts[k], r);
      Routing.WrongDeviceIff(u.texts[k], u.settings[d], files, r, RestOf(u.texts[k]));
    } else {
      UnknownIsNotWrong();
    }
  }

  // What is left behind the head of a text that can be parsed.
  function RestOf(text: string): HttpParse.Stream {
    match HttpMessages.ParseRequest(HttpParse.Stream(text, true))
    case Accepted(_, rest) => rest
    case _ => HttpParse.Stream("", false)
  }

  lemma UnknownIsNotWrong()
    ensures HttpText.ResponseText(HttpText.BAD_GATEWAY) != HttpText.ResponseText(WRONG_DEVICE)
  {
    assert |HttpText.ResponseText(HttpText.BAD_GATEWAY)| < |HttpText.ResponseText(WRONG_DEVICE)|;
  }

  /** No other response has the text of "Wrong device.". */
  lemma WrongDeviceText(s: Settings, files: Files, r: HttpText.Request)
    ensures Device.Answer(s, files, r).1 == HttpText.ResponseText(WRONG_DEVICE)
            <==> Handle(s, files, r).1 == Some(WRONG_DEVICE)
  {
    var response := match Handle(s, files, r).1 case Some(x) => x case None => HttpText.NOT_IMPLEMENTED;
    HttpText.CodeInText(response);
    HttpText.CodeInText(WRONG_DEVICE);
    WrongDeviceCode(s, files, r, response);
  }

  lemma WrongDeviceCode(s: Settings, files: Files, r: HttpText.Request, response: HttpText.Response)
    requires response == match Handle(s, files, r).1 case Some(x) => x case None => HttpText.NOT_IMPLEMENTED
    ensures |response.version| == 3 && |response.code| == 3
    ensures response.code == WRONG_DEVICE.code <==> Handle(s, files, r).1 == Some(WRONG_DEVICE)
  {
  }

  // ---------- early timeouts ----------

  // At most one text is for a configured device, and it and the handler's answer fit one packet.
  ghost predicate OneSmallRequest(u: ProperSetup) {
    && (forall j, k :: 0 <= j < k < |u.devices| ==> u.devices[j] !in u.max || u.devices[k] !in u.max)
    && (forall k :: 0 <= k < |u.devices| && u.devices[k] in u.max ==> SmallRequest(u, k))
  }

  ghost predicate SmallRequest(u: ProperSetup, k: nat)
    requires k < |u.devices| && u.devices[k] in u.max
  {
    Timeouts.OnePacket(u.texts[k], u.max[u.devices[k]]) && Timeouts.OnePacket(AnswerTo(u, k), u.max[u.devices[k]])
  }

  lemma SmallIs(u: ProperSetup, k: nat)
    requires Exchange.Good(System(u)) && k < |u.devices|
    ensures Exchange.Routed(System(u), k) <==> u.devices[k] in u.max
    ensures u.devices[k] in u.max ==> (Timeouts.SmallExchange(System(u), k) <==> SmallRequest(u, k))
  {
    assert System(u).requests[k] == RequestAt(u, k);
    if u.devices[k] in u.max {
      ServedAt(u, k);
      CallIsAnswer(u, k);
    }
  }

  ghost predicate NoRequest(u: ProperSetup) {
    forall k :: 0 <= k < |u.devices| ==> u.devices[k] !in u.max
  }

  lemma ConditionsAre(u: ProperSetup)
    requires Exchange.Good(System(u))
    ensures Timeouts.OneSmallExchange(System(u)) <==> OneSmallRequest(u)
    ensures Timeouts.NothingRouted(System(u)) <==> NoRequest(u)
  {
    forall k | 0 <= k < |u.devices|
      ensures Exchange.Routed(System(u), k) <==> u.devices[k] in u.max
      ensures u.devices[k] in u.max ==> (Timeouts.SmallExchange(System(u), k) <==> SmallRequest(u, k))
    {
      SmallIs(u, k);
    }
  }

  /** What a caller can count on if the proxy may time out early: with 1 to 13 such timeouts, every
      response is right in every run exactly if there is at most one request for a device, of one
      packet, with an answer of one packet; with more, exactly if there is none. */
  lemma EarlyTimeoutsIff(u: ProperSetup, n: nat, patient: bool)
    requires Exchange.Good(System(u))
    ensures 1 <= n <= Timeouts.PATIENCE ==> (Timeouts.Right(System(u), n, patient) <==> OneSmallRequest(u))
    ensures n > Timeouts.PATIENCE ==> (Timeouts.Right(System(u), n, patient) <==> NoRequest(u))
  {
    Timeouts.RightIff(System(u), n, patient);
    ConditionsAre(u);
  }
}
