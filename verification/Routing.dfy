// The proxy picks a device by searching the text of a request, the device by parsing it
// (src/proxy/proxy.cpp and src/device/device.cpp).
module Routing {
  import opened Text
  import opened HttpText
  import opened HttpParse
  import opened HttpMessages
  import opened FileStore

  /** GetDeviceId: what stands between the first two slashes. Without a slash the search starts
      at position npos + 1, which is the start of the text. */
  function GetDeviceId(raw: string): string {
    var first := Find(raw, '/', 0);
    var remain := if first == |raw| then raw else raw[first + 1..];
    remain[..Find(remain, '/', 0)]
  }

  /** If the first slash stands at the start of the target raw[v..t], a selected device without
      spaces is the target's first segment, and a slash follows. */
  lemma SelectedSegment(raw: string, v: nat, t: nat)
    requires v < t < |raw| && raw[v] == '/' && raw[t] == ' '
    requires forall k :: 0 <= k < v ==> raw[k] != '/'
    requires ' ' !in GetDeviceId(raw)
    ensures var d := GetDeviceId(raw);
            v + 1 + |d| < t && raw[v + 1..v + 1 + |d|] == d && raw[v + 1 + |d|] == '/' && '/' !in d
  {
    FindIs(raw, '/', 0, v);
    var remain := raw[v + 1..];
    var p := Find(remain, '/', 0);
    assert remain[t - v - 1] == ' ';
    assert remain[..p] == raw[v + 1..v + 1 + p];
  }

  lemma PathKeepsSegment(target: string, d: string)
    requires |target| >= |d| + 2 && target[..|d| + 2] == "/" + d + "/" && '?' !in d
    ensures var path := SplitTarget(target).0;
            |path| >= |d| + 2 && path[..|d| + 2] == "/" + d + "/"
  {
    var start, q := target[..|d| + 2], FindLast(target, '?', 0, |target|);
    assert forall k :: 0 <= k < |d| + 2 ==> target[k] == start[k] && start[k] != '?';
    if q < |target| {
      assert q >= |d| + 2;
      assert target[..q][..|d| + 2] == start;
    }
  }

  lemma FirstItem(path: string, d: string)
    requires |path| >= |d| + 2 && path[..|d| + 2] == "/" + d + "/" && '/' !in d
    ensures d != "" ==> Items(path) != [] && Items(path)[0] == d
  {
    var rest := path[|d| + 2..];
    assert path == "" + ['/'] + (d + ['/'] + rest);
    SplitHead("", '/', d + ['/'] + rest);
    SplitHead(d, '/', rest);
    if d != "" {
      FirstNonEmpty(d, Split(rest, '/'));
    }
  }

  lemma FirstNonEmpty(d: string, more: seq<string>)
    requires d != ""
    ensures var items := NonEmpty([""] + ([d] + more)); items != [] && items[0] == d
  {
    assert ([""] + ([d] + more))[1..] == [d] + more;
  }

  /** The text search finds the first segment of a target, when another one follows. */
  lemma SelectsFirstSegment(verb: string, d: string, rest: string)
    requires '/' !in verb && '/' !in d
    ensures GetDeviceId(verb + " /" + d + "/" + rest) == d
  {
    var raw := verb + " /" + d + "/" + rest;
    var first := |verb| + 1;
    assert forall k :: 0 <= k < |verb| ==> raw[k] == verb[k];
    FindIs(raw, '/', 0, first);
    var remain := raw[first + 1..];
    assert remain == d + "/" + rest;
    FindIs(remain, '/', 0, |d|);
    assert remain[..|d|] == d;
  }

  /** With fewer than two slashes it finds what stands behind the only one, or the whole text. */
  lemma SelectsWithoutSlashes(a: string, d: string)
    requires '/' !in a && '/' !in d
    ensures GetDeviceId(d) == d && GetDeviceId(a + "/" + d) == d
  {
    FindIs(d, '/', 0, |d|);
    FindIs(a + "/" + d, '/', 0, |a|);
    assert (a + "/" + d)[|a| + 1..] == d && d[..|d|] == d;
  }

  /** The parser cuts the first line at its first two spaces. */
  lemma ParsedLine(raw: string)
    requires ParseRequest(Stream(raw, true)).Accepted?
    ensures var r := ParseRequest(Stream(raw, true)).request;
            var v := |r.verb|;
            var line := GetLine(Stream(raw, true), "").0;
            var t := Find(line, ' ', v + 1);
            && v < t < |line| <= |raw| && raw[..|line|] == line
            && line[..v] == r.verb && line[v] == ' ' && line[t] == ' '
            && SplitTarget(line[v + 1..t]) == (r.path, r.query)
  {
  }

  lemma TargetSegment(raw: string, v: nat, t: nat, path: string, query: string)
    requires v < t < |raw| && raw[v] == ' ' && raw[t] == ' '
    requires forall k :: 0 <= k < v ==> raw[k] != '/'
    requires SplitTarget(raw[v + 1..t]) == (path, query) && path != "" && path[0] == '/'
    requires ' ' !in GetDeviceId(raw) && '?' !in GetDeviceId(raw)
    ensures GetDeviceId(raw) != "" ==> Items(path) != [] && Items(path)[0] == GetDeviceId(raw)
  {
    var target, d := raw[v + 1..t], GetDeviceId(raw);
    assert target != "" && target[0] == '/';
    assert raw[v + 1] == target[0];
    SelectedSegment(raw, v + 1, t);
    SegmentText(raw, v + 1, t, d);
    PathKeepsSegment(target, d);
    FirstItem(path, d);
  }

  lemma SegmentText(raw: string, v: nat, t: nat, d: string)
    requires v + 1 + |d| < t <= |raw| && raw[v] == '/' && raw[v + 1..v + 1 + |d|] == d && raw[v + 1 + |d|] == '/'
    ensures raw[v..t][..|d| + 2] == "/" + d + "/"
  {
    assert raw[v..t][..|d| + 2] == raw[v..v + 2 + |d|];
    assert raw[v..v + 2 + |d|] == [raw[v]] + raw[v + 1..v + 1 + |d|] + [raw[v + 1 + |d|]];
  }

  /** If the proxy selects a device whose name has no question mark or space for a request with
      an origin-form target, the name is the first item of the path that the device parses,
      exactly when it is not empty. */
  lemma RoutingAgreesIff(raw: string, r: Request, rest: Stream)
    requires ParseRequest(Stream(raw, true)) == Accepted(r, rest)
    requires '/' !in r.verb && r.path != "" && r.path[0] == '/'
    requires ' ' !in GetDeviceId(raw) && '?' !in GetDeviceId(raw)
    ensures Items(r.path) != [] && Items(r.path)[0] == GetDeviceId(raw) <==> GetDeviceId(raw) != ""
  {
    var v, t := ParsedTarget(raw, r, rest);
    TargetSegment(raw, v, t, r.path, r.query);
  }

  lemma ParsedTarget(raw: string, r: Request, rest: Stream) returns (v: nat, t: nat)
    requires ParseRequest(Stream(raw, true)) == Accepted(r, rest) && '/' !in r.verb
    ensures v < t < |raw| && raw[v] == ' ' && raw[t] == ' '
    ensures forall k :: 0 <= k < v ==> raw[k] != '/'
    ensures SplitTarget(raw[v + 1..t]) == (r.path, r.query)
  {
    ParsedLine(raw);
    var line := GetLine(Stream(raw, true), "").0;
    v := |r.verb|;
    t := Find(line, ' ', v + 1);
    LinePrefix(raw, line, v, t);
  }

  /** The text search finds the first segment of the parsed path, when another one follows. */
  lemma SelectsParsedSegment(raw: string, r: Request, d: string, tail: string)
    requires ParseRequest(Stream(raw, true)).Accepted? && ParseRequest(Stream(raw, true)).request == r
    requires '/' !in r.verb && '/' !in d && r.path == "/" + d + "/" + tail
    ensures GetDeviceId(raw) == d
  {
    var v, t := ParsedTarget(raw, r, ParseRequest(Stream(raw, true)).rest);
    TargetSelects(raw, v, t, r.path, r.query, d, tail);
  }

  lemma TargetSelects(raw: string, v: nat, t: nat, path: string, query: string, d: string, tail: string)
    requires v < t < |raw| && forall k :: 0 <= k <= v ==> raw[k] != '/'
    requires SplitTarget(raw[v + 1..t]) == (path, query)
    requires '/' !in d && path == "/" + d + "/" + tail
    ensures GetDeviceId(raw) == d
  {
    var target, remain := raw[v + 1..t], raw[v + 2..];
    assert |path| <= |target| && target[..|path|] == path;
    assert forall k :: 0 <= k < |path| ==> raw[v + 1 + k] == target[k] == target[..|path|][k];
    assert raw[v + 1] == '/';
    FindIs(raw, '/', 0, v + 1);
    assert forall k :: 0 <= k < |d| ==> remain[k] == path[k + 1] == d[k];
    assert remain[|d|] == path[|d| + 1] == '/';
    FindIs(remain, '/', 0, |d|);
    assert remain[..|d|] == d;
  }

  lemma LinePrefix(raw: string, line: string, v: nat, t: nat)
    requires v < t < |line| <= |raw| && raw[..|line|] == line
    ensures raw[..v] == line[..v] && raw[v + 1..t] == line[v + 1..t] && raw[v] == line[v] && raw[t] == line[t]
    ensures forall k :: 0 <= k < v ==> raw[k] == line[..v][k]
  {
    assert forall k :: 0 <= k < |line| ==> raw[k] == raw[..|line|][k];
  }

  /** Hence the device answers "Wrong device." only to an empty name. */
  lemma WrongDeviceIff(raw: string, s: Settings, files: Files, r: Request, rest: Stream)
    requires ParseRequest(Stream(raw, true)) == Accepted(r, rest)
    requires '/' !in r.verb && r.path != "" && r.path[0] == '/'
    requires s.id == GetDeviceId(raw) && ' ' !in s.id && '?' !in s.id
    ensures Handle(s, files, r).1 == Some(WRONG_DEVICE) <==> s.id == "" && Items(r.path) != []
  {
    RoutingAgreesIff(raw, r, rest);
    OnlyWrongDevice(s, files, r);
  }

  lemma OnlyWrongDevice(s: Settings, files: Files, r: Request)
    ensures Handle(s, files, r).1 == Some(WRONG_DEVICE) <==> Items(r.path) != [] && Items(r.path)[0] != s.id
  {
  }
}
