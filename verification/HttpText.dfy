// The HTTP messages of the program and how they are printed (src/common/http.h, http.cpp).
module HttpText {
  import opened Text
  import opened Numbers

  datatype Field = Field(name: string, value: string)

  // A header is a multimap; a sequence is one order in which its loops may visit the fields.
  type Header = seq<Field>

  datatype Request = Request(verb: string, path: string, query: string, version: string, header: Header)

  datatype Response = Response(version: string, code: string, text: string, header: Header, body: string)

  const OK := Response("1.1", "200", "OK", [], "")
  const BAD_REQUEST := Response("1.1", "400", "Bad Request", [], "")
  const NOT_FOUND := Response("1.1", "404", "Not Found", [], "")
  const INTERNAL_SERVER_ERROR := Response("1.1", "500", "Internal Server Error", [], "")
  const NOT_IMPLEMENTED := Response("1.1", "501", "Not Implemented", [], "")
  const BAD_GATEWAY := Response("1.1", "502", "Bad Gateway", [], "")
  const SERVICE_UNAVAILABLE := Response("1.1", "503", "Service Unavailable", [], "")

  function FieldLine(f: Field): string {
    f.name + ": " + f.value + CRLF
  }

  function HeaderText(h: Header): string {
    if h == [] then "" else FieldLine(h[0]) + HeaderText(h[1..])
  }

  lemma {:induction false} HeaderTextAppend(a: Header, b: Header)
    ensures HeaderText(a + b) == HeaderText(a) + HeaderText(b)
  {
    if a == [] {
      assert a + b == b;
    } else {
      HeaderTextAppend(a[1..], b);
      assert (a + b)[0] == a[0] && (a + b)[1..] == a[1..] + b;
      Assoc(FieldLine(a[0]), HeaderText(a[1..]), HeaderText(b));
    }
  }

  lemma HeaderTextSnoc(h: Header, f: Field)
    ensures HeaderText(h + [f]) == HeaderText(h) + FieldLine(f)
  {
    HeaderTextAppend(h, [f]);
    assert HeaderText([f]) == FieldLine(f);
  }

  function Lower(c: char): char {
    if 'A' <= c <= 'Z' then (c as int - 'A' as int + 'a' as int) as char else c
  }

  predicate SameIgnoringCase(a: string, b: string) {
    |a| == |b| && forall i :: 0 <= i < |a| ==> Lower(a[i]) == Lower(b[i])
  }

  /** The value of the first field with a name. */
  function Lookup(h: Header, name: string): Option<string> {
    if h == [] then None
    else if SameIgnoringCase(h[0].name, name) then Some(h[0].value)
    else Lookup(h[1..], name)
  }

  predicate Lacks(h: Header, name: string) {
    forall i :: 0 <= i < |h| ==> !SameIgnoringCase(h[i].name, name)
  }

  lemma {:induction false} LookupAppend(a: Header, b: Header, name: string)
    requires Lacks(a, name)
    ensures Lookup(a + b, name) == Lookup(b, name)
  {
    if a == [] {
      assert a + b == b;
    } else {
      assert (a + b)[0] == a[0] && (a + b)[1..] == a[1..] + b;
      LookupAppend(a[1..], b, name);
    }
  }

  // ---------- which field a lookup finds ----------

  ghost predicate SameLetter(a: char, b: char) {
    || a == b
    || exists k :: 0 <= k < 26 && ((a == UPPER_LETTERS[k] && b == LOWER_LETTERS[k])
                                   || (a == LOWER_LETTERS[k] && b == UPPER_LETTERS[k]))
  }

  /** The same name, in any case. */
  ghost predicate Alike(a: string, b: string) {
    |a| == |b| && forall i :: 0 <= i < |a| ==> SameLetter(a[i], b[i])
  }

  /** Field i is the first of its name. */
  ghost predicate FirstNamed(h: Header, i: nat, name: string) {
    i < |h| && Alike(h[i].name, name) && forall j :: 0 <= j < i ==> !Alike(h[j].name, name)
  }

  ghost predicate NoneNamed(h: Header, name: string) {
    forall j :: 0 <= j < |h| ==> !Alike(h[j].name, name)
  }

  lemma SameLetterIff(a: char, b: char)
    ensures Lower(a) == Lower(b) <==> SameLetter(a, b)
  {
    if Lower(a) == Lower(b) && a != b {
      LettersOfCase(a, b);
    } else if SameLetter(a, b) && a != b {
      LettersOfPair(a, b);
    }
  }

  lemma LettersOfPair(a: char, b: char)
    requires SameLetter(a, b)
    ensures Lower(a) == Lower(b)
  {
    if a != b {
      var k :| 0 <= k < 26 && ((a == UPPER_LETTERS[k] && b == LOWER_LETTERS[k])
                               || (a == LOWER_LETTERS[k] && b == UPPER_LETTERS[k]));
      LetterAt(k);
    }
  }

  lemma LettersOfCase(a: char, b: char)
    requires Lower(a) == Lower(b) && a != b
    ensures SameLetter(a, b)
  {
    var k := Lower(a) as int - 'a' as int;
    LetterAt(k);
    assert (a == UPPER_LETTERS[k] && b == LOWER_LETTERS[k]) || (a == LOWER_LETTERS[k] && b == UPPER_LETTERS[k]);
  }

  lemma AlikeIff(a: string, b: string)
    ensures SameIgnoringCase(a, b) <==> Alike(a, b)
  {
    if |a| == |b| {
      forall i | 0 <= i < |a|
        ensures Lower(a[i]) == Lower(b[i]) <==> SameLetter(a[i], b[i])
      {
        SameLetterIff(a[i], b[i]);
      }
    }
  }

  lemma LacksIff(h: Header, name: string)
    ensures Lacks(h, name) <==> NoneNamed(h, name)
  {
    forall j | 0 <= j < |h|
      ensures SameIgnoringCase(h[j].name, name) <==> Alike(h[j].name, name)
    {
      AlikeIff(h[j].name, name);
    }
  }

  /** A lookup finds the first field of the name, in any case, and nothing only when there is none. */
  lemma {:induction false} LookupFinds(h: Header, name: string)
    ensures forall i :: 0 <= i < |h| && FirstNamed(h, i, name) ==> Lookup(h, name) == Some(h[i].value)
    ensures Lookup(h, name) == None <==> NoneNamed(h, name)
  {
    if h != [] {
      AlikeIff(h[0].name, name);
      LookupFinds(h[1..], name);
      if !Alike(h[0].name, name) {
        forall i | 0 <= i < |h| && FirstNamed(h, i, name)
          ensures Lookup(h, name) == Some(h[i].value)
        {
          assert FirstNamed(h[1..], i - 1, name);
        }
        assert forall j :: 1 <= j < |h| ==> h[j] == h[1..][j - 1];
      }
    }
  }

  lemma {:induction false} FirstIsNamed(h: Header, name: string) returns (i: nat)
    requires !NoneNamed(h, name)
    ensures FirstNamed(h, i, name)
  {
    if Alike(h[0].name, name) {
      i := 0;
    } else {
      var j :| 0 <= j < |h| && Alike(h[j].name, name);
      assert h[j] == h[1..][j - 1];
      i := FirstIsNamed(h[1..], name);
      i := i + 1;
    }
  }

  /** std::to_string of a size. */
  function Decimal(n: nat): string {
    NatText(n, 10)
  }

  // ---------- printing ----------

  function RequestLine(r: Request): string {
    r.verb + " " + r.path + "?" + r.query + " HTTP/" + r.version + CRLF
  }

  function RequestText(r: Request): string {
    RequestLine(r) + HeaderText(r.header) + CRLF
  }

  function StatusLine(r: Response): string {
    "HTTP/" + r.version + " " + r.code + " " + r.text + CRLF
  }

  /** The fields that are printed: the response's own, and the length of a body that is not empty. */
  function PrintedHeader(r: Response): Header {
    if r.body == "" then r.header else r.header + [Field("Content-Length", Decimal(|r.body|))]
  }

  function ResponseText(r: Response): string {
    StatusLine(r) + HeaderText(PrintedHeader(r)) + CRLF + r.body
  }

  /** One line for each field. */
  lemma FieldsPrinted(name: string, value: string, more: Header)
    ensures HeaderText([]) == ""
    ensures HeaderText([Field(name, value)] + more) == name + ": " + value + "\r\n" + HeaderText(more)
  {
    assert ([Field(name, value)] + more)[1..] == more;
  }

  method PrintFields(h: Header) returns (s: string)
    ensures s == HeaderText(h)
  {
    s := "";
    for i := 0 to |h|
      invariant s == HeaderText(h[..i])
    {
      assert h[..i + 1] == h[..i] + [h[i]];
      HeaderTextSnoc(h[..i], h[i]);
      s := s + (h[i].name + ": " + h[i].value + "\r\n");
    }
    assert h[..|h|] == h;
  }

  /** Request::to_string. */
  method PrintRequest(r: Request) returns (s: string)
    ensures s == RequestText(r)
    ensures s == r.verb + " " + r.path + "?" + r.query + " HTTP/" + r.version + "\r\n" + HeaderText(r.header) + "\r\n"
  {
    s := r.verb + " " + r.path + "?" + r.query + " HTTP/" + r.version + "\r\n";
    var fields := PrintFields(r.header);
    s := s + fields;
    s := s + "\r\n";
  }

  /** Response::to_string: the length of a body that is not empty is added to the fields. */
  method PrintResponse(r: Response) returns (s: string)
    ensures s == ResponseText(r)
    ensures var start := "HTTP/" + r.version + " " + r.code + " " + r.text + "\r\n" + HeaderText(r.header);
            s == if r.body == "" then start + ("\r\n" + r.body)
                 else start + ("Content-Length: " + Decimal(|r.body|) + "\r\n") + ("\r\n" + r.body)
  {
    s := "HTTP/" + r.version + " " + r.code + " " + r.text + "\r\n";
    var fields := PrintFields(r.header);
    s := s + fields;
    if |r.body| > 0 {
      LengthPrinted(r.header, |r.body|);
      Assoc(StatusLine(r), HeaderText(r.header), "Content-Length: " + Decimal(|r.body|) + "\r\n");
      s := s + ("Content-Length: " + Decimal(|r.body|) + "\r\n");
    }
    Assoc(s, "\r\n", r.body);
    s := s + ("\r\n" + r.body);
  }

  lemma LengthPrinted(h: Header, n: nat)
    ensures HeaderText(h + [Field("Content-Length", Decimal(n))])
            == HeaderText(h) + ("Content-Length: " + Decimal(n) + "\r\n")
  {
    HeaderTextSnoc(h, Field("Content-Length", Decimal(n)));
    assert "Content-Length" + ": " == "Content-Length: ";
  }

  /** The text of a response without fields and body. */
  function Plain(code: string, text: string): string {
    "HTTP/1.1 " + code + " " + text + "\r\n\r\n"
  }

  lemma PlainText(r: Response)
    requires r.version == "1.1" && r.header == [] && r.body == ""
    ensures ResponseText(r) == Plain(r.code, r.text)
  {
    var line := "HTTP/" + r.version + " " + r.code + " " + r.text;
    assert line == "HTTP/1.1 " + r.code + " " + r.text;
    assert ResponseText(r) == line + CRLF + CRLF;
  }

  /** The status code in the text of a response. */
  function CodeOf(text: string): string {
    if |text| < 12 then "" else text[9..12]
  }

  lemma CodeInText(r: Response)
    requires |r.version| == 3 && |r.code| == 3
    ensures |ResponseText(r)| >= 12 && CodeOf(ResponseText(r)) == r.code
  {
    var line := StatusLine(r);
    assert line[9..12] == r.code;
    assert ResponseText(r)[9..12] == line[9..12];
  }
}
