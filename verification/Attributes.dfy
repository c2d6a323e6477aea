// Semicolon-separated attributes, as in Set-Cookie and Content-Disposition
// (lib/simple-web-server/utility.hpp).
module Attributes {
  import opened Text
  import opened HttpText
  import opened Percent

  // ---------- the grammar that the parser accepts ----------

  function FindEither(s: string, a: char, b: char, from: nat): (r: nat)
    requires from <= |s|
    ensures from <= r <= |s|
    ensures forall k :: from <= k < r ==> s[k] != a && s[k] != b
    ensures r < |s| ==> s[r] == a || s[r] == b
    decreases |s| - from
  {
    if from == |s| || s[from] == a || s[from] == b then from else FindEither(s, a, b, from + 1)
  }

  function SkipSeparators(s: string): (t: string)
    ensures |t| <= |s|
  {
    if s != "" && (s[0] == ' ' || s[0] == ';') then SkipSeparators(s[1..]) else s
  }

  // Where a value starts, and where its end is looked for, relative to the equals sign's right:
  // a quote is skipped unless it is the last character; an unquoted value has a first character.
  function Quoted(v: string): bool {
    |v| > 1 && v[0] == '"'
  }

  function ValueText(v: string): string {
    if Quoted(v) then v[1..] else v
  }

  function ValueEnd(v: string): (j: nat)
    requires v != ""
    ensures j <= |ValueText(v)|
  {
    FindEither(ValueText(v), '"', ';', if Quoted(v) then 0 else 1)
  }

  // Names with the texts of their values, before percent-decoding.
  type Cuts = seq<(string, string)>

  function CutAttributes(s: string): Cuts
    decreases |s|, 2
  {
    CutTrimmed(SkipSeparators(s))
  }

  function CutTrimmed(t: string): Cuts
    decreases |t|, 1
  {
    if t == "" then []
    else
      var k := FindEither(t, ';', '=', 1);
      if k == |t| then [(t, "")]
      else if t[k] == ';' then [(t[..k], "")] + CutAttributes(t[k + 1..])
      else CutValue(t[..k], t[k + 1..])
  }

  function CutValue(name: string, v: string): Cuts
    decreases |v|, 0
  {
    if v == "" then []
    else
      var w, j := ValueText(v), ValueEnd(v);
      if j == |w| then [(name, w)] else [(name, w[..j])] + CutAttributes(w[j + 1..])
  }

  /** The fields of the attributes; values are percent-decoded. */
  function Decoded(cuts: Cuts): Header {
    if cuts == [] then [] else [Field(cuts[0].0, Decode(cuts[0].1))] + Decoded(cuts[1..])
  }

  lemma {:induction false} DecodedAppend(a: Cuts, b: Cuts)
    ensures Decoded(a + b) == Decoded(a) + Decoded(b)
  {
    if a == [] {
      assert a + b == b;
    } else {
      assert (a + b)[0] == a[0] && (a + b)[1..] == a[1..] + b;
      DecodedAppend(a[1..], b);
      var f := Field(a[0].0, Decode(a[0].1));
      assert [f] + (Decoded(a[1..]) + Decoded(b)) == [f] + Decoded(a[1..]) + Decoded(b);
    }
  }

  function Parsed(s: string): Header {
    Decoded(CutAttributes(s))
  }

  // ---------- the parser ----------

  lemma FindEitherIs(s: string, a: char, b: char, from: nat, r: nat)
    requires from <= r <= |s|
    requires forall k :: from <= k < r ==> s[k] != a && s[k] != b
    requires r < |s| ==> s[r] == a || s[r] == b
    ensures FindEither(s, a, b, from) == r
  {
  }

  // From the start n of a name: no name ends before position c.
  ghost predicate InName(s: string, n: nat, c: nat) {
    && n < c <= |s| && s[n] != ' ' && s[n] != ';'
    && forall k :: n < k < c ==> s[k] != ';' && s[k] != '='
  }

  lemma NameStarts(s: string, n: nat)
    requires n < |s| && s[n] != ' ' && s[n] != ';'
    ensures SkipSeparators(s[n..]) == s[n..]
  {
  }

  lemma SkipOne(s: string, c: nat)
    requires c < |s| && (s[c] == ' ' || s[c] == ';')
    ensures CutAttributes(s[c..]) == CutAttributes(s[c + 1..])
  {
    assert s[c..][1..] == s[c + 1..];
    assert SkipSeparators(s[c..]) == SkipSeparators(s[c + 1..]);
  }

  lemma NameEnds(s: string, n: nat, c: nat)
    requires InName(s, n, c) && c < |s| && (s[c] == ';' || s[c] == '=')
    ensures CutAttributes(s[n..]) ==
            if s[c] == ';' then [(s[n..c], "")] + CutAttributes(s[c + 1..]) else CutValue(s[n..c], s[c + 1..])
  {
    NameStarts(s, n);
    NameRun(s, n, c);
    RestOfRest(s, n, c);
    CutAttributesIs(s[n..], c - n, s[n..c], s[c + 1..]);
  }

  lemma NameRun(s: string, n: nat, c: nat)
    requires InName(s, n, c) && c < |s| && (s[c] == ';' || s[c] == '=')
    ensures FindEither(s[n..], ';', '=', 1) == c - n && s[n..] != "" && s[n..][c - n] == s[c]
  {
    FindEitherIs(s[n..], ';', '=', 1, c - n);
  }

  lemma RestOfRest(s: string, v: nat, c: nat)
    requires v <= c < |s|
    ensures s[v..][..c - v] == s[v..c] && s[v..][c - v + 1..] == s[c + 1..]
  {
  }

  lemma CutAttributesIs(t: string, k: nat, name: string, rest: string)
    requires t != "" && SkipSeparators(t) == t && FindEither(t, ';', '=', 1) == k < |t|
    requires name == t[..k] && rest == t[k + 1..]
    ensures CutAttributes(t) == if t[k] == ';' then [(name, "")] + CutAttributes(rest) else CutValue(name, rest)
  {
    assert CutAttributes(t) == CutTrimmed(t);
  }

  lemma NameIsLast(s: string, n: nat)
    requires InName(s, n, |s|)
    ensures CutAttributes(s[n..]) == [(s[n..], "")]
  {
    NameStarts(s, n);
    FindEitherIs(s[n..], ';', '=', 1, |s| - n);
  }

  // From the start v of a value behind the equals sign at e: it does not end before c.
  ghost predicate InValue(s: string, e: nat, v: nat, c: nat) {
    && e + 1 < |s|
    && v == (if Quoted(s[e + 1..]) then e + 2 else e + 1)
    && e + 2 <= c <= |s|
    && forall k :: e + 2 <= k < c ==> s[k] != '"' && s[k] != ';'
  }

  lemma ValueIs(s: string, e: nat, v: nat, c: nat)
    requires InValue(s, e, v, c) && (c < |s| ==> s[c] == '"' || s[c] == ';')
    ensures ValueText(s[e + 1..]) == s[v..] && ValueEnd(s[e + 1..]) == c - v
  {
    var w := ValueText(s[e + 1..]);
    assert w == s[v..];
    FindEitherIs(w, '"', ';', e + 2 - v, c - v);
  }

  lemma ValueEnds(s: string, name: string, e: nat, v: nat, c: nat)
    requires InValue(s, e, v, c) && c < |s| && (s[c] == '"' || s[c] == ';')
    ensures CutValue(name, s[e + 1..]) == [(name, s[v..c])] + CutAttributes(s[c + 1..])
  {
    ValueIs(s, e, v, c);
    RestOfRest(s, v, c);
    CutValueIs(name, s[e + 1..], s[v..], c - v, s[v..c], s[c + 1..]);
  }

  lemma CutValueIs(name: string, v: string, w: string, j: nat, code: string, rest: string)
    requires v != "" && w == ValueText(v) && j == ValueEnd(v) && j < |w|
    requires code == w[..j] && rest == w[j + 1..]
    ensures CutValue(name, v) == [(name, code)] + CutAttributes(rest)
  {
  }

  lemma ValueIsLast(s: string, name: string, e: nat, v: nat)
    requires InValue(s, e, v, |s|)
    ensures CutValue(name, s[e + 1..]) == [(name, s[v..])]
  {
    ValueIs(s, e, v, |s|);
  }

  // The parser's three positions (None is npos) when it has reached position c.
  ghost predicate Scanning(s: string, name: Option<nat>, nameEnd: Option<nat>, value: Option<nat>, c: nat) {
    && c <= |s|
    && match name
       case None => nameEnd == None && value == None
       case Some(n) =>
         match nameEnd
         case None => value == None && InName(s, n, c)
         case Some(e) =>
           && InName(s, n, e) && e < c && s[e] == '='
           && match value
              case None => c == e + 1
              case Some(v) => InValue(s, e, v, c)
  }

  // What the text yields from where the scan stands: outside names from `at`, and else from the
  // name's start or from the equals sign.
  ghost function Remaining(s: string, name: Option<nat>, nameEnd: Option<nat>, at: nat): Cuts
    requires at <= |s| && (name.Some? ==> name.value <= |s|)
    requires name.Some? && nameEnd.Some? ==> name.value <= nameEnd.value < |s|
  {
    match name
    case None => CutAttributes(s[at..])
    case Some(n) =>
      match nameEnd
      case None => CutAttributes(s[n..])
      case Some(e) => CutValue(s[n..e], s[e + 1..])
  }

  // The cuts found so far and those to come make up the whole text's.
  ghost predicate Progress(total: Cuts, s: string, cuts: Cuts,
                           name: Option<nat>, nameEnd: Option<nat>, value: Option<nat>, c: nat)
  {
    && Scanning(s, name, nameEnd, value, c)
    && cuts + Remaining(s, name, nameEnd, if name == None then c else 0) == total
  }

  lemma CutsAssoc(cuts: Cuts, cut: (string, string), rest: Cuts)
    ensures (cuts + [cut]) + rest == cuts + ([cut] + rest)
  {
  }

  lemma EmitName(total: Cuts, s: string, cuts: Cuts, n: nat, c: nat)
    requires Progress(total, s, cuts, Some(n), None, None, c) && c < |s| && s[c] == ';'
    ensures Progress(total, s, cuts + [(s[n..c], "")], None, None, None, c + 1)
  {
    NameEmitted(s, n, c);
    CutsAssoc(cuts, (s[n..c], ""), Remaining(s, None, None, c + 1));
  }

  lemma NameEmitted(s: string, n: nat, c: nat)
    requires InName(s, n, c) && c < |s| && s[c] == ';'
    ensures Remaining(s, Some(n), None, 0) == [(s[n..c], "")] + Remaining(s, None, None, c + 1)
  {
    NameEnds(s, n, c);
  }

  lemma EmitValue(total: Cuts, s: string, cuts: Cuts, n: nat, e: nat, v: nat, c: nat)
    requires Progress(total, s, cuts, Some(n), Some(e), Some(v), c) && c < |s| && (s[c] == '"' || s[c] == ';')
    ensures Progress(total, s, cuts + [(s[n..e], s[v..c])], None, None, None, c + 1)
  {
    ValueEmitted(s, n, e, v, c);
    CutsAssoc(cuts, (s[n..e], s[v..c]), Remaining(s, None, None, c + 1));
  }

  lemma ValueEmitted(s: string, n: nat, e: nat, v: nat, c: nat)
    requires InValue(s, e, v, c) && c < |s| && (s[c] == '"' || s[c] == ';') && n <= e
    ensures Remaining(s, Some(n), Some(e), 0) == [(s[n..e], s[v..c])] + Remaining(s, None, None, c + 1)
  {
    ValueEnds(s, s[n..e], e, v, c);
  }

  lemma EmitLast(total: Cuts, s: string, cuts: Cuts, name: Option<nat>, nameEnd: Option<nat>, value: Option<nat>)
    requires Progress(total, s, cuts, name, nameEnd, value, |s|)
    ensures total ==
            if name == None then cuts
            else if nameEnd == None then cuts + [(s[name.value..], "")]
            else if value == None then cuts
            else cuts + [(s[name.value..nameEnd.value], s[value.value..])]
  {
    assert cuts + [] == cuts && s[|s|..] == "";
    assert CutAttributes("") == CutTrimmed("") == [];
    if name.Some? {
      if nameEnd == None {
        NameIsLast(s, name.value);
      } else if value.Some? {
        ValueIsLast(s, s[name.value..nameEnd.value], nameEnd.value, value.value);
      }
    }
  }

  // The steps that store nothing.
  lemma SilentOutside(total: Cuts, s: string, cuts: Cuts, c: nat)
    requires Progress(total, s, cuts, None, None, None, c) && c < |s|
    ensures Progress(total, s, cuts, if s[c] == ' ' || s[c] == ';' then None else Some(c), None, None, c + 1)
  {
    if s[c] == ' ' || s[c] == ';' {
      SkipOne(s, c);
    }
  }

  lemma SilentInName(total: Cuts, s: string, cuts: Cuts, n: nat, c: nat)
    requires Progress(total, s, cuts, Some(n), None, None, c) && c < |s| && s[c] != ';' && s[c] != '='
    ensures Progress(total, s, cuts, Some(n), None, None, c + 1)
  {
  }

  lemma NameFound(total: Cuts, s: string, cuts: Cuts, n: nat, c: nat)
    requires Progress(total, s, cuts, Some(n), None, None, c) && c < |s| && s[c] == '='
    ensures Progress(total, s, cuts, Some(n), Some(c), None, c + 1)
  {
    NameKept(s, n, c);
  }

  lemma NameKept(s: string, n: nat, c: nat)
    requires InName(s, n, c) && c < |s| && s[c] == '='
    ensures Remaining(s, Some(n), None, 0) == Remaining(s, Some(n), Some(c), 0)
  {
    var kept := CutValue(s[n..c], s[c + 1..]);
    assert CutAttributes(s[n..]) == kept by {
      NameEnds(s, n, c);
    }
  }

  lemma ValueFound(total: Cuts, s: string, cuts: Cuts, n: nat, e: nat, c: nat)
    requires Progress(total, s, cuts, Some(n), Some(e), None, c) && c < |s|
    ensures var v := if s[c] == '"' && c + 1 < |s| then c + 1 else c;
            Progress(total, s, cuts, Some(n), Some(e), Some(v), c + 1)
  {
    ValueStart(s, e);
  }

  lemma ValueStart(s: string, e: nat)
    requires e + 1 < |s|
    ensures InValue(s, e, if s[e + 1] == '"' && e + 2 < |s| then e + 2 else e + 1, e + 2)
  {
    assert s[e + 1..][0] == s[e + 1];
  }

  lemma SilentInValue(total: Cuts, s: string, cuts: Cuts, n: nat, e: nat, v: nat, c: nat)
    requires Progress(total, s, cuts, Some(n), Some(e), Some(v), c) && c < |s| && s[c] != '"' && s[c] != ';'
    ensures Progress(total, s, cuts, Some(n), Some(e), Some(v), c + 1)
  {
  }

  lemma DecodedSnoc(cuts: Cuts, name: string, code: string)
    ensures Decoded(cuts + [(name, code)]) == Decoded(cuts) + [Field(name, Decode(code))]
  {
    DecodedAppend(cuts, [(name, code)]);
    assert [(name, code)][1..] == [];
  }

  // The parser's result: the fields stored so far, and the cuts that they were made of.
  method Emplace(result: Header, ghost cuts: Cuts, name: string, code: string)
    returns (more: Header, ghost moreCuts: Cuts)
    requires result == Decoded(cuts)
    ensures moreCuts == cuts + [(name, code)] && more == Decoded(moreCuts)
  {
    DecodedSnoc(cuts, name, code);
    more, moreCuts := result + [Field(name, Decode(code))], cuts + [(name, code)];
  }

  // The parser's three positions; None is npos.
  datatype Scan = Scan(name: Option<nat>, nameEnd: Option<nat>, value: Option<nat>)

  /** The parser's handling of the character at c. */
  method Advance(ghost total: Cuts, s: string, result: Header, ghost cuts: Cuts, scan: Scan, c: nat)
    returns (more: Header, ghost moreCuts: Cuts, next: Scan)
    requires result == Decoded(cuts) && Progress(total, s, cuts, scan.name, scan.nameEnd, scan.value, c) && c < |s|
    ensures more == Decoded(moreCuts) && Progress(total, s, moreCuts, next.name, next.nameEnd, next.value, c + 1)
  {
    more, moreCuts, next := result, cuts, scan;
    if scan.name == None {
      SilentOutside(total, s, cuts, c);
      if s[c] != ' ' && s[c] != ';' {
        next := scan.(name := Some(c));
      }
    } else if scan.nameEnd == None {
      if s[c] == ';' {
        EmitName(total, s, cuts, scan.name.value, c);
        more, moreCuts := Emplace(result, cuts, s[scan.name.value..c], "");
        next := Scan(None, None, None);
      } else if s[c] == '=' {
        NameFound(total, s, cuts, scan.name.value, c);
        next := scan.(nameEnd := Some(c));
      } else {
        SilentInName(total, s, cuts, scan.name.value, c);
      }
    } else if scan.value == None {
      ValueFound(total, s, cuts, scan.name.value, scan.nameEnd.value, c);
      next := scan.(value := if s[c] == '"' && c + 1 < |s| then Some(c + 1) else Some(c));
    } else if s[c] == '"' || s[c] == ';' {
      EmitValue(total, s, cuts, scan.name.value, scan.nameEnd.value, scan.value.value, c);
      more, moreCuts := Emplace(result, cuts, s[scan.name.value..scan.nameEnd.value], s[scan.value.value..c]);
      next := Scan(None, None, None);
    } else {
      SilentInValue(total, s, cuts, scan.name.value, scan.nameEnd.value, scan.value.value, c);
    }
  }

  /** SemicolonSeparatedAttributes::parse. */
  method AttributesParse(s: string) returns (result: Header)
    ensures result == Parsed(s)
  {
    result := [];
    ghost var cuts: Cuts, total := [], CutAttributes(s);
    var scan := Scan(None, None, None);
    var c := 0;
    assert s[0..] == s;
    while c < |s|
      invariant c <= |s| && result == Decoded(cuts)
      invariant Progress(total, s, cuts, scan.name, scan.nameEnd, scan.value, c)
    {
      result, cuts, scan := Advance(total, s, result, cuts, scan, c);
      c := c + 1;
    }
    EmitLast(total, s, cuts, scan.name, scan.nameEnd, scan.value);
    if scan.name != None {
      if scan.nameEnd == None {
        result, cuts := Emplace(result, cuts, s[scan.name.value..], "");
      } else if scan.value != None {
        // Both branches of the source, for a text that ends in a quote and for any other, take
        // the whole rest: the count of the first reaches past the end.
        result, cuts := Emplace(result, cuts, s[scan.name.value..scan.nameEnd.value], s[scan.value.value..]);
      }
    }
  }

  // ---------- round trip ----------

  datatype Attribute = Flag(name: string) | InQuotes(name: string, value: string) | Plain(name: string, value: string)

  function Rendered(a: Attribute): string {
    match a
    case Flag(name) => name
    case InQuotes(name, value) => name + "=\"" + Encode(value) + "\""
    case Plain(name, value) => name + "=" + Encode(value)
  }

  function ListText(attributes: seq<Attribute>): string {
    if attributes == [] then ""
    else if |attributes| == 1 then Rendered(attributes[0])
    else Rendered(attributes[0]) + "; " + ListText(attributes[1..])
  }

  function CutOf(a: Attribute): (string, string) {
    match a
    case Flag(name) => (name, "")
    case InQuotes(name, value) => (name, Encode(value))
    case Plain(name, value) => (name, Encode(value))
  }

  function CutsOf(attributes: seq<Attribute>): Cuts {
    if attributes == [] then [] else [CutOf(attributes[0])] + CutsOf(attributes[1..])
  }

  function FieldsOf(attributes: seq<Attribute>): Header {
    if attributes == [] then []
    else [Field(attributes[0].name, if attributes[0].Flag? then "" else attributes[0].value)] + FieldsOf(attributes[1..])
  }

  predicate GoodName(name: string) {
    && name != "" && name[0] != ' ' && name[0] != ';'
    && forall k :: 1 <= k < |name| ==> name[k] != ';' && name[k] != '='
  }

  predicate Bytes(a: Attribute) {
    !a.Flag? ==> IsBytes(a.value)
  }

  predicate Good(a: Attribute) {
    GoodName(a.name) && (a.Plain? ==> a.value != "")
  }

  // The code of a value holds none of the characters that the scan looks for.
  lemma CodeIsPlain(value: string)
    ensures var code := Encode(value);
            && '"' !in code && ';' !in code && (value != "" ==> code != "" && code[0] != '"')
  {
    EncodeIsEncoded(value);
    EncodedChars(Encode(value));
  }

  lemma SkipSpace(s: string)
    ensures CutAttributes(" " + s) == CutAttributes(s)
  {
    assert (" " + s)[1..] == s;
    assert SkipSeparators(" " + s) == SkipSeparators(s);
  }

  lemma FlagCut(name: string, rest: string)
    requires GoodName(name)
    ensures CutAttributes(name) == [(name, "")]
    ensures CutAttributes(name + ";" + rest) == [(name, "")] + CutAttributes(rest)
  {
    NameIsLast(name, 0);
    var s := name + ";" + rest;
    NameEnds(s, 0, |name|);
    assert name[0..] == name && s[0..] == s && s[..|name|] == name && s[|name| + 1..] == rest;
  }

  lemma NamedCut(name: string, v: string)
    requires GoodName(name)
    ensures CutAttributes(name + "=" + v) == CutValue(name, v)
  {
    var s := name + "=" + v;
    NameEnds(s, 0, |name|);
    assert s[0..] == s && s[..|name|] == name && s[|name| + 1..] == v;
  }

  lemma PlainCut(name: string, code: string, rest: string)
    requires code != "" && '"' !in code && ';' !in code
    ensures CutValue(name, code) == [(name, code)]
    ensures CutValue(name, code + ";" + rest) == [(name, code)] + CutAttributes(rest)
  {
    PlainEnds(name, code[0], code[1..], ';', rest);
    assert [code[0]] + code[1..] == code && code + [';'] == code + ";";
  }

  /** An unquoted value has a first character, whatever it is, and ends at a quote or semicolon
      behind it. */
  lemma PlainEnds(name: string, first: char, more: string, end: char, rest: string)
    requires '"' !in more && ';' !in more && (end == '"' || end == ';') && (first == '"' ==> more == "")
    ensures CutValue(name, [first] + more) == [(name, [first] + more)]
    ensures first != '"' ==> CutValue(name, [first] + more + [end] + rest) == [(name, [first] + more)] + CutAttributes(rest)
  {
    var code := [first] + more;
    var v := code + [end] + rest;
    assert v[0] == code[0] && v[..|code|] == code && v[|code| + 1..] == rest;
    FindEitherIs(code, '"', ';', 1, |code|);
    FindEitherIs(v, '"', ';', 1, |code|);
  }

  lemma QuotedCut(name: string, code: string, rest: string)
    requires '"' !in code && ';' !in code
    ensures CutValue(name, "\"" + code + "\"" + rest) == [(name, code)] + CutAttributes(rest)
  {
    QuotedEnds(name, code, '"', rest);
    assert "\"" + code + ['"'] == "\"" + code + "\"";
  }

  /** A quoted value ends at a quote or semicolon, or with the text. */
  lemma QuotedEnds(name: string, code: string, end: char, rest: string)
    requires '"' !in code && ';' !in code && (end == '"' || end == ';')
    ensures CutValue(name, "\"" + code + [end] + rest) == [(name, code)] + CutAttributes(rest)
    ensures code != "" ==> CutValue(name, "\"" + code) == [(name, code)]
  {
    var v := "\"" + code + [end] + rest;
    var w := code + [end] + rest;
    assert v[1..] == w && w[..|code|] == code && w[|code| + 1..] == rest;
    assert ("\"" + code)[1..] == code;
    FindEitherIs(w, '"', ';', 0, |code|);
    FindEitherIs(code, '"', ';', 0, |code|);
  }

  /** Any text, attribute by attribute: spaces and semicolons in front are skipped, a name reaches
      from its first character to the next semicolon or equals sign, an equals sign with nothing
      behind it drops the name, and values end as above. */
  lemma ParsesAttribute(name: string, first: char, more: string, code: string, end: char, rest: string)
    requires GoodName(name) && (end == '"' || end == ';')
    requires '"' !in more && ';' !in more && '"' !in code && ';' !in code
    ensures Parsed("") == [] && Parsed(" " + rest) == Parsed(rest) && Parsed(";" + rest) == Parsed(rest)
    ensures Parsed(name) == [Field(name, "")] && Parsed(name + ";" + rest) == [Field(name, "")] + Parsed(rest)
    ensures Parsed(name + "=") == []
    ensures first != '"' || more == "" ==> Parsed(name + "=" + ([first] + more)) == [Field(name, Decode([first] + more))]
    ensures first != '"' ==>
              Parsed(name + "=" + ([first] + more + [end] + rest)) == [Field(name, Decode([first] + more))] + Parsed(rest)
    ensures Parsed(name + "=" + ("\"" + code + [end] + rest)) == [Field(name, Decode(code))] + Parsed(rest)
    ensures code != "" ==> Parsed(name + "=" + ("\"" + code)) == [Field(name, Decode(code))]
  {
    SeparatorsSkipped(rest);
    FlagCut(name, rest);
    NamedValues(name, first, more, code, end, rest);
    OneDecoded(name, "", CutAttributes(rest));
    OneDecoded(name, [first] + more, CutAttributes(rest));
    OneDecoded(name, code, CutAttributes(rest));
    assert Decode("") == "";
  }

  lemma SeparatorsSkipped(rest: string)
    ensures CutAttributes("") == [] && CutAttributes(" " + rest) == CutAttributes(rest) == CutAttributes(";" + rest)
  {
    SkipOne(" " + rest, 0);
    SkipOne(";" + rest, 0);
    assert (" " + rest)[0..] == " " + rest && (" " + rest)[1..] == rest;
    assert (";" + rest)[0..] == ";" + rest && (";" + rest)[1..] == rest;
  }

  lemma NamedValues(name: string, first: char, more: string, code: string, end: char, rest: string)
    requires GoodName(name) && (end == '"' || end == ';')
    requires '"' !in more && ';' !in more && '"' !in code && ';' !in code
    ensures CutAttributes(name + "=") == []
    ensures first != '"' || more == "" ==> CutAttributes(name + "=" + ([first] + more)) == [(name, [first] + more)]
    ensures first != '"' ==>
              CutAttributes(name + "=" + ([first] + more + [end] + rest)) == [(name, [first] + more)] + CutAttributes(rest)
    ensures CutAttributes(name + "=" + ("\"" + code + [end] + rest)) == [(name, code)] + CutAttributes(rest)
    ensures code != "" ==> CutAttributes(name + "=" + ("\"" + code)) == [(name, code)]
  {
    NamedCut(name, "");
    assert name + "=" + "" == name + "=";
    NamedCut(name, [first] + more);
    NamedCut(name, [first] + more + [end] + rest);
    NamedCut(name, "\"" + code + [end] + rest);
    NamedCut(name, "\"" + code);
    if first != '"' || more == "" {
      PlainEnds(name, first, more, end, rest);
    }
    QuotedEnds(name, code, end, rest);
  }

  lemma OneDecoded(name: string, code: string, rest: Cuts)
    ensures Decoded([(name, code)] + rest) == [Field(name, Decode(code))] + Decoded(rest)
    ensures Decoded([(name, code)]) == [Field(name, Decode(code))]
  {
    assert ([(name, code)] + rest)[1..] == rest && [(name, code)][1..] == [];
    assert [Field(name, Decode(code))] + [] == [Field(name, Decode(code))];
  }

  lemma SemicolonSkipped(s: string)
    ensures CutAttributes("; " + s) == CutAttributes(s)
  {
    assert ("; " + s)[1..] == " " + s;
    SkipSpace(s);
  }

  lemma NothingLeft()
    ensures CutAttributes("") == []
  {
  }

  lemma Texts(name: string, code: string, rest: string)
    ensures name + ";" + (" " + rest) == name + "; " + rest
    ensures name + "=" + (code + ";" + (" " + rest)) == name + "=" + code + "; " + rest
    ensures name + "=" + ("\"" + code + "\"" + rest) == name + "=\"" + code + "\"" + rest
  {
  }

  lemma FlagAttribute(name: string, rest: string)
    requires GoodName(name)
    ensures CutAttributes(name + "; " + rest) == [(name, "")] + CutAttributes(rest)
  {
    SkipSpace(rest);
    FlagCut(name, " " + rest);
    Texts(name, "", rest);
  }

  lemma PlainAttribute(name: string, code: string, rest: string)
    requires GoodName(name) && code != "" && '"' !in code && ';' !in code
    ensures CutAttributes(name + "=" + code) == [(name, code)]
    ensures CutAttributes(name + "=" + code + "; " + rest) == [(name, code)] + CutAttributes(rest)
  {
    SkipSpace(rest);
    NamedCut(name, code);
    NamedCut(name, code + ";" + (" " + rest));
    PlainCut(name, code, " " + rest);
    Texts(name, code, rest);
  }

  lemma QuotedAttribute(name: string, code: string, rest: string)
    requires GoodName(name) && '"' !in code && ';' !in code
    ensures CutAttributes(name + "=\"" + code + "\"" + rest) == [(name, code)] + CutAttributes(rest)
  {
    NamedCut(name, "\"" + code + "\"" + rest);
    QuotedCut(name, code, rest);
    Texts(name, code, rest);
  }

  lemma AttributeCut(a: Attribute, rest: string)
    requires Good(a)
    ensures CutAttributes(Rendered(a)) == [CutOf(a)]
    ensures CutAttributes(Rendered(a) + "; " + rest) == [CutOf(a)] + CutAttributes(rest)
  {
    match a
    case Flag(name) =>
      FlagCut(name, rest);
      FlagAttribute(name, rest);
    case Plain(name, value) =>
      CodeIsPlain(value);
      PlainAttribute(name, Encode(value), rest);
    case InQuotes(name, value) =>
      CodeIsPlain(value);
      QuotedAttribute(name, Encode(value), "");
      QuotedAttribute(name, Encode(value), "; " + rest);
      SemicolonSkipped(rest);
      NothingLeft();
      assert Rendered(a) + "" == Rendered(a);
      Assoc(Rendered(a), "; ", rest);
  }

  lemma {:induction false} ListCuts(attributes: seq<Attribute>)
    requires forall i :: 0 <= i < |attributes| ==> Good(attributes[i])
    ensures CutAttributes(ListText(attributes)) == CutsOf(attributes)
  {
    if attributes == [] {
      NothingLeft();
    } else if |attributes| == 1 {
      AttributeCut(attributes[0], "");
    } else {
      AttributeCut(attributes[0], ListText(attributes[1..]));
      ListCuts(attributes[1..]);
    }
  }

  lemma {:induction false} CutsDecoded(attributes: seq<Attribute>)
    requires forall i :: 0 <= i < |attributes| ==> Bytes(attributes[i])
    ensures Decoded(CutsOf(attributes)) == FieldsOf(attributes)
  {
    if attributes != [] {
      CutsDecoded(attributes[1..]);
      if !attributes[0].Flag? {
        DecodeEncode(attributes[0].value);
      }
    }
  }

  /** Any list of flags and values, quoted or not, rendered with "; " between them is parsed
      back in order. */
  lemma AttributesRoundTrip(attributes: seq<Attribute>)
    requires forall i :: 0 <= i < |attributes| ==> Good(attributes[i]) && Bytes(attributes[i])
    ensures Parsed(ListText(attributes)) == FieldsOf(attributes)
  {
    ListCuts(attributes);
    CutsDecoded(attributes);
  }

  // ---------- when the round trip fails ----------

  lemma SkipSeparatorsStops(s: string)
    ensures var t := SkipSeparators(s); t != "" ==> t[0] != ' ' && t[0] != ';'
  {
  }

  ghost predicate GoodNames(cuts: Cuts) {
    forall i :: 0 <= i < |cuts| ==> GoodName(cuts[i].0)
  }

  /** Whatever the text, the names that are parsed from it are good ones. */
  lemma {:induction false} NamesImage(s: string)
    ensures GoodNames(CutAttributes(s))
    decreases |s|, 1
  {
    var t := SkipSeparators(s);
    SkipSeparatorsStops(s);
    if t != "" {
      var k := FindEither(t, ';', '=', 1);
      assert GoodName(t[..k]);
      if k == |t| {
        assert t[..k] == t;
      } else if t[k] == ';' {
        NamesImage(t[k + 1..]);
      } else {
        ValueNamesImage(t[..k], t[k + 1..]);
      }
    }
  }

  lemma {:induction false} ValueNamesImage(name: string, v: string)
    requires GoodName(name)
    ensures GoodNames(CutValue(name, v))
    decreases |v|, 0
  {
    if v != "" && ValueEnd(v) < |ValueText(v)| {
      NamesImage(ValueText(v)[ValueEnd(v) + 1..]);
    }
  }

  /** A value that should be empty but is not quoted swallows the separator behind it. */
  lemma UnquotedEmpty(name: string, rest: string)
    requires GoodName(name)
    ensures Decoded(CutAttributes(name + "=")) == []
    ensures var fields := Decoded(CutAttributes(name + "=" + "; " + rest));
            fields != [] && fields[0].value != ""
  {
    NamedCut(name, "");
    assert name + "=" + "" == name + "=";
    var v := "; " + rest;
    NamedCut(name, v);
    Assoc(name + "=", "; ", rest);
    assert v[0] == ';';
    var code := CutValue(name, v)[0].1;
    assert code[0] == ';';
    DecodeFirst(code);
  }

  lemma DecodeFirst(code: string)
    requires code != ""
    ensures Decode(code) != ""
  {
  }

  lemma DecodedCons(cut: (string, string), rest: Cuts)
    ensures Decoded([cut] + rest) == [Field(cut.0, Decode(cut.1))] + Decoded(rest)
  {
    assert ([cut] + rest)[1..] == rest;
  }

  lemma LaterFails(attributes: seq<Attribute>)
    requires |attributes| > 1 && Good(attributes[0])
    requires Parsed(ListText(attributes[1..])) != FieldsOf(attributes[1..])
    ensures Parsed(ListText(attributes)) != FieldsOf(attributes)
  {
    var a, rest := attributes[0], ListText(attributes[1..]);
    AttributeCut(a, rest);
    DecodedCons(CutOf(a), CutAttributes(rest));
    assert FieldsOf(attributes)[1..] == FieldsOf(attributes[1..]);
    assert Parsed(ListText(attributes))[1..] == Parsed(rest);
  }

  lemma RenderedEmpty(a: Attribute)
    requires a.Plain? && a.value == ""
    ensures Rendered(a) == a.name + "="
  {
    assert Encode("") == "";
  }

  lemma FirstFails(attributes: seq<Attribute>)
    requires attributes != [] && attributes[0].Plain? && attributes[0].value == "" && GoodName(attributes[0].name)
    ensures Parsed(ListText(attributes)) != FieldsOf(attributes)
  {
    RenderedEmpty(attributes[0]);
    UnquotedEmpty(attributes[0].name, ListText(attributes[1..]));
  }

  lemma {:induction false} EmptyPlainFails(attributes: seq<Attribute>, p: nat)
    requires p < |attributes| && attributes[p].Plain? && attributes[p].value == ""
    requires forall i :: 0 <= i <= p ==> GoodName(attributes[i].name)
    ensures Parsed(ListText(attributes)) != FieldsOf(attributes)
    decreases |attributes|
  {
    if Good(attributes[0]) {
      EmptyPlainFails(attributes[1..], p - 1);
      LaterFails(attributes);
    } else {
      FirstFails(attributes);
    }
  }

  lemma {:induction false} DecodedNames(cuts: Cuts, i: nat)
    requires i < |Decoded(cuts)|
    ensures i < |cuts| && Decoded(cuts)[i].name == cuts[i].0
  {
    if i > 0 {
      DecodedNames(cuts[1..], i - 1);
    }
  }

  lemma {:induction false} FieldNames(attributes: seq<Attribute>, i: nat)
    requires i < |attributes|
    ensures i < |FieldsOf(attributes)| && FieldsOf(attributes)[i].name == attributes[i].name
  {
    if i > 0 {
      FieldNames(attributes[1..], i - 1);
    }
  }

  /** Parsing undoes rendering exactly when every name is a good one and every value that is
      not quoted has a character. */
  lemma AttributesRoundTripIff(attributes: seq<Attribute>)
    requires forall i :: 0 <= i < |attributes| ==> Bytes(attributes[i])
    ensures Parsed(ListText(attributes)) == FieldsOf(attributes)
            <==> forall i :: 0 <= i < |attributes| ==> Good(attributes[i])
  {
    var s := ListText(attributes);
    if Parsed(s) == FieldsOf(attributes) {
      NamesImage(s);
      forall i | 0 <= i < |attributes|
        ensures Good(attributes[i])
      {
        assert forall j :: 0 <= j < |attributes| ==> GoodName(attributes[j].name) by {
          forall j | 0 <= j < |attributes|
            ensures GoodName(attributes[j].name)
          {
            FieldNames(attributes, j);
            DecodedNames(CutAttributes(s), j);
          }
        }
        if !Good(attributes[i]) {
          EmptyPlainFails(attributes, i);
        }
      }
    } else if forall i :: 0 <= i < |attributes| ==> Good(attributes[i]) {
      AttributesRoundTrip(attributes);
    }
  }
}
