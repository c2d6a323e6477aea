// Query strings (lib/simple-web-server/utility.hpp): a one-pass parser, the specification it
// refines, and the printer it undoes.
module QueryString {
  import opened Text
  import opened HttpText
  import opened Percent

  // ---------- specification ----------

  /** A piece between ampersands is cut at its last equals sign into name and value. */
  function Cut(piece: string): (string, string) {
    var eq := FindLast(piece, '=', 0, |piece|);
    (piece[..eq], if eq == |piece| then "" else piece[eq + 1..])
  }

  /** No field without a name; values are percent-decoded. */
  function FieldFrom(cut: (string, string)): Option<Field> {
    if cut.0 == "" then None else Some(Field(cut.0, Decode(cut.1)))
  }

  function PieceField(piece: string): Option<Field> {
    FieldFrom(Cut(piece))
  }

  function Fields(o: Option<Field>): Header {
    match o case Some(f) => [f] case None => []
  }

  function PieceFields(pieces: seq<string>): Header {
    if pieces == [] then [] else Fields(PieceField(pieces[0])) + PieceFields(pieces[1..])
  }

  function Parsed(s: string): Header {
    PieceFields(Split(s, '&'))
  }

  // ---------- the parser ----------

  /** The cut of s[namePos..c], given the last equals sign there. */
  lemma CutAt(s: string, namePos: nat, c: nat)
    requires namePos <= c <= |s|
    ensures var eq := FindLast(s, '=', namePos, c);
            Cut(s[namePos..c]) == (s[namePos..eq], if eq == c then "" else s[eq + 1..c])
  {
    FindLastShift(s, '=', namePos, c);
    var piece, eq := s[namePos..c], FindLast(s, '=', namePos, c);
    assert piece[..eq - namePos] == s[namePos..eq];
    if eq < c {
      assert piece[eq - namePos + 1..] == s[eq + 1..c];
    }
  }

  lemma PieceFieldsCons(piece: string, rest: seq<string>)
    ensures PieceFields([piece] + rest) == Fields(PieceField(piece)) + PieceFields(rest)
  {
    assert ([piece] + rest)[1..] == rest;
  }

  lemma PieceFieldsOne(piece: string)
    ensures PieceFields([piece]) == Fields(PieceField(piece))
  {
    PieceFieldsCons(piece, []);
    assert [piece] + [] == [piece];
  }

  lemma ParsedAt(s: string, namePos: nat, c: nat)
    requires namePos <= c <= |s| && forall k :: namePos <= k < c ==> s[k] != '&'
    ensures c < |s| && s[c] == '&' ==>
              Parsed(s[namePos..]) == Fields(PieceField(s[namePos..c])) + Parsed(s[c + 1..])
    ensures c == |s| ==> Parsed(s[namePos..]) == Fields(PieceField(s[namePos..c]))
  {
    SplitAt(s, '&', namePos, c);
    assert c == |s| ==> s[namePos..] == s[namePos..c];
    PieceFieldsOne(s[namePos..c]);
    if c < |s| && s[c] == '&' {
      PieceFieldsCons(s[namePos..c], Split(s[c + 1..], '&'));
    }
  }

  predicate LastEquals(s: string, from: nat, end: nat, eq: Option<nat>)
    requires from <= end <= |s|
  {
    match eq
    case None => forall k :: from <= k < end ==> s[k] != '='
    case Some(e) => from <= e < end && s[e] == '=' && forall k :: e < k < end ==> s[k] != '='
  }

  lemma NothingLeft(s: string)
    ensures Parsed(s[|s|..]) == []
  {
    ParsedAt(s, |s|, |s|);
    CutAt(s, |s|, |s|);
  }

  // The fields stored so far and those of the rest make up the whole text's.
  ghost predicate Progress(total: Header, result: Header, rest: Header) {
    result + rest == total
  }

  lemma Advance(total: Header, result: Header, s: string, namePos: nat, c: nat)
    requires namePos <= c <= |s| && forall k :: namePos <= k < c ==> s[k] != '&'
    requires Progress(total, result, Parsed(s[namePos..]))
    ensures var more := result + Fields(PieceField(s[namePos..c]));
            && (c < |s| && s[c] == '&' ==> Progress(total, more, Parsed(s[c + 1..])))
            && (c == |s| ==> more == total)
  {
    ParsedAt(s, namePos, c);
    if c == |s| {
      assert Parsed(s[namePos..]) == Fields(PieceField(s[namePos..c]));
    } else if s[c] == '&' {
      HeaderAssoc(result, Fields(PieceField(s[namePos..c])), Parsed(s[c + 1..]));
    }
  }

  lemma HeaderAssoc(a: Header, b: Header, c: Header)
    ensures a + (b + c) == (a + b) + c
  {
  }

  // The parser stands at c, in a piece that starts at namePos.
  ghost predicate Scanned(total: Header, result: Header, s: string, namePos: nat, nameEnd: Option<nat>, c: nat) {
    && namePos <= c <= |s| && (forall k :: namePos <= k < c ==> s[k] != '&')
    && LastEquals(s, namePos, c, nameEnd)
    && Progress(total, result, Parsed(s[namePos..]))
  }

  lemma ScanStart(s: string)
    ensures Scanned(Parsed(s), [], s, 0, None, 0)
  {
    assert s[0..] == s;
  }

  lemma ScanInPiece(total: Header, result: Header, s: string, namePos: nat, nameEnd: Option<nat>, c: nat)
    requires Scanned(total, result, s, namePos, nameEnd, c) && c < |s| && s[c] != '&'
    ensures Scanned(total, result, s, namePos, if s[c] == '=' then Some(c) else nameEnd, c + 1)
  {
  }

  lemma ScanPiece(total: Header, result: Header, s: string, namePos: nat, nameEnd: Option<nat>, c: nat, more: Header)
    requires Scanned(total, result, s, namePos, nameEnd, c) && c < |s| && s[c] == '&'
    requires more == result + Fields(PieceField(s[namePos..c]))
    ensures Scanned(total, more, s, c + 1, None, c + 1)
  {
    Advance(total, result, s, namePos, c);
  }

  lemma ScanEnd(total: Header, result: Header, s: string, namePos: nat, nameEnd: Option<nat>)
    requires Scanned(total, result, s, namePos, nameEnd, |s|)
    ensures total == result + Fields(PieceField(s[namePos..|s|]))
    ensures namePos == |s| ==> total == result
  {
    Advance(total, result, s, namePos, |s|);
    if namePos == |s| {
      NothingLeft(s);
    }
  }

  /** What the parser does at an ampersand and at the end: it stores the field with the name
      from namePos to nameEnd and the value behind, if the name is not empty. */
  method Emplace(result: Header, s: string, namePos: nat, nameEnd: Option<nat>, c: nat) returns (more: Header)
    requires namePos <= c <= |s|
    requires LastEquals(s, namePos, c, nameEnd) && forall k :: namePos <= k < c ==> s[k] != '&'
    ensures more == result + Fields(PieceField(s[namePos..c]))
  {
    CutAt(s, namePos, c);
    var name := s[namePos..if nameEnd == None then c else nameEnd.value];
    var value := if nameEnd == None then "" else s[nameEnd.value + 1..c];
    assert Cut(s[namePos..c]) == (name, value);
    more := result;
    if name != "" {
      more := more + [Field(name, Decode(value))];
    }
  }

  /** QueryString::parse: one pass with the positions where the current name starts and where
      it ends (None is npos); the value, if any, starts behind the end of the name. */
  method QueryParse(s: string) returns (result: Header)
    ensures result == Parsed(s)
  {
    result := [];
    ghost var total := Parsed(s);
    var namePos := 0;
    var nameEnd: Option<nat> := None;
    var c := 0;
    ScanStart(s);
    while c < |s|
      invariant namePos <= c <= |s| && Scanned(total, result, s, namePos, nameEnd, c)
    {
      if s[c] == '&' {
        ghost var before := result;
        result := Emplace(result, s, namePos, nameEnd, c);
        ScanPiece(total, before, s, namePos, nameEnd, c, result);
        namePos := c + 1;
        nameEnd := None;
      } else {
        ScanInPiece(total, result, s, namePos, nameEnd, c);
        if s[c] == '=' {
          nameEnd := Some(c);
        }
      }
      c := c + 1;
    }
    ScanEnd(total, result, s, namePos, nameEnd);
    if namePos < |s| {
      result := Emplace(result, s, namePos, nameEnd, |s|);
    }
  }

  // ---------- the printer ----------

  function FieldText(f: Field): string {
    f.name + "=" + Encode(f.value)
  }

  function Created(fields: Header): string {
    if fields == [] then ""
    else if |fields| == 1 then FieldText(fields[0])
    else FieldText(fields[0]) + "&" + Created(fields[1..])
  }

  lemma {:induction false} CreatedSnoc(fields: Header, f: Field)
    ensures Created(fields + [f]) == Created(fields) + (if fields == [] then "" else "&") + FieldText(f)
  {
    var more := fields + [f];
    if fields == [] {
      assert more == [f];
    } else {
      CreatedSnoc(fields[1..], f);
      assert more[1..] == fields[1..] + [f] && more[0] == fields[0];
      Assoc(FieldText(fields[0]) + "&", Created(fields[1..]) + (if |fields| == 1 then "" else "&"), FieldText(f));
      Assoc(FieldText(fields[0]) + "&", Created(fields[1..]), if |fields| == 1 then "" else "&");
    }
  }

  /** QueryString::create. */
  method QueryCreate(fields: Header) returns (result: string)
    ensures result == Created(fields)
  {
    result := "";
    var first := true;
    for i := 0 to |fields|
      invariant result == Created(fields[..i]) && first == (i == 0)
    {
      CreatedSnoc(fields[..i], fields[i]);
      assert fields[..i + 1] == fields[..i] + [fields[i]];
      result := result + (if !first then "&" else "") + (fields[i].name + "=" + Encode(fields[i].value));
      first := false;
    }
    assert fields[..|fields|] == fields;
  }

  // ---------- round trip ----------

  predicate GoodName(name: string) {
    name != "" && '&' !in name
  }

  lemma CutName(name: string, value: string)
    requires '=' !in value
    ensures Cut(name + "=" + value) == (name, value)
  {
    var piece, eq := name + "=" + value, |name|;
    assert piece[..eq] == name && piece[eq] == '=' && piece[eq + 1..] == value;
    assert forall k :: eq < k < |piece| ==> piece[k] == value[k - eq - 1];
  }

  lemma CodeIsPlain(value: string)
    ensures '=' !in Encode(value) && '&' !in Encode(value)
  {
    EncodeIsEncoded(value);
    EncodedChars(Encode(value));
  }

  lemma FieldTextPiece(f: Field)
    requires GoodName(f.name) && IsBytes(f.value)
    ensures '&' !in FieldText(f) && PieceField(FieldText(f)) == Some(f)
  {
    CodeIsPlain(f.value);
    CutName(f.name, Encode(f.value));
    DecodeEncode(f.value);
  }

  lemma {:induction false} QueryRoundTrip(fields: Header)
    requires forall i :: 0 <= i < |fields| ==> GoodName(fields[i].name) && IsBytes(fields[i].value)
    ensures Parsed(Created(fields)) == fields
  {
    if fields == [] {
      NothingLeft("");
      assert ""[|""|..] == "";
    } else if |fields| == 1 {
      FirstFieldBack(fields[0], "");
    } else {
      FirstFieldBack(fields[0], Created(fields[1..]));
      QueryRoundTrip(fields[1..]);
    }
  }

  lemma FirstFieldBack(f: Field, rest: string)
    requires GoodName(f.name) && IsBytes(f.value)
    ensures Parsed(FieldText(f)) == [f]
    ensures Parsed(FieldText(f) + "&" + rest) == [f] + Parsed(rest)
  {
    FieldTextPiece(f);
    ParsedFirst(FieldText(f), rest);
  }

  lemma ParsedFirst(text: string, rest: string)
    requires '&' !in text
    ensures Parsed(text) == Fields(PieceField(text))
    ensures Parsed(text + "&" + rest) == Fields(PieceField(text)) + Parsed(rest)
  {
    SplitWhole(text, '&');
    PieceFieldsOne(text);
    SplitHead(text, '&', rest);
    PieceFieldsCons(text, Split(rest, '&'));
  }

  lemma {:induction false} PieceFieldsImage(pieces: seq<string>)
    requires forall k :: 0 <= k < |pieces| ==> '&' !in pieces[k]
    ensures forall i :: 0 <= i < |PieceFields(pieces)| ==> GoodName(PieceFields(pieces)[i].name)
  {
    if pieces != [] {
      PieceFieldsImage(pieces[1..]);
    }
  }

  predicate GoodNames(fields: Header) {
    forall i :: 0 <= i < |fields| ==> GoodName(fields[i].name)
  }

  /** Parsing undoes printing exactly when every name is non-empty and free of ampersands: then
      the fields come back in order, and otherwise not even the same multiset of fields. */
  lemma QueryRoundTripIff(fields: Header)
    requires forall i :: 0 <= i < |fields| ==> IsBytes(fields[i].value)
    ensures Parsed(Created(fields)) == fields <==> GoodNames(fields)
    ensures multiset(Parsed(Created(fields))) == multiset(fields) <==> GoodNames(fields)
  {
    if GoodNames(fields) {
      QueryRoundTrip(fields);
    } else {
      var i :| 0 <= i < |fields| && !GoodName(fields[i].name);
      SplitPieces(Created(fields), '&');
      PieceFieldsImage(Split(Created(fields), '&'));
      assert fields[i] !in Parsed(Created(fields)) && fields[i] in multiset(fields);
    }
  }

  // ---------- any query string ----------

  /** A piece is cut at its last equals sign, and only what is behind it is decoded; without a name
      there is no field. */
  lemma ParsesNamed(name: string, code: string)
    requires '&' !in name && '&' !in code && '=' !in code
    ensures Parsed(name + "=" + code) == if name == "" then [] else [Field(name, Decode(code))]
  {
    CutName(name, code);
    WholePiece(name + "=" + code);
  }

  /** Without an equals sign the value is empty. */
  lemma ParsesBare(name: string)
    requires '&' !in name && '=' !in name
    ensures Parsed(name) == if name == "" then [] else [Field(name, "")]
  {
    WholePiece(name);
    CutBare(name);
    NothingDecoded("");
  }

  lemma CutBare(name: string)
    requires '=' !in name
    ensures Cut(name) == (name, "")
  {
    assert name[..|name|] == name;
  }

  lemma NothingDecoded(code: string)
    requires code == ""
    ensures Decode(code) == ""
  {
  }

  lemma WholePiece(text: string)
    requires '&' !in text
    ensures Parsed(text) == Fields(PieceField(text))
  {
    SplitWhole(text, '&');
    PieceFieldsOne(text);
  }

  /** The pieces between ampersands are parsed one by one. */
  lemma ParsesPieces(text: string, rest: string)
    requires '&' !in text
    ensures Parsed(text + "&" + rest) == Parsed(text) + Parsed(rest)
  {
    ParsedFirst(text, rest);
  }
}
