// Percent encoding (lib/simple-web-server/utility.hpp).
module Percent {
  import opened Text
  import opened Numbers

  // A std::string holds bytes.
  predicate IsBytes(s: string) {
    forall i :: 0 <= i < |s| ==> s[i] as int < 256
  }

  predicate Unreserved(c: char) {
    || '0' <= c <= '9' || 'A' <= c <= 'Z' || 'a' <= c <= 'z'
    || c == '-' || c == '.' || c == '_' || c == '~'
  }

  function EncodeChar(c: char): string {
    if Unreserved(c) then [c]
    else
      var byte := c as int % 256;
      ['%', Digit(byte / 16), Digit(byte % 16)]
  }

  function Encode(s: string): string {
    if s == "" then "" else EncodeChar(s[0]) + Encode(s[1..])
  }

  /** The char that two characters after a percent sign stand for. */
  function Unhex(hex: string): char {
    (Strtol(hex, 16) % 256) as char
  }

  function Decode(s: string): string {
    if s == "" then ""
    else if s[0] == '%' && |s| > 2 then [Unhex(s[1..3])] + Decode(s[3..])
    else [if s[0] == '+' then ' ' else s[0]] + Decode(s[1..])
  }

  lemma EncodeAt(value: string, i: nat)
    requires i < |value|
    ensures Encode(value[i..]) == EncodeChar(value[i]) + Encode(value[i + 1..])
  {
    assert value[i..][1..] == value[i + 1..];
  }

  method EncodeLoop(value: string) returns (result: string)
    ensures result == Encode(value)
  {
    result := "";
    for i := 0 to |value|
      invariant result + Encode(value[i..]) == Encode(value)
    {
      var chr := value[i];
      EncodeAt(value, i);
      Assoc(result, EncodeChar(chr), Encode(value[i + 1..]));
      if !Unreserved(chr) {
        var byte := chr as int % 256;
        result := result + ['%', Digit(byte / 16), Digit(byte % 16)];
      } else {
        result := result + [chr];
      }
    }
  }

  // Decode, at position i of a longer text.
  lemma DecodeAt(value: string, i: nat)
    requires i < |value|
    ensures Decode(value[i..]) ==
            if value[i] == '%' && i + 2 < |value| then [Unhex(value[i + 1..i + 3])] + Decode(value[i + 3..])
            else [if value[i] == '+' then ' ' else value[i]] + Decode(value[i + 1..])
  {
    var s := value[i..];
    assert s[1..] == value[i + 1..];
    if i + 2 < |value| {
      assert s[1..3] == value[i + 1..i + 3] && s[3..] == value[i + 3..];
    }
  }

  method DecodeLoop(value: string) returns (result: string)
    ensures result == Decode(value)
  {
    result := "";
    var i := 0;
    while i < |value|
      invariant i <= |value| && result + Decode(value[i..]) == Decode(value)
    {
      var chr;
      DecodeAt(value, i);
      ghost var before := result;
      if value[i] == '%' && i + 2 < |value| {
        chr := Unhex(value[i + 1..i + 3]);
        i := i + 2;
      } else if value[i] == '+' {
        chr := ' ';
      } else {
        chr := value[i];
      }
      Assoc(before, [chr], Decode(value[i + 1..]));
      result := result + [chr];
      i := i + 1;
    }
  }

  lemma UnhexDigits(byte: nat)
    requires byte < 256
    ensures Unhex([Digit(byte / 16), Digit(byte % 16)]) == byte as char
  {
    DigitOfValue(byte / 16);
    DigitOfValue(byte % 16);
    TwoDigits(Digit(byte / 16), Digit(byte % 16), byte / 16, byte % 16);
  }

  lemma TwoDigits(a: char, b: char, x: nat, y: nat)
    requires DigitValue(a) == x < 16 && DigitValue(b) == y < 16
    ensures Unhex([a, b]) == (16 * x + y) as char
  {
    var hex := [a, b];
    assert hex[..1] == [a] && [a][..0] == "";
    assert ValueOf([a], 16) == x;
    ConvertDigits(hex, "", 16);
    assert hex + "" == hex;
  }

  lemma DecodeTriple(a: char, b: char, x: char, rest: string)
    requires Unhex([a, b]) == x
    ensures Decode(['%', a, b] + rest) == [x] + Decode(rest)
  {
    var s := ['%', a, b] + rest;
    assert s[1..3] == [a, b] && s[3..] == rest;
  }

  lemma DecodePlain(c: char, rest: string)
    requires Unreserved(c)
    ensures Decode([c] + rest) == [c] + Decode(rest)
  {
    assert ([c] + rest)[1..] == rest;
  }

  lemma DecodeOne(c: char, rest: string)
    requires c as int < 256
    ensures Decode(EncodeChar(c) + rest) == [c] + Decode(rest)
  {
    if Unreserved(c) {
      DecodePlain(c, rest);
    } else {
      DecodeReserved(c, rest);
    }
  }

  lemma UnhexChar(c: char)
    requires c as int < 256
    ensures Unhex([Digit(c as int / 16), Digit(c as int % 16)]) == c
  {
    UnhexDigits(c as int);
  }

  lemma EncodeReserved(c: char, a: char, b: char)
    requires c as int < 256 && !Unreserved(c) && a == Digit(c as int / 16) && b == Digit(c as int % 16)
    ensures EncodeChar(c) == ['%', a, b]
  {
    assert c as int % 256 == c as int;
  }

  lemma DecodeReserved(c: char, rest: string)
    requires c as int < 256 && !Unreserved(c)
    ensures Decode(EncodeChar(c) + rest) == [c] + Decode(rest)
  {
    var a, b := Digit(c as int / 16), Digit(c as int % 16);
    UnhexChar(c);
    EncodeReserved(c, a, b);
    DecodeTriple(a, b, c, rest);
  }

  /** Decoding undoes encoding, for every string of bytes. */
  lemma {:induction false} DecodeEncode(s: string)
    requires IsBytes(s)
    ensures Decode(Encode(s)) == s
  {
    if s != "" {
      DecodeEncode(s[1..]);
      DecodeOne(s[0], Encode(s[1..]));
    }
  }

  /** Unreserved characters and complete triples of a percent sign and two upper-case digits. */
  predicate Encoded(s: string) {
    if s == "" then true
    else if s[0] == '%' then
      |s| > 2 && DigitValue(s[1]) < 16 && DigitValue(s[2]) < 16 && Encoded(s[3..])
    else Unreserved(s[0]) && Encoded(s[1..])
  }

  lemma {:induction false} EncodeIsEncoded(s: string)
    ensures Encoded(Encode(s))
  {
    if s != "" {
      EncodeIsEncoded(s[1..]);
      var c, rest := s[0], Encode(s[1..]);
      if Unreserved(c) {
        assert ([c] + rest)[1..] == rest;
      } else {
        var byte := c as int % 256;
        var triple := ['%', Digit(byte / 16), Digit(byte % 16)];
        DigitOfValue(byte / 16);
        DigitOfValue(byte % 16);
        assert (triple + rest)[3..] == rest;
      }
    }
  }

  /** An encoded text has only unreserved characters and percent signs: no separator of a query
      string or of attributes. */
  lemma {:induction false} EncodedChars(s: string)
    requires Encoded(s)
    ensures forall i :: 0 <= i < |s| ==> Unreserved(s[i]) || s[i] == '%'
  {
    if s != "" {
      if s[0] == '%' {
        EncodedChars(s[3..]);
        assert forall i :: 3 <= i < |s| ==> s[i] == s[3..][i - 3];
      } else {
        EncodedChars(s[1..]);
        assert forall i :: 1 <= i < |s| ==> s[i] == s[1..][i - 1];
      }
    }
  }

  // ---------- character by character ----------

  predicate LeftAlone(c: char) {
    c in UPPER_LETTERS || c in LOWER_LETTERS || c in "0123456789" || c in "-._~"
  }

  lemma UnreservedIff(c: char)
    ensures Unreserved(c) <==> LeftAlone(c)
  {
    IsLetter(c);
    if '0' <= c <= '9' {
      assert "0123456789"[c as int - '0' as int] == c;
    }
    assert "-._~"[0] == '-' && "-._~"[1] == '.' && "-._~"[2] == '_' && "-._~"[3] == '~';
  }

  /** Letters, digits and four marks are left alone; of any other byte come a percent sign and two
      upper-case digits, the higher first. */
  lemma EncodesChar(c: char, rest: string)
    requires c as int < 256
    ensures Encode([c] + rest)
            == (if LeftAlone(c) then [c] else ['%', UPPER_DIGITS[c as int / 16], UPPER_DIGITS[c as int % 16]]) + Encode(rest)
  {
    UnreservedIff(c);
    assert ([c] + rest)[1..] == rest && c as int % 256 == c as int;
  }

  /** A percent sign and two digits, each of either case, are the byte with these digits. */
  lemma DecodesTriple(a: char, x: nat, b: char, y: nat, rest: string)
    requires Spells(a, x) && Spells(b, y)
    ensures Decode(['%', a, b] + rest) == [(16 * x + y) as char] + Decode(rest)
  {
    SpelledValue(a, x);
    SpelledValue(b, y);
    TwoDigits(a, b, x, y);
    DecodeTriple(a, b, (16 * x + y) as char, rest);
  }

  /** Without two characters behind it a percent sign stands for itself. A plus sign is a space, and
      any other character stands for itself. */
  lemma DecodesChar(c: char, rest: string)
    requires c == '%' ==> |rest| < 2
    ensures Decode([c] + rest) == [if c == '+' then ' ' else c] + Decode(rest)
  {
    assert ([c] + rest)[1..] == rest;
  }

  ghost predicate IsDigit(c: char) {
    c in LOWER_DIGITS || c in UPPER_DIGITS
  }

  predicate IsBlank(c: char) {
    c == ' ' || 9 <= c as int <= 13
  }

  /** Two other characters behind a percent sign: if only the first is a digit, it is the byte. A
      digit behind a space or plus sign is the byte as well, and behind a minus sign it is counted
      down from 256. Otherwise the byte is zero. */
  lemma DecodesBadTriple(a: char, b: char, d: nat, rest: string)
    ensures Spells(a, d) && !IsDigit(b) ==> Decode(['%', a, b] + rest) == [d as char] + Decode(rest)
    ensures (a == '+' || IsBlank(a)) && Spells(b, d) ==> Decode(['%', a, b] + rest) == [d as char] + Decode(rest)
    ensures a == '-' && Spells(b, d) ==> Decode(['%', a, b] + rest) == [((256 - d) % 256) as char] + Decode(rest)
    ensures !IsDigit(a) && !((a == '+' || a == '-' || IsBlank(a)) && IsDigit(b)) ==>
              Decode(['%', a, b] + rest) == [0 as char] + Decode(rest)
  {
    if Spells(a, d) && !IsDigit(b) {
      DigitAlone(a, b, d);
      DecodeTriple(a, b, d as char, rest);
    } else if (a == '+' || a == '-' || IsBlank(a)) && Spells(b, d) {
      DigitBehind(a, b, d);
      DecodeTriple(a, b, Unhex([a, b]), rest);
    } else if !IsDigit(a) && !((a == '+' || a == '-' || IsBlank(a)) && IsDigit(b)) {
      NoDigit(a, b);
      DecodeTriple(a, b, 0 as char, rest);
    }
  }

  // No digit of base 16, as the conversions see it.
  lemma DigitIff(c: char)
    ensures IsDigit(c) <==> DigitValue(c) < 16
  {
    if DigitValue(c) < 16 {
      OnlyDigitsSpelled(c, 16);
      AllSixteen();
    }
  }

  // The conversion of one or two characters: too few for a prefix.
  lemma ShortRun(u: string, n: nat, m: nat)
    requires |u| <= 2 && n == DigitRun(u, 16) && (n > 0 ==> m == ValueOf(u[..n], 16))
    ensures Unsigned(u, 16) == if n == 0 then NoNumber else Number(false, m)
  {
  }

  lemma OneDigit(c: char, more: string, d: nat)
    requires Spells(c, d) && |more| <= 1 && (more != "" ==> !IsDigit(more[0]))
    ensures Unsigned([c] + more, 16) == Number(false, d)
  {
    SpelledValue(c, d);
    if more != "" {
      DigitIff(more[0]);
    }
    var u := [c] + more;
    DigitRunIs([c], more, 16);
    assert u[..1] == [c] && [c][..0] == "";
    assert ValueOf([c], 16) == d;
    ShortRun(u, 1, d);
  }

  lemma NoneAhead(u: string)
    requires |u| <= 2 && (u != "" ==> !IsDigit(u[0]))
    ensures Unsigned(u, 16) == NoNumber
  {
    if u != "" {
      DigitIff(u[0]);
    }
    ShortRun(u, 0, 0);
  }

  lemma UnhexOf(hex: string, sign: string, u: string)
    requires SkipSpace(hex) == sign + u && IsSign(sign) && (sign == "" && u != "" ==> u[0] != '-' && u[0] != '+')
    ensures match Unsigned(u, 16)
            case NoNumber => Unhex(hex) == 0 as char
            case Number(_, m) => Unhex(hex) == ((if sign == "-" then 0 - m as int else m as int) % 256) as char
  {
    ConvertUnsigned(hex, sign, u, 16);
  }

  lemma UnhexUnsigned(hex: string, sign: string, u: string, d: nat)
    requires sign == "" && SkipSpace(hex) == u && (u != "" ==> u[0] != '-' && u[0] != '+')
    requires Unsigned(u, 16) == Number(false, d) && d < 16
    ensures Unhex(hex) == d as char
  {
    NoSign(sign, u);
    UnhexOf(hex, sign, u);
  }

  lemma NoSign(sign: string, u: string)
    requires sign == ""
    ensures sign + u == u
  {
  }

  lemma UnhexSigned(hex: string, sign: string, u: string, d: nat)
    requires SkipSpace(hex) == hex == sign + u && (sign == "+" || sign == "-")
    requires Unsigned(u, 16) == Number(false, d) && d < 16
    ensures Unhex(hex) == if sign == "-" then ((256 - d) % 256) as char else d as char
  {
    UnhexOf(hex, sign, u);
  }

  lemma SkipsBlank(a: char, b: char)
    ensures SkipSpace([a, b]) == if !IsBlank(a) then [a, b] else if !IsBlank(b) then [b] else ""
  {
    assert [a, b][1..] == [b] && [b][1..] == "";
    assert SkipSpace([b]) == if IsBlank(b) then "" else [b];
  }

  lemma DigitAlone(a: char, b: char, d: nat)
    requires Spells(a, d) && !IsDigit(b)
    ensures Unhex([a, b]) == d as char
  {
    SpelledValue(a, d);
    SkipsBlank(a, b);
    OneDigit(a, [b], d);
    assert [a] + [b] == [a, b];
    UnhexUnsigned([a, b], "", [a, b], d);
  }

  lemma DigitBehind(a: char, b: char, d: nat)
    requires (a == '+' || a == '-' || IsBlank(a)) && Spells(b, d)
    ensures Unhex([a, b]) == if a == '-' then ((256 - d) % 256) as char else d as char
  {
    SpelledValue(b, d);
    SkipsBlank(a, b);
    OneDigit(b, "", d);
    assert [b] + "" == [b];
    if IsBlank(a) {
      UnhexUnsigned([a, b], "", [b], d);
    } else {
      UnhexSigned([a, b], [a], [b], d);
    }
  }

  lemma NoDigit(a: char, b: char)
    requires !IsDigit(a) && !((a == '+' || a == '-' || IsBlank(a)) && IsDigit(b))
    ensures Unhex([a, b]) == 0 as char
  {
    SkipsBlank(a, b);
    var t := SkipSpace([a, b]);
    var sign := if t != "" && (t[0] == '+' || t[0] == '-') then [t[0]] else "";
    var u := t[|sign|..];
    assert t == sign + u;
    NoneAhead(u);
    UnhexOf([a, b], sign, u);
  }

  lemma AllSixteen()
    ensures LOWER_DIGITS[..16] == LOWER_DIGITS && UPPER_DIGITS[..16] == UPPER_DIGITS
  {
  }
}
