// Numbers as text: what std::to_string prints, and what strtol, stoul and stoull read.
module Numbers {
  import opened Text

  const MAX_UNSIGNED_LONG: nat := 0xFFFF_FFFF_FFFF_FFFF

  function Digit(d: nat): char
    requires d < 16
  {
    "0123456789ABCDEF"[d]
  }

  /** The value of a digit, 16 for any other character. */
  function DigitValue(c: char): nat {
    if '0' <= c <= '9' then c as int - '0' as int
    else if 'A' <= c <= 'F' then c as int - 'A' as int + 10
    else if 'a' <= c <= 'f' then c as int - 'a' as int + 10
    else 16
  }

  predicate AllDigits(s: string, base: nat) {
    forall i :: 0 <= i < |s| ==> DigitValue(s[i]) < base
  }

  // The two bases in use. Multiplying and dividing by a known base keeps arithmetic linear.
  type Base = b: nat | b == 10 || b == 16 witness 10

  function Times(x: nat, base: Base): nat {
    if base == 10 then 10 * x else 16 * x
  }

  function Quotient(n: nat, base: Base): nat {
    if base == 10 then n / 10 else n / 16
  }

  function Remainder(n: nat, base: Base): (r: nat)
    ensures r < base
  {
    if base == 10 then n % 10 else n % 16
  }

  /** A number in positional notation. */
  function NatText(n: nat, base: Base): (s: string)
    ensures s != ""
    decreases n
  {
    if n < base then [Digit(n)] else NatText(Quotient(n, base), base) + [Digit(Remainder(n, base))]
  }

  function ValueOf(digits: string, base: Base): nat
    requires AllDigits(digits, base)
  {
    if digits == "" then 0
    else
      var n := |digits| - 1;
      Times(ValueOf(digits[..n], base), base) + DigitValue(digits[n])
  }

  lemma {:induction false} NatTextValue(n: nat, base: Base)
    ensures AllDigits(NatText(n, base), base) && ValueOf(NatText(n, base), base) == n
    decreases n
  {
    if n >= base {
      DigitOfValue(Remainder(n, base));
      NatTextValue(Quotient(n, base), base);
      ValueSnoc(NatText(Quotient(n, base), base), Digit(Remainder(n, base)), base);
    } else {
      DigitOfValue(n);
      ValueSnoc("", Digit(n), base);
      assert "" + [Digit(n)] == [Digit(n)];
    }
  }

  lemma ValueSnoc(s: string, c: char, base: Base)
    requires AllDigits(s, base) && DigitValue(c) < base
    ensures AllDigits(s + [c], base) && ValueOf(s + [c], base) == Times(ValueOf(s, base), base) + DigitValue(c)
  {
    assert (s + [c])[..|s|] == s;
  }

  lemma DigitOfValue(d: nat)
    requires d < 16
    ensures DigitValue(Digit(d)) == d
  {
  }

  // ---------- reading ----------

  predicate IsSpace(c: char) {
    c == ' ' || 9 <= c as int <= 13
  }

  function SkipSpace(s: string): string {
    if s != "" && IsSpace(s[0]) then SkipSpace(s[1..]) else s
  }

  /** The length of the longest prefix of digits. */
  function DigitRun(s: string, base: nat): (n: nat)
    ensures n <= |s| && AllDigits(s[..n], base)
    ensures n < |s| ==> DigitValue(s[n]) >= base
  {
    if s == "" || DigitValue(s[0]) >= base then 0
    else
      var n := DigitRun(s[1..], base);
      assert forall i :: 1 <= i < n + 1 ==> s[i] == s[1..][..n][i - 1];
      n + 1
  }

  datatype Conversion = NoNumber | Number(negative: bool, magnitude: nat)

  /** The conversion that strtol and its relatives share: space, a sign, for base 16 the prefix
      0x when a digit follows it, and then as many digits as there are. */
  function Convert(s: string, base: Base): Conversion {
    var t := SkipSpace(s);
    var signed := t != "" && (t[0] == '-' || t[0] == '+');
    var u := if signed then t[1..] else t;
    var prefixed := base == 16 && |u| > 2 && u[0] == '0' && (u[1] == 'x' || u[1] == 'X') && DigitValue(u[2]) < 16;
    var v := if prefixed then u[2..] else u;
    var n := DigitRun(v, base);
    if n == 0 then NoNumber else Number(signed && t[0] == '-', ValueOf(v[..n], base))
  }

  /** strtol for a text too short to overflow: no number reads as zero. */
  function Strtol(s: string, base: Base): int {
    match Convert(s, base)
    case NoNumber => 0
    case Number(negative, m) => if negative then 0 - m as int else m as int
  }

  /** stoul and stoull, both of 64 bits: None when they throw. */
  function Stoul(s: string, base: Base): Option<nat> {
    match Convert(s, base)
    case NoNumber => None
    case Number(negative, m) =>
      if m > MAX_UNSIGNED_LONG then None
      else if negative && m > 0 then Some(MAX_UNSIGNED_LONG + 1 - m)
      else Some(m)
  }

  lemma DigitRunIs(digits: string, rest: string, base: nat)
    requires AllDigits(digits, base) && (rest != "" ==> DigitValue(rest[0]) >= base)
    ensures DigitRun(digits + rest, base) == |digits|
  {
    var s, n := digits + rest, DigitRun(digits + rest, base);
    assert forall i :: 0 <= i < n ==> s[i] == s[..n][i];
    assert forall i :: 0 <= i < |digits| ==> s[i] == digits[i];
    assert rest != "" ==> s[|digits|] == rest[0];
  }

  /** A run of digits is read as its value, whatever follows that cannot continue it. */
  lemma ConvertDigits(digits: string, rest: string, base: Base)
    requires digits != "" && AllDigits(digits, base)
    requires rest != "" ==> DigitValue(rest[0]) >= base && rest[0] != 'x' && rest[0] != 'X'
    ensures Convert(digits + rest, base) == Number(false, ValueOf(digits, base))
  {
    var s := digits + rest;
    assert s[0] == digits[0] && !IsSpace(s[0]) && s[0] != '-' && s[0] != '+';
    assert |digits| > 1 ==> s[1] == digits[1];
    assert |digits| == 1 && |s| > 1 ==> s[1] == rest[0];
    DigitRunIs(digits, rest, base);
    assert s[..|digits|] == digits;
    ConvertPlain(s, base, |digits|);
  }

  lemma ConvertPlain(s: string, base: Base, n: nat)
    requires 0 < n == DigitRun(s, base) && !IsSpace(s[0]) && s[0] != '-' && s[0] != '+'
    requires |s| > 1 ==> s[1] != 'x' && s[1] != 'X'
    ensures Convert(s, base) == Number(false, ValueOf(s[..n], base))
  {
    assert SkipSpace(s) == s;
  }

  lemma StoulRoundTrip(n: nat)
    requires n <= MAX_UNSIGNED_LONG
    ensures Stoul(NatText(n, 10), 10) == Some(n)
  {
    NatTextValue(n, 10);
    ConvertDigits(NatText(n, 10), "", 10);
    assert NatText(n, 10) + "" == NatText(n, 10);
  }

  // ---------- what numbers look like ----------

  const LOWER_DIGITS: string := "0123456789abcdef"
  const UPPER_DIGITS: string := "0123456789ABCDEF"

  predicate Spells(c: char, d: nat) {
    d < 16 && (c == LOWER_DIGITS[d] || c == UPPER_DIGITS[d])
  }

  /** A text of these digits, each of them in either case. */
  predicate TextOf(s: string, ds: seq<nat>) {
    |s| == |ds| && forall i :: 0 <= i < |s| ==> Spells(s[i], ds[i])
  }

  /** The number that has these digits. */
  function Positional(ds: seq<nat>, base: Base): nat {
    if ds == [] then 0
    else
      var more := Positional(ds[..|ds| - 1], base);
      (if base == 10 then 10 * more else 16 * more) + ds[|ds| - 1]
  }

  ghost predicate DigitsWrite(s: string, ds: seq<nat>, n: nat, base: Base) {
    TextOf(s, ds) && (forall i :: 0 <= i < |ds| ==> ds[i] < base) && Positional(ds, base) == n
  }

  /** A text of the number n in positional notation: any leading zeros, either case. */
  ghost predicate Writes(s: string, n: nat, base: Base) {
    s != "" && exists ds :: DigitsWrite(s, ds, n, base)
  }

  // No digit of either case, and not the letter of a prefix.
  predicate EndsDigits(rest: string, base: Base) {
    rest != "" ==> rest[0] !in LOWER_DIGITS[..base] && rest[0] !in UPPER_DIGITS[..base] && rest[0] != 'x' && rest[0] != 'X'
  }

  lemma SpelledValue(c: char, d: nat)
    requires Spells(c, d)
    ensures DigitValue(c) == d
  {
  }

  lemma OnlyDigitsSpelled(c: char, base: Base)
    requires DigitValue(c) < base
    ensures c in LOWER_DIGITS[..base] || c in UPPER_DIGITS[..base]
  {
    var d := DigitValue(c);
    assert c == LOWER_DIGITS[d] || c == UPPER_DIGITS[d];
    assert LOWER_DIGITS[..base][d] == LOWER_DIGITS[d] && UPPER_DIGITS[..base][d] == UPPER_DIGITS[d];
  }

  lemma {:induction false} PositionalValue(s: string, ds: seq<nat>, base: Base)
    requires TextOf(s, ds) && forall i :: 0 <= i < |ds| ==> ds[i] < base
    ensures AllDigits(s, base) && ValueOf(s, base) == Positional(ds, base)
  {
    if s != "" {
      var n := |s| - 1;
      PositionalValue(s[..n], ds[..n], base);
      SpelledValue(s[n], ds[n]);
      assert s == s[..n] + [s[n]];
      ValueSnoc(s[..n], s[n], base);
    }
  }

  lemma WrittenValue(s: string, n: nat, base: Base)
    requires Writes(s, n, base)
    ensures AllDigits(s, base) && ValueOf(s, base) == n
  {
    var ds :| DigitsWrite(s, ds, n, base);
    PositionalValue(s, ds, base);
  }

  predicate Spaces(ws: string) {
    forall i :: 0 <= i < |ws| ==> ws[i] == ' ' || 9 <= ws[i] as int <= 13
  }

  lemma {:induction false} SpacesSkipped(ws: string, t: string)
    requires Spaces(ws) && (t != "" ==> !IsSpace(t[0]))
    ensures SkipSpace(ws + t) == t
  {
    if ws == "" {
      assert ws + t == t;
    } else {
      assert (ws + t)[1..] == ws[1..] + t;
      SpacesSkipped(ws[1..], t);
    }
  }

  lemma WrittenStarts(s: string, n: nat, base: Base)
    requires Writes(s, n, base)
    ensures DigitValue(s[0]) < 16 && !IsSpace(s[0]) && s[0] != '-' && s[0] != '+'
    ensures |s| > 1 ==> s[1] != 'x' && s[1] != 'X'
  {
    WrittenValue(s, n, base);
  }

  predicate IsSign(sign: string) {
    sign == "" || sign == "+" || sign == "-"
  }

  predicate IsPrefix(prefix: string, base: Base) {
    prefix == "" || (base == 16 && (prefix == "0x" || prefix == "0X"))
  }

  // The conversion behind spaces and sign.
  function Unsigned(u: string, base: Base): Conversion {
    var prefixed := base == 16 && |u| > 2 && u[0] == '0' && (u[1] == 'x' || u[1] == 'X') && DigitValue(u[2]) < 16;
    var v := if prefixed then u[2..] else u;
    var n := DigitRun(v, base);
    if n == 0 then NoNumber else Number(false, ValueOf(v[..n], base))
  }

  lemma ConvertUnsigned(s: string, sign: string, u: string, base: Base)
    requires SkipSpace(s) == sign + u && IsSign(sign) && (sign == "" && u != "" ==> u[0] != '-' && u[0] != '+')
    ensures Convert(s, base)
            == match Unsigned(u, base) case NoNumber => NoNumber case Number(_, m) => Number(sign == "-", m)
  {
    if sign == "" {
      assert sign + u == u;
    } else {
      assert (sign + u)[1..] == u;
    }
  }

  lemma UnsignedPlain(v: string, n: nat, base: Base)
    requires 0 < n == DigitRun(v, base) && (|v| > 1 ==> v[1] != 'x' && v[1] != 'X')
    ensures Unsigned(v, base) == Number(false, ValueOf(v[..n], base))
  {
  }

  lemma UnsignedPrefixed(prefix: string, v: string, n: nat)
    requires (prefix == "0x" || prefix == "0X") && 0 < n == DigitRun(v, 16) && DigitValue(v[0]) < 16
    ensures Unsigned(prefix + v, 16) == Number(false, ValueOf(v[..n], 16))
  {
    assert (prefix + v)[2] == v[0] && (prefix + v)[2..] == v;
  }

  lemma UnsignedReads(prefix: string, s: string, n: nat, rest: string, base: Base)
    requires IsPrefix(prefix, base) && Writes(s, n, base) && EndsDigits(rest, base)
    ensures Unsigned(prefix + (s + rest), base) == Number(false, n)
  {
    WrittenStarts(s, n, base);
    WrittenRun(s, n, rest, base);
    if prefix == "" {
      assert prefix + (s + rest) == s + rest;
      UnsignedPlain(s + rest, |s|, base);
    } else {
      UnsignedPrefixed(prefix, s + rest, |s|);
    }
  }

  lemma WrittenRun(s: string, n: nat, rest: string, base: Base)
    requires Writes(s, n, base) && EndsDigits(rest, base)
    ensures var v := s + rest;
            && DigitRun(v, base) == |s| && ValueOf(v[..|s|], base) == n && v[0] == s[0]
            && (|v| > 1 && (|s| > 1 ==> s[1] != 'x' && s[1] != 'X') ==> v[1] != 'x' && v[1] != 'X')
  {
    WrittenValue(s, n, base);
    if rest != "" && DigitValue(rest[0]) < base {
      OnlyDigitsSpelled(rest[0], base);
    }
    DigitRunIs(s, rest, base);
    assert (s + rest)[..|s|] == s;
  }

  /** Spaces, a sign, for base 16 a prefix, and a number: what the conversions read of it, whatever
      follows that cannot continue it. */
  lemma ConvertReads(ws: string, sign: string, prefix: string, s: string, n: nat, rest: string, base: Base)
    requires Spaces(ws) && IsSign(sign) && IsPrefix(prefix, base) && Writes(s, n, base) && EndsDigits(rest, base)
    ensures Convert(ws + (sign + (prefix + (s + rest))), base) == Number(sign == "-", n)
  {
    WrittenStarts(s, n, base);
    var u := prefix + (s + rest);
    assert u[0] == if prefix == "" then s[0] else '0';
    assert (sign + u)[0] == if sign == "" then u[0] else sign[0];
    SpacesSkipped(ws, sign + u);
    ConvertUnsigned(ws + (sign + u), sign, u, base);
    UnsignedReads(prefix, s, n, rest, base);
  }

  /** Without a digit there is no number. */
  lemma ConvertReadsNothing(ws: string, sign: string, rest: string, base: Base)
    requires Spaces(ws) && IsSign(sign)
    requires rest != "" ==> rest[0] !in LOWER_DIGITS[..base] && rest[0] !in UPPER_DIGITS[..base]
    requires sign == "" && rest != "" ==> rest[0] != '+' && rest[0] != '-' && rest[0] != ' ' && !(9 <= rest[0] as int <= 13)
    ensures Convert(ws + (sign + rest), base) == NoNumber
  {
    if rest != "" && DigitValue(rest[0]) < base {
      OnlyDigitsSpelled(rest[0], base);
    }
    assert sign == "" ==> sign + rest == rest;
    assert sign + rest != "" ==> (sign + rest)[0] == if sign == "" then rest[0] else sign[0];
    SpacesSkipped(ws, sign + rest);
    ConvertUnsigned(ws + (sign + rest), sign, rest, base);
  }

  /** stoul reads every text of a number up to the largest unsigned long, in base 10 or 16, with
      leading zeros and in either case; larger ones and texts without a number throw; a negative
      number wraps around. */
  lemma StoulReads(ws: string, sign: string, prefix: string, s: string, n: nat, rest: string, base: Base)
    requires Spaces(ws) && IsSign(sign) && IsPrefix(prefix, base) && Writes(s, n, base) && EndsDigits(rest, base)
    ensures Stoul(ws + (sign + (prefix + (s + rest))), base)
            == if n > 0xFFFF_FFFF_FFFF_FFFF then None
               else if sign == "-" && n > 0 then Some(0x1_0000_0000_0000_0000 - n)
               else Some(n)
  {
    ConvertReads(ws, sign, prefix, s, n, rest, base);
  }

  lemma ConvertReadsPlain(s: string, n: nat, rest: string, base: Base)
    requires Writes(s, n, base) && EndsDigits(rest, base)
    ensures Convert(s + rest, base) == Number(false, n)
  {
    ConvertReads("", "", "", s, n, rest, base);
    assert "" + ("" + ("" + (s + rest))) == s + rest;
  }

  lemma StrtolIs(s: string, n: nat, base: Base)
    requires Convert(s, base) == Number(false, n)
    ensures Strtol(s, base) == n
  {
  }

  lemma StrtolReadsPlain(s: string, n: nat, rest: string, base: Base)
    requires Writes(s, n, base) && EndsDigits(rest, base)
    ensures Strtol(s + rest, base) == n
  {
    ConvertReadsPlain(s, n, rest, base);
    StrtolIs(s + rest, n, base);
  }

  lemma StoulReadsPlain(s: string, n: nat, rest: string, base: Base)
    requires Writes(s, n, base) && EndsDigits(rest, base) && n <= 0xFFFF_FFFF_FFFF_FFFF
    ensures Stoul(s + rest, base) == Some(n)
  {
    ConvertReadsPlain(s, n, rest, base);
  }

  /** Every number has a text: NatText is the one in upper case without leading zeros. */
  lemma {:induction false} NatTextWrites(n: nat, base: Base) returns (ds: seq<nat>)
    ensures DigitsWrite(NatText(n, base), ds, n, base) && Writes(NatText(n, base), n, base)
    ensures forall i :: 0 <= i < |ds| ==> NatText(n, base)[i] == UPPER_DIGITS[ds[i]]
    ensures ds[0] == 0 ==> n == 0 && NatText(n, base) == "0"
    decreases n
  {
    if n < base {
      ds := [n];
      assert ds[..0] == [];
    } else {
      var more := NatTextWrites(Quotient(n, base), base);
      ds := more + [Remainder(n, base)];
      assert ds[..|more|] == more;
    }
    assert DigitsWrite(NatText(n, base), ds, n, base);
  }

  /** Leading zeros do not change the number. */
  lemma LeadingZeros(zeros: string, s: string, n: nat, base: Base)
    requires Writes(s, n, base) && forall i :: 0 <= i < |zeros| ==> zeros[i] == '0'
    ensures Writes(zeros + s, n, base)
  {
    var ds :| DigitsWrite(s, ds, n, base);
    var none: seq<nat> := seq(|zeros|, i => 0);
    ZerosValue(|zeros|, ds, base);
    ZerosWrite(zeros, none, s, ds);
    assert DigitsWrite(zeros + s, none + ds, n, base);
  }

  lemma ZerosWrite(zeros: string, none: seq<nat>, s: string, ds: seq<nat>)
    requires |none| == |zeros| && TextOf(s, ds)
    requires forall i :: 0 <= i < |zeros| ==> zeros[i] == '0' && none[i] == 0
    ensures TextOf(zeros + s, none + ds)
  {
    assert Spells('0', 0);
  }

  lemma {:induction false} ZerosValue(k: nat, ds: seq<nat>, base: Base)
    ensures Positional(seq(k, i => 0) + ds, base) == Positional(ds, base)
    decreases k + |ds|
  {
    var zeros := seq(k, i => 0);
    if ds != [] {
      assert (zeros + ds)[..k + |ds| - 1] == zeros + ds[..|ds| - 1];
      ZerosValue(k, ds[..|ds| - 1], base);
    } else if k > 0 {
      assert zeros + ds == zeros && zeros[..k - 1] == seq(k - 1, i => 0) + ds;
      ZerosValue(k - 1, ds, base);
    }
  }
}
