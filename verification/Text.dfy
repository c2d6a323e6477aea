// String helpers shared by the parsers and the protocol. A C++ std::string is a
// sequence of characters; the position npos is modelled by the length of the text.
module Text {

  datatype Option<+T> = None | Some(value: T)

  const CRLF: string := "\r\n"

  /** std::string::find for one character, from a start position. */
  function Find(s: string, c: char, from: nat): (r: nat)
    requires from <= |s|
    ensures from <= r <= |s|
    ensures forall k :: from <= k < r ==> s[k] != c
    ensures r < |s| ==> s[r] == c
    decreases |s| - from
  {
    if from == |s| || s[from] == c then from else Find(s, c, from + 1)
  }

  /** The only position that looks like the result of Find is the result of Find. */
  lemma FindIs(s: string, c: char, from: nat, r: nat)
    requires from <= r <= |s|
    requires forall k :: from <= k < r ==> s[k] != c
    requires r < |s| ==> s[r] == c
    ensures Find(s, c, from) == r
  {
  }

  lemma Assoc(a: string, b: string, c: string)
    ensures a + (b + c) == (a + b) + c
  {
  }

  /** Concatenation of a list of texts. */
  function Concat(parts: seq<string>): string {
    if parts == [] then "" else parts[0] + Concat(parts[1..])
  }

  lemma {:induction false} ConcatAppend(a: seq<string>, b: seq<string>)
    ensures Concat(a + b) == Concat(a) + Concat(b)
  {
    if a == [] {
      assert a + b == b;
    } else {
      assert (a + b)[0] == a[0] && (a + b)[1..] == a[1..] + b;
      ConcatAppend(a[1..], b);
      Assoc(a[0], Concat(a[1..]), Concat(b));
    }
  }

  lemma ConcatSnoc(a: seq<string>, x: string)
    ensures Concat(a + [x]) == Concat(a) + x
  {
    ConcatAppend(a, [x]);
    assert Concat([x]) == x;
  }

  /** The last position of c in s[from..end], or end when there is none. */
  function FindLast(s: string, c: char, from: nat, end: nat): (r: nat)
    requires from <= end <= |s|
    ensures from <= r <= end
    ensures r < end ==> s[r] == c && forall k :: r < k < end ==> s[k] != c
    ensures r == end ==> forall k :: from <= k < end ==> s[k] != c
    decreases end
  {
    if from == end then end
    else if s[end - 1] == c then end - 1
    else
      var r := FindLast(s, c, from, end - 1);
      if r == end - 1 then end else r
  }

  lemma FindLastShift(line: string, c: char, from: nat, end: nat)
    requires from <= end <= |line|
    ensures FindLast(line[from..end], c, 0, end - from) == FindLast(line, c, from, end) - from
  {
    var q, r := FindLast(line, c, from, end), FindLast(line[from..end], c, 0, end - from);
    assert forall k :: from <= k < end ==> line[k] == line[from..end][k - from];
  }

  /** The pieces between the occurrences of c: one more than there are occurrences. */
  function Split(s: string, c: char): (pieces: seq<string>)
    ensures pieces != []
  {
    var i := Find(s, c, 0);
    if i == |s| then [s] else [s[..i]] + Split(s[i + 1..], c)
  }

  lemma SplitHead(a: string, c: char, rest: string)
    requires c !in a
    ensures Split(a + [c] + rest, c) == [a] + Split(rest, c)
  {
    var s := a + [c] + rest;
    FindIs(s, c, 0, |a|);
    assert s[..|a|] == a && s[|a| + 1..] == rest;
  }

  lemma SplitWhole(a: string, c: char)
    requires c !in a
    ensures Split(a, c) == [a]
  {
    FindIs(a, c, 0, |a|);
  }

  lemma Around(s: string, from: nat, end: nat)
    requires from <= end < |s|
    ensures s[from..] == s[from..end] + [s[end]] + s[end + 1..]
  {
  }

  /** The first piece of the rest of a text, and what is split behind it. */
  lemma SplitAt(s: string, c: char, from: nat, end: nat)
    requires from <= end <= |s| && forall k :: from <= k < end ==> s[k] != c
    ensures end < |s| && s[end] == c ==> Split(s[from..], c) == [s[from..end]] + Split(s[end + 1..], c)
    ensures end == |s| ==> Split(s[from..], c) == [s[from..]]
  {
    if end == |s| {
      SplitWhole(s[from..], c);
    } else if s[end] == c {
      Around(s, from, end);
      SplitHead(s[from..end], c, s[end + 1..]);
    }
  }

  lemma {:induction false} SplitPieces(s: string, c: char)
    ensures forall k :: 0 <= k < |Split(s, c)| ==> c !in Split(s, c)[k]
    decreases |s|
  {
    var i := Find(s, c, 0);
    if i < |s| {
      SplitPieces(s[i + 1..], c);
    }
  }

  // ---------- the alphabets ----------

  const UPPER_LETTERS: string := "ABCDEFGHIJKLMNOPQRSTUVWXYZ"
  const LOWER_LETTERS: string := "abcdefghijklmnopqrstuvwxyz"

  lemma LetterAt(k: nat)
    requires k < 26
    ensures UPPER_LETTERS[k] as int == 'A' as int + k && LOWER_LETTERS[k] as int == 'a' as int + k
  {
  }

  lemma IsLetter(c: char)
    ensures 'A' <= c <= 'Z' <==> c in UPPER_LETTERS
    ensures 'a' <= c <= 'z' <==> c in LOWER_LETTERS
  {
    if 'A' <= c <= 'Z' {
      LetterAt(c as int - 'A' as int);
      assert UPPER_LETTERS[c as int - 'A' as int] == c;
    } else if 'a' <= c <= 'z' {
      LetterAt(c as int - 'a' as int);
      assert LOWER_LETTERS[c as int - 'a' as int] == c;
    }
    if c in UPPER_LETTERS {
      var k :| 0 <= k < 26 && UPPER_LETTERS[k] == c;
      LetterAt(k);
    }
    if c in LOWER_LETTERS {
      var k :| 0 <= k < 26 && LOWER_LETTERS[k] == c;
      LetterAt(k);
    }
  }
}
