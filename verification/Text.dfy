/** Strings: splitting, joining, trimming and decimal numbers, as java.lang does it. */
module Text {
  import opened Wrappers
  import opened Words

  /** White space at both ends is removed. */
  function Trim(s: string): string
    decreases |s|
  {
    if s != "" && s[0] <= ' ' then Trim(s[1..])
    else if s != "" && s[|s| - 1] <= ' ' then Trim(s[..|s| - 1])
    else s
  }

  /** The parts between the separators: one more than there are separators. */
  function Split(s: string, c: char): (parts: seq<string>)
    ensures parts != []
  {
    if s == "" then [""]
    else
      var rest := Split(s[1..], c);
      if s[0] == c then [""] + rest else [[s[0]] + rest[0]] + rest[1..]
  }

  function Join(parts: seq<string>, c: char): string
    requires parts != []
  {
    if |parts| == 1 then parts[0] else parts[0] + [c] + Join(parts[1..], c)
  }

  predicate Without(s: string, c: char) {
    forall i :: 0 <= i < |s| ==> s[i] != c
  }

  lemma {:induction false} SplitSingle(s: string, c: char)
    requires Without(s, c)
    ensures Split(s, c) == [s]
  {
    if s != "" {
      SplitSingle(s[1..], c);
      assert [s[0]] + s[1..] == s;
    }
  }

  lemma {:induction false} SplitFirst(s: string, c: char, rest: string)
    requires Without(s, c)
    ensures Split(s + [c] + rest, c) == [s] + Split(rest, c)
  {
    var all := s + [c] + rest;
    if s == "" {
      assert all[1..] == rest;
    } else {
      assert all[1..] == s[1..] + [c] + rest;
      SplitFirst(s[1..], c, rest);
      assert [s[0]] + s[1..] == s;
    }
  }

  /** Splitting undoes joining, if no part contains the separator. */
  lemma {:induction false} SplitJoin(parts: seq<string>, c: char)
    requires parts != [] && forall p :: p in parts ==> Without(p, c)
    ensures Split(Join(parts, c), c) == parts
  {
    if |parts| == 1 {
      SplitSingle(parts[0], c);
    } else {
      SplitJoin(parts[1..], c);
      SplitFirst(parts[0], c, Join(parts[1..], c));
    }
  }

  lemma {:induction false} JoinWithout(parts: seq<string>, c: char, d: char)
    requires parts != [] && c != d && forall p :: p in parts ==> Without(p, d)
    ensures Without(Join(parts, c), d)
  {
    assert parts[0] in parts;
    if |parts| > 1 { JoinWithout(parts[1..], c, d); }
  }

  // ---------- numbers ----------

  predicate IsDigit(c: char) {
    '0' <= c <= '9'
  }

  predicate AllDigits(s: string) {
    s != "" && forall i :: 0 <= i < |s| ==> IsDigit(s[i])
  }

  function DigitValue(c: char): (n: nat)
    requires IsDigit(c)
    ensures n < 10
  {
    c as int - '0' as int
  }

  /** The value of a string of digits. */
  function Value(s: string): nat
    requires forall i :: 0 <= i < |s| ==> IsDigit(s[i])
  {
    if s == "" then 0 else Value(s[..|s| - 1]) * 10 + DigitValue(s[|s| - 1])
  }

  /** Long.parseLong: a sign may come first, and the number must fit in 64 bits. */
  function ParseLong(s: string): Option<int> {
    var negative := s != "" && s[0] == '-';
    var digits := if s != "" && (s[0] == '-' || s[0] == '+') then s[1..] else s;
    if !AllDigits(digits) then None
    else
      var v: int := Value(digits);
      var n := if negative then -v else v;
      if -MaxLong - 1 <= n <= MaxLong then Some(n) else None
  }

  function Digit(n: nat): (c: char)
    requires n < 10
    ensures IsDigit(c) && DigitValue(c) == n
  {
    ('0' as int + n) as char
  }

  function ToString(n: nat): (s: string)
    ensures AllDigits(s)
  {
    if n < 10 then [Digit(n)] else ToString(n / 10) + [Digit(n % 10)]
  }

  lemma DigitsWithout(s: string, c: char)
    requires AllDigits(s) && !IsDigit(c)
    ensures Without(s, c)
  {}

  lemma {:induction false} ValueOfString(n: nat)
    ensures Value(ToString(n)) == n
  {
    var s := ToString(n);
    if n < 10 {
      assert s[..0] == "";
    } else {
      ValueOfString(n / 10);
      assert s[..|s| - 1] == ToString(n / 10);
    }
  }

  lemma ParseString(n: nat)
    requires n <= MaxLong
    ensures ParseLong(ToString(n)) == Some(n)
  {
    ValueOfString(n);
    assert IsDigit(ToString(n)[0]);
  }

  /** Nothing is trimmed from a string that starts and ends with something visible. */
  lemma TrimVisible(s: string)
    requires s != "" && s[0] > ' ' && s[|s| - 1] > ' '
    ensures Trim(s) == s
  {}
}
