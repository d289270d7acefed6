/** String operations the script relies on: Python's substring test `sub in s`,
    `str.lower()` restricted to ASCII, `str(n)` for non-negative integers,
    `' '.join(parts)` and its inverse `s.split(' ')`. */
module Text {

  /** `sub` occurs in `s` starting at index `i`. */
  predicate StartsAt(s: string, sub: string, i: nat) {
    i + |sub| <= |s| && s[i..i + |sub|] == sub
  }

  /** Python's `sub in s` for strings. */
  predicate Contains(s: string, sub: string) {
    exists i: nat :: i <= |s| - |sub| && StartsAt(s, sub, i)
  }

  function LowerChar(c: char): char {
    if 'A' <= c <= 'Z' then (c as int + 32) as char else c
  }

  /** `s.lower()` on ASCII text: upper-case letters become lower-case, nothing else changes. */
  function AsciiLower(s: string): (r: string)
    ensures |r| == |s|
    ensures forall i :: 0 <= i < |s| ==> r[i] == LowerChar(s[i])
  {
    seq(|s|, i requires 0 <= i < |s| => LowerChar(s[i]))
  }

  /** Lower-casing twice is lower-casing once. */
  lemma AsciiLowerIdempotent(s: string)
    ensures AsciiLower(AsciiLower(s)) == AsciiLower(s)
  {
    forall i | 0 <= i < |s|
      ensures LowerChar(LowerChar(s[i])) == LowerChar(s[i])
    {
    }
  }

  /** Lower-casing works character by character, so it distributes over concatenation. */
  lemma AsciiLowerConcat(a: string, b: string)
    ensures AsciiLower(a + b) == AsciiLower(a) + AsciiLower(b)
  {
  }

  /** An occurrence of `sub` in `s` is also one in any text around `s`. */
  lemma ContainsWithin(p: string, s: string, q: string, sub: string)
    requires Contains(s, sub)
    ensures Contains(p + s + q, sub)
  {
    var i: nat :| i <= |s| - |sub| && StartsAt(s, sub, i);
    var t := p + s + q;
    assert t[|p| + i..|p| + i + |sub|] == s[i..i + |sub|];
    assert StartsAt(t, sub, |p| + i);
  }

  predicate IsDigit(c: char) {
    '0' <= c <= '9'
  }

  predicate IsNumeral(s: string) {
    |s| > 0 && forall i :: 0 <= i < |s| ==> IsDigit(s[i])
  }

  function DigitChar(d: nat): (c: char)
    requires d < 10
    ensures IsDigit(c) && c as int - '0' as int == d
  {
    (d + '0' as int) as char
  }

  /** The value of a string of decimal digits, most significant digit first. */
  function DigitsValue(s: string): nat
    requires forall i :: 0 <= i < |s| ==> IsDigit(s[i])
  {
    if s == [] then 0
    else
      assert IsDigit(s[|s| - 1]);
      DigitsValue(s[..|s| - 1]) * 10 + (s[|s| - 1] as int - '0' as int)
  }

  /** Python's `str(n)` for `n >= 0`: a non-empty digit string that reads back as
      `n`, with no leading zero unless it is "0" itself. */
  function Decimal(n: nat): (r: string)
    ensures IsNumeral(r)
    ensures DigitsValue(r) == n
    ensures n == 0 ==> r == "0"
    ensures n > 0 ==> r[0] != '0'
    decreases n
  {
    if n < 10 then [DigitChar(n)]
    else
      var high := Decimal(n / 10);
      var r := high + [DigitChar(n % 10)];
      assert r[..|r| - 1] == high;
      assert r[0] == high[0];
      r
  }

  /** A digit string without a leading zero, or the single digit "0". */
  predicate IsCanonicalNumeral(s: string) {
    IsNumeral(s) && (|s| == 1 || s[0] != '0')
  }

  /** A digit string whose first digit is not zero has a positive value. */
  lemma {:induction false} LeadingDigitPositive(s: string)
    requires IsNumeral(s) && s[0] != '0'
    ensures DigitsValue(s) > 0
    decreases |s|
  {
    if |s| > 1 {
      LeadingDigitPositive(s[..|s| - 1]);
    }
  }

  /** `str(n)` is the only canonical digit string with value `n`. */
  lemma {:induction false} DecimalUnique(s: string, n: nat)
    requires IsCanonicalNumeral(s) && DigitsValue(s) == n
    ensures s == Decimal(n)
    decreases |s|
  {
    var last := s[|s| - 1];
    var d := last as int - '0' as int;
    if |s| == 1 {
      assert s == [last];
      assert DigitsValue(s) == DigitsValue([]) * 10 + d;
    } else {
      var init := s[..|s| - 1];
      assert s == init + [last];
      assert init[0] == s[0];
      LeadingDigitPositive(init);
      assert n == DigitsValue(init) * 10 + d;
      assert n / 10 == DigitsValue(init) && n % 10 == d;
      DecimalUnique(init, n / 10);
      assert DigitChar(n % 10) == last;
    }
  }

  /** Python's `' '.join(parts)`. */
  function JoinSpaces(parts: seq<string>): string
    decreases |parts|
  {
    if |parts| == 0 then ""
    else if |parts| == 1 then parts[0]
    else parts[0] + " " + JoinSpaces(parts[1..])
  }

  /** Index of the first space in `s`, or `|s|` when there is none. */
  function IndexOfSpace(s: string): (i: nat)
    ensures i <= |s|
    ensures i < |s| ==> s[i] == ' '
    ensures forall j :: 0 <= j < i ==> s[j] != ' '
  {
    if s == [] then 0
    else if s[0] == ' ' then 0
    else 1 + IndexOfSpace(s[1..])
  }

  /** Python's `s.split(' ')`: the pieces between single spaces, so never empty. */
  function SplitSpaces(s: string): (parts: seq<string>)
    ensures |parts| > 0
    decreases |s|
  {
    var i := IndexOfSpace(s);
    if i == |s| then [s]
    else [s[..i]] + SplitSpaces(s[i + 1..])
  }

  /** A space-free prefix is skipped whole by the search for a space. */
  lemma {:induction false} IndexOfSpaceAfter(p: string, t: string)
    requires ' ' !in p
    ensures IndexOfSpace(p + t) == |p| + IndexOfSpace(t)
    decreases |p|
  {
    if p != [] {
      assert (p + t)[0] == p[0];
      assert (p + t)[1..] == p[1..] + t;
      IndexOfSpaceAfter(p[1..], t);
    } else {
      assert p + t == t;
    }
  }

  /** Splitting a space-joined list of space-free strings recovers the list. */
  lemma {:induction false} SplitJoin(parts: seq<string>)
    requires |parts| > 0
    requires forall k :: 0 <= k < |parts| ==> ' ' !in parts[k]
    ensures SplitSpaces(JoinSpaces(parts)) == parts
    decreases |parts|
  {
    var p := parts[0];
    if |parts| == 1 {
      assert JoinSpaces(parts) == p;
      IndexOfSpaceAfter(p, "");
      assert p + "" == p;
    } else {
      var rest := JoinSpaces(parts[1..]);
      var s := p + (" " + rest);
      assert JoinSpaces(parts) == s;
      IndexOfSpaceAfter(p, " " + rest);
      assert IndexOfSpace(" " + rest) == 0;
      assert s[..|p|] == p;
      assert s[|p| + 1..] == rest;
      SplitJoin(parts[1..]);
    }
  }

  /** The decimal rendering of a number contains no space. */
  lemma DecimalHasNoSpace(n: nat)
    ensures ' ' !in Decimal(n)
  {
    var d := Decimal(n);
    assert forall i :: 0 <= i < |d| ==> d[i] != ' ';
  }
}
