/** Decimal numbers as `printf` writes them and `scanf` reads them. */
module Scanning {
  import opened Basics

  predicate IsDigit(c: char) {
    '0' <= c <= '9'
  }

  predicate AllDigits(s: string) {
    forall i :: 0 <= i < |s| ==> IsDigit(s[i])
  }

  function Digit(d: nat): (c: char)
    requires d < 10
    ensures IsDigit(c) && Value([c]) == d
  {
    assert Value([('0' as int + d) as char]) == d;
    ('0' as int + d) as char
  }

  /** The number a row of digits stands for. */
  function Value(s: string): (n: nat)
    requires AllDigits(s)
  {
    if s == [] then 0 else Value(s[..|s| - 1]) * 10 + (s[|s| - 1] as int - '0' as int)
  }

  /** A conversion that did not happen, or its value and where it stopped. */
  datatype Scan = NoMatch | Match(value: int, next: nat)

  function SkipWhite(s: string, p: nat): (q: nat)
    requires p <= |s|
    ensures p <= q <= |s|
    decreases |s| - p
  {
    if p < |s| && IsSpace(s[p]) then SkipWhite(s, p + 1) else p
  }

  /** The end of the digits from p on, at most `width` of them. */
  function DigitsEnd(s: string, p: nat, width: nat): (q: nat)
    requires p <= |s|
    ensures p <= q <= |s| && q <= p + width && AllDigits(s[p..q])
    decreases width
  {
    if p < |s| && width > 0 && IsDigit(s[p]) then
      var q := DigitsEnd(s, p + 1, width - 1);
      assert s[p..q] == [s[p]] + s[p + 1..q];
      q
    else p
  }

  /** `%<width>d`: blanks, a sign that counts towards the width, and at least one digit. */
  function ScanInt(s: string, p: nat, width: nat): (r: Scan)
    requires p <= |s|
    ensures r.Match? ==> p < r.next <= |s|
  {
    var q := SkipWhite(s, p);
    var signed := q < |s| && width > 0 && (s[q] == '-' || s[q] == '+');
    var start := if signed then q + 1 else q;
    var end := DigitsEnd(s, start, if signed then width - 1 else width);
    if end == start then NoMatch
    else
      var v: int := Value(s[start..end]);
      Match(if signed && s[q] == '-' then 0 - v else v, end)
  }

  lemma {:induction false} DigitsEndAt(s: string, p: nat, width: nat, q: nat)
    requires p <= q <= |s| && q <= p + width && AllDigits(s[p..q])
    requires q == p + width || q == |s| || !IsDigit(s[q])
    ensures DigitsEnd(s, p, width) == q
    decreases width
  {
    if p < q {
      assert s[p..q][0] == s[p];
      assert s[p + 1..q] == s[p..q][1..];
      DigitsEndAt(s, p + 1, width - 1, q);
    }
  }

  /** A conversion standing on digits reads them, up to its width or the first other character. */
  lemma ScanDigits(s: string, p: nat, width: nat, q: nat)
    requires p < q <= |s| && q <= p + width && AllDigits(s[p..q])
    requires q == p + width || q == |s| || !IsDigit(s[q])
    ensures ScanInt(s, p, width) == Match(Value(s[p..q]), q)
  {
    assert IsDigit(s[p..q][0]);
    DigitsEndAt(s, p, width, q);
  }

  lemma {:induction false} SkipWhiteAt(s: string, p: nat, q: nat)
    requires p <= q <= |s| && (forall i :: p <= i < q ==> IsSpace(s[i])) && (q < |s| ==> !IsSpace(s[q]))
    ensures SkipWhite(s, p) == q
    decreases q - p
  {
    if p < q {
      SkipWhiteAt(s, p + 1, q);
    }
  }

  /** White space before a number is skipped, and a sign counts. */
  lemma ScanSigned(s: string, p: nat, q: nat, end: nat, width: nat)
    requires p <= q < |s| && (forall i :: p <= i < q ==> IsSpace(s[i])) && (s[q] == '-' || s[q] == '+')
    requires q + 1 < end <= |s| && end <= q + width && AllDigits(s[q + 1..end])
    requires end == q + width || end == |s| || !IsDigit(s[end])
    ensures var v: int := Value(s[q + 1..end]); ScanInt(s, p, width) == Match(if s[q] == '-' then -v else v, end)
  {
    hide Value, AllDigits;
    SkipWhiteAt(s, p, q);
    DigitsEndAt(s, q + 1, width - 1, end);
  }

  /** Without a digit there is no number. */
  lemma ScanNothing(s: string, p: nat, q: nat, width: nat)
    requires p <= q <= |s| && (forall i :: p <= i < q ==> IsSpace(s[i]))
    requires q == |s| || (!IsSpace(s[q]) && !IsDigit(s[q]) && s[q] != '-' && s[q] != '+')
    ensures ScanInt(s, p, width) == NoMatch
  {
    SkipWhiteAt(s, p, q);
  }

  /** `%0<width>d`: exactly `width` digits (the low ones, if the number needs more). */
  function Padded(n: nat, width: nat): (s: string)
    ensures |s| == width && AllDigits(s)
    decreases width
  {
    if width == 0 then [] else Padded(n / 10, width - 1) + [Digit(n % 10)]
  }

  function Pow10(k: nat): (r: nat)
    ensures r > 0
  {
    if k == 0 then 1 else 10 * Pow10(k - 1)
  }

  lemma {:induction false} PaddedValue(n: nat, width: nat)
    requires n < Pow10(width)
    ensures Value(Padded(n, width)) == n
    decreases width
  {
    if width > 0 {
      PaddedValue(n / 10, width - 1);
      var s := Padded(n, width);
      assert s[..|s| - 1] == Padded(n / 10, width - 1);
      assert Value([Digit(n % 10)]) == n % 10;
    }
  }

  /** `%d` of a number that is not negative. */
  function Decimal(n: nat): (s: string)
    ensures s != [] && AllDigits(s)
    decreases n
  {
    if n < 10 then [Digit(n)] else Decimal(n / 10) + [Digit(n % 10)]
  }

  lemma {:induction false} DecimalValue(n: nat)
    ensures Value(Decimal(n)) == n
    decreases n
  {
    if n >= 10 {
      DecimalValue(n / 10);
      var s := Decimal(n);
      assert s[..|s| - 1] == Decimal(n / 10);
      assert Value([Digit(n % 10)]) == n % 10;
    }
  }
}
