/**
 * Character-level string operations the content loader relies on: substring
 * search (standing in for the regular-expression engine), suffix tests and the
 * decimal rendering of integers done by Swift's `String(Int)`.
 */
module Text {
  import opened Wrappers

  /** `pat` occurs in `s` starting at index `i`. */
  predicate IsAt(s: string, pat: string, i: nat) {
    i + |pat| <= |s| && s[i..i + |pat|] == pat
  }

  /** The leftmost occurrence of `pat` in `s` at an index no smaller than `from`. */
  function FindFirst(s: string, pat: string, from: nat): (r: Option<nat>)
    decreases |s| + 1 - from
    ensures r.Some? ==> from <= r.value && IsAt(s, pat, r.value)
    ensures r.Some? ==> forall j :: from <= j < r.value ==> !IsAt(s, pat, j)
    ensures r.None? ==> forall j :: from <= j ==> !IsAt(s, pat, j)
  {
    if from + |pat| > |s| then None
    else if IsAt(s, pat, from) then Some(from)
    else FindFirst(s, pat, from + 1)
  }

  /** The rightmost occurrence of `pat` in `s` at an index no smaller than `from`. */
  function FindLast(s: string, pat: string, from: nat): (r: Option<nat>)
    decreases |s| + 1 - from
    ensures r.Some? ==> from <= r.value && IsAt(s, pat, r.value)
    ensures r.Some? ==> forall j :: r.value < j ==> !IsAt(s, pat, j)
    ensures r.None? ==> forall j :: from <= j ==> !IsAt(s, pat, j)
  {
    if from + |pat| > |s| then None
    else match FindLast(s, pat, from + 1)
      case Some(i) => Some(i)
      case None => if IsAt(s, pat, from) then Some(from) else None
  }

  /** Swift's `String.hasSuffix`, on characters. */
  predicate HasSuffix(s: string, suffix: string) {
    |suffix| <= |s| && s[|s| - |suffix|..] == suffix
  }

  predicate IsDigit(c: char) {
    '0' <= c <= '9'
  }

  predicate AllDigits(s: string) {
    forall i :: 0 <= i < |s| ==> IsDigit(s[i])
  }

  function DigitChar(d: nat): (c: char)
    requires d < 10
    ensures IsDigit(c)
  {
    ('0' as int + d) as char
  }

  function DigitValue(c: char): (d: nat)
    requires IsDigit(c)
    ensures d < 10 && DigitChar(d) == c
  {
    c as int - '0' as int
  }

  /** The decimal digits of `n`, most significant first, without leading zeros. */
  function Digits(n: nat): (r: string)
    ensures |r| >= 1 && AllDigits(r)
  {
    if n < 10 then [DigitChar(n)] else Digits(n / 10) + [DigitChar(n % 10)]
  }

  /** Swift's `String(n)` for an `Int`: a minus sign for negatives, then the digits. */
  function Decimal(n: int): (r: string)
    ensures |r| >= 1
    ensures forall i :: 0 <= i < |r| ==> r[i] == '-' || IsDigit(r[i])
  {
    if n < 0 then "-" + Digits(-n) else Digits(n)
  }

  /** The value of a string of decimal digits (the empty string reads as 0). */
  function ParseDigits(s: string): nat
    requires AllDigits(s)
  {
    if s == [] then 0 else ParseDigits(s[..|s| - 1]) * 10 + DigitValue(s[|s| - 1])
  }

  /** Reads back what `Decimal` writes; anything else is rejected. */
  function ParseDecimal(s: string): Option<int> {
    if |s| >= 2 && s[0] == '-' && AllDigits(s[1..]) then Some(0 - ParseDigits(s[1..]) as int)
    else if |s| >= 1 && AllDigits(s) then Some(ParseDigits(s) as int)
    else None
  }

  lemma {:induction false} DigitsRoundTrip(n: nat)
    ensures ParseDigits(Digits(n)) == n
  {
    if n >= 10 {
      var ds := Digits(n);
      assert ds[..|ds| - 1] == Digits(n / 10);
      DigitsRoundTrip(n / 10);
    }
  }

  /** Rendering an integer in decimal and reading it back gives the integer. */
  lemma DecimalRoundTrip(n: int)
    ensures ParseDecimal(Decimal(n)) == Some(n)
  {
    if n < 0 {
      NegativeRoundTrip(n);
    } else {
      var s := Decimal(n);
      assert s == Digits(n) && IsDigit(s[0]);
      DigitsRoundTrip(n);
    }
  }

  lemma NegativeRoundTrip(n: int)
    requires n < 0
    ensures ParseDecimal(Decimal(n)) == Some(n)
  {
    var m: nat := -n;
    MinusDigits(Digits(m));
    DigitsRoundTrip(m);
  }

  /** A minus sign followed by digits reads back as the negated value of the digits. */
  lemma MinusDigits(ds: string)
    requires |ds| >= 1 && AllDigits(ds)
    ensures ParseDecimal("-" + ds) == Some(0 - ParseDigits(ds) as int)
  {
    assert ("-" + ds)[1..] == ds;
  }
}
