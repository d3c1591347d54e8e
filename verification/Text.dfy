/** Decimal text: printing as std::to_string does, reading as std::from_chars does. */
module Text {

  function Digit(d: nat): (c: char)
    requires d < 10
  {
    ('0' as int + d) as char
  }

  predicate IsDigit(c: char) {
    '0' <= c <= '9'
  }

  function DigitValue(c: char): (d: nat)
    requires IsDigit(c)
  {
    c as int - '0' as int
  }

  function Decimal(n: nat): (s: string)
    ensures |s| >= 1
  {
    if n < 10 then [Digit(n)] else Decimal(n / 10) + [Digit(n % 10)]
  }

  predicate AllDigits(s: string) {
    forall i :: 0 <= i < |s| ==> IsDigit(s[i])
  }

  /** The value of the first `n` characters read as a decimal number. */
  function Value(s: string, n: nat): (v: nat)
    requires n <= |s| && AllDigits(s)
  {
    if n == 0 then 0 else 10 * Value(s, n - 1) + DigitValue(s[n - 1])
  }

  lemma {:induction false} ValueOfPrefix(s: string, more: string, n: nat)
    requires AllDigits(s) && AllDigits(s + more) && n <= |s|
    ensures Value(s + more, n) == Value(s, n)
  {
    if n > 0 {
      ValueOfPrefix(s, more, n - 1);
      assert (s + more)[n - 1] == s[n - 1];
    }
  }

  /** Reading back a printed number gives the number. */
  lemma {:induction false} DecimalRoundTrip(n: nat)
    ensures AllDigits(Decimal(n)) && Value(Decimal(n), |Decimal(n)|) == n
  {
    if n < 10 {
      assert Value([Digit(n)], 0) == 0;
    } else {
      DecimalRoundTrip(n / 10);
      var high := Decimal(n / 10);
      ValueOfPrefix(high, [Digit(n % 10)], |high|);
    }
  }

  /** Two different numbers print differently. */
  lemma DecimalInjective(m: nat, n: nat)
    requires Decimal(m) == Decimal(n)
    ensures m == n
  {
    DecimalRoundTrip(m);
    DecimalRoundTrip(n);
  }

  lemma SeparatorNotAfter(a: string, x: string, b: string, y: string, separator: char)
    requires separator !in x
    requires a + [separator] + x == b + [separator] + y
    ensures |b| <= |a|
  {
    var whole := a + [separator] + x;
    assert whole == b + [separator] + y;
    assert whole[|b|] == separator;
    assert forall k :: |a| < k < |whole| ==> whole[k] == x[k - |a| - 1] && whole[k] in x;
  }

  /** Text joined by a separator that its second part cannot contain determines both parts. */
  lemma SeparatedInjective(a: string, x: string, b: string, y: string, separator: char)
    requires separator !in x && separator !in y
    requires a + [separator] + x == b + [separator] + y
    ensures a == b && x == y
  {
    SeparatorNotAfter(a, x, b, y, separator);
    SeparatorNotAfter(b, y, a, x, separator);
    var whole := a + [separator] + x;
    assert whole == b + [separator] + y;
    assert a == whole[..|a|] && b == whole[..|b|];
    assert x == whole[|a| + 1..] && y == whole[|b| + 1..];
  }

  /** A name and a number joined by a separator determine both. */
  lemma SuffixedInjective(a: string, m: nat, b: string, n: nat, separator: char)
    requires !IsDigit(separator)
    requires a + [separator] + Decimal(m) == b + [separator] + Decimal(n)
    ensures a == b && m == n
  {
    DecimalRoundTrip(m);
    DecimalRoundTrip(n);
    SeparatedInjective(a, Decimal(m), b, Decimal(n), separator);
    DecimalInjective(m, n);
  }

  // ---- std::from_chars on an unsigned type ----

  function DigitPrefix(s: string, from: nat): (n: nat)
    requires from <= |s|
    ensures from <= n <= |s|
    decreases |s| - from
  {
    if from < |s| && IsDigit(s[from]) then DigitPrefix(s, from + 1) else from
  }

  lemma {:induction false} DigitPrefixIsDigits(s: string, from: nat)
    requires from <= |s|
    ensures forall i :: from <= i < DigitPrefix(s, from) ==> IsDigit(s[i])
    ensures AllDigits(s) ==> DigitPrefix(s, from) == |s|
    decreases |s| - from
  {
    if from < |s| && IsDigit(s[from]) { DigitPrefixIsDigits(s, from + 1); }
  }

  /**
    The variable after from_chars: the value of the leading digits, or what it held before when
    there are none or they do not fit below `limit`.
   */
  function FromChars(s: string, before: nat, limit: nat): (v: nat)
  {
    var n := DigitPrefix(s, 0);
    if n == 0 then before
    else
      DigitPrefixIsDigits(s, 0);
      var v := Value(s[..n], n);
      if v < limit then v else before
  }

  lemma FromCharsOfDecimal(n: nat, before: nat, limit: nat)
    requires n < limit
    ensures FromChars(Decimal(n), before, limit) == n
  {
    var s := Decimal(n);
    DecimalRoundTrip(n);
    DigitPrefixIsDigits(s, 0);
    assert s[..|s|] == s;
  }

  // ---- host names ----

  function LowerChar(c: char): char {
    if 'A' <= c <= 'Z' then c + 32 as char else c
  }

  function WithoutTrailingDots(s: string): string {
    if |s| > 0 && s[|s| - 1] == '.' then WithoutTrailingDots(s[..|s| - 1]) else s
  }
}
