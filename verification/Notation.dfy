/**
  What the text of a number looks like, whatever reads it back.
  */
module Notation {
  import opened Decimals

  // ---------- Digits and powers of ten ----------

  lemma {:induction false} PowerGrows(a: nat, b: nat)
    requires a < b
    ensures 10 * Pow10(a) <= Pow10(b)
    decreases b
  {
    if a + 1 < b { PowerGrows(a, b - 1); }
  }

  // A number of `k` digits lies between two powers of ten.
  lemma {:induction false} DigitsSize(n: nat)
    ensures n < Pow10(|Digits(n)|) && (n > 0 ==> Pow10(|Digits(n)| - 1) <= n)
  {
    if n >= 10 { DigitsSize(n / 10); }
  }

  lemma MagnitudeIs(d: Number, m: int)
    requires d.digits > 0 && m - d.exponent >= 0
    requires Pow10(m - d.exponent) <= d.digits < Pow10(m - d.exponent + 1)
    ensures Magnitude(d) == m
  {
    hide Pow10, Digits;
    DigitsSize(d.digits);
    var k, l := m - d.exponent, |Digits(d.digits)| - 1;
    if k < l { PowerGrows(k, l); PowerStep(k); }
    if l < k { PowerGrows(l, k); PowerStep(l); }
  }

  // ---------- The digits of a numeral ----------

  predicate NoLeadingZero(s: string) { s == "0" || (s != "" && s[0] != '0') }

  predicate NoTrailingZero(s: string) { s == "" || s[|s| - 1] != '0' }

  lemma {:induction false} DigitsStart(n: nat)
    ensures NoLeadingZero(Digits(n)) && (n > 0 ==> Digits(n)[0] != '0')
  {
    if n >= 10 { DigitsStart(n / 10); }
  }

  lemma DigitsEnd(n: nat)
    ensures Digits(n)[|Digits(n)| - 1] == Digit(n % 10)
  {}

  lemma TrailingEnd(n: nat, k: nat)
    requires k > 0
    ensures Trailing(n, k)[k - 1] == Digit(n % 10)
  {}

  lemma DivideTwice(n: nat, a: nat, b: nat)
    requires a > 0 && b > 0
    ensures a * b > 0 && n / (a * b) == n / a / b
  {
    var q := n / a;
    var p := q / b;
    var r, s := n % a, q % b;
    assert n == a * q + r && q == b * p + s;
    Expand(a, b, p, s);
    Remainder(a, b, s, r);
    Quotient(n, a * b, p, a * s + r);
  }

  lemma Expand(a: nat, b: nat, p: nat, s: nat)
    ensures a * (b * p + s) == (a * b) * p + a * s
  {}

  lemma Remainder(a: nat, b: nat, s: nat, r: nat)
    requires s < b && r < a
    ensures 0 <= a * s && a * s + r < a * b
  {
    assert a * s <= a * (b - 1);
    assert a * (b - 1) == a * b - a;
  }

  lemma Quotient(n: nat, c: nat, q: nat, r: nat)
    requires c > 0 && n == c * q + r && r < c
    ensures n / c == q
  {
    var p := n / c;
    assert n == c * p + n % c;
    assert c * (p - q) == c * p - c * q;
    Multiple(c, p - q);
  }

  lemma Multiple(c: int, z: int)
    requires c > 0
    ensures (z >= 1 ==> c * z >= c) && (z <= -1 ==> c * z <= -c)
  {}

  // Each digit counts its power of ten.
  lemma {:induction false} DigitCounts(s: string, k: nat)
    requires AllDigits(s) && k < |s|
    ensures s[k] == "0123456789"[NatOf(s) / Pow10(|s| - 1 - k) % 10]
    decreases |s|
  {
    hide NatOf, Pow10;
    var last := |s| - 1;
    LastDigit(s);
    if k < last {
      DigitCounts(s[..last], k);
      PowerStep(last - 1 - k);
      DivideTwice(NatOf(s), 10, Pow10(last - 1 - k));
    } else {
      assert Pow10(0) == 1 by { NoPowers(); }
    }
  }

  lemma NoPowers()
    ensures Pow10(0) == 1
  {}

  lemma LastDigit(s: string)
    requires AllDigits(s) && s != ""
    ensures AllDigits(s[..|s| - 1]) && NatOf(s) / 10 == NatOf(s[..|s| - 1])
    ensures s[|s| - 1] == "0123456789"[NatOf(s) % 10]
  {
    hide *;
    NatOfLast(s);
    var n, c := NatOf(s[..|s| - 1]), s[|s| - 1];
    TenDigits(c);
    Split(n, c as int - '0' as int);
  }

  lemma NatOfLast(s: string)
    requires AllDigits(s) && s != ""
    ensures AllDigits(s[..|s| - 1]) && IsDigit(s[|s| - 1])
    ensures NatOf(s) == NatOf(s[..|s| - 1]) * 10 + (s[|s| - 1] as int - '0' as int)
  {}

  lemma Split(n: nat, x: nat)
    requires x < 10
    ensures (n * 10 + x) / 10 == n && (n * 10 + x) % 10 == x
  {}

  lemma TenDigits(c: char)
    requires IsDigit(c)
    ensures 0 <= c as int - '0' as int < 10
    ensures c == "0123456789"[c as int - '0' as int]
  {}

  // ---------- The text ----------

  // A sign, digits, digits behind a point if there are any, and a power.
  function Written(negative: bool, whole: string, fraction: string, power: string): string {
    (if negative then "-" else "") + whole + (if fraction == "" then "" else "." + fraction) + power
  }

  // A power of ten: a sign always, and two digits at least.
  ghost predicate IsPower(power: string, m: int) {
    exists x: string ::
      && power == "e" + (if m < 0 then "-" else "+") + x && AllDigits(x) && NatOf(x) == (if m < 0 then -m else m)
      && |x| >= 2 && (|x| > 2 ==> x[0] != '0')
  }

  lemma ExponentIsPower(m: int)
    ensures IsPower(ExponentText(m), m)
  {
    hide NatOf, Digits;
    var n := if m < 0 then -m else m;
    var x := ExponentDigits(n);
    DigitsStart(n);
    assert ExponentText(m) == "e" + (if m < 0 then "-" else "+") + x;
  }

  lemma NoPower(negative: bool, whole: string, fraction: string)
    requires AllDigits(whole) && AllDigits(fraction)
    ensures 'e' !in Written(negative, whole, fraction, "")
  {}

  lemma SomePower(negative: bool, whole: string, fraction: string, m: int)
    ensures 'e' in Written(negative, whole, fraction, ExponentText(m))
  {
    hide ExponentDigits;
    var t := Written(negative, whole, fraction, ExponentText(m));
    assert t[|t| - |ExponentText(m)|] == ExponentText(m)[0];
  }

  lemma PositionalForm(d: Number)
    requires Positional(d) && d.digits > 0
    ensures NumberText(d) == Written(d.negative, Whole(d), Fraction(d), "")
    ensures NoLeadingZero(Whole(d)) && NoTrailingZero(Fraction(d))
  {
    hide Pow10, NatOf, Digits, Trailing, Leading, Stripped, Magnitude, Positional;
    DigitsStart(Leading(d.digits, -d.exponent));
    if d.exponent < 0 { TrailingEnd(d.digits, -d.exponent); }
    hide Whole, Fraction;
    assert Tail(Fraction(d)) == if Fraction(d) == "" then "" else "." + Fraction(d);
    Regroup(Sign(d), Whole(d), Tail(Fraction(d)), "");
  }

  lemma Regroup(a: string, b: string, c: string, e: string)
    ensures a + (b + c) + e == a + b + c + e
    ensures a + (b + c + e) == a + b + c + e
    ensures a + "" == a
  {}

  lemma ScientificForm(d: Number)
    requires !Positional(d)
    ensures NumberText(d) ==
      Written(d.negative, Significant(d)[..1], Significant(d)[1..], ExponentText(Magnitude(d)))
    ensures NoLeadingZero(Significant(d)[..1]) && NoTrailingZero(Significant(d)[1..]) && Significant(d)[..1] != "0"
  {
    hide Pow10, NatOf, Digits, Trailing, Leading, Stripped, Magnitude, ExponentText;
    var g := Significant(d);
    DigitsStart(Stripped(d.digits).0);
    DigitsEnd(Stripped(d.digits).0);
    StrippedPositive(d.digits);
    assert g[1..] != "" ==> g[1..][|g[1..]| - 1] == g[|g| - 1];
    hide Significant;
    assert Tail(g[1..]) == if g[1..] == "" then "" else "." + g[1..];
    Regroup(Sign(d), g[..1], Tail(g[1..]), ExponentText(Magnitude(d)));
  }

  lemma StrippedPositive(n: nat)
    requires n > 0
    ensures Stripped(n).0 > 0
  {}

  // For a number of magnitude `m`, that is, from 10^m up to 10^(m + 1): an exponent is
  // written if and only if m is below -4 or at least 15. Either way no zero is written
  // that could be left out; with an exponent one digit stands in front of the point, and
  // it is not zero.
  lemma NumberForm(d: Number, m: int) returns (whole: string, fraction: string, power: string)
    requires d.digits > 0 && m - d.exponent >= 0
    requires Pow10(m - d.exponent) <= d.digits < Pow10(m - d.exponent + 1)
    ensures NumberText(d) == Written(d.negative, whole, fraction, power)
    ensures AllDigits(whole) && AllDigits(fraction) && NoLeadingZero(whole) && NoTrailingZero(fraction)
    ensures 'e' in NumberText(d) <==> m < -4 || m >= 15
    ensures if m < -4 || m >= 15 then |whole| == 1 && whole != "0" && IsPower(power, m) else power == ""
  {
    hide *;
    MagnitudeIs(d, m);
    Notations(d);
    if Positional(d) {
      PositionalForm(d);
      whole, fraction, power := Whole(d), Fraction(d), "";
      NoPower(d.negative, whole, fraction);
    } else {
      ScientificForm(d);
      whole, fraction, power := Significant(d)[..1], Significant(d)[1..], ExponentText(m);
      ExponentIsPower(m);
      SomePower(d.negative, whole, fraction, m);
      PartDigits(Significant(d));
    }
  }

  lemma Notations(d: Number)
    ensures d.digits > 0 ==> (Positional(d) <==> -4 <= Magnitude(d) < 15)
  {
    hide Magnitude;
  }

  lemma PartDigits(g: string)
    requires AllDigits(g) && g != ""
    ensures AllDigits(g[..1]) && AllDigits(g[1..])
  {}

  lemma ZeroForm(d: Number)
    requires d.digits == 0
    ensures NumberText(d) == if d.negative then "-0" else "0"
  {
    ZeroParts(d);
    hide *;
    PlainText(d);
    JoinNothing(Sign(d));
  }

  lemma PlainText(d: Number)
    requires Positional(d)
    ensures NumberText(d) == Sign(d) + (Whole(d) + Tail(Fraction(d)))
    ensures Tail("") == "" && Sign(d) == if d.negative then "-" else ""
  {
    hide Whole, Fraction;
  }

  lemma JoinNothing(a: string)
    ensures a + ("0" + "") == a + "0"
  {}

  lemma ZeroParts(d: Number)
    requires d.digits == 0
    ensures Positional(d) && Whole(d) == "0" && Fraction(d) == ""
  {
    assert [Digit(0)] == "0";
  }
}
