/**
  Numbers. An item's `valuedouble` is modelled by the exact decimal that its
  literal spells; rounding to the nearest double is not modelled.
  */
module Decimals {
  import opened Text

  // (-1)^negative * digits * 10^exponent
  datatype Decimal = Decimal(negative: bool, digits: nat, exponent: int)

  // One representation per number (and sign of zero): no positive exponent, no
  // trailing zero behind the decimal point.
  predicate Canonical(d: Decimal) {
    d.exponent <= 0 && (d.exponent < 0 ==> d.digits % 10 != 0)
  }

  type Number = d: Decimal | Canonical(d) witness Decimal(false, 0, 0)

  function Pow10(k: nat): (p: nat)
    ensures p > 0
  {
    if k == 0 then 1 else 10 * Pow10(k - 1)
  }

  function Normalize(negative: bool, digits: nat, exponent: int): (d: Number)
    ensures d.negative == negative
    ensures exponent <= 0 && (exponent < 0 ==> digits % 10 != 0) ==> d == Decimal(negative, digits, exponent)
    decreases if exponent < 0 then -exponent else exponent
  {
    if exponent > 0 then Normalize(negative, digits * 10, exponent - 1)
    else if exponent < 0 && digits % 10 == 0 then Normalize(negative, digits / 10, exponent + 1)
    else Decimal(negative, digits, exponent)
  }

  lemma NormalizeStep(negative: bool, digits: nat, exponent: int)
    ensures var d := Normalize(negative, digits, exponent);
      if exponent > 0 then d == Normalize(negative, digits * 10, exponent - 1)
      else if exponent < 0 && digits % 10 == 0 then d == Normalize(negative, digits / 10, exponent + 1)
      else d == Decimal(negative, digits, exponent)
  {}

  lemma PowerStep(k: nat)
    ensures Pow10(k + 1) == 10 * Pow10(k)
  {}

  lemma TimesTen(a: nat, b: nat)
    ensures (a * 10) * b == a * (10 * b)
  {}

  // The number is not changed: both sides are |d| times 10^k.
  lemma {:induction false} NormalizeKeeps(negative: bool, digits: nat, exponent: int, k: nat)
    requires k + exponent >= 0 && k + Normalize(negative, digits, exponent).exponent >= 0
    ensures var d := Normalize(negative, digits, exponent);
      d.digits * Pow10(k + d.exponent) == digits * Pow10(k + exponent)
    decreases if exponent < 0 then -exponent else exponent
  {
    hide Normalize, Pow10;
    NormalizeStep(negative, digits, exponent);
    if exponent > 0 {
      NormalizeKeeps(negative, digits * 10, exponent - 1, k);
      PowerStep(k + exponent - 1);
      TimesTen(digits, Pow10(k + exponent - 1));
    } else if exponent < 0 && digits % 10 == 0 {
      NormalizeKeeps(negative, digits / 10, exponent + 1, k);
      PowerStep(k + exponent);
      TimesTen(digits / 10, Pow10(k + exponent));
    }
  }

  // ---------- Digits ----------

  predicate IsSign(c: char) { c == '+' || c == '-' }

  predicate IsDigit(c: char) { '0' <= c <= '9' }

  function Digit(n: nat): (c: char)
    requires n < 10
    ensures IsDigit(c) && c as int - '0' as int == n
  {
    ('0' as int + n) as char
  }

  predicate AllDigits(s: string) { forall k | 0 <= k < |s| :: IsDigit(s[k]) }

  function NatOf(s: string): nat
    requires AllDigits(s)
  {
    if s == "" then 0
    else NatOf(s[..|s| - 1]) * 10 + (s[|s| - 1] as int - '0' as int)
  }

  function Digits(n: nat): (s: string)
    ensures |s| > 0 && AllDigits(s) && NatOf(s) == n
  {
    if n < 10 then
      assert [Digit(n)][..0] == "";
      [Digit(n)]
    else
      var s := Digits(n / 10) + [Digit(n % 10)];
      assert s[..|s| - 1] == Digits(n / 10);
      s
  }

  // `n` without its last `k` digits, and those `k` digits.
  function Leading(n: nat, k: nat): nat
    decreases k
  {
    if k == 0 then n else Leading(n / 10, k - 1)
  }

  function Trailing(n: nat, k: nat): (s: string)
    ensures |s| == k && AllDigits(s)
    decreases k
  {
    if k == 0 then "" else Trailing(n / 10, k - 1) + [Digit(n % 10)]
  }

  lemma {:induction false} SplitDigits(n: nat, k: nat)
    ensures Leading(n, k) * Pow10(k) + NatOf(Trailing(n, k)) == n
    decreases k
  {
    if k > 0 {
      SplitDigits(n / 10, k - 1);
      var t := Trailing(n, k);
      assert t[..|t| - 1] == Trailing(n / 10, k - 1);
      TenTimes(Leading(n, k), Pow10(k - 1));
    }
  }

  lemma TenTimes(a: nat, b: nat)
    ensures a * (10 * b) == 10 * (a * b)
  {}

  // `n` without its trailing zeros, and how many there are.
  function Stripped(n: nat): (r: (nat, nat))
    ensures n == 0 || r.0 % 10 != 0
    ensures r.0 * Pow10(r.1) == n
  {
    if n == 0 || n % 10 != 0 then (n, 0)
    else
      var (m, z) := Stripped(n / 10);
      TenTimes(m, Pow10(z));
      (m, z + 1)
  }

  // ---------- Printing: sprintf("%1.15g") ----------

  // The power of ten of the first significant digit.
  function Magnitude(d: Number): int { |Digits(d.digits)| - 1 + d.exponent }

  // "%1.15g" avoids an exponent for magnitudes from -4 up to its precision.
  predicate Positional(d: Number) { d.digits == 0 || -4 <= Magnitude(d) < 15 }

  function Sign(d: Number): string { if d.negative then "-" else "" }

  function Whole(d: Number): (s: string)
    ensures AllDigits(s) && |s| > 0
  {
    Digits(Leading(d.digits, -d.exponent))
  }

  function Fraction(d: Number): (s: string)
    ensures AllDigits(s) && |s| == -d.exponent
  {
    Trailing(d.digits, -d.exponent)
  }

  // A decimal point stands only before digits.
  function Tail(f: string): string { if f == "" then "" else "." + f }

  // At least two digits.
  function ExponentDigits(n: nat): (s: string)
    ensures |s| >= 2 && AllDigits(s) && NatOf(s) == n
  {
    if n < 10 then
      assert ['0', Digit(n)][..1] == ['0'] && ['0'][..0] == "";
      ['0', Digit(n)]
    else Digits(n)
  }

  function ExponentText(x: int): string {
    "e" + ((if x < 0 then "-" else "+") + ExponentDigits(if x < 0 then -x else x))
  }

  // The significant digits.
  function Significant(d: Number): (s: string)
    ensures |s| > 0 && AllDigits(s) && NatOf(s) == Stripped(d.digits).0
  {
    Digits(Stripped(d.digits).0)
  }

  function Scientific(d: Number): string {
    Significant(d)[..1] + Tail(Significant(d)[1..]) + ExponentText(Magnitude(d))
  }

  function NumberText(d: Number): (t: string)
    ensures |t| > 0
  {
    Sign(d) + if Positional(d) then Whole(d) + Tail(Fraction(d)) else Scientific(d)
  }

  predicate NumberChars(s: string) { forall k | 0 <= k < |s| :: IsNumberChar(s[k]) }

  lemma NumberTextChars(d: Number)
    ensures var t := NumberText(d); (IsDigit(t[0]) || t[0] == '-') && NumberChars(t)
  {
    hide NatOf, Digits, Trailing, Stripped, Positional, Magnitude, ExponentDigits, ExponentText, NumberChars;
    var t := NumberText(d);
    if Positional(d) {
      assert t[|Sign(d)|] == Whole(d)[0];
      TailChars(Fraction(d));
      DigitChars(Whole(d));
      JoinChars(Whole(d), Tail(Fraction(d)));
      JoinChars(Sign(d), Whole(d) + Tail(Fraction(d)));
    } else {
      var a, f, e := Significant(d)[..1], Significant(d)[1..], ExponentText(Magnitude(d));
      assert t[|Sign(d)|] == Significant(d)[0];
      TailChars(f);
      DigitChars(a);
      ExponentChars(Magnitude(d));
      JoinChars(a, Tail(f));
      JoinChars(a + Tail(f), e);
      JoinChars(Sign(d), a + Tail(f) + e);
    }
  }

  // Both a sign in front and two parts one behind the other stay in the alphabet.
  lemma JoinChars(a: string, b: string)
    requires (a == "" || a == "-" || NumberChars(a)) && NumberChars(b)
    ensures NumberChars(a + b)
  {}

  lemma DigitChars(a: string)
    requires AllDigits(a)
    ensures NumberChars(a)
  {}

  lemma TailChars(f: string)
    requires AllDigits(f)
    ensures NumberChars(Tail(f))
  {}

  lemma ExponentChars(x: int)
    ensures NumberChars(ExponentText(x))
  {
    hide NatOf, ExponentDigits;
  }

  // ---------- Parsing: strtod on the copied characters ----------

  predicate IsNumberChar(c: char) {
    IsDigit(c) || c == '+' || c == '-' || c == 'e' || c == 'E' || c == '.'
  }

  // First index from `i` on that is no digit.
  function DigitEnd(w: string, i: nat): (j: nat)
    requires i <= |w|
    ensures i <= j <= |w|
    ensures AllDigits(w[i..j])
    ensures j < |w| ==> !IsDigit(w[j])
    decreases |w| - i
  {
    if i < |w| && IsDigit(w[i]) then
      var j := DigitEnd(w, i + 1);
      assert w[i..j] == [w[i]] + w[i + 1..j];
      j
    else i
  }

  // Digits with an optional decimal point: where they end, the number that all
  // of them spell together, and how many there are before and behind the point.
  datatype Significand = Significand(end: nat, digits: nat, whole: nat, behind: nat)

  function Join(a: string, f: string): nat
    requires AllDigits(a) && AllDigits(f)
  {
    NatOf(a) * Pow10(|f|) + NatOf(f)
  }

  function ScanSignificand(w: string, i: nat): (r: Significand)
    requires i <= |w|
    ensures i <= r.end <= |w|
  {
    var a := DigitEnd(w, i);
    if a < |w| && w[a] == '.' then
      var b := DigitEnd(w, a + 1);
      Significand(b, Join(w[i..a], w[a + 1..b]), a - i, b - a - 1)
    else Significand(a, NatOf(w[i..a]), a - i, 0)
  }

  function Signed(negative: bool, n: nat): int {
    var x: int := n;
    if negative then -x else x
  }

  // The exponent part, which needs at least one digit to be consumed.
  function ScanExponent(w: string, i: nat): (r: (nat, int))
    requires i <= |w|
    ensures i <= r.0 <= |w|
  {
    if i < |w| && (w[i] == 'e' || w[i] == 'E') then
      var x := if i + 1 < |w| && IsSign(w[i + 1]) then i + 2 else i + 1;
      var y := DigitEnd(w, x);
      if y == x then (i, 0) else (y, Signed(w[x - 1] == '-', NatOf(w[x..y])))
    else (i, 0)
  }

  // How many characters strtod consumes (0: no conversion) and what they spell.
  function Strtod(w: string): (r: (nat, Number))
    ensures r.0 <= |w|
  {
    var s := ScanSignificand(w, if w != "" && IsSign(w[0]) then 1 else 0);
    if s.whole + s.behind == 0 then (0, Decimal(false, 0, 0))
    else
      var (end, e) := ScanExponent(w, s.end);
      (end, Normalize(w[0] == '-', s.digits, e - s.behind))
  }

  // ---------- Printing, then parsing ----------

  lemma {:induction false} DigitEndOf(w: string, i: nat, a: string)
    requires Has(w, i, a) && AllDigits(a)
    requires i + |a| < |w| ==> !IsDigit(w[i + |a|])
    ensures DigitEnd(w, i) == i + |a|
    decreases |a|
  {
    if a != "" {
      HasAt(w, i, a, 0);
      assert a == a[..1] + a[1..];
      HasSplit(w, i, a[..1], a[1..]);
      DigitEndOf(w, i + 1, a[1..]);
    }
  }

  // A significand of the digits `a` and `f` around the point, and what follows it.
  lemma ScanParts(t: string, s: nat, a: string, f: string, rest: string)
    requires AllDigits(a) && AllDigits(f) && Has(t, s, a)
    requires Has(t, s + |a|, Tail(f)) && Has(t, s + |a| + |Tail(f)|, rest)
    requires |t| == s + |a| + |Tail(f)| + |rest| && (rest != "" ==> !IsDigit(rest[0]) && rest[0] != '.')
    ensures ScanSignificand(t, s) == Significand(s + |a| + |Tail(f)|, Join(a, f), |a|, |f|)
  {
    hide *;
    TailOf(f);
    if rest != "" { HasAt(t, s + |a| + |Tail(f)|, rest, 0); }
    if f == "" {
      JoinNone(a);
      ScanWhole(t, s, a);
    } else {
      HasAt(t, s + |a|, "." + f, 0);
      HasSplit(t, s + |a|, ".", f);
      ScanBoth(t, s, a, f);
    }
  }

  lemma TailOf(f: string)
    ensures Tail(f) == if f == "" then "" else "." + f
  {}

  lemma ScanWhole(t: string, s: nat, a: string)
    requires AllDigits(a) && Has(t, s, a) && (s + |a| < |t| ==> !IsDigit(t[s + |a|]) && t[s + |a|] != '.')
    ensures ScanSignificand(t, s) == Significand(s + |a|, NatOf(a), |a|, 0)
  {
    hide NatOf, Join, DigitEnd, ScanSignificand, Has, AllDigits;
    DigitEndOf(t, s, a);
    HasSlice(t, s, a);
    ScanSignificandAt(t, s);
  }

  lemma ScanBoth(t: string, s: nat, a: string, f: string)
    requires AllDigits(a) && AllDigits(f) && Has(t, s, a) && s + |a| < |t| && t[s + |a|] == '.'
    requires Has(t, s + |a| + 1, f) && (s + |a| + 1 + |f| < |t| ==> !IsDigit(t[s + |a| + 1 + |f|]))
    ensures ScanSignificand(t, s) == Significand(s + |a| + 1 + |f|, Join(a, f), |a|, |f|)
  {
    hide NatOf, Join, DigitEnd, ScanSignificand, Has, AllDigits;
    DigitEndOf(t, s, a);
    DigitEndOf(t, s + |a| + 1, f);
    HasSlice(t, s, a);
    HasSlice(t, s + |a| + 1, f);
    ScanSignificandAt(t, s);
  }

  lemma ScanSignificandAt(t: string, s: nat)
    requires s <= |t|
    ensures var a := DigitEnd(t, s);
      if a < |t| && t[a] == '.' then
        var b := DigitEnd(t, a + 1);
        ScanSignificand(t, s) == Significand(b, Join(t[s..a], t[a + 1..b]), a - s, b - a - 1)
      else ScanSignificand(t, s) == Significand(a, NatOf(t[s..a]), a - s, 0)
  {
    hide NatOf, Join, DigitEnd, AllDigits;
  }

  lemma JoinNone(a: string)
    requires AllDigits(a)
    ensures Join(a, "") == NatOf(a)
  {}

  // The digits on both sides of the point together spell one number.
  lemma {:induction false} JoinSplits(s: string, k: nat)
    requires AllDigits(s) && k <= |s|
    ensures Join(s[..k], s[k..]) == NatOf(s)
    decreases |s| - k
  {
    if k == |s| {
      assert s[..k] == s && s[k..] == "";
    } else {
      var f, last := s[k..], |s| - 1;
      JoinSplits(s[..last], k);
      assert s[..last][..k] == s[..k] && s[..last][k..] == f[..|f| - 1] && f[|f| - 1] == s[last];
      TenTimes(NatOf(s[..k]), Pow10(|f| - 1));
    }
  }

  // An exponent: `e` or `E`, a sign or none, and digits.
  lemma ScanPower(t: string, i: nat, mark: string, sign: string, a: string)
    requires (mark == "e" || mark == "E") && (sign == "" || sign == "+" || sign == "-") && AllDigits(a) && a != ""
    requires Has(t, i, mark) && Has(t, i + 1, sign) && Has(t, i + 1 + |sign|, a) && |t| == i + 1 + |sign| + |a|
    ensures ScanExponent(t, i) == (|t|, Signed(sign == "-", NatOf(a)))
  {
    hide NatOf, DigitEnd, ScanExponent, Has;
    var x := i + 1 + |sign|;
    HasAt(t, i, mark, 0);
    HasAt(t, x, a, 0);
    if sign != "" { HasAt(t, i + 1, sign, 0); }
    DigitEndOf(t, x, a);
    HasSlice(t, x, a);
    ScanExponentAt(t, i, x);
  }

  lemma HasSlice(t: string, i: nat, a: string)
    requires Has(t, i, a)
    ensures t[i..i + |a|] == a
  {}

  lemma ScanExponentAt(t: string, i: nat, x: nat)
    requires i + 1 < |t| && (t[i] == 'e' || t[i] == 'E') && x == (if IsSign(t[i + 1]) then i + 2 else i + 1)
    requires x < |t| && DigitEnd(t, x) == |t|
    ensures ScanExponent(t, i) == (|t|, Signed(t[x - 1] == '-', NatOf(t[x..|t|])))
  {
    hide NatOf, DigitEnd;
  }

  lemma ScanExponentText(t: string, i: nat, x: int)
    requires Has(t, i, ExponentText(x)) && |t| == i + |ExponentText(x)|
    ensures ScanExponent(t, i) == (|t|, x)
  {
    hide NatOf, Has, ScanExponent, ExponentDigits;
    var sign, a := if x < 0 then "-" else "+", ExponentDigits(if x < 0 then -x else x);
    HasSplit(t, i, "e", sign + a);
    HasSplit(t, i + 1, sign, a);
    ScanPower(t, i, "e", sign, a);
  }

  lemma HasAll(t: string)
    ensures Has(t, 0, t)
  {}

  lemma TextParts(d: Number)
    ensures var t, s := NumberText(d), |Sign(d)|;
      && Has(t, 0, Sign(d))
      && (Positional(d) ==>
            && Has(t, s, Whole(d)) && Has(t, s + |Whole(d)|, Tail(Fraction(d)))
            && |t| == s + |Whole(d)| + |Tail(Fraction(d))|)
      && (!Positional(d) ==>
            var a, f, e := Significant(d)[..1], Significant(d)[1..], ExponentText(Magnitude(d));
            && Has(t, s, a) && Has(t, s + 1, Tail(f)) && Has(t, s + 1 + |Tail(f)|, e)
            && |t| == s + 1 + |Tail(f)| + |e|)
  {
    hide NatOf, Positional, Magnitude, ExponentText, Tail, Sign, Significant, Whole, Fraction, Has;
    var t, s := NumberText(d), |Sign(d)|;
    HasAll(t);
    if Positional(d) {
      HasSplit(t, 0, Sign(d), Whole(d) + Tail(Fraction(d)));
      HasSplit(t, s, Whole(d), Tail(Fraction(d)));
    } else {
      var a, f, e := Significant(d)[..1], Significant(d)[1..], ExponentText(Magnitude(d));
      HasSplit(t, 0, Sign(d), a + Tail(f) + e);
      HasSplit(t, s, a + Tail(f), e);
      HasSplit(t, s, a, Tail(f));
    }
  }

  // Both notations spell the decimal.
  lemma {:induction false} NormalizeZeros(negative: bool, m: nat, z: nat)
    ensures Normalize(negative, m, z) == Decimal(negative, m * Pow10(z), 0)
    decreases z
  {
    if z > 0 {
      NormalizeZeros(negative, m * 10, z - 1);
      TenTimes(m, Pow10(z - 1));
      assert m * 10 * Pow10(z - 1) == 10 * (m * Pow10(z - 1));
    }
  }

  lemma PositionalSpells(d: Number)
    ensures Normalize(d.negative, Join(Whole(d), Fraction(d)), -|Fraction(d)|) == d
  {
    SplitDigits(d.digits, -d.exponent);
  }

  lemma {:induction false} StrippedLength(n: nat)
    ensures |Digits(n)| == |Digits(Stripped(n).0)| + Stripped(n).1
  {
    if n != 0 && n % 10 == 0 { StrippedLength(n / 10); }
  }

  lemma ScientificSpells(d: Number)
    ensures Normalize(d.negative, Stripped(d.digits).0, Magnitude(d) - (|Significant(d)| - 1)) == d
  {
    var (m, z) := Stripped(d.digits);
    StrippedLength(d.digits);
    if d.exponent == 0 {
      NormalizeZeros(d.negative, m, z);
    } else {
      assert Stripped(d.digits) == (d.digits, 0);
    }
  }

  // The number's text read back by strtod: everything is consumed and the same
  // decimal comes out.
  lemma StrtodInvertsText(d: Number)
    ensures Strtod(NumberText(d)) == (|NumberText(d)|, d)
  {
    hide NatOf, Pow10, ScanSignificand, ScanExponent, Join, Normalize;
    hide Stripped, NumberText, Magnitude, Fraction, Whole, Significant;
    FirstOfText(d);
    if Positional(d) {
      ScanPositional(d);
      PositionalSpells(d);
    } else {
      ScanScientific(d);
      ScientificSpells(d);
    }
  }

  lemma ScanPositional(d: Number)
    requires Positional(d)
    ensures var t := NumberText(d);
      && ScanSignificand(t, |Sign(d)|) == Significand(|t|, Join(Whole(d), Fraction(d)), |Whole(d)|, |Fraction(d)|)
      && ScanExponent(t, |t|) == (|t|, 0)
  {
    hide NatOf, Pow10, Digits, ScanSignificand, Join, Magnitude, Whole, Fraction, Tail, NumberText, Positional;
    TextParts(d);
    assert Has(NumberText(d), |NumberText(d)|, "");
    ScanParts(NumberText(d), |Sign(d)|, Whole(d), Fraction(d), "");
  }

  lemma ScanScientific(d: Number)
    requires !Positional(d)
    ensures var t, g := NumberText(d), Significant(d);
      var p := |Sign(d)| + 1 + |Tail(g[1..])|;
      && ScanSignificand(t, |Sign(d)|) == Significand(p, Stripped(d.digits).0, 1, |g| - 1)
      && ScanExponent(t, p) == (|t|, Magnitude(d))
  {
    hide NatOf, Pow10, Digits, ScanSignificand, ScanExponent, Join;
    hide Stripped, Magnitude, Tail, NumberText, Positional, ExponentText, Significant;
    var t, g := NumberText(d), Significant(d);
    TextParts(d);
    FirstOfText(d);
    ScanParts(t, |Sign(d)|, g[..1], g[1..], ExponentText(Magnitude(d)));
    ScanExponentText(t, |Sign(d)| + 1 + |Tail(g[1..])|, Magnitude(d));
    JoinSplits(g, 1);
  }

  lemma FirstOfText(d: Number)
    ensures NumberText(d) != "" && (IsSign(NumberText(d)[0]) <==> d.negative)
    ensures NumberText(d)[0] == '-' <==> d.negative
    ensures ExponentText(Magnitude(d))[0] == 'e' && |Whole(d)| > 0
  {}

  // At most 15 significant digits and a magnitude within the range of doubles: such a
  // decimal survives being stored as a double, and "%1.15g" prints it as it is.
  predicate Precise(d: Number) { |Significant(d)| <= 15 && -307 <= Magnitude(d) <= 307 }

  // Every decimal of at most 15 significant digits and three exponent digits passes the
  // 25 character limit of print_number.
  lemma ShortFits(d: Number)
    requires |Significant(d)| <= 15 && -1000 < Magnitude(d) < 1000
    ensures |NumberText(d)| <= 22
  {
    hide NatOf, Digits, Trailing, Stripped, Leading, ExponentDigits;
    var k := -d.exponent;
    if Positional(d) {
      LeadingLength(d.digits, k);
      StrippedLength(d.digits);
      ZerosBehind(d);
      assert |NumberText(d)| == |Sign(d)| + |Whole(d)| + (if k == 0 then 0 else 1 + k);
    } else {
      var x := Magnitude(d);
      ThreeDigits(if x < 0 then -x else x);
      assert |NumberText(d)| <= |Sign(d)| + |Significant(d)| + 1 + |ExponentText(x)|;
    }
  }

  lemma ZerosBehind(d: Number)
    ensures d.exponent < 0 ==> Stripped(d.digits) == (d.digits, 0)
    ensures d.digits == 0 ==> d.exponent == 0 && |Digits(d.digits)| == 1
  {}

  lemma ThreeDigits(n: nat)
    requires n < 1000
    ensures |ExponentDigits(n)| <= 3
  {
    assert n >= 10 ==> |Digits(n)| == 1 + |Digits(n / 10)|;
    assert n >= 100 ==> |Digits(n / 10)| == 1 + |Digits(n / 100)|;
  }

  // Dropping `k` digits leaves the others, or a zero.
  lemma {:induction false} LeadingLength(n: nat, k: nat)
    ensures |Digits(Leading(n, k))| == if |Digits(n)| > k then |Digits(n)| - k else 1
    decreases k
  {
    if k > 0 { LeadingLength(n / 10, k - 1); }
  }
}
