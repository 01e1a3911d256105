/**
  What the parser takes of a number, and what it is worth: the longest numeral that the
  copied characters begin with, and the decimal that this numeral spells.
  */
module Numerals {
  import opened Text
  import opened Decimals
  import opened Strings
  import opened Parsing
  import opened Grammar
  import Language

  // ---------- What a numeral is worth ----------

  // (-1)^minus * whole.fraction * 10^(power)
  function Exponent(n: Numeral): int {
    if n.power.None? then 0 - |n.fraction|
    else if n.power.value.sign == "-" then 0 - NatOf(n.power.value.digits) - |n.fraction|
    else NatOf(n.power.value.digits) - |n.fraction|
  }

  // The decimal `d` is the number that `n` spells: both scaled by the same power of ten
  // are the same integer.
  ghost predicate Spells(n: Numeral, d: Number) {
    var k: nat := Larger(-Exponent(n), 0) - d.exponent;
    && d.negative == n.minus
    && d.digits * Pow10(k + d.exponent) == NatOf(n.whole + n.fraction) * Pow10(k + Exponent(n))
  }

  function Larger(a: int, b: int): int { if a > b then a else b }

  lemma JoinIs(a: DigitString, f: DigitString)
    ensures Join(a, f) == NatOf(a + f)
  {
    JoinSplits(a + f, |a|);
    assert (a + f)[..|a|] == a && (a + f)[|a|..] == f;
  }

  lemma NumeralMeans(n: Numeral)
    ensures Spells(n, NumeralValue(n))
  {
    hide NatOf, Normalize, Pow10, Join;
    var d := NumeralValue(n);
    JoinIs(n.whole, n.fraction);
    assert PowerValue(n.power) - |n.fraction| == Exponent(n);
    NormalizeKeeps(n.minus, Join(n.whole, n.fraction), Exponent(n), Larger(-Exponent(n), 0) - d.exponent);
    NormalizeSign(n.minus, Join(n.whole, n.fraction), Exponent(n));
  }

  lemma NormalizeSign(negative: bool, digits: nat, exponent: int)
    ensures Normalize(negative, digits, exponent).negative == negative
  {}

  // ---------- A prefix of the characters ----------

  lemma {:induction false} DigitEndCut(w: string, n: nat, i: nat)
    requires i <= n <= |w|
    ensures DigitEnd(w[..n], i) == if DigitEnd(w, i) <= n then DigitEnd(w, i) else n
    decreases n - i
  {
    if i < n && IsDigit(w[i]) { DigitEndCut(w, n, i + 1); }
  }

  function Start(w: string): nat { if w != "" && IsSign(w[0]) then 1 else 0 }

  lemma StrtodIs(w: string)
    ensures Start(w) <= |w|
    ensures var s := ScanSignificand(w, Start(w));
      var x := ScanExponent(w, s.end);
      Strtod(w) ==
        if s.whole + s.behind == 0 then (0, Decimal(false, 0, 0))
        else (x.0, Normalize(w[0] == '-', s.digits, x.1 - s.behind))
  {
    hide ScanSignificand, ScanExponent, Normalize;
  }

  lemma SliceCut(w: string, n: nat, i: nat, j: nat)
    requires i <= j <= n <= |w|
    ensures w[..n][i..j] == w[i..j]
  {}

  // Where the significand ends when only `n` characters are there.
  lemma SignificandCut(w: string, n: nat, i: nat)
    requires i <= n <= |w|
    ensures var s, u := ScanSignificand(w, i), ScanSignificand(w[..n], i);
      && (s.end <= n ==> u == s)
      && (u.end < n ==> u == s)
      && u.end <= s.end && u.whole <= s.whole && (u.whole == s.whole ==> u.behind <= s.behind)
  {
    hide NatOf, Join, DigitEnd, AllDigits;
    var u := w[..n];
    DigitEndCut(w, n, i);
    var a := DigitEnd(w, i);
    if a < n {
      assert u[a] == w[a];
      DigitEndCut(w, n, a + 1);
      SliceCut(w, n, i, a);
      if DigitEnd(w, a + 1) <= n { SliceCut(w, n, a + 1, DigitEnd(w, a + 1)); }
    } else if a == n {
      SliceCut(w, n, i, a);
    }
  }

  // What is consumed is consumed alone in the same way.
  lemma StrtodPrefix(w: string)
    requires Strtod(w).0 > 0
    ensures Strtod(w[..Strtod(w).0]) == Strtod(w)
  {
    hide *;
    var n := Strtod(w).0;
    var u := w[..n];
    StrtodIs(w);
    StrtodIs(u);
    var i := Start(w);
    var s := ScanSignificand(w, i);
    ScanReach(w, i);
    assert Start(u) == i && u[0] == w[0] by { StartCut(w, n); }
    SignificandCut(w, n, i);
    ExponentCut(w, s.end);
  }

  lemma StartCut(w: string, n: nat)
    requires 0 < n <= |w|
    ensures Start(w[..n]) == Start(w) && w[..n][0] == w[0]
  {}

  lemma ScanReach(w: string, i: nat)
    requires i <= |w|
    ensures var s := ScanSignificand(w, i); s.end <= ScanExponent(w, s.end).0
    ensures i + ScanSignificand(w, i).whole + ScanSignificand(w, i).behind <= ScanSignificand(w, i).end
  {
    hide NatOf, Join;
  }

  lemma ExponentCut(w: string, i: nat)
    requires i <= |w|
    ensures i <= ScanExponent(w, i).0 <= |w|
    ensures ScanExponent(w[..ScanExponent(w, i).0], i) == ScanExponent(w, i)
  {
    hide NatOf, DigitEnd;
    var n := ScanExponent(w, i).0;
    if n > i {
      var x := if IsSign(w[i + 1]) then i + 2 else i + 1;
      DigitEndCut(w, n, x);
      SliceCut(w, n, x, n);
    }
  }

  // More characters never make strtod consume less.
  lemma StrtodMore(w: string, n: nat)
    requires 0 < n <= |w| && Strtod(w[..n]).0 == n
    ensures Strtod(w).0 >= n
  {
    hide *;
    var u := w[..n];
    StrtodIs(w);
    StrtodIs(u);
    StartCut(w, n);
    var i := Start(w);
    StartWithin(u);
    SignificandCut(w, n, i);
    ScanReach(w, i);
    if ScanSignificand(u, i).end < n { ExponentMore(w, n, ScanSignificand(u, i).end); }
  }

  lemma StartWithin(w: string)
    ensures Start(w) <= |w|
  {}

  lemma ExponentMore(w: string, n: nat, i: nat)
    requires i < n <= |w| && ScanExponent(w[..n], i).0 == n
    ensures ScanExponent(w, i).0 >= n
  {
    hide NatOf, DigitEnd;
    var u := w[..n];
    assert u[i] == w[i] && i + 1 < n && u[i + 1] == w[i + 1];
    var x := if IsSign(w[i + 1]) then i + 2 else i + 1;
    DigitEndCut(w, n, x);
  }

  // ---------- The longest numeral ----------

  // The text of the numeral `n` stands at `i`.
  ghost predicate NumeralAt(c: string, i: nat, n: Numeral) { NumeralOk(n) && Has(c, i, NumeralText(n)) }

  // The result of reading a number at `i`: a numeral stands there, no longer one does,
  // and the result is what it spells; or none stands there.
  ghost predicate LongestNumeral(c: string, i: nat, r: Parse<Number>) {
    && (r.Parsed? ==> exists n :: NumeralAt(c, i, n) && r.next == i + |NumeralText(n)| && Spells(n, r.value))
    && (forall n | NumeralAt(c, i, n) :: r.Parsed? && i + |NumeralText(n)| <= r.next)
  }

  lemma {:induction false} NumberEndReaches(c: string, i: nat, room: nat, t: string)
    requires Has(c, i, t) && NumberChars(t) && |t| <= room
    ensures i + |t| <= NumberEnd(c, i, room)
    decreases |t|
  {
    if t != "" {
      HasAt(c, i, t, 0);
      assert t == t[..1] + t[1..];
      HasSplit(c, i, t[..1], t[1..]);
      NumberEndReaches(c, i + 1, room - 1, t[1..]);
    }
  }

  lemma NumberIsLongest(c: string, i: nat)
    requires i < |c| && (c[i] == '-' || IsDigit(c[i]))
    ensures LongestNumeral(c, i, ParseNumber(c, i))
  {
    hide NumeralOk, NumeralText, Spells, NumeralValue, Strtod, NumberEnd, Has;
    var r := ParseNumber(c, i);
    if r.Parsed? {
      var n := NumeralTaken(c, i);
      assert NumeralAt(c, i, n);
    }
    forall n | NumeralAt(c, i, n) ensures r.Parsed? && i + |NumeralText(n)| <= r.next {
      NumeralReached(c, i, n);
    }
  }

  lemma NumeralTaken(c: string, i: nat) returns (n: Numeral)
    requires i < |c| && (c[i] == '-' || IsDigit(c[i])) && ParseNumber(c, i).Parsed?
    ensures NumeralOk(n) && Has(c, i, NumeralText(n))
    ensures ParseNumber(c, i).next == i + |NumeralText(n)| && Spells(n, ParseNumber(c, i).value)
  {
    hide NumeralOk, NumeralText, Spells, NumeralValue, Strtod;
    var w := c[i..NumberEnd(c, i, NUMBER_BUFFER)];
    var k := Strtod(w).0;
    StrtodPrefix(w);
    n := Language.NumeralFound(w[..k]);
    NumeralMeans(n);
    assert w[..k] == c[i..i + k];
  }

  lemma NumeralReached(c: string, i: nat, n: Numeral)
    requires i < |c| && NumeralAt(c, i, n)
    ensures ParseNumber(c, i).Parsed? && i + |NumeralText(n)| <= ParseNumber(c, i).next
  {
    hide NumeralOk, NumeralText, NumeralValue, Strtod, NumberEnd, Has;
    var t := NumeralText(n);
    var w := c[i..NumberEnd(c, i, NUMBER_BUFFER)];
    NumeralShort(n);
    NumeralChars(n);
    NumberEndReaches(c, i, NUMBER_BUFFER, t);
    HasSlice(c, i, t);
    assert w[..|t|] == t;
    NumeralRead(n);
    StrtodMore(w, |t|);
  }
}
