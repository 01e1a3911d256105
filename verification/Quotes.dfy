/**
  What any literal denotes that the parser accepts, well-formed or not: which bytes stand
  between its quotes, and the pieces they are read as.
  */
module Quotes {
  import opened Text
  import opened Strings
  import opened Grammar
  import Utf

  // ---------- Loose pieces ----------

  predicate IsDigitOf(c: char) { c in HEX_LOWER || c in HEX_UPPER }

  predicate BadHex(t: string)
    requires |t| == 4
  {
    exists k | 0 <= k < 4 :: !IsDigitOf(t[k])
  }

  // A piece as the decoding pass takes it. Four bytes that spell no number read as 0; then
  // the pass may have lost step with the escapes, and a quote can be a plain byte, or the
  // second byte of an escape that begins in front of the closing quote.
  ghost predicate LooseAt(c: string, p: nat, x: Piece, end: nat)
    requires p < end < |c|
  {
    match x
    case Plain(b) => c[p] == b && b != '\\'
    case Short(e) => c[p] == '\\' && c[p + 1] == e && e in "\"\\/bfnrt"
    case Unit(u) =>
      && p + 6 <= end && c[p] == '\\' && c[p + 1] == 'u'
      && (SpellsHex(c[p + 2..p + 6], u) || (u == 0 && BadHex(c[p + 2..p + 6])))
  }

  // The pieces `xs` fill `c` from `p` to `end`.
  ghost predicate LooseFill(c: string, p: nat, xs: seq<Piece>, end: nat)
    requires end < |c|
    decreases |xs|
  {
    if p >= end then xs == []
    else xs != [] && LooseAt(c, p, xs[0], end) && LooseFill(c, p + Width(xs[0]), xs[1..], end)
  }

  lemma ShortLetters(e: char)
    ensures ShortMeaning(e).Some? <==> e in "\"\\/bfnrt"
  {
    ShortEscapes(e);
  }

  lemma HexIs(c: char)
    ensures IsHex(c) <==> IsDigitOf(c)
  {
    if IsHex(c) { DigitWorth(c, HexValue(c)); }
    if IsDigitOf(c) {
      var n :| 0 <= n < 16 && (HEX_LOWER[n] == c || HEX_UPPER[n] == c);
      DigitWorth(c, n);
    }
  }

  lemma BadDigits(c: string, p: nat)
    requires p + 4 <= |c|
    ensures BadHex(c[p..p + 4]) <==> !AllHex(c, p)
  {
    hide IsHex, IsDigitOf;
    var t := c[p..p + 4];
    assert t[0] == c[p] && t[1] == c[p + 1] && t[2] == c[p + 2] && t[3] == c[p + 3];
    HexIs(t[0]);
    HexIs(t[1]);
    HexIs(t[2]);
    HexIs(t[3]);
  }

  lemma UnitWorth(c: string, p: nat, u: Utf.Unit)
    requires p + 4 <= |c|
    ensures SpellsHex(c[p..p + 4], u) || (u == 0 && BadHex(c[p..p + 4])) <==> Hex4(c, p) == u
  {
    hide SpellsHex, Hex4, AllHex, BadHex;
    HexSpelled(c, p, u);
    HexSpelled(c, p, Hex4(c, p));
    BadDigits(c, p);
  }

  // The same in terms of what the decoding pass computes.
  lemma LooseIs(c: string, p: nat, x: Piece, end: nat)
    requires p < end < |c|
    ensures LooseAt(c, p, x, end) <==>
      match x
      case Plain(b) => c[p] == b && b != '\\'
      case Short(e) => c[p] == '\\' && c[p + 1] == e && ShortMeaning(e).Some?
      case Unit(u) => p + 6 <= end && c[p] == '\\' && c[p + 1] == 'u' && Hex4(c, p + 2) == u
  {
    hide SpellsHex, Hex4, ShortMeaning;
    if x.Short? { ShortLetters(x.letter); }
    if x.Unit? && p + 6 <= end { UnitWorth(c, p + 2, x.u); }
  }

  lemma {:induction false} LooseMeaning(c: string, p: nat, xs: seq<Piece>, end: nat)
    requires end < |c| && LooseFill(c, p, xs, end)
    ensures Decode(c, p, end) == Meaning(xs)
    decreases |xs|
  {
    hide LooseAt;
    if xs != [] {
      LooseIs(c, p, xs[0], end);
      var q := p + Width(xs[0]);
      LooseMeaning(c, q, xs[1..], end);
      if xs[0].Unit? && Utf.IsHigh(xs[0].u) {
        if |xs| >= 2 {
          assert xs[1..][0] == xs[1] && xs[1..][1..] == xs[2..];
          LooseIs(c, q, xs[1], end);
          LooseMeaning(c, q + Width(xs[1]), xs[2..], end);
        }
        hide Decode, Meaning;
        LooseHigh(c, p, xs, end);
      }
    }
  }

  lemma LooseHigh(c: string, p: nat, xs: seq<Piece>, end: nat)
    requires xs != [] && xs[0].Unit? && Utf.IsHigh(xs[0].u) && p + 6 <= end < |c|
    requires c[p] == '\\' && c[p + 1] == 'u' && Hex4(c, p + 2) == xs[0].u
    requires |xs| == 1 ==> end == p + 6
    requires |xs| >= 2 ==> p + 6 < end && LooseAt(c, p + 6, xs[1], end)
    requires |xs| >= 2 ==> Decode(c, p + 6 + Width(xs[1]), end) == Meaning(xs[2..])
    ensures Decode(c, p, end) == Meaning(xs)
  {
    hide LooseAt, Hex4;
    if |xs| >= 2 { LooseIs(c, p + 6, xs[1], end); }
  }

  // Every literal that is decoded is made of loose pieces.
  lemma {:induction false} LooseFound(c: string, p: nat, end: nat) returns (xs: seq<Piece>)
    requires end < |c| && Decode(c, p, end).Some?
    ensures LooseFill(c, p, xs, end)
    decreases end - p
  {
    hide LooseAt, Hex4;
    if p >= end {
      xs := [];
    } else if c[p] != '\\' {
      var rest := LooseFound(c, p + 1, end);
      xs := Put(c, p, Plain(c[p]), rest, end);
    } else if c[p + 1] != 'u' {
      var rest := LooseFound(c, p + 2, end);
      xs := Put(c, p, Short(c[p + 1]), rest, end);
    } else {
      var n := Utf16Literal(c, p, end).0;
      var rest := LooseFound(c, p + n, end);
      if n == 12 { rest := Put(c, p + 6, Unit(Hex4(c, p + 8)), rest, end); }
      xs := Put(c, p, Unit(Hex4(c, p + 2)), rest, end);
    }
  }

  lemma Put(c: string, p: nat, x: Piece, rest: seq<Piece>, end: nat) returns (xs: seq<Piece>)
    requires p < end < |c| && LooseFill(c, p + Width(x), rest, end)
    requires match x
      case Plain(b) => c[p] == b && b != '\\'
      case Short(e) => c[p] == '\\' && c[p + 1] == e && ShortMeaning(e).Some?
      case Unit(u) => p + 6 <= end && c[p] == '\\' && c[p + 1] == 'u' && Hex4(c, p + 2) == u
    ensures LooseFill(c, p, xs, end)
  {
    hide LooseAt, Hex4, ShortMeaning;
    xs := [x] + rest;
    LooseIs(c, p, x, end);
    assert xs[1..] == rest;
  }

  // ---------- Any literal ----------

  // A literal closes at its last byte: at the first quote behind an even number of
  // backslashes.
  lemma QuotedCloses(q: Quoted)
    ensures var t, end := q.source + "\"", |q.source|;
      QuotedOk(q) <==> '\0' !in q.source && Bare(t, 0, end) && forall e | 0 <= e < end :: !Bare(t, 0, e)
  {
    hide ClosesAt, Bare;
    ClosingQuote(q.source + "\"", 0, |q.source|);
  }

  // A literal denotes a text if and only if it is made of pieces that denote it; the text
  // ends at the first NUL.
  lemma QuotedDenotes(q: Quoted, s: CString)
    ensures QuotedValue(q) == Some(s) <==>
      exists xs :: LooseFill(q.source + "\"", 0, xs, |q.source|) && Meaning(xs).Some?
        && s == CutAtNul(Meaning(xs).value)
  {
    hide Decode, Meaning, LooseFill;
    var t, end := q.source + "\"", |q.source|;
    if QuotedValue(q) == Some(s) {
      var xs := LooseFound(t, 0, end);
      LooseMeaning(t, 0, xs, end);
    }
    forall xs | LooseFill(t, 0, xs, end) ensures Decode(t, 0, end) == Meaning(xs) {
      LooseMeaning(t, 0, xs, end);
    }
  }
}
