/**
  String literals: what print_string_ptr writes and what parse_string reads.
  */
module Strings {
  import opened Text
  import Utf

  const BACKSPACE := 8 as char
  const FORMFEED := 12 as char

  // A parse step: failure, or a result and the offset behind it.
  datatype Parse<+T> = Failed | Parsed(value: T, next: nat)

  // ---------- Printing ----------

  function HexDigit(n: nat): char
    requires n < 16
  {
    if n < 10 then ('0' as int + n) as char else ('a' as int + n - 10) as char
  }

  // The letter of a two-character escape sequence, if the byte has one.
  function ShortEscape(c: char): Option<char> {
    if c == '\"' || c == '\\' then Some(c)
    else if c == BACKSPACE then Some('b')
    else if c == FORMFEED then Some('f')
    else if c == '\n' then Some('n')
    else if c == '\r' then Some('r')
    else if c == '\t' then Some('t')
    else None
  }

  function EscapeChar(c: char): (t: string)
    ensures 1 <= |t| <= 6
  {
    var e := ShortEscape(c);
    if e.Some? then ['\\', e.value]
    else if c < ' ' then ['\\', 'u', '0', '0', HexDigit(c as nat / 16), HexDigit(c as nat % 16)]
    else [c]
  }

  function Escape(s: string): (t: string)
    ensures |s| <= |t|
  {
    if s == "" then "" else EscapeChar(s[0]) + Escape(s[1..])
  }

  function Quote(s: string): (t: string)
    ensures |t| == |Escape(s)| + 2
  {
    "\"" + Escape(s) + "\""
  }

  const HEX_LOWER := "0123456789abcdef"
  const HEX_UPPER := "0123456789ABCDEF"

  // How each byte is written: a short escape where there is one, four lower-case hex
  // digits for the other control bytes, and any other byte as it is.
  lemma ByteWritten(c: char)
    ensures EscapeChar(c) ==
      if c == '\"' then "\\\""
      else if c == '\\' then "\\\\"
      else if c as int == 8 then "\\b"
      else if c as int == 9 then "\\t"
      else if c as int == 10 then "\\n"
      else if c as int == 12 then "\\f"
      else if c as int == 13 then "\\r"
      else if c as int < 32 then "\\u00" + [HEX_LOWER[c as int / 16], HEX_LOWER[c as int % 16]]
      else [c]
  {
    if c as int < 32 {
      LowerDigit(c as int / 16);
      LowerDigit(c as int % 16);
    }
  }

  lemma LowerDigit(n: nat)
    requires n < 16
    ensures HexDigit(n) == HEX_LOWER[n]
  {}

  // Strings are written byte by byte, between quotes.
  lemma {:induction false} EscapeJoins(a: string, b: string)
    ensures Escape(a + b) == Escape(a) + Escape(b)
    ensures |a| == 1 ==> Escape(a) == EscapeChar(a[0])
  {
    hide EscapeChar, Escape;
    EscapeOf(a);
    EscapeOf(a + b);
    if a == "" {
      assert a + b == b;
      assert "" + Escape(b) == Escape(b);
    } else {
      EscapeJoins(a[1..], b);
      assert (a + b)[1..] == a[1..] + b;
      EscapeOf(a[1..]);
      Regroup(EscapeChar(a[0]), Escape(a[1..]), Escape(b));
    }
  }

  lemma EscapeOf(s: string)
    ensures Escape(s) == if s == "" then "" else EscapeChar(s[0]) + Escape(s[1..])
  {
    hide EscapeChar;
  }

  lemma Regroup(x: string, y: string, z: string)
    ensures x + (y + z) == (x + y) + z
    ensures x + "" == x
  {}

  // ---------- First pass of parse_string: the closing quote ----------

  datatype Scan = Open | Closed(end: nat, skipped: nat)

  function ScanString(c: string, q: nat): (r: Scan)
    ensures r.Closed? ==> q <= r.end < |c| && c[r.end] == '\"' && 2 * r.skipped <= r.end - q
    decreases |c| - q
  {
    if q >= |c| then Open
    else if c[q] == '\"' then Closed(q, 0)
    else if c[q] == '\\' then
      match ScanString(c, q + 2)
      case Open => Open
      case Closed(end, skipped) => Closed(end, skipped + 1)
    else ScanString(c, q + 1)
  }

  // How many backslashes stand one behind the other right before `e`, from `q` on.
  function Backslashes(c: string, q: nat, e: nat): nat
    requires q <= e <= |c|
    decreases e - q
  {
    if e == q || c[e - 1] != '\\' then 0 else 1 + Backslashes(c, q, e - 1)
  }

  predicate Bare(c: string, q: nat, e: nat)
    requires q <= e < |c|
  {
    c[e] == '\"' && Backslashes(c, q, e) % 2 == 0
  }

  lemma {:induction false} BackslashesBehind(c: string, q: nat, e: nat)
    requires q < e <= |c|
    ensures c[q] != '\\' ==> Backslashes(c, q, e) == Backslashes(c, q + 1, e)
    ensures c[q] == '\\' && q + 2 <= e ==> Backslashes(c, q, e) % 2 == Backslashes(c, q + 2, e) % 2
    ensures c[q] == '\\' && e == q + 1 ==> Backslashes(c, q, e) == 1
    decreases e - q
  {
    if q + 1 < e { BackslashesBehind(c, q, e - 1); }
  }

  // A string token closes at the first quote behind an even number of backslashes.
  lemma {:induction false} ClosingQuote(c: string, q: nat, end: nat)
    ensures ClosesAt(c, q, end) <==>
      q <= end < |c| && Bare(c, q, end) && forall e | q <= e < end :: !Bare(c, q, e)
    decreases |c| - q
  {
    if q < |c| && c[q] == '\"' {
      assert Bare(c, q, q);
    } else if q < |c| {
      var r := if c[q] == '\\' then q + 2 else q + 1;
      forall e | r <= e < |c| ensures Bare(c, q, e) <==> Bare(c, r, e) { BackslashesBehind(c, q, e); }
      assert !Bare(c, q, q);
      if r == q + 2 && q + 1 < |c| {
        BackslashesBehind(c, q, q + 1);
        assert !Bare(c, q, q + 1);
      }
      ClosingQuote(c, r, end);
    }
  }

  // ---------- Second pass: the bytes ----------

  predicate IsHex(c: char) { '0' <= c <= '9' || 'A' <= c <= 'F' || 'a' <= c <= 'f' }

  function HexValue(c: char): (n: nat)
    requires IsHex(c)
    ensures n < 16
  {
    if c <= '9' then c as nat - '0' as nat
    else if c <= 'F' then c as nat - 'A' as nat + 10
    else c as nat - 'a' as nat + 10
  }

  predicate AllHex(c: string, p: nat)
    requires p + 4 <= |c|
  {
    IsHex(c[p]) && IsHex(c[p + 1]) && IsHex(c[p + 2]) && IsHex(c[p + 3])
  }

  // Four hex digits; 0 when one of them is none.
  function Hex4(c: string, p: nat): (u: Utf.Unit)
    requires p + 4 <= |c|
  {
    if AllHex(c, p) then
      HexValue(c[p]) * 0x1000 + HexValue(c[p + 1]) * 0x100 + HexValue(c[p + 2]) * 0x10 + HexValue(c[p + 3])
    else 0
  }

  // ---------- Hex digits in letters ----------

  // `c` is the digit `n` in either case.
  predicate DigitFor(c: char, n: nat)
    requires n < 16
  {
    c == HEX_LOWER[n] || c == HEX_UPPER[n]
  }

  // `t` spells `u` in four hex digits, each in either case.
  predicate SpellsHex(t: string, u: Utf.Unit) {
    && |t| == 4 && DigitFor(t[0], u / 0x1000) && DigitFor(t[1], u / 0x100 % 0x10)
    && DigitFor(t[2], u / 0x10 % 0x10) && DigitFor(t[3], u % 0x10)
  }

  function HexText(u: Utf.Unit, upper: bool): (t: string)
    ensures |t| == 4 && SpellsHex(t, u)
  {
    var d := if upper then HEX_UPPER else HEX_LOWER;
    [d[u / 0x1000], d[u / 0x100 % 0x10], d[u / 0x10 % 0x10], d[u % 0x10]]
  }

  lemma DigitWorth(c: char, n: nat)
    requires n < 16
    ensures DigitFor(c, n) <==> IsHex(c) && HexValue(c) == n
  {
    assert |HEX_LOWER| == |HEX_UPPER| == 16;
    assert n < 10 ==> HEX_LOWER[n] as int == HEX_UPPER[n] as int == '0' as int + n;
    assert n >= 10 ==> HEX_LOWER[n] as int == 'a' as int + n - 10 && HEX_UPPER[n] as int == 'A' as int + n - 10;
  }

  lemma FourWorth(a: nat, b: nat, x: nat, y: nat, u: Utf.Unit)
    requires a < 16 && b < 16 && x < 16 && y < 16
    ensures u == a * 0x1000 + b * 0x100 + x * 0x10 + y <==>
      u / 0x1000 == a && u / 0x100 % 0x10 == b && u / 0x10 % 0x10 == x && u % 0x10 == y
  {
    var v, w := u / 0x10, u / 0x100;
    Sixteens(u, a * 0x100 + b * 0x10 + x, y);
    Sixteens(v, a * 0x10 + b, x);
    Sixteens(w, a, b);
    assert v / 0x10 == w && w / 0x10 == u / 0x1000;
  }

  lemma Sixteens(u: nat, h: nat, y: nat)
    requires y < 16
    ensures u == h * 0x10 + y <==> u / 0x10 == h && u % 0x10 == y
  {}

  // Four hex digits have the value they spell; with any other byte among them the value
  // is 0.
  lemma HexSpelled(c: string, p: nat, u: Utf.Unit)
    requires p + 4 <= |c|
    ensures SpellsHex(c[p..p + 4], u) <==> AllHex(c, p) && Hex4(c, p) == u
    ensures !AllHex(c, p) ==> Hex4(c, p) == 0
  {
    hide HexValue, IsHex, DigitFor;
    DigitWorth(c[p], u / 0x1000);
    DigitWorth(c[p + 1], u / 0x100 % 0x10);
    DigitWorth(c[p + 2], u / 0x10 % 0x10);
    DigitWorth(c[p + 3], u % 0x10);
    if AllHex(c, p) { FourWorth(HexValue(c[p]), HexValue(c[p + 1]), HexValue(c[p + 2]), HexValue(c[p + 3]), u); }
  }

  lemma HexRead(u: Utf.Unit, upper: bool)
    ensures Hex4(HexText(u, upper), 0) == u
  {
    hide HexText, Hex4, SpellsHex;
    var t := HexText(u, upper);
    assert t[0..4] == t;
    HexSpelled(t, 0, u);
  }

  // What an escape `\uXXXX`, or a pair of them, at `p` yields: how long it is
  // (0 for an invalid one) and its UTF-8 bytes.
  function Utf16Literal(c: string, p: nat, end: nat): (r: (nat, string))
    requires p <= end <= |c|
    ensures p + r.0 <= end
    ensures r.0 == 0 || (r.0 == 6 && |r.1| <= 3) || (r.0 == 12 && |r.1| <= 4)
  {
    if end - p < 6 then (0, "")
    else
      var first := Hex4(c, p + 2);
      if Utf.IsLow(first) then (0, "")
      else if Utf.IsHigh(first) then
        if end - p < 12 || c[p + 6] != '\\' || c[p + 7] != 'u' then (0, "")
        else
          var second := Hex4(c, p + 8);
          if !Utf.IsLow(second) then (0, "") else (12, Utf.Encode(Utf.Combine(first, second)))
      else (6, Utf.Encode(first))
  }

  // The byte a two-character escape sequence stands for.
  function ShortMeaning(e: char): Option<char> {
    if e == 'b' then Some(BACKSPACE)
    else if e == 'f' then Some(FORMFEED)
    else if e == 'n' then Some('\n')
    else if e == 'r' then Some('\r')
    else if e == 't' then Some('\t')
    else if e == '\"' || e == '\\' || e == '/' then Some(e)
    else None
  }

  // The letters behind a backslash and the bytes they stand for; every other letter but
  // `u` is an error.
  lemma ShortEscapes(e: char)
    ensures ShortMeaning(e) ==
      if e == 'b' then Some(8 as char)
      else if e == 't' then Some(9 as char)
      else if e == 'n' then Some(10 as char)
      else if e == 'f' then Some(12 as char)
      else if e == 'r' then Some(13 as char)
      else if e in "\"\\/" then Some(e)
      else None
  {}

  function Prepend(a: string, r: Option<string>): Option<string> {
    if r.Some? then Some(a + r.value) else None
  }

  function Decode(c: string, p: nat, end: nat): Option<string>
    requires end < |c|
    decreases end - p
  {
    if p >= end then Some("")
    else if c[p] != '\\' then Prepend([c[p]], Decode(c, p + 1, end))
    else if c[p + 1] == 'u' then
      var (n, bytes) := Utf16Literal(c, p, end);
      if n == 0 then None else Prepend(bytes, Decode(c, p + n, end))
    else
      var m := ShortMeaning(c[p + 1]);
      if m.None? then None else Prepend([m.value], Decode(c, p + 2, end))
  }

  function ParseString(c: string, i: nat): (r: Parse<CString>)
    requires i < |c|
    ensures r.Parsed? ==> i + 2 <= r.next <= |c| && c[i] == '\"' && c[r.next - 1] == '\"'
  {
    if c[i] != '\"' then Failed
    else
      match ScanString(c, i + 1)
      case Open => Failed
      case Closed(end, _) =>
        match Decode(c, i + 1, end)
        case None => Failed
        case Some(s) => Parsed(CutAtNul(s), end + 1)
  }

  // ---------- Printing, then parsing ----------

  lemma EscapeCharRead(c: string, p: nat, end: nat, b: char)
    requires Has(c, p, EscapeChar(b)) && p + |EscapeChar(b)| <= end < |c|
    ensures var q := p + |EscapeChar(b)|;
      && Decode(c, p, end) == Prepend([b], Decode(c, q, end))
      && (ClosesAt(c, q, end) ==> ClosesAt(c, p, end))
  {
    var t := EscapeChar(b);
    forall k | 0 <= k < |t| ensures c[p + k] == t[k] { HasAt(c, p, t, k); }
    assert c[p] == t[0];
    if ShortEscape(b).Some? {
      assert c[p + 1] == t[1];
    } else if b < ' ' {
      ControlRead(c, p, end, b);
    }
  }

  lemma ControlRead(c: string, p: nat, end: nat, b: char)
    requires b < ' ' && ShortEscape(b).None? && p + 6 <= end < |c|
    requires forall k | 0 <= k < 6 :: c[p + k] == EscapeChar(b)[k]
    ensures Decode(c, p, end) == Prepend([b], Decode(c, p + 6, end))
    ensures ClosesAt(c, p + 6, end) ==> ClosesAt(c, p, end)
  {
    var t := EscapeChar(b);
    assert c[p] == t[0] && c[p + 1] == t[1] && c[p + 2] == t[2];
    assert c[p + 3] == t[3] && c[p + 4] == t[4] && c[p + 5] == t[5];
    assert Hex4(c, p + 2) == b as nat;
    assert Utf16Literal(c, p, end) == (6, [b]);
    PlainScan(c, p + 2, p + 6);
  }

  lemma {:induction false} PlainScan(c: string, q: nat, r: nat)
    requires q <= r <= |c|
    requires forall k | q <= k < r :: c[k] != '\"' && c[k] != '\\'
    ensures ScanString(c, q) == ScanString(c, r)
    decreases r - q
  {
    if q < r { PlainScan(c, q + 1, r); }
  }

  // Escaped text in front of a quote: the first pass stops at that quote and the
  // second pass gives the string back.
  lemma {:induction false} EscapeRead(c: string, p: nat, s: string, end: nat)
    requires Has(c, p, Escape(s)) && p + |Escape(s)| == end < |c| && c[end] == '\"'
    ensures ClosesAt(c, p, end) && Decode(c, p, end) == Some(s)
    decreases |s|
  {
    hide EscapeChar, Utf16Literal, ShortMeaning, Has;
    if s != "" {
      var b, rest := s[0], s[1..];
      assert s == [b] + rest;
      HasSplit(c, p, EscapeChar(b), Escape(rest));
      EscapeRead(c, p + |EscapeChar(b)|, rest, end);
      EscapeCharRead(c, p, end, b);
    }
  }

  // A printed string is parsed back to itself, wherever it stands.
  lemma QuoteRead(c: string, i: nat, s: CString)
    requires Has(c, i, Quote(s))
    ensures ParseString(c, i) == Parsed(s, i + |Quote(s)|)
  {
    var t := Quote(s);
    assert t == "\"" + (Escape(s) + "\"");
    HasAt(c, i, t, 0);
    HasAt(c, i, t, |t| - 1);
    HasSplit(c, i, "\"", Escape(s) + "\"");
    HasSplit(c, i + 1, Escape(s), "\"");
    EscapeRead(c, i + 1, s, i + 1 + |Escape(s)|);
  }

  lemma {:induction false} EscapeNulFree(s: string)
    ensures '\0' !in Escape(s)
  {
    if s != "" { EscapeNulFree(s[1..]); }
  }

  // ---------- The allocation of parse_string ----------

  // One step of the decoding pass: the bytes it consumes (0 when it fails) and writes.
  function DecodeStep(c: string, p: nat, end: nat): (nat, string)
    requires p < end < |c|
  {
    if c[p] != '\\' then (1, [c[p]])
    else if c[p + 1] == 'u' then Utf16Literal(c, p, end)
    else if ShortMeaning(c[p + 1]).Some? then (2, [ShortMeaning(c[p + 1]).value])
    else (0, "")
  }

  lemma DecodeBySteps(c: string, p: nat, end: nat)
    requires p < end < |c|
    ensures var (n, bytes) := DecodeStep(c, p, end);
      Decode(c, p, end) == if n == 0 then None else Prepend(bytes, Decode(c, p + n, end))
  {}

  // With `o` bytes written there is room for the rest among `total`. `q` is where the
  // first pass stands: at `p`, or one byte ahead of it when an escape with bad hex
  // digits has swallowed the first byte of a pair. The decoding pass can overshoot the
  // closing quote, by one byte at most.
  ghost predicate Fits(c: string, p: nat, q: nat, end: nat, o: nat, total: int) {
    if p > end then p == end + 1 && o <= total
    else p <= q <= p + 1 && ClosesAt(c, q, end) && o + end - p - ScanString(c, q).skipped <= total
  }

  // However the decoding pass steps, its output stays within what the first pass left
  // room for.
  lemma StepFits(c: string, p: nat, q: nat, end: nat, o: nat, total: int) returns (r: nat)
    requires Fits(c, p, q, end, o, total) && p < end
    ensures var (n, bytes) := DecodeStep(c, p, end);
      n > 0 ==> o + |bytes| <= total && Fits(c, p + n, r, end, o + |bytes|, total)
  {
    var (n, bytes) := DecodeStep(c, p, end);
    r := p + n;
    if c[p] == '\\' {
      if c[p + 1] == 'u' {
        if n > 0 { r := Advance(c, q, p + n, end); }
      } else if q == p + 1 && q < end && c[q] == '\\' {
        r := p + 3;
      }
    }
  }

  lemma StartFits(c: string, q: nat)
    requires ScanString(c, q).Closed?
    ensures var Closed(end, skipped) := ScanString(c, q); Fits(c, q, q, end, 0, end - q - skipped)
  {}

  lemma {:induction false} DecodeFits(c: string, p: nat, q: nat, end: nat, o: nat, total: int)
    requires Fits(c, p, q, end, o, total) && end < |c|
    ensures Decode(c, p, end).Some? ==> o + |Decode(c, p, end).value| <= total
    decreases end - p
  {
    hide DecodeStep;
    if p < end {
      var (n, bytes) := DecodeStep(c, p, end);
      var r := StepFits(c, p, q, end, o, total);
      DecodeBySteps(c, p, end);
      if n > 0 { DecodeFits(c, p + n, r, end, o + |bytes|, total); }
    }
  }

  // The decoded bytes of a literal never outnumber its bytes less the skipped ones.
  lemma OutputFits(c: string, q: nat)
    requires q < |c| && ScanString(c, q).Closed?
    ensures var Closed(end, skipped) := ScanString(c, q);
      Decode(c, q, end).Some? ==> |Decode(c, q, end).value| <= end - q - skipped
  {
    var Closed(end, skipped) := ScanString(c, q);
    DecodeFits(c, q, q, end, 0, end - q - skipped);
  }

  ghost predicate ClosesAt(c: string, q: nat, end: nat) {
    q <= end < |c| && ScanString(c, q).Closed? && ScanString(c, q).end == end
  }

  // Where the first pass stands once it has reached `t`: it counts at most one
  // skipped byte for every two bytes it passes.
  lemma {:induction false} Advance(c: string, q: nat, t: nat, end: nat) returns (r: nat)
    requires q <= t <= end && ClosesAt(c, q, end)
    ensures t <= r <= t + 1 && ClosesAt(c, r, end)
    ensures 2 * ScanString(c, q).skipped <= 2 * ScanString(c, r).skipped + r - q
    decreases t - q
  {
    if q >= t {
      r := q;
    } else if c[q] == '\\' {
      if q + 2 > t { r := q + 2; } else { r := Advance(c, q + 2, t, end); }
    } else {
      r := Advance(c, q + 1, t, end);
    }
  }

  // ---------- Well-formed literals (section 7 of RFC 8259) ----------

  // What a literal is made of: plain bytes, two-character escapes, UTF-16 code units.
  datatype Piece = Plain(c: char) | Short(letter: char) | Unit(u: Utf.Unit)

  ghost predicate PieceAt(c: string, p: nat, x: Piece) {
    match x
    case Plain(b) => p < |c| && c[p] == b && b != '\"' && b != '\\'
    case Short(e) => p + 2 <= |c| && c[p] == '\\' && c[p + 1] == e && ShortMeaning(e).Some?
    case Unit(u) => p + 6 <= |c| && c[p] == '\\' && c[p + 1] == 'u' && SpellsHex(c[p + 2..p + 6], u)
  }

  // The same in terms of what the decoding pass computes.
  lemma PieceIs(c: string, p: nat, x: Piece)
    ensures PieceAt(c, p, x) <==>
      match x
      case Plain(b) => p < |c| && c[p] == b && b != '\"' && b != '\\'
      case Short(e) => p + 2 <= |c| && c[p] == '\\' && c[p + 1] == e && ShortMeaning(e).Some?
      case Unit(u) => p + 6 <= |c| && c[p] == '\\' && c[p + 1] == 'u' && AllHex(c, p + 2) && Hex4(c, p + 2) == u
  {
    hide SpellsHex, AllHex, Hex4, ShortMeaning;
    if x.Unit? && p + 6 <= |c| { HexSpelled(c, p + 2, x.u); }
  }

  function Width(x: Piece): nat {
    match x case Plain(_) => 1 case Short(_) => 2 case Unit(_) => 6
  }

  // The pieces `xs` fill `c` exactly from `p` to `end`.
  ghost predicate PiecesAt(c: string, p: nat, xs: seq<Piece>, end: nat)
    decreases |xs|
  {
    if xs == [] then p == end
    else PieceAt(c, p, xs[0]) && PiecesAt(c, p + Width(xs[0]), xs[1..], end)
  }

  // The text a literal denotes: code units combine as in UTF-16 and are written as
  // UTF-8; a surrogate without its partner makes the whole literal invalid.
  function Meaning(xs: seq<Piece>): Option<string>
    decreases |xs|
  {
    if xs == [] then Some("")
    else
      match xs[0]
      case Plain(b) => Prepend([b], Meaning(xs[1..]))
      case Short(e) => if ShortMeaning(e).None? then None else Prepend([ShortMeaning(e).value], Meaning(xs[1..]))
      case Unit(u) =>
        if Utf.IsLow(u) then None
        else if Utf.IsHigh(u) then
          if |xs| >= 2 && xs[1].Unit? && Utf.IsLow(xs[1].u) then
            Prepend(Utf.Encode(Utf.Combine(u, xs[1].u)), Meaning(xs[2..]))
          else None
        else Prepend(Utf.Encode(u), Meaning(xs[1..]))
  }

  // Every well-formed literal is decoded to what it denotes, and fails exactly when
  // it denotes nothing.
  lemma {:induction false} DecodeMeaning(c: string, p: nat, xs: seq<Piece>, end: nat)
    requires end < |c| && PiecesAt(c, p, xs, end)
    ensures p <= end && Decode(c, p, end) == Meaning(xs)
    decreases |xs|
  {
    hide PieceAt;
    if xs != [] {
      PieceIs(c, p, xs[0]);
      var q := p + Width(xs[0]);
      DecodeMeaning(c, q, xs[1..], end);
      if xs[0].Unit? && Utf.IsHigh(xs[0].u) {
        if |xs| >= 2 {
          assert xs[1..][0] == xs[1] && xs[1..][1..] == xs[2..];
          DecodeMeaning(c, q + Width(xs[1]), xs[2..], end);
        }
        hide Decode, Meaning;
        HighMeaning(c, p, xs, end);
      }
    }
  }

  lemma HighMeaning(c: string, p: nat, xs: seq<Piece>, end: nat)
    requires xs != [] && xs[0].Unit? && Utf.IsHigh(xs[0].u) && PieceAt(c, p, xs[0]) && p + 6 <= end < |c|
    requires |xs| == 1 ==> end == p + 6
    requires |xs| >= 2 ==> PieceAt(c, p + 6, xs[1]) && p + 6 + Width(xs[1]) <= end
    requires |xs| >= 2 ==> Decode(c, p + 6 + Width(xs[1]), end) == Meaning(xs[2..])
    ensures Decode(c, p, end) == Meaning(xs)
  {
    hide PieceAt;
    PieceIs(c, p, xs[0]);
    if |xs| >= 2 { PieceIs(c, p + 6, xs[1]); }
  }

  lemma {:induction false} ScanPieces(c: string, p: nat, xs: seq<Piece>, end: nat)
    requires end < |c| && c[end] == '\"' && PiecesAt(c, p, xs, end)
    ensures ClosesAt(c, p, end)
    decreases |xs|
  {
    hide PieceAt;
    if xs != [] {
      PieceIs(c, p, xs[0]);
      ScanPieces(c, p + Width(xs[0]), xs[1..], end);
      if xs[0].Unit? { PlainScan(c, p + 2, p + 6); }
    }
  }

  lemma ParseLiteral(c: string, i: nat, xs: seq<Piece>, end: nat)
    requires i < end < |c| && c[i] == '\"' && c[end] == '\"' && PiecesAt(c, i + 1, xs, end)
    ensures ParseString(c, i) ==
      if Meaning(xs).Some? then Parsed(CutAtNul(Meaning(xs).value), end + 1) else Failed
  {
    ScanPieces(c, i + 1, xs, end);
    DecodeMeaning(c, i + 1, xs, end);
  }

  function Spelled(us: seq<Utf.Unit>): (xs: seq<Piece>)
    ensures |xs| == |us| && forall k | 0 <= k < |us| :: xs[k] == Unit(us[k])
  {
    seq(|us|, k requires 0 <= k < |us| => Unit(us[k]))
  }

  // The text `s` spells the units `us` as escapes, with hex digits in either case.
  ghost predicate SpellsUnits(s: string, us: seq<Utf.Unit>)
    decreases |us|
  {
    if us == [] then s == ""
    else |s| >= 6 && s[..2] == "\\u" && SpellsHex(s[2..6], us[0]) && SpellsUnits(s[6..], us[1..])
  }

  function UnitsText(us: seq<Utf.Unit>, upper: bool): (s: string)
    ensures SpellsUnits(s, us)
    decreases |us|
  {
    if us == [] then ""
    else
      var t, rest := HexText(us[0], upper), UnitsText(us[1..], upper);
      var s := "\\u" + t + rest;
      assert s[..2] == "\\u" && s[2..6] == t && s[6..] == rest;
      s
  }

  lemma {:induction false} UnitsArePieces(c: string, p: nat, s: string, us: seq<Utf.Unit>)
    requires Has(c, p, s) && SpellsUnits(s, us)
    ensures PiecesAt(c, p, Spelled(us), p + |s|)
    decreases |us|
  {
    hide SpellsHex, Spelled;
    if us != [] {
      assert s == s[..2] + (s[2..6] + s[6..]);
      HasSplit(c, p, s[..2], s[2..6] + s[6..]);
      HasSplit(c, p + 2, s[2..6], s[6..]);
      HasAt(c, p, s[..2], 0);
      HasAt(c, p, s[..2], 1);
      UnitsArePieces(c, p + 6, s[6..], us[1..]);
      assert Spelled(us)[1..] == Spelled(us[1..]);
      assert PieceAt(c, p, Unit(us[0]));
    }
  }

  // Scalar values spelled as `\uXXXX` escapes and surrogate pairs come out as their UTF-8
  // bytes, which decode to the same scalar values.
  lemma ScalarsRead(c: string, i: nat, s: string, ps: seq<Utf.Scalar>)
    requires SpellsUnits(s, Utf.UnitsAll(ps)) && Has(c, i, "\"" + s + "\"")
    ensures i < |c| && ParseString(c, i) == Parsed(CutAtNul(Utf.EncodeAll(ps)), i + |s| + 2)
    ensures Utf.DecodeAll(Utf.EncodeAll(ps)) == Some(ps)
  {
    hide *;
    var us := Utf.UnitsAll(ps);
    BetweenQuotes(c, i, s);
    UnitsArePieces(c, i + 1, s, us);
    ParseLiteral(c, i, Spelled(us), i + 1 + |s|);
    UnitsMeaning(us);
    Utf.Utf16InvertsUnits(ps);
    Utf.DecodeInvertsEncode(ps);
  }

  lemma BetweenQuotes(c: string, i: nat, s: string)
    requires Has(c, i, "\"" + s + "\"")
    ensures i + 1 + |s| < |c| && c[i] == '\"' && c[i + 1 + |s|] == '\"' && Has(c, i + 1, s)
  {
    HasSplit(c, i, "\"" + s, "\"");
    HasSplit(c, i, "\"", s);
    HasAt(c, i, "\"", 0);
    HasAt(c, i + 1 + |s|, "\"", 0);
  }

  // A literal of nothing but code units is transcoded from UTF-16 to UTF-8.
  lemma {:induction false} UnitsMeaning(us: seq<Utf.Unit>)
    ensures Meaning(Spelled(us)) == match Utf.Utf16(us) { case None => None case Some(ps) => Some(Utf.EncodeAll(ps)) }
    decreases |us|
  {
    hide Spelled;
    if us != [] {
      UnitsMeaning(us[1..]);
      assert Spelled(us)[1..] == Spelled(us[1..]);
      if |us| >= 2 {
        UnitsMeaning(us[2..]);
        assert Spelled(us)[2..] == Spelled(us[2..]);
      }
    }
  }

  // ---------- A literal means the same wherever it stands ----------

  lemma {:induction false} ScanMoves(c: string, q: nat, d: string, r: nat, end: nat)
    requires ClosesAt(c, q, end) && r + end - q < |d|
    requires forall k | q <= k <= end :: d[r + k - q] == c[k]
    ensures ClosesAt(d, r, r + end - q)
    decreases end - q
  {
    if q < end {
      var n := if c[q] == '\\' then 2 else 1;
      forall k | q + n <= k <= end ensures d[r + n + k - (q + n)] == c[k] { assert d[r + k - q] == c[k]; }
      assert d[r] == c[q];
      ScanMoves(c, q + n, d, r + n, end);
    } else {
      assert d[r] == c[q];
    }
  }

  lemma {:induction false} DecodeMoves(c: string, p: nat, end: nat, d: string, r: nat)
    requires p <= end < |c| && r + end - p < |d|
    requires forall k | p <= k <= end :: d[r + k - p] == c[k]
    ensures Decode(d, r, r + end - p) == Decode(c, p, end)
    decreases end - p
  {
    hide Utf16Literal, ShortMeaning, Prepend;
    if p < end {
      assert d[r] == c[p] && d[r + 1] == c[p + 1];
      var n := if c[p] != '\\' then 1 else if c[p + 1] == 'u' then Utf16Literal(c, p, end).0 else 2;
      if c[p] == '\\' && c[p + 1] == 'u' { LiteralMoves(c, p, end, d, r); }
      if p + n <= end {
        forall k | p + n <= k <= end ensures d[r + n + k - (p + n)] == c[k] { assert d[r + k - p] == c[k]; }
        if n > 0 { DecodeMoves(c, p + n, end, d, r + n); }
      }
    }
  }

  lemma LiteralMoves(c: string, p: nat, end: nat, d: string, r: nat)
    requires p <= end < |c| && r + end - p < |d|
    requires forall k | p <= k <= end :: d[r + k - p] == c[k]
    ensures Utf16Literal(d, r, r + end - p) == Utf16Literal(c, p, end)
  {
    if end - p >= 6 { Hex4Moves(c, p + 2, d, r + 2); }
    if end - p >= 12 {
      assert d[r + 6] == c[p + 6] && d[r + 7] == c[p + 7];
      Hex4Moves(c, p + 8, d, r + 8);
    }
  }

  lemma Hex4Moves(c: string, p: nat, d: string, r: nat)
    requires p + 4 <= |c| && r + 4 <= |d|
    requires forall k | p <= k < p + 4 :: d[r + k - p] == c[k]
    ensures Hex4(d, r) == Hex4(c, p) && AllHex(d, r) == AllHex(c, p)
  {
    assert d[r + p - p] == c[p] && d[r + (p + 1) - p] == c[p + 1];
    assert d[r + (p + 2) - p] == c[p + 2] && d[r + (p + 3) - p] == c[p + 3];
  }

  lemma StringMoves(c: string, i: nat, d: string, o: nat)
    requires i < |c| && o < |d| && ParseString(c, i).Parsed? && o + ParseString(c, i).next - i <= |d|
    requires forall x | i <= x < ParseString(c, i).next :: d[o + x - i] == c[x]
    ensures ParseString(d, o) == Parsed(ParseString(c, i).value, o + ParseString(c, i).next - i)
  {
    hide Decode, ScanString;
    var k := ParseString(c, i).next;
    assert d[o + i - i] == c[i];
    forall x | i + 1 <= x <= k - 1 ensures d[o + 1 + x - (i + 1)] == c[x] { assert d[o + x - i] == c[x]; }
    ScanMoves(c, i + 1, d, o + 1, k - 1);
    DecodeMoves(c, i + 1, k - 1, d, o + 1);
  }
}
