/**
  What minification does to meaning: an accepted text and its minified form parse to the
  same tree as long as no string token loses a byte, and, if no token denotes a NUL, only
  then.
  */
module MinifyMeaning {
  import opened Text
  import opened Strings
  import opened Values
  import opened Parsing
  import opened Minify
  import opened MinifyWalk
  import opened MinifyTokens
  import opened MinifySteps
  import opened MinifyImage
  import opened SlashCount
  import opened MinifyPhases
  import Utf
  import RoundTrip

  // ---------- Whole texts ----------

  // An accepted text whose tokens stay tokens is accepted after minifying, and means the
  // same if and only if no string token loses a byte.
  lemma FairMeaning(t: CString)
    requires ParseText(t, true).Some? && Fair(t, 0, Minified(t, 0), 0)
    ensures '\0' !in Minified(t, 0)
    ensures var r := ParseText(Minified(t, 0), true);
      r.Some? && r.value.1 == |Minified(t, 0)| && (r.value.0 == ParseText(t, true).value.0 <==> Harmless(t))
  {
    hide Image, Lossless, Harmless, Minified, Fair, ParseValue, Skip, AfterMark;
    StartImage(t);
    var c, d := t + "\0", Minified(t, 0) + "\0";
    var m := AfterMark(c);
    var i := Skip(c, m);
    var k := ParseValue(c, i, 0).next;
    ValueStart(c, i, 0);
    ImageMark(c, d);
    ImageSkip(c, m, d, m);
    var p := ValueImage(c, i, d, Skip(d, m), 0);
    ImageSkip(c, k, d, p);
    ImageBounds(c, Skip(c, k), d, Skip(d, p));
    ImageEnd(c, Skip(c, k), d, Skip(d, p));
    LosslessParts(c, 0, m, |t|);
    LosslessParts(c, m, i, |t|);
    LosslessParts(c, i, k, |t|);
    LosslessAll(t);
  }

  // In particular when every string token keeps all its bytes, or denotes no NUL and holds
  // neither an escaped slash nor the beginning of a comment.
  lemma MinifiedMeaning(t: CString)
    requires ParseText(t, true).Some? && Mild(t)
    ensures '\0' !in Minified(t, 0)
    ensures var r := ParseText(Minified(t, 0), true);
      r.Some? && r.value.1 == |Minified(t, 0)| && (r.value.0 == ParseText(t, true).value.0 <==> Harmless(t))
  {
    hide ParseText, Harmless, Minified, Mild, Even;
    FairMeaning(t);
  }

  lemma LosslessAll(t: string)
    ensures Lossless(t + "\0", 0, |t|) <==> Harmless(t)
  {
    hide Loses, Comes;
    assert Body(t + "\0") == t;
  }

  // As long as no string token loses a byte, the meaning is kept; in particular when
  // every string token but the last has no backslash right before its closing quote.
  lemma MinifyKeepsMeaning(t: CString)
    requires ParseText(t, true).Some? && (Harmless(t) || Clean(t))
    ensures '\0' !in Minified(t, 0)
    ensures ParseText(Minified(t, 0), true) == Some((ParseText(t, true).value.0, |Minified(t, 0)|))
  {
    hide ParseText, Harmless, Minified, Clean, Mild, InStep;
    if Clean(t) {
      CleanIsInStep(t);
      InStepIsHarmless(t);
    }
    HarmlessIsMild(t);
    MinifiedMeaning(t);
  }

  lemma HarmlessIsMild(t: string)
    requires Harmless(t)
    ensures Mild(t)
  {
    hide Loses, Comes;
  }

  // ---------- The converse ----------

  // The escapes of an accepted text are proper if no token denotes a NUL.
  lemma {:induction false} LiteralProper(t: string, p: nat, end: nat, q: nat)
    requires Clear(t, p, end) && p <= q <= end && Odd(t, q)
    ensures Escaped(t, q)
    decreases end - p
  {
    hide Clear, Decode, Odd, Hex4;
    ClearBounds(t, p, end);
    var n := DecodeStep(t, p, end).0;
    var was := ClearStep(t, p, end);
    if q >= p + n {
      LiteralProper(t, p + n, end, q);
    } else {
      StepProper(t, p, end, q);
    }
  }

  lemma StepProper(t: string, p: nat, end: nat, q: nat)
    requires p < end < |t| && !Odd(t, p) && DecodeStep(t, p, end).0 > 0 && '\0' !in DecodeStep(t, p, end).1
    requires p <= q < p + DecodeStep(t, p, end).0 && Odd(t, q)
    ensures Escaped(t, q)
  {
    hide Odd, Hex4, AllHex, Escaped, Utf16Literal;
    OddIs(t, q);
    if t[p] == '\\' {
      if t[p + 1] == 'u' { UnitProper(t, p, end, q); } else { ShortProper(t, p, q); }
    }
  }

  lemma ShortProper(t: string, p: nat, q: nat)
    requires p + 2 <= |t| && ShortMeaning(t[p + 1]).Some? && q == p + 1
    ensures Escaped(t, q)
  {}

  lemma UnitProper(t: string, p: nat, end: nat, q: nat)
    requires p < end < |t| && t[p + 1] == 'u' && Utf16Literal(t, p, end).0 > 0 && '\0' !in Utf16Literal(t, p, end).1
    requires p < q < p + Utf16Literal(t, p, end).0 && t[q - 1] == '\\'
    ensures Escaped(t, q)
  {
    hide Hex4, Utf.Encode, AllHex;
    UnitHex(t, p, end);
    HexPlain(t, p + 2);
    if Utf16Literal(t, p, end).0 == 12 { HexPlain(t, p + 8); } else { EncodeSlash(Hex4(t, p + 2)); }
  }

  lemma HexPlain(t: string, p: nat)
    requires p + 4 <= |t| && AllHex(t, p)
    ensures forall x | p <= x < p + 4 :: t[x] != '\\'
  {}

  lemma {:induction false} ProperFrom(t: string, i: nat, q: nat)
    requires Lexed(t) && AllNulFree(t) && Comes(t, 0, i) && i <= q <= |t| && !Odd(t, i) && Odd(t, q)
    ensures q < |t| && Escaped(t, q)
    decreases |t| - i
  {
    hide Comes, Odd, Escaped, ScanString, Decode;
    assert i < |t|;
    assert TokenFine(t, i);
    ComesNext(t, 0, i);
    if t[i] == '\"' {
      var end := ScanString(t, i + 1).end;
      assert Opens(t, i);
      EvenBehind(t, i);
      EvenBehind(t, end);
      if q <= end {
        TokenClear(t, i, end);
        LiteralProper(t, i + 1, end, q);
      } else {
        ProperFrom(t, end + 1, q);
      }
    } else {
      EvenBehind(t, i);
      ProperFrom(t, i + 1, q);
    }
  }

  lemma NulFreeIsProper(t: string)
    requires Lexed(t) && AllNulFree(t)
    ensures Proper(t)
  {
    hide Lexed, AllNulFree, Escaped;
    assert Comes(t, 0, 0) && !Odd(t, 0);
    hide Comes, Odd;
    forall q: nat | q <= |t| && Odd(t, q) ensures q < |t| && Escaped(t, q) { ProperFrom(t, 0, q); }
  }

  // For every accepted text whose string tokens denote no NUL: minifying keeps its meaning
  // if and only if no string token loses a byte. Either slashes are lost, and the tree of
  // what is left holds fewer; or none is, and then tokens stay tokens.
  lemma NulFreeMeaning(t: CString)
    requires ParseText(t, true).Some? && AllNulFree(t)
    ensures '\0' !in Minified(t, 0)
    ensures ParseText(Minified(t, 0), true) == Some((ParseText(t, true).value.0, |Minified(t, 0)|)) <==> Harmless(t)
  {
    hide ParseText, Harmless, Minified, Mild, AllNulFree, Lexed, Proper, Sum, Slashes, Walks;
    var w := Minified(t, 0);
    MinifiedNulFree(t, 0);
    AcceptedLexed(t);
    NulFreeIsProper(t);
    WalkStart(t);
    Bound(t, 0, w, 0, 0);
    StartEven(t, w);
    TextSlashes(t);
    if Sum(w, 0, |w|) == Sum(t, 0, |t|) {
      FairMeaning(t);
    } else {
      if ParseText(w, true).Some? { TextSlashes(w); }
      if Harmless(t) { MinifyKeepsMeaning(t); }
    }
  }

  lemma StartEven(t: string, w: string)
    ensures Off(t, 0, w, 0) == 0 && !Odd(t, 0) && !Odd(w, 0)
  {}

  lemma StartImage(t: CString)
    requires Fair(t, 0, Minified(t, 0), 0)
    ensures '\0' !in Minified(t, 0) && Image(t + "\0", 0, Minified(t, 0) + "\0", 0)
  {
    hide Minified, Fair, Walks;
    MinifiedNulFree(t, 0);
    WalkStart(t);
    var c, d := t + "\0", Minified(t, 0) + "\0";
    assert Body(c) == t && Body(d) == Minified(t, 0);
  }

  lemma {:induction false} MinifiedNulFree(t: CString, i: nat)
    requires i <= |t|
    ensures '\0' !in Minified(t, i)
    decreases |t| - i
  {
    hide Minified, CopyEnd, LineEnd, BlockEnd;
    if i < |t| {
      MinifyStep(t, i);
      NotNul(t, i);
      if IsStripped(t[i]) { MinifiedNulFree(t, i + 1); }
      else if t[i] == '/' {
        MinifiedNulFree(t, if i + 1 < |t| && t[i + 1] == '/' then LineEnd(t, i + 2)
          else if i + 1 < |t| && t[i + 1] == '*' then BlockEnd(t, i + 2) else i + 1);
      } else if t[i] == '\"' {
        MinifiedNulFree(t, CopyEnd(t, i + 1));
      } else {
        MinifiedNulFree(t, i + 1);
      }
    } else {
      MinifiedEnd(t);
    }
  }

  // A byte order mark is kept, and none appears.
  lemma ImageMark(c: string, d: string)
    requires 0 < |c| && 0 < |d| && Image(c, 0, d, 0) && Terminated(c)
    requires ParseValue(c, Skip(c, AfterMark(c)), 0).Parsed?
    ensures AfterMark(d) == AfterMark(c) && Image(c, AfterMark(c), d, AfterMark(c))
    ensures Lossless(c, 0, AfterMark(c))
  {
    hide Image, Lossless, ParseValue;
    var m := AfterMark(c);
    ValueStart(c, Skip(c, m), 0);
    if m == 3 {
      assert c[0] == c[..3][0] && c[1] == c[..3][1] && c[2] == c[..3][2];
      ImageRun(c, 0, d, 0, 3);
      assert d[..3] == d[0..3] == c[0..3] == BYTE_ORDER_MARK;
      ImageBounds(c, 0, d, 0);
      ImageSkip(c, 3, d, 3);
      NoQuoteLossless(c, 0, 3);
    } else {
      LosslessNone(c, 0);
      ImageSkip(c, 0, d, 0);
      if |d| > 4 { assert d[..3][0] == d[0]; }
    }
  }

  // ---------- Where it fails ----------

  // The text  ["\\\\", " "]  of an array of two strings, the first of them a backslash.
  const UNCLEAN: string := "[\"\\\\\", \" \"]"

  // The copy of its first token runs on into the second one, so the blank inside the
  // second string is taken for one between tokens.
  lemma UncleanMinified()
    ensures Minified(UNCLEAN, 0) == "[\"\\\\\", \"\"]"
  {
    var t := UNCLEAN;
    assert CopyEnd(t, 2) == CopyEnd(t, 3) == CopyEnd(t, 5) == CopyEnd(t, 6) == CopyEnd(t, 7) == 8;
    assert CopyEnd(t, 10) == CopyEnd(t, 11) == 11;
    hide CopyEnd;
    assert Minified(t, 9) == t[9..11] + Minified(t, 11);
    assert Minified(t, 8) == Minified(t, 9);
    assert Minified(t, 1) == t[1..8] + Minified(t, 8);
    assert Minified(t, 0) == [t[0]] + Minified(t, 1);
  }

  // Without a clean end the meaning can change: one blank is lost here.
  lemma MinifyCanChangeMeaning()
    ensures !Clean(UNCLEAN) && '\0' !in UNCLEAN && '\0' !in Minified(UNCLEAN, 0)
    ensures ParseText(UNCLEAN, true).Some? && ParseText(Minified(UNCLEAN, 0), true).Some?
    ensures ParseText(Minified(UNCLEAN, 0), true).value.0 != ParseText(UNCLEAN, true).value.0
  {
    hide Minified, ParseText, Clean, Escape;
    UncleanMinified();
    NotClean();
    Two("\\", " ");
    Two("\\", "");
    PairParsed("\\", " ");
    PairParsed("\\", "");
    assert [Str("\\"), Str(" ")][1] != [Str("\\"), Str("")][1];
  }

  lemma NotClean()
    ensures !Clean(UNCLEAN)
  {
    var t := UNCLEAN;
    assert NextToken(t, 0) == 1 && Opens(t, 1);
    assert ScanString(t, 4) == Closed(4, 0) && ScanString(t, 2) == Closed(4, 1);
    assert t[3] == '\\' && t[5..][2] == '\"';
    assert !EndsSafely(t, 1);
  }

  function PairText(a: CString, b: CString): string { "[" + (Quote(a) + (", " + Quote(b)) + "]") }

  lemma Two(a: CString, b: CString)
    requires a == "\\" && (b == " " || b == "")
    ensures PairText(a, b) == if b == " " then UNCLEAN else "[\"\\\\\", \"\"]"
  {
    assert Escape("") == "";
    assert a[1..] == "" && Escape(a) == EscapeChar('\\') + Escape(a[1..]);
    if b == " " { assert b[1..] == "" && Escape(b) == EscapeChar(' ') + Escape(b[1..]); }
  }

  lemma PairParsed(a: CString, b: CString)
    ensures '\0' !in PairText(a, b)
    ensures ParseText(PairText(a, b), true) == Some((Array([Str(a), Str(b)]), |PairText(a, b)|))
  {
    hide Escape, ParseText;
    var items := [Str(a), Str(b)];
    assert items[1..] == [Str(b)];
    assert ItemsStandard(items[1..]) && ItemsPrintable(items[1..]) && ItemsHeight(items[1..]) == 0;
    assert Height(items[0]) == 0;
    assert ItemsStandard(items) && ItemsPrintable(items) && ItemsHeight(items) == 0;
    assert Standard(Array(items)) && Printable(Array(items)) && Height(Array(items)) == 1;
    assert RenderItems(items, true, 1) == Quote(a) + ItemsRest(items, true, 1);
    assert RenderItems(items[1..], true, 1) == Quote(b) + "";
    assert Render(Array(items), true, 0) == PairText(a, b);
    RoundTrip.ParseInvertsPrint(Array(items), true);
  }
}
