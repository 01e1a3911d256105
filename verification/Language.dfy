/**
  The exact language of the parser: what it accepts is spelled by the grammar.
  */
module Language {
  import opened Text
  import opened Decimals
  import opened Strings
  import opened Values
  import opened Parsing
  import opened Grammar
  import Marks

  // What lies between `i` and `j` is spelled by `s`.
  ghost predicate Spans(c: string, i: nat, s: string, j: nat) { Has(c, i, s) && j == i + |s| }

  lemma SpansJoin(c: string, i: nat, s: string, j: nat, t: string, k: nat)
    requires Spans(c, i, s, j) && Spans(c, j, t, k)
    ensures Spans(c, i, s + t, k)
  {
    forall x | 0 <= x < |s + t| ensures c[i + x] == (s + t)[x] {
      if x < |s| { HasAt(c, i, s, x); } else { HasAt(c, j, t, x - |s|); }
    }
  }

  lemma SpansSlice(c: string, i: nat, j: nat)
    requires i <= j <= |c|
    ensures Spans(c, i, c[i..j], j)
  {}

  lemma SpansOne(c: string, i: nat, s: string)
    requires i < |c| && |s| == 1 && c[i] == s[0]
    ensures Spans(c, i, s, i + 1)
  {}

  // ---------- Space, numbers, literals ----------

  lemma SpaceFound(c: string, i: nat) returns (s: string)
    requires Buffer(c) && i < |c|
    ensures Space(s) && Spans(c, i, s, Skip(c, i))
  {
    hide Skip;
    SkippedBlank(c, i);
    s := c[i..Skip(c, i)];
  }

  lemma PowerFound(w: string, i: nat) returns (p: Option<Power>)
    requires i <= |w| && ScanExponent(w, i).0 == |w|
    ensures p.Some? ==> PowerOk(p.value)
    ensures PowerText(p) == w[i..] && ScanExponent(w, i) == (|w|, PowerValue(p))
  {
    hide NatOf;
    if i == |w| {
      p := None;
    } else {
      var x := if i + 1 < |w| && IsSign(w[i + 1]) then i + 2 else i + 1;
      assert x < |w| && DigitEnd(w, x) == |w|;
      assert w[x..|w|] == w[x..];
      p := Some(Power(w[i..i + 1], w[i + 1..x], w[x..]));
      PowerPieces(w, i, x);
    }
  }

  lemma PowerPieces(w: string, i: nat, x: nat)
    requires i + 1 <= x <= i + 2 && x <= |w|
    ensures w[i..i + 1] + (w[i + 1..x] + w[x..]) == w[i..]
    ensures w[i..i + 1] == [w[i]] && w[i + 1..x] == if x == i + 1 then "" else [w[i + 1]]
  {}

  lemma NumeralFound(w: string) returns (n: Numeral)
    requires 0 < |w| <= NUMBER_BUFFER && (w[0] == '-' || IsDigit(w[0])) && Strtod(w).0 == |w|
    ensures NumeralOk(n) && NumeralText(n) == w && NumeralValue(n) == Strtod(w).1
  {
    hide NatOf, Join, Normalize, DigitEnd, ScanSignificand, ScanExponent, PowerText, PowerValue, AllDigits;
    var s := if IsSign(w[0]) then 1 else 0;
    var whole, point, fraction, b := SignificandFound(w, s);
    var p := PowerFound(w, b);
    n := Numeral(s == 1, whole, point, fraction, p);
    NumeralPieces(w, s, whole, point, fraction, b);
    if w[0] != '-' { NoWhole(w, whole); }
  }

  // A number that starts with a digit has one in front of the point.
  lemma NoWhole(w: string, whole: DigitString)
    requires w != "" && IsDigit(w[0]) && whole == w[0..DigitEnd(w, 0)]
    ensures whole != ""
  {
    hide AllDigits;
  }

  lemma SignificandFound(w: string, s: nat)
      returns (whole: DigitString, point: bool, fraction: DigitString, b: nat)
    requires s <= |w|
    ensures var a := s + |whole|;
      && s <= DigitEnd(w, s) == a <= b <= |w| && whole == w[s..a]
      && (if point then a < b && w[a] == '.' && fraction == w[a + 1..b] else a == b && fraction == "")
    ensures ScanSignificand(w, s) == Significand(b, Join(whole, fraction), |whole|, |fraction|)
  {
    hide NatOf, Join, ScanSignificand;
    assert AllDigits("");
    hide AllDigits;
    var a := DigitEnd(w, s);
    ScanSignificandAt(w, s);
    hide DigitEnd;
    whole, point := w[s..a], a < |w| && w[a] == '.';
    b := if point then DigitEnd(w, a + 1) else a;
    fraction := if point then w[a + 1..b] else "";
    JoinNone(whole);
  }

  lemma NumeralPieces(w: string, s: nat, whole: string, point: bool, fraction: string, b: nat)
    requires var a := s + |whole|;
      && s <= 1 && a <= b <= |w| && whole == w[s..a] && (s == 1 ==> w[0] == '-')
      && (if point then a < b && w[a] == '.' && fraction == w[a + 1..b] else a == b && fraction == "")
    ensures (if s == 1 then "-" else "") + (whole + (((if point then "." else "") + fraction) + w[b..])) == w
  {
    var a := s + |whole|;
    var sign, dot := if s == 1 then "-" else "", if point then "." else "";
    PartSpans(w, s, a, point, b);
    hide Spans;
    SpansJoin(w, a, dot, a + |dot|, fraction, b);
    SpansJoin(w, a, dot + fraction, b, w[b..], |w|);
    SpansJoin(w, s, whole, a, dot + fraction + w[b..], |w|);
    SpansJoin(w, 0, sign, s, whole + (dot + fraction + w[b..]), |w|);
    SpansAll(w, sign + (whole + (dot + fraction + w[b..])));
  }

  lemma PartSpans(w: string, s: nat, a: nat, point: bool, b: nat)
    requires s <= 1 && s <= a <= b <= |w| && (s == 1 ==> w[0] == '-')
    requires if point then a < b && w[a] == '.' else a == b
    ensures Spans(w, 0, if s == 1 then "-" else "", s) && Spans(w, s, w[s..a], a) && Spans(w, b, w[b..], |w|)
    ensures Spans(w, a, if point then "." else "", if point then a + 1 else a)
    ensures Spans(w, if point then a + 1 else a, if point then w[a + 1..b] else "", b)
  {}

  lemma SpansAll(w: string, s: string)
    requires Spans(w, 0, s, |w|)
    ensures s == w
  {}

  lemma NumberFound(c: string, i: nat) returns (n: Numeral)
    requires i < |c| && (c[i] == '-' || IsDigit(c[i])) && ParseNumber(c, i).Parsed?
    requires ParseNumber(c, i).next < |c| && !IsNumberChar(c[ParseNumber(c, i).next])
    ensures NumeralOk(n) && Spans(c, i, NumeralText(n), ParseNumber(c, i).next)
    ensures NumeralValue(n) == ParseNumber(c, i).value
  {
    hide Strtod, NumeralOk, NumeralText, NumeralValue;
    var w := c[i..NumberEnd(c, i, NUMBER_BUFFER)];
    n := NumeralFound(w);
  }

  lemma LiteralFound(c: string, i: nat) returns (q: Quoted)
    requires Buffer(c) && i < |c| && ParseString(c, i).Parsed?
    ensures QuotedOk(q) && Spans(c, i, QuotedText(q), ParseString(c, i).next)
    ensures QuotedValue(q) == Some(ParseString(c, i).value)
  {
    hide Decode, ScanString;
    var end := ScanString(c, i + 1).end;
    q := Quoted(c[i + 1..end]);
    var t := q.source + "\"";
    forall k | i + 1 <= k <= end ensures t[0 + k - (i + 1)] == c[k] {}
    ScanMoves(c, i + 1, t, 0, end);
    DecodeMoves(c, i + 1, end, t, 0);
    assert c[i..end + 1] == "\"" + t;
  }

  // ---------- Values ----------

  lemma NoNumberChar(c: string, k: nat)
    requires k < |c| && Delimited(c, k)
    ensures !IsNumberChar(c[k])
  {
    if !IsBlank(c[k]) { assert Skip(c, k) == k; }
  }

  // The text from `i` on is spelled by `x`, and the parser reads what `x` denotes.
  ghost predicate Found(c: string, i: nat, x: Syntax, r: Parse<Value>) {
    r.Parsed? && SyntaxOk(x) && Spans(c, i, Spell(x), r.next) && Denote(x) == Some(r.value)
  }

  lemma {:induction false} ValueFound(c: string, i: nat, depth: nat) returns (x: Syntax)
    requires Buffer(c) && i < |c| && ParseValue(c, i, depth).Parsed?
    requires Delimited(c, ParseValue(c, i, depth).next)
    ensures Found(c, i, x, ParseValue(c, i, depth))
    decreases |c| - i, 0
  {
    hide ParseString, ParseNumber, ParseArray, ParseObject, Delimited, NumeralOk, NumeralText, NumeralValue;
    hide QuotedOk, QuotedText, QuotedValue;
    if Reads(c, i, "null") {
      x := Word(Null);
    } else if Reads(c, i, "false") {
      x := Word(False);
    } else if Reads(c, i, "true") {
      x := Word(True);
    } else if c[i] == '\"' {
      var q := LiteralFound(c, i);
      x := Literal(q);
    } else if c[i] == '-' || IsDigit(c[i]) {
      NoNumberChar(c, ParseNumber(c, i).next);
      var n := NumberFound(c, i);
      x := Numeric(n);
    } else if c[i] == '[' {
      x := ArrayFound(c, i, depth);
    } else {
      x := ObjectFound(c, i, depth);
    }
  }

  lemma BracketFound(c: string, i: nat, open: string, s: string, j: nat, close: string)
    requires i < |c| && j < |c| && |open| == |close| == 1 && c[i] == open[0] && c[j] == close[0]
    requires Spans(c, i + 1, s, j)
    ensures Spans(c, i, open + (s + close), j + 1)
  {
    hide Spans;
    SpansOne(c, i, open);
    SpansOne(c, j, close);
    SpansJoin(c, i + 1, s, j, close, j + 1);
    SpansJoin(c, i, open, i + 1, s + close, j + 1);
  }

  lemma {:induction false} ArrayFound(c: string, i: nat, depth: nat) returns (x: Syntax)
    requires Buffer(c) && i < |c| && c[i] == '[' && ParseArray(c, i, depth).Parsed?
    ensures Found(c, i, x, ParseArray(c, i, depth))
    decreases |c| - i - 1, 3
  {
    hide Spans, Skip, ParseItems, Space, ItemsOk, SpellItems, DenoteItems;
    var j := Skip(c, i + 1);
    if c[j] == ']' {
      var s := SpaceFound(c, i + 1);
      x := List(s, []);
      NoItems();
      NoItemsOk();
      BracketFound(c, i, "[", s, j, "]");
    } else {
      ItemsFrom(c, i + 1, depth + 1);
      var items, e := ItemsFound(c, i + 1, depth + 1);
      x := List("", items);
      NoItemsOk();
      BracketFound(c, i, "[", SpellItems(items), e, "]");
    }
  }

  lemma NoItemsOk()
    ensures ItemsOk([]) && FieldsOk([]) && Space("")
  {}

  // A value and the space around it.
  lemma {:induction false} ElementFound(c: string, i: nat, depth: nat) returns (e: Element)
    requires Buffer(c) && i < |c| && ParseValue(c, Skip(c, i), depth).Parsed?
    requires Delimited(c, ParseValue(c, Skip(c, i), depth).next)
    ensures var r := ParseValue(c, Skip(c, i), depth);
      ElementOk(e) && Spans(c, i, SpellElement(e), Skip(c, r.next)) && Denote(e.value) == Some(r.value)
    decreases |c| - i, 1
  {
    hide Spans, Skip, ParseValue, Delimited, Space, SyntaxOk, Spell, Denote;
    var j := Skip(c, i);
    var k := ParseValue(c, j, depth).next;
    var before := SpaceFound(c, i);
    var x := ValueFound(c, j, depth);
    var after := SpaceFound(c, k);
    SpansJoin(c, j, Spell(x), k, after, Skip(c, k));
    SpansJoin(c, i, before, j, Spell(x) + after, Skip(c, k));
    e := Element(before, x, after);
  }

  // `e` is where the closing bracket stands.
  lemma {:induction false} ItemsFound(c: string, i: nat, depth: nat) returns (items: seq<Element>, e: nat)
    requires Buffer(c) && i < |c| && ParseItems(c, i, depth).Parsed?
    ensures var r := ParseItems(c, i, depth);
      && items != [] && ItemsOk(items) && Spans(c, i, SpellItems(items), e) && DenoteItems(items) == Some(r.value)
      && e < |c| && c[e] == ']' && r.next == e + 1
    decreases |c| - i, 2
  {
    hide Spans, Skip, ParseValue, ElementOk, SpellElement, Denote;
    var k := ParseValue(c, Skip(c, i), depth).next;
    var x := ElementFound(c, i, depth);
    e := Skip(c, k);
    if c[e] == ']' {
      items := [x];
      OneItem(x);
    } else {
      var rest;
      SpansOne(c, e, ",");
      rest, e := ItemsFound(c, Skip(c, k) + 1, depth);
      items := [x] + rest;
      MoreItems(x, rest);
      SpansJoin(c, Skip(c, k), ",", Skip(c, k) + 1, SpellItems(rest), e);
      SpansJoin(c, i, SpellElement(x), Skip(c, k), "," + SpellItems(rest), e);
    }
  }

  lemma OneItem(x: Element)
    requires ElementOk(x)
    ensures ItemsOk([x]) && SpellItems([x]) == SpellElement(x)
    ensures DenoteItems([x]) == if Denote(x.value).Some? then Some([Denote(x.value).value]) else None
  {
    hide ElementOk, SpellElement, Denote;
    assert DenoteItems([x][1..]) == Some([]);
    if Denote(x.value).Some? { assert [Denote(x.value).value] + [] == [Denote(x.value).value]; }
  }

  lemma MoreItems(x: Element, rest: seq<Element>)
    requires ElementOk(x) && ItemsOk(rest) && rest != []
    ensures ItemsOk([x] + rest) && SpellItems([x] + rest) == SpellElement(x) + ("," + SpellItems(rest))
    ensures DenoteItems([x] + rest) == Cons(Denote(x.value), DenoteItems(rest))
  {
    hide ElementOk, SpellElement, Denote;
    assert ([x] + rest)[1..] == rest;
  }

  // ---------- Objects ----------

  lemma {:induction false} ObjectFound(c: string, i: nat, depth: nat) returns (x: Syntax)
    requires Buffer(c) && i < |c| && c[i] == '{' && ParseObject(c, i, depth).Parsed?
    ensures Found(c, i, x, ParseObject(c, i, depth))
    decreases |c| - i - 1, 4
  {
    hide Spans, Skip, ParseMembers, Space, FieldsOk, SpellFields, DenoteFields;
    var j := Skip(c, i + 1);
    if c[j] == '}' {
      var s := SpaceFound(c, i + 1);
      x := Record(s, []);
      NoItems();
      NoItemsOk();
      BracketFound(c, i, "{", s, j, "}");
    } else {
      MembersFrom(c, i + 1, depth + 1);
      var fields, e := FieldsFound(c, i + 1, depth + 1);
      x := Record("", fields);
      NoItemsOk();
      BracketFound(c, i, "{", SpellFields(fields), e, "}");
    }
  }

  lemma {:induction false} FieldFound(c: string, i: nat, depth: nat) returns (f: Field)
    requires Buffer(c) && i < |c| && ParseMember(c, i, depth).Parsed? && Delimited(c, ParseMember(c, i, depth).next)
    ensures var r := ParseMember(c, i, depth);
      FieldOk(f) && Spans(c, i, SpellField(f), Skip(c, r.next)) && DenoteField(f) == Some(r.value)
    decreases |c| - i, 2
  {
    hide Spans, Skip, ParseValue, ParseString, Delimited, Space, ElementOk, SpellElement, Denote;
    hide QuotedOk, QuotedText, QuotedValue;
    var j := Skip(c, i);
    var k := ParseString(c, j).next;
    var m := Skip(c, k);
    var before := SpaceFound(c, i);
    var q := LiteralFound(c, j);
    var between := SpaceFound(c, k);
    var e := ElementFound(c, m + 1, depth);
    var next := Skip(c, ParseMember(c, i, depth).next);
    SpansOne(c, m, ":");
    SpansJoin(c, m, ":", m + 1, SpellElement(e), next);
    SpansJoin(c, k, between, m, ":" + SpellElement(e), next);
    SpansJoin(c, j, QuotedText(q), k, between + (":" + SpellElement(e)), next);
    SpansJoin(c, i, before, j, QuotedText(q) + (between + (":" + SpellElement(e))), next);
    f := Field(before, q, between, e);
  }

  lemma {:induction false} FieldsFound(c: string, i: nat, depth: nat) returns (fields: seq<Field>, e: nat)
    requires Buffer(c) && i < |c| && ParseMembers(c, i, depth).Parsed?
    ensures var r := ParseMembers(c, i, depth);
      && fields != [] && FieldsOk(fields) && Spans(c, i, SpellFields(fields), e)
      && DenoteFields(fields) == Some(r.value) && e < |c| && c[e] == '}' && r.next == e + 1
    decreases |c| - i, 3
  {
    hide Spans, Skip, ParseMember, FieldOk, SpellField, DenoteField;
    var k := ParseMember(c, i, depth).next;
    var f := FieldFound(c, i, depth);
    e := Skip(c, k);
    if c[e] == '}' {
      fields := [f];
      OneField(f);
    } else {
      var rest;
      SpansOne(c, e, ",");
      rest, e := FieldsFound(c, Skip(c, k) + 1, depth);
      fields := [f] + rest;
      MoreFields(f, rest);
      SpansJoin(c, Skip(c, k), ",", Skip(c, k) + 1, SpellFields(rest), e);
      SpansJoin(c, i, SpellField(f), Skip(c, k), "," + SpellFields(rest), e);
    }
  }

  lemma OneField(f: Field)
    requires FieldOk(f)
    ensures FieldsOk([f]) && SpellFields([f]) == SpellField(f)
    ensures DenoteFields([f]) == if DenoteField(f).Some? then Some([DenoteField(f).value]) else None
  {
    hide FieldOk, SpellField, DenoteField;
    assert DenoteFields([f][1..]) == Some([]);
    if DenoteField(f).Some? { assert [DenoteField(f).value] + [] == [DenoteField(f).value]; }
  }

  lemma MoreFields(f: Field, rest: seq<Field>)
    requires FieldOk(f) && FieldsOk(rest) && rest != []
    ensures FieldsOk([f] + rest) && SpellFields([f] + rest) == SpellField(f) + ("," + SpellFields(rest))
    ensures DenoteFields([f] + rest) == Cons(DenoteField(f), DenoteFields(rest))
  {
    hide FieldOk, SpellField, DenoteField;
    assert ([f] + rest)[1..] == rest;
  }

  // ---------- Whole texts ----------

  // The text of `x`, with a byte order mark in front of it or not.
  function Written(x: Element, marked: bool): string {
    (if marked then BYTE_ORDER_MARK else "") + SpellElement(x)
  }

  // An accepted text is spelled by the grammar and is read for what it denotes.
  lemma AcceptedIsSpelled(t: CString) returns (x: Element, marked: bool)
    requires ParseText(t, true).Some?
    ensures ElementOk(x) && t == Written(x, marked) && Denote(x.value) == Some(ParseText(t, true).value.0)
    ensures ParseText(t, true).value.1 == |t| && Height(ParseText(t, true).value.0) <= NESTING_LIMIT
  {
    hide Skip, ParseValue, ElementOk, SpellElement, Denote, AfterMark, Height, Standard;
    var c := t + "\0";
    var m := AfterMark(c);
    var k := ParseValue(c, Skip(c, m), 0).next;
    ParsedTree(c, Skip(c, m), 0);
    MarkFound(t);
    x := ElementFound(c, m, 0);
    marked := m == 3;
    WholeText(t, m, SpellElement(x));
  }

  lemma MarkFound(t: CString)
    ensures var m := AfterMark(t + "\0"); m <= |t| && t[..m] == if m == 3 then BYTE_ORDER_MARK else ""
  {
    var c := t + "\0";
    if |c| > 4 { assert c[..3] == t[..3]; }
  }

  lemma WholeText(t: CString, m: nat, s: string)
    requires m <= |t| && Spans(t + "\0", m, s, |t|)
    ensures t == t[..m] + s
  {
    assert (t + "\0")[m..|t|] == t[m..];
  }

  // A text with or without a mark is read for what it denotes.
  lemma SpelledIsRead(x: Element, marked: bool)
    requires ElementOk(x)
    ensures '\0' !in Written(x, marked)
    ensures ParseText(Written(x, marked), true) ==
      if Denote(x.value).Some? && Height(Denote(x.value).value) <= NESTING_LIMIT
      then Some((Denote(x.value).value, |Written(x, marked)|)) else None
  {
    hide ParseText, ElementOk, SpellElement, Denote, Height;
    GrammarIsParsed(x);
    if marked {
      Marks.MarkIsIgnored(SpellElement(x), true);
      NoSecondMark(x);
    } else {
      assert "" + SpellElement(x) == SpellElement(x);
    }
  }

  lemma NoSecondMark(x: Element)
    requires ElementOk(x)
    ensures !Marks.Marked(SpellElement(x))
  {
    hide Spell, SyntaxOk;
    var t := SpellElement(x);
    SpellStarts(x.value);
    if x.before != "" { assert t[0] == x.before[0]; } else { assert t[0] == Spell(x.value)[0]; }
    assert |t| >= 3 ==> t[..3][0] == t[0];
  }

  // Exactly the texts of the grammar that nest at most 1000 deep are accepted, with a
  // mark in front or not, and each is read for what it denotes.
  lemma ExactLanguage(t: CString, v: Value)
    ensures ParseText(t, true) == Some((v, |t|)) <==>
      exists x, marked :: ElementOk(x) && t == Written(x, marked) && Denote(x.value) == Some(v)
        && Height(v) <= NESTING_LIMIT
  {
    hide ParseText, ElementOk, Written, Denote, Height;
    if ParseText(t, true) == Some((v, |t|)) {
      var x, marked := AcceptedIsSpelled(t);
    }
    forall x, marked |
      ElementOk(x) && t == Written(x, marked) && Denote(x.value) == Some(v) && Height(v) <= NESTING_LIMIT
      ensures ParseText(t, true) == Some((v, |t|))
    {
      SpelledIsRead(x, marked);
    }
  }
}
