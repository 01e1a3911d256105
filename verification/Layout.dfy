/**
  The layout of printed text: formatted output is the unformatted output with line ends,
  tabs and spaces put in at places that a scan of its bytes determines, and unformatted
  output has no blanks at all outside its string tokens.
  */
module Layout {
  import opened Text
  import opened Decimals
  import opened Strings
  import opened Values

  // ---------- The scan ----------

  // Where a scan stands: between tokens, inside a string token, or behind a backslash
  // inside a string token.
  datatype Spot = Between | Inside | Escaped

  function Next(spot: Spot, b: char): Spot {
    match spot
    case Between => if b == '\"' then Inside else Between
    case Inside => if b == '\"' then Between else if b == '\\' then Escaped else Inside
    case Escaped => Inside
  }

  // No blank stands outside a string token.
  predicate Solid(s: string, spot: Spot) {
    s == "" || ((spot == Between ==> s[0] > ' ') && Solid(s[1..], Next(spot, s[0])))
  }

  // The brackets and braces still open; the last one is the innermost.
  function Opened(nest: string, b: char): string {
    if b == '{' || b == '[' then nest + [b]
    else if (b == '}' || b == ']') && nest != "" then nest[..|nest| - 1]
    else nest
  }

  predicate InObject(nest: string) { nest != "" && nest[|nest| - 1] == '{' }

  function Indentation(n: nat): string { seq(n, _ => '\t') }

  // What is put in front of the byte `b`. A closing brace starts a line. At the start of a
  // line stand as many tabs as brackets and braces are open, the one that `b` closes not
  // counted.
  function Before(nest: string, b: char, lineStart: bool): string {
    if b == '}' then (if lineStart then "" else "\n") + Indentation(|Opened(nest, b)|)
    else if lineStart then Indentation(|nest|)
    else ""
  }

  // What is put behind it: a line end behind an opening brace and behind a comma that
  // separates members, a space behind a comma that separates items, a tab behind a colon.
  function Behind(nest: string, b: char): string {
    if b == '{' || (b == ',' && InObject(nest)) then "\n"
    else if b == ',' then " "
    else if b == ':' then "\t"
    else ""
  }

  // The text `s` laid out.
  function Pretty(s: string, spot: Spot, nest: string, lineStart: bool): string {
    if s == "" then ""
    else
      var b := s[0];
      if spot == Between then
        Before(nest, b, lineStart) + ([b] + (Behind(nest, b)
        + Pretty(s[1..], Next(spot, b), Opened(nest, b), Behind(nest, b) == "\n")))
      else [b] + Pretty(s[1..], Next(spot, b), nest, false)
  }

  // ---------- Scanning piece by piece ----------

  // Bytes that lay out as they are.
  predicate Ordinary(b: char) {
    b > ' ' && b != '\"' && b != '{' && b != '}' && b != '[' && b != ']' && b != ',' && b != ':'
  }

  lemma Cons(b: char, x: string, rest: string)
    ensures ([b] + x) + rest == [b] + (x + rest)
    ensures ([b] + rest)[0] == b && ([b] + rest)[1..] == rest
  {}

  // One byte between tokens.
  lemma ByteLaid(b: char, rest: string, nest: string, lineStart: bool)
    ensures Pretty([b] + rest, Between, nest, lineStart) ==
      Before(nest, b, lineStart) + ([b] + (Behind(nest, b)
      + Pretty(rest, Next(Between, b), Opened(nest, b), Behind(nest, b) == "\n")))
    ensures Solid([b] + rest, Between) <==> b > ' ' && Solid(rest, Next(Between, b))
  {
    Cons(b, "", rest);
  }

  lemma {:induction false} OrdinaryLaid(x: string, rest: string, nest: string)
    requires forall k | 0 <= k < |x| :: Ordinary(x[k])
    ensures Pretty(x + rest, Between, nest, false) == x + Pretty(rest, Between, nest, false)
    ensures Solid(x + rest, Between) <==> Solid(rest, Between)
  {
    hide Pretty, Solid;
    if x == "" {
      assert x + rest == rest;
    } else {
      var y := x[1..];
      assert x == [x[0]] + y;
      Cons(x[0], y, rest);
      Cons(x[0], y, Pretty(rest, Between, nest, false));
      OrdinaryLaid(y, rest, nest);
      ByteLaid(x[0], y + rest, nest, false);
      Nothing(Pretty(y + rest, Between, nest, false), x[0]);
    }
  }

  lemma Nothing(t: string, b: char)
    ensures "" + ([b] + ("" + t)) == [b] + t
  {}

  // ---------- String tokens ----------

  lemma InsideLaid(b: char, spot: Spot, rest: string, nest: string)
    requires spot != Between
    ensures Pretty([b] + rest, spot, nest, false) == [b] + Pretty(rest, Next(spot, b), nest, false)
    ensures Solid([b] + rest, spot) <==> Solid(rest, Next(spot, b))
  {
    Cons(b, "", rest);
  }

  lemma {:induction false} PlainLaid(x: string, rest: string, nest: string)
    requires forall k | 0 <= k < |x| :: x[k] != '\"' && x[k] != '\\'
    ensures Pretty(x + rest, Inside, nest, false) == x + Pretty(rest, Inside, nest, false)
    ensures Solid(x + rest, Inside) <==> Solid(rest, Inside)
  {
    hide Pretty, Solid;
    if x == "" {
      assert x + rest == rest;
    } else {
      var y := x[1..];
      assert x == [x[0]] + y;
      Cons(x[0], y, rest);
      Cons(x[0], y, Pretty(rest, Inside, nest, false));
      PlainLaid(y, rest, nest);
      InsideLaid(x[0], Inside, y + rest, nest);
    }
  }

  // How an escaped byte begins: as it is, or with a backslash and a byte that stays.
  lemma EscapedByte(c: char)
    ensures var t := EscapeChar(c);
      if t[0] == '\\' then |t| >= 2 && forall k | 2 <= k < |t| :: t[k] != '\"' && t[k] != '\\'
      else |t| == 1 && t[0] != '\"'
  {}

  lemma EscapedLaid(c: char, rest: string, nest: string)
    ensures var t := EscapeChar(c);
      && Pretty(t + rest, Inside, nest, false) == t + Pretty(rest, Inside, nest, false)
      && (Solid(t + rest, Inside) <==> Solid(rest, Inside))
  {
    hide Pretty, Solid, EscapeChar;
    var t := EscapeChar(c);
    EscapedByte(c);
    if t[0] == '\\' {
      var x := t[2..];
      assert t == [t[0]] + ([t[1]] + x);
      var p := Pretty(rest, Inside, nest, false);
      Cons(t[0], [t[1]] + x, rest);
      Cons(t[1], x, rest);
      Cons(t[0], [t[1]] + x, p);
      Cons(t[1], x, p);
      InsideLaid(t[0], Inside, [t[1]] + (x + rest), nest);
      InsideLaid(t[1], Escaped, x + rest, nest);
      PlainLaid(x, rest, nest);
    } else {
      assert t == [t[0]];
      InsideLaid(t[0], Inside, rest, nest);
    }
  }

  lemma {:induction false} EscapeLaid(s: string, rest: string, nest: string)
    ensures Pretty(Escape(s) + rest, Inside, nest, false) == Escape(s) + Pretty(rest, Inside, nest, false)
    ensures Solid(Escape(s) + rest, Inside) <==> Solid(rest, Inside)
  {
    hide Pretty, Solid, EscapeChar;
    if s == "" {
      assert "" + rest == rest;
    } else {
      var t, e := EscapeChar(s[0]), Escape(s[1..]);
      assert (t + e) + rest == t + (e + rest);
      var p := Pretty(rest, Inside, nest, false);
      assert (t + e) + p == t + (e + p);
      EscapeLaid(s[1..], rest, nest);
      EscapedLaid(s[0], e + rest, nest);
    }
  }

  // A string token at the start of a line is indented; otherwise it stays as it is.
  lemma QuoteLaid(s: CString, rest: string, nest: string, lineStart: bool)
    ensures Pretty(Quote(s) + rest, Between, nest, lineStart) ==
      (if lineStart then Indentation(|nest|) else "") + (Quote(s) + Pretty(rest, Between, nest, false))
    ensures Solid(Quote(s) + rest, Between) <==> Solid(rest, Between)
  {
    hide Pretty, Solid, Escape, Indentation;
    var e, p := Escape(s), Pretty(rest, Between, nest, false);
    QuoteSplits(e, rest);
    QuoteSplits(e, p);
    ByteLaid('\"', e + ("\"" + rest), nest, lineStart);
    EscapeLaid(s, "\"" + rest, nest);
    InsideLaid('\"', Inside, rest, nest);
    QuoteJoins(e, p);
  }

  lemma QuoteSplits(e: string, rest: string)
    ensures ("\"" + e + "\"") + rest == ['\"'] + (e + ("\"" + rest))
    ensures "\"" + rest == ['\"'] + rest
  {}

  lemma QuoteJoins(e: string, p: string)
    ensures ['\"'] + ("" + (e + (['\"'] + p))) == ("\"" + e + "\"") + p
  {}

  // ---------- Values ----------

  // In front of `rest`, the bytes `u` are laid out as `f`, which takes the scan from one
  // nesting to another and from one place on a line to another; and they have no blank
  // outside string tokens.
  ghost predicate Lays(u: string, f: string, rest: string, nest: string, start: bool, nest': string, start': bool) {
    && Pretty(u + rest, Between, nest, start) == f + Pretty(rest, Between, nest', start')
    && (Solid(u + rest, Between) <==> Solid(rest, Between))
  }

  lemma Compose(u: string, f: string, n0: string, s0: bool, n1: string, s1: bool,
                u': string, f': string, rest: string, n2: string, s2: bool)
    requires Lays(u, f, u' + rest, n0, s0, n1, s1) && Lays(u', f', rest, n1, s1, n2, s2)
    ensures Lays(u + u', f + f', rest, n0, s0, n2, s2)
  {
    hide Pretty, Solid;
    assert (u + u') + rest == u + (u' + rest);
    var p := Pretty(rest, Between, n2, s2);
    assert (f + f') + p == f + (f' + p);
  }

  lemma NothingLays(rest: string, nest: string, start: bool)
    ensures Lays("", "", rest, nest, start, nest, start)
  {
    hide Pretty, Solid;
    assert "" + rest == rest;
    var p := Pretty(rest, Between, nest, start);
    assert "" + p == p;
  }

  lemma ByteLays(b: char, rest: string, nest: string, start: bool)
    requires b > ' ' && b != '\"'
    ensures Lays([b], Before(nest, b, start) + [b] + Behind(nest, b), rest, nest, start,
                 Opened(nest, b), Behind(nest, b) == "\n")
  {
    hide Pretty, Solid, Before, Behind, Opened;
    ByteLaid(b, rest, nest, start);
    var x, y := Before(nest, b, start), Behind(nest, b);
    var p := Pretty(rest, Between, Opened(nest, b), y == "\n");
    assert (x + [b] + y) + p == x + ([b] + (y + p));
  }

  lemma OrdinaryLays(x: string, rest: string, nest: string)
    requires forall k | 0 <= k < |x| :: Ordinary(x[k])
    ensures Lays(x, x, rest, nest, false, nest, false)
  {
    hide Pretty, Solid;
    OrdinaryLaid(x, rest, nest);
  }

  lemma QuoteLays(q: CString, rest: string, nest: string, start: bool)
    ensures Lays(Quote(q), (if start then Indentation(|nest|) else "") + Quote(q), rest, nest, start, nest, false)
  {
    hide Pretty, Solid, Quote, Indentation;
    QuoteLaid(q, rest, nest, start);
    var lead, p := if start then Indentation(|nest|) else "", Pretty(rest, Between, nest, false);
    assert (lead + Quote(q)) + p == lead + (Quote(q) + p);
  }

  // The bytes with a meaning of their own.
  lemma ColonLays(rest: string, nest: string)
    ensures Lays(":", ":\t", rest, nest, false, nest, false)
  {
    hide Pretty, Solid, Lays;
    ByteLays(':', rest, nest, false);
    assert "" + [':'] + "\t" == ":\t" && ":" == [':'];
  }

  lemma CommaLays(rest: string, nest: string)
    ensures if InObject(nest) then Lays(",", ",\n", rest, nest, false, nest, true)
            else Lays(",", ", ", rest, nest, false, nest, false)
  {
    hide Pretty, Solid, Lays;
    ByteLays(',', rest, nest, false);
    assert "" + [','] + "\n" == ",\n" && "" + [','] + " " == ", " && "," == [','];
  }

  lemma BracketLays(rest: string, nest: string)
    ensures Lays("[", "[", rest, nest, false, nest + "[", false)
    ensures Lays("]", "]", rest, nest + "[", false, nest, false)
  {
    hide Pretty, Solid, Lays;
    ByteLays('[', rest, nest, false);
    ByteLays(']', rest, nest + "[", false);
    assert "" + ['['] + "" == "[" && "" + [']'] + "" == "]" && nest + ['['] == nest + "[";
    assert (nest + "[")[..|nest|] == nest;
  }

  lemma BraceLays(rest: string, nest: string, start: bool)
    ensures Lays("{", "{\n", rest, nest, false, nest + "{", true)
    ensures Lays("}", (if start then "" else "\n") + (Indentation(|nest|) + "}"), rest, nest + "{", start, nest, false)
  {
    hide Pretty, Solid, Lays, Indentation;
    ByteLays('{', rest, nest, false);
    ByteLays('}', rest, nest + "{", start);
    assert (nest + "{")[..|nest|] == nest;
    var lead, tabs := if start then "" else "\n", Indentation(|nest|);
    assert "" + ['{'] + "\n" == "{\n" && nest + ['{'] == nest + "{" && "}" == ['}'] && "{" == ['{'];
    assert (lead + tabs) + ['}'] + "" == lead + (tabs + "}");
  }

  lemma TabsAre(n: nat)
    ensures Indent(true, n) == Indentation(n) && Indent(false, n) == ""
  {}

  lemma WordLays(v: Value, rest: string, nest: string, depth: nat)
    requires v.Null? || v.False? || v.True?
    ensures Lays(Render(v, false, depth), Render(v, true, |nest|), rest, nest, false, nest, false)
  {
    hide Lays;
    OrdinaryLays(Render(v, false, depth), rest, nest);
  }

  lemma NumberLays(d: Number, rest: string, nest: string)
    ensures Lays(NumberText(d), NumberText(d), rest, nest, false, nest, false)
  {
    hide Lays, NumberText;
    NumberTextChars(d);
    OrdinaryLays(NumberText(d), rest, nest);
  }

  lemma {:induction false} ValueLays(v: Value, rest: string, nest: string, depth: nat)
    requires Standard(v)
    ensures Lays(Render(v, false, depth), Render(v, true, |nest|), rest, nest, false, nest, false)
    decreases v, 0
  {
    hide Lays, RenderItems, RenderMembers, ItemsStandard, MembersStandard, NumberText, Quote;
    match v
    case Num(d) => NumberLays(d, rest, nest);
    case Str(s) =>
      QuoteLays(s, rest, nest, false);
      assert "" + Quote(s) == Quote(s);
    case Array(items) => ArrayLays(items, rest, nest, depth);
    case Object(members) => ObjectLays(members, rest, nest, depth);
    case _ => WordLays(v, rest, nest, depth);
  }

  lemma {:induction false} ArrayLays(items: seq<Value>, rest: string, nest: string, depth: nat)
    requires ItemsStandard(items)
    ensures Lays(Render(Array(items), false, depth), Render(Array(items), true, |nest|), rest, nest, false, nest, false)
    decreases items, 3
  {
    hide Lays, RenderItems, ItemsStandard;
    var u, f, n := RenderItems(items, false, depth + 1), RenderItems(items, true, |nest| + 1), nest + "[";
    BracketLays((u + "]") + rest, nest);
    BracketLays(rest, nest);
    ItemsLay(items, "]" + rest, n, depth + 1);
    Compose(u, f, n, false, n, false, "]", "]", rest, nest, false);
    Compose("[", "[", nest, false, n, false, u + "]", f + "]", rest, nest, false);
  }

  lemma {:induction false} ItemsLay(items: seq<Value>, rest: string, nest: string, depth: nat)
    requires ItemsStandard(items) && !InObject(nest)
    ensures Lays(RenderItems(items, false, depth), RenderItems(items, true, |nest|), rest, nest, false, nest, false)
    decreases items, 0
  {
    hide Lays, Render, ItemsRest, Standard;
    if items == [] {
      NothingLays(rest, nest, false);
    } else {
      var u, f := ItemsRest(items, false, depth), ItemsRest(items, true, |nest|);
      ValueLays(items[0], u + rest, nest, depth);
      RestLays(items, rest, nest, depth);
      Compose(Render(items[0], false, depth), Render(items[0], true, |nest|), nest, false, nest, false,
              u, f, rest, nest, false);
    }
  }

  lemma {:induction false} RestLays(items: seq<Value>, rest: string, nest: string, depth: nat)
    requires items != [] && ItemsStandard(items[1..]) && !InObject(nest)
    ensures Lays(ItemsRest(items, false, depth), ItemsRest(items, true, |nest|), rest, nest, false, nest, false)
    decreases items, 0, 0
  {
    hide Lays, RenderItems, ItemsStandard;
    if |items| == 1 {
      NothingLays(rest, nest, false);
    } else {
      var u, f := RenderItems(items[1..], false, depth), RenderItems(items[1..], true, |nest|);
      CommaLays(u + rest, nest);
      ItemsLay(items[1..], rest, nest, depth);
      Compose(",", ", ", nest, false, nest, false, u, f, rest, nest, false);
    }
  }

  // ---------- Objects ----------

  lemma {:induction false} ObjectLays(members: seq<Member>, rest: string, nest: string, depth: nat)
    requires MembersStandard(members)
    ensures Lays(Render(Object(members), false, depth), Render(Object(members), true, |nest|), rest,
                 nest, false, nest, false)
    decreases members, 4
  {
    hide Lays, RenderMembers, MembersStandard, Indent, Indentation;
    TabsAre(depth);
    TabsAre(|nest|);
    var u, f, n := RenderMembers(members, false, depth + 1), RenderMembers(members, true, |nest| + 1), nest + "{";
    var close := Indentation(|nest|) + "}";
    BraceLays((u + "}") + rest, nest, true);
    assert "" + "}" == "}";
    if members == [] {
      BraceLays(rest, nest, true);
      NoMembers(depth + 1, |nest| + 1);
      assert "" + "}" == "}" && "" + close == close;
    } else {
      MembersLay(members, rest, nest, depth + 1);
    }
    Compose("{", "{\n", nest, false, n, true, u + "}", f + close, rest, nest, false);
  }

  lemma NoMembers(depth: nat, level: nat)
    ensures RenderMembers([], false, depth) == "" == RenderMembers([], true, level)
  {}

  // A key, a colon and a value, at the start of a line.
  lemma {:induction false} MemberLays(m: Member, rest: string, nest: string, depth: nat)
    requires Standard(m.value)
    ensures Lays(RenderMember(m, false, depth), RenderMember(m, true, |nest|), rest, nest, true, nest, false)
    decreases m, 1
  {
    hide Lays, Render, Standard, Quote, Indent, Indentation;
    TabsAre(depth);
    TabsAre(|nest|);
    var v, v' := Render(m.value, false, depth), Render(m.value, true, |nest|);
    var q, tabs := Quote(m.key), Indentation(|nest|);
    QuoteLays(m.key, (":" + v) + rest, nest, true);
    ColonLays(v + rest, nest);
    ValueLays(m.value, rest, nest, depth);
    Compose(":", ":\t", nest, false, nest, false, v, v', rest, nest, false);
    Compose(q, tabs + q, nest, true, nest, false, ":" + v, ":\t" + v', rest, nest, false);
    assert "" + (q + (":" + v)) == q + (":" + v);
    assert (tabs + q) + (":\t" + v') == tabs + (q + (":\t" + v'));
  }

  // One member or more and the closing brace behind them.
  lemma {:induction false} MembersLay(members: seq<Member>, rest: string, nest: string, depth: nat)
    requires members != [] && MembersStandard(members)
    ensures Lays(RenderMembers(members, false, depth) + "}",
                 RenderMembers(members, true, |nest| + 1) + (Indentation(|nest|) + "}"),
                 rest, nest + "{", true, nest, false)
    decreases members, 2
  {
    hide Lays, RenderMember, RenderMembers, MemberEnd, Standard, MembersStandard, Indentation;
    var n, m, close := nest + "{", members[0], Indentation(|nest|) + "}";
    var r, r' := RenderMember(m, false, depth), RenderMember(m, true, |n|);
    MembersParts(members, depth);
    MembersParts(members, |n|);
    if |members| == 1 {
      MemberLays(m, "}" + rest, n, depth);
      BraceLays(rest, nest, false);
      Compose(r, r', n, true, n, false, "}", "\n" + close, rest, nest, false);
      assert r' + ("\n" + close) == (r' + "\n") + close;
    } else {
      var u, f := RenderMembers(members[1..], false, depth), RenderMembers(members[1..], true, |n|);
      MemberLays(m, ("," + (u + "}")) + rest, n, depth);
      CommaLays((u + "}") + rest, n);
      MembersLay(members[1..], rest, nest, depth);
      Compose(",", ",\n", n, false, n, true, u + "}", f + close, rest, nest, false);
      Compose(r, r', n, true, n, false, "," + (u + "}"), ",\n" + (f + close), rest, nest, false);
      assert r + ("," + (u + "}")) == (r + ("," + u)) + "}";
      assert r' + (",\n" + (f + close)) == (r' + (",\n" + f)) + close;
    }
  }

  lemma MembersParts(members: seq<Member>, depth: nat)
    requires members != []
    ensures |members| == 1 ==> RenderMembers(members, false, depth) == RenderMember(members[0], false, depth)
    ensures |members| == 1 ==> RenderMembers(members, true, depth) == RenderMember(members[0], true, depth) + "\n"
    ensures |members| > 1 ==> (
      RenderMembers(members, false, depth) ==
        RenderMember(members[0], false, depth) + ("," + RenderMembers(members[1..], false, depth)))
    ensures |members| > 1 ==> (
      RenderMembers(members, true, depth) ==
        RenderMember(members[0], true, depth) + (",\n" + RenderMembers(members[1..], true, depth)))
    ensures MembersStandard(members) ==> Standard(members[0].value) && MembersStandard(members[1..])
  {
    hide RenderMember, Standard;
    EndParts();
    hide MemberEnd;
  }

  lemma EndParts()
    ensures MemberEnd(false, true) == "" && MemberEnd(true, true) == "\n"
    ensures MemberEnd(false, false) == "," && MemberEnd(true, false) == ",\n"
  {}

  // ---------- The law ----------

  // For every tree of JSON's own types: unformatted output has no blank outside its string
  // tokens, and formatted output is unformatted output laid out.
  lemma FormattedIsPretty(v: Value)
    requires Standard(v)
    ensures Solid(Render(v, false, 0), Between)
    ensures Render(v, true, 0) == Pretty(Render(v, false, 0), Between, "", false)
  {
    hide Render, Standard;
    ValueLays(v, "", "", 0);
    assert Render(v, false, 0) + "" == Render(v, false, 0);
    assert Render(v, true, 0) + "" == Render(v, true, 0);
  }
}
