/**
  Printing and parsing undo each other.
  */
module RoundTrip {
  import opened Text
  import opened Decimals
  import opened Strings
  import opened Values
  import opened Parsing

  // ---------- Skipping ----------

  lemma {:induction false} SkipTo(c: string, i: nat, j: nat)
    requires i <= j < |c| && (IsBlank(c[j]) ==> j == |c| - 1)
    requires forall k | i <= k < j :: IsBlank(c[k])
    ensures Skip(c, i) == j
    decreases j - i
  {
    if i < j { SkipTo(c, i + 1, j); }
  }

  lemma SkipIndent(c: string, i: nat, fmt: bool, depth: nat)
    requires Has(c, i, Indent(fmt, depth))
    requires i + |Indent(fmt, depth)| < |c| && !IsBlank(c[i + |Indent(fmt, depth)|])
    ensures Skip(c, i) == i + |Indent(fmt, depth)|
  {
    var t := Indent(fmt, depth);
    forall k | i <= k < i + |t| ensures IsBlank(c[k]) {
      HasAt(c, i, t, k - i);
      assert t[k - i] == '\t';
    }
    SkipTo(c, i, i + |t|);
  }

  // ---------- Dispatch on the first byte ----------

  lemma NotWord(c: string, i: nat, word: string)
    requires i < |c| && word != "" && c[i] != word[0]
    ensures !Reads(c, i, word)
  {}

  lemma Dispatch(c: string, i: nat)
    requires i < |c| && c[i] != 'n' && c[i] != 'f' && c[i] != 't'
    ensures !Reads(c, i, "null") && !Reads(c, i, "false") && !Reads(c, i, "true")
  {}

  // Printed text starts with a byte that is neither blank nor a closing bracket.
  predicate Starts(t: string) { t != "" && !IsBlank(t[0]) && t[0] != ']' && t[0] != '}' }

  lemma RenderStarts(v: Value, fmt: bool, depth: nat)
    requires Standard(v)
    ensures Starts(Render(v, fmt, depth))
  {
    if v.Num? { NumberTextChars(v.number); }
  }

  // ---------- Numbers ----------

  lemma {:induction false} NumberEndOf(c: string, i: nat, t: string, room: nat)
    requires Has(c, i, t) && |t| <= room && i + |t| < |c| && !IsNumberChar(c[i + |t|])
    requires forall k | 0 <= k < |t| :: IsNumberChar(t[k])
    ensures NumberEnd(c, i, room) == i + |t|
    decreases |t|
  {
    if t != "" {
      HasAt(c, i, t, 0);
      assert t == t[..1] + t[1..];
      HasSplit(c, i, t[..1], t[1..]);
      NumberEndOf(c, i + 1, t[1..], room - 1);
    }
  }

  lemma NumberRead(c: string, i: nat, d: Number)
    requires Has(c, i, NumberText(d)) && |NumberText(d)| <= NUMBER_BUFFER
    requires i + |NumberText(d)| < |c| && !IsNumberChar(c[i + |NumberText(d)|])
    ensures ParseNumber(c, i) == Parsed(d, i + |NumberText(d)|)
  {
    hide NumberText, Strtod, NumberEnd, Has;
    NumberTextChars(d);
    NumberEndOf(c, i, NumberText(d), NUMBER_BUFFER);
    HasSlice(c, i, NumberText(d));
    StrtodInvertsText(d);
  }

  // ---------- Values ----------

  function Bounded<T>(fits: bool, value: T, next: nat): Parse<T> {
    if fits then Parsed(value, next) else Failed
  }

  // The text of a value, in any surroundings that do not extend a number, is parsed
  // back to that value exactly when the nesting limit allows it.
  lemma {:induction false} ValueRead(c: string, i: nat, v: Value, fmt: bool, depth: nat, level: nat)
    requires Terminated(c) && Standard(v) && Printable(v) && level <= NESTING_LIMIT
    requires Has(c, i, Render(v, fmt, depth))
    requires i + |Render(v, fmt, depth)| < |c| && !IsNumberChar(c[i + |Render(v, fmt, depth)|])
    ensures ParseValue(c, i, level) ==
      Bounded(level + Height(v) <= NESTING_LIMIT, v, i + |Render(v, fmt, depth)|)
    decreases v, 0
  {
    hide Has, ParseString, ParseNumber, NumberText, Escape, ParseArray, ParseObject, RenderItems, RenderMembers,
      ItemsHeight, MembersHeight, ItemsStandard, MembersStandard, ItemsPrintable, MembersPrintable;
    RenderStarts(v, fmt, depth);
    HasAt(c, i, Render(v, fmt, depth), 0);
    match v
    case Num(d) =>
      NumberTextChars(d);
      NumberRead(c, i, d);
      Dispatch(c, i);
    case Str(s) =>
      QuoteRead(c, i, s);
      assert c[i] == '\"';
      Dispatch(c, i);
    case Array(items) =>
      assert c[i] == '[';
      Dispatch(c, i);
      ArrayRead(c, i, items, fmt, depth, level);
    case Object(members) =>
      assert c[i] == '{';
      Dispatch(c, i);
      ObjectRead(c, i, members, fmt, depth, level);
    case _ => WordRead(c, i, v, fmt, depth, level);
  }

  lemma WordRead(c: string, i: nat, v: Value, fmt: bool, depth: nat, level: nat)
    requires Terminated(c) && i < |c| && (v.Null? || v.False? || v.True?)
    requires Has(c, i, Render(v, fmt, depth))
    ensures ParseValue(c, i, level) == Parsed(v, i + |Render(v, fmt, depth)|)
  {
    HasAt(c, i, Render(v, fmt, depth), 0);
    if !v.Null? { NotWord(c, i, "null"); }
    if !v.False? { NotWord(c, i, "false"); }
  }

  lemma {:induction false} ArrayRead(c: string, i: nat, items: seq<Value>, fmt: bool, depth: nat, level: nat)
    requires Terminated(c) && ItemsStandard(items) && ItemsPrintable(items) && level <= NESTING_LIMIT
    requires i < |c| && c[i] == '[' && Has(c, i, Render(Array(items), fmt, depth))
    requires i + |Render(Array(items), fmt, depth)| < |c|
    ensures ParseArray(c, i, level) ==
      Bounded(level + 1 + ItemsHeight(items) <= NESTING_LIMIT, Array(items), i + |Render(Array(items), fmt, depth)|)
    decreases items, 3
  {
    hide Has, ItemsRest, RenderMembers, ItemsStandard, ItemsPrintable, ParseArray;
    if items == [] {
      EmptyArrayRead(c, i, level);
    } else {
      hide RenderItems;
      var t := RenderItems(items, fmt, depth + 1);
      HasSplit(c, i, "[", t + "]");
      HasSplit(c, i + 1, t, "]");
      FullArrayRead(c, i, items, fmt, depth, level);
    }
  }

  lemma EmptyArrayRead(c: string, i: nat, level: nat)
    requires Terminated(c) && Has(c, i, "[" + ("" + "]")) && i + 2 < |c| && c[i] == '['
    ensures ParseArray(c, i, level) == Bounded(level < NESTING_LIMIT, Array([]), i + 2)
  {}

  lemma {:induction false} FullArrayRead(c: string, i: nat, items: seq<Value>, fmt: bool, depth: nat, level: nat)
    requires Terminated(c) && items != [] && ItemsStandard(items) && ItemsPrintable(items) && level <= NESTING_LIMIT
    requires i < |c| && c[i] == '[' && Has(c, i + 1, RenderItems(items, fmt, depth + 1))
    requires Has(c, i + 1 + |RenderItems(items, fmt, depth + 1)|, "]")
    requires i + 2 + |RenderItems(items, fmt, depth + 1)| < |c|
    ensures ParseArray(c, i, level) == Bounded(level + 1 + ItemsHeight(items) <= NESTING_LIMIT, Array(items),
              i + 2 + |RenderItems(items, fmt, depth + 1)|)
    decreases items, 2, 1
  {
    hide Has, ParseItems, RenderItems, ItemsStandard, ItemsPrintable, Skip;
    HasAt(c, i + 1 + |RenderItems(items, fmt, depth + 1)|, "]", 0);
    ItemsStart(c, i + 1, items, fmt, depth + 1);
    SkipTo(c, i + 1, i + 1);
    if level < NESTING_LIMIT {
      ItemsRead(c, i + 1, i + 1, items, fmt, depth + 1, level + 1);
    }
  }

  lemma ItemsStart(c: string, i: nat, items: seq<Value>, fmt: bool, depth: nat)
    requires items != [] && ItemsStandard(items) && Has(c, i, RenderItems(items, fmt, depth))
    ensures i < |c| && !IsBlank(c[i]) && c[i] != ']'
  {
    RenderStarts(items[0], fmt, depth);
    assert RenderItems(items, fmt, depth)[0] == Render(items[0], fmt, depth)[0];
    HasAt(c, i, RenderItems(items, fmt, depth), 0);
  }

  // Where the first item ends.
  lemma FirstItem(c: string, i: nat, items: seq<Value>, fmt: bool, depth: nat)
    requires items != [] && Has(c, i, RenderItems(items, fmt, depth))
    ensures Has(c, i, Render(items[0], fmt, depth))
    ensures Has(c, i + |Render(items[0], fmt, depth)|, ItemsRest(items, fmt, depth))
    ensures |RenderItems(items, fmt, depth)| == |Render(items[0], fmt, depth)| + |ItemsRest(items, fmt, depth)|
  {
    hide Has, Render, ItemsRest;
    HasSplit(c, i, Render(items[0], fmt, depth), ItemsRest(items, fmt, depth));
  }

  // Where the second item starts, if the first one ends at `k`.
  lemma NextItem(c: string, k: nat, items: seq<Value>, fmt: bool, depth: nat)
    requires |items| > 1 && ItemsStandard(items[1..]) && Has(c, k, ItemsRest(items, fmt, depth))
    ensures var b := k + |Comma(fmt)|;
      && b < |c| && c[k] == ',' && Skip(c, k) == k && Skip(c, k + 1) == b
      && Has(c, b, RenderItems(items[1..], fmt, depth))
      && k + |ItemsRest(items, fmt, depth)| == b + |RenderItems(items[1..], fmt, depth)|
  {
    hide Has, RenderItems, Skip, ItemsStandard;
    var rest := RenderItems(items[1..], fmt, depth);
    HasSplit(c, k, Comma(fmt), rest);
    HasAt(c, k, Comma(fmt), 0);
    if fmt { HasAt(c, k, Comma(fmt), 1); }
    ItemsStart(c, k + |Comma(fmt)|, items[1..], fmt, depth);
    SkipTo(c, k + 1, k + |Comma(fmt)|);
    SkipTo(c, k, k);
  }

  // `from` is where the previous byte was consumed, `i` where the first item starts.
  lemma {:induction false} ItemsRead(c: string, from: nat, i: nat, items: seq<Value>, fmt: bool, depth: nat, level: nat)
    requires Terminated(c) && items != [] && ItemsStandard(items) && ItemsPrintable(items) && level <= NESTING_LIMIT
    requires from < |c| && Skip(c, from) == i
    requires Has(c, i, RenderItems(items, fmt, depth))
    requires var e := i + |RenderItems(items, fmt, depth)|; e + 1 < |c| && c[e] == ']'
    ensures ParseItems(c, from, level) ==
      Bounded(level + ItemsHeight(items) <= NESTING_LIMIT, items, i + |RenderItems(items, fmt, depth)| + 1)
    decreases items, 2, 0
  {
    hide Has, Render, RenderItems, Skip, ParseValue, Standard, Printable, Height;
    FirstItem(c, i, items, fmt, depth);
    var k := i + |Render(items[0], fmt, depth)|;
    if |items| == 1 {
      SkipTo(c, k, k);
      ValueRead(c, i, items[0], fmt, depth, level);
      assert items == [items[0]];
    } else {
      hide ItemsRest;
      NextItem(c, k, items, fmt, depth);
      ValueRead(c, i, items[0], fmt, depth, level);
      ItemsRead(c, k + 1, Skip(c, k + 1), items[1..], fmt, depth, level);
      assert items == [items[0]] + items[1..];
    }
  }

  // ---------- Objects ----------

  lemma {:induction false} ObjectRead(c: string, i: nat, members: seq<Member>, fmt: bool, depth: nat, level: nat)
    requires Terminated(c) && MembersStandard(members) && MembersPrintable(members) && level <= NESTING_LIMIT
    requires i < |c| && c[i] == '{' && Has(c, i, Render(Object(members), fmt, depth))
    requires i + |Render(Object(members), fmt, depth)| < |c|
    ensures ParseObject(c, i, level) ==
      Bounded(level + 1 + MembersHeight(members) <= NESTING_LIMIT, Object(members),
          i + |Render(Object(members), fmt, depth)|)
    decreases members, 3
  {
    hide Has, RenderItems, RenderMember, MemberEnd, MembersStandard, MembersPrintable, Indent, ParseObject;
    var t, close := RenderMembers(members, fmt, depth + 1), Indent(fmt, depth) + "}";
    var b := i + |Brace(fmt)|;
    if members == [] {
      EmptyObjectRead(c, i, b, fmt, depth, level);
    } else {
      hide RenderMembers;
      HasSplit(c, i, Brace(fmt), t + close);
      if fmt { HasAt(c, i, Brace(fmt), 1); }
      HasSplit(c, b, t, close);
      FullObjectRead(c, i, b, members, fmt, depth, level);
    }
  }

  lemma EmptyObjectRead(c: string, i: nat, b: nat, fmt: bool, depth: nat, level: nat)
    requires Terminated(c) && i < |c| && c[i] == '{' && b == i + |Brace(fmt)|
    requires Has(c, i, Brace(fmt) + ("" + (Indent(fmt, depth) + "}")))
    requires b + |Indent(fmt, depth)| + 1 < |c|
    ensures ParseObject(c, i, level) == Bounded(level < NESTING_LIMIT, Object([]), b + |Indent(fmt, depth)| + 1)
  {
    hide Has, Indent, Skip;
    HasSplit(c, i, Brace(fmt), "" + (Indent(fmt, depth) + "}"));
    HasSplit(c, b, "", Indent(fmt, depth) + "}");
    if fmt { HasAt(c, i, Brace(fmt), 1); }
    ObjectEnd(c, b, fmt, depth);
    SkipOver(c, i + 1, b);
  }

  lemma {:induction false} FullObjectRead(c: string, i: nat, b: nat, members: seq<Member>, fmt: bool,
          depth: nat, level: nat)
    requires Terminated(c) && members != [] && MembersStandard(members)
    requires MembersPrintable(members) && level <= NESTING_LIMIT
    requires i < |c| && c[i] == '{' && i + 1 <= b <= i + 2 && (b == i + 2 ==> b < |c| && IsBlank(c[i + 1]))
    requires Has(c, b, RenderMembers(members, fmt, depth + 1))
    requires Has(c, b + |RenderMembers(members, fmt, depth + 1)|, Indent(fmt, depth) + "}")
    requires b + |RenderMembers(members, fmt, depth + 1)| + |Indent(fmt, depth)| + 1 < |c|
    ensures ParseObject(c, i, level) == Bounded(level + 1 + MembersHeight(members) <= NESTING_LIMIT, Object(members),
              b + |RenderMembers(members, fmt, depth + 1)| + |Indent(fmt, depth)| + 1)
    decreases members, 2, 1
  {
    hide Has, ParseMembers, RenderMembers, MembersStandard, MembersPrintable, Skip, Indent;
    MembersStart(c, b, members, fmt, depth + 1);
    SkipOver(c, i + 1, b);
    SkipTo(c, Skip(c, b), Skip(c, b));
    if level < NESTING_LIMIT {
      MembersRead(c, Skip(c, b), b, members, fmt, depth + 1, level + 1);
    }
  }

  // Blanks from `i` to `j` do not matter to the skip.
  lemma SkipOver(c: string, i: nat, j: nat)
    requires i <= j <= i + 1 && j < |c| && (i < j ==> IsBlank(c[i])) && !IsBlank(c[Skip(c, j)])
    ensures Skip(c, i) == Skip(c, j)
  {}

  lemma ObjectEnd(c: string, i: nat, fmt: bool, depth: nat)
    requires Has(c, i, Indent(fmt, depth) + "}") && i + |Indent(fmt, depth)| + 1 < |c|
    ensures Skip(c, i) == i + |Indent(fmt, depth)| && c[Skip(c, i)] == '}'
  {
    hide Has;
    HasSplit(c, i, Indent(fmt, depth), "}");
    HasAt(c, i + |Indent(fmt, depth)|, "}", 0);
    SkipIndent(c, i, fmt, depth);
  }

  lemma MembersStart(c: string, i: nat, members: seq<Member>, fmt: bool, depth: nat)
    requires members != [] && Has(c, i, RenderMembers(members, fmt, depth))
    ensures i < |c| && Skip(c, i) == i + |Indent(fmt, depth)| && c[Skip(c, i)] == '\"'
  {
    var m, last := members[0], |members| == 1;
    HasSplit(c, i, RenderMember(m, fmt, depth), MemberEnd(fmt, last) + RenderMembers(members[1..], fmt, depth));
    KeyStart(c, i, m, fmt, depth);
  }

  lemma KeyStart(c: string, i: nat, m: Member, fmt: bool, depth: nat)
    requires Has(c, i, RenderMember(m, fmt, depth))
    ensures i < |c| && Skip(c, i) == i + |Indent(fmt, depth)| && c[Skip(c, i)] == '\"'
    ensures Has(c, Skip(c, i), Quote(m.key) + (Colon(fmt) + Render(m.value, fmt, depth)))
  {
    hide Has, Indent, Render, Skip;
    var rest := Quote(m.key) + (Colon(fmt) + Render(m.value, fmt, depth));
    HasSplit(c, i, Indent(fmt, depth), rest);
    HasAt(c, i + |Indent(fmt, depth)|, rest, 0);
    SkipIndent(c, i, fmt, depth);
  }

  // From `from`, which skips to the same place as `i`, a printed member is read.
  lemma {:induction false} MemberRead(c: string, from: nat, i: nat, m: Member, fmt: bool, depth: nat, level: nat)
    requires Terminated(c) && Standard(m.value) && Printable(m.value) && level <= NESTING_LIMIT
    requires from < |c| && i < |c| && Skip(c, from) == Skip(c, i)
    requires Has(c, i, RenderMember(m, fmt, depth))
    requires i + |RenderMember(m, fmt, depth)| < |c| && !IsNumberChar(c[i + |RenderMember(m, fmt, depth)|])
    ensures ParseMember(c, from, level) ==
      Bounded(level + Height(m.value) <= NESTING_LIMIT, m, i + |RenderMember(m, fmt, depth)|)
    decreases m, 1
  {
    hide Has, Indent, Render, Skip, ParseString, ParseValue, Quote, Standard, Printable, Height, Terminated;
    KeyStart(c, i, m, fmt, depth);
    var j, q, t := Skip(c, i), Quote(m.key), Render(m.value, fmt, depth);
    HasSplit(c, j, q, Colon(fmt) + t);
    QuoteRead(c, j, m.key);
    ColonLayout(c, j + |q|, m.value, fmt, depth);
    ValueRead(c, j + |q| + |Colon(fmt)|, m.value, fmt, depth, level);
  }

  lemma ColonLayout(c: string, k: nat, v: Value, fmt: bool, depth: nat)
    requires Standard(v) && Has(c, k, Colon(fmt) + Render(v, fmt, depth))
    ensures var b := k + |Colon(fmt)|;
      && b < |c| && Skip(c, k) == k && c[k] == ':' && Skip(c, k + 1) == b && Has(c, b, Render(v, fmt, depth))
  {
    hide Has, Render, Skip, Standard;
    var b, t := k + |Colon(fmt)|, Render(v, fmt, depth);
    HasSplit(c, k, Colon(fmt), t);
    HasAt(c, k, Colon(fmt), 0);
    SkipTo(c, k, k);
    RenderStarts(v, fmt, depth);
    HasAt(c, b, t, 0);
    if fmt { HasAt(c, k, Colon(fmt), 1); }
    SkipTo(c, k + 1, b);
  }

  // Where the first member ends.
  lemma FirstMember(c: string, i: nat, members: seq<Member>, fmt: bool, depth: nat)
    requires members != [] && Has(c, i, RenderMembers(members, fmt, depth))
    ensures var m := RenderMember(members[0], fmt, depth);
      var end, rest := MemberEnd(fmt, |members| == 1), RenderMembers(members[1..], fmt, depth);
      && Has(c, i, m) && Has(c, i + |m|, end) && Has(c, i + |m| + |end|, rest)
      && |RenderMembers(members, fmt, depth)| == |m| + |end| + |rest| && (|members| == 1 ==> rest == "")
  {
    hide Has, RenderMember, MemberEnd;
    var m, last := RenderMember(members[0], fmt, depth), |members| == 1;
    var end, rest := MemberEnd(fmt, last), RenderMembers(members[1..], fmt, depth);
    HasSplit(c, i, m, end + rest);
    HasSplit(c, i + |m|, end, rest);
  }

  // Behind the last member, which ends at `k`, stands the closing brace.
  lemma AfterLast(c: string, k: nat, fmt: bool, depth: nat)
    requires var b := k + |MemberEnd(fmt, true)|;
      && Has(c, k, MemberEnd(fmt, true)) && Has(c, b, Indent(fmt, depth) + "}") && b + |Indent(fmt, depth)| + 1 < |c|
    ensures var e := k + |MemberEnd(fmt, true)| + |Indent(fmt, depth)|;
      && Skip(c, k) == e && c[e] == '}' && !IsNumberChar(c[k])
  {
    var b := k + |MemberEnd(fmt, true)|;
    assert !fmt ==> Indent(fmt, depth) == "";
    hide Has, Skip, Indent;
    ObjectEnd(c, b, fmt, depth);
    if fmt { HasAt(c, k, MemberEnd(fmt, true), 0); }
    SkipOver(c, k, b);
  }

  // Behind any other member stands a comma, and then the next member.
  lemma NextMember(c: string, k: nat, rest: seq<Member>, fmt: bool, depth: nat)
    requires rest != [] && Has(c, k, MemberEnd(fmt, false))
    requires Has(c, k + |MemberEnd(fmt, false)|, RenderMembers(rest, fmt, depth))
    ensures var b := k + |MemberEnd(fmt, false)|;
      && b < |c| && c[k] == ',' && Skip(c, k) == k && Skip(c, k + 1) == Skip(c, b)
  {
    hide Has, Skip, RenderMembers, Indent;
    var b := k + |MemberEnd(fmt, false)|;
    HasAt(c, k, MemberEnd(fmt, false), 0);
    if fmt { HasAt(c, k, MemberEnd(fmt, false), 1); }
    MembersStart(c, b, rest, fmt, depth);
    SkipOver(c, k + 1, b);
    SkipTo(c, k, k);
  }

  lemma {:induction false} MembersRead(c: string, from: nat, i: nat, members: seq<Member>, fmt: bool,
          depth: nat, level: nat)
    requires Terminated(c) && members != [] && MembersStandard(members)
    requires MembersPrintable(members) && level <= NESTING_LIMIT
    requires depth > 0 && from < |c| && i < |c| && Skip(c, from) == Skip(c, i)
    requires Has(c, i, RenderMembers(members, fmt, depth))
    requires Has(c, i + |RenderMembers(members, fmt, depth)|, Indent(fmt, depth - 1) + "}")
    requires i + |RenderMembers(members, fmt, depth)| + |Indent(fmt, depth - 1)| + 1 < |c|
    ensures ParseMembers(c, from, level) ==
      Bounded(level + MembersHeight(members) <= NESTING_LIMIT, members,
              i + |RenderMembers(members, fmt, depth)| + |Indent(fmt, depth - 1)| + 1)
    decreases members, 2, 0
  {
    hide Has, Indent, RenderMember, RenderMembers, MemberEnd;
    hide Skip, ParseMember, Standard, Printable, Height, Terminated;
    FirstMember(c, i, members, fmt, depth);
    var k := i + |RenderMember(members[0], fmt, depth)|;
    if |members| == 1 {
      AfterLast(c, k, fmt, depth - 1);
      MemberRead(c, from, i, members[0], fmt, depth, level);
      assert members == [members[0]];
    } else {
      NextMember(c, k, members[1..], fmt, depth);
      MemberRead(c, from, i, members[0], fmt, depth, level);
      MembersRead(c, k + 1, k + |MemberEnd(fmt, false)|, members[1..], fmt, depth, level);
      assert members == [members[0]] + members[1..];
    }
  }

  // ---------- The laws ----------

  // For every tree of JSON's own types whose numbers can be printed, and for both
  // formats: parsing the printed text, with nothing left over, gives the tree back
  // exactly when it nests no deeper than the parser allows.
  lemma ParseInvertsPrint(v: Value, fmt: bool)
    requires Standard(v) && Printable(v)
    ensures '\0' !in Render(v, fmt, 0)
    ensures ParseText(Render(v, fmt, 0), true) ==
      if Height(v) <= NESTING_LIMIT then Some((v, |Render(v, fmt, 0)|)) else None
  {
    hide Render, Standard, Printable, Rooted, Height;
    RenderNulFree(v, fmt, 0);
    RootRead(v, fmt);
  }

  // In particular every tree whose numbers C keeps exactly.
  lemma PreciseRoundTrip(v: Value, fmt: bool)
    requires Standard(v) && AllPrecise(v)
    ensures '\0' !in Render(v, fmt, 0)
    ensures ParseText(Render(v, fmt, 0), true) ==
      if Height(v) <= NESTING_LIMIT then Some((v, |Render(v, fmt, 0)|)) else None
  {
    hide Render, Standard, Printable, AllPrecise, Height, ParseText;
    PreciseIsPrintable(v);
    ParseInvertsPrint(v, fmt);
  }

  // The three words.
  lemma Words(fmt: bool)
    ensures Render(Null, fmt, 0) == "null" && ParseText("null", true) == Some((Null, 4))
    ensures Render(False, fmt, 0) == "false" && ParseText("false", true) == Some((False, 5))
    ensures Render(True, fmt, 0) == "true" && ParseText("true", true) == Some((True, 4))
  {
    hide ParseText;
    ParseInvertsPrint(Null, fmt);
    ParseInvertsPrint(False, fmt);
    ParseInvertsPrint(True, fmt);
  }

  lemma RootRead(v: Value, fmt: bool)
    requires Standard(v) && Printable(v)
    ensures var c := Render(v, fmt, 0) + "\0";
      Rooted(c, true) == Bounded(Height(v) <= NESTING_LIMIT, v, |c| - 1)
  {
    RenderStarts(v, fmt, 0);
    NoMark(v, fmt);
    hide Render, Standard, Printable, ParseValue, Height, AfterMark;
    WholeRead(v, fmt);
    var t := Render(v, fmt, 0);
    var c := t + "\0";
    assert c[0] == t[0];
    SkipTo(c, 0, 0);
    assert Skip(c, |t|) == |t|;
  }

  lemma WholeRead(v: Value, fmt: bool)
    requires Standard(v) && Printable(v)
    ensures var t := Render(v, fmt, 0);
      ParseValue(t + "\0", 0, 0) == Bounded(Height(v) <= NESTING_LIMIT, v, |t|)
  {
    hide Render, Standard, Printable, ParseValue, Height;
    var t := Render(v, fmt, 0);
    assert Has(t + "\0", 0, t);
    ValueRead(t + "\0", 0, v, fmt, 0, 0);
  }

  lemma NoMark(v: Value, fmt: bool)
    requires Standard(v)
    ensures AfterMark(Render(v, fmt, 0) + "\0") == 0
  {
    var t := Render(v, fmt, 0);
    RenderStarts(v, fmt, 0);
    if v.Num? { NumberTextChars(v.number); }
    assert t[0] != 0xEF as char;
    assert |t| >= 3 ==> (t + "\0")[..3][0] == t[0];
  }

  // Parsing, printing and parsing again is parsing once: printed text is a
  // canonical form of every accepted text, and printing it again changes nothing.
  lemma PrintIsCanonical(text: CString, toTheEnd: bool, fmt: bool)
    requires ParseText(text, toTheEnd).Some? && Printable(ParseText(text, toTheEnd).value.0)
    ensures var v := ParseText(text, toTheEnd).value.0;
      && '\0' !in Render(v, fmt, 0)
      && ParseText(Render(v, fmt, 0), true) == Some((v, |Render(v, fmt, 0)|))
  {
    hide ParseValue, Render, Printable;
    var v, c := ParseText(text, toTheEnd).value.0, text + "\0";
    ParsedTree(c, Skip(c, AfterMark(c)), 0);
    ParseInvertsPrint(v, fmt);
  }
}
