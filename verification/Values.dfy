/**
  The tree of items as a value, its nesting, and the text that printing it yields.
  */
module Values {
  import opened Text
  import opened Strings
  import opened Decimals

  // NoValue is what an item without a valid type stands for.
  datatype Value =
    | Null
    | False
    | True
    | Num(number: Number)
    | Str(text: CString)
    | Raw(json: CString)
    | Array(items: seq<Value>)
    | Object(members: seq<Member>)
    | NoValue

  datatype Member = Member(key: CString, value: Value)

  // ---------- Nesting ----------

  function Max(a: nat, b: nat): nat { if a > b then a else b }

  function Height(v: Value): nat
    decreases v, 0
  {
    match v
    case Array(items) => 1 + ItemsHeight(items)
    case Object(members) => 1 + MembersHeight(members)
    case _ => 0
  }

  function ItemsHeight(items: seq<Value>): nat
    decreases items
  {
    if items == [] then 0 else Max(Height(items[0]), ItemsHeight(items[1..]))
  }

  function MembersHeight(members: seq<Member>): nat
    decreases members
  {
    if members == [] then 0 else Max(Height(members[0].value), MembersHeight(members[1..]))
  }

  // ---------- Which trees can be printed ----------

  // print_number gives up on a text of more than 25 characters, print_value on an item
  // without a valid type.
  predicate Printable(v: Value)
    decreases v, 0
  {
    match v
    case Num(d) => |NumberText(d)| <= 25
    case NoValue => false
    case Array(items) => ItemsPrintable(items)
    case Object(members) => MembersPrintable(members)
    case _ => true
  }

  predicate ItemsPrintable(items: seq<Value>)
    decreases items
  {
    items == [] || (Printable(items[0]) && ItemsPrintable(items[1..]))
  }

  predicate MembersPrintable(members: seq<Member>)
    decreases members
  {
    members == [] || (Printable(members[0].value) && MembersPrintable(members[1..]))
  }

  // Every item is valid, and every number is what C makes of it.
  predicate AllPrecise(v: Value)
    decreases v, 0
  {
    match v
    case Num(d) => Precise(d)
    case NoValue => false
    case Array(items) => ItemsPrecise(items)
    case Object(members) => MembersPrecise(members)
    case _ => true
  }

  predicate ItemsPrecise(items: seq<Value>)
    decreases items
  {
    items == [] || (AllPrecise(items[0]) && ItemsPrecise(items[1..]))
  }

  predicate MembersPrecise(members: seq<Member>)
    decreases members
  {
    members == [] || (AllPrecise(members[0].value) && MembersPrecise(members[1..]))
  }

  // Trees of such numbers can always be printed.
  lemma {:induction false} PreciseIsPrintable(v: Value)
    requires AllPrecise(v)
    ensures Printable(v)
    decreases v, 0
  {
    hide NumberText, Precise;
    match v
    case Num(d) => PreciseFits(d);
    case Array(items) => ItemsPrecisePrintable(items);
    case Object(members) => MembersPrecisePrintable(members);
    case _ =>
  }

  lemma PreciseFits(d: Number)
    requires Precise(d)
    ensures |NumberText(d)| <= 25
  {
    hide NumberText, Significant, Magnitude;
    ShortFits(d);
  }

  lemma {:induction false} ItemsPrecisePrintable(items: seq<Value>)
    requires ItemsPrecise(items)
    ensures ItemsPrintable(items)
    decreases items
  {
    hide Printable, AllPrecise;
    if items != [] {
      PreciseIsPrintable(items[0]);
      ItemsPrecisePrintable(items[1..]);
    }
  }

  lemma {:induction false} MembersPrecisePrintable(members: seq<Member>)
    requires MembersPrecise(members)
    ensures MembersPrintable(members)
    decreases members
  {
    hide Printable, AllPrecise;
    if members != [] {
      PreciseIsPrintable(members[0].value);
      MembersPrecisePrintable(members[1..]);
    }
  }

  // Every item is of one of JSON's own types: none holds unchecked text, none is invalid.
  predicate Standard(v: Value)
    decreases v, 0
  {
    match v
    case Raw(_) => false
    case NoValue => false
    case Array(items) => ItemsStandard(items)
    case Object(members) => MembersStandard(members)
    case _ => true
  }

  predicate ItemsStandard(items: seq<Value>)
    decreases items
  {
    items == [] || (Standard(items[0]) && ItemsStandard(items[1..]))
  }

  predicate MembersStandard(members: seq<Member>)
    decreases members
  {
    members == [] || (Standard(members[0].value) && MembersStandard(members[1..]))
  }

  // ---------- The text ----------

  function Tabs(n: nat): (t: string)
    ensures |t| == n && forall k | 0 <= k < n :: t[k] == '\t'
  {
    seq(n, _ => '\t')
  }

  function Comma(fmt: bool): string { if fmt then ", " else "," }

  function Colon(fmt: bool): string { if fmt then ":\t" else ":" }

  function Brace(fmt: bool): string { if fmt then "{\n" else "{" }

  function Indent(fmt: bool, depth: nat): string { if fmt then Tabs(depth) else "" }

  // Behind a member: a comma when another one follows, a line end when formatted.
  function MemberEnd(fmt: bool, last: bool): string {
    (if last then "" else ",") + (if fmt then "\n" else "")
  }

  function Render(v: Value, fmt: bool, depth: nat): (t: string)
    decreases v, 0
  {
    match v
    case Null => "null"
    case False => "false"
    case True => "true"
    case Num(d) => NumberText(d)
    case Str(s) => Quote(s)
    case Raw(s) => s
    case NoValue => ""
    case Array(items) => "[" + (RenderItems(items, fmt, depth + 1) + "]")
    case Object(members) => Brace(fmt) + (RenderMembers(members, fmt, depth + 1) + (Indent(fmt, depth) + "}"))
  }

  function RenderItems(items: seq<Value>, fmt: bool, depth: nat): string
    decreases items
  {
    if items == [] then ""
    else Render(items[0], fmt, depth) + ItemsRest(items, fmt, depth)
  }

  function ItemsRest(items: seq<Value>, fmt: bool, depth: nat): string
    requires items != []
    decreases items, 0
  {
    if |items| == 1 then "" else Comma(fmt) + RenderItems(items[1..], fmt, depth)
  }

  function RenderMember(m: Member, fmt: bool, depth: nat): string
    decreases m, 1
  {
    Indent(fmt, depth) + (Quote(m.key) + (Colon(fmt) + Render(m.value, fmt, depth)))
  }

  function RenderMembers(members: seq<Member>, fmt: bool, depth: nat): string
    decreases members
  {
    if members == [] then ""
    else
      RenderMember(members[0], fmt, depth) + (MemberEnd(fmt, |members| == 1) + RenderMembers(members[1..], fmt, depth))
  }

  // ---------- The text is a C string ----------

  lemma {:induction false} RenderNulFree(v: Value, fmt: bool, depth: nat)
    ensures '\0' !in Render(v, fmt, depth)
    decreases v, 0
  {
    hide NumberText, Escape, RenderItems, RenderMembers;
    match v
    case Num(d) => NumberTextChars(d);
    case Str(s) => EscapeNulFree(s);
    case Array(items) => ItemsNulFree(items, fmt, depth + 1);
    case Object(members) => MembersNulFree(members, fmt, depth + 1);
    case _ =>
  }

  lemma {:induction false} ItemsNulFree(items: seq<Value>, fmt: bool, depth: nat)
    ensures '\0' !in RenderItems(items, fmt, depth)
    decreases items
  {
    hide Render;
    if items != [] {
      RenderNulFree(items[0], fmt, depth);
      ItemsNulFree(items[1..], fmt, depth);
    }
  }

  lemma {:induction false} MemberNulFree(m: Member, fmt: bool, depth: nat)
    ensures '\0' !in RenderMember(m, fmt, depth)
    decreases m, 1
  {
    hide Render, Escape;
    EscapeNulFree(m.key);
    RenderNulFree(m.value, fmt, depth);
  }

  lemma {:induction false} MembersNulFree(members: seq<Member>, fmt: bool, depth: nat)
    ensures '\0' !in RenderMembers(members, fmt, depth)
    decreases members, 0
  {
    hide RenderMember;
    if members != [] {
      MemberNulFree(members[0], fmt, depth);
      MembersNulFree(members[1..], fmt, depth);
    }
  }
}
