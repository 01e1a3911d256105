/**
  The language the parser accepts, as a grammar: that of RFC 8259 and what the parser takes
  beyond it. Every text of it is read for what it denotes.
  */
module Grammar {
  import opened Text
  import opened Decimals
  import opened Strings
  import opened Values
  import opened Parsing
  import RoundTrip

  // ---------- Texts ----------

  // Any byte up to 32 counts as space.
  predicate Space(s: string) { forall k | 0 <= k < |s| :: '\0' < s[k] <= ' ' }

  type DigitString = s: string | AllDigits(s)

  datatype Numeral =
    Numeral(minus: bool, whole: DigitString, point: bool, fraction: DigitString, power: Option<Power>)

  datatype Power = Power(mark: string, sign: string, digits: DigitString)

  // The bytes between the quotes.
  datatype Quoted = Quoted(source: string)

  // `blank` is what stands between the brackets of an empty list or record.
  datatype Syntax =
    | Word(value: Value)
    | Numeric(numeral: Numeral)
    | Literal(quoted: Quoted)
    | List(blank: string, items: seq<Element>)
    | Record(blank: string, fields: seq<Field>)

  // A value and the space around it.
  datatype Element = Element(before: string, value: Syntax, after: string)

  datatype Field = Field(before: string, name: Quoted, between: string, element: Element)

  function PowerText(p: Option<Power>): string {
    if p.None? then "" else p.value.mark + (p.value.sign + p.value.digits)
  }

  function PointText(n: Numeral): string { (if n.point then "." else "") + n.fraction }

  function NumeralText(n: Numeral): string {
    (if n.minus then "-" else "") + (n.whole + (PointText(n) + PowerText(n.power)))
  }

  function QuotedText(q: Quoted): string { "\"" + (q.source + "\"") }

  function Spell(x: Syntax): string
    decreases x, 0
  {
    match x
    case Word(v) => if v.Null? then "null" else if v.False? then "false" else "true"
    case Numeric(n) => NumeralText(n)
    case Literal(q) => QuotedText(q)
    case List(blank, items) => "[" + ((if items == [] then blank else SpellItems(items)) + "]")
    case Record(blank, fields) => "{" + ((if fields == [] then blank else SpellFields(fields)) + "}")
  }

  function SpellElement(e: Element): string
    decreases e, 1
  {
    e.before + (Spell(e.value) + e.after)
  }

  function SpellItems(items: seq<Element>): string
    requires items != []
    decreases items
  {
    SpellElement(items[0]) + if |items| == 1 then "" else "," + SpellItems(items[1..])
  }

  function SpellField(f: Field): string
    decreases f, 2
  {
    f.before + (QuotedText(f.name) + (f.between + (":" + SpellElement(f.element))))
  }

  function SpellFields(fields: seq<Field>): string
    requires fields != []
    decreases fields
  {
    SpellField(fields[0]) + if |fields| == 1 then "" else "," + SpellFields(fields[1..])
  }

  predicate PowerOk(p: Power) {
    && (p.mark == "e" || p.mark == "E") && (p.sign == "" || p.sign == "+" || p.sign == "-")
    && p.digits != ""
  }

  // A digit at least on one side of the point, in front of it unless there is a minus
  // sign; the parser copies at most 63 characters of a number.
  predicate NumeralOk(n: Numeral) {
    && (n.whole != "" || (n.minus && n.fraction != "")) && (n.fraction != "" ==> n.point)
    && (n.power.Some? ==> PowerOk(n.power.value)) && |NumeralText(n)| <= NUMBER_BUFFER
  }

  // The closing quote is the first one that no escape swallows.
  ghost predicate QuotedOk(q: Quoted) {
    ClosesAt(q.source + "\"", 0, |q.source|) && '\0' !in q.source
  }

  ghost predicate SyntaxOk(x: Syntax)
    decreases x, 0
  {
    match x
    case Word(v) => v.Null? || v.False? || v.True?
    case Numeric(n) => NumeralOk(n)
    case Literal(q) => QuotedOk(q)
    case List(blank, items) => Space(blank) && ItemsOk(items)
    case Record(blank, fields) => Space(blank) && FieldsOk(fields)
  }

  ghost predicate ElementOk(e: Element)
    decreases e, 1
  {
    Space(e.before) && SyntaxOk(e.value) && Space(e.after)
  }

  ghost predicate ItemsOk(items: seq<Element>)
    decreases items
  {
    items == [] || (ElementOk(items[0]) && ItemsOk(items[1..]))
  }

  ghost predicate FieldOk(f: Field)
    decreases f, 2
  {
    Space(f.before) && QuotedOk(f.name) && Space(f.between) && ElementOk(f.element)
  }

  ghost predicate FieldsOk(fields: seq<Field>)
    decreases fields
  {
    fields == [] || (FieldOk(fields[0]) && FieldsOk(fields[1..]))
  }

  // ---------- What they denote ----------

  function PowerValue(p: Option<Power>): int {
    if p.None? then 0 else Signed(p.value.sign == "-", NatOf(p.value.digits))
  }

  function NumeralValue(n: Numeral): Number {
    Normalize(n.minus, Join(n.whole, n.fraction), PowerValue(n.power) - |n.fraction|)
  }

  // Nothing, if an escape is wrong or a surrogate stands alone.
  function QuotedValue(q: Quoted): Option<CString> {
    match Decode(q.source + "\"", 0, |q.source|) case None => None case Some(s) => Some(CutAtNul(s))
  }

  function Denote(x: Syntax): Option<Value>
    decreases x, 0
  {
    match x
    case Word(v) => Some(v)
    case Numeric(n) => Some(Num(NumeralValue(n)))
    case Literal(q) => (match QuotedValue(q) case None => None case Some(s) => Some(Str(s)))
    case List(_, items) => (match DenoteItems(items) case None => None case Some(vs) => Some(Array(vs)))
    case Record(_, fields) => (match DenoteFields(fields) case None => None case Some(ms) => Some(Object(ms)))
  }

  function Cons<T>(head: Option<T>, tail: Option<seq<T>>): Option<seq<T>> {
    if head.Some? && tail.Some? then Some([head.value] + tail.value) else None
  }

  function DenoteItems(items: seq<Element>): Option<seq<Value>>
    decreases items
  {
    if items == [] then Some([]) else Cons(Denote(items[0].value), DenoteItems(items[1..]))
  }

  function DenoteField(f: Field): Option<Member>
    decreases f, 2
  {
    var key, v := QuotedValue(f.name), Denote(f.element.value);
    if key.Some? && v.Some? then Some(Member(key.value, v.value)) else None
  }

  function DenoteFields(fields: seq<Field>): Option<seq<Member>>
    decreases fields
  {
    if fields == [] then Some([]) else Cons(DenoteField(fields[0]), DenoteFields(fields[1..]))
  }

  // ---------- Numbers and literals ----------

  lemma NumeralParts(n: Numeral)
    ensures var t, s := NumeralText(n), if n.minus then 1 else 0;
      var p := s + |n.whole| + |PointText(n)|;
      && Has(t, s, n.whole) && Has(t, s + |n.whole|, PointText(n)) && Has(t, p, PowerText(n.power))
      && |t| == p + |PowerText(n.power)| && (n.minus ==> t[0] == '-')
      && (!n.minus && n.whole != "" ==> t[0] == n.whole[0])
  {
    hide Has, PointText, PowerText, AllDigits;
    var t, s := NumeralText(n), if n.minus then 1 else 0;
    HasAll(t);
    HasSplit(t, 0, if n.minus then "-" else "", n.whole + (PointText(n) + PowerText(n.power)));
    HasSplit(t, s, n.whole, PointText(n) + PowerText(n.power));
    HasSplit(t, s + |n.whole|, PointText(n), PowerText(n.power));
  }

  lemma NumeralRead(n: Numeral)
    requires NumeralOk(n)
    ensures Strtod(NumeralText(n)) == (|NumeralText(n)|, NumeralValue(n))
  {
    hide NatOf, Join, Normalize, ScanSignificand, ScanExponent, Has, PointText, PowerText, PowerValue, NumeralText;
    var s := if n.minus then 1 else 0;
    NumeralParts(n);
    PowerStart(n.power);
    NumeralScan(NumeralText(n), s, n);
    PowerRead(NumeralText(n), s + |n.whole| + |PointText(n)|, n.power);
    FirstDigit(n.whole);
  }

  lemma NumeralScan(t: string, s: nat, n: Numeral)
    requires (n.fraction != "" ==> n.point) && (n.power.Some? ==> PowerOk(n.power.value))
    requires Has(t, s, n.whole) && Has(t, s + |n.whole|, PointText(n))
    requires var p := s + |n.whole| + |PointText(n)|;
      && Has(t, p, PowerText(n.power)) && |t| == p + |PowerText(n.power)|
    ensures ScanSignificand(t, s) ==
      Significand(s + |n.whole| + |PointText(n)|, Join(n.whole, n.fraction), |n.whole|, |n.fraction|)
  {
    hide NatOf, Join, ScanSignificand, Has, PowerText;
    var p := s + |n.whole| + |PointText(n)|;
    PowerStart(n.power);
    if PowerText(n.power) != "" { HasAt(t, p, PowerText(n.power), 0); }
    if n.point {
      HasSplit(t, s + |n.whole|, ".", n.fraction);
      HasAt(t, s + |n.whole|, ".", 0);
      HasFits(t, s + |n.whole|, ".");
      ScanBoth(t, s, n.whole, n.fraction);
    } else {
      JoinNone(n.whole);
      ScanWhole(t, s, n.whole);
    }
  }

  lemma FirstDigit(a: DigitString)
    ensures a != "" ==> IsDigit(a[0]) && !IsSign(a[0])
  {}

  lemma PowerStart(p: Option<Power>)
    requires p.Some? ==> PowerOk(p.value)
    ensures PowerText(p) != "" ==> !IsDigit(PowerText(p)[0]) && PowerText(p)[0] != '.'
  {}

  lemma PowerRead(t: string, i: nat, p: Option<Power>)
    requires (p.Some? ==> PowerOk(p.value)) && Has(t, i, PowerText(p)) && |t| == i + |PowerText(p)|
    ensures ScanExponent(t, i) == (|t|, PowerValue(p))
  {
    hide NatOf, Has, Signed, DigitEnd;
    if p.Some? { SomePowerRead(t, i, p.value); }
  }

  lemma SomePowerRead(t: string, i: nat, p: Power)
    requires PowerOk(p) && Has(t, i, p.mark + (p.sign + p.digits)) && |t| == i + |p.mark + (p.sign + p.digits)|
    ensures ScanExponent(t, i) == (|t|, Signed(p.sign == "-", NatOf(p.digits)))
  {
    hide NatOf, Has, Signed, ScanExponent, AllDigits;
    HasSplit(t, i, p.mark, p.sign + p.digits);
    HasSplit(t, i + 1, p.sign, p.digits);
    ScanPower(t, i, p.mark, p.sign, p.digits);
  }

  lemma NumeralChars(n: Numeral)
    requires NumeralOk(n)
    ensures var t := NumeralText(n); t != "" && (IsDigit(t[0]) || t[0] == '-') && NumberChars(t)
  {
    hide PointText, PowerText, NumberChars;
    NumeralParts(n);
    DigitChars(n.whole);
    PointChars(n);
    PowerChars(n.power);
    JoinChars(PointText(n), PowerText(n.power));
    JoinChars(n.whole, PointText(n) + PowerText(n.power));
    JoinChars(if n.minus then "-" else "", n.whole + (PointText(n) + PowerText(n.power)));
  }

  lemma PointChars(n: Numeral)
    ensures NumberChars(PointText(n))
  {}

  lemma PowerChars(p: Option<Power>)
    requires p.Some? ==> PowerOk(p.value)
    ensures NumberChars(PowerText(p))
  {}

  lemma NumberSpelled(c: string, i: nat, n: Numeral)
    requires NumeralOk(n) && Has(c, i, NumeralText(n))
    requires i + |NumeralText(n)| < |c| && !IsNumberChar(c[i + |NumeralText(n)|])
    ensures ParseNumber(c, i) == Parsed(NumeralValue(n), i + |NumeralText(n)|)
  {
    hide NumeralText, NumeralValue, Strtod, NumeralOk;
    NumeralShort(n);
    NumeralChars(n);
    RoundTrip.NumberEndOf(c, i, NumeralText(n), NUMBER_BUFFER);
    NumeralRead(n);
  }

  lemma NumeralShort(n: Numeral)
    requires NumeralOk(n)
    ensures |NumeralText(n)| <= NUMBER_BUFFER
  {}

  lemma LiteralSpelled(c: string, i: nat, q: Quoted)
    requires QuotedOk(q) && Has(c, i, QuotedText(q))
    ensures i + |QuotedText(q)| <= |c| && c[i] == '\"'
    ensures ParseString(c, i) ==
      match QuotedValue(q) { case None => Failed case Some(s) => Parsed(s, i + |QuotedText(q)|) }
  {
    hide Has, Decode, ScanString;
    var t := q.source + "\"";
    HasAt(c, i, QuotedText(q), 0);
    HasSplit(c, i, "\"", t);
    HasFits(c, i + 1, t);
    forall k | 0 <= k <= |q.source| ensures c[i + 1 + k - 0] == t[k] { HasAt(c, i + 1, t, k); }
    ScanMoves(t, 0, c, i + 1, |q.source|);
    DecodeMoves(t, 0, |q.source|, c, i + 1);
  }

  lemma HasFits(c: string, i: nat, t: string)
    requires Has(c, i, t)
    ensures i + |t| <= |c|
  {}

  // ---------- Space ----------

  // The space `s` at `i` is skipped, up to what follows it.
  lemma SpaceSkipped(c: string, i: nat, s: string)
    requires Space(s) && Has(c, i, s) && i + |s| < |c| && (IsBlank(c[i + |s|]) ==> i + |s| == |c| - 1)
    ensures Skip(c, i) == i + |s| && !IsNumberChar(if s == "" then ' ' else c[i])
  {
    hide Has, Skip;
    forall k | i <= k < i + |s| ensures IsBlank(c[k]) && c[k] == s[k - i] { HasAt(c, i, s, k - i); }
    RoundTrip.SkipTo(c, i, i + |s|);
  }

  // What can stand behind a value.
  predicate Ends(c: string, k: nat) {
    k < |c| && (c[k] == ',' || c[k] == ']' || c[k] == '}' || (c[k] == '\0' && k == |c| - 1))
  }

  lemma SpellStarts(x: Syntax)
    requires SyntaxOk(x)
    ensures RoundTrip.Starts(Spell(x)) && Spell(x)[0] != BYTE_ORDER_MARK[0]
  {
    hide NumeralOk, NumeralText, QuotedOk;
    if x.Numeric? { NumeralChars(x.numeral); }
  }

  // ---------- Values ----------

  function Within<T>(v: Option<T>, height: nat, next: nat): Parse<T> {
    if v.Some? && height <= NESTING_LIMIT then Parsed(v.value, next) else Failed
  }

  function ValueResult(x: Syntax, level: nat, next: nat): Parse<Value> {
    var v := Denote(x); Within(v, level + if v.Some? then Height(v.value) else 0, next)
  }

  function ItemsResult(items: seq<Element>, level: nat, next: nat): Parse<seq<Value>> {
    var vs := DenoteItems(items); Within(vs, level + if vs.Some? then ItemsHeight(vs.value) else 0, next)
  }

  function FieldResult(f: Field, level: nat, next: nat): Parse<Member> {
    var m := DenoteField(f); Within(m, level + if m.Some? then Height(m.value.value) else 0, next)
  }

  function FieldsResult(fields: seq<Field>, level: nat, next: nat): Parse<seq<Member>> {
    var ms := DenoteFields(fields); Within(ms, level + if ms.Some? then MembersHeight(ms.value) else 0, next)
  }

  lemma {:induction false} ValueSpelled(c: string, i: nat, x: Syntax, level: nat)
    requires Terminated(c) && SyntaxOk(x) && level <= NESTING_LIMIT && Has(c, i, Spell(x))
    requires i + |Spell(x)| < |c| && !IsNumberChar(c[i + |Spell(x)|])
    ensures i < |c| && ParseValue(c, i, level) == ValueResult(x, level, i + |Spell(x)|)
    decreases x, 0
  {
    hide Has, ParseString, ParseNumber, ParseArray, ParseObject, NumeralText, NumeralOk, NumeralValue, QuotedText,
      QuotedOk, QuotedValue, SpellItems, SpellFields, ItemsOk, FieldsOk, DenoteItems, DenoteFields, ItemsHeight,
      MembersHeight, Space;
    SpellStarts(x);
    HasAt(c, i, Spell(x), 0);
    match x
    case Word(v) => WordSpelled(c, i, v, level);
    case Numeric(n) =>
      NumeralChars(n);
      NumberSpelled(c, i, n);
      RoundTrip.Dispatch(c, i);
    case Literal(q) =>
      LiteralSpelled(c, i, q);
      RoundTrip.Dispatch(c, i);
    case List(blank, items) =>
      RoundTrip.Dispatch(c, i);
      ListSpelled(c, i, blank, items, level);
    case Record(blank, fields) =>
      RoundTrip.Dispatch(c, i);
      RecordSpelled(c, i, blank, fields, level);
  }

  lemma WordSpelled(c: string, i: nat, v: Value, level: nat)
    requires Terminated(c) && i < |c| && (v.Null? || v.False? || v.True?) && level <= NESTING_LIMIT
    requires Has(c, i, Spell(Word(v)))
    ensures ParseValue(c, i, level) == Parsed(v, i + |Spell(Word(v))|)
  {
    hide ParseString, ParseNumber, ParseArray, ParseObject;
    RoundTrip.WordRead(c, i, v, true, 0, level);
  }

  // An element: the value behind its space, and the space behind the value.
  lemma {:induction false} ElementSpelled(c: string, i: nat, e: Element, level: nat)
    requires Terminated(c) && ElementOk(e) && level <= NESTING_LIMIT && Has(c, i, SpellElement(e))
    requires Ends(c, i + |SpellElement(e)|)
    ensures var j := i + |e.before|; var k := j + |Spell(e.value)|;
      && i < |c| && Skip(c, i) == j && ParseValue(c, j, level) == ValueResult(e.value, level, k)
      && k < |c| && Skip(c, k) == i + |SpellElement(e)| && c[j] != ']'
    decreases e, 1
  {
    hide Has, Spell, SyntaxOk, Space, ParseValue, Skip, ValueResult, Terminated;
    var j := i + |e.before|;
    var k := j + |Spell(e.value)|;
    HasSplit(c, i, e.before, Spell(e.value) + e.after);
    HasSplit(c, j, Spell(e.value), e.after);
    SpellStarts(e.value);
    HasAt(c, j, Spell(e.value), 0);
    SpaceSkipped(c, i, e.before);
    SpaceSkipped(c, k, e.after);
    ValueSpelled(c, j, e.value, level);
  }

  // ---------- Lists ----------

  lemma Bracketed(c: string, i: nat, open: string, t: string, close: string)
    requires |open| == |close| == 1 && Has(c, i, open + (t + close))
    ensures Has(c, i + 1, t) && i + 1 + |t| < |c| && c[i + 1 + |t|] == close[0]
  {
    hide Has;
    HasSplit(c, i, open, t + close);
    HasSplit(c, i + 1, t, close);
    HasAt(c, i + 1 + |t|, close, 0);
    HasFits(c, i + 1 + |t|, close);
  }

  lemma {:induction false} ListSpelled(c: string, i: nat, blank: string, items: seq<Element>, level: nat)
    requires Terminated(c) && Space(blank) && ItemsOk(items) && level <= NESTING_LIMIT
    requires i < |c| && c[i] == '[' && Has(c, i, Spell(List(blank, items))) && i + |Spell(List(blank, items))| < |c|
    ensures ParseArray(c, i, level) == ValueResult(List(blank, items), level, i + |Spell(List(blank, items))|)
    decreases items, 3
  {
    hide Has, SpellItems, ItemsOk, DenoteItems, ItemsHeight, ParseItems, Space, Skip;
    var t := if items == [] then blank else SpellItems(items);
    Bracketed(c, i, "[", t, "]");
    if items == [] {
      SpaceSkipped(c, i + 1, blank);
      NoItems();
    } else if level < NESTING_LIMIT {
      ItemsSpelled(c, i + 1, items, level + 1);
      ItemsFrom(c, i + 1, level + 1);
    }
  }

  lemma NoItems()
    ensures DenoteItems([]) == Some([]) && ItemsHeight([]) == 0
    ensures DenoteFields([]) == Some([]) && MembersHeight([]) == 0
  {}

  // Skipping first makes no difference to reading items.
  lemma ItemsFrom(c: string, i: nat, level: nat)
    requires Terminated(c) && i < |c|
    ensures ParseItems(c, Skip(c, i), level) == ParseItems(c, i, level)
  {
    hide ParseValue;
  }

  // Items one at a time.
  lemma ItemsStep(items: seq<Element>)
    requires items != []
    ensures var v, rest := Denote(items[0].value), DenoteItems(items[1..]);
      && (|items| == 1 ==> rest == Some([])) && DenoteItems(items) == Cons(v, rest)
      && (v.Some? && rest.Some? ==>
            ItemsHeight([v.value] + rest.value) == Max(Height(v.value), ItemsHeight(rest.value)))
      && ItemsHeight([]) == 0 && (v.Some? ==> [v.value] + [] == [v.value])
  {
    hide Denote, Height;
    var v, rest := Denote(items[0].value), DenoteItems(items[1..]);
    if v.Some? && rest.Some? { assert ([v.value] + rest.value)[1..] == rest.value; }
  }

  lemma ItemsOne(c: string, i: nat, items: seq<Element>, level: nat, j: nat, k: nat)
    requires Terminated(c) && |items| == 1 && i < |c| && Skip(c, i) == j && k < |c| && c[Skip(c, k)] == ']'
    requires ParseValue(c, j, level) == ValueResult(items[0].value, level, k)
    ensures ParseItems(c, i, level) == ItemsResult(items, level, Skip(c, k) + 1)
  {
    hide Denote, DenoteItems, ParseValue, Height, ItemsHeight, Skip;
    ItemsStep(items);
  }

  lemma ItemsMore(c: string, i: nat, items: seq<Element>, level: nat, j: nat, k: nat, next: nat)
    requires Terminated(c) && |items| > 1 && i < |c| && Skip(c, i) == j && k < |c| && c[Skip(c, k)] == ','
    requires ParseValue(c, j, level) == ValueResult(items[0].value, level, k) && Skip(c, k) + 1 < |c|
    requires ParseItems(c, Skip(c, k) + 1, level) == ItemsResult(items[1..], level, next)
    ensures ParseItems(c, i, level) == ItemsResult(items, level, next)
  {
    hide Denote, DenoteItems, ParseValue, Height, ItemsHeight, Skip;
    ItemsStep(items);
  }

  lemma CommaSplit(c: string, i: nat, a: string, b: string)
    requires Has(c, i, a + ("," + b))
    ensures Has(c, i, a) && i + |a| < |c| && c[i + |a|] == ',' && Has(c, i + |a| + 1, b)
  {
    hide Has;
    HasSplit(c, i, a, "," + b);
    HasSplit(c, i + |a|, ",", b);
    HasAt(c, i + |a|, ",", 0);
    HasFits(c, i + |a|, ",");
  }

  // Where the first element ends, and where the others stand.
  lemma ItemsSplit(c: string, i: nat, items: seq<Element>)
    requires items != [] && ItemsOk(items) && Has(c, i, SpellItems(items))
    ensures var m := i + |SpellElement(items[0])|;
      && ElementOk(items[0]) && Has(c, i, SpellElement(items[0]))
      && (|items| == 1 ==> m == i + |SpellItems(items)|)
      && (|items| > 1 ==>
            && m < |c| && c[m] == ',' && ItemsOk(items[1..]) && Has(c, m + 1, SpellItems(items[1..]))
            && m + 1 + |SpellItems(items[1..])| == i + |SpellItems(items)|)
  {
    hide *;
    ItemsParts(items);
    if |items| == 1 {
      HasSplit(c, i, SpellElement(items[0]), "");
    } else {
      CommaSplit(c, i, SpellElement(items[0]), SpellItems(items[1..]));
    }
  }

  lemma ItemsParts(items: seq<Element>)
    requires items != [] && ItemsOk(items)
    ensures ElementOk(items[0]) && ItemsOk(items[1..])
    ensures SpellItems(items) == SpellElement(items[0]) + if |items| == 1 then "" else "," + SpellItems(items[1..])
  {
    hide SpellElement, ElementOk;
  }

  lemma {:induction false} ItemsSpelled(c: string, i: nat, items: seq<Element>, level: nat)
    requires Terminated(c) && items != [] && ItemsOk(items) && level <= NESTING_LIMIT && Has(c, i, SpellItems(items))
    requires i + |SpellItems(items)| + 1 < |c| && c[i + |SpellItems(items)|] == ']'
    ensures i < |c| && ParseItems(c, i, level) == ItemsResult(items, level, i + |SpellItems(items)| + 1)
    ensures c[Skip(c, i)] != ']'
    decreases items, 2
  {
    hide *;
    var e := items[0];
    var m := i + |SpellElement(e)|;
    var j := i + |e.before|;
    var k := j + |Spell(e.value)|;
    ItemsSplit(c, i, items);
    EndsAt(c, m);
    ElementSpelled(c, i, e, level);
    if |items| == 1 {
      ItemsOne(c, i, items, level, j, k);
    } else {
      ItemsSpelled(c, m + 1, items[1..], level);
      ItemsMore(c, i, items, level, j, k, i + |SpellItems(items)| + 1);
    }
  }

  lemma EndsAt(c: string, k: nat)
    requires k < |c| && (c[k] == ',' || c[k] == ']' || c[k] == '}')
    ensures Ends(c, k)
  {}

  // ---------- Records ----------

  lemma {:induction false} RecordSpelled(c: string, i: nat, blank: string, fields: seq<Field>, level: nat)
    requires Terminated(c) && Space(blank) && FieldsOk(fields) && level <= NESTING_LIMIT
    requires i < |c| && c[i] == '{' && Has(c, i, Spell(Record(blank, fields)))
    requires i + |Spell(Record(blank, fields))| < |c|
    ensures ParseObject(c, i, level) == ValueResult(Record(blank, fields), level, i + |Spell(Record(blank, fields))|)
    decreases fields, 4
  {
    hide Has, SpellFields, FieldsOk, DenoteFields, MembersHeight, ParseMembers, Space, Skip;
    var t := if fields == [] then blank else SpellFields(fields);
    Bracketed(c, i, "{", t, "}");
    if fields == [] {
      SpaceSkipped(c, i + 1, blank);
      NoItems();
    } else if level < NESTING_LIMIT {
      FieldsSpelled(c, i + 1, fields, level + 1);
      MembersFrom(c, i + 1, level + 1);
    }
  }

  lemma MembersFrom(c: string, i: nat, level: nat)
    requires Terminated(c) && i < |c|
    ensures ParseMembers(c, Skip(c, i), level) == ParseMembers(c, i, level)
  {
    hide ParseString, ParseValue;
    assert Skip(c, Skip(c, i)) == Skip(c, i);
  }

  lemma FieldSplit(c: string, i: nat, before: string, name: string, between: string, element: string)
    requires Has(c, i, before + (name + (between + (":" + element))))
    ensures var j := i + |before|; var k := j + |name|; var m := k + |between|;
      Has(c, i, before) && Has(c, j, name) && Has(c, k, between) && Has(c, m, ":") && Has(c, m + 1, element)
  {
    hide *;
    var j := i + |before|;
    HasSplit(c, i, before, name + (between + (":" + element)));
    HasSplit(c, j, name, between + (":" + element));
    HasSplit(c, j + |name|, between, ":" + element);
    HasSplit(c, j + |name| + |between|, ":", element);
  }

  // Where the parts of a field stand.
  lemma FieldParts(c: string, i: nat, f: Field)
    requires FieldOk(f) && Has(c, i, SpellField(f)) && i + |SpellField(f)| < |c|
    ensures var j := i + |f.before|; var k := j + |QuotedText(f.name)|; var m := k + |f.between|;
      && i < |c| && Skip(c, i) == j && c[j] == '\"' && Has(c, j, QuotedText(f.name))
      && k < |c| && Skip(c, k) == m && m < |c| && c[m] == ':'
      && Has(c, m + 1, SpellElement(f.element)) && m + 1 + |SpellElement(f.element)| == i + |SpellField(f)|
  {
    hide Has, SpellElement, ElementOk, Space, Skip, QuotedOk, QuotedText;
    var j := i + |f.before|;
    var k := j + |QuotedText(f.name)|;
    var m := k + |f.between|;
    FieldSplit(c, i, f.before, QuotedText(f.name), f.between, SpellElement(f.element));
    HasAt(c, m, ":", 0);
    LiteralSpelled(c, j, f.name);
    SpaceSkipped(c, i, f.before);
    SpaceSkipped(c, k, f.between);
  }

  lemma {:induction false} FieldSpelled(c: string, i: nat, f: Field, level: nat) returns (k: nat)
    requires Terminated(c) && FieldOk(f) && level <= NESTING_LIMIT && Has(c, i, SpellField(f))
    requires Ends(c, i + |SpellField(f)|)
    ensures i < |c| && c[Skip(c, i)] == '\"' && ParseMember(c, i, level) == FieldResult(f, level, k)
    ensures k < |c| && Skip(c, k) == i + |SpellField(f)|
    decreases f, 2
  {
    hide Has, SpellElement, SpellField, ElementOk, Space;
    hide Skip, QuotedOk, QuotedText, QuotedValue, ParseString, ParseValue;
    hide Denote, Height, Spell, Terminated;
    var j := i + |f.before|;
    var m := j + |QuotedText(f.name)| + |f.between|;
    FieldParts(c, i, f);
    LiteralSpelled(c, j, f.name);
    ElementSpelled(c, m + 1, f.element, level);
    k := m + 1 + |f.element.before| + |Spell(f.element.value)|;
  }

  lemma FieldsStep(fields: seq<Field>)
    requires fields != []
    ensures var m, rest := DenoteField(fields[0]), DenoteFields(fields[1..]);
      && (|fields| == 1 ==> rest == Some([])) && DenoteFields(fields) == Cons(m, rest)
      && (m.Some? && rest.Some? ==>
            MembersHeight([m.value] + rest.value) == Max(Height(m.value.value), MembersHeight(rest.value)))
      && MembersHeight([]) == 0 && (m.Some? ==> [m.value] + [] == [m.value])
  {
    hide DenoteField, Height;
    var m, rest := DenoteField(fields[0]), DenoteFields(fields[1..]);
    if m.Some? && rest.Some? { assert ([m.value] + rest.value)[1..] == rest.value; }
  }

  lemma FieldsOne(c: string, i: nat, fields: seq<Field>, level: nat, k: nat)
    requires Terminated(c) && |fields| == 1 && i < |c| && k < |c| && c[Skip(c, k)] == '}'
    requires ParseMember(c, i, level) == FieldResult(fields[0], level, k)
    ensures ParseMembers(c, i, level) == FieldsResult(fields, level, Skip(c, k) + 1)
  {
    hide DenoteField, DenoteFields, ParseMember, Height, MembersHeight, Skip;
    FieldsStep(fields);
  }

  lemma FieldsMore(c: string, i: nat, fields: seq<Field>, level: nat, k: nat, next: nat)
    requires Terminated(c) && |fields| > 1 && i < |c| && k < |c| && c[Skip(c, k)] == ','
    requires ParseMember(c, i, level) == FieldResult(fields[0], level, k) && Skip(c, k) + 1 < |c|
    requires ParseMembers(c, Skip(c, k) + 1, level) == FieldsResult(fields[1..], level, next)
    ensures ParseMembers(c, i, level) == FieldsResult(fields, level, next)
  {
    hide DenoteField, DenoteFields, ParseMember, Height, MembersHeight, Skip;
    FieldsStep(fields);
  }

  lemma FieldsSplit(c: string, i: nat, fields: seq<Field>)
    requires fields != [] && FieldsOk(fields) && Has(c, i, SpellFields(fields))
    ensures var m := i + |SpellField(fields[0])|;
      && FieldOk(fields[0]) && Has(c, i, SpellField(fields[0]))
      && (|fields| == 1 ==> m == i + |SpellFields(fields)|)
      && (|fields| > 1 ==>
            && m < |c| && c[m] == ',' && FieldsOk(fields[1..]) && Has(c, m + 1, SpellFields(fields[1..]))
            && m + 1 + |SpellFields(fields[1..])| == i + |SpellFields(fields)|)
  {
    hide *;
    FieldsParts(fields);
    if |fields| == 1 {
      HasSplit(c, i, SpellField(fields[0]), "");
    } else {
      CommaSplit(c, i, SpellField(fields[0]), SpellFields(fields[1..]));
    }
  }

  lemma FieldsParts(fields: seq<Field>)
    requires fields != [] && FieldsOk(fields)
    ensures FieldOk(fields[0]) && FieldsOk(fields[1..])
    ensures SpellFields(fields) == SpellField(fields[0]) + if |fields| == 1 then "" else "," + SpellFields(fields[1..])
  {
    hide SpellField, FieldOk;
  }

  lemma {:induction false} FieldsSpelled(c: string, i: nat, fields: seq<Field>, level: nat)
    requires Terminated(c) && fields != [] && FieldsOk(fields) && level <= NESTING_LIMIT
    requires Has(c, i, SpellFields(fields))
    requires i + |SpellFields(fields)| + 1 < |c| && c[i + |SpellFields(fields)|] == '}'
    ensures i < |c| && ParseMembers(c, i, level) == FieldsResult(fields, level, i + |SpellFields(fields)| + 1)
    ensures c[Skip(c, i)] != '}'
    decreases fields, 3
  {
    hide *;
    var f := fields[0];
    var m := i + |SpellField(f)|;
    FieldsSplit(c, i, fields);
    EndsAt(c, m);
    var k := FieldSpelled(c, i, f, level);
    if |fields| == 1 {
      FieldsOne(c, i, fields, level, k);
    } else {
      FieldsSpelled(c, m + 1, fields[1..], level);
      FieldsMore(c, i, fields, level, k, i + |SpellFields(fields)| + 1);
    }
  }

  // ---------- No NUL ----------

  lemma {:induction false} ValueNulFree(x: Syntax)
    requires SyntaxOk(x)
    ensures '\0' !in Spell(x)
    decreases x, 0
  {
    hide NumeralText, SpellItems, SpellFields, ItemsOk, FieldsOk, NumeralOk, PiecesAt;
    match x
    case Word(_) =>
    case Numeric(n) => NumeralChars(n);
    case Literal(_) =>
    case List(_, items) => if items != [] { ItemsNulFree(items); }
    case Record(_, fields) => if fields != [] { FieldsNulFree(fields); }
  }

  lemma {:induction false} ElementNulFree(e: Element)
    requires ElementOk(e)
    ensures '\0' !in SpellElement(e)
    decreases e, 1
  {
    hide Spell, SyntaxOk;
    ValueNulFree(e.value);
  }

  lemma {:induction false} ItemsNulFree(items: seq<Element>)
    requires items != [] && ItemsOk(items)
    ensures '\0' !in SpellItems(items)
    decreases items
  {
    hide SpellElement, ElementOk;
    ElementNulFree(items[0]);
    if |items| > 1 { ItemsNulFree(items[1..]); }
  }

  lemma {:induction false} FieldNulFree(f: Field)
    requires FieldOk(f)
    ensures '\0' !in SpellField(f)
    decreases f, 2
  {
    hide SpellElement, ElementOk, PiecesAt;
    ElementNulFree(f.element);
  }

  lemma {:induction false} FieldsNulFree(fields: seq<Field>)
    requires fields != [] && FieldsOk(fields)
    ensures '\0' !in SpellFields(fields)
    decreases fields
  {
    hide SpellField, FieldOk;
    FieldNulFree(fields[0]);
    if |fields| > 1 { FieldsNulFree(fields[1..]); }
  }

  // ---------- Whole texts ----------

  // Every text of the grammar, with space anywhere and numbers of at most 63 characters,
  // is read to its end for what it denotes, if and only if it denotes something, which
  // takes both halves of every surrogate pair, and nests at most 1000 deep.
  lemma GrammarIsParsed(x: Element)
    requires ElementOk(x)
    ensures '\0' !in SpellElement(x)
    ensures ParseText(SpellElement(x), true) ==
      if Denote(x.value).Some? && Height(Denote(x.value).value) <= NESTING_LIMIT
      then Some((Denote(x.value).value, |SpellElement(x)|)) else None
  {
    hide SpellElement, ElementOk, ParseValue, Denote, Height, Skip, Terminated, Spell;
    ElementNulFree(x);
    var t := SpellElement(x);
    var c := t + "\0";
    assert Has(c, 0, t) by { assert c[..|t|] == t; }
    TerminatedText(t);
    ElementSpelled(c, 0, x, 0);
    NoMark(x);
  }

  lemma TerminatedText(t: string)
    ensures Terminated(t + "\0") && |t + "\0"| == |t| + 1 && (t + "\0")[|t|] == '\0'
  {}

  lemma NoMark(x: Element)
    requires ElementOk(x)
    ensures AfterMark(SpellElement(x) + "\0") == 0
  {
    hide Spell, SyntaxOk;
    var t := SpellElement(x);
    SpellStarts(x.value);
    if x.before != "" { assert t[0] == x.before[0]; } else { assert t[0] == Spell(x.value)[0]; }
    assert |t| >= 3 ==> (t + "\0")[..3][0] == t[0];
  }
}
