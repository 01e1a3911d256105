/**
  The grammar of RFC 8259 is a part of the language of the parser.
  */
module Rfc {
  import opened Text
  import opened Strings
  import opened Values
  import opened Parsing
  import opened Grammar

  // Section 2.
  predicate StrictSpace(s: string) {
    forall k | 0 <= k < |s| :: s[k] == ' ' || s[k] == '\t' || s[k] == '\n' || s[k] == '\r'
  }

  // Section 6, within the 63 characters that the parser copies.
  predicate StrictNumeral(n: Numeral) {
    && n.whole != "" && (|n.whole| > 1 ==> n.whole[0] != '0') && (n.point <==> n.fraction != "")
    && (n.power.Some? ==> PowerOk(n.power.value)) && |NumeralText(n)| <= NUMBER_BUFFER
  }

  // Section 7: plain bytes but control bytes, two-character escapes and code units.
  ghost predicate StrictQuoted(q: Quoted, xs: seq<Piece>) {
    PiecesAt(q.source, 0, xs, |q.source|) && forall k | 0 <= k < |q.source| :: q.source[k] >= ' '
  }

  // Sections 3 to 5.
  ghost predicate Strict(x: Syntax)
    decreases x, 0
  {
    match x
    case Word(v) => v.Null? || v.False? || v.True?
    case Numeric(n) => StrictNumeral(n)
    case Literal(q) => exists xs :: StrictQuoted(q, xs)
    case List(blank, items) => StrictSpace(blank) && StrictItems(items)
    case Record(blank, fields) => StrictSpace(blank) && StrictFields(fields)
  }

  ghost predicate StrictElement(e: Element)
    decreases e, 1
  {
    StrictSpace(e.before) && Strict(e.value) && StrictSpace(e.after)
  }

  ghost predicate StrictItems(items: seq<Element>)
    decreases items
  {
    items == [] || (StrictElement(items[0]) && StrictItems(items[1..]))
  }

  ghost predicate StrictField(f: Field)
    decreases f, 2
  {
    && StrictSpace(f.before) && (exists xs :: StrictQuoted(f.name, xs)) && StrictSpace(f.between)
    && StrictElement(f.element)
  }

  ghost predicate StrictFields(fields: seq<Field>)
    decreases fields
  {
    fields == [] || (StrictField(fields[0]) && StrictFields(fields[1..]))
  }

  // A literal of section 7 is one of the parser's, and denotes what its pieces denote.
  lemma LiteralDenotes(q: Quoted, xs: seq<Piece>)
    requires StrictQuoted(q, xs)
    ensures QuotedOk(q)
    ensures QuotedValue(q) == match Meaning(xs) { case None => None case Some(s) => Some(CutAtNul(s)) }
  {
    hide Decode, Meaning, PieceAt, ScanString;
    var t := q.source + "\"";
    PiecesStay(q.source, 0, xs, t);
    ScanPieces(t, 0, xs, |q.source|);
    DecodeMeaning(t, 0, xs, |q.source|);
  }

  lemma {:induction false} PiecesStay(s: string, p: nat, xs: seq<Piece>, t: string)
    requires PiecesAt(s, p, xs, |s|) && |s| <= |t| && t[..|s|] == s
    ensures p <= |s| && PiecesAt(t, p, xs, |s|)
    decreases |xs|
  {
    hide PieceAt;
    if xs != [] {
      PiecesStay(s, p + Width(xs[0]), xs[1..], t);
      PieceStays(s, p, xs[0], t);
    }
  }

  lemma PieceStays(s: string, p: nat, x: Piece, t: string)
    requires PieceAt(s, p, x) && |s| <= |t| && t[..|s|] == s && p + Width(x) <= |s|
    ensures PieceAt(t, p, x)
  {
    forall k | 0 <= k < |s| ensures t[k] == s[k] { assert t[..|s|][k] == t[k]; }
  }

  lemma {:induction false} StrictIsOk(x: Syntax)
    requires Strict(x)
    ensures SyntaxOk(x)
    decreases x, 0
  {
    hide StrictQuoted, QuotedOk, StrictItems, StrictFields, ItemsOk, FieldsOk, NumeralText;
    match x
    case Word(_) =>
    case Numeric(_) =>
    case Literal(q) =>
      var xs :| StrictQuoted(q, xs);
      LiteralDenotes(q, xs);
    case List(_, items) => StrictItemsOk(items);
    case Record(_, fields) => StrictFieldsOk(fields);
  }

  lemma {:induction false} StrictElementOk(e: Element)
    requires StrictElement(e)
    ensures ElementOk(e)
    decreases e, 1
  {
    hide Strict, SyntaxOk;
    StrictIsOk(e.value);
  }

  lemma {:induction false} StrictItemsOk(items: seq<Element>)
    requires StrictItems(items)
    ensures ItemsOk(items)
    decreases items
  {
    hide StrictElement, ElementOk;
    if items != [] {
      StrictElementOk(items[0]);
      StrictItemsOk(items[1..]);
    }
  }

  lemma {:induction false} StrictFieldOk(f: Field)
    requires StrictField(f)
    ensures FieldOk(f)
    decreases f, 2
  {
    hide StrictElement, ElementOk, StrictQuoted, QuotedOk;
    var xs :| StrictQuoted(f.name, xs);
    LiteralDenotes(f.name, xs);
    StrictElementOk(f.element);
  }

  lemma {:induction false} StrictFieldsOk(fields: seq<Field>)
    requires StrictFields(fields)
    ensures FieldsOk(fields)
    decreases fields
  {
    hide StrictField, FieldOk;
    if fields != [] {
      StrictFieldOk(fields[0]);
      StrictFieldsOk(fields[1..]);
    }
  }

  // Every text of RFC 8259 whose numbers have at most 63 characters is read to its end
  // for what it denotes, if and only if it denotes something, which takes both halves of
  // every surrogate pair, and nests at most 1000 deep.
  lemma RfcIsParsed(x: Element)
    requires StrictElement(x)
    ensures '\0' !in SpellElement(x)
    ensures ParseText(SpellElement(x), true) ==
      if Denote(x.value).Some? && Height(Denote(x.value).value) <= NESTING_LIMIT
      then Some((Denote(x.value).value, |SpellElement(x)|)) else None
  {
    hide ParseText, StrictElement, ElementOk, SpellElement, Denote, Height;
    StrictElementOk(x);
    GrammarIsParsed(x);
  }
}
