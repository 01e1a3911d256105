/**
  The slashes a tree holds, counted in its text: those that stand there as they are and
  those that are spelled as code units.
  */
module SlashCount {
  import opened Text
  import opened Decimals
  import opened Strings
  import opened Values
  import opened Parsing
  import Utf

  // An odd number of backslashes stands right before `p`: the byte there is escaped.
  predicate Odd(x: string, p: nat)
    requires p <= |x|
  {
    p > 0 && x[p - 1] == '\\' && !Odd(x, p - 1)
  }

  predicate SlashDigits(x: string, p: nat) {
    p + 4 <= |x| && x[p] == '0' && x[p + 1] == '0' && x[p + 2] == '2' && (x[p + 3] == 'f' || x[p + 3] == 'F')
  }

  function Weight(x: string, p: nat): nat
    requires p < |x|
  {
    if x[p] == '/' || (x[p] == 'u' && Odd(x, p) && SlashDigits(x, p + 1)) then 1 else 0
  }

  function Sum(x: string, i: nat, k: nat): nat
    requires k <= |x|
    decreases k - i
  {
    if i >= k then 0 else Weight(x, i) + Sum(x, i + 1, k)
  }

  lemma {:induction false} SumParts(x: string, i: nat, j: nat, k: nat)
    requires i <= j <= k <= |x|
    ensures Sum(x, i, k) == Sum(x, i, j) + Sum(x, j, k)
    decreases j - i
  {
    hide Weight;
    if i < j { SumParts(x, i + 1, j, k); }
  }

  lemma SumOne(x: string, i: nat)
    requires i < |x|
    ensures Sum(x, i, i + 1) == Weight(x, i)
  {
    hide Weight;
    assert Sum(x, i + 1, i + 1) == 0;
  }

  // ---------- Slashes in strings and trees ----------

  function Count(s: string): nat {
    if s == "" then 0 else (if s[0] == '/' then 1 else 0) + Count(s[1..])
  }

  lemma {:induction false} CountJoin(a: string, b: string)
    ensures Count(a + b) == Count(a) + Count(b)
  {
    if a == "" {
      assert a + b == b;
    } else {
      CountJoin(a[1..], b);
      assert (a + b)[1..] == a[1..] + b;
    }
  }

  lemma {:induction false} CountNone(a: string)
    requires '/' !in a
    ensures Count(a) == 0
  {
    if a != "" { CountNone(a[1..]); }
  }

  function Slashes(v: Value): nat
    decreases v, 0
  {
    match v
    case Str(s) => Count(s)
    case Array(items) => ItemsSlashes(items)
    case Object(members) => MembersSlashes(members)
    case _ => 0
  }

  function ItemsSlashes(items: seq<Value>): nat
    decreases items
  {
    if items == [] then 0 else Slashes(items[0]) + ItemsSlashes(items[1..])
  }

  function MembersSlashes(members: seq<Member>): nat
    decreases members
  {
    if members == [] then 0 else Count(members[0].key) + Slashes(members[0].value) + MembersSlashes(members[1..])
  }

  // ---------- One literal ----------

  // A proper escape, and none that yields a NUL.
  predicate Escaped(x: string, q: nat)
    requires q < |x|
  {
    ShortMeaning(x[q]).Some? || (x[q] == 'u' && q + 5 <= |x| && AllHex(x, q + 1) && Hex4(x, q + 1) != 0)
  }

  predicate Proper(x: string) { !Odd(x, |x|) && forall q | 0 <= q < |x| && Odd(x, q) :: Escaped(x, q) }

  // `m` slashes are found between `i` and `k`, and no more if all escapes are proper.
  ghost predicate Tallied(x: string, i: nat, k: nat, m: nat) {
    i <= k <= |x| && m <= Sum(x, i, k) && (Proper(x) ==> m == Sum(x, i, k))
  }

  lemma TalliedOn(x: string, i: nat, j: nat, k: nat, m: nat, n: nat)
    requires Tallied(x, i, j, m) && Tallied(x, j, k, n)
    ensures Tallied(x, i, k, m + n)
  {
    hide Sum, Proper;
    SumParts(x, i, j, k);
  }

  lemma TalliedNone(x: string, i: nat)
    requires i <= |x|
    ensures Tallied(x, i, i, 0)
  {
    hide Proper;
  }

  lemma {:induction false} SumZero(x: string, i: nat, k: nat)
    requires k <= |x| && forall q | i <= q < k :: Weight(x, q) == 0
    ensures Sum(x, i, k) == 0
    decreases k - i
  {
    hide Weight;
    if i < k { SumZero(x, i + 1, k); }
  }

  // An escape is worth what its second byte is worth.
  lemma SumTwo(x: string, p: nat)
    requires p + 2 <= |x| && x[p] == '\\'
    ensures Sum(x, p, p + 2) == Weight(x, p + 1)
  {
    hide Sum;
    SumParts(x, p, p + 1, p + 2);
    SumOne(x, p);
    SumOne(x, p + 1);
  }

  // The slashes of one code unit with proper digits.
  lemma UnitSlashes(x: string, p: nat)
    requires p + 6 <= |x| && x[p] == '\\' && x[p + 1] == 'u' && !Odd(x, p) && AllHex(x, p + 2)
    ensures Sum(x, p, p + 6) == if Hex4(x, p + 2) == 0x2F then 1 else 0
    ensures !Odd(x, p + 6)
  {
    hide Sum;
    HexSlash(x, p + 2);
    SumParts(x, p, p + 2, p + 6);
    SumTwo(x, p);
    SumZero(x, p + 2, p + 6);
  }

  lemma HexSlash(x: string, p: nat)
    requires p + 4 <= |x| && AllHex(x, p)
    ensures Hex4(x, p) == 0x2F <==> SlashDigits(x, p)
  {}

  lemma EncodeSlash(u: Utf.Scalar)
    ensures Count(Utf.Encode(u)) == if u == 0x2F then 1 else 0
    ensures '\0' in Utf.Encode(u) <==> u == 0
  {
    var e := Utf.Encode(u);
    if u == 0x2F { assert e[1..] == ""; } else { CountNone(e); }
  }

  // What a reader of a C string sees of two parts.
  lemma {:induction false} CutJoin(a: string, b: string)
    ensures CutAtNul(a + b) == if '\0' in a then CutAtNul(a) else a + CutAtNul(b)
  {
    hide CutAtNul;
    if a == "" {
      assert a + b == b && "" + CutAtNul(b) == CutAtNul(b);
    } else {
      var r := a[1..];
      CutStep(a + b);
      CutStep(a);
      assert (a + b)[1..] == r + b;
      if a[0] != '\0' {
        CutJoin(r, b);
        HeadTail(a, b);
      }
    }
  }

  lemma HeadTail(a: string, b: string)
    requires a != "" && a[0] != '\0'
    ensures '\0' in a <==> '\0' in a[1..]
    ensures [a[0]] + (a[1..] + CutAtNul(b)) == a + CutAtNul(b)
  {
    hide CutAtNul;
    assert a == [a[0]] + a[1..];
  }

  lemma CutStep(a: string)
    requires a != ""
    ensures CutAtNul(a) == if a[0] == '\0' then "" else [a[0]] + CutAtNul(a[1..])
  {}

  // One step of the decoding pass: its bytes, and how many slashes its source is worth.
  // A step that ends in a NUL hides whatever comes behind it.
  lemma StepSlashes(x: string, p: nat, end: nat)
    requires p < end && ClosesAt(x, p, end) && !Odd(x, p) && DecodeStep(x, p, end).0 > 0
    ensures var (n, bytes) := DecodeStep(x, p, end);
      if '\0' in bytes then Count(CutAtNul(bytes)) == 0 && (Proper(x) ==> x[p] == '\0')
      else p + n <= end && ClosesAt(x, p + n, end) && !Odd(x, p + n) && Sum(x, p, p + n) == Count(bytes)
  {
    hide Sum, Weight, Proper;
    var (n, bytes) := DecodeStep(x, p, end);
    if x[p] != '\\' {
      PlainSlash(x, p);
    } else if x[p + 1] == 'u' {
      UnitStep(x, p, end);
    } else {
      ShortSlash(x, p);
    }
  }

  lemma PlainSlash(x: string, p: nat)
    requires p < |x| && x[p] != '\\' && !Odd(x, p)
    ensures Sum(x, p, p + 1) == Count([x[p]]) && CutAtNul([x[p]]) == if x[p] == '\0' then "" else [x[p]]
  {
    hide Sum;
    SumOne(x, p);
    assert [x[p]][1..] == "";
  }

  lemma ShortSlash(x: string, p: nat)
    requires p + 2 <= |x| && x[p] == '\\' && !Odd(x, p) && ShortMeaning(x[p + 1]).Some?
    ensures var m := ShortMeaning(x[p + 1]).value; Sum(x, p, p + 2) == Count([m]) && m != '\0'
    ensures !Odd(x, p + 2)
  {
    hide Sum;
    SumTwo(x, p);
    assert [ShortMeaning(x[p + 1]).value][1..] == "";
  }

  lemma UnitStep(x: string, p: nat, end: nat)
    requires p < end && ClosesAt(x, p, end) && !Odd(x, p) && x[p] == '\\' && x[p + 1] == 'u'
    requires Utf16Literal(x, p, end).0 > 0
    ensures var (n, bytes) := Utf16Literal(x, p, end);
      if '\0' in bytes then Count(CutAtNul(bytes)) == 0 && !Proper(x)
      else p + n <= end && ClosesAt(x, p + n, end) && !Odd(x, p + n) && Sum(x, p, p + n) == Count(bytes)
  {
    hide Sum, Weight, Utf.Encode, Hex4, ScanString, CutAtNul;
    var (n, bytes) := Utf16Literal(x, p, end);
    var first := Hex4(x, p + 2);
    HexNone(x, p + 2);
    if n == 6 {
      EncodeSlash(first);
      if first == 0 {
        assert Odd(x, p + 1) && !Escaped(x, p + 1);
        NulBytes();
      } else {
        UnitSlashes(x, p);
        UnitScan(x, p, end);
      }
    } else {
      HexNone(x, p + 8);
      EncodeSlash(Utf.Combine(first, Hex4(x, p + 8)));
      UnitSlashes(x, p);
      UnitSlashes(x, p + 6);
      SumParts(x, p, p + 6, p + 12);
      UnitScan(x, p, end);
      UnitScan(x, p + 6, end);
    }
  }

  lemma HexNone(x: string, p: nat)
    requires p + 4 <= |x|
    ensures !AllHex(x, p) ==> Hex4(x, p) == 0
  {}

  lemma NulBytes()
    ensures Count(CutAtNul(Utf.Encode(0))) == 0
  {}

  lemma UnitScan(x: string, p: nat, end: nat)
    requires p + 6 <= end && ClosesAt(x, p, end) && x[p] == '\\' && AllHex(x, p + 2)
    ensures ClosesAt(x, p + 6, end)
  {
    PlainScan(x, p + 2, p + 6);
  }

  lemma {:induction false} LiteralSlashes(x: string, p: nat, end: nat)
    requires ClosesAt(x, p, end) && !Odd(x, p) && Decode(x, p, end).Some? && '\0' !in x[p..end]
    ensures Tallied(x, p, end, Count(CutAtNul(Decode(x, p, end).value)))
    decreases end - p
  {
    hide Sum, Decode, DecodeStep, Odd, Proper, ScanString, CutAtNul;
    if p == end {
      TalliedNone(x, p);
      LiteralEnd(x, end);
    } else {
      var (n, bytes) := DecodeStep(x, p, end);
      DecodeBySteps(x, p, end);
      StepSlashes(x, p, end);
      var rest := Decode(x, p + n, end).value;
      CutJoin(bytes, rest);
      if '\0' !in bytes {
        LiteralSlashes(x, p + n, end);
        CountJoin(bytes, CutAtNul(rest));
        TalliedOn(x, p, p + n, end, Count(bytes), Count(CutAtNul(rest)));
      } else {
        assert x[p] == x[p..end][0];
      }
    }
  }

  lemma LiteralEnd(x: string, end: nat)
    requires end < |x|
    ensures Decode(x, end, end) == Some("") && Count(CutAtNul("")) == 0
  {}

  // ---------- Whole trees ----------

  // Bytes between tokens are worth nothing.
  lemma Quiet(c: string, i: nat, k: nat)
    requires i <= k <= |c| && forall x | i <= x < k :: c[x] != '/' && (c[x] == 'u' ==> x > i && c[x - 1] != '\\')
    ensures Tallied(c, i, k, 0)
  {
    hide Proper, Sum;
    SumZero(c, i, k);
  }

  lemma QuietSkip(c: string, i: nat)
    requires i < |c|
    ensures Tallied(c, i, Skip(c, i), 0)
  {
    hide Skip, Tallied;
    SkippedBlank(c, i);
    Quiet(c, i, Skip(c, i));
  }

  lemma QuietOne(c: string, i: nat)
    requires i < |c| && c[i] != '/' && c[i] != 'u'
    ensures Tallied(c, i, i + 1, 0)
  {
    hide Tallied;
    Quiet(c, i, i + 1);
  }

  lemma StringSlashes(c: string, i: nat)
    requires Buffer(c) && i < |c| && ParseString(c, i).Parsed?
    ensures Tallied(c, i, ParseString(c, i).next, Count(ParseString(c, i).value))
  {
    hide Tallied, Decode, ScanString, CutAtNul, Count;
    var end := ScanString(c, i + 1).end;
    QuietOne(c, i);
    LiteralSlashes(c, i + 1, end);
    QuietOne(c, end);
    var m := Count(ParseString(c, i).value);
    TalliedOn(c, i, i + 1, end, 0, m);
    TalliedOn(c, i, end, end + 1, m, 0);
  }

  lemma NumberSlashes(c: string, i: nat)
    requires i < |c| && ParseNumber(c, i).Parsed?
    ensures Tallied(c, i, ParseNumber(c, i).next, 0)
  {
    hide Tallied, Strtod, NumberEnd;
    Quiet(c, i, ParseNumber(c, i).next);
  }

  lemma WordSlashes(c: string, i: nat, word: string)
    requires Reads(c, i, word) && (word == "null" || word == "false" || word == "true")
    ensures Tallied(c, i, i + |word|, 0)
  {
    hide Tallied;
    forall x | i <= x < i + |word| ensures c[x] == word[x - i] { assert c[i..i + |word|][x - i] == c[x]; }
    Quiet(c, i, i + |word|);
  }

  lemma {:induction false} ValueSlashes(c: string, i: nat, depth: nat)
    requires Buffer(c) && i < |c| && ParseValue(c, i, depth).Parsed?
    ensures Tallied(c, i, ParseValue(c, i, depth).next, Slashes(ParseValue(c, i, depth).value))
    decreases |c| - i, 0
  {
    hide Tallied, ParseString, ParseNumber, ParseItems, ParseMembers, Skip, Reads, Count;
    if Reads(c, i, "null") { WordSlashes(c, i, "null"); }
    else if Reads(c, i, "false") { WordSlashes(c, i, "false"); }
    else if Reads(c, i, "true") { WordSlashes(c, i, "true"); }
    else if c[i] == '\"' { StringSlashes(c, i); }
    else if c[i] == '-' || IsDigit(c[i]) { NumberSlashes(c, i); }
    else {
      var j, r := Skip(c, i + 1), ParseValue(c, i, depth);
      QuietOne(c, i);
      QuietSkip(c, i + 1);
      TalliedOn(c, i, i + 1, j, 0, 0);
      if c[j] == (if c[i] == '[' then ']' else '}') {
        QuietOne(c, j);
      } else if c[i] == '[' {
        ItemsTally(c, j, depth + 1);
      } else {
        MembersTally(c, j, depth + 1);
      }
      TalliedOn(c, i, j, r.next, 0, Slashes(r.value));
    }
  }

  // Blanks and one more byte behind an element.
  lemma TallyEnd(c: string, i: nat, k: nat, m: nat)
    requires Tallied(c, i, k, m) && k < |c| && c[Skip(c, k)] != '/' && c[Skip(c, k)] != 'u'
    ensures Tallied(c, i, Skip(c, k) + 1, m)
  {
    hide Tallied, Skip;
    QuietSkip(c, k);
    QuietOne(c, Skip(c, k));
    TalliedOn(c, i, k, Skip(c, k), m, 0);
    TalliedOn(c, i, Skip(c, k), Skip(c, k) + 1, m, 0);
  }

  lemma {:induction false} ItemsTally(c: string, i: nat, depth: nat)
    requires Buffer(c) && i < |c| && ParseItems(c, i, depth).Parsed?
    ensures Tallied(c, i, ParseItems(c, i, depth).next, ItemsSlashes(ParseItems(c, i, depth).value))
    decreases |c| - i, 1
  {
    hide Tallied, ParseValue, Skip, Slashes;
    var j, r := Skip(c, i), ParseItems(c, i, depth);
    var v := ParseValue(c, j, depth);
    QuietSkip(c, i);
    ValueSlashes(c, j, depth);
    TalliedOn(c, i, j, v.next, 0, Slashes(v.value));
    TallyEnd(c, i, v.next, Slashes(v.value));
    assert r.value[0] == v.value;
    if c[Skip(c, v.next)] == ',' {
      var rest := ParseItems(c, Skip(c, v.next) + 1, depth);
      ItemsTally(c, Skip(c, v.next) + 1, depth);
      assert r.value[1..] == rest.value;
      TalliedOn(c, i, Skip(c, v.next) + 1, r.next, Slashes(v.value), ItemsSlashes(rest.value));
    } else {
      assert r.value[1..] == [];
    }
  }

  lemma {:induction false} MemberTally(c: string, i: nat, depth: nat)
    requires Buffer(c) && i < |c| && ParseMember(c, i, depth).Parsed?
    ensures var r := ParseMember(c, i, depth);
      Tallied(c, i, r.next, Count(r.value.key) + Slashes(r.value.value))
    decreases |c| - i, 1
  {
    hide Tallied, ParseValue, ParseString, Skip, Slashes, Count;
    var r, j := ParseMember(c, i, depth), Skip(c, i);
    var k := ParseString(c, j).next;
    var m := Skip(c, k) + 1;
    QuietSkip(c, i);
    StringSlashes(c, j);
    TalliedOn(c, i, j, k, 0, Count(r.value.key));
    TallyEnd(c, i, k, Count(r.value.key));
    QuietSkip(c, m);
    ValueSlashes(c, Skip(c, m), depth);
    TalliedOn(c, i, m, Skip(c, m), Count(r.value.key), 0);
    TalliedOn(c, i, Skip(c, m), r.next, Count(r.value.key), Slashes(r.value.value));
  }

  lemma {:induction false} MembersTally(c: string, i: nat, depth: nat)
    requires Buffer(c) && i < |c| && ParseMembers(c, i, depth).Parsed?
    ensures Tallied(c, i, ParseMembers(c, i, depth).next, MembersSlashes(ParseMembers(c, i, depth).value))
    decreases |c| - i, 2
  {
    hide Tallied, ParseMember, Skip, Slashes, Count;
    var r, h := ParseMembers(c, i, depth), ParseMember(c, i, depth);
    var n := Count(h.value.key) + Slashes(h.value.value);
    MemberTally(c, i, depth);
    TallyEnd(c, i, h.next, n);
    assert r.value[0] == h.value;
    if c[Skip(c, h.next)] == ',' {
      var rest := ParseMembers(c, Skip(c, h.next) + 1, depth);
      MembersTally(c, Skip(c, h.next) + 1, depth);
      assert r.value[1..] == rest.value;
      TalliedOn(c, i, Skip(c, h.next) + 1, r.next, n, MembersSlashes(rest.value));
    } else {
      assert r.value[1..] == [];
    }
  }

  // The slashes of an accepted text: no fewer than its tree holds, and no more if all its
  // escapes are proper and none yields a NUL.
  lemma TextSlashes(t: CString)
    requires ParseText(t, true).Some?
    ensures Slashes(ParseText(t, true).value.0) <= Sum(t, 0, |t|)
    ensures Proper(t) ==> Slashes(ParseText(t, true).value.0) == Sum(t, 0, |t|)
  {
    hide Tallied, ParseValue, Skip, AfterMark, Slashes, Sum, Proper;
    var c := t + "\0";
    var m := AfterMark(c);
    var i := Skip(c, m);
    var r := ParseValue(c, i, 0);
    QuietMark(c);
    QuietSkip(c, m);
    ValueSlashes(c, i, 0);
    QuietSkip(c, r.next);
    TalliedOn(c, 0, m, i, 0, 0);
    TalliedOn(c, 0, i, r.next, 0, Slashes(r.value));
    TalliedOn(c, 0, r.next, |t|, Slashes(r.value), 0);
    BufferTally(t, Slashes(r.value));
  }

  lemma QuietMark(c: string)
    requires Terminated(c)
    ensures Tallied(c, 0, AfterMark(c), 0)
  {
    hide Tallied;
    if |c| > 4 { assert c[0] == c[..3][0] && c[1] == c[..3][1] && c[2] == c[..3][2]; }
    Quiet(c, 0, AfterMark(c));
  }

  // The terminating NUL makes no difference.
  lemma BufferTally(t: CString, m: nat)
    requires Tallied(t + "\0", 0, |t|, m)
    ensures m <= Sum(t, 0, |t|) && (Proper(t) ==> m == Sum(t, 0, |t|))
  {
    hide Sum;
    SameSum(t, 0);
    if Proper(t) { SameProper(t); }
  }

  lemma {:induction false} SameOdd(t: string, p: nat)
    requires p <= |t|
    ensures Odd(t + "\0", p) == Odd(t, p)
    decreases p
  {
    if p > 0 { SameOdd(t, p - 1); }
  }

  lemma SameProper(t: string)
    requires Proper(t)
    ensures Proper(t + "\0")
  {
    hide Odd, Hex4, AllHex;
    var c := t + "\0";
    forall q | 0 <= q < |c| && Odd(c, q) ensures Escaped(c, q) {
      SameOdd(t, q);
      if t[q] == 'u' {
        forall k | q + 1 <= k < q + 5 ensures c[q + 1 + k - (q + 1)] == t[k] {}
        Hex4Moves(t, q + 1, c, q + 1);
      }
    }
    NotOddBehind(c);
  }

  lemma NotOddBehind(c: string)
    requires Terminated(c)
    ensures !Odd(c, |c|)
  {}

  lemma {:induction false} SameSum(t: string, i: nat)
    requires i <= |t|
    ensures Sum(t + "\0", i, |t|) == Sum(t, i, |t|)
    decreases |t| - i
  {
    hide Odd;
    if i < |t| {
      SameOdd(t, i);
      SameSum(t, i + 1);
    }
  }
}
