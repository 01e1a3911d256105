/**
  cJSON_Compare, and what it decides.
  */
module Compare {
  import opened Text
  import opened Decimals
  import opened Values
  import opened Nodes
  import opened Trees
  import opened Meanings

  // ---------- Keys ----------

  function ToLower(c: char): char {
    if 'A' <= c <= 'Z' then (c as int - 'A' as int + 'a' as int) as char else c
  }

  // Two keys are the same under a case rule when their folded forms are equal.
  function Fold(key: string, caseSensitive: bool): string {
    if caseSensitive then key else seq(|key|, i requires 0 <= i < |key| => ToLower(key[i]))
  }

  const UPPER := "ABCDEFGHIJKLMNOPQRSTUVWXYZ"
  const LOWER := "abcdefghijklmnopqrstuvwxyz"

  // Two letters of the alphabet that differ in case only.
  predicate CasesOf(a: char, b: char) { exists n | 0 <= n < 26 :: a == UPPER[n] && b == LOWER[n] }

  predicate SameLetter(a: char, b: char) { a == b || CasesOf(a, b) || CasesOf(b, a) }

  // Two keys are the same byte by byte, the case of letters apart unless it matters.
  predicate SameKey(a: string, b: string, caseSensitive: bool) {
    if caseSensitive then a == b else |a| == |b| && forall k | 0 <= k < |a| :: SameLetter(a[k], b[k])
  }

  lemma Alphabet()
    ensures |UPPER| == |LOWER| == 26
    ensures forall n | 0 <= n < 26 :: UPPER[n] as int == 'A' as int + n && LOWER[n] as int == 'a' as int + n
  {}

  lemma LettersFold(a: char, b: char)
    ensures ToLower(a) == ToLower(b) <==> SameLetter(a, b)
  {
    Alphabet();
    hide UPPER, LOWER;
    if 'A' <= a <= 'Z' { assert UPPER[a as int - 'A' as int] == a; }
    if 'A' <= b <= 'Z' { assert UPPER[b as int - 'A' as int] == b; }
  }

  // Folded keys are equal exactly when the keys are the same.
  lemma FoldedAlike(a: string, b: string, cs: bool)
    ensures Fold(a, cs) == Fold(b, cs) <==> SameKey(a, b, cs)
  {
    hide ToLower, SameLetter;
    if !cs {
      var x, y := Fold(a, false), Fold(b, false);
      forall k | 0 <= k < |a| && k < |b| ensures x[k] == y[k] <==> SameLetter(a[k], b[k]) {
        LettersFold(a[k], b[k]);
      }
    }
  }

  // The first member whose folded key is `k`.
  function Find(members: seq<Member>, k: string, cs: bool): (i: nat)
    ensures i <= |members|
    ensures i < |members| ==> Fold(members[i].key, cs) == k
    ensures forall j | 0 <= j < i :: Fold(members[j].key, cs) != k
  {
    if members == [] || Fold(members[0].key, cs) == k then 0
    else 1 + Find(members[1..], k, cs)
  }

  // ---------- cJSON_Compare ----------

  lemma {:induction false} ItemHeight(items: seq<Value>, i: nat)
    requires i < |items|
    ensures Height(items[i]) <= ItemsHeight(items)
  {
    if i > 0 { ItemHeight(items[1..], i - 1); }
  }

  lemma {:induction false} MemberHeight(members: seq<Member>, i: nat)
    requires i < |members|
    ensures Height(members[i].value) <= MembersHeight(members)
  {
    if i > 0 { MemberHeight(members[1..], i - 1); }
  }

  // Zero compares equal to minus zero.
  function Unsigned(d: Number): Number {
    if d.digits == 0 then Decimal(false, 0, 0) else d
  }

  // The comparison, on nodes that are not the same object.
  predicate Same(a: Value, b: Value, cs: bool)
    decreases Height(a) + Height(b), 1
  {
    match (a, b)
    case (Null, Null) => true
    case (False, False) => true
    case (True, True) => true
    case (Num(x), Num(y)) => Unsigned(x) == Unsigned(y)
    case (Str(x), Str(y)) => x == y
    case (Raw(x), Raw(y)) => x == y
    case (Array(xs), Array(ys)) =>
      |xs| == |ys| && forall i | 0 <= i < |xs| :: ItemHeight(xs, i); ItemHeight(ys, i); Same(xs[i], ys[i], cs)
    case (Object(ms), Object(ns)) => Covers(ms, ns, cs) && Covers(ns, ms, cs)
    case _ => false
  }

  // Every member of `ms` is found in `ns` and compares equal to what is found.
  predicate Covers(ms: seq<Member>, ns: seq<Member>, cs: bool)
    decreases MembersHeight(ms) + MembersHeight(ns) + 1, 0
  {
    forall i | 0 <= i < |ms| :: Covered(ms, ns, i, cs)
  }

  predicate Covered(ms: seq<Member>, ns: seq<Member>, i: nat, cs: bool)
    requires i < |ms|
    decreases MembersHeight(ms) + MembersHeight(ns), 2
  {
    var j := Find(ns, Fold(ms[i].key, cs), cs);
    j < |ns| && (MemberHeight(ms, i); MemberHeight(ns, j); Same(ms[i].value, ns[j].value, cs))
  }

  // ---------- What trees mean ----------

  // Arrays are sequences and objects are finite maps from folded keys; the first of
  // several members with the same key counts.
  datatype Meaning =
    | Constant(v: Value)
    | Sequence(elements: seq<Meaning>)
    | Mapping(fields: map<string, Meaning>)

  function MeaningOf(v: Value, cs: bool): Meaning
    decreases v, 0
  {
    match v
    case Array(items) => Sequence(ItemsMeaning(items, cs))
    case Object(members) => Mapping(MembersMeaning(members, cs))
    case Num(d) => Constant(Num(Unsigned(d)))
    case _ => Constant(v)
  }

  function ItemsMeaning(items: seq<Value>, cs: bool): (r: seq<Meaning>)
    ensures |r| == |items|
    decreases items
  {
    if items == [] then [] else [MeaningOf(items[0], cs)] + ItemsMeaning(items[1..], cs)
  }

  function MembersMeaning(members: seq<Member>, cs: bool): map<string, Meaning>
    decreases members
  {
    if members == [] then map[]
    else MembersMeaning(members[1..], cs)[Fold(members[0].key, cs) := MeaningOf(members[0].value, cs)]
  }

  // No item is without a valid type, and members with the same key mean the same, in
  // every object of the tree.
  predicate Coherent(v: Value, cs: bool)
    decreases v, 0
  {
    match v
    case Array(items) => ItemsCoherent(items, cs)
    case Object(members) => MembersCoherent(members, cs)
    case NoValue => false
    case _ => true
  }

  predicate ItemsCoherent(items: seq<Value>, cs: bool)
    decreases items
  {
    items == [] || (Coherent(items[0], cs) && ItemsCoherent(items[1..], cs))
  }

  predicate MembersCoherent(members: seq<Member>, cs: bool)
    decreases members
  {
    members == [] ||
    (&& Coherent(members[0].value, cs) && MembersCoherent(members[1..], cs)
     && var rest := MembersMeaning(members[1..], cs);
        var k := Fold(members[0].key, cs);
        k in rest ==> rest[k] == MeaningOf(members[0].value, cs))
  }

  // ---------- Pointwise forms ----------

  lemma {:induction false} ItemsPointwise(items: seq<Value>, cs: bool)
    ensures ItemsCoherent(items, cs) <==> forall i | 0 <= i < |items| :: Coherent(items[i], cs)
    ensures forall i | 0 <= i < |items| :: ItemsMeaning(items, cs)[i] == MeaningOf(items[i], cs)
  {
    hide MeaningOf, Coherent;
    if items != [] {
      ItemsPointwise(items[1..], cs);
      assert forall i | 0 < i < |items| :: items[i] == items[1..][i - 1];
      assert forall i | 0 <= i < |items[1..]| :: items[1..][i] == items[i + 1];
    }
  }

  // An object means the map from keys to the meanings of their first members.
  lemma {:induction false} FirstMeans(members: seq<Member>, k: string, cs: bool)
    ensures var i := Find(members, k, cs);
      && (k in MembersMeaning(members, cs) <==> i < |members|)
      && (i < |members| ==> MembersMeaning(members, cs)[k] == MeaningOf(members[i].value, cs))
  {
    hide MeaningOf, Fold;
    if members != [] { FirstMeans(members[1..], k, cs); }
  }

  // Member `i` is coherent and means what the first member with its key means.
  predicate Settled(members: seq<Member>, i: nat, cs: bool)
    requires i < |members|
  {
    && Coherent(members[i].value, cs)
    && MeaningOf(members[i].value, cs) == MeaningOf(members[Find(members, Fold(members[i].key, cs), cs)].value, cs)
  }

  lemma {:induction false} MembersPointwise(members: seq<Member>, cs: bool)
    ensures MembersCoherent(members, cs) <==> forall i | 0 <= i < |members| :: Settled(members, i, cs)
  {
    hide MeaningOf, Coherent, Fold, Settled;
    if members != [] {
      var rest := members[1..];
      MembersPointwise(rest, cs);
      if MembersCoherent(members, cs) {
        forall i | 0 <= i < |members| ensures Settled(members, i, cs) { SettledLater(members, i, cs); }
      }
      if forall i | 0 <= i < |members| :: Settled(members, i, cs) {
        SettledFirst(members, cs);
        forall i | 0 <= i < |rest| ensures Settled(rest, i, cs) { SettledEarlier(members, i, cs); }
      }
    }
  }

  lemma SettledLater(members: seq<Member>, i: nat, cs: bool)
    requires i < |members| && MembersCoherent(members, cs)
    requires i > 0 ==> Settled(members[1..], i - 1, cs)
    ensures Settled(members, i, cs)
  {
    hide MeaningOf, Coherent, Fold;
    if i > 0 {
      assert members[i] == members[1..][i - 1];
      FirstMeans(members[1..], Fold(members[0].key, cs), cs);
    }
  }

  lemma SettledFirst(members: seq<Member>, cs: bool)
    requires members != [] && forall i | 0 <= i < |members| :: Settled(members, i, cs)
    ensures Coherent(members[0].value, cs)
    ensures var rest, k := MembersMeaning(members[1..], cs), Fold(members[0].key, cs);
      k in rest ==> rest[k] == MeaningOf(members[0].value, cs)
  {
    hide MeaningOf, Coherent, Fold;
    var k := Fold(members[0].key, cs);
    FirstMeans(members[1..], k, cs);
    assert Settled(members, 0, cs);
    var f := Find(members[1..], k, cs);
    if f < |members[1..]| {
      assert members[1..][f] == members[f + 1];
      assert Settled(members, f + 1, cs);
    }
  }

  lemma SettledEarlier(members: seq<Member>, i: nat, cs: bool)
    requires i + 1 < |members| && forall i | 0 <= i < |members| :: Settled(members, i, cs)
    ensures Settled(members[1..], i, cs)
  {
    hide MeaningOf, Coherent, Fold;
    var rest, k := members[1..], Fold(members[i + 1].key, cs);
    assert Settled(members, i + 1, cs) && rest[i] == members[i + 1];
    var f := Find(rest, k, cs);
    assert f < |rest| && rest[f] == members[f + 1];
    assert Settled(members, f + 1, cs);
  }

  // ---------- What cJSON_Compare decides ----------

  // For all trees, with any keys: the comparison accepts exactly the pairs of coherent
  // trees that mean the same.
  lemma {:induction false} SameIsEqualMeaning(a: Value, b: Value, cs: bool)
    ensures Same(a, b, cs) <==> (Coherent(a, cs) && Coherent(b, cs) && MeaningOf(a, cs) == MeaningOf(b, cs))
    decreases Height(a) + Height(b), 1
  {
    if a.Array? && b.Array? {
      ArraysSame(a.items, b.items, cs);
    } else if a.Object? && b.Object? {
      ObjectsSame(a.members, b.members, cs);
    }
  }

  lemma {:induction false} ArraysSame(xs: seq<Value>, ys: seq<Value>, cs: bool)
    ensures Same(Array(xs), Array(ys), cs) <==>
      (ItemsCoherent(xs, cs) && ItemsCoherent(ys, cs) && ItemsMeaning(xs, cs) == ItemsMeaning(ys, cs))
    decreases ItemsHeight(xs) + ItemsHeight(ys) + 2, 0
  {
    hide MeaningOf, Coherent, ItemsMeaning, ItemsCoherent;
    ItemsPointwise(xs, cs);
    ItemsPointwise(ys, cs);
    forall i | 0 <= i < |xs| && i < |ys|
      ensures Same(xs[i], ys[i], cs) <==>
        (Coherent(xs[i], cs) && Coherent(ys[i], cs) && MeaningOf(xs[i], cs) == MeaningOf(ys[i], cs))
    {
      ItemHeight(xs, i);
      ItemHeight(ys, i);
      SameIsEqualMeaning(xs[i], ys[i], cs);
    }
  }

  // Member `i` of `ms` agrees in meaning with what its key finds in `ns`.
  predicate Agrees(ms: seq<Member>, ns: seq<Member>, i: nat, cs: bool)
    requires i < |ms|
  {
    var j := Find(ns, Fold(ms[i].key, cs), cs);
    && j < |ns| && Coherent(ms[i].value, cs) && Coherent(ns[j].value, cs)
    && MeaningOf(ms[i].value, cs) == MeaningOf(ns[j].value, cs)
  }

  lemma {:induction false} CoversAgrees(ms: seq<Member>, ns: seq<Member>, cs: bool)
    ensures Covers(ms, ns, cs) <==> forall i | 0 <= i < |ms| :: Agrees(ms, ns, i, cs)
    decreases MembersHeight(ms) + MembersHeight(ns) + 1, 0
  {
    hide MeaningOf, Coherent, Same, Fold, MembersHeight;
    forall i | 0 <= i < |ms| ensures Covered(ms, ns, i, cs) <==> Agrees(ms, ns, i, cs) {
      var j := Find(ns, Fold(ms[i].key, cs), cs);
      if j < |ns| {
        MemberHeight(ms, i);
        MemberHeight(ns, j);
        SameIsEqualMeaning(ms[i].value, ns[j].value, cs);
      }
    }
  }

  lemma AgreementIsEquality(ms: seq<Member>, ns: seq<Member>, cs: bool)
    requires forall i | 0 <= i < |ms| :: Agrees(ms, ns, i, cs)
    requires forall i | 0 <= i < |ns| :: Agrees(ns, ms, i, cs)
    ensures MembersCoherent(ms, cs) && MembersCoherent(ns, cs) && MembersMeaning(ms, cs) == MembersMeaning(ns, cs)
  {
    hide MeaningOf, Coherent, Fold, MembersMeaning, MembersCoherent;
    AllSettled(ms, ns, cs);
    AllSettled(ns, ms, cs);
    var m, n := MembersMeaning(ms, cs), MembersMeaning(ns, cs);
    forall k ensures k in m <==> k in n {
      FirstMeans(ms, k, cs);
      FirstMeans(ns, k, cs);
      var i, j := Find(ms, k, cs), Find(ns, k, cs);
      if i < |ms| { assert Agrees(ms, ns, i, cs); }
      if j < |ns| { assert Agrees(ns, ms, j, cs); }
    }
    forall k | k in m ensures m[k] == n[k] {
      FirstMeans(ms, k, cs);
      FirstMeans(ns, k, cs);
      assert Agrees(ms, ns, Find(ms, k, cs), cs);
    }
  }

  lemma AllSettled(ms: seq<Member>, ns: seq<Member>, cs: bool)
    requires forall i | 0 <= i < |ms| :: Agrees(ms, ns, i, cs)
    ensures MembersCoherent(ms, cs)
  {
    hide MeaningOf, Coherent, Fold, MembersCoherent;
    MembersPointwise(ms, cs);
    forall i | 0 <= i < |ms| ensures Settled(ms, i, cs) {
      assert Agrees(ms, ns, i, cs);
      assert Agrees(ms, ns, Find(ms, Fold(ms[i].key, cs), cs), cs);
    }
  }

  lemma EqualityIsAgreement(ms: seq<Member>, ns: seq<Member>, cs: bool)
    requires MembersCoherent(ms, cs) && MembersCoherent(ns, cs) && MembersMeaning(ms, cs) == MembersMeaning(ns, cs)
    ensures forall i | 0 <= i < |ms| :: Agrees(ms, ns, i, cs)
  {
    hide MeaningOf, Coherent, Fold, MembersMeaning, MembersCoherent;
    MembersPointwise(ms, cs);
    MembersPointwise(ns, cs);
    forall i | 0 <= i < |ms| ensures Agrees(ms, ns, i, cs) {
      var k := Fold(ms[i].key, cs);
      FirstMeans(ms, k, cs);
      FirstMeans(ns, k, cs);
      assert Settled(ms, i, cs);
      assert Settled(ns, Find(ns, k, cs), cs);
    }
  }

  lemma {:induction false} ObjectsSame(ms: seq<Member>, ns: seq<Member>, cs: bool)
    ensures Same(Object(ms), Object(ns), cs) <==>
      (MembersCoherent(ms, cs) && MembersCoherent(ns, cs) && MembersMeaning(ms, cs) == MembersMeaning(ns, cs))
    decreases MembersHeight(ms) + MembersHeight(ns) + 2, 0
  {
    hide MembersCoherent, MembersMeaning, Agrees, Covers;
    CoversAgrees(ms, ns, cs);
    CoversAgrees(ns, ms, cs);
    if Covers(ms, ns, cs) && Covers(ns, ms, cs) {
      AgreementIsEquality(ms, ns, cs);
    }
    if MembersCoherent(ms, cs) && MembersCoherent(ns, cs) && MembersMeaning(ms, cs) == MembersMeaning(ns, cs) {
      EqualityIsAgreement(ms, ns, cs);
      EqualityIsAgreement(ns, ms, cs);
    }
  }

  // ---------- What it says of the parts ----------

  // Numbers are the same when they are equal, or both zero of whatever sign.
  lemma NumbersCompared(x: Number, y: Number, cs: bool)
    ensures Same(Num(x), Num(y), cs) <==> x == y || (x.digits == 0 && y.digits == 0)
    ensures MeaningOf(Num(x), cs) == MeaningOf(Num(y), cs) <==> x == y || (x.digits == 0 && y.digits == 0)
  {}

  // The member of `ns` that answers to the name `key`: the first one with the same key.
  ghost predicate Answers(ns: seq<Member>, j: nat, key: string, cs: bool) {
    j < |ns| && SameKey(ns[j].key, key, cs) && forall k | 0 <= k < j :: !SameKey(ns[k].key, key, cs)
  }

  // Every member of `ms` is the same as the one that answers to its name in `ns`.
  ghost predicate Answered(ms: seq<Member>, ns: seq<Member>, cs: bool) {
    forall i | 0 <= i < |ms| :: Meets(ms, ns, i, cs)
  }

  ghost predicate Meets(ms: seq<Member>, ns: seq<Member>, i: nat, cs: bool)
    requires i < |ms|
  {
    exists j | 0 <= j < |ns| :: Answers(ns, j, ms[i].key, cs) && Same(ms[i].value, ns[j].value, cs)
  }

  lemma FindAnswers(ns: seq<Member>, key: string, j: nat, cs: bool)
    ensures Answers(ns, j, key, cs) <==> j < |ns| && j == Find(ns, Fold(key, cs), cs)
  {
    hide Fold, SameKey;
    var f := Find(ns, Fold(key, cs), cs);
    forall k | 0 <= k < |ns| ensures Fold(ns[k].key, cs) == Fold(key, cs) <==> SameKey(ns[k].key, key, cs) {
      FoldedAlike(ns[k].key, key, cs);
    }
    if f < |ns| { assert SameKey(ns[f].key, key, cs); }
  }

  lemma FoundByName(ns: seq<Member>, key: string, cs: bool)
    ensures var f := Find(ns, Fold(key, cs), cs);
      if f < |ns| then Answers(ns, f, key, cs) else forall k | 0 <= k < |ns| :: !SameKey(ns[k].key, key, cs)
  {
    hide Fold, SameKey, Answers;
    var f := Find(ns, Fold(key, cs), cs);
    FindAnswers(ns, key, f, cs);
    forall k | 0 <= k < |ns| ensures Fold(ns[k].key, cs) == Fold(key, cs) <==> SameKey(ns[k].key, key, cs) {
      FoldedAlike(ns[k].key, key, cs);
    }
  }

  lemma CoversIsAnswered(ms: seq<Member>, ns: seq<Member>, cs: bool)
    ensures Covers(ms, ns, cs) <==> Answered(ms, ns, cs)
  {
    hide Fold, Same, Covered, Answers;
    forall i | 0 <= i < |ms| ensures Covered(ms, ns, i, cs) <==> Meets(ms, ns, i, cs) {
      CoveredIs(ms, ns, i, cs);
      var f := Find(ns, Fold(ms[i].key, cs), cs);
      FindAnswers(ns, ms[i].key, f, cs);
      forall j | 0 <= j < |ns| && Answers(ns, j, ms[i].key, cs) ensures j == f { FindAnswers(ns, ms[i].key, j, cs); }
    }
    AllCovered(ms, ns, cs);
  }

  // The comparison, type by type.
  lemma SameParts(a: Value, b: Value, cs: bool)
    ensures Same(a, b, cs) <==>
      match a
      case Null => b.Null?
      case False => b.False?
      case True => b.True?
      case Num(x) => b.Num? && (x == b.number || (x.digits == 0 && b.number.digits == 0))
      case Str(x) => b.Str? && x == b.text
      case Raw(x) => b.Raw? && x == b.json
      case NoValue => false
      case Array(xs) => b.Array? && |xs| == |b.items| && forall i | 0 <= i < |xs| :: Same(xs[i], b.items[i], cs)
      case Object(ms) => b.Object? && Answered(ms, b.members, cs) && Answered(b.members, ms, cs)
  {
    hide Answered, Covers;
    if a.Num? && b.Num? { NumbersCompared(a.number, b.number, cs); }
    if a.Object? && b.Object? {
      CoversIsAnswered(a.members, b.members, cs);
      CoversIsAnswered(b.members, a.members, cs);
    }
  }

  // Every item has a valid type, and no two members of one object have the same key
  // under the case rule.
  predicate UniqueKeys(v: Value, cs: bool)
    decreases v, 0
  {
    match v
    case Array(items) => ItemsUnique(items, cs)
    case Object(members) => MembersUnique(members, cs)
    case NoValue => false
    case _ => true
  }

  predicate ItemsUnique(items: seq<Value>, cs: bool)
    decreases items
  {
    items == [] || (UniqueKeys(items[0], cs) && ItemsUnique(items[1..], cs))
  }

  predicate MembersUnique(members: seq<Member>, cs: bool)
    decreases members
  {
    members == [] ||
    (&& UniqueKeys(members[0].value, cs) && MembersUnique(members[1..], cs)
     && Find(members[1..], Fold(members[0].key, cs), cs) == |members[1..]|)
  }

  lemma {:induction false} UniqueIsCoherent(v: Value, cs: bool)
    requires UniqueKeys(v, cs)
    ensures Coherent(v, cs)
    decreases v, 0
  {
    match v
    case Array(items) => UniqueItemsCoherent(items, cs);
    case Object(members) => UniqueMembersCoherent(members, cs);
    case _ =>
  }

  lemma {:induction false} UniqueItemsCoherent(items: seq<Value>, cs: bool)
    requires ItemsUnique(items, cs)
    ensures ItemsCoherent(items, cs)
    decreases items
  {
    if items != [] {
      UniqueIsCoherent(items[0], cs);
      UniqueItemsCoherent(items[1..], cs);
    }
  }

  lemma {:induction false} UniqueMembersCoherent(members: seq<Member>, cs: bool)
    requires MembersUnique(members, cs)
    ensures MembersCoherent(members, cs)
    decreases members
  {
    hide Fold, MembersMeaning;
    if members != [] {
      UniqueIsCoherent(members[0].value, cs);
      UniqueMembersCoherent(members[1..], cs);
      FirstMeans(members[1..], Fold(members[0].key, cs), cs);
    }
  }

  // No member behind member `i` has the same key.
  predicate Alone(ms: seq<Member>, i: nat, cs: bool)
    requires i < |ms|
  {
    forall j | i < j < |ms| :: !SameKey(ms[i].key, ms[j].key, cs)
  }

  lemma UniqueParts(v: Value, cs: bool)
    ensures UniqueKeys(v, cs) <==>
      match v
      case NoValue => false
      case Array(items) => forall i | 0 <= i < |items| :: UniqueKeys(items[i], cs)
      case Object(ms) =>
        && (forall i | 0 <= i < |ms| :: UniqueKeys(ms[i].value, cs))
        && (forall i | 0 <= i < |ms| :: Alone(ms, i, cs))
      case _ => true
  {
    if v.Array? { ItemsUniqueParts(v.items, cs); }
    if v.Object? { MembersUniqueParts(v.members, cs); }
  }

  lemma {:induction false} ItemsUniqueParts(items: seq<Value>, cs: bool)
    ensures ItemsUnique(items, cs) <==> forall i | 0 <= i < |items| :: UniqueKeys(items[i], cs)
  {
    hide UniqueKeys;
    if items != [] {
      ItemsUniqueParts(items[1..], cs);
      assert forall i | 0 < i < |items| :: items[i] == items[1..][i - 1];
      assert forall i | 0 <= i < |items[1..]| :: items[1..][i] == items[i + 1];
    }
  }

  lemma {:induction false} MembersUniqueParts(ms: seq<Member>, cs: bool)
    ensures MembersUnique(ms, cs) <==>
      (forall i | 0 <= i < |ms| :: UniqueKeys(ms[i].value, cs)) && forall i | 0 <= i < |ms| :: Alone(ms, i, cs)
  {
    hide UniqueKeys, SameKey, Fold;
    if ms != [] {
      var rest := ms[1..];
      MembersUniqueParts(rest, cs);
      FirstAlone(ms, cs);
      hide Alone;
      forall i | 0 <= i < |rest| ensures rest[i] == ms[i + 1] && (Alone(rest, i, cs) <==> Alone(ms, i + 1, cs)) {
        AloneLater(ms, i, cs);
      }
      assert forall i | 0 < i < |ms| :: ms[i] == rest[i - 1] && (Alone(ms, i, cs) <==> Alone(rest, i - 1, cs));
    }
  }

  lemma AloneLater(ms: seq<Member>, i: nat, cs: bool)
    requires i + 1 < |ms|
    ensures Alone(ms[1..], i, cs) <==> Alone(ms, i + 1, cs)
  {
    hide SameKey;
    assert forall j | i < j < |ms[1..]| :: ms[1..][j] == ms[j + 1];
    assert forall j | i + 1 < j < |ms| :: ms[j] == ms[1..][j - 1];
  }

  lemma FirstAlone(ms: seq<Member>, cs: bool)
    requires ms != []
    ensures Find(ms[1..], Fold(ms[0].key, cs), cs) == |ms[1..]| <==> Alone(ms, 0, cs)
  {
    hide SameKey, Fold;
    var rest := ms[1..];
    forall j | 0 <= j < |rest|
      ensures rest[j] == ms[j + 1]
      ensures Fold(rest[j].key, cs) == Fold(ms[0].key, cs) <==> SameKey(ms[0].key, rest[j].key, cs)
    {
      FoldedAlike(ms[0].key, rest[j].key, cs);
    }
    var f := Find(rest, Fold(ms[0].key, cs), cs);
    if f < |rest| { assert SameKey(ms[0].key, ms[f + 1].key, cs); }
    assert forall j | 0 < j < |ms| :: ms[j] == rest[j - 1];
  }

  // Symmetric and transitive on all trees, reflexive exactly on the coherent ones, and
  // so an equivalence on trees with unique keys.
  lemma SameIsEquivalence(a: Value, b: Value, c: Value, cs: bool)
    ensures Same(a, b, cs) ==> Same(b, a, cs)
    ensures Same(a, b, cs) && Same(b, c, cs) ==> Same(a, c, cs)
    ensures Same(a, a, cs) <==> Coherent(a, cs)
    ensures UniqueKeys(a, cs) ==> Same(a, a, cs)
  {
    hide Same, Coherent, MeaningOf, UniqueKeys;
    SameIsEqualMeaning(a, b, cs);
    SameIsEqualMeaning(b, a, cs);
    SameIsEqualMeaning(b, c, cs);
    SameIsEqualMeaning(a, c, cs);
    SameIsEqualMeaning(a, a, cs);
    if UniqueKeys(a, cs) { UniqueIsCoherent(a, cs); }
  }

  // ---------- The code ----------

  // The byte of a C string at `i`, its terminator included.
  function Byte(s: CString, i: nat): char
    requires i <= |s|
  {
    if i < |s| then s[i] else '\0'
  }

  method CaseInsensitiveStrcmp(a: CString, b: CString) returns (difference: int)
    ensures difference == 0 <==> Fold(a, false) == Fold(b, false)
    ensures difference == 0 <==> SameKey(a, b, false)
  {
    FoldedAlike(a, b, false);
    hide SameKey;
    var i := 0;
    while ToLower(Byte(a, i)) == ToLower(Byte(b, i))
      invariant i <= |a| && i <= |b|
      invariant forall k | 0 <= k < i :: Fold(a, false)[k] == Fold(b, false)[k]
      decreases |a| - i
    {
      if Byte(a, i) == '\0' {
        return 0;
      }
      i := i + 1;
    }
    difference := ToLower(Byte(a, i)) as int - ToLower(Byte(b, i)) as int;
    assert i < |a| && i < |b| ==> Fold(a, false)[i] != Fold(b, false)[i];
  }

  method KeysDiffer(name: CString, key: CString, caseSensitive: bool) returns (differ: bool)
    ensures differ <==> Fold(name, caseSensitive) != Fold(key, caseSensitive)
  {
    if caseSensitive {
      differ := name != key;
    } else {
      var difference := CaseInsensitiveStrcmp(name, key);
      differ := difference != 0;
    }
  }

  // get_object_item: the first member with that name. `at` is its position and `below`
  // hangs below it.
  method GetObjectItem(parent: Node?, name: Chars?, caseSensitive: bool, ghost kids: Forest, ghost members: seq<Member>)
    returns (element: Node?, ghost at: nat, ghost below: Forest)
    requires parent != null ==> Unfolds(parent.child, kids) && AreMembers(kids, members)
    ensures parent == null || name == null ==> element == null
    ensures parent != null && name != null ==>
      at == Find(members, Fold(name.text, caseSensitive), caseSensitive) && (element == null <==> at == |members|)
    ensures element != null ==> Answers(members, at, name.text, caseSensitive)
    ensures parent != null && name != null && element == null ==>
      forall k | 0 <= k < |members| :: !SameKey(members[k].key, name.text, caseSensitive)
    ensures element != null ==> at < |members| && Stands(element, below, members[at].value)
    ensures element != null ==> Holds(element.key, members[at].key)
    ensures element != null ==> Size(below) < Size(kids) && {element} + Members(below) <= Members(kids)
  {
    hide Fold, Unfolds, AreMembers, AtMember, Stands;
    at, below := 0, End;
    if parent == null || name == null {
      return null, 0, End;
    }
    hide SameKey, Answers;
    element := parent.child;
    ghost var rest := kids;
    StartMembers(element, kids, members);
    FoundByName(members, name.text, caseSensitive);
    while element != null
      invariant AtMember(element, rest, members, at) && at <= |members|
      invariant Size(rest) <= Size(kids) && Members(rest) <= Members(kids)
      invariant forall k | 0 <= k < at :: Fold(members[k].key, caseSensitive) != Fold(name.text, caseSensitive)
      decreases Size(rest)
    {
      StepMember(element, rest, members, at);
      assert allocated(Members(rest.kids)) && allocated(Members(rest.rest));
      var differ := KeysDiffer(name.text, element.key.text, caseSensitive);
      if !differ {
        below := rest.kids;
        return;
      }
      element, rest, at := element.next, rest.rest, at + 1;
    }
    StepMember(element, rest, members, at);
  }

  // The trees share no item, or no item of either has members that clash: then finding
  // the same item on both sides says nothing new.
  ghost predicate Telling(a: Node, ka: Forest, b: Node, kb: Forest, va: Value, vb: Value, cs: bool) {
    ({a} + Members(ka)) !! ({b} + Members(kb)) || (Coherent(va, cs) && Coherent(vb, cs))
  }

  // A tree that is coherent, or shares nothing, passes this on to its parts.
  lemma MembersTelling(a: Node, ka: Forest, b: Node, kb: Forest, ms: seq<Member>, ns: seq<Member>, cs: bool,
                       x: Node, kx: Forest, y: Node, ky: Forest, i: nat, j: nat)
    requires i < |ms| && j < |ns| && Telling(a, ka, b, kb, Object(ms), Object(ns), cs)
    requires {x} + Members(kx) <= Members(ka) && {y} + Members(ky) <= Members(kb)
    ensures Telling(x, kx, y, ky, ms[i].value, ns[j].value, cs)
  {
    hide Coherent, MembersCoherent;
    CoherentObject(ms, i, cs);
    CoherentObject(ns, j, cs);
  }

  lemma CoherentObject(ms: seq<Member>, i: nat, cs: bool)
    requires i < |ms|
    ensures Coherent(Object(ms), cs) ==> Coherent(ms[i].value, cs)
  {
    MembersPointwise(ms, cs);
    assert MembersCoherent(ms, cs) ==> Settled(ms, i, cs);
  }

  lemma ItemsTelling(a: Node, ka: Forest, b: Node, kb: Forest, xs: seq<Value>, ys: seq<Value>, cs: bool,
                     x: Node, kx: Forest, y: Node, ky: Forest, i: nat)
    requires i < |xs| && i < |ys| && Telling(a, ka, b, kb, Array(xs), Array(ys), cs)
    requires {x} + Members(kx) <= Members(ka) && {y} + Members(ky) <= Members(kb)
    ensures Telling(x, kx, y, ky, xs[i], ys[i], cs)
  {
    ItemsPointwise(xs, cs);
    ItemsPointwise(ys, cs);
  }

  // A result of true is right unless an item was met twice in an incoherent tree; a
  // result of false is always right.
  method CompareItems(a: Node?, b: Node?, caseSensitive: bool, ghost ka: Forest, ghost kb: Forest,
          ghost va: Value, ghost vb: Value)
    returns (same: bool)
    requires (a != null ==> Stands(a, ka, va)) && (b != null ==> Stands(b, kb, vb))
    ensures a == null || b == null ==> !same
    ensures a != null && b != null && Same(va, vb, caseSensitive) ==> same
    ensures same && Telling(a, ka, b, kb, va, vb, caseSensitive) ==> Same(va, vb, caseSensitive)
    ensures a != null && b != null && va.Num? && vb.Num? ==>
      (same <==> va.number == vb.number || (va.number.digits == 0 && vb.number.digits == 0))
    decreases Size(ka) + Size(kb), 2
  {
    if va.Num? && vb.Num? { NumbersCompared(va.number, vb.number, caseSensitive); }
    if a == null || b == null || a.kind != b.kind || a.kind == Invalid {
      return false;
    }
    if a == b {
      SameItem(a, ka, kb, va, vb, caseSensitive);
      return true;
    }
    match a.kind
    case IsFalse => return true;
    case IsTrue => return true;
    case IsNull => return true;
    case IsNumber => return Unsigned(a.number) == Unsigned(b.number);
    case IsString => return a.valuestring.text == b.valuestring.text;
    case IsRaw => return a.valuestring.text == b.valuestring.text;
    case IsArray =>
      same := CompareArrays(a, b, caseSensitive, ka, kb, va.items, vb.items);
    case IsObject =>
      assert allocated(Members(ka)) && allocated(Members(kb));
      same := CompareMembers(a, b, caseSensitive, ka, kb, va.members, vb.members);
      if same {
        same := CompareMembers(b, a, caseSensitive, kb, ka, vb.members, va.members);
      }
  }

  method CompareArrays(a: Node, b: Node, caseSensitive: bool, ghost ka: Forest, ghost kb: Forest,
          ghost xs: seq<Value>, ghost ys: seq<Value>)
    returns (same: bool)
    requires Unfolds(a.child, ka) && AreItems(ka, xs) && Unfolds(b.child, kb) && AreItems(kb, ys)
    ensures Same(Array(xs), Array(ys), caseSensitive) ==> same
    ensures same && Telling(a, ka, b, kb, Array(xs), Array(ys), caseSensitive) ==>
        Same(Array(xs), Array(ys), caseSensitive)
    decreases Size(ka) + Size(kb), 1
  {
    hide Unfolds, AreItems, AtItem, Stands, Telling;
    var x, y := a.child, b.child;
    ghost var kx, ky, i := ka, kb, 0;
    StartItems(x, ka, xs);
    StartItems(y, kb, ys);
    while x != null && y != null
      invariant AtItem(x, kx, xs, i) && Size(kx) <= Size(ka) && Members(kx) <= Members(ka)
      invariant AtItem(y, ky, ys, i) && Size(ky) <= Size(kb) && Members(ky) <= Members(kb)
      invariant i <= |xs| && i <= |ys|
      invariant Telling(a, ka, b, kb, Array(xs), Array(ys), caseSensitive) ==>
          forall k | 0 <= k < i :: Same(xs[k], ys[k], caseSensitive)
      decreases Size(kx)
    {
      StepItem(x, kx, xs, i);
      StepItem(y, ky, ys, i);
      assert allocated(Members(kx.rest)) && allocated(Members(ky.rest));
      if Telling(a, ka, b, kb, Array(xs), Array(ys), caseSensitive) {
        ItemsTelling(a, ka, b, kb, xs, ys, caseSensitive, x, kx.kids, y, ky.kids, i);
      }
      same := CompareItems(x, y, caseSensitive, kx.kids, ky.kids, xs[i], ys[i]);
      if !same {
        return;
      }
      x, y, kx, ky, i := x.next, y.next, kx.rest, ky.rest, i + 1;
    }
    StepItem(x, kx, xs, i);
    StepItem(y, ky, ys, i);
    same := x == y;
  }

  // One of the two passes over the members of two objects.
  method CompareMembers(a: Node, b: Node, caseSensitive: bool, ghost ka: Forest, ghost kb: Forest,
          ghost ms: seq<Member>, ghost ns: seq<Member>)
    returns (same: bool)
    requires Unfolds(a.child, ka) && AreMembers(ka, ms) && Unfolds(b.child, kb) && AreMembers(kb, ns)
    ensures Covers(ms, ns, caseSensitive) ==> same
    ensures same && Telling(a, ka, b, kb, Object(ms), Object(ns), caseSensitive) ==> Covers(ms, ns, caseSensitive)
    decreases Size(ka) + Size(kb), 1
  {
    hide *;
    var x := a.child;
    ghost var kx, i := ka, 0;
    ghost var telling := Telling(a, ka, b, kb, Object(ms), Object(ns), caseSensitive);
    StartMembers(x, ka, ms);
    while x != null
      invariant AtMember(x, kx, ms, i) && Size(kx) <= Size(ka) && Members(kx) <= Members(ka)
      invariant i <= |ms| && Unfolds(b.child, kb) && AreMembers(kb, ns)
      invariant telling ==> forall k | 0 <= k < i :: Covered(ms, ns, k, caseSensitive)
      decreases Size(kx)
    {
      StepMember(x, kx, ms, i);
      NextSibling(kx);
      assert allocated(Members(kx.kids)) && allocated(Members(kx.rest)) && allocated(Members(kb));
      var y: Node?;
      ghost var j, ky;
      y, j, ky := GetObjectItem(b, x.key, caseSensitive, kb, ns);
      CoveredIs(ms, ns, i, caseSensitive);
      if y == null {
        return false;
      }
      assert allocated(Members(ky));
      if telling {
        MembersTelling(a, ka, b, kb, ms, ns, caseSensitive, x, kx.kids, y, ky, i, j);
      }
      same := CompareItems(x, y, caseSensitive, kx.kids, ky, ms[i].value, ns[j].value);
      if !same {
        return;
      }
      x, kx, i := x.next, kx.rest, i + 1;
    }
    StepMember(x, kx, ms, i);
    AllCovered(ms, ns, caseSensitive);
    same := true;
  }

  lemma CoveredIs(ms: seq<Member>, ns: seq<Member>, i: nat, cs: bool)
    requires i < |ms|
    ensures var j := Find(ns, Fold(ms[i].key, cs), cs);
      Covered(ms, ns, i, cs) <==> j < |ns| && Same(ms[i].value, ns[j].value, cs)
    ensures Covers(ms, ns, cs) ==> Covered(ms, ns, i, cs)
  {
    hide Same, Fold;
  }

  lemma AllCovered(ms: seq<Member>, ns: seq<Member>, cs: bool)
    ensures (forall k | 0 <= k < |ms| :: Covered(ms, ns, k, cs)) ==> Covers(ms, ns, cs)
  {
    hide Covered;
  }

  // An item is compared with itself: the shortcut is right when its tree is coherent.
  lemma SameItem(a: Node, ka: Forest, kb: Forest, va: Value, vb: Value, cs: bool)
    requires Stands(a, ka, va) && Stands(a, kb, vb)
    ensures Telling(a, ka, a, kb, va, vb, cs) ==> Same(va, vb, cs)
  {
    hide Same, Coherent;
    UnfoldsOnce(a.child, ka, kb);
    ValueUnique(a, ka, va, vb);
    SameIsEqualMeaning(va, va, cs);
  }
}
