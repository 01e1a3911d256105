/**
  Parsing without asking for the end of the text, as cJSON_Parse does: the longest
  beginning that would be accepted on its own. And the limits of the parser in figures.
  */
module Prefixes {
  import opened Text
  import opened Decimals
  import opened Strings
  import opened Values
  import opened Parsing
  import opened Numerals
  import Language
  import Marks
  import RoundTrip

  // ---------- What a value does not depend on ----------

  // The buffers hold the same bytes before `k`, and both go on there.
  ghost predicate Agree(c: string, d: string, k: nat) {
    k < |c| && k < |d| && c[..k] == d[..k]
  }

  lemma AgreeAt(c: string, d: string, k: nat, x: nat)
    requires Agree(c, d, k) && x < k
    ensures x < |c| && x < |d| && c[x] == d[x]
  {
    assert c[..k][x] == d[..k][x];
  }

  lemma AgreeLess(c: string, d: string, k: nat, j: nat)
    requires Agree(c, d, k) && j <= k
    ensures Agree(c, d, j)
  {
    assert c[..k][..j] == c[..j] && d[..k][..j] == d[..j];
  }

  lemma SkipAgrees(c: string, d: string, i: nat, k: nat)
    requires Agree(c, d, k) && i < |c| && Skip(c, i) < k && Terminated(c) && Terminated(d)
    ensures i < |d| && Skip(d, i) == Skip(c, i)
  {
    var j := Skip(c, i);
    SkippedBlank(c, i);
    forall x | i <= x < j ensures IsBlank(d[x]) { AgreeAt(c, d, k, x); }
    AgreeAt(c, d, k, j);
    hide Skip;
    assert !IsBlank(d[j]) by { SkipStops(c, i, k); }
    RoundTrip.SkipTo(d, i, j);
  }

  lemma SkipStops(c: string, i: nat, k: nat)
    requires i < |c| && Skip(c, i) < k < |c|
    ensures !IsBlank(c[Skip(c, i)])
  {}

  lemma ReadsAgrees(c: string, d: string, i: nat, k: nat, word: string)
    requires Agree(c, d, k) && i + |word| <= k
    ensures Reads(c, i, word) <==> Reads(d, i, word)
  {
    assert c[..k][i..i + |word|] == c[i..i + |word|];
    assert d[..k][i..i + |word|] == d[i..i + |word|];
  }

  // A word that is not read within `k` bytes is not read elsewhere either.
  lemma WordFirst(c: string, d: string, i: nat, k: nat, word: string)
    requires Agree(c, d, k) && i < k && word != "" && c[i] != word[0]
    ensures !Reads(c, i, word) && !Reads(d, i, word)
  {
    AgreeAt(c, d, k, i);
  }

  lemma StringAgrees(c: string, d: string, i: nat, k: nat)
    requires Agree(c, d, k) && i < |c| && ParseString(c, i).Parsed? && ParseString(c, i).next <= k
    ensures ParseString(d, i) == ParseString(c, i)
  {
    hide ScanString, Decode;
    var e := ParseString(c, i).next;
    forall x | i <= x < e ensures d[i + x - i] == c[x] { AgreeAt(c, d, k, x); }
    StringMoves(c, i, d, i);
  }

  lemma {:induction false} NumberEndAt(c: string, i: nat, k: nat, room: nat)
    requires i <= k < |c| && k <= i + room && !IsNumberChar(c[k])
    requires forall x | i <= x < k :: IsNumberChar(c[x])
    ensures NumberEnd(c, i, room) == k
    decreases room
  {
    if i < k { NumberEndAt(c, i + 1, k, room - 1); }
  }

  // A number that ends where no number character follows, in both buffers.
  lemma NumberAgrees(c: string, d: string, i: nat, k: nat)
    requires Agree(c, d, k) && i < k && ParseNumber(c, i).Parsed? && ParseNumber(c, i).next == k
    requires !IsNumberChar(c[k]) && !IsNumberChar(d[k])
    ensures ParseNumber(d, i) == ParseNumber(c, i)
  {
    hide Strtod;
    var j := NumberEnd(c, i, NUMBER_BUFFER);
    assert j == k;
    forall x | i <= x < k ensures IsNumberChar(d[x]) { AgreeAt(c, d, k, x); }
    NumberEndAt(d, i, k, NUMBER_BUFFER);
    assert c[..k][i..k] == c[i..k] && d[..k][i..k] == d[i..k];
  }

  // A value is read from its own bytes only; a number also asks that none of its
  // characters follow.
  lemma {:induction false} ValueAgrees(c: string, d: string, i: nat, depth: nat, k: nat)
    requires Terminated(c) && Terminated(d) && Agree(c, d, k) && i < |c|
    requires ParseValue(c, i, depth).Parsed? && ParseValue(c, i, depth).next == k
    requires ParseValue(c, i, depth).value.Num? ==> !IsNumberChar(c[k]) && !IsNumberChar(d[k])
    ensures i < |d| && ParseValue(d, i, depth) == ParseValue(c, i, depth)
    decreases |c| - i, 0
  {
    hide ParseString, ParseNumber, ParseArray, ParseObject, Agree, Reads, Terminated;
    AgreeAt(c, d, k, i);
    WordsAgree(c, d, i, depth, k);
    if c[i] == '\"' {
      StringAgrees(c, d, i, k);
    } else if c[i] == '-' || IsDigit(c[i]) {
      NumberAgrees(c, d, i, k);
    } else if c[i] == '[' {
      ArrayAgrees(c, d, i, depth, k);
    } else if c[i] == '{' {
      ObjectAgrees(c, d, i, depth, k);
    }
  }

  lemma WordsAgree(c: string, d: string, i: nat, depth: nat, k: nat)
    requires Terminated(c) && Agree(c, d, k) && i < |c| && i < k
    requires ParseValue(c, i, depth).Parsed? && ParseValue(c, i, depth).next == k
    ensures Reads(d, i, "null") == Reads(c, i, "null")
    ensures Reads(d, i, "false") == Reads(c, i, "false")
    ensures Reads(d, i, "true") == Reads(c, i, "true")
    ensures c[i] != 'n' && c[i] != 'f' && c[i] != 't' ==>
      !Reads(c, i, "null") && !Reads(c, i, "false") && !Reads(c, i, "true")
  {
    hide ParseString, ParseNumber, ParseArray, ParseObject, Agree, Reads;
    if Reads(c, i, "null") { FirstOfWord(c, i, "null"); }
    if Reads(c, i, "false") { FirstOfWord(c, i, "false"); }
    if Reads(c, i, "true") { FirstOfWord(c, i, "true"); }
    if c[i] == 'n' { ReadsAgrees(c, d, i, k, "null"); } else { WordFirst(c, d, i, k, "null"); }
    if c[i] == 'f' { ReadsAgrees(c, d, i, k, "false"); } else { WordFirst(c, d, i, k, "false"); }
    if c[i] == 't' { ReadsAgrees(c, d, i, k, "true"); } else { WordFirst(c, d, i, k, "true"); }
  }

  lemma FirstOfWord(c: string, i: nat, word: string)
    requires i < |c| && word != "" && Reads(c, i, word)
    ensures c[i] == word[0]
  {
    assert c[i..i + |word|][0] == c[i];
  }

  lemma {:induction false} ArrayAgrees(c: string, d: string, i: nat, depth: nat, k: nat)
    requires Terminated(c) && Terminated(d) && Agree(c, d, k) && i < |c| && c[i] == '[' && i < |d| && d[i] == '['
    requires ParseArray(c, i, depth).Parsed? && ParseArray(c, i, depth).next == k
    ensures ParseArray(d, i, depth) == ParseArray(c, i, depth)
    decreases |c| - i - 1, 3
  {
    hide ParseItems, Agree, Skip, Terminated;
    var j := Skip(c, i + 1);
    if c[j] == ']' {
      SkipAgrees(c, d, i + 1, k);
      AgreeAt(c, d, k, j);
    } else {
      SkipAgrees(c, d, i + 1, k);
      AgreeAt(c, d, k, j);
      ItemsAgree(c, d, j, depth + 1, k);
    }
  }

  lemma {:induction false} ItemsAgree(c: string, d: string, i: nat, depth: nat, k: nat)
    requires Terminated(c) && Terminated(d) && Agree(c, d, k) && i < |c|
    requires ParseItems(c, i, depth).Parsed? && ParseItems(c, i, depth).next == k
    ensures i < |d| && ParseItems(d, i, depth) == ParseItems(c, i, depth)
    decreases |c| - i, 2
  {
    hide ParseValue, Agree, Skip, Terminated;
    var j := Skip(c, i);
    var e := ParseValue(c, j, depth).next;
    var m := Skip(c, e);
    ElementAgrees(c, d, i, depth, j, e, m, k);
    if c[m] == ',' { ItemsAgree(c, d, m + 1, depth, k); }
  }

  // A value with blanks around it and a byte behind that is none of its own.
  lemma {:induction false} ElementAgrees(c: string, d: string, i: nat, depth: nat, j: nat, e: nat, m: nat, k: nat)
    requires Terminated(c) && Terminated(d) && Agree(c, d, k) && i < |c| && j == Skip(c, i)
    requires ParseValue(c, j, depth).Parsed? && e == ParseValue(c, j, depth).next
    requires m == Skip(c, e) && m < k && (c[m] == ',' || c[m] == ']' || c[m] == '}')
    ensures i < |d| && Skip(d, i) == j && j < |d| && ParseValue(d, j, depth) == ParseValue(c, j, depth)
    ensures e < |d| && Skip(d, e) == m && m < |d| && d[m] == c[m]
    decreases |c| - i, 1
  {
    hide ParseValue, Agree, Skip, Terminated;
    SkipAgrees(c, d, i, k);
    SkipAgrees(c, d, e, k);
    AgreeAt(c, d, k, m);
    AgreeAt(c, d, k, e);
    AgreeLess(c, d, k, e);
    Language.NoNumberChar(c, e);
    ValueAgrees(c, d, j, depth, e);
  }

  lemma {:induction false} ObjectAgrees(c: string, d: string, i: nat, depth: nat, k: nat)
    requires Terminated(c) && Terminated(d) && Agree(c, d, k) && i < |c| && c[i] == '{' && i < |d| && d[i] == '{'
    requires ParseObject(c, i, depth).Parsed? && ParseObject(c, i, depth).next == k
    ensures ParseObject(d, i, depth) == ParseObject(c, i, depth)
    decreases |c| - i - 1, 4
  {
    hide ParseMembers, Agree, Skip, Terminated;
    var j := Skip(c, i + 1);
    SkipAgrees(c, d, i + 1, k);
    AgreeAt(c, d, k, j);
    if c[j] != '}' { MembersAgree(c, d, j, depth + 1, k); }
  }

  lemma {:induction false} MembersAgree(c: string, d: string, i: nat, depth: nat, k: nat)
    requires Terminated(c) && Terminated(d) && Agree(c, d, k) && i < |c|
    requires ParseMembers(c, i, depth).Parsed? && ParseMembers(c, i, depth).next == k
    ensures i < |d| && ParseMembers(d, i, depth) == ParseMembers(c, i, depth)
    decreases |c| - i, 3
  {
    hide ParseMember, Agree, Skip, Terminated;
    var e := ParseMember(c, i, depth).next;
    var m := Skip(c, e);
    MemberAgrees(c, d, i, depth, e, m, k);
    if c[m] == ',' { MembersAgree(c, d, m + 1, depth, k); }
  }

  lemma {:induction false} MemberAgrees(c: string, d: string, i: nat, depth: nat, e: nat, m: nat, k: nat)
    requires Terminated(c) && Terminated(d) && Agree(c, d, k) && i < |c|
    requires ParseMember(c, i, depth).Parsed? && e == ParseMember(c, i, depth).next
    requires m == Skip(c, e) && m < k && (c[m] == ',' || c[m] == ']' || c[m] == '}')
    ensures i < |d| && ParseMember(d, i, depth) == ParseMember(c, i, depth)
    ensures e < |d| && Skip(d, e) == m && m < |d| && d[m] == c[m]
    decreases |c| - i, 2
  {
    hide ParseValue, ParseString, Agree, Skip, Terminated;
    var j := Skip(c, i);
    var q := ParseString(c, j).next;
    var n := Skip(c, q);
    SkipAgrees(c, d, i, k);
    StringAgrees(c, d, j, k);
    SkipAgrees(c, d, q, k);
    AgreeAt(c, d, k, n);
    ElementAgrees(c, d, n + 1, depth, Skip(c, n + 1), e, m, k);
  }

  // ---------- Values end in a byte that is not blank ----------

  lemma {:induction false} ItemsClose(c: string, i: nat, depth: nat)
    requires Terminated(c) && i < |c| && ParseItems(c, i, depth).Parsed?
    ensures c[ParseItems(c, i, depth).next - 1] == ']'
    decreases |c| - i
  {
    hide ParseValue, Skip;
    var m := Skip(c, ParseValue(c, Skip(c, i), depth).next);
    if c[m] == ',' { ItemsClose(c, m + 1, depth); }
  }

  lemma {:induction false} MembersClose(c: string, i: nat, depth: nat)
    requires Terminated(c) && i < |c| && ParseMembers(c, i, depth).Parsed?
    ensures c[ParseMembers(c, i, depth).next - 1] == '}'
    decreases |c| - i
  {
    hide ParseMember, Skip;
    var m := Skip(c, ParseMember(c, i, depth).next);
    if c[m] == ',' { MembersClose(c, m + 1, depth); }
  }

  lemma ValueCloses(c: string, i: nat, depth: nat)
    requires Terminated(c) && i < |c| && ParseValue(c, i, depth).Parsed?
    ensures !IsBlank(c[ParseValue(c, i, depth).next - 1])
  {
    hide ParseString, ParseNumber, ParseItems, ParseMembers, Skip, Reads;
    if Reads(c, i, "null") { LastOfWord(c, i, "null"); }
    if Reads(c, i, "false") { LastOfWord(c, i, "false"); }
    if Reads(c, i, "true") { LastOfWord(c, i, "true"); }
    var j := if i + 1 < |c| then Skip(c, i + 1) else i;
    if c[i] == '[' && ParseItems(c, j, depth + 1).Parsed? { ItemsClose(c, j, depth + 1); }
    if c[i] == '{' && ParseMembers(c, j, depth + 1).Parsed? { MembersClose(c, j, depth + 1); }
  }

  lemma LastOfWord(c: string, i: nat, word: string)
    requires word != "" && Reads(c, i, word)
    ensures i + |word| <= |c| && c[i + |word| - 1] == word[|word| - 1]
  {
    assert c[i..i + |word|][|word| - 1] == c[i + |word| - 1];
  }

  // ---------- The longest beginning ----------

  // The first `k` bytes, the last of them not blank, are accepted to their end.
  ghost predicate Accepted(t: CString, k: nat, v: Value) {
    0 < k <= |t| && !IsBlank(t[k - 1]) && ParseText(t[..k], true) == Some((v, k))
  }

  lemma Cut(t: CString, k: nat)
    requires k <= |t|
    ensures var c, d := t + "\0", t[..k] + "\0";
      Agree(c, d, k) && Agree(d, c, k) && Terminated(c) && Terminated(d) && |d| == k + 1 && d[k] == '\0'
  {
    var c, d := t + "\0", t[..k] + "\0";
    assert c[..k] == t[..k] && d[..k] == t[..k];
  }

  // Where the value starts.
  function From(c: string): (i: nat)
    requires Terminated(c)
    ensures i < |c|
  {
    Skip(c, AfterMark(c))
  }

  lemma MarksAgree(t: CString, k: nat)
    requires 3 < k <= |t| || !Marks.Marked(t)
    requires k <= |t|
    ensures AfterMark(t[..k] + "\0") == AfterMark(t + "\0")
  {
    var c, d := t + "\0", t[..k] + "\0";
    assert |t| >= 3 ==> c[..3] == t[..3];
    assert k >= 3 ==> d[..3] == t[..3];
  }

  lemma RootedIs(c: string, toTheEnd: bool)
    requires Terminated(c)
    ensures var r := ParseValue(c, From(c), 0);
      Rooted(c, toTheEnd) ==
        if r.Failed? then Failed
        else if !toTheEnd then r
        else if c[Skip(c, r.next)] != '\0' then Failed
        else Parsed(r.value, Skip(c, r.next))
  {
    hide ParseValue, Skip;
  }

  lemma TextIs(t: CString, toTheEnd: bool)
    ensures ParseText(t, toTheEnd) ==
      match Rooted(t + "\0", toTheEnd) { case Failed => None case Parsed(v, k) => Some((v, k)) }
  {
    hide Rooted;
  }

  // Nothing but a number reads a number.
  lemma NumberOnly(c: string, i: nat, depth: nat)
    requires Terminated(c) && i < |c|
    ensures ParseValue(c, i, depth).Parsed? && ParseValue(c, i, depth).value.Num? ==> c[i] == '-' || IsDigit(c[i])
    ensures c[i] == '-' || IsDigit(c[i]) ==>
      ParseValue(c, i, depth) ==
        match ParseNumber(c, i) { case Failed => Failed case Parsed(d, k) => Parsed(Num(d), k) }
  {
    hide ParseString, ParseNumber, ParseArray, ParseObject, Skip;
    if c[i] == '-' || IsDigit(c[i]) { RoundTrip.Dispatch(c, i); }
    if c[i] == '[' { ArrayIsNoNumber(c, i, depth); }
    if c[i] == '{' { ObjectIsNoNumber(c, i, depth); }
  }

  lemma ArrayIsNoNumber(c: string, i: nat, depth: nat)
    requires Terminated(c) && i < |c| && c[i] == '['
    ensures ParseArray(c, i, depth).Parsed? ==> ParseArray(c, i, depth).value.Array?
  {
    hide ParseItems, Skip;
  }

  lemma ObjectIsNoNumber(c: string, i: nat, depth: nat)
    requires Terminated(c) && i < |c| && c[i] == '{'
    ensures ParseObject(c, i, depth).Parsed? ==> ParseObject(c, i, depth).value.Object?
  {
    hide ParseMembers, Skip;
  }

  // The characters of a number up to `k`, when the buffer ends there.
  lemma NumberStops(c: string, d: string, i: nat, k: nat)
    requires Agree(c, d, k) && i < k && ParseNumber(c, i).Parsed? && ParseNumber(c, i).next == k
    requires d[k] == '\0'
    ensures ParseNumber(d, i) == ParseNumber(c, i)
  {
    hide Agree, NumberEnd, Strtod, Has, NumberChars, ParseNumber;
    var e := NumberEnd(c, i, NUMBER_BUFFER);
    AgreeSlice(d, c, i, k);
    NumberReach(c, i);
    NumberIs(c, i);
    StopsThere(d, i, k, c[i..k]);
    NumberSlice(c, i, c[i..k], e);
    StrtodPrefix(c[i..e]);
    NumberIs(d, i);
  }

  lemma NumberReach(c: string, i: nat)
    requires i < |c| && ParseNumber(c, i).Parsed?
    ensures var k, e := ParseNumber(c, i).next, NumberEnd(c, i, NUMBER_BUFFER);
      i < k <= e <= |c| && k <= i + NUMBER_BUFFER && NumberChars(c[i..k]) && Has(c, i, c[i..k])
  {
    hide Strtod;
  }

  // Number characters that a NUL follows are copied up to that NUL.
  lemma StopsThere(d: string, i: nat, k: nat, u: string)
    requires i <= k < |d| && d[i..k] == u && NumberChars(u) && |u| <= NUMBER_BUFFER && d[k] == '\0'
    ensures NumberEnd(d, i, NUMBER_BUFFER) == k
  {
    forall x | i <= x < k ensures IsNumberChar(d[x]) { assert d[x] == u[x - i]; }
    NumberEndAt(d, i, k, NUMBER_BUFFER);
  }

  // Up to where the value ends, the text is accepted to its end.
  lemma Shortened(t: CString, v: Value, k: nat)
    requires ParseText(t, false) == Some((v, k))
    ensures Accepted(t, k, v)
  {
    hide ParseText, Rooted, ParseValue, ParseNumber, Skip, Terminated, Agree, AfterMark;
    var c, d := t + "\0", t[..k] + "\0";
    TextIs(t, false);
    Cut(t, k);
    RootedIs(c, false);
    var i := From(c);
    ValueCloses(c, i, 0);
    LateStart(t, k);
    MarksAgree(t, k);
    SkipAgrees(c, d, AfterMark(c), k);
    NumberOnly(c, i, 0);
    AgreeAt(c, d, k, i);
    if v.Num? {
      NumberOnly(d, i, 0);
      NumberStops(c, d, i, k);
    } else {
      ValueAgrees(c, d, i, 0, k);
    }
    SkipEnd(d, k);
    RootedIs(d, true);
    TextIs(t[..k], true);
  }

  // A value behind a mark ends behind the mark.
  lemma LateStart(t: CString, k: nat)
    requires ParseValue(t + "\0", From(t + "\0"), 0).Parsed? && ParseValue(t + "\0", From(t + "\0"), 0).next == k
    ensures From(t + "\0") < k && (3 < k || !Marks.Marked(t))
  {
    hide ParseValue, Skip;
    var c := t + "\0";
    assert |t| >= 3 ==> c[..3] == t[..3] && c[..3][0] == c[0];
    if Marks.Marked(t) && AfterMark(c) == 0 { Marks.NoMarkValue(c, 0); }
  }

  lemma SkipEnd(d: string, k: nat)
    requires |d| == k + 1 && d[k] == '\0'
    ensures Skip(d, k) == k
  {}

  lemma MarkedBeginning(t: CString, k: nat)
    requires k <= |t| && ParseValue(t[..k] + "\0", From(t[..k] + "\0"), 0).Parsed?
    requires ParseValue(t[..k] + "\0", From(t[..k] + "\0"), 0).next == k
    ensures 3 < k || !Marks.Marked(t)
  {
    LateStart(t[..k], k);
    hide ParseValue, Skip;
    var d := t[..k] + "\0";
    if Marks.Marked(t) && k <= 3 {
      assert t[..3][0] == t[0] == d[0];
      Marks.NoMarkValue(d, 0);
    }
  }

  lemma NumberGoesOn(c: string, d: string, i: nat, k: nat)
    requires Agree(d, c, k) && i < k && ParseNumber(d, i).Parsed? && ParseNumber(d, i).next == k
    requires d[k] == '\0'
    ensures ParseNumber(c, i).Parsed? && ParseNumber(c, i).next >= k
  {
    hide *;
    AgreeSlice(c, d, i, k);
    NumberEndsAt(d, i, k);
    var u := d[i..k];
    NumberEndReaches(c, i, NUMBER_BUFFER, u);
    NumberSlice(c, i, u, NumberEnd(c, i, NUMBER_BUFFER));
    NumberIs(c, i);
    NumberIs(d, i);
    StrtodMore(c[i..NumberEnd(c, i, NUMBER_BUFFER)], k - i);
  }

  lemma NumberIs(c: string, i: nat)
    requires i < |c|
    ensures var (n, d) := Strtod(c[i..NumberEnd(c, i, NUMBER_BUFFER)]);
      ParseNumber(c, i) == if n == 0 then Failed else Parsed(d, i + n)
  {
    hide Strtod, NumberEnd;
  }

  lemma NumberSlice(c: string, i: nat, u: string, e: nat)
    requires Has(c, i, u) && i + |u| <= e <= |c|
    ensures c[i..e][..|u|] == u
  {}

  lemma NumberEndsAt(d: string, i: nat, k: nat)
    requires i < k < |d| && ParseNumber(d, i).Parsed? && ParseNumber(d, i).next == k && d[k] == '\0'
    ensures NumberEnd(d, i, NUMBER_BUFFER) == k && NumberChars(d[i..k]) && |d[i..k]| <= NUMBER_BUFFER
  {
    hide Strtod;
  }

  lemma AgreeSlice(c: string, d: string, i: nat, k: nat)
    requires Agree(d, c, k) && i < k
    ensures c[i..k] == d[i..k] && Has(c, i, d[i..k]) && i < k < |c| && k < |d|
  {
    assert c[..k][i..k] == c[i..k] && d[..k][i..k] == d[i..k];
  }

  // Behind an accepted beginning parsing goes on at most for more of the same number.
  lemma Lengthened(t: CString, v: Value, k: nat)
    requires Accepted(t, k, v)
    ensures ParseText(t, false).Some? && ParseText(t, false).value.1 >= k
  {
    hide ParseText, Rooted, ParseValue, ParseNumber, Skip, Terminated, Agree, AfterMark;
    var c, d := t + "\0", t[..k] + "\0";
    TextIs(t[..k], true);
    Cut(t, k);
    RootedIs(d, true);
    var i := From(d);
    var e := ParseValue(d, i, 0).next;
    SkippedBlank(d, e);
    assert d[k - 1] == t[k - 1];
    assert e == k;
    LateStart(t[..k], k);
    MarkedBeginning(t, k);
    MarksAgree(t, k);
    SkipAgrees(d, c, AfterMark(d), k);
    NumberOnly(d, i, 0);
    AgreeAt(d, c, k, i);
    if v.Num? {
      NumberOnly(c, i, 0);
      NumberGoesOn(c, d, i, k);
    } else {
      ValueAgrees(d, c, i, 0, k);
    }
    RootedIs(c, false);
    TextIs(t, false);
  }

  // For every text: without asking for its end, parsing reads the longest beginning that
  // does not end in a blank and is accepted to its own end, and reads it for the same tree.
  lemma LongestPrefix(t: CString, v: Value, k: nat)
    ensures ParseText(t, false) == Some((v, k)) <==>
      Accepted(t, k, v) && forall j: nat, w | Accepted(t, j, w) :: j <= k
  {
    hide ParseText, Accepted;
    if ParseText(t, false) == Some((v, k)) {
      Shortened(t, v, k);
      forall j: nat, w | Accepted(t, j, w) ensures j <= k { Lengthened(t, w, j); }
    }
    if Accepted(t, k, v) && forall j: nat, w | Accepted(t, j, w) :: j <= k {
      Lengthened(t, v, k);
      var (w, j) := ParseText(t, false).value;
      Shortened(t, w, j);
      SameBeginning(t, k, v, w);
    }
  }

  lemma SameBeginning(t: CString, k: nat, v: Value, w: Value)
    requires Accepted(t, k, v) && Accepted(t, k, w)
    ensures v == w
  {
    hide ParseText;
  }

  // ---------- The limits in figures ----------

  datatype Opening = Bracket | Brace

  // Brackets and braces, each with one thing inside, and `null` innermost.
  function Nested(path: seq<Opening>): string {
    if path == [] then "null"
    else if path[0].Bracket? then "[" + (Nested(path[1..]) + "]")
    else "{" + ("\"\":" + Nested(path[1..]) + "}")
  }

  function NestedValue(path: seq<Opening>): Value {
    if path == [] then Null
    else if path[0].Bracket? then Array([NestedValue(path[1..])])
    else Object([Member("", NestedValue(path[1..]))])
  }

  lemma {:induction false} NestedIs(path: seq<Opening>, depth: nat)
    ensures var v := NestedValue(path);
      Standard(v) && Printable(v) && Height(v) == |path| && Render(v, false, depth) == Nested(path)
  {
    if path != [] {
      NestedIs(path[1..], depth + 1);
      var v := NestedValue(path[1..]);
      hide Render, NestedValue, Nested;
      if path[0].Bracket? { OneItem(v, depth); } else { OneMember(v, depth); }
      NestedStep(path);
    }
  }

  lemma {:induction false} NestedStep(path: seq<Opening>)
    requires path != []
    ensures NestedValue(path) ==
      if path[0].Bracket? then Array([NestedValue(path[1..])]) else Object([Member("", NestedValue(path[1..]))])
    ensures Nested(path) ==
      if path[0].Bracket? then "[" + (Nested(path[1..]) + "]") else "{" + ("\"\":" + Nested(path[1..]) + "}")
  {}

  lemma OneItem(v: Value, depth: nat)
    ensures var a := Array([v]);
      && Render(a, false, depth) == "[" + (Render(v, false, depth + 1) + "]")
      && Height(a) == 1 + Height(v) && (Standard(v) ==> Standard(a)) && (Printable(v) ==> Printable(a))
  {
    var items := [v];
    assert items[0] == v && items[1..] == [];
    assert ItemsHeight(items) == Max(Height(v), ItemsHeight([]));
    assert RenderItems(items, false, depth + 1) == Render(v, false, depth + 1) + ItemsRest(items, false, depth + 1);
    assert ItemsRest(items, false, depth + 1) == "";
    assert Render(v, false, depth + 1) + "" == Render(v, false, depth + 1);
  }

  lemma OneMember(v: Value, depth: nat)
    ensures var m := Object([Member("", v)]);
      && Render(m, false, depth) == "{" + ("\"\":" + Render(v, false, depth + 1) + "}")
      && Height(m) == 1 + Height(v) && (Standard(v) ==> Standard(m)) && (Printable(v) ==> Printable(m))
  {
    var m, r := Member("", v), Render(v, false, depth + 1);
    OneMemberSound(m);
    hide *;
    OneMemberText(m, depth);
    MemberText(v, depth + 1);
    Simplified(r);
  }

  lemma Simplified(r: string)
    ensures "{" + ((("" + ("\"\"" + (":" + r))) + "") + ("" + "}")) == "{" + ("\"\":" + r + "}")
  {
    assert "\"\"" + (":" + r) == "\"\":" + r;
  }

  lemma MemberText(v: Value, depth: nat)
    ensures RenderMember(Member("", v), false, depth) == "" + ("\"\"" + (":" + Render(v, false, depth)))
  {
    hide Render;
    assert Quote("") == "\"\"";
  }

  lemma OneMemberText(m: Member, depth: nat)
    ensures Render(Object([m]), false, depth) == "{" + ((RenderMember(m, false, depth + 1) + "") + ("" + "}"))
  {
    hide RenderMember;
    assert [m][1..] == [];
    assert "" + "" == "";
    assert RenderMembers([m], false, depth + 1) == RenderMember(m, false, depth + 1) + "";
  }

  lemma OneMemberSound(m: Member)
    ensures var v, o := m.value, Object([m]);
      Height(o) == 1 + Height(v) && (Standard(v) ==> Standard(o)) && (Printable(v) ==> Printable(o))
  {
    assert [m][1..] == [];
    assert MembersHeight([m]) == Max(Height(m.value), MembersHeight([]));
  }

  // Brackets and braces may nest 1000 deep, in any order, and no deeper.
  lemma {:induction false} NestingLimit(path: seq<Opening>)
    ensures '\0' !in Nested(path)
    ensures ParseText(Nested(path), true).Some? <==> |path| <= 1000
  {
    hide ParseText, Render, Standard, Printable, Height;
    NestedIs(path, 0);
    RoundTrip.ParseInvertsPrint(NestedValue(path), false);
  }

  lemma DigitsRead(w: string)
    requires AllDigits(w) && w != ""
    ensures Strtod(w) == (|w|, Decimal(false, NatOf(w), 0))
  {
    hide NatOf, DigitEnd, ScanSignificand, Normalize, Strtod;
    StrtodIs(w);
    HasAll(w);
    ScanWhole(w, 0, w);
    assert Normalize(false, NatOf(w), 0) == Decimal(false, NatOf(w), 0) by { NormalizeStep(false, NatOf(w), 0); }
  }

  lemma DigitsCopied(s: CString, n: nat)
    requires AllDigits(s) && s != "" && n == if |s| <= 63 then |s| else 63
    ensures NumberEnd(s + "\0", 0, NUMBER_BUFFER) == n && (s + "\0")[0..n] == s[..n]
  {
    var c, w := s + "\0", s[..n];
    assert c[..n] == w && Has(c, 0, w);
    DigitChars(w);
    hide NumberEnd, AllDigits;
    NumberEndReaches(c, 0, NUMBER_BUFFER, w);
    assert n < 63 ==> !IsNumberChar(c[n]);
  }

  lemma DigitsTaken(s: CString, n: nat)
    requires AllDigits(s) && s != "" && n == if |s| <= 63 then |s| else 63
    ensures ParseNumber(s + "\0", 0) == Parsed(Decimal(false, NatOf(s[..n]), 0), n)
  {
    hide NatOf, Strtod, NumberEnd;
    DigitsCopied(s, n);
    DigitsRead(s[..n]);
  }

  // A run of digits is the number it spells, as long as there are at most 63 of them; the
  // parser stops in front of any more.
  lemma DigitLimit(s: CString)
    requires AllDigits(s) && s != ""
    ensures var n := if |s| <= 63 then |s| else 63;
      ParseText(s, false) == Some((Num(Decimal(false, NatOf(s[..n]), 0)), n))
  {
    hide ParseValue, ParseNumber, Skip, NatOf, Rooted, ParseText;
    var c := s + "\0";
    assert c[0] == s[0] && IsDigit(c[0]);
    NumberOnly(c, 0, 0);
    RootedIs(c, false);
    TextIs(s, false);
    assert AfterMark(c) == 0 by { assert |c| >= 3 ==> c[..3][0] == c[0]; }
    RoundTrip.SkipTo(c, 0, 0);
    DigitsTaken(s, if |s| <= 63 then |s| else 63);
  }
}
