/**
  How parsing the minified text follows parsing the text itself, value by value.
  */
module MinifyImage {
  import opened Text
  import opened Decimals
  import opened Strings
  import opened Parsing
  import opened Minify
  import opened MinifyLaws
  import opened MinifyWalk
  import opened MinifyTokens
  import opened MinifySteps
  import opened SlashCount
  import opened MinifyPhases
  import RoundTrip

  // Every string token keeps all its bytes or stays a token whatever it loses.
  ghost predicate Mild(t: string) { forall p | Opens(t, p) && Loses(t, p) :: SimpleToken(t, p) }

  // Every token denotes a text without NUL, no slash is dropped for nothing, and the text
  // and what is left of it are both outside an escape.
  ghost predicate Even(t: string, i: nat, w: string, o: nat) {
    && AllNulFree(t) && Proper(t) && Lexed(t)
    && Tight(t, i, w, o) && !Odd(t, i) && !Odd(w, o)
  }

  // Either way tokens stay tokens.
  ghost predicate Fair(t: string, i: nat, w: string, o: nat) { Mild(t) || Even(t, i, w, o) }

  lemma FairKept(t: string, i: nat, w: string, o: nat, n: nat) returns (next: nat)
    requires Fair(t, i, w, o) && Comes(t, 0, i) && Walks(t, i, w, o, n)
    requires i < |t| && t[i] != '\"' && (n == i ==> !DroppedHere(t[i]))
    ensures o < |w| && w[o] == t[i] && Walks(t, i + 1, w, o + 1, next) && Fair(t, i + 1, w, o + 1)
  {
    hide Walks, Comes, Drops, Mild, AllNulFree, Proper, Tight, Odd;
    if Mild(t) {
      next := WalkKeep(t, i, w, o, n);
    } else {
      assert TokenFine(t, i);
      next := TightKept(t, i, w, o, n);
      EvenBehind(t, i);
      EvenBehind(w, o);
    }
  }

  lemma FairLost(t: string, i: nat, w: string, o: nat)
    requires Fair(t, i, w, o) && Walks(t, i, w, o, i) && i < |t| && IsStripped(t[i])
    ensures Walks(t, i + 1, w, o, i + 1) && Fair(t, i + 1, w, o)
  {
    hide Walks, Drops, Mild, AllNulFree, Proper, Tight, Odd, Lexed;
    if Mild(t) { WalkDrop(t, i, w, o); } else { TightLost(t, i, w, o); }
  }

  lemma FairToken(t: string, i: nat, w: string, o: nat, n: nat) returns (e: nat, next: nat)
    requires Fair(t, i, w, o) && Opens(t, i) && Walks(t, i, w, o, n) && ParseString(t, i).Parsed?
    ensures o < |w| && ParseString(w, o).Parsed? && ParseString(w, o).next == e
    ensures Walks(t, ParseString(t, i).next, w, e, next) && Fair(t, ParseString(t, i).next, w, e)
    ensures ParseString(w, o).value == ParseString(t, i).value <==> !Loses(t, i)
  {
    hide Walks, Comes, Loses, Proper, Tight, Odd, Lexed, ParseString, SimpleToken, NulFree;
    if Mild(t) {
      e, next := TokenLeft(t, i, w, o, n);
    } else {
      e, next := TokenTight(t, i, w, o, n);
    }
  }

  // The buffer `d` holds, from `o` on, what the walk leaves of the text in the buffer `c`
  // from `i` on, where no token is under way.
  ghost predicate Image(c: string, i: nat, d: string, o: nat) {
    && Terminated(c) && Terminated(d) && i < |c| && o < |d|
    && '\0' !in Body(c) && Fair(Body(c), i, Body(d), o) && Comes(Body(c), 0, i)
    && exists n :: Walks(Body(c), i, Body(d), o, n)
  }

  // No string token between `i` and `k` loses a byte.
  ghost predicate Lossless(c: string, i: nat, k: nat) {
    Terminated(c) && forall p | i <= p < k && Opens(Body(c), p) :: !Loses(Body(c), p)
  }

  lemma LosslessParts(c: string, i: nat, j: nat, k: nat)
    requires i <= j <= k
    ensures Lossless(c, i, k) <==> Lossless(c, i, j) && Lossless(c, j, k)
  {
    hide Opens, Loses;
  }

  predicate NoQuote(c: string, i: nat, k: nat)
    requires k <= |c|
  {
    forall x | i <= x < k :: c[x] != '\"'
  }

  lemma NoQuoteLossless(c: string, i: nat, k: nat)
    requires Terminated(c) && k <= |c| && NoQuote(c, i, k)
    ensures Lossless(c, i, k)
  {
    hide Comes, Loses;
    assert forall p | i <= p < k :: !Opens(Body(c), p);
  }

  lemma ImageBounds(c: string, i: nat, d: string, o: nat)
    requires Image(c, i, d, o)
    ensures Terminated(c) && Terminated(d) && i < |c| && o < |d|
    ensures c[i] == '\0' ==> i == |c| - 1
  {
    hide Walks, Comes, Fair;
    assert i < |c| - 1 ==> Body(c)[i] == c[i];
  }

  lemma ImageEnd(c: string, i: nat, d: string, o: nat)
    requires Image(c, i, d, o) && i == |c| - 1
    ensures o == |d| - 1
  {
    hide Walks, Comes, Fair;
    var n :| Walks(Body(c), i, Body(d), o, n);
    WalkEnd(Body(c), Body(d), o, n);
  }

  lemma ImageStep(c: string, i: nat, d: string, o: nat, j: nat, e: nat, n: nat)
    requires Image(c, i, d, o) && i < |c| - 1 && j == NextToken(Body(c), i) && Walks(Body(c), j, Body(d), e, n)
    requires Fair(Body(c), j, Body(d), e)
    ensures Image(c, j, d, e)
  {
    hide Walks, Comes, Fair, NextToken;
    ComesNext(Body(c), 0, i);
    WalkBounds(Body(c), j, Body(d), e, n);
  }

  lemma ImageKept(c: string, i: nat, d: string, o: nat) returns (n: nat)
    requires Image(c, i, d, o) && i < |c| - 1 && !DroppedHere(c[i])
    ensures o < |d| - 1 && d[o] == c[i] && Walks(Body(c), i + 1, Body(d), o + 1, n)
    ensures c[i] != '\"' ==> Fair(Body(c), i + 1, Body(d), o + 1)
  {
    hide Walks, Comes, Fair;
    n :| Walks(Body(c), i, Body(d), o, n);
    if c[i] == '\"' {
      n := WalkKeep(Body(c), i, Body(d), o, n);
    } else {
      n := FairKept(Body(c), i, Body(d), o, n);
    }
  }

  lemma ImagePlain(c: string, i: nat, d: string, o: nat)
    requires Image(c, i, d, o) && i < |c| - 1 && IsPlain(c[i])
    ensures o < |d| - 1 && d[o] == c[i] && Image(c, i + 1, d, o + 1)
  {
    hide Image, Walks, Fair;
    ImageBounds(c, i, d, o);
    var n := ImageKept(c, i, d, o);
    ImageStep(c, i, d, o, i + 1, o + 1, n);
  }

  // A blank is dropped where the walk is in step, and kept in the middle of a copy.
  lemma ImageStripped(c: string, i: nat, d: string, o: nat)
    requires Image(c, i, d, o) && i < |c| - 1 && IsStripped(c[i])
    ensures Image(c, i + 1, d, o) || (o < |d| - 1 && d[o] == c[i] && Image(c, i + 1, d, o + 1))
  {
    hide Walks, Comes, Fair;
    var n :| Walks(Body(c), i, Body(d), o, n);
    if n == i {
      FairLost(Body(c), i, Body(d), o);
      ImageStep(c, i, d, o, i + 1, o, i + 1);
    } else {
      n := FairKept(Body(c), i, Body(d), o, n);
      ImageStep(c, i, d, o, i + 1, o + 1, n);
    }
  }

  // ---------- Blanks ----------

  lemma SkipNext(c: string, i: nat)
    requires i + 1 < |c| && IsBlank(c[i])
    ensures Skip(c, i) == Skip(c, i + 1)
  {}

  lemma SkipHere(c: string, i: nat)
    requires i < |c| && (!IsBlank(c[i]) || i == |c| - 1)
    ensures Skip(c, i) == i
  {}

  lemma {:induction false} ImageSkip(c: string, i: nat, d: string, o: nat)
    requires i < |c| && o < |d| && Image(c, i, d, o) && c[Skip(c, i)] != '/'
    ensures Image(c, Skip(c, i), d, Skip(d, o)) && d[Skip(d, o)] == c[Skip(c, i)]
    ensures Lossless(c, i, Skip(c, i))
    decreases |c| - i
  {
    hide Image, Skip, Lossless;
    ImageBounds(c, i, d, o);
    SkipLossless(c, i);
    if i == |c| - 1 {
      ImageEnd(c, i, d, o);
      SkipHere(c, i);
      SkipHere(d, o);
    } else if IsBlank(c[i]) {
      SkipNext(c, i);
      if IsStripped(c[i]) { ImageStripped(c, i, d, o); } else { ImagePlain(c, i, d, o); }
      if Image(c, i + 1, d, o) {
        ImageSkip(c, i + 1, d, o);
      } else {
        SkipNext(d, o);
        ImageSkip(c, i + 1, d, o + 1);
      }
    } else {
      SkipHere(c, i);
      ImageHead(c, i, d, o);
      SkipHere(d, o);
    }
  }

  lemma SkipLossless(c: string, i: nat)
    requires Terminated(c) && i < |c|
    ensures Lossless(c, i, Skip(c, i))
  {
    hide Skip, Lossless;
    SkippedBlank(c, i);
    NoQuoteLossless(c, i, Skip(c, i));
  }

  lemma ImageHead(c: string, i: nat, d: string, o: nat)
    requires Image(c, i, d, o) && i < |c| - 1 && !IsStripped(c[i]) && c[i] != '/'
    ensures d[o] == c[i]
  {
    hide Image, Walks;
    var n := ImageKept(c, i, d, o);
  }

  lemma {:induction false} NoDigitNext(c: string, i: nat, d: string, o: nat)
    requires i < |c| && o < |d| && Image(c, i, d, o) && Delimited(c, i)
    ensures !IsNumberChar(c[i]) && !IsNumberChar(d[o])
    decreases |c| - i
  {
    hide Image, Skip;
    ImageBounds(c, i, d, o);
    if i == |c| - 1 {
      ImageEnd(c, i, d, o);
    } else if IsStripped(c[i]) {
      SkipNext(c, i);
      ImageStripped(c, i, d, o);
      if Image(c, i + 1, d, o) { NoDigitNext(c, i + 1, d, o); }
    } else {
      if !IsBlank(c[i]) { SkipHere(c, i); }
      ImagePlain(c, i, d, o);
    }
  }

  // ---------- Tokens ----------

  lemma {:induction false} ImageRun(c: string, i: nat, d: string, o: nat, n: nat)
    requires i + n < |c| && Image(c, i, d, o)
    requires forall k | i <= k < i + n :: IsPlain(c[k])
    ensures o + n < |d| && Image(c, i + n, d, o + n)
    ensures d[o..o + n] == c[i..i + n]
    decreases n
  {
    hide Image;
    ImageBounds(c, i, d, o);
    if n > 0 {
      ImagePlain(c, i, d, o);
      ImageRun(c, i + 1, d, o + 1, n - 1);
      assert d[o..o + n] == [d[o]] + d[o + 1..o + n] && c[i..i + n] == [c[i]] + c[i + 1..i + n];
    }
  }

  lemma ImageWord(c: string, i: nat, d: string, o: nat, word: string)
    requires Image(c, i, d, o) && Reads(c, i, word) && i + |word| < |c|
    requires forall k | 0 <= k < |word| :: IsPlain(word[k])
    ensures Reads(d, o, word) && o + |word| < |d| && Image(c, i + |word|, d, o + |word|)
    ensures Lossless(c, i, i + |word|)
  {
    hide Image, Lossless;
    ImageBounds(c, i, d, o);
    forall k | i <= k < i + |word| ensures c[k] == word[k - i] { assert c[i..i + |word|][k - i] == c[k]; }
    ImageRun(c, i, d, o, |word|);
    NoQuoteLossless(c, i, i + |word|);
  }

  lemma ImageNumber(c: string, i: nat, d: string, o: nat)
    requires i < |c| && o < |d| && Image(c, i, d, o) && ParseNumber(c, i).Parsed?
    requires ParseNumber(c, i).next < |c| && Delimited(c, ParseNumber(c, i).next)
    ensures var k := ParseNumber(c, i).next;
      && o + k - i < |d| && ParseNumber(d, o) == Parsed(ParseNumber(c, i).value, o + k - i) && Image(c, k, d, o + k - i)
      && Lossless(c, i, k)
  {
    hide Image, Delimited, Lossless, Strtod, NumberEnd;
    ImageBounds(c, i, d, o);
    var k := ParseNumber(c, i).next;
    NumberRun(c, i);
    ImageRun(c, i, d, o, k - i);
    NoDigitNext(c, k, d, o + k - i);
    NumberMoves(c, i, k, d, o);
    NoQuoteLossless(c, i, k);
  }

  lemma NumberRun(c: string, i: nat)
    requires i < |c| && ParseNumber(c, i).Parsed? && ParseNumber(c, i).next < |c|
    ensures forall x | i <= x < ParseNumber(c, i).next :: IsPlain(c[x])
    ensures !IsNumberChar(c[ParseNumber(c, i).next]) ==> ParseNumber(c, i).next == NumberEnd(c, i, NUMBER_BUFFER)
  {
    hide Strtod, NumberEnd;
  }

  lemma NumberMoves(c: string, i: nat, e: nat, d: string, o: nat)
    requires i <= e < |c| && e == NumberEnd(c, i, NUMBER_BUFFER) && o + e - i < |d|
    requires d[o..o + (e - i)] == c[i..e] && !IsNumberChar(d[o + e - i])
    ensures NumberEnd(d, o, NUMBER_BUFFER) == o + e - i && d[o..o + e - i] == c[i..e]
  {
    var x := c[i..e];
    assert Has(d, o, x) by { assert o + |x| == o + (e - i); }
    RoundTrip.NumberEndOf(d, o, x, NUMBER_BUFFER);
  }

  lemma ImageString(c: string, i: nat, d: string, o: nat) returns (e: nat)
    requires i < |c| && o < |d| && Image(c, i, d, o) && ParseString(c, i).Parsed?
    ensures var k := ParseString(c, i).next;
      && k < |c| && ParseString(d, o).Parsed? && ParseString(d, o).next == e && e < |d| && Image(c, k, d, e)
      && (ParseString(d, o).value == ParseString(c, i).value <==> Lossless(c, i, k))
  {
    hide Walks, Comes, Fair, ParseString, Loses;
    var t, w, k := Body(c), Body(d), ParseString(c, i).next;
    StringInBody(c, i);
    TokenOpens(c, i, d, o);
    var n :| Walks(t, i, w, o, n);
    e, n := FairToken(t, i, w, o, n);
    ImageStep(c, i, d, o, k, e, n);
    StringMoves(w, o, d, o);
    TokenLossless(c, i);
  }

  lemma TokenOpens(c: string, i: nat, d: string, o: nat)
    requires Image(c, i, d, o) && ParseString(c, i).Parsed? && i < |Body(c)|
    ensures Opens(Body(c), i)
  {
    hide Walks, Comes, Fair, Decode, ScanString;
  }

  lemma TokenLossless(c: string, i: nat)
    requires Terminated(c) && Opens(Body(c), i)
    ensures Lossless(c, i, NextToken(Body(c), i)) <==> !Loses(Body(c), i)
  {
    hide Comes, Loses, NextToken;
    var t := Body(c);
    forall p | i < p < NextToken(t, i) && Opens(t, p) ensures false { ComesOrder(t, 0, i, p); }
  }

  // ---------- Values ----------

  // Both parse steps succeed, and give the same exactly when `same`.
  ghost predicate Alike<T>(r: Parse<T>, r': Parse<T>, p: nat, same: bool) {
    r.Parsed? && r'.Parsed? && r'.next == p && (r'.value == r.value <==> same)
  }

  lemma {:induction false} ValueImage(c: string, i: nat, d: string, o: nat, depth: nat) returns (p: nat)
    requires Terminated(c) && Terminated(d) && i < |c| && o < |d| && Image(c, i, d, o)
    requires ParseValue(c, i, depth).Parsed? && Delimited(c, ParseValue(c, i, depth).next)
    ensures var k := ParseValue(c, i, depth).next;
      && p < |d| && Image(c, k, d, p)
      && Alike(ParseValue(c, i, depth), ParseValue(d, o, depth), p, Lossless(c, i, k))
    decreases |c| - i, 0
  {
    hide Image, Delimited, Lossless, ParseString, ParseNumber, ParseArray, ParseObject, Reads;
    if Reads(c, i, "null") {
      p := o + 4;
      ImageWord(c, i, d, o, "null");
    } else if Reads(c, i, "false") {
      p := o + 5;
      ImageWord(c, i, d, o, "false");
      WordsDiffer(d, o, "false");
    } else if Reads(c, i, "true") {
      p := o + 4;
      ImageWord(c, i, d, o, "true");
      WordsDiffer(d, o, "true");
    } else {
      ImageHead(c, i, d, o);
      RoundTrip.Dispatch(d, o);
      if c[i] == '\"' {
        p := ImageString(c, i, d, o);
      } else if c[i] == '[' {
        p := ArrayImage(c, i, d, o, depth);
      } else if c[i] == '{' {
        p := ObjectImage(c, i, d, o, depth);
      } else {
        p := o + ParseNumber(c, i).next - i;
        ImageNumber(c, i, d, o);
      }
    }
  }

  lemma WordsDiffer(d: string, o: nat, word: string)
    requires (word == "false" || word == "true") && Reads(d, o, word)
    ensures !Reads(d, o, "null") && (word == "true" ==> !Reads(d, o, "false"))
  {
    assert d[o..o + |word|][0] == d[o] == word[0];
    RoundTrip.NotWord(d, o, "null");
    if word == "true" { RoundTrip.NotWord(d, o, "false"); }
  }

  // A byte that is no quote loses nothing.
  lemma OneLossless(c: string, i: nat)
    requires Terminated(c) && i < |c| && c[i] != '\"'
    ensures Lossless(c, i, i + 1)
  {
    hide Lossless;
    NoQuoteLossless(c, i, i + 1);
  }

  lemma {:induction false} ArrayImage(c: string, i: nat, d: string, o: nat, depth: nat) returns (p: nat)
    requires Terminated(c) && Terminated(d) && i < |c| && o < |d| && Image(c, i, d, o) && c[i] == d[o] == '['
    requires ParseArray(c, i, depth).Parsed?
    ensures var k := ParseArray(c, i, depth).next;
      && p < |d| && Image(c, k, d, p)
      && Alike(ParseArray(c, i, depth), ParseArray(d, o, depth), p, Lossless(c, i, k))
    decreases |c| - i - 1, 3
  {
    hide Image, Skip, Lossless, ParseItems;
    ImagePlain(c, i, d, o);
    OneLossless(c, i);
    var j, k := Skip(c, i + 1), ParseArray(c, i, depth).next;
    LosslessParts(c, i, i + 1, k);
    LosslessParts(c, i + 1, j, k);
    if c[j] == ']' {
      ImageSkip(c, i + 1, d, o + 1);
      ImagePlain(c, j, d, Skip(d, o + 1));
      OneLossless(c, j);
      p := Skip(d, o + 1) + 1;
    } else {
      ItemsStart(c, i + 1, depth + 1);
      ImageSkip(c, i + 1, d, o + 1);
      p := ItemsImage(c, j, d, Skip(d, o + 1), depth + 1);
    }
  }

  lemma ValueStart(c: string, i: nat, depth: nat)
    requires Terminated(c) && i < |c| && ParseValue(c, i, depth).Parsed?
    ensures c[i] != '/' && c[i] != '\0' && c[i] != BYTE_ORDER_MARK[0]
  {
    hide ParseString, ParseNumber, ParseArray, ParseObject;
    if c[i] != 'n' && c[i] != 'f' && c[i] != 't' { RoundTrip.Dispatch(c, i); }
  }

  lemma SkipTwice(c: string, i: nat)
    requires i < |c|
    ensures Skip(c, Skip(c, i)) == Skip(c, i)
  {}

  lemma ItemsStart(c: string, i: nat, depth: nat)
    requires Terminated(c) && i < |c| && ParseItems(c, Skip(c, i), depth).Parsed?
    ensures c[Skip(c, i)] != '/'
  {
    hide ParseValue, Skip;
    SkipTwice(c, i);
    ValueStart(c, Skip(c, i), depth);
  }

  lemma SameLists<T>(v: T, rest: seq<T>, v': T, rest': seq<T>)
    ensures [v] + rest == [v'] + rest' <==> v == v' && rest == rest'
  {
    assert ([v] + rest)[0] == v && ([v'] + rest')[0] == v';
    assert ([v] + rest)[1..] == rest && ([v'] + rest')[1..] == rest';
  }

  lemma {:induction false} ItemsImage(c: string, i: nat, d: string, o: nat, depth: nat) returns (p: nat)
    requires Terminated(c) && Terminated(d) && i < |c| && o < |d| && Image(c, i, d, o)
    requires ParseItems(c, i, depth).Parsed?
    ensures var k := ParseItems(c, i, depth).next;
      && p < |d| && Image(c, k, d, p)
      && Alike(ParseItems(c, i, depth), ParseItems(d, o, depth), p, Lossless(c, i, k))
    decreases |c| - i, 1
  {
    hide Image, Skip, Lossless, ParseValue;
    var j := Skip(c, i);
    ValueStart(c, j, depth);
    ImageSkip(c, i, d, o);
    var k := ParseValue(c, j, depth).next;
    var q := ValueImage(c, j, d, Skip(d, o), depth);
    ImageSkip(c, k, d, q);
    var m, n := Skip(c, k), Skip(d, q);
    ImagePlain(c, m, d, n);
    ElementLossless(c, i, j, k, m, ParseItems(c, i, depth).next);
    if c[m] == ',' {
      p := ItemsImage(c, m + 1, d, n + 1, depth);
      SameLists(ParseValue(d, Skip(d, o), depth).value, ParseItems(d, n + 1, depth).value,
        ParseValue(c, j, depth).value, ParseItems(c, m + 1, depth).value);
    } else {
      p := n + 1;
      LosslessNone(c, m + 1);
      SameLists(ParseValue(d, Skip(d, o), depth).value, [], ParseValue(c, j, depth).value, []);
    }
  }

  // Of the parts of a list, only the first element and what follows its comma matter.
  lemma ElementLossless(c: string, i: nat, j: nat, k: nat, m: nat, e: nat)
    requires Terminated(c) && i <= j <= k <= m < e && m < |c| && c[m] != '\"'
    requires Lossless(c, i, j) && Lossless(c, k, m)
    ensures Lossless(c, i, e) <==> Lossless(c, j, k) && Lossless(c, m + 1, e)
  {
    hide Lossless;
    OneLossless(c, m);
    LosslessParts(c, i, j, e);
    LosslessParts(c, j, k, e);
    LosslessParts(c, k, m, e);
    LosslessParts(c, m, m + 1, e);
  }

  lemma LosslessNone(c: string, i: nat)
    requires Terminated(c)
    ensures Lossless(c, i, i)
  {}

  lemma {:induction false} ObjectImage(c: string, i: nat, d: string, o: nat, depth: nat) returns (p: nat)
    requires Terminated(c) && Terminated(d) && i < |c| && o < |d| && Image(c, i, d, o) && c[i] == d[o] == '{'
    requires ParseObject(c, i, depth).Parsed?
    ensures var k := ParseObject(c, i, depth).next;
      && p < |d| && Image(c, k, d, p)
      && Alike(ParseObject(c, i, depth), ParseObject(d, o, depth), p, Lossless(c, i, k))
    decreases |c| - i - 1, 3
  {
    hide Image, Skip, Lossless, ParseMembers;
    ImagePlain(c, i, d, o);
    OneLossless(c, i);
    var j, k := Skip(c, i + 1), ParseObject(c, i, depth).next;
    LosslessParts(c, i, i + 1, k);
    LosslessParts(c, i + 1, j, k);
    if c[j] == '}' {
      ImageSkip(c, i + 1, d, o + 1);
      ImagePlain(c, j, d, Skip(d, o + 1));
      OneLossless(c, j);
      p := Skip(d, o + 1) + 1;
    } else {
      MembersStart(c, i + 1, depth + 1);
      ImageSkip(c, i + 1, d, o + 1);
      p := MembersImage(c, j, d, Skip(d, o + 1), depth + 1);
    }
  }

  lemma MembersStart(c: string, i: nat, depth: nat)
    requires Terminated(c) && i < |c| && ParseMembers(c, Skip(c, i), depth).Parsed?
    ensures c[Skip(c, i)] != '/'
  {}

  lemma {:induction false} MemberImage(c: string, i: nat, d: string, o: nat, depth: nat) returns (p: nat)
    requires Terminated(c) && Terminated(d) && i < |c| && o < |d| && Image(c, i, d, o)
    requires ParseMember(c, i, depth).Parsed? && Delimited(c, ParseMember(c, i, depth).next)
    ensures var k := ParseMember(c, i, depth).next;
      && p < |d| && Image(c, k, d, p)
      && Alike(ParseMember(c, i, depth), ParseMember(d, o, depth), p, Lossless(c, i, k))
    decreases |c| - i, 1
  {
    hide Image, Skip, Lossless, ParseValue, ParseString, Delimited;
    var j := Skip(c, i);
    var k := ParseString(c, j).next;
    ImageSkip(c, i, d, o);
    var q := ImageString(c, j, d, Skip(d, o));
    ImageSkip(c, k, d, q);
    var m, n := Skip(c, k), Skip(d, q);
    ImagePlain(c, m, d, n);
    var x, e := Skip(c, m + 1), ParseMember(c, i, depth).next;
    ValueStart(c, x, depth);
    ImageSkip(c, m + 1, d, n + 1);
    p := ValueImage(c, x, d, Skip(d, n + 1), depth);
    ElementLossless(c, i, j, k, m, e);
    LosslessParts(c, m + 1, x, e);
  }

  lemma {:induction false} MembersImage(c: string, i: nat, d: string, o: nat, depth: nat) returns (p: nat)
    requires Terminated(c) && Terminated(d) && i < |c| && o < |d| && Image(c, i, d, o)
    requires ParseMembers(c, i, depth).Parsed?
    ensures var k := ParseMembers(c, i, depth).next;
      && p < |d| && Image(c, k, d, p)
      && Alike(ParseMembers(c, i, depth), ParseMembers(d, o, depth), p, Lossless(c, i, k))
    decreases |c| - i, 2
  {
    hide Image, Skip, Lossless, ParseMember;
    var k := ParseMember(c, i, depth).next;
    var q := MemberImage(c, i, d, o, depth);
    ImageSkip(c, k, d, q);
    var m, n := Skip(c, k), Skip(d, q);
    ImagePlain(c, m, d, n);
    LosslessNone(c, i);
    ElementLossless(c, i, i, k, m, ParseMembers(c, i, depth).next);
    if c[m] == ',' {
      p := MembersImage(c, m + 1, d, n + 1, depth);
      SameLists(ParseMember(d, o, depth).value, ParseMembers(d, n + 1, depth).value,
        ParseMember(c, i, depth).value, ParseMembers(c, m + 1, depth).value);
    } else {
      p := n + 1;
      LosslessNone(c, m + 1);
      SameLists(ParseMember(d, o, depth).value, [], ParseMember(c, i, depth).value, []);
    }
  }
}
