/**
  When the minifier's walk stays in step with the string tokens of an accepted text.
  */
module MinifySteps {
  import opened Text
  import opened Decimals
  import opened Strings
  import opened Parsing
  import opened Minify
  import opened MinifyLaws
  import opened MinifyWalk
  import opened MinifyTokens

  // No backslash stands right before the closing quote, or no other quote follows it.
  predicate EndsSafely(t: string, p: nat)
    requires p < |t|
  {
    match ScanString(t, p + 1)
    case Open => true
    case Closed(end, _) => t[end - 1] != '\\' || '\"' !in t[end + 1..]
  }

  // Every string token but the last has no backslash right before its closing quote.
  predicate Clean(t: string) { forall p | 0 <= p < |t| && Opens(t, p) :: EndsSafely(t, p) }

  // The walk comes to every quote that opens a string token.
  predicate InStep(t: string) { forall p | 0 <= p < |t| && Opens(t, p) :: Visits(t, 0, p) }

  // ---------- The tokens of an accepted text ----------

  // The text in front of the terminating NUL.
  function Body(c: string): string
    requires Terminated(c)
  {
    c[..|c| - 1]
  }

  predicate TokenFine(t: string, p: nat)
    requires p < |t|
  {
    t[p] != '/' && t[p] != '\\' && (t[p] == '\"' ==> ScanString(t, p + 1).Closed?)
  }

  // Token by token one gets from `i` to `k`, over closed tokens and without a slash or a
  // backslash between them.
  ghost predicate Lexes(c: string, i: nat, k: nat) {
    && i <= k < |c| && Terminated(c)
    && (Comes(Body(c), 0, i) ==>
          Comes(Body(c), 0, k) && forall p | i <= p < k && Comes(Body(c), 0, p) :: TokenFine(Body(c), p))
  }

  lemma LexesOn(c: string, i: nat, j: nat, k: nat)
    requires Lexes(c, i, j) && Lexes(c, j, k)
    ensures Lexes(c, i, k)
  {
    hide Comes, TokenFine;
  }

  lemma LexesNone(c: string, i: nat)
    requires Terminated(c) && i < |c|
    ensures Lexes(c, i, i)
  {}

  lemma LexesOne(c: string, i: nat)
    requires Terminated(c) && i + 1 < |c| && c[i] != '/' && c[i] != '\\' && c[i] != '\"'
    ensures Lexes(c, i, i + 1)
  {
    hide Comes;
    if Comes(Body(c), 0, i) { ComesNext(Body(c), 0, i); }
  }

  lemma {:induction false} LexesRun(c: string, i: nat, k: nat)
    requires Terminated(c) && i <= k < |c| && forall x | i <= x < k :: c[x] != '/' && c[x] != '\\' && c[x] != '\"'
    ensures Lexes(c, i, k)
    decreases k - i
  {
    hide Lexes;
    if i == k {
      LexesNone(c, i);
    } else {
      LexesOne(c, i);
      LexesRun(c, i + 1, k);
      LexesOn(c, i, i + 1, k);
    }
  }

  lemma LexesSkip(c: string, i: nat)
    requires Terminated(c) && i < |c|
    ensures Lexes(c, i, Skip(c, i))
  {
    hide Skip, Lexes;
    SkippedBlank(c, i);
    LexesRun(c, i, Skip(c, i));
  }

  // A string is read within the text.
  lemma StringInBody(c: string, i: nat)
    requires Terminated(c) && i < |c| && ParseString(c, i).Parsed?
    ensures i < |Body(c)| && ParseString(c, i).next <= |Body(c)| && ParseString(Body(c), i) == ParseString(c, i)
    ensures NextToken(Body(c), i) == ParseString(c, i).next
  {
    hide ParseString;
    QuoteEnds(c, i);
    StringMoves(c, i, Body(c), i);
    var end := TokenEnd(Body(c), i);
  }

  lemma QuoteEnds(c: string, i: nat)
    requires i < |c| && ParseString(c, i).Parsed?
    ensures c[ParseString(c, i).next - 1] == '\"'
  {}

  lemma LexesString(c: string, i: nat)
    requires Terminated(c) && i < |c| && ParseString(c, i).Parsed?
    ensures Lexes(c, i, ParseString(c, i).next)
  {
    hide ParseString, Comes, NextToken;
    var t := Body(c);
    StringInBody(c, i);
    var end := TokenEnd(t, i);
    if Comes(t, 0, i) {
      ComesNext(t, 0, i);
      forall p | i < p < end + 1 && Comes(t, 0, p) ensures false { ComesOrder(t, 0, i, p); }
    }
  }

  lemma LexesNumber(c: string, i: nat)
    requires Terminated(c) && i < |c| && ParseNumber(c, i).Parsed?
    ensures Lexes(c, i, ParseNumber(c, i).next)
  {
    hide Lexes, Strtod, NumberEnd;
    LexesRun(c, i, ParseNumber(c, i).next);
  }

  lemma LexesWord(c: string, i: nat, word: string)
    requires Terminated(c) && Reads(c, i, word) && (word == "null" || word == "false" || word == "true")
    ensures Lexes(c, i, i + |word|)
  {
    hide Lexes;
    forall x | i <= x < i + |word| ensures c[x] == word[x - i] { assert c[i..i + |word|][x - i] == c[x]; }
    LexesRun(c, i, i + |word|);
  }

  lemma {:induction false} LexesValue(c: string, i: nat, depth: nat)
    requires Terminated(c) && i < |c| && ParseValue(c, i, depth).Parsed?
    ensures Lexes(c, i, ParseValue(c, i, depth).next)
    decreases |c| - i, 0
  {
    hide Lexes, ParseString, ParseNumber, ParseItems, ParseMembers, Skip, Reads;
    if Reads(c, i, "null") { LexesWord(c, i, "null"); }
    else if Reads(c, i, "false") { LexesWord(c, i, "false"); }
    else if Reads(c, i, "true") { LexesWord(c, i, "true"); }
    else if c[i] == '\"' { LexesString(c, i); }
    else if c[i] == '-' || IsDigit(c[i]) { LexesNumber(c, i); }
    else {
      var j, k := Skip(c, i + 1), ParseValue(c, i, depth).next;
      LexesOne(c, i);
      LexesSkip(c, i + 1);
      LexesOn(c, i, i + 1, j);
      if c[j] == (if c[i] == '[' then ']' else '}') {
        LexesOne(c, j);
      } else if c[i] == '[' {
        LexesItems(c, j, depth + 1);
      } else {
        LexesMembers(c, j, depth + 1);
      }
      LexesOn(c, i, j, k);
    }
  }

  lemma {:induction false} LexesItems(c: string, i: nat, depth: nat)
    requires Terminated(c) && i < |c| && ParseItems(c, i, depth).Parsed?
    ensures Lexes(c, i, ParseItems(c, i, depth).next)
    decreases |c| - i, 1
  {
    hide Lexes, ParseValue, Skip;
    var j, e := Skip(c, i), ParseItems(c, i, depth).next;
    var k := ParseValue(c, j, depth).next;
    LexesSkip(c, i);
    LexesValue(c, j, depth);
    LexesOn(c, i, j, k);
    LexesEnd(c, i, k);
    if c[Skip(c, k)] == ',' {
      LexesItems(c, Skip(c, k) + 1, depth);
      LexesOn(c, i, Skip(c, k) + 1, e);
    }
  }

  // Behind an element: blanks and one more byte.
  lemma LexesEnd(c: string, i: nat, k: nat)
    requires Lexes(c, i, k) && Skip(c, k) + 1 < |c|
    requires var b := c[Skip(c, k)]; b != '/' && b != '\\' && b != '\"'
    ensures Lexes(c, i, Skip(c, k) + 1)
  {
    hide Lexes, Skip;
    LexesBounds(c, i, k);
    LexesSkip(c, k);
    LexesOne(c, Skip(c, k));
    LexesOn(c, i, k, Skip(c, k));
    LexesOn(c, i, Skip(c, k), Skip(c, k) + 1);
  }

  lemma LexesBounds(c: string, i: nat, k: nat)
    requires Lexes(c, i, k)
    ensures Terminated(c) && i <= k < |c|
  {}

  lemma {:induction false} LexesMember(c: string, i: nat, depth: nat)
    requires Terminated(c) && i < |c| && ParseMember(c, i, depth).Parsed?
    ensures Lexes(c, i, ParseMember(c, i, depth).next)
    decreases |c| - i, 1
  {
    hide Lexes, ParseValue, ParseString, Skip;
    var j := Skip(c, i);
    var k := ParseString(c, j).next;
    var m := Skip(c, k) + 1;
    var x, e := Skip(c, m), ParseMember(c, i, depth).next;
    LexesSkip(c, i);
    LexesString(c, j);
    LexesOn(c, i, j, k);
    LexesEnd(c, i, k);
    LexesSkip(c, m);
    LexesValue(c, x, depth);
    LexesOn(c, i, m, x);
    LexesOn(c, i, x, e);
  }

  lemma {:induction false} LexesMembers(c: string, i: nat, depth: nat)
    requires Terminated(c) && i < |c| && ParseMembers(c, i, depth).Parsed?
    ensures Lexes(c, i, ParseMembers(c, i, depth).next)
    decreases |c| - i, 2
  {
    hide Lexes, ParseMember, Skip;
    var k, e := ParseMember(c, i, depth).next, ParseMembers(c, i, depth).next;
    LexesMember(c, i, depth);
    LexesEnd(c, i, k);
    if c[Skip(c, k)] == ',' {
      LexesMembers(c, Skip(c, k) + 1, depth);
      LexesOn(c, i, Skip(c, k) + 1, e);
    }
  }

  // Every string token of an accepted text is closed, and no slash and no backslash stands
  // between tokens.
  ghost predicate Lexed(t: string) { forall p: nat | p < |t| && Comes(t, 0, p) :: TokenFine(t, p) }

  lemma AcceptedLexed(t: CString)
    requires ParseText(t, true).Some?
    ensures Lexed(t)
  {
    hide ParseValue, Skip, Lexes, AfterMark;
    var c := t + "\0";
    var m := AfterMark(c);
    var i := Skip(c, m);
    var k := ParseValue(c, i, 0).next;
    LexesMark(c);
    LexesSkip(c, m);
    LexesValue(c, i, 0);
    LexesSkip(c, k);
    LexesOn(c, 0, m, i);
    LexesOn(c, 0, i, k);
    LexesOn(c, 0, k, Skip(c, k));
    LexedAll(t);
  }

  lemma LexesMark(c: string)
    requires Terminated(c)
    ensures Lexes(c, 0, AfterMark(c))
  {
    hide Lexes;
    if |c| > 4 { assert c[0] == c[..3][0] && c[1] == c[..3][1] && c[2] == c[..3][2]; }
    LexesRun(c, 0, AfterMark(c));
  }

  lemma LexedAll(t: CString)
    requires Lexes(t + "\0", 0, |t|)
    ensures Lexed(t)
  {
    hide TokenFine;
    assert Body(t + "\0") == t;
  }

  // ---------- In step ----------

  // A copy does not stop in front of the next quote.
  lemma {:induction false} CopyReaches(t: string, k: nat, p: nat)
    requires k <= p < |t| && t[p] == '\"' && forall x | k <= x < p :: t[x] != '\"'
    ensures CopyEnd(t, k) > p
    decreases p - k
  {
    if k < p && !(t[k] == '\\' && t[k + 1] == '\"') { CopyReaches(t, k + 1, p); }
  }

  // The token at `p`, and where a copy that starts with it stops.
  lemma CopyOfToken(t: string, p: nat)
    requires p < |t| && t[p] == '\"' && ScanString(t, p + 1).Closed?
    ensures var e := NextToken(t, p);
      && p + 2 <= e <= |t| && (EndsSafely(t, p) <==> t[e - 2] != '\\' || '\"' !in t[e..])
      && NextStop(t, p) == if t[e - 2] == '\\' then CopyEnd(t, e) else e
  {
    hide CopyEnd, ScanString;
    CopyRuns(t, p + 1, ScanString(t, p + 1).end);
  }

  // In a lexed text the walk and the tokens go on together from where both have come, to
  // the end or to a token that ends unsafely.
  lemma {:induction false} StaysInStep(t: string, i: nat, p: nat)
    requires Lexed(t) && Clean(t) && i < |t| && Comes(t, 0, i) && Visits(t, 0, i) && Comes(t, i, p) && Opens(t, p)
    ensures Visits(t, 0, p)
    decreases |t| - i
  {
    hide Comes, Visits, ScanString, EndsSafely, NextToken, NextStop, TokenFine;
    if i != p {
      var e := NextToken(t, i);
      ComesNext(t, 0, i);
      VisitsNext(t, 0, i);
      ComesStep(t, i, p);
      TokenStep(t, i);
      ComesWithin(t, e, p);
      QuoteBehind(t, e, p);
      StaysInStep(t, e, p);
    }
  }

  lemma ComesStep(t: string, i: nat, p: nat)
    requires Comes(t, i, p) && i != p
    ensures i < |t| && Comes(t, NextToken(t, i), p)
  {}

  lemma ComesWithin(t: string, i: nat, p: nat)
    requires Comes(t, i, p)
    ensures i <= p
  {}

  lemma TokenStep(t: string, i: nat)
    requires Lexed(t) && Clean(t) && i < |t| && Comes(t, 0, i)
    ensures NextToken(t, i) == NextStop(t, i) || '\"' !in t[NextToken(t, i)..]
  {
    hide Comes, ScanString, EndsSafely;
    assert TokenFine(t, i);
    if t[i] == '\"' {
      assert Opens(t, i);
      CopyOfToken(t, i);
    }
  }

  lemma QuoteBehind(t: string, e: nat, p: nat)
    requires e <= p < |t| && t[p] == '\"'
    ensures '\"' in t[e..]
  {
    assert t[e..][p - e] == t[p];
  }

  // The next quote behind a token opens the next token.
  lemma {:induction false} NextOpening(t: string, e: nat) returns (p: nat)
    requires Comes(t, 0, e) && e <= |t| && '\"' in t[e..]
    ensures e <= p && Opens(t, p) && forall x | e <= x < p :: t[x] != '\"'
    decreases |t| - e
  {
    hide Comes;
    if t[e] == '\"' {
      p := e;
    } else {
      ComesNext(t, 0, e);
      assert t[e..] == [t[e]] + t[e + 1..];
      p := NextOpening(t, e + 1);
    }
  }

  // Behind a token that ends unsafely the walk misses the next one.
  lemma MissesNext(t: string, p: nat)
    requires Lexed(t) && Opens(t, p) && !EndsSafely(t, p) && Visits(t, 0, p)
    ensures !InStep(t)
  {
    hide Comes, Visits, ScanString, EndsSafely, NextToken, NextStop;
    assert TokenFine(t, p);
    CopyOfToken(t, p);
    ComesNext(t, 0, p);
    var q := NextOpening(t, NextToken(t, p));
    CopyReaches(t, NextToken(t, p), q);
    if Visits(t, 0, q) { VisitsOrder(t, 0, p, q); }
  }

  // For every accepted text: the walk comes to every quote that opens a string token if
  // and only if every token but the last has no backslash right before its closing quote.
  lemma CleanIsInStep(t: CString)
    requires ParseText(t, true).Some?
    ensures Clean(t) <==> InStep(t)
  {
    hide ParseText, Comes, Visits, EndsSafely, Lexed;
    AcceptedLexed(t);
    if Clean(t) {
      forall p: nat | p < |t| && Opens(t, p) ensures Visits(t, 0, p) {
        StartsTogether(t, p);
        StaysInStep(t, 0, p);
      }
    } else {
      var p: nat :| p < |t| && Opens(t, p) && !EndsSafely(t, p);
      if Visits(t, 0, p) { MissesNext(t, p); }
    }
  }

  lemma StartsTogether(t: string, p: nat)
    requires Opens(t, p)
    ensures Comes(t, 0, 0) && Visits(t, 0, 0) && Comes(t, 0, p)
  {}

  // A walk that is in step takes no byte from a string token.
  lemma InStepIsHarmless(t: CString)
    requires ParseText(t, true).Some? && InStep(t)
    ensures Harmless(t)
  {
    hide ParseText, Comes, Visits, Drops, NextStop, NextToken, ScanString, EndsSafely;
    AcceptedLexed(t);
    forall p: nat, x: nat | Opens(t, p) && p <= x < NextToken(t, p) ensures !Drops(t, x) {
      assert TokenFine(t, p);
      CopyOfToken(t, p);
      StopKeeps(t, p, x);
    }
  }
}
