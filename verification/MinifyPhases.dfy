/**
  The minifier drops no slash for nothing: what is left holds no more slashes than the
  text, and as many only if every slash that is dropped makes a code unit spell another.
  */
module MinifyPhases {
  import opened Text
  import opened Strings
  import opened Minify
  import opened MinifyWalk
  import opened MinifyTokens
  import opened SlashCount
  import Utf

  // ---------- What is left holds no more ----------

  // The next bytes of the text and of what is left of it are not escaped alike.
  function Off(t: string, q: nat, w: string, r: nat): nat
    requires q <= |t| && r <= |w|
  {
    if Odd(t, q) != Odd(w, r) then 1 else 0
  }

  // A dropped stretch is left behind.
  lemma WalkJump(t: string, q: nat, w: string, r: nat)
    requires Walks(t, q, w, r, q) && q < |t| && DroppedHere(t[q])
    ensures Walks(t, NextStop(t, q), w, r, NextStop(t, q))
  {
    hide Visits, Minified, LineEnd, BlockEnd, CopyEnd, Drops;
    VisitsNext(t, 0, q);
    MinifyStep(t, q);
  }

  lemma KeptWeight(t: string, q: nat, w: string, r: nat)
    requires Proper(t) && q < |t| && r < |w| && w[r] == t[q]
    requires Odd(t, q) && t[q] == 'u' ==>
      forall x | q <= x < q + 5 :: x < |t| && r + x - q < |w| && w[r + x - q] == t[x]
    ensures Weight(w, r) + Off(t, q + 1, w, r + 1) <= Weight(t, q) + Off(t, q, w, r)
  {
    if t[q] == 'u' && Odd(t, q) && Odd(w, r) {
      assert t[q + 1] == w[r + (q + 1) - q] && t[q + 2] == w[r + (q + 2) - q];
      assert t[q + 3] == w[r + (q + 3) - q] && t[q + 4] == w[r + (q + 4) - q];
    }
  }

  // A byte that is not dropped, and what it is worth.
  lemma KeptWorth(t: string, q: nat, w: string, r: nat, n: nat) returns (next: nat)
    requires Proper(t) && Walks(t, q, w, r, n) && q < |t| && (n == q ==> !DroppedHere(t[q]))
    ensures r < |w| && w[r] == t[q] && Walks(t, q + 1, w, r + 1, next) && !Drops(t, q)
    ensures Weight(w, r) + Off(t, q + 1, w, r + 1) <= Weight(t, q) + Off(t, q, w, r)
  {
    hide Walks, Drops, Weight, Off;
    next := WalkKeep(t, q, w, r, n);
    if Odd(t, q) && t[q] == 'u' {
      assert Escaped(t, q);
      UnitBytes(t, q);
      var _ := WalkPast(t, q, w, r, n, q + 5);
    }
    KeptWeight(t, q, w, r);
  }

  lemma UnitBytes(t: string, q: nat)
    requires q < |t| && t[q] == 'u' && Escaped(t, q)
    ensures q + 5 <= |t| && forall x | q <= x < q + 5 :: !DroppedHere(t[x])
  {}

  lemma SumFrom(x: string, p: nat)
    requires p < |x|
    ensures Sum(x, p, |x|) == Weight(x, p) + Sum(x, p + 1, |x|)
  {}

  // A blank cannot be escaped in a proper text.
  lemma BlankNotOdd(t: string, q: nat)
    requires Proper(t) && q < |t| && IsStripped(t[q])
    ensures !Odd(t, q) && !Odd(t, q + 1) && Weight(t, q) == 0
  {}

  // A dropped slash counts, and so does the second one of a comment that ends.
  lemma DroppedWeight(t: string, q: nat)
    requires q < |t| && t[q] == '/'
    ensures var j := NextStop(t, q);
      && 1 + Sum(t, j, |t|) <= Sum(t, q, |t|)
      && (j > q + 1 && j < |t| ==> 2 + Sum(t, j, |t|) <= Sum(t, q, |t|))
      && (j == q + 1 ==> Sum(t, q, |t|) == 1 + Sum(t, j, |t|) && !Odd(t, j))
  {
    hide Sum, LineEnd, BlockEnd;
    var j := NextStop(t, q);
    SumFrom(t, q);
    SumParts(t, q + 1, j, |t|);
    if j > q + 1 && j < |t| {
      if t[q + 1] == '/' {
        SumFrom(t, q + 1);
        SumParts(t, q + 1, q + 2, j);
        SumOne(t, q + 1);
      } else {
        BlockEnds(t, q + 2);
        SumParts(t, q + 1, j - 1, j);
        SumOne(t, j - 1);
      }
    }
  }

  lemma {:induction false} Bound(t: string, q: nat, w: string, r: nat, n: nat)
    requires Proper(t) && Walks(t, q, w, r, n)
    ensures q <= |t| && r <= |w| && Sum(w, r, |w|) <= Sum(t, q, |t|) + Off(t, q, w, r)
    decreases |t| - q
  {
    hide Walks, Drops, Proper, Sum, Off, Odd, Weight, NextStop;
    WalkBounds(t, q, w, r, n);
    if q == |t| {
      WalkEnd(t, w, r, n);
      SumNone(t, w, r);
    } else if n == q && DroppedHere(t[q]) {
      var j := NextStop(t, q);
      WalkJump(t, q, w, r);
      Bound(t, j, w, r, j);
      if t[q] == '/' { DroppedWeight(t, q); } else { BlankOver(t, q, w, r); }
      OffOne(t, j, w, r);
    } else {
      var next := KeptWorth(t, q, w, r, n);
      Bound(t, q + 1, w, r + 1, next);
      SumFrom(t, q);
      SumFrom(w, r);
    }
  }

  lemma SumNone(t: string, w: string, r: nat)
    requires r == |w|
    ensures Sum(w, r, |w|) == 0
  {}

  lemma OffOne(t: string, q: nat, w: string, r: nat)
    requires q <= |t| && r <= |w|
    ensures Off(t, q, w, r) <= 1
  {}

  lemma BlankOver(t: string, q: nat, w: string, r: nat)
    requires Proper(t) && q < |t| && r <= |w| && IsStripped(t[q])
    ensures NextStop(t, q) == q + 1 && Sum(t, q, |t|) == Sum(t, q + 1, |t|)
    ensures Off(t, q, w, r) == Off(t, q + 1, w, r)
  {
    BlankNotOdd(t, q);
    SumFrom(t, q);
  }

  // ---------- When it holds as many ----------

  ghost predicate Tight(t: string, q: nat, w: string, r: nat) {
    q <= |t| && r <= |w| && Sum(w, r, |w|) == Sum(t, q, |t|) + Off(t, q, w, r)
  }

  lemma TightKept(t: string, q: nat, w: string, r: nat, n: nat) returns (next: nat)
    requires Proper(t) && Walks(t, q, w, r, n) && q < |t| && (n == q ==> !DroppedHere(t[q])) && Tight(t, q, w, r)
    ensures r < |w| && w[r] == t[q] && Walks(t, q + 1, w, r + 1, next) && !Drops(t, q)
    ensures Tight(t, q + 1, w, r + 1)
    ensures Weight(w, r) + Off(t, q + 1, w, r + 1) == Weight(t, q) + Off(t, q, w, r)
  {
    hide Walks, Drops, Proper, Sum, Off, Odd, Weight;
    next := KeptWorth(t, q, w, r, n);
    Bound(t, q + 1, w, r + 1, next);
    SumFrom(t, q);
    SumFrom(w, r);
  }

  // Of slashes only those are dropped that a backslash escapes, and then the backslash is
  // left over.
  lemma TightLost(t: string, q: nat, w: string, r: nat)
    requires Proper(t) && Walks(t, q, w, r, q) && q < |t| && DroppedHere(t[q]) && Tight(t, q, w, r)
    ensures Walks(t, q + 1, w, r, q + 1) && Tight(t, q + 1, w, r) && Drops(t, q)
    ensures if t[q] == '/' then Odd(t, q) && Odd(w, r) && !Odd(t, q + 1) else !Odd(t, q) && !Odd(t, q + 1)
  {
    hide Walks, Drops, Proper, Sum, Odd, Weight, NextStop;
    var j := NextStop(t, q);
    WalkJump(t, q, w, r);
    Bound(t, j, w, r, j);
    DroppedAt(t, q, w, r);
    if t[q] == '/' {
      DroppedWeight(t, q);
      if j == |t| && j > q + 1 {
        WalkEnd(t, w, r, j);
        SumNone(t, w, r);
      }
    } else {
      BlankNotOdd(t, q);
      BlankOver(t, q, w, r);
    }
  }

  // ---------- Literals ----------

  // From `p` on the literal can be decoded, to a text without NUL.
  ghost predicate Clear(t: string, p: nat, end: nat) {
    && ClosesAt(t, p, end) && !Odd(t, p)
    && Decode(t, p, end).Some? && '\0' !in Decode(t, p, end).value
  }

  // One step of it.
  lemma ClearStep(t: string, p: nat, end: nat) returns (was: string)
    requires p < end && Clear(t, p, end)
    ensures var (n, bytes) := DecodeStep(t, p, end);
      && 0 < n && p + n <= end && Clear(t, p + n, end) && bytes != "" && '\0' !in bytes
      && Decode(t, p + n, end) == Some(was) && Decode(t, p, end) == Some(bytes + was)
      && t[p] != '\"' && (if t[p] != '\\' then n == 1 && bytes == [t[p]] else n >= 2)
      && (t[p] == '\\' && t[p + 1] != 'u' ==> n == 2 && |bytes| == 1)
      && (t[p] == '\\' && t[p + 1] != '/' ==> forall x | p <= x < p + n :: !DroppedHere(t[x]))
  {
    hide Decode, Odd, Sum, Utf16Literal;
    var (n, bytes) := DecodeStep(t, p, end);
    DecodeBySteps(t, p, end);
    StepSlashes(t, p, end);
    was := Decode(t, p + n, end).value;
    if t[p] == '\\' {
      if t[p + 1] == 'u' { UnitBytesWhole(t, p, end); } else { ShortWhole(t, p, end); }
    } else {
      PlainByte(t, p, end);
    }
  }

  lemma PlainByte(t: string, p: nat, end: nat)
    requires p < end && ClosesAt(t, p, end) && t[p] != '\\'
    ensures DecodeStep(t, p, end) == (1, [t[p]]) && t[p] != '\"'
  {}

  lemma ShortWhole(t: string, p: nat, end: nat)
    requires p < end < |t| && t[p] == '\\' && t[p + 1] != 'u' && DecodeStep(t, p, end).0 > 0
    ensures DecodeStep(t, p, end).0 == 2 && |DecodeStep(t, p, end).1| == 1
    ensures t[p + 1] != '/' ==> forall x | p <= x < p + 2 :: !DroppedHere(t[x])
  {}

  lemma UnitBytesWhole(t: string, p: nat, end: nat)
    requires p < end < |t| && t[p] == '\\' && t[p + 1] == 'u'
    requires Utf16Literal(t, p, end).0 > 0 && '\0' !in Utf16Literal(t, p, end).1
    ensures var (n, bytes) := Utf16Literal(t, p, end);
      n >= 6 && bytes != "" && forall x | p <= x < p + n :: !DroppedHere(t[x])
  {
    hide Hex4, Utf.Encode;
    UnitHex(t, p, end);
    hide Utf16Literal;
    HexKept(t, p + 2);
    if Utf16Literal(t, p, end).0 == 12 { HexKept(t, p + 8); }
  }

  lemma HexKept(t: string, p: nat)
    requires p + 4 <= |t| && AllHex(t, p)
    ensures forall x | p <= x < p + 4 :: !DroppedHere(t[x])
  {}

  // ---------- In step and out of it ----------

  lemma {:induction false} TightPast(t: string, q: nat, w: string, r: nat, n: nat, k: nat) returns (next: nat)
    requires Proper(t) && Walks(t, q, w, r, n) && Tight(t, q, w, r)
    requires q <= k <= |t| && forall x | q <= x < k :: !DroppedHere(t[x])
    ensures r + k - q <= |w| && Walks(t, k, w, r + k - q, next) && Tight(t, k, w, r + k - q)
    ensures forall x | q <= x < k :: w[r + x - q] == t[x] && !Drops(t, x)
    decreases k - q
  {
    hide Walks, Drops, Proper, Tight;
    WalkBounds(t, q, w, r, n);
    if q == k {
      next := n;
    } else {
      next := TightKept(t, q, w, r, n);
      next := TightPast(t, q + 1, w, r + 1, next, k);
      forall x | q + 1 <= x < k ensures w[r + x - q] == t[x] { assert w[r + 1 + x - (q + 1)] == t[x]; }
    }
  }

  lemma EvenBehind(t: string, q: nat)
    requires q < |t| && t[q] != '\\'
    ensures !Odd(t, q + 1)
  {}

  lemma OddBehind(t: string, q: nat)
    requires q < |t| && t[q] == '\\'
    ensures Odd(t, q + 1) <==> !Odd(t, q)
  {}

  // The two parities of a step that is copied.
  lemma {:induction false} SameParity(t: string, q: nat, w: string, r: nat, k: nat)
    requires q <= k <= |t| && r + k - q <= |w| && Odd(t, q) == Odd(w, r)
    requires forall x | q <= x < k :: w[r + x - q] == t[x]
    ensures Odd(t, k) == Odd(w, r + k - q)
    decreases k - q
  {
    if q < k {
      assert w[r + q - q] == t[q];
      forall x | q + 1 <= x < k ensures w[r + 1 + x - (q + 1)] == t[x] { assert w[r + x - q] == t[x]; }
      SameParity(t, q + 1, w, r + 1, k);
    }
  }

  // What both phases promise for the rest of a literal: `from` is where it starts in what
  // is left.
  ghost predicate Finished(t: string, end: nat, w: string, from: nat, e: nat, s: string, next: nat) {
    && from <= e && ClosesAt(w, from, e) && Decode(w, from, e) == Some(s) && '\0' !in s
    && Walks(t, end + 1, w, e + 1, next) && Tight(t, end + 1, w, e + 1) && !Odd(w, e + 1)
  }

  lemma FinishedText(t: string, end: nat, w: string, from: nat, e: nat, s: string, next: nat)
    requires Finished(t, end, w, from, e, s, next)
    ensures '\0' !in s
  {}

  lemma FinishedStep(t: string, p: nat, end: nat, w: string, r: nat, e: nat, s: string, next: nat)
    requires p < end < |t| && t[p] != '\"' && '\0' !in DecodeStep(t, p, end).1
    requires var m := DecodeStep(t, p, end).0;
      && 0 < m && p + m <= end && Finished(t, end, w, r + m, e, s, next)
      && forall x | p <= x < p + m :: w[r + x - p] == t[x]
    ensures Finished(t, end, w, r, e, DecodeStep(t, p, end).1 + s, next)
  {
    hide Decode, DecodeStep, Walks, Tight, Odd, ScanString;
    StepMoves(t, p, end, w, r, e);
    DecodeBySteps(w, r, e);
  }

  lemma InPhaseEnd(t: string, end: nat, w: string, r: nat, n: nat) returns (next: nat)
    requires Proper(t) && Clear(t, end, end) && Walks(t, end, w, r, n) && Tight(t, end, w, r) && !Odd(w, r)
    ensures Finished(t, end, w, r, r, "", next) && !Drops(t, end) && Decode(t, end, end) == Some("")
  {
    hide Walks, Drops, Proper, Tight, Odd, Decode;
    ClearEnd(t, end);
    next := TightKept(t, end, w, r, n);
    MinifyTokens.LiteralEnd(t, end, w, r);
    EvenBehind(w, r);
  }

  lemma ClearEnd(t: string, end: nat)
    requires Clear(t, end, end)
    ensures end < |t| && t[end] == '\"' && !Odd(t, end)
  {}

  // What is left of a literal while the escapes of both texts agree.
  lemma {:induction false} InPhase(t: string, p: nat, end: nat, w: string, r: nat, n: nat)
      returns (e: nat, s: string, next: nat)
    requires Proper(t) && Clear(t, p, end) && Walks(t, p, w, r, n) && Tight(t, p, w, r) && !Odd(w, r)
    ensures Finished(t, end, w, r, e, s, next) && Thinned(t, p, end, Decode(t, p, end).value, s)
    decreases end - p, 1
  {
    hide Walks, Drops, Proper, Tight, Odd, Clear, Finished, Thinned, Decode, DecodeStep;
    ClearBounds(t, p, end);
    if p == end {
      next := InPhaseEnd(t, end, w, r, n);
      e, s := r, "";
      ThinnedEnd(t, end);
    } else {
      var (m, bytes) := DecodeStep(t, p, end);
      var was := ClearStep(t, p, end);
      if t[p] == '\\' && t[p + 1] == '/' {
        e, s, next := SlashPhase(t, p, end, w, r, n);
      } else if n == p && DroppedHere(t[p]) {
        assert t[p] != '\\';
        TightLost(t, p, w, r);
        e, s, next := InPhase(t, p + 1, end, w, r, p + 1);
        ThinnedDrop(t, p, end, bytes + was, s);
      } else {
        next := TightStep(t, p, end, w, r, n);
        e, s, next := InPhase(t, p + m, end, w, r + m, next);
        FinishedStep(t, p, end, w, r, e, s, next);
        ThinnedKeep(t, p, m, end, bytes, was, s);
        s := bytes + s;
      }
    }
  }

  lemma ClearBounds(t: string, p: nat, end: nat)
    requires Clear(t, p, end)
    ensures p <= end < |t| && !Odd(t, p) && Decode(t, p, end).Some?
  {}

  // A step of which the walk drops nothing.
  lemma TightStep(t: string, p: nat, end: nat, w: string, r: nat, n: nat) returns (next: nat)
    requires Proper(t) && p < end && Clear(t, p, end) && Walks(t, p, w, r, n) && Tight(t, p, w, r) && !Odd(w, r)
    requires (n == p ==> !DroppedHere(t[p])) && (t[p] == '\\' ==> t[p + 1] != '/')
    ensures var m := DecodeStep(t, p, end).0;
      && r + m <= |w| && Walks(t, p + m, w, r + m, next) && Tight(t, p + m, w, r + m) && !Odd(w, r + m)
      && forall x | p <= x < p + m :: w[r + x - p] == t[x] && !Drops(t, x)
  {
    hide Walks, Drops, Proper, Tight, Odd, Clear, Decode, DecodeStep;
    ClearBounds(t, p, end);
    var m := DecodeStep(t, p, end).0;
    var was := ClearStep(t, p, end);
    ClearBounds(t, p + m, end);
    if t[p] == '\\' {
      next := TightPast(t, p, w, r, n, p + m);
    } else {
      next := TightKept(t, p, w, r, n);
    }
    SameParity(t, p, w, r, p + m);
  }

  // An escaped slash: it is kept, or its backslash is left over.
  lemma {:induction false} SlashPhase(t: string, p: nat, end: nat, w: string, r: nat, n: nat)
      returns (e: nat, s: string, next: nat)
    requires Proper(t) && Clear(t, p, end) && Walks(t, p, w, r, n) && Tight(t, p, w, r) && !Odd(w, r)
    requires p < end && t[p] == '\\' && t[p + 1] == '/'
    ensures Finished(t, end, w, r, e, s, next) && Thinned(t, p, end, Decode(t, p, end).value, s)
    decreases end - p, 0
  {
    hide Walks, Drops, Proper, Tight, Odd, Clear, Finished, Thinned, Decode, DecodeStep;
    ClearBounds(t, p, end);
    var bytes := DecodeStep(t, p, end).1;
    var was := ClearStep(t, p, end);
    OddBehind(t, p);
    next := TightKept(t, p, w, r, n);
    OddBehind(w, r);
    if next == p + 1 {
      TightLost(t, p + 1, w, r + 1);
      e, s, next := OutPhase(t, p + 2, end, w, r + 1, p + 2);
      FinishedText(t, end, w, r, e, s, next);
      ThinnedShort(t, p, end, p + 1, bytes + was, s);
    } else {
      next := TightKept(t, p + 1, w, r + 1, next);
      EvenBehind(w, r + 1);
      e, s, next := InPhase(t, p + 2, end, w, r + 2, next);
      forall x | p <= x < p + 2 ensures w[r + x - p] == t[x] && !Drops(t, x) {}
      FinishedStep(t, p, end, w, r, e, s, next);
      ThinnedKeep(t, p, 2, end, bytes, was, s);
      s := bytes + s;
    }
  }

  // A shorter text, and a byte that was dropped.
  lemma ThinnedShort(t: string, p: nat, end: nat, x: nat, was: string, s: string)
    requires p <= x <= end && Drops(t, x) && '\0' !in s && |s| < |was|
    ensures Thinned(t, p, end, was, s)
  {
    hide Drops;
  }

  // Out of phase a byte that is kept must be worth more in what is left.
  lemma OutWorth(t: string, q: nat, w: string, r: nat)
    requires q < |t| && r < |w| && w[r] == t[q] && t[q] != '\\' && Odd(t, q) != Odd(w, r)
    requires Weight(w, r) + Off(t, q + 1, w, r + 1) == Weight(t, q) + Off(t, q, w, r)
    ensures t[q] == 'u' && Odd(w, r) && SlashDigits(w, r + 1)
  {}

  // At the closing quote the escapes agree again.
  lemma EndInPhase(t: string, end: nat, w: string, r: nat, n: nat)
    requires Proper(t) && Clear(t, end, end) && Walks(t, end, w, r, n) && Tight(t, end, w, r)
    ensures r <= |w| && !Odd(w, r)
  {
    hide Walks, Drops, Proper, Tight, Odd, Weight, Off, Decode;
    ClearEnd(t, end);
    var next := TightKept(t, end, w, r, n);
    if Odd(w, r) { OutWorth(t, end, w, r); }
  }

  // An escape is a pair of backslashes, and it is kept.
  lemma PairKept(t: string, p: nat, end: nat, w: string, r: nat, n: nat) returns (next: nat)
    requires Proper(t) && p < end && Clear(t, p, end) && Walks(t, p, w, r, n) && Tight(t, p, w, r) && Odd(w, r)
    requires t[p] == '\\'
    ensures t[p + 1] == '\\' && r + 2 <= |w| && w[r] == '\\' && w[r + 1] == '\\' && Odd(w, r + 2)
    ensures Walks(t, p + 2, w, r + 2, next) && Tight(t, p + 2, w, r + 2)
  {
    hide Walks, Drops, Proper, Tight, Odd, Weight, Off, Clear, Decode;
    ClearBounds(t, p, end);
    OddBehind(t, p);
    next := TightKept(t, p, w, r, n);
    OddBehind(w, r);
    if next == p + 1 && DroppedHere(t[p + 1]) {
      TightLost(t, p + 1, w, r + 1);
      assert false;
    }
    next := TightKept(t, p + 1, w, r + 1, next);
    if t[p + 1] != '\\' {
      OutWorth(t, p + 1, w, r + 1);
      assert false;
    }
    OddBehind(w, r + 1);
  }

  lemma PairLeft(t: string, end: nat, w: string, r: nat, e: nat, s: string, next: nat)
    requires r > 0 && r + 1 < |w| && w[r - 1] == '\\' && w[r] == '\\' && Finished(t, end, w, r + 1, e, s, next)
    ensures Finished(t, end, w, r - 1, e, "\\" + s, next)
  {
    hide Walks, Tight, Odd, Decode;
    var (n, bytes) := DecodeStep(w, r - 1, e);
    assert n == 2 && bytes == "\\";
    DecodeBySteps(w, r - 1, e);
  }

  // The next byte that is kept is part of the literal, and in front of it only blanks are
  // dropped.
  lemma {:induction false} DigitKept(t: string, q: nat, end: nat, w: string, r: nat, n: nat)
      returns (j: nat, next: nat)
    requires Proper(t) && Clear(t, q, end) && Walks(t, q, w, r, n) && Tight(t, q, w, r) && !Odd(w, r)
    requires r < |w| && w[r] != '\\' && w[r] != '\"'
    ensures q < j && Clear(t, j, end) && Walks(t, j, w, r + 1, next) && Tight(t, j, w, r + 1) && !Odd(w, r + 1)
    ensures |Decode(t, j, end).value| < |Decode(t, q, end).value|
    decreases end - q
  {
    hide Walks, Drops, Proper, Tight, Odd, Clear, Decode, DecodeStep;
    ClearBounds(t, q, end);
    if q == end {
      ClearEnd(t, end);
      next := TightKept(t, q, w, r, n);
      assert false;
    } else {
      var was := ClearStep(t, q, end);
      if n == q && DroppedHere(t[q]) {
        TightLost(t, q, w, r);
        j, next := DigitKept(t, q + 1, end, w, r, q + 1);
      } else {
        next := TightKept(t, q, w, r, n);
        EvenBehind(w, r);
        j := q + 1;
      }
    }
  }

  lemma {:induction false} UnitLeft(t: string, p: nat, end: nat, w: string, r: nat, n: nat)
      returns (e: nat, s: string, next: nat)
    requires Proper(t) && p < end && Clear(t, p, end) && Walks(t, p, w, r, n) && Tight(t, p, w, r)
    requires r > 0 && Odd(w, r) && t[p] != '\\' && (n == p ==> !DroppedHere(t[p]))
    ensures Finished(t, end, w, r - 1, e, s, next) && |s| <= |Decode(t, p, end).value|
    decreases end - p, 0
  {
    hide Walks, Drops, Proper, Tight, Odd, Clear, Finished, Thinned, Decode, DecodeStep, Weight, Off;
    ClearBounds(t, p, end);
    var was := ClearStep(t, p, end);
    next := TightKept(t, p, w, r, n);
    OutWorth(t, p, w, r);
    EvenBehind(w, r);
    var j;
    j, next := DigitKept(t, p + 1, end, w, r + 1, next);
    j, next := DigitKept(t, j, end, w, r + 2, next);
    j, next := DigitKept(t, j, end, w, r + 3, next);
    j, next := DigitKept(t, j, end, w, r + 4, next);
    ClearBounds(t, j, end);
    e, s, next := InPhase(t, j, end, w, r + 5, next);
    ThinnedLength(t, j, end, Decode(t, j, end).value, s);
    UnitSpells(t, end, w, r, e, s, next);
    s := "/" + s;
  }

  lemma ThinnedLength(t: string, p: nat, end: nat, was: string, s: string)
    requires Thinned(t, p, end, was, s)
    ensures |s| <= |was|
  {}

  lemma UnitSpells(t: string, end: nat, w: string, r: nat, e: nat, s: string, next: nat)
    requires r > 0 && r < |w| && Odd(w, r) && w[r] == 'u' && SlashDigits(w, r + 1)
    requires Finished(t, end, w, r + 5, e, s, next)
    ensures Finished(t, end, w, r - 1, e, "/" + s, next)
  {
    hide Walks, Tight, Odd, Decode;
    OddIs(w, r);
    assert Hex4(w, r + 1) == 0x2F;
    assert Utf.Encode(0x2F) == "/";
    assert DecodeStep(w, r - 1, e) == (6, "/");
    DecodeBySteps(w, r - 1, e);
    PlainScan(w, r + 1, r + 5);
  }

  lemma OddIs(w: string, r: nat)
    requires r <= |w| && Odd(w, r)
    ensures r > 0 && w[r - 1] == '\\'
  {}

  // A backslash was left over in front of `r`: the escapes of what is left run one byte
  // behind those of the literal, until a code unit uses it up.
  lemma {:induction false} OutPhase(t: string, p: nat, end: nat, w: string, r: nat, n: nat)
      returns (e: nat, s: string, next: nat)
    requires Proper(t) && Clear(t, p, end) && Walks(t, p, w, r, n) && Tight(t, p, w, r) && r > 0 && Odd(w, r)
    ensures Finished(t, end, w, r - 1, e, s, next) && |s| <= |Decode(t, p, end).value|
    decreases end - p, 1
  {
    hide Walks, Drops, Proper, Tight, Odd, Clear, Finished, Decode, DecodeStep;
    ClearBounds(t, p, end);
    if p == end {
      EndInPhase(t, end, w, r, n);
      assert false;
    } else {
      var (m, bytes) := DecodeStep(t, p, end);
      var was := ClearStep(t, p, end);
      if n == p && DroppedHere(t[p]) {
        TightLost(t, p, w, r);
        e, s, next := OutPhase(t, p + 1, end, w, r, p + 1);
      } else if t[p] == '\\' {
        WalkBounds(t, p, w, r, n);
        OddIs(w, r);
        next := PairKept(t, p, end, w, r, n);
        e, s, next := OutPhase(t, p + 2, end, w, r + 2, next);
        PairLeft(t, end, w, r, e, s, next);
        s := "\\" + s;
      } else {
        e, s, next := UnitLeft(t, p, end, w, r, n);
      }
    }
  }

  // ---------- Whole tokens ----------

  // The token at `p` denotes a text without NUL.
  predicate NulFree(t: string, p: nat)
    requires p < |t|
  {
    match ScanString(t, p + 1)
    case Open => false
    case Closed(end, _) => Decode(t, p + 1, end).Some? && '\0' !in Decode(t, p + 1, end).value
  }

  ghost predicate AllNulFree(t: string) { forall p | Opens(t, p) :: NulFree(t, p) }

  // What is left of such a token is a token, with the same text exactly when it loses no
  // byte, as long as no slash is dropped for nothing.
  lemma TokenTight(t: string, i: nat, w: string, r: nat, n: nat) returns (e: nat, next: nat)
    requires Proper(t) && i < |t| && ParseString(t, i).Parsed? && NulFree(t, i)
    requires Walks(t, i, w, r, n) && Tight(t, i, w, r)
    ensures r < |w| && ParseString(w, r).Parsed? && ParseString(w, r).next == e <= |w|
    ensures ParseString(t, i).next <= |t| && Walks(t, ParseString(t, i).next, w, e, next)
    ensures Tight(t, ParseString(t, i).next, w, e) && !Odd(w, e) && !Odd(t, ParseString(t, i).next)
    ensures ParseString(w, r).value == ParseString(t, i).value <==> !Loses(t, i)
  {
    hide Walks, Drops, Proper, Tight, Odd, Finished, Thinned, ParseString, Decode, ScanString;
    var end := TokenEnd(t, i);
    TokenClear(t, i, end);
    var was := Decode(t, i + 1, end).value;
    next := TightKept(t, i, w, r, n);
    EvenBehind(w, r);
    var s;
    e, s, next := InPhase(t, i + 1, end, w, r + 1, next);
    FinishedToken(t, i, end, w, r, e, s, next);
    TokenParsed(t, i, end, was);
    TokenParsed(w, r, e, s);
    EvenBehind(t, end);
    ThinnedLoses(t, i, end, was, s);
    e := e + 1;
  }

  lemma TokenClear(t: string, i: nat, end: nat)
    requires i < |t| && t[i] == '\"' && ClosesAt(t, i + 1, end) && NulFree(t, i)
    ensures Clear(t, i + 1, end) && t[end] == '\"' && end + 1 <= |t|
  {}

  lemma FinishedToken(t: string, i: nat, end: nat, w: string, r: nat, e: nat, s: string, next: nat)
    requires Finished(t, end, w, r + 1, e, s, next)
    ensures ClosesAt(w, r + 1, e) && Decode(w, r + 1, e) == Some(s) && '\0' !in s && e < |w|
    ensures Walks(t, end + 1, w, e + 1, next) && Tight(t, end + 1, w, e + 1) && !Odd(w, e + 1)
  {}

  lemma ThinnedLoses(t: string, i: nat, end: nat, was: string, s: string)
    requires i < |t| && NextToken(t, i) == end + 1 && Thinned(t, i + 1, end, was, s) && !Drops(t, i)
    ensures s == was <==> !Loses(t, i)
  {
    hide Drops, NextToken;
  }
}
