/**
  What is left of one string token when the minifier's walk is out of step with it.
  */
module MinifyTokens {
  import opened Text
  import opened Strings
  import opened MinifyWalk
  import Utf

  // ---------- Tokens that stay tokens whatever the walk drops ----------

  // No slash of the literal is escaped, and none begins a comment.
  predicate Sparse(t: string, p: nat, end: nat)
    requires end < |t|
    decreases end - p
  {
    if p >= end then true
    else if t[p] == '\\' then t[p + 1] != '/' && Sparse(t, p + 2, end)
    else !(t[p] == '/' && (t[p + 1] == '/' || t[p + 1] == '*')) && Sparse(t, p + 1, end)
  }

  // Such a literal denotes a text without NUL.
  predicate Simple(t: string, p: nat, end: nat)
    requires end < |t|
  {
    Decode(t, p, end).Some? && '\0' !in Decode(t, p, end).value && Sparse(t, p, end)
  }

  lemma {:induction false} SparseRun(t: string, p: nat, q: nat, end: nat)
    requires p <= q <= end < |t| && Sparse(t, p, end) && forall x | p <= x < q :: t[x] != '\\'
    ensures Sparse(t, q, end)
    decreases q - p
  {
    if p < q { SparseRun(t, p + 1, q, end); }
  }

  // An escape: how long it is, and that none of its bytes can be dropped.
  lemma EscapeWhole(t: string, p: nat, end: nat)
    requires p < end && ClosesAt(t, p, end) && Simple(t, p, end) && t[p] == '\\'
    ensures var n := DecodeStep(t, p, end).0;
      && 0 < n && p + n <= end && ClosesAt(t, p + n, end) && Simple(t, p + n, end)
      && forall x | p <= x < p + n :: !DroppedHere(t[x])
  {
    hide Decode, Sparse, Utf16Literal, Utf.Encode;
    var (n, bytes) := DecodeStep(t, p, end);
    DecodeBySteps(t, p, end);
    SparseNext(t, p, end);
    if t[p + 1] == 'u' {
      UnitHex(t, p, end);
      UnitWhole(t, p, end);
      if n == 12 { UnitWhole(t, p + 6, end); }
    }
  }

  lemma SparseNext(t: string, p: nat, end: nat)
    requires p < end < |t| && Sparse(t, p, end)
    ensures if t[p] == '\\' then t[p + 1] != '/' && Sparse(t, p + 2, end) else Sparse(t, p + 1, end)
  {}

  // A unit that yields no NUL has proper digits.
  lemma UnitHex(t: string, p: nat, end: nat)
    requires p < end < |t| && '\0' !in Utf16Literal(t, p, end).1
    ensures Utf16Literal(t, p, end).0 > 0 ==> AllHex(t, p + 2)
    ensures Utf16Literal(t, p, end).0 == 12 ==> t[p + 6] == '\\' && t[p + 7] == 'u' && AllHex(t, p + 8)
  {}

  lemma UnitWhole(t: string, p: nat, end: nat)
    requires p + 6 <= end && ClosesAt(t, p, end) && Sparse(t, p, end)
    requires t[p] == '\\' && t[p + 1] == 'u' && AllHex(t, p + 2)
    ensures ClosesAt(t, p + 6, end) && Sparse(t, p + 6, end)
    ensures forall x | p <= x < p + 6 :: !DroppedHere(t[x])
  {
    SparseRun(t, p + 2, p + 6, end);
    PlainScan(t, p + 2, p + 6);
  }

  // The same escape elsewhere.
  lemma EscapeMoves(t: string, p: nat, end: nat, w: string, r: nat, e: nat)
    requires p < end < |t| && t[p] == '\\' && '\0' !in DecodeStep(t, p, end).1
    requires var n := DecodeStep(t, p, end).0;
      0 < n && p + n <= end && r + n <= e && ClosesAt(w, r + n, e) && forall x | p <= x < p + n :: w[r + x - p] == t[x]
    ensures ClosesAt(w, r, e) && DecodeStep(w, r, e) == DecodeStep(t, p, end)
  {
    hide Decode, Sparse, Utf.Encode, Hex4;
    var (n, bytes) := DecodeStep(t, p, end);
    assert w[r] == t[p] && w[r + 1] == t[p + 1] by { assert w[r + p - p] == t[p] && w[r + (p + 1) - p] == t[p + 1]; }
    if t[p + 1] == 'u' {
      UnitHex(t, p, end);
      Hex4Moves(t, p + 2, w, r + 2);
      PlainScan(w, r + 2, r + 6);
      if n == 12 {
        assert w[r + (p + 6) - p] == t[p + 6] && w[r + (p + 7) - p] == t[p + 7];
        Hex4Moves(t, p + 8, w, r + 8);
        PlainScan(w, r + 8, r + 12);
      }
    }
  }

  // Bytes that cannot be dropped are copied.
  lemma {:induction false} WalkPast(t: string, q: nat, w: string, r: nat, n: nat, k: nat) returns (next: nat)
    requires Walks(t, q, w, r, n) && q <= k <= |t| && forall x | q <= x < k :: !DroppedHere(t[x])
    ensures r + k - q <= |w| && Walks(t, k, w, r + k - q, next)
    ensures forall x | q <= x < k :: w[r + x - q] == t[x] && !Drops(t, x)
    decreases k - q
  {
    hide Walks, Drops;
    WalkBounds(t, q, w, r, n);
    if q == k {
      next := n;
    } else {
      next := WalkKeep(t, q, w, r, n);
      next := WalkPast(t, q + 1, w, r + 1, next, k);
      forall x | q + 1 <= x < k ensures w[r + x - q] == t[x] { assert w[r + 1 + x - (q + 1)] == t[x]; }
    }
  }

  // `s` is what is left of the literal `was` of which the bytes from `p` to `end` remained
  // to be read: the same text if nothing was dropped, a shorter one otherwise.
  ghost predicate Thinned(t: string, p: nat, end: nat, was: string, s: string) {
    && '\0' !in s && |s| <= |was| && (s == was <==> forall x | p <= x <= end :: !Drops(t, x))
  }

  lemma ThinnedEnd(t: string, end: nat)
    requires !Drops(t, end)
    ensures Thinned(t, end, end, "", "")
  {}

  lemma ThinnedDrop(t: string, p: nat, end: nat, was: string, s: string)
    requires p < end && was != "" && Thinned(t, p + 1, end, was[1..], s) && Drops(t, p)
    ensures Thinned(t, p, end, was, s)
  {}

  lemma ThinnedKeep(t: string, p: nat, n: nat, end: nat, bytes: string, was: string, s: string)
    requires p + n <= end && '\0' !in bytes && Thinned(t, p + n, end, was, s)
    requires forall x | p <= x < p + n :: !Drops(t, x)
    ensures Thinned(t, p, end, bytes + was, bytes + s)
  {
    hide Drops;
    assert was == (bytes + was)[|bytes|..] && s == (bytes + s)[|bytes|..];
  }

  // The literal from `p` on, of which the walk may drop bytes, is still closed and can
  // still be decoded; it means the same exactly when no byte is dropped.
  lemma {:induction false} Thin(t: string, p: nat, end: nat, w: string, r: nat, n: nat)
      returns (e: nat, s: string, next: nat)
    requires ClosesAt(t, p, end) && Simple(t, p, end) && Walks(t, p, w, r, n)
    ensures r <= e && ClosesAt(w, r, e) && Decode(w, r, e) == Some(s) && Walks(t, end + 1, w, e + 1, next)
    ensures Thinned(t, p, end, Decode(t, p, end).value, s)
    decreases end - p
  {
    hide Walks, Drops, Thinned, ScanString, Sparse, Decode, Utf16Literal;
    if p == end {
      next := WalkKeep(t, p, w, r, n);
      e, s := r, "";
      LiteralEnd(t, end, w, r);
      ThinnedEnd(t, end);
    } else {
      var (m, bytes) := DecodeStep(t, p, end);
      var was := LiteralStep(t, p, end);
      if t[p] != '\\' && n == p && DroppedHere(t[p]) {
        WalkDrop(t, p, w, r);
        e, s, next := Thin(t, p + 1, end, w, r, p + 1);
        ThinnedDrop(t, p, end, bytes + was, s);
      } else {
        next := WalkPastStep(t, p, end, w, r, n);
        e, s, next := Thin(t, p + m, end, w, r + m, next);
        StepMoves(t, p, end, w, r, e);
        DecodeBySteps(w, r, e);
        ThinnedKeep(t, p, m, end, bytes, was, s);
        s := bytes + s;
      }
    }
  }

  lemma LiteralEnd(t: string, end: nat, w: string, r: nat)
    requires end < |t| && t[end] == '\"' && r < |w| && w[r] == '\"'
    ensures Decode(t, end, end) == Some("") && Decode(w, r, r) == Some("") && ClosesAt(w, r, r)
  {}

  // One step of the literal: what comes behind it is a literal of the same kind.
  lemma LiteralStep(t: string, p: nat, end: nat) returns (was: string)
    requires p < end && ClosesAt(t, p, end) && Simple(t, p, end)
    ensures var (m, bytes) := DecodeStep(t, p, end);
      && 0 < m && p + m <= end && ClosesAt(t, p + m, end) && Simple(t, p + m, end)
      && Decode(t, p + m, end) == Some(was) && Decode(t, p, end) == Some(bytes + was) && '\0' !in bytes
      && (t[p] == '\\' ==> forall x | p <= x < p + m :: !DroppedHere(t[x]))
      && t[p] != '\"' && (t[p] != '\\' ==> m == 1 && bytes == [t[p]])
      && (t[p] == '/' ==> t[p + 1] != '/' && t[p + 1] != '*')
  {
    hide Decode, DecodeStep, Sparse;
    DecodeBySteps(t, p, end);
    var (m, bytes) := DecodeStep(t, p, end);
    was := Decode(t, p + m, end).value;
    if t[p] == '\\' { EscapeWhole(t, p, end); } else { PlainStep(t, p, end); }
  }

  lemma PlainStep(t: string, p: nat, end: nat)
    requires p < end && ClosesAt(t, p, end) && Sparse(t, p, end) && t[p] != '\\'
    ensures DecodeStep(t, p, end) == (1, [t[p]]) && ClosesAt(t, p + 1, end) && Sparse(t, p + 1, end)
    ensures t[p] != '\"' && (t[p] == '/' ==> t[p + 1] != '/' && t[p + 1] != '*')
  {}

  // The step is copied unless it is a byte that is dropped where the walk stops.
  lemma WalkPastStep(t: string, p: nat, end: nat, w: string, r: nat, n: nat) returns (next: nat)
    requires p < end && ClosesAt(t, p, end) && Simple(t, p, end) && Walks(t, p, w, r, n)
    requires t[p] != '\\' && n == p ==> !DroppedHere(t[p])
    ensures var m := DecodeStep(t, p, end).0;
      && p + m <= end && r + m <= |w| && Walks(t, p + m, w, r + m, next)
      && forall x | p <= x < p + m :: w[r + x - p] == t[x] && !Drops(t, x)
  {
    hide Walks, Drops, Decode, Sparse, ScanString, DecodeStep;
    var was := LiteralStep(t, p, end);
    if t[p] == '\\' {
      next := WalkPast(t, p, w, r, n, p + DecodeStep(t, p, end).0);
    } else {
      next := WalkKeep(t, p, w, r, n);
      WalkBounds(t, p + 1, w, r + 1, next);
    }
  }

  // One step of a literal elsewhere.
  lemma StepMoves(t: string, p: nat, end: nat, w: string, r: nat, e: nat)
    requires p < end < |t| && t[p] != '\"' && '\0' !in DecodeStep(t, p, end).1
    requires var m := DecodeStep(t, p, end).0;
      0 < m && p + m <= end && r + m <= e && ClosesAt(w, r + m, e) && forall x | p <= x < p + m :: w[r + x - p] == t[x]
    ensures ClosesAt(w, r, e) && DecodeStep(w, r, e) == DecodeStep(t, p, end)
  {
    hide Decode;
    if t[p] == '\\' {
      EscapeMoves(t, p, end, w, r, e);
    } else {
      assert w[r + p - p] == t[p];
    }
  }

  // ---------- Whole tokens ----------

  // The token at `p` is closed, denotes a text without NUL, and holds neither an escaped
  // slash nor the beginning of a comment.
  predicate SimpleToken(t: string, p: nat)
    requires p < |t|
  {
    match ScanString(t, p + 1) case Open => false case Closed(end, _) => Simple(t, p + 1, end)
  }

  // What is left of a token is a token, with the same text exactly when it loses no byte.
  lemma TokenLeft(t: string, i: nat, w: string, r: nat, n: nat) returns (e: nat, next: nat)
    requires i < |t| && ParseString(t, i).Parsed? && Walks(t, i, w, r, n) && (Loses(t, i) ==> SimpleToken(t, i))
    ensures r < |w| && ParseString(w, r).Parsed? && ParseString(w, r).next == e
    ensures Walks(t, ParseString(t, i).next, w, e, next)
    ensures ParseString(w, r).value == ParseString(t, i).value <==> !Loses(t, i)
  {
    hide Walks, Drops, ParseString, Decode, ScanString;
    var end := TokenEnd(t, i);
    if !Loses(t, i) {
      next := WalkRun(t, i, w, r, n, end + 1);
      StringMoves(t, i, w, r);
      e := r + end + 1 - i;
    } else {
      var s;
      next := WalkKeep(t, i, w, r, n);
      e, s, next := Thin(t, i + 1, end, w, r + 1, next);
      TokenParsed(t, i, end, Decode(t, i + 1, end).value);
      TokenParsed(w, r, e, s);
      e := e + 1;
    }
  }

  lemma TokenEnd(t: string, i: nat) returns (end: nat)
    requires i < |t| && ParseString(t, i).Parsed?
    ensures t[i] == '\"' && ClosesAt(t, i + 1, end) && NextToken(t, i) == ParseString(t, i).next == end + 1
  {
    hide Decode;
    end := ScanString(t, i + 1).end;
  }

  lemma TokenParsed(t: string, i: nat, end: nat, s: string)
    requires i < |t| && t[i] == '\"' && ClosesAt(t, i + 1, end) && Decode(t, i + 1, end) == Some(s) && '\0' !in s
    ensures ParseString(t, i) == Parsed(s, end + 1)
  {}
}
