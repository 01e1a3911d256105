/**
  Where the minifier's walk through a text goes, compared with the string tokens of the
  text: which openings it meets, and which bytes of tokens it drops.
  */
module MinifyWalk {
  import opened Text
  import opened Strings
  import opened Minify
  import opened MinifyLaws

  // ---------- The walk and the tokens ----------

  // Where the walk, outside a string at `i`, stands next.
  function NextStop(t: string, i: nat): (j: nat)
    requires i < |t|
    ensures i < j <= |t|
  {
    if t[i] == '\"' then CopyEnd(t, i + 1)
    else if t[i] == '/' && i + 1 < |t| && t[i + 1] == '/' then LineEnd(t, i + 2)
    else if t[i] == '/' && i + 1 < |t| && t[i + 1] == '*' then BlockEnd(t, i + 2)
    else i + 1
  }

  predicate DroppedHere(b: char) { IsStripped(b) || b == '/' }

  // The walk from `i` comes to `p`, outside a string.
  predicate Visits(t: string, i: nat, p: nat)
    decreases |t| - i
  {
    i == p || (i < p && i < |t| && Visits(t, NextStop(t, i), p))
  }

  // The byte at `x` is not in the minified text.
  ghost predicate Drops(t: string, x: nat) {
    exists m | 0 <= m < |t| :: Visits(t, 0, m) && m <= x < NextStop(t, m) && DroppedHere(t[m])
  }

  // Behind the token at `i`, or behind a byte outside a string token.
  function NextToken(t: string, i: nat): (j: nat)
    requires i < |t|
    ensures i < j <= |t|
  {
    if t[i] != '\"' then i + 1
    else match ScanString(t, i + 1) case Open => |t| case Closed(end, _) => end + 1
  }

  // Token by token, one gets from `i` to `p`.
  predicate Comes(t: string, i: nat, p: nat)
    decreases |t| - i
  {
    i == p || (i < p && i < |t| && Comes(t, NextToken(t, i), p))
  }

  // A string token opens at `p`.
  predicate Opens(t: string, p: nat) { p < |t| && t[p] == '\"' && Comes(t, 0, p) }

  // The token at `p` loses a byte.
  ghost predicate Loses(t: string, p: nat)
    requires p < |t|
  {
    exists x | p <= x < NextToken(t, p) :: Drops(t, x)
  }

  // No string token loses a byte.
  ghost predicate Harmless(t: string) { forall p | Opens(t, p) :: !Loses(t, p) }

  // ---------- Both go forward only ----------

  lemma {:induction false} VisitsNext(t: string, i: nat, p: nat)
    requires Visits(t, i, p) && p < |t|
    ensures Visits(t, i, NextStop(t, p))
    decreases |t| - i
  {
    hide NextStop;
    if i != p { VisitsNext(t, NextStop(t, i), p); }
  }

  lemma {:induction false} VisitsOrder(t: string, i: nat, p: nat, q: nat)
    requires Visits(t, i, p) && Visits(t, i, q) && p < q && p < |t|
    ensures NextStop(t, p) <= q
    decreases |t| - i
  {
    hide NextStop;
    if i != p { VisitsOrder(t, NextStop(t, i), p, q); }
  }

  lemma {:induction false} ComesNext(t: string, i: nat, p: nat)
    requires Comes(t, i, p) && p < |t|
    ensures Comes(t, i, NextToken(t, p))
    decreases |t| - i
  {
    hide NextToken;
    if i != p { ComesNext(t, NextToken(t, i), p); }
  }

  lemma {:induction false} ComesOrder(t: string, i: nat, p: nat, q: nat)
    requires Comes(t, i, p) && Comes(t, i, q) && p < q && p < |t|
    ensures NextToken(t, p) <= q
    decreases |t| - i
  {
    hide NextToken;
    if i != p { ComesOrder(t, NextToken(t, i), p, q); }
  }

  // Behind a stop that does not drop its byte nothing is dropped up to the next stop.
  lemma StopKeeps(t: string, m: nat, x: nat)
    requires Visits(t, 0, m) && m < |t| && !DroppedHere(t[m]) && m <= x < NextStop(t, m)
    ensures !Drops(t, x)
  {
    hide Visits, NextStop;
    if Drops(t, x) {
      var k :| 0 <= k < |t| && Visits(t, 0, k) && k <= x < NextStop(t, k) && DroppedHere(t[k]);
      if k < m { VisitsOrder(t, 0, k, m); }
      if m < k { VisitsOrder(t, 0, m, k); }
    }
  }

  // ---------- Following the walk byte by byte ----------

  // What `t` holds from `q` to `n` stands in `w` from `r` on.
  ghost predicate Ahead(t: string, q: nat, w: string, r: nat, n: nat)
    requires q <= n <= |t|
  {
    r + n - q <= |w| && forall x | q <= x < n :: w[r + x - q] == t[x]
  }

  lemma AheadNext(t: string, q: nat, w: string, r: nat, n: nat)
    requires q < n <= |t| && Ahead(t, q, w, r, n)
    ensures r < |w| && w[r] == t[q] && Ahead(t, q + 1, w, r + 1, n)
  {
    assert w[r + q - q] == t[q];
    forall x | q + 1 <= x < n ensures w[r + 1 + x - (q + 1)] == t[x] { assert w[r + x - q] == t[x]; }
  }

  // The walk has written `w` up to `r` for the text up to `q`; what it copies before it
  // stops next, at `n`, follows, and then the rest.
  ghost predicate Walks(t: string, q: nat, w: string, r: nat, n: nat) {
    && q <= n <= |t| && Visits(t, 0, n) && Follows(w, r + n - q, t, n) && Ahead(t, q, w, r, n)
    && (forall x | q <= x < n :: !Drops(t, x))
  }

  lemma WalkStart(t: string)
    ensures Walks(t, 0, Minified(t, 0), 0, 0)
  {}

  lemma WalkEnd(t: string, w: string, r: nat, n: nat)
    requires Walks(t, |t|, w, r, n)
    ensures r == |w|
  {}

  // The byte at `q` is copied, unless the walk stops there and drops it.
  lemma WalkKeep(t: string, q: nat, w: string, r: nat, n: nat) returns (next: nat)
    requires Walks(t, q, w, r, n) && q < |t| && (n == q ==> !DroppedHere(t[q]))
    ensures r < |w| && w[r] == t[q] && Walks(t, q + 1, w, r + 1, next) && !Drops(t, q)
  {
    hide Follows, Visits, Drops, Ahead;
    if n > q {
      next := n;
      AheadNext(t, q, w, r, n);
    } else {
      next := NextStop(t, q);
      VisitsNext(t, 0, q);
      forall x | q <= x < next ensures !Drops(t, x) { StopKeeps(t, q, x); }
      WalkOver(t, q, w, r);
      AheadNext(t, q, w, r, next);
    }
  }

  lemma WalkOver(t: string, q: nat, w: string, r: nat)
    requires Follows(w, r, t, q) && q < |t| && !DroppedHere(t[q])
    ensures var next := NextStop(t, q);
      Follows(w, r + next - q, t, next) && Ahead(t, q, w, r, next)
  {
    if t[q] == '\"' {
      FollowString(w, r, t, q);
      var next := CopyEnd(t, q + 1);
      hide Follows;
      forall x | q <= x < next ensures r + x - q < |w| && w[r + x - q] == t[x] {
        HasAt(w, r, t[q..next], x - q);
      }
    } else {
      FollowPlain(w, r, t, q);
    }
  }

  // A blank, or a slash that begins no comment, is dropped where the walk stops.
  lemma WalkDrop(t: string, q: nat, w: string, r: nat)
    requires Walks(t, q, w, r, q) && q < |t| && DroppedHere(t[q]) && NextStop(t, q) == q + 1
    ensures Walks(t, q + 1, w, r, q + 1) && Drops(t, q)
  {
    hide Follows, Visits, NextStop;
    VisitsNext(t, 0, q);
    DropOver(t, q, w, r);
  }

  lemma DropOver(t: string, q: nat, w: string, r: nat)
    requires Follows(w, r, t, q) && q < |t| && DroppedHere(t[q]) && NextStop(t, q) == q + 1
    ensures Follows(w, r, t, q + 1)
  {
    MinifyStep(t, q);
  }

  // A stretch of which nothing is dropped is copied.
  lemma {:induction false} WalkRun(t: string, q: nat, w: string, r: nat, n: nat, k: nat) returns (next: nat)
    requires Walks(t, q, w, r, n) && q <= k <= |t| && forall x | q <= x < k :: !Drops(t, x)
    ensures r + k - q <= |w| && Walks(t, k, w, r + k - q, next)
    ensures forall x | q <= x < k :: w[r + x - q] == t[x]
    decreases k - q
  {
    hide Walks;
    WalkBounds(t, q, w, r, n);
    if q == k {
      next := n;
    } else {
      if n == q && DroppedHere(t[q]) { DroppedAt(t, q, w, r); }
      next := WalkKeep(t, q, w, r, n);
      next := WalkRun(t, q + 1, w, r + 1, next, k);
      forall x | q + 1 <= x < k ensures w[r + x - q] == t[x] { assert w[r + 1 + x - (q + 1)] == t[x]; }
    }
  }

  lemma WalkBounds(t: string, q: nat, w: string, r: nat, n: nat)
    requires Walks(t, q, w, r, n)
    ensures q <= n <= |t| && r <= |w|
  {}

  lemma DroppedAt(t: string, q: nat, w: string, r: nat)
    requires Walks(t, q, w, r, q) && q < |t| && DroppedHere(t[q])
    ensures Drops(t, q)
  {
    hide Follows, Visits, NextStop;
  }
}
