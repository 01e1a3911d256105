/**
  Any run of edits of one list: the links stay whole, and the children are what the
  edits make of a sequence.
  */
module Runs {
  import opened Nodes
  import opened Edits

  datatype Edit<T> =
    | Append(item: T)
    | Insert(which: nat, item: T)
    | Detach(which: nat)
    | Replace(which: nat, item: T)

  // What an edit makes of a sequence of anything.
  function Applied<T>(s: seq<T>, e: Edit<T>): seq<T> {
    match e
    case Append(x) => s + [x]
    case Insert(w, x) => if w < |s| then s[..w] + [x] + s[w..] else s + [x]
    case Detach(w) => if w < |s| then s[..w] + s[w + 1..] else s
    case Replace(w, x) => if w < |s| then s[w := x] else s
  }

  function AppliedAll<T>(s: seq<T>, edits: seq<Edit<T>>): seq<T>
    decreases |edits|
  {
    if edits == [] then s else AppliedAll(Applied(s, edits[0]), edits[1..])
  }

  // On children, these are the edits of the list.
  lemma AppliedIs(kids: seq<Node>, e: Edit<Node>)
    ensures Applied(kids, e) ==
      match e {
        case Append(n) => InsertAt(kids, |kids|, n)
        case Insert(w, n) => InsertAt(kids, if w < |kids| then w else |kids|, n)
        case Detach(w) => if w < |kids| then RemoveAt(kids, w) else kids
        case Replace(w, n) => if w < |kids| then ReplaceAt(kids, w, n) else kids
      }
  {
    match e
    case Append(n) => EditsAreSlices(kids, |kids|, n);
    case Insert(w, n) => EditsAreSlices(kids, if w < |kids| then w else |kids|, n);
    case Detach(w) => if w < |kids| { EditsAreSlices(kids, w, kids[w]); }
    case Replace(_, _) =>
  }

  // The edit puts no item in that is there already.
  predicate Proper(kids: seq<Node>, e: Edit<Node>, pool: set<Node>) {
    e.Detach? || (e.item !in kids && e.item in pool)
  }

  predicate ProperAll(kids: seq<Node>, edits: seq<Edit<Node>>, pool: set<Node>)
    decreases |edits|
  {
    edits == [] || (Proper(kids, edits[0], pool) && ProperAll(Applied(kids, edits[0]), edits[1..], pool))
  }

  function Among(kids: seq<Node>): set<Node> { set n | n in kids }

  ghost predicate Pooled(kids: seq<Node>, pool: set<Node>)
    reads pool`next
  {
    forall n | n in pool - Among(kids) :: n.next == null
  }

  lemma InsertKeeps(kids: seq<Node>, i: nat, item: Node)
    requires i <= |kids|
    ensures Among(InsertAt(kids, i, item)) == Among(kids) + {item}
  {
    forall n | n in kids || n == item ensures n in InsertAt(kids, i, item) {
      if n == item {
        assert InsertAt(kids, i, item)[i] == n;
      } else {
        var k :| 0 <= k < |kids| && kids[k] == n;
        assert InsertAt(kids, i, item)[if k < i then k else k + 1] == n;
      }
    }
  }

  lemma RemoveKeeps(parent: Node, kids: seq<Node>, i: nat)
    requires i < |kids| && Linked(parent, kids)
    ensures Among(RemoveAt(kids, i)) == Among(kids) - {kids[i]}
  {
    hide NextLinks, PrevLinks;
    forall n | n in kids && n != kids[i] ensures n in RemoveAt(kids, i) {
      var k :| 0 <= k < |kids| && kids[k] == n;
      assert RemoveAt(kids, i)[if k < i then k else k - 1] == n;
    }
  }

  lemma ReplaceKeeps(parent: Node, kids: seq<Node>, i: nat, item: Node)
    requires i < |kids| && Linked(parent, kids) && item !in kids
    ensures Among(ReplaceAt(kids, i, item)) == Among(kids) - {kids[i]} + {item}
  {
    forall n | (n in kids && n != kids[i]) || n == item ensures n in ReplaceAt(kids, i, item) {
      if n == item {
        assert ReplaceAt(kids, i, item)[i] == n;
      } else {
        var k :| 0 <= k < |kids| && kids[k] == n;
        assert ReplaceAt(kids, i, item)[k] == n;
      }
    }
  }

  method Perform(parent: Node, e: Edit<Node>, ghost kids: seq<Node>, ghost pool: set<Node>)
    requires Linked(parent, kids) && Proper(kids, e, pool) && parent !in pool && Pooled(kids, pool)
    requires Among(kids) <= pool
    modifies parent`child, pool`next, pool`prev
    ensures Linked(parent, Applied(kids, e)) && Pooled(Applied(kids, e), pool)
    ensures Among(Applied(kids, e)) <= pool
  {
    hide Linked, InsertAt, RemoveAt, ReplaceAt, At, Applied;
    AppliedIs(kids, e);
    match e
    case Append(item) =>
      InsertKeeps(kids, |kids|, item);
      var _ := AddItemToArray(parent, item, kids);
    case Insert(which, item) =>
      InsertKeeps(kids, if which < |kids| then which else |kids|, item);
      var _ := InsertItemInArray(parent, which, item, kids);
    case Detach(which) =>
      PerformDetach(parent, which, kids, pool);
    case Replace(which, item) =>
      PerformReplace(parent, which, item, kids, pool);
  }

  method PerformDetach(parent: Node, which: nat, ghost kids: seq<Node>, ghost pool: set<Node>)
    requires Linked(parent, kids) && parent !in pool && Pooled(kids, pool) && Among(kids) <= pool
    modifies parent`child, pool`next, pool`prev
    ensures var r := Applied(kids, Detach(which)); Linked(parent, r) && Pooled(r, pool) && Among(r) <= pool
  {
    hide Linked, RemoveAt, Applied;
    AppliedIs(kids, Detach(which));
    if which < |kids| { RemoveKeeps(parent, kids, which); }
    var _ := DetachItemFromArray(parent, which, kids);
  }

  method PerformReplace(parent: Node, which: nat, item: Node, ghost kids: seq<Node>, ghost pool: set<Node>)
    requires Linked(parent, kids) && parent !in pool && Pooled(kids, pool) && Among(kids) <= pool
    requires item !in kids && item in pool
    modifies parent`child, pool`next, pool`prev
    ensures var r := Applied(kids, Replace(which, item)); Linked(parent, r) && Pooled(r, pool) && Among(r) <= pool
  {
    hide Linked, ReplaceAt, Applied;
    AppliedIs(kids, Replace(which, item));
    if which < |kids| { ReplaceKeeps(parent, kids, which, item); }
    var was := GetArrayItem(parent, which, kids);
    if was != null {
      Relink(parent, was, item, kids, which);
    }
  }

  // Whatever edits come in whatever order, the list stays whole and is what the edits
  // make of a sequence.
  method Run(parent: Node, edits: seq<Edit<Node>>, ghost kids: seq<Node>, ghost pool: set<Node>)
    requires Linked(parent, kids) && ProperAll(kids, edits, pool) && parent !in pool && Pooled(kids, pool)
    requires Among(kids) <= pool
    modifies parent`child, pool`next, pool`prev
    ensures Linked(parent, AppliedAll(kids, edits)) && Among(AppliedAll(kids, edits)) <= pool
  {
    hide Linked, Applied, Pooled, Proper;
    ghost var now := kids;
    var i := 0;
    while i < |edits|
      invariant i <= |edits| && AppliedAll(now, edits[i..]) == AppliedAll(kids, edits)
      invariant Linked(parent, now) && ProperAll(now, edits[i..], pool) && Pooled(now, pool)
      invariant Among(now) <= pool
    {
      assert edits[i..][0] == edits[i] && edits[i..][1..] == edits[i + 1..];
      Perform(parent, edits[i], now, pool);
      now := Applied(now, edits[i]);
      i := i + 1;
    }
  }
}
