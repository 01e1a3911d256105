/**
  Trees of items in memory: which blocks they own, how they are freed, and what value
  they stand for.
  */
module Trees {
  import opened Hooks
  import opened Nodes

  // The shape of a list of siblings with their descendants.
  datatype Forest = End | Item(node: Node, kids: Forest, rest: Forest)

  ghost function Size(f: Forest): nat {
    match f
    case End => 0
    case Item(_, k, r) => 1 + Size(k) + Size(r)
  }

  ghost function Members(f: Forest): set<Node> {
    match f
    case End => {}
    case Item(n, k, r) => {n} + Members(k) + Members(r)
  }

  ghost function Roots(f: Forest): seq<Node> {
    match f
    case End => []
    case Item(n, _, r) => [n] + Roots(r)
  }

  ghost function Append(f: Forest, g: Forest): Forest {
    match f
    case End => g
    case Item(n, k, r) => Item(n, k, Append(r, g))
  }

  // ---------- Shape in memory ----------

  // The `next` chain from `first` up to `after` runs through the roots of `f`, and
  // every item that is not a reference leads to its children in the same way.
  ghost predicate Spans(first: Node?, f: Forest, after: Node?)
    reads Members(f)`next, Members(f)`child, Members(f)`isReference
    decreases f, 0
  {
    match f
    case End => first == after
    case Item(n, k, r) => first == n && HasKids(n, k) && Spans(n.next, r, after)
  }

  ghost predicate HasKids(n: Node, k: Forest)
    reads n`child, n`isReference, Members(k)`next, Members(k)`child, Members(k)`isReference
    decreases k, 1
  {
    if n.isReference then k == End else Spans(n.child, k, null)
  }

  // The tree an item spans when references are followed as well.
  ghost predicate Unfolds(first: Node?, f: Forest)
    reads Members(f)`next, Members(f)`child
  {
    match f
    case End => first == null
    case Item(n, k, r) => first == n && Unfolds(n.child, k) && Unfolds(n.next, r)
  }

  // No item is a reference.
  ghost predicate NoReference(f: Forest)
    reads Members(f)`isReference
  {
    forall n | n in Members(f) :: !n.isReference
  }

  // Without references, what a list owns is all there is to read.
  lemma {:induction false} OwnedUnfolds(first: Node?, f: Forest)
    requires Spans(first, f, null) && NoReference(f)
    ensures Unfolds(first, f)
  {
    if f.Item? {
      OwnedUnfolds(f.node.child, f.kids);
      OwnedUnfolds(f.node.next, f.rest);
    }
  }

  lemma {:induction false} UnfoldsOnce(first: Node?, f: Forest, g: Forest)
    requires Unfolds(first, f) && Unfolds(first, g)
    ensures f == g
  {
    if f.Item? {
      UnfoldsOnce(f.node.child, f.kids, g.kids);
      UnfoldsOnce(f.node.next, f.rest, g.rest);
    }
  }

  lemma NextSibling(f: Forest)
    requires f.Item?
    ensures {f.node} + Members(f.kids) <= Members(f) && Members(f.rest) <= Members(f)
    ensures Size(f.rest) < Size(f)
  {}

  lemma FirstChild(child: Node, left: Forest)
    requires Unfolds(child, left)
    ensures left.Item? && left.node == child && child in Members(left)
    ensures Unfolds(child.child, left.kids) && Unfolds(child.next, left.rest)
    ensures Size(left) == 1 + Size(left.kids) + Size(left.rest)
    ensures Members(left.kids) <= Members(left) && Members(left.rest) <= Members(left)
  {}

  // Every list of children is linked backwards as well.
  ghost predicate Threaded(f: Forest)
    reads Members(f)`prev
    decreases f, 0
  {
    match f
    case End => true
    case Item(_, k, r) => BothWays(k) && Threaded(r)
  }

  ghost predicate BothWays(k: Forest)
    reads Members(k)`prev
    decreases k, 1
  {
    RootsAreMembers(k);
    Threaded(k) && PrevLinks(Roots(k))
  }

  lemma {:induction false} RootsAreMembers(f: Forest)
    ensures forall n | n in Roots(f) :: n in Members(f)
    ensures |Roots(f)| == 0 <==> f == End
  {
    if f.Item? { RootsAreMembers(f.rest); }
  }

  // ---------- Ownership ----------

  // The string blocks that go when the item goes.
  ghost function OwnTexts(n: Node): set<object>
    reads n`isReference, n`stringIsConst, n`valuestring, n`key
  {
    (if n.isReference || n.valuestring == null then {} else {n.valuestring})
    + (if n.stringIsConst || n.key == null then {} else {n.key})
  }

  // The blocks that go with the item itself.
  ghost function Own(n: Node): set<object>
    reads n`isReference, n`stringIsConst, n`valuestring, n`key
  {
    {n} + OwnTexts(n)
  }

  ghost predicate Unshared(n: Node)
    reads n`isReference, n`stringIsConst, n`valuestring, n`key
  {
    n.valuestring != null && !n.isReference && !n.stringIsConst ==> n.valuestring != n.key
  }

  ghost function Blocks(f: Forest): set<object>
    reads Members(f)`isReference, Members(f)`stringIsConst, Members(f)`valuestring, Members(f)`key
  {
    match f
    case End => {}
    case Item(n, k, r) => Own(n) + Blocks(k) + Blocks(r)
  }

  // A list owns the items it consists of and those below them, the texts of items that are
  // no references, and the keys that are not constant; nothing else.
  lemma {:induction false} BlocksAre(f: Forest, o: object)
    ensures o in Blocks(f) <==>
      exists n | n in Members(f) ::
        o == n || (o == n.valuestring && !n.isReference) || (o == n.key && !n.stringIsConst)
  {
    match f
    case End =>
    case Item(n, k, r) =>
      BlocksAre(k, o);
      BlocksAre(r, o);
      assert Members(f) == {n} + Members(k) + Members(r);
  }

  // No block is owned twice.
  ghost predicate Separate(f: Forest)
    reads Members(f)`isReference, Members(f)`stringIsConst, Members(f)`valuestring, Members(f)`key
  {
    match f
    case End => true
    case Item(n, k, r) =>
      && Unshared(n) && Own(n) !! Blocks(k) && Own(n) !! Blocks(r) && Blocks(k) !! Blocks(r)
      && Separate(k) && Separate(r)
  }

  // ---------- Delete ----------

  method FreeOwn(hooks: Hooks, item: Node)
    requires Own(item) <= hooks.live && Unshared(item)
    modifies hooks`live
    ensures hooks.live == old(hooks.live) - Own(item)
  {
    if !item.isReference && item.valuestring != null {
      hooks.Deallocate(item.valuestring);
    }
    if !item.stringIsConst && item.key != null {
      hooks.Deallocate(item.key);
    }
    hooks.Deallocate(item);
  }

  // The list from `item` on and everything below it is given back, each block once;
  // what a reference points at is left alone.
  method Delete(hooks: Hooks, item: Node?, ghost f: Forest)
    requires Spans(item, f, null) && Separate(f) && Blocks(f) <= hooks.live
    modifies hooks`live
    ensures hooks.live == old(hooks.live - Blocks(f))
    decreases Size(f)
  {
    hide *;
    var item := item;
    ghost var g, left := f, hooks.live - Blocks(f);
    FirstOf(item, g);
    while item != null
      invariant Spans(item, g, null) && Separate(g) && Size(g) <= Size(f) && (item == null ==> g == End)
      invariant Blocks(g) <= hooks.live && hooks.live - Blocks(g) == left
      decreases Size(g)
    {
      FirstOf(item, g);
      Parts(g);
      assert allocated(Members(g.kids)) && allocated(Members(g.rest));
      var next := item.next;
      if !item.isReference && item.child != null {
        Delete(hooks, item.child, g.kids);
      }
      FreeOwn(hooks, item);
      item := next;
      g := g.rest;
      FirstOf(item, g);
    }
    NoBlocks();
  }

  lemma NoBlocks()
    ensures Blocks(End) == {}
  {}

  lemma NoMembers()
    ensures Members(End) == {}
  {}

  lemma FirstOf(item: Node?, g: Forest)
    requires Spans(item, g, null)
    ensures item == null <==> g == End
    ensures g.Item? ==> (
      && item == g.node && Spans(item.next, g.rest, null)
      && (if item.isReference || item.child == null then g.kids == End else Spans(item.child, g.kids, null)))
  {
    if g.Item? && !item.isReference { assert Spans(item.child, g.kids, null); }
  }

  lemma Parts(g: Forest)
    requires g.Item? && Separate(g)
    ensures Separate(g.kids) && Separate(g.rest) && Size(g.kids) < Size(g) && Size(g.rest) < Size(g)
    ensures Blocks(g) == Own(g.node) + Blocks(g.kids) + Blocks(g.rest)
    ensures Own(g.node) !! Blocks(g.kids) && Own(g.node) !! Blocks(g.rest) && Blocks(g.kids) !! Blocks(g.rest)
    ensures Blocks(End) == {}
    ensures Unshared(g.node)
  {}

  // ---------- Putting lists together ----------

  lemma {:induction false} AppendMembers(f: Forest, g: Forest)
    ensures Members(Append(f, g)) == Members(f) + Members(g)
  {
    if f.Item? { AppendMembers(f.rest, g); }
  }

  lemma {:induction false} AppendBlocks(f: Forest, g: Forest)
    ensures Blocks(Append(f, g)) == Blocks(f) + Blocks(g)
  {
    hide Own;
    if f.Item? { AppendBlocks(f.rest, g); }
  }

  lemma {:induction false} AppendRoots(f: Forest, g: Forest)
    ensures Roots(Append(f, g)) == Roots(f) + Roots(g)
  {
    if f.Item? { AppendRoots(f.rest, g); }
  }

  lemma AppendNoReference(f: Forest, g: Forest)
    requires NoReference(f) && NoReference(g)
    ensures NoReference(Append(f, g))
  {}

  lemma {:induction false} AppendSpans(a: Node?, f: Forest, b: Node?, g: Forest, c: Node?)
    requires Spans(a, f, b) && Spans(b, g, c)
    ensures Spans(a, Append(f, g), c)
  {
    if f.Item? { AppendSpans(f.node.next, f.rest, b, g, c); }
  }

  lemma {:induction false} AppendSeparate(f: Forest, g: Forest)
    requires Separate(f) && Separate(g) && Blocks(f) !! Blocks(g)
    ensures Separate(Append(f, g))
  {
    hide Own, Unshared;
    if f.Item? {
      AppendSeparate(f.rest, g);
      AppendBlocks(f.rest, g);
    }
  }

  lemma {:induction false} AppendThreaded(f: Forest, g: Forest)
    requires Threaded(f) && Threaded(g)
    ensures Threaded(Append(f, g))
  {
    if f.Item? { AppendThreaded(f.rest, g); }
  }

  lemma {:induction false} MembersAreBlocks(f: Forest)
    ensures forall n | n in Members(f) :: n in Blocks(f)
  {
    if f.Item? {
      MembersAreBlocks(f.kids);
      MembersAreBlocks(f.rest);
    }
  }

  lemma {:induction false} RootsDistinct(f: Forest)
    requires Separate(f)
    ensures Distinct(Roots(f))
  {
    if f.Item? {
      RootsDistinct(f.rest);
      MembersAreBlocks(f.rest);
      RootsAreMembers(f.rest);
    }
  }

  lemma {:induction false} SpansNext(first: Node?, f: Forest)
    requires Spans(first, f, null)
    ensures NextLinks(first, Roots(f))
  {
    if f.Item? { SpansNext(f.node.next, f.rest); }
  }

  // The children of an item of a whole tree form a proper list.
  lemma KidsLinked(n: Node, k: Forest)
    requires !n.isReference && HasKids(n, k) && Separate(k) && BothWays(k)
    ensures Linked(n, Roots(k))
  {
    SpansNext(n.child, k);
    RootsDistinct(k);
  }
}
