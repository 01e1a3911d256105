/**
  Growing a list of siblings at its tail, as parsing, copying and array creation do it:
  the backward link of the first item is set only when the list is complete.
  */
module Lists {
  import opened Nodes
  import opened Trees

  ghost predicate Chained(nodes: seq<Node>)
    reads nodes`prev
  {
    forall i | 1 <= i < |nodes| :: nodes[i].prev == nodes[i - 1]
  }

  // The list built so far: the items in front of the tail, then the tail.
  ghost function Built(tail: Node?, front: Forest, kids: Forest): Forest {
    if tail == null then End else Append(front, Single(tail, kids))
  }

  // `kids` hang below the tail.
  ghost predicate Building(head: Node?, tail: Node?, front: Forest, kids: Forest)
    reads One(tail), Members(front), Members(kids)
  {
    if tail == null then head == null && front == End && kids == End
    else
      assert Members(Single(tail, kids)) == {tail} + Members(kids) + Members(End);
      && Spans(head, front, tail) && HasKids(tail, kids) && tail.next == null
      && Threaded(front) && BothWays(kids) && ChainedTo(front, tail) && Apart(front, tail, kids)
  }

  ghost function Single(n: Node, kids: Forest): Forest { Item(n, kids, End) }

  ghost predicate Apart(front: Forest, tail: Node, kids: Forest)
    reads Members(front)`isReference, Members(front)`stringIsConst, Members(front)`valuestring, Members(front)`key
    reads Members(Single(tail, kids))`isReference, Members(Single(tail, kids))`stringIsConst
    reads Members(Single(tail, kids))`valuestring, Members(Single(tail, kids))`key
  {
    Separate(front) && Separate(Single(tail, kids)) && Blocks(front) !! Blocks(Single(tail, kids))
  }

  ghost predicate ChainedTo(front: Forest, tail: Node)
    reads Members(front)`prev, tail`prev
  {
    RootsAreMembers(front);
    Chained(Roots(front) + [tail])
  }

  lemma BuiltWhole(head: Node?, tail: Node?, front: Forest, kids: Forest)
    requires Building(head, tail, front, kids)
    ensures Spans(head, Built(tail, front, kids), null) && Separate(Built(tail, front, kids))
    ensures tail != null ==> Blocks(Built(tail, front, kids)) == Blocks(front) + Blocks(Single(tail, kids))
    ensures tail == null ==> Blocks(Built(tail, front, kids)) == {}
  {
    hide Spans, Separate, Blocks, Append;
    NoBlocks();
    if tail != null {
      var last := Single(tail, kids);
      AppendBlocks(front, last);
      AppendSeparate(front, last);
      SingleForest(tail, kids, null);
      AppendSpans(head, front, tail, last, null);
    } else {
      EmptyWhole();
    }
  }

  lemma EmptyWhole()
    ensures Spans(null, End, null) && Separate(End) && BothWays(End)
  {}

  lemma HeadIn(head: Node?, tail: Node?, front: Forest, kids: Forest)
    requires Building(head, tail, front, kids)
    ensures head != null ==> head in Members(Built(tail, front, kids))
  {}

  lemma TailIn(head: Node?, tail: Node?, front: Forest, kids: Forest)
    requires Building(head, tail, front, kids)
    ensures tail != null ==> tail in Members(Built(tail, front, kids))
  {
    if tail != null { AppendMembers(front, Single(tail, kids)); }
  }

  lemma BuiltLast(tail: Node, front: Forest, kids: Forest)
    ensures Built(tail, front, kids) == Append(front, Single(tail, kids))
  {}

  // `item`, with `below` below it, goes behind the tail.
  method Attach(head: Node?, tail: Node?, item: Node, ghost front: Forest, ghost kids: Forest, ghost below: Forest)
    returns (first: Node, ghost before: Forest)
    requires Building(head, tail, front, kids)
    requires item.next == null && HasKids(item, below) && BothWays(below) && Separate(Single(item, below))
    requires Blocks(Built(tail, front, kids)) !! Blocks(Single(item, below))
    modifies One(tail)`next, item`prev
    ensures before == Built(tail, front, kids) && first == if head == null then item else head
    ensures Building(first, item, before, below)
    ensures Blocks(before) == old(Blocks(before))
  {
    hide Spans, HasKids, Threaded, BothWays, ChainedTo, Apart, Blocks, Separate, Members;
    before := Built(tail, front, kids);
    if tail == null {
      first := item;
      EmptyWhole();
      StartedList(item, below);
    } else {
      Strangers(head, tail, item, front, kids, below);
      tail.next := item;
      item.prev := tail;
      first := head;
      Attached(head, tail, item, front, kids, below);
    }
  }

  lemma StartedList(item: Node, below: Forest)
    requires item.next == null && HasKids(item, below) && BothWays(below) && Separate(Single(item, below))
    ensures Building(item, item, End, below)
  {}

  // The writes that link `item` in touch nothing the rest of the list depends on.
  lemma Strangers(head: Node?, tail: Node, item: Node, front: Forest, kids: Forest, below: Forest)
    requires Spans(head, front, tail) && Apart(front, tail, kids) && Separate(Single(item, below))
    requires Blocks(Built(tail, front, kids)) !! Blocks(Single(item, below))
    ensures tail !in Members(front) && tail !in Members(kids) && tail !in Members(below)
    ensures item !in Members(front) && item !in Members(kids) && item !in Members(below) && item != tail
    ensures head != null
  {
    hide Separate, Blocks, Members, Append;
    AppendBlocks(front, Single(tail, kids));
    MembersAreBlocks(front);
    MembersAreBlocks(kids);
    MembersAreBlocks(below);
    SingleParts(tail, kids);
    SingleParts(item, below);
  }

  lemma SingleParts(n: Node, kids: Forest)
    ensures Blocks(Single(n, kids)) == Own(n) + Blocks(kids) && n in Own(n)
    ensures Separate(Single(n, kids)) <==> Unshared(n) && Own(n) !! Blocks(kids) && Separate(kids)
    ensures Members(Single(n, kids)) == {n} + Members(kids)
  {}

  lemma Attached(head: Node?, tail: Node, item: Node, front: Forest, kids: Forest, below: Forest)
    requires Spans(head, front, tail) && HasKids(tail, kids) && tail.next == item && item.prev == tail
    requires Threaded(front) && BothWays(kids) && ChainedTo(front, tail) && Apart(front, tail, kids)
    requires item.next == null && HasKids(item, below) && BothWays(below) && Separate(Single(item, below))
    requires Blocks(Built(tail, front, kids)) !! Blocks(Single(item, below))
    ensures Building(head, item, Built(tail, front, kids), below)
  {
    hide Spans, HasKids, Threaded, BothWays, Separate, Blocks, Append;
    SingleForest(tail, kids, item);
    AppendSpans(head, front, tail, Single(tail, kids), item);
    AppendThreaded(front, Single(tail, kids));
    AppendSeparate(front, Single(tail, kids));
    AppendRoots(front, Single(tail, kids));
  }

  lemma SingleSpans(n: Node, kids: Forest, after: Node?)
    requires HasKids(n, kids) && n.next == after
    ensures Spans(n, Single(n, kids), after)
  {}

  lemma SingleForest(n: Node, kids: Forest, after: Node?)
    requires HasKids(n, kids) && n.next == after && BothWays(kids)
    ensures Spans(n, Single(n, kids), after) && Threaded(Single(n, kids)) && Roots(Single(n, kids)) == [n]
  {}

  // The first item's backward link goes to the tail: the list is whole.
  method Complete(head: Node?, tail: Node?, ghost front: Forest, ghost kids: Forest)
    requires Building(head, tail, front, kids)
    modifies One(head)`prev
    ensures Spans(head, Built(tail, front, kids), null) && BothWays(Built(tail, front, kids))
    ensures Separate(Built(tail, front, kids))
    ensures Blocks(Built(tail, front, kids)) == old(Blocks(Built(tail, front, kids)))
  {
    hide Spans, HasKids, Threaded, BothWays, Blocks, Separate, Members, Append, Roots, Apart;
    BuiltWhole(head, tail, front, kids);
    EmptyWhole();
    HeadPresent(head, tail, front, kids);
    if head != null {
      ghost var nodes := Roots(front) + [tail];
      HeadApart(head, tail, front, kids);
      FirstThreaded(front);
      head.prev := tail;
      FirstThreaded(front);
      forall i | 0 <= i < |nodes| ensures nodes[i].prev == Before(nodes, i) {
        if i > 0 { Different(nodes, i, 0); }
      }
      Ringed(tail, front, kids);
    }
  }

  lemma HeadPresent(head: Node?, tail: Node?, front: Forest, kids: Forest)
    requires Building(head, tail, front, kids)
    ensures head == null <==> tail == null
  {}

  lemma HeadApart(head: Node, tail: Node, front: Forest, kids: Forest)
    requires Spans(head, front, tail) && Apart(front, tail, kids)
    ensures Distinct(Roots(front) + [tail]) && (Roots(front) + [tail])[0] == head && head !in Members(kids)
    ensures front.Item? ==> front.node == head && head !in Members(front.kids) && head !in Members(front.rest)
  {
    hide Separate, Blocks, Members;
    RootsDistinct(front);
    RootsAreMembers(front);
    MembersAreBlocks(front);
    MembersAreBlocks(kids);
    SingleParts(tail, kids);
    if front.Item? {
      Parts(front);
      MembersAreBlocks(front.kids);
      MembersAreBlocks(front.rest);
      OwnBlocks(front);
    }
  }

  lemma OwnBlocks(f: Forest)
    requires f.Item?
    ensures f.node in Own(f.node) && f.node in Blocks(f)
  {}

  lemma FirstThreaded(f: Forest)
    ensures if f == End then Threaded(f) else Threaded(f) <==> BothWays(f.kids) && Threaded(f.rest)
  {}

  lemma Ringed(tail: Node, front: Forest, kids: Forest)
    requires Threaded(front) && BothWays(kids) && PrevLinks(Roots(front) + [tail])
    ensures BothWays(Built(tail, front, kids))
  {
    hide Threaded, Append, Roots, PrevLinks;
    AppendRoots(front, Single(tail, kids));
    LastThreaded(tail, kids);
    AppendThreaded(front, Single(tail, kids));
  }

  lemma LastThreaded(n: Node, kids: Forest)
    requires BothWays(kids)
    ensures Threaded(Single(n, kids)) && Roots(Single(n, kids)) == [n]
  {}
}
