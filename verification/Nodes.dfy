/**
  Items in memory: the doubly linked list of an item's children and its edits.
  */
module Nodes {
  import opened Text
  import opened Decimals

  // A block holding a C string, never written again once it is filled.
  class Chars {
    const text: CString

    constructor (text: CString)
      ensures this.text == text
    {
      this.text := text;
    }
  }

  // `type & 0xFF`.
  datatype Kind = Invalid | IsFalse | IsTrue | IsNull | IsNumber | IsString | IsArray | IsObject | IsRaw

  class Node {
    var next: Node?
    var prev: Node?
    var child: Node?
    var kind: Kind
    var isReference: bool
    var stringIsConst: bool
    var valuestring: Chars?
    var number: Number
    var key: Chars?

    // cJSON_New_Item: everything is zero.
    constructor ()
      ensures next == null && prev == null && child == null
      ensures kind == Invalid && !isReference && !stringIsConst
      ensures valuestring == null && key == null && number == Decimal(false, 0, 0)
    {
      next, prev, child := null, null, null;
      kind, isReference, stringIsConst := Invalid, false, false;
      valuestring, key, number := null, null, Decimal(false, 0, 0);
    }
  }

  // ---------- The list of children ----------

  predicate Distinct(nodes: seq<Node>) { forall i, j | 0 <= i < j < |nodes| :: nodes[i] != nodes[j] }

  function At(nodes: seq<Node>, i: int): Node? {
    if 0 <= i < |nodes| then nodes[i] else null
  }

  // Where the `prev` of node `i` points: backwards, and from the first to the last.
  function Before(nodes: seq<Node>, i: nat): Node
    requires i < |nodes|
  {
    if i == 0 then nodes[|nodes| - 1] else nodes[i - 1]
  }

  ghost predicate NextLinks(first: Node?, nodes: seq<Node>)
    reads nodes`next
  {
    first == At(nodes, 0) && forall i | 0 <= i < |nodes| :: nodes[i].next == At(nodes, i + 1)
  }

  ghost predicate PrevLinks(nodes: seq<Node>)
    reads nodes`prev
  {
    forall i | 0 <= i < |nodes| :: nodes[i].prev == Before(nodes, i)
  }

  // `kids` are the children of `parent`, in order, properly linked both ways.
  ghost predicate Linked(parent: Node, kids: seq<Node>)
    reads parent`child, kids`next, kids`prev
  {
    Distinct(kids) && NextLinks(parent.child, kids) && PrevLinks(kids)
  }

  // A list has no second reading: the pointers determine the children.
  lemma LinkedIsUnique(parent: Node, kids: seq<Node>, others: seq<Node>)
    requires Linked(parent, kids) && Linked(parent, others)
    ensures kids == others
  {
    SamePrefix(parent, kids, others, if |kids| <= |others| then |kids| else |others|);
  }

  lemma {:induction false} SamePrefix(parent: Node, kids: seq<Node>, others: seq<Node>, n: nat)
    requires NextLinks(parent.child, kids) && NextLinks(parent.child, others) && n <= |kids| && n <= |others|
    ensures (forall k | 0 <= k < n :: kids[k] == others[k]) && At(kids, n) == At(others, n)
  {
    if n > 0 { SamePrefix(parent, kids, others, n - 1); }
  }

  // ---------- Reading ----------

  method GetArraySize(parent: Node?, ghost kids: seq<Node>) returns (size: nat)
    requires parent != null ==> Linked(parent, kids)
    ensures size == if parent == null then 0 else |kids|
  {
    if parent == null {
      return 0;
    }
    size := 0;
    var child := parent.child;
    while child != null
      invariant size <= |kids| && child == At(kids, size)
      decreases |kids| - size
    {
      size := size + 1;
      child := child.next;
    }
  }

  method GetArrayItem(parent: Node?, index: int, ghost kids: seq<Node>) returns (item: Node?)
    requires parent != null ==> Linked(parent, kids)
    ensures item == if parent == null || index < 0 then null else At(kids, index)
  {
    if index < 0 || parent == null {
      return null;
    }
    item := parent.child;
    var left := index;
    while item != null && left > 0
      invariant 0 <= left <= index && item == At(kids, index - left)
      decreases left
    {
      left := left - 1;
      item := item.next;
    }
    assert item == null ==> index - left >= |kids|;
  }

  // ---------- Editing ----------

  function One(n: Node?): set<Node> { if n == null then {} else {n} }

  lemma IsOne(n: Node?)
    ensures One(n) == if n == null then {} else {n}
  {}

  method AddItemToArray(parent: Node?, item: Node?, ghost kids: seq<Node>) returns (ok: bool)
    requires parent != null ==> Linked(parent, kids)
    requires item != null && item != parent ==> item !in kids && item.next == null
    modifies One(parent)`child, One(item)`next, One(item)`prev, kids`next, kids`prev
    ensures ok <==> parent != null && item != null && item != parent
    ensures ok ==> Linked(parent, InsertAt(kids, |kids|, item))
    ensures !ok && parent != null ==> Linked(parent, kids)
  {
    if item == null || parent == null || parent == item {
      return false;
    }
    var child := parent.child;
    if child == null {
      parent.child := item;
      item.prev := item;
      item.next := null;
    } else if child.prev != null {
      child.prev.next := item;
      item.prev := child.prev;
      parent.child.prev := item;
    }
    Inserted(parent, kids, |kids|, item);
    return true;
  }

  function InsertAt(kids: seq<Node>, i: nat, item: Node): (r: seq<Node>)
    requires i <= |kids|
    ensures |r| == |kids| + 1
  {
    seq(|kids| + 1, k requires 0 <= k <= |kids| => if k < i then kids[k] else if k == i then item else kids[k - 1])
  }

  function RemoveAt(kids: seq<Node>, i: nat): (r: seq<Node>)
    requires i < |kids|
    ensures |r| == |kids| - 1
  {
    seq(|kids| - 1, k requires 0 <= k < |kids| - 1 => if k < i then kids[k] else kids[k + 1])
  }

  lemma EditsAreSlices(kids: seq<Node>, i: nat, item: Node)
    requires i <= |kids|
    ensures InsertAt(kids, i, item) == kids[..i] + [item] + kids[i..]
    ensures i < |kids| ==> RemoveAt(kids, i) == kids[..i] + kids[i + 1..]
    ensures i < |kids| ==> InsertAt(RemoveAt(kids, i), i, kids[i]) == kids
    ensures RemoveAt(InsertAt(kids, i, item), i) == kids
  {}

  // Where `next` and `prev` of child `j` point once `item` is linked in before child `i`.
  function NextAfterInsert(kids: seq<Node>, i: nat, item: Node, j: nat): Node? {
    if j + 1 == i then item else At(kids, j + 1)
  }

  function PrevAfterInsert(kids: seq<Node>, i: nat, item: Node, j: nat): Node
    requires j < |kids|
  {
    if j == i || (j == 0 && i == |kids|) then item else Before(kids, j)
  }

  lemma Inserted(parent: Node, kids: seq<Node>, i: nat, item: Node)
    requires i <= |kids| && Distinct(kids) && item !in kids
    requires parent.child == if i == 0 then item else kids[0]
    requires item.next == At(kids, i)
    requires item.prev == if kids == [] then item else Before(kids, if i == |kids| then 0 else i)
    requires forall j | 0 <= j < |kids| :: kids[j].next == NextAfterInsert(kids, i, item, j)
    requires forall j | 0 <= j < |kids| :: kids[j].prev == PrevAfterInsert(kids, i, item, j)
    ensures Linked(parent, InsertAt(kids, i, item))
  {
    hide InsertAt;
    InsertDistinct(kids, i, item);
    InsertIndex(kids, i, item, 0);
    InsertedNext(kids, i, item);
    InsertedPrev(kids, i, item);
  }

  lemma InsertedNext(kids: seq<Node>, i: nat, item: Node)
    requires i <= |kids| && item.next == At(kids, i)
    requires forall j | 0 <= j < |kids| :: kids[j].next == NextAfterInsert(kids, i, item, j)
    ensures NextLinks(At(InsertAt(kids, i, item), 0), InsertAt(kids, i, item))
  {}

  lemma InsertedPrev(kids: seq<Node>, i: nat, item: Node)
    requires i <= |kids| && item.prev == if kids == [] then item else Before(kids, if i == |kids| then 0 else i)
    requires forall j | 0 <= j < |kids| :: kids[j].prev == PrevAfterInsert(kids, i, item, j)
    ensures PrevLinks(InsertAt(kids, i, item))
  {
    hide InsertAt;
    var r := InsertAt(kids, i, item);
    forall k | 0 <= k < |r| ensures r[k].prev == Before(r, k) {
      InsertIndex(kids, i, item, k);
      InsertIndex(kids, i, item, if k == 0 then |kids| else k - 1);
    }
  }

  lemma InsertIndex(kids: seq<Node>, i: nat, item: Node, k: nat)
    requires i <= |kids|
    ensures At(InsertAt(kids, i, item), k) == if k < i then At(kids, k) else if k == i then item else At(kids, k - 1)
  {}

  lemma InsertDistinct(kids: seq<Node>, i: nat, item: Node)
    requires i <= |kids| && Distinct(kids) && item !in kids
    ensures Distinct(InsertAt(kids, i, item))
  {}

  // `newitem` in front of `after`, which is child `i`.
  method InsertBefore(parent: Node, after: Node, newitem: Node, ghost kids: seq<Node>, ghost i: nat)
    requires Linked(parent, kids) && i < |kids| && kids[i] == after && newitem !in kids && newitem != parent
    modifies parent`child, newitem`next, newitem`prev, kids`next, kids`prev
    ensures Linked(parent, InsertAt(kids, i, newitem))
  {
    hide InsertAt, NextAfterInsert, PrevAfterInsert;
    Around(parent, kids, i);
    InsertBackward(after, newitem, kids, i);
    InsertForward(parent, after, newitem, kids, i);
    Inserted(parent, kids, i, newitem);
  }

  // `newitem` takes the place of `after` in the backward links.
  method InsertBackward(after: Node, newitem: Node, ghost kids: seq<Node>, ghost i: nat)
    requires i < |kids| && kids[i] == after && Distinct(kids) && PrevLinks(kids) && newitem !in kids
    modifies newitem`next, newitem`prev, kids`prev
    ensures newitem.next == after && newitem.prev == Before(kids, i)
    ensures forall j | 0 <= j < |kids| :: kids[j].prev == PrevAfterInsert(kids, i, newitem, j)
  {
    newitem.next := after;
    newitem.prev := after.prev;
    after.prev := newitem;
    forall j | 0 <= j < |kids| ensures kids[j].prev == PrevAfterInsert(kids, i, newitem, j) {
      if j != i { Different(kids, j, i); }
    }
  }

  // What points forward to child `i` now points to `newitem`.
  method InsertForward(parent: Node, after: Node, newitem: Node, ghost kids: seq<Node>, ghost i: nat)
    requires i < |kids| && kids[i] == after && Distinct(kids) && NextLinks(parent.child, kids) && newitem !in kids
    requires i > 0 ==> newitem.prev == kids[i - 1]
    modifies parent`child, kids`next
    ensures parent.child == if i == 0 then newitem else kids[0]
    ensures forall j | 0 <= j < |kids| :: kids[j].next == NextAfterInsert(kids, i, newitem, j)
  {
    if i != 0 { Different(kids, i, 0); }
    if after == parent.child {
      parent.child := newitem;
    } else {
      newitem.prev.next := newitem;
    }
    forall j | 0 <= j < |kids| ensures kids[j].next == NextAfterInsert(kids, i, newitem, j) {
      if i > 0 && j != i - 1 { Different(kids, j, i - 1); }
    }
  }

  // In front of an item that is there the code does not expect NULL, or the parent.
  method InsertItemInArray(parent: Node?, which: int, newitem: Node?, ghost kids: seq<Node>) returns (ok: bool)
    requires parent != null ==> Linked(parent, kids)
    requires parent != null && 0 <= which < |kids| ==> newitem != null && newitem != parent
    requires newitem != null && newitem != parent ==> newitem !in kids && newitem.next == null
    modifies One(parent)`child, One(newitem)`next, One(newitem)`prev, kids`next, kids`prev
    ensures ok <==> which >= 0 && parent != null && newitem != null && newitem != parent
    ensures ok ==> Linked(parent, InsertAt(kids, if which < |kids| then which else |kids|, newitem))
    ensures !ok && parent != null ==> Linked(parent, kids)
  {
    if which < 0 {
      return false;
    }
    var after := GetArrayItem(parent, which, kids);
    if after == null {
      ok := AddItemToArray(parent, newitem, kids);
      return;
    }
    InsertBefore(parent, after, newitem, kids, which);
    return true;
  }

  // Where `next` and `prev` of another child `j` point once child `i` is linked out.
  function NextAfterRemove(kids: seq<Node>, i: nat, j: nat): Node? {
    if j + 1 == i then At(kids, i + 1) else At(kids, j + 1)
  }

  function PrevAfterRemove(kids: seq<Node>, i: nat, j: nat): Node
    requires i < |kids| && j < |kids|
  {
    if j == i + 1 || (j == 0 && i + 1 == |kids|) then Before(kids, i) else Before(kids, j)
  }

  lemma Removed(parent: Node, kids: seq<Node>, i: nat)
    requires i < |kids| && Distinct(kids)
    requires parent.child == if i == 0 then At(kids, 1) else kids[0]
    requires forall j | 0 <= j < |kids| && j != i :: kids[j].next == NextAfterRemove(kids, i, j)
    requires forall j | 0 <= j < |kids| && j != i :: kids[j].prev == PrevAfterRemove(kids, i, j)
    ensures Linked(parent, RemoveAt(kids, i))
  {
    hide RemoveAt;
    RemoveDistinct(kids, i);
    RemoveIndex(kids, i, 0);
    RemovedNext(kids, i);
    RemovedPrev(kids, i);
  }

  lemma RemovedNext(kids: seq<Node>, i: nat)
    requires i < |kids|
    requires forall j | 0 <= j < |kids| && j != i :: kids[j].next == NextAfterRemove(kids, i, j)
    ensures NextLinks(At(RemoveAt(kids, i), 0), RemoveAt(kids, i))
  {}

  lemma RemovedPrev(kids: seq<Node>, i: nat)
    requires i < |kids|
    requires forall j | 0 <= j < |kids| && j != i :: kids[j].prev == PrevAfterRemove(kids, i, j)
    ensures PrevLinks(RemoveAt(kids, i))
  {}

  lemma RemoveIndex(kids: seq<Node>, i: nat, k: nat)
    requires i < |kids|
    ensures At(RemoveAt(kids, i), k) == if k < i then At(kids, k) else At(kids, k + 1)
  {}

  lemma RemoveDistinct(kids: seq<Node>, i: nat)
    requires i < |kids| && Distinct(kids)
    ensures Distinct(RemoveAt(kids, i))
  {}

  // The node in front of `item` now points past it.
  method BypassForward(parent: Node, item: Node, ghost kids: seq<Node>, ghost i: nat)
    requires Linked(parent, kids) && i < |kids| && kids[i] == item
    modifies kids`next
    ensures forall j | 0 <= j < |kids| :: kids[j].next == NextAfterRemove(kids, i, j)
  {
    Around(parent, kids, i);
    if item != parent.child {
      item.prev.next := item.next;
    }
    forall j | 0 <= j < |kids| ensures kids[j].next == NextAfterRemove(kids, i, j) {
      if i > 0 && j != i - 1 { Different(kids, j, i - 1); }
    }
  }

  // The node behind `item`, or the first one when there is none, now points before it.
  method BypassBackward(parent: Node, item: Node, ghost kids: seq<Node>, ghost i: nat)
    requires i < |kids| && kids[i] == item && Distinct(kids) && parent.child == kids[0] && PrevLinks(kids)
    requires item.next == At(kids, i + 1)
    modifies parent`child, kids`prev
    ensures parent.child == if i == 0 then At(kids, 1) else kids[0]
    ensures forall j | 0 <= j < |kids| && j != i :: kids[j].prev == PrevAfterRemove(kids, i, j)
  {
    if i != 0 { Different(kids, i, 0); }
    if item.next != null {
      item.next.prev := item.prev;
    }
    if item == parent.child {
      parent.child := item.next;
    } else if item.next == null {
      parent.child.prev := item.prev;
    }
    forall j | 0 <= j < |kids| && j != i ensures kids[j].prev == PrevAfterRemove(kids, i, j) {
      if i + 1 < |kids| && j != i + 1 { Different(kids, j, i + 1); }
      if j != 0 { Different(kids, j, 0); }
    }
  }

  // The item no longer points to its neighbours; theirs are left as they are.
  method Unlink(item: Node, ghost kids: seq<Node>, ghost i: nat)
    requires i < |kids| && kids[i] == item && Distinct(kids)
    modifies item`next, item`prev
    ensures item.next == null && item.prev == null
    ensures forall j | 0 <= j < |kids| && j != i ::
      kids[j].next == old(kids[j].next) && kids[j].prev == old(kids[j].prev)
  {
    forall j | 0 <= j < |kids| && j != i ensures kids[j] != item { Different(kids, j, i); }
    item.prev := null;
    item.next := null;
  }

  method DetachItemViaPointer(parent: Node?, item: Node?, ghost kids: seq<Node>, ghost i: nat) returns (detached: Node?)
    requires parent != null && item != null ==> Linked(parent, kids) && i < |kids| && kids[i] == item
    modifies One(parent)`child, kids`next, kids`prev
    ensures detached == if parent == null then null else item
    ensures detached != null ==> Linked(parent, RemoveAt(kids, i)) && item.next == null && item.prev == null
    ensures detached == null ==> unchanged(kids) && (parent != null ==> unchanged(parent))
  {
    if parent == null || item == null {
      return null;
    }
    hide RemoveAt, NextAfterRemove, PrevAfterRemove;
    Around(parent, kids, i);
    Bypassed(kids, i);
    BypassForward(parent, item, kids, i);
    BypassBackward(parent, item, kids, i);
    Unlink(item, kids, i);
    Removed(parent, kids, i);
    return item;
  }

  lemma Bypassed(kids: seq<Node>, i: nat)
    requires i < |kids|
    ensures NextAfterRemove(kids, i, i) == At(kids, i + 1)
  {}

  lemma Different(kids: seq<Node>, j: nat, k: nat)
    requires Distinct(kids) && j < |kids| && k < |kids| && j != k
    ensures kids[j] != kids[k]
  {}

  // The neighbours of child `i`.
  lemma Around(parent: Node, kids: seq<Node>, i: nat)
    requires Linked(parent, kids) && i < |kids|
    ensures kids[i].prev == Before(kids, i) && kids[i].next == At(kids, i + 1)
    ensures i == 0 <==> kids[i] == parent.child
    ensures parent.child == kids[0]
  {}
}
