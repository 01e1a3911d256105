/**
  Edits that free or create items: replacing, deleting, adding under a key, and building
  an array.
  */
module Edits {
  import opened Text
  import opened Decimals
  import opened Hooks
  import opened Nodes
  import opened Trees
  import opened Lists
  import opened Copies
  import opened Meanings
  import opened Values

  // ---------- Replacing ----------

  function ReplaceAt(kids: seq<Node>, i: nat, item: Node): (r: seq<Node>)
    requires i < |kids|
    ensures |r| == |kids| && r == kids[..i] + [item] + kids[i + 1..]
  {
    kids[i := item]
  }

  function NextAfterReplace(kids: seq<Node>, i: nat, item: Node, j: nat): Node? {
    if j + 1 == i then item else At(kids, j + 1)
  }

  function PrevAfterReplace(kids: seq<Node>, i: nat, item: Node, j: nat): Node
    requires j < |kids|
  {
    if j == i + 1 || (j == 0 && i + 1 == |kids|) then item else Before(kids, j)
  }

  lemma Replaced(parent: Node, kids: seq<Node>, i: nat, item: Node)
    requires i < |kids| && Distinct(kids) && item !in kids
    requires parent.child == if i == 0 then item else kids[0]
    requires item.next == At(kids, i + 1) && item.prev == if |kids| == 1 then item else Before(kids, i)
    requires forall j | 0 <= j < |kids| && j != i :: kids[j].next == NextAfterReplace(kids, i, item, j)
    requires forall j | 0 <= j < |kids| && j != i :: kids[j].prev == PrevAfterReplace(kids, i, item, j)
    ensures Linked(parent, ReplaceAt(kids, i, item))
  {
    var r := ReplaceAt(kids, i, item);
    forall k | 0 <= k < |r| ensures r[k].next == At(r, k + 1) && r[k].prev == Before(r, k) {}
  }

  // The replacement takes over the item's links; the next item points back to it.
  method RelinkNext(parent: Node, item: Node, replacement: Node, ghost kids: seq<Node>, ghost i: nat)
    requires Linked(parent, kids) && i < |kids| && kids[i] == item && replacement !in kids
    modifies replacement`next, replacement`prev, kids`prev
    ensures replacement.next == At(kids, i + 1) && replacement.prev == Before(kids, i)
    ensures forall j | 0 <= j < |kids| :: kids[j].prev == if j == i + 1 then replacement else Before(kids, j)
  {
    Around(parent, kids, i);
    replacement.next := item.next;
    replacement.prev := item.prev;
    if replacement.next != null {
      replacement.next.prev := replacement;
    }
    forall j | 0 <= j < |kids| ensures kids[j].prev == if j == i + 1 then replacement else Before(kids, j) {
      if i + 1 < |kids| && j != i + 1 { Different(kids, j, i + 1); }
    }
  }

  // The replacement of the only item closes the ring on itself; that of the last item
  // becomes the tail.
  method RelinkTail(parent: Node, item: Node, replacement: Node, ghost kids: seq<Node>, ghost i: nat)
    requires i < |kids| && kids[i] == item && Distinct(kids) && parent.child == kids[0] && replacement !in kids
    requires replacement.next == At(kids, i + 1) && replacement.prev == Before(kids, i)
    requires forall j | 0 <= j < |kids| :: kids[j].prev == if j == i + 1 then replacement else Before(kids, j)
    modifies replacement`prev, kids`prev
    ensures replacement.prev == if |kids| == 1 then replacement else Before(kids, i)
    ensures forall j | 0 <= j < |kids| && j != i :: kids[j].prev == PrevAfterReplace(kids, i, replacement, j)
  {
    if i != 0 { Different(kids, i, 0); }
    if |kids| > 1 { Different(kids, |kids| - 1, 0); }
    if parent.child == item {
      if parent.child.prev == parent.child {
        replacement.prev := replacement;
      }
    } else if replacement.next == null {
      parent.child.prev := replacement;
    }
    forall j | 0 <= j < |kids| && j != i ensures kids[j].prev == PrevAfterReplace(kids, i, replacement, j) {
      if j != 0 { Different(kids, j, 0); }
    }
  }

  // What pointed forward to the item now points to the replacement.
  method RelinkForward(parent: Node, item: Node, replacement: Node, ghost kids: seq<Node>, ghost i: nat)
    requires i < |kids| && kids[i] == item && Distinct(kids) && NextLinks(parent.child, kids) && replacement !in kids
    requires i > 0 ==> replacement.prev == kids[i - 1]
    modifies parent`child, kids`next
    ensures parent.child == if i == 0 then replacement else kids[0]
    ensures forall j | 0 <= j < |kids| && j != i :: kids[j].next == NextAfterReplace(kids, i, replacement, j)
  {
    if i != 0 { Different(kids, i, 0); }
    if parent.child == item {
      parent.child := replacement;
    } else if replacement.prev != null {
      replacement.prev.next := replacement;
    }
    forall j | 0 <= j < |kids| && j != i ensures kids[j].next == NextAfterReplace(kids, i, replacement, j) {
      if i > 0 && j != i - 1 { Different(kids, j, i - 1); }
    }
  }

  method Relink(parent: Node, item: Node, replacement: Node, ghost kids: seq<Node>, ghost i: nat)
    requires Linked(parent, kids) && i < |kids| && kids[i] == item && replacement !in kids
    modifies parent`child, replacement`next, replacement`prev, kids`next, kids`prev
    ensures Linked(parent, ReplaceAt(kids, i, replacement)) && item.next == null && item.prev == null
  {
    hide ReplaceAt, NextAfterReplace, PrevAfterReplace, Before;
    Around(parent, kids, i);
    RelinkNext(parent, item, replacement, kids, i);
    RelinkTail(parent, item, replacement, kids, i);
    BeforeIs(kids, i);
    RelinkForward(parent, item, replacement, kids, i);
    Unlink(item, kids, i);
    Replaced(parent, kids, i, replacement);
  }

  lemma BeforeIs(kids: seq<Node>, i: nat)
    requires i < |kids|
    ensures i > 0 ==> Before(kids, i) == kids[i - 1]
  {}

  // Nothing the edit writes lies below the item, which is a tree of its own.
  ghost predicate Removable(hooks: Hooks, parent: Node, item: Node, replacement: Node, kids: seq<Node>, below: Forest)
    reads hooks`live, item, Members(below)
  {
    && HasKids(item, below) && Sole(item, below) && BlocksOf(item, below) <= hooks.live
    && parent != item && parent !in Members(below) && replacement !in Members(below)
    && forall n | n in kids :: n !in Members(below)
  }

  ghost predicate Sole(item: Node, below: Forest)
    reads item`isReference, item`stringIsConst, item`valuestring, item`key
    reads Members(below)`isReference, Members(below)`stringIsConst, Members(below)`valuestring, Members(below)`key
  {
    Unshared(item) && Own(item) !! Blocks(below) && Separate(below)
  }

  ghost function BlocksOf(item: Node, below: Forest): set<object>
    reads item`isReference, item`stringIsConst, item`valuestring, item`key
    reads Members(below)`isReference, Members(below)`stringIsConst, Members(below)`valuestring, Members(below)`key
  {
    Own(item) + Blocks(below)
  }

  // `below` hangs below the item that goes; it is freed with it, the replacement and
  // its new siblings are not.
  method ReplaceItemViaPointer(hooks: Hooks, parent: Node?, item: Node?, replacement: Node?,
                               ghost kids: seq<Node>, ghost i: nat, ghost below: Forest) returns (ok: bool)
    requires parent != null && item != null ==> Linked(parent, kids) && i < |kids| && kids[i] == item
    requires replacement != null && replacement != item ==> replacement !in kids
    requires parent != null && item != null && replacement != null && replacement != item ==>
      Removable(hooks, parent, item, replacement, kids, below)
    modifies hooks`live, One(parent)`child, One(replacement)`next, One(replacement)`prev, kids`next, kids`prev
    ensures ok <==> parent != null && item != null && replacement != null
    ensures ok && replacement != item ==> Linked(parent, ReplaceAt(kids, i, replacement))
    ensures ok && replacement != item ==> hooks.live == old(hooks.live - BlocksOf(item, below))
    ensures !ok || replacement == item ==> hooks.live == old(hooks.live)
    ensures parent != null && item != null && (!ok || replacement == item) ==> Linked(parent, kids)
  {
    if parent == null || replacement == null || item == null {
      return false;
    }
    if replacement == item {
      return true;
    }
    hide Removable, BlocksOf, ReplaceAt, Linked;
    Substitute(hooks, parent, item, replacement, kids, i, below);
    return true;
  }

  method Substitute(hooks: Hooks, parent: Node, item: Node, replacement: Node, ghost kids: seq<Node>,
          ghost i: nat, ghost below: Forest)
    requires Linked(parent, kids) && i < |kids| && kids[i] == item && replacement !in kids
    requires Removable(hooks, parent, item, replacement, kids, below)
    modifies hooks`live, parent`child, replacement`next, replacement`prev, kids`next, kids`prev
    ensures Linked(parent, ReplaceAt(kids, i, replacement))
    ensures hooks.live == old(hooks.live - BlocksOf(item, below))
  {
    hide HasKids, Sole, BlocksOf, Members, ReplaceAt, Linked;
    assert allocated(Members(below));
    Relink(parent, item, replacement, kids, i);
    DeleteApart(hooks, item, below, parent, ReplaceAt(kids, i, replacement));
  }

  // Deleting an item that is in no list leaves every list alone.
  method DeleteApart(hooks: Hooks, item: Node, ghost below: Forest, ghost parent: Node, ghost kids: seq<Node>)
    requires HasKids(item, below) && Sole(item, below) && BlocksOf(item, below) <= hooks.live && item.next == null
    requires Linked(parent, kids)
    modifies hooks`live
    ensures hooks.live == old(hooks.live - BlocksOf(item, below)) && Linked(parent, kids)
  {
    hide HasKids, Separate, Blocks, Members, Spans, Linked;
    SingleSpans(item, below, null);
    SingleParts(item, below);
    Delete(hooks, item, Single(item, below));
  }

  // ---------- Detaching and deleting by index ----------

  method DetachItemFromArray(parent: Node?, which: int, ghost kids: seq<Node>) returns (detached: Node?)
    requires parent != null ==> Linked(parent, kids)
    modifies One(parent)`child, kids`next, kids`prev
    ensures detached == if parent == null || which < 0 then null else At(kids, which)
    ensures detached != null ==> Linked(parent, RemoveAt(kids, which)) && detached.next == null && detached.prev == null
    ensures detached == null && parent != null ==> Linked(parent, kids)
  {
    hide RemoveAt;
    if which < 0 {
      return null;
    }
    var item := GetArrayItem(parent, which, kids);
    detached := DetachItemViaPointer(parent, item, kids, which);
  }

  // The item at `which` has `below` below it and blocks of its own.
  method DeleteItemFromArray(hooks: Hooks, parent: Node?, which: int, ghost kids: seq<Node>, ghost below: Forest)
    requires parent != null ==> Linked(parent, kids)
    requires parent != null && 0 <= which < |kids| ==>
      Removable(hooks, parent, kids[which], kids[which], kids, below)
    modifies hooks`live, One(parent)`child, kids`next, kids`prev
    ensures parent != null ==>
      if 0 <= which < |kids| then Linked(parent, RemoveAt(kids, which)) else Linked(parent, kids)
    ensures hooks.live ==
      if parent != null && 0 <= which < |kids| then old(hooks.live - BlocksOf(kids[which], below)) else old(hooks.live)
  {
    hide RemoveAt, HasKids, Sole, BlocksOf, Members, Linked, Spans;
    assert allocated(Members(below));
    var item := DetachItemFromArray(parent, which, kids);
    if item != null {
      DeleteApart(hooks, item, below, parent, RemoveAt(kids, which));
    }
  }

  // ---------- Adding under a key ----------

  ghost function OwnedKey(item: Node): set<object>
    reads item`stringIsConst, item`key
  {
    if item.stringIsConst || item.key == null then {} else {item.key}
  }

  // The item's key has been freed.
  twostate predicate Dangles(hooks: Hooks, item: Node)
    reads hooks`live, item`key
  {
    item.key != null && item.key in old(hooks.live) && item.key !in hooks.live
  }

  // Takes the key as it is or copies it; the item's old key is freed only once the new
  // one is there. A constant key that is the item's own old key is freed all the same,
  // and then stored: it is the one case in which the item's key dangles afterwards.
  method SetKey(hooks: Hooks, item: Node, key: Chars, constantKey: bool) returns (ok: bool)
    requires OwnedKey(item) <= hooks.live
    modifies hooks, item`key, item`stringIsConst
    ensures hooks.requests == old(hooks.requests) + if constantKey then 0 else 1
    ensures ok <==> hooks.Granted(old(hooks.requests), hooks.requests)
    ensures !ok ==> hooks.live == old(hooks.live)
    ensures !ok ==> item.key == old(item.key) && item.stringIsConst == old(item.stringIsConst)
    ensures ok ==> item.key != null && item.key.text == key.text && item.stringIsConst == constantKey
    ensures ok ==> if constantKey then item.key == key else fresh(item.key)
    ensures ok ==> hooks.live == old(hooks.live - OwnedKey(item)) + OwnedKey(item)
    ensures ok ==> (Dangles(hooks, item) <==> constantKey && key in old(OwnedKey(item)))
  {
    var newKey: Chars? := key;
    if !constantKey {
      newKey := Strdup(hooks, key);
      if newKey == null {
        return false;
      }
    }
    if !item.stringIsConst && item.key != null {
      hooks.Deallocate(item.key);
    }
    item.key := newKey;
    item.stringIsConst := constantKey;
    return true;
  }

  method AddItemToObject(hooks: Hooks, parent: Node?, key: Chars?, item: Node?, constantKey: bool,
          ghost kids: seq<Node>)
    returns (ok: bool)
    requires parent != null ==> Linked(parent, kids)
    requires item != null && item != parent ==> item !in kids && item.next == null && OwnedKey(item) <= hooks.live
    modifies hooks, One(parent)`child, One(item)`key, One(item)`stringIsConst, One(item)`next, One(item)`prev
    modifies kids`next, kids`prev
    ensures old(hooks.requests) <= hooks.requests <= old(hooks.requests) + if constantKey then 0 else 1
    ensures ok <==>
      && parent != null && key != null && item != null && parent != item
      && hooks.Granted(old(hooks.requests), hooks.requests)
    ensures !ok ==> hooks.live == old(hooks.live) && (parent != null ==> Linked(parent, kids))
    ensures !ok && item != null ==> item.key == old(item.key) && item.stringIsConst == old(item.stringIsConst)
    ensures ok ==> Linked(parent, InsertAt(kids, |kids|, item))
    ensures ok ==> item.key != null && item.key.text == key.text && item.stringIsConst == constantKey
    ensures ok ==> if constantKey then item.key == key else fresh(item.key)
    ensures ok ==> hooks.live == old(hooks.live - OwnedKey(item)) + OwnedKey(item)
    ensures ok ==> (Dangles(hooks, item) <==> constantKey && key in old(OwnedKey(item)))
  {
    hide InsertAt, Linked, OwnedKey;
    if parent == null || key == null || item == null || parent == item {
      return false;
    }
    assert allocated(kids);
    ok := SetKey(hooks, item, key, constantKey);
    if ok {
      ok := AddItemToArray(parent, item, kids);
    }
  }

  // ---------- Building an array ----------

  function Numbers(ns: seq<Number>): (r: seq<Value>)
    ensures |r| == |ns| && forall k | 0 <= k < |ns| :: r[k] == Num(ns[k])
  {
    seq(|ns|, k requires 0 <= k < |ns| => Num(ns[k]))
  }

  method CreateNumber(hooks: Hooks, number: Number) returns (item: Node?)
    modifies hooks
    ensures hooks.requests == old(hooks.requests) + 1
    ensures item != null <==> hooks.Granted(old(hooks.requests), hooks.requests)
    ensures item == null ==> hooks.live == old(hooks.live)
    ensures item != null ==> fresh(item) && hooks.live == old(hooks.live) + {item}
    ensures item != null ==> item.next == null && item.prev == null && IsLeaf(item) && IsValue(item, End, Num(number))
  {
    item := NewItem(hooks);
    if item != null {
      item.kind := IsNumber;
      item.number := number;
    }
  }

  // An item with no string, no key and nothing below it.
  ghost predicate IsLeaf(item: Node)
    reads item`child, item`isReference, item`stringIsConst, item`valuestring, item`key
  {
    item.child == null && !item.isReference && !item.stringIsConst && item.valuestring == null && item.key == null
  }

  lemma LeafAlone(item: Node, v: Value)
    requires IsLeaf(item) && IsValue(item, End, v)
    ensures HasKids(item, End) && BothWays(End) && Separate(Single(item, End)) && Blocks(Single(item, End)) == {item}
    ensures AreItems(Single(item, End), [v]) && Members(Single(item, End)) == {item} && NoReference(Single(item, End))
  {}

  lemma NoNumbers(a: Node)
    requires a.child == null
    ensures Building(a.child, null, End, End) && Built(null, End, End) == End && AreItems(End, Numbers([]))
    ensures Members(End) == {} && Blocks(End) == {} && NoReference(End)
  {}

  lemma OneNumberMore(was: Forest, n: Node, ns: seq<Number>, i: nat)
    requires i < |ns| && AreItems(was, Numbers(ns[..i])) && NoReference(was) && IsLeaf(n) && IsValue(n, End, Num(ns[i]))
    ensures AreItems(Append(was, Single(n, End)), Numbers(ns[..i + 1]))
    ensures Members(Append(was, Single(n, End))) == Members(was) + {n} && NoReference(Append(was, Single(n, End)))
    ensures Blocks(Append(was, Single(n, End))) == Blocks(was) + {n}
  {
    hide AreItems, Append, Members, Blocks;
    LeafAlone(n, Num(ns[i]));
    AppendItems(was, Single(n, End), Numbers(ns[..i]), [Num(ns[i])]);
    AppendMembers(was, Single(n, End));
    AppendNoReference(was, Single(n, End));
    AppendBlocks(was, Single(n, End));
    assert Numbers(ns[..i + 1]) == Numbers(ns[..i]) + [Num(ns[i])];
  }

  // One round of the loop: a number, put behind the last one.
  method AppendNumber(hooks: Hooks, a: Node, numbers: seq<Number>, i: nat, p: Node?, ghost front: Forest,
          ghost built: Forest)
    returns (n: Node?, ghost before: Forest, ghost grown: Forest)
    requires i < |numbers| && !a.isReference && a !in Members(built)
    requires Building(a.child, p, front, End) && built == Built(p, front, End) && NoReference(built)
    requires AreItems(built, Numbers(numbers[..i]))
    modifies hooks, a`child, One(p)`next
    ensures hooks.requests == old(hooks.requests) + 1
    ensures n != null <==> hooks.Granted(old(hooks.requests), hooks.requests)
    ensures Building(a.child, if n == null then p else n, before, End)
    ensures grown == Built(if n == null then p else n, before, End) && NoReference(grown)
    ensures n == null ==> grown == built && hooks.live == old(hooks.live) && Blocks(grown) == old(Blocks(built))
    ensures n != null ==> fresh(n) && hooks.live == old(hooks.live) + {n}
    ensures n != null ==> Members(grown) == Members(built) + {n} && Blocks(grown) == old(Blocks(built)) + {n}
    ensures n != null ==> AreItems(grown, Numbers(numbers[..i + 1]))
  {
    hide *;
    NoMembers();
    before, grown := front, built;
    assert allocated(Members(built)) && allocated(Blocks(built)) && allocated(Members(front)) && allocated(One(p));
    n := CreateNumber(hooks, numbers[i]);
    if n != null {
      OneNumberMore(built, n, numbers, i);
      LeafAlone(n, Num(numbers[i]));
      IsOne(p);
      before := AttachChild(a, p, n, front, End, End);
      grown := Built(n, before, End);
    }
  }

  // The numbers one by one, each behind the last; `built` is what there is at the end.
  method AppendNumbers(hooks: Hooks, a: Node, numbers: seq<Number>, count: nat)
    returns (ok: bool, p: Node?, ghost front: Forest, ghost built: Forest)
    requires count <= |numbers| && a.child == null && !a.isReference
    modifies hooks, a`child
    ensures Building(a.child, p, front, End) && built == Built(p, front, End) && NoReference(built)
    ensures fresh(Members(built)) && fresh(Blocks(built)) && hooks.live == old(hooks.live) + Blocks(built)
    ensures old(hooks.requests) <= hooks.requests <= old(hooks.requests) + count
    ensures ok <==> hooks.Granted(old(hooks.requests), hooks.requests)
    ensures ok ==> AreItems(built, Numbers(numbers[..count])) && hooks.requests == old(hooks.requests) + count
  {
    hide *;
    ghost var start := hooks.requests;
    p, front, built := null, End, End;
    NoNumbers(a);
    NoRequests(hooks);
    var i := 0;
    while i < count
      invariant i <= count && Building(a.child, p, front, End) && built == Built(p, front, End) && NoReference(built)
      invariant fresh(Members(built)) && fresh(Blocks(built)) && hooks.live == old(hooks.live) + Blocks(built)
      invariant AreItems(built, Numbers(numbers[..i])) && (p != null ==> p in Members(built))
      invariant hooks.requests == start + i && hooks.Granted(start, hooks.requests)
    {
      var n: Node?;
      IsOne(p);
      n, front, built := AppendNumber(hooks, a, numbers, i, p, front, built);
      hooks.Joined(start, start + i, hooks.requests);
      if n == null {
        return false, p, front, built;
      }
      p, i := n, i + 1;
    }
    return true, p, front, built;
  }

  method CreateDoubleArray(hooks: Hooks, numbers: Option<seq<Number>>, count: int) returns (a: Node?,
          ghost kids: Forest)
    requires numbers.Some? ==> count <= |numbers.value|
    modifies hooks
    ensures old(hooks.requests) <= hooks.requests <= old(hooks.requests) + if count < 0 then 0 else count + 1
    ensures a != null <==> count >= 0 && numbers.Some? && hooks.Granted(old(hooks.requests), hooks.requests)
    ensures a == null ==> hooks.live == old(hooks.live)
    ensures a != null ==> Stands(a, kids, Array(Numbers(numbers.value[..count])))
    ensures a != null ==> HasKids(a, kids) && BothWays(kids) && Separate(Single(a, kids))
    ensures a != null ==> a.next == null && a.prev == null
    ensures a != null ==> fresh(a) && fresh(Blocks(Single(a, kids)))
    ensures a != null ==> hooks.live == old(hooks.live) + Blocks(Single(a, kids))
  {
    hide *;
    kids := End;
    if count < 0 || numbers.None? {
      return null, End;
    }
    a := NewItem(hooks);
    if a == null {
      return;
    }
    Childless(a);
    a.kind := IsArray;
    var ok, p;
    ghost var front;
    ghost var first := hooks.requests;
    ok, p, front, kids := AppendNumbers(hooks, a, numbers.value, count);
    hooks.Joined(old(hooks.requests), first, hooks.requests);
    AloneOwn(a);
    SingleParts(a, kids);
    if !ok {
      BuiltWhole(a.child, p, front, End);
      AsKids(a, kids);
      SingleSpans(a, kids, null);
      Delete(hooks, a, Single(a, kids));
      return null, End;
    }
    HeadIn(a.child, p, front, End);
    assert allocated(Members(kids));
    IsOne(a.child);
    Complete(a.child, p, front, End);
    AsKids(a, kids);
    SingleParts(a, kids);
    ArrayStands(a, kids, Numbers(numbers.value[..count]));
  }

  lemma ArrayStands(a: Node, kids: Forest, items: seq<Value>)
    requires a.kind == IsArray && AreItems(kids, items) && Spans(a.child, kids, null) && NoReference(kids)
    ensures Stands(a, kids, Array(items))
  {
    OwnedUnfolds(a.child, kids);
  }

  lemma AloneOwn(item: Node)
    requires item.valuestring == null && item.key == null
    ensures Own(item) == {item} && Unshared(item)
  {}
}
