/**
  cJSON_Duplicate: a copy of an item, with or without its descendants, made of fresh
  blocks only; nothing stays behind when an allocation is refused.
  */
module Copies {
  import opened Hooks
  import opened Nodes
  import opened Trees
  import opened Lists
  import opened Values
  import opened Meanings

  // ---------- Allocation of items and strings ----------

  method NewItem(hooks: Hooks) returns (item: Node?)
    modifies hooks
    ensures hooks.requests == old(hooks.requests) + 1
    ensures item != null <==> hooks.Granted(old(hooks.requests), hooks.requests)
    ensures item == null ==> hooks.live == old(hooks.live)
    ensures item != null ==> fresh(item) && hooks.live == old(hooks.live) + {item}
    ensures item != null ==> item.next == null && item.prev == null && item.child == null && Blank(item)
  {
    item := null;
    var granted := hooks.Request();
    if granted {
      item := new Node();
      hooks.Adopt(item);
    }
  }

  // An item as cJSON_New_Item leaves it owns nothing but itself.
  ghost predicate Blank(item: Node)
    reads item`kind, item`isReference, item`stringIsConst, item`valuestring, item`key
  {
    item.kind == Invalid && !item.isReference && !item.stringIsConst && item.valuestring == null && item.key == null
  }

  lemma Childless(n: Node)
    requires n.child == null && n.next == null
    ensures HasKids(n, End) && Spans(n, Single(n, End), null)
    ensures Blocks(Single(n, End)) == Own(n) && (Separate(Single(n, End)) <==> Unshared(n)) && BothWays(End)
  {}

  method Strdup(hooks: Hooks, s: Chars?) returns (copy: Chars?)
    modifies hooks
    ensures hooks.requests == old(hooks.requests) + if s == null then 0 else 1
    ensures copy != null <==> s != null && hooks.Granted(old(hooks.requests), hooks.requests)
    ensures copy == null ==> hooks.live == old(hooks.live)
    ensures copy != null ==> fresh(copy) && copy.text == s.text && hooks.live == old(hooks.live) + {copy}
  {
    copy := null;
    if s == null {
      return;
    }
    var granted := hooks.Request();
    if granted {
      copy := new Chars(s.text);
      hooks.Adopt(copy);
    }
  }

  // ---------- What is copied ----------

  ghost predicate SameText(a: Chars?, b: Chars?) {
    if a == null || b == null then a == b else a.text == b.text
  }

  // `m` says what `n` says; the reference flag is cleared, a constant key is shared.
  ghost predicate Alike(n: Node, m: Node)
    reads n`kind, n`number, n`valuestring, n`key, n`stringIsConst
    reads m`kind, m`number, m`valuestring, m`key, m`stringIsConst, m`isReference
  {
    && m.kind == n.kind && m.number == n.number && SameText(n.valuestring, m.valuestring)
    && m.stringIsConst == n.stringIsConst && SameText(n.key, m.key) && (n.stringIsConst ==> m.key == n.key)
    && !m.isReference
  }

  ghost predicate Mirrors(f: Forest, g: Forest)
    reads Members(f)`kind, Members(f)`number, Members(f)`valuestring, Members(f)`key, Members(f)`stringIsConst
    reads Members(g)`kind, Members(g)`number, Members(g)`valuestring, Members(g)`key, Members(g)`stringIsConst
    reads Members(g)`isReference
  {
    match f
    case End => g == End
    case Item(n, k, r) => g.Item? && Alike(n, g.node) && Mirrors(k, g.kids) && Mirrors(r, g.rest)
  }

  lemma {:induction false} AppendMirrors(f: Forest, g: Forest, x: Forest, y: Forest)
    requires Mirrors(f, g) && Mirrors(x, y)
    ensures Mirrors(Append(f, x), Append(g, y))
  {
    hide Alike;
    if f.Item? { AppendMirrors(f.rest, g.rest, x, y); }
  }

  lemma {:induction false} AppendTwice(f: Forest, g: Forest, h: Forest)
    ensures Append(Append(f, g), h) == Append(f, Append(g, h))
  {
    if f.Item? { AppendTwice(f.rest, g, h); }
  }

  // ---------- The copy ----------

  // The item's own texts. When one cannot be copied, the other may already have been.
  method CopyTexts(hooks: Hooks, item: Node, newitem: Node) returns (ok: bool)
    requires Blank(newitem) || (!newitem.isReference && newitem.valuestring == null && newitem.key == null)
    requires newitem.stringIsConst == item.stringIsConst && newitem != item
    modifies hooks, newitem`valuestring, newitem`key
    ensures Unshared(newitem) && fresh(OwnTexts(newitem)) && hooks.live == old(hooks.live) + OwnTexts(newitem)
    ensures old(hooks.requests) <= hooks.requests <= old(hooks.requests) + 2
    ensures ok <==> hooks.Granted(old(hooks.requests), hooks.requests)
    ensures ok ==> SameText(item.valuestring, newitem.valuestring) && SameText(item.key, newitem.key)
    ensures ok && item.stringIsConst ==> newitem.key == item.key
  {
    if item.valuestring != null {
      newitem.valuestring := Strdup(hooks, item.valuestring);
      if newitem.valuestring == null {
        return false;
      }
    }
    if item.key != null {
      if item.stringIsConst {
        newitem.key := item.key;
      } else {
        newitem.key := Strdup(hooks, item.key);
      }
      if newitem.key == null {
        return false;
      }
    }
    return true;
  }

  // One child: a copy of it, put behind the copies made so far.
  method DuplicateChild(hooks: Hooks, child: Node, newitem: Node, next: Node?, ghost left: Forest,
          ghost front: Forest, ghost below: Forest)
    returns (newchild: Node?, ghost before: Forest, ghost grown: Forest)
    requires left.Item? && left.node == child && Unfolds(child.child, left.kids) && newitem !in Members(left.kids)
    requires Building(newitem.child, next, front, below) && newitem !in Members(Built(next, front, below))
    modifies hooks, newitem`child, One(next)`next
    ensures newchild == null ==> before == front && grown == below && Building(newitem.child, next, front, below)
    ensures old(hooks.requests) <= hooks.requests <= old(hooks.requests) + 3 * (1 + Size(left.kids))
    ensures newchild != null <==> hooks.Granted(old(hooks.requests), hooks.requests)
    ensures newchild == null ==> hooks.live == old(hooks.live)
    ensures newchild != null ==> before == Built(next, front, below) && Building(newitem.child, newchild, before, grown)
    ensures newchild != null ==> Alike(child, newchild) && Mirrors(left.kids, grown)
    ensures newchild != null ==> fresh(newchild) && fresh(Members(grown)) && fresh(Blocks(Single(newchild, grown)))
    ensures newchild != null ==> hooks.live == old(hooks.live) + Blocks(Single(newchild, grown))
    decreases Size(left.kids), 2
  {
    hide *;
    before, grown := front, below;
    assert allocated(Members(left.kids)) && allocated(Members(front)) && allocated(Members(below));
    assert allocated(Members(Built(next, front, below))) && allocated(Blocks(Built(next, front, below)));
    assert allocated(One(next));
    newchild, grown := Duplicate(hooks, child, true, left.kids);
    if newchild == null {
      grown := below;
      return;
    }
    assert allocated(Members(grown));
    SingleParts(newchild, grown);
    before := AttachChild(newitem, next, newchild, front, below, grown);
  }

  // The children one by one, each behind the last; `copied` is what there is when the
  // loop ends or gives up.
  method DuplicateChildren(hooks: Hooks, item: Node, newitem: Node, ghost kids: Forest) returns (ok: bool,
          ghost copied: Forest)
    requires Unfolds(item.child, kids) && newitem !in Members(kids)
    requires newitem.child == null && !newitem.isReference
    modifies hooks, newitem`child
    ensures HasKids(newitem, copied) && Separate(copied) && fresh(Members(copied)) && fresh(Blocks(copied))
    ensures hooks.live == old(hooks.live) + Blocks(copied)
    ensures old(hooks.requests) <= hooks.requests <= old(hooks.requests) + 3 * Size(kids)
    ensures ok <==> hooks.Granted(old(hooks.requests), hooks.requests)
    ensures ok ==> Mirrors(kids, copied) && BothWays(copied)
    decreases Size(kids), 0
  {
    hide *;
    var child, next: Node? := item.child, null;
    ghost var front, below, done, left := End, End, End, kids;
    ghost var start := hooks.requests;
    copied := End;
    StartCopy(newitem);
    NoRequests(hooks);
    assert allocated(Members(kids));
    while child != null
      invariant Unfolds(child, left) && Append(done, left) == kids
      invariant Size(left) <= Size(kids) && Members(left) <= Members(kids)
      invariant Building(newitem.child, next, front, below) && copied == Built(next, front, below)
      invariant Mirrors(done, copied) && fresh(Members(copied)) && fresh(Blocks(copied))
      invariant next != null ==> next in Members(copied)
      invariant hooks.live == old(hooks.live) + Blocks(copied)
      invariant start <= hooks.requests && hooks.Granted(start, hooks.requests)
      invariant hooks.requests + 3 * Size(left) <= start + 3 * Size(kids)
      decreases Size(left)
    {
      FirstChild(child, left);
      IsOne(next);
      assert next != null ==> next !in Members(kids);
      assert allocated(Members(copied)) && allocated(Members(done));
      assert allocated(Members(left)) && allocated(Members(left.rest));
      var newchild: Node?;
      ghost var grown;
      ghost var before := hooks.requests;
      newchild, front, grown := DuplicateChild(hooks, child, newitem, next, left, front, below);
      hooks.Joined(start, before, hooks.requests);
      if newchild == null {
        BuiltWhole(newitem.child, next, front, below);
        AsKids(newitem, copied);
        return false, copied;
      }
      CopiedOne(child, left, newchild, grown, done, copied);
      next, below := newchild, grown;
      done, left := Append(done, Single(child, left.kids)), left.rest;
      child := child.next;
      BuiltLast(next, front, below);
      copied := Built(next, front, below);
    }
    LastChild(left, done);
    HeadIn(newitem.child, next, front, below);
    assert allocated(Members(copied)) && allocated(Members(kids));
    IsOne(newitem.child);
    Complete(newitem.child, next, front, below);
    AsKids(newitem, copied);
    return true, copied;
  }

  lemma NoRequests(hooks: Hooks)
    ensures hooks.Granted(hooks.requests, hooks.requests)
  {}

  lemma StartCopy(newitem: Node)
    requires newitem.child == null && !newitem.isReference
    ensures Building(newitem.child, null, End, End) && Built(null, End, End) == End
    ensures Mirrors(End, End) && Blocks(End) == {} && Members(End) == {} && forall f :: Append(End, f) == f
  {}

  // The copy of a child goes behind the copies made so far.
  method AttachChild(newitem: Node, next: Node?, newchild: Node, ghost front: Forest, ghost below: Forest,
          ghost grown: Forest)
    returns (ghost before: Forest)
    requires Building(newitem.child, next, front, below) && newitem !in Members(Built(next, front, below))
    requires newchild.next == null && HasKids(newchild, grown) && BothWays(grown) && Separate(Single(newchild, grown))
    requires Blocks(Built(next, front, below)) !! Blocks(Single(newchild, grown))
    requires newitem !in Members(Single(newchild, grown))
    modifies newitem`child, One(next)`next, newchild`prev
    ensures before == Built(next, front, below) && Building(newitem.child, newchild, before, grown)
    ensures Built(newchild, before, grown) == Append(before, Single(newchild, grown))
  {
    hide Building, Built, Members, Blocks, Separate, HasKids, BothWays;
    var head: Node;
    head, before := Attach(newitem.child, next, newchild, front, below, grown);
    SingleParts(newchild, grown);
    assert newitem !in One(newchild) && newitem !in Members(before) && newitem !in Members(grown);
    newitem.child := head;
    BuiltLast(newchild, before, grown);
  }

  lemma CopiedOne(child: Node, left: Forest, newchild: Node, grown: Forest, done: Forest, copied: Forest)
    requires left.Item? && left.node == child && Alike(child, newchild)
    requires Mirrors(left.kids, grown) && Mirrors(done, copied)
    ensures Mirrors(Append(done, Single(child, left.kids)), Append(copied, Single(newchild, grown)))
    ensures Append(Append(done, Single(child, left.kids)), left.rest) == Append(done, left)
    ensures Members(Append(copied, Single(newchild, grown))) == Members(copied) + {newchild} + Members(grown)
    ensures Blocks(Append(copied, Single(newchild, grown))) == Blocks(copied) + Blocks(Single(newchild, grown))
  {
    hide Alike, Blocks;
    assert Mirrors(End, End) && Members(End) == {} && Append(End, left.rest) == left.rest;
    AppendMirrors(done, copied, Single(child, left.kids), Single(newchild, grown));
    AppendTwice(done, Single(child, left.kids), left.rest);
    AppendMembers(copied, Single(newchild, grown));
    AppendBlocks(copied, Single(newchild, grown));
  }

  lemma AsKids(n: Node, kids: Forest)
    requires !n.isReference && Spans(n.child, kids, null)
    ensures HasKids(n, kids)
  {}

  lemma {:induction false} LastChild(left: Forest, done: Forest)
    requires Unfolds(null, left)
    ensures left == End && Append(done, End) == done
  {
    if done.Item? { LastChild(left, done.rest); }
  }

  // The item alone, before its children.
  method CopyItem(hooks: Hooks, item: Node) returns (newitem: Node?, ok: bool)
    modifies hooks
    ensures newitem == null ==> hooks.live == old(hooks.live)
    ensures newitem != null ==> newitem.next == null && newitem.prev == null
    ensures newitem != null ==> newitem.child == null && !newitem.isReference
    ensures newitem != null ==> fresh(newitem) && fresh(Own(newitem)) && Unshared(newitem)
    ensures newitem != null ==> hooks.live == old(hooks.live) + Own(newitem)
    ensures old(hooks.requests) <= hooks.requests <= old(hooks.requests) + 3
    ensures ok <==> hooks.Granted(old(hooks.requests), hooks.requests)
    ensures ok ==> newitem != null && Alike(item, newitem)
  {
    newitem := NewItem(hooks);
    if newitem == null {
      return newitem, false;
    }
    newitem.kind, newitem.stringIsConst, newitem.number := item.kind, item.stringIsConst, item.number;
    ok := CopyTexts(hooks, item, newitem);
  }

  method Duplicate(hooks: Hooks, item: Node?, recurse: bool, ghost kids: Forest)
    returns (newitem: Node?, ghost copied: Forest)
    requires item != null && recurse ==> Unfolds(item.child, kids)
    modifies hooks
    ensures old(hooks.requests) <= hooks.requests
    ensures hooks.requests <= old(hooks.requests) + 3 * (1 + if recurse then Size(kids) else 0)
    ensures newitem != null <==> item != null && hooks.Granted(old(hooks.requests), hooks.requests)
    ensures newitem == null ==> hooks.live == old(hooks.live)
    ensures newitem != null ==> item != null && Alike(item, newitem) && newitem.next == null && newitem.prev == null
    ensures newitem != null ==> if recurse then Mirrors(kids, copied) else copied == End
    ensures newitem != null ==> HasKids(newitem, copied) && BothWays(copied) && Separate(Single(newitem, copied))
    ensures newitem != null ==> fresh(newitem) && fresh(Members(copied)) && fresh(Blocks(Single(newitem, copied)))
    ensures newitem != null ==> hooks.live == old(hooks.live) + Blocks(Single(newitem, copied))
    decreases Size(kids), 1
  {
    hide Spans, HasKids, Unfolds, Mirrors, Blocks, Members, BothWays, Separate, Size, Alike, Own;
    copied := End;
    if item == null {
      return null, End;
    }
    assert allocated(Members(kids));
    var ok;
    newitem, ok := CopyItem(hooks, item);
    if newitem == null {
      return;
    }
    NoMembers();
    Childless(newitem);
    if ok && recurse {
      ok, copied := DuplicateChildren(hooks, item, newitem, kids);
    }
    SingleParts(newitem, copied);
    if !ok {
      SingleSpans(newitem, copied, null);
      Delete(hooks, newitem, Single(newitem, copied));
      return null, End;
    }
  }

  // ---------- What the copy means ----------

  // A copy stands for the value of the original.
  lemma {:induction false} CopyMeans(n: Node, k: Forest, m: Node, g: Forest, v: Value)
    requires Alike(n, m) && Mirrors(k, g) && IsValue(n, k, v)
    ensures IsValue(m, g, v)
    decreases k, 1
  {
    match v
    case Array(items) => CopyItems(k, g, items);
    case Object(members) => CopyMembers(k, g, members);
    case _ =>
  }

  lemma {:induction false} CopyItems(k: Forest, g: Forest, items: seq<Value>)
    requires Mirrors(k, g) && AreItems(k, items)
    ensures AreItems(g, items)
    decreases k, 0
  {
    hide Alike, IsValue;
    if k.Item? {
      CopyMeans(k.node, k.kids, g.node, g.kids, items[0]);
      CopyItems(k.rest, g.rest, items[1..]);
    }
  }

  lemma {:induction false} CopyMembers(k: Forest, g: Forest, members: seq<Member>)
    requires Mirrors(k, g) && AreMembers(k, members)
    ensures AreMembers(g, members)
    decreases k, 0
  {
    hide IsValue;
    if k.Item? {
      CopyMeans(k.node, k.kids, g.node, g.kids, members[0].value);
      CopyMembers(k.rest, g.rest, members[1..]);
    }
  }

  // A copy can be read, printed and compared like the original.
  lemma CopyStands(n: Node, k: Forest, m: Node, g: Forest, v: Value)
    requires Alike(n, m) && Mirrors(k, g) && IsValue(n, k, v) && HasKids(m, g)
    ensures Stands(m, g, v)
  {
    CopyMeans(n, k, m, g, v);
    CopyNoReference(k, g);
    OwnedUnfolds(m.child, g);
  }

  lemma {:induction false} CopyNoReference(k: Forest, g: Forest)
    requires Mirrors(k, g)
    ensures NoReference(g)
  {
    if k.Item? {
      CopyNoReference(k.kids, g.kids);
      CopyNoReference(k.rest, g.rest);
    }
  }
}
