/**
  The value an item in memory stands for.
  */
module Meanings {
  import opened Nodes
  import opened Trees
  import opened Values

  ghost predicate Holds(c: Chars?, s: string) { c != null && c.text == s }

  // The item with `kids` below it stands for `v`.
  ghost predicate IsValue(n: Node, kids: Forest, v: Value)
    reads n`kind, n`valuestring, n`number
    reads Members(kids)`kind, Members(kids)`valuestring, Members(kids)`number, Members(kids)`key
    decreases kids, 1
  {
    match v
    case Null => n.kind == IsNull
    case False => n.kind == IsFalse
    case True => n.kind == IsTrue
    case Num(d) => n.kind == IsNumber && n.number == d
    case Str(s) => n.kind == IsString && Holds(n.valuestring, s)
    case Raw(s) => n.kind == IsRaw && Holds(n.valuestring, s)
    case NoValue => n.kind == Invalid
    case Array(items) => n.kind == IsArray && AreItems(kids, items)
    case Object(members) => n.kind == IsObject && AreMembers(kids, members)
  }

  ghost predicate AreItems(f: Forest, items: seq<Value>)
    reads Members(f)`kind, Members(f)`valuestring, Members(f)`number, Members(f)`key
    decreases f, 0
  {
    match f
    case End => items == []
    case Item(n, k, r) => items != [] && IsValue(n, k, items[0]) && AreItems(r, items[1..])
  }

  ghost predicate AreMembers(f: Forest, members: seq<Member>)
    reads Members(f)`kind, Members(f)`valuestring, Members(f)`number, Members(f)`key
    decreases f, 0
  {
    match f
    case End => members == []
    case Item(n, k, r) =>
      members != [] && Holds(n.key, members[0].key) && IsValue(n, k, members[0].value) && AreMembers(r, members[1..])
  }

  // A reader that follows `child` and `next` finds the value.
  ghost predicate Stands(n: Node, kids: Forest, v: Value)
    reads n`kind, n`valuestring, n`number, n`child
    reads Members(kids)`kind, Members(kids)`valuestring, Members(kids)`number, Members(kids)`key
    reads Members(kids)`next, Members(kids)`child
  {
    IsValue(n, kids, v) && Unfolds(n.child, kids)
  }

  // The rest of a list while it is walked: `current` is child `i`.
  ghost predicate AtItem(current: Node?, rest: Forest, items: seq<Value>, i: nat)
    reads Members(rest)`kind, Members(rest)`valuestring, Members(rest)`number, Members(rest)`key
    reads Members(rest)`next, Members(rest)`child
  {
    i <= |items| && Unfolds(current, rest) && AreItems(rest, items[i..])
  }

  lemma StepItem(current: Node?, rest: Forest, items: seq<Value>, i: nat)
    requires AtItem(current, rest, items, i)
    ensures current == null <==> i == |items|
    ensures current != null ==> (
      && rest.Item? && rest.node == current && Stands(current, rest.kids, items[i])
      && AtItem(current.next, rest.rest, items, i + 1) && Size(rest.kids) < Size(rest) && Size(rest.rest) < Size(rest)
      && (current.next == null <==> i + 1 == |items|))
  {}

  lemma StartItems(first: Node?, kids: Forest, items: seq<Value>)
    requires Unfolds(first, kids) && AreItems(kids, items)
    ensures AtItem(first, kids, items, 0)
  {}

  lemma StartMembers(first: Node?, kids: Forest, members: seq<Member>)
    requires Unfolds(first, kids) && AreMembers(kids, members)
    ensures AtMember(first, kids, members, 0)
  {}

  ghost predicate AtMember(current: Node?, rest: Forest, members: seq<Member>, i: nat)
    reads Members(rest)`kind, Members(rest)`valuestring, Members(rest)`number, Members(rest)`key
    reads Members(rest)`next, Members(rest)`child
  {
    i <= |members| && Unfolds(current, rest) && AreMembers(rest, members[i..])
  }

  lemma StepMember(current: Node?, rest: Forest, members: seq<Member>, i: nat)
    requires AtMember(current, rest, members, i)
    ensures current == null <==> i == |members|
    ensures current != null ==> (
      && rest.Item? && rest.node == current && Holds(current.key, members[i].key)
      && Stands(current, rest.kids, members[i].value)
      && AtMember(current.next, rest.rest, members, i + 1)
      && Size(rest.kids) < Size(rest) && Size(rest.rest) < Size(rest)
      && (current.next == null <==> i + 1 == |members|))
  {}

  // An item stands for at most one value.
  lemma {:induction false} ValueUnique(n: Node, kids: Forest, v: Value, w: Value)
    requires IsValue(n, kids, v) && IsValue(n, kids, w)
    ensures v == w
    decreases kids, 1
  {
    match v
    case Array(items) => ItemsUnique(kids, items, w.items);
    case Object(members) => MembersUnique(kids, members, w.members);
    case _ =>
  }

  lemma {:induction false} ItemsUnique(f: Forest, items: seq<Value>, others: seq<Value>)
    requires AreItems(f, items) && AreItems(f, others)
    ensures items == others
    decreases f, 0
  {
    hide IsValue;
    if f.Item? {
      ValueUnique(f.node, f.kids, items[0], others[0]);
      ItemsUnique(f.rest, items[1..], others[1..]);
      assert items == [items[0]] + items[1..] && others == [others[0]] + others[1..];
    }
  }

  lemma {:induction false} MembersUnique(f: Forest, members: seq<Member>, others: seq<Member>)
    requires AreMembers(f, members) && AreMembers(f, others)
    ensures members == others
    decreases f, 0
  {
    hide IsValue;
    if f.Item? {
      ValueUnique(f.node, f.kids, members[0].value, others[0].value);
      MembersUnique(f.rest, members[1..], others[1..]);
      assert members == [members[0]] + members[1..] && others == [others[0]] + others[1..];
    }
  }

  lemma {:induction false} AppendItems(f: Forest, g: Forest, items: seq<Value>, others: seq<Value>)
    requires AreItems(f, items) && AreItems(g, others)
    ensures AreItems(Append(f, g), items + others)
  {
    hide IsValue;
    if f.Item? {
      AppendItems(f.rest, g, items[1..], others);
      assert (items + others)[1..] == items[1..] + others;
    } else {
      assert items + others == others;
    }
  }

  lemma {:induction false} AppendObjects(f: Forest, g: Forest, members: seq<Member>, others: seq<Member>)
    requires AreMembers(f, members) && AreMembers(g, others)
    ensures AreMembers(Append(f, g), members + others)
  {
    hide IsValue;
    if f.Item? {
      AppendObjects(f.rest, g, members[1..], others);
      assert (members + others)[1..] == members[1..] + others;
    } else {
      assert members + others == others;
    }
  }
}
