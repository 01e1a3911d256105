/**
  What an array or object stands for after its list of children was edited: the edits on
  the items in memory are the same edits on the values.
  */
module Readings {
  import opened Text
  import opened Hooks
  import opened Nodes
  import opened Trees
  import opened Meanings
  import opened Values
  import opened Edits
  import opened Runs

  // What hangs below each item, and which member it stands for.
  datatype Reading = Reading(below: map<Node, Forest>, says: map<Node, Member>)

  ghost predicate Covers(r: Reading, nodes: set<Node>) {
    forall n | n in nodes :: n in r.below && n in r.says
  }

  // Every item of the pool is a tree of its own that can be read, and no list item
  // and not the parent lies below it.
  ghost predicate Readable(r: Reading, parent: Node, pool: set<Node>)
    requires Covers(r, pool)
    reads pool
    reads set n, m | n in pool && m in Members(r.below[n]) :: m
  {
    forall n | n in pool ::
      && Stands(n, r.below[n], r.says[n].value)
      && parent !in Members(r.below[n]) && Members(r.below[n]) !! pool
  }

  ghost predicate Keyed(r: Reading, pool: set<Node>)
    requires Covers(r, pool)
    reads pool
  {
    forall n | n in pool :: Holds(n.key, r.says[n].key)
  }

  // ---------- From children to the list that is read ----------

  ghost function Grown(r: Reading, ns: seq<Node>): Forest
    requires forall n | n in ns :: n in r.below
  {
    if ns == [] then End else Item(ns[0], r.below[ns[0]], Grown(r, ns[1..]))
  }

  ghost function Said(r: Reading, ns: seq<Node>): (ms: seq<Member>)
    requires forall n | n in ns :: n in r.says
    ensures |ms| == |ns|
  {
    seq(|ns|, k requires 0 <= k < |ns| => assert ns[k] in ns; r.says[ns[k]])
  }

  function ValuesOf(ms: seq<Member>): (vs: seq<Value>)
    ensures |vs| == |ms|
  {
    seq(|ms|, k requires 0 <= k < |ms| => ms[k].value)
  }

  lemma {:induction false} GrownReads(r: Reading, first: Node?, ns: seq<Node>)
    requires forall n | n in ns :: n in r.below && n in r.says
    requires NextLinks(first, ns) && forall n | n in ns :: Stands(n, r.below[n], r.says[n].value)
    ensures Unfolds(first, Grown(r, ns)) && AreItems(Grown(r, ns), ValuesOf(Said(r, ns)))
    decreases |ns|
  {
    hide IsValue;
    if ns != [] {
      GrownReads(r, ns[0].next, ns[1..]);
      assert ValuesOf(Said(r, ns))[1..] == ValuesOf(Said(r, ns[1..]));
    }
  }

  lemma {:induction false} GrownKeyed(r: Reading, ns: seq<Node>)
    requires forall n | n in ns :: n in r.below && n in r.says
    requires forall n | n in ns :: IsValue(n, r.below[n], r.says[n].value) && Holds(n.key, r.says[n].key)
    ensures AreMembers(Grown(r, ns), Said(r, ns))
    decreases |ns|
  {
    hide IsValue;
    if ns != [] {
      GrownKeyed(r, ns[1..]);
      assert Said(r, ns)[1..] == Said(r, ns[1..]);
    }
  }

  // ---------- Edits of values ----------

  predicate Known(r: Reading, e: Edit<Node>) { e.Detach? || e.item in r.says }

  function SaidEdit(r: Reading, e: Edit<Node>): Edit<Member>
    requires Known(r, e)
  {
    match e
    case Append(n) => Append(r.says[n])
    case Insert(w, n) => Insert(w, r.says[n])
    case Detach(w) => Detach(w)
    case Replace(w, n) => Replace(w, r.says[n])
  }

  function SaidEdits(r: Reading, edits: seq<Edit<Node>>): (es: seq<Edit<Member>>)
    requires forall e | e in edits :: Known(r, e)
    ensures |es| == |edits|
  {
    seq(|edits|, k requires 0 <= k < |edits| => assert edits[k] in edits; SaidEdit(r, edits[k]))
  }

  lemma SaidApplied(r: Reading, ns: seq<Node>, e: Edit<Node>)
    requires Known(r, e) && forall n | n in ns :: n in r.says
    ensures forall n | n in Applied(ns, e) :: n in r.says
    ensures Said(r, Applied(ns, e)) == Applied(Said(r, ns), SaidEdit(r, e))
  {
    forall n | n in Applied(ns, e) ensures n in r.says {
      assert n in ns || (!e.Detach? && n == e.item);
    }
  }

  lemma {:induction false} SaidAppliedAll(r: Reading, ns: seq<Node>, edits: seq<Edit<Node>>)
    requires (forall e | e in edits :: Known(r, e)) && forall n | n in ns :: n in r.says
    ensures forall n | n in AppliedAll(ns, edits) :: n in r.says
    ensures Said(r, AppliedAll(ns, edits)) == AppliedAll(Said(r, ns), SaidEdits(r, edits))
    decreases |edits|
  {
    hide Applied, Known;
    if edits != [] {
      SaidApplied(r, ns, edits[0]);
      assert forall e | e in edits[1..] :: e in edits;
      SaidAppliedAll(r, Applied(ns, edits[0]), edits[1..]);
      assert SaidEdits(r, edits)[1..] == SaidEdits(r, edits[1..]);
    }
  }

  // ---------- The edited list ----------

  function Listed(kind: Kind, ms: seq<Member>): Value {
    if kind == IsArray then Array(ValuesOf(ms)) else Object(ms)
  }

  ghost predicate Lists(parent: Node, r: Reading, pool: set<Node>)
    requires Covers(r, pool)
    reads parent`kind, pool
  {
    parent.kind == IsArray || (parent.kind == IsObject && Keyed(r, pool))
  }

  lemma ListReads(parent: Node, ns: seq<Node>, pool: set<Node>, r: Reading)
    requires Linked(parent, ns) && Among(ns) <= pool && Covers(r, pool)
    requires Readable(r, parent, pool) && Lists(parent, r, pool)
    ensures forall n | n in ns :: n in r.below && n in r.says
    ensures Stands(parent, Grown(r, ns), Listed(parent.kind, Said(r, ns)))
  {
    forall n | n in ns ensures n in pool { assert n in Among(ns); }
    GrownReads(r, parent.child, ns);
    if parent.kind == IsObject { GrownKeyed(r, ns); }
  }

  lemma {:induction false} ProperKnown(r: Reading, ns: seq<Node>, edits: seq<Edit<Node>>, pool: set<Node>)
    requires ProperAll(ns, edits, pool) && Covers(r, pool)
    ensures forall e | e in edits :: Known(r, e)
    decreases |edits|
  {
    hide Applied;
    if edits != [] {
      ProperKnown(r, Applied(ns, edits[0]), edits[1..], pool);
      forall e | e in edits ensures Known(r, e) { assert e == edits[0] || e in edits[1..]; }
    }
  }

  // After any run of edits the array or object can be read, and it stands for what the
  // same edits make of the values.
  method RunRead(parent: Node, edits: seq<Edit<Node>>, ghost ns: seq<Node>, ghost pool: set<Node>, ghost r: Reading)
    requires Linked(parent, ns) && ProperAll(ns, edits, pool) && parent !in pool && Pooled(ns, pool)
    requires Among(ns) <= pool && Covers(r, pool) && Readable(r, parent, pool) && Lists(parent, r, pool)
    modifies parent`child, pool`next, pool`prev
    ensures forall e | e in edits :: Known(r, e)
    ensures forall n | n in ns || n in AppliedAll(ns, edits) :: n in r.below && n in r.says
    ensures old(Stands(parent, Grown(r, ns), Listed(parent.kind, Said(r, ns))))
    ensures Stands(parent, Grown(r, AppliedAll(ns, edits)),
              Listed(parent.kind, AppliedAll(Said(r, ns), SaidEdits(r, edits))))
  {
    hide Linked, ProperAll, Pooled, Stands, Members, Grown, Said, SaidEdits, Listed, AppliedAll, Known;
    ListReads(parent, ns, pool, r);
    ProperKnown(r, ns, edits, pool);
    SaidAppliedAll(r, ns, edits);
    assert forall n | n in pool :: allocated(Members(r.below[n]));
    Run(parent, edits, ns, pool);
    forall n | n in pool ensures Stands(n, r.below[n], r.says[n].value) {}
    ListReads(parent, AppliedAll(ns, edits), pool, r);
  }

  // The reading in which the item has got another key.
  ghost function Renamed(r: Reading, item: Node, key: CString): Reading
    requires item in r.says
  {
    r.(says := r.says[item := Member(key, r.says[item].value)])
  }

  // What goes into an object under a key is its last member.
  method AddRead(hooks: Hooks, parent: Node, key: Chars, item: Node, constantKey: bool, ghost ns: seq<Node>,
          ghost r: Reading) returns (ok: bool)
    requires Linked(parent, ns) && item !in ns && item.next == null && OwnedKey(item) <= hooks.live
    requires parent.kind == IsObject && parent !in ns && parent != item && Covers(r, Among(ns) + {item})
    requires Readable(r, parent, Among(ns) + {item}) && Keyed(r, Among(ns))
    modifies hooks, parent`child, item`key, item`stringIsConst, item`next, item`prev, ns`next, ns`prev
    ensures ok <==> hooks.Granted(old(hooks.requests), hooks.requests)
    ensures forall n | n in ns :: n in r.says
    ensures ok ==> Stands(parent, Grown(r, ns + [item]), Object(Said(r, ns) + [Member(key.text, r.says[item].value)]))
  {
    hide Linked, Stands, Members, Grown, Said, OwnedKey, InsertAt;
    ghost var pool, renamed := Among(ns) + {item}, Renamed(r, item, key.text);
    assert forall n | n in pool :: allocated(Members(r.below[n]));
    assert forall n | n in ns :: n in pool;
    ok := AddItemToObject(hooks, parent, key, item, constantKey, ns);
    if ok {
      forall n | n in pool ensures Stands(n, r.below[n], r.says[n].value) {}
      AppliedIs(ns, Append(item));
      SameGrown(r, renamed, ns + [item]);
      SaidRenamed(r, ns, item, key.text);
      ListReads(parent, ns + [item], pool, renamed);
    }
  }

  lemma {:induction false} SameGrown(r: Reading, q: Reading, ns: seq<Node>)
    requires r.below == q.below && forall n | n in ns :: n in r.below
    ensures Grown(r, ns) == Grown(q, ns)
  {
    if ns != [] { SameGrown(r, q, ns[1..]); }
  }

  lemma SaidRenamed(r: Reading, ns: seq<Node>, item: Node, key: CString)
    requires item in r.says && item !in ns && forall n | n in ns :: n in r.says
    ensures Said(Renamed(r, item, key), ns + [item]) == Said(r, ns) + [Member(key, r.says[item].value)]
  {
    forall k | 0 <= k < |ns| ensures ns[k] != item {}
  }
}
