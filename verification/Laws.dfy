/**
  What a client sees when it combines the operations on items in memory: copying then
  comparing, and printing then parsing.
  */
module Laws {
  import opened Text
  import opened Hooks
  import opened Values
  import opened Nodes
  import opened Trees
  import opened Lists
  import opened Meanings
  import Copies
  import Compare
  import Parser
  import Parsing
  import Printing
  import RoundTrip

  // The copy compares equal to the original exactly when members with the same key mean
  // the same in every object of the tree; unique keys are enough.
  method CopyThenCompare(hooks: Hooks, item: Node, caseSensitive: bool, ghost kids: Forest, ghost v: Value)
    returns (copy: Node?, same: bool)
    requires Stands(item, kids, v)
    modifies hooks
    ensures copy != null <==> hooks.Granted(old(hooks.requests), hooks.requests)
    ensures copy == null ==> hooks.live == old(hooks.live)
    ensures copy != null ==> fresh(copy) && (same <==> Compare.Coherent(v, caseSensitive))
    ensures copy != null && Compare.UniqueKeys(v, caseSensitive) ==> same
  {
    hide Stands, IsValue, Members, Compare.Same, Compare.Coherent, Compare.UniqueKeys, Copies.Alike, Copies.Mirrors;
    ghost var copied;
    same := false;
    assert allocated(Members(kids));
    Readable(item, kids, v);
    copy, copied := Copies.Duplicate(hooks, item, true, kids);
    if copy == null {
      return;
    }
    Readable(item, kids, v);
    Copies.CopyStands(item, kids, copy, copied, v);
    assert {item} + Members(kids) !! {copy} + Members(copied);
    same := Compare.CompareItems(item, copy, caseSensitive, kids, copied, v, v);
    Compare.SameIsEquivalence(v, v, v, caseSensitive);
  }

  lemma Readable(item: Node, kids: Forest, v: Value)
    requires Stands(item, kids, v)
    ensures IsValue(item, kids, v) && Unfolds(item.child, kids)
  {}

  // A tree of JSON's own types whose numbers can be printed comes back as the same value,
  // unless it nests deeper than the parser goes; and no block is left over but the new
  // tree's. Numbers that C keeps exactly can always be printed.
  method PrintThenParse(hooks: Hooks, item: Node, format: bool, ghost kids: Forest, ghost v: Value)
    returns (again: Node?, ghost below: Forest)
    requires Stands(item, kids, v) && Standard(v)
    modifies hooks
    ensures again == null ==> hooks.live == old(hooks.live)
    ensures again != null ==> Stands(again, below, v) && Height(v) <= 1000 && fresh(again)
    ensures again != null ==> hooks.live == old(hooks.live) + Blocks(Single(again, below))
    ensures again != null <==>
      && Printable(v) && |Render(v, format, 0)| + 2 <= 0x7FFF_FFFF && Height(v) <= 1000
      && hooks.Granted(old(hooks.requests), hooks.requests)
    ensures AllPrecise(v) ==> (again != null <==>
              && |Render(v, format, 0)| + 2 <= 0x7FFF_FFFF && Height(v) <= 1000
              && hooks.Granted(old(hooks.requests), hooks.requests))
  {
    hide Stands, Render, Standard, Printable, AllPrecise, Height, Members, Blocks, Parsing.ParseText, Parser.Sound;
    again, below := null, End;
    if AllPrecise(v) { PreciseIsPrintable(v); }
    var printed := Printing.Print(item, format, hooks, kids, v);
    if printed == null {
      return;
    }
    RoundTrip.ParseInvertsPrint(v, format);
    Parser.CutInFront(printed[..], Render(v, format, 0));
    var parseEnd;
    ghost var w;
    again, parseEnd, below, w := Parser.ParseWithOpts(hooks, CutAtNul(printed[..]), true);
    if again != null {
      assert allocated(Members(below)) && allocated(Members(Single(again, below)));
    }
    hooks.Deallocate(printed);
  }
}
