/**
  The memory functions behind `internal_hooks`. Which requests succeed is an arbitrary
  pattern, fixed before the run; `live` is the set of blocks handed out and not yet
  given back, and `moved` counts the bytes copied from block to block.
  */
module Hooks {

  const INT_MAX := 0x7FFF_FFFF

  function Min(a: nat, b: nat): nat { if a < b then a else b }

  class Hooks {
    const reallocates: bool
    const grants: nat -> bool
    var requests: nat
    ghost var moved: nat
    ghost var live: set<object>

    constructor (reallocates: bool, grants: nat -> bool)
      ensures this.reallocates == reallocates && this.grants == grants
      ensures requests == 0 && moved == 0 && live == {}
    {
      this.reallocates, this.grants := reallocates, grants;
      requests, moved, live := 0, 0, {};
    }

    // Every request from number `from` up to number `to` is granted.
    ghost predicate Granted(from: nat, to: nat) { forall k | from <= k < to :: grants(k) }

    lemma Joined(a: nat, b: nat, c: nat)
      requires a <= b <= c
      ensures Granted(a, c) <==> Granted(a, b) && Granted(b, c)
    {}

    // One call of `allocate`: granted or refused, as the plan has it.
    method Request() returns (granted: bool)
      modifies this`requests
      ensures granted == grants(old(requests)) && requests == old(requests) + 1
    {
      granted := grants(requests);
      requests := requests + 1;
    }

    // A granted block of any kind is live until it is given back.
    ghost method Adopt(block: object)
      modifies this`live
      ensures live == old(live) + {block}
    {
      live := live + {block};
    }

    method Allocate(size: nat) returns (block: array?<char>)
      modifies this`requests, this`live
      ensures requests == old(requests) + 1
      ensures block == null <==> !grants(old(requests))
      ensures block == null ==> live == old(live)
      ensures block != null ==> fresh(block) && block.Length == size && live == old(live) + {block}
    {
      block := null;
      var granted := Request();
      if granted {
        block := new char[size];
        Adopt(block);
      }
    }

    method Deallocate(block: object)
      requires block in live
      modifies this`live
      ensures live == old(live) - {block}
    {
      live := live - {block};
    }

    method Reallocate(block: array<char>, size: nat) returns (next: array?<char>)
      requires block in live
      modifies this
      ensures requests == old(requests) + 1
      ensures next == null <==> !grants(old(requests))
      ensures next == null ==> live == old(live) && moved == old(moved)
      ensures next != null ==> fresh(next) && next.Length == size && live == old(live) - {block} + {next}
      ensures next != null ==> moved == old(moved) + Min(size, block.Length)
      ensures next != null ==> forall k | 0 <= k < size && k < block.Length :: next[k] == block[k]
    {
      next := Allocate(size);
      if next != null {
        Copy(block, next, Min(size, block.Length));
        Deallocate(block);
      }
    }

    // memcpy from one block to the start of another; the bytes moved are counted.
    method Copy(from: array<char>, to: array<char>, count: nat)
      requires count <= from.Length && count <= to.Length && from != to
      modifies to, this`moved
      ensures forall k | 0 <= k < count :: to[k] == from[k]
      ensures forall k | count <= k < to.Length :: to[k] == old(to[k])
      ensures moved == old(moved) + count
    {
      for k := 0 to count
        invariant forall j | 0 <= j < k :: to[j] == from[j]
        invariant forall j | k <= j < to.Length :: to[j] == old(to[j])
        invariant moved == old(moved) + k
      {
        to[k] := from[k];
        moved := moved + 1;
      }
    }
  }
}
