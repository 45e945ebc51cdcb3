/**
 The implicit binary tree of the page allocator (mm/page_alloc.cpp).
 Node 0 is the root, node i has children 2i+1 and 2i+2, and a node at depth d of a
 tree of `levels` levels stands for 2^(levels-d) units of 64 KiB.
 */
module BuddyTree {
  import opened Powers

  const BLOCK_SIZE: nat := 65536

  /** get_block_phy_addr: the address is taken from the tree index, not from the span. */
  function BlockAddress(base: nat, i: nat): nat { base + i * BLOCK_SIZE }

  /** The node free_pages works out from an address; none for one between two blocks. */
  function BlockAt(base: nat, addr: nat): int
    requires base <= addr
  {
    if (addr - base) % BLOCK_SIZE == 0 then (addr - base) / BLOCK_SIZE else -1
  }

  /** Every address leads back to its block, and an address that leads to a block is that block's. */
  lemma {:induction false} AddressRoundTrip(base: nat, i: nat, addr: nat)
    requires base <= addr
    ensures base <= BlockAddress(base, i) && BlockAt(base, BlockAddress(base, i)) == i
    ensures BlockAt(base, addr) == i ==> addr == BlockAddress(base, i)
  {
  }

  function Left(i: nat): nat { 2 * i + 1 }

  function Right(i: nat): nat { 2 * i + 2 }

  function Parent(i: nat): nat
    requires i > 0
  {
    (i - 1) / 2
  }

  function Buddy(i: nat): nat
    requires i > 0
  {
    if i % 2 == 0 then i - 1 else i + 1
  }

  /** Distance from the root; by `DepthBound` the floor of the binary logarithm of i + 1. */
  function Depth(i: nat): nat
  {
    if i == 0 then 0 else 1 + Depth(Parent(i))
  }

  lemma {:induction false} DepthBound(i: nat)
    ensures Pow2(Depth(i)) <= i + 1 < Pow2(Depth(i) + 1)
  {
    if i > 0 {
      DepthBound(Parent(i));
    }
  }

  lemma {:induction false} ChildDepth(i: nat)
    ensures Depth(Left(i)) == Depth(Right(i)) == Depth(i) + 1
    ensures Parent(Left(i)) == Parent(Right(i)) == i
    ensures Buddy(Left(i)) == Right(i) && Buddy(Right(i)) == Left(i)
  {
    assert Parent(Left(i)) == i && Parent(Right(i)) == i;
  }

  /** Every node other than the root is one of the two children of its parent. */
  lemma {:induction false} ParentChild(i: nat)
    requires i > 0
    ensures (i == Left(Parent(i)) && Buddy(i) == Right(Parent(i)))
         || (i == Right(Parent(i)) && Buddy(i) == Left(Parent(i)))
    ensures Depth(Parent(i)) + 1 == Depth(i) == Depth(Buddy(i))
    ensures Buddy(i) > 0 && Parent(Buddy(i)) == Parent(i) && Buddy(Buddy(i)) == i
  {
    ChildDepth(Parent(i));
  }

  /** The leftmost node k levels below x. */
  function LeftDescendant(x: nat, k: nat): (r: nat)
    ensures Depth(r) == Depth(x) + k
  {
    if k == 0 then x
    else ChildDepth(LeftDescendant(x, k - 1)); Left(LeftDescendant(x, k - 1))
  }

  /** Number of units of a node, in a tree of the given number of levels. */
  function Units(levels: nat, i: nat): nat
    requires Depth(i) <= levels
  {
    Pow2(levels - Depth(i))
  }

  /** First unit covered by a node: the left child starts where its parent does. */
  function Start(levels: nat, i: nat): nat
    requires Depth(i) <= levels
  {
    if i == 0 then 0
    else Start(levels, Parent(i)) + (if i % 2 == 0 then Units(levels, i) else 0)
  }

  ghost predicate Covers(levels: nat, i: nat, u: int)
  {
    Depth(i) <= levels && Start(levels, i) <= u < Start(levels, i) + Units(levels, i)
  }

  /** Position of a node among the nodes of its depth, counted from the left. */
  function Position(i: nat): int { i + 1 - Pow2(Depth(i)) }

  lemma {:induction false} PositionOfChild(levels: nat, i: nat)
    requires 0 < i && Depth(i) <= levels
    ensures Position(i) == 2 * Position(Parent(i)) + (if i % 2 == 0 then 1 else 0)
    ensures Depth(Parent(i)) <= levels && Units(levels, Parent(i)) == 2 * Units(levels, i)
  {
  }

  lemma {:induction false} ScaleUp(n: int, k: int, u: int, v: int)
    requires v == 2 * u
    ensures n == 2 * k ==> n * u == k * v
    ensures n == 2 * k + 1 ==> n * u == k * v + u
  {
  }

  /** The recursive start agrees with the closed form (i + 1 - 2^d) * 2^(levels-d). */
  lemma {:induction false} StartClosedForm(levels: nat, i: nat)
    requires Depth(i) <= levels
    ensures Start(levels, i) == Position(i) * Units(levels, i)
  {
    if i == 0 {
      assert Position(0) == 0;
    } else {
      PositionOfChild(levels, i);
      hide Pow2, Position, Units;
      StartClosedForm(levels, Parent(i));
      ScaleUp(Position(i), Position(Parent(i)), Units(levels, i), Units(levels, Parent(i)));
    }
  }

  /** The two children split the units of their parent, the left one first. */
  lemma {:induction false} ChildSpans(levels: nat, i: nat)
    requires Depth(i) < levels
    ensures Depth(Left(i)) == Depth(Right(i)) == Depth(i) + 1
    ensures Start(levels, Left(i)) == Start(levels, i)
    ensures Start(levels, Right(i)) == Start(levels, i) + Units(levels, Left(i))
    ensures Units(levels, Left(i)) == Units(levels, Right(i))
    ensures Units(levels, i) == 2 * Units(levels, Left(i))
  {
    ChildDepth(i);
    assert Left(i) % 2 == 1 && Right(i) % 2 == 0;
  }

  /** Two different nodes of one depth cover no common unit. */
  lemma {:induction false} SameDepthDisjoint(levels: nat, i: nat, j: nat, u: int)
    requires Depth(i) == Depth(j) && i != j
    requires Covers(levels, i, u)
    ensures !Covers(levels, j, u)
  {
    if i > 0 && j > 0 {
      ParentChild(i);
      ParentChild(j);
      ChildSpans(levels, Parent(i));
      ChildSpans(levels, Parent(j));
      if Parent(i) != Parent(j) {
        SameDepthDisjoint(levels, Parent(i), Parent(j), u);
      }
    }
  }

  /** A tree node's index is below the size of a full tree of `levels` levels. */
  lemma {:induction false} IndexBound(levels: nat, i: nat)
    requires Depth(i) <= levels
    ensures i + 1 < Pow2(levels + 1)
  {
    DepthBound(i);
    Pow2Monotonic(Depth(i) + 1, levels + 1);
  }
}
