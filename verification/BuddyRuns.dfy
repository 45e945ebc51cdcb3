/** Whole runs of allocations and releases, and what the returned addresses promise. */
module BuddyRuns {
  import opened Machine
  import opened Powers
  import opened BuddyTree
  import opened BuddyPool
  import opened BuddyOps
  import opened BuddyTheorems

  /** Allocate asks for 2^(16+b) bytes; Release gives back block i. */
  datatype Op = Allocate(b: nat) | Release(i: nat)

  /** A caller releases only blocks it holds. */
  ghost predicate Allowed(s: Pool, op: Op)
  {
    op.Release? ==> Used(s, op.i)
  }

  ghost function Step(s: Pool, op: Op): (t: Pool)
    requires Inv(s) && Allowed(s, op)
    ensures Inv(t) && SameSize(t, s)
  {
    match op
    case Allocate(b) => Alloc(s, b).0
    case Release(i) => Free(s, i)
  }

  ghost predicate Legal(s: Pool, ops: seq<Op>)
    requires Inv(s)
    decreases |ops|
  {
    ops == [] || (Allowed(s, ops[0]) && Legal(Step(s, ops[0]), ops[1..]))
  }

  /** Every run keeps the pool well formed. */
  ghost function Run(s: Pool, ops: seq<Op>): (t: Pool)
    requires Inv(s) && Legal(s, ops)
    ensures Inv(t) && SameSize(t, s)
    decreases |ops|
  {
    if ops == [] then s else Run(Step(s, ops[0]), ops[1..])
  }

  /** Successful allocations minus releases. */
  ghost function Balance(s: Pool, ops: seq<Op>): int
    requires Inv(s) && Legal(s, ops)
    decreases |ops|
  {
    if ops == [] then 0
    else (match ops[0]
          case Allocate(b) => if Alloc(s, b).1.Some? then 1 else 0
          case Release(_) => -1)
         + Balance(Step(s, ops[0]), ops[1..])
  }

  lemma {:induction false} BalanceIsUse(s: Pool, ops: seq<Op>)
    requires Inv(s) && Legal(s, ops)
    ensures |UsedSet(Run(s, ops))| == |UsedSet(s)| + Balance(s, ops)
    decreases |ops|
  {
    if ops != [] {
      match ops[0] {
        case Allocate(b) =>
          if Alloc(s, b).1.Some? { AllocUsed(s, b); }
        case Release(i) =>
          FreeUsed(s, i);
          assert i in UsedSet(s);
      }
      hide Inv, UsedSet;
      BalanceIsUse(Step(s, ops[0]), ops[1..]);
    }
  }

  /**
   However allocations and releases are interleaved, once as many blocks were released as
   were allocated the pool is back in its initial state.
   */
  lemma {:induction false} BalancedRunRestores(s: Pool, ops: seq<Op>)
    requires IsInitial(s) && Inv(s) && Legal(s, ops) && Balance(s, ops) == 0
    ensures IsInitial(Run(s, ops))
  {
    InitialIsWellFormed(s);
    BalanceIsUse(s, ops);
    var t := Run(s, ops);
    assert |UsedSet(t)| == 0;
    forall i: nat
      ensures !Used(t, i)
    {
      assert i !in UsedSet(t);
    }
    AllFreedIsInitial(t);
  }

  /** A block handed out shares no unit with a block already in use. */
  lemma {:induction false} FreshBlockIsDisjoint(s: Pool, b: nat, j: nat, u: int)
    requires Inv(s) && Alloc(s, b).1.Some? && Used(s, j)
    requires Covers(s.levels, j, u)
    ensures !Covers(s.levels, Alloc(s, b).1.value, u)
  {
    AllocUsed(s, b);
    var (t, x) := Alloc(s, b);
    assert j in UsedSet(s) && j in UsedSet(t);
    if Covers(s.levels, x.value, u) {
      SameLeaf(t, u, j, x.value);
    }
  }

  /** Cutting a block out of a larger one leaves its right neighbour free. */
  lemma {:induction false} NeighbourLeftFree(s: Pool, b: nat, c: nat)
    requires Inv(s) && BestFit(s, b, c) && b < c
    ensures Alloc(s, b).1.Some?
    ensures Alloc(s, b).0.free[b] == [Alloc(s, b).1.value + 1]
  {
    hide Inv, Alloc, LeftDescendant;
    AllocBestFit(s, b, c);
    LeftDescendantStep(s.free[c][0], c - 1 - b);
  }

  lemma {:induction false} InitialBestFit(s: Pool, b: nat)
    requires IsInitial(s) && b <= s.levels
    ensures BestFit(s, b, s.levels)
  {
  }

  // ----- The allocator's own test -----

  /** Two blocks are allocated and then freed in the same order. */
  ghost function TwoAndBack(s: Pool, b: nat, c: nat): (t: Pool)
    requires Inv(s) && Alloc(s, b).1.Some? && Alloc(Alloc(s, b).0, c).1.Some?
    requires Used(Alloc(Alloc(s, b).0, c).0, Alloc(s, b).1.value)
    requires Used(Free(Alloc(Alloc(s, b).0, c).0, Alloc(s, b).1.value), Alloc(Alloc(s, b).0, c).1.value)
    ensures Inv(t)
  {
    Free(Free(Alloc(Alloc(s, b).0, c).0, Alloc(s, b).1.value), Alloc(Alloc(s, b).0, c).1.value)
  }

  /** Both blocks stay in use until they are freed, and then the same blocks are in use as before. */
  lemma {:induction false} TwoAndBackUsed(s: Pool, b: nat, c: nat)
    requires Inv(s) && Alloc(s, b).1.Some? && Alloc(Alloc(s, b).0, c).1.Some?
    ensures Used(Alloc(Alloc(s, b).0, c).0, Alloc(s, b).1.value)
    ensures Used(Free(Alloc(Alloc(s, b).0, c).0, Alloc(s, b).1.value), Alloc(Alloc(s, b).0, c).1.value)
    ensures UsedSet(TwoAndBack(s, b, c)) == UsedSet(s)
  {
    hide Inv, UsedSet, Alloc, Free, Used;
    var (t, x) := Alloc(s, b);
    var (u, y) := Alloc(t, c);
    AllocUsed(s, b);
    AllocUsed(t, c);
    InUsedSet(s, x.value);
    InUsedSet(t, y.value);
    InUsedSet(u, x.value);
    FreeUsed(u, x.value);
    InUsedSet(Free(u, x.value), y.value);
    FreeUsed(Free(u, x.value), y.value);
  }

  /** On a fresh pool a block no larger is served after one below the whole region, and freeing both restores it. */
  lemma {:induction false} TwoAndBackRestores(s: Pool, b: nat, c: nat)
    requires IsInitial(s) && Inv(s) && c <= b < s.levels
    ensures Alloc(s, b).1.Some? && Alloc(Alloc(s, b).0, c).1.Some?
    ensures Used(Alloc(Alloc(s, b).0, c).0, Alloc(s, b).1.value)
    ensures Used(Free(Alloc(Alloc(s, b).0, c).0, Alloc(s, b).1.value), Alloc(Alloc(s, b).0, c).1.value)
    ensures IsInitial(TwoAndBack(s, b, c))
  {
    hide Inv, IsInitial, Alloc, Free, BestFit, TwoAndBack;
    InitialBestFit(s, b);
    NeighbourLeftFree(s, b, s.levels);
    AllocFails(Alloc(s, b).0, c);
    TwoAndBackUsed(s, b, c);
    InitialIsWellFormed(s);
    var v := TwoAndBack(s, b, c);
    forall i: nat
      ensures !Used(v, i)
    {
      InUsedSet(v, i);
    }
    AllFreedIsInitial(v);
  }

  /** With the whole region in use nothing is left. */
  lemma {:induction false} WholeRegionTaken(s: Pool, c: nat)
    requires Inv(s) && Used(s, 0)
    ensures Alloc(s, c).1.None?
  {
    hide Alloc;
    forall j | c <= j <= s.levels
      ensures s.free[j] == []
    {
      if s.free[j] != [] {
        var x := s.free[j][0];
        assert x in s.free[j] && FreeLeaf(s, x);
        RootLeafIsAlone(s, x);
      }
    }
    AllocFails(s, c);
  }

  lemma {:induction false} RootServes(s: Pool)
    requires IsInitial(s) && Inv(s) && Alloc(s, s.levels).1.Some?
    ensures Used(Alloc(s, s.levels).0, 0)
  {
    InitialBestFit(s, s.levels);
    AllocBestFit(s, s.levels, s.levels);
    AllocUsed(s, s.levels);
    InUsedSet(Alloc(s, s.levels).0, 0);
  }

  /** On a fresh pool a block and then one no larger are served exactly when the first is not the whole region. */
  lemma {:induction false} TwoServedIff(s: Pool, b: nat, c: nat)
    requires IsInitial(s) && Inv(s) && c <= b
    ensures Alloc(s, b).1.Some? && Alloc(Alloc(s, b).0, c).1.Some? <==> b < s.levels
  {
    hide Inv, IsInitial, Alloc;
    if b < s.levels {
      TwoAndBackRestores(s, b, c);
    } else if b == s.levels {
      if Alloc(s, b).1.Some? {
        RootServes(s);
        WholeRegionTaken(Alloc(s, b).0, c);
      }
    } else {
      AllocFails(s, b);
    }
  }

  // ----- Addresses -----

  /** Bytes of block i. */
  ghost function Length(levels: nat, i: nat): nat
    requires Depth(i) <= levels
  {
    Units(levels, i) * BLOCK_SIZE
  }

  /** The bytes from the block's address on lie in the region. */
  ghost predicate InRegion(base: nat, levels: nat, i: nat)
    requires Depth(i) <= levels
  {
    base <= BlockAddress(base, i) && BlockAddress(base, i) + Length(levels, i) <= base + Pow2(levels) * BLOCK_SIZE
  }

  lemma {:induction false} TwoFactors(a: int, b: int)
    requires a >= 2 && b >= 2
    ensures 2 * (a + b) <= a * b + 4
  {
    assert (a - 2) * (b - 2) >= 0;
    assert (a - 2) * (b - 2) == a * b - 2 * a - 2 * b + 4;
  }

  /**
   The address computed from the tree index keeps a block inside the managed region exactly
   when the block is larger than 64 KiB, or is the leftmost 64 KiB block.
   */
  lemma {:induction false} AddressInRegionIff(base: nat, levels: nat, i: nat)
    requires Depth(i) <= levels
    ensures InRegion(base, levels, i) <==> Depth(i) < levels || i + 1 == Pow2(levels)
  {
    var d := Depth(i);
    DepthBound(i);
    if d < levels {
      Pow2Add(d + 1, levels - d);
      TwoFactors(Pow2(d + 1), Pow2(levels - d));
    }
  }

  /** The address ranges of the blocks in use are pairwise disjoint. */
  ghost predicate AddressesDisjoint(base: nat, s: Pool)
    requires Inv(s)
  {
    forall i: nat, j: nat :: Used(s, i) && Used(s, j) && i != j ==>
      RangesApart(BlockAddress(base, i), Length(s.levels, i), BlockAddress(base, j), Length(s.levels, j))
  }

  ghost predicate AllSizesIn(ops: seq<Op>, S: set<nat>)
  {
    forall k :: 0 <= k < |ops| && ops[k].Allocate? ==> ops[k].b in S
  }

  ghost predicate UsedSizesIn(s: Pool, S: set<nat>)
  {
    forall i: nat :: Used(s, i) && Depth(i) <= s.levels ==> s.levels - Depth(i) in S
  }

  lemma {:induction false} StepSizes(s: Pool, op: Op, S: set<nat>)
    requires Inv(s) && Allowed(s, op) && UsedSizesIn(s, S) && (op.Allocate? ==> op.b in S)
    ensures UsedSizesIn(Step(s, op), S)
  {
    hide Inv, UsedSet, Used, Depth;
    var t := Step(s, op);
    forall i: nat | Used(t, i) && Depth(i) <= t.levels
      ensures t.levels - Depth(i) in S
    {
      InUsedSet(t, i);
      InUsedSet(s, i);
      match op {
        case Allocate(b) =>
          if Alloc(s, b).1.Some? { AllocUsed(s, b); }
        case Release(j) =>
          FreeUsed(s, j);
      }
    }
  }

  lemma {:induction false} RunSizes(s: Pool, ops: seq<Op>, S: set<nat>)
    requires Inv(s) && Legal(s, ops) && UsedSizesIn(s, S) && AllSizesIn(ops, S)
    ensures UsedSizesIn(Run(s, ops), S)
    decreases |ops|
  {
    if ops != [] {
      StepSizes(s, ops[0], S);
      RunSizes(Step(s, ops[0]), ops[1..], S);
    }
  }

  /** Blocks of 64 KiB only, or the whole region as one block: addresses do not collide. */
  lemma {:induction false} ExtremeSizesDisjoint(base: nat, s: Pool, S: set<nat>)
    requires Inv(s) && UsedSizesIn(s, S)
    requires forall b :: b in S && b <= s.levels ==> b == 0 || b == s.levels
    ensures AddressesDisjoint(base, s)
  {
    forall i: nat, j: nat | Used(s, i) && Used(s, j) && i != j
      ensures RangesApart(BlockAddress(base, i), Length(s.levels, i), BlockAddress(base, j), Length(s.levels, j))
    {
      if s.levels - Depth(i) != 0 {
        assert Depth(i) == 0;
        RootLeafIsAlone(s, j);
      } else if s.levels - Depth(j) != 0 {
        assert Depth(j) == 0;
        RootLeafIsAlone(s, i);
      }
    }
  }

  /** The second block of that size is that neighbour. */
  lemma {:induction false} FirstTwo(s: Pool, b: nat) returns (x: nat)
    requires IsInitial(s) && Inv(s) && b < s.levels
    ensures Depth(x) + b == s.levels
    ensures Used(Alloc(Alloc(s, b).0, b).0, x) && Used(Alloc(Alloc(s, b).0, b).0, x + 1)
  {
    hide Inv, IsInitial;
    InitialBestFit(s, b);
    NeighbourLeftFree(s, b, s.levels);
    var t := Alloc(s, b).0;
    x := Alloc(s, b).1.value;
    TakeSplits(t, b);
    AllocUsed(t, b);
    assert x in UsedSet(t);
    assert x in UsedSet(Alloc(t, b).0);
  }

  lemma {:induction false} RunTwoAllocations(s: Pool, b: nat)
    requires Inv(s)
    ensures Legal(s, [Allocate(b), Allocate(b)])
    ensures Run(s, [Allocate(b), Allocate(b)]) == Alloc(Alloc(s, b).0, b).0
  {
    hide Inv;
    var o := Allocate(b);
    assert [o, o][1..] == [o] && [o][1..] == [];
    var t := Step(s, o);
    assert Legal(Step(t, o), []);
    assert Legal(t, [o]);
    assert Run(t, [o]) == Step(t, o);
  }

  /** Two requests for one intermediate size return addresses 64 KiB apart. */
  lemma {:induction false} MiddleSizeCollides(base: nat, s: Pool, b: nat)
    requires IsInitial(s) && Inv(s) && 0 < b < s.levels
    ensures Legal(s, [Allocate(b), Allocate(b)])
    ensures !AddressesDisjoint(base, Run(s, [Allocate(b), Allocate(b)]))
  {
    hide Inv, IsInitial;
    var x := FirstTwo(s, b);
    assert Units(s.levels, x) >= 2;
    RunTwoAllocations(s, b);
  }

  /**
   Runs that ask only for sizes in S never hand out colliding addresses exactly when S has
   no size strictly between the smallest block and the whole region.
   */
  lemma {:induction false} AddressesDisjointIff(base: nat, s: Pool, S: set<nat>)
    requires IsInitial(s) && Inv(s)
    ensures (forall ops :: Legal(s, ops) && AllSizesIn(ops, S) ==> AddressesDisjoint(base, Run(s, ops)))
       <==> (forall b :: b in S && b <= s.levels ==> b == 0 || b == s.levels)
  {
    InitialIsWellFormed(s);
    if forall b :: b in S && b <= s.levels ==> b == 0 || b == s.levels {
      forall ops | Legal(s, ops) && AllSizesIn(ops, S)
        ensures AddressesDisjoint(base, Run(s, ops))
      {
        assert UsedSizesIn(s, S);
        RunSizes(s, ops, S);
        ExtremeSizesDisjoint(base, Run(s, ops), S);
      }
    } else {
      var b :| b in S && b <= s.levels && b != 0 && b != s.levels;
      MiddleSizeCollides(base, s, b);
      assert AllSizesIn([Allocate(b), Allocate(b)], S);
    }
  }
}
