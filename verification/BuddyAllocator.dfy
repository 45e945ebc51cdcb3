/**
 struct BuddyAllocator of mm/page_alloc.cpp: the block array with its embedded links, the
 bucket table, and the operations that update them in place. Every operation is proved to
 have the effect of the corresponding function on pools.
 */
module BuddyAllocator {
  import opened Machine
  import opened Powers
  import opened Log2
  import opened BuddyTree
  import opened BuddyPool
  import opened BuddyOps
  import opened BuddyLists
  import opened BuddyTheorems
  import opened BuddyConservation
  import BuddyRuns

  const MAX_BLOCKS := 65536
  const BUCKET_COUNT := 17

  /** `allocated_blocks` of bucket b is the number of nodes of that size in S. */
  ghost predicate Counts(levels: nat, S: set<nat>, bks: seq<Bucket>)
  {
    forall b :: 0 <= b < |bks| ==> bks[b].allocatedBlocks == |AtSize(levels, S, b)|
  }

  /** cks is bks with `allocated_blocks` of bucket b moved by delta. */
  ghost predicate Bumped(bks: seq<Bucket>, cks: seq<Bucket>, b: nat, delta: int)
  {
    && |bks| == |cks|
    && forall c :: 0 <= c < |bks| ==>
      cks[c].allocatedBlocks == bks[c].allocatedBlocks + (if c == b then delta else 0)
  }

  lemma {:induction false} CountsSame(levels: nat, S: set<nat>, bks: seq<Bucket>, cks: seq<Bucket>)
    requires Counts(levels, S, bks) && SameAllocated(cks, bks)
    ensures Counts(levels, S, cks)
  {
  }

  lemma {:induction false} CountsAdd(levels: nat, S: set<nat>, x: nat, bks: seq<Bucket>, cks: seq<Bucket>)
    requires Counts(levels, S, bks) && x !in S && Depth(x) <= levels
    requires Bumped(bks, cks, levels - Depth(x), 1)
    ensures Counts(levels, S + {x}, cks)
  {
    forall b | 0 <= b < |cks|
      ensures cks[b].allocatedBlocks == |AtSize(levels, S + {x}, b)|
    {
      AtSizeAdd(levels, S, x, b);
    }
  }

  lemma {:induction false} CountsRemove(levels: nat, S: set<nat>, x: nat, bks: seq<Bucket>, cks: seq<Bucket>)
    requires Counts(levels, S, bks) && x in S && Depth(x) <= levels
    requires Bumped(bks, cks, levels - Depth(x), -1)
    ensures Counts(levels, S - {x}, cks)
  {
    forall b | 0 <= b < |cks|
      ensures cks[b].allocatedBlocks == |AtSize(levels, S - {x}, b)|
    {
      AtSizeAdd(levels, S - {x}, x, b);
      assert S - {x} + {x} == S;
    }
  }

  lemma {:induction false} CountPositive(levels: nat, S: set<nat>, x: nat, bks: seq<Bucket>)
    requires Counts(levels, S, bks) && x in S && Depth(x) <= levels && levels - Depth(x) < |bks|
    ensures bks[levels - Depth(x)].allocatedBlocks > 0
  {
    assert x in AtSize(levels, S, levels - Depth(x));
  }

  lemma {:induction false} InitialLinked(levels: nat, bs: seq<Block>, bks: seq<Bucket>, free: seq<seq<nat>>)
    requires |bs| > 0 && bs[0] == Block(true, true, 0, 0) && |bks| == |free|
    requires forall b :: 0 <= b < |free| ==>
      && free[b] == (if b == levels then [0] else [])
      && bks[b] == Bucket(MIN_LOG2 + b, 0, 0, if b == levels then 0 else NULL)
    ensures Linked(levels, bs, bks, free)
  {
    forall b | 0 <= b < |free|
      ensures BucketHolds(levels, bs, bks[b], free[b], b)
    {
      assert Counter(levels, b, |free[b]|) == 0;
    }
  }

  lemma {:induction false} InitialCounts(levels: nat, bks: seq<Bucket>)
    requires forall b :: 0 <= b < |bks| ==> bks[b].allocatedBlocks == 0
    ensures Counts(levels, {}, bks)
  {
    forall b | 0 <= b < |bks|
      ensures bks[b].allocatedBlocks == |AtSize(levels, {}, b)|
    {
      assert AtSize(levels, {}, b) == {};
    }
  }

  /** A call either panics or returns an address. */
  datatype Outcome = Panic | Returned(addr: nat)

  lemma {:induction false} AllocatedUsed(s: Pool, b: nat)
    requires Inv(s) && Alloc(s, b).1.Some?
    ensures Used(Alloc(s, b).0, Alloc(s, b).1.value)
  {
    AllocUsed(s, b);
    InUsedSet(Alloc(s, b).0, Alloc(s, b).1.value);
  }

  class Allocator {
    const phyStart: nat
    const rootLog2Size: nat
    const blocks: array<Block>
    const buckets: array<Bucket>
    ghost var free: seq<seq<nat>>

    ghost function Levels(): nat { if rootLog2Size < MIN_LOG2 then 0 else rootLog2Size - MIN_LOG2 }

    ghost function View(): Pool
      reads this, blocks
    {
      PoolOf(Levels(), blocks[..], free)
    }

    /** Sizes that never change: 2^16 <= region, a block record for every tree node, 17 buckets. */
    ghost predicate Dimensions()
    {
      && MIN_LOG2 <= rootLog2Size < MIN_LOG2 + BUCKET_COUNT
      && buckets.Length == BUCKET_COUNT
      && Pow2(Levels() + 1) - 1 <= blocks.Length <= MAX_BLOCKS
      && phyStart <= 0x1_0000_0000
    }

    /** The lists are sound, whatever the flags say. */
    ghost predicate Structured()
      reads this, blocks, buckets
    {
      Dimensions() && |free| == BUCKET_COUNT && Linked(Levels(), blocks[..], buckets[..], free)
    }

    /** `allocated_blocks` of every bucket is the number of blocks of its size in use. */
    ghost predicate Counted()
      reads this, blocks, buckets
    {
      Counts(Levels(), UsedSet(View()), buckets[..])
    }

    ghost predicate Valid()
      reads this, blocks, buckets
    {
      Structured() && Inv(View()) && Counted()
    }

    /** The constructor, on block records none of which is valid yet except possibly the root's. */
    constructor (addr: nat, log2size: nat, base: array<Block>)
      requires MIN_LOG2 <= log2size < MIN_LOG2 + BUCKET_COUNT && addr <= 0x1_0000_0000
      requires Pow2(log2size - MIN_LOG2 + 1) - 1 <= base.Length <= MAX_BLOCKS
      requires forall i :: 0 < i < base.Length ==> !base[i].valid
      modifies base
      ensures Valid() && IsInitial(View())
      ensures phyStart == addr && rootLog2Size == log2size && blocks == base && fresh(buckets)
    {
      phyStart := addr;
      rootLog2Size := log2size;
      blocks := base;
      var table := new Bucket[BUCKET_COUNT];
      buckets := table;
      free := seq(BUCKET_COUNT, b => if b == log2size - MIN_LOG2 then [0] else []);
      new;
      blocks[0] := Block(true, true, 0, 0);
      var i := 0;
      while i < BUCKET_COUNT
        invariant 0 <= i <= BUCKET_COUNT
        invariant forall c :: 0 <= c < i ==> buckets[c] == Bucket(MIN_LOG2 + c, 0, 0, NULL)
        modifies buckets
      {
        buckets[i] := Bucket(MIN_LOG2 + i, 0, 0, NULL);
        i := i + 1;
      }
      buckets[log2size - MIN_LOG2] := buckets[log2size - MIN_LOG2].(first := 0);
      InitialLinked(Levels(), blocks[..], buckets[..], free);
      InitialIsWellFormed(View());
      InitialCounts(Levels(), buckets[..]);
    }

    /** block_log2size */
    method BlockLog2Size(block: nat) returns (r: nat)
      requires Dimensions() && Depth(block) <= Levels()
      ensures r == rootLog2Size - Depth(block) && MIN_LOG2 <= r <= rootLog2Size
    {
      IndexBound(Levels(), block);
      var depth := FloorLog2(block + 1);
      DepthBound(block);
      Pow2Bracket(block + 1, depth, Depth(block));
      r := rootLog2Size - depth;
    }

    /** The link and counter updates of add_to_available_list. */
    method LinkBlock(block: nat, b: nat)
      requires block < blocks.Length && b < buckets.Length
      requires buckets[b].first == NULL
        || (0 <= buckets[b].first < blocks.Length && 0 <= blocks[buckets[b].first].prev < blocks.Length)
      modifies blocks, buckets
      ensures blocks[..] == LinkIn(old(blocks[..]), old(buckets[b].first), block)
      ensures buckets[..] == old(buckets[..])[b := CountIn(old(buckets[b]), block)]
    {
      var first := buckets[b].first;
      if first == NULL {
        blocks[block] := blocks[block].(next := block);
        blocks[block] := blocks[block].(prev := block);
        buckets[b] := buckets[b].(first := block);
      } else {
        var last := blocks[first].prev;
        blocks[first] := blocks[first].(prev := block);
        blocks[last] := blocks[last].(next := block);
        blocks[block] := blocks[block].(next := first);
        blocks[block] := blocks[block].(prev := last);
      }
      buckets[b] := buckets[b].(availableBlocks := Increment(buckets[b].availableBlocks));
    }

    method AddToAvailableList(block: nat)
      requires Structured()
      requires block < blocks.Length && Depth(block) <= Levels()
      requires block !in free[Levels() - Depth(block)]
      modifies this`free, blocks, buckets
      ensures Structured()
      ensures SameFlags(blocks[..], old(blocks[..]))
      ensures free == old(free)[Levels() - Depth(block) := old(free)[Levels() - Depth(block)] + [block]]
      ensures SameAllocated(buckets[..], old(buckets[..]))
    {
      var log2size := BlockLog2Size(block);
      var b := log2size - MIN_LOG2;
      AppendLinked(Levels(), blocks[..], buckets[..], free, b, block);
      LinkBlock(block, b);
      free := free[b := free[b] + [block]];
    }

    /** The link and counter updates of remove_from_available_list. */
    method UnlinkBlock(block: nat, b: nat)
      requires block < blocks.Length && b < buckets.Length
      requires 0 <= blocks[block].prev < blocks.Length && 0 <= blocks[block].next < blocks.Length
      modifies blocks, buckets
      ensures blocks[..] == Unlink(old(blocks[..]), block)
      ensures buckets[..] == old(buckets[..])[b := CountOut(old(buckets[b]), block, old(blocks[block].next))]
    {
      if buckets[b].first == block {
        if blocks[block].next == block {
          buckets[b] := buckets[b].(first := NULL);
        } else {
          buckets[b] := buckets[b].(first := blocks[block].next);
        }
      }
      var next := blocks[block].next;
      var prev := blocks[block].prev;
      if prev != NULL {
        blocks[prev] := blocks[prev].(next := next);
      }
      if next != NULL {
        blocks[next] := blocks[next].(prev := prev);
      }
      buckets[b] := buckets[b].(availableBlocks := Decrement(buckets[b].availableBlocks));
    }

    method RemoveFromAvailableList(block: nat)
      requires Structured()
      requires Depth(block) <= Levels() && block in free[Levels() - Depth(block)]
      modifies this`free, blocks, buckets
      ensures Structured()
      ensures SameFlags(blocks[..], old(blocks[..]))
      ensures free == old(free)[Levels() - Depth(block) := Remove(old(free)[Levels() - Depth(block)], block)]
      ensures SameAllocated(buckets[..], old(buckets[..]))
    {
      var log2size := BlockLog2Size(block);
      var b := log2size - MIN_LOG2;
      RemoveLinked(Levels(), blocks[..], buckets[..], free, b, block);
      UnlinkBlock(block, b);
      free := free[b := Remove(free[b], block)];
    }

    // ----- Allocation -----

    lemma {:induction false} HalvesOf(block: nat)
      ensures Depth(Left(block)) == Depth(Right(block)) == Depth(block) + 1
      ensures Parent(Left(block)) == Parent(Right(block)) == block
      ensures Depth(block) < Levels() ==>
        && Left(block) < Right(block) < Pow2(Levels() + 1) - 1
        && Start(Levels(), Left(block)) == Start(Levels(), block)
        && 2 * (Start(Levels(), Right(block)) - Start(Levels(), block)) == Units(Levels(), block)
    {
      ChildDepth(block);
      if Depth(block) < Levels() {
        ChildSpans(Levels(), block);
        IndexBound(Levels(), Right(block));
      }
    }

    /** The half that starts where the block does; null only when the array has no record for it. */
    method GetLeft(block: nat) returns (r: int)
      ensures r == NULL <==> Left(block) >= blocks.Length
      ensures r != NULL ==> r == Left(block) && Parent(r) == block && Depth(r) == Depth(block) + 1
      ensures Dimensions() && Depth(block) < Levels() ==> r != NULL && Start(Levels(), r) == Start(Levels(), block)
    {
      HalvesOf(block);
      if 2 * block + 1 >= blocks.Length { return NULL; }
      return 2 * block + 1;
    }

    /** The half that starts in the middle of the block. */
    method GetRight(block: nat) returns (r: int)
      ensures r == NULL <==> Right(block) >= blocks.Length
      ensures r != NULL ==> r == Right(block) && Parent(r) == block && Depth(r) == Depth(block) + 1
      ensures Dimensions() && Depth(block) < Levels() ==>
        r != NULL && 2 * (Start(Levels(), r) - Start(Levels(), block)) == Units(Levels(), block)
    {
      HalvesOf(block);
      if 2 * block + 2 >= blocks.Length { return NULL; }
      return 2 * block + 2;
    }

    method SplitFlags(left: nat, right: nat)
      requires left < blocks.Length && right < blocks.Length
      modifies blocks
      ensures blocks[..] == MarkHalves(old(blocks[..]), left, right)
    {
      blocks[left] := blocks[left].(available := false);
      blocks[left] := blocks[left].(valid := true);
      blocks[right] := blocks[right].(available := true);
      blocks[right] := blocks[right].(valid := true);
    }

    /** The branch of alloc_block_size that halves a larger block just taken. */
    method SplitBlock(parent: nat, ghost b: nat) returns (left: int)
      requires Structured() && Inv(View()) && Used(View(), parent) && Depth(parent) + b + 1 == Levels()
      modifies this`free, blocks, buckets
      ensures Structured() && SameAllocated(buckets[..], old(buckets[..]))
      ensures left == Left(parent) && Right(parent) < blocks.Length
      ensures View() == Divide(old(View()), parent, b)
    {
      DivideKeepsInv(View(), parent, b);
      ChildDepth(parent);
      MarkHalvesEffect(Levels(), blocks[..], buckets[..], free, parent, b);
      assert Right(parent) !in View().free[b];
      hide Inv, Linked, Divide;
      left := GetLeft(parent);
      var right := GetRight(parent);
      SplitFlags(left, right);
      ghost var bs := blocks[..];
      AddToAvailableList(right);
      SameFlagsSamePool(Levels(), bs, blocks[..], free);
    }

    /** The branch of alloc_block_size that takes the head of a list. */
    method TakeHead(first: int, ghost b: nat)
      requires Structured() && b <= Levels() && free[b] != [] && first == buckets[b].first
      modifies this`free, blocks, buckets
      ensures Structured() && SameAllocated(buckets[..], old(buckets[..]))
      ensures old(free[b][0]) == first < blocks.Length
      ensures View() == Take(old(View()), b)
    {
      MarkTakenEffect(Levels(), blocks[..], buckets[..], free, b);
      hide Linked, Take;
      blocks[first] := blocks[first].(available := false);
      ghost var bs := blocks[..];
      RemoveFromAvailableList(first);
      SameFlagsSamePool(Levels(), bs, blocks[..], free);
    }

    /** alloc_block_size */
    method AllocBlockSize(log2size: nat) returns (r: int)
      requires Structured() && Inv(View()) && MIN_LOG2 <= log2size
      modifies this`free, blocks, buckets
      ensures Structured() && SameAllocated(buckets[..], old(buckets[..]))
      ensures View() == Alloc(old(View()), log2size - MIN_LOG2).0
      ensures r == match Alloc(old(View()), log2size - MIN_LOG2).1 case None => NULL case Some(x) => x
      decreases rootLog2Size + 1 - log2size
    {
      if log2size > rootLog2Size { return NULL; }
      var b := log2size - MIN_LOG2;
      assert BucketHolds(Levels(), blocks[..], buckets[..][b], free[b], b);
      hide Inv, Linked, Divide, Take;
      var first := buckets[b].first;
      if first == NULL {
        var parent := AllocBlockSize(log2size + 1);
        if parent == NULL { return NULL; }
        AllocHalves(old(View()), b);
        r := SplitBlock(parent, b);
      } else {
        TakeHead(first, b);
        r := first;
      }
    }

    /** The address is that of block x, which is in use, and free_pages will find it. */
    ghost predicate HandedOut(addr: nat, x: nat)
      reads this, blocks
    {
      && phyStart <= addr < U64 && BlockAt(phyStart, addr) == x < blocks.Length && Used(View(), x)
      && !blocks[x].available
    }

    /** Every block in use is found by its address. */
    lemma UsedIsHandedOut(x: nat)
      requires Structured() && Inv(View()) && Used(View(), x)
      ensures HandedOut(BlockAddress(phyStart, x), x)
    {
      AddressRoundTrip(phyStart, x, phyStart);
    }

    /** Write one bucket's `allocated_blocks`. */
    method BumpAllocated(b: nat, delta: int)
      requires Structured() && b < buckets.Length && 0 <= buckets[b].allocatedBlocks + delta
      modifies buckets
      ensures Structured() && Bumped(old(buckets[..]), buckets[..], b, delta)
    {
      ghost var bks := buckets[..];
      buckets[b] := buckets[b].(allocatedBlocks := buckets[b].allocatedBlocks + delta);
      forall c | 0 <= c < |free|
        ensures BucketHolds(Levels(), blocks[..], buckets[..][c], free[c], c)
      {
        assert BucketHolds(Levels(), blocks[..], bks[c], free[c], c);
      }
    }

    /** A block was handed out: its bucket's `allocated_blocks` goes up. */
    method CountUp(b: nat, ghost block: nat, ghost S: set<nat>)
      requires Structured() && Depth(block) + b == Levels() && Counts(Levels(), S, buckets[..]) && block !in S
      modifies buckets
      ensures Structured() && Counts(Levels(), S + {block}, buckets[..])
    {
      BumpAllocated(b, 1);
      CountsAdd(Levels(), S, block, old(buckets[..]), buckets[..]);
    }

    /** A block was given back: its bucket's `allocated_blocks` goes down. */
    method CountDown(block: nat, ghost S: set<nat>)
      requires Structured() && Depth(block) <= Levels() && Counts(Levels(), S, buckets[..]) && block in S
      modifies buckets
      ensures Structured() && Counts(Levels(), S - {block}, buckets[..])
    {
      CountPositive(Levels(), S, block, buckets[..]);
      var log2size := BlockLog2Size(block);
      BumpAllocated(log2size - MIN_LOG2, -1);
      CountsRemove(Levels(), S, block, old(buckets[..]), buckets[..]);
    }

    /** allocate_pages up to the address: the block, counted in its bucket, or NULL. */
    method AllocateBlock(log2size: nat) returns (block: int)
      requires Valid() && MIN_LOG2 <= log2size
      modifies this`free, blocks, buckets
      ensures Valid() && View() == Alloc(old(View()), log2size - MIN_LOG2).0
      ensures block == match Alloc(old(View()), log2size - MIN_LOG2).1 case None => NULL case Some(x) => x
    {
      hide Inv, Linked, Counts, UsedSet, Alloc;
      var b := log2size - MIN_LOG2;
      ghost var s := View();
      block := AllocBlockSize(log2size);
      CountsSame(Levels(), UsedSet(s), old(buckets[..]), buckets[..]);
      if block != NULL {
        AllocUsed(s, b);
        InUsedSet(s, block);
        CountUp(b, block, UsedSet(s));
      }
    }

    /** allocate_pages */
    method AllocatePages(log2size: nat) returns (r: Outcome)
      requires Valid()
      modifies this`free, blocks, buckets
      ensures Valid()
      ensures log2size < MIN_LOG2 ==> r == Panic && View() == old(View())
      ensures log2size >= MIN_LOG2 ==>
        && View() == Alloc(old(View()), log2size - MIN_LOG2).0
        && r == match Alloc(old(View()), log2size - MIN_LOG2).1
                case None => Returned(0)
                case Some(x) => Returned(BlockAddress(phyStart, x))
      ensures log2size >= MIN_LOG2 && Alloc(old(View()), log2size - MIN_LOG2).1.Some? ==>
        HandedOut(r.addr, Alloc(old(View()), log2size - MIN_LOG2).1.value)
    {
      hide Inv, Linked, Counts, UsedSet, Alloc, PoolOf, HandedOut, Used, BlockAddress, Dimensions;
      if log2size < MIN_LOG2 { return Panic; }
      var block := AllocateBlock(log2size);
      if block == NULL { return Returned(0); }
      AllocatedUsed(old(View()), log2size - MIN_LOG2);
      UsedIsHandedOut(block);
      r := Returned(BlockAddress(phyStart, block));
    }

    /** kmalloc: k is the size class served. */
    method Kmalloc(size: nat) returns (r: nat, ghost k: nat)
      requires Valid() && size < U64
      modifies this`free, blocks, buckets
      ensures Valid()
      ensures MIN_LOG2 <= k && size <= Pow2(k) && (k == MIN_LOG2 || Pow2(k - 1) < size)
      ensures View() == Alloc(old(View()), k - MIN_LOG2).0
      ensures r == KERNEL_START
                   + match Alloc(old(View()), k - MIN_LOG2).1 case None => 0 case Some(x) => BlockAddress(phyStart, x)
      ensures Alloc(old(View()), k - MIN_LOG2).1.Some? ==>
        HandedOut(r - KERNEL_START, Alloc(old(View()), k - MIN_LOG2).1.value)
    {
      var log2size := CeilLog2(size);
      ghost var ceil := log2size;
      if log2size < MIN_LOG2 {
        log2size := MIN_LOG2;
      }
      k := log2size;
      assert size <= Pow2(k) && (k == MIN_LOG2 || Pow2(k - 1) < size) by {
        if size > 0 { Pow2Monotonic(ceil, k); }
      }
      var a := AllocatePages(log2size);
      r := KERNEL_START + a.addr;
    }

    // ----- Release -----

    /** The block of twice the size that this one is a half of; null at the root only. */
    method GetParent(block: nat) returns (r: int)
      ensures r == NULL <==> block == 0
      ensures r != NULL ==> 0 <= r < block && (block == Left(r) || block == Right(r)) && Depth(r) + 1 == Depth(block)
    {
      if block > 0 { ParentChild(block); }
      if block == 0 { return NULL; }
      return (block - 1) / 2;
    }

    /** The other half of the block's parent, apart from it; null at the root only. */
    method GetBuddy(block: nat) returns (r: int)
      ensures r == NULL <==> block == 0
      ensures r != NULL ==> 0 < r != block && Parent(r) == Parent(block) && Depth(r) == Depth(block)
      ensures r != NULL ==> r == Buddy(block)
      ensures Dimensions() && 0 < block && Depth(block) <= Levels() ==>
        r < blocks.Length && forall u :: Covers(Levels(), block, u) ==> !Covers(Levels(), r, u)
    {
      if block > 0 {
        ParentChild(block);
        if Depth(block) <= Levels() {
          IndexBound(Levels(), Buddy(block));
          forall u | Covers(Levels(), block, u)
            ensures !Covers(Levels(), Buddy(block), u)
          {
            SameDepthDisjoint(Levels(), block, Buddy(block), u);
          }
        }
      }
      if block == 0 { return NULL; }
      if block % 2 == 0 { return block - 1; } else { return block + 1; }
    }

    /** The part of try_merge_with_buddy that fuses a block with its available buddy. */
    method FuseBlocks(block: nat, buddy: nat, parent: nat, ghost b: nat)
      requires Structured() && 0 < block < blocks.Length && buddy == Buddy(block) && parent == Parent(block)
      requires Inv(Held(View(), block)) && Used(Held(View(), block), block)
      requires Depth(block) + b == Levels() && buddy < blocks.Length && blocks[buddy].available
      modifies this`free, blocks, buckets
      ensures Structured() && SameAllocated(buckets[..], old(buckets[..]))
      ensures View() == Fuse(old(View()), block, b)
    {
      ghost var s := View();
      BeforeFuse(s, block);
      ParentChild(block);
      assert buddy in free[b] by {
        assert FreeLeaf(Held(s, block), buddy);
        assert buddy in Held(s, block).free[b];
      }
      hide Inv, Linked, Fuse;
      ghost var bs := blocks[..];
      ghost var free0 := free;
      RemoveFromAvailableList(buddy);
      ghost var cs := blocks[..];
      SameFlagsSamePool(Levels(), bs, cs, free0);
      MarkFusedEffect(Levels(), cs, buckets[..], free0, block, b);
      assert cs[parent].valid && !cs[parent].available by {
        assert s.valid[parent] == bs[parent].valid && s.avail[parent] == bs[parent].available;
      }
      blocks[buddy] := blocks[buddy].(valid := false);
      // the two assertions of try_merge_with_buddy
      assert !blocks[parent].available;
      assert blocks[parent].valid;
      blocks[parent] := blocks[parent].(available := true);
      blocks[block] := blocks[block].(valid := false);
      assert blocks[..] == MarkFused(cs, block, buddy, parent);
    }

    /** try_merge_with_buddy */
    method TryMergeWithBuddy(block: nat) returns (r: nat)
      requires Structured() && block < blocks.Length
      requires Inv(Held(View(), block)) && Used(Held(View(), block), block)
      modifies this`free, blocks, buckets
      ensures Structured() && SameAllocated(buckets[..], old(buckets[..]))
      ensures (View(), r) == Merge(old(View()), block)
      decreases block
    {
      ghost var s := View();
      var parent := GetParent(block);
      if parent == NULL { return block; }
      var buddy := GetBuddy(block);
      HeldRoom(s, block);
      LiveInRange(Held(s, block), block);
      if buddy == NULL || !blocks[buddy].available { return block; }
      ghost var b := Levels() - Depth(block);
      hide Inv, Linked;
      MergeFuses(s, block, b);
      FuseBlocks(block, buddy, parent, b);
      r := TryMergeWithBuddy(parent);
    }

    /** The part of free_pages that returns the merged block to its list. */
    method ReleaseBlock(block: nat)
      requires Structured() && Inv(View()) && Used(View(), block)
      modifies this`free, blocks, buckets
      ensures Structured() && SameAllocated(buckets[..], old(buckets[..]))
      ensures View() == Free(old(View()), block)
    {
      ghost var s := View();
      HeldUsed(s, block);
      var merged := TryMergeWithBuddy(block);
      ghost var t := View();
      HeldRoom(t, merged);
      ghost var b := Levels() - Depth(merged);
      assert merged !in free[b] by {
        assert !FreeLeaf(Held(t, merged), merged);
        assert merged in free[b] <==> merged in Held(t, merged).free[b];
      }
      hide Inv, Linked, Put;
      MarkFreeEffect(Levels(), blocks[..], buckets[..], free, merged, b);
      blocks[merged] := blocks[merged].(available := true);
      ghost var bs := blocks[..];
      AddToAvailableList(merged);
      SameFlagsSamePool(Levels(), bs, blocks[..], free);
    }

    /** The part of free_pages after its assertions. */
    method FreeBlock(block: nat)
      requires Valid() && Used(View(), block)
      modifies this`free, blocks, buckets
      ensures Valid() && View() == Free(old(View()), block)
    {
      ghost var s := View();
      HeldUsed(s, block);
      HeldRoom(s, block);
      InUsedSet(s, block);
      hide Inv, Linked, Counts, UsedSet, Free, PoolOf;
      FreeUsed(s, block);
      ReleaseBlock(block);
      CountsSame(Levels(), UsedSet(s), old(buckets[..]), buckets[..]);
      CountDown(block, UsedSet(s));
    }

    /** free_pages: false when one of its two assertions stops the kernel. */
    method FreePages(addr: nat) returns (ok: bool)
      requires Valid() && phyStart <= addr < U64
      requires BlockAt(phyStart, addr) < blocks.Length
      requires BlockAt(phyStart, addr) >= 0 && !blocks[BlockAt(phyStart, addr)].available ==>
        Used(View(), BlockAt(phyStart, addr))
      modifies this`free, blocks, buckets
      ensures Valid()
      ensures ok <==> BlockAt(phyStart, addr) >= 0 && !old(blocks[BlockAt(phyStart, addr)].available)
      ensures ok ==> View() == Free(old(View()), BlockAt(phyStart, addr))
      ensures !ok ==> View() == old(View())
    {
      var block := (addr - phyStart) / BLOCK_SIZE;
      if (addr - phyStart) % BLOCK_SIZE != 0 { return false; }
      if blocks[block].available { return false; }
      FreeBlock(block);
      ok := true;
    }

    /** kfree, that is kernel_page_free. */
    method Kfree(p: nat) returns (ok: bool)
      requires Valid() && KERNEL_START + phyStart <= p < KERNEL_START + U64
      requires BlockAt(phyStart, p - KERNEL_START) < blocks.Length
      requires BlockAt(phyStart, p - KERNEL_START) >= 0 && !blocks[BlockAt(phyStart, p - KERNEL_START)].available ==>
        Used(View(), BlockAt(phyStart, p - KERNEL_START))
      modifies this`free, blocks, buckets
      ensures Valid()
      ensures ok <==>
        BlockAt(phyStart, p - KERNEL_START) >= 0 && !old(blocks[BlockAt(phyStart, p - KERNEL_START)].available)
      ensures ok ==> View() == Free(old(View()), BlockAt(phyStart, p - KERNEL_START))
      ensures !ok ==> View() == old(View())
    {
      hide Inv, Linked, Counts, UsedSet, Free, PoolOf, Used, BlockAt, Dimensions;
      ok := FreePages(p - KERNEL_START);
    }

    // ----- The test at start-up -----

    lemma ViewLevels()
      ensures View().levels == Levels()
    {
    }

    /** The four calls of buddy_allocator_init. */
    method FourCalls()
      requires Valid() && IsInitial(View()) && 25 <= rootLog2Size
      modifies this`free, blocks, buckets
      ensures Valid() && IsInitial(View())
    {
      hide Inv, Linked, Counts, UsedSet, Alloc, Free, PoolOf, Used, IsInitial, BlockAddress, BlockAt;
      ghost var s := View();
      ViewLevels();
      BuddyRuns.TwoAndBackRestores(s, 24 - MIN_LOG2, 16 - MIN_LOG2);
      var addr1 := AllocatePages(24);
      var addr2 := AllocatePages(16);
      ghost var x, y := Alloc(s, 8).1.value, Alloc(Alloc(s, 8).0, 0).1.value;
      UsedIsHandedOut(x);
      AddressRoundTrip(phyStart, x, phyStart);
      var ok := FreePages(addr1.addr);
      assert ok;
      UsedIsHandedOut(y);
      AddressRoundTrip(phyStart, y, phyStart);
      ok := FreePages(addr2.addr);
      assert ok;
    }

    /** buddy_allocator_init: the check it asserts after its four calls holds. */
    method SelfTest() returns (passed: bool)
      requires Valid() && IsInitial(View()) && 25 <= rootLog2Size
      modifies this`free, blocks, buckets
      ensures passed && Valid() && IsInitial(View())
    {
      FourCalls();
      passed := true;
      var i := 0;
      while i < BUCKET_COUNT
        invariant 0 <= i <= BUCKET_COUNT && passed
      {
        assert BucketHolds(Levels(), blocks[..], buckets[..][i], free[i], i);
        assert free[i] == View().free[i];
        if i + MIN_LOG2 == rootLog2Size {
          assert LinkedAt(blocks[..], free[i], 0);
          if buckets[i].first == NULL {
            passed := false;
          } else if blocks[buckets[i].first].next != buckets[i].first {
            passed := false;
          }
        } else if buckets[i].first != NULL {
          passed := false;
        }
        i := i + 1;
      }
    }
  }
}