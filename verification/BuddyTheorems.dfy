/** What holds of every well-formed pool: partition, coalescing, completeness, round trip. */
module BuddyTheorems {
  import opened Powers
  import opened BuddyTree
  import opened BuddyPool
  import opened BuddyOps

  // ----- Release undoes allocation -----

  /** The list of bucket c with its head moved to the end. */
  ghost function Rotated(s: Pool, c: nat): Pool
    requires c < |s.free| && s.free[c] != []
  {
    s.(free := s.free[c := s.free[c][1..] + [s.free[c][0]]])
  }

  /** After fusing the two halves of a divided block the pool is as before the division. */
  lemma {:induction false} FuseUndoesDivide(s: Pool, p: nat, b: nat)
    requires Inv(s) && Used(s, p) && Depth(p) + b + 1 == s.levels && s.free[b] == []
    ensures Right(p) < |s.valid| && Parent(Left(p)) == p && Buddy(Left(p)) == Right(p)
    ensures SameBut(s, Fuse(Divide(s, p, b), Left(p), b), p)
    ensures Held(s, p) == s
  {
    DivideKeepsInv(s, p, b);
    ChildDepth(p);
    assert s.avail[p := false] == s.avail;
    var t := Divide(s, p, b);
    assert t.free[b] == [Right(p)];
    assert Remove([Right(p)], Right(p)) == [];
    assert t.free[b := []] == s.free;
    assert t.valid[Right(p) := false][Left(p) := false] == s.valid;
  }

  /** One unfolding of a merge whose buddy is available. */
  lemma {:induction false} MergeFuses(s: Pool, i: nat, b: nat)
    requires i < |s.avail| && Inv(Held(s, i)) && Used(Held(s, i), i)
    requires i > 0 && Avail(s, Buddy(i)) && Depth(i) + b == s.levels
    ensures Buddy(i) < |s.valid| && Parent(i) < |s.avail|
    ensures Inv(Held(Fuse(s, i, b), Parent(i))) && Used(Held(Fuse(s, i, b), Parent(i)), Parent(i))
    ensures Merge(s, i) == Merge(Fuse(s, i, b), Parent(i))
  {
    hide Inv;
    FuseKeepsInv(s, i, b);
  }

  /** Merging from the left half of a block just divided goes on as from the block itself. */
  lemma {:induction false} MergeFromHalf(s: Pool, p: nat, b: nat)
    requires Inv(s) && Used(s, p) && Depth(p) + b + 1 == s.levels && s.free[b] == []
    ensures p < |s.avail| && Held(s, p) == s && Right(p) < |s.valid|
    ensures Inv(Divide(s, p, b)) && Used(Divide(s, p, b), Left(p))
    ensures Left(p) < |s.avail| && Held(Divide(s, p, b), Left(p)) == Divide(s, p, b)
    ensures Merge(Divide(s, p, b), Left(p)).1 == Merge(s, p).1
    ensures SameBut(Merge(s, p).0, Merge(Divide(s, p, b), Left(p)).0, Merge(s, p).1)
  {
    HeldUsed(s, p);
    DivideKeepsInv(s, p, b);
    var t := Divide(s, p, b);
    HeldUsed(t, Left(p));
    ChildDepth(p);
    hide Inv;
    FuseUndoesDivide(s, p, b);
    MergeFuses(t, Left(p), b);
    MergeSame(s, Fuse(t, Left(p), b), p);
  }

  /** Merging from the block that serves a request for size b ends at the head of bucket c. */
  ghost predicate MergesBack(s: Pool, b: nat, c: nat)
    requires Inv(s) && BestFit(s, b, c)
  {
    && Alloc(s, b).1.Some?
    && Alloc(s, b).1.value < |s.avail|
    && Held(Alloc(s, b).0, Alloc(s, b).1.value) == Alloc(s, b).0
    && Merge(Alloc(s, b).0, Alloc(s, b).1.value).1 == s.free[c][0] < |s.avail|
    && SameBut(Take(s, c), Merge(Alloc(s, b).0, Alloc(s, b).1.value).0, s.free[c][0])
  }

  lemma {:induction false} SameButTransitive(r: Pool, s: Pool, t: Pool, i: nat)
    requires SameBut(r, s, i) && SameBut(s, t, i)
    ensures SameBut(r, t, i)
  {
  }

  lemma {:induction false} MergesBackFromHalf(s: Pool, b: nat, c: nat)
    requires Inv(s) && BestFit(s, b, c) && b < c
    requires Alloc(s, b + 1).0.free[b] == []
    requires MergesBack(s, b + 1, c)
    ensures MergesBack(s, b, c)
  {
    hide Inv, SameBut;
    var (t1, p) := Alloc(s, b + 1);
    AllocHalves(s, b);
    MergeFromHalf(t1, p.value, b);
    SameButTransitive(Take(s, c), Merge(t1, p.value).0, Merge(Alloc(s, b).0, Alloc(s, b).1.value).0, s.free[c][0]);
  }

  lemma {:induction false} HeadBuddyNotFree(s: Pool, c: nat)
    requires Inv(s) && c <= s.levels && s.free[c] != []
    ensures s.free[c][0] < |s.avail|
    ensures s.free[c][0] > 0 ==> !Avail(Take(s, c), Buddy(s.free[c][0]))
  {
    TakeKeepsInv(s, c);
    var x := s.free[c][0];
    if x > 0 {
      ParentChild(x);
      var p := Parent(x);
      assert Live(s, Left(p)) <==> Live(s, Right(p));
      assert FreeLeaf(s, Left(p)) ==> !FreeLeaf(s, Right(p));
    }
  }

  lemma {:induction false} MergesBackFromHead(s: Pool, c: nat)
    requires Inv(s) && BestFit(s, c, c)
    ensures MergesBack(s, c, c)
  {
    TakeKeepsInv(s, c);
    HeldUsed(Take(s, c), s.free[c][0]);
    HeadBuddyNotFree(s, c);
    assert Alloc(s, c) == (Take(s, c), Some(s.free[c][0]));
  }

  /** Serving a larger request leaves the smaller buckets alone. */
  lemma {:induction false} AllocKeepsBelow(s: Pool, b: nat, c: nat)
    requires Inv(s) && BestFit(s, b + 1, c)
    ensures Alloc(s, b + 1).0.free[b] == s.free[b]
  {
    hide Inv, Alloc, LeftDescendant;
    AllocBestFit(s, b + 1, c);
  }

  /** Freeing a block that was just allocated merges it back to the head it was cut from. */
  lemma {:induction false} MergeUndoesAlloc(s: Pool, b: nat, c: nat)
    requires Inv(s) && BestFit(s, b, c)
    ensures MergesBack(s, b, c)
    decreases c - b
  {
    if b == c {
      MergesBackFromHead(s, c);
    } else {
      hide Inv, MergesBack;
      AllocKeepsBelow(s, b, c);
      MergeUndoesAlloc(s, b + 1, c);
      MergesBackFromHalf(s, b, c);
    }
  }

  /** Freeing what was just allocated restores the pool, with the head of one bucket moved to its end. */
  lemma {:induction false} FreeUndoesAlloc(s: Pool, b: nat, c: nat)
    requires Inv(s) && BestFit(s, b, c)
    ensures Alloc(s, b).1.Some?
    ensures Same(Rotated(s, c), Free(Alloc(s, b).0, Alloc(s, b).1.value))
  {
    MergeUndoesAlloc(s, b, c);
    TakeKeepsInv(s, c);
    var (t, x) := Alloc(s, b);
    var (m, h) := Merge(t, x.value);
    assert Free(t, x.value) == Put(m, h, c);
    assert s.free[c := s.free[c][1..]][c := s.free[c][1..] + [h]] == Rotated(s, c).free;
  }

  // ----- The guard of free_pages -----

  /** try_merge_with_buddy on whatever the flags say. */
  ghost function RawMerge(s: Pool, i: nat): (r: (Pool, nat))
    requires Sized(s) && Depth(i) <= s.levels
    ensures SameSize(r.0, s) && Sized(r.0) && r.1 <= i && Depth(r.1) <= s.levels
    decreases i
  {
    IndexBound(s.levels, i);
    if i == 0 || !Avail(s, Buddy(i)) then (s, i)
    else
      ParentChild(i);
      IndexBound(s.levels, Buddy(i));
      RawMerge(Fuse(s, i, s.levels - Depth(i)), Parent(i))
  }

  /** free_pages after its assertions, on whatever the flags say. */
  ghost function RawFree(s: Pool, i: nat): Pool
    requires Sized(s) && Depth(i) <= s.levels
  {
    var (t, m) := RawMerge(s, i);
    IndexBound(s.levels, m);
    Put(t, m, s.levels - Depth(m))
  }

  lemma {:induction false} RawMergeStep(s: Pool, i: nat) returns (t: Pool)
    requires Sized(s) && Depth(i) <= s.levels && i > 0 && Avail(s, Buddy(i))
    ensures i < |s.valid| && Buddy(i) < |s.valid|
    ensures t == Fuse(s, i, s.levels - Depth(i)) && Sized(t) && Depth(Parent(i)) <= t.levels == s.levels
    ensures RawMerge(s, i) == RawMerge(t, Parent(i))
  {
    hide Depth, Pow2;
    ParentChild(i);
    IndexBound(s.levels, i);
    IndexBound(s.levels, Buddy(i));
    t := Fuse(s, i, s.levels - Depth(i));
  }

  lemma {:induction false} HeldSized(s: Pool, i: nat)
    requires i < |s.avail| && Inv(Held(s, i)) && Used(Held(s, i), i)
    ensures Sized(s) && Depth(i) <= s.levels
  {
  }

  lemma {:induction false} RawMergeIsMerge(s: Pool, i: nat)
    requires i < |s.avail| && Inv(Held(s, i)) && Used(Held(s, i), i)
    ensures Sized(s) && Depth(i) <= s.levels && RawMerge(s, i) == Merge(s, i)
    decreases i
  {
    hide Inv, Used, Held, Sized, Depth;
    HeldSized(s, i);
    HeldRoom(s, i);
    if i > 0 && Avail(s, Buddy(i)) {
      hide RawMerge, Fuse;
      MergeFuses(s, i, s.levels - Depth(i));
      var t := RawMergeStep(s, i);
      RawMergeIsMerge(t, Parent(i));
    }
  }

  lemma {:induction false} RawFreeIsFree(s: Pool, i: nat)
    requires Inv(s) && Used(s, i)
    ensures Sized(s) && Depth(i) <= s.levels && RawFree(s, i) == Free(s, i)
  {
    HeldUsed(s, i);
    RawMergeIsMerge(s, i);
  }

  /** Merging never makes a node valid, and leaves the flags of everything above its start's buddy alone. */
  lemma {:induction false} RawMergeValid(s: Pool, i: nat, x: nat)
    requires Sized(s) && Depth(i) <= s.levels && x < |s.valid|
    ensures RawMerge(s, i).0.valid[x] ==> s.valid[x]
    ensures x > i + 1 ==> RawMerge(s, i).0.valid[x] == s.valid[x]
    decreases i
  {
    hide Depth, Pow2;
    if i > 0 && Avail(s, Buddy(i)) {
      hide RawMerge, Sized;
      var t := RawMergeStep(s, i);
      RawMergeValid(t, Parent(i), x);
    }
  }

  /** A merge that finds the buddy available leaves the node it started from dead. */
  lemma {:induction false} RawMergeLeavesDead(s: Pool, i: nat)
    requires Sized(s) && Depth(i) <= s.levels && i > 0 && Avail(s, Buddy(i))
    ensures i < |RawMerge(s, i).0.valid| && !RawMerge(s, i).0.valid[i]
  {
    hide Depth, Pow2, RawMerge, Sized;
    var t := RawMergeStep(s, i);
    RawMergeValid(t, Parent(i), i);
  }

  lemma {:induction false} LiveUnderSpoils(t: Pool, i: nat)
    requires Live(t, Left(i)) && (Live(t, i) ==> FreeLeaf(t, i))
    ensures !Inv(t)
  {
  }

  /** Releasing a divided node leaves a free node with live halves, or live halves under a dead node. */
  lemma {:induction false} DividedReleaseSpoils(s: Pool, i: nat)
    requires Inv(s) && Live(s, i) && Live(s, Left(i))
    ensures Sized(s) && Depth(i) <= s.levels && !Inv(RawFree(s, i))
  {
    assert Sized(s) && Depth(i) <= s.levels;
    hide Inv, Pow2, Depth;
    RawMergeValid(s, i, Left(i));
    IndexBound(s.levels, i);
    if i > 0 && Avail(s, Buddy(i)) {
      RawMergeLeavesDead(s, i);
    }
    LiveUnderSpoils(RawFree(s, i), i);
  }

  /**
   Releasing a node that passes the `available` check leaves a well-formed pool exactly when
   the node was in use. This is for every live node, and for every dead one whose buddy does
   not read as available: divided nodes and dead ones with a cleared flag pass the check too,
   and spoil the pool.
   */
  lemma {:induction false} ReleaseWellFormedIff(s: Pool, i: nat)
    requires Inv(s) && Depth(i) <= s.levels && !Avail(s, i)
    requires Live(s, i) || !Avail(s, Buddy(i))
    ensures Inv(RawFree(s, i)) <==> Used(s, i)
  {
    if Used(s, i) {
      RawFreeIsFree(s, i);
    } else if Live(s, i) {
      DividedReleaseSpoils(s, i);
    } else {
      IndexBound(s.levels, i);
      var t, b := RawFree(s, i), s.levels - Depth(i);
      assert t == Put(s, i, b);
      assert i in t.free[b] && !FreeLeaf(t, i);
    }
  }

  lemma {:induction false} BuddyIsLive(s: Pool, i: nat)
    requires Inv(s) && Live(s, i) && i > 0
    ensures Live(s, Buddy(i)) && Live(s, Parent(i)) && !FreeLeaf(s, Parent(i))
  {
    ParentChild(i);
    var p := Parent(i);
    assert Live(s, Left(p)) <==> Live(s, Right(p));
  }

  /** Merging upwards from i touches no flag at an index above i other than its buddy's validity. */
  lemma {:induction false} MergeLeavesDead(s: Pool, i: nat, j: nat)
    requires i < |s.avail| && Inv(Held(s, i)) && Used(Held(s, i), i)
    requires i < j < |s.avail|
    ensures Merge(s, i).0.avail[j] == s.avail[j]
    decreases i
  {
    HeldRoom(s, i);
    hide Inv;
    if i > 0 && Avail(s, Buddy(i)) {
      var b := s.levels - Depth(i);
      BeforeFuse(s, i);
      FuseKeepsInv(s, i, b);
      MergeLeavesDead(Fuse(s, i, b), Parent(i), j);
    }
  }

  /**
   The `available` check of free_pages stops a second release of a block exactly when the
   first release did not merge it: a merged block keeps its cleared flag.
   */
  lemma {:induction false} DoubleFreeCaughtIff(s: Pool, i: nat)
    requires Inv(s) && Used(s, i)
    ensures Avail(Free(s, i), i) <==> (i == 0 || !FreeLeaf(s, Buddy(i)))
  {
    assert Held(s, i) == s by { assert s.avail[i := false] == s.avail; }
    HeldRoom(s, i);
    if i > 0 {
      BuddyIsLive(s, i);
    }
    hide Inv;
    if i > 0 && Avail(s, Buddy(i)) {
      var b := s.levels - Depth(i);
      MergeFuses(s, i, b);
      MergeLeavesDead(Fuse(s, i, b), Parent(i), i);
    }
  }

  // ----- Coalescing is complete -----

  /** Below every live node that is not free there is a block in use. */
  lemma {:induction false} SomeUsedBelow(s: Pool, i: nat) returns (j: nat)
    requires Inv(s) && Live(s, i) && !FreeLeaf(s, i)
    ensures Used(s, j) && Depth(j) <= s.levels
    ensures forall u :: Covers(s.levels, j, u) ==> Covers(s.levels, i, u)
    decreases s.levels - Depth(i)
  {
    if Live(s, Left(i)) {
      ChildDepth(i);
      assert Live(s, Left(i)) <==> Live(s, Right(i));
      ChildSpans(s.levels, i);
      if FreeLeaf(s, Left(i)) {
        j := SomeUsedBelow(s, Right(i));
      } else {
        j := SomeUsedBelow(s, Left(i));
      }
    } else {
      j := i;
    }
  }

  lemma {:induction false} RootLeafIsAlone(s: Pool, j: nat)
    requires Inv(s) && Leaf(s, 0) && Live(s, j)
    ensures j == 0
  {
    if j > 0 {
      ParentChild(j);
      var p := Parent(j);
      assert Live(s, Left(p)) <==> Live(s, Right(p));
      RootLeafIsAlone(s, p);
    }
  }

  /** The pool the constructor builds: one free root, every other bucket empty. */
  ghost predicate IsInitial(s: Pool)
  {
    && Sized(s) && FreeLeaf(s, 0)
    && (forall i: nat {:trigger Live(s, i)} :: Live(s, i) <==> i == 0)
    && forall b :: 0 <= b < |s.free| ==> s.free[b] == (if b == s.levels then [0] else [])
  }

  lemma {:induction false} InitialIsWellFormed(s: Pool)
    requires IsInitial(s)
    ensures Inv(s) && UsedSet(s) == {}
    ensures forall i: nat :: !Used(s, i)
  {
    assert forall i: nat :: Depth(i) == 0 <==> i == 0;
  }

  lemma {:induction false} OnlyRootListed(s: Pool, b: nat)
    requires Inv(s) && b < |s.free| && FreeLeaf(s, 0)
    requires forall i: nat {:trigger Live(s, i)} :: Live(s, i) <==> i == 0
    ensures s.free[b] == (if b == s.levels then [0] else [])
  {
    var l := s.free[b];
    assert NoDuplicates(l);
    assert |l| > 1 ==> l[0] != l[1];
    assert 0 in l <==> b == s.levels;
    forall k | 0 <= k < |l|
      ensures l[k] == 0
    {
      assert l[k] in l;
      assert Live(s, l[k]);
    }
    assert |l| == 1 ==> l[0] in l && l == [0];
  }

  /** With nothing handed out the pool is as the constructor built it. */
  lemma {:induction false} AllFreedIsInitial(s: Pool)
    requires Inv(s) && forall i: nat :: !Used(s, i)
    ensures IsInitial(s)
  {
    if !FreeLeaf(s, 0) {
      var j := SomeUsedBelow(s, 0);
    }
    forall i: nat
      ensures Live(s, i) <==> i == 0
    {
      if Live(s, i) { RootLeafIsAlone(s, i); }
    }
    forall b | 0 <= b < |s.free|
      ensures s.free[b] == (if b == s.levels then [0] else [])
    {
      OnlyRootListed(s, b);
    }
  }

  // ----- Leaves partition the region -----

  /** A unit covered by a leaf is covered by no other live node at the same depth or deeper. */
  lemma {:induction false} LeafSpanExclusive(s: Pool, i: nat, j: nat, u: int)
    requires Inv(s) && Leaf(s, i) && Live(s, j) && i != j && Depth(i) <= Depth(j)
    requires Covers(s.levels, i, u)
    ensures !Covers(s.levels, j, u)
    decreases Depth(j)
  {
    if Depth(i) == Depth(j) {
      SameDepthDisjoint(s.levels, i, j, u);
    } else {
      ParentChild(j);
      var p := Parent(j);
      assert Live(s, Left(p)) <==> Live(s, Right(p));
      assert p != i;
      LeafSpanExclusive(s, i, p, u);
      ChildSpans(s.levels, p);
    }
  }

  /** The leaves of the subtree of a live node. */
  ghost function LeavesUnder(s: Pool, i: nat): set<nat>
    requires Inv(s) && Live(s, i)
    decreases s.levels - Depth(i)
  {
    if Live(s, Left(i)) then
      ChildDepth(i);
      assert Live(s, Left(i)) <==> Live(s, Right(i));
      LeavesUnder(s, Left(i)) + LeavesUnder(s, Right(i))
    else {i}
  }

  lemma {:induction false} LeafUnder(s: Pool, i: nat, u: int) returns (j: nat)
    requires Inv(s) && Live(s, i) && Covers(s.levels, i, u)
    ensures j in LeavesUnder(s, i) && Leaf(s, j) && Covers(s.levels, j, u)
    decreases s.levels - Depth(i)
  {
    if Live(s, Left(i)) {
      ChildDepth(i);
      assert Live(s, Left(i)) <==> Live(s, Right(i));
      ChildSpans(s.levels, i);
      if u < Start(s.levels, Right(i)) {
        j := LeafUnder(s, Left(i), u);
      } else {
        j := LeafUnder(s, Right(i), u);
      }
    } else {
      j := i;
    }
  }

  /** Two leaves that cover a common unit are the same leaf. */
  lemma {:induction false} SameLeaf(s: Pool, u: int, i: nat, j: nat)
    requires Inv(s) && Leaf(s, i) && Leaf(s, j)
    requires Covers(s.levels, i, u) && Covers(s.levels, j, u)
    ensures i == j
  {
    if i != j {
      if Depth(i) <= Depth(j) {
        LeafSpanExclusive(s, i, j, u);
      } else {
        LeafSpanExclusive(s, j, i, u);
      }
    }
  }

  lemma {:induction false} FreeIsLeaf(s: Pool, i: nat)
    requires Inv(s)
    ensures Leaf(s, i) <==> (FreeLeaf(s, i) != Used(s, i))
    ensures FreeLeaf(s, i) ==> Leaf(s, i)
  {
    assert Live(s, Left(i)) ==> !FreeLeaf(s, i);
  }

  /** Every unit of the region lies in exactly one leaf, and that leaf is either free or in use. */
  lemma {:induction false} LeavesPartition(s: Pool, u: nat)
    requires Inv(s) && u < Pow2(s.levels)
    ensures exists i: nat :: Leaf(s, i) && Covers(s.levels, i, u)
    ensures forall i: nat, j: nat ::
      (Leaf(s, i) && Leaf(s, j) && Covers(s.levels, i, u) && Covers(s.levels, j, u)) ==> i == j
    ensures forall i: nat :: Leaf(s, i) <==> (FreeLeaf(s, i) != Used(s, i))
  {
    var k := LeafUnder(s, 0, u);
    forall i: nat, j: nat | Leaf(s, i) && Leaf(s, j) && Covers(s.levels, i, u) && Covers(s.levels, j, u)
      ensures i == j
    {
      SameLeaf(s, u, i, j);
    }
    forall i: nat { FreeIsLeaf(s, i); }
  }

  // ----- Allocation is complete -----

  /** Every unit of position i is covered by a free leaf. */
  ghost predicate WhollyFree(s: Pool, i: nat)
  {
    Depth(i) <= s.levels &&
    forall u: int :: Covers(s.levels, i, u) ==> exists j: nat :: FreeLeaf(s, j) && Covers(s.levels, j, u)
  }

  /** The live node a position belongs to: itself, or the leaf it lies in. */
  lemma {:induction false} Enclosing(s: Pool, i: nat) returns (a: nat)
    requires Inv(s) && Depth(i) <= s.levels
    ensures Live(s, a) && Depth(a) <= Depth(i)
    ensures a == i || Leaf(s, a)
    ensures forall u :: Covers(s.levels, i, u) ==> Covers(s.levels, a, u)
  {
    if Live(s, i) {
      a := i;
    } else {
      ParentChild(i);
      ChildSpans(s.levels, Parent(i));
      a := Enclosing(s, Parent(i));
      assert Live(s, Left(Parent(i))) <==> Live(s, Right(Parent(i)));
    }
  }

  /** A wholly free position lies inside a single free block: this is what merging buys. */
  lemma {:induction false} WhollyFreeIsOneBlock(s: Pool, i: nat) returns (a: nat)
    requires Inv(s) && WhollyFree(s, i)
    ensures FreeLeaf(s, a) && Depth(a) <= Depth(i) && a in s.free[s.levels - Depth(a)]
    ensures forall u :: Covers(s.levels, i, u) ==> Covers(s.levels, a, u)
  {
    a := Enclosing(s, i);
    if !FreeLeaf(s, a) {
      var j := SomeUsedBelow(s, a);
      var u := Start(s.levels, if a == i then j else i);
      assert Covers(s.levels, i, u) && Covers(s.levels, a, u);
      var f: nat :| FreeLeaf(s, f) && Covers(s.levels, f, u);
      FreeIsLeaf(s, f);
      SameLeaf(s, u, f, if a == i then j else a);
    }
  }

  lemma {:induction false} LeftDescendantInside(levels: nat, x: nat, k: nat)
    requires Depth(x) + k <= levels
    ensures forall u :: Covers(levels, LeftDescendant(x, k), u) ==> Covers(levels, x, u)
  {
    if k > 0 {
      LeftDescendantInside(levels, x, k - 1);
      ChildSpans(levels, LeftDescendant(x, k - 1));
    }
  }

  /** The block an allocation returns was wholly free before. */
  lemma {:induction false} AllocTakesFreePosition(s: Pool, b: nat, c: nat)
    requires Inv(s) && BestFit(s, b, c)
    ensures Depth(LeftDescendant(s.free[c][0], c - b)) + b == s.levels
    ensures WhollyFree(s, LeftDescendant(s.free[c][0], c - b))
  {
    var h := s.free[c][0];
    assert h in s.free[c];
    LeftDescendantInside(s.levels, h, c - b);
  }

  /** A request fails exactly when no aligned position of its size is wholly free. */
  lemma {:induction false} AllocFailsIffNoFreePosition(s: Pool, b: nat)
    requires Inv(s) && b <= s.levels
    ensures Alloc(s, b).1.None? <==> !exists i: nat :: Depth(i) + b == s.levels && WhollyFree(s, i)
  {
    if Alloc(s, b).1.Some? {
      var c := SmallestBucket(s, b);
      AllocTakesFreePosition(s, b, c);
    } else {
      AllocFails(s, b);
      forall i: nat | Depth(i) + b == s.levels
        ensures !WhollyFree(s, i)
      {
        if WhollyFree(s, i) {
          var a := WhollyFreeIsOneBlock(s, i);
        }
      }
    }
  }
}
