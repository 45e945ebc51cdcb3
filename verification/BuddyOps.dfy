/**
 Allocation and release on a pool, in the order mm/page_alloc.cpp performs them, and what
 each of them does to the set of blocks handed out.
 */
module BuddyOps {
  import opened Powers
  import opened BuddyTree
  import opened BuddyPool

  datatype Option<+T> = None | Some(value: T)

  /** Pools with one tree and the same room. */
  ghost predicate SameSize(s: Pool, t: Pool)
  {
    s.levels == t.levels && |s.valid| == |t.valid| && |s.avail| == |t.avail| && |s.free| == |t.free|
  }

  /** alloc_block_size: take the head of bucket b, or halve a block of the next size. */
  ghost function Alloc(s: Pool, b: nat): (r: (Pool, Option<nat>))
    requires Inv(s)
    ensures Inv(r.0) && SameSize(r.0, s)
    ensures r.1.None? ==> r.0 == s
    ensures r.1.Some? ==> Used(r.0, r.1.value) && Depth(r.1.value) + b == s.levels
    decreases s.levels + 1 - b
  {
    if b > s.levels then (s, None)
    else if s.free[b] == [] then
      var (s1, found) := Alloc(s, b + 1);
      if found.None? then (s1, None) else
        var p := found.value;
        DivideKeepsInv(s1, p, b);
        ChildDepth(p);
        (Divide(s1, p, b), Some(Left(p)))
    else
      TakeKeepsInv(s, b);
      (Take(s, b), Some(s.free[b][0]))
  }

  /** try_merge_with_buddy: fuse upwards as long as the buddy is available. */
  ghost function Merge(s: Pool, i: nat): (r: (Pool, nat))
    requires i < |s.avail| && Inv(Held(s, i)) && Used(Held(s, i), i)
    ensures SameSize(r.0, s)
    ensures r.1 <= i && r.1 < |r.0.avail| && Inv(Held(r.0, r.1)) && Used(Held(r.0, r.1), r.1)
    ensures r.1 > 0 ==> !Avail(r.0, Buddy(r.1))
    decreases i
  {
    if i == 0 || !Avail(s, Buddy(i)) then (s, i)
    else
      var b := s.levels - Depth(i);
      BeforeFuse(s, i);
      FuseKeepsInv(s, i, b);
      Merge(Fuse(s, i, b), Parent(i))
  }

  /** free_pages on a block that is in use. */
  ghost function Free(s: Pool, i: nat): (t: Pool)
    requires Inv(s) && Used(s, i)
    ensures Inv(t) && SameSize(t, s)
  {
    assert s.avail[i := false] == s.avail;
    assert Held(s, i) == s;
    var (s1, m) := Merge(s, i);
    var b := s.levels - Depth(m);
    PutKeepsInv(Held(s1, m), m, b);
    assert Put(Held(s1, m), m, b) == Put(s1, m, b) by {
      assert s1.avail[m := false][m := true] == s1.avail[m := true];
    }
    Put(s1, m, b)
  }

  // ----- The set of blocks handed out -----

  lemma {:induction false} AllocUsed(s: Pool, b: nat)
    requires Inv(s) && Alloc(s, b).1.Some?
    ensures !Used(s, Alloc(s, b).1.value)
    ensures UsedSet(Alloc(s, b).0) == UsedSet(s) + {Alloc(s, b).1.value}
    decreases s.levels + 1 - b
  {
    if s.free[b] == [] {
      AllocUsed(s, b + 1);
      var (s1, p) := Alloc(s, b + 1);
      DivideKeepsInv(s1, p.value, b);
      var l := Left(p.value);
      assert Used(s, l) ==> l in UsedSet(s1);
    } else {
      TakeKeepsInv(s, b);
    }
  }

  lemma {:induction false} MergeUsed(s: Pool, i: nat)
    requires i < |s.avail| && Inv(Held(s, i)) && Used(Held(s, i), i)
    ensures UsedSet(Held(Merge(s, i).0, Merge(s, i).1)) == UsedSet(Held(s, i)) - {i} + {Merge(s, i).1}
    ensures Merge(s, i).1 == i || Merge(s, i).1 !in UsedSet(Held(s, i))
    decreases i
  {
    HeldRoom(s, i);
    hide Inv;
    if i > 0 && Avail(s, Buddy(i)) {
      var b := s.levels - Depth(i);
      BeforeFuse(s, i);
      FuseKeepsInv(s, i, b);
      assert !Used(Held(s, i), Parent(i)) by {
        assert Live(Held(s, i), Left(Parent(i)));
      }
      MergeUsed(Fuse(s, i, b), Parent(i));
    }
  }

  lemma {:induction false} HeldUsed(s: Pool, i: nat)
    requires Inv(s) && Used(s, i)
    ensures i < |s.avail| && Held(s, i) == s
  {
    assert s.avail[i := false] == s.avail;
  }

  lemma {:induction false} FreeUsed(s: Pool, i: nat)
    requires Inv(s) && Used(s, i)
    ensures UsedSet(Free(s, i)) == UsedSet(s) - {i}
  {
    hide Inv, UsedSet;
    assert i < |s.avail| && Held(s, i) == s by { HeldUsed(s, i); }
    var (s1, m) := Merge(s, i);
    HeldRoom(s1, m);
    MergeUsed(s, i);
    var b := s.levels - Depth(m);
    PutKeepsInv(Held(s1, m), m, b);
    assert s1.avail[m := false][m := true] == s1.avail[m := true];
    assert Free(s, i) == Put(Held(s1, m), m, b);
  }

  // ----- Best fit -----

  /** Bucket c is the smallest non-empty one that can serve a request for size b. */
  ghost predicate BestFit(s: Pool, b: nat, c: nat)
  {
    && b <= c <= s.levels < |s.free| && s.free[c] != []
    && forall j :: b <= j < c ==> s.free[j] == []
  }

  /** The lists after a best-fit allocation: one right sibling at every size passed through. */
  ghost predicate SplitLists(s: Pool, t: Pool, b: nat, c: nat)
    requires BestFit(s, b, c)
  {
    && |t.free| == |s.free|
    && t.free[c] == s.free[c][1..]
    && (forall j :: b <= j < c ==> t.free[j] == [Right(LeftDescendant(s.free[c][0], c - 1 - j))])
    && (forall j :: 0 <= j < |s.free| && !(b <= j <= c) ==> t.free[j] == s.free[j])
  }

  /** Halving the block found one size up extends the chain of right siblings by one. */
  lemma {:induction false} DivideExtendsSplit(s: Pool, t: Pool, b: nat, c: nat)
    requires BestFit(s, b, c) && b < c
    requires |t.valid| == |t.avail|
    requires SplitLists(s, t, b + 1, c)
    requires Right(LeftDescendant(s.free[c][0], c - b - 1)) < |t.valid|
    ensures SplitLists(s, Divide(t, LeftDescendant(s.free[c][0], c - b - 1), b), b, c)
  {
    assert t.free[b] == [];
  }

  /** One unfolding of a request whose own bucket is empty. */
  lemma {:induction false} AllocHalves(s: Pool, b: nat)
    requires Inv(s) && b <= s.levels && s.free[b] == [] && Alloc(s, b + 1).1.Some?
    ensures Right(Alloc(s, b + 1).1.value) < |Alloc(s, b + 1).0.valid| == |Alloc(s, b + 1).0.avail|
    ensures Alloc(s, b) == (Divide(Alloc(s, b + 1).0, Alloc(s, b + 1).1.value, b), Some(Left(Alloc(s, b + 1).1.value)))
  {
    DivideKeepsInv(Alloc(s, b + 1).0, Alloc(s, b + 1).1.value, b);
  }

  lemma {:induction false} TakeSplits(s: Pool, b: nat)
    requires Inv(s) && BestFit(s, b, b)
    ensures Alloc(s, b).1 == Some(s.free[b][0])
    ensures SplitLists(s, Alloc(s, b).0, b, b)
  {
    TakeKeepsInv(s, b);
    assert Alloc(s, b).0 == Take(s, b);
  }

  lemma {:induction false} LeftDescendantStep(x: nat, k: nat)
    ensures LeftDescendant(x, k + 1) == Left(LeftDescendant(x, k)) && LeftDescendant(x, 0) == x
  {
  }

  lemma {:induction false} AllocBestFit(s: Pool, b: nat, c: nat)
    requires Inv(s) && BestFit(s, b, c)
    ensures Alloc(s, b).1 == Some(LeftDescendant(s.free[c][0], c - b))
    ensures SplitLists(s, Alloc(s, b).0, b, c)
    decreases c - b
  {
    hide Inv, Alloc, SplitLists, LeftDescendant, Left, Right;
    if b == c {
      TakeSplits(s, b);
      LeftDescendantStep(s.free[c][0], 0);
    } else {
      assert BestFit(s, b + 1, c) && s.free[b] == [];
      AllocBestFit(s, b + 1, c);
      AllocHalves(s, b);
      LeftDescendantStep(s.free[c][0], c - b - 1);
      assert c - (b + 1) == c - b - 1;
      DivideExtendsSplit(s, Alloc(s, b + 1).0, b, c);
    }
  }

  lemma {:induction false} AllocFails(s: Pool, b: nat)
    requires Inv(s)
    ensures Alloc(s, b).1.None? <==> forall c :: b <= c <= s.levels ==> s.free[c] == []
    decreases s.levels + 1 - b
  {
    if b > s.levels {
    } else {
      AllocFails(s, b + 1);
    }
  }

  /** When allocation succeeds there is a smallest sufficient bucket. */
  lemma {:induction false} SmallestBucket(s: Pool, b: nat) returns (c: nat)
    requires Inv(s) && Alloc(s, b).1.Some?
    ensures BestFit(s, b, c)
    decreases s.levels + 1 - b
  {
    if s.free[b] != [] {
      c := b;
    } else {
      c := SmallestBucket(s, b + 1);
    }
  }

  // ----- Release undoes allocation -----

  /** Pools that agree on everything but the stale flags of dead nodes, and on node i. */
  ghost predicate SameBut(s: Pool, t: Pool, i: nat)
  {
    && SameSize(s, t) && s.valid == t.valid && s.free == t.free
    && |s.valid| == |s.avail|
    && forall j :: 0 <= j < |s.valid| && s.valid[j] && j != i ==> s.avail[j] == t.avail[j]
  }

  ghost predicate Same(s: Pool, t: Pool)
  {
    && SameSize(s, t) && s.valid == t.valid && s.free == t.free
    && |s.valid| == |s.avail|
    && forall j :: 0 <= j < |s.valid| && s.valid[j] ==> s.avail[j] == t.avail[j]
  }

  lemma {:induction false} SameHeld(s: Pool, t: Pool, i: nat)
    requires i < |s.avail| && SameBut(s, t, i) && Inv(Held(s, i)) && Used(Held(s, i), i)
    ensures Inv(Held(t, i)) && Used(Held(t, i), i)
  {
    var a, z := Held(s, i), Held(t, i);
    assert forall j: nat :: Live(a, j) <==> Live(z, j);
    assert forall j: nat :: FreeLeaf(a, j) <==> FreeLeaf(z, j);
    assert Listed(z) by {
      forall b | 0 <= b < |z.free|
        ensures NoDuplicates(z.free[b])
        ensures forall j: nat {:trigger j in z.free[b]} {:trigger FreeLeaf(z, j)} ::
          j in z.free[b] <==> FreeLeaf(z, j) && Depth(j) + b == z.levels
      {
        assert NoDuplicates(a.free[b]);
      }
    }
  }

  /** Fusing keeps pools the same but for the parent. */
  lemma {:induction false} FuseSame(s: Pool, t: Pool, i: nat, b: nat)
    requires i > 0 && b < |s.free|
    requires i < |s.valid| == |s.avail| && Buddy(i) < |s.valid|
    requires SameBut(s, t, i)
    ensures SameBut(Fuse(s, i, b), Fuse(t, i, b), Parent(i))
  {
  }

  /** Both pools take the same branch of `Merge`. */
  lemma {:induction false} MergeBranch(s: Pool, t: Pool, i: nat)
    requires i < |s.avail| && SameBut(s, t, i) && Inv(Held(s, i)) && Used(Held(s, i), i)
    requires i > 0
    ensures Buddy(i) < |s.valid| && Live(s, Buddy(i)) && (Avail(s, Buddy(i)) <==> Avail(t, Buddy(i)))
  {
    var h := Held(s, i);
    LiveInRange(h, i);
    ParentChild(i);
    assert Live(h, Left(Parent(i))) <==> Live(h, Right(Parent(i)));
  }

  lemma {:induction false} MergeSame(s: Pool, t: Pool, i: nat)
    requires i < |s.avail| && SameBut(s, t, i) && Inv(Held(s, i)) && Used(Held(s, i), i)
    ensures Inv(Held(t, i)) && Used(Held(t, i), i)
    ensures Merge(s, i).1 == Merge(t, i).1
    ensures SameBut(Merge(s, i).0, Merge(t, i).0, Merge(s, i).1)
    decreases i
  {
    hide Inv, Fuse, Used, Live;
    SameHeld(s, t, i);
    if i > 0 {
      MergeBranch(s, t, i);
      if Avail(s, Buddy(i)) {
        var b := s.levels - Depth(i);
        HeldRoom(s, i);
        BeforeFuse(s, i);
        FuseKeepsInv(s, i, b);
        FuseSame(s, t, i, b);
        MergeSame(Fuse(s, i, b), Fuse(t, i, b), Parent(i));
      }
    }
  }
}
