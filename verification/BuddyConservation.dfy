/** Free and used blocks always add up to the whole region. */
module BuddyConservation {
  import opened Powers
  import opened BuddyTree
  import opened BuddyPool
  import opened BuddyOps
  import opened BuddyTheorems

  ghost predicate Within(levels: nat, S: set<nat>)
  {
    forall i :: i in S ==> Depth(i) <= levels
  }

  /** Units covered by a set of nodes, node by node. */
  ghost function SumUnits(levels: nat, S: set<nat>): nat
    requires Within(levels, S)
  {
    if S == {} then 0
    else var i :| i in S; Units(levels, i) + SumUnits(levels, S - {i})
  }

  lemma {:induction false} SumRemove(levels: nat, S: set<nat>, i: nat)
    requires Within(levels, S) && i in S
    ensures SumUnits(levels, S) == Units(levels, i) + SumUnits(levels, S - {i})
  {
    var j :| j in S && SumUnits(levels, S) == Units(levels, j) + SumUnits(levels, S - {j});
    if i != j {
      SumRemove(levels, S - {j}, i);
      SumRemove(levels, S - {i}, j);
      assert S - {i} - {j} == S - {j} - {i};
    }
  }

  lemma {:induction false} SumUnion(levels: nat, S: set<nat>, T: set<nat>)
    requires Within(levels, S) && Within(levels, T) && S !! T
    ensures SumUnits(levels, S + T) == SumUnits(levels, S) + SumUnits(levels, T)
    decreases S
  {
    if S == {} {
      assert S + T == T;
    } else {
      var i :| i in S;
      SumRemove(levels, S, i);
      SumRemove(levels, S + T, i);
      assert S + T - {i} == (S - {i}) + T;
      SumUnion(levels, S - {i}, T);
    }
  }

  lemma {:induction false} LeavesUnderInside(s: Pool, i: nat)
    requires Inv(s) && Live(s, i)
    ensures forall j :: j in LeavesUnder(s, i) ==> Leaf(s, j) && Covers(s.levels, i, Start(s.levels, j))
    decreases s.levels - Depth(i)
  {
    if Live(s, Left(i)) {
      ChildDepth(i);
      assert Live(s, Left(i)) <==> Live(s, Right(i));
      ChildSpans(s.levels, i);
      LeavesUnderInside(s, Left(i));
      LeavesUnderInside(s, Right(i));
    }
  }

  lemma {:induction false} LeavesUnderSum(s: Pool, i: nat)
    requires Inv(s) && Live(s, i)
    ensures Within(s.levels, LeavesUnder(s, i))
    ensures SumUnits(s.levels, LeavesUnder(s, i)) == Units(s.levels, i)
    decreases s.levels - Depth(i)
  {
    LeavesUnderInside(s, i);
    if Live(s, Left(i)) {
      ChildDepth(i);
      var l, r := Left(i), Right(i);
      assert Live(s, l) <==> Live(s, r);
      ChildSpans(s.levels, i);
      LeavesUnderSum(s, l);
      LeavesUnderSum(s, r);
      LeavesUnderInside(s, l);
      LeavesUnderInside(s, r);
      SumUnion(s.levels, LeavesUnder(s, l), LeavesUnder(s, r));
    } else {
      SumRemove(s.levels, {i}, i);
      assert {i} - {i} == {};
    }
  }

  lemma {:induction false} StartInRoot(levels: nat, i: nat)
    requires Depth(i) <= levels
    ensures Start(levels, i) + Units(levels, i) <= Pow2(levels)
  {
    if i == 0 {
      assert Units(levels, 0) == Pow2(levels);
    } else {
      StartInRoot(levels, Parent(i));
      ParentChild(i);
      ChildSpans(levels, Parent(i));
    }
  }

  lemma {:induction false} AllLeaves(s: Pool)
    requires Inv(s)
    ensures LeavesUnder(s, 0) == FreeSet(s) + UsedSet(s)
    ensures FreeSet(s) !! UsedSet(s)
  {
    LeavesUnderInside(s, 0);
    forall j: nat
      ensures j in LeavesUnder(s, 0) <==> j in FreeSet(s) + UsedSet(s)
    {
      FreeIsLeaf(s, j);
      if Leaf(s, j) {
        StartInRoot(s.levels, j);
        var k := LeafUnder(s, 0, Start(s.levels, j));
        SameLeaf(s, Start(s.levels, j), j, k);
      }
    }
  }

  /** The free blocks and the blocks in use together have exactly the units of the region. */
  lemma {:induction false} UnitsConserved(s: Pool)
    requires Inv(s)
    ensures Within(s.levels, FreeSet(s)) && Within(s.levels, UsedSet(s))
    ensures SumUnits(s.levels, FreeSet(s)) + SumUnits(s.levels, UsedSet(s)) == Pow2(s.levels)
  {
    AllLeaves(s);
    LeavesUnderSum(s, 0);
    SumUnion(s.levels, FreeSet(s), UsedSet(s));
  }

  // ----- The same sum, bucket by bucket -----

  ghost function AtSize(levels: nat, S: set<nat>, b: nat): set<nat>
  {
    set i | i in S && Depth(i) + b == levels
  }

  /** Sum over the first n buckets of (number of nodes of that size) * 2^size. */
  ghost function BySize(levels: nat, S: set<nat>, n: nat): nat
  {
    if n == 0 then 0 else BySize(levels, S, n - 1) + |AtSize(levels, S, n - 1)| * Pow2(n - 1)
  }

  lemma {:induction false} AtSizeAdd(levels: nat, S: set<nat>, i: nat, b: nat)
    requires i !in S
    ensures |AtSize(levels, S + {i}, b)| == |AtSize(levels, S, b)| + (if Depth(i) + b == levels then 1 else 0)
  {
    if Depth(i) + b == levels {
      assert AtSize(levels, S + {i}, b) == AtSize(levels, S, b) + {i};
    } else {
      assert AtSize(levels, S + {i}, b) == AtSize(levels, S, b);
    }
  }

  lemma {:induction false} Distribute(a: nat, b: nat, p: nat)
    ensures (a + b) * p == a * p + b * p
  {
  }

  lemma {:induction false} BySizeAdd(levels: nat, S: set<nat>, i: nat, n: nat)
    requires i !in S && Depth(i) <= levels
    ensures BySize(levels, S + {i}, n)
         == BySize(levels, S, n) + (if levels - Depth(i) < n then Units(levels, i) else 0)
  {
    if n > 0 {
      hide AtSize, Pow2, Depth;
      BySizeAdd(levels, S, i, n - 1);
      AtSizeAdd(levels, S, i, n - 1);
      Distribute(|AtSize(levels, S, n - 1)|, 1, Pow2(n - 1));
    }
  }

  lemma {:induction false} BySizeEmpty(levels: nat, n: nat)
    ensures BySize(levels, {}, n) == 0
  {
    if n > 0 {
      BySizeEmpty(levels, n - 1);
      assert AtSize(levels, {}, n - 1) == {};
    }
  }

  lemma {:induction false} BySizeIsSum(levels: nat, S: set<nat>)
    requires Within(levels, S)
    ensures BySize(levels, S, levels + 1) == SumUnits(levels, S)
    decreases S
  {
    if S == {} {
      BySizeEmpty(levels, levels + 1);
    } else {
      var i :| i in S;
      BySizeIsSum(levels, S - {i});
      BySizeAdd(levels, S - {i}, i, levels + 1);
      assert S - {i} + {i} == S;
      SumRemove(levels, S, i);
    }
  }

  ghost function Elements(l: seq<nat>): set<nat> { set x | x in l }

  lemma {:induction false} NoDuplicatesSize(l: seq<nat>)
    requires NoDuplicates(l)
    ensures |Elements(l)| == |l|
  {
    if l == [] {
      assert Elements(l) == {};
    } else {
      NoDuplicatesSize(l[1..]);
      assert forall x :: x in l <==> x == l[0] || x in l[1..];
      assert Elements(l) == Elements(l[1..]) + {l[0]};
      assert l[0] !in l[1..];
    }
  }

  /** Length of a bucket's list is the number of free blocks of its size. */
  lemma {:induction false} BucketLength(s: Pool, b: nat)
    requires Inv(s) && b <= s.levels
    ensures |s.free[b]| == |AtSize(s.levels, FreeSet(s), b)|
  {
    NoDuplicatesSize(s.free[b]);
    assert Elements(s.free[b]) == AtSize(s.levels, FreeSet(s), b);
  }

  /** Sum over the first n buckets of (length of the list + blocks handed out) * 2^size. */
  ghost function TotalUnits(s: Pool, n: nat): nat
    requires n <= |s.free|
  {
    if n == 0 then 0
    else TotalUnits(s, n - 1) + (|s.free[n - 1]| + |AtSize(s.levels, UsedSet(s), n - 1)|) * Pow2(n - 1)
  }

  lemma {:induction false} TotalSplits(s: Pool, n: nat)
    requires Inv(s) && n <= s.levels + 1
    ensures TotalUnits(s, n) == BySize(s.levels, FreeSet(s), n) + BySize(s.levels, UsedSet(s), n)
  {
    if n > 0 {
      BucketLength(s, n - 1);
      hide Pow2, AtSize, Inv;
      TotalSplits(s, n - 1);
      Distribute(|s.free[n - 1]|, |AtSize(s.levels, UsedSet(s), n - 1)|, Pow2(n - 1));
    }
  }

  /** List lengths and blocks handed out, weighted by size, add up to 2^levels units. */
  lemma {:induction false} BucketsConserve(s: Pool)
    requires Inv(s)
    ensures TotalUnits(s, s.levels + 1) == Pow2(s.levels)
  {
    TotalSplits(s, s.levels + 1);
    UnitsConserved(s);
    BySizeIsSum(s.levels, FreeSet(s));
    BySizeIsSum(s.levels, UsedSet(s));
  }
}
