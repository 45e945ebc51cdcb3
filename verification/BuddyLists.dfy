/**
 The circular doubly linked free lists, one per bucket, over the block array.
 A pointer to a block is its index; NULL is -1.
 */
module BuddyLists {
  import opened Machine
  import opened BuddyTree
  import opened BuddyPool

  const NULL := -1

  datatype Block = Block(valid: bool, available: bool, prev: int, next: int)

  datatype Bucket = Bucket(log2size: nat, allocatedBlocks: nat, availableBlocks: nat, first: int)

  function Following(k: nat, n: nat): nat { if k + 1 >= n then 0 else k + 1 }

  function Preceding(k: nat, n: nat): nat { if k == 0 && n > 0 then n - 1 else if k == 0 then 0 else k - 1 }

  /** The k-th block of l points to its neighbours in l, round the end. */
  ghost predicate LinkedAt(bs: seq<Block>, l: seq<nat>, k: nat)
    requires k < |l|
  {
    && l[k] < |bs|
    && bs[l[k]].next == l[Following(k, |l|)]
    && bs[l[k]].prev == l[Preceding(k, |l|)]
  }

  /** The blocks of l are linked into a circle in the order of l. */
  ghost predicate Ring(bs: seq<Block>, l: seq<nat>)
  {
    forall k :: 0 <= k < |l| ==> LinkedAt(bs, l, k)
  }

  ghost predicate SameLinks(bs: seq<Block>, cs: seq<Block>, x: nat)
  {
    x < |bs| && x < |cs| && bs[x].next == cs[x].next && bs[x].prev == cs[x].prev
  }

  ghost predicate SameFlags(bs: seq<Block>, cs: seq<Block>)
  {
    |bs| == |cs| && forall x :: 0 <= x < |bs| ==> bs[x].valid == cs[x].valid && bs[x].available == cs[x].available
  }

  ghost predicate SameAllocated(bks: seq<Bucket>, cks: seq<Bucket>)
  {
    |bks| == |cks| && forall b :: 0 <= b < |bks| ==> bks[b].allocatedBlocks == cks[b].allocatedBlocks
  }

  lemma {:induction false} RingBounds(bs: seq<Block>, l: seq<nat>)
    requires Ring(bs, l)
    ensures forall k :: 0 <= k < |l| ==> l[k] < |bs|
  {
    forall k | 0 <= k < |l|
      ensures l[k] < |bs|
    {
      assert LinkedAt(bs, l, k);
    }
  }

  lemma {:induction false} RingFrame(bs: seq<Block>, cs: seq<Block>, l: seq<nat>)
    requires Ring(bs, l) && |bs| == |cs|
    requires forall k :: 0 <= k < |l| ==> SameLinks(bs, cs, l[k])
    ensures Ring(cs, l)
  {
    forall k | 0 <= k < |l|
      ensures LinkedAt(cs, l, k)
    {
      assert LinkedAt(bs, l, k);
      assert SameLinks(bs, cs, l[k]);
    }
  }

  // ----- Appending -----

  /** The link updates of add_to_available_list on a non-empty list. */
  function LinkLast(bs: seq<Block>, first: nat, last: nat, x: nat): (cs: seq<Block>)
    requires first < |bs| && last < |bs| && x < |bs|
    ensures SameFlags(bs, cs)
  {
    var b1 := bs[first := bs[first].(prev := x)];
    var b2 := b1[last := b1[last].(next := x)];
    var b3 := b2[x := b2[x].(next := first)];
    b3[x := b3[x].(prev := last)]
  }

  lemma {:induction false} LinkLastAt(bs: seq<Block>, l: seq<nat>, x: nat, k: nat)
    requires Ring(bs, l) && l != [] && NoDuplicates(l) && x !in l && x < |bs| && k <= |l|
    ensures l[0] < |bs| && l[|l| - 1] < |bs|
    ensures LinkedAt(LinkLast(bs, l[0], l[|l| - 1], x), l + [x], k)
  {
    var n := |l|;
    assert LinkedAt(bs, l, 0) && LinkedAt(bs, l, n - 1);
    if k < n {
      assert LinkedAt(bs, l, k) && l[k] in l;
      assert k != 0 ==> l[k] != l[0];
      assert k != n - 1 ==> l[k] != l[n - 1];
    }
  }

  lemma {:induction false} LinkLastRing(bs: seq<Block>, l: seq<nat>, x: nat)
    requires Ring(bs, l) && l != [] && NoDuplicates(l) && x !in l && x < |bs|
    ensures l[0] < |bs| && bs[l[0]].prev == l[|l| - 1] < |bs|
    ensures Ring(LinkLast(bs, l[0], l[|l| - 1], x), l + [x])
  {
    assert LinkedAt(bs, l, 0) && LinkedAt(bs, l, |l| - 1);
    var m, cs := l + [x], LinkLast(bs, l[0], l[|l| - 1], x);
    hide LinkLast, NoDuplicates, SameFlags;
    forall k | 0 <= k < |m|
      ensures LinkedAt(cs, m, k)
    {
      LinkLastAt(bs, l, x, k);
    }
  }

  // ----- Unlinking -----

  /** The link updates of remove_from_available_list. */
  function Unlink(bs: seq<Block>, x: nat): (cs: seq<Block>)
    requires x < |bs| && 0 <= bs[x].prev < |bs| && 0 <= bs[x].next < |bs|
    ensures SameFlags(bs, cs)
  {
    var next, prev := bs[x].next, bs[x].prev;
    var b1 := bs[prev := bs[prev].(next := next)];
    b1[next := b1[next].(prev := prev)]
  }

  /** The links, after unlinking position k, of the block at another position o. */
  lemma {:induction false} UnlinkAt(bs: seq<Block>, l: seq<nat>, k: nat, o: nat)
    requires Ring(bs, l) && NoDuplicates(l) && k < |l| && o < |l| && o != k
    ensures l[k] < |bs| && 0 <= bs[l[k]].prev < |bs| && 0 <= bs[l[k]].next < |bs| && l[o] < |bs|
    ensures Unlink(bs, l[k])[l[o]].next
         == l[if Following(o, |l|) == k then Following(k, |l|) else Following(o, |l|)]
    ensures Unlink(bs, l[k])[l[o]].prev
         == l[if Preceding(o, |l|) == k then Preceding(k, |l|) else Preceding(o, |l|)]
  {
    var n := |l|;
    var f, p := Following(k, n), Preceding(k, n);
    assert LinkedAt(bs, l, k) && LinkedAt(bs, l, f) && LinkedAt(bs, l, p) && LinkedAt(bs, l, o);
    assert Following(o, n) == k <==> o == p;
    assert Preceding(o, n) == k <==> o == f;
    assert o != p ==> l[o] != l[p];
    assert o != f ==> l[o] != l[f];
  }

  /** Position, before position k was taken out, of what is now at position j. */
  function Skip(k: nat, j: nat): nat { if j < k then j else j + 1 }

  lemma {:induction false} SkipNeighbours(n: nat, k: nat, j: nat)
    requires k < n && j < n - 1
    ensures Skip(k, Following(j, n - 1))
         == (if Following(Skip(k, j), n) == k then Following(k, n) else Following(Skip(k, j), n))
    ensures Skip(k, Preceding(j, n - 1))
         == (if Preceding(Skip(k, j), n) == k then Preceding(k, n) else Preceding(Skip(k, j), n))
  {
  }

  function Without(l: seq<nat>, k: nat): (m: seq<nat>)
    requires k < |l|
    ensures |m| == |l| - 1 && forall j :: 0 <= j < |m| ==> m[j] == l[Skip(k, j)]
  {
    l[..k] + l[k + 1..]
  }

  lemma {:induction false} RingNeighbours(bs: seq<Block>, l: seq<nat>, k: nat)
    requires Ring(bs, l) && k < |l|
    ensures l[k] < |bs| && bs[l[k]].prev == l[Preceding(k, |l|)] < |bs| && bs[l[k]].next == l[Following(k, |l|)] < |bs|
  {
    assert LinkedAt(bs, l, k) && LinkedAt(bs, l, Following(k, |l|)) && LinkedAt(bs, l, Preceding(k, |l|));
  }

  lemma {:induction false} UnlinkLinkedAt(bs: seq<Block>, l: seq<nat>, k: nat, j: nat)
    requires Ring(bs, l) && NoDuplicates(l) && k < |l| && j < |l| - 1
    ensures l[k] < |bs| && 0 <= bs[l[k]].prev < |bs| && 0 <= bs[l[k]].next < |bs|
    ensures LinkedAt(Unlink(bs, l[k]), Without(l, k), j)
  {
    UnlinkAt(bs, l, k, Skip(k, j));
    assert |Unlink(bs, l[k])| == |bs|;
    hide Unlink, Without, Ring, NoDuplicates, SameFlags;
    SkipNeighbours(|l|, k, j);
  }

  lemma {:induction false} UnlinkRing(bs: seq<Block>, l: seq<nat>, k: nat)
    requires Ring(bs, l) && NoDuplicates(l) && k < |l|
    ensures l[k] < |bs| && 0 <= bs[l[k]].prev < |bs| && 0 <= bs[l[k]].next < |bs|
    ensures Ring(Unlink(bs, l[k]), Without(l, k))
  {
    RingNeighbours(bs, l, k);
    hide Unlink, Without, NoDuplicates, SameFlags, LinkedAt;
    forall j | 0 <= j < |Without(l, k)|
      ensures LinkedAt(Unlink(bs, l[k]), Without(l, k), j)
    {
      UnlinkLinkedAt(bs, l, k, j);
    }
  }

  // ----- Buckets -----

  const MIN_LOG2 := 16

  /** The counter's value for a list of n blocks. */
  function Counter(levels: nat, b: nat, n: nat): nat { (n + U64 - (if b == levels then 1 else 0)) % U64 }

  function Increment(c: nat): nat { (c + 1) % U64 }

  function Decrement(c: nat): nat { (c + U64 - 1) % U64 }

  lemma {:induction false} CounterUp(levels: nat, b: nat, n: nat)
    ensures Increment(Counter(levels, b, n)) == Counter(levels, b, n + 1)
    ensures Decrement(Counter(levels, b, n + 1)) == Counter(levels, b, n)
  {
  }

  /**
   Bucket b holds the list l. Its `available_blocks` counter is a wrapping 64-bit number
   that stays one below the length in the root's bucket, because the root is linked
   without being counted.
   */
  ghost predicate BucketHolds(levels: nat, bs: seq<Block>, bk: Bucket, l: seq<nat>, b: nat)
  {
    && bk.log2size == MIN_LOG2 + b
    && bk.first == (if l == [] then NULL else l[0])
    && bk.availableBlocks == Counter(levels, b, |l|)
    && NoDuplicates(l) && Ring(bs, l)
    && forall k :: 0 <= k < |l| ==> Depth(l[k]) + b == levels
  }

  ghost predicate Linked(levels: nat, bs: seq<Block>, bks: seq<Bucket>, free: seq<seq<nat>>)
  {
    && |bks| == |free|
    && forall b :: 0 <= b < |free| ==> BucketHolds(levels, bs, bks[b], free[b], b)
  }

  /** A change of one bucket, and of the links of blocks of its size only, keeps the others. */
  lemma {:induction false} RelinkOne(levels: nat, bs: seq<Block>, cs: seq<Block>, bks: seq<Bucket>, cks: seq<Bucket>,
                                     free: seq<seq<nat>>, gree: seq<seq<nat>>, b: nat)
    requires Linked(levels, bs, bks, free) && b < |free|
    requires |cs| == |bs| && |cks| == |bks| && |gree| == |free|
    requires forall c :: 0 <= c < |free| && c != b ==> cks[c] == bks[c] && gree[c] == free[c]
    requires forall x :: 0 <= x < |bs| && Depth(x) + b != levels ==> SameLinks(bs, cs, x)
    requires BucketHolds(levels, cs, cks[b], gree[b], b)
    ensures Linked(levels, cs, cks, gree)
  {
    forall c | 0 <= c < |gree|
      ensures BucketHolds(levels, cs, cks[c], gree[c], c)
    {
      if c != b {
        assert BucketHolds(levels, bs, bks[c], free[c], c);
        RingBounds(bs, free[c]);
        RingFrame(bs, cs, free[c]);
      }
    }
  }

  lemma {:induction false} OutsideBucket(levels: nat, bs: seq<Block>, bk: Bucket, l: seq<nat>, b: nat, y: nat)
    requires BucketHolds(levels, bs, bk, l, b) && Depth(y) + b != levels
    ensures y !in l
  {
  }

  /** The block array after add_to_available_list. */
  function LinkIn(bs: seq<Block>, first: int, x: nat): (cs: seq<Block>)
    requires x < |bs| && (first == NULL || (0 <= first < |bs| && 0 <= bs[first].prev < |bs|))
    ensures SameFlags(bs, cs)
  {
    if first == NULL then bs[x := bs[x].(next := x, prev := x)]
    else LinkLast(bs, first, bs[first].prev, x)
  }

  /** The bucket after add_to_available_list. */
  function CountIn(bk: Bucket, x: nat): Bucket
  {
    bk.(first := if bk.first == NULL then x else bk.first, availableBlocks := Increment(bk.availableBlocks))
  }

  lemma {:induction false} AppendRing(bs: seq<Block>, l: seq<nat>, x: nat)
    requires Ring(bs, l) && NoDuplicates(l) && x !in l && x < |bs|
    ensures NoDuplicates(l + [x])
    ensures l != [] ==> l[0] < |bs| && bs[l[0]].prev == l[|l| - 1] < |bs|
    ensures Ring(LinkIn(bs, if l == [] then NULL else l[0], x), l + [x])
  {
    if l != [] {
      LinkLastRing(bs, l, x);
    }
  }

  /** Linking in writes only the block itself and the two ends of the list. */
  lemma {:induction false} LinkInFrame(bs: seq<Block>, l: seq<nat>, x: nat, y: nat)
    requires Ring(bs, l) && x < |bs| && y < |bs| && y != x && y !in l
    ensures l != [] ==> l[0] < |bs| && bs[l[0]].prev == l[|l| - 1] < |bs|
    ensures SameLinks(bs, LinkIn(bs, if l == [] then NULL else l[0], x), y)
  {
    if l != [] {
      RingNeighbours(bs, l, 0);
    }
    hide Ring;
  }

  lemma {:induction false} AppendBucket(levels: nat, bs: seq<Block>, bk: Bucket, l: seq<nat>, b: nat, x: nat)
    requires BucketHolds(levels, bs, bk, l, b)
    requires x < |bs| && x !in l && Depth(x) + b == levels
    ensures bk.first == NULL || (0 <= bk.first < |bs| && 0 <= bs[bk.first].prev < |bs|)
    ensures BucketHolds(levels, LinkIn(bs, bk.first, x), CountIn(bk, x), l + [x], b)
  {
    CounterUp(levels, b, |l|);
    AppendRing(bs, l, x);
    hide Ring, NoDuplicates, LinkIn, Depth, Counter, Increment, SameFlags;
  }

  lemma {:induction false} AppendFrame(levels: nat, bs: seq<Block>, bk: Bucket, l: seq<nat>, b: nat, x: nat)
    requires BucketHolds(levels, bs, bk, l, b)
    requires x < |bs| && x !in l && Depth(x) + b == levels
    ensures bk.first == NULL || (0 <= bk.first < |bs| && 0 <= bs[bk.first].prev < |bs|)
    ensures forall y :: 0 <= y < |bs| && Depth(y) + b != levels ==> SameLinks(bs, LinkIn(bs, bk.first, x), y)
  {
    AppendBucket(levels, bs, bk, l, b, x);
    hide Ring, NoDuplicates, LinkIn, Depth, Counter, Increment, SameFlags, SameLinks;
    forall y | 0 <= y < |bs| && Depth(y) + b != levels
      ensures SameLinks(bs, LinkIn(bs, bk.first, x), y)
    {
      OutsideBucket(levels, bs, bk, l, b, y);
      LinkInFrame(bs, l, x, y);
    }
  }

  lemma {:induction false} AppendLinked(levels: nat, bs: seq<Block>, bks: seq<Bucket>, free: seq<seq<nat>>,
                                        b: nat, x: nat)
    requires Linked(levels, bs, bks, free) && b < |free|
    requires x < |bs| && x !in free[b] && Depth(x) + b == levels
    ensures bks[b].first == NULL || (0 <= bks[b].first < |bs| && 0 <= bs[bks[b].first].prev < |bs|)
    ensures Linked(levels, LinkIn(bs, bks[b].first, x), bks[b := CountIn(bks[b], x)], free[b := free[b] + [x]])
  {
    assert BucketHolds(levels, bs, bks[b], free[b], b);
    AppendBucket(levels, bs, bks[b], free[b], b, x);
    AppendFrame(levels, bs, bks[b], free[b], b, x);
    RelinkOne(levels, bs, LinkIn(bs, bks[b].first, x), bks, bks[b := CountIn(bks[b], x)],
              free, free[b := free[b] + [x]], b);
  }

  /** The bucket after remove_from_available_list. */
  function CountOut(bk: Bucket, x: nat, next: int): Bucket
  {
    bk.(first := if bk.first != x then bk.first else if next == x then NULL else next,
        availableBlocks := Decrement(bk.availableBlocks))
  }

  lemma {:induction false} WithoutNoDuplicates(l: seq<nat>, k: nat)
    requires NoDuplicates(l) && k < |l|
    ensures NoDuplicates(Without(l, k))
  {
  }

  /** Unlinking writes only the block's two neighbours. */
  lemma {:induction false} UnlinkFrame(bs: seq<Block>, l: seq<nat>, k: nat, y: nat)
    requires Ring(bs, l) && k < |l| && y < |bs| && y !in l
    ensures l[k] < |bs| && 0 <= bs[l[k]].prev < |bs| && 0 <= bs[l[k]].next < |bs|
    ensures SameLinks(bs, Unlink(bs, l[k]), y)
  {
    RingNeighbours(bs, l, k);
    hide Ring;
  }

  lemma {:induction false} RemoveFirst(bk: Bucket, l: seq<nat>, k: nat)
    requires NoDuplicates(l) && k < |l| && bk.first == l[0]
    ensures CountOut(bk, l[k], l[Following(k, |l|)]).first == (if Without(l, k) == [] then NULL else Without(l, k)[0])
  {
    assert k > 0 ==> l[k] != l[0];
    assert k == 0 && |l| > 1 ==> l[1] != l[0];
  }

  lemma {:induction false} RemoveBucket(levels: nat, bs: seq<Block>, bk: Bucket, l: seq<nat>, b: nat, k: nat)
    requires BucketHolds(levels, bs, bk, l, b) && k < |l|
    ensures l[k] < |bs| && 0 <= bs[l[k]].prev < |bs| && 0 <= bs[l[k]].next < |bs|
    ensures BucketHolds(levels, Unlink(bs, l[k]), CountOut(bk, l[k], bs[l[k]].next), Without(l, k), b)
  {
    CounterUp(levels, b, |l| - 1);
    RingNeighbours(bs, l, k);
    UnlinkRing(bs, l, k);
    WithoutNoDuplicates(l, k);
    RemoveFirst(bk, l, k);
    hide Ring, NoDuplicates, Unlink, Depth, Counter, Decrement, Without, SameFlags;
  }

  lemma {:induction false} RemoveFrame(levels: nat, bs: seq<Block>, bk: Bucket, l: seq<nat>, b: nat, k: nat)
    requires BucketHolds(levels, bs, bk, l, b) && k < |l|
    ensures l[k] < |bs| && 0 <= bs[l[k]].prev < |bs| && 0 <= bs[l[k]].next < |bs|
    ensures forall y :: 0 <= y < |bs| && Depth(y) + b != levels ==> SameLinks(bs, Unlink(bs, l[k]), y)
  {
    RingNeighbours(bs, l, k);
    hide Ring, NoDuplicates, Unlink, Depth, Counter, Decrement, SameLinks, SameFlags;
    forall y | 0 <= y < |bs| && Depth(y) + b != levels
      ensures SameLinks(bs, Unlink(bs, l[k]), y)
    {
      OutsideBucket(levels, bs, bk, l, b, y);
      UnlinkFrame(bs, l, k, y);
    }
  }

  lemma {:induction false} RemoveLinked(levels: nat, bs: seq<Block>, bks: seq<Bucket>, free: seq<seq<nat>>,
                                        b: nat, x: nat)
    requires Linked(levels, bs, bks, free) && b < |free| && x in free[b]
    ensures x < |bs| && 0 <= bs[x].prev < |bs| && 0 <= bs[x].next < |bs|
    ensures Linked(levels, Unlink(bs, x), bks[b := CountOut(bks[b], x, bs[x].next)], free[b := Remove(free[b], x)])
  {
    var l := free[b];
    assert BucketHolds(levels, bs, bks[b], l, b);
    var k :| 0 <= k < |l| && l[k] == x;
    RemoveBucket(levels, bs, bks[b], l, b, k);
    RemoveFrame(levels, bs, bks[b], l, b, k);
    RemoveAt(l, k);
    RelinkOne(levels, bs, Unlink(bs, x), bks, bks[b := CountOut(bks[b], x, bs[x].next)],
              free, free[b := Remove(l, x)], b);
  }

  /** The flags of the block array with the lists, as a pool. */
  ghost function PoolOf(levels: nat, bs: seq<Block>, free: seq<seq<nat>>): Pool
  {
    Pool(levels,
         seq(|bs|, i requires 0 <= i < |bs| => bs[i].valid),
         seq(|bs|, i requires 0 <= i < |bs| => bs[i].available),
         free)
  }

  lemma {:induction false} FlagsKeepLinked(levels: nat, bs: seq<Block>, cs: seq<Block>, bks: seq<Bucket>,
                                           free: seq<seq<nat>>)
    requires Linked(levels, bs, bks, free) && |cs| == |bs|
    requires forall x :: 0 <= x < |bs| ==> SameLinks(bs, cs, x)
    ensures Linked(levels, cs, bks, free)
  {
    forall b | 0 <= b < |free|
      ensures BucketHolds(levels, cs, bks[b], free[b], b)
    {
      assert BucketHolds(levels, bs, bks[b], free[b], b);
      RingBounds(bs, free[b]);
      RingFrame(bs, cs, free[b]);
    }
  }

  lemma {:induction false} SameFlagsSamePool(levels: nat, bs: seq<Block>, cs: seq<Block>, free: seq<seq<nat>>)
    requires SameFlags(bs, cs)
    ensures PoolOf(levels, bs, free) == PoolOf(levels, cs, free)
  {
  }

  /** The flag updates of a split. */
  function MarkHalves(bs: seq<Block>, left: nat, right: nat): seq<Block>
    requires left < |bs| && right < |bs|
  {
    var b1 := bs[left := bs[left].(available := false, valid := true)];
    b1[right := b1[right].(available := true, valid := true)]
  }

  lemma {:induction false} MarkHalvesEffect(levels: nat, bs: seq<Block>, bks: seq<Bucket>, free: seq<seq<nat>>,
                                            p: nat, b: nat)
    requires Linked(levels, bs, bks, free) && Right(p) < |bs| && b < |free|
    ensures Linked(levels, MarkHalves(bs, Left(p), Right(p)), bks, free)
    ensures PoolOf(levels, MarkHalves(bs, Left(p), Right(p)), free[b := free[b] + [Right(p)]])
         == Divide(PoolOf(levels, bs, free), p, b)
  {
    FlagsKeepLinked(levels, bs, MarkHalves(bs, Left(p), Right(p)), bks, free);
  }

  lemma {:induction false} MarkTakenEffect(levels: nat, bs: seq<Block>, bks: seq<Bucket>, free: seq<seq<nat>>, b: nat)
    requires Linked(levels, bs, bks, free) && b < |free| && free[b] != []
    ensures free[b][0] < |bs| && bks[b].first == free[b][0] && Depth(free[b][0]) + b == levels
    ensures Linked(levels, bs[free[b][0] := bs[free[b][0]].(available := false)], bks, free)
    ensures PoolOf(levels, bs[free[b][0] := bs[free[b][0]].(available := false)],
                   free[b := Remove(free[b], free[b][0])])
         == Take(PoolOf(levels, bs, free), b)
  {
    assert BucketHolds(levels, bs, bks[b], free[b], b);
    var x := free[b][0];
    assert LinkedAt(bs, free[b], 0);
    FlagsKeepLinked(levels, bs, bs[x := bs[x].(available := false)], bks, free);
  }

  /** The flag updates of a merge. */
  function MarkFused(bs: seq<Block>, block: nat, buddy: nat, parent: nat): seq<Block>
    requires block < |bs| && buddy < |bs| && parent < |bs|
  {
    var b1 := bs[buddy := bs[buddy].(valid := false)];
    var b2 := b1[parent := b1[parent].(available := true)];
    b2[block := b2[block].(valid := false)]
  }

  lemma {:induction false} MarkFusedEffect(levels: nat, bs: seq<Block>, bks: seq<Bucket>, free: seq<seq<nat>>,
                                           i: nat, b: nat)
    requires 0 < i < |bs| && Buddy(i) < |bs| && b < |free|
    requires Linked(levels, bs, bks, free[b := Remove(free[b], Buddy(i))])
    ensures Linked(levels, MarkFused(bs, i, Buddy(i), Parent(i)), bks, free[b := Remove(free[b], Buddy(i))])
    ensures PoolOf(levels, MarkFused(bs, i, Buddy(i), Parent(i)), free[b := Remove(free[b], Buddy(i))])
         == Fuse(PoolOf(levels, bs, free), i, b)
  {
    FlagsKeepLinked(levels, bs, MarkFused(bs, i, Buddy(i), Parent(i)), bks, free[b := Remove(free[b], Buddy(i))]);
  }

  lemma {:induction false} MarkFreeEffect(levels: nat, bs: seq<Block>, bks: seq<Bucket>, free: seq<seq<nat>>,
                                          i: nat, b: nat)
    requires Linked(levels, bs, bks, free) && i < |bs| && b < |free|
    ensures Linked(levels, bs[i := bs[i].(available := true)], bks, free)
    ensures PoolOf(levels, bs[i := bs[i].(available := true)], free[b := free[b] + [i]])
         == Put(PoolOf(levels, bs, free), i, b)
  {
    FlagsKeepLinked(levels, bs, bs[i := bs[i].(available := true)], bks, free);
  }
}
