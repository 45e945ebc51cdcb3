/**
 Where create_process puts a process: its record in a 128 KiB block of the buddy allocator
 and its page tables, 515 frames, in a 4 MiB block, at the addresses the allocator computes
 from the blocks' indices. Two such blocks can be closer than what they hold is long, and
 on a fresh pool the second process's tables and the third one's record are.
 */
module TablePlacement {
  import opened Machine
  import opened Powers
  import opened Log2
  import opened BuddyTree
  import opened BuddyPool
  import opened BuddyOps
  import opened BuddyTheorems
  import BuddyRuns
  import opened UserSpace
  import AddressSpaces
  import UserHalves
  import AnonMemory
  import ContextSwitch

  const TABLE_BUCKET := 6  // log2(sizeof(PageTabletSructures)) + 1 is 22

  /** First frame of the tables in block i of a region that starts at frame base. */
  function TableFrame(base: nat, i: nat): nat { BlockAddress(base * PAGE_SIZE, i) / PAGE_SIZE }

  lemma {:induction false} TableFrameIs(base: nat, i: nat)
    ensures TableFrame(base, i) == base + 16 * i
  {
    assert BlockAddress(base * PAGE_SIZE, i) == (base + 16 * i) * PAGE_SIZE;
  }

  /** The tables in two blocks do not overlap exactly when the indices are at least 33 apart. */
  lemma {:induction false} TablesApartIff(base: nat, i: nat, j: nat)
    requires i < j
    ensures AddressSpaces.DisjointFrames(TableFrame(base, i), TABLE_FRAMES, TableFrame(base, j), TABLE_FRAMES)
       <==> j - i >= 33
  {
    TableFrameIs(base, i);
    TableFrameIs(base, j);
  }

  /** The tables in any such block lie inside the region. */
  lemma {:induction false} TablesInRegion(levels: nat, base: nat, i: nat)
    requires Depth(i) + TABLE_BUCKET == levels
    ensures base <= TableFrame(base, i) && TableFrame(base, i) + TABLE_FRAMES <= base + 16 * Pow2(levels)
  {
    TableFrameIs(base, i);
    BuddyRuns.AddressInRegionIff(base * PAGE_SIZE, levels, i);
    assert Pow2(TABLE_BUCKET) == 64 by { assert Pow2(3) == 8 && Pow2(5) == 32; }
  }

  // ----- Process records -----

  /** Records of more than 64 KiB, in blocks of 128 KiB, do not overlap exactly when they are two indices apart. */
  lemma {:induction false} RecordsApartIff(base: nat, i: nat, j: nat, size: nat)
    requires i < j && BLOCK_SIZE < size <= 2 * BLOCK_SIZE
    ensures BlockAddress(base, i) + size <= BlockAddress(base, j) <==> j - i >= 2
  {
  }

  /**
   The kernel stack of 64 KiB starts `header` bytes into the record. The last `header` bytes
   of one process's stack are the first ones, id and state among them, of the next block's record.
   */
  lemma {:induction false} StackReachesNextRecord(base: nat, i: nat, header: nat, x: nat)
    requires x < header <= BLOCK_SIZE
    ensures BlockAddress(base, i + 1) + x == BlockAddress(base, i) + header + (BLOCK_SIZE - header + x)
    ensures BLOCK_SIZE - header <= BLOCK_SIZE - header + x < BLOCK_SIZE
  {
  }

  const BLOCK_WORDS := 0x2000

  /** Contexts at one offset of the records in different blocks lie apart, whichever the blocks are. */
  lemma {:induction false} ContextsApart(base: nat, offset: nat, blocks: seq<nat>, areas: seq<nat>)
    requires |areas| == |blocks|
    requires forall p :: 0 <= p < |areas| ==> areas[p] == base + BLOCK_WORDS * blocks[p] + offset
    requires forall p, q :: 0 <= p < q < |blocks| ==> blocks[p] != blocks[q]
    ensures forall p, q :: 0 <= p < q < |areas| ==>
      areas[p] + ContextSwitch.CONTEXT_WORDS <= areas[q] || areas[q] + ContextSwitch.CONTEXT_WORDS <= areas[p]
  {
    forall p, q | 0 <= p < q < |areas|
      ensures areas[p] + ContextSwitch.CONTEXT_WORDS <= areas[q] || areas[q] + ContextSwitch.CONTEXT_WORDS <= areas[p]
    {
      assert blocks[p] != blocks[q];
    }
  }

  // ----- Buffers of anon_allocate -----

  lemma {:induction false} HeadServes(s: Pool, b: nat)
    requires Inv(s) && b <= s.levels && b < |s.free| && s.free[b] != []
    ensures BestFit(s, b, b)
  {
  }

  /** Two requests of one middle size on a fresh pool get adjacent blocks. */
  lemma {:induction false} AdjacentBlocks(s: Pool, b: nat) returns (x: nat)
    requires IsInitial(s) && Inv(s) && b < s.levels
    ensures Alloc(s, b).1 == Some(x) && Alloc(Alloc(s, b).0, b).1 == Some(x + 1)
  {
    hide Inv, Alloc, IsInitial, BestFit, SplitLists;
    BuddyRuns.InitialBestFit(s, b);
    BuddyRuns.NeighbourLeftFree(s, b, s.levels);
    x := Alloc(s, b).1.value;
    var t := Alloc(s, b).0;
    assert BestFit(t, b, b) by { HeadServes(t, b); }
    AllocBestFit(t, b, b);
    LeftDescendantStep(t.free[b][0], 0);
  }

  /** So the buffers behind two granted requests of 128 KiB overlap. */
  lemma {:induction false} BuffersOverlap(s: Pool, base: nat)
    requires IsInitial(s) && Inv(s) && s.levels > 1
    ensures Alloc(s, 1).1.Some? && Alloc(Alloc(s, 1).0, 1).1.Some?
    ensures var x, y := BlockAddress(base, Alloc(s, 1).1.value), BlockAddress(base, Alloc(Alloc(s, 1).0, 1).1.value);
      !RangesApart(x, 2 * BLOCK_SIZE, y, 2 * BLOCK_SIZE)
  {
    hide Inv, Alloc, IsInitial;
    var i := AdjacentBlocks(s, 1);
    AnonMemory.BlocksApartIff(base, i, i + 1, 2 * BLOCK_SIZE, 2 * BLOCK_SIZE);
  }

  // ----- The requests of create_process -----

  /** Buckets asked for by two creations, record, syscall object, tables, image and stack, and a third record. */
  const REQUESTS: seq<nat> := [1, 0, TABLE_BUCKET, 7, 4, 1, 0, TABLE_BUCKET, 7, 4, 1]

  lemma {:induction false} PowersUsed()
    ensures Pow2(16) == 0x1_0000 && Pow2(17) == 0x2_0000 && Pow2(20) == 0x10_0000 && Pow2(21) == 0x20_0000
    ensures Pow2(22) == 0x40_0000 && Pow2(23) == 0x80_0000 && Pow2(24) == 0x100_0000
  {
    assert Pow2(8) == 256 by { assert Pow2(4) == 16; }
    Pow2Add(8, 8);
    assert Pow2(20) == 16 * Pow2(16) by { Pow2Add(4, 16); }
  }

  /** The sizes one creation asks for, as it works them out from the sizes of what it creates. */
  method CreationRequests(recordSize: nat, syscallSize: nat) returns (bs: seq<nat>)
    requires BLOCK_SIZE < recordSize < 2 * BLOCK_SIZE && syscallSize <= BLOCK_SIZE
    ensures bs == REQUESTS[..5] == REQUESTS[5..10] && REQUESTS[10] == bs[0]
  {
    PowersUsed();
    hide Pow2;
    var record: int := FloorLog2(recordSize);
    Pow2Bracket(recordSize, record, 16);
    record := record + 1;
    if record < 16 {
      record := 16;
    }
    var call := CeilLog2(syscallSize);
    if call < 16 {
      call := 16;
    }
    var tables := FloorLog2(TABLE_FRAMES * PAGE_SIZE);
    Pow2Bracket(TABLE_FRAMES * PAGE_SIZE, tables, 21);
    tables := tables + 1;
    var image := FloorLog2(0x80_0000);
    Pow2Bracket(0x80_0000, image, 23);
    var stack := FloorLog2(0x10_0000);
    assert 0x10_0000 < Pow2(21);
    Pow2Bracket(0x10_0000, stack, 20);
    bs := [record - 16, call - 16, tables - 16, image - 16, stack - 16];
  }

  /** The pool after the requests were served one by one. */
  ghost function Served(s: Pool, bs: seq<nat>): (t: Pool)
    requires Inv(s)
    ensures Inv(t)
    decreases |bs|
  {
    if bs == [] then s else Alloc(Served(s, bs[..|bs| - 1]), bs[|bs| - 1]).0
  }

  /** The block the last request got. */
  ghost function LastBlock(s: Pool, bs: seq<nat>): Option<nat>
    requires Inv(s) && bs != []
  {
    Alloc(Served(s, bs[..|bs| - 1]), bs[|bs| - 1]).1
  }

  // ----- The lists of the nine smallest sizes -----

  ghost predicate Lists(s: Pool, l: seq<seq<nat>>)
  {
    |l| == 9 && |s.free| >= 9 && s.levels >= 9 && forall j :: 0 <= j < 9 ==> s.free[j] == l[j]
  }

  /** The lists after bucket c served a request for size b. */
  function SplitList(l: seq<seq<nat>>, b: nat, c: nat): (r: seq<seq<nat>>)
    requires b <= c < |l| && l[c] != []
    ensures |r| == |l|
  {
    seq(|l|, j requires 0 <= j < |l| =>
      if j == c then l[c][1..] else if b <= j < c then [Right(LeftDescendant(l[c][0], c - 1 - j))] else l[j])
  }

  lemma {:induction false} LevelsBelowBuckets(s: Pool)
    requires Inv(s)
    ensures s.levels < |s.free|
  {
  }

  lemma {:induction false} ServeOne(s: Pool, l: seq<seq<nat>>, b: nat, c: nat)
    requires Inv(s) && Lists(s, l) && b <= c < 9 && l[c] != [] && forall j :: b <= j < c ==> l[j] == []
    ensures Alloc(s, b).1 == Some(LeftDescendant(l[c][0], c - b))
    ensures Lists(Alloc(s, b).0, SplitList(l, b, c))
  {
    hide Inv;
    assert BestFit(s, b, c) by { LevelsBelowBuckets(s); }
    AllocBestFit(s, b, c);
  }

  lemma {:induction false} LeftmostIndex(k: nat)
    ensures LeftDescendant(0, k) + 1 == Pow2(k)
    decreases k
  {
    if k > 0 {
      LeftmostIndex(k - 1);
    }
  }

  lemma {:induction false} RightOfLeftmost(k: nat)
    ensures Right(LeftDescendant(0, k)) == Pow2(k + 1)
  {
    LeftmostIndex(k);
  }

  lemma {:induction false} Doublings(k: nat)
    ensures Pow2(k + 1) == 2 * Pow2(k) && Pow2(k + 2) == 4 * Pow2(k) && Pow2(k + 3) == 8 * Pow2(k)
    ensures Pow2(k + 4) == 16 * Pow2(k) && Pow2(k + 5) == 32 * Pow2(k) && Pow2(k + 6) == 64 * Pow2(k)
    ensures Pow2(k + 7) == 128 * Pow2(k)
  {
  }

  /** The nine lists after the first i requests, when n is the index of the free block of bucket 8. */
  function ListsAfter(n: nat, i: nat): (l: seq<seq<nat>>)
    requires 1 <= i <= 10
    ensures |l| == 9
  {
    match i
    case 1 => [[], [128 * n], [64 * n], [32 * n], [16 * n], [8 * n], [4 * n], [2 * n], [n]]
    case 2 => [[256 * n + 2], [], [64 * n], [32 * n], [16 * n], [8 * n], [4 * n], [2 * n], [n]]
    case 3 => [[256 * n + 2], [], [64 * n], [32 * n], [16 * n], [8 * n], [], [2 * n], [n]]
    case 4 => [[256 * n + 2], [], [64 * n], [32 * n], [16 * n], [8 * n], [], [], [n]]
    case 5 => [[256 * n + 2], [], [64 * n], [32 * n], [], [8 * n], [], [], [n]]
    case 6 => [[256 * n + 2], [128 * n + 2], [], [32 * n], [], [8 * n], [], [], [n]]
    case 7 => [[], [128 * n + 2], [], [32 * n], [], [8 * n], [], [], [n]]
    case 8 => [[], [128 * n + 2], [], [32 * n], [], [8 * n], [4 * n + 4], [2 * n + 2], []]
    case 9 => [[], [128 * n + 2], [], [32 * n], [], [8 * n], [4 * n + 4], [], []]
    case 10 => [[], [128 * n + 2], [], [32 * n], [16 * n + 2], [], [4 * n + 4], [], []]
  }

  /** The bucket that serves request i. */
  function Source(i: nat): nat
    requires 1 <= i <= 10
  {
    [0, 1, 6, 7, 4, 2, 0, 8, 7, 5, 1][i]
  }

  lemma {:induction false} FirstChain(t: Pool, k: nat)
    requires |t.free| > t.levels == k + 8 && k >= 1 && t.free[0] == []
    requires forall j :: 1 <= j < 9 ==> t.free[j] == [Right(LeftDescendant(0, k + 7 - j))]
    ensures Lists(t, ListsAfter(Pow2(k), 1))
  {
    hide LeftDescendant, Pow2, Right;
    Doublings(k);
    RightOfLeftmost(k + 6);
    RightOfLeftmost(k + 5);
    RightOfLeftmost(k + 4);
    RightOfLeftmost(k + 3);
    RightOfLeftmost(k + 2);
    RightOfLeftmost(k + 1);
    RightOfLeftmost(k);
    RightOfLeftmost(k - 1);
    assert t.free[1] == [Pow2(k + 7)] && t.free[2] == [Pow2(k + 6)] && t.free[3] == [Pow2(k + 5)];
    assert t.free[4] == [Pow2(k + 4)] && t.free[5] == [Pow2(k + 3)] && t.free[6] == [Pow2(k + 2)];
    assert t.free[7] == [Pow2(k + 1)] && t.free[8] == [Pow2(k)];
  }

  lemma {:induction false} InitialFacts(s: Pool)
    requires IsInitial(s) && s.levels >= 9
    ensures BestFit(s, 1, s.levels) && s.free[s.levels] == [0] && s.free[0] == [] && s.levels < |s.free|
  {
  }

  lemma {:induction false} ChainOf(s: Pool, t: Pool)
    requires s.levels >= 9 && s.levels == t.levels < |s.free|
    requires BestFit(s, 1, s.levels) && SplitLists(s, t, 1, s.levels)
    requires s.free[s.levels] == [0] && s.free[0] == []
    ensures Lists(t, ListsAfter(Pow2(s.levels - 8), 1))
  {
    hide LeftDescendant, Right, Pow2, ListsAfter, Lists;
    FirstChain(t, s.levels - 8);
  }

  /** The first request cuts a chain of right siblings out of the whole region. */
  lemma {:induction false} ServeFirst(s: Pool)
    requires IsInitial(s) && Inv(s) && s.levels >= 9
    ensures Lists(Alloc(s, 1).0, ListsAfter(Pow2(s.levels - 8), 1))
  {
    hide Inv, IsInitial, ListsAfter, Lists, Alloc, LeftDescendant, Right, Pow2, BestFit, SplitLists;
    InitialFacts(s);
    AllocBestFit(s, 1, s.levels);
    ChainOf(s, Alloc(s, 1).0);
  }

  lemma {:induction false} Descendants(x: nat)
    ensures LeftDescendant(x, 0) == x && LeftDescendant(x, 1) == 2 * x + 1 && LeftDescendant(x, 2) == 4 * x + 3
  {
    assert LeftDescendant(x, 1) == Left(LeftDescendant(x, 0));
    assert LeftDescendant(x, 2) == Left(LeftDescendant(x, 1));
  }

  lemma {:induction false} TakeOnly(l: seq<seq<nat>>, c: nat)
    requires c < |l| && l[c] != []
    ensures SplitList(l, c, c) == l[c := l[c][1..]]
  {
  }

  lemma {:induction false} SplitOne(l: seq<seq<nat>>, c: nat)
    requires 0 < c < |l| && l[c] != []
    ensures SplitList(l, c - 1, c) == l[c - 1 := [2 * l[c][0] + 2]][c := l[c][1..]]
  {
    hide LeftDescendant;
    Descendants(l[c][0]);
    var x, r := l[c][0], SplitList(l, c - 1, c);
    assert r[c - 1] == [Right(LeftDescendant(x, c - 1 - (c - 1)))] == [Right(LeftDescendant(x, 0))];
    assert r[c] == l[c][1..] && forall j :: 0 <= j < |l| && j != c && j != c - 1 ==> r[j] == l[j];
  }

  lemma {:induction false} SplitTwo(l: seq<seq<nat>>, c: nat)
    requires 1 < c < |l| && l[c] != []
    ensures SplitList(l, c - 2, c) == l[c - 2 := [4 * l[c][0] + 4]][c - 1 := [2 * l[c][0] + 2]][c := l[c][1..]]
  {
    hide LeftDescendant;
    Descendants(l[c][0]);
    var x, r := l[c][0], SplitList(l, c - 2, c);
    assert r[c - 1] == [Right(LeftDescendant(x, c - 1 - (c - 1)))] == [Right(LeftDescendant(x, 0))];
    assert r[c - 2] == [Right(LeftDescendant(x, c - 1 - (c - 2)))] == [Right(LeftDescendant(x, 1))];
    assert r[c] == l[c][1..];
    assert forall j :: 0 <= j < |l| && j != c && j != c - 1 && j != c - 2 ==> r[j] == l[j];
  }

  /** Each further request finds the smaller lists empty and leaves the lists as written down. */
  lemma {:induction false} NextListsTaken(n: nat, i: nat)
    requires 1 <= i < 10 && i != 1 && i != 5 && i != 7 && i != 9
    ensures var l, c := ListsAfter(n, i), Source(i);
      c == REQUESTS[i] < 9 && l[c] != [] && l[c][1..] == [] && l[c := []] == ListsAfter(n, i + 1)
  {
  }

  lemma {:induction false} NextLists(n: nat, i: nat)
    requires 1 <= i < 10
    ensures var l, b, c := ListsAfter(n, i), REQUESTS[i], Source(i);
      b <= c < 9 && l[c] != [] && (forall j :: b <= j < c ==> l[j] == []) && SplitList(l, b, c) == ListsAfter(n, i + 1)
  {
    hide SplitList;
    var l, c := ListsAfter(n, i), Source(i);
    if i == 1 {
      SplitOne(l, 1);
      assert l[1][1..] == [] && l[0 := [256 * n + 2]][1 := []] == ListsAfter(n, 2);
    } else if i == 5 {
      SplitOne(l, 2);
      assert l[2][1..] == [] && l[1 := [128 * n + 2]][2 := []] == ListsAfter(n, 6);
    } else if i == 7 {
      SplitTwo(l, 8);
      assert l[8][1..] == [] && l[6 := [4 * n + 4]][7 := [2 * n + 2]][8 := []] == ListsAfter(n, 8);
    } else if i == 9 {
      SplitOne(l, 5);
      assert l[5][1..] == [] && l[4 := [16 * n + 2]][5 := []] == ListsAfter(n, 10);
    } else {
      NextListsTaken(n, i);
      TakeOnly(l, c);
    }
  }

  lemma {:induction false} ServedStep(s: Pool, i: nat)
    requires Inv(s) && 1 <= i <= 11
    ensures Served(s, REQUESTS[..i]) == Alloc(Served(s, REQUESTS[..i - 1]), REQUESTS[i - 1]).0
    ensures LastBlock(s, REQUESTS[..i]) == Alloc(Served(s, REQUESTS[..i - 1]), REQUESTS[i - 1]).1
    ensures Served(s, REQUESTS[..0]) == s
  {
    hide Inv, Alloc;
    assert REQUESTS[..i][..i - 1] == REQUESTS[..i - 1] && REQUESTS[..i][i - 1] == REQUESTS[i - 1];
  }

  lemma {:induction false} ListsServed(s: Pool, i: nat)
    requires IsInitial(s) && Inv(s) && s.levels >= 9 && 1 <= i <= 10
    ensures Lists(Served(s, REQUESTS[..i]), ListsAfter(Pow2(s.levels - 8), i))
    decreases i
  {
    hide Inv, Alloc, IsInitial, ListsAfter, Lists, SplitList, Pow2, LeftDescendant, Served, LastBlock;
    ServedStep(s, i);
    if i == 1 {
      ServeFirst(s);
    } else {
      ListsServed(s, i - 1);
      NextLists(Pow2(s.levels - 8), i - 1);
      ServeOne(Served(s, REQUESTS[..i - 1]), ListsAfter(Pow2(s.levels - 8), i - 1), REQUESTS[i - 1], Source(i - 1));
    }
  }

  lemma {:induction false} TableLists(n: nat)
    ensures ListsAfter(n, 2)[6] == [4 * n] && ListsAfter(n, 7)[6] == [] && ListsAfter(n, 7)[7] == []
    ensures ListsAfter(n, 7)[8] == [n]
    ensures LeftDescendant(4 * n, 0) == 4 * n && LeftDescendant(n, 2) == 4 * n + 3
  {
    Descendants(4 * n);
    Descendants(n);
  }

  /** On a fresh pool the tables of the first two processes are three block indices apart. */
  lemma {:induction false} FirstTwoTables(s: Pool)
    requires IsInitial(s) && Inv(s) && s.levels >= 9
    ensures LastBlock(s, REQUESTS[..3]) == Some(Pow2(s.levels - 6))
    ensures LastBlock(s, REQUESTS[..8]) == Some(Pow2(s.levels - 6) + 3)
  {
    hide Inv, Alloc, IsInitial, ListsAfter, Lists, SplitList, Pow2, LeftDescendant, Served, LastBlock;
    var n := Pow2(s.levels - 8);
    Doublings(s.levels - 8);
    TableLists(n);
    ListsServed(s, 2);
    ServedStep(s, 3);
    ServeOne(Served(s, REQUESTS[..2]), ListsAfter(n, 2), 6, 6);
    ListsServed(s, 7);
    ServedStep(s, 8);
    ServeOne(Served(s, REQUESTS[..7]), ListsAfter(n, 7), 6, 8);
  }

  lemma {:induction false} RecordLists(n: nat)
    ensures ListsAfter(n, 5)[1] == [] && ListsAfter(n, 5)[2] == [64 * n] && ListsAfter(n, 10)[1] == [128 * n + 2]
    ensures LeftDescendant(64 * n, 1) == 128 * n + 1 && LeftDescendant(128 * n + 2, 0) == 128 * n + 2
  {
    Descendants(64 * n);
    Descendants(128 * n + 2);
  }

  /** On a fresh pool the records of the second and the third process are in adjacent blocks. */
  lemma {:induction false} SecondAndThirdRecord(s: Pool)
    requires IsInitial(s) && Inv(s) && s.levels >= 9
    ensures LastBlock(s, REQUESTS[..6]) == Some(Pow2(s.levels - 1) + 1)
    ensures LastBlock(s, REQUESTS[..11]) == Some(Pow2(s.levels - 1) + 2)
  {
    hide Inv, Alloc, IsInitial, ListsAfter, Lists, SplitList, Pow2, LeftDescendant, Served, LastBlock;
    var n := Pow2(s.levels - 8);
    Doublings(s.levels - 8);
    RecordLists(n);
    ListsServed(s, 5);
    ServedStep(s, 6);
    ServeOne(Served(s, REQUESTS[..5]), ListsAfter(n, 5), 1, 2);
    ListsServed(s, 10);
    ServedStep(s, 11);
    ServeOne(Served(s, REQUESTS[..10]), ListsAfter(n, 10), 1, 1);
  }

  /**
   So creating two processes on a fresh pool puts the second one's tables 48 frames above the
   first one's: the first no longer sees its own mappings only. The kernel half of both stays.
   */
  lemma {:induction false} SecondCreationSpoilsFirst(s: Pool, sys: AddressSpaces.System, base: nat)
    requires IsInitial(s) && Inv(s) && s.levels >= 9
    requires AddressSpaces.Inv(sys) && sys.spaces == []
    requires var f := TableFrame(base, Pow2(s.levels - 6));
      && AddressSpaces.Usable(sys, f) && AddressSpaces.OffKernel(sys, f)
      && AddressSpaces.Usable(sys, f + 48) && AddressSpaces.OffKernel(sys, f + 48)
    ensures LastBlock(s, REQUESTS[..3]).Some? && LastBlock(s, REQUESTS[..8]).Some?
    ensures var f := TableFrame(base, LastBlock(s, REQUESTS[..3]).value);
      var g := TableFrame(base, LastBlock(s, REQUESTS[..8]).value);
      g == f + 48 && UserHalves.Spoiling(sys, f, g)
  {
    hide Inv, LastBlock, IsInitial, AddressSpaces.Inv, UserHalves.Spoiling, Pow2;
    FirstTwoTables(s);
    var f := TableFrame(base, Pow2(s.levels - 6));
    TableFrameIs(base, Pow2(s.levels - 6));
    TableFrameIs(base, Pow2(s.levels - 6) + 3);
    UserHalves.OverlappingPair(sys, f, f + 48);
  }
}
