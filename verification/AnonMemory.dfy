/**
 Anonymous memory of a process: sys_anon_allocate of syscall.cpp moves the break and maps
 the pages of a kernel buffer behind it. The buffer's physical address is a parameter.
 */
module AnonMemory {
  import opened Machine
  import opened Paging
  import opened UserSpace
  import BuddyTree

  const MIB := 0x10_0000
  const IMAGE_START := 1 * MIB
  const IMAGE_END := 9 * MIB
  const BRK_START := 16 * MIB
  const BRK_END := 32 * MIB
  const STACK_START := 33 * MIB
  const STACK_END := 34 * MIB

  /** Rounding up to pages in 64-bit arithmetic. */
  function Aligned(size: nat): nat
  {
    (size + (PAGE_SIZE - 1)) % U64 / PAGE_SIZE * PAGE_SIZE
  }

  /** The least page multiple that holds the size, or 0 for the last 4095 sizes, for which the sum wraps. */
  lemma {:induction false} AlignedIs(size: nat)
    requires size < U64
    ensures Aligned(size) % PAGE_SIZE == 0
    ensures size <= U64 - PAGE_SIZE ==> size <= Aligned(size) < size + PAGE_SIZE
    ensures size > U64 - PAGE_SIZE ==> Aligned(size) == 0
  {
  }

  /** The break, its limit, and memory. */
  datatype Brk = Brk(start: nat, end: nat, mem: Memory)

  /**
   A call of this process: the size asked for, its kernel buffer, and the word of memory its
   result pointer leads to; or a granted call of another process, which stores its own break.
   */
  datatype Request = Request(size: nat, bufPhy: nat, ptr: nat) | Other(ptr: nat, value: nat)

  /** How far a call moves this process's break. */
  function Growth(r: Request): nat { if r.Request? then Aligned(r.size) else 0 }

  /** One call: the new state and whether it returned 0. */
  function Anon(b: Brk, f: nat, r: Request): (Brk, bool)
  {
    match r
    case Other(ptr, value) => (b.(mem := Stored(b.mem, ptr, value)), true)
    case Request(size, bufPhy, ptr) =>
      var start := (b.start + Aligned(size)) % U64;
      if start > b.end then (b.(start := start), false)
      else
        var mem := MapRange(b.mem, f, b.start / PAGE_SIZE, bufPhy / PAGE_SIZE, Aligned(size) / PAGE_SIZE);
        (Brk(start, b.end, Stored(mem, ptr, b.start)), true)
  }

  /** The sum that moves the break does not pass 2^64; another process's break is a page address. */
  predicate Proper(b: Brk, r: Request)
  {
    match r
    case Request(size, _, _) => b.start + Aligned(size) < U64
    case Other(_, value) => value % PAGE_SIZE == 0
  }

  class Process {
    const mem: array<Entry>
    const f: nat
    const brkEnd: nat
    var brkStart: nat

    constructor (mem: array<Entry>, f: nat)
      ensures this.mem == mem && this.f == f && brkStart == BRK_START && brkEnd == BRK_END
    {
      this.mem := mem;
      this.f := f;
      brkStart := BRK_START;
      brkEnd := BRK_END;
    }

    ghost function View(): Brk
      reads this, mem
    {
      Brk(brkStart, brkEnd, mem[..])
    }

    /**
     sys_anon_allocate: result 0 or -1; ptr is the word of memory the caller's pointer leads to.
     By StaysInTableIff the condition on size shuts out exactly the calls that write past the table.
     */
    method AnonAllocate(size: nat, bufPhy: nat, ptr: nat) returns (r: int)
      requires (f + TABLE_FRAMES) * ENTRIES <= mem.Length && brkEnd <= PT_ENTRIES * PAGE_SIZE
      requires size < U64 && brkStart % PAGE_SIZE == 0
      requires brkStart + Aligned(size) < U64 || (brkStart + Aligned(size)) % U64 > brkEnd
      modifies this, mem
      ensures View() == Anon(old(View()), f, Request(size, bufPhy, ptr)).0
      ensures r == (if Anon(old(View()), f, Request(size, bufPhy, ptr)).1 then 0 else -1)
      ensures r == 0 && ptr < mem.Length ==> AddressOf(mem[ptr]) == old(brkStart)
    {
      hide EntryOf, AddressOf;
      var alignedSize := (size + (PAGE_SIZE - 1)) % U64 / PAGE_SIZE * PAGE_SIZE;
      var start := brkStart;
      brkStart := (brkStart + alignedSize) % U64;
      if brkStart > brkEnd { return -1; }
      MapUserAddr(mem, f, start, bufPhy, alignedSize / PAGE_SIZE);
      if ptr < mem.Length {
        AddressReadsBack(start);
        mem[ptr] := EntryOf(start);
      }
      r := 0;
    }
  }

  // ----- Runs -----

  ghost predicate NoWrap(b: Brk, f: nat, reqs: seq<Request>)
    decreases |reqs|
  {
    reqs == [] || (Proper(b, reqs[0]) && NoWrap(Anon(b, f, reqs[0]).0, f, reqs[1..]))
  }

  ghost function Run(b: Brk, f: nat, reqs: seq<Request>): Brk
    decreases |reqs|
  {
    if reqs == [] then b else Run(Anon(b, f, reqs[0]).0, f, reqs[1..])
  }

  ghost function Results(b: Brk, f: nat, reqs: seq<Request>): (rs: seq<bool>)
    ensures |rs| == |reqs|
    decreases |reqs|
  {
    if reqs == [] then [] else [Anon(b, f, reqs[0]).1] + Results(Anon(b, f, reqs[0]).0, f, reqs[1..])
  }

  /** Break before the k-th call: where a successful k-th call's range starts. */
  ghost function StartOf(b: Brk, f: nat, reqs: seq<Request>, k: nat): nat
    requires k <= |reqs|
    decreases |reqs|
  {
    if k == 0 then b.start else StartOf(Anon(b, f, reqs[0]).0, f, reqs[1..], k - 1)
  }

  lemma {:induction false} AnonStep(b: Brk, f: nat, r: Request)
    requires b.start % PAGE_SIZE == 0 && Proper(b, r)
    ensures Anon(b, f, r).0.start == b.start + Growth(r) && Anon(b, f, r).0.start % PAGE_SIZE == 0
    ensures Anon(b, f, r).0.end == b.end && |Anon(b, f, r).0.mem| == |b.mem|
    ensures r.Request? ==> (Anon(b, f, r).1 <==> b.start + Growth(r) <= b.end)
  {
  }

  /** Ranges follow one another: the k-th starts where the one before ended, and none starts below. */
  lemma {:induction false} RangesContiguous(b: Brk, f: nat, reqs: seq<Request>, k: nat)
    requires b.start % PAGE_SIZE == 0 && NoWrap(b, f, reqs) && k < |reqs|
    ensures StartOf(b, f, reqs, k) % PAGE_SIZE == 0 && b.start <= StartOf(b, f, reqs, k)
    ensures StartOf(b, f, reqs, k + 1) == StartOf(b, f, reqs, k) + Growth(reqs[k])
    ensures reqs[k].Request? ==> (Results(b, f, reqs)[k] <==> StartOf(b, f, reqs, k + 1) <= b.end)
    decreases |reqs|
  {
    AnonStep(b, f, reqs[0]);
    var c := Anon(b, f, reqs[0]).0;
    if k == 0 {
      assert StartOf(c, f, reqs[1..], 0) == c.start;
    } else {
      RangesContiguous(c, f, reqs[1..], k - 1);
    }
  }

  lemma {:induction false} StartsAscend(b: Brk, f: nat, reqs: seq<Request>, j: nat, k: nat)
    requires b.start % PAGE_SIZE == 0 && NoWrap(b, f, reqs) && j <= k <= |reqs|
    ensures StartOf(b, f, reqs, j) <= StartOf(b, f, reqs, k)
    decreases k - j
  {
    if j < k {
      RangesContiguous(b, f, reqs, k - 1);
      StartsAscend(b, f, reqs, j, k - 1);
    }
  }

  /** After the first overflow no call succeeds. */
  lemma {:induction false} OverflowIsFinal(b: Brk, f: nat, reqs: seq<Request>, j: nat, k: nat)
    requires b.start % PAGE_SIZE == 0 && NoWrap(b, f, reqs) && j <= k < |reqs|
    requires reqs[j].Request? && reqs[k].Request? && !Results(b, f, reqs)[j]
    ensures !Results(b, f, reqs)[k]
  {
    RangesContiguous(b, f, reqs, j);
    RangesContiguous(b, f, reqs, k);
    StartsAscend(b, f, reqs, j + 1, k + 1);
  }

  // ----- What the calls leave in the tables -----

  /** Some granted call of the run stores its result at word w. */
  ghost predicate Hits(b: Brk, f: nat, reqs: seq<Request>, w: nat)
    decreases |reqs|
  {
    reqs != [] &&
    ((Anon(b, f, reqs[0]).1 && reqs[0].ptr == w) || Hits(Anon(b, f, reqs[0]).0, f, reqs[1..], w))
  }

  /** Some granted call from the k-th on does. */
  ghost predicate HitsFrom(b: Brk, f: nat, reqs: seq<Request>, k: nat, w: nat)
    requires k <= |reqs|
    decreases |reqs|
  {
    if k == 0 then Hits(b, f, reqs, w) else HitsFrom(Anon(b, f, reqs[0]).0, f, reqs[1..], k - 1, w)
  }

  /** No later call maps word w: it lies below the break, from the limit on, or outside the flat table. */
  ghost predicate Unmapped(b: Brk, f: nat, w: nat)
  {
    w < (f + 3) * ENTRIES + b.start / PAGE_SIZE || b.end <= (w - (f + 3) * ENTRIES) * PAGE_SIZE
  }

  /** What one call leaves in a word it does not map. */
  lemma {:induction false} WordAfterCall(b: Brk, f: nat, r: Request, w: nat)
    requires b.start % PAGE_SIZE == 0 && Proper(b, r) && w < |b.mem| && Unmapped(b, f, w)
    ensures var (c, ok) := Anon(b, f, r);
      && |c.mem| == |b.mem| && Unmapped(c, f, w)
      && (ok && r.ptr == w ==> !c.mem[w].p)
      && (!(ok && r.ptr == w) ==> c.mem[w] == b.mem[w])
  {
    AnonStep(b, f, r);
    AddressIsAbsent(b.start);
    if r.Other? {
      AddressIsAbsent(r.value);
    }
    hide EntryOf;
  }

  /** A word no call maps is kept over the run, or cleared by a store that hits it. */
  lemma {:induction false} WordAfter(b: Brk, f: nat, reqs: seq<Request>, w: nat)
    requires b.start % PAGE_SIZE == 0 && NoWrap(b, f, reqs) && w < |b.mem| && Unmapped(b, f, w)
    ensures |Run(b, f, reqs).mem| == |b.mem|
    ensures Hits(b, f, reqs, w) ==> !Run(b, f, reqs).mem[w].p
    ensures !Hits(b, f, reqs, w) ==> Run(b, f, reqs).mem[w] == b.mem[w]
    decreases |reqs|
  {
    if reqs != [] {
      AnonStep(b, f, reqs[0]);
      WordAfterCall(b, f, reqs[0], w);
      hide Anon, Unmapped;
      WordAfter(Anon(b, f, reqs[0]).0, f, reqs[1..], w);
    }
  }

  /** The entry of a page of a granted range holds its frame of the buffer. */
  ghost predicate EntryFor(e: Entry, bufPhy: nat, offset: int)
  {
    e.p && e.rw && e.us && e.base == (bufPhy / PAGE_SIZE + offset) % FRAME_LIMIT
  }

  lemma {:induction false} MappedWord(b: Brk, f: nat, r: Request, page: nat)
    requires b.start % PAGE_SIZE == 0 && Proper(b, r) && r.Request? && Anon(b, f, r).1
    requires (f + TABLE_FRAMES) * ENTRIES <= |b.mem| && page < PT_ENTRIES
    requires b.start <= page * PAGE_SIZE < Anon(b, f, r).0.start
    ensures var c, w := Anon(b, f, r).0, (f + 3) * ENTRIES + page;
      && |c.mem| == |b.mem| && Unmapped(c, f, w)
      && (if r.ptr == w then !c.mem[w].p else EntryFor(c.mem[w], r.bufPhy, page - b.start / PAGE_SIZE))
  {
    AnonStep(b, f, r);
    AddressIsAbsent(b.start);
    hide EntryOf;
  }

  /** The k-th range at the end of the run: each page has its frame of the k-th buffer, or its entry was hit. */
  lemma {:induction false} RangeMapped(b: Brk, f: nat, reqs: seq<Request>, k: nat, page: nat)
    requires b.start % PAGE_SIZE == 0 && NoWrap(b, f, reqs) && k < |reqs| && reqs[k].Request? && Results(b, f, reqs)[k]
    requires (f + TABLE_FRAMES) * ENTRIES <= |b.mem| && page < PT_ENTRIES
    requires StartOf(b, f, reqs, k) <= page * PAGE_SIZE < StartOf(b, f, reqs, k + 1)
    ensures |Run(b, f, reqs).mem| == |b.mem|
    ensures var e, w := Pte(Run(b, f, reqs).mem, f, page), (f + 3) * ENTRIES + page;
      if HitsFrom(b, f, reqs, k, w) then !e.p
      else EntryFor(e, reqs[k].bufPhy, page - StartOf(b, f, reqs, k) / PAGE_SIZE)
    decreases |reqs|
  {
    var c := Anon(b, f, reqs[0]).0;
    AnonStep(b, f, reqs[0]);
    assert StartOf(b, f, reqs, k + 1) == StartOf(c, f, reqs[1..], k);
    if k == 0 {
      MappedWord(b, f, reqs[0], page);
      hide Anon, Unmapped, EntryFor;
      WordAfter(c, f, reqs[1..], (f + 3) * ENTRIES + page);
    } else {
      hide Anon, EntryFor;
      RangeMapped(c, f, reqs[1..], k - 1, page);
    }
  }

  // ----- The address given back -----

  /** The call maps word w. */
  ghost predicate Maps(b: Brk, f: nat, r: Request, w: nat)
  {
    && r.Request? && Anon(b, f, r).1
    && (f + 3) * ENTRIES + b.start / PAGE_SIZE <= w
    && w < (f + 3) * ENTRIES + b.start / PAGE_SIZE + Aligned(r.size) / PAGE_SIZE
  }

  /** Some granted call of the run stores at word w or maps it. */
  ghost predicate Writes(b: Brk, f: nat, reqs: seq<Request>, w: nat)
    decreases |reqs|
  {
    reqs != [] &&
    ((Anon(b, f, reqs[0]).1 && reqs[0].ptr == w) || Maps(b, f, reqs[0], w)
     || Writes(Anon(b, f, reqs[0]).0, f, reqs[1..], w))
  }

  /** Some granted call from the k-th on does. */
  ghost predicate WritesFrom(b: Brk, f: nat, reqs: seq<Request>, k: nat, w: nat)
    requires k <= |reqs|
    decreases |reqs|
  {
    if k == 0 then Writes(b, f, reqs, w) else WritesFrom(Anon(b, f, reqs[0]).0, f, reqs[1..], k - 1, w)
  }

  lemma {:induction false} UnwrittenByCall(b: Brk, f: nat, r: Request, w: nat)
    requires w < |b.mem| && !(Anon(b, f, r).1 && r.ptr == w) && !Maps(b, f, r, w)
    ensures |Anon(b, f, r).0.mem| == |b.mem| && Anon(b, f, r).0.mem[w] == b.mem[w]
  {
    hide EntryOf;
  }

  lemma {:induction false} UnwrittenKept(b: Brk, f: nat, reqs: seq<Request>, w: nat)
    requires w < |b.mem| && !Writes(b, f, reqs, w)
    ensures |Run(b, f, reqs).mem| == |b.mem| && Run(b, f, reqs).mem[w] == b.mem[w]
    decreases |reqs|
  {
    if reqs != [] {
      UnwrittenByCall(b, f, reqs[0], w);
      hide Anon, Maps;
      UnwrittenKept(Anon(b, f, reqs[0]).0, f, reqs[1..], w);
    }
  }

  lemma {:induction false} StoredByCall(b: Brk, f: nat, r: Request)
    requires r.Request? && Anon(b, f, r).1 && r.ptr < |b.mem|
    ensures |Anon(b, f, r).0.mem| == |b.mem| && Anon(b, f, r).0.mem[r.ptr] == EntryOf(b.start)
  {
    hide EntryOf;
  }

  /** Until it is written again, the word at a granted call's pointer holds the start of the call's own range. */
  lemma {:induction false} PointerHoldsStart(b: Brk, f: nat, reqs: seq<Request>, k: nat)
    requires b.start % PAGE_SIZE == 0 && b.end <= PT_ENTRIES * PAGE_SIZE && NoWrap(b, f, reqs)
    requires k < |reqs| && reqs[k].Request? && Results(b, f, reqs)[k]
    requires reqs[k].ptr < |b.mem| && !WritesFrom(b, f, reqs, k + 1, reqs[k].ptr)
    ensures |Run(b, f, reqs).mem| == |b.mem|
    ensures AddressOf(Run(b, f, reqs).mem[reqs[k].ptr]) == StartOf(b, f, reqs, k)
    decreases |reqs|
  {
    AnonStep(b, f, reqs[0]);
    hide EntryOf, AddressOf, Maps;
    var c := Anon(b, f, reqs[0]).0;
    if k == 0 {
      StoredByCall(b, f, reqs[0]);
      AddressReadsBack(b.start);
      UnwrittenKept(c, f, reqs[1..], reqs[0].ptr);
    } else {
      PointerHoldsStart(c, f, reqs[1..], k - 1);
    }
  }

  // ----- The walk -----

  /** Some granted call stores its result at one of the three upper entries on the way to a page. */
  ghost predicate HitsPath(b: Brk, f: nat, reqs: seq<Request>, page: nat)
  {
    || Hits(b, f, reqs, f * ENTRIES)
    || Hits(b, f, reqs, (f + 1) * ENTRIES)
    || Hits(b, f, reqs, (f + 2) * ENTRIES + page / ENTRIES)
  }

  lemma {:induction false} RoomOf(mem: Memory, f: nat, kernelPdpt: nat)
    requires UpperLevels(mem, f, kernelPdpt)
    ensures (f + TABLE_FRAMES) * ENTRIES <= |mem|
  {
  }

  lemma {:induction false} PathAfter(b: Brk, f: nat, kernelPdpt: nat, reqs: seq<Request>, page: nat)
    requires b.start % PAGE_SIZE == 0 && NoWrap(b, f, reqs) && UpperLevels(b.mem, f, kernelPdpt) && page < PT_ENTRIES
    ensures |Run(b, f, reqs).mem| == |b.mem| && PathOrAbsent(Run(b, f, reqs).mem, f, page)
    ensures PathPresent(Run(b, f, reqs).mem, f, page) <==> !HitsPath(b, f, reqs, page)
  {
    assert Read(b.mem, f, 0) == UserEntry(f + 1) && Read(b.mem, f + 1, 0) == UserEntry(f + 2);
    assert Read(b.mem, f + 2, page / ENTRIES) == UserEntry(f + 3 + page / ENTRIES);
    hide UpperLevels, Run, NoWrap, Hits;
    WordAfter(b, f, reqs, f * ENTRIES);
    WordAfter(b, f, reqs, (f + 1) * ENTRIES);
    WordAfter(b, f, reqs, (f + 2) * ENTRIES + page / ENTRIES);
  }

  /**
   Over any run from the initial break without 64-bit wrap-around, a successful call's range
   lies in [16 MiB, 32 MiB), starts on a page, and lies above every earlier range.
   */
  lemma {:induction false} AnonRanges(b: Brk, f: nat, reqs: seq<Request>, k: nat)
    requires b.start == BRK_START && b.end == BRK_END && NoWrap(b, f, reqs)
    requires k < |reqs| && reqs[k].Request? && Results(b, f, reqs)[k]
    ensures BRK_START <= StartOf(b, f, reqs, k) <= StartOf(b, f, reqs, k + 1) <= BRK_END
    ensures StartOf(b, f, reqs, k) % PAGE_SIZE == 0
    ensures forall j :: 0 <= j <= k ==> StartOf(b, f, reqs, j) <= StartOf(b, f, reqs, k)
  {
    RangesContiguous(b, f, reqs, k);
    forall j | 0 <= j <= k
      ensures StartOf(b, f, reqs, j) <= StartOf(b, f, reqs, k)
    {
      StartsAscend(b, f, reqs, j, k);
    }
  }

  /**
   At the end of the run an address of a granted range walks to the same offset in its
   buffer exactly when no granted call, of this process or another, stored its result over
   an upper entry on the way, and none from its own on over the page's entry; otherwise it
   faults.
   */
  lemma {:induction false} AnonWalkIff(b: Brk, f: nat, kernelPdpt: nat, reqs: seq<Request>, k: nat, v: nat)
    requires b.start == BRK_START && b.end == BRK_END && NoWrap(b, f, reqs)
    requires UpperLevels(b.mem, f, kernelPdpt)
    requires k < |reqs| && reqs[k].Request? && Results(b, f, reqs)[k]
    requires reqs[k].bufPhy % PAGE_SIZE == 0 && reqs[k].bufPhy + (BRK_END - BRK_START) <= FRAME_LIMIT * PAGE_SIZE
    requires StartOf(b, f, reqs, k) <= v < StartOf(b, f, reqs, k + 1)
    ensures var page := v / PAGE_SIZE;
      Walk(Run(b, f, reqs).mem, f, v)
        == (if HitsPath(b, f, reqs, page) || HitsFrom(b, f, reqs, k, (f + 3) * ENTRIES + page) then Fault
            else Mapped(reqs[k].bufPhy + (v - StartOf(b, f, reqs, k)), true, true))
  {
    hide Walk, Run, StartOf, Results, NoWrap, Hits, HitsPath, HitsFrom, PathOrAbsent, PathPresent, Aligned, Room;
    hide Pml4Is, PdptIs, PdtIs;
    AnonRanges(b, f, reqs, k);
    RangesContiguous(b, f, reqs, k);
    assert (f + TABLE_FRAMES) * ENTRIES <= |b.mem| by { RoomOf(b.mem, f, kernelPdpt); }
    PathAfter(b, f, kernelPdpt, reqs, v / PAGE_SIZE);
    RangeMapped(b, f, reqs, k, v / PAGE_SIZE);
    WalkByPath(Run(b, f, reqs).mem, f, v);
  }

  /**
   The address a granted call gave back leads to the first byte of its buffer, for a range
   that is not empty and a word that was not written again, unless a store hit its path.
   */
  lemma {:induction false} GivenAddressWalks(b: Brk, f: nat, kernelPdpt: nat, reqs: seq<Request>, k: nat)
    requires b.start == BRK_START && b.end == BRK_END && NoWrap(b, f, reqs)
    requires UpperLevels(b.mem, f, kernelPdpt)
    requires k < |reqs| && reqs[k].Request? && Results(b, f, reqs)[k] && 0 < reqs[k].size <= U64 - PAGE_SIZE
    requires reqs[k].bufPhy % PAGE_SIZE == 0 && reqs[k].bufPhy + (BRK_END - BRK_START) <= FRAME_LIMIT * PAGE_SIZE
    requires reqs[k].ptr < |b.mem| && !WritesFrom(b, f, reqs, k + 1, reqs[k].ptr)
    ensures |Run(b, f, reqs).mem| == |b.mem|
    ensures var v := AddressOf(Run(b, f, reqs).mem[reqs[k].ptr]);
      var page := v / PAGE_SIZE;
      Walk(Run(b, f, reqs).mem, f, v)
        == (if HitsPath(b, f, reqs, page) || HitsFrom(b, f, reqs, k, (f + 3) * ENTRIES + page) then Fault
            else Mapped(reqs[k].bufPhy, true, true))
  {
    hide Walk, Run, StartOf, Results, NoWrap, HitsPath, HitsFrom, WritesFrom, UpperLevels, Aligned, AddressOf;
    PointerHoldsStart(b, f, reqs, k);
    RangesContiguous(b, f, reqs, k);
    AlignedIs(reqs[k].size);
    AnonWalkIff(b, f, kernelPdpt, reqs, k, StartOf(b, f, reqs, k));
  }

  /**
   Over the run an image or stack address keeps its translation exactly when it had none or
   no granted call, of this process or another, stored its result over one of the four
   entries of its walk.
   */
  lemma {:induction false} ImageAndStackKeptIff(b: Brk, f: nat, kernelPdpt: nat, reqs: seq<Request>, v: nat)
    requires b.start == BRK_START && b.end == BRK_END && NoWrap(b, f, reqs)
    requires UpperLevels(b.mem, f, kernelPdpt)
    requires IMAGE_START <= v < IMAGE_END || STACK_START <= v < STACK_END
    ensures var page := v / PAGE_SIZE;
      Walk(Run(b, f, reqs).mem, f, v) == Walk(b.mem, f, v) <==>
        (Walk(b.mem, f, v) == Fault
         || !(HitsPath(b, f, reqs, page) || Hits(b, f, reqs, (f + 3) * ENTRIES + page)))
  {
    PathAfter(b, f, kernelPdpt, reqs, v / PAGE_SIZE);
    WalkIsFlat(b.mem, f, kernelPdpt, v);
    WordAfter(b, f, reqs, (f + 3) * ENTRIES + v / PAGE_SIZE);
    hide Walk, UpperLevels, Run, NoWrap, Hits, HitsPath, PathOrAbsent, PathPresent;
    WalkByPath(Run(b, f, reqs).mem, f, v);
  }

  /** A call whose pointer leads to the entry of its own first page: granted, and then the range faults. */
  lemma {:induction false} StoreIntoOwnTable(b: Brk, f: nat, kernelPdpt: nat, bufPhy: nat)
    requires b.start == BRK_START && b.end == BRK_END && UpperLevels(b.mem, f, kernelPdpt)
    requires bufPhy % PAGE_SIZE == 0 && bufPhy + (BRK_END - BRK_START) <= FRAME_LIMIT * PAGE_SIZE
    ensures var req := Request(PAGE_SIZE, bufPhy, (f + 3) * ENTRIES + BRK_START / PAGE_SIZE);
      Anon(b, f, req).1 && Walk(Anon(b, f, req).0.mem, f, BRK_START) == Fault
  {
    var req := Request(PAGE_SIZE, bufPhy, (f + 3) * ENTRIES + BRK_START / PAGE_SIZE);
    var reqs := [req];
    AnonStep(b, f, req);
    var c := Anon(b, f, req).0;
    assert reqs[1..] == [] && Run(c, f, []) == c && Run(b, f, reqs) == c;
    assert Results(b, f, reqs) == [Anon(b, f, req).1] + Results(c, f, []);
    assert NoWrap(c, f, []) && NoWrap(b, f, reqs);
    assert StartOf(b, f, reqs, 1) == StartOf(c, f, [], 0) == c.start;
    AnonWalkIff(b, f, kernelPdpt, reqs, 0, BRK_START);
  }

  // ----- Physical memory behind the ranges -----

  /** Physical address behind an address of the k-th range. */
  ghost function Behind(b: Brk, f: nat, reqs: seq<Request>, k: nat, v: nat): int
    requires k < |reqs| && reqs[k].Request?
  {
    reqs[k].bufPhy + (v - StartOf(b, f, reqs, k))
  }

  ghost predicate InRange(b: Brk, f: nat, reqs: seq<Request>, k: nat, v: nat)
    requires k < |reqs|
  {
    StartOf(b, f, reqs, k) <= v < StartOf(b, f, reqs, k + 1)
  }

  /** Two granted ranges share no physical address exactly when one is empty or their buffers lie apart. */
  lemma {:induction false} BuffersApartIff(b: Brk, f: nat, reqs: seq<Request>, j: nat, k: nat)
    requires b.start % PAGE_SIZE == 0 && NoWrap(b, f, reqs) && j < |reqs| && k < |reqs|
    requires reqs[j].Request? && reqs[k].Request?
    ensures var m, n := Aligned(reqs[j].size), Aligned(reqs[k].size);
      (forall v: nat, w: nat :: InRange(b, f, reqs, j, v) && InRange(b, f, reqs, k, w) ==>
         Behind(b, f, reqs, j, v) != Behind(b, f, reqs, k, w))
      <==> (m == 0 || n == 0 || reqs[j].bufPhy + m <= reqs[k].bufPhy || reqs[k].bufPhy + n <= reqs[j].bufPhy)
  {
    RangesContiguous(b, f, reqs, j);
    RangesContiguous(b, f, reqs, k);
    var m, n := Aligned(reqs[j].size), Aligned(reqs[k].size);
    var x, y := reqs[j].bufPhy, reqs[k].bufPhy;
    var v, w := StartOf(b, f, reqs, j), StartOf(b, f, reqs, k);
    hide StartOf, Aligned, NoWrap;
    if m > 0 && n > 0 && y < x + m && x < y + n {
      var v', w' := if x < y then v + (y - x) else v, if x < y then w else w + (x - y);
      assert InRange(b, f, reqs, j, v') && InRange(b, f, reqs, k, w');
      assert Behind(b, f, reqs, j, v') == Behind(b, f, reqs, k, w');
    }
  }

  /** Buffers at the allocator's addresses of blocks i < j are apart exactly so. */
  lemma {:induction false} BlocksApartIff(base: nat, i: nat, j: nat, m: nat, n: nat)
    requires i < j && 0 < n
    ensures RangesApart(BuddyTree.BlockAddress(base, i), m, BuddyTree.BlockAddress(base, j), n)
       <==> m <= (j - i) * BuddyTree.BLOCK_SIZE
  {
  }

  /** A successful call provides the bytes asked for exactly when rounding up does not wrap. */
  lemma {:induction false} CoversRequestIff(b: Brk, f: nat, r: Request)
    requires r.Request? && r.size < U64 && b.start % PAGE_SIZE == 0 && Proper(b, r) && Anon(b, f, r).1
    ensures Anon(b, f, r).0.start - b.start >= r.size <==> r.size <= U64 - PAGE_SIZE
  {
    AnonStep(b, f, r);
  }

  /** The largest size is granted on a fresh break, and no byte is provided. */
  lemma {:induction false} LargestRequest(b: Brk, f: nat, bufPhy: nat, ptr: nat)
    requires b.start == BRK_START && b.end == BRK_END
    ensures var (c, ok) := Anon(b, f, Request(U64 - 1, bufPhy, ptr)); ok && c.start == b.start
  {
  }

  /**
   A call that returns 0 writes entries of the flat table only, exactly when the sum that
   moves the break does not wrap: this is the condition on the caller's size.
   */
  lemma {:induction false} StaysInTableIff(b: Brk, f: nat, r: Request)
    requires b.start % PAGE_SIZE == 0 && b.start < U64 && b.end <= PT_ENTRIES * PAGE_SIZE
    requires r.Request? && r.size < U64 && Anon(b, f, r).1
    ensures b.start / PAGE_SIZE + Aligned(r.size) / PAGE_SIZE <= PT_ENTRIES <==> b.start + Aligned(r.size) < U64
  {
    if b.start + Aligned(r.size) >= U64 {
      assert (b.start + Aligned(r.size)) / PAGE_SIZE >= U64 / PAGE_SIZE;
    }
  }

  /** The size that takes a fresh break exactly to 2^64 is granted, and its pages lie past the table. */
  lemma {:induction false} WrappingRequest(b: Brk, f: nat, bufPhy: nat, ptr: nat)
    requires b.start == BRK_START && b.end == BRK_END
    ensures var size := U64 - BRK_START;
      && Anon(b, f, Request(size, bufPhy, ptr)).1
      && b.start / PAGE_SIZE + Aligned(size) / PAGE_SIZE > PT_ENTRIES
  {
  }
}
