/**
 The page tables of a process (process.cpp): one flat array of page-table entries behind
 three upper levels, and what the four-level walk makes of it after any number of
 `map_user_addr` calls.
 */
module UserSpace {
  import opened Machine
  import opened Paging

  const PT_ENTRIES := 512 * 512
  const TABLE_FRAMES := 3 + 512

  /** p, rw and us set. */
  function UserEntry(base: nat): Entry { Entry(true, true, true, false, base) }

  function KernelEntry(base: nat): Entry { Entry(true, true, false, false, base) }

  /** The tables of a process start at frame f: pml4t, pdpt, pdt, then 512 frames of pt. */
  ghost predicate Room(mem: Memory, f: nat)
  {
    (f + TABLE_FRAMES) * ENTRIES <= |mem| && f + TABLE_FRAMES < FRAME_LIMIT
  }

  ghost predicate Pml4Is(mem: Memory, frame: nat, userPdpt: nat, kernelPdpt: nat)
  {
    forall i: nat :: i < ENTRIES ==>
      Read(mem, frame, i)
        == (if i == 0 then UserEntry(userPdpt) else if i == 256 then KernelEntry(kernelPdpt) else ZERO)
  }

  ghost predicate PdptIs(mem: Memory, frame: nat, pdt: nat)
  {
    forall i: nat :: i < ENTRIES ==> Read(mem, frame, i) == (if i == 0 then UserEntry(pdt) else ZERO)
  }

  ghost predicate PdtIs(mem: Memory, frame: nat, firstPt: nat)
  {
    forall i: nat :: i < ENTRIES ==> Read(mem, frame, i) == UserEntry(firstPt + i)
  }

  /** The upper levels as the constructor leaves them. */
  ghost predicate UpperLevels(mem: Memory, f: nat, kernelPdpt: nat)
  {
    && Room(mem, f) && Pml4Is(mem, f, f + 1, kernelPdpt) && PdptIs(mem, f + 1, f + 2) && PdtIs(mem, f + 2, f + 3)
  }

  /** Entry of a page in the flat table. */
  function Pte(mem: Memory, f: nat, page: nat): Entry
    requires (f + TABLE_FRAMES) * ENTRIES <= |mem| && page < PT_ENTRIES
  {
    mem[(f + 3) * ENTRIES + page]
  }

  function FlatTranslation(e: Entry, v: nat): Translation
  {
    if e.p then Mapped(e.base * PAGE_SIZE + v % PAGE_SIZE, e.us, e.rw) else Fault
  }

  /** The walk of a lower-half address is a lookup in the flat table, and faults from 1 GiB on. */
  lemma {:induction false} WalkIsFlat(mem: Memory, f: nat, kernelPdpt: nat, v: nat)
    requires UpperLevels(mem, f, kernelPdpt) && v < 0x8000_0000_0000
    ensures v < 0x4000_0000 ==> v / PAGE_SIZE < PT_ENTRIES
    ensures Walk(mem, f, v) == (if v < 0x4000_0000 then FlatTranslation(Pte(mem, f, v / PAGE_SIZE), v) else Fault)
  {
    LowerHalfIndex(v);
    if v < 0x80_0000_0000 {
      SplitIndex(v);
      assert Read(mem, f, 0) == UserEntry(f + 1);
      if v < 0x4000_0000 {
        assert Read(mem, f + 1, 0) == UserEntry(f + 2);
        assert Read(mem, f + 2, Index2(v)) == UserEntry(f + 3 + Index2(v));
        assert (f + 3 + Index2(v)) * ENTRIES + Index1(v) == (f + 3) * ENTRIES + v / PAGE_SIZE;
      }
    }
  }

  // ----- Absent upper entries -----

  /** The three upper entries on the way to a page below 1 GiB are as built, or absent. */
  ghost predicate PathOrAbsent(mem: Memory, f: nat, page: nat)
  {
    && (f + TABLE_FRAMES) * ENTRIES <= |mem| && page < PT_ENTRIES
    && (mem[f * ENTRIES] == UserEntry(f + 1) || !mem[f * ENTRIES].p)
    && (mem[(f + 1) * ENTRIES] == UserEntry(f + 2) || !mem[(f + 1) * ENTRIES].p)
    && var w := (f + 2) * ENTRIES + page / ENTRIES;
       (mem[w] == UserEntry(f + 3 + page / ENTRIES) || !mem[w].p)
  }

  ghost predicate PathPresent(mem: Memory, f: nat, page: nat)
    requires (f + TABLE_FRAMES) * ENTRIES <= |mem| && page < PT_ENTRIES
  {
    mem[f * ENTRIES].p && mem[(f + 1) * ENTRIES].p && mem[(f + 2) * ENTRIES + page / ENTRIES].p
  }

  lemma {:induction false} WalkByPath(mem: Memory, f: nat, v: nat)
    requires v < 0x4000_0000 && PathOrAbsent(mem, f, v / PAGE_SIZE)
    ensures Walk(mem, f, v)
         == (if PathPresent(mem, f, v / PAGE_SIZE) then FlatTranslation(Pte(mem, f, v / PAGE_SIZE), v) else Fault)
  {
    LowerHalfIndex(v);
    SplitIndex(v);
    assert v / PAGE_SIZE / ENTRIES == Index2(v);
    assert (f + 3 + Index2(v)) * ENTRIES + Index1(v) == (f + 3) * ENTRIES + v / PAGE_SIZE;
    hide Index1, Index2, Index3, Index4;
  }

  // ----- map_user_addr -----

  function MapEntry(e: Entry, frame: nat): Entry
  {
    e.(p := true, rw := true, us := true, base := frame % FRAME_LIMIT)
  }

  /** Memory after mapping n pages from vpage to frames from ppage on. */
  function MapRange(mem: Memory, f: nat, vpage: nat, ppage: nat, n: nat): (r: Memory)
    ensures |r| == |mem|
  {
    var first := (f + 3) * ENTRIES + vpage;
    seq(|mem|, w requires 0 <= w < |mem| =>
      if first <= w < first + n then MapEntry(mem[w], ppage + (w - first)) else mem[w])
  }

  /** map_user_addr: entries past the flat table are the words of memory that follow it. */
  method MapUserAddr(mem: array<Entry>, f: nat, vaddr: nat, paddr: nat, nPages: nat)
    requires (f + 3) * ENTRIES + vaddr / PAGE_SIZE + nPages <= mem.Length
    modifies mem
    ensures mem[..] == MapRange(old(mem[..]), f, vaddr / PAGE_SIZE, paddr / PAGE_SIZE, nPages)
  {
    var pt := (f + 3) * ENTRIES;
    var i := 0;
    while i < nPages
      invariant 0 <= i <= nPages
      invariant mem[..] == MapRange(old(mem[..]), f, vaddr / PAGE_SIZE, paddr / PAGE_SIZE, i)
    {
      var vpage := vaddr / PAGE_SIZE + i;
      var ppage := paddr / PAGE_SIZE + i;
      mem[pt + vpage] := mem[pt + vpage].(p := true);
      mem[pt + vpage] := mem[pt + vpage].(rw := true);
      mem[pt + vpage] := mem[pt + vpage].(us := true);
      mem[pt + vpage] := mem[pt + vpage].(base := ppage % FRAME_LIMIT);
      i := i + 1;
    }
  }

  datatype MapCall = MapCall(vaddr: nat, paddr: nat, nPages: nat)

  /** A call stays inside the flat table and maps frames that fit the entry. */
  ghost predicate InTable(c: MapCall)
  {
    c.vaddr / PAGE_SIZE + c.nPages <= PT_ENTRIES && c.paddr / PAGE_SIZE + c.nPages <= FRAME_LIMIT
  }

  ghost function Apply(mem: Memory, f: nat, calls: seq<MapCall>): (r: Memory)
    ensures |r| == |mem|
    decreases |calls|
  {
    if calls == [] then mem
    else
      var c := calls[|calls| - 1];
      MapRange(Apply(mem, f, calls[..|calls| - 1]), f, c.vaddr / PAGE_SIZE, c.paddr / PAGE_SIZE, c.nPages)
  }

  /** Frame given to a page by the last call that covered it, -1 when none did. */
  ghost function LastFrame(calls: seq<MapCall>, page: nat): int
    decreases |calls|
  {
    if calls == [] then -1
    else
      var c := calls[|calls| - 1];
      if c.vaddr / PAGE_SIZE <= page < c.vaddr / PAGE_SIZE + c.nPages
      then c.paddr / PAGE_SIZE + (page - c.vaddr / PAGE_SIZE)
      else LastFrame(calls[..|calls| - 1], page)
  }

  ghost predicate EmptyTable(mem: Memory, f: nat)
    requires (f + TABLE_FRAMES) * ENTRIES <= |mem|
  {
    forall page: nat :: page < PT_ENTRIES ==> Pte(mem, f, page) == ZERO
  }

  /** A call writes nothing outside the pages it names. */
  lemma {:induction false} MapRangeAt(mem: Memory, f: nat, c: MapCall, w: nat)
    requires w < |mem| && InTable(c)
    ensures w < (f + 3) * ENTRIES || w >= (f + TABLE_FRAMES) * ENTRIES ==>
      MapRange(mem, f, c.vaddr / PAGE_SIZE, c.paddr / PAGE_SIZE, c.nPages)[w] == mem[w]
  {
  }

  lemma {:induction false} ApplyOutside(mem: Memory, f: nat, calls: seq<MapCall>, w: nat)
    requires w < |mem| && (forall k :: 0 <= k < |calls| ==> InTable(calls[k]))
    requires w < (f + 3) * ENTRIES || w >= (f + TABLE_FRAMES) * ENTRIES
    ensures Apply(mem, f, calls)[w] == mem[w]
    decreases |calls|
  {
    if calls != [] {
      var rest := calls[..|calls| - 1];
      ApplyOutside(mem, f, rest, w);
      MapRangeAt(Apply(mem, f, rest), f, calls[|calls| - 1], w);
    }
  }

  lemma {:induction false} ApplyPte(mem: Memory, f: nat, calls: seq<MapCall>, page: nat)
    requires (f + TABLE_FRAMES) * ENTRIES <= |mem| && EmptyTable(mem, f) && page < PT_ENTRIES
    requires forall k :: 0 <= k < |calls| ==> InTable(calls[k])
    ensures LastFrame(calls, page) < FRAME_LIMIT
    ensures Pte(Apply(mem, f, calls), f, page)
         == (if LastFrame(calls, page) >= 0 then UserEntry(LastFrame(calls, page)) else ZERO)
    decreases |calls|
  {
    if calls != [] {
      ApplyPte(mem, f, calls[..|calls| - 1], page);
    }
  }

  lemma {:induction false} TableKept(mem: Memory, mem': Memory, frame: nat)
    requires |mem'| == |mem| && (frame + 1) * ENTRIES <= |mem|
    requires forall w :: frame * ENTRIES <= w < (frame + 1) * ENTRIES ==> mem'[w] == mem[w]
    ensures forall i: nat {:trigger Read(mem', frame, i)} :: i < ENTRIES ==> Read(mem', frame, i) == Read(mem, frame, i)
  {
  }

  lemma {:induction false} UpperLevelsKept(mem: Memory, mem': Memory, f: nat, kernelPdpt: nat)
    requires UpperLevels(mem, f, kernelPdpt) && |mem'| == |mem|
    requires forall w :: f * ENTRIES <= w < (f + 3) * ENTRIES ==> mem'[w] == mem[w]
    ensures UpperLevels(mem', f, kernelPdpt)
  {
    TableKept(mem, mem', f);
    TableKept(mem, mem', f + 1);
    TableKept(mem, mem', f + 2);
  }

  /**
   After any sequence of calls the walk of every lower-half address gives the last mapping
   of its page, user-accessible and writable, and faults where there is none.
   */
  lemma {:induction false} WalkAfterCalls(mem: Memory, f: nat, kernelPdpt: nat, calls: seq<MapCall>, v: nat)
    requires UpperLevels(mem, f, kernelPdpt) && EmptyTable(mem, f)
    requires forall k :: 0 <= k < |calls| ==> InTable(calls[k])
    requires v < 0x8000_0000_0000
    ensures UpperLevels(Apply(mem, f, calls), f, kernelPdpt)
    ensures Walk(Apply(mem, f, calls), f, v)
         == (if v < 0x4000_0000 && LastFrame(calls, v / PAGE_SIZE) >= 0
             then Mapped(LastFrame(calls, v / PAGE_SIZE) * PAGE_SIZE + v % PAGE_SIZE, true, true)
             else Fault)
  {
    var t := Apply(mem, f, calls);
    forall w | f * ENTRIES <= w < (f + 3) * ENTRIES
      ensures t[w] == mem[w]
    {
      ApplyOutside(mem, f, calls, w);
    }
    UpperLevelsKept(mem, t, f, kernelPdpt);
    WalkIsFlat(t, f, kernelPdpt, v);
    if v < 0x4000_0000 {
      ApplyPte(mem, f, calls, v / PAGE_SIZE);
    }
  }

  // ----- The constructor's tables -----

  /** Memory after the constructor wrote the tables of a process. */
  function Built(mem: Memory, f: nat, kernelPdpt: nat): (r: Memory)
    ensures |r| == |mem|
  {
    seq(|mem|, w requires 0 <= w < |mem| =>
      if w < f * ENTRIES || w >= (f + TABLE_FRAMES) * ENTRIES then mem[w]
      else if w == f * ENTRIES then UserEntry(f + 1)
      else if w == f * ENTRIES + 256 then KernelEntry(kernelPdpt)
      else if w == (f + 1) * ENTRIES then UserEntry(f + 2)
      else if (f + 2) * ENTRIES <= w < (f + 3) * ENTRIES then UserEntry(f + 3 + (w - (f + 2) * ENTRIES))
      else ZERO)
  }

  lemma {:induction false} BuiltTables(mem: Memory, f: nat, kernelPdpt: nat)
    requires Room(mem, f)
    ensures UpperLevels(Built(mem, f, kernelPdpt), f, kernelPdpt)
    ensures EmptyTable(Built(mem, f, kernelPdpt), f)
  {
  }

  /** memset over the whole structure. */
  method ClearTables(mem: array<Entry>, f: nat)
    requires (f + TABLE_FRAMES) * ENTRIES <= mem.Length
    modifies mem
    ensures forall w :: 0 <= w < mem.Length ==>
      mem[w] == (if f * ENTRIES <= w < (f + TABLE_FRAMES) * ENTRIES then ZERO else old(mem[w]))
  {
    var i := f * ENTRIES;
    while i < (f + TABLE_FRAMES) * ENTRIES
      invariant f * ENTRIES <= i <= (f + TABLE_FRAMES) * ENTRIES
      invariant forall w :: 0 <= w < mem.Length ==> mem[w] == (if f * ENTRIES <= w < i then ZERO else old(mem[w]))
    {
      mem[i] := ZERO;
      i := i + 1;
    }
  }

  /** The loop over the page directory. */
  method FillPdt(mem: array<Entry>, ptsPaddr: nat)
    requires ptsPaddr % PAGE_SIZE == 0 && Room(mem[..], ptsPaddr / PAGE_SIZE)
    modifies mem
    ensures forall w :: 0 <= w < mem.Length ==>
      mem[w] == (if (ptsPaddr / PAGE_SIZE + 2) * ENTRIES <= w < (ptsPaddr / PAGE_SIZE + 3) * ENTRIES
                 then UserEntry(ptsPaddr / PAGE_SIZE + 3 + (w - (ptsPaddr / PAGE_SIZE + 2) * ENTRIES)) else old(mem[w]))
  {
    var f := ptsPaddr / PAGE_SIZE;
    var pdt := (f + 2) * ENTRIES;
    var i := 0;
    while i < ENTRIES
      invariant 0 <= i <= ENTRIES
      invariant forall w :: 0 <= w < mem.Length ==>
        mem[w] == (if pdt <= w < pdt + i then UserEntry(f + 3 + (w - pdt)) else old(mem[w]))
    {
      mem[pdt + i] := UserEntry((ptsPaddr + (3 + i) * PAGE_SIZE) / PAGE_SIZE % FRAME_LIMIT);
      i := i + 1;
    }
  }

  /** The table-building part of Process::Process; kernelPdptPhy is the kernel's pdpt address. */
  method BuildTables(mem: array<Entry>, ptsPaddr: nat, kernelPdptPhy: nat)
    requires ptsPaddr % PAGE_SIZE == 0 && Room(mem[..], ptsPaddr / PAGE_SIZE)
    requires kernelPdptPhy / PAGE_SIZE < FRAME_LIMIT
    modifies mem
    ensures mem[..] == Built(old(mem[..]), ptsPaddr / PAGE_SIZE, kernelPdptPhy / PAGE_SIZE)
  {
    var f := ptsPaddr / PAGE_SIZE;
    var pml4t, pdpt := f * ENTRIES, (f + 1) * ENTRIES;
    ClearTables(mem, f);
    mem[pml4t + 256] := KernelEntry(kernelPdptPhy / PAGE_SIZE % FRAME_LIMIT);
    mem[pml4t + 0] := UserEntry((ptsPaddr + PAGE_SIZE) / PAGE_SIZE % FRAME_LIMIT);
    mem[pdpt + 0] := UserEntry((ptsPaddr + 2 * PAGE_SIZE) / PAGE_SIZE % FRAME_LIMIT);
    FillPdt(mem, ptsPaddr);
  }
}
