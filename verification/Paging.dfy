/**
 Four-level long-mode address translation over physical memory (section 5.3 of the AMD64
 Architecture Programmer's Manual, Volume 2), as the page tables of process.cpp and
 mm/mm.cpp use it. Memory is a sequence of 8-byte entries; the table in page frame f
 occupies entries f*512 .. f*512+511.
 */
module Paging {
  import opened Machine

  const ENTRIES := 512
  const FRAME_LIMIT := 0x100_0000_0000 // 2^40: the base_addr field has 40 bits

  /** The fields of a table entry that the kernel writes or the walk reads. */
  datatype Entry = Entry(p: bool, rw: bool, us: bool, pcd: bool, base: nat)

  const ZERO := Entry(false, false, false, false, 0)

  type Memory = seq<Entry>

  datatype Translation = Fault | Mapped(phys: nat, user: bool, writable: bool)

  /** Entry idx of the table in a frame; frames beyond memory read as not present. */
  function Read(mem: Memory, frame: nat, idx: nat): Entry
  {
    var w := frame * ENTRIES + idx;
    if w < |mem| then mem[w] else ZERO
  }

  predicate Canonical(v: nat)
  {
    v < 0x8000_0000_0000 || KERNEL_START <= v < U64
  }

  function Index4(v: nat): nat { v / 0x80_0000_0000 % ENTRIES }

  function Index3(v: nat): nat { v / 0x4000_0000 % ENTRIES }

  function Index2(v: nat): nat { v / 0x20_0000 % ENTRIES }

  function Index1(v: nat): nat { v / PAGE_SIZE % ENTRIES }

  /** The walk from the table in frame cr3. */
  function Walk(mem: Memory, cr3: nat, v: nat): Translation
  {
    if !Canonical(v) then Fault else
    var e4 := Read(mem, cr3, Index4(v));
    if !e4.p then Fault else
    var e3 := Read(mem, e4.base, Index3(v));
    if !e3.p then Fault else
    var e2 := Read(mem, e3.base, Index2(v));
    if !e2.p then Fault else
    var e1 := Read(mem, e2.base, Index1(v));
    if !e1.p then Fault else
    Mapped(e1.base * PAGE_SIZE + v % PAGE_SIZE,
           e4.us && e3.us && e2.us && e1.us,
           e4.rw && e3.rw && e2.rw && e1.rw)
  }

  lemma {:induction false} SplitLow(q: nat)
    ensures q / PAGE_SIZE == (q / 0x20_0000) * ENTRIES + Index1(q)
  {
  }

  lemma {:induction false} SplitMiddle(q: nat)
    ensures q / 0x20_0000 == (q / 0x4000_0000) * ENTRIES + Index2(q)
  {
  }

  /** The indices of an address below 512 GiB put together again. */
  lemma {:induction false} SplitIndex(q: nat)
    requires q < 0x80_0000_0000
    ensures q / PAGE_SIZE == (q / 0x20_0000) * ENTRIES + Index1(q)
    ensures q / 0x20_0000 == (q / 0x4000_0000) * ENTRIES + Index2(q)
    ensures q / 0x4000_0000 < ENTRIES && Index3(q) == q / 0x4000_0000
    ensures Index4(q) == 0
  {
    SplitLow(q);
    SplitMiddle(q);
    hide Index1, Index2;
  }

  lemma {:induction false} KernelIndex1(q: nat)
    ensures Index1(KERNEL_START + q) == Index1(q)
    ensures (KERNEL_START + q) % PAGE_SIZE == q % PAGE_SIZE
  {
    assert (KERNEL_START + q) / PAGE_SIZE == KERNEL_START / PAGE_SIZE + q / PAGE_SIZE;
  }

  lemma {:induction false} KernelIndex2(q: nat)
    ensures Index2(KERNEL_START + q) == Index2(q)
  {
    assert (KERNEL_START + q) / 0x20_0000 == KERNEL_START / 0x20_0000 + q / 0x20_0000;
  }

  lemma {:induction false} KernelIndex3(q: nat)
    ensures Index3(KERNEL_START + q) == Index3(q)
  {
    assert (KERNEL_START + q) / 0x4000_0000 == KERNEL_START / 0x4000_0000 + q / 0x4000_0000;
  }

  lemma {:induction false} KernelIndex4(q: nat)
    requires q < 0x80_0000_0000
    ensures Canonical(KERNEL_START + q) && Index4(KERNEL_START + q) == 256
  {
    assert (KERNEL_START + q) / 0x80_0000_0000 == KERNEL_START / 0x80_0000_0000;
  }

  lemma {:induction false} LowerHalfIndex(v: nat)
    requires v < 0x8000_0000_0000
    ensures Canonical(v)
    ensures v >= 0x80_0000_0000 ==> 0 < Index4(v) < 256
    ensures v < 0x80_0000_0000 && v >= 0x4000_0000 ==> 0 < Index3(v)
    ensures v < 0x4000_0000 ==> Index3(v) == 0
  {
  }

  // ----- A store into a table -----

  /** An address read as a table entry. */
  function EntryOf(a: nat): Entry
  {
    Entry(a % 2 == 1, a / 2 % 2 == 1, a / 4 % 2 == 1, a / 16 % 2 == 1, a / PAGE_SIZE % FRAME_LIMIT)
  }

  /** A table entry read as an address; the bits no field stands for are taken to be zero. */
  function AddressOf(e: Entry): nat
  {
    e.base * PAGE_SIZE
    + (if e.p then 1 else 0) + (if e.rw then 2 else 0) + (if e.us then 4 else 0) + (if e.pcd then 16 else 0)
  }

  lemma {:induction false} EvenQuotients(q: nat)
    ensures 4 * q / 2 % 2 == 0 && 8 * q / 4 % 2 == 0 && 32 * q / 16 % 2 == 0
  {
  }

  /** The low bits of a page address are zero. */
  lemma {:induction false} PageBits(n: nat)
    ensures n * PAGE_SIZE % 2 == 0 && n * PAGE_SIZE / 2 % 2 == 0
    ensures n * PAGE_SIZE / 4 % 2 == 0 && n * PAGE_SIZE / 16 % 2 == 0
  {
    EvenQuotients(1024 * n);
    EvenQuotients(512 * n);
    EvenQuotients(128 * n);
  }

  /** A stored page address reads back. */
  lemma {:induction false} AddressReadsBack(a: nat)
    requires a % PAGE_SIZE == 0 && a < FRAME_LIMIT * PAGE_SIZE
    ensures AddressOf(EntryOf(a)) == a
  {
    PageBits(a / PAGE_SIZE);
    assert a == a / PAGE_SIZE * PAGE_SIZE;
  }

  lemma {:induction false} AddressIsAbsent(a: nat)
    requires a % PAGE_SIZE == 0
    ensures !EntryOf(a).p && !EntryOf(a).pcd
  {
  }

  /** Memory after an address was stored at word w; words beyond memory are not modelled. */
  function Stored(mem: Memory, w: nat, a: nat): (r: Memory)
    ensures |r| == |mem|
  {
    if w < |mem| then mem[w := EntryOf(a)] else mem
  }

  /** The four words the walk of v reads when it gets that far. */
  function WalkWords(mem: Memory, cr3: nat, v: nat): set<nat>
  {
    var w4 := cr3 * ENTRIES + Index4(v);
    var w3 := Read(mem, cr3, Index4(v)).base * ENTRIES + Index3(v);
    var w2 := Read(mem, Read(mem, cr3, Index4(v)).base, Index3(v)).base * ENTRIES + Index2(v);
    var pt := Read(mem, Read(mem, Read(mem, cr3, Index4(v)).base, Index3(v)).base, Index2(v)).base;
    var w1 := pt * ENTRIES + Index1(v);
    {w4, w3, w2, w1}
  }

  lemma {:induction false} ReadStored(mem: Memory, w: nat, a: nat, frame: nat, i: nat)
    requires a % PAGE_SIZE == 0
    ensures frame * ENTRIES + i != w ==> Read(Stored(mem, w, a), frame, i) == Read(mem, frame, i)
    ensures frame * ENTRIES + i == w ==> !Read(Stored(mem, w, a), frame, i).p
  {
    AddressIsAbsent(a);
  }

  /** Storing a page address changes the translation of a mapped v exactly when the walk reads that word. */
  lemma {:induction false} StoreKeepsWalkIff(mem: Memory, w: nat, a: nat, cr3: nat, v: nat)
    requires a % PAGE_SIZE == 0 && Walk(mem, cr3, v) != Fault
    ensures Walk(Stored(mem, w, a), cr3, v)
         == (if w in WalkWords(mem, cr3, v) then Fault else Walk(mem, cr3, v))
  {
    hide Read, Stored, Index1, Index2, Index3, Index4;
    var e4 := Read(mem, cr3, Index4(v));
    var e3 := Read(mem, e4.base, Index3(v));
    var e2 := Read(mem, e3.base, Index2(v));
    ReadStored(mem, w, a, cr3, Index4(v));
    ReadStored(mem, w, a, e4.base, Index3(v));
    ReadStored(mem, w, a, e3.base, Index2(v));
    ReadStored(mem, w, a, e2.base, Index1(v));
  }
}
