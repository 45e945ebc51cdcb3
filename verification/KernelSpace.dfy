/**
 The kernel's own page tables (mm/mm.cpp) and the address arithmetic on top of them.
 Only the first 4 GiB above KERNEL_START are described: there are four page directories.
 */
module KernelSpace {
  import opened Machine
  import opened Paging
  import opened UserSpace

  const SPACE_PAGES := 4 * 512 * 512
  const IMAGE_PAGES := 32 * 512
  const DIRECTORIES := 4
  const KERNEL_FRAMES := 2 + DIRECTORIES + DIRECTORIES * ENTRIES
  const IDENTITY_START := IMAGE_PAGES * PAGE_SIZE // 64 MiB
  const IDENTITY_END := SPACE_PAGES * PAGE_SIZE   // 4 GiB

  /** Frame behind page j of the kernel half: the image first, identity after it. */
  function KernelFrame(imageFrame: nat, j: nat): nat { if j < IMAGE_PAGES then imageFrame + j else j }

  function KernelPte(imageFrame: nat, j: nat): Entry
  {
    Entry(true, true, false, true, KernelFrame(imageFrame, j) % FRAME_LIMIT)
  }

  /** Below the pml4t at frame k: the pdpt at k+1, four page directories, then the page tables. */
  ghost predicate KernelLower(mem: Memory, k: nat, imageFrame: nat)
  {
    && (k + KERNEL_FRAMES) * ENTRIES <= |mem|
    && (forall w :: (k + 1) * ENTRIES <= w < (k + 1) * ENTRIES + DIRECTORIES ==>
        mem[w] == KernelEntry(k + 2 + (w - (k + 1) * ENTRIES)))
    && (forall w :: (k + 2) * ENTRIES <= w < (k + 6) * ENTRIES ==>
        mem[w] == KernelEntry(k + 6 + (w - (k + 2) * ENTRIES)))
    && (forall w :: (k + 6) * ENTRIES <= w < (k + 6) * ENTRIES + SPACE_PAGES ==>
        mem[w] == KernelPte(imageFrame, w - (k + 6) * ENTRIES))
  }

  /** The words KernelLower speaks of. */
  ghost predicate LowerWord(k: nat, w: int)
  {
    || (k + 1) * ENTRIES <= w < (k + 1) * ENTRIES + DIRECTORIES
    || (k + 2) * ENTRIES <= w < (k + 6) * ENTRIES + SPACE_PAGES
  }

  /** The kernel's tables with their own pml4t. */
  ghost predicate KernelTables(mem: Memory, k: nat, imageFrame: nat)
  {
    KernelLower(mem, k, imageFrame) && mem[k * ENTRIES + 256] == KernelEntry(k + 1)
  }

  /** The three lower reads of the walk of KERNEL_START + q. */
  lemma {:induction false} KernelReads(mem: Memory, k: nat, imageFrame: nat, q: nat)
    requires KernelLower(mem, k, imageFrame) && q < IDENTITY_END
    ensures Read(mem, k + 1, Index3(q)) == KernelEntry(k + 2 + Index3(q))
    ensures Read(mem, k + 2 + Index3(q), Index2(q)) == KernelEntry(k + 6 + q / 0x20_0000)
    ensures Read(mem, k + 6 + q / 0x20_0000, Index1(q)) == KernelPte(imageFrame, q / PAGE_SIZE)
  {
    SplitIndex(q);
    var i3, i2, i1, d, j := Index3(q), Index2(q), Index1(q), q / 0x20_0000, q / PAGE_SIZE;
    assert 0 <= i3 < DIRECTORIES && d == i3 * ENTRIES + i2 && j == d * ENTRIES + i1;
    assert d < DIRECTORIES * ENTRIES && j < SPACE_PAGES;
    hide Index1, Index2, Index3;
    assert (k + 2 + i3) * ENTRIES + i2 == (k + 2) * ENTRIES + d;
    assert (k + 6 + d) * ENTRIES + i1 == (k + 6) * ENTRIES + j;
  }

  lemma {:induction false} KernelPhys(imageFrame: nat, q: nat)
    requires imageFrame + IMAGE_PAGES <= FRAME_LIMIT && q < IDENTITY_END
    ensures var e := KernelPte(imageFrame, q / PAGE_SIZE);
      && e.p && e.rw && !e.us
      && e.base * PAGE_SIZE + q % PAGE_SIZE == (if q < IDENTITY_START then imageFrame * PAGE_SIZE + q else q)
  {
  }

  /** From any pml4t whose entry 256 is the kernel's, the walk of KERNEL_START + q. */
  lemma {:induction false} WalkKernel(mem: Memory, k: nat, imageFrame: nat, cr3: nat, q: nat)
    requires KernelLower(mem, k, imageFrame) && imageFrame + IMAGE_PAGES <= FRAME_LIMIT
    requires Read(mem, cr3, 256) == KernelEntry(k + 1)
    requires q < IDENTITY_END
    ensures Walk(mem, cr3, KERNEL_START + q)
         == Mapped(if q < IDENTITY_START then imageFrame * PAGE_SIZE + q else q, false, true)
  {
    KernelIndex4(q);
    KernelIndex3(q);
    KernelIndex2(q);
    KernelIndex1(q);
    KernelReads(mem, k, imageFrame, q);
    KernelPhys(imageFrame, q);
    hide KernelLower, Index1, Index2, Index3, Index4, Read, KernelPte;
  }

  // ----- Address arithmetic -----

  function Kernel2Phy(v: nat): nat
    requires v < U64
  {
    (v + U64 - KERNEL_START) % U64
  }

  predicate IsKernel(v: nat) { v >= KERNEL_START }

  /** phy2virt asserts the address is below the identity map's end. */
  function Phy2Virt(phy: nat): (v: nat)
    requires phy < IDENTITY_END
    ensures KERNEL_START <= v < U64 && IsKernel(v) && Kernel2Phy(v) == phy
  {
    (phy + KERNEL_START) % U64
  }

  /**
   Going to the virtual address and walking back gives the same physical address exactly
   from 64 MiB on, or when the image itself is loaded at address 0.
   */
  lemma {:induction false} Phy2VirtWalksBackIff(mem: Memory, k: nat, imageFrame: nat, cr3: nat, phy: nat)
    requires KernelLower(mem, k, imageFrame) && imageFrame + IMAGE_PAGES <= FRAME_LIMIT
    requires Read(mem, cr3, 256) == KernelEntry(k + 1)
    requires phy < IDENTITY_END
    ensures Walk(mem, cr3, Phy2Virt(phy)) == Mapped(phy, false, true) <==> phy >= IDENTITY_START || imageFrame == 0
  {
    hide Walk, KernelLower, Read, KernelEntry;
    assert Phy2Virt(phy) == KERNEL_START + phy;
    hide Phy2Virt;
    WalkKernel(mem, k, imageFrame, cr3, phy);
  }

  // ----- setup_page_table_in_kernel_space -----

  method ClearKernel(mem: array<Entry>, k: nat)
    requires (k + KERNEL_FRAMES) * ENTRIES <= mem.Length
    modifies mem
    ensures forall w :: 0 <= w < mem.Length ==>
      mem[w] == (if k * ENTRIES <= w < (k + KERNEL_FRAMES) * ENTRIES then ZERO else old(mem[w]))
  {
    var i := k * ENTRIES;
    while i < (k + KERNEL_FRAMES) * ENTRIES
      invariant k * ENTRIES <= i <= (k + KERNEL_FRAMES) * ENTRIES
      invariant forall w :: 0 <= w < mem.Length ==> mem[w] == (if k * ENTRIES <= w < i then ZERO else old(mem[w]))
    {
      mem[i] := ZERO;
      i := i + 1;
    }
  }

  /** All 512 entries are written, although only four page directories exist. */
  method FillPdpt(mem: array<Entry>, t: nat)
    requires t % PAGE_SIZE == 0 && (t / PAGE_SIZE + KERNEL_FRAMES) * ENTRIES <= mem.Length
    requires t / PAGE_SIZE + 2 + ENTRIES <= FRAME_LIMIT
    modifies mem
    ensures forall w :: 0 <= w < mem.Length ==>
      mem[w] == (if (t / PAGE_SIZE + 1) * ENTRIES <= w < (t / PAGE_SIZE + 2) * ENTRIES
                 then KernelEntry(t / PAGE_SIZE + 2 + (w - (t / PAGE_SIZE + 1) * ENTRIES)) else old(mem[w]))
  {
    var k := t / PAGE_SIZE;
    var i := 0;
    while i < ENTRIES
      invariant 0 <= i <= ENTRIES
      invariant forall w :: 0 <= w < mem.Length ==>
        mem[w] == (if (k + 1) * ENTRIES <= w < (k + 1) * ENTRIES + i
                   then KernelEntry(k + 2 + (w - (k + 1) * ENTRIES)) else old(mem[w]))
    {
      mem[(k + 1) * ENTRIES + i] := KernelEntry((t + (2 + i) * PAGE_SIZE) / PAGE_SIZE % FRAME_LIMIT);
      i := i + 1;
    }
  }

  method FillKernelPdt(mem: array<Entry>, t: nat)
    requires t % PAGE_SIZE == 0 && (t / PAGE_SIZE + KERNEL_FRAMES) * ENTRIES <= mem.Length
    requires t / PAGE_SIZE + 6 + DIRECTORIES * ENTRIES <= FRAME_LIMIT
    modifies mem
    ensures forall w :: 0 <= w < mem.Length ==>
      mem[w] == (if (t / PAGE_SIZE + 2) * ENTRIES <= w < (t / PAGE_SIZE + 6) * ENTRIES
                 then KernelEntry(t / PAGE_SIZE + 6 + (w - (t / PAGE_SIZE + 2) * ENTRIES)) else old(mem[w]))
  {
    var k := t / PAGE_SIZE;
    var i := 0;
    while i < DIRECTORIES * ENTRIES
      invariant 0 <= i <= DIRECTORIES * ENTRIES
      invariant forall w :: 0 <= w < mem.Length ==>
        mem[w] == (if (k + 2) * ENTRIES <= w < (k + 2) * ENTRIES + i
                   then KernelEntry(k + 6 + (w - (k + 2) * ENTRIES)) else old(mem[w]))
    {
      mem[(k + 2) * ENTRIES + i] := KernelEntry((t + (6 + i) * PAGE_SIZE) / PAGE_SIZE % FRAME_LIMIT);
      i := i + 1;
    }
  }

  /** The identity loop, then the loop that redirects the first 64 MiB to the image. */
  method FillPt(mem: array<Entry>, t: nat, kernelStart: nat)
    requires t % PAGE_SIZE == 0 && (t / PAGE_SIZE + KERNEL_FRAMES) * ENTRIES <= mem.Length
    requires forall w :: (t / PAGE_SIZE + 6) * ENTRIES <= w < (t / PAGE_SIZE + 6) * ENTRIES + SPACE_PAGES ==>
      mem[w] == ZERO
    modifies mem
    ensures forall w :: 0 <= w < mem.Length ==>
      mem[w] == (if (t / PAGE_SIZE + 6) * ENTRIES <= w < (t / PAGE_SIZE + 6) * ENTRIES + SPACE_PAGES
                 then KernelPte(kernelStart / PAGE_SIZE, w - (t / PAGE_SIZE + 6) * ENTRIES) else old(mem[w]))
  {
    var pt := (t / PAGE_SIZE + 6) * ENTRIES;
    var i := 0;
    while i < SPACE_PAGES
      invariant 0 <= i <= SPACE_PAGES
      invariant forall w :: 0 <= w < mem.Length ==>
        mem[w] == (if pt <= w < pt + i then Entry(true, true, false, true, (w - pt) % FRAME_LIMIT) else old(mem[w]))
    {
      mem[pt + i] := mem[pt + i].(p := true);
      mem[pt + i] := mem[pt + i].(rw := true);
      mem[pt + i] := mem[pt + i].(base := i % FRAME_LIMIT);
      mem[pt + i] := mem[pt + i].(pcd := true);
      i := i + 1;
    }
    i := 0;
    while i < IMAGE_PAGES
      invariant 0 <= i <= IMAGE_PAGES
      invariant forall w :: 0 <= w < mem.Length ==>
        mem[w] == (if pt <= w < pt + i then KernelPte(kernelStart / PAGE_SIZE, w - pt)
                   else if pt <= w < pt + SPACE_PAGES then Entry(true, true, false, true, (w - pt) % FRAME_LIMIT)
                   else old(mem[w]))
    {
      mem[pt + i] := mem[pt + i].(p := true);
      mem[pt + i] := mem[pt + i].(rw := true);
      mem[pt + i] := mem[pt + i].(base := (kernelStart / PAGE_SIZE + i) % FRAME_LIMIT);
      i := i + 1;
    }
  }

  /** The four loops of the setup, on tables at physical address t. */
  method SetupKernelTables(mem: array<Entry>, t: nat, kernelStart: nat)
    requires t % PAGE_SIZE == 0 && kernelStart % PAGE_SIZE == 0
    requires (t / PAGE_SIZE + KERNEL_FRAMES) * ENTRIES <= mem.Length
    requires t / PAGE_SIZE + 6 + DIRECTORIES * ENTRIES <= FRAME_LIMIT
    modifies mem
    ensures KernelTables(mem[..], t / PAGE_SIZE, kernelStart / PAGE_SIZE)
    ensures forall w :: (t / PAGE_SIZE + 1) * ENTRIES <= w < (t / PAGE_SIZE + 2) * ENTRIES ==>
      mem[w] == KernelEntry(t / PAGE_SIZE + 2 + (w - (t / PAGE_SIZE + 1) * ENTRIES))
    ensures forall w :: 0 <= w < mem.Length ==>
      (t / PAGE_SIZE * ENTRIES <= w < (t / PAGE_SIZE + KERNEL_FRAMES) * ENTRIES || mem[w] == old(mem[w]))
  {
    var k := t / PAGE_SIZE;
    ClearKernel(mem, k);
    mem[k * ENTRIES + 256] := KernelEntry((t + PAGE_SIZE) / PAGE_SIZE % FRAME_LIMIT);
    FillPdpt(mem, t);
    FillKernelPdt(mem, t);
    FillPt(mem, t, kernelStart);
  }
}
