/**
 All address spaces of the system in one physical memory: creation copies the kernel half
 from whichever cr3 is loaded, switches change the loaded one, mappings go to one process,
 and the result of a granted anon_allocate goes to whatever word its caller's pointer leads
 to. A creation may put its tables over another process's, and a store may hit any table.
 */
module AddressSpaces {
  import opened Machine
  import opened Paging
  import opened UserSpace
  import opened KernelSpace

  /** One process: where its tables are and the map calls made on it. */
  datatype Space = Space(f: nat, calls: seq<MapCall>)

  datatype System = System(mem: Memory, k: nat, imageFrame: nat, cr3: nat, spaces: seq<Space>)

  /** A call of sys_anon_allocate is a Map and then a Store of the old break, a page address. */
  datatype Op = Create(f: nat) | Switch(i: nat) | Map(i: nat, call: MapCall) | Store(w: nat, a: nat)

  /** get_kernel_pdpt_phy_addr: entry 256 read through the kernel mapping of the loaded cr3. */
  function LoadedPdpt(s: System): int
  {
    match Walk(s.mem, s.cr3, KERNEL_START + s.cr3 * PAGE_SIZE + 256 * 8)
    case Fault => -1
    case Mapped(phys, _, _) => if phys / 8 < |s.mem| then s.mem[phys / 8].base else -1
  }

  ghost predicate DisjointFrames(a: nat, n: nat, b: nat, m: nat) { a + n <= b || b + m <= a }

  /** Frames that can hold the tables of a process: identity mapped, and inside memory. */
  ghost predicate Usable(s: System, f: nat)
  {
    IMAGE_PAGES <= f && f + TABLE_FRAMES <= SPACE_PAGES && (f + TABLE_FRAMES) * ENTRIES <= |s.mem|
  }

  /** The kernel's tables are complete and, by Phy2VirtWalksBackIff, readable at their own address. */
  ghost predicate KernelOk(s: System)
  {
    && (IMAGE_PAGES <= s.k || s.imageFrame == 0)
    && s.k + KERNEL_FRAMES <= SPACE_PAGES && s.imageFrame + IMAGE_PAGES <= FRAME_LIMIT
    && KernelLower(s.mem, s.k, s.imageFrame)
  }

  /** Entry 256 of a table is the kernel's. */
  ghost predicate HasKernelHalf(s: System, f: nat)
  {
    Usable(s, f) && s.mem[f * ENTRIES + 256] == KernelEntry(s.k + 1)
  }

  ghost predicate OffKernel(s: System, f: nat) { DisjointFrames(s.k, KERNEL_FRAMES, f, TABLE_FRAMES) }

  ghost predicate Loaded(s: System)
  {
    s.cr3 == s.k || exists i :: 0 <= i < |s.spaces| && s.spaces[i].f == s.cr3
  }

  /** Entry 256 of the loaded table is the kernel's. */
  ghost predicate LoadedHalf(s: System)
  {
    (s.cr3 + 1) * ENTRIES <= |s.mem| && s.mem[s.cr3 * ENTRIES + 256] == KernelEntry(s.k + 1)
  }

  /** Every process, and the loaded cr3, has the kernel's half, whatever became of its own. */
  ghost predicate KernelInv(s: System)
  {
    && KernelOk(s) && Loaded(s) && LoadedHalf(s)
    && forall i :: 0 <= i < |s.spaces| ==> HasKernelHalf(s, s.spaces[i].f) && OffKernel(s, s.spaces[i].f)
  }

  /** Upper levels as built, and in the flat table the last mapping of every page. */
  ghost predicate SpaceOk(mem: Memory, k: nat, sp: Space)
  {
    && UpperLevels(mem, sp.f, k + 1)
    && (forall c :: 0 <= c < |sp.calls| ==> InTable(sp.calls[c]))
    && forall page: nat :: page < PT_ENTRIES ==>
      Pte(mem, sp.f, page) == (if LastFrame(sp.calls, page) >= 0 then UserEntry(LastFrame(sp.calls, page)) else ZERO)
  }

  ghost predicate Inv(s: System)
  {
    && KernelInv(s)
    && (forall i, j :: 0 <= i < j < |s.spaces| ==>
        DisjointFrames(s.spaces[i].f, TABLE_FRAMES, s.spaces[j].f, TABLE_FRAMES))
    && forall i :: 0 <= i < |s.spaces| ==> SpaceOk(s.mem, s.k, s.spaces[i])
  }

  /** A creation brings frames of its own start, off the kernel's tables; it may overlap other processes'. */
  ghost predicate Allowed(s: System, op: Op)
  {
    match op
    case Create(f) => Usable(s, f) && OffKernel(s, f) && forall i :: 0 <= i < |s.spaces| ==> s.spaces[i].f != f
    case Switch(i) => i < |s.spaces|
    case Map(i, call) => i < |s.spaces| && InTable(call)
    case Store(_, a) => a % PAGE_SIZE == 0
  }

  ghost function Step(s: System, op: Op): System
    requires Allowed(s, op)
  {
    match op
    case Create(f) =>
      var pdpt := LoadedPdpt(s);
      s.(mem := if pdpt >= 0 then Built(s.mem, f, pdpt) else s.mem, spaces := s.spaces + [Space(f, [])])
    case Switch(i) => s.(cr3 := s.spaces[i].f)
    case Map(i, c) =>
      var sp := s.spaces[i];
      s.(mem := MapRange(s.mem, sp.f, c.vaddr / PAGE_SIZE, c.paddr / PAGE_SIZE, c.nPages),
         spaces := s.spaces[i := sp.(calls := sp.calls + [c])])
    case Store(w, a) => s.(mem := Stored(s.mem, w, a))
  }

  /** The call writes word w of memory. */
  ghost predicate MapsWord(f: nat, c: MapCall, w: int)
  {
    (f + 3) * ENTRIES + c.vaddr / PAGE_SIZE <= w < (f + 3) * ENTRIES + c.vaddr / PAGE_SIZE + c.nPages
  }

  /**
   What a step must leave alone for the kernel's half to stay: entry 256 of every process and
   of the loaded table, and every word of the kernel's lower tables.
   */
  ghost predicate SparesKernel(s: System, op: Op)
    requires Allowed(s, op)
  {
    match op
    case Create(g) => forall i :: 0 <= i < |s.spaces| ==> !(g <= s.spaces[i].f < g + TABLE_FRAMES)
    case Switch(_) => true
    case Map(i, c) => forall j :: 0 <= j < |s.spaces| ==> !MapsWord(s.spaces[i].f, c, s.spaces[j].f * ENTRIES + 256)
    case Store(w, _) =>
      (!LowerWord(s.k, w) && w != s.cr3 * ENTRIES + 256
       && forall i :: 0 <= i < |s.spaces| ==> w != s.spaces[i].f * ENTRIES + 256)
  }

  /** A creation's frames are disjoint from every earlier one's. */
  ghost predicate Apart(s: System, op: Op)
  {
    op.Create? ==> forall i :: 0 <= i < |s.spaces| ==> DisjointFrames(s.spaces[i].f, TABLE_FRAMES, op.f, TABLE_FRAMES)
  }

  function Front(ops: seq<Op>): (r: seq<Op>)
    requires ops != []
    ensures |r| == |ops| - 1
  {
    ops[..|ops| - 1]
  }

  function Last(ops: seq<Op>): Op
    requires ops != []
  {
    ops[|ops| - 1]
  }

  ghost function Run(s: System, ops: seq<Op>): System
    requires Legal(s, ops)
    decreases |ops|, 1
  {
    if ops == [] then s else Step(Run(s, Front(ops)), Last(ops))
  }

  ghost predicate Legal(s: System, ops: seq<Op>)
    decreases |ops|, 0
  {
    ops == [] || (Legal(s, Front(ops)) && Allowed(Run(s, Front(ops)), Last(ops)))
  }

  /** The process the last switch was to, -1 without a switch. */
  function LastSwitch(ops: seq<Op>): int
  {
    if ops == [] then -1
    else if Last(ops).Switch? then Last(ops).i
    else LastSwitch(Front(ops))
  }

  /** The state after setup_page_table_in_kernel_space: the kernel's tables loaded, no process yet. */
  method Boot(mem: array<Entry>, t: nat, kernelStart: nat)
    requires t % PAGE_SIZE == 0 && kernelStart % PAGE_SIZE == 0
    requires (t / PAGE_SIZE + KERNEL_FRAMES) * ENTRIES <= mem.Length && t / PAGE_SIZE + KERNEL_FRAMES <= SPACE_PAGES
    requires IDENTITY_START <= t || kernelStart == 0
    requires kernelStart / PAGE_SIZE + IMAGE_PAGES <= FRAME_LIMIT
    modifies mem
    ensures Inv(System(mem[..], t / PAGE_SIZE, kernelStart / PAGE_SIZE, t / PAGE_SIZE, []))
  {
    SetupKernelTables(mem, t, kernelStart);
  }
}
