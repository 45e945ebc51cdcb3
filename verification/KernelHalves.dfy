/**
 The kernel half of every address space: which steps keep it, and what it translates to over
 whole runs of creations, switches, mappings and stores.
 */
module KernelHalves {
  import opened Machine
  import opened Paging
  import opened UserSpace
  import opened KernelSpace
  import opened AddressSpaces

  lemma {:induction false} LoadedPlace(s: System)
    requires KernelInv(s)
    ensures s.cr3 < SPACE_PAGES && (IMAGE_PAGES <= s.cr3 || s.imageFrame == 0) && LoadedHalf(s) && KernelOk(s)
  {
    hide KernelEntry, LoadedHalf, KernelLower;
    if s.cr3 != s.k {
      var i :| 0 <= i < |s.spaces| && s.spaces[i].f == s.cr3;
      assert HasKernelHalf(s, s.spaces[i].f);
    }
  }

  /** Whatever cr3 is loaded, the copied pdpt is the kernel's. */
  lemma {:induction false} LoadedPdptIsKernel(s: System)
    requires KernelInv(s)
    ensures LoadedPdpt(s) == s.k + 1
  {
    LoadedPlace(s);
    var q := s.cr3 * PAGE_SIZE + 256 * 8;
    assert q < IDENTITY_END && q / 8 == s.cr3 * ENTRIES + 256;
    assert s.imageFrame != 0 ==> q >= IDENTITY_START;
    hide KernelInv, KernelLower, Walk;
    WalkKernel(s.mem, s.k, s.imageFrame, s.cr3, q);
  }

  /** Memory changed only within n frames from g on. */
  ghost predicate ChangedOnly(mem: Memory, mem': Memory, g: nat, n: nat)
  {
    && |mem'| == |mem|
    && forall w :: 0 <= w < |mem| && !(g * ENTRIES <= w < (g + n) * ENTRIES) ==> mem'[w] == mem[w]
  }

  lemma {:induction false} KernelLowerKept(mem: Memory, mem': Memory, k: nat, imageFrame: nat, g: nat, n: nat)
    requires KernelLower(mem, k, imageFrame) && ChangedOnly(mem, mem', g, n)
    requires DisjointFrames(k, KERNEL_FRAMES, g, n)
    ensures KernelLower(mem', k, imageFrame)
  {
  }

  lemma {:induction false} BuiltChanges(mem: Memory, g: nat, pdpt: nat)
    ensures ChangedOnly(mem, Built(mem, g, pdpt), g, TABLE_FRAMES)
  {
  }

  lemma {:induction false} MapChanges(mem: Memory, f: nat, c: MapCall)
    requires InTable(c)
    ensures ChangedOnly(mem, MapRange(mem, f, c.vaddr / PAGE_SIZE, c.paddr / PAGE_SIZE, c.nPages), f, TABLE_FRAMES)
  {
  }

  /** A creation over the first frame of another table turns its entry 256 into a user entry or clears it. */
  lemma {:induction false} BuiltEntry(mem: Memory, g: nat, f: nat, pdpt: nat)
    requires (f + TABLE_FRAMES) * ENTRIES <= |mem| && f != g
    ensures Built(mem, g, pdpt)[f * ENTRIES + 256]
         == if !(g <= f < g + TABLE_FRAMES) then mem[f * ENTRIES + 256]
            else if f == g + 2 then UserEntry(g + 3 + 256)
            else ZERO
  {
  }

  lemma {:induction false} LoadedKept(s: System, t: System)
    requires Loaded(s) && t.cr3 == s.cr3 && t.k == s.k && |s.spaces| <= |t.spaces|
    requires forall i :: 0 <= i < |s.spaces| ==> t.spaces[i].f == s.spaces[i].f
    ensures Loaded(t)
  {
    if s.cr3 != s.k {
      var i :| 0 <= i < |s.spaces| && s.spaces[i].f == s.cr3;
      assert t.spaces[i].f == t.cr3;
    }
  }

  /** Writes off the kernel's frames leave its tables and its own entry 256. */
  lemma {:induction false} OffKernelWrites(s: System, mem': Memory, g: nat)
    requires KernelOk(s) && OffKernel(s, g) && ChangedOnly(s.mem, mem', g, TABLE_FRAMES)
    ensures KernelOk(s.(mem := mem')) && mem'[s.k * ENTRIES + 256] == s.mem[s.k * ENTRIES + 256]
  {
    KernelLowerKept(s.mem, mem', s.k, s.imageFrame, g, TABLE_FRAMES);
  }

  /** The loaded table has the kernel's half when the kernel's own or every process's has. */
  lemma {:induction false} LoadedHalfFrom(s: System)
    requires KernelOk(s) && Loaded(s)
    requires s.cr3 == s.k ==> s.mem[s.k * ENTRIES + 256] == KernelEntry(s.k + 1)
    requires forall i :: 0 <= i < |s.spaces| ==> HasKernelHalf(s, s.spaces[i].f)
    ensures LoadedHalf(s)
  {
    if s.cr3 != s.k {
      var i :| 0 <= i < |s.spaces| && s.spaces[i].f == s.cr3;
      assert HasKernelHalf(s, s.spaces[i].f);
    }
  }

  /** What is left of a creation when the kernel's pdpt was copied. */
  lemma {:induction false} CreateIs(s: System, g: nat)
    requires KernelInv(s) && Allowed(s, Create(g))
    ensures Step(s, Create(g)) == s.(mem := Built(s.mem, g, s.k + 1), spaces := s.spaces + [Space(g, [])])
    ensures KernelOk(Step(s, Create(g))) && Loaded(Step(s, Create(g))) && HasKernelHalf(Step(s, Create(g)), g)
    ensures Step(s, Create(g)).mem[s.k * ENTRIES + 256] == s.mem[s.k * ENTRIES + 256]
  {
    hide LoadedPdpt, KernelLower, Loaded, ChangedOnly;
    var t := Step(s, Create(g));
    LoadedPdptIsKernel(s);
    LoadedKept(s, t);
    BuiltChanges(s.mem, g, s.k + 1);
    OffKernelWrites(s, t.mem, g);
    assert t.mem[g * ENTRIES + 256] == KernelEntry(s.k + 1);
  }

  lemma {:induction false} CreateHalfIff(s: System, g: nat, f: nat)
    requires KernelInv(s) && Allowed(s, Create(g)) && f != g && HasKernelHalf(s, f)
    ensures HasKernelHalf(Step(s, Create(g)), f) <==> !(g <= f < g + TABLE_FRAMES)
  {
    CreateIs(s, g);
    BuiltEntry(s.mem, g, f, s.k + 1);
    hide Built, Step, KernelInv;
  }

  lemma {:induction false} CreateKernelIff(s: System, g: nat)
    requires KernelInv(s) && Allowed(s, Create(g))
    ensures KernelInv(Step(s, Create(g))) <==> SparesKernel(s, Create(g))
  {
    hide HasKernelHalf, KernelOk, Loaded, LoadedPdpt, Built;
    var t, n := Step(s, Create(g)), |s.spaces|;
    CreateIs(s, g);
    forall i | 0 <= i < n
      ensures t.spaces[i].f == s.spaces[i].f && OffKernel(t, t.spaces[i].f)
      ensures HasKernelHalf(t, t.spaces[i].f) <==> !(g <= s.spaces[i].f < g + TABLE_FRAMES)
    {
      assert HasKernelHalf(s, s.spaces[i].f) && OffKernel(s, s.spaces[i].f);
      CreateHalfIff(s, g, s.spaces[i].f);
    }
    assert |t.spaces| == n + 1 && t.spaces[n].f == g && OffKernel(t, g);
    if SparesKernel(s, Create(g)) {
      LoadedHalfFrom(t);
    }
  }

  /** A mapping leaves a table's kernel entry exactly when it does not write it. */
  lemma {:induction false} MapHalfIff(s: System, i: nat, c: MapCall, f: nat)
    requires Allowed(s, Map(i, c)) && HasKernelHalf(s, f)
    ensures HasKernelHalf(Step(s, Map(i, c)), f) <==> !MapsWord(s.spaces[i].f, c, f * ENTRIES + 256)
  {
  }

  lemma {:induction false} MapKernelOk(s: System, i: nat, c: MapCall)
    requires KernelInv(s) && Allowed(s, Map(i, c))
    ensures KernelOk(Step(s, Map(i, c))) && Loaded(Step(s, Map(i, c)))
    ensures Step(s, Map(i, c)).mem[s.k * ENTRIES + 256] == s.mem[s.k * ENTRIES + 256]
  {
    hide MapRange, Loaded, KernelLower, ChangedOnly;
    var t, f := Step(s, Map(i, c)), s.spaces[i].f;
    assert OffKernel(s, f);
    LoadedKept(s, t);
    MapChanges(s.mem, f, c);
    OffKernelWrites(s, t.mem, f);
  }

  lemma {:induction false} MapKernelIff(s: System, i: nat, c: MapCall)
    requires KernelInv(s) && Allowed(s, Map(i, c))
    ensures KernelInv(Step(s, Map(i, c))) <==> SparesKernel(s, Map(i, c))
  {
    hide HasKernelHalf, KernelOk, Loaded, MapsWord, MapRange;
    var t := Step(s, Map(i, c));
    MapKernelOk(s, i, c);
    forall j | 0 <= j < |s.spaces|
      ensures t.spaces[j].f == s.spaces[j].f && OffKernel(t, t.spaces[j].f)
      ensures HasKernelHalf(t, t.spaces[j].f) <==> !MapsWord(s.spaces[i].f, c, s.spaces[j].f * ENTRIES + 256)
    {
      assert HasKernelHalf(s, s.spaces[j].f) && OffKernel(s, s.spaces[j].f);
      MapHalfIff(s, i, c, s.spaces[j].f);
    }
    assert |t.spaces| == |s.spaces|;
    if SparesKernel(s, Map(i, c)) {
      LoadedHalfFrom(t);
    }
  }

  /** A store of a page address keeps the kernel's lower tables exactly when it hits none of their words. */
  lemma {:induction false} StoreLowerIff(mem: Memory, k: nat, imageFrame: nat, w: nat, a: nat)
    requires KernelLower(mem, k, imageFrame) && a % PAGE_SIZE == 0
    ensures KernelLower(Stored(mem, w, a), k, imageFrame) <==> !LowerWord(k, w)
  {
    AddressIsAbsent(a);
    hide EntryOf;
    var mem' := Stored(mem, w, a);
    if LowerWord(k, w) {
      assert mem[w].p && !mem'[w].p;
    }
  }

  lemma {:induction false} StoreKernelIff(s: System, w: nat, a: nat)
    requires KernelInv(s) && Allowed(s, Store(w, a))
    ensures KernelInv(Step(s, Store(w, a))) <==> SparesKernel(s, Store(w, a))
  {
    hide KernelLower, Loaded, EntryOf, LowerWord;
    AddressIsAbsent(a);
    StoreLowerIff(s.mem, s.k, s.imageFrame, w, a);
    var t := Step(s, Store(w, a));
    assert Loaded(t) by { LoadedKept(s, t); }
    forall i | 0 <= i < |s.spaces|
      ensures HasKernelHalf(t, t.spaces[i].f) <==> w != s.spaces[i].f * ENTRIES + 256
      ensures OffKernel(t, t.spaces[i].f)
    {
      assert HasKernelHalf(s, s.spaces[i].f) && OffKernel(s, s.spaces[i].f);
    }
    assert LoadedHalf(t) <==> w != s.cr3 * ENTRIES + 256;
  }

  lemma {:induction false} SwitchKeepsKernel(s: System, i: nat)
    requires KernelInv(s) && i < |s.spaces|
    ensures KernelInv(Step(s, Switch(i)))
  {
    hide KernelLower, KernelEntry;
    var t := Step(s, Switch(i));
    assert t.spaces[i].f == t.cr3;
    forall j | 0 <= j < |t.spaces|
      ensures HasKernelHalf(t, t.spaces[j].f) && OffKernel(t, t.spaces[j].f)
    {
      assert HasKernelHalf(s, s.spaces[j].f) && OffKernel(s, s.spaces[j].f);
    }
    assert HasKernelHalf(s, s.spaces[i].f);
  }

  /** One operation keeps the kernel's half in every process and the loaded table exactly when it spares it. */
  lemma {:induction false} StepKernelIff(s: System, op: Op)
    requires KernelInv(s) && Allowed(s, op)
    ensures KernelInv(Step(s, op)) <==> SparesKernel(s, op)
    ensures Step(s, op).k == s.k && Step(s, op).imageFrame == s.imageFrame
  {
    hide KernelInv, LoadedPdpt, Built, MapRange;
    match op {
      case Create(g) => CreateKernelIff(s, g);
      case Switch(i) => SwitchKeepsKernel(s, i);
      case Map(i, c) => MapKernelIff(s, i, c);
      case Store(w, a) => StoreKernelIff(s, w, a);
    }
  }

  ghost predicate AlwaysKernelInv(s: System, ops: seq<Op>)
    requires Legal(s, ops)
    decreases |ops|
  {
    KernelInv(Run(s, ops)) && (ops == [] || AlwaysKernelInv(s, Front(ops)))
  }

  ghost predicate AllSpareKernel(s: System, ops: seq<Op>)
    requires Legal(s, ops)
    decreases |ops|
  {
    ops == [] || (AllSpareKernel(s, Front(ops)) && SparesKernel(Run(s, Front(ops)), Last(ops)))
  }

  /** Over every run the kernel's half stays in every process at every point exactly when every step spares it. */
  lemma {:induction false} KernelHalvesKeptIff(s: System, ops: seq<Op>)
    requires KernelInv(s) && Legal(s, ops)
    ensures AlwaysKernelInv(s, ops) <==> AllSpareKernel(s, ops)
    decreases |ops|
  {
    hide KernelInv, Step, Allowed, SparesKernel;
    if ops != [] {
      KernelHalvesKeptIff(s, Front(ops));
      var t := Run(s, Front(ops));
      if KernelInv(t) {
        StepKernelIff(t, Last(ops));
      }
    }
  }

  lemma {:induction false} RunKeepsKernel(s: System, ops: seq<Op>)
    requires KernelInv(s) && Legal(s, ops) && AllSpareKernel(s, ops)
    ensures KernelInv(Run(s, ops)) && Run(s, ops).k == s.k && Run(s, ops).imageFrame == s.imageFrame
    decreases |ops|
  {
    hide KernelInv, Step, Allowed, SparesKernel;
    if ops != [] {
      RunKeepsKernel(s, Front(ops));
      StepKernelIff(Run(s, Front(ops)), Last(ops));
    }
  }

  /** Where an address of the kernel half is to lead. */
  function KernelTarget(s: System, q: nat): Translation
  {
    Mapped(if q < IDENTITY_START then s.imageFrame * PAGE_SIZE + q else q, false, true)
  }

  /** Every table with the kernel's half translates it alike. */
  lemma {:induction false} HalfWalk(s: System, cr3: nat, q: nat)
    requires KernelOk(s) && q < IDENTITY_END
    requires (cr3 + 1) * ENTRIES <= |s.mem| && s.mem[cr3 * ENTRIES + 256] == KernelEntry(s.k + 1)
    ensures Walk(s.mem, cr3, KERNEL_START + q) == KernelTarget(s, q)
  {
    hide KernelLower, Walk;
    WalkKernel(s.mem, s.k, s.imageFrame, cr3, q);
  }

  /** Then all processes, and the loaded cr3, translate the kernel half alike. */
  lemma {:induction false} KernelHalfShared(s: System, ops: seq<Op>, i: nat, q: nat)
    requires KernelInv(s) && Legal(s, ops) && AllSpareKernel(s, ops)
    requires i < |Run(s, ops).spaces| && q < IDENTITY_END
    ensures Walk(Run(s, ops).mem, Run(s, ops).spaces[i].f, KERNEL_START + q) == KernelTarget(s, q)
    ensures Walk(Run(s, ops).mem, Run(s, ops).cr3, KERNEL_START + q) == KernelTarget(s, q)
  {
    hide KernelLower, Walk, Run, Legal, AllSpareKernel;
    RunKeepsKernel(s, ops);
    var t := Run(s, ops);
    assert HasKernelHalf(t, t.spaces[i].f);
    HalfWalk(t, t.spaces[i].f, q);
    HalfWalk(t, t.cr3, q);
  }
}
