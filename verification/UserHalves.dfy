/**
 What the processes see in their lower halves: exactly which creations and which stores
 leave every translation right, over every run.
 */
module UserHalves {
  import opened Machine
  import opened Paging
  import opened UserSpace
  import opened KernelSpace
  import opened AddressSpaces
  import opened KernelHalves

  // ----- Tables as built and mapped -----

  lemma {:induction false} SpaceKept(mem: Memory, mem': Memory, k: nat, sp: Space, g: nat, n: nat)
    requires SpaceOk(mem, k, sp) && ChangedOnly(mem, mem', g, n)
    requires DisjointFrames(sp.f, TABLE_FRAMES, g, n)
    ensures SpaceOk(mem', k, sp)
  {
    UpperLevelsKept(mem, mem', sp.f, k + 1);
    forall page: nat | page < PT_ENTRIES
      ensures Pte(mem', sp.f, page) == Pte(mem, sp.f, page)
    {
    }
  }

  lemma {:induction false} NewSpaceOk(mem: Memory, k: nat, f: nat)
    requires Room(mem, f)
    ensures SpaceOk(Built(mem, f, k + 1), k, Space(f, []))
    ensures ChangedOnly(mem, Built(mem, f, k + 1), f, TABLE_FRAMES)
  {
    BuiltTables(mem, f, k + 1);
  }

  lemma {:induction false} MappedSpaceOk(mem: Memory, k: nat, sp: Space, c: MapCall)
    requires SpaceOk(mem, k, sp) && InTable(c)
    ensures var mem' := MapRange(mem, sp.f, c.vaddr / PAGE_SIZE, c.paddr / PAGE_SIZE, c.nPages);
      SpaceOk(mem', k, sp.(calls := sp.calls + [c])) && ChangedOnly(mem, mem', sp.f, TABLE_FRAMES)
  {
    var mem' := MapRange(mem, sp.f, c.vaddr / PAGE_SIZE, c.paddr / PAGE_SIZE, c.nPages);
    UpperLevelsKept(mem, mem', sp.f, k + 1);
    var calls := sp.calls + [c];
    assert calls[..|calls| - 1] == sp.calls;
    forall page: nat | page < PT_ENTRIES
      ensures Pte(mem', sp.f, page) == (if LastFrame(calls, page) >= 0 then UserEntry(LastFrame(calls, page)) else ZERO)
    {
      assert Pte(mem, sp.f, page).p ==> Pte(mem, sp.f, page).pcd == false;
    }
  }

  lemma {:induction false} CreateSpaces(s: System, f: nat)
    requires Inv(s) && Allowed(s, Create(f)) && Apart(s, Create(f))
    ensures var mem' := Built(s.mem, f, s.k + 1);
      SpaceOk(mem', s.k, Space(f, [])) && forall i :: 0 <= i < |s.spaces| ==> SpaceOk(mem', s.k, s.spaces[i])
  {
    var mem' := Built(s.mem, f, s.k + 1);
    NewSpaceOk(s.mem, s.k, f);
    hide KernelLower, SpaceOk, Built, ChangedOnly;
    forall i | 0 <= i < |s.spaces|
      ensures SpaceOk(mem', s.k, s.spaces[i])
    {
      assert SpaceOk(s.mem, s.k, s.spaces[i]);
      SpaceKept(s.mem, mem', s.k, s.spaces[i], f, TABLE_FRAMES);
    }
  }

  lemma {:induction false} CreateKeepsInv(s: System, f: nat)
    requires Inv(s) && Allowed(s, Create(f)) && Apart(s, Create(f))
    ensures Inv(Step(s, Create(f)))
  {
    hide KernelInv, SpaceOk, Built, KernelOk, Loaded, HasKernelHalf, Usable, OffKernel, LoadedPdpt;
    CreateIs(s, f);
    CreateSpaces(s, f);
    CreateKernelIff(s, f);
  }

  lemma {:induction false} MapSpares(s: System, i: nat, c: MapCall)
    requires Inv(s) && Allowed(s, Map(i, c))
    ensures SparesKernel(s, Map(i, c))
  {
    hide KernelInv, SpaceOk;
    forall j | 0 <= j < |s.spaces|
      ensures !MapsWord(s.spaces[i].f, c, s.spaces[j].f * ENTRIES + 256)
    {
      if j < i {
        assert DisjointFrames(s.spaces[j].f, TABLE_FRAMES, s.spaces[i].f, TABLE_FRAMES);
      } else if i < j {
        assert DisjointFrames(s.spaces[i].f, TABLE_FRAMES, s.spaces[j].f, TABLE_FRAMES);
      }
    }
  }

  lemma {:induction false} MapKeepsInv(s: System, i: nat, c: MapCall)
    requires Inv(s) && Allowed(s, Map(i, c))
    ensures Inv(Step(s, Map(i, c)))
  {
    var t, f := Step(s, Map(i, c)), s.spaces[i].f;
    assert SpaceOk(s.mem, s.k, s.spaces[i]);
    MapSpares(s, i, c);
    MapKernelIff(s, i, c);
    hide KernelInv, SpaceOk, MapRange, ChangedOnly;
    MappedSpaceOk(s.mem, s.k, s.spaces[i], c);
    forall j | 0 <= j < |t.spaces|
      ensures SpaceOk(t.mem, t.k, t.spaces[j])
    {
      if j != i {
        assert SpaceOk(s.mem, s.k, s.spaces[j]);
        SpaceKept(s.mem, t.mem, s.k, s.spaces[j], f, TABLE_FRAMES);
      }
    }
  }

  /** The word is no word of any process's tables. */
  ghost predicate OffTables(s: System, w: nat)
  {
    forall i :: 0 <= i < |s.spaces| ==> !(s.spaces[i].f * ENTRIES <= w < (s.spaces[i].f + TABLE_FRAMES) * ENTRIES)
  }

  lemma {:induction false} StoreKeepsInv(s: System, w: nat, a: nat)
    requires Inv(s) && Allowed(s, Store(w, a)) && SparesKernel(s, Store(w, a)) && OffTables(s, w)
    ensures Inv(Step(s, Store(w, a)))
  {
    hide KernelInv, SpaceOk, EntryOf, LowerWord;
    var t := Step(s, Store(w, a));
    StoreKernelIff(s, w, a);
    assert ChangedOnly(s.mem, t.mem, w / ENTRIES, 1);
    forall i | 0 <= i < |t.spaces|
      ensures SpaceOk(t.mem, t.k, t.spaces[i])
    {
      assert SpaceOk(s.mem, s.k, s.spaces[i]);
      SpaceKept(s.mem, t.mem, s.k, s.spaces[i], w / ENTRIES, 1);
    }
  }

  /** A store that keeps off every table; nothing is asked of other steps. */
  ghost predicate Harmless(s: System, op: Op)
    requires Allowed(s, op)
  {
    op.Store? ==> SparesKernel(s, op) && OffTables(s, op.w)
  }

  lemma {:induction false} StepKeepsInv(s: System, op: Op)
    requires Inv(s) && Allowed(s, op) && Apart(s, op) && Harmless(s, op)
    ensures Inv(Step(s, op))
  {
    hide KernelInv, SpaceOk, LoadedPdpt, Built, MapRange;
    match op {
      case Create(f) => CreateKeepsInv(s, f);
      case Switch(i) => SwitchKeepsKernel(s, i);
      case Map(i, c) => MapKeepsInv(s, i, c);
      case Store(w, a) => StoreKeepsInv(s, w, a);
    }
  }

  // ----- Right translations -----

  /** The process's last mappings in its lower half, and nothing else. */
  ghost function UserTarget(sp: Space, v: nat): Translation
  {
    if v < 0x4000_0000 && LastFrame(sp.calls, v / PAGE_SIZE) >= 0
    then Mapped(LastFrame(sp.calls, v / PAGE_SIZE) * PAGE_SIZE + v % PAGE_SIZE, true, true)
    else Fault
  }

  ghost predicate UserRight(s: System, i: nat)
    requires i < |s.spaces|
  {
    forall v: nat :: v < 0x8000_0000_0000 ==> Walk(s.mem, s.spaces[i].f, v) == UserTarget(s.spaces[i], v)
  }

  ghost predicate KernelRight(s: System, i: nat)
    requires i < |s.spaces|
  {
    forall q: nat :: q < IDENTITY_END ==> Walk(s.mem, s.spaces[i].f, KERNEL_START + q) == KernelTarget(s, q)
  }

  ghost predicate LoadedRight(s: System)
  {
    forall q: nat :: q < IDENTITY_END ==> Walk(s.mem, s.cr3, KERNEL_START + q) == KernelTarget(s, q)
  }

  /** Every process sees its last mappings and nothing else, and the kernel's half; so does the loaded table. */
  ghost predicate AllRight(s: System)
  {
    LoadedRight(s) && forall i :: 0 <= i < |s.spaces| ==> UserRight(s, i) && KernelRight(s, i)
  }

  lemma {:induction false} KernelHalvesRight(s: System)
    requires KernelInv(s)
    ensures LoadedRight(s) && forall i :: 0 <= i < |s.spaces| ==> KernelRight(s, i)
  {
    hide Walk, KernelLower;
    forall q: nat | q < IDENTITY_END
      ensures Walk(s.mem, s.cr3, KERNEL_START + q) == KernelTarget(s, q)
    {
      HalfWalk(s, s.cr3, q);
    }
    forall i | 0 <= i < |s.spaces|
      ensures KernelRight(s, i)
    {
      assert HasKernelHalf(s, s.spaces[i].f);
      forall q: nat | q < IDENTITY_END
        ensures Walk(s.mem, s.spaces[i].f, KERNEL_START + q) == KernelTarget(s, q)
      {
        HalfWalk(s, s.spaces[i].f, q);
      }
    }
  }

  lemma {:induction false} SpaceWalk(mem: Memory, k: nat, sp: Space, v: nat)
    requires SpaceOk(mem, k, sp) && v < 0x8000_0000_0000
    ensures Walk(mem, sp.f, v) == UserTarget(sp, v)
  {
    hide Walk;
    WalkIsFlat(mem, sp.f, k + 1, v);
  }

  lemma {:induction false} InvRight(s: System)
    requires Inv(s)
    ensures AllRight(s)
  {
    hide Walk, KernelInv, LoadedRight, KernelRight, UserTarget;
    KernelHalvesRight(s);
    forall i | 0 <= i < |s.spaces|
      ensures UserRight(s, i)
    {
      assert SpaceOk(s.mem, s.k, s.spaces[i]);
      forall v: nat | v < 0x8000_0000_0000
        ensures Walk(s.mem, s.spaces[i].f, v) == UserTarget(s.spaces[i], v)
      {
        SpaceWalk(s.mem, s.k, s.spaces[i], v);
      }
    }
  }

  // ----- Tables over tables -----

  /** New tables over the flat table of a process: the new entry 256 appears as a mapping of a supervisor page. */
  lemma {:induction false} OverFlatTable(mem: Memory, k: nat, sp: Space, g: nat)
    requires SpaceOk(mem, k, sp) && sp.f + 3 <= g < sp.f + TABLE_FRAMES && (g + 1) * ENTRIES <= |mem|
    ensures var v := ((g - sp.f - 3) * ENTRIES + 256) * PAGE_SIZE;
      0 <= v < 0x4000_0000 && Walk(Built(mem, g, k + 1), sp.f, v) == Mapped((k + 1) * PAGE_SIZE, false, true)
  {
    var mem', page := Built(mem, g, k + 1), (g - sp.f - 3) * ENTRIES + 256;
    UpperLevelsKept(mem, mem', sp.f, k + 1);
    assert Pte(mem', sp.f, page) == KernelEntry(k + 1);
    WalkIsFlat(mem', sp.f, k + 1, page * PAGE_SIZE);
  }

  lemma {:induction false} KernelReadsAtZero(mem: Memory, k: nat, imageFrame: nat)
    requires KernelLower(mem, k, imageFrame)
    ensures Read(mem, k + 1, 0) == KernelEntry(k + 2) && Read(mem, k + 2, 0) == KernelEntry(k + 6)
  {
  }

  /** New tables over the pdpt: 256 GiB is mapped. */
  lemma {:induction false} OverPdpt(mem: Memory, k: nat, imageFrame: nat, sp: Space)
    requires SpaceOk(mem, k, sp) && KernelLower(mem, k, imageFrame)
    requires (sp.f + 1 + TABLE_FRAMES) * ENTRIES <= |mem|
    requires DisjointFrames(k, KERNEL_FRAMES, sp.f + 1, TABLE_FRAMES)
    ensures Walk(Built(mem, sp.f + 1, k + 1), sp.f, 0x40_0000_0000) != Fault
  {
    var f, mem', v := sp.f, Built(mem, sp.f + 1, k + 1), 0x40_0000_0000;
    assert Read(mem, f, 0) == UserEntry(f + 1);
    assert Index4(v) == 0 && Index3(v) == 256 && Index2(v) == 0 && Index1(v) == 0;
    assert Read(mem', f, 0) == UserEntry(f + 1) && Read(mem', f + 1, 256) == KernelEntry(k + 1);
    BuiltChanges(mem, f + 1, k + 1);
    hide Built, SpaceOk;
    KernelLowerKept(mem, mem', k, imageFrame, f + 1, TABLE_FRAMES);
    hide ChangedOnly, Index1, Index2, Index3, Index4;
    KernelReadsAtZero(mem', k, imageFrame);
    hide KernelLower, Read;
  }

  lemma {:induction false} ReadsOverPdt(mem: Memory, k: nat, sp: Space)
    requires SpaceOk(mem, k, sp) && (sp.f + 2 + TABLE_FRAMES) * ENTRIES <= |mem|
    ensures var f, mem' := sp.f, Built(mem, sp.f + 2, k + 1);
      && Read(mem', f, 0) == UserEntry(f + 1) && Read(mem', f + 1, 0) == UserEntry(f + 2)
      && Read(mem', f + 2, 256) == KernelEntry(k + 1)
  {
    var f, mem' := sp.f, Built(mem, sp.f + 2, k + 1);
    assert Read(mem, f, 0) == UserEntry(f + 1) && Read(mem, f + 1, 0) == UserEntry(f + 2);
    assert mem'[f * ENTRIES] == mem[f * ENTRIES] && mem'[(f + 1) * ENTRIES] == mem[(f + 1) * ENTRIES];
  }

  lemma {:induction false} IndicesAt512MiB()
    ensures var v := 0x2000_0000;
      Canonical(v) && Index4(v) == 0 && Index3(v) == 0 && Index2(v) == 256 && Index1(v) == 0 && v % PAGE_SIZE == 0
  {
  }

  /** New tables over the pdt: 512 MiB is mapped as a supervisor page. */
  lemma {:induction false} OverPdt(mem: Memory, k: nat, imageFrame: nat, sp: Space)
    requires SpaceOk(mem, k, sp) && KernelLower(mem, k, imageFrame)
    requires (sp.f + 2 + TABLE_FRAMES) * ENTRIES <= |mem|
    requires DisjointFrames(k, KERNEL_FRAMES, sp.f + 2, TABLE_FRAMES)
    ensures Walk(Built(mem, sp.f + 2, k + 1), sp.f, 0x2000_0000) == Mapped((k + 2) * PAGE_SIZE, false, true)
  {
    hide Built, SpaceOk, ChangedOnly, Index1, Index2, Index3, Index4, KernelLower, Read, Canonical;
    var f, mem' := sp.f, Built(mem, sp.f + 2, k + 1);
    IndicesAt512MiB();
    ReadsOverPdt(mem, k, sp);
    BuiltChanges(mem, f + 2, k + 1);
    KernelLowerKept(mem, mem', k, imageFrame, f + 2, TABLE_FRAMES);
    KernelReadsAtZero(mem', k, imageFrame);
  }

  /** New tables that reach over the pml4t of a process: its kernel half faults. */
  lemma {:induction false} OverPml4t(mem: Memory, k: nat, f: nat, g: nat)
    requires g < f < g + TABLE_FRAMES && (g + TABLE_FRAMES) * ENTRIES <= |mem|
    ensures Walk(Built(mem, g, k + 1), f, KERNEL_START) == Fault
  {
    var mem' := Built(mem, g, k + 1);
    KernelIndex4(0);
    KernelIndex3(0);
    if f == g + 2 {
      assert Read(mem', f, 256) == UserEntry(g + 3 + 256);
      assert Read(mem', g + 3 + 256, 0) == ZERO;
    } else {
      assert Read(mem', f, 256) == ZERO;
    }
  }

  /** New tables anywhere over a process's tables spoil its kernel half or the translation of some v. */
  lemma {:induction false} BuiltSpoils(mem: Memory, k: nat, imageFrame: nat, sp: Space, g: nat) returns (v: nat)
    requires SpaceOk(mem, k, sp) && KernelLower(mem, k, imageFrame) && (g + TABLE_FRAMES) * ENTRIES <= |mem|
    requires g != sp.f && !DisjointFrames(sp.f, TABLE_FRAMES, g, TABLE_FRAMES)
    requires DisjointFrames(k, KERNEL_FRAMES, g, TABLE_FRAMES)
    ensures v < 0x8000_0000_0000
    ensures Walk(Built(mem, g, k + 1), sp.f, KERNEL_START) == Fault
         || Walk(Built(mem, g, k + 1), sp.f, v) != UserTarget(sp, v)
  {
    hide SpaceOk, Walk, Built, KernelLower, LastFrame;
    v := 0;
    if g < sp.f {
      OverPml4t(mem, k, sp.f, g);
    } else if g == sp.f + 1 {
      OverPdpt(mem, k, imageFrame, sp);
      v := 0x40_0000_0000;
    } else if g == sp.f + 2 {
      OverPdt(mem, k, imageFrame, sp);
      v := 0x2000_0000;
    } else {
      OverFlatTable(mem, k, sp, g);
      v := ((g - sp.f - 3) * ENTRIES + 256) * PAGE_SIZE;
    }
  }

  lemma {:induction false} InvSpace(s: System, i: nat)
    requires Inv(s) && i < |s.spaces|
    ensures KernelInv(s) && KernelLower(s.mem, s.k, s.imageFrame) && SpaceOk(s.mem, s.k, s.spaces[i])
  {
  }

  lemma {:induction false} RightMeans(s: System, i: nat, v: nat)
    requires i < |s.spaces| && UserRight(s, i) && KernelRight(s, i) && v < 0x8000_0000_0000
    ensures Walk(s.mem, s.spaces[i].f, KERNEL_START) != Fault
    ensures Walk(s.mem, s.spaces[i].f, v) == UserTarget(s.spaces[i], v)
  {
    assert KERNEL_START + 0 == KERNEL_START;
    assert Walk(s.mem, s.spaces[i].f, KERNEL_START + 0) == KernelTarget(s, 0);
  }

  /** A creation that overlaps an earlier process's tables spoils its translations at once. */
  lemma {:induction false} OverlapSpoils(s: System, g: nat, i: nat)
    requires Inv(s) && Allowed(s, Create(g)) && i < |s.spaces|
    requires !DisjointFrames(s.spaces[i].f, TABLE_FRAMES, g, TABLE_FRAMES)
    ensures !(UserRight(Step(s, Create(g)), i) && KernelRight(Step(s, Create(g)), i))
  {
    hide Inv, SpaceOk, Walk, Built, UserTarget, KernelLower, UserRight, KernelRight, LoadedPdpt, KernelInv, KernelOk;
    var t, sp := Step(s, Create(g)), s.spaces[i];
    InvSpace(s, i);
    var v := BuiltSpoils(s.mem, s.k, s.imageFrame, sp, g);
    CreateIs(s, g);
    if UserRight(t, i) && KernelRight(t, i) {
      RightMeans(t, i, v);
    }
  }

  // ----- The loaded table -----

  lemma {:induction false} StepPlaces(s: System, op: Op)
    requires Allowed(s, op)
    ensures var t := Step(s, op);
      && |s.spaces| <= |t.spaces| && (forall i :: 0 <= i < |s.spaces| ==> t.spaces[i].f == s.spaces[i].f)
      && t.cr3 == (if op.Switch? then t.spaces[op.i].f else s.cr3)
  {
    hide LoadedPdpt, Built, MapRange;
  }

  /** Whatever happened since, the loaded table is that of the process last switched to. */
  lemma {:induction false} SwitchedIsLoaded(s: System, ops: seq<Op>)
    requires Legal(s, ops)
    ensures var t := Run(s, ops);
      if LastSwitch(ops) < 0 then t.cr3 == s.cr3
      else LastSwitch(ops) < |t.spaces| && t.cr3 == t.spaces[LastSwitch(ops)].f
    decreases |ops|
  {
    hide Step;
    if ops != [] {
      SwitchedIsLoaded(s, Front(ops));
      StepPlaces(Run(s, Front(ops)), Last(ops));
    }
  }

  /** Through the loaded table memory looks as the process last switched to mapped it. */
  ghost predicate RunningRight(s: System, ops: seq<Op>)
    requires Legal(s, ops)
  {
    var t, p := Run(s, ops), LastSwitch(ops);
    p >= 0 ==>
      p < |t.spaces| && forall v: nat :: v < 0x8000_0000_0000 ==> Walk(t.mem, t.cr3, v) == UserTarget(t.spaces[p], v)
  }

  lemma {:induction false} AllRightRunning(s: System, ops: seq<Op>)
    requires Legal(s, ops) && AllRight(Run(s, ops))
    ensures RunningRight(s, ops)
  {
    hide Walk, UserTarget, Run, LoadedRight, KernelRight, LastSwitch;
    SwitchedIsLoaded(s, ops);
    var p := LastSwitch(ops);
    assert p >= 0 ==> UserRight(Run(s, ops), p);
  }

  /** Right after a switch the running process sees its last mappings and nothing else. */
  lemma {:induction false} SwitchShows(s: System, i: nat, v: nat)
    requires Inv(s) && i < |s.spaces| && v < 0x8000_0000_0000
    ensures var t := Step(s, Switch(i)); Walk(t.mem, t.cr3, v) == UserTarget(s.spaces[i], v)
  {
    hide Walk, UserTarget, KernelInv;
    SpaceWalk(s.mem, s.k, s.spaces[i], v);
  }

  // ----- Runs whose stores keep off the tables -----

  /** At every point of the run every process, and the running one through the loaded table, sees what it should. */
  ghost predicate AlwaysRight(s: System, ops: seq<Op>)
    requires Legal(s, ops)
    decreases |ops|
  {
    AllRight(Run(s, ops)) && RunningRight(s, ops) && (ops == [] || AlwaysRight(s, Front(ops)))
  }

  ghost predicate CreationsApart(s: System, ops: seq<Op>)
    requires Legal(s, ops)
    decreases |ops|
  {
    ops == [] || (CreationsApart(s, Front(ops)) && Apart(Run(s, Front(ops)), Last(ops)))
  }

  ghost predicate StoresHarmless(s: System, ops: seq<Op>)
    requires Legal(s, ops)
    decreases |ops|
  {
    ops == [] || (StoresHarmless(s, Front(ops)) && Harmless(Run(s, Front(ops)), Last(ops)))
  }

  lemma {:induction false} RunKeepsInv(s: System, ops: seq<Op>)
    requires Inv(s) && Legal(s, ops) && CreationsApart(s, ops) && StoresHarmless(s, ops)
    ensures Inv(Run(s, ops))
    decreases |ops|
  {
    hide Inv, Apart, Harmless, Step, Allowed;
    if ops != [] {
      RunKeepsInv(s, Front(ops));
      StepKeepsInv(Run(s, Front(ops)), Last(ops));
    }
  }

  lemma {:induction false} NotApartSpoils(s: System, op: Op)
    requires Inv(s) && Allowed(s, op) && !Apart(s, op)
    ensures !AllRight(Step(s, op))
  {
    hide Inv, UserRight, KernelRight, LoadedRight, LoadedPdpt;
    var i :| 0 <= i < |s.spaces| && !DisjointFrames(s.spaces[i].f, TABLE_FRAMES, op.f, TABLE_FRAMES);
    OverlapSpoils(s, op.f, i);
    assert i < |Step(s, op).spaces|;
  }

  /**
   Over every run whose stores keep off the tables, every process sees its own last mappings
   and nothing else in its lower half, and the kernel's mappings in the upper, at every point,
   exactly when every creation puts its tables apart from all earlier ones. Through the loaded
   table these are the mappings of the process last switched to.
   */
  lemma {:induction false} CreationsRightIff(s: System, ops: seq<Op>)
    requires Inv(s) && Legal(s, ops) && StoresHarmless(s, ops)
    ensures AlwaysRight(s, ops) <==> CreationsApart(s, ops)
    decreases |ops|
  {
    hide Inv, AllRight, Step, Allowed, Apart, Harmless, RunningRight;
    if AllRight(Run(s, ops)) { AllRightRunning(s, ops); }
    if ops == [] {
      InvRight(s);
    } else {
      CreationsRightIff(s, Front(ops));
      if CreationsApart(s, Front(ops)) {
        var t, op := Run(s, Front(ops)), Last(ops);
        RunKeepsInv(s, Front(ops));
        if Apart(t, op) {
          StepKeepsInv(t, op);
          InvRight(Step(t, op));
        } else {
          NotApartSpoils(t, op);
        }
      }
    }
  }

  /** Creating a process at f and then one at g is possible, spoils a translation, and spares the kernel half. */
  ghost predicate Spoiling(s: System, f: nat, g: nat)
  {
    var ops := [Create(f), Create(g)];
    Legal(s, ops) && !AlwaysRight(s, ops) && AllSpareKernel(s, ops)
  }

  lemma {:induction false} KernelOf(s: System)
    requires Inv(s)
    ensures KernelInv(s)
  {
  }

  lemma {:induction false} OverlappingPair(s: System, f: nat, g: nat)
    requires Inv(s) && s.spaces == [] && f < g < f + TABLE_FRAMES
    requires Usable(s, f) && OffKernel(s, f) && Usable(s, g) && OffKernel(s, g)
    ensures Spoiling(s, f, g)
  {
    hide Inv, Built, KernelInv, AllRight, LoadedPdpt, KernelOk, HasKernelHalf, Loaded;
    var ops, t := [Create(f), Create(g)], Step(s, Create(f));
    assert KernelInv(s) by { KernelOf(s); }
    CreateIs(s, f);
    assert Front(ops) == [Create(f)] && Front([Create(f)]) == [] && Last(ops) == Create(g);
    assert Legal(s, []) && Run(s, []) == s;
    assert Legal(s, [Create(f)]) && Run(s, [Create(f)]) == t;
    assert t.spaces[0].f == f && Allowed(t, Create(g));
    assert Legal(s, ops) && StoresHarmless(s, []) && StoresHarmless(s, [Create(f)]) && StoresHarmless(s, ops);
    assert AllSpareKernel(s, []) && AllSpareKernel(s, [Create(f)]) && AllSpareKernel(s, ops);
    CreationsRightIff(s, ops);
  }
}
