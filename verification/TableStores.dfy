/**
 Stores of granted anon_allocate calls into page tables, of any process by any process: over
 every run whose creations are apart, exactly which translations they spoil.
 */
module TableStores {
  import opened Machine
  import opened Paging
  import opened UserSpace
  import opened KernelSpace
  import opened AddressSpaces
  import opened KernelHalves
  import opened UserHalves

  // ----- Word by word -----

  /** The entry that word w of a process's tables is to hold. */
  ghost function Expected(k: nat, sp: Space, w: int): Entry
  {
    var f := sp.f;
    if w == f * ENTRIES then UserEntry(f + 1)
    else if w == f * ENTRIES + 256 then KernelEntry(k + 1)
    else if w == (f + 1) * ENTRIES then UserEntry(f + 2)
    else if (f + 2) * ENTRIES <= w < (f + 3) * ENTRIES then UserEntry(f + 3 + (w - (f + 2) * ENTRIES))
    else if (f + 3) * ENTRIES <= w && LastFrame(sp.calls, w - (f + 3) * ENTRIES) >= 0
    then UserEntry(LastFrame(sp.calls, w - (f + 3) * ENTRIES))
    else ZERO
  }

  ghost predicate InFrames(f: nat, w: int) { f * ENTRIES <= w < (f + TABLE_FRAMES) * ENTRIES }

  /** Word w of process j was stored to since the process was created, and no mapping of j wrote it since. */
  ghost predicate Cleared(s: System, ops: seq<Op>, j: nat, w: int)
    requires Legal(s, ops)
    decreases |ops|
  {
    ops != [] &&
    var t := Run(s, Front(ops));
    j < |t.spaces| &&
    match Last(ops)
    case Store(x, _) => x == w || Cleared(s, Front(ops), j, w)
    case Map(i, c) => !(i == j && MapsWord(t.spaces[j].f, c, w)) && Cleared(s, Front(ops), j, w)
    case Create(_) => Cleared(s, Front(ops), j, w)
    case Switch(_) => Cleared(s, Front(ops), j, w)
  }

  ghost predicate WordRight(e: Entry, k: nat, sp: Space, w: int, cleared: bool)
  {
    if cleared then !e.p && !e.pcd else e == Expected(k, sp, w)
  }

  /** Every word of process j holds what it is to hold, or was cleared by a store. */
  ghost predicate TablesRight(s: System, ops: seq<Op>, j: nat)
    requires Legal(s, ops) && j < |Run(s, ops).spaces|
  {
    var t := Run(s, ops);
    var sp := t.spaces[j];
    && (sp.f + TABLE_FRAMES) * ENTRIES <= |t.mem|
    && (forall c :: 0 <= c < |sp.calls| ==> InTable(sp.calls[c]))
    && forall w: nat :: InFrames(sp.f, w) ==> WordRight(t.mem[w], t.k, sp, w, Cleared(s, ops, j, w))
  }

  ghost predicate PairwiseApart(s: System)
  {
    forall i, j :: 0 <= i < j < |s.spaces| ==>
      DisjointFrames(s.spaces[i].f, TABLE_FRAMES, s.spaces[j].f, TABLE_FRAMES)
  }

  /** The invariant of runs with stores. */
  ghost predicate LooseInv(s: System, ops: seq<Op>)
    requires Legal(s, ops)
  {
    && KernelInv(Run(s, ops)) && PairwiseApart(Run(s, ops))
    && forall j :: 0 <= j < |Run(s, ops).spaces| ==> TablesRight(s, ops, j)
  }

  lemma {:induction false} SpaceOkWord(mem: Memory, k: nat, sp: Space, w: nat)
    requires SpaceOk(mem, k, sp) && InFrames(sp.f, w)
    ensures w < |mem| && mem[w] == Expected(k, sp, w)
  {
    var f := sp.f;
    var i := w % ENTRIES;
    if w < (f + 1) * ENTRIES {
      assert Read(mem, f, i) == mem[w];
    } else if w < (f + 2) * ENTRIES {
      assert Read(mem, f + 1, i) == mem[w];
    } else if w < (f + 3) * ENTRIES {
      assert Read(mem, f + 2, i) == mem[w];
    } else {
      assert Pte(mem, f, w - (f + 3) * ENTRIES) == mem[w];
    }
  }

  lemma {:induction false} LooseStart(s: System)
    requires Inv(s)
    ensures LooseInv(s, [])
  {
    hide KernelInv, Expected;
    assert Run(s, []) == s;
    forall j | 0 <= j < |s.spaces|
      ensures TablesRight(s, [], j)
    {
      assert SpaceOk(s.mem, s.k, s.spaces[j]);
      forall w: nat | InFrames(s.spaces[j].f, w)
        ensures WordRight(s.mem[w], s.k, s.spaces[j], w, Cleared(s, [], j, w))
      {
        SpaceOkWord(s.mem, s.k, s.spaces[j], w);
      }
    }
  }

  // ----- One step -----

  lemma {:induction false} StoreWord(mem: Memory, k: nat, sp: Space, w: nat, cleared: bool, x: nat, a: nat)
    requires w < |mem| && a % PAGE_SIZE == 0 && WordRight(mem[w], k, sp, w, cleared)
    ensures WordRight(Stored(mem, x, a)[w], k, sp, w, x == w || cleared)
  {
    hide Expected, EntryOf;
    AddressIsAbsent(a);
  }

  lemma {:induction false} LastFrameSnoc(calls: seq<MapCall>, c: MapCall, page: nat)
    ensures LastFrame(calls + [c], page)
         == (if c.vaddr / PAGE_SIZE <= page < c.vaddr / PAGE_SIZE + c.nPages
             then c.paddr / PAGE_SIZE + (page - c.vaddr / PAGE_SIZE) else LastFrame(calls, page))
  {
    assert (calls + [c])[..|calls|] == calls;
  }

  lemma {:induction false} MapWord(mem: Memory, k: nat, sp: Space, w: nat, cleared: bool, c: MapCall)
    requires w < |mem| && InFrames(sp.f, w) && InTable(c) && WordRight(mem[w], k, sp, w, cleared)
    ensures WordRight(MapRange(mem, sp.f, c.vaddr / PAGE_SIZE, c.paddr / PAGE_SIZE, c.nPages)[w],
                      k, sp.(calls := sp.calls + [c]), w, !MapsWord(sp.f, c, w) && cleared)
  {
    var f := sp.f;
    if (f + 3) * ENTRIES <= w {
      LastFrameSnoc(sp.calls, c, w - (f + 3) * ENTRIES);
    }
    hide LastFrame;
    assert !Expected(k, sp, w).pcd;
  }

  lemma {:induction false} TwoApart(s: System, i: nat, j: nat)
    requires PairwiseApart(s) && i < |s.spaces| && j < |s.spaces| && i != j
    ensures DisjointFrames(s.spaces[i].f, TABLE_FRAMES, s.spaces[j].f, TABLE_FRAMES)
  {
    if i < j {
    } else {
      assert DisjointFrames(s.spaces[j].f, TABLE_FRAMES, s.spaces[i].f, TABLE_FRAMES);
    }
  }

  /** What a step leaves in a word of a process that was there before. */
  lemma {:induction false} WordStep(s: System, ops: seq<Op>, j: nat, w: nat)
    requires Legal(s, ops) && ops != [] && LooseInv(s, Front(ops)) && Apart(Run(s, Front(ops)), Last(ops))
    requires j < |Run(s, Front(ops)).spaces| && InFrames(Run(s, Front(ops)).spaces[j].f, w)
    ensures var t, u := Run(s, Front(ops)), Run(s, ops);
      && j < |u.spaces| && u.spaces[j].f == t.spaces[j].f && |u.mem| == |t.mem| && w < |t.mem|
      && WordRight(u.mem[w], u.k, u.spaces[j], w, Cleared(s, ops, j, w))
  {
    var t, op := Run(s, Front(ops)), Last(ops);
    var f := t.spaces[j].f;
    assert TablesRight(s, Front(ops), j);
    assert WordRight(t.mem[w], t.k, t.spaces[j], w, Cleared(s, Front(ops), j, w));
    hide TablesRight, WordRight, Expected;
    match op {
      case Switch(i) =>
      case Store(x, a) =>
        StoreWord(t.mem, t.k, t.spaces[j], w, Cleared(s, Front(ops), j, w), x, a);
      case Map(i, c) =>
        if i == j {
          MapWord(t.mem, t.k, t.spaces[j], w, Cleared(s, Front(ops), j, w), c);
        } else {
          MapChanges(t.mem, t.spaces[i].f, c);
          assert DisjointFrames(t.spaces[i].f, TABLE_FRAMES, f, TABLE_FRAMES) by { TwoApart(t, i, j); }
          hide MapRange;
        }
      case Create(g) =>
        CreateIs(t, g);
        BuiltChanges(t.mem, g, t.k + 1);
        hide Built;
    }
  }

  lemma {:induction false} CallsStep(s: System, ops: seq<Op>, j: nat)
    requires Legal(s, ops) && ops != [] && j < |Run(s, Front(ops)).spaces|
    requires forall c :: 0 <= c < |Run(s, Front(ops)).spaces[j].calls| ==>
      InTable(Run(s, Front(ops)).spaces[j].calls[c])
    ensures j < |Run(s, ops).spaces|
    ensures forall c :: 0 <= c < |Run(s, ops).spaces[j].calls| ==> InTable(Run(s, ops).spaces[j].calls[c])
  {
    hide LoadedPdpt, Built, MapRange;
  }

  lemma {:induction false} OldTablesStep(s: System, ops: seq<Op>, j: nat)
    requires Legal(s, ops) && ops != [] && LooseInv(s, Front(ops)) && Apart(Run(s, Front(ops)), Last(ops))
    requires j < |Run(s, Front(ops)).spaces|
    ensures j < |Run(s, ops).spaces| && TablesRight(s, ops, j)
  {
    var t := Run(s, Front(ops));
    assert TablesRight(s, Front(ops), j);
    CallsStep(s, ops, j);
    WordStep(s, ops, j, t.spaces[j].f * ENTRIES);
    hide LooseInv, WordRight, Run, Legal, Cleared, Apart;
    forall w: nat | InFrames(t.spaces[j].f, w)
      ensures w < |t.mem|
      ensures WordRight(Run(s, ops).mem[w], Run(s, ops).k, Run(s, ops).spaces[j], w, Cleared(s, ops, j, w))
    {
      WordStep(s, ops, j, w);
    }
  }

  lemma {:induction false} CreatedSpace(t: System, g: nat)
    requires KernelInv(t) && Allowed(t, Create(g))
    ensures var u := Step(t, Create(g));
      |u.spaces| == |t.spaces| + 1 && u.spaces[|t.spaces|] == Space(g, []) && SpaceOk(u.mem, u.k, Space(g, []))
  {
    hide KernelInv, Built, SpaceOk, LoadedPdpt, KernelOk, Loaded, HasKernelHalf;
    CreateIs(t, g);
    NewSpaceOk(t.mem, t.k, g);
  }

  lemma {:induction false} NewTables(s: System, ops: seq<Op>)
    requires Legal(s, ops) && ops != [] && KernelInv(Run(s, Front(ops))) && Last(ops).Create?
    ensures var j := |Run(s, Front(ops)).spaces|;
      |Run(s, ops).spaces| == j + 1 && TablesRight(s, ops, j)
  {
    hide KernelInv, Expected, SpaceOk, Step;
    var t, u, g := Run(s, Front(ops)), Run(s, ops), Last(ops).f;
    var j := |t.spaces|;
    CreatedSpace(t, g);
    SpaceOkWord(u.mem, u.k, Space(g, []), (g + TABLE_FRAMES) * ENTRIES - 1);
    forall w: nat | InFrames(g, w)
      ensures w < |u.mem| && WordRight(u.mem[w], u.k, u.spaces[j], w, Cleared(s, ops, j, w))
    {
      SpaceOkWord(u.mem, u.k, Space(g, []), w);
    }
  }

  lemma {:induction false} ApartStep(s: System, op: Op)
    requires Allowed(s, op) && PairwiseApart(s) && Apart(s, op)
    ensures PairwiseApart(Step(s, op))
  {
    hide LoadedPdpt, Built, MapRange;
  }

  lemma {:induction false} OnlyCreateAdds(s: System, op: Op)
    requires Allowed(s, op)
    ensures op.Create? ==> |Step(s, op).spaces| == |s.spaces| + 1
    ensures !op.Create? ==> |Step(s, op).spaces| == |s.spaces|
  {
    hide LoadedPdpt, Built, MapRange;
  }

  /** Runs that spare the kernel and create apart keep the invariant. */
  lemma {:induction false} LooseRun(s: System, ops: seq<Op>)
    requires Inv(s) && Legal(s, ops) && AllSpareKernel(s, ops) && CreationsApart(s, ops)
    ensures LooseInv(s, ops)
    decreases |ops|
  {
    hide Inv, Step, Allowed, KernelInv, TablesRight, PairwiseApart, SparesKernel, Apart;
    if ops == [] {
      LooseStart(s);
    } else {
      LooseRun(s, Front(ops));
      var t, u := Run(s, Front(ops)), Run(s, ops);
      StepKernelIff(t, Last(ops));
      ApartStep(t, Last(ops));
      forall j | 0 <= j < |u.spaces|
        ensures TablesRight(s, ops, j)
      {
        if j < |t.spaces| {
          OldTablesStep(s, ops, j);
        } else {
          OnlyCreateAdds(t, Last(ops));
          NewTables(s, ops);
        }
      }
    }
  }

  // ----- What the walk finds -----

  /** The four words on the way to a page below 1 GiB. */
  function PathWords(f: nat, page: nat): set<nat>
  {
    {f * ENTRIES, (f + 1) * ENTRIES, (f + 2) * ENTRIES + page / ENTRIES, (f + 3) * ENTRIES + page}
  }

  /** One of them was cleared by a store. */
  ghost predicate PathCleared(s: System, ops: seq<Op>, j: nat, page: nat)
    requires Legal(s, ops) && j < |Run(s, ops).spaces|
  {
    exists w :: w in PathWords(Run(s, ops).spaces[j].f, page) && Cleared(s, ops, j, w)
  }

  lemma {:induction false} LowWalk(mem: Memory, k: nat, sp: Space, v: nat, c4: bool, c3: bool, c2: bool, c1: bool)
    requires v < 0x4000_0000 && (sp.f + TABLE_FRAMES) * ENTRIES <= |mem|
    requires var f, page := sp.f, v / PAGE_SIZE;
      && WordRight(mem[f * ENTRIES], k, sp, f * ENTRIES, c4)
      && WordRight(mem[(f + 1) * ENTRIES], k, sp, (f + 1) * ENTRIES, c3)
      && WordRight(mem[(f + 2) * ENTRIES + page / ENTRIES], k, sp, (f + 2) * ENTRIES + page / ENTRIES, c2)
      && WordRight(mem[(f + 3) * ENTRIES + page], k, sp, (f + 3) * ENTRIES + page, c1)
    ensures Walk(mem, sp.f, v) == (if c4 || c3 || c2 || c1 then Fault else UserTarget(sp, v))
  {
    hide Walk, LastFrame;
    WalkByPath(mem, sp.f, v);
  }

  lemma {:induction false} HighWalk(mem: Memory, k: nat, sp: Space, v: nat, c4: bool, c3: bool)
    requires 0x4000_0000 <= v < 0x8000_0000_0000 && (sp.f + TABLE_FRAMES) * ENTRIES <= |mem|
    requires WordRight(mem[sp.f * ENTRIES + Index4(v)], k, sp, sp.f * ENTRIES + Index4(v), c4)
    requires WordRight(mem[(sp.f + 1) * ENTRIES + Index3(v)], k, sp, (sp.f + 1) * ENTRIES + Index3(v), c3)
    ensures Walk(mem, sp.f, v) == Fault
  {
    LowerHalfIndex(v);
    hide LastFrame, Index1, Index2;
    if v >= 0x80_0000_0000 {
      hide Index4, Index3;
      assert !mem[sp.f * ENTRIES + Index4(v)].p;
    } else {
      assert Index4(v) == 0;
      hide Index4, Index3;
      assert !mem[(sp.f + 1) * ENTRIES + Index3(v)].p;
    }
  }

  lemma {:induction false} HighIsFault(sp: Space, v: nat)
    requires v >= 0x4000_0000
    ensures UserTarget(sp, v) == Fault
  {
  }

  /**
   Over every run that spares the kernel and creates apart: an address of a process walks to
   its last mapping exactly when no store, of any process, hit an entry on its path since the
   process was created, or its page's entry since that mapping; otherwise it faults.
   */
  lemma {:induction false} UserWalkIs(s: System, ops: seq<Op>, j: nat, v: nat)
    requires Inv(s) && Legal(s, ops) && AllSpareKernel(s, ops) && CreationsApart(s, ops)
    requires j < |Run(s, ops).spaces| && v < 0x8000_0000_0000
    ensures Walk(Run(s, ops).mem, Run(s, ops).spaces[j].f, v)
         == (if v < 0x4000_0000 && PathCleared(s, ops, j, v / PAGE_SIZE) then Fault
             else UserTarget(Run(s, ops).spaces[j], v))
    ensures LastSwitch(ops) == j ==> Run(s, ops).cr3 == Run(s, ops).spaces[j].f
  {
    hide Inv, Run, Legal, AllSpareKernel, CreationsApart, Cleared, KernelInv, WordRight, Walk, UserTarget, LastSwitch;
    SwitchedIsLoaded(s, ops);
    LooseRun(s, ops);
    var t := Run(s, ops);
    var sp := t.spaces[j];
    assert TablesRight(s, ops, j);
    var f, page := sp.f, v / PAGE_SIZE;
    if v < 0x4000_0000 {
      var w4, w3 := f * ENTRIES, (f + 1) * ENTRIES;
      var w2, w1 := (f + 2) * ENTRIES + page / ENTRIES, (f + 3) * ENTRIES + page;
      LowWalk(t.mem, t.k, sp, v, Cleared(s, ops, j, w4), Cleared(s, ops, j, w3), Cleared(s, ops, j, w2),
              Cleared(s, ops, j, w1));
    } else {
      LowerHalfIndex(v);
      var w4, w3 := f * ENTRIES + Index4(v), (f + 1) * ENTRIES + Index3(v);
      HighWalk(t.mem, t.k, sp, v, Cleared(s, ops, j, w4), Cleared(s, ops, j, w3));
      HighIsFault(sp, v);
    }
  }

  // ----- Stores over the kernel's entries -----

  lemma {:induction false} KernelWalkWords(s: System, cr3: nat, q: nat)
    requires KernelOk(s) && q < IDENTITY_END
    requires (cr3 + 1) * ENTRIES <= |s.mem| && s.mem[cr3 * ENTRIES + 256] == KernelEntry(s.k + 1)
    ensures WalkWords(s.mem, cr3, KERNEL_START + q)
         == {cr3 * ENTRIES + 256, (s.k + 1) * ENTRIES + Index3(q), (s.k + 2) * ENTRIES + q / 0x20_0000,
             (s.k + 6) * ENTRIES + q / PAGE_SIZE}
  {
    KernelIndex4(q);
    KernelIndex3(q);
    KernelIndex2(q);
    KernelIndex1(q);
    SplitIndex(q);
    hide KernelLower, Index1, Index2, Index3, Index4;
    KernelReads(s.mem, s.k, s.imageFrame, q);
    assert Read(s.mem, cr3, 256) == KernelEntry(s.k + 1);
    hide Read;
    assert (s.k + 2 + Index3(q)) * ENTRIES + Index2(q) == (s.k + 2) * ENTRIES + q / 0x20_0000;
    assert (s.k + 6 + q / 0x20_0000) * ENTRIES + Index1(q) == (s.k + 6) * ENTRIES + q / PAGE_SIZE;
  }

  /** An address of the kernel half whose walk reads the given word of the lower tables. */
  lemma {:induction false} LowerWordAddress(k: nat, w: nat) returns (q: nat)
    requires LowerWord(k, w)
    ensures q < IDENTITY_END
    ensures w == (k + 1) * ENTRIES + Index3(q) || w == (k + 2) * ENTRIES + q / 0x20_0000
         || w == (k + 6) * ENTRIES + q / PAGE_SIZE
  {
    if w < (k + 2) * ENTRIES {
      q := (w - (k + 1) * ENTRIES) * 0x4000_0000;
    } else if w < (k + 6) * ENTRIES {
      q := (w - (k + 2) * ENTRIES) * 0x20_0000;
    } else {
      q := (w - (k + 6) * ENTRIES) * PAGE_SIZE;
    }
  }

  /** A table whose kernel half is right loses an address of it when a store hits a word of that walk. */
  lemma {:induction false} HalfSpoiled(s: System, cr3: nat, w: nat, a: nat, q: nat)
    requires KernelOk(s) && q < IDENTITY_END && a % PAGE_SIZE == 0
    requires (cr3 + 1) * ENTRIES <= |s.mem| && s.mem[cr3 * ENTRIES + 256] == KernelEntry(s.k + 1)
    requires w in {cr3 * ENTRIES + 256, (s.k + 1) * ENTRIES + Index3(q), (s.k + 2) * ENTRIES + q / 0x20_0000,
                   (s.k + 6) * ENTRIES + q / PAGE_SIZE}
    ensures Walk(Stored(s.mem, w, a), cr3, KERNEL_START + q) == Fault
  {
    hide KernelLower, Walk, WalkWords, Index3, Stored, EntryOf;
    KernelWalkWords(s, cr3, q);
    HalfWalk(s, cr3, q);
    StoreKeepsWalkIff(s.mem, w, a, cr3, KERNEL_START + q);
  }

  /** A store that does not spare the kernel spoils a translation of the loaded table or of a process. */
  lemma {:induction false} KernelStoreSpoils(s: System, w: nat, a: nat)
    requires KernelInv(s) && Allowed(s, Store(w, a)) && !SparesKernel(s, Store(w, a))
    ensures !AllRight(Step(s, Store(w, a)))
  {
    hide KernelLower, Walk, LowerWord, Index3, EntryOf, Stored, UserRight;
    var t := Step(s, Store(w, a));
    if LowerWord(s.k, w) {
      var q := LowerWordAddress(s.k, w);
      HalfSpoiled(s, s.cr3, w, a, q);
      assert Walk(t.mem, t.cr3, KERNEL_START + q) != KernelTarget(t, q);
    } else if w == s.cr3 * ENTRIES + 256 {
      HalfSpoiled(s, s.cr3, w, a, 0);
      assert Walk(t.mem, t.cr3, KERNEL_START + 0) != KernelTarget(t, 0);
    } else {
      var i :| 0 <= i < |s.spaces| && w == s.spaces[i].f * ENTRIES + 256;
      assert HasKernelHalf(s, s.spaces[i].f);
      HalfSpoiled(s, s.spaces[i].f, w, a, 0);
      assert Walk(t.mem, t.spaces[i].f, KERNEL_START + 0) != KernelTarget(t, 0);
      assert !KernelRight(t, i);
    }
  }

  lemma {:induction false} ApartSpares(s: System, op: Op)
    requires Allowed(s, op) && PairwiseApart(s) && Apart(s, op) && !op.Store?
    ensures SparesKernel(s, op)
  {
    match op {
      case Switch(_) =>
      case Create(_) =>
      case Map(i, c) =>
        forall j | 0 <= j < |s.spaces|
          ensures !MapsWord(s.spaces[i].f, c, s.spaces[j].f * ENTRIES + 256)
        {
          if i != j {
            TwoApart(s, i, j);
          }
        }
    }
  }

  // ----- Runs whose creations are apart -----

  /** No page that is mapped has a cleared entry on its path. */
  ghost predicate Unhit(s: System, ops: seq<Op>)
    requires Legal(s, ops)
  {
    forall j: nat :: j < |Run(s, ops).spaces| ==>
      forall page: nat :: page < PT_ENTRIES && LastFrame(Run(s, ops).spaces[j].calls, page) >= 0 ==>
        !PathCleared(s, ops, j, page)
  }

  ghost predicate AlwaysUnhit(s: System, ops: seq<Op>)
    requires Legal(s, ops)
    decreases |ops|
  {
    Unhit(s, ops) && (ops == [] || AlwaysUnhit(s, Front(ops)))
  }

  lemma {:induction false} UserRightIff(s: System, ops: seq<Op>, j: nat)
    requires Inv(s) && Legal(s, ops) && AllSpareKernel(s, ops) && CreationsApart(s, ops)
    requires j < |Run(s, ops).spaces|
    ensures UserRight(Run(s, ops), j)
       <==> (forall page: nat :: page < PT_ENTRIES && LastFrame(Run(s, ops).spaces[j].calls, page) >= 0 ==>
               !PathCleared(s, ops, j, page))
  {
    hide Inv, Run, Legal, AllSpareKernel, CreationsApart, PathCleared, Walk;
    var t := Run(s, ops);
    var sp := t.spaces[j];
    if UserRight(t, j) {
      forall page: nat | page < PT_ENTRIES && LastFrame(sp.calls, page) >= 0
        ensures !PathCleared(s, ops, j, page)
      {
        var v := page * PAGE_SIZE;
        assert v / PAGE_SIZE == page;
        UserWalkIs(s, ops, j, v);
        assert Walk(t.mem, sp.f, v) == UserTarget(sp, v);
      }
    }
    if forall page: nat :: page < PT_ENTRIES && LastFrame(sp.calls, page) >= 0 ==> !PathCleared(s, ops, j, page) {
      forall v: nat | v < 0x8000_0000_0000
        ensures Walk(t.mem, sp.f, v) == UserTarget(sp, v)
      {
        UserWalkIs(s, ops, j, v);
      }
    }
  }

  lemma {:induction false} AllRightIff(s: System, ops: seq<Op>)
    requires Inv(s) && Legal(s, ops) && AllSpareKernel(s, ops) && CreationsApart(s, ops)
    ensures AllRight(Run(s, ops)) <==> Unhit(s, ops)
  {
    hide Inv, Run, Legal, AllSpareKernel, CreationsApart, PathCleared, UserRight, LastFrame, LoadedRight, KernelRight;
    var t := Run(s, ops);
    KernelOf(s);
    RunKeepsKernel(s, ops);
    KernelHalvesRight(t);
    forall j: nat | j < |t.spaces|
      ensures UserRight(t, j)
         <==> (forall page: nat :: page < PT_ENTRIES && LastFrame(t.spaces[j].calls, page) >= 0 ==>
                 !PathCleared(s, ops, j, page))
    {
      UserRightIff(s, ops, j);
    }
  }

  lemma {:induction false} UnsparedSpoils(s: System, ops: seq<Op>)
    requires Inv(s) && Legal(s, ops) && ops != [] && AllSpareKernel(s, Front(ops)) && CreationsApart(s, ops)
    requires !SparesKernel(Run(s, Front(ops)), Last(ops))
    ensures !AllRight(Run(s, ops))
  {
    hide Inv, AllRight, KernelInv, PairwiseApart, TablesRight, Apart, SparesKernel, Allowed, Step;
    LooseRun(s, Front(ops));
    var t, op := Run(s, Front(ops)), Last(ops);
    if op.Store? {
      KernelStoreSpoils(t, op.w, op.a);
    } else {
      ApartSpares(t, op);
    }
  }

  /**
   Over every run whose creations are apart, every process sees its own last mappings and
   nothing else in its lower half, and the kernel's mappings in the upper, at every point,
   exactly when no store hit an entry of the kernel's half or one on the path of a page that
   is mapped at that point. Through the loaded table these are the mappings of the process
   last switched to.
   */
  lemma {:induction false} StoresRightIff(s: System, ops: seq<Op>)
    requires Inv(s) && Legal(s, ops) && CreationsApart(s, ops)
    ensures AlwaysRight(s, ops) <==> AllSpareKernel(s, ops) && AlwaysUnhit(s, ops)
    decreases |ops|
  {
    hide Inv, AllRight, Unhit, SparesKernel, Step, Allowed, Apart, RunningRight;
    if AllRight(Run(s, ops)) { AllRightRunning(s, ops); }
    if ops == [] {
      AllRightIff(s, ops);
    } else {
      StoresRightIff(s, Front(ops));
      if AllSpareKernel(s, Front(ops)) {
        if SparesKernel(Run(s, Front(ops)), Last(ops)) {
          AllRightIff(s, ops);
        } else {
          UnsparedSpoils(s, ops);
        }
      }
    }
  }

  /** A store over another process's pml4t entry 0 spares the kernel half, and every mapped page of it faults. */
  lemma {:induction false} StoreOverPml4t(s: System, j: nat, v: nat, a: nat)
    requires Inv(s) && j < |s.spaces| && a % PAGE_SIZE == 0 && v < 0x8000_0000_0000
    requires UserTarget(s.spaces[j], v) != Fault
    ensures var op := Store(s.spaces[j].f * ENTRIES, a);
      Allowed(s, op) && SparesKernel(s, op) && Walk(Step(s, op).mem, s.spaces[j].f, v) == Fault
  {
    var f := s.spaces[j].f;
    assert SpaceOk(s.mem, s.k, s.spaces[j]) && OffKernel(s, f);
    SpaceWalk(s.mem, s.k, s.spaces[j], v);
    LowerHalfIndex(v);
    SplitIndex(v);
    hide Inv, SpaceOk, Walk, LastFrame, Index1, Index2, Index3, EntryOf, Stored, Read;
    StoreKeepsWalkIff(s.mem, f * ENTRIES, a, f, v);
  }

  /** A store over the first entry of the kernel's pdpt: KERNEL_START faults in every process. */
  lemma {:induction false} StoreOverKernelPdpt(s: System, j: nat, a: nat)
    requires KernelInv(s) && j < |s.spaces| && a % PAGE_SIZE == 0
    ensures Walk(Step(s, Store((s.k + 1) * ENTRIES, a)).mem, s.spaces[j].f, KERNEL_START) == Fault
  {
    hide KernelLower, Walk, EntryOf, Stored;
    assert HasKernelHalf(s, s.spaces[j].f);
    HalfSpoiled(s, s.spaces[j].f, (s.k + 1) * ENTRIES, a, 0);
    assert KERNEL_START + 0 == KERNEL_START;
  }
}
