/**
 Interrupt entry, context save, syscall handling, scheduling and resume: irq.S, process.cpp
 and syscall.cpp. Memory is an array of 8-byte words and the stack pointer a word index.
 */
module ContextSwitch {
  import opened Machine
  import opened Scheduler

  const CONTEXT_WORDS := 27

  /** Everything an interrupt saves and a resume restores. */
  datatype Regs = Regs(
    ds: nat, es: nat, fs: nat, gs: nat, cr3: nat,
    r15: nat, r14: nat, r13: nat, r12: nat, r11: nat, r10: nat, r9: nat, r8: nat,
    rbp: nat, rsi: nat, rdi: nat, rbx: nat, rdx: nat, rcx: nat, rax: nat,
    rip: nat, cs: nat, rflags: nat, rsp: nat, ss: nat)

  /** Segment registers hold 16 bits. */
  ghost predicate WellFormed(r: Regs)
  {
    r.ds < U16 && r.es < U16 && r.fs < U16 && r.gs < U16 && r.cs < U16 && r.ss < U16
  }

  /** struct Context of include/process.h, word by word, with the two reserved words given. */
  function Words(r: Regs, num: nat, err: nat): (w: seq<nat>)
    ensures |w| == CONTEXT_WORDS
  {
    [r.ds, r.es, r.fs, r.gs, r.cr3]
    + [r.r15, r.r14, r.r13, r.r12, r.r11, r.r10, r.r9, r.r8, r.rbp, r.rsi, r.rdi, r.rbx, r.rdx, r.rcx, r.rax]
    + [num, err] + [r.rip, r.cs, r.rflags, r.rsp, r.ss]
  }

  lemma {:induction false} WordsInPushOrder(r: Regs, num: nat, err: nat)
    ensures Words(r, num, err)
         == [r.ds, r.es, r.fs, r.gs, r.cr3]
            + ([r.r15, r.r14, r.r13, r.r12, r.r11, r.r10, r.r9]
               + ([r.r8, r.rbp, r.rsi, r.rdi, r.rbx, r.rdx, r.rcx, r.rax]
                  + [num, err, r.rip, r.cs, r.rflags, r.rsp, r.ss]))
    ensures Words(r, num, err)[20] == num
  {
  }

  /** The register image in a context; selectors are loaded from the low 16 bits. */
  function Image(w: seq<nat>): Regs
    requires |w| == CONTEXT_WORDS
  {
    Regs(w[0] % U16, w[1] % U16, w[2] % U16, w[3] % U16, w[4],
         w[5], w[6], w[7], w[8], w[9], w[10], w[11], w[12], w[13], w[14], w[15], w[16], w[17], w[18], w[19],
         w[22], w[23] % U16, w[24], w[25], w[26] % U16)
  }

  const RAX_WORD := 19

  /** Saving and loading an image loses nothing, whatever the reserved words hold. */
  lemma {:induction false} SaveLoad(r: Regs, num: nat, err: nat)
    requires WellFormed(r)
    ensures Image(Words(r, num, err)) == r
    ensures forall x :: Image(Words(r, num, err)[RAX_WORD := x]) == r.(rax := x)
  {
    var w := Words(r, num, err);
    assert w[0..5] == [r.ds, r.es, r.fs, r.gs, r.cr3];
  }

  // ----- System calls -----

  const SYSCALL_IRQ := 42
  const RDI_WORD := 15
  const RBX_WORD := 16
  const RDX_WORD := 17

  datatype SyscallOutcome = Panics | Halts | Returns(rax: nat)

  /** Conversion to a 32-bit int. */
  function Int32(x: nat): (r: int)
    ensures -0x8000_0000 <= r < 0x8000_0000 && (r - x) % U32 == 0
  {
    var y := x % U32;
    if y >= 0x8000_0000 then y - U32 else y
  }

  /** Conversion of an int to the 64-bit rax. */
  function SignExtend(i: int): (r: nat)
    requires -0x8000_0000 <= i < 0x8000_0000
    ensures r < U64 && (r - i) % U64 == 0
  {
    if i < 0 then i + U64 else i
  }

  /** Where the store of a granted anon_allocate lands: a word of some saved context, or anything else. */
  datatype Target = Elsewhere | ContextWord(p: nat, pos: nat)

  /** What sys_anon_allocate does: fail, or store a value through the caller's pointer. */
  datatype Anon<T> = Failed | Granted(target: T, value: nat)

  const ANON_ALLOCATE := 7

  /** The result of handle_syscall and the calls it dispatches to. */
  function Syscall<T>(w: seq<nat>, anon: Anon<T>): SyscallOutcome
    requires |w| == CONTEXT_WORDS
  {
    var n := w[RAX_WORD];
    if n == 0 || n >= 8 then Panics
    else if n == 2 then
      var fd := Int32(w[RDI_WORD]);
      Returns(SignExtend(if fd == 0 || fd == 1 || fd == 2 then Int32(w[RDX_WORD]) else -1))
    else if n == 5 then Halts
    else if n == 6 then Returns(SignExtend(0))
    else if n == ANON_ALLOCATE then Returns(SignExtend(if anon.Granted? then 0 else -1))
    else Returns(SignExtend(-1))
  }

  /** A 32-bit int is known by its residue. */
  lemma {:induction false} SameInt(i: int, j: int)
    requires -0x8000_0000 <= i < 0x8000_0000 && -0x8000_0000 <= j < 0x8000_0000
    ensures i % U32 == j % U32 ==> i == j
    ensures (i - j) % U32 == 0 ==> i == j
  {
  }

  /** -1 as the 64-bit rax holds it. */
  const MINUS_ONE := U64 - 1

  /** The calls that return: read, write, open, close, yield and anon_allocate. */
  predicate ReturningCall(number: nat) { number in {1, 2, 3, 4, 6, 7} }

  /** What a caller with these registers finds in rax when its call has returned. */
  ghost predicate Answered(caller: Regs, granted: bool, rax: nat)
  {
    && ReturningCall(caller.rax)
    && (caller.rax in {1, 3, 4} ==> rax == MINUS_ONE)
    && (caller.rax == 2 && caller.rdi % U32 >= 3 ==> rax == MINUS_ONE)
    && (caller.rax == 2 && caller.rdi % U32 < 3 ==>
        // the size as a 32-bit int: itself below 2 GiB
        && (caller.rdx < 0x8000_0000 ==> rax == caller.rdx)
        && rax % U32 == caller.rdx % U32 && (rax < 0x8000_0000 || U64 - 0x8000_0000 <= rax < U64))
    && (caller.rax == 6 ==> rax == 0)
    && (caller.rax == 7 ==> rax == if granted then 0 else MINUS_ONE)
  }

  lemma {:induction false} WriteResult(x: nat)
    ensures var r := SignExtend(Int32(x));
      && (x < 0x8000_0000 ==> r == x)
      && r % U32 == x % U32 && (r < 0x8000_0000 || U64 - 0x8000_0000 <= r < U64)
  {
  }

  /** A call returns exactly when it is one of those, and then with what its caller is promised. */
  lemma {:induction false} SyscallAnswers<T>(w: seq<nat>, anon: Anon<T>)
    requires |w| == CONTEXT_WORDS
    ensures var caller, outcome := Image(w), Syscall(w, anon);
      && (outcome.Returns? <==> ReturningCall(caller.rax))
      && (outcome.Returns? ==> Answered(caller, anon.Granted?, outcome.rax))
      && (outcome.Halts? <==> caller.rax == 5)
      && (outcome.Panics? <==> caller.rax == 0 || caller.rax >= 8)
  {
    WriteResult(w[RDX_WORD]);
  }

  /** The interrupt is a system call that stores through its caller's pointer. */
  predicate Stores<T>(w: seq<nat>, num: nat, anon: Anon<T>)
    requires |w| == CONTEXT_WORDS
  {
    num == SYSCALL_IRQ && w[RAX_WORD] == ANON_ALLOCATE && anon.Granted?
  }

  /** Context c of process p after the store. */
  function AfterStore(c: seq<nat>, p: nat, w: seq<nat>, num: nat, anon: Anon<Target>): (r: seq<nat>)
    requires |w| == |c| == CONTEXT_WORDS
    ensures |r| == CONTEXT_WORDS
  {
    if Stores(w, num, anon) && anon.target.ContextWord? && anon.target.p == p && anon.target.pos < CONTEXT_WORDS
    then c[anon.target.pos := anon.value] else c
  }

  /** Context c of process p after the handler, when process cur was interrupted with the words w. */
  function Handled(c: seq<nat>, p: nat, cur: nat, w: seq<nat>, num: nat, anon: Anon<Target>): (r: seq<nat>)
    requires |w| == |c| == CONTEXT_WORDS
    ensures |r| == CONTEXT_WORDS
  {
    var d := AfterStore(if p == cur then w else c, p, w, num, anon);
    if p == cur && num == SYSCALL_IRQ && Syscall(w, anon).Returns? then d[RAX_WORD := Syscall(w, anon).rax] else d
  }

  // ----- Contexts in memory -----

  /** Process contexts lie in memory apart from each other and from the interrupt stack. */
  ghost predicate Areas(length: nat, areas: seq<nat>, top: nat)
  {
    && |areas| == MAX_PROCESS && CONTEXT_WORDS <= top <= length
    && (forall p :: 0 <= p < |areas| ==> areas[p] + CONTEXT_WORDS <= length)
    && (forall p :: 0 <= p < |areas| ==> areas[p] + CONTEXT_WORDS <= top - CONTEXT_WORDS || top <= areas[p])
    && (forall p, q :: 0 <= p < q < |areas| ==>
        areas[p] + CONTEXT_WORDS <= areas[q] || areas[q] + CONTEXT_WORDS <= areas[p])
  }

  ghost predicate InArea(areas: seq<nat>, p: nat, word: nat)
  {
    p < |areas| && areas[p] <= word < areas[p] + CONTEXT_WORDS
  }

  /** The context word that a word of memory is. */
  ghost function Locate(areas: seq<nat>, word: nat): Target
  {
    if exists p: nat :: InArea(areas, p, word) then
      var p: nat :| InArea(areas, p, word);
      ContextWord(p, word - areas[p])
    else Elsewhere
  }

  ghost function Located(areas: seq<nat>, anon: Anon<nat>): Anon<Target>
  {
    match anon
    case Failed => Failed
    case Granted(word, value) => Granted(Locate(areas, word), value)
  }

  /** Memory after the store; words beyond it are not modelled. */
  function Poked(m: seq<nat>, stores: bool, anon: Anon<nat>): (r: seq<nat>)
    requires stores ==> anon.Granted?
    ensures |r| == |m|
  {
    if stores && anon.target < |m| then m[anon.target := anon.value] else m
  }

  ghost function ContextAt(m: seq<nat>, areas: seq<nat>, p: nat): (c: seq<nat>)
    requires p < |areas| && areas[p] + CONTEXT_WORDS <= |m|
    ensures |c| == CONTEXT_WORDS
  {
    m[areas[p]..areas[p] + CONTEXT_WORDS]
  }

  lemma {:induction false} LocateIs(length: nat, areas: seq<nat>, top: nat, p: nat, word: nat)
    requires Areas(length, areas, top) && p < |areas|
    ensures InArea(areas, p, word) ==> Locate(areas, word) == ContextWord(p, word - areas[p])
    ensures Locate(areas, word).ContextWord? && Locate(areas, word).p == p ==> InArea(areas, p, word)
  {
  }

  lemma {:induction false} PokedContext(m: seq<nat>, areas: seq<nat>, top: nat, p: nat, w: seq<nat>, num: nat,
                                        anon: Anon<nat>)
    requires Areas(|m|, areas, top) && p < |areas| && |w| == CONTEXT_WORDS
    ensures ContextAt(Poked(m, Stores(w, num, anon), anon), areas, p)
         == AfterStore(ContextAt(m, areas, p), p, w, num, Located(areas, anon))
  {
    if Stores(w, num, anon) {
      LocateIs(|m|, areas, top, p, anon.target);
      hide Locate, Areas;
    }
  }

  lemma {:induction false} SameOutcome(w: seq<nat>, areas: seq<nat>, anon: Anon<nat>)
    requires |w| == CONTEXT_WORDS
    ensures Syscall(w, anon) == Syscall(w, Located(areas, anon))
  {
  }

  lemma {:induction false} HandledContext(m: seq<nat>, areas: seq<nat>, top: nat, cur: nat, p: nat, w: seq<nat>,
                                          anon: Anon<nat>)
    requires Areas(|m|, areas, top) && cur < |areas| && p < |areas|
    requires w == ContextAt(m, areas, cur) && Syscall(w, anon).Returns?
    ensures var m' := Poked(m, Stores(w, SYSCALL_IRQ, anon), anon)[areas[cur] + RAX_WORD := Syscall(w, anon).rax];
      ContextAt(m', areas, p) == Handled(ContextAt(m, areas, p), p, cur, w, SYSCALL_IRQ, Located(areas, anon))
  {
    PokedContext(m, areas, top, p, w, SYSCALL_IRQ, anon);
    hide AfterStore, Poked, Located, Stores;
    assert Syscall(w, anon) == Syscall(w, Located(areas, anon)) by { SameOutcome(w, areas, anon); }
    hide Syscall;
  }

  // ----- The system -----

  /**
   The system between interrupts: the interrupt numbers with a handler, the registers, the
   scheduler, every saved context, and, as history, the image each process was last
   suspended with (rax replaced by a system call's result), or its first image.
   */
  datatype Sys =
    Sys(handlers: set<nat>, cpu: Regs, sched: Sched, saved: map<nat, seq<nat>>, expected: map<nat, Regs>)

  datatype Op =
    | Execute(r: Regs)                              // the current process runs
    | Interrupt(num: nat, err: nat, anon: Anon<Target>)
    | Spawn(r: Regs)                                // create_process with its first image

  ghost predicate Allowed(s: Sys, op: Op)
  {
    match op
    case Execute(r) => WellFormed(r)
    case Interrupt(num, err, anon) =>
      (num in s.handlers && (num == SYSCALL_IRQ ==> Syscall(Words(s.cpu, num, err), anon).Returns?)
       && InTable(Scan(s.sched.cur, s.sched.next)))
    case Spawn(r) => WellFormed(r) && s.sched.next < MAX_PROCESS
  }

  /** The image the current process is to resume with. */
  ghost function Suspended(s: Sys, num: nat, err: nat, anon: Anon<Target>): Regs
    requires Allowed(s, Interrupt(num, err, anon))
  {
    if num == SYSCALL_IRQ then s.cpu.(rax := Syscall(Words(s.cpu, num, err), anon).rax) else s.cpu
  }

  /** The context of p when the handler starts. */
  ghost function Before(s: Sys, num: nat, err: nat, p: nat): (c: seq<nat>)
    ensures |c| == CONTEXT_WORDS
  {
    if p != s.sched.cur && p in s.saved && |s.saved[p]| == CONTEXT_WORDS then s.saved[p] else Words(s.cpu, num, err)
  }

  /** All saved contexts after the handler. */
  ghost function AllHandled(s: Sys, num: nat, err: nat, anon: Anon<Target>): map<nat, seq<nat>>
  {
    map p | p in s.saved.Keys + {s.sched.cur} ::
      Handled(Before(s, num, err, p), p, s.sched.cur, Words(s.cpu, num, err), num, anon)
  }

  lemma {:induction false} HandledAll(s: Sys, saved: map<nat, seq<nat>>, num: nat, err: nat, anon: Anon<Target>)
    requires s.sched.cur in s.saved && saved.Keys == s.saved.Keys
    requires forall p :: p in s.saved ==> |s.saved[p]| == CONTEXT_WORDS
    requires forall p :: p in s.saved ==>
      saved[p] == Handled(s.saved[p], p, s.sched.cur, Words(s.cpu, num, err), num, anon)
    ensures saved == AllHandled(s, num, err, anon)
  {
    hide Words, AfterStore, Syscall;
  }

  ghost function Step(s: Sys, op: Op): Sys
    requires Allowed(s, op)
  {
    match op
    case Execute(r) => s.(cpu := r)
    case Spawn(r) =>
      s.(sched := Apply(s.sched, Create), saved := s.saved[s.sched.next := Words(r, 0, 0)],
         expected := s.expected[s.sched.next := r])
    case Interrupt(num, err, anon) =>
      var sched, saved := Apply(s.sched, Tick), AllHandled(s, num, err, anon);
      Sys(s.handlers,
          if sched.cur in saved && |saved[sched.cur]| == CONTEXT_WORDS then Image(saved[sched.cur]) else s.cpu,
          sched, saved, s.expected[s.sched.cur := Suspended(s, num, err, anon)])
  }

  lemma {:induction false} StepIs(s: Sys, t: Sys, num: nat, err: nat, anon: Anon<Target>)
    requires Allowed(s, Interrupt(num, err, anon)) && t.handlers == s.handlers && t.sched == Apply(s.sched, Tick)
    requires t.saved == AllHandled(s, num, err, anon)
    requires t.sched.cur in t.saved && |t.saved[t.sched.cur]| == CONTEXT_WORDS && t.cpu == Image(t.saved[t.sched.cur])
    ensures Step(s, Interrupt(num, err, anon)) == t.(expected := Step(s, Interrupt(num, err, anon)).expected)
  {
    hide Words, Syscall, AllHandled, Image;
  }

  // ----- The instruction sequences -----

  class Cpu {
    var r: Regs
    var sp: nat
    const mem: array<nat>

    constructor (r: Regs, sp: nat, mem: array<nat>)
      ensures this.r == r && this.sp == sp && this.mem == mem
    {
      this.r := r;
      this.sp := sp;
      this.mem := mem;
    }

    method Push(v: nat, ghost top: nat)
      requires 0 < sp <= top <= mem.Length
      modifies this`sp, mem
      ensures sp == old(sp) - 1
      ensures mem[sp..top] == [v] + old(mem[sp..top])
      ensures forall i :: 0 <= i < mem.Length && i != sp ==> mem[i] == old(mem[i])
    {
      sp := sp - 1;
      mem[sp] := v;
    }

    method Pop() returns (v: nat)
      requires sp < mem.Length
      modifies this`sp
      ensures v == mem[old(sp)] && sp == old(sp) + 1
    {
      v := mem[sp];
      sp := sp + 1;
    }

    /** Everything outside [sp, top) is as it was. */
    twostate predicate OnlyStack(top: nat)
      reads this, mem
    {
      forall i :: 0 <= i < mem.Length && !(sp <= i < top) ==> mem[i] == old(mem[i])
    }

    method PushTwo(a: nat, b: nat, ghost top: nat)
      requires 2 <= sp <= top <= mem.Length
      modifies this`sp, mem
      ensures sp == old(sp) - 2 && OnlyStack(top)
      ensures mem[sp..top] == [b, a] + old(mem[sp..top])
    {
      Push(a, top);
      Push(b, top);
    }

    method PushFour(a: nat, b: nat, c: nat, d: nat, ghost top: nat)
      requires 4 <= sp <= top <= mem.Length
      modifies this`sp, mem
      ensures sp == old(sp) - 4 && OnlyStack(top)
      ensures mem[sp..top] == [d, c, b, a] + old(mem[sp..top])
    {
      PushTwo(a, b, top);
      PushTwo(c, d, top);
    }

    /** The processor's own pushes and the stub's error code and number. */
    method PushFrame(top: nat, num: nat, err: nat)
      requires CONTEXT_WORDS <= top <= mem.Length
      modifies this`sp, mem
      ensures sp == top - 7 && OnlyStack(top)
      ensures mem[sp..top] == [num, err, r.rip, r.cs, r.rflags, r.rsp, r.ss]
    {
      sp := top;
      PushFour(r.ss, r.rsp, r.rflags, r.cs, top);
      Push(r.rip, top);
      PushTwo(err, num, top);
    }

    method PushLow(ghost top: nat)
      requires 8 <= sp <= top <= mem.Length
      modifies this`sp, mem
      ensures sp == old(sp) - 8 && OnlyStack(top)
      ensures mem[sp..top] == [r.r8, r.rbp, r.rsi, r.rdi, r.rbx, r.rdx, r.rcx, r.rax] + old(mem[sp..top])
    {
      PushFour(r.rax, r.rcx, r.rdx, r.rbx, top);
      PushFour(r.rdi, r.rsi, r.rbp, r.r8, top);
    }

    method PushHigh(ghost top: nat)
      requires 7 <= sp <= top <= mem.Length
      modifies this`sp, mem
      ensures sp == old(sp) - 7 && OnlyStack(top)
      ensures mem[sp..top] == [r.r15, r.r14, r.r13, r.r12, r.r11, r.r10, r.r9] + old(mem[sp..top])
    {
      PushFour(r.r9, r.r10, r.r11, r.r12, top);
      PushTwo(r.r13, r.r14, top);
      Push(r.r15, top);
    }

    /** mov to rax, push rax */
    method PushThroughRax(v: nat, ghost top: nat)
      requires 0 < sp <= top <= mem.Length
      modifies this`sp, this`r, mem
      ensures sp == old(sp) - 1 && r == old(r).(rax := v) && OnlyStack(top)
      ensures mem[sp..top] == [v] + old(mem[sp..top])
    {
      r := r.(rax := v);
      Push(r.rax, top);
    }

    /** cr3 and the selectors; rax is cleared first, so a 16-bit selector fills it. */
    method PushSystem(ghost top: nat)
      requires 5 <= sp <= top <= mem.Length
      modifies this`sp, this`r, mem
      ensures sp == old(sp) - 5 && OnlyStack(top)
      ensures mem[sp..top] == [old(r).ds, old(r).es, old(r).fs, old(r).gs, old(r).cr3] + old(mem[sp..top])
    {
      PushThroughRax(r.cr3, top);
      PushThroughRax(r.gs, top);
      PushThroughRax(r.fs, top);
      PushThroughRax(r.es, top);
      PushThroughRax(r.ds, top);
    }

    /** The entry of an interrupt on a stack ending at word top, up to the call of the C++ code. */
    method EnterInterrupt(top: nat, num: nat, err: nat)
      requires CONTEXT_WORDS <= top <= mem.Length
      modifies this, mem
      ensures sp == top - CONTEXT_WORDS && OnlyStack(top)
      ensures mem[sp..top] == Words(old(r), num, err)
    {
      WordsInPushOrder(r, num, err);
      hide Words;
      PushFrame(top, num, err);
      PushLow(top);
      PushHigh(top);
      PushSystem(top);
    }

    method PopSystem()
      requires sp + 5 <= mem.Length
      modifies this
      ensures sp == old(sp) + 5
      ensures r == old(r).(ds := mem[old(sp)] % U16, es := mem[old(sp) + 1] % U16,
                           fs := mem[old(sp) + 2] % U16, gs := mem[old(sp) + 3] % U16, cr3 := mem[old(sp) + 4])
    {
      var v := Pop(); r := r.(ds := v % U16);
      v := Pop(); r := r.(es := v % U16);
      v := Pop(); r := r.(fs := v % U16);
      v := Pop(); r := r.(gs := v % U16);
      v := Pop(); r := r.(cr3 := v);
    }

    method PopHigh()
      requires sp + 8 <= mem.Length
      modifies this
      ensures sp == old(sp) + 8
      ensures r == old(r).(r15 := mem[old(sp)], r14 := mem[old(sp) + 1], r13 := mem[old(sp) + 2],
                           r12 := mem[old(sp) + 3], r11 := mem[old(sp) + 4], r10 := mem[old(sp) + 5],
                           r9 := mem[old(sp) + 6], r8 := mem[old(sp) + 7])
    {
      var v := Pop(); r := r.(r15 := v);
      v := Pop(); r := r.(r14 := v);
      v := Pop(); r := r.(r13 := v);
      v := Pop(); r := r.(r12 := v);
      v := Pop(); r := r.(r11 := v);
      v := Pop(); r := r.(r10 := v);
      v := Pop(); r := r.(r9 := v);
      v := Pop(); r := r.(r8 := v);
    }

    method PopLow()
      requires sp + 7 <= mem.Length
      modifies this
      ensures sp == old(sp) + 7
      ensures r == old(r).(rbp := mem[old(sp)], rsi := mem[old(sp) + 1], rdi := mem[old(sp) + 2],
                           rbx := mem[old(sp) + 3],
                           rdx := mem[old(sp) + 4], rcx := mem[old(sp) + 5], rax := mem[old(sp) + 6])
    {
      var v := Pop(); r := r.(rbp := v);
      v := Pop(); r := r.(rsi := v);
      v := Pop(); r := r.(rdi := v);
      v := Pop(); r := r.(rbx := v);
      v := Pop(); r := r.(rdx := v);
      v := Pop(); r := r.(rcx := v);
      v := Pop(); r := r.(rax := v);
    }

    /** iretq */
    method Iretq()
      requires sp + 5 <= mem.Length
      modifies this
      ensures r == old(r).(rip := mem[old(sp)], cs := mem[old(sp) + 1] % U16, rflags := mem[old(sp) + 2],
                           rsp := mem[old(sp) + 3], ss := mem[old(sp) + 4] % U16)
    {
      var v := Pop(); r := r.(rip := v);
      v := Pop(); r := r.(cs := v % U16);
      v := Pop(); r := r.(rflags := v);
      v := Pop(); r := r.(rsp := v);
      v := Pop(); r := r.(ss := v % U16);
    }

    /** return_from_syscall on the context at word ctx. */
    method ReturnFromSyscall(ctx: nat)
      requires ctx + CONTEXT_WORDS <= mem.Length
      modifies this
      ensures r == Image(mem[ctx..ctx + CONTEXT_WORDS])
    {
      sp := ctx;
      PopSystem();
      PopHigh();
      PopLow();
      sp := sp + 2;
      Iretq();
    }

    /** memcpy of a context from the stack to a process record. */
    method StoreContext(from: nat, ctx: nat)
      requires from + CONTEXT_WORDS <= mem.Length && ctx + CONTEXT_WORDS <= mem.Length
      requires from + CONTEXT_WORDS <= ctx || ctx + CONTEXT_WORDS <= from
      modifies mem
      ensures mem[ctx..ctx + CONTEXT_WORDS] == old(mem[from..from + CONTEXT_WORDS])
      ensures forall i :: 0 <= i < mem.Length && !(ctx <= i < ctx + CONTEXT_WORDS) ==> mem[i] == old(mem[i])
    {
      var i := 0;
      while i < CONTEXT_WORDS
        invariant 0 <= i <= CONTEXT_WORDS
        invariant mem[ctx..ctx + i] == old(mem[from..from + i])
        invariant forall j :: 0 <= j < mem.Length && !(ctx <= j < ctx + i) ==> mem[j] == old(mem[j])
      {
        mem[ctx + i] := mem[from + i];
        i := i + 1;
      }
    }

    /** sys_write, without the characters put on the serial port. */
    static method SysWrite(rdi: nat, rdx: nat) returns (r: int)
      ensures -0x8000_0000 <= r < 0x8000_0000
      ensures (r - rdx) % U32 == 0 || (rdi % U32 >= 3 && r == -1)
      ensures rdi % U32 >= 3 ==> r == -1
    {
      var fd := Int32(rdi);
      var size := rdx;
      if fd == 0 {
        return Int32(size);
      } else if fd == 1 || fd == 2 {
        return Int32(size);
      } else {
        return -1;
      }
    }

    /**
     handle_syscall on the context at word ctx: false when the kernel stops instead of
     returning. Memory is written by the store of anon_allocate, then at the rax word.
     */
    method HandleSyscall(ctx: nat, anon: Anon<nat>) returns (ok: bool)
      requires ctx + CONTEXT_WORDS <= mem.Length
      modifies mem
      ensures ok <==> Syscall(old(mem[ctx..ctx + CONTEXT_WORDS]), anon).Returns?
      ensures !ok ==> mem[..] == old(mem[..])
      ensures ok ==>
        var w := old(mem[ctx..ctx + CONTEXT_WORDS]);
        mem[..] == Poked(old(mem[..]), Stores(w, SYSCALL_IRQ, anon), anon)[ctx + RAX_WORD := Syscall(w, anon).rax]
      ensures ok <==> ReturningCall(old(mem[ctx + RAX_WORD]))
      ensures ok ==> Answered(Image(old(mem[ctx..ctx + CONTEXT_WORDS])), anon.Granted?, mem[ctx + RAX_WORD])
    {
      ghost var w := mem[ctx..ctx + CONTEXT_WORDS];
      SyscallAnswers(w, anon);
      hide Answered;
      var number := mem[ctx + RAX_WORD];
      if number == 0 {
        return false; // panic
      } else if number >= 8 {
        return false; // panic
      }
      var result := -1;
      if number == 2 {
        result := SysWrite(mem[ctx + RDI_WORD], mem[ctx + RDX_WORD]);
        SameInt(result, Int32(w[RDX_WORD]));
      } else if number == 5 {
        return false; // halt
      } else if number == 6 {
        result := 0;
      } else if number == ANON_ALLOCATE && anon.Granted? {
        if anon.target < mem.Length {
          mem[anon.target] := anon.value;
        }
        result := 0;
      }
      mem[ctx + RAX_WORD] := SignExtend(result);
      return true;
    }

    /** Context of process p. */
    ghost function Saved(areas: seq<nat>, p: nat): (w: seq<nat>)
      requires p < |areas| && areas[p] + CONTEXT_WORDS <= mem.Length
      reads mem
      ensures |w| == CONTEXT_WORDS
    {
      mem[areas[p]..areas[p] + CONTEXT_WORDS]
    }

    /** _irq_handler up to the call of irq_handler, with the number it is called with. */
    method Save(top: nat, num: nat, err: nat, areas: seq<nat>, cur: nat) returns (irq: nat)
      requires Areas(mem.Length, areas, top) && cur < MAX_PROCESS
      modifies this, mem
      ensures irq == num
      ensures forall p :: 0 <= p < MAX_PROCESS ==>
        Saved(areas, p) == if p == cur then Words(old(r), num, err) else old(Saved(areas, p))
    {
      WordsInPushOrder(r, num, err);
      hide Words;
      EnterInterrupt(top, num, err);
      irq := mem[sp + 20]; // 160(%rsp)
      assert irq == mem[sp..top][20] == num;
      StoreContext(sp, areas[cur]);
    }

    /** HandleInterrupt after the context was saved: false when no handler is registered or it stops the kernel. */
    method Handle(ghost top: nat, handlers: set<nat>, irq: nat, anon: Anon<nat>, areas: seq<nat>, cur: nat)
      returns (ok: bool)
      requires Areas(mem.Length, areas, top) && cur < MAX_PROCESS
      modifies mem
      ensures ok <==> irq in handlers && (irq == SYSCALL_IRQ ==> Syscall(old(Saved(areas, cur)), anon).Returns?)
      ensures ok ==> forall p :: 0 <= p < MAX_PROCESS ==>
        Saved(areas, p)
          == Handled(old(Saved(areas, p)), p, cur, old(Saved(areas, cur)), irq, Located(areas, anon))
    {
      ghost var m, w := mem[..], Saved(areas, cur);
      ok := irq in handlers;
      if ok && irq == SYSCALL_IRQ {
        ok := HandleSyscall(areas[cur], anon);
      }
      if ok {
        forall p | 0 <= p < MAX_PROCESS
          ensures Saved(areas, p) == Handled(old(Saved(areas, p)), p, cur, w, irq, Located(areas, anon))
        {
          hide Syscall, Poked, Located;
          if irq == SYSCALL_IRQ {
            HandledContext(m, areas, top, cur, p, w, anon);
          }
        }
      }
    }

    method SaveAndHandle(top: nat, handlers: set<nat>, num: nat, err: nat, anon: Anon<nat>, areas: seq<nat>, cur: nat)
      returns (ok: bool)
      requires Areas(mem.Length, areas, top) && cur < MAX_PROCESS
      modifies this, mem
      ensures ok <==> num in handlers && (num == SYSCALL_IRQ ==> Syscall(Words(old(r), num, err), anon).Returns?)
      ensures ok ==> forall p :: 0 <= p < MAX_PROCESS ==>
        Saved(areas, p) == Handled(old(Saved(areas, p)), p, cur, Words(old(r), num, err), num, Located(areas, anon))
    {
      hide Words, Syscall, AfterStore, Located;
      var irq := Save(top, num, err, areas, cur);
      ok := Handle(top, handlers, irq, anon, areas, cur);
    }

    /** The registers, the scheduler and all saved contexts, with the given expectations. */
    ghost function View(handlers: set<nat>, areas: seq<nat>, top: nat, table: ProcessTable,
                        expected: map<nat, Regs>): Sys
      requires Areas(mem.Length, areas, top)
      reads this, mem, table
    {
      Sys(handlers, r, Sched(table.currentPid, table.nextPid),
          map p: nat | p < MAX_PROCESS :: Saved(areas, p),
          expected)
    }

    /** _irq_handler from entry to iretq: false when the kernel stops in the handler or leaves the table. */
    method HandleIrq(top: nat, handlers: set<nat>, num: nat, err: nat, anon: Anon<nat>, areas: seq<nat>,
                     table: ProcessTable)
      returns (ok: bool)
      requires Areas(mem.Length, areas, top) && table.processes as object != mem
      requires table.Valid()
      modifies this, mem, table`currentPid, table.processes
      ensures ok <==>
        && num in handlers && (num == SYSCALL_IRQ ==> Syscall(Words(old(r), num, err), anon).Returns?)
        && InTable(Scan(old(table.currentPid), table.nextPid))
      ensures ok ==> table.Valid() && table.currentPid == Successor(old(table.currentPid), table.nextPid)
      ensures ok ==> forall p :: 0 <= p < MAX_PROCESS ==>
        Saved(areas, p) == Handled(old(Saved(areas, p)), p, old(table.currentPid), Words(old(r), num, err), num,
                                   Located(areas, anon))
      ensures ok ==> r == Image(Saved(areas, table.currentPid))
    {
      hide Words, Syscall, Handled, Image;
      ok := SaveAndHandle(top, handlers, num, err, anon, areas, table.currentPid);
      if ok {
        ghost var slots;
        ok, slots := table.Schedule();
        if ok {
          ReturnFromSyscall(areas[table.currentPid]);
        }
      }
    }

    /** An interrupt that the kernel survives is a step of Sys. */
    method Trap(top: nat, handlers: set<nat>, num: nat, err: nat, anon: Anon<nat>, areas: seq<nat>,
                table: ProcessTable, ghost expected: map<nat, Regs>)
      returns (ok: bool)
      requires Areas(mem.Length, areas, top) && table.processes as object != mem
      requires table.Valid()
      modifies this, mem, table`currentPid, table.processes
      ensures ok ==> table.Valid()
      ensures ok <==>
        Allowed(old(View(handlers, areas, top, table, expected)), Interrupt(num, err, Located(areas, anon)))
      ensures ok ==>
        var t := Step(old(View(handlers, areas, top, table, expected)), Interrupt(num, err, Located(areas, anon)));
        View(handlers, areas, top, table, t.expected) == t
    {
      hide Words, Syscall, Handled, Image, Areas, Located, AllHandled, Scan, InTable, Suspended;
      SameOutcome(Words(r, num, err), areas, anon);
      ghost var s := View(handlers, areas, top, table, expected);
      ok := HandleIrq(top, handlers, num, err, anon, areas, table);
      ghost var t := View(handlers, areas, top, table, expected);
      if ok {
        HandledAll(s, t.saved, num, err, Located(areas, anon));
        StepIs(s, t, num, err, Located(areas, anon));
      }
    }
  }

  // ----- What every step keeps -----

  /** Process p has a saved context. */
  ghost predicate HasContext(s: Sys, p: nat)
  {
    p in s.saved && p in s.expected && |s.saved[p]| == CONTEXT_WORDS
  }

  /** The saved context of p holds the image p is to resume with. */
  ghost predicate HasImage(s: Sys, p: nat)
  {
    HasContext(s, p) && Image(s.saved[p]) == s.expected[p]
  }

  ghost predicate Inv(s: Sys)
  {
    && Ok(s.sched) && s.sched.next <= MAX_PROCESS && WellFormed(s.cpu)
    && forall p :: 1 <= p < s.sched.next && p != s.sched.cur ==> HasContext(s, p)
  }

  lemma {:induction false} ImageWellFormed(w: seq<nat>)
    requires |w| == CONTEXT_WORDS
    ensures WellFormed(Image(w))
  {
  }

  lemma {:induction false} InterruptContexts(s: Sys, num: nat, err: nat, anon: Anon<Target>)
    requires Inv(s) && Allowed(s, Interrupt(num, err, anon))
    ensures var t := Step(s, Interrupt(num, err, anon));
      forall p :: 1 <= p < t.sched.next ==> HasContext(t, p)
  {
    hide Handled, Words, Image, Syscall;
    var t := Step(s, Interrupt(num, err, anon));
    forall p | 1 <= p < t.sched.next
      ensures HasContext(t, p)
    {
      assert p != s.sched.cur ==> HasContext(s, p);
    }
  }

  lemma {:induction false} StepKeepsInv(s: Sys, op: Op)
    requires Inv(s) && Allowed(s, op)
    ensures Inv(Step(s, op))
    ensures op.Interrupt? ==>
      var t := Step(s, op);
      HasContext(t, t.sched.cur) && t.cpu == Image(t.saved[t.sched.cur])
  {
    var t := Step(s, op);
    hide Words, Image, Syscall;
    match op {
      case Execute(_) =>
        assert forall p :: HasContext(s, p) ==> HasContext(t, p);
      case Spawn(r) =>
        assert forall p :: HasContext(s, p) || p == s.sched.next ==> HasContext(t, p);
      case Interrupt(num, err, anon) =>
        InterruptContexts(s, num, err, anon);
        hide AllHandled;
        assert HasContext(t, t.sched.cur);
        ImageWellFormed(t.saved[t.sched.cur]);
    }
  }

  // ----- The store of anon_allocate -----

  /** What a resume loads from word pos of a context: nothing, a selector, or the whole word. */
  function LoadedWord(pos: nat, x: nat): nat
  {
    if pos == 20 || pos == 21 then 0
    else if pos < 4 || pos == 23 || pos == 26 then x % U16
    else x
  }

  /** The store leaves what will be loaded for p: c is p's context when the handler starts. */
  predicate Spares(c: seq<nat>, p: nat, cur: nat, w: seq<nat>, num: nat, anon: Anon<Target>)
    requires |w| == |c| == CONTEXT_WORDS
  {
    Stores(w, num, anon) ==>
      match anon.target
      case Elsewhere => true
      case ContextWord(q, pos) =>
        (q != p || pos >= CONTEXT_WORDS || (p == cur && pos == RAX_WORD)
         || LoadedWord(pos, anon.value) == LoadedWord(pos, c[pos]))
  }

  /** The step does not store into what will be loaded for p. */
  ghost predicate HarmlessTo(s: Sys, op: Op, p: nat)
  {
    match op
    case Execute(_) => true
    case Spawn(_) => true
    case Interrupt(num, err, anon) =>
      Spares(Before(s, num, err, p), p, s.sched.cur, Words(s.cpu, num, err), num, anon)
  }

  /** Storing one word keeps the image exactly when what is loaded from it stays. */
  lemma {:induction false} ImageStoreIff(w: seq<nat>, pos: nat, x: nat)
    requires |w| == CONTEXT_WORDS && pos < CONTEXT_WORDS
    ensures Image(w[pos := x]) == Image(w) <==> LoadedWord(pos, x) == LoadedWord(pos, w[pos])
  {
  }

  /** Context c of p after the handler, had there been no store. */
  function Unstored(c: seq<nat>, p: nat, cur: nat, w: seq<nat>, num: nat, anon: Anon<Target>): (r: seq<nat>)
    requires |w| == |c| == CONTEXT_WORDS
    ensures |r| == CONTEXT_WORDS
  {
    if p == cur && num == SYSCALL_IRQ && Syscall(w, anon).Returns? then w[RAX_WORD := Syscall(w, anon).rax]
    else if p == cur then w else c
  }

  lemma {:induction false} SparesIff(c: seq<nat>, p: nat, cur: nat, w: seq<nat>, num: nat, anon: Anon<Target>)
    requires |w| == |c| == CONTEXT_WORDS && (p == cur ==> c == w)
    requires num == SYSCALL_IRQ ==> Syscall(w, anon).Returns?
    ensures Image(Handled(c, p, cur, w, num, anon)) == Image(Unstored(c, p, cur, w, num, anon))
       <==> Spares(c, p, cur, w, num, anon)
  {
    hide Image, Syscall, LoadedWord;
    if Stores(w, num, anon) && anon.target.ContextWord? && anon.target.p == p && anon.target.pos < CONTEXT_WORDS {
      var pos := anon.target.pos;
      if p == cur {
        var x := Syscall(w, anon).rax;
        var stored, returned: seq<nat> := w[pos := anon.value], w[RAX_WORD := x];
        assert pos == RAX_WORD ==> stored[RAX_WORD := x] == returned;
        assert pos != RAX_WORD ==> stored[RAX_WORD := x] == returned[pos := anon.value];
        ImageStoreIff(returned, pos, anon.value);
      } else {
        ImageStoreIff(c, pos, anon.value);
      }
    }
  }

  lemma {:induction false} UnstoredImage(s: Sys, num: nat, err: nat, anon: Anon<Target>, p: nat)
    requires Inv(s) && Allowed(s, Interrupt(num, err, anon)) && 1 <= p < s.sched.next
    requires p == s.sched.cur || HasImage(s, p)
    ensures Image(Unstored(Before(s, num, err, p), p, s.sched.cur, Words(s.cpu, num, err), num, anon))
         == Step(s, Interrupt(num, err, anon)).expected[p]
  {
    SaveLoad(s.cpu, num, err);
    hide Words, Image, Syscall, AllHandled;
  }

  /** A process whose image is saved, or being saved, has it after the interrupt exactly when the store is harmless. */
  lemma {:induction false} ImageKeptIff(s: Sys, num: nat, err: nat, anon: Anon<Target>, p: nat)
    requires Inv(s) && Allowed(s, Interrupt(num, err, anon)) && 1 <= p < s.sched.next
    requires p == s.sched.cur || HasImage(s, p)
    ensures HasImage(Step(s, Interrupt(num, err, anon)), p) <==> HarmlessTo(s, Interrupt(num, err, anon), p)
  {
    var t, w, c := Step(s, Interrupt(num, err, anon)), Words(s.cpu, num, err), Before(s, num, err, p);
    InterruptContexts(s, num, err, anon);
    assert HasContext(t, p) && t.saved[p] == Handled(c, p, s.sched.cur, w, num, anon);
    UnstoredImage(s, num, err, anon, p);
    hide Words, Image, Syscall, AllHandled, Unstored, Handled, Spares, Step, Inv;
    SparesIff(c, p, s.sched.cur, w, num, anon);
  }

  // ----- Whole runs -----

  ghost predicate Legal(s: Sys, ops: seq<Op>)
    decreases |ops|
  {
    ops == [] || (Allowed(s, ops[0]) && Legal(Step(s, ops[0]), ops[1..]))
  }

  ghost function RunSys(s: Sys, ops: seq<Op>): Sys
    requires Legal(s, ops)
    decreases |ops|
  {
    if ops == [] then s else RunSys(Step(s, ops[0]), ops[1..])
  }

  /** Whether process p becomes current in the run. */
  ghost predicate Resumed(s: Sys, ops: seq<Op>, p: nat)
    requires Legal(s, ops)
    decreases |ops|
  {
    ops != [] && (Step(s, ops[0]).sched.cur == p || Resumed(Step(s, ops[0]), ops[1..], p))
  }

  /** No step of the run stores into what will be loaded for p. */
  ghost predicate AllHarmlessTo(s: Sys, ops: seq<Op>, p: nat)
    requires Legal(s, ops)
    decreases |ops|
  {
    ops == [] || (HarmlessTo(s, ops[0], p) && AllHarmlessTo(Step(s, ops[0]), ops[1..], p))
  }

  /** After every step of the run the saved context of p holds its image. */
  ghost predicate AlwaysHasImage(s: Sys, ops: seq<Op>, p: nat)
    requires Legal(s, ops)
    decreases |ops|
  {
    HasImage(s, p) && (ops == [] || AlwaysHasImage(Step(s, ops[0]), ops[1..], p))
  }

  /** One step keeps a suspended process's image exactly when it is harmless to it, and what it should be always. */
  lemma {:induction false} StepImage(s: Sys, op: Op, p: nat)
    requires Inv(s) && Allowed(s, op) && 1 <= p < s.sched.next && p != s.sched.cur && HasImage(s, p)
    ensures HasImage(Step(s, op), p) <==> HarmlessTo(s, op, p)
    ensures p in Step(s, op).expected && Step(s, op).expected[p] == s.expected[p]
    ensures p < Step(s, op).sched.next
  {
    match op {
      case Execute(_) =>
      case Spawn(_) => hide Words, Image;
      case Interrupt(num, err, anon) =>
        ImageKeptIff(s, num, err, anon, p);
        hide HasImage, HarmlessTo, Suspended;
    }
  }

  /** While p is not resumed, its context keeps its image at every point exactly when no step stores into it. */
  lemma {:induction false} ImageAlwaysKeptIff(s: Sys, ops: seq<Op>, p: nat)
    requires Inv(s) && Legal(s, ops) && 1 <= p < s.sched.next && p != s.sched.cur && HasImage(s, p)
    requires !Resumed(s, ops, p)
    ensures AlwaysHasImage(s, ops, p) <==> AllHarmlessTo(s, ops, p)
    decreases |ops|
  {
    if ops != [] {
      StepKeepsInv(s, ops[0]);
      StepImage(s, ops[0], p);
      hide Inv, HasImage, HarmlessTo, Step, Allowed;
      if HasImage(Step(s, ops[0]), p) {
        ImageAlwaysKeptIff(Step(s, ops[0]), ops[1..], p);
      }
    }
  }

  lemma {:induction false} ExpectedKept(s: Sys, ops: seq<Op>, p: nat)
    requires Inv(s) && Legal(s, ops) && 1 <= p < s.sched.next && p != s.sched.cur && HasImage(s, p)
    requires !Resumed(s, ops, p) && AllHarmlessTo(s, ops, p)
    ensures var t := RunSys(s, ops);
      Inv(t) && t.sched.cur != p && p < t.sched.next && HasImage(t, p) && t.expected[p] == s.expected[p]
    decreases |ops|
  {
    if ops != [] {
      StepKeepsInv(s, ops[0]);
      StepImage(s, ops[0], p);
      hide Inv, HarmlessTo, Step, Allowed;
      ExpectedKept(Step(s, ops[0]), ops[1..], p);
    }
  }

  /** Whoever is chosen resumes with its image exactly when the interrupt's own store spares it. */
  lemma {:induction false} ChosenResumesIff(s: Sys, op: Op)
    requires Inv(s) && op.Interrupt? && Allowed(s, op)
    requires var p := Step(s, op).sched.cur; p == s.sched.cur || HasImage(s, p)
    ensures var t := Step(s, op);
      && t.sched.cur in t.expected
      && (t.cpu == t.expected[t.sched.cur] <==> HarmlessTo(s, op, t.sched.cur))
  {
    StepKeepsInv(s, op);
    ImageKeptIff(s, op.num, op.err, op.anon, Step(s, op).sched.cur);
    hide HarmlessTo, Image, AllHandled;
  }

  /** The run does not resume p, its last interrupt does, and no store hits what is to be loaded for p. */
  ghost predicate Returning(t: Sys, between: seq<Op>, last: Op, p: nat)
  {
    && Legal(t, between) && !Resumed(t, between, p) && AllHarmlessTo(t, between, p)
    && last.Interrupt? && Allowed(RunSys(t, between), last)
    && Step(RunSys(t, between), last).sched.cur == p && HarmlessTo(RunSys(t, between), last, p)
  }

  lemma {:induction false} LastResumes(u: Sys, last: Op, p: nat)
    requires Inv(u) && last.Interrupt? && Allowed(u, last) && Step(u, last).sched.cur == p != u.sched.cur
    requires HasImage(u, p) && HarmlessTo(u, last, p)
    ensures Step(u, last).cpu == u.expected[p]
  {
    ChosenResumesIff(u, last);
    hide HarmlessTo, Image, AllHandled, Suspended;
  }

  /**
   Suspend a process, run anything that does not resume it, and interrupt again so that it
   is chosen; or choose it again at once. If no store hits what is to be loaded for it, its
   registers are those it was suspended with, except that rax holds the result if it was
   suspended in a system call.
   */
  lemma {:induction false} ResumesWhereSuspended(s: Sys, first: Op, between: seq<Op>, last: Op)
    requires Inv(s) && first.Interrupt? && Allowed(s, first) && HarmlessTo(s, first, s.sched.cur)
    ensures Step(s, first).sched.cur == s.sched.cur ==>
      Step(s, first).cpu == Suspended(s, first.num, first.err, first.anon)
    ensures Step(s, first).sched.cur != s.sched.cur && Returning(Step(s, first), between, last, s.sched.cur) ==>
      Step(RunSys(Step(s, first), between), last).cpu == Suspended(s, first.num, first.err, first.anon)
  {
    var p, t := s.sched.cur, Step(s, first);
    StepKeepsInv(s, first);
    ImageKeptIff(s, first.num, first.err, first.anon, p);
    assert t.expected[p] == Suspended(s, first.num, first.err, first.anon);
    if t.sched.cur == p {
      hide HarmlessTo, Image, AllHandled;
    } else if Returning(t, between, last, p) {
      hide HarmlessTo, Image, AllHandled, Suspended, Allowed;
      ExpectedKept(t, between, p);
      LastResumes(RunSys(t, between), last, p);
    }
  }

  /**
   A process that makes a system call resumes with everything but rax as it was, and rax as
   the call promises, whether chosen again at once or after any run that does not resume it,
   if no store hits what is to be loaded for it. A call that does not return stops the kernel.
   */
  lemma {:induction false} SyscallAnswered(s: Sys, err: nat, anon: Anon<Target>, between: seq<Op>, last: Op)
    requires Inv(s) && SYSCALL_IRQ in s.handlers && InTable(Scan(s.sched.cur, s.sched.next))
    ensures Allowed(s, Interrupt(SYSCALL_IRQ, err, anon)) <==> ReturningCall(s.cpu.rax)
    ensures var first := Interrupt(SYSCALL_IRQ, err, anon);
      Allowed(s, first) && HarmlessTo(s, first, s.sched.cur) ==>
        var t := Step(s, first);
        && (t.sched.cur == s.sched.cur ==>
            t.cpu == s.cpu.(rax := t.cpu.rax) && Answered(s.cpu, anon.Granted?, t.cpu.rax))
        && (t.sched.cur != s.sched.cur && Returning(t, between, last, s.sched.cur) ==>
            var u := Step(RunSys(t, between), last);
            u.cpu == s.cpu.(rax := u.cpu.rax) && Answered(s.cpu, anon.Granted?, u.cpu.rax))
  {
    var first := Interrupt(SYSCALL_IRQ, err, anon);
    SaveLoad(s.cpu, SYSCALL_IRQ, err);
    SyscallAnswers(Words(s.cpu, SYSCALL_IRQ, err), anon);
    hide Inv, Syscall, Words, Image, HarmlessTo, Step, Returning, Answered, RunSys, Scan, InTable;
    if Allowed(s, first) && HarmlessTo(s, first, s.sched.cur) {
      ResumesWhereSuspended(s, first, between, last);
    }
  }

  /** A new process, whatever runs until it is first chosen, starts with the image it was created with. */
  lemma {:induction false} StartsWithFirstImage(s: Sys, r: Regs, between: seq<Op>, last: Op)
    requires Inv(s) && Allowed(s, Spawn(r)) && Returning(Step(s, Spawn(r)), between, last, s.sched.next)
    ensures Step(RunSys(Step(s, Spawn(r)), between), last).cpu == r
  {
    var p, t := s.sched.next, Step(s, Spawn(r));
    StepKeepsInv(s, Spawn(r));
    SaveLoad(r, 0, 0);
    hide Words, Image, HarmlessTo, AllHandled, Suspended, Allowed;
    assert HasImage(t, p) && t.expected[p] == r;
    ExpectedKept(t, between, p);
    LastResumes(RunSys(t, between), last, p);
  }

  /** A granted anon_allocate whose pointer is the caller's own saved rbx: it resumes with another rbx. */
  lemma {:induction false} StoreIntoOwnContext(s: Sys, err: nat, value: nat)
    requires Inv(s) && SYSCALL_IRQ in s.handlers && s.sched.next == 2
    requires s.cpu.rax == ANON_ALLOCATE && s.cpu.rbx != value
    ensures var op := Interrupt(SYSCALL_IRQ, err, Granted(ContextWord(1, RBX_WORD), value));
      Allowed(s, op) && Step(s, op).sched.cur == s.sched.cur && Step(s, op).cpu.rbx == value
  {
  }
}
