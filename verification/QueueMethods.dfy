/**
 enq and deq of include/common/kssq.hpp as methods on the shared ring: each is one
 uninterrupted run of its thread's steps in SSQueue, and alone it is a bounded FIFO of pointers.
 */
module QueueMethods {
  import opened SSQueue

  // ----- A thread's operation run to its end without interference -----

  lemma {:induction false} EnqStepKeeps(s: State)
    requires Inv(s) && !s.ppc.PIdle?
    ensures Enabled(s, EnqStep) && Inv(Next(s, EnqStep)) && EnqStepsLeft(Next(s, EnqStep)) < EnqStepsLeft(s)
  {
    NeverBlocked(s);
    StepRefines(s, EnqStep);
    StepsLeftFall(s, EnqStep);
  }

  ghost function FinishEnq(s: State): State
    requires Inv(s)
    decreases EnqStepsLeft(s)
  {
    if s.ppc.PIdle? then s
    else
      EnqStepKeeps(s);
      FinishEnq(Next(s, EnqStep))
  }

  lemma {:induction false} DeqStepKeeps(s: State)
    requires Inv(s) && !s.cpc.CIdle?
    ensures Enabled(s, DeqStep) && Inv(Next(s, DeqStep)) && DeqStepsLeft(Next(s, DeqStep)) < DeqStepsLeft(s)
  {
    NeverBlocked(s);
    StepRefines(s, DeqStep);
    StepsLeftFall(s, DeqStep);
  }

  ghost function FinishDeq(s: State): State
    requires Inv(s)
    decreases DeqStepsLeft(s)
  {
    if s.cpc.CIdle? then s
    else
      DeqStepKeeps(s);
      FinishDeq(Next(s, DeqStep))
  }

  /** A call of enq from s, run alone. */
  ghost function EnqAlone(s: State): State
    requires Inv(s) && s.ppc.PIdle?
  {
    NeverBlocked(s);
    StepRefines(s, EnqCall);
    FinishEnq(Next(s, EnqCall))
  }

  /** A call of deq from s, run alone. */
  ghost function DeqAlone(s: State): State
    requires Inv(s) && s.cpc.CIdle?
  {
    StepRefines(s, DeqCall);
    FinishDeq(Next(s, DeqCall))
  }

  /** What an operation leaves: the ring, the thread's own index and pointer, and the result. */
  datatype Effect = Effect(ring: seq<Buffer>, index: nat, pointer: Buffer, ok: bool)

  /** The swap of a pointer with the slot at i, and the index moved on. */
  function SwapEffect(ring: seq<Buffer>, i: nat, pointer: Buffer, next: nat): Effect
    requires i < |ring|
  {
    Effect(ring[i := pointer], next, ring[i], true)
  }

  /** What is still to come from each point of enq. */
  ghost function EnqEffect(s: State): Effect
    requires Inv(s)
  {
    match s.ppc
    case PIdle => Effect(s.ring, s.end, s.p, true)
    case PReturn(ok) => Effect(s.ring, s.end, s.p, ok)
    case PStoreEnd(next) => Effect(s.ring, next, s.p, true)
    case PWriteSlot(next, e, tmp) => Effect(s.ring[e := tmp], next, s.p, true)
    case PReadSlot(next, e) => SwapEffect(s.ring, e, s.p, next)
    case PLoadSlot(next) => SwapEffect(s.ring, s.end, s.p, next)
    case PLoadStart(next) =>
      if next == s.start then Effect(s.ring, s.end, s.p, false) else SwapEffect(s.ring, s.end, s.p, next)
    case PLoadEnd =>
      if Succ(s, s.end) == s.start then Effect(s.ring, s.end, s.p, false)
      else SwapEffect(s.ring, s.end, s.p, Succ(s, s.end))
  }

  lemma {:induction false} EnqStepEffect(s: State)
    requires Inv(s) && !s.ppc.PIdle?
    requires Enabled(s, EnqStep) && Inv(Next(s, EnqStep))
    ensures s.ppc.PReturn? || EnqEffect(Next(s, EnqStep)) == EnqEffect(s)
    ensures Next(s, EnqStep).start == s.start
    ensures s.ppc.PReturn? || (!Next(s, EnqStep).ppc.PIdle? && Next(s, EnqStep).plog.returned == s.plog.returned)
  {
    hide Owned, Queue, Logs, ConsumerOk;
  }

  lemma {:induction false} EnqFinishes(s: State)
    requires Inv(s) && !s.ppc.PIdle?
    ensures var t, e := FinishEnq(s), EnqEffect(s);
      && t.start == s.start && t.ring == e.ring && t.end == e.index && t.p == e.pointer
      && t.plog.returned == s.plog.returned + [e.ok]
    decreases EnqStepsLeft(s)
  {
    EnqStepKeeps(s);
    EnqStepEffect(s);
    var t := Next(s, EnqStep);
    assert FinishEnq(s) == FinishEnq(t);
    if s.ppc.PReturn? {
      assert FinishEnq(t) == t;
    } else {
      hide Inv, Next, EnqEffect;
      EnqFinishes(t);
    }
  }

  /** What is still to come from each point of deq. */
  ghost function DeqEffect(s: State): Effect
    requires Inv(s)
  {
    match s.cpc
    case CIdle => Effect(s.ring, s.start, s.c, true)
    case CReturn(ok) => Effect(s.ring, s.start, s.c, ok)
    case CStoreStart(next) => Effect(s.ring, next, s.c, true)
    case CLoadNext => Effect(s.ring, Succ(s, s.start), s.c, true)
    case CWriteSlot(i, tmp) => Effect(s.ring[i := s.c], Succ(s, s.start), tmp, true)
    case CReadSlot(i) => SwapEffect(s.ring, i, s.c, Succ(s, s.start))
    case CLoadSlot => SwapEffect(s.ring, s.start, s.c, Succ(s, s.start))
    case CLoadEnd(s0) =>
      if s0 == s.end then Effect(s.ring, s.start, s.c, false)
      else SwapEffect(s.ring, s.start, s.c, Succ(s, s.start))
    case CLoadStart =>
      if s.start == s.end then Effect(s.ring, s.start, s.c, false)
      else SwapEffect(s.ring, s.start, s.c, Succ(s, s.start))
  }

  lemma {:induction false} DeqStepEffect(s: State)
    requires Inv(s) && !s.cpc.CIdle?
    requires Enabled(s, DeqStep) && Inv(Next(s, DeqStep))
    ensures s.cpc.CReturn? || DeqEffect(Next(s, DeqStep)) == DeqEffect(s)
    ensures Next(s, DeqStep).end == s.end
    ensures s.cpc.CReturn? || (!Next(s, DeqStep).cpc.CIdle? && Next(s, DeqStep).clog.returned == s.clog.returned)
  {
    hide Owned, Queue, Logs, ProducerOk;
  }

  lemma {:induction false} DeqFinishes(s: State)
    requires Inv(s) && !s.cpc.CIdle?
    ensures var t, e := FinishDeq(s), DeqEffect(s);
      && t.end == s.end && t.ring == e.ring && t.start == e.index && t.c == e.pointer
      && t.clog.returned == s.clog.returned + [e.ok]
    decreases DeqStepsLeft(s)
  {
    DeqStepKeeps(s);
    DeqStepEffect(s);
    var t := Next(s, DeqStep);
    assert FinishDeq(s) == FinishDeq(t);
    if s.cpc.CReturn? {
      assert FinishDeq(t) == t;
    } else {
      hide Inv, Next, DeqEffect;
      DeqFinishes(t);
    }
  }

  // ----- The methods -----

  /** enq as a whole. */
  function Enqueue(ring: seq<Buffer>, start: nat, end: nat, packet: Buffer): Effect
    requires end < |ring|
  {
    var next := (end + 1) % |ring|;
    if next == start then Effect(ring, end, packet, false) else SwapEffect(ring, end, packet, next)
  }

  /** deq as a whole. */
  function Dequeue(ring: seq<Buffer>, start: nat, end: nat, packet: Buffer): Effect
    requires start < |ring|
  {
    if start == end then Effect(ring, start, packet, false) else SwapEffect(ring, start, packet, (start + 1) % |ring|)
  }

  /** From any state between its calls, the producer run alone through enq has that effect. */
  lemma {:induction false} EnqAloneIs(s: State)
    requires Inv(s) && s.ppc.PIdle?
    ensures var t, e := EnqAlone(s), Enqueue(s.ring, s.start, s.end, s.p);
      && t.start == s.start && t.ring == e.ring && t.end == e.index && t.p == e.pointer
      && t.plog.returned == s.plog.returned + [e.ok]
  {
    NeverBlocked(s);
    StepRefines(s, EnqCall);
    EnqFinishes(Next(s, EnqCall));
  }

  /** From any state between its calls, the consumer run alone through deq has that effect. */
  lemma {:induction false} DeqAloneIs(s: State)
    requires Inv(s) && s.cpc.CIdle?
    ensures var t, e := DeqAlone(s), Dequeue(s.ring, s.start, s.end, s.c);
      && t.end == s.end && t.ring == e.ring && t.start == e.index && t.c == e.pointer
      && t.clog.returned == s.clog.returned + [e.ok]
  {
    StepRefines(s, DeqCall);
    DeqFinishes(Next(s, DeqCall));
  }

  /** The pointers from start up to end, round the ring. */
  function Between(ring: seq<Buffer>, start: nat, end: nat): seq<Buffer>
    requires start < |ring| && end < |ring|
  {
    if end >= start then ring[start..end] else ring[start..] + ring[..end]
  }

  lemma {:induction false} SwapKeepsPointers(ring: seq<Buffer>, i: nat, x: Buffer)
    requires i < |ring|
    ensures multiset(ring[i := x]) + multiset{ring[i]} == multiset(ring) + multiset{x}
  {
    assert ring == ring[..i] + [ring[i]] + ring[i + 1..];
    assert ring[i := x] == ring[..i] + [x] + ring[i + 1..];
  }

  lemma {:induction false} EnqueueAppends(ring: seq<Buffer>, start: nat, end: nat, packet: Buffer)
    requires start < |ring| && end < |ring|
    ensures var e := Enqueue(ring, start, end, packet);
      && |e.ring| == |ring| && e.index < |ring|
      && (e.ok <==> |Between(ring, start, end)| < |ring| - 1)
      && Between(e.ring, start, e.index) == Between(ring, start, end) + (if e.ok then [packet] else [])
      && multiset(e.ring) + multiset{e.pointer} == multiset(ring) + multiset{packet}
  {
    SuccIs(|ring|, end);
    SwapKeepsPointers(ring, end, packet);
  }

  lemma {:induction false} BetweenRest(ring: seq<Buffer>, start: nat, next: nat, end: nat, packet: Buffer)
    requires start < |ring| && end < |ring| && start != end && next == (if start + 1 == |ring| then 0 else start + 1)
    ensures Between(ring, start, end) == [ring[start]] + Between(ring[start := packet], next, end)
    ensures Between(ring, start, end) != []
  {
  }

  lemma {:induction false} DequeueTakesFirst(ring: seq<Buffer>, start: nat, end: nat, packet: Buffer)
    requires start < |ring| && end < |ring|
    ensures var e := Dequeue(ring, start, end, packet);
      && |e.ring| == |ring| && e.index < |ring|
      && (e.ok <==> Between(ring, start, end) != [])
      && Between(ring, start, end) == (if e.ok then [e.pointer] else []) + Between(e.ring, e.index, end)
      && multiset(e.ring) + multiset{e.pointer} == multiset(ring) + multiset{packet}
  {
    SuccIs(|ring|, start);
    SwapKeepsPointers(ring, start, packet);
    var next := (start + 1) % |ring|;
    if start != end {
      BetweenRest(ring, start, next, end, packet);
    }
    hide Between;
  }

  class PointerQueue {
    const ring: array<Buffer>
    var start: nat
    var end: nat

    ghost predicate Valid()
      reads this
    {
      start < ring.Length && end < ring.Length
    }

    ghost function Held(): seq<Buffer>
      requires Valid()
      reads this, ring
    {
      Between(ring[..], start, end)
    }

    constructor (ring: array<Buffer>)
      requires ring.Length > 0
      ensures Valid() && this.ring == ring && Held() == []
    {
      this.ring := ring;
      start, end := 0, 0;
    }

    method Deq(packet: Buffer) returns (ok: bool, out: Buffer)
      requires Valid()
      modifies this`start, ring
      ensures Valid()
      ensures Effect(ring[..], start, out, ok) == Dequeue(old(ring[..]), old(start), end, packet)
      ensures ok <==> old(Held()) != []
      ensures old(Held()) == (if ok then [out] else []) + Held()
      ensures multiset(ring[..]) + multiset{out} == old(multiset(ring[..])) + multiset{packet}
    {
      DequeueTakesFirst(ring[..], start, end, packet);
      hide Between;
      if start == end {
        return false, packet;
      }
      out := ring[start];
      ring[start] := packet;
      start := (start + 1) % ring.Length;
      ok := true;
    }

    method Enq(packet: Buffer) returns (ok: bool, out: Buffer)
      requires Valid()
      modifies this`end, ring
      ensures Valid()
      ensures Effect(ring[..], end, out, ok) == Enqueue(old(ring[..]), start, old(end), packet)
      ensures ok <==> |old(Held())| < ring.Length - 1
      ensures Held() == old(Held()) + (if ok then [packet] else [])
      ensures multiset(ring[..]) + multiset{out} == old(multiset(ring[..])) + multiset{packet}
    {
      EnqueueAppends(ring[..], start, end, packet);
      hide Between;
      var next := (end + 1) % ring.Length;
      if next == start {
        return false, packet;
      }
      out := ring[end];
      ring[end] := packet;
      end := next;
      ok := true;
    }
  }
}
