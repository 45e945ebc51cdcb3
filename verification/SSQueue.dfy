/**
 The single-producer single-consumer queue of include/common/kssq.hpp with its clients in
 net/arp.cpp, as two threads whose every load, store and slot access is one step.
 Atomics are sequentially consistent, so a run is any interleaving of the two threads.
 Buffers are named by numbers; `mem` gives the bytes each one holds.
 */
module SSQueue {

  type Buffer = nat
  type Packet = seq<bv8>

  /** Where the producer stands in `enq`. */
  datatype ProducerPc =
    | PIdle                                       // outside enq, free to write its buffer
    | PLoadEnd                                    // next = (end + 1) % size
    | PLoadStart(next: nat)                       // if next == start: full
    | PLoadSlot(next: nat)                        // index of the slot: load end again
    | PReadSlot(next: nat, e: nat)                // swap: packet takes the slot's pointer
    | PWriteSlot(next: nat, e: nat, tmp: Buffer)  // swap: slot takes the old packet pointer
    | PStoreEnd(next: nat)                        // publish
    | PReturn(ok: bool)

  /** Where the consumer stands in `deq`. */
  datatype ConsumerPc =
    | CIdle                                       // outside deq, reading its buffer
    | CLoadStart
    | CLoadEnd(s: nat)                            // if start == end: empty
    | CLoadSlot                                   // index of the slot: load start again
    | CReadSlot(i: nat)                           // swap: remember the slot's pointer
    | CWriteSlot(i: nat, tmp: Buffer)             // swap: slot takes the old packet pointer
    | CLoadNext                                   // load start for the increment
    | CStoreStart(next: nat)                      // release the slot
    | CReturn(ok: bool)

  /** Calls made, results fixed at the linearization step, results returned. */
  datatype Log = Log(calls: nat, fixed: seq<bool>, returned: seq<bool>)

  datatype State = State(
    ring: seq<Buffer>, start: nat, end: nat, mem: map<Buffer, Packet>,
    p: Buffer, ppc: ProducerPc, arg: Packet, plog: Log,
    c: Buffer, cpc: ConsumerPc, holds: bool, clog: Log,
    accepted: seq<Packet>, delivered: seq<Packet>)

  datatype Action =
    | Fill(v: Packet)   // the producer writes its own buffer, whole or in part
    | EnqCall | EnqStep
    | DeqCall | DeqStep

  /** What a step means for the queue as a bounded FIFO. */
  datatype Label = Silent | Enqueued(v: Packet) | FoundFull | Dequeued(v: Packet) | FoundEmpty

  // ----- Steps -----

  ghost predicate Enabled(s: State, a: Action)
  {
    match a
    case Fill(_) => s.ppc.PIdle?
    case EnqCall => s.ppc.PIdle? && s.p in s.mem
    case EnqStep =>
      (!s.ppc.PIdle? && |s.ring| > 0 && (s.ppc.PReadSlot? || s.ppc.PWriteSlot? ==> s.ppc.e < |s.ring|))
    case DeqCall => s.cpc.CIdle?
    case DeqStep =>
      (!s.cpc.CIdle? && |s.ring| > 0 && (s.cpc.CReadSlot? || s.cpc.CWriteSlot? ==> s.cpc.i < |s.ring|)
       && (s.cpc.CStoreStart? ==> s.c in s.mem))
  }

  function Fix(l: Log, ok: bool): Log { l.(fixed := l.fixed + [ok]) }

  function Return(l: Log, ok: bool): Log { l.(returned := l.returned + [ok]) }

  function Produce(s: State): State
    requires Enabled(s, EnqStep)
  {
    match s.ppc
    case PIdle => s
    case PLoadEnd => s.(ppc := PLoadStart((s.end + 1) % |s.ring|))
    case PLoadStart(next) =>
      if next == s.start then s.(ppc := PReturn(false), plog := Fix(s.plog, false))
      else s.(ppc := PLoadSlot(next))
    case PLoadSlot(next) => s.(ppc := PReadSlot(next, s.end))
    case PReadSlot(next, e) => s.(p := s.ring[e], ppc := PWriteSlot(next, e, s.p))
    case PWriteSlot(next, e, tmp) => s.(ring := s.ring[e := tmp], ppc := PStoreEnd(next))
    case PStoreEnd(next) =>
      s.(end := next, ppc := PReturn(true), plog := Fix(s.plog, true), accepted := s.accepted + [s.arg])
    case PReturn(ok) => s.(ppc := PIdle, plog := Return(s.plog, ok))
  }

  function Consume(s: State): State
    requires Enabled(s, DeqStep)
  {
    match s.cpc
    case CIdle => s
    case CLoadStart => s.(cpc := CLoadEnd(s.start))
    case CLoadEnd(s0) =>
      if s0 == s.end then s.(cpc := CReturn(false), clog := Fix(s.clog, false))
      else s.(cpc := CLoadSlot)
    case CLoadSlot => s.(cpc := CReadSlot(s.start))
    case CReadSlot(i) => s.(cpc := CWriteSlot(i, s.ring[i]))
    case CWriteSlot(i, tmp) => s.(ring := s.ring[i := s.c], c := tmp, cpc := CLoadNext, holds := false)
    case CLoadNext => s.(cpc := CStoreStart((s.start + 1) % |s.ring|))
    case CStoreStart(next) =>
      s.(start := next, cpc := CReturn(true), clog := Fix(s.clog, true), holds := true,
         delivered := s.delivered + [s.mem[s.c]])
    case CReturn(ok) => s.(cpc := CIdle, clog := Return(s.clog, ok))
  }

  function Next(s: State, a: Action): State
    requires Enabled(s, a)
  {
    match a
    case Fill(v) => s.(mem := s.mem[s.p := v])
    case EnqCall => s.(ppc := PLoadEnd, arg := s.mem[s.p], plog := s.plog.(calls := s.plog.calls + 1))
    case EnqStep => Produce(s)
    case DeqCall => s.(cpc := CLoadStart, clog := s.clog.(calls := s.clog.calls + 1))
    case DeqStep => Consume(s)
  }

  function LabelOf(s: State, a: Action): Label
    requires Enabled(s, a)
  {
    if a.EnqStep? && s.ppc.PStoreEnd? then Enqueued(s.arg)
    else if a.EnqStep? && s.ppc.PLoadStart? && s.ppc.next == s.start then FoundFull
    else if a.DeqStep? && s.cpc.CStoreStart? then Dequeued(s.mem[s.c])
    else if a.DeqStep? && s.cpc.CLoadEnd? && s.cpc.s == s.end then FoundEmpty
    else Silent
  }

  // ----- The queue the state represents -----

  /** Number of occupied slots. */
  function Len(s: State): int
  {
    if s.end >= s.start then s.end - s.start else s.end + |s.ring| - s.start
  }

  function At(n: nat, i: nat, k: nat): int { if i + k < n then i + k else i + k - n }

  /** Between the consumer's slot write and its release the element is in its private pointer. */
  predicate Swapped(s: State) { s.cpc.CLoadNext? || s.cpc.CStoreStart? }

  ghost predicate Shaped(s: State)
  {
    |s.ring| > 0 && s.start < |s.ring| && s.end < |s.ring|
  }

  function Slot(s: State, i: nat): Buffer
    requires i < |s.ring|
  {
    if Swapped(s) && i == s.start then s.c else s.ring[i]
  }

  /** The ring with the producer's half-done swap completed. */
  function Settled(s: State): seq<Buffer>
  {
    if s.ppc.PWriteSlot? && s.ppc.e < |s.ring| then s.ring[s.ppc.e := s.ppc.tmp] else s.ring
  }

  /** Every buffer of the system: the ring and the two private pointers. */
  function Buffers(s: State): seq<Buffer> { Settled(s) + [s.p, s.c] }

  ghost predicate Distinct(l: seq<Buffer>)
  {
    forall j, k :: 0 <= j < k < |l| ==> l[j] != l[k]
  }

  ghost predicate Owned(s: State)
  {
    Distinct(Buffers(s)) && forall k :: 0 <= k < |Buffers(s)| ==> Buffers(s)[k] in s.mem
  }

  function Bytes(s: State, b: Buffer): Packet { if b in s.mem then s.mem[b] else [] }

  /** The packet at position k of the queue. */
  function Element(s: State, k: nat): Packet
    requires Shaped(s) && k < Len(s)
  {
    Bytes(s, Slot(s, At(|s.ring|, s.start, k)))
  }

  ghost function Queue(s: State): (q: seq<Packet>)
    requires Shaped(s)
    ensures |q| == Len(s) && forall k :: 0 <= k < |q| ==> q[k] == Element(s, k)
  {
    seq(Len(s), k requires 0 <= k < Len(s) => Element(s, k))
  }

  // ----- The invariant -----

  function Succ(s: State, i: nat): nat
    requires |s.ring| > 0
  {
    (i + 1) % |s.ring|
  }

  /** What the producer knows at each point of enq; nothing the consumer does falsifies it. */
  ghost predicate ProducerOk(s: State)
    requires Shaped(s)
  {
    match s.ppc
    case PIdle => true
    case PReturn(_) => true
    case PLoadEnd => Bytes(s, s.p) == s.arg
    case PLoadStart(next) => Bytes(s, s.p) == s.arg && next == Succ(s, s.end)
    case PLoadSlot(next) => Bytes(s, s.p) == s.arg && next == Succ(s, s.end) && Len(s) + 1 < |s.ring|
    case PReadSlot(next, e) =>
      (Bytes(s, s.p) == s.arg && next == Succ(s, s.end) && Len(s) + 1 < |s.ring| && e == s.end)
    case PWriteSlot(next, e, tmp) =>
      (Bytes(s, tmp) == s.arg && next == Succ(s, s.end) && Len(s) + 1 < |s.ring| && e == s.end && s.ring[e] == s.p)
    case PStoreEnd(next) =>
      (Bytes(s, s.ring[s.end]) == s.arg && next == Succ(s, s.end) && Len(s) + 1 < |s.ring|)
  }

  /** What the consumer knows at each point of deq; nothing the producer does falsifies it. */
  ghost predicate ConsumerOk(s: State)
    requires Shaped(s)
  {
    && (s.holds <==> s.delivered != [] && !Swapped(s))
    && (s.holds ==> Bytes(s, s.c) == s.delivered[|s.delivered| - 1])
    && match s.cpc
       case CIdle => true
       case CReturn(ok) => ok ==> s.holds
       case CLoadStart => true
       case CLoadEnd(s0) => s0 == s.start
       case CLoadSlot => Len(s) > 0
       case CReadSlot(i) => Len(s) > 0 && i == s.start
       case CWriteSlot(i, tmp) => Len(s) > 0 && i == s.start && tmp == s.ring[i]
       case CLoadNext => Len(s) > 0 && !s.holds
       case CStoreStart(next) => Len(s) > 0 && !s.holds && next == Succ(s, s.start)
  }

  /** A call's result is fixed exactly once, between the call and the return. */
  ghost predicate Logged(l: Log, idle: bool, returning: bool, ok: bool)
  {
    && l.fixed == l.returned + (if returning then [ok] else [])
    && l.calls == |l.returned| + (if idle then 0 else 1)
  }

  ghost predicate Logs(s: State)
  {
    && Logged(s.plog, s.ppc.PIdle?, s.ppc.PReturn?, s.ppc.PReturn? && s.ppc.ok)
    && Logged(s.clog, s.cpc.CIdle?, s.cpc.CReturn?, s.cpc.CReturn? && s.cpc.ok)
  }

  ghost predicate Inv(s: State)
  {
    && Shaped(s) && Len(s) < |s.ring| && Owned(s)
    && ProducerOk(s) && ConsumerOk(s) && Logs(s)
    && s.delivered + Queue(s) == s.accepted
  }

  ghost predicate Init(s: State)
  {
    && |s.ring| > 0 && s.start == 0 && s.end == 0
    && s.ppc.PIdle? && s.cpc.CIdle? && !s.holds
    && s.plog == Log(0, [], []) && s.clog == Log(0, [], [])
    && s.accepted == [] && s.delivered == [] && Owned(s)
  }

  /** One step of a FIFO of the given capacity. */
  ghost predicate FifoStep(capacity: int, q: seq<Packet>, l: Label, r: seq<Packet>)
  {
    match l
    case Silent => r == q
    case Enqueued(v) => |q| < capacity && r == q + [v]
    case FoundFull => |q| == capacity && r == q
    case Dequeued(v) => q == [v] + r
    case FoundEmpty => q == [] && r == q
  }

  /** What every step keeps: the invariant, the FIFO behaviour, and the set of buffers. */
  ghost predicate Good(s: State, t: State, l: Label)
    requires Shaped(s) && Shaped(t)
  {
    && Inv(t) && |t.ring| == |s.ring|
    && FifoStep(|s.ring| - 1, Queue(s), l, Queue(t))
    && multiset(Buffers(t)) == multiset(Buffers(s))
  }

  // ----- Every step is good -----

  lemma {:induction false} SuccIs(n: nat, i: nat)
    requires i < n
    ensures (i + 1) % n == (if i + 1 == n then 0 else i + 1)
  {
    if i + 1 == n {
    } else {
      assert (i + 1) % n == i + 1;
    }
  }

  lemma {:induction false} QueueSame(s: State, t: State)
    requires Shaped(s) && Shaped(t)
    requires t.ring == s.ring && t.start == s.start && t.end == s.end && t.mem == s.mem
    requires Swapped(t) == Swapped(s) && (Swapped(s) ==> t.c == s.c)
    ensures Queue(t) == Queue(s)
  {
    forall k | 0 <= k < Len(s)
      ensures Element(t, k) == Element(s, k)
    {
    }
  }

  /** A change of program counters and results alone. */
  ghost predicate Unmoved(s: State, t: State)
  {
    && t.ring == s.ring && t.start == s.start && t.end == s.end && t.mem == s.mem
    && t.p == s.p && t.c == s.c && Settled(t) == Settled(s) && Swapped(t) == Swapped(s)
    && t.accepted == s.accepted && t.delivered == s.delivered
  }

  lemma {:induction false} UnmovedInv(s: State, t: State)
    requires Inv(s) && Unmoved(s, t)
    requires ProducerOk(t) && ConsumerOk(t) && Logs(t)
    ensures Inv(t) && Queue(t) == Queue(s) && Buffers(t) == Buffers(s)
  {
    QueueSame(s, t);
    assert Len(t) == Len(s);
    assert Buffers(t) == Buffers(s);
    assert Owned(t);
    hide ProducerOk, ConsumerOk, Logs, Element, Owned, Len;
  }

  /** When the check for a full or an empty queue says so, it is. */
  lemma {:induction false} ChecksAreExact(s: State)
    requires Shaped(s)
    ensures Succ(s, s.end) == s.start <==> Len(s) == |s.ring| - 1
    ensures s.start == s.end <==> Len(s) == 0
  {
    SuccIs(|s.ring|, s.end);
  }

  lemma {:induction false} ProducerLogsKept(s: State, a: Action)
    requires Enabled(s, a) && Logs(s) && (a.EnqCall? || a.EnqStep?)
    ensures Logs(Next(s, a))
  {
  }

  lemma {:induction false} ConsumerLogsKept(s: State, a: Action)
    requires Enabled(s, a) && Logs(s) && (a.DeqCall? || a.DeqStep?)
    ensures Logs(Next(s, a))
  {
  }

  lemma {:induction false} QuietProducerOk(s: State, a: Action)
    requires Inv(s) && Enabled(s, a) && (a.EnqCall? || a.EnqStep?)
    requires a.EnqStep? ==> !s.ppc.PReadSlot? && !s.ppc.PWriteSlot? && !s.ppc.PStoreEnd?
    ensures Shaped(Next(s, a)) && Unmoved(s, Next(s, a)) && ProducerOk(Next(s, a)) && ConsumerOk(Next(s, a))
    ensures LabelOf(s, a).Silent? || (LabelOf(s, a).FoundFull? && Len(s) == |s.ring| - 1)
  {
    ChecksAreExact(s);
    hide Logs, Queue, Owned, Succ;
  }

  /** A producer step that touches only the producer's place and results. */
  lemma {:induction false} QuietProducer(s: State, a: Action)
    requires Inv(s) && Enabled(s, a) && (a.EnqCall? || a.EnqStep?)
    requires a.EnqStep? ==> !s.ppc.PReadSlot? && !s.ppc.PWriteSlot? && !s.ppc.PStoreEnd?
    ensures Shaped(Next(s, a)) && Good(s, Next(s, a), LabelOf(s, a))
  {
    ProducerLogsKept(s, a);
    QuietProducerOk(s, a);
    UnmovedInv(s, Next(s, a));
    hide Inv, ProducerOk, ConsumerOk, Logs, Len, Next, LabelOf;
  }

  lemma {:induction false} ProducerFrame(s: State, t: State)
    requires Shaped(s) && ProducerOk(s) && Unmoved(s, t) && t.ppc == s.ppc && t.arg == s.arg
    ensures Shaped(t) && ProducerOk(t)
  {
  }

  lemma {:induction false} QuietConsumerOk(s: State, a: Action)
    requires Inv(s) && Enabled(s, a) && (a.DeqCall? || a.DeqStep?)
    requires a.DeqStep? ==> !s.cpc.CWriteSlot? && !s.cpc.CStoreStart?
    ensures Shaped(Next(s, a)) && Unmoved(s, Next(s, a)) && ProducerOk(Next(s, a)) && ConsumerOk(Next(s, a))
  {
    ChecksAreExact(s);
    hide Logs, Queue, Owned, Succ, ProducerOk, Bytes;
    assert Unmoved(s, Next(s, a));
    ProducerFrame(s, Next(s, a));
  }

  lemma {:induction false} QuietConsumerLabel(s: State, a: Action)
    requires Inv(s) && Enabled(s, a) && (a.DeqCall? || a.DeqStep?)
    requires a.DeqStep? ==> !s.cpc.CWriteSlot? && !s.cpc.CStoreStart?
    ensures LabelOf(s, a).Silent? || (LabelOf(s, a).FoundEmpty? && Len(s) == 0)
  {
    ChecksAreExact(s);
    hide Logs, Queue, Owned, ProducerOk;
  }

  /** A consumer step that touches only the consumer's place and results. */
  lemma {:induction false} QuietConsumer(s: State, a: Action)
    requires Inv(s) && Enabled(s, a) && (a.DeqCall? || a.DeqStep?)
    requires a.DeqStep? ==> !s.cpc.CWriteSlot? && !s.cpc.CStoreStart?
    ensures Shaped(Next(s, a)) && Good(s, Next(s, a), LabelOf(s, a))
  {
    ConsumerLogsKept(s, a);
    QuietConsumerOk(s, a);
    QuietConsumerLabel(s, a);
    UnmovedInv(s, Next(s, a));
    hide Inv, ProducerOk, ConsumerOk, Logs, Len, Next, LabelOf;
  }

  /** The buffers as one sequence: ring slots first, then the producer's and the consumer's. */
  lemma {:induction false} BuffersAt(s: State, i: nat)
    requires Owned(s) && i < |s.ring|
    ensures |Buffers(s)| == |s.ring| + 2
    ensures Settled(s)[i] in s.mem && Settled(s)[i] != s.p && Settled(s)[i] != s.c
    ensures s.p in s.mem && s.c in s.mem && s.p != s.c
  {
    var b, n := Buffers(s), |s.ring|;
    assert b[i] == Settled(s)[i] && b[n] == s.p && b[n + 1] == s.c;
  }

  lemma {:induction false} FillStep(s: State, v: Packet)
    requires Inv(s) && Enabled(s, Fill(v))
    ensures Shaped(Next(s, Fill(v))) && Good(s, Next(s, Fill(v)), Silent)
  {
    var t := Next(s, Fill(v));
    forall k | 0 <= k < Len(s)
      ensures Element(t, k) == Element(s, k)
    {
      BuffersAt(s, At(|s.ring|, s.start, k));
    }
    BuffersAt(s, 0);
    assert Queue(t) == Queue(s);
  }

  /** Exchanging two entries keeps a sequence distinct and its multiset. */
  lemma {:induction false} Exchange(l: seq<Buffer>, m: seq<Buffer>, i: nat, j: nat)
    requires i < j < |l| == |m| && m == l[i := l[j]][j := l[i]]
    ensures Distinct(l) ==> Distinct(m)
    ensures multiset(m) == multiset(l)
  {
  }

  lemma {:induction false} ReadSlotBuffers(s: State)
    requires Inv(s) && Enabled(s, EnqStep) && s.ppc.PReadSlot?
    ensures multiset(Buffers(Produce(s))) == multiset(Buffers(s)) && Owned(Produce(s))
  {
    hide Queue, Logs, ConsumerOk;
    var t, e, n := Produce(s), s.ppc.e, |s.ring|;
    assert Buffers(t) == Buffers(s)[e := Buffers(s)[n]][n := Buffers(s)[e]];
    Exchange(Buffers(s), Buffers(t), e, n);
  }

  lemma {:induction false} ReadSlotStep(s: State)
    requires Inv(s) && Enabled(s, EnqStep) && s.ppc.PReadSlot?
    ensures Shaped(Produce(s)) && Good(s, Produce(s), Silent)
  {
    hide Queue, Owned, Buffers, Element, Slot, At;
    QueueSame(s, Produce(s));
    ReadSlotBuffers(s);
  }

  lemma {:induction false} WriteSlotBuffers(s: State)
    requires Inv(s) && Enabled(s, EnqStep) && s.ppc.PWriteSlot?
    ensures Buffers(Produce(s)) == Buffers(s) && Owned(Produce(s))
  {
    hide Queue, Logs, ConsumerOk;
    assert Buffers(Produce(s)) == Buffers(s);
  }

  lemma {:induction false} WriteSlotQueue(s: State)
    requires Inv(s) && Enabled(s, EnqStep) && s.ppc.PWriteSlot?
    ensures Shaped(Produce(s)) && Queue(Produce(s)) == Queue(s)
  {
    hide Logs, ConsumerOk, Distinct;
    var t := Produce(s);
    forall k | 0 <= k < Len(s)
      ensures Element(t, k) == Element(s, k)
    {
      assert At(|s.ring|, s.start, k) != s.end;
    }
  }

  lemma {:induction false} WriteSlotStep(s: State)
    requires Inv(s) && Enabled(s, EnqStep) && s.ppc.PWriteSlot?
    ensures Shaped(Produce(s)) && Good(s, Produce(s), Silent)
  {
    hide Element, Slot, At, Queue, Owned, Buffers;
    WriteSlotBuffers(s);
    WriteSlotQueue(s);
  }

  lemma {:induction false} StoreEndQueue(s: State)
    requires Inv(s) && Enabled(s, EnqStep) && s.ppc.PStoreEnd?
    ensures Shaped(Produce(s)) && Queue(Produce(s)) == Queue(s) + [s.arg]
  {
    var t := Produce(s);
    SuccIs(|s.ring|, s.end);
    assert Len(t) == Len(s) + 1;
    forall k | 0 <= k < Len(t)
      ensures Element(t, k) == (Queue(s) + [s.arg])[k]
    {
      if k == Len(s) {
        assert At(|s.ring|, s.start, k) == s.end;
      }
    }
  }

  lemma {:induction false} StoreEndStep(s: State)
    requires Inv(s) && Enabled(s, EnqStep) && s.ppc.PStoreEnd?
    ensures Shaped(Produce(s)) && Good(s, Produce(s), Enqueued(s.arg))
  {
    SuccIs(|s.ring|, s.end);
    StoreEndQueue(s);
    assert Buffers(Produce(s)) == Buffers(s);
    assert s.delivered + (Queue(s) + [s.arg]) == (s.delivered + Queue(s)) + [s.arg];
    hide Element, Slot, At;
  }

  lemma {:induction false} ConsumerSwapQueue(s: State)
    requires Inv(s) && Enabled(s, DeqStep) && s.cpc.CWriteSlot?
    ensures Shaped(Consume(s)) && Queue(Consume(s)) == Queue(s)
  {
    var t := Consume(s);
    forall k | 0 <= k < Len(s)
      ensures Element(t, k) == Element(s, k)
    {
    }
  }

  lemma {:induction false} ConsumerSwapBuffers(s: State)
    requires Inv(s) && Enabled(s, DeqStep) && s.cpc.CWriteSlot?
    ensures multiset(Buffers(Consume(s))) == multiset(Buffers(s)) && Owned(Consume(s))
  {
    var t, i, n := Consume(s), s.cpc.i, |s.ring|;
    hide Queue, Logs;
    assert i == s.start != s.end;
    assert Buffers(t) == Buffers(s)[i := Buffers(s)[n + 1]][n + 1 := Buffers(s)[i]];
    Exchange(Buffers(s), Buffers(t), i, n + 1);
  }

  lemma {:induction false} ConsumerSwapStep(s: State)
    requires Inv(s) && Enabled(s, DeqStep) && s.cpc.CWriteSlot?
    ensures Shaped(Consume(s)) && Good(s, Consume(s), Silent)
  {
    ConsumerSwapQueue(s);
    ConsumerSwapBuffers(s);
    hide Element, Slot, At, Distinct, Queue, Succ, Buffers;
  }

  lemma {:induction false} StoreStartQueue(s: State)
    requires Inv(s) && Enabled(s, DeqStep) && s.cpc.CStoreStart?
    ensures Shaped(Consume(s)) && Queue(s) == [s.mem[s.c]] + Queue(Consume(s))
  {
    var t := Consume(s);
    SuccIs(|s.ring|, s.start);
    assert Len(t) == Len(s) - 1;
    assert Element(s, 0) == s.mem[s.c];
    forall k | 0 <= k < Len(t)
      ensures Element(t, k) == Element(s, k + 1)
    {
    }
  }

  lemma {:induction false} SameOwned(s: State, t: State)
    requires Owned(s) && Buffers(t) == Buffers(s) && t.mem == s.mem
    ensures Owned(t)
  {
  }

  lemma {:induction false} StoreStartStep(s: State)
    requires Inv(s) && Enabled(s, DeqStep) && s.cpc.CStoreStart?
    ensures Shaped(Consume(s)) && Good(s, Consume(s), Dequeued(s.mem[s.c]))
  {
    hide Element, Slot, At, Queue, Owned;
    var t := Consume(s);
    SuccIs(|s.ring|, s.start);
    StoreStartQueue(s);
    assert Buffers(t) == Buffers(s) && t.mem == s.mem;
    SameOwned(s, t);
    assert s.delivered + ([s.mem[s.c]] + Queue(t)) == (s.delivered + [s.mem[s.c]]) + Queue(t);
  }

  /** Every enabled step of either thread keeps the invariant and is a step of the FIFO. */
  lemma {:induction false} StepRefines(s: State, a: Action)
    requires Inv(s) && Enabled(s, a)
    ensures Shaped(Next(s, a)) && Good(s, Next(s, a), LabelOf(s, a))
  {
    hide Inv, Good;
    match a {
      case Fill(v) => FillStep(s, v);
      case EnqStep =>
        if s.ppc.PReadSlot? { ReadSlotStep(s); }
        else if s.ppc.PWriteSlot? { WriteSlotStep(s); }
        else if s.ppc.PStoreEnd? { StoreEndStep(s); }
        else { QuietProducer(s, a); }
      case EnqCall => QuietProducer(s, a);
      case DeqCall => QuietConsumer(s, a);
      case DeqStep =>
        if s.cpc.CWriteSlot? { ConsumerSwapStep(s); }
        else if s.cpc.CStoreStart? { StoreStartStep(s); }
        else { QuietConsumer(s, a); }
    }
  }

  // ----- Whole runs -----

  /** A thread inside an operation can always take its next step: no step waits for the other thread. */
  lemma {:induction false} NeverBlocked(s: State)
    requires Inv(s)
    ensures !s.ppc.PIdle? ==> Enabled(s, EnqStep)
    ensures !s.cpc.CIdle? ==> Enabled(s, DeqStep)
    ensures s.ppc.PIdle? ==> Enabled(s, EnqCall)
  {
    BuffersAt(s, 0);
  }

  ghost predicate Legal(s: State, acts: seq<Action>)
    decreases |acts|
  {
    acts == [] || (Enabled(s, acts[0]) && Legal(Next(s, acts[0]), acts[1..]))
  }

  ghost function Run(s: State, acts: seq<Action>): State
    requires Legal(s, acts)
    decreases |acts|
  {
    if acts == [] then s else Run(Next(s, acts[0]), acts[1..])
  }

  ghost function Labels(s: State, acts: seq<Action>): seq<Label>
    requires Legal(s, acts)
    decreases |acts|
  {
    if acts == [] then [] else [LabelOf(s, acts[0])] + Labels(Next(s, acts[0]), acts[1..])
  }

  /** A sequence of labels takes a FIFO from content q to content r. */
  ghost predicate FifoHistory(capacity: int, q: seq<Packet>, ls: seq<Label>, r: seq<Packet>)
    decreases |ls|
  {
    if ls == [] then r == q
    else exists m :: FifoStep(capacity, q, ls[0], m) && FifoHistory(capacity, m, ls[1..], r)
  }

  lemma {:induction false} HistoryCons(capacity: int, q: seq<Packet>, l: Label, m: seq<Packet>, ls: seq<Label>,
                                       r: seq<Packet>)
    requires FifoStep(capacity, q, l, m) && FifoHistory(capacity, m, ls, r)
    ensures FifoHistory(capacity, q, [l] + ls, r)
  {
    assert ([l] + ls)[1..] == ls;
  }

  lemma {:induction false} InitGood(s: State)
    requires Init(s)
    ensures Inv(s) && Queue(s) == []
  {
  }

  /**
   The steps that lead from s to t, read at their linearization points, are the history of a
   FIFO of capacity size - 1, and no buffer is lost or shared.
   */
  ghost predicate Explains(s: State, ls: seq<Label>, t: State)
  {
    && Shaped(s) && Inv(t) && |t.ring| == |s.ring|
    && FifoHistory(|s.ring| - 1, Queue(s), ls, Queue(t))
    && multiset(Buffers(t)) == multiset(Buffers(s))
  }

  lemma {:induction false} InvShaped(s: State)
    requires Inv(s)
    ensures Shaped(s)
  {
  }

  lemma {:induction false} ExplainsCons(s: State, l: Label, m: State, ls: seq<Label>, t: State)
    requires Shaped(s) && Shaped(m) && Good(s, m, l) && Explains(m, ls, t)
    ensures Explains(s, [l] + ls, t)
  {
    hide FifoStep, FifoHistory, Buffers, Queue, Inv, Shaped;
    InvShaped(t);
    HistoryCons(|s.ring| - 1, Queue(s), l, Queue(m), ls, Queue(t));
  }

  ghost predicate Explained(s: State, acts: seq<Action>)
    requires Legal(s, acts)
  {
    Explains(s, Labels(s, acts), Run(s, acts))
  }

  lemma {:induction false} GoodInv(s: State, t: State, l: Label)
    requires Shaped(s) && Shaped(t) && Good(s, t, l)
    ensures Inv(t)
  {
  }

  /** Every run of every interleaving is explained by the bounded FIFO. */
  lemma {:induction false} Linearizable(s: State, acts: seq<Action>)
    requires Inv(s) && Legal(s, acts)
    ensures Explained(s, acts)
    decreases |acts|
  {
    if acts == [] { return; }
    InvShaped(s);
    StepRefines(s, acts[0]);
    hide Explains, Good, Next, LabelOf, Queue, Buffers, Enabled, Inv, Shaped;
    var m := Next(s, acts[0]);
    assert Inv(m) by { GoodInv(s, m, LabelOf(s, acts[0])); }
    Linearizable(m, acts[1..]);
    ExplainsCons(s, LabelOf(s, acts[0]), m, Labels(m, acts[1..]), Run(m, acts[1..]));
  }

  /**
   From the initial state, at every point of every run: what was delivered is a prefix of
   what was accepted, at most size - 1 packets are in between, and from its first packet on,
   except between the swap and the release of a slot, the consumer's buffer holds the bytes
   its last packet had when it was accepted.
   */
  lemma {:induction false} DeliveredIsPrefix(s: State, acts: seq<Action>)
    requires Init(s) && Legal(s, acts)
    ensures var t := Run(s, acts);
      && t.delivered <= t.accepted
      && |t.accepted| - |t.delivered| <= |s.ring| - 1
      && (t.delivered != [] && !Swapped(t) ==> t.c in t.mem && t.mem[t.c] == t.accepted[|t.delivered| - 1])
      && Distinct(Buffers(t)) && multiset(Buffers(t)) == multiset(Buffers(s))
  {
    InitGood(s);
    Linearizable(s, acts);
    var t := Run(s, acts);
    BuffersAt(t, 0);
    assert t.delivered <= t.delivered + Queue(t);
  }

  /** The result of enq fixed at a linearization point, if it is one. */
  function EnqResult(l: Label): seq<bool>
  {
    if l.Enqueued? then [true] else if l.FoundFull? then [false] else []
  }

  /** The result of deq fixed at a linearization point, if it is one. */
  function DeqResult(l: Label): seq<bool>
  {
    if l.Dequeued? then [true] else if l.FoundEmpty? then [false] else []
  }

  function EnqResults(ls: seq<Label>): seq<bool>
  {
    if ls == [] then [] else EnqResult(ls[0]) + EnqResults(ls[1..])
  }

  function DeqResults(ls: seq<Label>): seq<bool>
  {
    if ls == [] then [] else DeqResult(ls[0]) + DeqResults(ls[1..])
  }

  lemma {:induction false} StepFixesResult(s: State, a: Action)
    requires Enabled(s, a)
    ensures Next(s, a).plog.fixed == s.plog.fixed + EnqResult(LabelOf(s, a))
    ensures Next(s, a).clog.fixed == s.clog.fixed + DeqResult(LabelOf(s, a))
  {
  }

  lemma {:induction false} ResultsCons(f: seq<bool>, g: seq<bool>, l: Label, ls: seq<Label>)
    ensures (f + EnqResult(l)) + EnqResults(ls) == f + EnqResults([l] + ls)
    ensures (g + DeqResult(l)) + DeqResults(ls) == g + DeqResults([l] + ls)
  {
    assert ([l] + ls)[1..] == ls;
  }

  ghost predicate FixedAs(s: State, ls: seq<Label>, t: State)
  {
    && t.plog.fixed == s.plog.fixed + EnqResults(ls)
    && t.clog.fixed == s.clog.fixed + DeqResults(ls)
  }

  lemma {:induction false} FixedCons(s: State, a: Action, ls: seq<Label>, t: State)
    requires Enabled(s, a) && FixedAs(Next(s, a), ls, t)
    ensures FixedAs(s, [LabelOf(s, a)] + ls, t)
  {
    StepFixesResult(s, a);
    hide Next, LabelOf, Enabled, EnqResult, DeqResult, EnqResults, DeqResults;
    ResultsCons(s.plog.fixed, s.clog.fixed, LabelOf(s, a), ls);
  }

  /** Results are fixed exactly at the labelled steps: true at the publishing store, false at the failing load. */
  lemma {:induction false} ResultsAreLabels(s: State, acts: seq<Action>)
    requires Legal(s, acts)
    ensures FixedAs(s, Labels(s, acts), Run(s, acts))
    decreases |acts|
  {
    if acts == [] { return; }
    hide Next, LabelOf, Enabled, FixedAs;
    var m := Next(s, acts[0]);
    ResultsAreLabels(m, acts[1..]);
    FixedCons(s, acts[0], Labels(m, acts[1..]), Run(m, acts[1..]));
  }

  lemma {:induction false} FixedBetween(s: State)
    requires Inv(s)
    ensures s.plog.returned <= s.plog.fixed && |s.plog.fixed| <= s.plog.calls <= |s.plog.returned| + 1
    ensures s.clog.returned <= s.clog.fixed && |s.clog.fixed| <= s.clog.calls <= |s.clog.returned| + 1
  {
    hide Queue, Owned, ProducerOk, ConsumerOk;
  }

  /** Each call's result is the one fixed at its linearization point, between the call and the return. */
  lemma {:induction false} ResultsAreLinearized(s: State, acts: seq<Action>)
    requires Init(s) && Legal(s, acts)
    ensures var t, ls := Run(s, acts), Labels(s, acts);
      && t.plog.returned <= EnqResults(ls) && |EnqResults(ls)| <= t.plog.calls <= |t.plog.returned| + 1
      && t.clog.returned <= DeqResults(ls) && |DeqResults(ls)| <= t.clog.calls <= |t.clog.returned| + 1
  {
    InitGood(s);
    Linearizable(s, acts);
    ResultsAreLabels(s, acts);
    hide Inv, Owned, Queue, FifoHistory, Run, Labels, Legal, EnqResults, DeqResults;
    FixedBetween(Run(s, acts));
  }

  // ----- Wait freedom -----

  /** Own steps left until the operation returns. */
  function EnqStepsLeft(s: State): nat
  {
    match s.ppc
    case PIdle => 0 case PReturn(_) => 1 case PStoreEnd(_) => 2 case PWriteSlot(_, _, _) => 3
    case PReadSlot(_, _) => 4 case PLoadSlot(_) => 5 case PLoadStart(_) => 6 case PLoadEnd => 7
  }

  function DeqStepsLeft(s: State): nat
  {
    match s.cpc
    case CIdle => 0 case CReturn(_) => 1 case CStoreStart(_) => 2 case CLoadNext => 3 case CWriteSlot(_, _) => 4
    case CReadSlot(_) => 5 case CLoadSlot => 6 case CLoadEnd(_) => 7 case CLoadStart => 8
  }

  ghost function CountSteps(acts: seq<Action>, a: Action): nat
  {
    if acts == [] then 0 else (if acts[0] == a then 1 else 0) + CountSteps(acts[1..], a)
  }

  lemma {:induction false} StepsLeftFall(s: State, a: Action)
    requires Enabled(s, a)
    ensures EnqStepsLeft(s) <= 7 && DeqStepsLeft(s) <= 8
    ensures !a.EnqCall? ==> EnqStepsLeft(Next(s, a)) + (if a.EnqStep? then 1 else 0) <= EnqStepsLeft(s)
    ensures !a.DeqCall? ==> DeqStepsLeft(Next(s, a)) + (if a.DeqStep? then 1 else 0) <= DeqStepsLeft(s)
  {
  }

  /** An operation returns within its own bounded number of steps, whatever the other thread does. */
  lemma {:induction false} WaitFree(s: State, acts: seq<Action>)
    requires Legal(s, acts)
    ensures EnqCall !in acts ==>
      EnqStepsLeft(Run(s, acts)) + CountSteps(acts, EnqStep) <= EnqStepsLeft(s)
    ensures DeqCall !in acts ==>
      DeqStepsLeft(Run(s, acts)) + CountSteps(acts, DeqStep) <= DeqStepsLeft(s)
    ensures EnqStepsLeft(s) <= 7 && DeqStepsLeft(s) <= 8
    decreases |acts|
  {
    if acts != [] {
      StepsLeftFall(s, acts[0]);
      hide Next, EnqStepsLeft, DeqStepsLeft, Enabled;
      WaitFree(Next(s, acts[0]), acts[1..]);
    }
  }
}
