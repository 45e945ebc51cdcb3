/** The process table and the round-robin scheduler of process.cpp. */
module Scheduler {

  const MAX_PROCESS := 1024

  datatype ProcessState = Wait | Running

  datatype Slot = Empty | Slot(id: nat, state: ProcessState)

  /** The pid after cur in cyclic order among 1 .. next-1. */
  function Successor(cur: nat, next: nat): nat { if cur + 1 < next then cur + 1 else 1 }

  /** The slots schedule looks at: the next pid's, or past the last pid the empty one and the first. */
  function Scan(cur: nat, next: nat): seq<nat>
  {
    if cur + 1 < next then [cur + 1] else [next, 1]
  }

  ghost predicate InTable(slots: seq<nat>)
  {
    forall k :: 0 <= k < |slots| ==> slots[k] < MAX_PROCESS
  }

  class ProcessTable {
    var currentPid: nat
    var nextPid: nat
    const processes: array<Slot>

    /** Pids 1 .. nextPid-1 are taken, all others are free, and only the current one may be running. */
    ghost predicate Valid()
      reads this, processes
    {
      && processes.Length == MAX_PROCESS
      && 1 <= currentPid < nextPid <= MAX_PROCESS
      && (forall i :: 0 <= i < MAX_PROCESS ==> (processes[i].Slot? <==> 1 <= i < nextPid))
      && (forall i :: 1 <= i < nextPid ==> processes[i].id == i)
      && (forall i :: 1 <= i < nextPid && i != currentPid ==> processes[i].state == Wait)
    }

    /** process_init: an empty table, then the main process. */
    constructor ()
      ensures Valid() && currentPid == 1 && nextPid == 2 && fresh(processes)
      ensures processes[1].state == Wait
    {
      processes := new Slot[MAX_PROCESS](_ => Empty);
      nextPid := 1;
      currentPid := 1;
      new;
      var pid := nextPid;
      nextPid := nextPid + 1;
      processes[pid] := Slot(pid, Wait);
    }

    /**
     create_process. With every pid taken the code goes on to processes[1024], past the
     table: false, with only next_pid changed by then.
     */
    method CreateProcess() returns (ok: bool, pid: nat)
      requires Valid()
      modifies this`nextPid, processes
      ensures pid == old(nextPid) && nextPid == pid + 1
      ensures ok <==> pid < MAX_PROCESS
      ensures ok ==> Valid() && processes[..] == old(processes[..])[pid := Slot(pid, Wait)]
      ensures !ok ==> processes[..] == old(processes[..])
    {
      pid := nextPid;
      nextPid := nextPid + 1;
      if pid >= processes.Length { return false, pid; }
      assert processes[pid] == Empty; // "Process already created" cannot fire
      processes[pid] := Slot(pid, Wait);
      ok := true;
    }

    /**
     schedule, with the slots its scan reads. A scan that leaves the table stops: false,
     with the current process waiting and current_pid at the slot it cannot read.
     */
    method Schedule() returns (ok: bool, ghost slots: seq<nat>)
      requires Valid()
      modifies this`currentPid, processes
      ensures ok <==> InTable(Scan(old(currentPid), nextPid))
      ensures ok ==> slots == Scan(old(currentPid), nextPid)
      ensures !ok ==> slots == [MAX_PROCESS] <= Scan(old(currentPid), nextPid)
      ensures ok ==> Valid() && currentPid == Successor(old(currentPid), nextPid)
      ensures ok ==> forall i :: 1 <= i < nextPid ==> (processes[i].state == Running <==> i == currentPid)
      ensures !ok ==> currentPid == MAX_PROCESS
    {
      processes[currentPid] := processes[currentPid].(state := Wait);
      ghost var from := currentPid;
      slots := [];
      while true
        invariant (currentPid == from && slots == []) || (currentPid == nextPid == from + 1 && slots == [nextPid])
        invariant currentPid < MAX_PROCESS
        invariant forall i :: 0 <= i < MAX_PROCESS ==> (processes[i].Slot? <==> 1 <= i < nextPid)
        invariant forall i :: 1 <= i < nextPid ==> processes[i] == Slot(i, Wait)
        decreases nextPid - currentPid
      {
        if currentPid == nextPid {
          currentPid := 1;
        } else {
          currentPid := currentPid + 1;
        }
        slots := slots + [currentPid];
        if currentPid >= processes.Length {
          assert Scan(from, nextPid)[0] == MAX_PROCESS;
          return false, slots;
        }
        var process := processes[currentPid];
        if process.Slot? && process.id != 0 && process.state == Wait {
          processes[currentPid] := process.(state := Running);
          break;
        }
      }
      ok := true;
    }
  }

  /** The scan stays inside the table exactly when a slot is left or the current pid is not the last. */
  lemma {:induction false} ScanInTableIff(cur: nat, next: nat)
    requires 1 <= cur < next <= MAX_PROCESS
    ensures InTable(Scan(cur, next)) <==> next < MAX_PROCESS || cur + 1 < next
  {
    if next == MAX_PROCESS && cur + 1 == next {
      assert Scan(cur, next)[0] == MAX_PROCESS;
    }
  }

  /** With all 1023 pids taken and the last one current, the scan reads slot 1024. */
  lemma {:induction false} FullTableScan()
    ensures !InTable(Scan(MAX_PROCESS - 1, MAX_PROCESS))
  {
    assert Scan(MAX_PROCESS - 1, MAX_PROCESS)[0] == MAX_PROCESS;
  }

  // ----- Runs -----

  datatype Event = Tick | Create

  datatype Sched = Sched(cur: nat, next: nat)

  function Apply(s: Sched, e: Event): Sched
  {
    match e
    case Tick => s.(cur := Successor(s.cur, s.next))
    case Create => s.(next := s.next + 1)
  }

  ghost predicate Ok(s: Sched) { 1 <= s.cur < s.next }

  function Count(es: seq<Event>, e: Event): nat
  {
    if es == [] then 0 else (if es[0] == e then 1 else 0) + Count(es[1..], e)
  }

  /** Some tick of the run makes p current. */
  ghost predicate Chosen(s: Sched, es: seq<Event>, p: nat)
    decreases |es|
  {
    es != [] && ((es[0] == Tick && Apply(s, es[0]).cur == p) || Chosen(Apply(s, es[0]), es[1..], p))
  }

  /** Ticks until p is current when no process is created: its cyclic distance. */
  function Distance(s: Sched, p: nat): int
  {
    if p > s.cur then p - s.cur else s.next - 1 - s.cur + p
  }

  /** Each process is chosen within its cyclic distance plus the number of processes created meanwhile. */
  lemma {:induction false} BoundedWaiting(s: Sched, es: seq<Event>, p: nat)
    requires Ok(s) && 1 <= p < s.next
    requires Count(es, Tick) >= Distance(s, p) + Count(es, Create)
    ensures Chosen(s, es, p)
    decreases |es|
  {
    if es != [] && !(es[0] == Tick && Apply(s, es[0]).cur == p) {
      BoundedWaiting(Apply(s, es[0]), es[1..], p);
    }
  }

  /** Without creations it is chosen no earlier than that. */
  lemma {:induction false} NotBefore(s: Sched, es: seq<Event>, p: nat)
    requires Ok(s) && 1 <= p < s.next && Count(es, Create) == 0
    ensures Chosen(s, es, p) <==> |es| >= Distance(s, p)
    decreases |es|
  {
    if es != [] {
      if Apply(s, es[0]).cur != p {
        NotBefore(Apply(s, es[0]), es[1..], p);
      }
    }
  }

  ghost function Run(s: Sched, es: seq<Event>): Sched
    decreases |es|
  {
    if es == [] then s else Run(Apply(s, es[0]), es[1..])
  }

  /** The table's indices stay in range for as long as the pids last. */
  lemma {:induction false} PidsInRange(s: Sched, es: seq<Event>)
    requires Ok(s) && s.next + Count(es, Create) <= MAX_PROCESS
    ensures Ok(Run(s, es)) && Run(s, es).next == s.next + Count(es, Create)
    ensures 1 <= Run(s, es).cur < MAX_PROCESS
    ensures s.next + Count(es, Create) < MAX_PROCESS ==> InTable(Scan(Run(s, es).cur, Run(s, es).next))
    decreases |es|
  {
    if es != [] {
      PidsInRange(Apply(s, es[0]), es[1..]);
    }
  }
}
