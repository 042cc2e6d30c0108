/**
 The round-robin scheduler (`kernel/src/sched.rs`) as a state machine over a table of 16 slots.  A
 context switch is the change of CURRENT, of the slots' states and saved contexts, and of the
 kernel stack in the TSS.
 */
module Sched {
  import opened Frames

  const MAX_PROCESSES: nat := 16
  const KSTACK_SIZE: nat := 16 * 1024
  const FRAME_BYTES: nat := 23 * 8 // an interrupt frame

  datatype ProcState = Unused | Ready | Running | Zombie

  datatype Process = Process(pid: nat, state: ProcState, stackTop: nat, ctx: nat)

  /** `kstacks` is the address of the kernel stacks; `rsp0` is the stack in the TSS. */
  datatype Sched = Sched(procs: seq<Process>, current: nat, rsp0: nat, kstacks: nat)

  const UNUSED: Process := Process(0, Unused, 0, 0)

  function StackTop(kstacks: nat, slot: nat): nat {
    kstacks + slot * KSTACK_SIZE + KSTACK_SIZE
  }

  // ---------- the operations ----------

  /** `init_idle`: the boot flow becomes process 0. */
  function InitIdle(kstacks: nat, stackTop: nat, rsp0: nat): Sched {
    Sched([Process(0, Ready, stackTop, 0)] + seq(MAX_PROCESSES - 1, _ => UNUSED), 0, rsp0, kstacks)
  }

  predicate IsFree(p: Process) {
    p.state.Unused? || p.state.Zombie?
  }

  /** The first free slot from `i` on. */
  function FreeFrom(procs: seq<Process>, i: nat): Option<nat>
    decreases |procs| - i
  {
    if i >= |procs| then None else if IsFree(procs[i]) then Some(i) else FreeFrom(procs, i + 1)
  }

  function FreeSlot(procs: seq<Process>): Option<nat> {
    FreeFrom(procs, 1)
  }

  /** `start_process`: the initial frame sits, 16-aligned, at the top of the slot's own stack. */
  function StartProcess(s: Sched, slot: nat): Sched
    requires slot < |s.procs|
  {
    var top := StackTop(s.kstacks, slot);
    var frame := (top - FRAME_BYTES) / 16 * 16;
    s.(procs := s.procs[slot := Process(slot, Ready, top, frame)])
  }

  function Kill(s: Sched, pid: nat): (Sched, bool) {
    if pid == 0 || pid >= |s.procs| || IsFree(s.procs[pid]) then (s, false)
    else (s.(procs := s.procs[pid := s.procs[pid].(state := Zombie)]), true)
  }

  /** The first Ready slot from distance `i` after `cur`, cyclically. */
  function PickFrom(procs: seq<Process>, cur: nat, i: nat): Option<nat>
    requires |procs| == MAX_PROCESSES
    decreases MAX_PROCESSES - i
  {
    if i >= MAX_PROCESSES then None
    else
      var idx := (cur + i) % MAX_PROCESSES;
      if procs[idx].state.Ready? then Some(idx) else PickFrom(procs, cur, i + 1)
  }

  /** `pick_next_other` */
  function PickNext(procs: seq<Process>, cur: nat): Option<nat>
    requires |procs| == MAX_PROCESSES
  {
    PickFrom(procs, cur, 1)
  }

  /** `do_switch` */
  function DoSwitch(s: Sched, idx: nat): Sched
    requires idx < |s.procs|
  {
    s.(procs := s.procs[idx := s.procs[idx].(state := Running)], current := idx, rsp0 := s.procs[idx].stackTop)
  }

  /** `on_tick` and `yield_now`: `frame` is the interrupted process's saved context. */
  function OnTick(s: Sched, frame: nat): Sched
    requires |s.procs| == MAX_PROCESSES && s.current < MAX_PROCESSES
  {
    var cur := s.current;
    var s1 := s.(procs := s.procs[cur := s.procs[cur].(state := Ready, ctx := frame)]);
    match Next(s1, cur)
    case Some(next) => DoSwitch(s1, next)
    case None => s1.(procs := s1.procs[cur := s1.procs[cur].(state := Running)])
  }

  function Next(s: Sched, cur: nat): (r: Option<nat>)
    requires |s.procs| == MAX_PROCESSES && cur < MAX_PROCESSES
    ensures r.Some? ==> r.value < MAX_PROCESSES
  {
    var r := PickNext(s.procs, cur);
    PickExact(s.procs, cur, 1);
    r
  }

  /** `exit_current`: `None` where the kernel panics for want of a successor. */
  function ExitCurrent(s: Sched): Option<Sched>
    requires |s.procs| == MAX_PROCESSES && s.current < MAX_PROCESSES
  {
    var s1 := s.(procs := s.procs[s.current := s.procs[s.current].(state := Zombie)]);
    match Next(s1, s.current)
    case Some(next) => Some(DoSwitch(s1, next))
    case None => None
  }

  // ---------- picking ----------

  /** Cyclic distance from `cur` to `p`. */
  function Distance(cur: nat, p: nat): nat
    requires cur < MAX_PROCESSES && p < MAX_PROCESSES
  {
    if p >= cur then p - cur else p + MAX_PROCESSES - cur
  }

  lemma SlotAtDistance(cur: nat, i: nat)
    requires cur < MAX_PROCESSES && i < MAX_PROCESSES
    ensures Distance(cur, (cur + i) % MAX_PROCESSES) == i
    ensures forall q: nat :: q < MAX_PROCESSES && Distance(cur, q) == i ==> q == (cur + i) % MAX_PROCESSES
  {
  }

  /** The pick is the nearest Ready slot; there is none only when nothing else is Ready. */
  lemma {:induction false} PickExact(procs: seq<Process>, cur: nat, i: nat)
    requires |procs| == MAX_PROCESSES && cur < MAX_PROCESSES
    ensures match PickFrom(procs, cur, i)
            case Some(idx) =>
              && idx < MAX_PROCESSES && procs[idx].state.Ready? && i <= Distance(cur, idx)
              && forall q :: 0 <= q < MAX_PROCESSES && procs[q].state.Ready? && i <= Distance(cur, q) ==>
                   Distance(cur, idx) <= Distance(cur, q)
            case None => forall q :: 0 <= q < MAX_PROCESSES && procs[q].state.Ready? ==> Distance(cur, q) < i
    decreases MAX_PROCESSES - i
  {
    if i < MAX_PROCESSES {
      SlotAtDistance(cur, i);
      if !procs[(cur + i) % MAX_PROCESSES].state.Ready? { PickExact(procs, cur, i + 1); }
    }
  }

  /** A waiting Ready process is either picked or comes strictly nearer. */
  lemma PickBringsNearer(procs: seq<Process>, cur: nat, p: nat)
    requires |procs| == MAX_PROCESSES && cur < MAX_PROCESSES && p < MAX_PROCESSES && p != cur && procs[p].state.Ready?
    ensures PickNext(procs, cur).Some?
    ensures var next := PickNext(procs, cur).value;
            next < MAX_PROCESSES && next != cur && procs[next].state.Ready?
            && (next == p || Distance(next, p) < Distance(cur, p))
  {
    PickExact(procs, cur, 1);
  }

  // ---------- the invariant ----------

  predicate InStack(kstacks: nat, slot: nat, a: nat) {
    StackTop(kstacks, slot) - KSTACK_SIZE <= a < StackTop(kstacks, slot)
  }

  predicate SlotOk(s: Sched, i: nat)
    requires i < |s.procs|
  {
    var p := s.procs[i];
    && (p.state.Running? ==> i == s.current)
    && (!p.state.Unused? ==> p.pid == i)
    // A process that waits has a saved context, on its own kernel stack unless it is idle.
    && (p.state.Ready? && i != s.current ==> p.ctx != 0)
    && (i != 0 && !p.state.Unused? ==> p.stackTop == StackTop(s.kstacks, i))
    && (i != 0 && p.state.Ready? ==> InStack(s.kstacks, i, p.ctx))
  }

  ghost predicate SchedInv(s: Sched) {
    && |s.procs| == MAX_PROCESSES && s.current < MAX_PROCESSES && s.kstacks > 0
    && (forall i :: 0 <= i < |s.procs| ==> SlotOk(s, i))
    // CURRENT runs; idle alone may still be marked Ready, before its first tick.
    && (s.procs[s.current].state.Running? || (s.current == 0 && s.procs[0].state.Ready?))
    // Idle is never lost, and waits with a saved context whenever another process runs.
    && (s.procs[0].state.Ready? || s.procs[0].state.Running?)
    && (s.current != 0 ==> s.procs[0].state.Ready? && s.procs[0].ctx != 0)
    && (s.current != 0 ==> s.rsp0 == s.procs[s.current].stackTop)
  }

  datatype Event = Tick(frame: nat) | Yield(frame: nat) | Exit | Start | KillPid(pid: nat)

  /**
   Hardware pushes the frame of a ring-3 process at the top of the stack in the TSS.  Idle does not
   exit, and `kill` is a shell command, so it runs as process 0.
   */
  predicate Allowed(s: Sched, e: Event) {
    match e
    case Tick(frame) => frame != 0 && (s.current != 0 ==> frame < s.rsp0 <= frame + KSTACK_SIZE)
    case Yield(frame) => frame != 0 && (s.current != 0 ==> frame < s.rsp0 <= frame + KSTACK_SIZE)
    case Exit => s.current != 0
    case Start => true
    case KillPid(pid) => s.current == 0
  }

  function Step(s: Sched, e: Event): Sched
    requires |s.procs| == MAX_PROCESSES && s.current < MAX_PROCESSES
  {
    match e
    case Tick(frame) => OnTick(s, frame)
    case Yield(frame) => OnTick(s, frame)
    case Exit => (match ExitCurrent(s) case Some(t) => t case None => s)
    case Start =>
      (match FreeSlot(s.procs)
       case Some(slot) => (if slot < |s.procs| then StartProcess(s, slot) else s)
       case None => s)
    case KillPid(pid) => Kill(s, pid).0
  }

  lemma TickKeeps(s: Sched, frame: nat)
    requires SchedInv(s) && Allowed(s, Tick(frame))
    ensures SchedInv(OnTick(s, frame))
  {
    var cur := s.current;
    var s1 := s.(procs := s.procs[cur := s.procs[cur].(state := Ready, ctx := frame)]);
    forall i | 0 <= i < MAX_PROCESSES
      ensures s1.procs[i].state.Ready? ==> s1.procs[i].ctx != 0 && (i != 0 ==> InStack(s.kstacks, i, s1.procs[i].ctx))
      ensures i != cur ==> !s1.procs[i].state.Running?
    {
      assert SlotOk(s, i);
    }
    PickExact(s1.procs, cur, 1);
    var t := OnTick(s, frame);
    forall i | 0 <= i < |t.procs|
      ensures SlotOk(t, i)
    {
      assert SlotOk(s, i);
    }
  }

  /** A process that exits always finds a successor, with a saved context. */
  lemma ExitFindsSuccessor(s: Sched)
    requires SchedInv(s) && s.current != 0
    ensures ExitCurrent(s).Some? && SchedInv(ExitCurrent(s).value)
    ensures var t := ExitCurrent(s).value;
            t.current != s.current && t.procs[t.current].ctx != 0 && t.procs[s.current].state.Zombie?
  {
    var s1 := s.(procs := s.procs[s.current := s.procs[s.current].(state := Zombie)]);
    assert SlotOk(s, 0);
    PickBringsNearer(s1.procs, s.current, 0);
    PickExact(s1.procs, s.current, 1);
    var t := ExitCurrent(s).value;
    assert SlotOk(s, t.current);
    forall i | 0 <= i < |t.procs|
      ensures SlotOk(t, i)
    {
      assert SlotOk(s, i);
    }
  }

  /** `free_slot` finds the lowest slot above 0 that holds no live process, if there is one. */
  lemma {:induction false} FreeExact(procs: seq<Process>, i: nat)
    ensures match FreeFrom(procs, i)
            case Some(k) => i <= k < |procs| && IsFree(procs[k]) && forall j :: i <= j < k ==> !IsFree(procs[j])
            case None => forall j :: i <= j < |procs| ==> !IsFree(procs[j])
    decreases |procs| - i
  {
    if i < |procs| && !IsFree(procs[i]) { FreeExact(procs, i + 1); }
  }

  lemma StartKeeps(s: Sched)
    requires SchedInv(s)
    ensures SchedInv(Step(s, Start))
    ensures Step(s, Start).current == s.current
    ensures forall p :: 0 <= p < MAX_PROCESSES && !IsFree(s.procs[p]) ==> Step(s, Start).procs[p] == s.procs[p]
  {
    FreeExact(s.procs, 1);
    if FreeSlot(s.procs).Some? {
      var slot := FreeSlot(s.procs).value;
      var t := StartProcess(s, slot);
      InitialFrame(s.kstacks, slot);
      forall i | 0 <= i < |t.procs|
        ensures SlotOk(t, i)
      {
        assert SlotOk(s, i);
      }
      assert SlotOk(s, 0) && SlotOk(s, s.current);
    }
  }

  /** The hand-built first frame lies, 16-aligned, inside the slot's own stack. */
  lemma InitialFrame(kstacks: nat, slot: nat)
    ensures var frame := (StackTop(kstacks, slot) - FRAME_BYTES) / 16 * 16;
            && frame % 16 == 0 && frame != 0 && InStack(kstacks, slot, frame)
            && frame + FRAME_BYTES <= StackTop(kstacks, slot)
  {
  }

  lemma KillKeeps(s: Sched, pid: nat)
    requires SchedInv(s) && s.current == 0
    ensures SchedInv(Kill(s, pid).0)
  {
    var t := Kill(s, pid).0;
    forall i | 0 <= i < |t.procs|
      ensures SlotOk(t, i)
    {
      assert SlotOk(s, i);
    }
  }

  lemma StepKeeps(s: Sched, e: Event)
    requires SchedInv(s) && Allowed(s, e)
    ensures SchedInv(Step(s, e))
    ensures Step(s, e).current != s.current ==> Step(s, e).procs[Step(s, e).current].ctx != 0
  {
    match e {
      case Tick(frame) => TickKeeps(s, frame); SwitchHasContext(s, frame);
      case Yield(frame) => TickKeeps(s, frame); SwitchHasContext(s, frame);
      case Exit => ExitFindsSuccessor(s);
      case Start => StartKeeps(s);
      case KillPid(pid) => KillKeeps(s, pid);
    }
  }

  /** No switch resumes a zero context. */
  lemma SwitchHasContext(s: Sched, frame: nat)
    requires SchedInv(s) && Allowed(s, Tick(frame))
    ensures var t := OnTick(s, frame);
            t.current < |t.procs| && t.procs[t.current].ctx != 0
  {
    var cur := s.current;
    var s1 := s.(procs := s.procs[cur := s.procs[cur].(state := Ready, ctx := frame)]);
    PickExact(s1.procs, cur, 1);
    var t := OnTick(s, frame);
    if t.current != cur { assert SlotOk(s, t.current); }
  }

  // ---------- runs ----------

  ghost predicate IsRun(trace: seq<Sched>, events: seq<Event>) {
    && |trace| == |events| + 1
    && forall k :: 0 <= k < |events| ==>
         && |trace[k].procs| == MAX_PROCESSES && trace[k].current < MAX_PROCESSES
         && Allowed(trace[k], events[k]) && trace[k + 1] == Step(trace[k], events[k])
  }

  lemma InitInv(kstacks: nat, stackTop: nat, rsp0: nat)
    requires kstacks > 0
    ensures SchedInv(InitIdle(kstacks, stackTop, rsp0))
  {
  }

  /** The invariant holds in every state of every run from `init_idle`. */
  lemma {:induction false} RunsKeep(trace: seq<Sched>, events: seq<Event>, k: nat)
    requires IsRun(trace, events) && SchedInv(trace[0]) && k < |trace|
    ensures SchedInv(trace[k])
  {
    hide SchedInv, Step, Allowed;
    if k > 0 {
      RunsKeep(trace, events, k - 1);
      StepKeeps(trace[k - 1], events[k - 1]);
    }
  }

  predicate EndsSlice(e: Event) {
    e.Tick? || e.Yield? || e.Exit?
  }

  /** How many of the events end a time slice. */
  function Slices(events: seq<Event>): nat {
    if events == [] then 0
    else Slices(events[..|events| - 1]) + (if EndsSlice(events[|events| - 1]) then 1 else 0)
  }

  /** One event seen by a waiting process that it does not kill. */
  lemma WaitingStep(s: Sched, e: Event, p: nat)
    requires SchedInv(s) && Allowed(s, e) && p < MAX_PROCESSES && p != s.current && s.procs[p].state.Ready?
    requires e != KillPid(p)
    ensures var t := Step(s, e);
            && |t.procs| == MAX_PROCESSES && t.current < MAX_PROCESSES
            && (t.current == p ||
                (t.procs[p].state.Ready?
                 && Distance(t.current, p) + (if EndsSlice(e) then 1 else 0) <= Distance(s.current, p)))
  {
    match e {
      case Tick(frame) => WaitingTick(s, frame, p);
      case Yield(frame) => WaitingTick(s, frame, p);
      case Exit =>
        var s1 := s.(procs := s.procs[s.current := s.procs[s.current].(state := Zombie)]);
        PickBringsNearer(s1.procs, s.current, p);
      case Start => StartKeeps(s);
      case KillPid(pid) =>
    }
  }

  lemma WaitingTick(s: Sched, frame: nat, p: nat)
    requires SchedInv(s) && p < MAX_PROCESSES && p != s.current && s.procs[p].state.Ready?
    ensures var t := OnTick(s, frame);
            && |t.procs| == MAX_PROCESSES && t.current < MAX_PROCESSES
            && (t.current == p || (t.procs[p].state.Ready? && Distance(t.current, p) < Distance(s.current, p)))
  {
    var cur := s.current;
    var s1 := s.(procs := s.procs[cur := s.procs[cur].(state := Ready, ctx := frame)]);
    PickBringsNearer(s1.procs, cur, p);
  }

  lemma {:induction false} WaitingRun(trace: seq<Sched>, events: seq<Event>, p: nat, k: nat)
    requires IsRun(trace, events) && SchedInv(trace[0]) && k < |trace|
    requires p < MAX_PROCESSES && trace[0].procs[p].state.Ready?
    requires forall j :: 0 <= j < k ==> events[j] != KillPid(p)
    requires forall j :: 0 <= j <= k ==> trace[j].current != p
    ensures |trace[k].procs| == MAX_PROCESSES && trace[k].current < MAX_PROCESSES
    ensures trace[k].procs[p].state.Ready?
    ensures Distance(trace[k].current, p) + Slices(events[..k]) <= Distance(trace[0].current, p)
  {
    hide SchedInv, Step, Allowed;
    SizesOk(trace[0]);
    if k == 0 {
      assert events[..0] == [];
    } else {
      WaitingRun(trace, events, p, k - 1);
      RunsKeep(trace, events, k - 1);
      assert events[..k][..k - 1] == events[..k - 1];
      WaitingStep(trace[k - 1], events[k - 1], p);
    }
  }

  lemma SizesOk(s: Sched)
    requires SchedInv(s)
    ensures |s.procs| == MAX_PROCESSES && s.current < MAX_PROCESSES
  {
  }

  /**
   Bounded waiting: a Ready process that nobody kills becomes current by the time 15 time slices
   have ended, whatever other processes are started, killed or exit meanwhile.
   */
  lemma BoundedWaiting(trace: seq<Sched>, events: seq<Event>, p: nat, k: nat)
    requires IsRun(trace, events) && SchedInv(trace[0]) && k < |trace|
    requires p < MAX_PROCESSES && trace[0].procs[p].state.Ready?
    requires forall j :: 0 <= j < k ==> events[j] != KillPid(p)
    requires Slices(events[..k]) >= MAX_PROCESSES - 1
    ensures exists j :: 0 <= j <= k && trace[j].current == p
  {
    hide SchedInv, Step, Allowed;
    if forall j :: 0 <= j <= k ==> trace[j].current != p {
      SizesOk(trace[0]);
      WaitingRun(trace, events, p, k);
    }
  }

  // ---------- kill ----------

  /**
   A successful kill survives the next tick exactly when its target is not the running process:
   `on_tick` marks CURRENT Ready without looking at its state.
   */
  lemma KillSticksExactly(s: Sched, pid: nat, frame: nat)
    requires SchedInv(s) && Kill(s, pid).1
    ensures |Kill(s, pid).0.procs| == MAX_PROCESSES
    ensures OnTick(Kill(s, pid).0, frame).procs[pid].state.Zombie? <==> pid != s.current
  {
    var t := Kill(s, pid).0;
    var s1 := t.(procs := t.procs[t.current := t.procs[t.current].(state := Ready, ctx := frame)]);
    PickExact(s1.procs, t.current, 1);
  }

  /** One process is started and preempts idle; killing it then does not last beyond the next tick. */
  lemma KillUndone()
    ensures var idle := InitIdle(0x10_0000, 0x8_0000, 0);
            var s := OnTick(StartProcess(idle, 1), 0x7_0000);
            && SchedInv(s) && s.current == 1 && Kill(s, 1).1
            && |Kill(s, 1).0.procs| == MAX_PROCESSES
            && OnTick(Kill(s, 1).0, s.rsp0 - FRAME_BYTES).procs[1].state.Ready?
  {
    hide SchedInv, OnTick, PickFrom, Kill;
    var idle := InitIdle(0x10_0000, 0x8_0000, 0);
    InitInv(0x10_0000, 0x8_0000, 0);
    assert FreeSlot(idle.procs) == Some(1);
    StartKeeps(idle);
    var started := Step(idle, Start);
    assert started == StartProcess(idle, 1);
    TickKeeps(started, 0x7_0000);
    FirstRuns(started, 0x7_0000);
    var s := OnTick(started, 0x7_0000);
    KillRevived(s, s.rsp0 - FRAME_BYTES);
  }

  /** From idle, a tick switches to process 1 if that is Ready. */
  lemma FirstRuns(s: Sched, frame: nat)
    requires |s.procs| == MAX_PROCESSES && s.current == 0 && s.procs[1].state.Ready?
    ensures OnTick(s, frame).current == 1 && OnTick(s, frame).rsp0 == s.procs[1].stackTop
  {
    var waiting := s.procs[0 := s.procs[0].(state := Ready, ctx := frame)];
    assert PickFrom(waiting, 0, 1) == Some(1);
  }

  /** Whenever a process other than idle runs, killing it is undone by the next tick. */
  lemma KillRevived(s: Sched, frame: nat)
    requires SchedInv(s) && s.current != 0
    ensures Kill(s, s.current).1 && |Kill(s, s.current).0.procs| == MAX_PROCESSES
    ensures OnTick(Kill(s, s.current).0, frame).procs[s.current].state.Ready?
  {
    var t := Kill(s, s.current).0;
    var s1 := t.(procs := t.procs[t.current := t.procs[t.current].(state := Ready, ctx := frame)]);
    PickExact(s1.procs, t.current, 1);
    assert s1.procs[0].state.Ready? && Distance(s.current, 0) >= 1;
  }

  // ---------- the scheduler as it runs ----------

  class Scheduler {
    const procs: array<Process>
    const kstacks: nat
    var current: nat
    var rsp0: nat

    ghost predicate Valid()
      reads this, procs
    {
      procs.Length == MAX_PROCESSES && current < MAX_PROCESSES
    }

    ghost function View(): Sched
      reads this, procs
    {
      Sched(procs[..], current, rsp0, kstacks)
    }

    constructor (kstacks: nat, stackTop: nat, rsp0: nat)
      ensures Valid() && View() == InitIdle(kstacks, stackTop, rsp0) && fresh(procs)
    {
      this.procs := new Process[MAX_PROCESSES](i => if i == 0 then Process(0, Ready, stackTop, 0) else UNUSED);
      this.kstacks, this.current, this.rsp0 := kstacks, 0, rsp0;
    }

    method FindFreeSlot() returns (r: Option<nat>)
      requires Valid()
      ensures r == FreeSlot(procs[..])
      ensures r.Some? ==> 0 < r.value < procs.Length && IsFree(procs[r.value])
    {
      for i := 1 to MAX_PROCESSES
        invariant FreeFrom(procs[..], 1) == FreeFrom(procs[..], i)
      {
        if procs[i].state.Unused? || procs[i].state.Zombie? { return Some(i); }
      }
      r := None;
    }

    method PickNextOther() returns (r: Option<nat>)
      requires Valid()
      ensures r == PickNext(procs[..], current)
      ensures r.Some? ==> r.value < procs.Length && r.value != current && procs[r.value].state.Ready?
      ensures r.None? ==> forall q :: 0 <= q < procs.Length && q != current ==> !procs[q].state.Ready?
    {
      PickExact(procs[..], current, 1);
      for i := 1 to MAX_PROCESSES
        invariant PickFrom(procs[..], current, 1) == PickFrom(procs[..], current, i)
      {
        var idx := (current + i) % MAX_PROCESSES;
        if procs[idx].state.Ready? { return Some(idx); }
      }
      r := None;
    }

    /** `start_process`, on a slot that `FindFreeSlot` returned. */
    method Start(slot: nat)
      requires Valid() && slot < procs.Length
      modifies procs
      ensures Valid() && View() == StartProcess(old(View()), slot)
    {
      var top := kstacks + slot * KSTACK_SIZE + KSTACK_SIZE;
      procs[slot] := Process(slot, Ready, top, (top - FRAME_BYTES) / 16 * 16);
    }

    method KillProcess(pid: nat) returns (ok: bool)
      requires Valid()
      modifies procs
      ensures Valid() && (View(), ok) == Kill(old(View()), pid)
    {
      if pid == 0 || pid >= MAX_PROCESSES { return false; }
      if procs[pid].state.Zombie? || procs[pid].state.Unused? { return false; }
      procs[pid] := procs[pid].(state := Zombie);
      ok := true;
    }

    method Switch(idx: nat)
      requires Valid() && idx < procs.Length
      modifies this, procs
      ensures Valid() && View() == DoSwitch(old(View()), idx)
    {
      procs[idx] := procs[idx].(state := Running);
      current := idx;
      rsp0 := procs[idx].stackTop;
    }

    /** `on_tick`; `yield_now` has the same body. */
    method Preempt(frame: nat)
      requires Valid()
      modifies this, procs
      ensures Valid() && View() == OnTick(old(View()), frame)
    {
      var cur := current;
      procs[cur] := procs[cur].(state := Ready, ctx := frame);
      var next := PickNextOther();
      if next.Some? {
        Switch(next.value);
      } else {
        procs[cur] := procs[cur].(state := Running);
      }
    }

    /** `exit_current`, in a state where the kernel promises a successor. */
    method ExitNow()
      requires Valid() && SchedInv(View()) && current != 0
      modifies this, procs
      ensures Valid() && SchedInv(View()) && Some(View()) == ExitCurrent(old(View()))
    {
      ExitFindsSuccessor(View());
      procs[current] := procs[current].(state := Zombie);
      var next := PickNextOther();
      Switch(next.value);
    }
  }
}
