/**
 What each scheduler operation (`kernel/src/sched.rs`) does to every slot and what it leaves alone, and
 what follows over runs: a switch resumes the context that its process saved last, and a process that
 was killed or has exited does not run again until its slot is started anew.
 */
module SchedEffects {
  import opened Sched

  predicate Sized(s: Sched) {
    |s.procs| == MAX_PROCESSES && s.current < MAX_PROCESSES
  }

  /** The identity of every slot, and the stacks, are as before. */
  predicate SameSlots(s: Sched, t: Sched) {
    && Sized(s) && Sized(t) && t.kstacks == s.kstacks
    && forall i :: 0 <= i < MAX_PROCESSES ==>
         t.procs[i].pid == s.procs[i].pid && t.procs[i].stackTop == s.procs[i].stackTop
  }

  predicate Waits(s: Sched, q: int)
    requires Sized(s)
  {
    0 <= q < MAX_PROCESSES && q != s.current && s.procs[q].state.Ready?
  }

  /** Slot `n` is the next Ready one after the current one, cyclically. */
  ghost predicate NextReady(s: Sched, n: nat)
    requires Sized(s)
  {
    Waits(s, n) && forall q :: Waits(s, q) ==> Distance(s.current, n) <= Distance(s.current, q)
  }

  /** Slot `n` becomes current and Running, and its stack goes into the TSS. */
  predicate SwitchesTo(s: Sched, t: Sched, n: nat) {
    && Sized(s) && Sized(t) && n < MAX_PROCESSES
    && t.current == n && t.procs[n].state.Running? && t.rsp0 == s.procs[n].stackTop
  }

  lemma PickOther(procs: seq<Process>, cur: nat)
    requires |procs| == MAX_PROCESSES && cur < MAX_PROCESSES
    ensures match PickNext(procs, cur)
            case Some(n) =>
              && n < MAX_PROCESSES && n != cur && procs[n].state.Ready?
              && forall q :: 0 <= q < MAX_PROCESSES && q != cur && procs[q].state.Ready? ==>
                   Distance(cur, n) <= Distance(cur, q)
            case None => forall q :: 0 <= q < MAX_PROCESSES && q != cur ==> !procs[q].state.Ready?
  {
    hide PickFrom;
    PickExact(procs, cur, 1);
  }

  // ---------- tick and yield ----------

  /**
   A tick or yield saves the frame of the current process and no other context.  The next Ready
   process runs and the current one becomes Ready; if none is Ready, the current one goes on.  No
   other slot changes.
   */
  lemma TickExact(s: Sched, frame: nat)
    requires Sized(s)
    ensures var t := OnTick(s, frame);
            && SameSlots(s, t)
            && (forall i :: 0 <= i < MAX_PROCESSES ==>
                  t.procs[i].ctx == if i == s.current then frame else s.procs[i].ctx)
            && (forall i :: 0 <= i < MAX_PROCESSES && i != s.current && i != t.current ==>
                  t.procs[i].state == s.procs[i].state)
            && if exists q :: Waits(s, q)
               then NextReady(s, t.current) && SwitchesTo(s, t, t.current) && t.procs[s.current].state.Ready?
               else t.current == s.current && t.procs[s.current].state.Running? && t.rsp0 == s.rsp0
  {
    hide PickNext, Distance;
    var cur := s.current;
    var s1 := s.(procs := s.procs[cur := s.procs[cur].(state := Ready, ctx := frame)]);
    PickOther(s1.procs, cur);
    forall q: int | 0 <= q < MAX_PROCESSES && q != cur
      ensures s1.procs[q] == s.procs[q] && (Waits(s, q) <==> s1.procs[q].state.Ready?)
    {
    }
  }

  /** An exit needs another Ready process; the current one is dead, the next one runs, and no context changes. */
  lemma ExitExact(s: Sched)
    requires Sized(s)
    ensures ExitCurrent(s).Some? <==> exists q :: Waits(s, q)
    ensures ExitCurrent(s).Some? ==>
              var t := ExitCurrent(s).value;
              && SameSlots(s, t) && NextReady(s, t.current) && SwitchesTo(s, t, t.current)
              && t.procs[s.current].state.Zombie?
              && (forall i :: 0 <= i < MAX_PROCESSES ==> t.procs[i].ctx == s.procs[i].ctx)
              && (forall i :: 0 <= i < MAX_PROCESSES && i != s.current && i != t.current ==>
                    t.procs[i].state == s.procs[i].state)
  {
    hide PickNext, Distance;
    var s1 := s.(procs := s.procs[s.current := s.procs[s.current].(state := Zombie)]);
    PickOther(s1.procs, s.current);
    forall q: int | 0 <= q < MAX_PROCESSES && q != s.current
      ensures s1.procs[q] == s.procs[q] && (Waits(s, q) <==> s1.procs[q].state.Ready?)
    {
    }
  }

  // ---------- kill, start and init ----------

  /** `kill` works on every process that lives, except idle; it makes that one a Zombie and does nothing else. */
  lemma KillExact(s: Sched, pid: nat)
    requires Sized(s)
    ensures var (t, ok) := Kill(s, pid);
            && (ok <==> 0 < pid < MAX_PROCESSES && (s.procs[pid].state.Ready? || s.procs[pid].state.Running?))
            && (!ok ==> t == s)
            && (ok ==>
                  && SameSlots(s, t) && t.current == s.current && t.rsp0 == s.rsp0
                  && t.procs[pid].state.Zombie? && t.procs[pid].ctx == s.procs[pid].ctx
                  && forall i :: 0 <= i < MAX_PROCESSES && i != pid ==> t.procs[i] == s.procs[i])
  {
  }

  /** The lowest slot above idle that holds no live process. */
  predicate LowestFree(s: Sched, slot: nat) {
    && 0 < slot < |s.procs| && IsFree(s.procs[slot])
    && forall i :: 0 < i < slot ==> !IsFree(s.procs[i])
  }

  /** The highest multiple of 16 that leaves room for a frame below the top of a slot's stack. */
  function FirstFrame(kstacks: nat, slot: nat): nat {
    var room := StackTop(kstacks, slot) - FRAME_BYTES;
    room - room % 16
  }

  /** Starting a process fills the lowest free slot, Ready and with its first frame, and no other; or none is free. */
  lemma StartExact(s: Sched)
    requires Sized(s)
    ensures var t := Step(s, Start);
            if exists slot: nat :: LowestFree(s, slot)
            then
              exists slot: nat ::
                && LowestFree(s, slot) && |t.procs| == |s.procs|
                && t.procs[slot].pid == slot && t.procs[slot].state.Ready?
                && t.procs[slot].stackTop == s.kstacks + (slot + 1) * KSTACK_SIZE
                && t.procs[slot].ctx == FirstFrame(s.kstacks, slot)
                && (forall i :: 0 <= i < |s.procs| && i != slot ==> t.procs[i] == s.procs[i])
                && t.current == s.current && t.rsp0 == s.rsp0 && t.kstacks == s.kstacks
            else t == s && forall i :: 0 < i < |s.procs| ==> !IsFree(s.procs[i])
  {
    FreeExact(s.procs, 1);
    match FreeSlot(s.procs) {
      case Some(slot) =>
        assert LowestFree(s, slot);
        RoundDown16(StackTop(s.kstacks, slot) - FRAME_BYTES);
      case None =>
    }
  }

  lemma RoundDown16(x: nat)
    ensures x / 16 * 16 == x - x % 16
  {
  }

  lemma OneLowest(s: Sched, a: nat, b: nat)
    requires LowestFree(s, a) && LowestFree(s, b)
    ensures a == b
  {
  }

  /** After `init_idle` idle alone lives, Ready and current; the first process started gets slot 1. */
  lemma InitExact(kstacks: nat, stackTop: nat, rsp0: nat)
    ensures var s := InitIdle(kstacks, stackTop, rsp0);
            && Sized(s) && s.current == 0 && s.rsp0 == rsp0 && s.kstacks == kstacks
            && s.procs[0].pid == 0 && s.procs[0].state.Ready? && s.procs[0].stackTop == stackTop && s.procs[0].ctx == 0
            && (forall i :: 0 < i < MAX_PROCESSES ==> s.procs[i].state.Unused?)
            && LowestFree(s, 1)
  {
  }

  // ---------- contexts over runs ----------

  lemma {:induction false} RunSized(trace: seq<Sched>, events: seq<Event>, k: nat)
    requires IsRun(trace, events) && Sized(trace[0]) && k < |trace|
    ensures Sized(trace[k])
  {
    hide Step, Allowed;
    if k > 0 {
      RunSized(trace, events, k - 1);
      StepSized(trace[k - 1], events[k - 1]);
    }
  }

  lemma StepSized(s: Sched, e: Event)
    requires Sized(s)
    ensures Sized(Step(s, e))
  {
    match e {
      case Tick(frame) => TickExact(s, frame);
      case Yield(frame) => TickExact(s, frame);
      case Exit => ExitExact(s);
      case Start => StartExact(s);
      case KillPid(pid) => KillExact(s, pid);
    }
  }

  predicate Saves(s: Sched, e: Event, p: nat) {
    (e.Tick? || e.Yield?) && s.current == p
  }

  /** The frame of the latest tick or yield of process `p`, or the one built when it was started since. */
  ghost function Saved(trace: seq<Sched>, events: seq<Event>, p: nat, k: nat): nat
    requires IsRun(trace, events) && k < |trace| && |trace[0].procs| == MAX_PROCESSES && p < MAX_PROCESSES
    decreases k
  {
    if k == 0 then trace[0].procs[p].ctx
    else if Saves(trace[k - 1], events[k - 1], p) then events[k - 1].frame
    else if events[k - 1].Start? && LowestFree(trace[k - 1], p) then FirstFrame(trace[k - 1].kstacks, p)
    else Saved(trace, events, p, k - 1)
  }

  lemma ContextStep(s: Sched, e: Event, p: nat)
    requires Sized(s) && p < MAX_PROCESSES
    ensures var t := Step(s, e);
            && Sized(t)
            && t.procs[p].ctx ==
               if Saves(s, e, p) then e.frame
               else if e.Start? && LowestFree(s, p) then FirstFrame(s.kstacks, p)
               else s.procs[p].ctx
  {
    hide Step, FirstFrame;
    match e {
      case Tick(frame) => SliceSteps(s, e, frame); TickExact(s, frame);
      case Yield(frame) => SliceSteps(s, e, frame); TickExact(s, frame);
      case Exit => ExitStep(s); ExitExact(s);
      case Start =>
        StartExact(s);
        if slot: nat :| LowestFree(s, slot) && Step(s, e).procs[slot].ctx == FirstFrame(s.kstacks, slot) {
          if LowestFree(s, p) { OneLowest(s, slot, p); }
        }
      case KillPid(pid) => KillStep(s, pid); KillExact(s, pid);
    }
  }

  lemma SliceSteps(s: Sched, e: Event, frame: nat)
    requires Sized(s) && (e == Tick(frame) || e == Yield(frame))
    ensures Step(s, e) == OnTick(s, frame)
  {
  }

  lemma ExitStep(s: Sched)
    requires Sized(s)
    ensures Step(s, Exit) == if ExitCurrent(s).Some? then ExitCurrent(s).value else s
  {
  }

  lemma KillStep(s: Sched, pid: nat)
    requires Sized(s)
    ensures Step(s, KillPid(pid)) == Kill(s, pid).0
  {
  }

  /** In every state of every run the saved contexts are the latest ones. */
  lemma {:induction false} ContextsLatest(trace: seq<Sched>, events: seq<Event>, p: nat, k: nat)
    requires IsRun(trace, events) && Sized(trace[0]) && k < |trace| && p < MAX_PROCESSES
    ensures Sized(trace[k]) && trace[k].procs[p].ctx == Saved(trace, events, p, k)
    decreases k
  {
    hide Step, Allowed, LowestFree, FirstFrame;
    if k > 0 {
      ContextsLatest(trace, events, p, k - 1);
      ContextStep(trace[k - 1], events[k - 1], p);
    }
  }

  /**
   Over every run, a switch goes to a process that was waiting, and resumes the frame of that process's
   latest tick or yield, or the one built when it was started; that frame is never 0.
   */
  lemma ResumesLatest(trace: seq<Sched>, events: seq<Event>, k: nat)
    requires IsRun(trace, events) && SchedInv(trace[0]) && k < |events|
    requires trace[k + 1].current != trace[k].current
    ensures var p := trace[k + 1].current;
            && p < MAX_PROCESSES && |trace[0].procs| == |trace[k].procs| == |trace[k + 1].procs| == MAX_PROCESSES
            && EndsSlice(events[k]) && trace[k].procs[p].state.Ready?
            && trace[k + 1].procs[p].ctx == Saved(trace, events, p, k) != 0
            && trace[k + 1].rsp0 == trace[k].procs[p].stackTop
  {
    hide Step, Allowed, SchedInv, Saved;
    SizesOk(trace[0]);
    RunsKeep(trace, events, k);
    RunsKeep(trace, events, k + 1);
    RunSized(trace, events, k);
    RunSized(trace, events, k + 1);
    var s, e := trace[k], events[k];
    var p := trace[k + 1].current;
    ContextsLatest(trace, events, p, k);
    ContextStep(s, e, p);
    SwitchStep(s, e);
    StepKeeps(s, e);
  }

  /** Only the end of a slice switches, to a waiting process. */
  lemma SwitchStep(s: Sched, e: Event)
    requires Sized(s) && Sized(Step(s, e)) && Step(s, e).current != s.current
    ensures EndsSlice(e) && Waits(s, Step(s, e).current) && Step(s, e).rsp0 == s.procs[Step(s, e).current].stackTop
  {
    match e {
      case Tick(frame) => TickExact(s, frame);
      case Yield(frame) => TickExact(s, frame);
      case Exit => ExitExact(s);
      case Start => StartExact(s);
      case KillPid(pid) => KillExact(s, pid);
    }
  }

  // ---------- the dead over runs ----------

  predicate Dead(s: Sched, p: nat) {
    Sized(s) && p < MAX_PROCESSES && p != s.current && s.procs[p].state.Zombie?
  }

  lemma DeadStep(s: Sched, e: Event, p: nat)
    requires Dead(s, p) && !(e.Start? && LowestFree(s, p))
    ensures Dead(Step(s, e), p)
  {
    hide Step;
    match e {
      case Tick(frame) => SliceSteps(s, e, frame); TickExact(s, frame);
      case Yield(frame) => SliceSteps(s, e, frame); TickExact(s, frame);
      case Exit => ExitStep(s); ExitExact(s);
      case Start =>
        StartExact(s);
        if slot: nat :| LowestFree(s, slot) && Step(s, e).procs[slot].ctx == FirstFrame(s.kstacks, slot) { }
      case KillPid(pid) => KillStep(s, pid); KillExact(s, pid);
    }
  }

  /** A dead process stays dead, and never runs, until its slot is started anew. */
  lemma {:induction false} DeadUntilStarted(trace: seq<Sched>, events: seq<Event>, p: nat, k: nat)
    requires IsRun(trace, events) && Dead(trace[0], p) && k < |trace|
    requires forall j :: 0 <= j < k ==> !(events[j].Start? && LowestFree(trace[j], p))
    ensures Dead(trace[k], p)
    decreases k
  {
    hide Step, Allowed, LowestFree, Dead;
    if k > 0 {
      DeadUntilStarted(trace, events, p, k - 1);
      DeadStep(trace[k - 1], events[k - 1], p);
    }
  }

  /** A successful `kill` of a process that is not current lasts until the slot is started anew. */
  lemma KillLasts(s: Sched, pid: nat, trace: seq<Sched>, events: seq<Event>, k: nat)
    requires Sized(s) && pid != s.current && Kill(s, pid).1
    requires IsRun(trace, events) && trace[0] == Kill(s, pid).0 && k < |trace|
    requires forall j :: 0 <= j < k ==> !(events[j].Start? && LowestFree(trace[j], pid))
    ensures Dead(trace[k], pid)
  {
    KillExact(s, pid);
    DeadUntilStarted(trace, events, pid, k);
  }
}
