/**
 The test-and-set lock (`kernel/src/spinlock.rs`) as a state machine over CPUs: every interleaving
 of locked sections has the effect of running the sections one after the other, in the order of
 their releases, and no CPU can meet itself at the lock.
 */
module SpinLock {
  /** Where a CPU stands; `saved` is the interrupt state that its guard restores. */
  datatype Phase<!V> =
    | Outside
    | Spinning(saved: bool)
    | Inside(saved: bool, updates: seq<V -> V>)
    | Released(saved: bool)

  /** `irq[c]`: interrupts are enabled on CPU `c`; `history`: the finished sections. */
  datatype System<!V> = System(
    locked: bool, value: V, cpus: seq<Phase<V>>, irq: seq<bool>, history: seq<seq<V -> V>>)

  datatype Action<!V> =
    | SaveIrq            // `irq_save` at the start of `lock_irqsave`
    | Swap               // one `swap(true)` of `acquire`, which may fail
    | Update(f: V -> V)  // a write through the guard
    | Unlock             // the store of `release`
    | RestoreIrq         // `irq_restore`, ending the guard's drop
    | SetIrq(on: bool)   // the CPU changes its interrupt state outside the lock
    | Interrupt          // a handler runs on this CPU and may itself take the lock

  predicate Enabled<V(!new)>(sys: System<V>, c: nat, a: Action<V>) {
    && c < |sys.cpus| && c < |sys.irq|
    && match a
       case SaveIrq => sys.cpus[c].Outside?
       case Swap => sys.cpus[c].Spinning?
       case Update(_) => sys.cpus[c].Inside?
       case Unlock => sys.cpus[c].Inside?
       case RestoreIrq => sys.cpus[c].Released?
       case SetIrq(_) => sys.cpus[c].Outside?
       case Interrupt => sys.irq[c]
  }

  function Act<V(!new)>(sys: System<V>, c: nat, a: Action<V>): System<V>
    requires Enabled(sys, c, a)
  {
    match a
    case SaveIrq => sys.(cpus := sys.cpus[c := Spinning(sys.irq[c])], irq := sys.irq[c := false])
    case Swap =>
      if sys.locked then sys
      else sys.(locked := true, cpus := sys.cpus[c := Inside(sys.cpus[c].saved, [])])
    case Update(f) =>
      sys.(value := f(sys.value), cpus := sys.cpus[c := Inside(sys.cpus[c].saved, sys.cpus[c].updates + [f])])
    case Unlock =>
      sys.(locked := false, cpus := sys.cpus[c := Released(sys.cpus[c].saved)],
           history := sys.history + [sys.cpus[c].updates])
    case RestoreIrq => sys.(cpus := sys.cpus[c := Outside], irq := sys.irq[c := sys.cpus[c].saved])
    case SetIrq(on) => sys.(irq := sys.irq[c := on])
    case Interrupt => sys
  }

  // ---------- serial meaning ----------

  ghost function Section<V>(v: V, updates: seq<V -> V>): V {
    if updates == [] then v else updates[|updates| - 1](Section(v, updates[..|updates| - 1]))
  }

  ghost function Serial<V>(v: V, history: seq<seq<V -> V>>): V {
    if history == [] then v else Section(Serial(v, history[..|history| - 1]), history[|history| - 1])
  }

  /** Someone is inside exactly when the flag is set, and at most one CPU is. */
  ghost predicate Exclusive<V(!new)>(sys: System<V>) {
    && (sys.locked <==> exists c :: 0 <= c < |sys.cpus| && sys.cpus[c].Inside?)
    && (forall c, d :: 0 <= c < d < |sys.cpus| ==> !(sys.cpus[c].Inside? && sys.cpus[d].Inside?))
  }

  /** The guarded value is the serial one, plus the unfinished section of the CPU inside. */
  ghost predicate LockInv<V(!new)>(v0: V, sys: System<V>) {
    && |sys.irq| == |sys.cpus|
    && Exclusive(sys)
    && (forall c :: 0 <= c < |sys.cpus| && !sys.cpus[c].Outside? ==> !sys.irq[c])
    && (!sys.locked ==> sys.value == Serial(v0, sys.history))
    && (forall c :: 0 <= c < |sys.cpus| && sys.cpus[c].Inside? ==>
          sys.value == Section(Serial(v0, sys.history), sys.cpus[c].updates))
  }

  lemma ActKeeps<V(!new)>(v0: V, sys: System<V>, c: nat, a: Action<V>)
    requires LockInv(v0, sys) && Enabled(sys, c, a)
    ensures LockInv(v0, Act(sys, c, a))
    ensures a.Interrupt? ==> sys.cpus[c].Outside?
  {
    var sys' := Act(sys, c, a);
    match a {
      case Swap =>
        if !sys.locked {
          assert sys'.cpus[c].Inside?;
          assert sys'.value == Section(Serial(v0, sys.history), []);
        }
      case Update(f) =>
        var u := sys.cpus[c].updates;
        assert (u + [f])[..|u|] == u;
        assert sys'.cpus[c].Inside? && sys.locked;
      case Unlock =>
        var u := sys.cpus[c].updates;
        assert (sys.history + [u])[..|sys.history|] == sys.history;
        assert forall d :: 0 <= d < |sys'.cpus| ==> !sys'.cpus[d].Inside?;
      case SaveIrq => OthersStay(sys, sys', c);
      case RestoreIrq => OthersStay(sys, sys', c);
      case SetIrq(on) =>
      case Interrupt =>
    }
  }

  /**
   What each step is for: a swap takes a free lock and leaves a taken one alone, an update changes the
   value, a release frees the lock, and no step touches another CPU.
   */
  lemma ActExact<V(!new)>(v0: V, sys: System<V>, c: nat, a: Action<V>)
    requires LockInv(v0, sys) && Enabled(sys, c, a)
    ensures var sys' := Act(sys, c, a);
            && (a.SaveIrq? ==> sys'.cpus[c] == Spinning(sys.irq[c]) && !sys'.irq[c])
            && (a.Swap? ==> if sys.locked then sys' == sys else sys'.cpus[c].Inside? && sys'.locked)
            && (a.Update? ==> sys'.value == a.f(sys.value))
            && (!a.Update? ==> sys'.value == sys.value)
            && (a.Unlock? ==> !sys'.locked && sys'.cpus[c].Released? && |sys'.history| == |sys.history| + 1)
            && (a.RestoreIrq? ==> sys'.cpus[c].Outside? && sys'.irq[c] == sys.cpus[c].saved)
            && (a.SetIrq? ==> sys'.irq[c] == a.on)
            && |sys'.cpus| == |sys.cpus| && |sys'.irq| == |sys.irq|
            && forall d :: 0 <= d < |sys.cpus| && d != c ==> sys'.cpus[d] == sys.cpus[d] && sys'.irq[d] == sys.irq[d]
  {
  }

  /** A step of a CPU that is not inside, before or after, leaves the lock to the others. */
  lemma OthersStay<V(!new)>(sys: System<V>, sys': System<V>, c: nat)
    requires Exclusive(sys) && c < |sys.cpus| && sys'.locked == sys.locked
    requires |sys'.cpus| == |sys.cpus| && sys'.cpus == sys.cpus[c := sys'.cpus[c]]
    requires !sys.cpus[c].Inside? && !sys'.cpus[c].Inside?
    ensures Exclusive(sys')
  {
    assert forall d :: 0 <= d < |sys.cpus| ==> (sys'.cpus[d].Inside? <==> sys.cpus[d].Inside?);
    if sys.locked {
      var h :| 0 <= h < |sys.cpus| && sys.cpus[h].Inside?;
      assert sys'.cpus[h].Inside?;
    }
  }

  // ---------- runs ----------

  ghost predicate IsRun<V(!new)>(trace: seq<System<V>>, who: seq<nat>, acts: seq<Action<V>>) {
    && |trace| == |acts| + 1 == |who| + 1
    && (forall i :: 0 <= i < |acts| ==> Enabled(trace[i], who[i], acts[i]))
    && (forall i :: 0 <= i < |acts| ==> trace[i + 1] == Act(trace[i], who[i], acts[i]))
  }

  ghost predicate Initial<V(!new)>(v0: V, sys: System<V>) {
    && !sys.locked && sys.value == v0 && sys.history == [] && |sys.irq| == |sys.cpus|
    && forall c :: 0 <= c < |sys.cpus| ==> sys.cpus[c].Outside?
  }

  /**
   In every state of every run: mutual exclusion, and whenever the lock is free the guarded value
   is what the finished sections produce one after the other, whole.
   */
  lemma {:induction false} RunsSerialize<V(!new)>(v0: V, trace: seq<System<V>>, who: seq<nat>, acts: seq<Action<V>>,
                                                  k: nat)
    requires IsRun(trace, who, acts) && Initial(v0, trace[0]) && k < |trace|
    ensures LockInv(v0, trace[k])
    decreases k
  {
    if k > 0 {
      RunsSerialize(v0, trace, who, acts, k - 1);
      ActKeeps(v0, trace[k - 1], who[k - 1], acts[k - 1]);
    }
  }

  /** The updates among some steps, in their order. */
  ghost function Updates<V(!new)>(acts: seq<Action<V>>): seq<V -> V> {
    if acts == [] then []
    else
      var a := acts[|acts| - 1];
      Updates(acts[..|acts| - 1]) + if a.Update? then [a.f] else []
  }

  /** In every state of every run the value is what all updates so far made of it: none is lost. */
  lemma {:induction false} UpdatesLast<V(!new)>(v0: V, trace: seq<System<V>>, who: seq<nat>, acts: seq<Action<V>>,
                                                k: nat)
    requires IsRun(trace, who, acts) && Initial(v0, trace[0]) && k < |trace|
    ensures trace[k].value == Section(v0, Updates(acts[..k]))
    decreases k
  {
    hide Act, Enabled;
    if k == 0 {
      assert acts[..0] == [];
    } else {
      UpdatesLast(v0, trace, who, acts, k - 1);
      RunsSerialize(v0, trace, who, acts, k - 1);
      ActExact(v0, trace[k - 1], who[k - 1], acts[k - 1]);
      assert acts[..k][..k - 1] == acts[..k - 1];
      var u, a := Updates(acts[..k - 1]), acts[k - 1];
      if a.Update? { assert (u + [a.f])[..|u|] == u; } else { assert u + [] == u; }
    }
  }

  /** From `lock_irqsave` until the guard is dropped, the interrupt state to restore is the one saved. */
  lemma {:induction false} SavedKept<V(!new)>(v0: V, trace: seq<System<V>>, who: seq<nat>, acts: seq<Action<V>>, c: nat,
                                              i: nat, k: nat)
    requires IsRun(trace, who, acts) && Initial(v0, trace[0]) && i < k < |trace|
    requires who[i] == c && acts[i].SaveIrq?
    requires forall j :: i < j < k ==> !(who[j] == c && acts[j].RestoreIrq?)
    ensures c < |trace[i].irq| && c < |trace[k].cpus|
    ensures !trace[k].cpus[c].Outside? && trace[k].cpus[c].saved == trace[i].irq[c]
    decreases k
  {
    hide Act, LockInv;
    RunsSerialize(v0, trace, who, acts, k - 1);
    ActExact(v0, trace[k - 1], who[k - 1], acts[k - 1]);
    if i < k - 1 {
      SavedKept(v0, trace, who, acts, c, i, k - 1);
      SavedStep(v0, trace[k - 1], who[k - 1], acts[k - 1], c);
    }
  }

  lemma SavedStep<V(!new)>(v0: V, sys: System<V>, d: nat, a: Action<V>, c: nat)
    requires LockInv(v0, sys) && Enabled(sys, d, a) && c < |sys.cpus| && !sys.cpus[c].Outside?
    requires !(d == c && a.RestoreIrq?)
    ensures |Act(sys, d, a).cpus| == |sys.cpus|
    ensures !Act(sys, d, a).cpus[c].Outside? && Act(sys, d, a).cpus[c].saved == sys.cpus[c].saved
  {
  }

  /** Dropping the guard leaves interrupts as they were before `lock_irqsave`. */
  lemma IrqRestored<V(!new)>(v0: V, trace: seq<System<V>>, who: seq<nat>, acts: seq<Action<V>>, c: nat, i: nat, k: nat)
    requires IsRun(trace, who, acts) && Initial(v0, trace[0]) && i < k < |acts|
    requires who[i] == c && acts[i].SaveIrq? && who[k] == c && acts[k].RestoreIrq?
    requires forall j :: i < j < k ==> !(who[j] == c && acts[j].RestoreIrq?)
    ensures c < |trace[i].irq| && c < |trace[k + 1].irq| && trace[k + 1].irq[c] == trace[i].irq[c]
  {
    hide Act, LockInv;
    RunsSerialize(v0, trace, who, acts, k);
    SavedKept(v0, trace, who, acts, c, i, k);
    ActExact(v0, trace[k], who[k], acts[k]);
  }
}
