/**
 Any number of CPUs drop the references to a Pending frame at once (`unpin_frame` and
 `remove_mapping` in `kernel/src/frame.rs`, `drain_if_ready` in `kernel/src/allocator.rs`).  The
 decrement, each of the three reads of the check, and the release are steps of their own.  In between
 other callers may allocate frames, and one that is handed the frame may pin it, map it and release it.
 */
module DrainRaces {
  import opened Frames
  import opened Pmm
  import opened FreeLists

  /** Where a CPU stands in dropping its reference. */
  datatype Phase = Holding(pin: bool) | Looking | ReadingPins | ReadingMaps | Releasing | Finished

  /**
   `passed`: the CPUs whose check succeeded.  `robbed`: a release took the frame from a caller that
   had been handed it.  `pinsHeld`, `mapsHeld`: the references of such callers.  `discarded`: how often
   they freed the frame.  `renewed`: one of them made it Pending again before the second release.
   */
  datatype Race = Race(
    s: State, phases: seq<Phase>, passed: set<nat>, releases: nat, robbed: bool, panicked: bool,
    pinsHeld: nat, mapsHeld: nat, discarded: nat, renewed: bool)

  /** The steps of the CPUs that drop references, and below them those of other callers. */
  datatype Event =
    | Drop(c: nat) | Look(c: nat) | ReadPins(c: nat) | ReadMaps(c: nat) | Give(c: nat, k: nat)
    | Take(k: nat) | Hold(pin: bool) | Discard(k: nat)

  ghost predicate Enabled(x: Race, f: nat, e: Event) {
    && !x.panicked && Valid(x.s) && f < |x.s.owner|
    && (e.Take? || e.Hold? || e.Discard? || e.c < |x.phases|)
    && match e
       case Drop(c) => x.phases[c].Holding?
       case Look(c) => x.phases[c].Looking?
       case ReadPins(c) => x.phases[c].ReadingPins?
       case ReadMaps(c) => x.phases[c].ReadingMaps?
       case Give(c, k) => x.phases[c].Releasing? && k < |x.s.shards|
       case Take(k) => k < |x.s.shards|
       case Hold(pin) => x.s.owner[f].Kernel? && (if pin then x.s.pinned[f] else x.s.mappings[f]) < U32 - 1
       case Discard(k) => x.s.owner[f].Kernel? && k < |x.s.shards|
  }

  function Dropped(s: State, f: nat, pin: bool): State
    requires f < |s.pinned| && f < |s.mappings|
  {
    if pin then s.(pinned := s.pinned[f := (s.pinned[f] + U32 - 1) % U32])
    else s.(mappings := s.mappings[f := (s.mappings[f] + U32 - 1) % U32])
  }

  function Held(s: State, f: nat, pin: bool): State
    requires f < |s.pinned| && f < |s.mappings|
  {
    if pin then Pin(s, f) else AddMapping(s, f)
  }

  function At(x: Race, c: nat, p: Phase): Race
    requires c < |x.phases|
  {
    x.(phases := x.phases[c := p])
  }

  ghost function Happens(x: Race, f: nat, e: Event): Race
    requires Enabled(x, f, e)
  {
    match e
    case Drop(c) => At(x, c, Looking).(s := Dropped(x.s, f, x.phases[c].pin))
    case Look(c) => At(x, c, if x.s.owner[f].Pending? then ReadingPins else Finished)
    case ReadPins(c) => At(x, c, if x.s.pinned[f] == 0 then ReadingMaps else Finished)
    case ReadMaps(c) =>
      if x.s.mappings[f] == 0 then At(x, c, Releasing).(passed := x.passed + {c}) else At(x, c, Finished)
    case Give(c, k) =>
      var y := At(x, c, Finished).(releases := x.releases + 1);
      match Release(x.s, k, f) {
        case Panic => y.(panicked := true)
        case Done(s') => y.(s := s', robbed := x.robbed || !x.s.owner[f].Pending?)
      }
    case Take(k) => x.(s := Pop(x.s, k).0)
    case Hold(pin) =>
      var y := x.(s := Held(x.s, f, pin));
      if pin then y.(pinsHeld := x.pinsHeld + 1) else y.(mapsHeld := x.mapsHeld + 1)
    case Discard(k) =>
      var y := x.(s := Release(x.s, k, f).state);
      if Idle(x.s, f) then y.(discarded := x.discarded + 1) else y.(renewed := x.renewed || x.releases < 2)
  }

  // ---------- the invariant ----------

  function In(phases: seq<Phase>, p: Phase): set<nat> {
    set c: nat | c < |phases| && phases[c] == p
  }

  /** No reference is left. */
  predicate AllDropped(phases: seq<Phase>) {
    forall c :: 0 <= c < |phases| ==> !phases[c].Holding?
  }

  predicate Busy(p: Phase) {
    p.Looking? || p.ReadingPins? || p.ReadingMaps?
  }

  /** The counters count the references. */
  ghost predicate Counted(x: Race, f: nat) {
    && f < |x.s.pinned| && f < |x.s.mappings| && x.s.pinned[f] < U32 && x.s.mappings[f] < U32
    && x.s.pinned[f] == |In(x.phases, Holding(true))| + x.pinsHeld
    && x.s.mappings[f] == |In(x.phases, Holding(false))| + x.mapsHeld
  }

  predicate Harmed(x: Race) {
    x.panicked || x.robbed
  }

  /** The first release finds the frame Pending; a later one does if and only if it was renewed. */
  ghost predicate Owned(x: Race, f: nat, gen: nat) {
    && ListInv(x.s, []) && Valid(x.s) && f < |x.s.owner|
    && (x.s.owner[f].Pending? || x.s.owner[f].Free? || x.s.owner[f].Kernel?)
    && (x.releases == 0 ==>
          x.s.owner[f].Pending? && x.pinsHeld == 0 && x.mapsHeld == 0 && x.discarded == 0 && !x.renewed)
    && (Harmed(x) <==> x.releases >= 2 && !x.renewed)
    && (x.renewed ==> x.s.owner[f].Pending?)
    && (x.releases > 0 && x.s.owner[f].Pending? ==> x.pinsHeld + x.mapsHeld > 0)
    && (x.releases == 1 && !x.renewed ==> !x.s.owner[f].Pending?)
    && (!Harmed(x) ==> x.s.gen[f] == (gen + (if x.releases == 0 then 0 else 1) + x.discarded) % U32)
  }

  /** Checks pass only after the last reference is dropped, and each is followed by one release. */
  ghost predicate Passing(x: Race) {
    && In(x.phases, Releasing) <= x.passed && |x.passed| == x.releases + |In(x.phases, Releasing)|
    && (forall c :: c in x.passed ==> c < |x.phases| && (x.phases[c].Releasing? || x.phases[c].Finished?))
    && (x.passed != {} ==> AllDropped(x.phases))
    && (In(x.phases, ReadingMaps) != {} ==> In(x.phases, Holding(true)) == {})
  }

  /** Once all references are dropped, some check has passed or is under way. */
  ghost predicate Alive(x: Race) {
    x.passed == {} && AllDropped(x.phases) ==> exists c :: 0 <= c < |x.phases| && Busy(x.phases[c])
  }

  ghost predicate RaceInv(x: Race, f: nat, gen: nat) {
    Counted(x, f) && Owned(x, f, gen) && Passing(x) && Alive(x)
  }

  lemma InMoved(phases: seq<Phase>, c: nat, p: Phase, q: Phase)
    requires c < |phases|
    ensures var phases' := phases[c := p];
            In(phases', q) == if p == q then In(phases, q) + {c} else In(phases, q) - {c}
    ensures c in In(phases, q) <==> phases[c] == q
  {
  }

  lemma DroppedKeeps(s: State, f: nat, pin: bool)
    requires ListInv(s, []) && Valid(s) && f < |s.owner|
    ensures ListInv(Dropped(s, f, pin), []) && Valid(Dropped(s, f, pin))
  {
    var s' := Dropped(s, f, pin);
    assert Anchors(s', []) == Anchors(s, []);
    forall g: nat
      ensures IsFree(s', g) == IsFree(s, g)
    {
    }
  }

  // ---------- the steps ----------

  lemma DropKeeps(x: Race, f: nat, gen: nat, c: nat)
    requires RaceInv(x, f, gen) && Enabled(x, f, Drop(c))
    ensures RaceInv(Happens(x, f, Drop(c)), f, gen)
  {
    hide ListInv, In, Passing, Counted;
    var x' := Happens(x, f, Drop(c));
    DroppedKeeps(x.s, f, x.phases[c].pin);
    DropCounted(x, f, c);
    DropPassing(x, x', c);
    assert Busy(x'.phases[c]);
  }

  lemma DropCounted(x: Race, f: nat, c: nat)
    requires Counted(x, f) && c < |x.phases| && x.phases[c].Holding?
    ensures Counted(At(x, c, Looking).(s := Dropped(x.s, f, x.phases[c].pin)), f)
  {
    hide In;
    var p := x.phases[c];
    InMoved(x.phases, c, Looking, p);
    Unmoved(x.phases, c, Looking, Holding(!p.pin));
    Taken(In(x.phases, p), c);
  }

  lemma Taken(s: set<nat>, c: nat)
    requires c in s
    ensures |s - {c}| == |s| - 1
  {
  }

  lemma DropPassing(x: Race, x': Race, c: nat)
    requires Passing(x) && c < |x.phases| && x.phases[c].Holding?
    requires x'.phases == x.phases[c := Looking] && x'.passed == x.passed && x'.releases == x.releases
    ensures Passing(x')
  {
    hide In;
    InMoved(x.phases, c, Looking, Holding(true));
    Unmoved(x.phases, c, Looking, Releasing);
    Unmoved(x.phases, c, Looking, ReadingMaps);
  }

  /** A CPU goes from one read of the check to the next, or the check fails. */
  lemma CheckKeeps(x: Race, f: nat, gen: nat, c: nat, p: Phase)
    requires RaceInv(x, f, gen) && c < |x.phases| && Busy(x.phases[c]) && (Busy(p) || p.Finished?)
    requires p.ReadingMaps? ==> In(x.phases, Holding(true)) == {}
    requires p.Finished? ==> x.passed != {} || !AllDropped(x.phases)
    ensures RaceInv(At(x, c, p), f, gen)
  {
    hide ListInv, Passing, Alive;
    Unmoved(x.phases, c, p, Holding(true));
    Unmoved(x.phases, c, p, Holding(false));
    CheckPassing(x, c, p);
    CheckAlive(x, c, p);
  }

  /** A move that touches neither phase leaves the CPUs in a phase as they are. */
  lemma Unmoved(phases: seq<Phase>, c: nat, p: Phase, q: Phase)
    requires c < |phases| && p != q && phases[c] != q
    ensures In(phases[c := p], q) == In(phases, q)
  {
    InMoved(phases, c, p, q);
  }

  lemma CheckPassing(x: Race, c: nat, p: Phase)
    requires Passing(x) && c < |x.phases| && Busy(x.phases[c]) && (Busy(p) || p.Finished?)
    requires p.ReadingMaps? ==> In(x.phases, Holding(true)) == {}
    ensures Passing(At(x, c, p))
  {
    hide In;
    Unmoved(x.phases, c, p, Holding(true));
    Unmoved(x.phases, c, p, Releasing);
    InMoved(x.phases, c, p, ReadingMaps);
  }

  lemma CheckAlive(x: Race, c: nat, p: Phase)
    requires c < |x.phases| && Busy(x.phases[c]) && (Busy(p) || p.Finished?)
    requires p.Finished? ==> x.passed != {} || !AllDropped(x.phases)
    ensures Alive(At(x, c, p))
  {
    var x' := At(x, c, p);
    if !AllDropped(x.phases) {
      var d :| 0 <= d < |x.phases| && x.phases[d].Holding?;
      assert x'.phases[d].Holding?;
    } else if Busy(p) {
      assert Busy(x'.phases[c]);
    }
  }

  /** A passing check. */
  lemma PassKeeps(x: Race, f: nat, gen: nat, c: nat)
    requires RaceInv(x, f, gen) && Enabled(x, f, ReadMaps(c)) && x.s.mappings[f] == 0
    ensures RaceInv(Happens(x, f, ReadMaps(c)), f, gen)
  {
    hide ListInv, In, Passing;
    Unmoved(x.phases, c, Releasing, Holding(true));
    Unmoved(x.phases, c, Releasing, Holding(false));
    PassPassing(x, f, c);
  }

  lemma PassPassing(x: Race, f: nat, c: nat)
    requires Counted(x, f) && Passing(x) && c < |x.phases| && x.phases[c].ReadingMaps? && x.s.mappings[f] == 0
    ensures Passing(At(x, c, Releasing).(passed := x.passed + {c}))
  {
    hide In;
    Unmoved(x.phases, c, Releasing, Holding(true));
    InMoved(x.phases, c, Releasing, Releasing);
    InMoved(x.phases, c, Releasing, ReadingMaps);
    NoHolders(x.phases);
    assert c !in x.passed;
  }

  /** Nobody holds a pin and nobody a mapping: every reference is dropped. */
  lemma NoHolders(phases: seq<Phase>)
    ensures In(phases, Holding(true)) == {} && In(phases, Holding(false)) == {} <==> AllDropped(phases)
  {
    if In(phases, Holding(true)) == {} && In(phases, Holding(false)) == {} {
      forall c | 0 <= c < |phases|
        ensures !phases[c].Holding?
      {
        assert c !in In(phases, Holding(true)) && c !in In(phases, Holding(false));
      }
    }
  }

  /** A release. */
  lemma GiveKeeps(x: Race, f: nat, gen: nat, c: nat, k: nat)
    requires RaceInv(x, f, gen) && Enabled(x, f, Give(c, k))
    ensures RaceInv(Happens(x, f, Give(c, k)), f, gen)
  {
    hide ListInv, In, Owned, Passing;
    Unmoved(x.phases, c, Finished, Holding(true));
    Unmoved(x.phases, c, Finished, Holding(false));
    GivePassing(x, Happens(x, f, Give(c, k)), c);
    GiveOwned(x, f, gen, c, k);
  }

  lemma GivePassing(x: Race, x': Race, c: nat)
    requires Passing(x) && c < |x.phases| && x.phases[c].Releasing?
    requires x'.phases == x.phases[c := Finished] && x'.passed == x.passed && x'.releases == x.releases + 1
    ensures Passing(x') && Alive(x')
    ensures In(x.phases, Holding(true)) == {} && In(x.phases, Holding(false)) == {}
  {
    hide In;
    Unmoved(x.phases, c, Finished, Holding(true));
    InMoved(x.phases, c, Finished, Releasing);
    Unmoved(x.phases, c, Finished, ReadingMaps);
    Taken(In(x.phases, Releasing), c);
    assert c in x.passed;
    NoHolders(x.phases);
  }

  lemma GiveOwned(x: Race, f: nat, gen: nat, c: nat, k: nat)
    requires Counted(x, f) && Owned(x, f, gen) && Enabled(x, f, Give(c, k))
    requires In(x.phases, Holding(true)) == {} && In(x.phases, Holding(false)) == {}
    ensures Owned(Happens(x, f, Give(c, k)), f, gen)
  {
    hide ListInv, In;
    if !x.s.owner[f].Free? {
      Pushed(x.s, k, f);
      Deferred(x.s, f);
    }
  }

  /** An owner change that concerns no Free frame touches no list. */
  lemma Deferred(s: State, f: nat)
    requires ListInv(s, []) && f < |s.owner| && !s.owner[f].Free?
    ensures var s' := s.(owner := s.owner[f := Pending]); ListInv(s', []) && Valid(s')
  {
    var s' := s.(owner := s.owner[f := Pending]);
    assert Anchors(s', []) == Anchors(s, []);
    forall g: nat
      ensures IsFree(s', g) == IsFree(s, g)
    {
    }
  }

  /** A reference of a caller that was handed the frame. */
  lemma HoldKeeps(x: Race, f: nat, gen: nat, pin: bool)
    requires RaceInv(x, f, gen) && Enabled(x, f, Hold(pin))
    ensures RaceInv(Happens(x, f, Hold(pin)), f, gen)
  {
    hide ListInv, In;
    HeldKeeps(x.s, f, pin);
  }

  lemma HeldKeeps(s: State, f: nat, pin: bool)
    requires ListInv(s, []) && Valid(s) && f < |s.owner|
    ensures ListInv(Held(s, f, pin), []) && Valid(Held(s, f, pin))
  {
    var s' := Held(s, f, pin);
    assert Anchors(s', []) == Anchors(s, []);
    forall g: nat
      ensures IsFree(s', g) == IsFree(s, g)
    {
    }
  }

  /** A release by a caller that was handed the frame. */
  lemma DiscardKeeps(x: Race, f: nat, gen: nat, k: nat)
    requires RaceInv(x, f, gen) && Enabled(x, f, Discard(k))
    ensures RaceInv(Happens(x, f, Discard(k)), f, gen)
  {
    hide ListInv, In;
    Pushed(x.s, k, f);
    Deferred(x.s, f);
    HandedAfterDrop(x, f, gen);
  }

  /** Whoever has been handed the frame was handed it after the last reference was dropped. */
  lemma HandedAfterDrop(x: Race, f: nat, gen: nat)
    requires RaceInv(x, f, gen) && f < |x.s.owner| && !x.s.owner[f].Pending?
    ensures In(x.phases, Holding(true)) == {} && In(x.phases, Holding(false)) == {} && x.releases > 0
  {
    hide ListInv, In;
    NoHolders(x.phases);
  }

  lemma Pushed(s: State, k: nat, f: nat)
    requires ListInv(s, []) && k < |s.shards| && f < |s.owner| && !s.owner[f].Free?
    ensures Valid(s) && ListInv(Push(s, k, f), []) && Valid(Push(s, k, f))
  {
    PushKeeps(s, [], k, f);
  }

  /** A pop, of this frame or another. */
  lemma TakeKeeps(x: Race, f: nat, gen: nat, k: nat)
    requires RaceInv(x, f, gen) && Enabled(x, f, Take(k))
    ensures RaceInv(Happens(x, f, Take(k)), f, gen)
  {
    hide ListInv, In;
    PopKeeps(x.s, [], k);
    Sound(Pop(x.s, k).0);
  }

  /** A Free frame that heads a shard is the one that the next pop there hands out. */
  lemma HandedOut(x: Race, f: nat, gen: nat, k: nat)
    requires RaceInv(x, f, gen) && Enabled(x, f, Take(k)) && x.s.owner[f].Free? && x.s.shards[k].head == f
    ensures Happens(x, f, Take(k)).s.owner[f].Kernel?
  {
    hide In;
    PopKeeps(x.s, [], k);
  }

  lemma Sound(s: State)
    requires ListInv(s, [])
    ensures Valid(s)
  {
  }

  lemma StepKeeps(x: Race, f: nat, gen: nat, e: Event)
    requires RaceInv(x, f, gen) && Enabled(x, f, e)
    ensures RaceInv(Happens(x, f, e), f, gen)
  {
    hide RaceInv;
    match e {
      case Drop(c) => DropKeeps(x, f, gen, c);
      case Look(c) =>
        ChecksExact(x, f, gen);
        CheckKeeps(x, f, gen, c, if x.s.owner[f].Pending? then ReadingPins else Finished);
      case ReadPins(c) =>
        ChecksExact(x, f, gen);
        CheckKeeps(x, f, gen, c, if x.s.pinned[f] == 0 then ReadingMaps else Finished);
      case ReadMaps(c) =>
        ChecksExact(x, f, gen);
        if x.s.mappings[f] == 0 { PassKeeps(x, f, gen, c); } else { CheckKeeps(x, f, gen, c, Finished); }
      case Give(c, k) => GiveKeeps(x, f, gen, c, k);
      case Take(k) => TakeKeeps(x, f, gen, k);
      case Hold(pin) => HoldKeeps(x, f, gen, pin);
      case Discard(k) => DiscardKeeps(x, f, gen, k);
    }
  }

  /**
   What the three reads of the check find: Pending exactly before the first release or once the frame
   is renewed, and a zero count exactly when all references of its kind are dropped and no caller has
   taken a new one.
   */
  lemma ChecksExact(x: Race, f: nat, gen: nat)
    requires RaceInv(x, f, gen)
    ensures f < |x.s.owner| && f < |x.s.pinned| && f < |x.s.mappings|
    ensures !Harmed(x) ==> (x.s.owner[f].Pending? <==> x.releases == 0 || x.renewed)
    ensures x.s.pinned[f] == 0 <==> In(x.phases, Holding(true)) == {} && x.pinsHeld == 0
    ensures x.s.mappings[f] == 0 <==> In(x.phases, Holding(false)) == {} && x.mapsHeld == 0
    ensures !x.s.owner[f].Pending? ==> x.passed != {}
    ensures x.s.owner[f].Pending? && x.pinsHeld == 0 && x.mapsHeld == 0 ==> x.releases == 0
    ensures x.s.pinned[f] > 0 || x.s.mappings[f] > 0 ==> x.passed != {} || !AllDropped(x.phases)
  {
    hide ListInv, In;
    NoHolders(x.phases);
  }

  // ---------- runs ----------

  ghost predicate IsRun(trace: seq<Race>, events: seq<Event>, f: nat) {
    && |trace| == |events| + 1
    && forall k :: 0 <= k < |events| ==>
         Enabled(trace[k], f, events[k]) && trace[k + 1] == Happens(trace[k], f, events[k])
  }

  /** A Pending frame whose references are all in the hands of CPUs about to drop them. */
  ghost predicate Initial(x: Race, f: nat) {
    && ListInv(x.s, []) && Valid(x.s) && f < |x.s.owner| && x.s.owner[f].Pending?
    && x.s.pinned[f] < U32 && x.s.mappings[f] < U32 && x.s.gen[f] < U32
    && x.s.pinned[f] == |In(x.phases, Holding(true))| && x.s.mappings[f] == |In(x.phases, Holding(false))|
    && x.phases != [] && (forall c :: 0 <= c < |x.phases| ==> x.phases[c].Holding?)
    && x.passed == {} && x.releases == 0 && !x.robbed && !x.panicked
    && x.pinsHeld == 0 && x.mapsHeld == 0 && x.discarded == 0 && !x.renewed
  }

  lemma InitialInv(x: Race, f: nat)
    requires Initial(x, f)
    ensures RaceInv(x, f, x.s.gen[f])
  {
    hide ListInv;
    assert In(x.phases, Releasing) == {} && In(x.phases, ReadingMaps) == {};
    assert x.phases[0].Holding?;
  }

  lemma {:induction false} RunsKeep(trace: seq<Race>, events: seq<Event>, f: nat, k: nat)
    requires IsRun(trace, events, f) && Initial(trace[0], f) && k < |trace|
    ensures f < |trace[0].s.gen| && RaceInv(trace[k], f, trace[0].s.gen[f])
  {
    hide RaceInv, Enabled, Happens;
    InitialInv(trace[0], f);
    if k > 0 {
      RunsKeep(trace, events, f, k - 1);
      StepKeeps(trace[k - 1], f, trace[0].s.gen[f], events[k - 1]);
    }
  }

  /** Every CPU is done, or the kernel has stopped. */
  predicate Complete(x: Race) {
    x.panicked || forall c :: 0 <= c < |x.phases| ==> x.phases[c].Finished?
  }

}
