/**
 Which schedules of the drops in `DrainRaces` are harmless, told from the order of their steps alone.
 */
module DrainSchedules {
  import opened Frames
  import opened DrainRaces

  // ---------- counting steps ----------

  /** The releases among some steps. */
  function Gives(events: seq<Event>): nat {
    if events == [] then 0 else Gives(events[..|events| - 1]) + if events[|events| - 1].Give? then 1 else 0
  }

  /** Every CPU with a reference of this kind has dropped it, and no other caller has taken one. */
  ghost predicate Cleared(phases: seq<Phase>, events: seq<Event>, pin: bool) {
    && (forall c: nat :: c < |phases| && phases[c] == Holding(pin) ==> Drop(c) in events)
    && Hold(pin) !in events
  }

  /**
   The check of CPU `c` passes: it looks at the owner before any release, reads the pins once they are
   cleared and the mappings once they are.
   */
  ghost predicate Passes(phases: seq<Phase>, events: seq<Event>, c: nat) {
    exists i, j, k :: 0 <= i < j < k < |events| && PassesAt(phases, events, c, i, j, k)
  }

  ghost predicate PassesAt(phases: seq<Phase>, events: seq<Event>, c: nat, i: nat, j: nat, k: nat)
    requires i < j < k < |events|
  {
    && events[i] == Look(c) && Gives(events[..i]) == 0
    && events[j] == ReadPins(c) && Cleared(phases, events[..j], true)
    && events[k] == ReadMaps(c) && Cleared(phases, events[..k], false)
  }

  /** Before a second release, a caller that had taken a reference to the frame released it. */
  ghost predicate RenewedBy(events: seq<Event>) {
    exists i, j :: 0 <= i < j < |events| && events[i].Hold? && events[j].Discard? && Gives(events[..j]) < 2
  }

  // ---------- what the state remembers of the steps ----------

  ghost predicate Remembers(first: Race, events: seq<Event>, x: Race) {
    && x.releases == Gives(events)
    && (x.pinsHeld == 0 <==> Hold(true) !in events) && (x.mapsHeld == 0 <==> Hold(false) !in events)
    && SamePhases(first.phases, events, x.phases)
  }

  /** A CPU holds its reference exactly until it drops it. */
  ghost predicate SamePhases(first: seq<Phase>, events: seq<Event>, phases: seq<Phase>) {
    && |phases| == |first|
    && (forall c: nat, pin: bool :: c < |phases| ==>
          (phases[c] == Holding(pin) <==> first[c] == Holding(pin) && Drop(c) !in events))
  }

  lemma RemembersStep(first: Race, events: seq<Event>, x: Race, f: nat, e: Event)
    requires Remembers(first, events, x) && Enabled(x, f, e)
    ensures Remembers(first, events + [e], Happens(x, f, e))
  {
    hide SamePhases;
    var all := events + [e];
    assert all[..|all| - 1] == events;
    PhasesStep(first, events, x, f, e);
  }

  lemma PhasesStep(first: Race, events: seq<Event>, x: Race, f: nat, e: Event)
    requires SamePhases(first.phases, events, x.phases) && Enabled(x, f, e)
    ensures SamePhases(first.phases, events + [e], Happens(x, f, e).phases)
  {
    var phases' := Happens(x, f, e).phases;
    forall c: nat, pin: bool | c < |phases'|
      ensures phases'[c] == Holding(pin) <==> first.phases[c] == Holding(pin) && Drop(c) !in events + [e]
    {
      assert Drop(c) in events + [e] <==> Drop(c) in events || e == Drop(c);
    }
  }

  lemma {:induction false} RunRemembers(trace: seq<Race>, events: seq<Event>, f: nat, k: nat)
    requires IsRun(trace, events, f) && Initial(trace[0], f) && k < |trace|
    ensures Remembers(trace[0], events[..k], trace[k])
  {
    hide Enabled, Happens, Remembers, Initial;
    if k == 0 {
      assert events[..0] == [];
      RemembersNothing(trace[0], f);
    } else {
      RunRemembers(trace, events, f, k - 1);
      RemembersStep(trace[0], events[..k - 1], trace[k - 1], f, events[k - 1]);
      assert events[..k] == events[..k - 1] + [events[k - 1]];
    }
  }

  lemma RemembersNothing(x: Race, f: nat)
    requires Initial(x, f)
    ensures Remembers(x, [], x)
  {
  }

  /** A counter reads zero exactly when its references are cleared. */
  lemma ZeroIsCleared(trace: seq<Race>, events: seq<Event>, f: nat, k: nat)
    requires IsRun(trace, events, f) && Initial(trace[0], f) && k < |trace|
    ensures f < |trace[k].s.owner| && f < |trace[k].s.pinned| && f < |trace[k].s.mappings|
    ensures trace[k].s.pinned[f] == 0 <==> Cleared(trace[0].phases, events[..k], true)
    ensures trace[k].s.mappings[f] == 0 <==> Cleared(trace[0].phases, events[..k], false)
  {
    hide Initial, RaceInv;
    RunsKeep(trace, events, f, k);
    RunRemembers(trace, events, f, k);
    ChecksExact(trace[k], f, trace[0].s.gen[f]);
    NoneHolding(trace[0], events[..k], trace[k], true);
    NoneHolding(trace[0], events[..k], trace[k], false);
  }

  lemma NoneHolding(first: Race, events: seq<Event>, x: Race, pin: bool)
    requires Remembers(first, events, x)
    ensures In(x.phases, Holding(pin)) == {} && Hold(pin) !in events <==> Cleared(first.phases, events, pin)
  {
    if In(x.phases, Holding(pin)) == {} {
      forall c: nat | c < |first.phases| && first.phases[c] == Holding(pin)
        ensures Drop(c) in events
      {
        assert c !in In(x.phases, Holding(pin));
      }
    }
    if Cleared(first.phases, events, pin) {
      forall c: nat | c < |x.phases|
        ensures x.phases[c] != Holding(pin)
      {
      }
    }
  }

  // ---------- the trail of a passed check ----------

  ghost predicate LookedAt(trace: seq<Race>, events: seq<Event>, f: nat, c: nat, i: nat) {
    && i < |events| && i < |trace| && events[i] == Look(c)
    && f < |trace[i].s.owner| && trace[i].s.owner[f].Pending?
  }

  ghost predicate PinsAt(trace: seq<Race>, events: seq<Event>, f: nat, c: nat, j: nat) {
    && j < |events| && j < |trace| && events[j] == ReadPins(c)
    && f < |trace[j].s.pinned| && trace[j].s.pinned[f] == 0
  }

  ghost predicate MapsAt(trace: seq<Race>, events: seq<Event>, f: nat, c: nat, k: nat) {
    && k < |events| && k < |trace| && events[k] == ReadMaps(c)
    && f < |trace[k].s.mappings| && trace[k].s.mappings[f] == 0
  }

  /** How a CPU gets from one phase of its check to the next. */
  lemma PhaseStep(x: Race, f: nat, e: Event, c: nat)
    requires Enabled(x, f, e) && c < |x.phases|
    ensures var x' := Happens(x, f, e);
            && |x'.phases| == |x.phases|
            && (x'.phases[c].ReadingPins? ==> x.phases[c].ReadingPins? || (e == Look(c) && x.s.owner[f].Pending?))
            && (x'.phases[c].ReadingMaps? ==>
                  x.phases[c].ReadingMaps? || (x.phases[c].ReadingPins? && e == ReadPins(c) && x.s.pinned[f] == 0))
            && (c in x'.passed ==>
                  c in x.passed || (x.phases[c].ReadingMaps? && e == ReadMaps(c) && x.s.mappings[f] == 0))
            && x.passed <= x'.passed && (x.renewed ==> x'.renewed)
  {
  }

  lemma {:induction false} SameCpus(trace: seq<Race>, events: seq<Event>, f: nat, k: nat)
    requires IsRun(trace, events, f) && k < |trace|
    ensures |trace[k].phases| == |trace[0].phases|
  {
    hide Enabled, Happens;
    if k > 0 {
      SameCpus(trace, events, f, k - 1);
      CpusStep(trace[k - 1], f, events[k - 1]);
    }
  }

  lemma CpusStep(x: Race, f: nat, e: Event)
    requires Enabled(x, f, e)
    ensures |Happens(x, f, e).phases| == |x.phases|
  {
  }

  lemma {:induction false} TrailLook(trace: seq<Race>, events: seq<Event>, f: nat, k: nat, c: nat) returns (i: nat)
    requires IsRun(trace, events, f) && Initial(trace[0], f) && k < |trace|
    requires c < |trace[k].phases| && trace[k].phases[c].ReadingPins?
    ensures i < k && LookedAt(trace, events, f, c, i)
    decreases k
  {
    hide Happens, Enabled;
    assert Enabled(trace[k - 1], f, events[k - 1]);
    ValidThere(trace[k - 1], f, events[k - 1]);
    SameCpus(trace, events, f, k); SameCpus(trace, events, f, k - 1);
    PhaseStep(trace[k - 1], f, events[k - 1], c);
    if trace[k - 1].phases[c].ReadingPins? { i := TrailLook(trace, events, f, k - 1, c); } else { i := k - 1; }
  }

  lemma ValidThere(x: Race, f: nat, e: Event)
    requires Enabled(x, f, e)
    ensures f < |x.s.owner| && f < |x.s.pinned| && f < |x.s.mappings|
  {
  }

  lemma {:induction false} TrailPins(trace: seq<Race>, events: seq<Event>, f: nat, k: nat, c: nat)
    returns (i: nat, j: nat)
    requires IsRun(trace, events, f) && Initial(trace[0], f) && k < |trace|
    requires c < |trace[k].phases| && trace[k].phases[c].ReadingMaps?
    ensures i < j < k && LookedAt(trace, events, f, c, i) && PinsAt(trace, events, f, c, j)
    decreases k
  {
    hide Happens, Enabled, LookedAt;
    assert Enabled(trace[k - 1], f, events[k - 1]);
    ValidThere(trace[k - 1], f, events[k - 1]);
    SameCpus(trace, events, f, k); SameCpus(trace, events, f, k - 1);
    PhaseStep(trace[k - 1], f, events[k - 1], c);
    if trace[k - 1].phases[c].ReadingMaps? {
      i, j := TrailPins(trace, events, f, k - 1, c);
    } else {
      i := TrailLook(trace, events, f, k - 1, c);
      j := k - 1;
    }
  }

  lemma {:induction false} TrailMaps(trace: seq<Race>, events: seq<Event>, f: nat, k: nat, c: nat)
    returns (i: nat, j: nat, l: nat)
    requires IsRun(trace, events, f) && Initial(trace[0], f) && k < |trace|
    requires c < |trace[k].phases| && c in trace[k].passed
    ensures i < j < l < k && LookedAt(trace, events, f, c, i) && PinsAt(trace, events, f, c, j)
    ensures MapsAt(trace, events, f, c, l)
    decreases k
  {
    hide Happens, Enabled, LookedAt, PinsAt;
    assert Enabled(trace[k - 1], f, events[k - 1]);
    ValidThere(trace[k - 1], f, events[k - 1]);
    SameCpus(trace, events, f, k); SameCpus(trace, events, f, k - 1);
    PhaseStep(trace[k - 1], f, events[k - 1], c);
    if c in trace[k - 1].passed {
      i, j, l := TrailMaps(trace, events, f, k - 1, c);
    } else {
      i, j := TrailPins(trace, events, f, k - 1, c);
      l := k - 1;
    }
  }

  lemma {:induction false} Stays(trace: seq<Race>, events: seq<Event>, f: nat, k: nat, n: nat, c: nat)
    requires IsRun(trace, events, f) && k <= n < |trace| && c < |trace[0].phases|
    ensures c in trace[k].passed ==> c in trace[n].passed
    ensures trace[k].renewed ==> trace[n].renewed
    decreases n
  {
    hide Happens, Enabled;
    if k < n {
      Stays(trace, events, f, k, n - 1, c);
      assert Enabled(trace[n - 1], f, events[n - 1]);
      SameCpus(trace, events, f, n - 1);
      PhaseStep(trace[n - 1], f, events[n - 1], c);
    }
  }

  // ---------- who passes ----------

  lemma PrefixHolds(events: seq<Event>, i: nat, j: nat, e: Event)
    requires i <= j <= |events| && e !in events[..j]
    ensures e !in events[..i]
  {
    assert events[..j] == events[..i] + events[i..j];
  }

  /** The first read of a check that passes comes before any release. */
  lemma LookedInTime(trace: seq<Race>, events: seq<Event>, f: nat, c: nat, i: nat, j: nat, k: nat)
    requires IsRun(trace, events, f) && Initial(trace[0], f) && i < j < k < |events|
    requires LookedAt(trace, events, f, c, i) && PinsAt(trace, events, f, c, j) && MapsAt(trace, events, f, c, k)
    ensures PassesAt(trace[0].phases, events, c, i, j, k)
  {
    hide Initial, RaceInv, Enabled, Happens, Gives;
    ZeroIsCleared(trace, events, f, j);
    ZeroIsCleared(trace, events, f, k);
    PrefixHolds(events, i, j, Hold(true));
    PrefixHolds(events, i, k, Hold(false));
    RunsKeep(trace, events, f, i);
    RunRemembers(trace, events, f, i);
    ChecksExact(trace[i], f, trace[0].s.gen[f]);
  }

  /** The CPUs whose check passes, from the order of the steps. */
  lemma PassedExactly(trace: seq<Race>, events: seq<Event>, f: nat, c: nat)
    requires IsRun(trace, events, f) && Initial(trace[0], f) && c < |trace[0].phases|
    ensures c in trace[|events|].passed <==> Passes(trace[0].phases, events, c)
  {
    hide Initial, RaceInv, Enabled, Happens, PassesAt, LookedAt, PinsAt, MapsAt;
    var n := |events|;
    SameCpus(trace, events, f, n);
    if c in trace[n].passed {
      var i, j, k := TrailMaps(trace, events, f, n, c);
      LookedInTime(trace, events, f, c, i, j, k);
    }
    if Passes(trace[0].phases, events, c) {
      var i, j, k :| 0 <= i < j < k < n && PassesAt(trace[0].phases, events, c, i, j, k);
      PassesThere(trace, events, f, c, i, j, k);
      Stays(trace, events, f, k + 1, n, c);
    }
  }

  lemma PassesThere(trace: seq<Race>, events: seq<Event>, f: nat, c: nat, i: nat, j: nat, k: nat)
    requires IsRun(trace, events, f) && Initial(trace[0], f) && i < j < k < |events|
    requires PassesAt(trace[0].phases, events, c, i, j, k)
    ensures c in trace[k + 1].passed
  {
    hide Initial, RaceInv;
    ZeroIsCleared(trace, events, f, k);
    assert Enabled(trace[k], f, events[k]);
  }

  // ---------- renewal ----------

  /** The step that renews the frame, and a reference taken before it. */
  lemma {:induction false} TrailRenewed(trace: seq<Race>, events: seq<Event>, f: nat, k: nat) returns (i: nat, j: nat)
    requires IsRun(trace, events, f) && Initial(trace[0], f) && k < |trace| && trace[k].renewed
    ensures i < j < k && events[i].Hold? && events[j].Discard? && Gives(events[..j]) < 2
    decreases k
  {
    hide Happens, Enabled, RaceInv, Gives;
    var x, e := trace[k - 1], events[k - 1];
    assert Enabled(x, f, e);
    if x.renewed {
      i, j := TrailRenewed(trace, events, f, k - 1);
    } else {
      j := k - 1;
      RunsKeep(trace, events, f, j);
      RunRemembers(trace, events, f, j);
      RenewingStep(x, f, trace[0].s.gen[f], e);
      var pin := x.pinsHeld > 0;
      i := IndexOf(events[..j], Hold(pin));
    }
  }

  lemma IndexOf(events: seq<Event>, e: Event) returns (i: nat)
    requires e in events
    ensures i < |events| && events[i] == e
  {
    i :| 0 <= i < |events| && events[i] == e;
  }

  /** Only a release of a caller that holds references renews the frame, before the second release. */
  lemma RenewingStep(x: Race, f: nat, gen: nat, e: Event)
    requires RaceInv(x, f, gen) && Enabled(x, f, e) && !x.renewed && Happens(x, f, e).renewed
    ensures e.Discard? && x.releases < 2 && x.pinsHeld + x.mapsHeld > 0
  {
    hide In;
    HandedAfterDrop(x, f, gen);
  }

  lemma DiscardRenews(x: Race, f: nat, gen: nat, e: Event)
    requires RaceInv(x, f, gen) && Enabled(x, f, e) && e.Discard? && x.releases < 2 && x.pinsHeld + x.mapsHeld > 0
    ensures Happens(x, f, e).renewed
  {
    hide In;
  }

  lemma RenewedExactly(trace: seq<Race>, events: seq<Event>, f: nat)
    requires IsRun(trace, events, f) && Initial(trace[0], f)
    ensures trace[|events|].renewed <==> RenewedBy(events)
  {
    hide Happens, Enabled, RaceInv, Gives;
    var n := |events|;
    if trace[n].renewed {
      var i, j := TrailRenewed(trace, events, f, n);
    }
    if RenewedBy(events) {
      var i, j :| 0 <= i < j < n && events[i].Hold? && events[j].Discard? && Gives(events[..j]) < 2;
      RunsKeep(trace, events, f, j);
      RunRemembers(trace, events, f, j);
      assert events[..j][i] == events[i];
      assert events[i] == Hold(events[i].pin);
      DiscardRenews(trace[j], f, trace[0].s.gen[f], events[j]);
      StaysRenewed(trace, events, f, j + 1, n);
    }
  }

  lemma StaysRenewed(trace: seq<Race>, events: seq<Event>, f: nat, k: nat, n: nat)
    requires IsRun(trace, events, f) && Initial(trace[0], f) && k <= n < |trace| && trace[k].renewed
    ensures trace[n].renewed
  {
    Stays(trace, events, f, k, n, 0);
  }

  // ---------- the main result ----------

  ghost predicate OnePasses(phases: seq<Phase>, events: seq<Event>) {
    forall c: nat, d: nat ::
      c < |phases| && d < |phases| && Passes(phases, events, c) && Passes(phases, events, d) ==> c == d
  }

  /**
   On every schedule that has run its course some check passes, so the frame is released.  Nobody
   loses the frame and nothing panics if and only if only one check passes, or the frame had been
   handed out, referenced and released again before the second release.  Then its generation counts
   one release by these CPUs.
   */
  lemma DrainExact(trace: seq<Race>, events: seq<Event>, f: nat)
    requires IsRun(trace, events, f) && Initial(trace[0], f) && Complete(trace[|events|])
    ensures var x, phases := trace[|events|], trace[0].phases;
            && (exists c: nat :: c < |phases| && Passes(phases, events, c))
            && x.releases >= 1 && f < |x.s.owner| && (x.s.owner[f].Pending? && !Harmed(x) ==> x.renewed)
            && (!Harmed(x) <==> OnePasses(phases, events) || RenewedBy(events))
            && (!Harmed(x) ==>
                  && f < |x.s.gen| && f < |trace[0].s.gen|
                  && x.s.gen[f] == (trace[0].s.gen[f] + 1 + x.discarded) % U32)
  {
    hide Initial, Enabled, Happens, Passes, RenewedBy, RaceInv;
    var n := |events|;
    RunsKeep(trace, events, f, n);
    RenewedExactly(trace, events, f);
    SameCpus(trace, events, f, n);
    var x, phases := trace[n], trace[0].phases;
    forall c: nat | c < |phases|
      ensures c in x.passed <==> Passes(phases, events, c)
    {
      PassedExactly(trace, events, f, c);
    }
    var c := SomePassed(x, f, trace[0].s.gen[f]);
    OnePassed(x.passed, phases, events, c);
  }

  /** At the end somebody has passed, and as many have as there were releases unless one panicked. */
  lemma SomePassed(x: Race, f: nat, gen: nat) returns (c: nat)
    requires RaceInv(x, f, gen) && Complete(x)
    ensures c in x.passed && c < |x.phases| && f < |x.s.owner| && f < |x.s.gen|
    ensures x.releases >= 1 && (forall d :: d in x.passed ==> 0 <= d < |x.phases|)
    ensures Harmed(x) <==> |x.passed| >= 2 && !x.renewed
    ensures x.s.owner[f].Pending? && !Harmed(x) ==> x.renewed
    ensures !Harmed(x) ==> x.s.gen[f] == (gen + 1 + x.discarded) % U32
  {
    if !x.panicked {
      assert In(x.phases, Releasing) == {};
      assert AllDropped(x.phases);
    }
    assert x.passed != {};
    c :| c in x.passed;
  }

  lemma OnePassed(passed: set<nat>, phases: seq<Phase>, events: seq<Event>, c: nat)
    requires c in passed && forall d :: d in passed ==> d < |phases|
    requires forall d: nat :: d < |phases| ==> (d in passed <==> Passes(phases, events, d))
    ensures |passed| >= 2 <==> !OnePasses(phases, events)
  {
    hide Passes;
    var rest := passed - {c};
    assert passed == rest + {c};
    if rest != {} {
      var d :| d in rest;
      assert Passes(phases, events, c) && Passes(phases, events, d) && c != d;
    } else {
      assert forall d :: d in passed ==> d == c;
    }
  }
}
