/**
 Counting free frames two ways: the lengths recorded on the lists, and the owners in the frame
 table.  They agree because every Free frame is met exactly once.
 */
module Census {
  import opened Frames
  import opened Pmm
  import opened FreeLists

  ghost function Counts(anchors: seq<Shard>): nat {
    if anchors == [] then 0 else anchors[0].count + Counts(anchors[1..])
  }

  lemma {:induction false} CountsAppend(anchors: seq<Shard>, a: Shard)
    ensures Counts(anchors + [a]) == Counts(anchors) + a.count
  {
    if anchors == [] {
      assert anchors + [a] == [a] && [a][1..] == [];
    } else {
      assert (anchors + [a])[1..] == anchors[1..] + [a];
      CountsAppend(anchors[1..], a);
    }
  }

  function CountFree(owner: seq<Owner>): nat {
    if owner == [] then 0
    else CountFree(owner[..|owner| - 1]) + if owner[|owner| - 1].Free? then 1 else 0
  }

  lemma {:induction false} CountFreeUpdate(owner: seq<Owner>, f: nat, o: Owner)
    requires f < |owner|
    ensures CountFree(owner[f := o]) + (if owner[f].Free? then 1 else 0) == CountFree(owner) + if o.Free? then 1 else 0
  {
    var n := |owner| - 1;
    if f == n {
      assert owner[f := o][..n] == owner[..n];
    } else {
      assert owner[f := o][..n] == owner[..n][f := o];
      CountFreeUpdate(owner[..n], f, o);
    }
  }

  lemma {:induction false} NoneFree(owner: seq<Owner>)
    requires forall f :: 0 <= f < |owner| ==> !owner[f].Free?
    ensures CountFree(owner) == 0
  {
    if owner != [] { NoneFree(owner[..|owner| - 1]); }
  }

  // ---------- summing over frames ----------

  /** Visits to frames below `n`. */
  ghost function VisitsBelow(ram: Ram, head: nat, count: nat, n: nat): nat {
    if n == 0 then 0 else VisitsBelow(ram, head, count, n - 1) + Visits(ram, head, count, n - 1)
  }

  ghost function MeetingsBelow(ram: Ram, anchors: seq<Shard>, n: nat): nat {
    if n == 0 then 0 else MeetingsBelow(ram, anchors, n - 1) + Meetings(ram, anchors, n - 1)
  }

  lemma {:induction false} NoVisits(ram: Ram, head: nat, n: nat)
    ensures VisitsBelow(ram, head, 0, n) == 0
  {
    if n > 0 { NoVisits(ram, head, n - 1); }
  }

  lemma {:induction false} VisitsBelowStep(ram: Ram, head: nat, count: nat, n: nat)
    requires count > 0
    ensures VisitsBelow(ram, head, count, n)
         == VisitsBelow(ram, Next(ram, head), count - 1, n) + if head < n then 1 else 0
    decreases n
  {
    if n > 0 { VisitsBelowStep(ram, head, count, n - 1); }
  }

  /** A list that stays below `n` is met `count` times in all. */
  lemma {:induction false} ListLength(ram: Ram, head: nat, count: nat, n: nat)
    requires forall f: nat :: Visits(ram, head, count, f) > 0 ==> f < n
    ensures VisitsBelow(ram, head, count, n) == count
    decreases count
  {
    if count == 0 {
      NoVisits(ram, head, n);
    } else {
      assert Visits(ram, head, count, head) > 0;
      VisitsBelowStep(ram, head, count, n);
      var next, rest := Next(ram, head), count - 1;
      forall f: nat | Visits(ram, next, rest, f) > 0
        ensures f < n
      {
        assert Visits(ram, head, count, f) > 0;
      }
      ListLength(ram, next, rest, n);
    }
  }

  lemma {:induction false} NothingMet(ram: Ram, n: nat)
    ensures MeetingsBelow(ram, [], n) == 0
  {
    if n > 0 { NothingMet(ram, n - 1); }
  }

  lemma {:induction false} MeetingsBelowStep(ram: Ram, anchors: seq<Shard>, n: nat)
    requires anchors != []
    ensures MeetingsBelow(ram, anchors, n)
         == VisitsBelow(ram, anchors[0].head, anchors[0].count, n) + MeetingsBelow(ram, anchors[1..], n)
    decreases n
  {
    if n > 0 { MeetingsBelowStep(ram, anchors, n - 1); }
  }

  lemma {:induction false} ListLengths(ram: Ram, anchors: seq<Shard>, n: nat)
    requires forall f: nat :: Meetings(ram, anchors, f) > 0 ==> f < n
    ensures MeetingsBelow(ram, anchors, n) == Counts(anchors)
    decreases |anchors|
  {
    if anchors == [] {
      NothingMet(ram, n);
    } else {
      var a, rest := anchors[0], anchors[1..];
      MeetingsBelowStep(ram, anchors, n);
      assert forall f: nat :: Meetings(ram, anchors, f) == Visits(ram, a.head, a.count, f) + Meetings(ram, rest, f);
      ListLength(ram, a.head, a.count, n);
      ListLengths(ram, rest, n);
    }
  }

  lemma {:induction false} FreeBelow(s: State, n: nat)
    requires ListInv(s, []) && n <= |s.owner|
    ensures MeetingsBelow(s.ram, Anchors(s, []), n) == CountFree(s.owner[..n])
    decreases n
  {
    if n > 0 {
      FreeBelow(s, n - 1);
      assert s.owner[..n][..n - 1] == s.owner[..n - 1];
    }
  }

  /** The lengths recorded on all lists add up to the number of Free frames. */
  lemma CountsAreFree(s: State)
    requires ListInv(s, [])
    ensures Counts(Anchors(s, [])) == CountFree(s.owner)
  {
    var an := Anchors(s, []);
    forall f: nat | Meetings(s.ram, an, f) > 0
      ensures f < |s.owner|
    {
      assert IsFree(s, f);
    }
    ListLengths(s.ram, an, |s.owner|);
    FreeBelow(s, |s.owner|);
    assert s.owner[..|s.owner|] == s.owner;
  }

  // ---------- walking one list ----------

  /** The frame met after `i` of a list's `count` steps is Free. */
  lemma ListedIsFree(s: State, k: nat, i: nat)
    requires ListInv(s, []) && k < |Anchors(s, [])| && i < Anchors(s, [])[k].count
    ensures IsFree(s, Follow(s.ram, Anchors(s, [])[k].head, i))
  {
    var an := Anchors(s, []);
    var a := an[k];
    var f := Follow(s.ram, a.head, i);
    VisitsSplit(s.ram, a.head, i, a.count - i, f);
    MeetingsContain(s.ram, an, k, f);
  }

  /** A list shows the end marker after its `count` steps and not before. */
  lemma EndsAtCount(s: State, k: nat, i: nat)
    requires ListInv(s, []) && k < |Anchors(s, [])| && i <= Anchors(s, [])[k].count
    ensures Follow(s.ram, Anchors(s, [])[k].head, i) == LIST_END <==> i == Anchors(s, [])[k].count
  {
    if i < Anchors(s, [])[k].count { ListedIsFree(s, k, i); }
  }
}
