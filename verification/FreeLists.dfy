/**
 The free-list invariant: following the in-frame links from every list head for its recorded
 count meets each Free frame exactly once, and no other frame, and then reaches the end marker.
 Counting the meetings states acyclicity, disjointness and completeness at once.
 */
module FreeLists {
  import opened Frames
  import opened Pmm

  /** How often frame `f` is met on all the lists together. */
  ghost function Meetings(ram: Ram, anchors: seq<Shard>, f: nat): nat {
    if anchors == [] then 0
    else Visits(ram, anchors[0].head, anchors[0].count, f) + Meetings(ram, anchors[1..], f)
  }

  ghost function Anchors(s: State, batches: seq<Shard>): seq<Shard> {
    s.shards + [s.global] + batches
  }

  predicate IsFree(s: State, f: nat) {
    f < |s.owner| && s.owner[f].Free?
  }

  /** `batches` are the chains that some CPU has peeled off and not yet spliced. */
  ghost predicate ListInv(s: State, batches: seq<Shard>) {
    && Valid(s)
    && (forall k :: 0 <= k < |s.shards| ==> Terminated(s.ram, s.shards[k]))
    && Terminated(s.ram, s.global)
    && (forall f: nat :: Meetings(s.ram, Anchors(s, batches), f) == if IsFree(s, f) then 1 else 0)
  }

  // ---------- following links ----------

  lemma {:induction false} VisitsSplit(ram: Ram, head: nat, a: nat, b: nat, f: nat)
    ensures Visits(ram, head, a + b, f) == Visits(ram, head, a, f) + Visits(ram, Follow(ram, head, a), b, f)
    ensures Follow(ram, head, a + b) == Follow(ram, Follow(ram, head, a), b)
    decreases a
  {
    if a > 0 { VisitsSplit(ram, Next(ram, head), a - 1, b, f); }
  }

  /** The last frame met is the one reached after `n - 1` steps. */
  lemma VisitsLast(ram: Ram, head: nat, n: nat, f: nat)
    requires n > 0
    ensures var last := Follow(ram, head, n - 1);
            && Visits(ram, head, n, f) == Visits(ram, head, n - 1, f) + (if last == f then 1 else 0)
            && Follow(ram, head, n) == Next(ram, last)
  {
    VisitsSplit(ram, head, n - 1, 1, f);
    var last := Follow(ram, head, n - 1);
    assert Visits(ram, last, 1, f) == (if last == f then 1 else 0) + Visits(ram, Next(ram, last), 0, f);
    assert Follow(ram, last, 1) == Follow(ram, Next(ram, last), 0);
  }

  /** Changing links of frames that a list does not meet leaves the list as it was. */
  lemma {:induction false} VisitsFrame(ram: Ram, ram': Ram, head: nat, n: nat)
    requires forall g :: Visits(ram, head, n, g) > 0 ==> Next(ram', g) == Next(ram, g)
    ensures forall g :: Visits(ram', head, n, g) == Visits(ram, head, n, g)
    ensures Follow(ram', head, n) == Follow(ram, head, n)
    decreases n
  {
    if n > 0 {
      assert Visits(ram, head, n, head) > 0;
      forall g | Visits(ram, Next(ram, head), n - 1, g) > 0
        ensures Next(ram', g) == Next(ram, g)
      {
        assert Visits(ram, head, n, g) > 0;
      }
      VisitsFrame(ram, ram', Next(ram, head), n - 1);
    }
  }

  lemma NextOfSetNext(ram: Ram, f: nat, next: nat, g: nat)
    requires ValidRam(ram) && f < |ram| && next < U32
    ensures Next(SetNext(ram, f, next), g) == if g == f then next else Next(ram, g)
    ensures ValidRam(SetNext(ram, f, next))
  {
  }

  // ---------- counting meetings ----------

  lemma {:induction false} MeetingsUpdate(ram: Ram, anchors: seq<Shard>, k: nat, a: Shard, f: nat)
    requires k < |anchors|
    ensures Meetings(ram, anchors[k := a], f) + Visits(ram, anchors[k].head, anchors[k].count, f)
         == Meetings(ram, anchors, f) + Visits(ram, a.head, a.count, f)
    decreases |anchors|
  {
    if k == 0 {
      assert anchors[k := a][1..] == anchors[1..];
    } else {
      assert anchors[k := a][1..] == anchors[1..][k - 1 := a];
      MeetingsUpdate(ram, anchors[1..], k - 1, a, f);
    }
  }

  lemma {:induction false} MeetingsContain(ram: Ram, anchors: seq<Shard>, k: nat, f: nat)
    requires k < |anchors|
    ensures Visits(ram, anchors[k].head, anchors[k].count, f) <= Meetings(ram, anchors, f)
    decreases |anchors|
  {
    if k > 0 { MeetingsContain(ram, anchors[1..], k - 1, f); }
  }

  /** Changing links of unlisted frames changes no list. */
  lemma {:induction false} MeetingsFrame(ram: Ram, ram': Ram, anchors: seq<Shard>)
    requires forall f :: Meetings(ram, anchors, f) > 0 ==> Next(ram', f) == Next(ram, f)
    ensures forall f :: Meetings(ram', anchors, f) == Meetings(ram, anchors, f)
    ensures forall k :: 0 <= k < |anchors| ==>
              Follow(ram', anchors[k].head, anchors[k].count) == Follow(ram, anchors[k].head, anchors[k].count)
    decreases |anchors|
  {
    if anchors != [] {
      var a, rest := anchors[0], anchors[1..];
      assert forall f :: Meetings(ram, anchors, f) == Visits(ram, a.head, a.count, f) + Meetings(ram, rest, f);
      VisitsFrame(ram, ram', a.head, a.count);
      MeetingsFrame(ram, ram', rest);
    }
  }

  // ---------- the steps ----------

  /** A nonempty list starts at a Free frame; an empty shard or global list at the end marker. */
  lemma HeadIsFree(s: State, batches: seq<Shard>, k: nat)
    requires ListInv(s, batches) && k < |Anchors(s, batches)|
    ensures var a := Anchors(s, batches)[k];
            if a.count == 0 then k <= |s.shards| ==> a.head == LIST_END
            else IsFree(s, a.head)
  {
    var a := Anchors(s, batches)[k];
    if a.count > 0 {
      MeetingsContain(s.ram, Anchors(s, batches), k, a.head);
    }
  }

  /** `pop_shard` keeps the invariant and takes a Free frame off the lists. */
  lemma PopKeeps(s: State, batches: seq<Shard>, k: nat)
    requires ListInv(s, batches) && k < |s.shards|
    ensures ListInv(Pop(s, k).0, batches)
    ensures var (s', r) := Pop(s, k);
            && s'.ram == s.ram && s'.global == s.global
            && (r.None? <==> s.shards[k].count == 0)
            && (r.None? <==> s.shards[k].head == LIST_END)
            && (r.None? ==> s' == s)
            && (r.Some? ==> IsFree(s, r.value) && s'.owner == s.owner[r.value := Kernel])
  {
    var an := Anchors(s, batches);
    var (s', r) := Pop(s, k);
    var a := s.shards[k];
    assert an[k] == a;
    HeadIsFree(s, batches, k);
    if r.Some? {
      var b := Shard(Next(s.ram, a.head), a.count - 1);
      assert Anchors(s', batches) == an[k := b];
      forall f: nat
        ensures Meetings(s.ram, Anchors(s', batches), f) == if IsFree(s', f) then 1 else 0
      {
        MeetingsUpdate(s.ram, an, k, b, f);
      }
    }
  }

  /** Putting a frame that is not Free on a shard keeps the invariant. */
  lemma PushKeeps(s: State, batches: seq<Shard>, k: nat, f: nat)
    requires ListInv(s, batches) && k < |s.shards| && f < |s.owner| && !s.owner[f].Free?
    ensures ListInv(Push(s, k, f), batches)
  {
    var an := Anchors(s, batches);
    var s' := Push(s, k, f);
    var a := s.shards[k];
    assert an[k] == a;
    HeadIsFree(s, batches, k);
    LinkOne(s, batches, f, a.head);
    var b := Shard(f, a.count + 1);
    assert Anchors(s', batches) == an[k := b];
    forall g: nat
      ensures Meetings(s'.ram, Anchors(s', batches), g) == if IsFree(s', g) then 1 else 0
    {
      MeetingsUpdate(s'.ram, an, k, b, g);
    }
    forall j | 0 <= j < |s'.shards|
      ensures Terminated(s'.ram, s'.shards[j])
    {
      assert an[j] == s.shards[j];
    }
    assert an[|s.shards|] == s.global;
  }

  /** Writing the link of a frame that is on no list. */
  lemma LinkOne(s: State, batches: seq<Shard>, f: nat, next: nat)
    requires ListInv(s, batches) && f < |s.owner| && !s.owner[f].Free? && next < U32
    ensures var ram' := SetNext(s.ram, f, next);
            && ValidRam(ram') && Next(ram', f) == next
            && (forall g :: Meetings(ram', Anchors(s, batches), g) == Meetings(s.ram, Anchors(s, batches), g))
            && (forall k :: 0 <= k < |Anchors(s, batches)| ==>
                  var a := Anchors(s, batches)[k];
                  Follow(ram', a.head, a.count) == Follow(s.ram, a.head, a.count))
  {
    var ram' := SetNext(s.ram, f, next);
    forall g
      ensures Next(ram', g) == if g == f then next else Next(s.ram, g)
    {
      NextOfSetNext(s.ram, f, next, g);
    }
    MeetingsFrame(s.ram, ram', Anchors(s, batches));
  }

  /** Moving the front of one list to an empty one meets the same frames. */
  lemma MoveFront(ram: Ram, anchors: seq<Shard>, g: nat, j: nat, n: nat, f: nat)
    requires g < |anchors| && j < |anchors| && g != j
    requires n <= anchors[g].count && anchors[j].count == 0
    ensures var a := anchors[g];
            Meetings(ram, anchors[g := Shard(Follow(ram, a.head, n), a.count - n)][j := Shard(a.head, n)], f)
            == Meetings(ram, anchors, f)
  {
    var a := anchors[g];
    var rest, front := Shard(Follow(ram, a.head, n), a.count - n), Shard(a.head, n);
    VisitsSplit(ram, a.head, n, a.count - n, f);
    MeetingsUpdate(ram, anchors, g, rest, f);
    MeetingsUpdate(ram, anchors[g := rest], j, front, f);
  }

  /** Peeling moves the front of the global list into an in-flight batch. */
  lemma PeelKeeps(s: State, batches: seq<Shard>, c: nat)
    requires ListInv(s, batches) && s.global.count > 0
    requires c < |batches| && batches[c].count == 0
    ensures var (s', b) := Peel(s);
            && ListInv(s', batches[c := Shard(b.head, b.count)])
            && b.count > 0 && b.tail == Follow(s'.ram, b.head, b.count - 1)
  {
    var an := Anchors(s, batches);
    var (s', b) := Peel(s);
    var n, g := BatchSize(s), |s.shards|;
    var m := Shard(b.head, b.count);
    assert an[g] == s.global && an[g + 1 + c] == batches[c];
    assert Anchors(s', batches[c := m]) == an[g := s'.global][g + 1 + c := m];
    VisitsSplit(s.ram, s.global.head, n, s.global.count - n, 0);
    forall f: nat
      ensures Meetings(s.ram, Anchors(s', batches[c := m]), f) == if IsFree(s', f) then 1 else 0
    {
      MoveFront(s.ram, an, g, g + 1 + c, n, f);
    }
  }

  /** The tail of an in-flight batch is a Free frame that the rest of the batch does not meet. */
  lemma TailIsLast(s: State, batches: seq<Shard>, c: nat, b: Batch)
    requires ListInv(s, batches)
    requires c < |batches| && batches[c] == Shard(b.head, b.count)
    requires b.count > 0 && b.tail == Follow(s.ram, b.head, b.count - 1)
    ensures IsFree(s, b.tail)
    ensures Visits(s.ram, b.head, b.count, b.tail) == 1
    ensures Visits(s.ram, b.head, b.count - 1, b.tail) == 0
  {
    var an := Anchors(s, batches);
    var p := |s.shards| + 1 + c;
    assert an[p] == batches[c];
    VisitsLast(s.ram, b.head, b.count, b.tail);
    MeetingsContain(s.ram, an, p, b.tail);
  }

  /** Re-linking the tail keeps the batch's frames and redirects where it leads. */
  lemma SpliceBatch(ram: Ram, ram': Ram, b: Batch, next: nat)
    requires b.count > 0 && b.tail == Follow(ram, b.head, b.count - 1)
    requires Visits(ram, b.head, b.count - 1, b.tail) == 0
    requires forall g :: Next(ram', g) == if g == b.tail then next else Next(ram, g)
    ensures Follow(ram', b.head, b.count) == next
    ensures forall f :: Visits(ram', b.head, b.count, f) == Visits(ram, b.head, b.count, f)
  {
    VisitsFrame(ram, ram', b.head, b.count - 1);
    forall f
      ensures Visits(ram', b.head, b.count, f) == Visits(ram, b.head, b.count, f)
    {
      VisitsLast(ram, b.head, b.count, f);
      VisitsLast(ram', b.head, b.count, f);
    }
    VisitsLast(ram', b.head, b.count, b.tail);
  }

  /** Re-linking the tail of list `p` changes no other list. */
  lemma RelinkTail(ram: Ram, ram': Ram, anchors: seq<Shard>, p: nat, b: Batch, next: nat)
    requires p < |anchors| && anchors[p] == Shard(b.head, b.count)
    requires Visits(ram, b.head, b.count, b.tail) == 1 && Meetings(ram, anchors, b.tail) == 1
    requires forall g :: Next(ram', g) == if g == b.tail then next else Next(ram, g)
    ensures var rest := anchors[p := Shard(0, 0)];
            && (forall f: nat :: Meetings(ram', rest, f) + Visits(ram, b.head, b.count, f) == Meetings(ram, anchors, f))
            && (forall k :: 0 <= k < |rest| ==>
                  Follow(ram', rest[k].head, rest[k].count) == Follow(ram, rest[k].head, rest[k].count))
  {
    var rest := anchors[p := Shard(0, 0)];
    forall f: nat
      ensures Meetings(ram, rest, f) + Visits(ram, b.head, b.count, f) == Meetings(ram, anchors, f)
    {
      MeetingsUpdate(ram, anchors, p, Shard(0, 0), f);
    }
    MeetingsFrame(ram, ram', rest);
  }

  /** Splicing moves an in-flight batch onto a shard. */
  lemma SpliceKeeps(s: State, batches: seq<Shard>, c: nat, k: nat, b: Batch)
    requires ListInv(s, batches) && k < |s.shards|
    requires c < |batches| && batches[c] == Shard(b.head, b.count)
    requires b.count > 0 && b.tail == Follow(s.ram, b.head, b.count - 1)
    ensures ListInv(Splice(s, k, b), batches[c := Shard(0, 0)])
    ensures IsFree(s, b.tail)
  {
    var an := Anchors(s, batches);
    var s' := Splice(s, k, b);
    var p, none, a := |s.shards| + 1 + c, Shard(0, 0), s.shards[k];
    assert an[p] == batches[c] && an[k] == a;
    HeadIsFree(s, batches, k);
    TailIsLast(s, batches, c, b);
    forall g
      ensures Next(s'.ram, g) == if g == b.tail then a.head else Next(s.ram, g)
    {
      NextOfSetNext(s.ram, b.tail, a.head, g);
    }
    NextOfSetNext(s.ram, b.tail, a.head, 0);
    SpliceBatch(s.ram, s'.ram, b, a.head);
    RelinkTail(s.ram, s'.ram, an, p, b, a.head);
    SpliceCount(s, batches, c, k, b);
    forall j | 0 <= j < |s'.shards|
      ensures Terminated(s'.ram, s'.shards[j])
    {
      assert an[p := none][j] == s.shards[j];
      if j == k { VisitsSplit(s'.ram, b.head, b.count, a.count, 0); }
    }
    assert an[p := none][|s.shards|] == s.global;
  }

  lemma SpliceCount(s: State, batches: seq<Shard>, c: nat, k: nat, b: Batch)
    requires k < |s.shards| && c < |batches|
    requires var ram' := Splice(s, k, b).ram;
             var an := Anchors(s, batches);
             && (forall f: nat :: Meetings(s.ram, an, f) == if IsFree(s, f) then 1 else 0)
             && (forall f: nat ::
                   Meetings(ram', an[|s.shards| + 1 + c := Shard(0, 0)], f) + Visits(s.ram, b.head, b.count, f)
                   == Meetings(s.ram, an, f))
             && Follow(ram', b.head, b.count) == s.shards[k].head
             && (forall f :: Visits(ram', b.head, b.count, f) == Visits(s.ram, b.head, b.count, f))
    ensures var s' := Splice(s, k, b);
            forall f: nat ::
              Meetings(s'.ram, Anchors(s', batches[c := Shard(0, 0)]), f) == if IsFree(s', f) then 1 else 0
  {
    var s' := Splice(s, k, b);
    var rest := Anchors(s, batches)[|s.shards| + 1 + c := Shard(0, 0)];
    var a := s.shards[k];
    var joined := Shard(b.head, a.count + b.count);
    assert rest[k] == a;
    assert Anchors(s', batches[c := Shard(0, 0)]) == rest[k := joined];
    forall f: nat
      ensures Meetings(s'.ram, rest[k := joined], f) == if IsFree(s', f) then 1 else 0
    {
      MeetingsUpdate(s'.ram, rest, k, joined, f);
      VisitsSplit(s'.ram, b.head, b.count, a.count, f);
    }
  }
}
