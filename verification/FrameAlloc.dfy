/**
 Sequential frame allocation: every operation runs on shard 0, as `current_cpu()` is the
 constant 0 (`kernel/src/arch.rs`).
 */
module FrameAlloc {
  import opened Frames
  import opened Pmm
  import opened FreeLists

  /** Between operations nothing is in flight and only shard 0 and the global list hold frames. */
  ghost predicate SeqInv(s: State) {
    && ListInv(s, [])
    && forall k :: 1 <= k < |s.shards| ==> s.shards[k].count == 0
  }

  lemma {:induction false} MeetingsAppend(ram: Ram, anchors: seq<Shard>, head: nat, f: nat)
    ensures Meetings(ram, anchors + [Shard(head, 0)], f) == Meetings(ram, anchors, f)
  {
    var e := Shard(head, 0);
    if anchors == [] {
      assert [e][1..] == [];
      assert anchors + [e] == [e];
    } else {
      assert (anchors + [e])[1..] == anchors[1..] + [e];
      MeetingsAppend(ram, anchors[1..], head, f);
    }
  }

  /** An empty in-flight slot may be added or dropped. */
  lemma EmptySlot(s: State, head: nat)
    ensures ListInv(s, [Shard(head, 0)]) <==> ListInv(s, [])
  {
    var e := [Shard(head, 0)];
    assert Anchors(s, []) + e == Anchors(s, e);
    forall f: nat
      ensures Meetings(s.ram, Anchors(s, e), f) == Meetings(s.ram, Anchors(s, []), f)
    {
      MeetingsAppend(s.ram, Anchors(s, []), head, f);
    }
  }

  ghost predicate SameOnBusyFrames(s: State, s': State) {
    && |s'.ram| == |s.ram|
    && forall f :: 0 <= f < |s.ram| && !IsFree(s, f) ==> s'.ram[f] == s.ram[f]
  }

  lemma RefillKeeps(s: State)
    requires SeqInv(s)
    ensures SeqInv(Refill(s, 0))
    ensures var s' := Refill(s, 0);
            && s'.owner == s.owner && SameOnBusyFrames(s, s')
            && (var n := if s.global.count < 64 then s.global.count else 64;
                s'.shards[0].count == s.shards[0].count + n && s'.global.count == s.global.count - n)
            && s'.mappings == s.mappings && s'.pinned == s.pinned && s'.gen == s.gen
            && s'.shards[1..] == s.shards[1..]
  {
    if s.global.count > 0 {
      var none := [Shard(0, 0)];
      EmptySlot(s, 0);
      PeelKeeps(s, none, 0);
      var (s1, b) := Peel(s);
      SpliceKeeps(s1, none[0 := Shard(b.head, b.count)], 0, 0, b);
      assert none[0 := Shard(b.head, b.count)][0 := Shard(0, 0)] == none;
      EmptySlot(Splice(s1, 0, b), 0);
    }
  }

  lemma {:induction false} NothingListed(ram: Ram, anchors: seq<Shard>, f: nat)
    requires forall k :: 0 <= k < |anchors| ==> anchors[k].count == 0
    ensures Meetings(ram, anchors, f) == 0
  {
    if anchors != [] { NothingListed(ram, anchors[1..], f); }
  }

  /**
   `alloc_frame` hands out a Free frame, making it kernel-owned and touching no other frame's
   metadata and no busy frame's memory; it fails exactly when no frame is Free.
   */
  lemma AllocExact(s: State)
    requires SeqInv(s)
    ensures var (s', r) := Alloc(s);
            && SeqInv(s')
            && (r.None? <==> forall f: nat :: !IsFree(s, f))
            && (r.None? ==> s' == s)
            && (r.Some? ==> IsFree(s, r.value) && s'.owner == s.owner[r.value := Kernel])
            && SameOnBusyFrames(s, s')
            && s'.mappings == s.mappings && s'.pinned == s.pinned && s'.gen == s.gen
  {
    PopKeeps(s, [], 0);
    var (s1, r1) := Pop(s, 0);
    if r1.Some? {
      return;
    }
    RefillKeeps(s);
    var s2 := Refill(s, 0);
    PopKeeps(s2, [], 0);
    var (s3, r) := Pop(s2, 0);
    if r.None? {
      var an := Anchors(s, []);
      forall f: nat
        ensures !IsFree(s, f)
      {
        NothingListed(s.ram, an, f);
      }
    } else {
      assert IsFree(s, r.value);
    }
  }
}
