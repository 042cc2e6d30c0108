/**
 Deferred release when calls are not atomic.  `drain_if_ready` checks the frame before
 `release_frame` takes the shard lock (`kernel/src/allocator.rs`), so the check may be stale by the
 time of the release.  The results here say exactly when a stale check does no harm.
 */
module Deferral {
  import opened Frames
  import opened Pmm
  import opened FreeLists
  import opened FrameAlloc

  /**
   Releasing on a stale check does what a fresh check would have done exactly when the frame is
   still Pending.
   */
  lemma StaleDrainExact(s: State, k: nat, f: nat)
    requires Valid(s) && k < |s.shards| && f < |s.owner|
    ensures Release(s, k, f) == Done(Drain(s, k, f)) <==> s.owner[f].Pending?
  {
  }

  /** The pin count drops and the drain check follows in a separate step. */
  function Decrement(s: State, f: nat): State
    requires f < |s.pinned|
  {
    s.(pinned := s.pinned[f := (s.pinned[f] + U32 - 1) % U32])
  }

  /** `n` calls of `unpin_frame`, one after the other. */
  ghost function Unpins(s: State, f: nat, n: nat): (t: State)
    requires Valid(s) && f < |s.owner|
    ensures Valid(t) && |t.owner| == |s.owner|
    decreases n
  {
    if n == 0 then s else Unpins(Unpin(s, 0, f), f, n - 1)
  }

  /** Atomic calls of `unpin_frame`, as many as there are pins, free the frame once, by the last call. */
  lemma {:induction false} UnpinsInTurn(s: State, f: nat, n: nat)
    requires SeqInv(s) && f < |s.owner| && s.owner[f].Pending? && s.mappings[f] == 0
    requires 0 < s.pinned[f] < U32 && n <= s.pinned[f]
    ensures var t := Unpins(s, f, n);
            && SeqInv(t)
            && if n == s.pinned[f] then IsFree(t, f) && t.gen[f] == (s.gen[f] + 1) % U32
               else t.owner[f].Pending? && t.gen[f] == s.gen[f] && t.pinned[f] == s.pinned[f] - n
    decreases n
  {
    if n > 0 {
      var s1 := Decrement(s, f);
      Counted(s, f);
      if s.pinned[f] == 1 {
        PushKeeps(s1, [], 0, f);
        assert Unpins(Unpin(s, 0, f), f, 0) == Unpin(s, 0, f);
      } else {
        UnpinsInTurn(s1, f, n - 1);
      }
    }
  }

  lemma Counted(s: State, f: nat)
    requires SeqInv(s) && f < |s.owner|
    ensures SeqInv(Decrement(s, f))
  {
    var s' := Decrement(s, f);
    assert Anchors(s', []) == Anchors(s, []);
    forall g: nat
      ensures IsFree(s', g) == IsFree(s, g)
    {
    }
  }

  /**
   Two CPUs drop the last two pins before either releases, so both checks pass.  The second release
   stops the kernel; and if the frame was allocated again in between, which the next `alloc_frame`
   does, the second release takes it from its new owner.
   */
  lemma UnpinsOverlap(s: State, f: nat)
    requires SeqInv(s) && f < |s.owner| && s.owner[f].Pending? && s.pinned[f] == 2 && s.mappings[f] == 0
    ensures var both := Decrement(Decrement(s, f), f);
            && both.owner[f].Pending? && Idle(both, f)
            && Release(both, 0, f).Done?
            && var first := Release(both, 0, f).state;
               && Valid(first) && Release(first, 0, f).Panic?
               && var (again, r) := Alloc(first);
                  && r == Some(f) && Valid(again) && again.owner[f].Kernel?
                  && Release(again, 0, f).Done? && IsFree(Release(again, 0, f).state, f)
  {
  }
}
