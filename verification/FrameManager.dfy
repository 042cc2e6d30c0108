/**
 The physical memory manager in its own, imperative form: the frame table, the frames' memory and
 the free lists are fields that each operation updates in place (`kernel/src/allocator.rs`,
 `kernel/src/frame.rs`, `kernel/src/untyped.rs`).  Every method computes exactly the function of
 module `Pmm` or `Untyped` that the invariants are proved about.
 */
module FrameManager {
  import opened Frames
  import opened Pmm
  import opened FreeLists
  import opened FrameAlloc
  import opened Census
  import Untyped

  class Machine {
    var owner: seq<Owner>
    var mappings: seq<nat>
    var pinned: seq<nat>
    var gen: seq<nat>
    var ram: Ram
    var shards: seq<Shard>
    var global: Shard

    ghost function View(): State
      reads this
    {
      State(owner, mappings, pinned, gen, ram, shards, global)
    }

    /** Memory manager as `pmm_init` leaves it. */
    constructor (s: State)
      ensures View() == s
    {
      owner, mappings, pinned, gen := s.owner, s.mappings, s.pinned, s.gen;
      ram, shards, global := s.ram, s.shards, s.global;
    }

    // ---------- allocation ----------

    /** `pop_shard`; the list is empty when its head is the end marker. */
    method PopShard(k: nat) returns (r: Option<nat>)
      requires ListInv(View(), []) && k < |shards|
      modifies `shards, `owner
      ensures (View(), r) == Pop(old(View()), k)
      ensures r.None? <==> old(shards[k].head) == LIST_END
    {
      var guard := shards[k];
      assert Anchors(View(), [])[k] == guard;
      HeadIsFree(View(), [], k);
      if guard.head == LIST_END { return None; }
      var frame := guard.head;
      guard := Shard(Next(ram, frame), guard.count - 1);
      shards := shards[k := guard];
      owner := owner[frame := Kernel];
      r := Some(frame);
    }

    /** `refill_shard`: the loop peels a batch off the global list. */
    method RefillShard(k: nat)
      requires k < |shards|
      modifies `ram, `shards, `global
      ensures View() == Refill(old(View()), k)
    {
      var batch := if global.count < REFILL_BATCH then global.count else REFILL_BATCH;
      if batch == 0 { return; }
      var head := global.head;
      var tail, cur := head, Next(ram, head);
      for i := 1 to batch
        invariant tail == Follow(ram, head, i - 1) && cur == Follow(ram, head, i)
        invariant View() == old(View())
      {
        VisitsLast(ram, head, i + 1, 0);
        tail := cur;
        cur := Next(ram, cur);
      }
      global := Shard(cur, global.count - batch);
      var guard := shards[k];
      ram := SetNext(ram, tail, guard.head);
      shards := shards[k := Shard(head, guard.count + batch)];
    }

    /**
     `alloc_frame`: a Free frame becomes kernel-owned, no other frame's metadata and no busy
     frame's memory changes, and it fails exactly when no frame is Free.
     */
    method AllocFrame() returns (r: Option<nat>)
      requires SeqInv(View())
      modifies `ram, `shards, `global, `owner
      ensures (View(), r) == Alloc(old(View()))
      ensures SeqInv(View())
      ensures r.None? <==> forall f: nat :: !IsFree(old(View()), f)
      ensures r.Some? ==> IsFree(old(View()), r.value) && owner == old(owner)[r.value := Kernel]
      ensures SameOnBusyFrames(old(View()), View())
    {
      ghost var s := View();
      AllocExact(s);
      PopKeeps(s, [], 0);
      r := PopShard(0);
      if r.Some? { return; }
      RefillKeeps(s);
      RefillShard(0);
      r := PopShard(0);
    }

    // ---------- release ----------

    /** Put an owned, idle frame back on shard 0. */
    method PushFrame(f: nat)
      requires f < |owner| && f < |gen| && |shards| > 0
      modifies `owner, `gen, `ram, `shards
      ensures View() == Push(old(View()), 0, f)
    {
      owner := owner[f := Free];
      gen := gen[f := (gen[f] + 1) % U32];
      var guard := shards[0];
      ram := SetNext(ram, f, guard.head);
      shards := shards[0 := Shard(f, guard.count + 1)];
    }

    /**
     `release_frame`: refused, by a panic, for Reserved and Free frames; deferred while the frame
     is pinned or mapped.
     */
    method ReleaseFrame(f: nat) returns (panicked: bool)
      requires Pmm.Valid(View()) && f < |owner|
      modifies `owner, `gen, `ram, `shards
      ensures panicked <==> old(owner[f]).Reserved? || old(owner[f]).Free?
      ensures Release(old(View()), 0, f) == if panicked then Panic else Done(View())
      ensures panicked ==> View() == old(View())
      ensures ListInv(old(View()), []) ==> ListInv(View(), [])
    {
      var o := owner[f];
      if o.Reserved? || o.Free? { return true; }
      panicked := false;
      if pinned[f] != 0 || mappings[f] != 0 {
        if !o.Pending? { owner := owner[f := Pending]; }
        assert View() == old(View()).(owner := old(owner)[f := Pending]);
        if ListInv(old(View()), []) { Deferred(old(View()), f); }
        return;
      }
      if ListInv(View(), []) { PushKeeps(View(), [], 0, f); }
      PushFrame(f);
    }

    /** `drain_if_ready` */
    method DrainIfReady(f: nat)
      requires Pmm.Valid(View()) && f < |owner|
      modifies `owner, `gen, `ram, `shards
      ensures View() == Drain(old(View()), 0, f)
      ensures ListInv(old(View()), []) ==> ListInv(View(), [])
    {
      if owner[f].Pending? && pinned[f] == 0 && mappings[f] == 0 {
        var panicked := ReleaseFrame(f);
      }
    }

    method PinFrame(f: nat) returns (n: nat)
      requires f < |pinned|
      modifies `pinned
      ensures View() == Pin(old(View()), f) && n == pinned[f]
    {
      n := (pinned[f] + 1) % U32;
      pinned := pinned[f := n];
    }

    /** `unpin_frame` */
    method UnpinFrame(f: nat) returns (n: nat)
      requires Pmm.Valid(View()) && f < |owner|
      modifies `pinned, `owner, `gen, `ram, `shards
      ensures View() == Unpin(old(View()), 0, f) && n == (old(pinned[f]) + U32 - 1) % U32
    {
      n := (pinned[f] + U32 - 1) % U32;
      pinned := pinned[f := n];
      DrainIfReady(f);
    }

    method AddMapping(f: nat) returns (n: nat)
      requires f < |mappings|
      modifies `mappings
      ensures View() == Pmm.AddMapping(old(View()), f) && n == mappings[f]
    {
      n := (mappings[f] + 1) % U32;
      mappings := mappings[f := n];
    }

    /** `remove_mapping` */
    method RemoveMapping(f: nat) returns (n: nat)
      requires Pmm.Valid(View()) && f < |owner|
      modifies `mappings, `owner, `gen, `ram, `shards
      ensures View() == Pmm.RemoveMapping(old(View()), 0, f) && n == (old(mappings[f]) + U32 - 1) % U32
    {
      n := (mappings[f] + U32 - 1) % U32;
      mappings := mappings[f := n];
      DrainIfReady(f);
    }

    // ---------- diagnostics ----------

    /** `free_frame_count`: the recorded counts add up to the number of Free frames. */
    method FreeFrameCount() returns (total: nat)
      requires ListInv(View(), [])
      ensures total == CountFree(owner)
    {
      total := 0;
      var an: seq<Shard> := shards + [global];
      assert Anchors(View(), []) == an;
      for k := 0 to |an|
        invariant total == Counts(an[..k])
      {
        CountsAppend(an[..k], an[k]);
        assert an[..k + 1] == an[..k] + [an[k]];
        total := total + an[k].count;
      }
      assert an[..|an|] == an;
      CountsAreFree(View());
    }

    /** One list of `debug_validate_free_lists`: the walk ends, and every frame on it is Free. */
    method ValidateList(k: nat) returns (walked: nat)
      requires ListInv(View(), []) && k <= |shards|
      ensures walked == Anchors(View(), [])[k].count
    {
      var a := if k < |shards| then shards[k] else global;
      assert Anchors(View(), [])[k] == a;
      walked := 0;
      var cur := a.head;
      EndsAtCount(View(), k, 0);
      while cur != LIST_END
        invariant walked <= a.count && cur == Follow(ram, a.head, walked)
        invariant cur == LIST_END <==> walked == a.count
        decreases a.count - walked
      {
        ListedIsFree(View(), k, walked);
        assert owner[cur].Free?;
        VisitsLast(ram, a.head, walked + 1, 0);
        walked := walked + 1;
        cur := Next(ram, cur);
        EndsAtCount(View(), k, walked);
      }
    }

    /** `debug_validate_free_lists`: no check fails, and it walks as many frames as are Free. */
    method ValidateFreeLists() returns (walked: nat)
      requires ListInv(View(), [])
      ensures walked == CountFree(owner)
    {
      walked := 0;
      ghost var an := Anchors(View(), []);
      for k := 0 to |shards| + 1
        invariant walked == Counts(an[..k])
      {
        var w := ValidateList(k);
        CountsAppend(an[..k], an[k]);
        assert an[..k + 1] == an[..k] + [an[k]];
        walked := walked + w;
      }
      assert an[..|an|] == an;
      CountsAreFree(View());
    }

    // ---------- retyping ----------

    /** `retype_frame`: grants a covered frame still Untyped with the cap's id, or finds none. */
    method RetypeFrame(cap: UntypedCap, domain: nat) returns (r: Option<nat>)
      requires Untyped.CursorOk(cap.View()) && cap.base + cap.num <= |owner|
      modifies `owner, cap
      ensures (View(), cap.View(), r) == Untyped.Retype(old(View()), old(cap.View()), domain)
      ensures r.None? <==> forall f: nat :: Untyped.Covers(cap.View(), f) ==> old(owner)[f] != Owner.Untyped(cap.id)
    {
      Untyped.RetypeExact(View(), cap.View(), domain);
      var end := cap.base + cap.num;
      var idx, tried := cap.cursor, 0;
      while tried < cap.num
        invariant tried <= cap.num && cap.base <= idx <= end
        invariant View() == old(View()) && cap.View() == old(cap.View())
        invariant Untyped.Scan(View(), cap.View(), cap.cursor, 0) == Untyped.Scan(View(), cap.View(), idx, tried)
      {
        if idx >= end { idx := cap.base; }
        if owner[idx] == Owner.Untyped(cap.id) {
          owner := owner[idx := Domain(domain)];
          cap.cursor := idx + 1;
          return Some(idx);
        }
        idx, tried := idx + 1, tried + 1;
      }
      return None;
    }
  }

  /** An untyped capability; only its cursor ever changes. */
  class UntypedCap {
    const id: nat
    const base: nat
    const num: nat
    var cursor: nat

    ghost function View(): Untyped.Cap
      reads this
    {
      Untyped.Cap(id, base, num, cursor)
    }

    constructor (id: nat, base: nat, num: nat)
      ensures View() == Untyped.NewCap(id, base, num)
    {
      this.id, this.base, this.num, this.cursor := id, base, num, base;
    }

    /** `split`: `None` when refused. */
    method Split(splitLen: nat) returns (r: Option<(UntypedCap, UntypedCap)>)
      ensures match Untyped.SplitCap(View(), splitLen)
              case Refused => r.None?
              case Split(low, high) => r.Some? && r.value.0.View() == low && r.value.1.View() == high
    {
      if splitLen == 0 || splitLen % FRAME_SIZE != 0 { return None; }
      var frames := splitLen / FRAME_SIZE % U32;
      if frames >= num { return None; }
      var low := new UntypedCap(id, base, frames);
      var high := new UntypedCap(id, base + frames, num - frames);
      return Some((low, high));
    }
  }

  /** Deferring a release touches no list. */
  lemma Deferred(s: State, f: nat)
    requires ListInv(s, []) && f < |s.owner| && !s.owner[f].Free?
    ensures ListInv(s.(owner := s.owner[f := Pending]), [])
  {
    var s' := s.(owner := s.owner[f := Pending]);
    assert Anchors(s', []) == Anchors(s, []);
    forall g: nat
      ensures IsFree(s', g) == IsFree(s, g)
    {
    }
  }
}
