/**
 The physical memory manager as a value: per-frame metadata (`kernel/src/frame.rs`), the frames'
 memory, and the free lists threaded through the free frames (`kernel/src/allocator.rs`).  Each
 function is one locked section or one atomic operation.
 */
module Pmm {
  import opened Frames

  const LIST_END: nat := 0xffff_ffff
  const SHARD_COUNT: nat := 64
  const REFILL_BATCH: nat := 64
  const WORDS: nat := 512

  /** Frame memory: 512 words of 64 bits for each frame. */
  type Ram = seq<seq<nat>>

  ghost predicate ValidRam(ram: Ram) {
    forall f :: 0 <= f < |ram| ==> |ram[f]| == WORDS
  }

  function Read(ram: Ram, f: nat, i: nat): nat {
    if f < |ram| && i < |ram[f]| then ram[f][i] else 0
  }

  function Write(ram: Ram, f: nat, i: nat, w: nat): (r: Ram)
    ensures |r| == |ram| && (ValidRam(ram) ==> ValidRam(r))
  {
    if f < |ram| && i < |ram[f]| then
      var page: seq<nat> := ram[f][i := w];
      ram[f := page]
    else ram
  }

  datatype Shard = Shard(head: nat, count: nat)

  datatype State = State(
    owner: seq<Owner>, mappings: seq<nat>, pinned: seq<nat>, gen: seq<nat>,
    ram: Ram, shards: seq<Shard>, global: Shard)

  ghost predicate Valid(s: State) {
    && |s.owner| < LIST_END
    && |s.mappings| == |s.pinned| == |s.gen| == |s.ram| == |s.owner|
    && ValidRam(s.ram)
    && |s.shards| == SHARD_COUNT
  }

  // ---------- lists embedded in the free frames ----------

  /** The 32-bit link in the first word of a free frame. */
  function Next(ram: Ram, f: nat): nat {
    Read(ram, f, 0) % U32
  }

  /** Only the low half of the first word is overwritten. */
  function SetNext(ram: Ram, f: nat, next: nat): (r: Ram)
    ensures |r| == |ram|
  {
    Write(ram, f, 0, Read(ram, f, 0) / U32 * U32 + next)
  }

  /** The link reached after `n` steps. */
  function Follow(ram: Ram, head: nat, n: nat): nat
    decreases n
  {
    if n == 0 then head else Follow(ram, Next(ram, head), n - 1)
  }

  /** How often frame `f` is met in the first `n` frames of the list at `head`. */
  function Visits(ram: Ram, head: nat, n: nat, f: nat): nat
    decreases n
  {
    if n == 0 then 0 else (if head == f then 1 else 0) + Visits(ram, Next(ram, head), n - 1, f)
  }

  predicate Terminated(ram: Ram, a: Shard) {
    Follow(ram, a.head, a.count) == LIST_END
  }

  // ---------- the locked sections ----------

  /**
   Total on every state.  Under the list invariant this is the kernel's check of the head for the
   end marker (`FreeLists.PopKeeps`).
   */
  predicate Empty(s: State, a: Shard) {
    a.count == 0 || a.head >= |s.owner|
  }

  /** `pop_shard`: unlink the head and make it kernel-owned. */
  function Pop(s: State, k: nat): (r: (State, Option<nat>))
    requires k < |s.shards|
    ensures |r.0.shards| == |s.shards| && r.0.mappings == s.mappings
  {
    var a := s.shards[k];
    if Empty(s, a) then (s, None)
    else
      (s.(shards := s.shards[k := Shard(Next(s.ram, a.head), a.count - 1)],
          owner := s.owner[a.head := Kernel]),
       Some(a.head))
  }

  /** A chain peeled off the global list and not yet on a shard. */
  datatype Batch = Batch(head: nat, tail: nat, count: nat)

  function BatchSize(s: State): nat {
    if s.global.count < REFILL_BATCH then s.global.count else REFILL_BATCH
  }

  /** First locked section of `refill_shard`. */
  function Peel(s: State): (State, Batch)
    requires s.global.count > 0
  {
    var n, h := BatchSize(s), s.global.head;
    (s.(global := Shard(Follow(s.ram, h, n), s.global.count - n)),
     Batch(h, Follow(s.ram, h, n - 1), n))
  }

  /** Second locked section of `refill_shard`. */
  function Splice(s: State, k: nat, b: Batch): State
    requires k < |s.shards|
  {
    var a := s.shards[k];
    s.(ram := SetNext(s.ram, b.tail, a.head), shards := s.shards[k := Shard(b.head, a.count + b.count)])
  }

  function Refill(s: State, k: nat): State
    requires k < |s.shards|
  {
    if s.global.count == 0 then s
    else
      var (s', b) := Peel(s);
      Splice(s', k, b)
  }

  function AllocOn(s: State, k: nat): (r: (State, Option<nat>))
    requires k < |s.shards|
    ensures |r.0.shards| == |s.shards| && r.0.mappings == s.mappings
  {
    var (s1, r) := Pop(s, k);
    if r.Some? then (s1, r) else Pop(Refill(s1, k), k)
  }

  /** `alloc_frame`: `current_cpu()` is the constant 0. */
  function Alloc(s: State): (r: (State, Option<nat>))
    requires |s.shards| > 0
    ensures |r.0.shards| == |s.shards| && r.0.mappings == s.mappings
  {
    AllocOn(s, 0)
  }

  /** Put frame `f` on shard `k`: owner, generation, link, head and count. */
  function Push(s: State, k: nat, f: nat): State
    requires k < |s.shards| && f < |s.owner| && f < |s.gen|
  {
    var a := s.shards[k];
    s.(owner := s.owner[f := Free],
       gen := s.gen[f := (s.gen[f] + 1) % U32],
       ram := SetNext(s.ram, f, a.head),
       shards := s.shards[k := Shard(f, a.count + 1)])
  }

  datatype Outcome = Done(state: State) | Panic

  predicate Idle(s: State, f: nat)
    requires f < |s.pinned| && f < |s.mappings|
  {
    s.pinned[f] == 0 && s.mappings[f] == 0
  }

  /** `release_frame`, on shard `k`. */
  function Release(s: State, k: nat, f: nat): Outcome
    requires Valid(s) && k < |s.shards| && f < |s.owner|
  {
    if s.owner[f].Reserved? || s.owner[f].Free? then Panic
    else if !Idle(s, f) then Done(s.(owner := s.owner[f := Pending]))
    else Done(Push(s, k, f))
  }

  /** `drain_if_ready` */
  function Drain(s: State, k: nat, f: nat): State
    requires Valid(s) && k < |s.shards| && f < |s.owner|
  {
    if s.owner[f].Pending? && Idle(s, f) then Push(s, k, f) else s
  }

  function Pin(s: State, f: nat): State
    requires f < |s.pinned|
  {
    s.(pinned := s.pinned[f := (s.pinned[f] + 1) % U32])
  }

  /** `unpin_frame`: the counter wraps as `fetch_sub` does. */
  function Unpin(s: State, k: nat, f: nat): State
    requires Valid(s) && k < |s.shards| && f < |s.owner|
  {
    Drain(s.(pinned := s.pinned[f := (s.pinned[f] + U32 - 1) % U32]), k, f)
  }

  function AddMapping(s: State, f: nat): State
    requires f < |s.mappings|
  {
    s.(mappings := s.mappings[f := (s.mappings[f] + 1) % U32])
  }

  function RemoveMapping(s: State, k: nat, f: nat): State
    requires Valid(s) && k < |s.shards| && f < |s.owner|
  {
    Drain(s.(mappings := s.mappings[f := (s.mappings[f] + U32 - 1) % U32]), k, f)
  }
}
