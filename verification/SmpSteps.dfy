/**
 The frame allocator on any number of CPUs, one memory access at a time.  A lock guards only the head
 and count of its list; the links inside the frames and the owner and generation words lie outside
 every lock (`kernel/src/allocator.rs`, `kernel/src/spinlock.rs`).  Here every swap of a lock flag,
 every read or write of a link, every owner change and every generation change is a step of its own.
 A guard's value is private to its CPU from the swap to the store that unlocks, as
 `SpinLock.RunsSerialize` shows.  Each locked section is proved to act as one step of `SmpAllocator`,
 taken when its lock is.
 */
module SmpSteps {
  import opened Frames
  import opened Pmm
  import opened FreeLists
  import Smp = SmpAllocator

  /** The index of the global list's lock, behind those of the shards. */
  const GLOBAL: nat := SHARD_COUNT

  /** Where a CPU stands, with its local variables; `g` is the guarded head and count. */
  datatype Pc =
    | Resting
    // pop_shard
    | PopSpin(k: nat, first: bool)
    | PopRead(k: nat, first: bool, g: Shard)
    | PopTake(k: nat, h: nat, g: Shard)
    | PopDone(k: nat, h: nat, g: Shard)
    | PopNone(k: nat, first: bool)
    // refill_shard, on the global list: `j` of `n` links are read
    | PeelSpin(k: nat)
    | PeelWalk(k: nat, g: Shard, n: nat, j: nat, tail: nat, cur: nat)
    | PeelNone(k: nat)
    // refill_shard, on the shard
    | SpliceSpin(k: nat, b: Batch)
    | SpliceHold(k: nat, b: Batch, g: Shard)
    | SpliceDone(k: nat, g: Shard)
    // release_frame
    | FreeSpin(k: nat, f: nat)
    | FreeHold(k: nat, f: nat, g: Shard)
    | FreeSeen(k: nat, f: nat, o: Owner, g: Shard)
    | FreeOwned(k: nat, f: nat, g: Shard)
    | FreeBumped(k: nat, f: nat, g: Shard)
    | FreeDone(k: nat, g: Shard)
    // a failed assertion
    | Halted(k: nat)

  /** `held[c]`: the frames in the hands of callers on CPU `c`. */
  datatype Fine = Fine(s: State, locks: seq<bool>, pcs: seq<Pc>, held: seq<set<nat>>)

  datatype Move =
    | Advance
    | StartAlloc(k: nat)
    | StartRelease(k: nat, f: nat)
    | WriteHeld(f: nat, i: nat, w: nat)
    | HandOver(d: nat, f: nat)

  predicate Sized(x: Fine) {
    |x.locks| == SHARD_COUNT + 1 && |x.held| == |x.pcs| && |x.s.shards| == SHARD_COUNT
  }

  /** Callers release only frames they hold, unpinned and unmapped; they call while their CPU rests. */
  predicate Enabled(x: Fine, c: nat, m: Move) {
    && Sized(x) && c < |x.pcs|
    && match m
       case Advance => !x.pcs[c].Resting? && !x.pcs[c].Halted?
       case StartAlloc(k) => x.pcs[c].Resting? && k < SHARD_COUNT
       case StartRelease(k, f) =>
         && x.pcs[c].Resting? && k < SHARD_COUNT && f in x.held[c]
         && f < |x.s.owner| && f < |x.s.pinned| && f < |x.s.mappings| && Pmm.Idle(x.s, f)
       case WriteHeld(f, i, w) => x.pcs[c].Resting? && f in x.held[c]
       case HandOver(d, f) => x.pcs[c].Resting? && d < |x.held| && f in x.held[c]
  }

  function At(x: Fine, c: nat, pc: Pc): Fine
    requires c < |x.pcs|
  {
    x.(pcs := x.pcs[c := pc])
  }

  function Locked(x: Fine, l: nat, on: bool): Fine {
    if l < |x.locks| then x.(locks := x.locks[l := on]) else x
  }

  /** Store the guarded value of shard `k` and its cleared flag. */
  function Unlock(x: Fine, k: nat, g: Shard): Fine {
    if k < |x.s.shards| then Locked(x.(s := x.s.(shards := x.s.shards[k := g])), k, false) else x
  }

  function OwnerOf(x: Fine, f: nat): Owner {
    if f < |x.s.owner| then x.s.owner[f] else Reserved
  }

  /** `set_owner`: a compare-and-swap that must succeed, and then on to `pc`. */
  function SetOwner(x: Fine, c: nat, f: nat, expected: Owner, o: Owner, pc: Pc): Fine
    requires c < |x.pcs| && !pc.Resting?
  {
    if f < |x.s.owner| && x.s.owner[f] == expected then At(x.(s := x.s.(owner := x.s.owner[f := o])), c, pc)
    else At(x, c, Halted(pc.k))
  }

  function BumpGen(x: Fine, f: nat): Fine {
    if f < |x.s.gen| then x.(s := x.s.(gen := x.s.gen[f := (x.s.gen[f] + 1) % U32])) else x
  }

  function SetLink(x: Fine, f: nat, next: nat): Fine {
    x.(s := x.s.(ram := SetNext(x.s.ram, f, next)))
  }

  /** The next step of a CPU that is inside a call; a swap of a flag that is already set changes nothing. */
  function Advanced(x: Fine, c: nat): Fine
    requires Sized(x) && c < |x.pcs|
  {
    var s := x.s;
    match x.pcs[c]
    case Resting => x
    case PopSpin(k, first) =>
      if k >= SHARD_COUNT || x.locks[k] then x
      else
        var g := s.shards[k];
        At(Locked(x, k, true), c, if g.head == LIST_END then PopNone(k, first) else PopRead(k, first, g))
    case PopRead(k, first, g) =>
      At(x, c, PopTake(k, g.head, Shard(Next(s.ram, g.head), if g.count == 0 then 0 else g.count - 1)))
    case PopTake(k, h, g) => SetOwner(x, c, h, Free, Kernel, PopDone(k, h, g))
    case PopDone(k, h, g) => At(Unlock(x, k, g), c, Resting).(held := x.held[c := x.held[c] + {h}])
    case PopNone(k, first) => At(Locked(x, k, false), c, if first then PeelSpin(k) else Resting)
    case PeelSpin(k) =>
      if x.locks[GLOBAL] then x
      else
        var g, n := s.global, BatchSize(s);
        At(Locked(x, GLOBAL, true), c, if n == 0 then PeelNone(k) else PeelWalk(k, g, n, 0, g.head, g.head))
    case PeelWalk(k, g, n, j, tail, cur) =>
      if j < n then At(x, c, PeelWalk(k, g, n, j + 1, cur, Next(s.ram, cur)))
      else
        var rest := Shard(cur, if g.count < n then 0 else g.count - n);
        At(Locked(x.(s := s.(global := rest)), GLOBAL, false), c, SpliceSpin(k, Batch(g.head, tail, n)))
    case PeelNone(k) => At(Locked(x, GLOBAL, false), c, PopSpin(k, false))
    case SpliceSpin(k, b) =>
      if k >= SHARD_COUNT || x.locks[k] then x
      else At(Locked(x, k, true), c, SpliceHold(k, b, s.shards[k]))
    case SpliceHold(k, b, g) => At(SetLink(x, b.tail, g.head), c, SpliceDone(k, Shard(b.head, g.count + b.count)))
    case SpliceDone(k, g) => At(Unlock(x, k, g), c, PopSpin(k, false))
    case FreeSpin(k, f) =>
      if k >= SHARD_COUNT || x.locks[k] then x
      else At(Locked(x, k, true), c, FreeHold(k, f, s.shards[k]))
    case FreeHold(k, f, g) =>
      var o := OwnerOf(x, f);
      At(x, c, if o.Reserved? || o.Free? then Halted(k) else FreeSeen(k, f, o, g))
    case FreeSeen(k, f, o, g) => SetOwner(x, c, f, o, Free, FreeOwned(k, f, g))
    case FreeOwned(k, f, g) => At(BumpGen(x, f), c, FreeBumped(k, f, g))
    case FreeBumped(k, f, g) => At(SetLink(x, f, g.head), c, FreeDone(k, Shard(f, g.count + 1)))
    case FreeDone(k, g) => At(Unlock(x, k, g), c, Resting)
    case Halted(_) => x
  }

  function Moved(x: Fine, c: nat, m: Move): Fine
    requires Enabled(x, c, m)
  {
    match m
    case Advance => Advanced(x, c)
    case StartAlloc(k) => At(x, c, PopSpin(k, true))
    case StartRelease(k, f) => At(x, c, FreeSpin(k, f)).(held := x.held[c := x.held[c] - {f}])
    case WriteHeld(f, i, w) => x.(s := x.s.(ram := Write(x.s.ram, f, i, w)))
    case HandOver(d, f) =>
      var held' := x.held[c := x.held[c] - {f}];
      x.(held := held'[d := held'[d] + {f}])
  }

  // ---------- how a state of small steps stands for a state of whole sections ----------

  function LockOf(pc: Pc): Option<nat> {
    match pc
    case PopRead(k, _, _) => Some(k)
    case PopTake(k, _, _) => Some(k)
    case PopDone(k, _, _) => Some(k)
    case PopNone(k, _) => Some(k)
    case PeelWalk(_, _, _, _, _, _) => Some(GLOBAL)
    case PeelNone(_) => Some(GLOBAL)
    case SpliceHold(k, _, _) => Some(k)
    case SpliceDone(k, _) => Some(k)
    case FreeHold(k, _, _) => Some(k)
    case FreeSeen(k, _, _, _) => Some(k)
    case FreeOwned(k, _, _) => Some(k)
    case FreeBumped(k, _, _) => Some(k)
    case FreeDone(k, _) => Some(k)
    case _ => None
  }

  /** The frame that a call has in hand: popped and not yet returned, or given up and not yet freed. */
  function InHand(pc: Pc): set<nat> {
    match pc
    case PopRead(_, _, g) => {g.head}
    case PopTake(_, h, _) => {h}
    case PopDone(_, h, _) => {h}
    case FreeSpin(_, f) => {f}
    case _ => {}
  }

  /** Writes that the section has still to do. */
  predicate LagsOwner(pc: Pc, f: nat) {
    || (pc.PopRead? && pc.g.head == f) || (pc.PopTake? && pc.h == f)
    || ((pc.FreeHold? || pc.FreeSeen?) && pc.f == f)
  }

  predicate LagsGen(pc: Pc, f: nat) {
    (pc.FreeHold? || pc.FreeSeen? || pc.FreeOwned?) && pc.f == f
  }

  predicate LagsLink(pc: Pc, f: nat) {
    || (pc.SpliceHold? && pc.b.tail == f)
    || ((pc.FreeHold? || pc.FreeSeen? || pc.FreeOwned? || pc.FreeBumped?) && pc.f == f)
  }

  ghost predicate OwnerSettled(pcs: seq<Pc>, f: nat) {
    forall c :: 0 <= c < |pcs| ==> !LagsOwner(pcs[c], f)
  }

  ghost predicate GenSettled(pcs: seq<Pc>, f: nat) {
    forall c :: 0 <= c < |pcs| ==> !LagsGen(pcs[c], f)
  }

  ghost predicate LinkSettled(pcs: seq<Pc>, f: nat) {
    forall c :: 0 <= c < |pcs| ==> !LagsLink(pcs[c], f)
  }

  /** The frames that only this call may touch. */
  ghost predicate Claims(a: Smp.System, pc: Pc, y: nat) {
    match pc
    case PeelWalk(_, g, n, _, _, _) => Visits(a.s.ram, g.head, n, y) > 0
    case SpliceSpin(_, b) => Visits(a.s.ram, b.head, b.count, y) > 0
    case SpliceHold(_, b, _) => Visits(a.s.ram, b.head, b.count, y) > 0
    case FreeHold(_, f, _) => y == f
    case FreeSeen(_, f, _, _) => y == f
    case FreeOwned(_, f, _) => y == f
    case FreeBumped(_, f, _) => y == f
    case _ => y in InHand(pc)
  }

  ghost predicate HeldRel(x: Fine, a: Smp.System, c: nat)
    requires c < |x.pcs| && c < |x.held| && c < |a.held|
  {
    a.held[c] == x.held[c] + InHand(x.pcs[c]) && InHand(x.pcs[c]) !! x.held[c]
  }

  /** The section's effect is complete in `a`: frame `f` heads shard `k` there. */
  ghost predicate Freeing(x: State, a: State, k: nat, f: nat, g: Shard) {
    && k < SHARD_COUNT && Valid(a) && f < |a.owner| && f < |x.ram| && |x.ram| == |a.ram|
    && a.shards[k] == Shard(f, g.count + 1) && a.owner[f].Free?
    && a.ram[f] == SetNext(x.ram, f, g.head)[f]
  }

  /** What the position of CPU `c` says about the state of whole sections. */
  ghost predicate PcOk(x: Fine, a: Smp.System, c: nat)
    requires c < |x.pcs| && c < |a.cpus|
  {
    var cpu, s := a.cpus[c], a.s;
    && Valid(s) && Valid(x.s) && |x.s.owner| == |s.owner|
    && match x.pcs[c]
       case Resting => cpu == Smp.Outside
       case PopSpin(k, first) => k < SHARD_COUNT && cpu == if first then Smp.Outside else Smp.MustRetry(k)
       case PopRead(k, first, g) =>
         && k < SHARD_COUNT && cpu == Smp.Outside && g.head < |s.owner|
         && g.count > 0 && s.shards[k] == Shard(Next(s.ram, g.head), g.count - 1) && x.s.owner[g.head].Free?
       case PopTake(k, h, g) =>
         k < SHARD_COUNT && cpu == Smp.Outside && s.shards[k] == g && h < |s.owner| && x.s.owner[h].Free?
       case PopDone(k, h, g) => k < SHARD_COUNT && cpu == Smp.Outside && s.shards[k] == g && h < |s.owner|
       case PopNone(k, first) =>
         && k < SHARD_COUNT && cpu == (if first then Smp.MustRefill(k) else Smp.Outside)
         && x.s.shards[k] == s.shards[k]
       case PeelSpin(k) => k < SHARD_COUNT && cpu == Smp.MustRefill(k)
       case PeelWalk(k, g, n, j, tail, cur) =>
         && k < SHARD_COUNT && cpu.MustSplice? && cpu.k == k && cpu.b.head == g.head && cpu.b.count == n
         && 0 < n <= g.count && j <= n && cur == Follow(s.ram, g.head, j)
         && (j > 0 ==> tail == Follow(s.ram, g.head, j - 1))
         && s.global == Shard(Follow(s.ram, g.head, n), g.count - n)
       case PeelNone(k) => k < SHARD_COUNT && cpu == Smp.MustRetry(k) && x.s.global == s.global
       case SpliceSpin(k, b) => k < SHARD_COUNT && cpu == Smp.MustSplice(k, b)
       case SpliceHold(k, b, g) =>
         && k < SHARD_COUNT && cpu == Smp.MustRetry(k) && b.tail < |s.ram|
         && s.shards[k] == Shard(b.head, g.count + b.count)
         && Visits(s.ram, b.head, b.count, b.tail) > 0
         && s.ram[b.tail] == SetNext(x.s.ram, b.tail, g.head)[b.tail]
       case SpliceDone(k, g) => k < SHARD_COUNT && cpu == Smp.MustRetry(k) && s.shards[k] == g
       case FreeSpin(k, f) => k < SHARD_COUNT && cpu == Smp.Outside && f < |s.owner| && Pmm.Idle(s, f)
       case FreeHold(k, f, g) =>
         && cpu == Smp.Outside && Freeing(x.s, s, k, f, g) && s.gen[f] == (x.s.gen[f] + 1) % U32
         && x.s.owner[f].Kernel?
       case FreeSeen(k, f, o, g) =>
         && cpu == Smp.Outside && Freeing(x.s, s, k, f, g) && s.gen[f] == (x.s.gen[f] + 1) % U32
         && x.s.owner[f] == o == Kernel
       case FreeOwned(k, f, g) =>
         cpu == Smp.Outside && Freeing(x.s, s, k, f, g) && s.gen[f] == (x.s.gen[f] + 1) % U32
       case FreeBumped(k, f, g) => cpu == Smp.Outside && Freeing(x.s, s, k, f, g)
       case FreeDone(k, g) => k < SHARD_COUNT && cpu == Smp.Outside && s.shards[k] == g
       case Halted(_) => false
  }

  predicate Holding(x: Fine, c: nat)
    requires c < |x.pcs| && LockOf(x.pcs[c]).Some?
  {
    LockOf(x.pcs[c]).value < |x.locks| && x.locks[LockOf(x.pcs[c]).value]
  }

  predicate SameLock(p: Pc, q: Pc) {
    LockOf(p).Some? && LockOf(p) == LockOf(q)
  }

  /** A flag is set exactly while one CPU is between its swap and its store. */
  ghost predicate LocksOk(x: Fine) {
    && (forall c :: 0 <= c < |x.pcs| && LockOf(x.pcs[c]).Some? ==> Holding(x, c))
    && (forall l: nat :: l < |x.locks| && x.locks[l] ==> exists c :: 0 <= c < |x.pcs| && LockOf(x.pcs[c]) == Some(l))
    && (forall c, d :: 0 <= c < |x.pcs| && 0 <= d < |x.pcs| && SameLock(x.pcs[c], x.pcs[d]) ==> c == d)
  }

  /** Memory agrees wherever no lock is held and no write is outstanding. */
  ghost predicate MemoryOk(x: Fine, a: State) {
    var s := x.s;
    && Sized(x) && Valid(s) && Valid(a) && |s.owner| == |a.owner| && s.mappings == a.mappings && s.pinned == a.pinned
    && (forall k: nat :: k < SHARD_COUNT && !x.locks[k] ==> s.shards[k] == a.shards[k])
    && (!x.locks[GLOBAL] ==> s.global == a.global)
    && (forall f: nat :: f < |s.owner| && OwnerSettled(x.pcs, f) ==> s.owner[f] == a.owner[f])
    && (forall f: nat :: f < |s.owner| && GenSettled(x.pcs, f) ==> s.gen[f] == a.gen[f])
    && (forall f: nat :: f < |s.owner| && LinkSettled(x.pcs, f) ==> s.ram[f] == a.ram[f])
  }

  ghost predicate Sim(x: Fine, a: Smp.System) {
    && Sized(x) && Smp.SmpInv(a) && |a.cpus| == |x.pcs| == |a.held|
    && (forall c :: 0 <= c < |x.pcs| ==> HeldRel(x, a, c))
    && (forall c :: 0 <= c < |x.pcs| ==> PcOk(x, a, c))
    && LocksOk(x)
    && MemoryOk(x, a.s)
  }

  // ---------- claims of different CPUs ----------

  /** Frame `y` is met on the list with index `p` among shards, global list and batches. */
  ghost predicate Listed(a: Smp.System, p: nat, y: nat) {
    var an := Anchors(a.s, Smp.Batches(a.cpus));
    p < |an| && Visits(a.s.ram, an[p].head, an[p].count, y) > 0
  }

  lemma ListedFree(a: Smp.System, p: nat, y: nat)
    requires Smp.SmpInv(a) && Listed(a, p, y)
    ensures IsFree(a.s, y)
  {
    hide ListInv, Smp.HeldOk, Smp.BatchOk;
    MeetingsContain(a.s.ram, Anchors(a.s, Smp.Batches(a.cpus)), p, y);
    Smp.MeetingsFree(a.s, Smp.Batches(a.cpus), y);
  }

  lemma ListedOnce(a: Smp.System, p: nat, q: nat, y: nat)
    requires Smp.SmpInv(a) && Listed(a, p, y) && Listed(a, q, y)
    ensures p == q
  {
    hide ListInv, Smp.HeldOk, Smp.BatchOk;
    if p != q {
      Smp.TwoLists(a.s.ram, Anchors(a.s, Smp.Batches(a.cpus)), p, q, y);
      Smp.MeetingsFree(a.s, Smp.Batches(a.cpus), y);
    }
  }

  /** The claimed frames are on a list; otherwise they are in hand. */
  predicate OnList(pc: Pc) {
    || pc.PeelWalk? || pc.SpliceSpin? || pc.SpliceHold?
    || pc.FreeHold? || pc.FreeSeen? || pc.FreeOwned? || pc.FreeBumped?
  }

  function Spot(pc: Pc, c: nat): nat
    requires OnList(pc)
  {
    if pc.PeelWalk? || pc.SpliceSpin? then SHARD_COUNT + 1 + c else pc.k
  }

  lemma ClaimPlace(x: Fine, a: Smp.System, c: nat, y: nat)
    requires Smp.SmpInv(a) && c < |x.pcs| && |a.cpus| == |x.pcs| == |a.held| == |x.held|
    requires PcOk(x, a, c) && HeldRel(x, a, c) && Claims(a, x.pcs[c], y)
    ensures if OnList(x.pcs[c]) then Listed(a, Spot(x.pcs[c], c), y) else y in a.held[c]
    ensures y < |a.s.owner|
  {
    hide ListInv, Smp.BatchOk;
    var pc, an := x.pcs[c], Anchors(a.s, Smp.Batches(a.cpus));
    if OnList(pc) {
      if pc.PeelWalk? || pc.SpliceSpin? {
        assert an[SHARD_COUNT + 1 + c] == Smp.InFlight(a.cpus[c]);
      } else {
        assert an[pc.k] == a.s.shards[pc.k];
        if pc.SpliceHold? { VisitsSplit(a.s.ram, pc.b.head, pc.b.count, pc.g.count, y); }
      }
      ListedFree(a, Spot(pc, c), y);
    } else {
      assert Smp.Holds(a.held, c, y);
    }
  }

  /** No two calls claim the same frame. */
  lemma ClaimsApart(x: Fine, a: Smp.System, c: nat, d: nat, y: nat)
    requires Sim(x, a) && c < |x.pcs| && d < |x.pcs|
    requires Claims(a, x.pcs[c], y) && Claims(a, x.pcs[d], y)
    ensures c == d
  {
    hide ListInv, Smp.BatchOk, Claims, Listed, MemoryOk;
    ClaimPlace(x, a, c, y);
    ClaimPlace(x, a, d, y);
    var p, q := x.pcs[c], x.pcs[d];
    if OnList(p) { ListedFree(a, Spot(p, c), y); } else { HeldKernel(a, c, y); }
    if OnList(q) { ListedFree(a, Spot(q, d), y); } else { HeldKernel(a, d, y); }
    if OnList(p) && OnList(q) {
      ListedOnce(a, Spot(p, c), Spot(q, d), y);
      assert c == d || SameLock(p, q);
    } else if !OnList(p) && !OnList(q) {
      assert Smp.Holds(a.held, c, y) && Smp.Holds(a.held, d, y);
    }
  }

  lemma HeldKernel(a: Smp.System, c: nat, y: nat)
    requires Smp.SmpInv(a) && c < |a.held| && y in a.held[c]
    ensures y < |a.s.owner| && a.s.owner[y].Kernel?
  {
    assert Smp.Holds(a.held, c, y);
  }

  /** A frame in a caller's hands is claimed by no call. */
  lemma HeldUnclaimed(x: Fine, a: Smp.System, c: nat, d: nat, y: nat)
    requires Sim(x, a) && c < |x.pcs| && d < |x.pcs| && y in x.held[c]
    ensures !Claims(a, x.pcs[d], y) && y < |a.s.owner| && a.s.owner[y].Kernel?
  {
    hide ListInv, Smp.BatchOk, Claims, Listed, MemoryOk, LocksOk, PcOk;
    assert HeldRel(x, a, c) && HeldRel(x, a, d) && PcOk(x, a, d);
    HeldKernel(a, c, y);
    if OnList(x.pcs[d]) {
      if Claims(a, x.pcs[d], y) {
        ClaimPlace(x, a, d, y);
        ListedFree(a, Spot(x.pcs[d], d), y);
      }
    } else {
      InHandClaims(a, x.pcs[d], y);
      assert Smp.Holds(a.held, c, y);
      assert Smp.Holds(a.held, d, y) ==> c == d;
    }
  }

  lemma InHandClaims(a: Smp.System, pc: Pc, y: nat)
    requires !OnList(pc)
    ensures Claims(a, pc, y) <==> y in InHand(pc)
  {
  }

  // ---------- what a step of one CPU leaves of another's position ----------

  ghost predicate SameAt(s: State, s': State, y: nat)
    requires Valid(s) && Valid(s') && |s'.owner| == |s.owner|
  {
    y < |s.owner| ==> s'.owner[y] == s.owner[y] && s'.gen[y] == s.gen[y] && s'.ram[y] == s.ram[y]
  }

  lemma LinkOfSame(s: State, s': State, y: nat)
    requires Valid(s) && Valid(s') && |s'.owner| == |s.owner| && SameAt(s, s', y)
    ensures Next(s'.ram, y) == Next(s.ram, y)
    ensures forall next: nat :: y < |s.ram| ==> SetNext(s'.ram, y, next)[y] == SetNext(s.ram, y, next)[y]
  {
  }

  lemma FollowStable(ram: Ram, ram': Ram, head: nat, n: nat, j: nat)
    requires j <= n && forall y: nat :: Visits(ram, head, n, y) > 0 ==> Next(ram', y) == Next(ram, y)
    ensures Follow(ram', head, j) == Follow(ram, head, j)
    ensures forall y: nat :: Visits(ram', head, n, y) == Visits(ram, head, n, y)
  {
    forall y: nat | Visits(ram, head, j, y) > 0
      ensures Visits(ram, head, n, y) > 0
    {
      VisitsSplit(ram, head, j, n - j, y);
    }
    VisitsFrame(ram, ram', head, j);
    VisitsFrame(ram, ram', head, n);
  }

  /** Nothing that the position of CPU `c` speaks about has changed. */
  ghost predicate Untouched(x: Fine, a: Smp.System, x': Fine, a': Smp.System, c: nat) {
    && c < |x.pcs| && |x'.pcs| == |x.pcs| == |a.cpus| == |a'.cpus| && x'.pcs[c] == x.pcs[c] && a'.cpus[c] == a.cpus[c]
    && Valid(x.s) && Valid(x'.s) && Valid(a.s) && Valid(a'.s)
    && |x'.s.owner| == |x.s.owner| == |a.s.owner| == |a'.s.owner|
    && a'.s.pinned == a.s.pinned && a'.s.mappings == a.s.mappings
    && (LockOf(x.pcs[c]).Some? ==>
          var l := LockOf(x.pcs[c]).value;
          && (l < SHARD_COUNT ==> a'.s.shards[l] == a.s.shards[l] && x'.s.shards[l] == x.s.shards[l])
          && (l == GLOBAL ==> a'.s.global == a.s.global && x'.s.global == x.s.global))
    && (forall y: nat :: Claims(a, x.pcs[c], y) ==> SameAt(a.s, a'.s, y) && SameAt(x.s, x'.s, y))
  }

  lemma PcStable(x: Fine, a: Smp.System, x': Fine, a': Smp.System, c: nat)
    requires PcSized(x, a, c) && PcOk(x, a, c) && Untouched(x, a, x', a', c)
    ensures PcOk(x', a', c)
  {
    hide Visits, Follow, Next, SetNext, SameAt;
    var pc := x.pcs[c];
    forall y: nat | Claims(a, pc, y)
      ensures Next(a'.s.ram, y) == Next(a.s.ram, y)
      ensures forall next: nat :: y < |x.s.ram| ==> SetNext(x'.s.ram, y, next)[y] == SetNext(x.s.ram, y, next)[y]
    {
      LinkOfSame(a.s, a'.s, y);
      LinkOfSame(x.s, x'.s, y);
    }
    if pc.PeelWalk? {
      FollowStable(a.s.ram, a'.s.ram, pc.g.head, pc.n, pc.n);
      FollowStable(a.s.ram, a'.s.ram, pc.g.head, pc.n, pc.j);
      if pc.j > 0 { FollowStable(a.s.ram, a'.s.ram, pc.g.head, pc.n, pc.j - 1); }
    } else if pc.SpliceHold? {
      FollowStable(a.s.ram, a'.s.ram, pc.b.head, pc.b.count, 0);
      assert Claims(a, pc, pc.b.tail);
      SameThere(a.s, a'.s, pc.b.tail);
    } else if pc.FreeHold? || pc.FreeSeen? || pc.FreeOwned? || pc.FreeBumped? {
      assert Claims(a, pc, pc.f);
      SameThere(a.s, a'.s, pc.f);
      SameThere(x.s, x'.s, pc.f);
    } else if pc.PopRead? {
      assert Claims(a, pc, pc.g.head);
      SameThere(x.s, x'.s, pc.g.head);
    } else if pc.PopTake? {
      assert Claims(a, pc, pc.h);
      SameThere(x.s, x'.s, pc.h);
    }
  }

  ghost predicate PcSized(x: Fine, a: Smp.System, c: nat) {
    c < |x.pcs| && c < |a.cpus|
  }

  lemma SameThere(s: State, s': State, y: nat)
    requires Valid(s) && Valid(s') && |s'.owner| == |s.owner| && SameAt(s, s', y) && y < |s.owner|
    ensures s'.owner[y] == s.owner[y] && s'.gen[y] == s.gen[y] && s'.ram[y] == s.ram[y]
  {
  }

  // ---------- putting a state back together ----------

  lemma LocksMove(x: Fine, x': Fine, c: nat)
    requires Sized(x) && LocksOk(x) && c < |x.pcs| && |x'.pcs| == |x.pcs| && x'.pcs == x.pcs[c := x'.pcs[c]]
    requires var p, q := LockOf(x.pcs[c]), LockOf(x'.pcs[c]);
             || (q == p && x'.locks == x.locks)
             || (p.None? && q.Some? && q.value < |x.locks| && !x.locks[q.value] && x'.locks == x.locks[q.value := true])
             || (p.Some? && q.None? && p.value < |x.locks| && x'.locks == x.locks[p.value := false])
    ensures LocksOk(x')
  {
    hide LockOf, Sized;
    forall d | 0 <= d < |x'.pcs| && LockOf(x'.pcs[d]).Some?
      ensures Holding(x', d)
    {
      if d != c { assert LockOf(x.pcs[d]).Some? && Holding(x, d) && !(SameLock(x.pcs[c], x.pcs[d])); }
    }
    forall d, e | 0 <= d < |x'.pcs| && 0 <= e < |x'.pcs| && SameLock(x'.pcs[d], x'.pcs[e])
      ensures d == e
    {
      if d != c && e != c { assert SameLock(x.pcs[d], x.pcs[e]); }
      if d != c { assert Holding(x, d); }
      if e != c { assert Holding(x, e); }
      if e == c && d != c { assert SameLock(x.pcs[d], x.pcs[c]) || LockOf(x.pcs[c]).None?; }
      if d == c && e != c { assert SameLock(x.pcs[e], x.pcs[c]) || LockOf(x.pcs[c]).None?; }
    }
    forall l: nat | l < |x'.locks| && x'.locks[l]
      ensures exists d :: 0 <= d < |x'.pcs| && LockOf(x'.pcs[d]) == Some(l)
    {
      if LockOf(x'.pcs[c]) != Some(l) {
        var d :| 0 <= d < |x.pcs| && LockOf(x.pcs[d]) == Some(l);
        assert LockOf(x'.pcs[d]) == Some(l);
      }
    }
  }

  /** One field of frame `f` agrees afterwards, or is outstanding, or nothing happened to it. */
  ghost predicate Steady(same: bool, lagged: bool, lags: bool, equal: bool) {
    (same && (lagged ==> lags)) || lags || equal
  }

  lemma MemoryMove(x: Fine, a: State, x': Fine, a': State, c: nat)
    requires MemoryOk(x, a) && c < |x.pcs| && |x'.pcs| == |x.pcs| && x'.pcs == x.pcs[c := x'.pcs[c]]
    requires Sized(x') && Valid(x'.s) && Valid(a') && |x'.s.owner| == |x.s.owner| == |a'.owner|
    requires x'.s.mappings == a'.mappings && x'.s.pinned == a'.pinned
    requires forall k: nat :: k < SHARD_COUNT && !x'.locks[k] ==> x'.s.shards[k] == a'.shards[k]
    requires !x'.locks[GLOBAL] ==> x'.s.global == a'.global
    requires forall f: nat :: f < |x.s.owner| ==>
               Steady(x'.s.owner[f] == x.s.owner[f] && a'.owner[f] == a.owner[f],
                      LagsOwner(x.pcs[c], f), LagsOwner(x'.pcs[c], f), x'.s.owner[f] == a'.owner[f])
    requires forall f: nat :: f < |x.s.owner| ==>
               Steady(x'.s.gen[f] == x.s.gen[f] && a'.gen[f] == a.gen[f],
                      LagsGen(x.pcs[c], f), LagsGen(x'.pcs[c], f), x'.s.gen[f] == a'.gen[f])
    requires forall f: nat :: f < |x.s.owner| ==>
               Steady(x'.s.ram[f] == x.s.ram[f] && a'.ram[f] == a.ram[f],
                      LagsLink(x.pcs[c], f), LagsLink(x'.pcs[c], f), x'.s.ram[f] == a'.ram[f])
    ensures MemoryOk(x', a')
  {
    hide LagsOwner, LagsGen, LagsLink;
    forall f: nat | f < |x.s.owner| && OwnerSettled(x'.pcs, f)
      ensures x'.s.owner[f] == a'.owner[f]
    {
      assert !LagsOwner(x'.pcs[c], f);
      if !LagsOwner(x.pcs[c], f) { OwnerStillSettled(x.pcs, x'.pcs, c, f); }
    }
    forall f: nat | f < |x.s.owner| && GenSettled(x'.pcs, f)
      ensures x'.s.gen[f] == a'.gen[f]
    {
      assert !LagsGen(x'.pcs[c], f);
      if !LagsGen(x.pcs[c], f) { GenStillSettled(x.pcs, x'.pcs, c, f); }
    }
    forall f: nat | f < |x.s.owner| && LinkSettled(x'.pcs, f)
      ensures x'.s.ram[f] == a'.ram[f]
    {
      assert !LagsLink(x'.pcs[c], f);
      if !LagsLink(x.pcs[c], f) { LinkStillSettled(x.pcs, x'.pcs, c, f); }
    }
  }

  lemma OwnerStillSettled(pcs: seq<Pc>, pcs': seq<Pc>, c: nat, f: nat)
    requires c < |pcs| && |pcs'| == |pcs| && pcs' == pcs[c := pcs'[c]]
    requires OwnerSettled(pcs', f) && !LagsOwner(pcs[c], f)
    ensures OwnerSettled(pcs, f)
  {
    forall d | 0 <= d < |pcs|
      ensures !LagsOwner(pcs[d], f)
    {
      if d != c { assert pcs'[d] == pcs[d]; }
    }
  }

  lemma GenStillSettled(pcs: seq<Pc>, pcs': seq<Pc>, c: nat, f: nat)
    requires c < |pcs| && |pcs'| == |pcs| && pcs' == pcs[c := pcs'[c]]
    requires GenSettled(pcs', f) && !LagsGen(pcs[c], f)
    ensures GenSettled(pcs, f)
  {
    forall d | 0 <= d < |pcs|
      ensures !LagsGen(pcs[d], f)
    {
      if d != c { assert pcs'[d] == pcs[d]; }
    }
  }

  lemma LinkStillSettled(pcs: seq<Pc>, pcs': seq<Pc>, c: nat, f: nat)
    requires c < |pcs| && |pcs'| == |pcs| && pcs' == pcs[c := pcs'[c]]
    requires LinkSettled(pcs', f) && !LagsLink(pcs[c], f)
    ensures LinkSettled(pcs, f)
  {
    forall d | 0 <= d < |pcs|
      ensures !LagsLink(pcs[d], f)
    {
      if d != c { assert pcs'[d] == pcs[d]; }
    }
  }

  lemma LagClaims(x: Fine, a: Smp.System, c: nat, f: nat)
    requires c < |x.pcs| && c < |a.cpus| && PcOk(x, a, c)
    requires LagsLink(x.pcs[c], f) || LagsGen(x.pcs[c], f) || LagsOwner(x.pcs[c], f)
    ensures Claims(a, x.pcs[c], f)
  {
  }

  /** A CPU that claims a frame and has nothing outstanding on it sees its true owner, link and generation. */
  lemma ReadsTrue(x: Fine, a: Smp.System, c: nat, y: nat)
    requires Sim(x, a) && c < |x.pcs| && Claims(a, x.pcs[c], y)
    ensures y < |x.s.owner| == |a.s.owner| && Valid(x.s) && Valid(a.s)
    ensures !LagsLink(x.pcs[c], y) ==> x.s.ram[y] == a.s.ram[y] && Next(x.s.ram, y) == Next(a.s.ram, y)
    ensures !LagsGen(x.pcs[c], y) ==> x.s.gen[y] == a.s.gen[y]
    ensures !LagsOwner(x.pcs[c], y) ==> x.s.owner[y] == a.s.owner[y]
  {
    hide Smp.SmpInv, Claims, LagsLink, LagsGen, LagsOwner, PcOk, LocksOk;
    assert PcOk(x, a, c) && HeldRel(x, a, c);
    ClaimPlace(x, a, c, y);
    forall d | 0 <= d < |x.pcs| && d != c
      ensures !LagsLink(x.pcs[d], y) && !LagsGen(x.pcs[d], y) && !LagsOwner(x.pcs[d], y)
    {
      assert PcOk(x, a, d);
      if LagsLink(x.pcs[d], y) || LagsGen(x.pcs[d], y) || LagsOwner(x.pcs[d], y) {
        LagClaims(x, a, d, y);
        ClaimsApart(x, a, c, d, y);
      }
    }
    if !LagsLink(x.pcs[c], y) { assert LinkSettled(x.pcs, y); }
    if !LagsGen(x.pcs[c], y) { assert GenSettled(x.pcs, y); }
    if !LagsOwner(x.pcs[c], y) { assert OwnerSettled(x.pcs, y); }
  }

  /** A frame in a caller's hands has nothing outstanding on it. */
  lemma HeldTrue(x: Fine, a: Smp.System, c: nat, y: nat)
    requires Sim(x, a) && c < |x.pcs| && y in x.held[c]
    ensures y < |x.s.owner| == |a.s.owner| && Valid(x.s) && Valid(a.s)
    ensures x.s.ram[y] == a.s.ram[y] && x.s.owner[y] == Kernel && a.s.owner[y] == Kernel
  {
    hide Smp.SmpInv, Claims, LagsLink, LagsGen, LagsOwner, PcOk, LocksOk;
    HeldUnclaimed(x, a, c, c, y);
    forall d | 0 <= d < |x.pcs|
      ensures !LagsLink(x.pcs[d], y) && !LagsOwner(x.pcs[d], y)
    {
      assert PcOk(x, a, d);
      HeldUnclaimed(x, a, c, d, y);
      if LagsLink(x.pcs[d], y) || LagsOwner(x.pcs[d], y) { LagClaims(x, a, d, y); }
    }
    assert LinkSettled(x.pcs, y) && OwnerSettled(x.pcs, y);
  }

  /** Everything but CPU `c` is as before. */
  ghost predicate OthersUntouched(x: Fine, a: Smp.System, x': Fine, a': Smp.System, c: nat) {
    && |x'.pcs| == |x.pcs| == |a'.cpus| == |a'.held| == |x'.held|
    && forall d :: 0 <= d < |x.pcs| && d != c ==> Untouched(x, a, x', a', d) && HeldRel(x', a', d)
  }

  lemma SimMove(x: Fine, a: Smp.System, x': Fine, a': Smp.System, c: nat)
    requires Sim(x, a) && Smp.SmpInv(a') && Sized(x') && c < |x.pcs| && OthersUntouched(x, a, x', a', c)
    requires HeldRel(x', a', c) && PcOk(x', a', c) && LocksOk(x') && MemoryOk(x', a'.s)
    ensures Sim(x', a')
  {
    hide Smp.SmpInv, PcOk, LocksOk, MemoryOk, Untouched, HeldRel;
    forall d | 0 <= d < |x'.pcs|
      ensures PcOk(x', a', d) && HeldRel(x', a', d)
    {
      if d != c {
        assert PcOk(x, a, d) && Untouched(x, a, x', a', d);
        PcStable(x, a, x', a', d);
      }
    }
  }

  /** A step within a section: it writes only what it claims, and stores only what it has locked. */
  lemma Internal(x: Fine, a: Smp.System, x': Fine, c: nat)
    requires Sim(x, a) && Sized(x') && c < |x.pcs| && |x'.pcs| == |x.pcs| && x'.pcs == x.pcs[c := x'.pcs[c]]
    requires forall d :: 0 <= d < |x.pcs| && d != c ==> x'.held[d] == x.held[d]
    requires Valid(x.s) && Valid(x'.s) && |x'.s.owner| == |x.s.owner|
    requires forall y: nat :: y < |x.s.owner| && !Claims(a, x.pcs[c], y) ==> SameAt(x.s, x'.s, y)
    requires forall k: nat :: k < SHARD_COUNT && LockOf(x.pcs[c]) != Some(k) ==> x'.s.shards[k] == x.s.shards[k]
    requires LockOf(x.pcs[c]) != Some(GLOBAL) ==> x'.s.global == x.s.global
    requires HeldRel(x', a, c) && PcOk(x', a, c) && LocksOk(x') && MemoryOk(x', a.s)
    ensures Sim(x', a)
  {
    hide Smp.SmpInv, PcOk, MemoryOk, Claims, LockOf;
    forall d | 0 <= d < |x.pcs| && d != c
      ensures Untouched(x, a, x', a, d) && HeldRel(x', a, d)
    {
      assert HeldRel(x, a, d) && PcOk(x, a, d);
      ValidParts(x, a, d);
      assert !SameLock(x.pcs[c], x.pcs[d]);
      forall y: nat | Claims(a, x.pcs[d], y)
        ensures SameAt(x.s, x'.s, y)
      {
        if Claims(a, x.pcs[c], y) { ClaimsApart(x, a, c, d, y); }
      }
    }
    SimMove(x, a, x', a, c);
  }

  lemma ValidParts(x: Fine, a: Smp.System, c: nat)
    requires c < |x.pcs| && c < |a.cpus| && PcOk(x, a, c)
    ensures Valid(x.s) && Valid(a.s) && |x.s.owner| == |a.s.owner|
  {
  }
}
