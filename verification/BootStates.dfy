/**
 States that `pmm_init` (`kernel/src/boot.rs`) leaves on machines whose pool is the frames from some
 point on: those frames are Free and each is linked to the next.
 */
module BootStates {
  import opened Frames
  import opened Pmm
  import opened FrameAlloc
  import opened Census
  import opened BootRegions
  import opened BootAlloc
  import opened PmmInit
  import Vmm

  function TailOwners(frames: nat, first: nat): (owner: seq<Owner>)
    ensures |owner| == frames
  {
    seq(frames, f => if f < first then Reserved else Free)
  }

  function ChainRam(frames: nat): Ram {
    seq(frames, (f: nat) => seq(WORDS, i => if i > 0 then 0 else if f + 1 < frames then f + 1 else LIST_END))
  }

  function TailState(frames: nat, first: nat): State
    requires first <= frames
  {
    FreshState(TailOwners(frames, first), ChainRam(frames), first, frames - first)
  }

  /** The result of `pmm_init` with this state and placement, without specs. */
  function TailInit(frames: nat, first: nat, ftPhys: nat, heapPhys: nat, heapLen: nat): (r: InitResult)
    requires first <= frames
    ensures r.Started?
  {
    Started(TailState(frames, first), [], frames - first, ftPhys, heapPhys, heapPhys + heapLen)
  }

  lemma ChainNext(frames: nat, f: nat)
    requires f < frames < LIST_END
    ensures Next(ChainRam(frames), f) == if f + 1 < frames then f + 1 else LIST_END
  {
    assert |ChainRam(frames)[f]| == WORDS;
  }

  /** The list from `head` runs through all frames from there on. */
  lemma {:induction false} ChainWalk(frames: nat, head: nat, n: nat, f: nat)
    requires frames < LIST_END && head + n <= frames && (n > 0 ==> head < frames)
    ensures Visits(ChainRam(frames), head, n, f) == if head <= f < head + n then 1 else 0
    ensures head < frames && head + n == frames ==> Follow(ChainRam(frames), head, n) == LIST_END
    decreases n
  {
    hide ChainRam;
    if n > 0 {
      ChainNext(frames, head);
      if n > 1 { ChainWalk(frames, head + 1, n - 1, f); }
    }
  }

  lemma {:induction false} FreeTail(owner: seq<Owner>, first: nat)
    requires first <= |owner|
    requires forall f: nat :: f < |owner| ==> owner[f] == if f < first then Reserved else Free
    ensures CountFree(owner) == |owner| - first
  {
    if |owner| == first { NoneFree(owner); } else { FreeTail(owner[..|owner| - 1], first); }
  }

  lemma TailShape(frames: nat, first: nat)
    ensures ValidRam(ChainRam(frames)) && |ChainRam(frames)| == frames
    ensures forall f: nat :: f < frames ==> TailOwners(frames, first)[f] == if f < first then Reserved else Free
  {
  }

  lemma TailInv(frames: nat, first: nat)
    requires first < frames < LIST_END
    ensures var s := TailState(frames, first);
            && SeqInv(s) && Valid(s) && CountFree(s.owner) == frames - first && |s.owner| == frames
            && (forall f :: 0 <= f < |s.mappings| ==> s.mappings[f] == 0)
            && IsInitial(s)
  {
    hide ChainRam, TailOwners, Visits, Follow, SeqInv, CountFree, ValidRam;
    var owner, ram, n := TailOwners(frames, first), ChainRam(frames), frames - first;
    TailShape(frames, first);
    FreeTail(owner, first);
    forall f: nat
      ensures Visits(ram, first, n, f) == if FreeAt(owner, f) then 1 else 0
    {
      ChainWalk(frames, first, n, f);
    }
    ChainWalk(frames, first, n, 0);
    FreshInv(owner, ram, first, n);
    Vmm.SeqBasics(TailState(frames, first));
    FreshInitial(owner, ram, first, n);
  }

  /** When exactly the frames from `first` on are there to be given out, this is what `pmm_init` promises. */
  lemma TailPost(regions: seq<Region>, ki: Image, frames: nat, first: nat, ftPhys: nat, heapPhys: nat, heapLen: nat,
                 heapEnd: nat)
    requires first < frames < LIST_END && frames == CeilDiv(MaxEnd(Effective(regions, ki)))
    requires forall f: nat :: f < frames ==> (first <= f <==> Available(regions, ki, ftPhys, heapEnd, f))
    requires heapEnd == heapPhys + heapLen && ftPhys % FRAME_SIZE == 0 && ftPhys + frames * FRAME_INFO_BYTES <= heapPhys
    requires InRegion(Effective(regions, ki), ftPhys, frames * FRAME_INFO_BYTES)
    requires heapLen != 0 ==> heapPhys % FRAME_SIZE == 0 && InRegion(Effective(regions, ki), heapPhys, heapLen)
    ensures InitPost(regions, ki, [], heapLen, TailInit(frames, first, ftPhys, heapPhys, heapLen))
  {
    hide ChainRam, TailOwners, SeqInv, CountFree, Effective, InRegion, IsInitial, Available, MaxEnd, Ordered, CeilDiv,
         InOrder;
    TailInv(frames, first);
    TailShape(frames, first);
    TailOrder(frames, first);
  }

  lemma TailOrder(frames: nat, first: nat)
    requires first < frames < LIST_END
    ensures InOrder(TailOwners(frames, first), ChainRam(frames), first)
  {
    hide ChainRam;
    forall f: nat | FreeAt(TailOwners(frames, first), f)
      ensures NextFree(TailOwners(frames, first), f + 1, Next(ChainRam(frames), f))
    {
      ChainNext(frames, f);
    }
  }
}
