/**
 Untyped capabilities (`kernel/src/untyped.rs`): splitting a capability and retyping its frames.
 */
module Untyped {
  import opened Frames
  import opened Pmm

  datatype Cap = Cap(id: nat, base: nat, num: nat, cursor: nat)

  function NewCap(id: nat, base: nat, num: nat): Cap {
    Cap(id, base, num, base)
  }

  /** The frames a capability covers. */
  predicate Covers(cap: Cap, f: nat) {
    cap.base <= f < cap.base + cap.num
  }

  // ---------- split ----------

  datatype SplitResult = Split(low: Cap, high: Cap) | Refused

  /** `UntypedCap::split`: the frame count is truncated to 32 bits. */
  function SplitCap(cap: Cap, splitLen: nat): SplitResult {
    if splitLen == 0 || splitLen % FRAME_SIZE != 0 then Refused
    else
      var frames := splitLen / FRAME_SIZE % U32;
      if frames >= cap.num then Refused
      else Split(NewCap(cap.id, cap.base, frames), NewCap(cap.id, cap.base + frames, cap.num - frames))
  }

  /**
   The halves of a split share the region id and partition the frames, the low half first.  The low
   half is the asked length exactly for lengths below 2^44; a longer request is truncated, and accepted
   or refused by what is left of it.
   */
  lemma SplitExact(cap: Cap, splitLen: nat)
    requires cap.num < U32
    ensures match SplitCap(cap, splitLen)
            case Split(low, high) =>
              && low.id == cap.id == high.id
              && (forall f: nat :: Covers(cap, f) <==> Covers(low, f) || Covers(high, f))
              && (forall f: nat :: !(Covers(low, f) && Covers(high, f)))
              && low.base == cap.base && low.num == splitLen / FRAME_SIZE % U32
              && high.base == cap.base + low.num && low.num + high.num == cap.num && high.num > 0
              && (low.num * FRAME_SIZE == splitLen <==> splitLen < 0x1000_0000_0000)
              && low.cursor == low.base && high.cursor == high.base
            case Refused =>
              splitLen % FRAME_SIZE != 0 || splitLen == 0 || splitLen / FRAME_SIZE >= cap.num
    ensures SplitCap(cap, splitLen).Split? <==>
              splitLen > 0 && splitLen % FRAME_SIZE == 0 && splitLen / FRAME_SIZE % U32 < cap.num
  {
  }

  /** A split of exactly 2^44 bytes is accepted, with an empty low half and the whole cap as high half. */
  lemma SplitTruncates(cap: Cap)
    requires cap.num > 0
    ensures SplitCap(cap, 0x1000_0000_0000) == Split(NewCap(cap.id, cap.base, 0), NewCap(cap.id, cap.base, cap.num))
  {
  }

  // ---------- retype ----------

  predicate Takes(s: State, cap: Cap, f: nat) {
    f < |s.owner| && s.owner[f] == Untyped(cap.id)
  }

  /** The search loop of `retype_frame`. */
  function Scan(s: State, cap: Cap, idx: nat, tried: nat): Option<nat>
    decreases cap.num - tried
  {
    if tried >= cap.num then None
    else
      var i := if idx >= cap.base + cap.num then cap.base else idx;
      if Takes(s, cap, i) then Some(i) else Scan(s, cap, i + 1, tried + 1)
  }

  /** `retype_frame`: the frame, if any, goes to `domain` and the cursor moves past it. */
  function Retype(s: State, cap: Cap, domain: nat): (State, Cap, Option<nat>) {
    match Scan(s, cap, cap.cursor, 0)
    case None => (s, cap, None)
    case Some(f) =>
      if f < |s.owner| then (s.(owner := s.owner[f := Domain(domain)]), cap.(cursor := f + 1), Some(f))
      else (s, cap, None)
  }

  /** A cursor that `retype_frame` can leave behind. */
  predicate CursorOk(cap: Cap) {
    cap.base <= cap.cursor <= cap.base + cap.num
  }

  /** The `j`-th frame tried from `idx`. */
  function Tried(cap: Cap, idx: nat, j: nat): nat {
    if idx + j < cap.base + cap.num then idx + j else idx + j - cap.num
  }

  /** How far frame `f` lies ahead of the cursor, cyclically. */
  function Ahead(cap: Cap, f: nat): int {
    if f >= cap.cursor then f - cap.cursor else f + cap.num - cap.cursor
  }

  /** Frame `f` is the `j`-th tried from `idx`, and none tried before it can be taken. */
  ghost predicate FirstTaken(s: State, cap: Cap, idx: nat, j: nat, f: nat) {
    f == Tried(cap, idx, j) && forall i: nat :: i < j ==> !Takes(s, cap, Tried(cap, idx, i))
  }

  lemma {:induction false} ScanExact(s: State, cap: Cap, idx: nat, tried: nat)
    requires cap.base <= idx <= cap.base + cap.num && tried <= cap.num
    ensures match Scan(s, cap, idx, tried)
            case Some(f) =>
              && Covers(cap, f) && Takes(s, cap, f)
              && exists j: nat :: tried + j < cap.num && FirstTaken(s, cap, idx, j, f)
            case None => forall j: nat :: tried + j < cap.num ==> !Takes(s, cap, Tried(cap, idx, j))
    decreases cap.num - tried
  {
    hide Takes;
    if tried < cap.num {
      var i := if idx >= cap.base + cap.num then cap.base else idx;
      assert Tried(cap, idx, 0) == i;
      if Takes(s, cap, i) {
        assert FirstTaken(s, cap, idx, 0, i);
      } else {
        ScanExact(s, cap, i + 1, tried + 1);
        match Scan(s, cap, i + 1, tried + 1) {
          case Some(f) =>
            var j: nat :| tried + 1 + j < cap.num && FirstTaken(s, cap, i + 1, j, f);
            TriedStep(s, cap, idx, i + 1, j + 1);
            assert FirstTaken(s, cap, idx, j + 1, f);
          case None => TriedStep(s, cap, idx, i + 1, cap.num - tried - 1);
        }
      }
    }
  }

  /** What is tried from the next frame on, seen from this one. */
  lemma TriedStep(s: State, cap: Cap, idx: nat, next: nat, n: nat)
    requires cap.base <= idx <= cap.base + cap.num && n < cap.num && next == Tried(cap, idx, 0) + 1
    ensures forall j: nat :: 0 < j <= n ==> Tried(cap, idx, j) == Tried(cap, next, j - 1)
    ensures (forall j: nat :: j < n ==> !Takes(s, cap, Tried(cap, next, j))) ==>
              forall j: nat :: 0 < j <= n ==> !Takes(s, cap, Tried(cap, idx, j))
  {
    hide Takes;
  }

  /**
   From any cursor, `retype_frame` grants the first covered frame, cyclically, that is still Untyped
   with the region's id, and leaves the cursor behind it; it reports Exhausted exactly when there is
   none.
   */
  lemma RetypeExact(s: State, cap: Cap, domain: nat)
    requires CursorOk(cap)
    ensures var (s', cap', r) := Retype(s, cap, domain);
            && CursorOk(cap') && cap'.(cursor := cap.cursor) == cap
            && (r.Some? ==>
                  && Covers(cap, r.value) && Takes(s, cap, r.value) && cap'.cursor == r.value + 1
                  && s' == s.(owner := s.owner[r.value := Domain(domain)])
                  && forall f: nat :: Covers(cap, f) && Ahead(cap, f) < Ahead(cap, r.value) ==> !Takes(s, cap, f))
            && (r.None? ==> s' == s)
            && (r.None? <==> forall f: nat :: Covers(cap, f) ==> !Takes(s, cap, f))
  {
    ScanExact(s, cap, cap.cursor, 0);
    if Scan(s, cap, cap.cursor, 0).Some? {
      var r := Scan(s, cap, cap.cursor, 0).value;
      var j: nat :| j < cap.num && FirstTaken(s, cap, cap.cursor, j, r);
      forall f: nat | Covers(cap, f) && Ahead(cap, f) < Ahead(cap, r)
        ensures !Takes(s, cap, f)
      {
        assert Tried(cap, cap.cursor, Ahead(cap, f)) == f;
      }
    } else {
      forall f: nat | Covers(cap, f)
        ensures !Takes(s, cap, f)
      {
        var j := if f >= cap.cursor then f - cap.cursor else f + cap.num - cap.cursor;
        assert Tried(cap, cap.cursor, j) == f;
      }
    }
  }
}
