/** The boot frame allocator: an iterator over the 4 KiB frames of the usable memory regions. */
module Frames {
  import opened Prelude
  import opened Bits

  const FRAME := 4096
  /** Physical addresses are below 2^52. */
  const MAX_PHYS := 0x10_0000_0000_0000

  datatype Kind = Usable | Bootloader | Other

  datatype Region = Region(start: nat, end: nat, kind: Kind)

  // ---------------------------------------------------------------------------
  // Rounding
  // ---------------------------------------------------------------------------

  /** Rounds up with a bit mask on 64-bit words. */
  function AlignUp(addr: nat, align: nat): nat
    requires 0 < align <= U64 && addr + align - 1 < U64
  {
    WordSize();
    And(addr + align - 1, Not(align - 1, WORD_BITS))
  }

  lemma AlignUpMasks(addr: nat, k: nat)
    requires k <= WORD_BITS && addr + Pow2(k) - 1 < U64
    ensures Pow2(k) <= U64
    ensures AlignUp(addr, Pow2(k)) == RoundDown(addr + Pow2(k) - 1, Pow2(k))
  {
    hide Pow2;
    hide And;
    hide RoundDown;
    WordSize();
    AndHighMask(addr + Pow2(k) - 1, k, WORD_BITS);
  }

  /** For a power of two the mask gives the least multiple that is not below the address. */
  lemma AlignUpIsLeastMultiple(addr: nat, k: nat)
    requires k <= WORD_BITS && addr + Pow2(k) - 1 < U64
    ensures Pow2(k) <= U64
    ensures var r := AlignUp(addr, Pow2(k)); r % Pow2(k) == 0 && addr <= r < addr + Pow2(k)
  {
    hide *;
    AlignUpMasks(addr, k);
    RoundDownIsMultiple(addr + Pow2(k) - 1, Pow2(k));
  }

  // ---------------------------------------------------------------------------
  // What is to be handed out
  // ---------------------------------------------------------------------------

  /** Ends are physical addresses and rounding a start up does not overflow. */
  predicate Sane(r: Region) {
    r.end <= MAX_PHYS && r.start + FRAME - 1 < U64
  }

  /** The first frame address not below the region's start. */
  function FirstFrame(r: Region): (a: nat)
    requires Sane(r)
    ensures a % FRAME == 0 && r.start <= a < r.start + FRAME
  {
    WordSize();
    AlignUpIsLeastMultiple(r.start, 12);
    AlignUp(r.start, FRAME)
  }

  /** f is a 4 KiB-aligned frame lying wholly inside a usable region. */
  predicate Contains(r: Region, f: nat) {
    r.kind == Usable && f % FRAME == 0 && r.start <= f && f + FRAME <= r.end
  }

  /** The iterator stops at this region. */
  predicate Qualifies(r: Region)
    requires Sane(r)
  {
    r.kind == Usable && FirstFrame(r) < r.end
  }

  predicate AllSane(rs: seq<Region>) {
    forall i :: 0 <= i < |rs| ==> Sane(rs[i])
  }

  /** f lies in some usable region and every region the iterator visits before that one has ended by then. */
  ghost predicate Reachable(rs: seq<Region>, f: nat)
    requires AllSane(rs)
  {
    exists k :: && 0 <= k < |rs| && Contains(rs[k], f)
                && forall j :: 0 <= j < k && Qualifies(rs[j]) ==> rs[j].end < f + FRAME
  }

  class UsableFrameIter {
    const regions: seq<Region>
    var regionIdx: nat
    var nextAddr: nat

    /** The current region is one to hand out from, and no earlier one has frames left. */
    ghost predicate Valid()
      reads this
    {
      && AllSane(regions)
      && regionIdx <= |regions| && nextAddr % FRAME == 0 && nextAddr <= MAX_PHYS
      && (forall j :: 0 <= j < regionIdx && Qualifies(regions[j]) ==> regions[j].end < nextAddr + FRAME)
      && (regionIdx < |regions| ==>
            Qualifies(regions[regionIdx]) && FirstFrame(regions[regionIdx]) <= nextAddr)
    }

    constructor (regions: seq<Region>)
      requires AllSane(regions)
      ensures Valid() && this.regions == regions
      ensures forall g :: 0 <= g < nextAddr ==> !Reachable(regions, g)
    {
      this.regions := regions;
      regionIdx := 0;
      nextAddr := 0;
      new;
      AdvanceToUsable();
    }

    /** Skips to the next region worth visiting, and the address to its first frame; no frame that
        should be handed out is skipped. */
    method AdvanceToUsable()
      requires AllSane(regions)
      requires regionIdx <= |regions| && nextAddr % FRAME == 0 && nextAddr <= MAX_PHYS
      requires forall j :: 0 <= j < regionIdx && Qualifies(regions[j]) ==> regions[j].end < nextAddr + FRAME
      modifies this
      ensures Valid() && old(regionIdx) <= regionIdx && old(nextAddr) <= nextAddr
      ensures forall g :: old(nextAddr) <= g < nextAddr ==> !Reachable(regions, g)
      ensures regionIdx == |regions| ==> nextAddr == old(nextAddr)
    {
      hide And;
      hide Pow2;
      hide Reachable;
      while regionIdx < |regions|
        invariant old(regionIdx) <= regionIdx <= |regions| && nextAddr == old(nextAddr)
        invariant forall j :: 0 <= j < regionIdx && Qualifies(regions[j]) ==> regions[j].end < nextAddr + FRAME
        decreases |regions| - regionIdx
      {
        var region := regions[regionIdx];
        if region.kind == Usable {
          var alignedStart := AlignUp(region.start, FRAME);
          assert alignedStart == FirstFrame(region);
          if alignedStart < region.end {
            SkippedAreUnreachable(regions, regionIdx, nextAddr);
            nextAddr := if nextAddr < alignedStart then alignedStart else nextAddr;
            return;
          }
        }
        regionIdx := regionIdx + 1;
      }
    }

    /** Hands out the least frame, not below the last one, that should be handed out; None means there is none. */
    method Next() returns (frame: Option<nat>)
      requires Valid()
      modifies this
      ensures Valid()
      ensures match frame
              case Some(f) =>
                && old(nextAddr) <= f && Reachable(regions, f) && nextAddr == f + FRAME
                && (forall g :: old(nextAddr) <= g < f ==> !Reachable(regions, g))
              case None =>
                && regionIdx == |regions| && old(nextAddr) <= nextAddr
                && (forall g :: old(nextAddr) <= g ==> !Reachable(regions, g))
      ensures old(regionIdx) == |regions| ==> frame == None && regionIdx == |regions|
    {
      hide FirstFrame;
      while true
        invariant Valid() && old(nextAddr) <= nextAddr
        invariant forall g :: old(nextAddr) <= g < nextAddr ==> !Reachable(regions, g)
        invariant old(regionIdx) == |regions| ==> regionIdx == |regions|
        decreases |regions| - regionIdx
      {
        if regionIdx >= |regions| {
          NothingLeft(regions, nextAddr);
          return None;
        }
        var region := regions[regionIdx];
        if nextAddr + FRAME <= region.end {
          var frameAddr := nextAddr;
          nextAddr := nextAddr + FRAME;
          assert Contains(regions[regionIdx], frameAddr);
          return Some(FrameContaining(frameAddr));
        }
        regionIdx := regionIdx + 1;
        AdvanceToUsable();
      }
    }
  }

  /** Start of the frame an address lies in. */
  function FrameContaining(addr: nat): nat {
    addr - addr % FRAME
  }

  /** Moving on to qualifying region `k` passes over no reachable frame. */
  lemma SkippedAreUnreachable(rs: seq<Region>, k: nat, next: nat)
    requires AllSane(rs) && k < |rs| && Qualifies(rs[k])
    requires forall j :: 0 <= j < k && Qualifies(rs[j]) ==> rs[j].end < next + FRAME
    ensures forall g :: next <= g < FirstFrame(rs[k]) ==> !Reachable(rs, g)
  {
  }

  /** When every qualifying region ends before next + FRAME, nothing from `next` on is reachable. */
  lemma NothingLeft(rs: seq<Region>, next: nat)
    requires AllSane(rs)
    requires forall j :: 0 <= j < |rs| && Qualifies(rs[j]) ==> rs[j].end < next + FRAME
    ensures forall g :: next <= g ==> !Reachable(rs, g)
  {
  }

  // ---------------------------------------------------------------------------
  // Whole runs
  // ---------------------------------------------------------------------------

  ghost predicate Increasing(fs: seq<nat>) {
    forall i, j :: 0 <= i < j < |fs| ==> fs[i] < fs[j]
  }

  lemma IncreasingSnoc(fs: seq<nat>, f: nat)
    requires Increasing(fs) && forall x :: x in fs ==> x < f
    ensures Increasing(fs + [f])
  {
    assert forall i :: 0 <= i < |fs| ==> fs[i] in fs;
  }

  lemma NoneInsideFrame(rs: seq<Region>, f: nat)
    requires AllSane(rs) && Reachable(rs, f)
    ensures forall g :: f < g < f + FRAME ==> !Reachable(rs, g)
  {
  }

  /** Calling next until None yields exactly the reachable frames, each once, in ascending order,
      for any region list in any order. */
  method AllFrames(regions: seq<Region>) returns (frames: seq<nat>)
    requires AllSane(regions)
    ensures Increasing(frames)
    ensures forall f :: f in frames <==> Reachable(regions, f)
  {
    hide FirstFrame;
    hide Reachable;
    var iter := new UsableFrameIter(regions);
    frames := [];
    var done := false;
    while !done
      invariant iter.Valid() && iter.regions == regions
      invariant Increasing(frames) && forall f :: f in frames ==> f < iter.nextAddr
      invariant forall f :: 0 <= f < iter.nextAddr ==> (f in frames <==> Reachable(regions, f))
      invariant done ==> forall f :: iter.nextAddr <= f ==> !Reachable(regions, f)
      decreases !done, MAX_PHYS + FRAME - iter.nextAddr
    {
      ghost var from, before := iter.nextAddr, frames;
      var frame := iter.Next();
      match frame {
        case Some(f) =>
          frames := frames + [f];
          IncreasingSnoc(before, f);
          NoneInsideFrame(regions, f);
          assert forall g :: g in frames <==> g in before || g == f;
        case None =>
          done := true;
          assert forall g :: from <= g < iter.nextAddr ==> g !in frames;
      }
    }
  }

  /** Every frame handed out is 4 KiB-aligned and wholly inside a usable region. */
  lemma ReachableIsInside(rs: seq<Region>, f: nat)
    requires AllSane(rs) && Reachable(rs, f)
    ensures f % FRAME == 0 && exists r :: r in rs && r.kind == Usable && r.start <= f && f + FRAME <= r.end
  {
  }

  ghost predicate SortedByStart(rs: seq<Region>) {
    forall i, j :: 0 <= i < j < |rs| ==> rs[i].start <= rs[j].start
  }

  /** When the regions are sorted by start (they may overlap), exactly the frames that lie wholly
      inside some usable region are handed out. */
  lemma SortedIsComplete(rs: seq<Region>, f: nat)
    requires AllSane(rs) && SortedByStart(rs)
    ensures Reachable(rs, f) <==>
            f % 4096 == 0 && exists r :: r in rs && r.kind == Usable && r.start <= f && f + 4096 <= r.end
  {
    if k :| 0 <= k < |rs| && Contains(rs[k], f) {
      FirstContaining(rs, f, k);
    }
  }

  lemma {:induction false} FirstContaining(rs: seq<Region>, f: nat, k: nat)
    requires AllSane(rs) && SortedByStart(rs)
    requires k < |rs| && Contains(rs[k], f)
    ensures Reachable(rs, f)
    decreases k
  {
    if j :| 0 <= j < k && Qualifies(rs[j]) && rs[j].end >= f + FRAME {
      assert Contains(rs[j], f);
      FirstContaining(rs, f, j);
    }
  }

  /** Out of order, a region below one already visited is lost. */
  lemma UnsortedLosesFrames()
    ensures var rs := [Region(0x2000, 0x3000, Usable), Region(0, 0x1000, Usable)];
            && AllSane(rs)
            && Contains(rs[1], 0) && !Reachable(rs, 0)
  {
    var rs := [Region(0x2000, 0x3000, Usable), Region(0, 0x1000, Usable)];
    hide FirstFrame;
    assert Qualifies(rs[0]) && !Contains(rs[0], 0);
  }
}
