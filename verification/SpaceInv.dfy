/** Every step of the address space keeps its invariant. */
module SpaceInv {
  import opened Flags
  import opened Words
  import opened Pte
  import opened Areas
  import opened Spaces

  lemma {:induction false} FrameSetSize(frames: seq<nat>)
    requires forall i, j :: 0 <= i < j < |frames| ==> frames[i] != frames[j]
    ensures |FrameSet(frames)| == |frames|
  {
    if frames != [] {
      var n := |frames| - 1;
      FrameSetSize(frames[..n]);
      assert FrameSet(frames) == FrameSet(frames[..n]) + {frames[n]};
      assert frames[n] !in frames[..n];
    }
  }

  /** Frames taken later are new to those taken before. */
  lemma FramesTaken(frames: seq<nat>, taken: seq<nat>, owned: set<nat>)
    requires Fresh(frames, owned) && Fresh(taken, owned + FrameSet(frames))
    ensures Fresh(frames + taken, owned)
    ensures owned + FrameSet(frames + taken) == owned + FrameSet(frames) + FrameSet(taken)
  {
  }

  /** Counting: the frames of a mapping call are all new. */
  lemma AllocCount(s: Space, frames: seq<nat>)
    requires Fresh(frames, s.owned)
    ensures |s.owned + FrameSet(frames)| == |s.owned| + |frames|
  {
    FrameSetSize(frames);
    assert s.owned !! FrameSet(frames);
  }

  /** A page of an admissible area belongs to none of the old areas. */
  lemma AdmissibleIsUncovered(s: Space, a: Area, p: nat)
    requires Admissible(s, a) && a.Has(p)
    ensures !Covers(s.areas, p)
  {
  }

  ghost predicate FitsRange(s: Space, a: Area) {
    a.count > 0 ==> s.base <= a.first * PAGE_SIZE && a.End() * PAGE_SIZE <= s.base + s.size
  }

  lemma MapKeepsLeaf(s: Space, a: Area, done: nat, frames: seq<nat>, denied: bool, s': Space, b: Area, p: nat)
    requires Admissible(s, a) && BackendStep(s, a, done, frames, denied, s')
    requires b in s'.areas && b.Has(p)
    requires b in s.areas ==> LeafOk(s, b, p)
    ensures LeafOk(s', b, p)
  {
  }

  /** A held page after the call was held before with the same leaf, or got one of the new frames. */
  lemma HeldAfterMap(s: Space, a: Area, done: nat, frames: seq<nat>, denied: bool, s': Space, p: nat)
    requires Admissible(s, a) && BackendStep(s, a, done, frames, denied, s')
    requires forall b :: b in s.areas && b.Has(p) ==> p in s.table
    requires Holds(s', p)
    ensures if a.Has(p)
            then a.backend == Alloc(true) && done == a.count && s'.table[p] == Mapped(frames[p - a.first], a.flags)
            else Holds(s, p) && s'.table[p] == s.table[p]
  {
  }

  lemma MapKeepsExclusive(s: Space, a: Area, done: nat, frames: seq<nat>, denied: bool, s': Space)
    requires Inv(s) && Admissible(s, a) && BackendStep(s, a, done, frames, denied, s')
    ensures Exclusive(s')
  {
    forall p, q | Holds(s', p) && Holds(s', q) && s'.table[p].frame == s'.table[q].frame
      ensures p == q
    {
      HeldAfterMap(s, a, done, frames, denied, s', p);
      HeldAfterMap(s, a, done, frames, denied, s', q);
      HeldFrameOwned(s, p);
      HeldFrameOwned(s, q);
    }
  }

  /** Every page of an area has a slot. */
  lemma SlotExists(s: Space, a: Area, p: nat)
    requires Inv(s) && a in s.areas && a.Has(p)
    ensures p in s.table
  {
    assert LeafOk(s, a, p);
  }

  lemma HeldFrameOwned(s: Space, p: nat)
    requires Inv(s)
    ensures Holds(s, p) ==> s.table[p].frame in s.owned
  {
  }

  lemma MapKeepsInv(s: Space, a: Area, done: nat, frames: seq<nat>, denied: bool, s': Space)
    requires Inv(s) && FitsRange(s, a) && Admissible(s, a) && BackendStep(s, a, done, frames, denied, s')
    ensures Inv(s')
  {
    forall b, p: nat | b in s'.areas && b.Has(p) ensures LeafOk(s', b, p) {
      MapKeepsLeaf(s, a, done, frames, denied, s', b, p);
    }
    MapKeepsExclusive(s, a, done, frames, denied, s');
    AllocCount(s, frames);
    assert Disjoint(s'.areas) by {
      forall b, p: nat | b in s.areas && b.Has(p) ensures !a.Has(p) {
        if a.Has(p) {
          AdmissibleIsUncovered(s, a, p);
        }
      }
    }
  }

  lemma UnmapKeepsInv(s: Space, lo: nat, hi: nat, s': Space)
    requires Inv(s) && lo <= hi && UnmapStep(s, lo, hi, s')
    ensures Inv(s')
  {
    TrimDisjoint(s.areas, lo, hi);
    forall x | x in s'.areas
      ensures x.count > 0 && s.base <= x.first * PAGE_SIZE && x.End() * PAGE_SIZE <= s.base + s.size
    {
      var a := PieceHasParent(s.areas, lo, hi, x);
    }
    forall x, p: nat | x in s'.areas && x.Has(p) ensures LeafOk(s', x, p) {
      UnmapKeepsLeaf(s, lo, hi, s', x, p);
    }
    forall p | Holds(s', p) ensures Holds(s, p) && s'.table[p] == s.table[p] {
      TrimCovers(s.areas, lo, hi, p);
    }
    assert FramesIn(s, lo, hi) <= s.owned by {
      forall p | Holds(s, p) ensures s.table[p].frame in s.owned {
        HeldFrameOwned(s, p);
      }
    }
  }

  lemma UnmapKeepsLeaf(s: Space, lo: nat, hi: nat, s': Space, x: Area, p: nat)
    requires Inv(s) && lo <= hi && UnmapStep(s, lo, hi, s') && x in s'.areas && x.Has(p)
    ensures LeafOk(s', x, p)
  {
    var a := PieceHasParent(s.areas, lo, hi, x);
    assert a.Has(p) && LeafOk(s, a, p) && s'.table[p] == s.table[p];
    if x.backend.Alloc? && PagePresent(s, p) {
      FrameStaysOwned(s, lo, hi, p);
    }
  }

  /** Giving back the frames of a range does not touch a frame used outside it. */
  lemma FrameStaysOwned(s: Space, lo: nat, hi: nat, p: nat)
    requires Inv(s) && !(lo <= p < hi) && Holds(s, p)
    ensures s.table[p].frame in s.owned - FramesIn(s, lo, hi)
  {
  }

  lemma FaultKeepsInv(s: Space, v: nat, access: MappingFlags, handled: bool, frames: seq<nat>, denied: bool,
                      s': Space)
    requires Inv(s) && FaultStep(s, v, access, handled, frames, denied, s')
    ensures Inv(s')
  {
  }

  lemma GoodRangeFits(s: Space, vaddr: nat, bytes: nat, a: Area)
    requires GoodRange(s, vaddr, bytes) && a.first == PageOf(vaddr) && a.count == bytes / PAGE_SIZE
    ensures FitsRange(s, a)
  {
  }

  lemma MapEventKeepsInv(s: Space, e: Event, s': Space)
    requires Inv(s) && Step(s, e, s') && Maps(e)
    ensures Inv(s')
  {
    if GoodRange(s, e.vaddr, e.bytes) && (e.MapLinear? ==> Aligned(e.paddr)) {
      var a := AreaOf(e);
      GoodRangeFits(s, e.vaddr, e.bytes, a);
      if Admissible(s, a) {
        MapKeepsInv(s, a, e.done, if e.MapLinear? then [] else e.frames, e.denied, s');
      }
    }
  }

  lemma UnmapRangeKeepsInv(s: Space, lo: nat, hi: nat, s': Space)
    requires Inv(s) && UnmapRange(s, lo, hi, s')
    ensures Inv(s')
  {
    if lo != hi {
      UnmapKeepsInv(s, lo, hi, s');
    }
  }

  lemma UnmapEventKeepsInv(s: Space, e: Event, s': Space)
    requires Inv(s) && Step(s, e, s') && e.Unmap?
    ensures Inv(s')
  {
    if GoodRange(s, e.vaddr, e.bytes) {
      UnmapRangeKeepsInv(s, PageOf(e.vaddr), PageOf(e.vaddr + e.bytes), s');
    }
  }

  lemma ClearEventKeepsInv(s: Space, s': Space)
    requires Inv(s) && Step(s, Clear, s')
    ensures Inv(s')
  {
    UnmapRangeKeepsInv(s, 0, PageLimit(s.base, s.size), s');
  }

  lemma FaultEventKeepsInv(s: Space, e: Event, s': Space)
    requires Inv(s) && Step(s, e, s') && e.PageFault?
    ensures Inv(s')
  {
    FaultKeepsInv(s, e.vaddr, e.access, e.handled, e.frames, e.denied, s');
  }

  /** Whatever the call and its outcome, the invariant is kept. */
  lemma StepKeepsInv(s: Space, e: Event, s': Space)
    requires Inv(s) && Step(s, e, s')
    ensures Inv(s')
  {
    match e
    case MapLinear(_, _, _, _, _, _, _) => MapEventKeepsInv(s, e, s');
    case MapAlloc(_, _, _, _, _, _, _, _) => MapEventKeepsInv(s, e, s');
    case Unmap(_, _, _) => UnmapEventKeepsInv(s, e, s');
    case PageFault(_, _, _, _, _) => FaultEventKeepsInv(s, e, s');
    case Clear => ClearEventKeepsInv(s, s');
  }
}
