/** Conservation of data frames: where every frame obtained from the allocator is at any time. */
module Frames {
  import opened Flags
  import opened Pte
  import opened Areas
  import opened Spaces
  import opened SpaceInv

  ghost function HeldPages(s: Space): set<nat> {
    set p | p in s.table && Holds(s, p)
  }

  /** The frames behind pages that an unmapping call would give back. */
  ghost function HeldFrames(s: Space): set<nat> {
    set p | p in s.table && Holds(s, p) :: s.table[p].frame
  }

  /** Frames that were never given back and that no page holds: no call will ever release them. */
  ghost function Stranded(s: Space): set<nat> {
    s.owned - HeldFrames(s)
  }

  lemma HeldFramesOwned(s: Space)
    requires Inv(s)
    ensures HeldFrames(s) <= s.owned
  {
  }

  lemma {:induction false} InjectiveImageSize(table: map<nat, Leaf>, pages: set<nat>, frames: set<nat>)
    requires forall p :: p in pages ==> p in table && table[p].Mapped?
    requires frames == set p | p in pages :: table[p].frame
    requires forall p, q :: p in pages && q in pages && table[p].frame == table[q].frame ==> p == q
    ensures |frames| == |pages|
  {
    if pages != {} {
      var p :| p in pages;
      var pages', frames' := pages - {p}, frames - {table[p].frame};
      assert frames' == set q | q in pages' :: table[q].frame;
      InjectiveImageSize(table, pages', frames');
      assert frames == frames' + {table[p].frame};
      assert pages == pages' + {p};
    }
  }

  /** The ledger balances: allocations not given back are exactly the held pages and the stranded frames. */
  lemma Ledger(s: Space)
    requires Inv(s)
    ensures s.allocs == s.deallocs + |HeldPages(s)| + |Stranded(s)|
  {
    hide LeafOk, AreasOk, AllocCovers;
    HeldFramesOwned(s);
    InjectiveImageSize(s.table, HeldPages(s), HeldFrames(s));
    assert s.owned == HeldFrames(s) + Stranded(s);
  }

  /** The frames a call loses track of, told from the state before it and its outcome. */
  ghost function Leak(s: Space, e: Event): set<nat> {
    match e
    case MapLinear(_, _, _, _, _, _, _) => {}
    case MapAlloc(_, _, flags, _, reply, _, frames, _) =>
      if reply == Ok && Presentable(s.arch, flags) then {} else FrameSet(frames)
    case Unmap(_, _, _) => {}
    case PageFault(v, _, handled, frames, _) =>
      if !handled then {}
      else if Holds(s, PageOf(v)) then {s.table[PageOf(v)].frame}
      else if Covers(s.areas, PageOf(v)) && !Presentable(s.arch, Lookup(s.areas, PageOf(v)).value.flags)
      then FrameSet(frames)
      else {}
    case Clear => {}
  }

  lemma MapKeepsHeld(s: Space, a: Area, done: nat, frames: seq<nat>, denied: bool, s': Space, p: nat)
    requires Admissible(s, a) && BackendStep(s, a, done, frames, denied, s') && Holds(s, p)
    ensures Holds(s', p) && s'.table[p] == s.table[p]
  {
  }

  lemma MapHoldsNew(s: Space, a: Area, frames: seq<nat>, denied: bool, s': Space, i: nat)
    requires Admissible(s, a) && BackendStep(s, a, a.count, frames, denied, s')
    requires Presentable(s.arch, a.flags) && i < |frames|
    ensures Holds(s', a.first + i) && s'.table[a.first + i].frame == frames[i]
  {
  }

  lemma MapHeldFrames(s: Space, a: Area, done: nat, frames: seq<nat>, denied: bool, s': Space)
    requires Admissible(s, a) && BackendStep(s, a, done, frames, denied, s')
    requires forall b, p: nat :: b in s.areas && b.Has(p) ==> p in s.table
    ensures HeldFrames(s') ==
            HeldFrames(s) + if done == a.count && Presentable(s.arch, a.flags) then FrameSet(frames) else {}
  {
    var added := if done == a.count && Presentable(s.arch, a.flags) then FrameSet(frames) else {};
    forall f | f in HeldFrames(s') ensures f in HeldFrames(s) + added {
      var p :| p in s'.table && Holds(s', p) && s'.table[p].frame == f;
      HeldAfterMap(s, a, done, frames, denied, s', p);
    }
    forall f | f in HeldFrames(s) ensures f in HeldFrames(s') {
      var p :| p in s.table && Holds(s, p) && s.table[p].frame == f;
      MapKeepsHeld(s, a, done, frames, denied, s', p);
    }
    forall f | f in added ensures f in HeldFrames(s') {
      var i: nat :| i < |frames| && frames[i] == f;
      MapHoldsNew(s, a, frames, denied, s', i);
    }
  }

  lemma UnmapHeldFrames(s: Space, lo: nat, hi: nat, s': Space)
    requires Inv(s) && lo <= hi && UnmapStep(s, lo, hi, s')
    ensures HeldFrames(s') == HeldFrames(s) - FramesIn(s, lo, hi)
  {
    forall p | p in s.table ensures Holds(s', p) <==> Holds(s, p) && !(lo <= p < hi) {
      TrimCovers(s.areas, lo, hi, p);
    }
    forall p | Holds(s', p) ensures s'.table[p] == s.table[p] {
    }
  }

  /** Only the faulting page can change what it holds. */
  lemma FaultHolds(s: Space, v: nat, access: MappingFlags, frames: seq<nat>, denied: bool, s': Space, q: nat)
    requires FaultStep(s, v, access, true, frames, denied, s')
    ensures q != PageOf(v) ==> (Holds(s', q) <==> Holds(s, q)) && (Holds(s, q) ==> s'.table[q] == s.table[q])
    ensures Holds(s', PageOf(v)) <==> Presentable(s.arch, Lookup(s.areas, PageOf(v)).value.flags)
    ensures s'.table[PageOf(v)].frame == frames[0]
  {
  }

  /** A frame held after the fault was held before, by another page, or is the new one. */
  lemma HeldAfterFault(s: Space, v: nat, access: MappingFlags, frames: seq<nat>, denied: bool, s': Space, f: nat)
    requires Exclusive(s) && FaultStep(s, v, access, true, frames, denied, s') && f in HeldFrames(s')
    ensures || (f in HeldFrames(s) && (Holds(s, PageOf(v)) ==> f != s.table[PageOf(v)].frame))
            || (Presentable(s.arch, Lookup(s.areas, PageOf(v)).value.flags) && f == frames[0])
  {
  }

  /** A frame held by another page before the fault is held afterwards, and so is a usable new one. */
  lemma HeldThroughFault(s: Space, v: nat, access: MappingFlags, frames: seq<nat>, denied: bool, s': Space, f: nat)
    requires FaultStep(s, v, access, true, frames, denied, s')
    requires || (f in HeldFrames(s) && (Holds(s, PageOf(v)) ==> f != s.table[PageOf(v)].frame))
             || (Presentable(s.arch, Lookup(s.areas, PageOf(v)).value.flags) && f == frames[0])
    ensures f in HeldFrames(s')
  {
    FaultHolds(s, v, access, frames, denied, s', PageOf(v));
    if f in HeldFrames(s) && (Holds(s, PageOf(v)) ==> f != s.table[PageOf(v)].frame) {
      var q :| q in s.table && Holds(s, q) && s.table[q].frame == f;
      FaultHolds(s, v, access, frames, denied, s', q);
    }
  }

  lemma FaultHeldFrames(s: Space, v: nat, access: MappingFlags, frames: seq<nat>, denied: bool, s': Space)
    requires Exclusive(s) && FaultStep(s, v, access, true, frames, denied, s')
    ensures HeldFrames(s') ==
            HeldFrames(s) - (if Holds(s, PageOf(v)) then {s.table[PageOf(v)].frame} else {}) +
            (if Presentable(s.arch, Lookup(s.areas, PageOf(v)).value.flags) then {frames[0]} else {})
  {
    var dropped := if Holds(s, PageOf(v)) then {s.table[PageOf(v)].frame} else {};
    var gained := if Presentable(s.arch, Lookup(s.areas, PageOf(v)).value.flags) then {frames[0]} else {};
    forall f | f in HeldFrames(s') ensures f in HeldFrames(s) - dropped + gained {
      HeldAfterFault(s, v, access, frames, denied, s', f);
    }
    forall f | f in HeldFrames(s) - dropped + gained ensures f in HeldFrames(s') {
      HeldThroughFault(s, v, access, frames, denied, s', f);
    }
  }

  /** Set algebra of a call that obtains `obtained`, lets go of `dropped` and ends up holding `gained`. */
  lemma Balance(owned: set<nat>, held: set<nat>, obtained: set<nat>, dropped: set<nat>, gained: set<nat>)
    requires held <= owned && obtained !! owned && dropped <= held && gained <= obtained
    ensures (owned + obtained) - (held - dropped + gained) == (owned - held) + (dropped + (obtained - gained))
  {
  }

  lemma BackendStrands(s: Space, a: Area, done: nat, frames: seq<nat>, denied: bool, s': Space)
    requires Admissible(s, a) && BackendStep(s, a, done, frames, denied, s')
    requires forall b, p: nat :: b in s.areas && b.Has(p) ==> p in s.table
    requires HeldFrames(s) <= s.owned
    ensures Stranded(s') ==
            Stranded(s) + if done == a.count && Presentable(s.arch, a.flags) then {} else FrameSet(frames)
  {
    MapHeldFrames(s, a, done, frames, denied, s');
    var gained := if done == a.count && Presentable(s.arch, a.flags) then FrameSet(frames) else {};
    Balance(s.owned, HeldFrames(s), FrameSet(frames), {}, gained);
  }

  lemma MapStrands(s: Space, e: Event, s': Space)
    requires Step(s, e, s') && Maps(e)
    requires forall b, p: nat :: b in s.areas && b.Has(p) ==> p in s.table
    requires HeldFrames(s) <= s.owned
    ensures Stranded(s') == Stranded(s) + Leak(s, e)
  {
    if GoodRange(s, e.vaddr, e.bytes) && (e.MapLinear? ==> Aligned(e.paddr)) {
      var a := AreaOf(e);
      if Admissible(s, a) {
        BackendStrands(s, a, e.done, if e.MapLinear? then [] else e.frames, e.denied, s');
      }
    }
  }

  lemma UnmapStrandsNothing(s: Space, lo: nat, hi: nat, s': Space)
    requires Inv(s) && UnmapRange(s, lo, hi, s')
    ensures Stranded(s') == Stranded(s)
  {
    if lo != hi {
      UnmapHeldFrames(s, lo, hi, s');
      assert FramesIn(s, lo, hi) <= HeldFrames(s);
    }
  }

  /** A page that holds a frame belongs to an area whose flags give access. */
  lemma HeldIsPresentable(s: Space, p: nat)
    requires Inv(s) && Holds(s, p)
    ensures Covers(s.areas, p) && Presentable(s.arch, Lookup(s.areas, p).value.flags)
  {
  }

  lemma FaultLoss(s: Space, v: nat, access: MappingFlags, frames: seq<nat>, denied: bool, s': Space,
                  dropped: set<nat>, gained: set<nat>)
    requires FaultStep(s, v, access, true, frames, denied, s')
    requires HeldFrames(s) <= s.owned && dropped <= HeldFrames(s) && gained <= {frames[0]}
    requires HeldFrames(s') == HeldFrames(s) - dropped + gained
    ensures Stranded(s') == Stranded(s) + (dropped + ({frames[0]} - gained))
  {
  }

  lemma FaultLeak(s: Space, e: Event, dropped: set<nat>, gained: set<nat>)
    requires e.PageFault? && e.handled && |e.frames| == 1 && Covers(s.areas, PageOf(e.vaddr))
    requires var a := Lookup(s.areas, PageOf(e.vaddr)).value;
             && dropped == (if Holds(s, PageOf(e.vaddr)) then {s.table[PageOf(e.vaddr)].frame} else {})
             && gained == (if Presentable(s.arch, a.flags) then {e.frames[0]} else {})
             && (Holds(s, PageOf(e.vaddr)) ==> Presentable(s.arch, a.flags))
    ensures dropped + ({e.frames[0]} - gained) == Leak(s, e)
  {
  }

  lemma FaultStrands(s: Space, e: Event, s': Space)
    requires Inv(s) && Step(s, e, s') && e.PageFault? && e.handled
    ensures Stranded(s') == Stranded(s) + Leak(s, e)
  {
    var p := PageOf(e.vaddr);
    var dropped := if Holds(s, p) then {s.table[p].frame} else {};
    var gained := if Presentable(s.arch, Lookup(s.areas, p).value.flags) then {e.frames[0]} else {};
    assert dropped + ({e.frames[0]} - gained) == Leak(s, e) by {
      if Holds(s, p) {
        HeldIsPresentable(s, p);
      }
      FaultLeak(s, e, dropped, gained);
    }
    assert Stranded(s') == Stranded(s) + (dropped + ({e.frames[0]} - gained)) by {
      FaultHeldFrames(s, e.vaddr, e.access, e.frames, e.denied, s');
      HeldFramesOwned(s);
      FaultLoss(s, e.vaddr, e.access, e.frames, e.denied, s', dropped, gained);
    }
  }

  /**
   * Frames are lost by a populating call that fails or whose flags give no access, and by a handled fault
   * that replaces a frame or maps without access. No other call loses one, and a lost frame stays lost.
   */
  lemma StrandedExactly(s: Space, e: Event, s': Space)
    requires Inv(s) && Step(s, e, s')
    ensures Stranded(s') == Stranded(s) + Leak(s, e)
  {
    if e.Unmap? {
      if GoodRange(s, e.vaddr, e.bytes) {
        UnmapStrandsNothing(s, PageOf(e.vaddr), PageOf(e.vaddr + e.bytes), s');
      }
    } else if e.PageFault? {
      if e.handled {
        FaultStrands(s, e, s');
      }
    } else if e.Clear? {
      UnmapStrandsNothing(s, 0, PageLimit(s.base, s.size), s');
    } else {
      HeldFramesOwned(s);
      MapStrands(s, e, s');
    }
  }

  lemma WholeUnmap(s: Space, s': Space)
    requires AreasOk(s) && UnmapStep(s, 0, PageLimit(s.base, s.size), s')
    ensures s'.areas == {} && s'.owned == Stranded(s)
  {
  }

  lemma ClearKeepsCount(s: Space, s': Space)
    requires Inv(s) && UnmapRange(s, 0, PageLimit(s.base, s.size), s')
    ensures s'.allocs == s'.deallocs + |s'.owned|
  {
    UnmapRangeKeepsInv(s, 0, PageLimit(s.base, s.size), s');
  }

  /** Teardown leaves no area and gives back every frame that is not stranded. */
  lemma ClearReturnsFrames(s: Space, s': Space)
    requires Inv(s) && Step(s, Clear, s')
    ensures s'.areas == {}
    ensures s'.owned == Stranded(s)
    ensures s'.allocs == s'.deallocs <==> Stranded(s) == {}
  {
    ClearKeepsCount(s, s');
    WholeUnmap(s, s');
  }

  /** Every linear area has flags that give access. */
  ghost predicate LinearAccessible(s: Space) {
    forall a :: a in s.areas && a.backend.Linear? ==> Presentable(s.arch, a.flags)
  }

  /** The state in which teardown leaves the address space. */
  ghost function TornDown(s: Space): Space {
    var hi := PageLimit(s.base, s.size);
    s.(areas := Trim(s.areas, 0, hi),
       table := map p | p in s.table :: if p < hi && Covers(s.areas, p) then Empty else s.table[p],
       owned := s.owned - FramesIn(s, 0, hi),
       deallocs := s.deallocs + |FramesIn(s, 0, hi)|)
  }

  lemma TornDownIsUnmapped(s: Space)
    ensures UnmapStep(s, 0, PageLimit(s.base, s.size), TornDown(s))
  {
  }

  lemma JamsWholeRange(s: Space)
    requires AreasOk(s)
    ensures Jams(s, 0, PageLimit(s.base, s.size)) <==> !LinearAccessible(s)
  {
  }

  /** Teardown can complete exactly when every linear area has flags that give access. */
  lemma TeardownCompletes(s: Space)
    requires AreasOk(s)
    ensures (exists s' :: Step(s, Clear, s')) <==> LinearAccessible(s)
  {
    JamsWholeRange(s);
    TornDownIsUnmapped(s);
    if LinearAccessible(s) {
      assert Step(s, Clear, TornDown(s));
    }
  }
}
