/** What holds over every run of the address space, from its creation on. */
module Runs {
  import opened Flags
  import opened Words
  import opened Entries
  import opened Pte
  import opened Areas
  import opened Spaces
  import opened SpaceInv
  import opened History
  import opened Frames

  /** A run: a new empty address space and any number of calls, with the states between them. */
  ghost predicate Run(states: seq<Space>, events: seq<Event>) {
    && |states| == |events| + 1
    && IsNew(states[0])
    && forall i :: 0 <= i < |events| ==> Step(states[i], events[i], states[i + 1])
  }

  /** The reference after a sequence of calls. */
  function Replay(arch: Arch, base: nat, size: nat, events: seq<Event>): Cells {
    if events == [] then map[]
    else
      var n := |events| - 1;
      Observe(arch, base, size, Replay(arch, base, size, events[..n]), events[n])
  }

  /** The reference after the first `n` calls of a run. */
  function CellsAfter(states: seq<Space>, events: seq<Event>, n: nat): Cells
    requires states != [] && n <= |events|
  {
    Replay(states[0].arch, states[0].base, states[0].size, events[..n])
  }

  lemma CellsAfterStep(states: seq<Space>, events: seq<Event>, n: nat)
    requires states != [] && 0 < n <= |events|
    ensures CellsAfter(states, events, n) ==
            Observe(states[0].arch, states[0].base, states[0].size, CellsAfter(states, events, n - 1), events[n - 1])
  {
    assert events[..n][..n - 1] == events[..n - 1];
  }

  ghost predicate SameFrame(s: Space, s': Space) {
    s'.arch == s.arch && s'.base == s.base && s'.size == s.size
  }

  lemma StepKeepsFrame(s: Space, e: Event, s': Space)
    requires Step(s, e, s')
    ensures SameFrame(s, s')
  {
  }

  /** Every state of a run satisfies the invariant and matches the replay of the calls that led to it. */
  lemma {:induction false} RunInvariant(states: seq<Space>, events: seq<Event>, n: nat)
    requires Run(states, events) && n < |states|
    ensures Inv(states[n]) && SameFrame(states[0], states[n])
    ensures Matches(states[n], CellsAfter(states, events, n))
  {
    if n != 0 {
      RunInvariant(states, events, n - 1);
      StepKeepsInv(states[n - 1], events[n - 1], states[n]);
      StepKeepsFrame(states[n - 1], events[n - 1], states[n]);
      CellsAfterStep(states, events, n);
      StepMatches(states[n - 1], CellsAfter(states, events, n - 1), events[n - 1], states[n]);
    }
  }

  /**
   * Refinement: after every run, with splits, shrinks, faults and failed calls, each address translates
   * exactly as the page-wise replay of the calls predicts.
   */
  lemma RunRefinesReplay(states: seq<Space>, events: seq<Event>, v: nat)
    requires Run(states, events)
    ensures var s := states[|events|];
            Translate(s, v) == Predict(s.arch, s.base, s.size, Replay(s.arch, s.base, s.size, events), v)
  {
    var n := |events|;
    RunInvariant(states, events, n);
    assert events[..n] == events;
    MatchesPredict(states[n], Replay(states[n].arch, states[n].base, states[n].size, events), v);
  }

  /** No mapping call failed after it had written pages. */
  ghost predicate NoPartialFailure(events: seq<Event>) {
    forall i :: 0 <= i < |events| && (events[i].MapLinear? || events[i].MapAlloc?) ==>
      events[i].reply == Ok || events[i].done == 0
  }

  ghost predicate OrphanFree(h: Cells) {
    forall p :: p in h ==> !h[p].orphan
  }

  lemma ObserveOrphanFree(s: Space, e: Event, s': Space, h: Cells)
    requires Step(s, e, s') && OrphanFree(h)
    requires e.MapLinear? || e.MapAlloc? ==> e.reply == Ok || e.done == 0
    ensures OrphanFree(Observe(s.arch, s.base, s.size, h, e))
  {
  }

  lemma {:induction false} NoOrphans(states: seq<Space>, events: seq<Event>, n: nat)
    requires Run(states, events) && NoPartialFailure(events) && n <= |events|
    ensures OrphanFree(CellsAfter(states, events, n))
  {
    if n != 0 {
      NoOrphans(states, events, n - 1);
      RunInvariant(states, events, n - 1);
      CellsAfterStep(states, events, n);
      ObserveOrphanFree(states[n - 1], events[n - 1], states[n], CellsAfter(states, events, n - 1));
    }
  }

  /** Without part-way failures, the call that consults the areas translates the same addresses. */
  lemma LimitAgrees(states: seq<Space>, events: seq<Event>, v: nat)
    requires Run(states, events) && NoPartialFailure(events)
    ensures var s := states[|events|];
            Translate(s, v).Some? <==> TranslateAndGetLimit(s, v).Some?
  {
    var n := |events|;
    var h := CellsAfter(states, events, n);
    NoOrphans(states, events, n);
    assert PageOf(v) in h ==> !h[PageOf(v)].orphan;
    RunInvariant(states, events, n);
    LimitAgreesOffOrphans(states[n], h, v);
  }

  /** The frames lost by the first `n` calls of a run. */
  ghost function Lost(states: seq<Space>, events: seq<Event>, n: nat): set<nat>
    requires n <= |events| <= |states|
  {
    if n == 0 then {} else Lost(states, events, n - 1) + Leak(states[n - 1], events[n - 1])
  }

  lemma StrandedStep(states: seq<Space>, events: seq<Event>, n: nat)
    requires Run(states, events) && n < |events|
    ensures Stranded(states[n + 1]) == Stranded(states[n]) + Leak(states[n], events[n])
  {
    assert Inv(states[n]) by {
      RunInvariant(states, events, n);
    }
    StrandedExactly(states[n], events[n], states[n + 1]);
  }

  lemma {:induction false} Accumulate(states: seq<Space>, events: seq<Event>, n: nat)
    requires n <= |events| < |states| && Stranded(states[0]) == {}
    requires forall i :: 0 <= i < n ==> Stranded(states[i + 1]) == Stranded(states[i]) + Leak(states[i], events[i])
    ensures Stranded(states[n]) == Lost(states, events, n)
  {
    if n != 0 {
      Accumulate(states, events, n - 1);
      assert Stranded(states[n - 1 + 1]) == Stranded(states[n - 1]) + Leak(states[n - 1], events[n - 1]);
    }
  }

  /** Stranded frames accumulate: they are those lost by some earlier call. */
  lemma StrandedAccumulate(states: seq<Space>, events: seq<Event>)
    requires Run(states, events)
    ensures Stranded(states[|events|]) == Lost(states, events, |events|)
  {
    forall i | 0 <= i < |events|
      ensures Stranded(states[i + 1]) == Stranded(states[i]) + Leak(states[i], events[i])
    {
      StrandedStep(states, events, i);
    }
    assert states[0].owned == {};
    Accumulate(states, events, |events|);
  }

  /**
   * Conservation over every run: allocations equal deallocations, plus one per held page, plus the frames
   * that some call of the run lost.
   */
  lemma RunConservesFrames(states: seq<Space>, events: seq<Event>)
    requires Run(states, events)
    ensures var s := states[|events|];
            s.allocs == s.deallocs + |HeldPages(s)| + |Lost(states, events, |events|)|
  {
    hide Inv, Stranded, HeldPages;
    RunInvariant(states, events, |events|);
    StrandedAccumulate(states, events);
    Ledger(states[|events|]);
  }

  /** A frame is outstanding exactly when one page holds it or an earlier call lost it, and never both. */
  lemma RunAccountsFrames(states: seq<Space>, events: seq<Event>, f: nat)
    requires Run(states, events)
    ensures var s, lost := states[|events|], f in Lost(states, events, |events|);
            var held := exists p :: Holds(s, p) && s.table[p].frame == f;
            && (f in s.owned <==> held || lost) && !(held && lost)
            && forall p, q :: Holds(s, p) && Holds(s, q) && s.table[p].frame == f && s.table[q].frame == f ==> p == q
  {
    RunInvariant(states, events, |events|);
    StrandedAccumulate(states, events);
    HeldFramesOwned(states[|events|]);
  }

  /** Tearing the space down after any run returns everything but the lost frames. */
  lemma RunTeardown(states: seq<Space>, events: seq<Event>, torn: Space)
    requires Run(states, events) && Step(states[|events|], Clear, torn)
    ensures var lost := Lost(states, events, |events|);
            && torn.owned == lost
            && (torn.allocs == torn.deallocs <==> lost == {})
  {
    hide Inv, Stranded, Step;
    RunInvariant(states, events, |events|);
    StrandedAccumulate(states, events);
    ClearReturnsFrames(states[|events|], torn);
  }

  /** A linear area gets onto the list only through a successful call with its flags. */
  lemma StepKeepsLinearAccess(s: Space, e: Event, s': Space)
    requires LinearAccessible(s) && Step(s, e, s')
    requires e.MapLinear? && e.reply == Ok ==> Presentable(s.arch, e.flags)
    ensures LinearAccessible(s')
  {
    forall x | x in s'.areas && x !in s.areas && (e.Unmap? || e.Clear?)
      ensures x.backend.Linear? ==> Presentable(s.arch, x.flags)
    {
      var lo := if e.Clear? then 0 else PageOf(e.vaddr);
      var hi := if e.Clear? then PageLimit(s.base, s.size) else PageOf(e.vaddr + e.bytes);
      var a := PieceHasParent(s.areas, lo, hi, x);
    }
  }

  lemma {:induction false} RunLinearAccess(states: seq<Space>, events: seq<Event>, n: nat)
    requires Run(states, events) && n <= |events|
    requires forall i :: 0 <= i < n && events[i].MapLinear? && events[i].reply == Ok ==>
               Presentable(states[0].arch, events[i].flags)
    ensures LinearAccessible(states[n])
  {
    if n != 0 {
      hide Inv, Matches, Step, CellsAfter, LinearAccessible;
      RunLinearAccess(states, events, n - 1);
      RunInvariant(states, events, n - 1);
      StepKeepsLinearAccess(states[n - 1], events[n - 1], states[n]);
    }
  }

  /** If every successful linear mapping of a run gives access, the space can be torn down at any time. */
  lemma TeardownAlwaysCompletes(states: seq<Space>, events: seq<Event>)
    requires Run(states, events)
    requires forall i :: 0 <= i < |events| && events[i].MapLinear? && events[i].reply == Ok ==>
               Presentable(states[0].arch, events[i].flags)
    ensures exists torn :: Step(states[|events|], Clear, torn)
  {
    hide Matches, Step, CellsAfter, LinearAccessible, LeafOk, Exclusive, AreasOk;
    RunLinearAccess(states, events, |events|);
    RunInvariant(states, events, |events|);
    TeardownCompletes(states[|events|]);
  }

  // ----- linear mappings

  /** The call takes the page away. */
  predicate Removes(e: Event, p: nat) {
    || e.Clear?
    || (e.Unmap? && e.reply == Ok && PageOf(e.vaddr) <= p < PageOf(e.vaddr + e.bytes))
  }

  /** The call is a fault on the page that was handled. */
  predicate Hits(e: Event, p: nat) {
    e.PageFault? && e.handled && PageOf(e.vaddr) == p
  }

  /**
   * A page of an area keeps its cell until a call takes it away, whatever happens to the area; only a handled
   * fault on a lazy page puts another frame behind it.
   */
  lemma CellStays(s: Space, h: Cells, e: Event, s': Space, p: nat)
    requires Matches(s, h) && Step(s, e, s') && p in h && !h[p].orphan && !Removes(e, p)
    ensures Hits(e, p) ==> h[p].backend == Alloc(false) && |e.frames| == 1
    ensures var h' := Observe(s.arch, s.base, s.size, h, e);
            p in h' && h'[p] == if Hits(e, p) then h[p].(leaf := Mapped(e.frames[0], h[p].flags)) else h[p]
  {
    assert Covers(s.areas, p);
    var b := Lookup(s.areas, p).value;
    assert b.backend == h[p].backend;
    if e.MapLinear? || e.MapAlloc? {
      var a := AreaOf(e);
      if a.Has(p) && Admissible(s, a) {
        AdmissibleIsUncovered(s, a, p);
      }
    }
  }

  /** The cell a successful linear mapping call gives to each of its pages. */
  function LinearCell(arch: Arch, e: Event, p: nat): Cell
    requires e.MapLinear? && PageOf(e.vaddr) <= p
  {
    var a := LinearArea(e.vaddr, e.paddr, e.bytes, e.flags);
    Cell(a.backend, a.flags, LeafFor(arch, a, [], p), false)
  }

  lemma LinearCellStarts(s: Space, h: Cells, e: Event, s': Space, p: nat)
    requires Step(s, e, s') && e.MapLinear? && e.reply == Ok
    requires PageOf(e.vaddr) <= p < PageOf(e.vaddr) + e.bytes / PAGE_SIZE
    ensures var h' := Observe(s.arch, s.base, s.size, h, e); p in h' && h'[p] == LinearCell(s.arch, e, p)
  {
  }

  lemma LinearCellNext(states: seq<Space>, events: seq<Event>, n: nat, p: nat)
    requires Run(states, events) && 0 < n <= |events| && !Removes(events[n - 1], p)
    requires var h := CellsAfter(states, events, n - 1); p in h && !h[p].orphan && h[p].backend.Linear?
    ensures p in CellsAfter(states, events, n)
    ensures CellsAfter(states, events, n)[p] == CellsAfter(states, events, n - 1)[p]
  {
    RunInvariant(states, events, n - 1);
    CellsAfterStep(states, events, n);
    CellStays(states[n - 1], CellsAfter(states, events, n - 1), events[n - 1], states[n], p);
  }

  lemma {:induction false} LinearCellPersists(states: seq<Space>, events: seq<Event>, i: nat, n: nat, p: nat)
    requires Run(states, events) && i < n <= |events|
    requires events[i].MapLinear? && events[i].reply == Ok
    requires PageOf(events[i].vaddr) <= p < PageOf(events[i].vaddr) + events[i].bytes / PAGE_SIZE
    requires forall j :: i < j < n ==> !Removes(events[j], p)
    ensures var h := CellsAfter(states, events, n);
            p in h && h[p] == LinearCell(states[0].arch, events[i], p)
  {
    hide Inv, Matches, Step, Observe, CellsAfter;
    if n == i + 1 {
      assert SameFrame(states[0], states[i]) by {
        RunInvariant(states, events, i);
      }
      CellsAfterStep(states, events, n);
      LinearCellStarts(states[i], CellsAfter(states, events, i), events[i], states[n], p);
    } else {
      LinearCellPersists(states, events, i, n - 1, p);
      LinearCellNext(states, events, n, p);
    }
  }

  /** An address survives being cut to a word and to the width of an entry exactly when it fits the width. */
  lemma ImageFits(arch: Arch, image: nat)
    requires Aligned(image)
    ensures FrameAddr(arch, image % WORD_LIMIT) == image <==> image < AddrSpan(arch)
  {
  }

  lemma ImageAligned(vaddr: nat, paddr: nat, p: nat)
    requires Aligned(vaddr) && Aligned(paddr) && PageOf(vaddr) <= p
    ensures p * PAGE_SIZE >= vaddr && Aligned(paddr + (p * PAGE_SIZE - vaddr))
  {
  }

  /** The frame of a linear page is the page-wise image, cut to the width an entry can hold. */
  lemma LinearFrame(arch: Arch, vaddr: nat, paddr: nat, p: nat)
    requires Aligned(vaddr) && Aligned(paddr) && PageOf(vaddr) <= p
    ensures var image := paddr + (p * PAGE_SIZE - vaddr);
            FrameAddr(arch, WrapSub(p * PAGE_SIZE, WrapSub(vaddr, paddr))) == image <==> image < AddrSpan(arch)
  {
    hide FrameAddr, WrapSub, Aligned;
    ImageAligned(vaddr, paddr, p);
    var n := p * PAGE_SIZE - vaddr;
    OffsetCancels(vaddr, paddr, n);
    ImageFits(arch, paddr + n);
  }

  /** While no call takes its page away, a linearly mapped address translates by the recorded offset. */
  lemma LinearTranslation(states: seq<Space>, events: seq<Event>, i: nat, v: nat)
    requires Run(states, events) && i < |events|
    requires events[i].MapLinear? && events[i].reply == Ok
    requires events[i].vaddr <= v < events[i].vaddr + events[i].bytes
    requires forall j :: i < j < |events| ==> !Removes(events[j], PageOf(v))
    ensures var s, e := states[|events|], events[i];
            var frame := FrameAddr(s.arch, WrapSub(PageOf(v) * PAGE_SIZE, WrapSub(e.vaddr, e.paddr)));
            Translate(s, v) == if Presentable(s.arch, e.flags) then Some(frame + v % PAGE_SIZE) else None
  {
    hide Inv, Matches, FrameAddr, WrapSub, Replay, Step;
    var n, e, p := |events|, events[i], PageOf(v);
    var a := LinearArea(e.vaddr, e.paddr, e.bytes, e.flags);
    assert InRange(states[i], v) && a.Has(p) by {
      LinearCallChecked(states[i], e, states[i + 1], v);
    }
    assert SameFrame(states[0], states[n]) && SameFrame(states[0], states[i]) by {
      RunInvariant(states, events, n);
      RunInvariant(states, events, i);
    }
    var h := Replay(states[0].arch, states[0].base, states[0].size, events);
    assert p in h && h[p] == LinearCell(states[0].arch, e, p) by {
      LinearCellPersists(states, events, i, n, p);
      assert events[..n] == events;
    }
    RunRefinesReplay(states, events, v);
  }

  /**
   * Linear translation is stable: while no call takes its page away, an address mapped linearly
   * translates to `paddr + (v - vaddr)` after any number of other calls, also when `paddr > vaddr`,
   * exactly when the flags give access and that page's image fits the physical address width.
   */
  lemma LinearTranslationStable(states: seq<Space>, events: seq<Event>, i: nat, v: nat)
    requires Run(states, events) && i < |events|
    requires events[i].MapLinear? && events[i].reply == Ok
    requires events[i].vaddr <= v < events[i].vaddr + events[i].bytes
    requires forall j :: i < j < |events| ==> !Removes(events[j], PageOf(v))
    ensures var s, e := states[|events|], events[i];
            Translate(s, v) == Some(e.paddr + (v - e.vaddr)) <==>
            Presentable(s.arch, e.flags) && e.paddr + (PageOf(v) * PAGE_SIZE - e.vaddr) < AddrSpan(s.arch)
  {
    var e := events[i];
    LinearTranslation(states, events, i, v);
    LinearCallChecked(states[i], e, states[i + 1], v);
    LinearFrame(states[|events|].arch, e.vaddr, e.paddr, PageOf(v));
  }

  lemma LinearCallChecked(s: Space, e: Event, s': Space, v: nat)
    requires Step(s, e, s') && e.MapLinear? && e.reply == Ok && e.vaddr <= v < e.vaddr + e.bytes
    ensures InRange(s, v) && Aligned(e.vaddr) && Aligned(e.paddr)
    ensures PageOf(e.vaddr) <= PageOf(v) < PageOf(e.vaddr) + e.bytes / PAGE_SIZE
  {
  }

  // ----- consequences for single calls in reachable states

  lemma UnmapStepTranslates(s: Space, lo: nat, hi: nat, s': Space, v: nat)
    requires UnmapStep(s, lo, hi, s')
    ensures Translate(s', v) ==
            if lo <= PageOf(v) < hi && Covers(s.areas, PageOf(v)) then None else Translate(s, v)
  {
  }

  /** A successful unmap removes exactly the covered pages of the range from the translation. */
  lemma UnmapIsExact(s: Space, e: Event, s': Space, v: nat)
    requires Step(s, e, s') && e.Unmap? && e.reply == Ok
    ensures Translate(s', v) ==
            if e.vaddr <= v < e.vaddr + e.bytes && Covers(s.areas, PageOf(v)) then None else Translate(s, v)
  {
    var lo, hi := PageOf(e.vaddr), PageOf(e.vaddr + e.bytes);
    assert e.vaddr <= v < e.vaddr + e.bytes <==> lo <= PageOf(v) < hi;
    if lo != hi {
      UnmapStepTranslates(s, lo, hi, s', v);
    }
  }

  /** A successful unmap takes exactly the pages of the range from the areas and frees their frames, once each. */
  lemma UnmapFreesExactly(s: Space, e: Event, s': Space, p: nat)
    requires Inv(s) && Step(s, e, s') && e.Unmap? && e.reply == Ok
    ensures var lo, hi := PageOf(e.vaddr), PageOf(e.vaddr + e.bytes);
            && (Covers(s'.areas, p) <==> Covers(s.areas, p) && !(lo <= p < hi))
            && s'.owned == s.owned - FramesIn(s, lo, hi)
            && s'.deallocs == s.deallocs + |FramesIn(s, lo, hi)|
            && Disjoint(s'.areas)
  {
    var lo, hi := PageOf(e.vaddr), PageOf(e.vaddr + e.bytes);
    if lo != hi {
      TrimCovers(s.areas, lo, hi, p);
      TrimDisjoint(s.areas, lo, hi);
    }
  }

  /** A present leaf in an area carries the flags of the area, and an x86_64 entry reads them back. */
  lemma PermissionsMatch(s: Space, a: Area, p: nat)
    requires Inv(s) && a in s.areas && a.Has(p) && PagePresent(s, p)
    ensures s.table[p].flags == a.flags
    ensures s.arch == X86_64 ==> Ept.DecodeFlags(Encode(s.arch, s.table[p])) == a.flags.Recorded()
  {
    assert LeafOk(s, a, p);
    Ept.NewPageRoundTrip(s.table[p].frame, s.table[p].flags, false);
  }

  lemma BackendTranslates(s: Space, a: Area, done: nat, frames: seq<nat>, denied: bool, s': Space, v: nat)
    requires BackendStep(s, a, done, frames, denied, s') && a.backend == Alloc(true) && Presentable(s.arch, a.flags)
    ensures var k := PageOf(v) - a.first;
            if 0 <= k < done then Query(s, v) == None && Query(s', v) == Some(frames[k] + v % PAGE_SIZE)
            else Query(s', v) == Query(s, v)
  {
    var p := PageOf(v);
    assert a.first <= p < a.first + done ==> !Occupied(s.arch, s.table, p);
  }

  /** A populating call leaves exactly its first `done` pages newly translating, to new distinct frames. */
  lemma PopulateIsPrefix(s: Space, e: Event, s': Space, v: nat)
    requires Step(s, e, s') && e.MapAlloc? && e.populate && Presentable(s.arch, e.flags)
    requires e.reply == Ok || e.reply == Err(BadState)
    ensures e.reply == Ok <==> e.done == e.bytes / PAGE_SIZE
    ensures e.done <= |e.frames| && Fresh(e.frames, s.owned)
    ensures var k := PageOf(v) - PageOf(e.vaddr);
            if 0 <= k < e.done
            then && Query(s, v) == None && Query(s', v) == Some(e.frames[k] + v % PAGE_SIZE)
                 && s'.table[PageOf(v)].flags == e.flags
            else Query(s', v) == Query(s, v)
  {
    BackendTranslates(s, AllocArea(e.vaddr, e.bytes, e.flags, true), e.done, e.frames, e.denied, s', v);
  }

  /** A fault changes at most the faulting page, and only for an access within the flags of its area. */
  lemma FaultIsLocal(s: Space, e: Event, s': Space, q: nat)
    requires Step(s, e, s') && e.PageFault?
    ensures q != PageOf(e.vaddr) ==> (q in s'.table <==> q in s.table) && (q in s.table ==> s'.table[q] == s.table[q])
    ensures s'.table != s.table ==>
              exists a :: a in s.areas && a.Has(PageOf(e.vaddr)) && a.backend == Alloc(false) &&
                (e.access.read ==> a.flags.read) && (e.access.write ==> a.flags.write) &&
                (e.access.execute ==> a.flags.execute) && (e.access.user ==> a.flags.user) &&
                (e.access.device ==> a.flags.device) && (e.access.uncached ==> a.flags.uncached) &&
                s'.table[PageOf(e.vaddr)].flags == a.flags
    ensures s'.areas == s.areas
  {
  }

  // ----- orphans

  /** The page is present and belongs to no area. */
  predicate PresentOrphan(arch: Arch, h: Cells, p: nat) {
    p in h && h[p].orphan && Present(arch, h[p].leaf)
  }

  /** No call removes or rewrites a present orphan. */
  lemma OrphanStays(s: Space, h: Cells, e: Event, s': Space, p: nat)
    requires Matches(s, h) && Step(s, e, s') && PresentOrphan(s.arch, h, p)
    ensures var h' := Observe(s.arch, s.base, s.size, h, e); p in h' && h'[p] == h[p]
  {
    assert !Covers(s.areas, p) && Occupied(s.arch, s.table, p);
  }

  lemma {:induction false} OrphanPersists(states: seq<Space>, events: seq<Event>, i: nat, n: nat, p: nat)
    requires Run(states, events) && i <= n <= |events|
    requires PresentOrphan(states[0].arch, CellsAfter(states, events, i), p)
    ensures var h := CellsAfter(states, events, n); p in h && h[p] == CellsAfter(states, events, i)[p]
  {
    hide Inv, Matches, Step, Observe, CellsAfter;
    if i < n {
      OrphanPersists(states, events, i, n - 1, p);
      RunInvariant(states, events, n - 1);
      CellsAfterStep(states, events, n);
      OrphanStays(states[n - 1], CellsAfter(states, events, n - 1), events[n - 1], states[n], p);
    }
  }

  /** An orphan translates to the same frame for the rest of the run, and never belongs to an area. */
  lemma OrphansAreForever(states: seq<Space>, events: seq<Event>, i: nat, n: nat, v: nat)
    requires Run(states, events) && i <= n <= |events| && InRange(states[0], v)
    requires PresentOrphan(states[0].arch, CellsAfter(states, events, i), PageOf(v))
    ensures Translate(states[n], v) == Some(CellsAfter(states, events, i)[PageOf(v)].leaf.frame + v % PAGE_SIZE)
    ensures TranslateAndGetLimit(states[n], v) == None
  {
    hide Inv, CellsAfter;
    OrphanPersists(states, events, i, n, PageOf(v));
    RunInvariant(states, events, n);
    MatchesPredict(states[n], CellsAfter(states, events, n), v);
  }

  /** Without orphans around, a successful unmap leaves no address of its range translatable. */
  lemma UnmapLeavesNothing(states: seq<Space>, events: seq<Event>, v: nat)
    requires Run(states, events) && NoPartialFailure(events) && events != []
    requires var e := events[|events| - 1]; e.Unmap? && e.reply == Ok && e.vaddr <= v < e.vaddr + e.bytes
    ensures Translate(states[|events|], v) == None
  {
    hide Inv, Step, CellsAfter;
    var n := |events| - 1;
    var h := CellsAfter(states, events, n);
    UnmapIsExact(states[n], events[n], states[n + 1], v);
    NoOrphans(states, events, n);
    RunInvariant(states, events, n);
    assert PagePresent(states[n], PageOf(v)) ==> PageOf(v) in h && Covers(states[n].areas, PageOf(v));
  }
}
