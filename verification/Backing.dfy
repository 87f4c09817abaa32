/** When an address translates, told from the areas and the faults of a run alone. */
module Backing {
  import opened Flags
  import opened Pte
  import opened Areas
  import opened Spaces
  import opened SpaceInv
  import opened History
  import opened Runs

  /** Among the first `n` calls a handled fault hit the page, and no call after it took the page away. */
  ghost predicate Touched(events: seq<Event>, n: nat, p: nat)
    requires n <= |events|
  {
    exists i :: 0 <= i < n && Hits(events[i], p) && forall j :: i < j < n ==> !Removes(events[j], p)
  }

  lemma TouchedNext(events: seq<Event>, n: nat, p: nat)
    requires n < |events|
    ensures Touched(events, n + 1, p) <==>
            Hits(events[n], p) || (Touched(events, n, p) && !Removes(events[n], p))
  {
    if Touched(events, n + 1, p) {
      var i :| 0 <= i < n + 1 && Hits(events[i], p) && forall j :: i < j < n + 1 ==> !Removes(events[j], p);
      assert i < n ==> Touched(events, n, p);
    }
    if Touched(events, n, p) && !Removes(events[n], p) {
      var i :| 0 <= i < n && Hits(events[i], p) && forall j :: i < j < n ==> !Removes(events[j], p);
      assert forall j :: i < j < n + 1 ==> !Removes(events[j], p);
    }
  }

  /** A page of an area is present exactly when its flags give access and it is not lazy, or was touched. */
  predicate CellRight(arch: Arch, h: Cells, p: nat, touched: bool) {
    && (touched ==> p in h && !h[p].orphan)
    && (p in h && !h[p].orphan ==>
          (Present(arch, h[p].leaf) <==>
             Presentable(arch, h[p].flags) && (h[p].backend != Alloc(false) || touched)))
  }

  lemma MapKeepsCellRight(s: Space, h: Cells, a: Area, done: nat, frames: seq<nat>, denied: bool, s': Space,
                          p: nat, touched: bool)
    requires Matches(s, h) && Admissible(s, a) && BackendStep(s, a, done, frames, denied, s')
    requires CellRight(s.arch, h, p, touched)
    ensures CellRight(s.arch, Overlay(s.arch, h, a, frames, done), p, touched)
  {
    if a.Has(p) {
      AdmissibleIsUncovered(s, a, p);
    }
  }

  lemma MapEventKeepsCellRight(s: Space, h: Cells, e: Event, s': Space, p: nat, touched: bool)
    requires Matches(s, h) && Step(s, e, s') && Maps(e) && CellRight(s.arch, h, p, touched)
    ensures CellRight(s.arch, Observe(s.arch, s.base, s.size, h, e), p, touched)
  {
    hide Matches;
    var a := AreaOf(e);
    if GoodRange(s, e.vaddr, e.bytes) && (e.MapLinear? ==> Aligned(e.paddr)) && Admissible(s, a) {
      MapKeepsCellRight(s, h, a, e.done, if e.MapLinear? then [] else e.frames, e.denied, s', p, touched);
    } else {
      assert Overlay(s.arch, h, a, [], 0) == h;
    }
  }

  lemma FaultKeepsCellRight(s: Space, h: Cells, e: Event, s': Space, p: nat, touched: bool)
    requires Matches(s, h) && Step(s, e, s') && e.PageFault? && CellRight(s.arch, h, p, touched)
    ensures CellRight(s.arch, Observe(s.arch, s.base, s.size, h, e), p, Hits(e, p) || touched)
  {
  }

  lemma ClearKeepsCellRight(s: Space, h: Cells, s': Space, p: nat, touched: bool)
    requires Matches(s, h) && Inv(s) && Step(s, Clear, s') && CellRight(s.arch, h, p, touched)
    ensures CellRight(s.arch, Observe(s.arch, s.base, s.size, h, Clear), p, false)
  {
    hide LeafOk, Exclusive;
    assert Covers(s.areas, p) ==> p < PageLimit(s.base, s.size);
  }

  lemma StepKeepsCellRight(s: Space, h: Cells, e: Event, s': Space, p: nat, touched: bool)
    requires Matches(s, h) && Inv(s) && Step(s, e, s') && CellRight(s.arch, h, p, touched)
    ensures CellRight(s.arch, Observe(s.arch, s.base, s.size, h, e), p, Hits(e, p) || (touched && !Removes(e, p)))
  {
    hide Matches, Inv, Step, Overlay;
    match e
    case MapLinear(_, _, _, _, _, _, _) => MapEventKeepsCellRight(s, h, e, s', p, touched);
    case MapAlloc(_, _, _, _, _, _, _, _) => MapEventKeepsCellRight(s, h, e, s', p, touched);
    case Unmap(_, _, _) =>
    case PageFault(_, _, _, _, _) => FaultKeepsCellRight(s, h, e, s', p, touched);
    case Clear => ClearKeepsCellRight(s, h, s', p, touched);
  }

  lemma NothingYet(states: seq<Space>, events: seq<Event>, p: nat)
    requires Run(states, events)
    ensures CellRight(states[0].arch, CellsAfter(states, events, 0), p, Touched(events, 0, p))
  {
  }

  lemma {:induction false} RunCellRight(states: seq<Space>, events: seq<Event>, n: nat, p: nat)
    requires Run(states, events) && n <= |events|
    ensures CellRight(states[0].arch, CellsAfter(states, events, n), p, Touched(events, n, p))
  {
    hide Matches, Inv, Step, Observe, CellsAfter, CellRight, Touched;
    if n == 0 {
      NothingYet(states, events, p);
    } else {
      RunCellRight(states, events, n - 1, p);
      RunInvariant(states, events, n - 1);
      CellsAfterStep(states, events, n);
      TouchedNext(events, n - 1, p);
      StepKeepsCellRight(states[n - 1], CellsAfter(states, events, n - 1), events[n - 1], states[n], p,
                         Touched(events, n - 1, p));
    }
  }

  /** An area gives the page a frame: it grants access and is not lazy, or the page was touched. */
  ghost predicate Backed(s: Space, p: nat, touched: bool) {
    exists a :: a in s.areas && a.Has(p) && Presentable(s.arch, a.flags) && (a.backend != Alloc(false) || touched)
  }

  lemma BackedIsPresent(s: Space, h: Cells, p: nat, touched: bool)
    requires Matches(s, h) && CellRight(s.arch, h, p, touched)
    ensures PagePresent(s, p) <==> PresentOrphan(s.arch, h, p) || Backed(s, p, touched)
  {
    if p in h && !h[p].orphan {
      assert Covers(s.areas, p);
      var a := Lookup(s.areas, p).value;
      assert h[p].backend == a.backend && h[p].flags == a.flags;
    }
  }

  /**
   * After every run an address translates exactly when it is in range and its page lies in a linear or populated
   * area with access rights, or in a lazy one and was touched since it was mapped, or is a present orphan.
   */
  lemma TranslatesExactly(states: seq<Space>, events: seq<Event>, v: nat)
    requires Run(states, events)
    ensures var n, s := |events|, states[|events|];
            Translate(s, v).Some? <==>
            && InRange(s, v)
            && (|| PresentOrphan(s.arch, CellsAfter(states, events, n), PageOf(v))
                || Backed(s, PageOf(v), Touched(events, n, PageOf(v))))
  {
    hide Inv, Matches, CellRight, Touched, CellsAfter, Backed;
    var n := |events|;
    RunInvariant(states, events, n);
    RunCellRight(states, events, n, PageOf(v));
    BackedIsPresent(states[n], CellsAfter(states, events, n), PageOf(v), Touched(events, n, PageOf(v)));
  }

  /** After every run that ends in a successful unmap, exactly the orphans of its range still translate. */
  lemma UnmapLeavesOrphans(states: seq<Space>, events: seq<Event>, v: nat)
    requires Run(states, events) && events != []
    requires var e := events[|events| - 1]; e.Unmap? && e.reply == Ok && e.vaddr <= v < e.vaddr + e.bytes
    ensures var n := |events|;
            Translate(states[n], v).Some? <==>
            PresentOrphan(states[n].arch, CellsAfter(states, events, n), PageOf(v))
  {
    hide Inv, Step, CellsAfter, Touched, PresentOrphan, FramesIn, Translate;
    var n := |events|;
    var e := events[n - 1];
    UnmapRangeChecked(states[n - 1], e, states[n], v);
    RunInvariant(states, events, n - 1);
    UnmapFreesExactly(states[n - 1], e, states[n], PageOf(v));
    TranslatesExactly(states, events, v);
    assert !Backed(states[n], PageOf(v), Touched(events, n, PageOf(v)));
  }

  lemma UnmapRangeChecked(s: Space, e: Event, s': Space, v: nat)
    requires Step(s, e, s') && e.Unmap? && e.reply == Ok && e.vaddr <= v < e.vaddr + e.bytes
    ensures InRange(s', v) && PageOf(e.vaddr) <= PageOf(v) < PageOf(e.vaddr + e.bytes)
  {
  }
}
