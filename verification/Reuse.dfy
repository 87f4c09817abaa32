/** A range that has been freed can be mapped again. */
module Reuse {
  import opened Flags
  import opened Pte
  import opened Areas
  import opened Spaces
  import opened SpaceInv
  import opened History
  import opened Runs

  /** Unmapping surely leaves the slots unused: access is given, and placeholders are zero words or not used. */
  predicate Erasable(arch: Arch, flags: MappingFlags, backend: Backend) {
    Presentable(arch, flags) && (arch == X86_64 || backend != Alloc(false))
  }

  ghost predicate AllErasable(s: Space) {
    forall a :: a in s.areas ==> Erasable(s.arch, a.flags, a.backend)
  }

  /** Only pages that the calls so far account for occupy a slot. */
  ghost predicate Tidy(s: Space, h: Cells) {
    forall p :: Occupied(s.arch, s.table, p) ==> p in h
  }

  /** A mapping that succeeds gives access and, on AArch64, is not lazy. */
  predicate Careful(arch: Arch, e: Event) {
    Maps(e) && e.reply == Ok ==> Erasable(arch, e.flags, AreaOf(e).backend)
  }

  lemma StepKeepsAllErasable(s: Space, e: Event, s': Space)
    requires AllErasable(s) && Step(s, e, s') && Careful(s.arch, e)
    ensures AllErasable(s')
  {
    forall x | x in s'.areas && x !in s.areas && (e.Unmap? || e.Clear?) ensures Erasable(s.arch, x.flags, x.backend) {
      var lo := if e.Clear? then 0 else PageOf(e.vaddr);
      var hi := if e.Clear? then PageLimit(s.base, s.size) else PageOf(e.vaddr + e.bytes);
      var a := PieceHasParent(s.areas, lo, hi, x);
    }
  }

  lemma BackendKeepsTidy(s: Space, h: Cells, a: Area, done: nat, frames: seq<nat>, denied: bool, s': Space)
    requires Tidy(s, h) && BackendStep(s, a, done, frames, denied, s')
    ensures Tidy(s', Overlay(s.arch, h, a, frames, done))
  {
  }

  lemma MapKeepsTidy(s: Space, h: Cells, e: Event, s': Space)
    requires Tidy(s, h) && Step(s, e, s') && Maps(e)
    ensures Tidy(s', Observe(s.arch, s.base, s.size, h, e))
  {
    hide Tidy;
    var a := AreaOf(e);
    if GoodRange(s, e.vaddr, e.bytes) && (e.MapLinear? ==> Aligned(e.paddr)) && Admissible(s, a) {
      BackendKeepsTidy(s, h, a, e.done, if e.MapLinear? then [] else e.frames, e.denied, s');
    } else {
      assert Overlay(s.arch, h, a, [], 0) == h;
    }
  }

  /** In such an area, a slot is present or holds a placeholder, which is the zero word. */
  lemma AbsentIsVacant(s: Space, p: nat)
    requires Inv(s) && AllErasable(s) && Covers(s.areas, p)
    ensures p in s.table && (Present(s.arch, s.table[p]) || Vacant(s.arch, s.table[p]))
  {
    hide AreasOk, Exclusive;
    var a := Lookup(s.areas, p).value;
    assert LeafOk(s, a, p);
  }

  lemma UnmapKeepsTidy(s: Space, h: Cells, lo: nat, hi: nat, s': Space)
    requires Inv(s) && Matches(s, h) && AllErasable(s) && Tidy(s, h) && UnmapRange(s, lo, hi, s')
    ensures Tidy(s', Remove(h, lo, hi))
  {
    hide Inv, AllErasable, Jams, FramesIn;
    forall p: nat | Occupied(s.arch, s'.table, p) ensures p in Remove(h, lo, hi) {
      if lo <= p < hi && Covers(s.areas, p) {
        AbsentIsVacant(s, p);
      }
    }
  }

  lemma FaultKeepsTidy(s: Space, h: Cells, e: Event, s': Space)
    requires Matches(s, h) && Tidy(s, h) && Step(s, e, s') && e.PageFault?
    ensures Tidy(s', Observe(s.arch, s.base, s.size, h, e))
  {
  }

  lemma StepKeepsTidy(s: Space, h: Cells, e: Event, s': Space)
    requires Inv(s) && Matches(s, h) && AllErasable(s) && Tidy(s, h) && Step(s, e, s')
    ensures Tidy(s', Observe(s.arch, s.base, s.size, h, e))
  {
    hide Inv, Matches, AllErasable, Tidy, UnmapStep, Jams, MapStep, Overlay, Remove, BackBy, FaultStep;
    match e
    case MapLinear(_, _, _, _, _, _, _) => MapKeepsTidy(s, h, e, s');
    case MapAlloc(_, _, _, _, _, _, _, _) => MapKeepsTidy(s, h, e, s');
    case Unmap(vaddr, bytes, reply) =>
      if reply == Ok {
        UnmapKeepsTidy(s, h, PageOf(vaddr), PageOf(vaddr + bytes), s');
      }
    case PageFault(_, _, _, _, _) => FaultKeepsTidy(s, h, e, s');
    case Clear => UnmapKeepsTidy(s, h, 0, PageLimit(s.base, s.size), s');
  }

  lemma {:induction false} RunTidy(states: seq<Space>, events: seq<Event>, n: nat)
    requires Run(states, events) && n <= |events|
    requires forall i :: 0 <= i < n ==> Careful(states[0].arch, events[i])
    ensures AllErasable(states[n]) && Tidy(states[n], CellsAfter(states, events, n))
  {
    if n != 0 {
      hide Inv, Matches, Step, CellsAfter, Observe, AllErasable, Tidy, Careful;
      RunTidy(states, events, n - 1);
      RunInvariant(states, events, n - 1);
      CellsAfterStep(states, events, n);
      StepKeepsAllErasable(states[n - 1], events[n - 1], states[n]);
      StepKeepsTidy(states[n - 1], CellsAfter(states, events, n - 1), events[n - 1], states[n]);
    }
  }

  /** A page of the range that a failed call left behind, and that is still in the way. */
  predicate InTheWay(arch: Arch, h: Cells, p: nat) {
    p in h && h[p].orphan && !Vacant(arch, h[p].leaf)
  }

  /** What stops a backend that was not denied memory. */
  lemma BackendBlocked(s: Space, h: Cells, a: Area, done: nat, frames: seq<nat>, denied: bool, s': Space)
    requires Matches(s, h) && Tidy(s, h) && Admissible(s, a) && BackendStep(s, a, done, frames, denied, s') && !denied
    ensures done == a.count <==> forall p: nat :: a.Has(p) ==> !InTheWay(s.arch, h, p)
  {
    if done < a.count {
      var p := a.first + done;
      assert a.Has(p) && Occupied(s.arch, s.table, p);
      AdmissibleIsUncovered(s, a, p);
      assert InTheWay(s.arch, h, p);
    } else {
      forall p: nat | a.Has(p) ensures !InTheWay(s.arch, h, p) {
        assert !Occupied(s.arch, s.table, p);
      }
    }
  }

  /**
   * Mapping a free range. In a run whose successful mappings give access, and are not lazy on AArch64, a call that
   * passes the checks and is not denied memory succeeds exactly when no orphan of a failed call is in the way.
   */
  lemma FreeRangeMaps(states: seq<Space>, events: seq<Event>)
    requires Run(states, events) && events != []
    requires forall i :: 0 <= i < |events| - 1 ==> Careful(states[0].arch, events[i])
    requires var e := events[|events| - 1]; Maps(e) && !e.denied && (e.reply == Ok || e.reply == Err(BadState))
    ensures var n := |events| - 1;
            events[n].reply == Ok <==>
            forall p: nat :: AreaOf(events[n]).Has(p) ==>
              !InTheWay(states[0].arch, CellsAfter(states, events, n), p)
  {
    var n := |events| - 1;
    var e, h := events[n], CellsAfter(states, events, n);
    hide Inv, Matches, CellsAfter, Tidy, InTheWay, BackendStep;
    RunTidy(states, events, n);
    RunInvariant(states, events, n);
    BackendBlocked(states[n], h, AreaOf(e), e.done, if e.MapLinear? then [] else e.frames, e.denied, states[n + 1]);
  }

  /** Without part-way failures before it, a mapping of a free range fails only when it was denied memory. */
  lemma FreedRangeIsReusable(states: seq<Space>, events: seq<Event>)
    requires Run(states, events) && events != []
    requires forall i :: 0 <= i < |events| - 1 ==> Careful(states[0].arch, events[i])
    requires NoPartialFailure(events[..|events| - 1])
    requires var e := events[|events| - 1]; Maps(e) && e.reply == Err(BadState)
    ensures events[|events| - 1].denied
  {
    var n := |events| - 1;
    if !events[n].denied {
      assert CellsAfter(states[..n + 1], events[..n], n) == CellsAfter(states, events, n) by {
        assert events[..n][..n] == events[..n];
      }
      hide Inv, Step, Matches, CellsAfter;
      FreeRangeMaps(states, events);
      NoOrphans(states[..n + 1], events[..n], n);
    }
  }
}
