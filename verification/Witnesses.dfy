/** Concrete runs in which something a caller might expect does not hold. */
module Witnesses {
  import opened Flags
  import opened Pte
  import opened Areas
  import opened Spaces
  import opened Frames
  import opened Runs
  import opened Tiling

  const ACCESS := MappingFlags(true, true, false, false, false, false)

  /**
   * Populating two pages with memory for one fails, but the first page stays mapped: it translates although
   * no area contains it.
   */
  lemma FailedPopulateLeavesOrphan() returns (states: seq<Space>, events: seq<Event>)
    ensures Run(states, events) && |events| == 1 && events[0].MapAlloc? && events[0].reply == Err(BadState)
    ensures Translate(states[1], 0x10000) == Some(0x5000)
    ensures TranslateAndGetLimit(states[1], 0x10000) == None
  {
    var s := NewEmpty(X86_64, 0x10000, 0x10000);
    var e := MapAlloc(0x10000, 0x2000, ACCESS, true, Err(BadState), 1, [0x5000], true);
    var a := AllocArea(0x10000, 0x2000, ACCESS, true);
    var s' := s.(table := Fill(X86_64, s.table, a, [0x5000], 1), owned := s.owned + FrameSet([0x5000]), allocs := 1);
    assert BackendStep(s, a, 1, [0x5000], true, s');
    assert Admissible(s, a);
    assert Step(s, e, s');
    assert 0x10 in Span(0x10, 0x11);
    assert s'.table[0x10] == LeafFor(X86_64, a, [0x5000], 0x10);
    assert !Covers(s'.areas, 0x10);
    states, events := [s, s'], [e];
  }

  /** A linear area mapped without access rights makes the teardown impossible to complete. */
  lemma InaccessibleLinearAreaJams() returns (states: seq<Space>, events: seq<Event>)
    ensures Run(states, events) && |events| == 1 && events[0].MapLinear? && events[0].reply == Ok
    ensures forall s' :: !Step(states[1], Clear, s')
  {
    var s := NewEmpty(X86_64, 0x10000, 0x10000);
    var e := MapLinear(0x10000, 0, 0x1000, NO_FLAGS, Ok, 1, false);
    var a := LinearArea(0x10000, 0, 0x1000, NO_FLAGS);
    var s' := s.(areas := {a}, table := Fill(X86_64, s.table, a, [], 1));
    assert s.areas + {a} == {a} && s.owned + FrameSet([]) == s.owned;
    assert BackendStep(s, a, 1, [], false, s');
    assert Admissible(s, a);
    assert Step(s, e, s');
    states, events := [s, s'], [e];
    RunInvariant(states, events, 1);
    assert a in s'.areas && !LinearAccessible(s');
    TeardownCompletes(s');
  }

  /** A lazy area of one page, mapped in a new address space. */
  lemma MapOneLazyPage() returns (s: Space, s': Space, e: Event)
    ensures s == NewEmpty(X86_64, 0x10000, 0x10000)
    ensures e == MapAlloc(0x10000, 0x1000, ACCESS, false, Ok, 1, [], false) && Step(s, e, s')
    ensures s' == s.(areas := {AllocArea(0x10000, 0x1000, ACCESS, false)}, table := map[0x10 := PLACEHOLDER])
  {
    s := NewEmpty(X86_64, 0x10000, 0x10000);
    e := MapAlloc(0x10000, 0x1000, ACCESS, false, Ok, 1, [], false);
    var a := AllocArea(0x10000, 0x1000, ACCESS, false);
    s' := s.(areas := {a}, table := map[0x10 := PLACEHOLDER]);
    assert Fill(X86_64, s.table, a, [], 1) == map[0x10 := PLACEHOLDER] by {
      assert Span(0x10, 0x11) == {0x10};
    }
    assert s.areas + {a} == {a} && s.owned + FrameSet([]) == s.owned;
    assert Admissible(s, a) && BackendStep(s, a, 1, [], false, s');
  }

  /** A fault on that page which is given the frame `f`. */
  lemma ServeFault(s: Space, f: nat) returns (s': Space, e: Event)
    requires SameFrame(NewEmpty(X86_64, 0x10000, 0x10000), s) && f !in s.owned && Aligned(f)
    requires s.areas == {AllocArea(0x10000, 0x1000, ACCESS, false)}
    ensures e == PageFault(0x10000, ACCESS, true, [f], false) && Step(s, e, s')
    ensures s' == s.(table := s.table[0x10 := Mapped(f, ACCESS)], owned := s.owned + {f}, allocs := s.allocs + 1)
  {
    e := PageFault(0x10000, ACCESS, true, [f], false);
    var a := AllocArea(0x10000, 0x1000, ACCESS, false);
    assert a in s.areas && a.Has(0x10);
    assert Lookup(s.areas, 0x10) == Some(a);
    s' := s.(table := s.table[0x10 := Mapped(f, ACCESS)], owned := s.owned + {f}, allocs := s.allocs + 1);
  }

  /** A second fault on a page that has a frame replaces the frame, and the first one is lost. */
  lemma RepeatedFaultStrandsFrame() returns (states: seq<Space>, events: seq<Event>)
    ensures Run(states, events) && |events| == 3 && events[0].MapAlloc? && events[1].PageFault? && events[2].PageFault?
    ensures Translate(states[2], 0x10000) == Some(0x5000) && Translate(states[3], 0x10000) == Some(0x6000)
    ensures 0x5000 in Stranded(states[3])
  {
    var s0, s1, e0 := MapOneLazyPage();
    var s2, e1 := ServeFault(s1, 0x5000);
    var s3, e2 := ServeFault(s2, 0x6000);
    hide Step;
    states, events := [s0, s1, s2, s3], [e0, e1, e2];
  }

  /** Asking for the bytes of a lazy page that was never touched passes the checks and then panics. */
  lemma UntouchedLazyPagePanics() returns (states: seq<Space>, events: seq<Event>)
    ensures Run(states, events) && |events| == 1 && events[0].MapAlloc? && events[0].reply == Ok
    ensures Accepted(states[1], 0x10000, 1) && HasGap(states[1], 0x10000, 1)
  {
    var s0, s1, e0 := MapOneLazyPage();
    var a := AllocArea(0x10000, 0x1000, ACCESS, false);
    assert a in s1.areas && a.Has(0x10);
    assert Lookup(s1.areas, 0x10) == Some(a);
    assert Query(s1, 0x10000) == None;
    states, events := [s0, s1], [e0];
  }

  /** So does asking for bytes beyond the end of an area, when their number does not exceed its size. */
  lemma RangePastAreaEndPanics() returns (states: seq<Space>, events: seq<Event>)
    ensures Run(states, events) && |events| == 1 && events[0].MapLinear? && events[0].reply == Ok
    ensures Translate(states[1], 0x10800) == Some(0x800)
    ensures Accepted(states[1], 0x10800, 0x1000) && HasGap(states[1], 0x10800, 0x1000)
  {
    var s := NewEmpty(X86_64, 0x10000, 0x10000);
    var e := MapLinear(0x10000, 0, 0x1000, ACCESS, Ok, 1, false);
    var a := LinearArea(0x10000, 0, 0x1000, ACCESS);
    var s' := s.(areas := {a}, table := Fill(X86_64, s.table, a, [], 1));
    assert s.areas + {a} == {a} && s.owned + FrameSet([]) == s.owned;
    assert Admissible(s, a) && BackendStep(s, a, 1, [], false, s');
    assert Step(s, e, s');
    assert a in s'.areas && a.Has(0x10);
    assert Lookup(s'.areas, 0x10) == Some(a);
    assert 0x10 in Span(0x10, 0x11) && s'.table[0x10] == LeafFor(X86_64, a, [], 0x10);
    assert Query(s', 0x11000) == None;
    states, events := [s, s'], [e];
  }

  const DEVICE_ONLY := MappingFlags(false, false, false, false, true, false)

  /** A linear call denied memory for its second page. */
  lemma LeaveVacantOrphan() returns (s: Space, s': Space, e: Event)
    ensures s == NewEmpty(X86_64, 0x10000, 0x10000)
    ensures e == MapLinear(0x10000, 0, 0x2000, DEVICE_ONLY, Err(BadState), 1, true) && Step(s, e, s')
    ensures s' == s.(table := map[0x10 := Mapped(0, DEVICE_ONLY)])
  {
    s := NewEmpty(X86_64, 0x10000, 0x10000);
    e := MapLinear(0x10000, 0, 0x2000, DEVICE_ONLY, Err(BadState), 1, true);
    var a := LinearArea(0x10000, 0, 0x2000, DEVICE_ONLY);
    s' := s.(table := map[0x10 := Mapped(0, DEVICE_ONLY)]);
    assert Span(0x10, 0x11) == {0x10};
    assert Fill(X86_64, s.table, a, [], 1) == s'.table;
    assert s.owned + FrameSet([]) == s.owned;
    assert Admissible(s, a) && BackendStep(s, a, 1, [], true, s');
  }

  /**
   * A page that a failed call left behind is written over by the next call, if it was mapped to frame zero as
   * device memory without access: its slot holds the zero word.
   */
  lemma VacantOrphanIsOverwritten() returns (states: seq<Space>, events: seq<Event>)
    ensures Run(states, events) && |events| == 2
    ensures events[0].MapLinear? && events[0].reply == Err(BadState) && events[1].MapAlloc? && events[1].reply == Ok
    ensures 0x10 in states[1].table && states[1].table[0x10] == Mapped(0, DEVICE_ONLY)
    ensures !Occupied(X86_64, states[1].table, 0x10)
    ensures Translate(states[1], 0x10000) == None && Translate(states[2], 0x10000) == Some(0x5000)
  {
    var s0, s1, e0 := LeaveVacantOrphan();
    var e1 := MapAlloc(0x10000, 0x1000, ACCESS, true, Ok, 1, [0x5000], false);
    var b := AllocArea(0x10000, 0x1000, ACCESS, true);
    var s2 := s1.(areas := {b}, table := map[0x10 := Mapped(0x5000, ACCESS)], owned := {0x5000}, allocs := 1);
    assert Step(s1, e1, s2) by {
      assert Span(0x10, 0x11) == {0x10};
      assert Fill(X86_64, s1.table, b, [0x5000], 1) == s2.table;
      assert s1.owned + FrameSet([0x5000]) == {0x5000} && s1.areas + {b} == {b};
      assert Admissible(s1, b) && BackendStep(s1, b, 1, [0x5000], false, s2);
    }
    hide Step;
    states, events := [s0, s1, s2], [e0, e1];
  }
}
