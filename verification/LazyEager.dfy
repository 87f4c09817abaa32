/** A lazy area whose pages have all been touched is a populated area, up to the choice of frames. */
module LazyEager {
  import opened Flags
  import opened Pte
  import opened Areas
  import opened Spaces
  import opened SpaceInv

  /** A sequence of handled faults with the states around them. */
  ghost predicate FaultRun(t: seq<Space>, faults: seq<Event>) {
    && |t| == |faults| + 1
    && forall i :: 0 <= i < |faults| ==>
         faults[i].PageFault? && faults[i].handled && Step(t[i], faults[i], t[i + 1])
  }

  /** The pages hit, in order. */
  function Pages(faults: seq<Event>): (pages: seq<nat>)
    ensures |pages| == |faults|
    ensures forall i :: 0 <= i < |faults| && faults[i].PageFault? ==> pages[i] == PageOf(faults[i].vaddr)
  {
    seq(|faults|, i requires 0 <= i < |faults| => if faults[i].PageFault? then PageOf(faults[i].vaddr) else 0)
  }

  ghost predicate Distinct(xs: seq<nat>) {
    forall i, j :: 0 <= i < j < |xs| ==> xs[i] != xs[j]
  }

  /** What a handled fault in area `a` does. */
  lemma FaultEffect(s: Space, e: Event, s': Space, a: Area)
    requires Step(s, e, s') && e.PageFault? && e.handled && Disjoint(s.areas) && a in s.areas && a.Has(PageOf(e.vaddr))
    ensures |e.frames| == 1 && Fresh(e.frames, s.owned)
    ensures s' == s.(table := s.table[PageOf(e.vaddr) := Mapped(e.frames[0], a.flags)],
                     owned := s.owned + {e.frames[0]}, allocs := s.allocs + 1)
  {
  }

  /** `table` differs from `table0` by `frames` having been put behind `pages`. */
  ghost predicate Backed(flags: MappingFlags, table0: map<nat, Leaf>, pages: seq<nat>, frames: seq<nat>,
                         table: map<nat, Leaf>)
  {
    && |pages| == |frames|
    && table.Keys == table0.Keys
    && (forall i :: 0 <= i < |pages| ==> pages[i] in table && table[pages[i]] == Mapped(frames[i], flags))
    && (forall p :: p in table && p !in pages ==> table[p] == table0[p])
  }

  lemma BackOneMore(flags: MappingFlags, table0: map<nat, Leaf>, pages: seq<nat>, frames: seq<nat>,
                    table: map<nat, Leaf>, q: nat, f: nat)
    requires Backed(flags, table0, pages, frames, table) && q in table0 && q !in pages
    ensures Backed(flags, table0, pages + [q], frames + [f], table[q := Mapped(f, flags)])
  {
  }

  lemma FreshOneMore(frames: seq<nat>, owned: set<nat>, more: seq<nat>)
    requires Fresh(frames, owned) && Fresh(more, owned + FrameSet(frames)) && |more| == 1
    ensures Fresh(frames + more, owned)
    ensures owned + FrameSet(frames + more) == owned + FrameSet(frames) + {more[0]}
  {
    FramesTaken(frames, more, owned);
    assert FrameSet(more) == {more[0]};
  }

  /** Everything but table, owned frames and allocation count is as it was. */
  ghost predicate SameBut(s: Space, x: Space, k: nat) {
    x == s.(table := x.table, owned := x.owned, allocs := s.allocs + k)
  }

  /** Progress made by the faults so far: `x` is `s` with `frames` behind `pages` of area `a`. */
  ghost predicate Progress(s: Space, a: Area, pages: seq<nat>, frames: seq<nat>, x: Space) {
    && SameBut(s, x, |pages|)
    && Backed(a.flags, s.table, pages, frames, x.table)
    && Fresh(frames, s.owned) && x.owned == s.owned + FrameSet(frames)
  }

  lemma OneMoreFault(s: Space, a: Area, pages: seq<nat>, frames: seq<nat>, x: Space, e: Event, x': Space)
    requires Disjoint(s.areas) && a in s.areas && Progress(s, a, pages, frames, x)
    requires Step(x, e, x') && e.PageFault? && e.handled
    requires a.Has(PageOf(e.vaddr)) && PageOf(e.vaddr) in s.table && PageOf(e.vaddr) !in pages
    ensures |e.frames| == 1 && Progress(s, a, pages + [PageOf(e.vaddr)], frames + e.frames, x')
  {
    FaultEffect(x, e, x', a);
    BackOneMore(a.flags, s.table, pages, frames, x.table, PageOf(e.vaddr), e.frames[0]);
    FreshOneMore(frames, s.owned, e.frames);
    assert e.frames == [e.frames[0]];
  }

  lemma {:induction false} FaultsDone(s: Space, a: Area, t: seq<Space>, faults: seq<Event>, k: nat)
    returns (frames: seq<nat>)
    requires Disjoint(s.areas) && a in s.areas && (forall p: nat :: a.Has(p) ==> p in s.table)
    requires FaultRun(t, faults) && t[0] == s && k <= |faults|
    requires Distinct(Pages(faults)) && forall p :: p in Pages(faults) ==> a.Has(p)
    ensures Progress(s, a, Pages(faults)[..k], frames, t[k])
  {
    if k == 0 {
      frames := [];
    } else {
      var before := FaultsDone(s, a, t, faults, k - 1);
      var q := Pages(faults)[k - 1];
      assert q in Pages(faults) && q !in Pages(faults)[..k - 1];
      OneMoreFault(s, a, Pages(faults)[..k - 1], before, t[k - 1], faults[k - 1], t[k]);
      assert Pages(faults)[..k] == Pages(faults)[..k - 1] + [q];
      frames := before + faults[k - 1].frames;
    }
  }

  /** What a successful mapping call over an admissible area leaves. */
  lemma AllocEffect(s: Space, e: Event, s': Space)
    requires Step(s, e, s') && e.MapAlloc? && e.reply == Ok
    ensures var a := AllocArea(e.vaddr, e.bytes, e.flags, e.populate);
            Admissible(s, a) && BackendStep(s, a, a.count, e.frames, e.denied, s')
  {
  }

  lemma AdmissibleStaysDisjoint(s: Space, a: Area)
    requires Disjoint(s.areas) && Admissible(s, a)
    ensures Disjoint(s.areas + {a})
  {
  }

  /** The frames behind consecutive pages, in page order. */
  function InPageOrder(table: map<nat, Leaf>, first: nat, count: nat): (frames: seq<nat>)
    ensures |frames| == count
    ensures forall i :: 0 <= i < count && first + i in table && table[first + i].Mapped? ==>
              frames[i] == table[first + i].frame
  {
    seq(count, i requires 0 <= i < count =>
      if first + i in table && table[first + i].Mapped? then table[first + i].frame else 0)
  }

  /** The frame listed for a page is the one its fault brought. */
  lemma PageOrderAt(flags: MappingFlags, table0: map<nat, Leaf>, pages: seq<nat>, frames: seq<nat>,
                    table: map<nat, Leaf>, a: Area, i: nat) returns (k: nat)
    requires Backed(flags, table0, pages, frames, table) && i < a.count && a.first + i in pages
    ensures k < |pages| && pages[k] == a.first + i && InPageOrder(table, a.first, a.count)[i] == frames[k]
    ensures a.first + i in table && table[a.first + i] == Mapped(frames[k], flags)
  {
    k :| 0 <= k < |pages| && pages[k] == a.first + i;
  }

  /** Sorting the frames by page instead of by fault keeps them fresh and loses none. */
  lemma PageOrderFresh(flags: MappingFlags, table0: map<nat, Leaf>, owned: set<nat>, pages: seq<nat>,
                       frames: seq<nat>, table: map<nat, Leaf>, a: Area)
    requires Backed(flags, table0, pages, frames, table) && Fresh(frames, owned)
    requires forall p: nat :: p in pages <==> a.Has(p)
    ensures Fresh(InPageOrder(table, a.first, a.count), owned)
    ensures FrameSet(InPageOrder(table, a.first, a.count)) == FrameSet(frames)
  {
    var ordered := InPageOrder(table, a.first, a.count);
    forall i | 0 <= i < a.count
      ensures ordered[i] in FrameSet(frames) && ordered[i] !in owned && Aligned(ordered[i])
    {
      assert a.Has(a.first + i);
      var k := PageOrderAt(flags, table0, pages, frames, table, a, i);
    }
    forall i, j | 0 <= i < j < a.count ensures ordered[i] != ordered[j] {
      assert a.Has(a.first + i) && a.Has(a.first + j);
      var k := PageOrderAt(flags, table0, pages, frames, table, a, i);
      var m := PageOrderAt(flags, table0, pages, frames, table, a, j);
    }
    forall k | 0 <= k < |frames| ensures frames[k] in FrameSet(ordered) {
      assert pages[k] in pages && a.Has(pages[k]);
      assert ordered[pages[k] - a.first] == frames[k];
    }
  }

  lemma {:induction false} DistinctInRange(pages: seq<nat>, a: Area)
    requires Distinct(pages) && forall p: nat :: p in pages <==> a.Has(p)
    ensures |pages| == a.count
  {
    FrameSetSize(pages);
    SpanSize(a.first, a.End());
    assert FrameSet(pages) == Span(a.first, a.End());
  }

  lemma {:induction false} SpanSize(lo: nat, hi: nat)
    requires lo <= hi
    ensures |Span(lo, hi)| == hi - lo
    decreases hi - lo
  {
    if lo < hi {
      SpanSize(lo, hi - 1);
      assert Span(lo, hi) == Span(lo, hi - 1) + {hi - 1};
    }
  }

  /** The two ways of mapping one area write the same slots, and `ordered` decides the populated leaves. */
  lemma FillPair(arch: Arch, table: map<nat, Leaf>, a: Area, ordered: seq<nat>, p: nat)
    requires a.backend == Alloc(false) && |ordered| == a.count
    ensures var placed := Fill(arch, table, a, [], a.count);
            var filled := Fill(arch, table, a.(backend := Alloc(true)), ordered, a.count);
            && (p in placed <==> p in filled)
            && (p in placed && !a.Has(p) ==> placed[p] == filled[p])
            && (a.Has(p) ==> p in filled && filled[p] == Mapped(ordered[p - a.first], a.flags))
  {
  }

  /** The lazily filled slot is the one the populating call would have written with these frames. */
  lemma FilledAt(a: Area, pages: seq<nat>, frames: seq<nat>, placed: map<nat, Leaf>, filled: map<nat, Leaf>,
                 table: map<nat, Leaf>, p: nat)
    requires Backed(a.flags, placed, pages, frames, table) && (p in pages <==> a.Has(p))
    requires p in placed <==> p in filled
    requires p in placed && !a.Has(p) ==> placed[p] == filled[p]
    requires a.Has(p) ==> p in filled && filled[p] == Mapped(InPageOrder(table, a.first, a.count)[p - a.first], a.flags)
    ensures (p in table <==> p in filled) && (p in table ==> table[p] == filled[p])
  {
  }

  lemma LazyTableAt(arch: Arch, table0: map<nat, Leaf>, a: Area, pages: seq<nat>, frames: seq<nat>,
                    table: map<nat, Leaf>, filled: map<nat, Leaf>, p: nat)
    requires a.backend == Alloc(false) && (p in pages <==> a.Has(p))
    requires Backed(a.flags, Fill(arch, table0, a, [], a.count), pages, frames, table)
    requires filled ==
             Fill(arch, table0, a.(backend := Alloc(true)), InPageOrder(table, a.first, a.count), a.count)
    ensures (p in table <==> p in filled) && (p in table ==> table[p] == filled[p])
  {
    FillPair(arch, table0, a, InPageOrder(table, a.first, a.count), p);
    FilledAt(a, pages, frames, Fill(arch, table0, a, [], a.count), filled, table, p);
  }

  lemma LazyTable(arch: Arch, table0: map<nat, Leaf>, a: Area, pages: seq<nat>, frames: seq<nat>,
                  table: map<nat, Leaf>, filled: map<nat, Leaf>)
    requires a.backend == Alloc(false) && forall p: nat :: p in pages <==> a.Has(p)
    requires Backed(a.flags, Fill(arch, table0, a, [], a.count), pages, frames, table)
    requires filled ==
             Fill(arch, table0, a.(backend := Alloc(true)), InPageOrder(table, a.first, a.count), a.count)
    ensures table == filled
  {
    forall p: nat ensures (p in table <==> p in filled) && (p in table ==> table[p] == filled[p]) {
      LazyTableAt(arch, table0, a, pages, frames, table, filled, p);
    }
  }

  /**
   * Lazy equals eager. Map a range lazily and let each of its pages fault once, in any order. The final state
   * is one that the populating call could have produced from the same start with the same frames, now listed
   * by page: only the `populate` mark of the area tells the two apart.
   */
  lemma LazyEqualsEager(s: Space, l: Event, t: seq<Space>, faults: seq<Event>) returns (frames: seq<nat>)
    requires Disjoint(s.areas) && l.MapAlloc? && !l.populate && l.reply == Ok
    requires FaultRun(t, faults) && Step(s, l, t[0]) && Distinct(Pages(faults))
    requires forall p: nat :: p in Pages(faults) <==> AllocArea(l.vaddr, l.bytes, l.flags, false).Has(p)
    ensures var lazy := t[|faults|];
            var a := AllocArea(l.vaddr, l.bytes, l.flags, true);
            && lazy.areas == s.areas + {a.(backend := Alloc(false))}
            && Step(s, MapAlloc(l.vaddr, l.bytes, l.flags, true, Ok, a.count, frames, false),
                    lazy.(areas := s.areas + {a}))
  {
    var n := |faults|;
    var b := AllocArea(l.vaddr, l.bytes, l.flags, false);
    AllocEffect(s, l, t[0]);
    FaultsOverArea(s, b, l.denied, t, faults);
    frames := InPageOrder(t[n].table, b.first, b.count);
    EagerOutcome(s, b, l.denied, frames, t[0], t[n]);
  }

  /** The faults of a whole area, starting right after it was mapped lazily. */
  lemma FaultsOverArea(s: Space, a: Area, denied: bool, t: seq<Space>, faults: seq<Event>)
    requires Disjoint(s.areas) && Admissible(s, a) && a.backend == Alloc(false)
    requires FaultRun(t, faults) && BackendStep(s, a, a.count, [], denied, t[0])
    requires Distinct(Pages(faults)) && forall p: nat :: p in Pages(faults) <==> a.Has(p)
    ensures var x := t[|faults|];
            var ordered := InPageOrder(x.table, a.first, a.count);
            && SameBut(t[0], x, a.count)
            && x.table == Fill(s.arch, s.table, a.(backend := Alloc(true)), ordered, a.count)
            && x.owned == s.owned + FrameSet(ordered) && Fresh(ordered, s.owned)
  {
    var n := |faults|;
    var x := t[n];
    AdmissibleStaysDisjoint(s, a);
    assert forall p: nat :: a.Has(p) ==> p in Span(a.first, a.first + a.count);
    var frames := FaultsDone(t[0], a, t, faults, n);
    assert Pages(faults)[..n] == Pages(faults);
    DistinctInRange(Pages(faults), a);
    assert t[0].owned == s.owned;
    var ordered := InPageOrder(x.table, a.first, a.count);
    LazyTable(s.arch, s.table, a, Pages(faults), frames, x.table,
              Fill(s.arch, s.table, a.(backend := Alloc(true)), ordered, a.count));
    PageOrderFresh(a.flags, t[0].table, s.owned, Pages(faults), frames, x.table, a);
  }

  lemma EagerOutcome(s: Space, a: Area, denied: bool, frames: seq<nat>, start: Space, x: Space)
    requires Admissible(s, a) && a.backend == Alloc(false) && BackendStep(s, a, a.count, [], denied, start)
    requires SameBut(start, x, a.count) && |frames| == a.count && Fresh(frames, s.owned)
    requires x.table == Fill(s.arch, s.table, a.(backend := Alloc(true)), frames, a.count)
    requires x.owned == s.owned + FrameSet(frames)
    ensures var eager := a.(backend := Alloc(true));
            Admissible(s, eager) && BackendStep(s, eager, a.count, frames, false, x.(areas := s.areas + {eager}))
    ensures x.areas == s.areas + {a}
  {
  }
}
