/**
 * The page-wise reference of the address space. It knows no areas to shrink or split and no table to
 * search: one cell per page, computed from the calls and their outcomes alone.
 */
module History {
  import opened Flags
  import opened Words
  import opened Entries
  import opened Pte
  import opened Areas
  import opened Spaces
  import opened SpaceInv

  /**
   * What the calls so far have made of a page. An orphan was written by a mapping call that then failed:
   * it belongs to no area, so no later call removes it.
   */
  datatype Cell = Cell(backend: Backend, flags: MappingFlags, leaf: Leaf, orphan: bool)

  type Cells = map<nat, Cell>

  /** A mapping call wrote the first `done` pages of an area. */
  function Overlay(arch: Arch, h: Cells, a: Area, frames: seq<nat>, done: nat): Cells
    requires a.backend == Alloc(true) ==> done <= |frames|
  {
    var written := Span(a.first, a.first + done);
    map p | p in h.Keys + written ::
      if p in written then Cell(a.backend, a.flags, LeafFor(arch, a, frames, p), done < a.count) else h[p]
  }

  function Remove(h: Cells, lo: nat, hi: nat): Cells {
    map p | p in h && !(lo <= p < hi && !h[p].orphan) :: h[p]
  }

  /** A handled fault put a new frame behind the page. */
  function BackBy(h: Cells, p: nat, frame: nat): Cells {
    if p in h then h[p := h[p].(leaf := Mapped(frame, h[p].flags))] else h
  }

  function Observe(arch: Arch, base: nat, size: nat, h: Cells, e: Event): Cells {
    match e
    case MapLinear(vaddr, paddr, bytes, flags, reply, done, _) =>
      Overlay(arch, h, LinearArea(vaddr, paddr, bytes, flags), [], done)
    case MapAlloc(vaddr, bytes, flags, populate, reply, done, frames, _) =>
      if populate && |frames| < done then h
      else Overlay(arch, h, AllocArea(vaddr, bytes, flags, populate), frames, done)
    case Unmap(vaddr, bytes, reply) =>
      if reply == Ok then Remove(h, PageOf(vaddr), PageOf(vaddr + bytes)) else h
    case PageFault(vaddr, _, handled, frames, _) =>
      if handled && |frames| == 1 then BackBy(h, PageOf(vaddr), frames[0]) else h
    case Clear => Remove(h, 0, PageLimit(base, size))
  }

  /** The host address the reference gives for a guest address. */
  function Predict(arch: Arch, base: nat, size: nat, h: Cells, v: nat): Option<nat> {
    if base <= v < base + size && PageOf(v) in h && Present(arch, h[PageOf(v)].leaf)
    then Some(h[PageOf(v)].leaf.frame + v % PAGE_SIZE)
    else None
  }

  /** The address space holds exactly what the reference says. */
  ghost predicate Matches(s: Space, h: Cells) {
    && (forall p: nat :: p in h && !h[p].orphan <==> Covers(s.areas, p))
    && (forall a, p: nat :: a in s.areas && a.Has(p) && p in h ==>
          h[p].backend == a.backend && h[p].flags == a.flags)
    && (forall p :: p in h ==> p in s.table && s.table[p] == h[p].leaf)
    && (forall p :: p in s.table && p !in h ==> !Present(s.arch, s.table[p]))
    && (forall p :: p in h && h[p].backend.Linear? ==>
          h[p].leaf == Mapped(FrameAddr(s.arch, WrapSub(p * PAGE_SIZE, h[p].backend.offset)), h[p].flags))
  }

  lemma MapCoverMatches(s: Space, h: Cells, a: Area, done: nat, frames: seq<nat>, denied: bool, s': Space, p: nat)
    requires Matches(s, h) && Admissible(s, a) && BackendStep(s, a, done, frames, denied, s')
    ensures var h' := Overlay(s.arch, h, a, frames, done);
            p in h' && !h'[p].orphan <==> Covers(s'.areas, p)
  {
  }

  lemma MapMatches(s: Space, h: Cells, a: Area, done: nat, frames: seq<nat>, denied: bool, s': Space)
    requires Matches(s, h) && Admissible(s, a) && BackendStep(s, a, done, frames, denied, s')
    ensures Matches(s', Overlay(s.arch, h, a, frames, done))
  {
    var h' := Overlay(s.arch, h, a, frames, done);
    forall p: nat ensures p in h' && !h'[p].orphan <==> Covers(s'.areas, p) {
      MapCoverMatches(s, h, a, done, frames, denied, s', p);
    }
    forall b, p: nat | b in s'.areas && b.Has(p) && p in h'
      ensures h'[p].backend == b.backend && h'[p].flags == b.flags
    {
      if a.Has(p) {
        AdmissibleIsUncovered(s, a, p);
      }
    }
  }

  lemma UnmapMatches(s: Space, h: Cells, lo: nat, hi: nat, s': Space)
    requires Matches(s, h) && lo <= hi && UnmapStep(s, lo, hi, s')
    ensures Matches(s', Remove(h, lo, hi))
  {
    var h' := Remove(h, lo, hi);
    forall p: nat ensures Covers(s'.areas, p) <==> Covers(s.areas, p) && !(lo <= p < hi) {
      TrimCovers(s.areas, lo, hi, p);
    }
    forall x, p: nat | x in s'.areas && x.Has(p) && p in h'
      ensures h'[p].backend == x.backend && h'[p].flags == x.flags
    {
      var a := PieceHasParent(s.areas, lo, hi, x);
      assert a.Has(p);
    }
    forall p | p in s'.table && p !in h' ensures !Present(s.arch, s'.table[p]) {
      assert p in h ==> lo <= p < hi && Covers(s.areas, p);
    }
  }

  lemma FaultMatches(s: Space, h: Cells, v: nat, access: MappingFlags, frames: seq<nat>, denied: bool, s': Space)
    requires Matches(s, h) && FaultStep(s, v, access, true, frames, denied, s')
    ensures Matches(s', BackBy(h, PageOf(v), frames[0]))
  {
  }

  lemma MapEventMatches(s: Space, h: Cells, e: Event, s': Space)
    requires Matches(s, h) && Step(s, e, s') && Maps(e)
    ensures Matches(s', Observe(s.arch, s.base, s.size, h, e))
  {
    var a := AreaOf(e);
    if GoodRange(s, e.vaddr, e.bytes) && (e.MapLinear? ==> Aligned(e.paddr)) && Admissible(s, a) {
      MapMatches(s, h, a, e.done, if e.MapLinear? then [] else e.frames, e.denied, s');
    } else {
      assert Overlay(s.arch, h, a, [], 0) == h;
    }
  }

  lemma UnmapRangeMatches(s: Space, h: Cells, lo: nat, hi: nat, s': Space)
    requires Matches(s, h) && UnmapRange(s, lo, hi, s')
    ensures Matches(s', Remove(h, lo, hi))
  {
    if lo == hi {
      assert Remove(h, lo, hi) == h;
    } else {
      UnmapMatches(s, h, lo, hi, s');
    }
  }

  /** One step: if the address space matches the reference before, it matches it afterwards. */
  lemma StepMatches(s: Space, h: Cells, e: Event, s': Space)
    requires Matches(s, h) && Step(s, e, s')
    ensures Matches(s', Observe(s.arch, s.base, s.size, h, e))
  {
    hide Matches, UnmapStep, Jams, MapStep, Overlay, Remove, BackBy;
    match e
    case MapLinear(_, _, _, _, _, _, _) => MapEventMatches(s, h, e, s');
    case MapAlloc(_, _, _, _, _, _, _, _) => MapEventMatches(s, h, e, s');
    case Unmap(vaddr, bytes, reply) =>
      if reply == Ok {
        UnmapRangeMatches(s, h, PageOf(vaddr), PageOf(vaddr + bytes), s');
      }
    case PageFault(vaddr, access, handled, frames, denied) =>
      if handled {
        FaultMatches(s, h, vaddr, access, frames, denied, s');
      }
    case Clear => UnmapRangeMatches(s, h, 0, PageLimit(s.base, s.size), s');
  }

  /** Matching the reference means translating every address as it predicts. */
  lemma MatchesPredict(s: Space, h: Cells, v: nat)
    requires Matches(s, h)
    ensures Translate(s, v) == Predict(s.arch, s.base, s.size, h, v)
  {
  }

  /** The two translation calls disagree exactly on present orphans. */
  lemma LimitAgreesOffOrphans(s: Space, h: Cells, v: nat)
    requires Matches(s, h)
    ensures (Translate(s, v).Some? <==> TranslateAndGetLimit(s, v).Some?) <==>
            !(InRange(s, v) && PageOf(v) in h && h[PageOf(v)].orphan && Present(s.arch, h[PageOf(v)].leaf))
    ensures TranslateAndGetLimit(s, v).Some? ==> Translate(s, v) == Some(TranslateAndGetLimit(s, v).value.0)
  {
  }
}
