/**
 * The guest address space as a state machine: areas, page table and allocated frames.
 *
 * The page table is a flat map from 4K page number to leaf. It and the area set are library types whose
 * source is not part of this model; `Fill`, `Trim` and `Erase` are the behaviour assumed of them.
 */
module Spaces {
  import opened Flags
  import opened Words
  import opened Entries
  import opened Pte
  import opened Areas

  datatype AxError = InvalidInput | AlreadyExists | BadState
  datatype Reply = Ok | Err(error: AxError)

  /**
   * `owned` holds the data frames obtained from the allocator and not yet given back; `allocs` and
   * `deallocs` count the calls that moved them.
   */
  datatype Space = Space(
    arch: Arch, base: nat, size: nat,
    areas: set<Area>, table: map<nat, Leaf>,
    owned: set<nat>, allocs: nat, deallocs: nat)

  /**
   * One call of the interface with its outcome. `done` counts the pages a mapping call wrote, `frames`
   * lists the frames the allocator handed out during the call, and `denied` tells whether the allocator
   * turned a request of the call down.
   */
  datatype Event =
    | MapLinear(vaddr: nat, paddr: nat, bytes: nat, flags: MappingFlags, reply: Reply, done: nat, denied: bool)
    | MapAlloc(vaddr: nat, bytes: nat, flags: MappingFlags, populate: bool,
               reply: Reply, done: nat, frames: seq<nat>, denied: bool)
    | Unmap(vaddr: nat, bytes: nat, reply: Reply)
    | PageFault(vaddr: nat, access: MappingFlags, handled: bool, frames: seq<nat>, denied: bool)
    | Clear

  function NewEmpty(arch: Arch, base: nat, size: nat): Space {
    Space(arch, base, size, {}, map[], {}, 0, 0)
  }

  predicate IsNew(s: Space) {
    s == NewEmpty(s.arch, s.base, s.size)
  }

  function PageOf(v: nat): nat {
    v / PAGE_SIZE
  }

  /** A page number beyond every page of a range of addresses. */
  function PageLimit(base: nat, size: nat): nat {
    PageOf(base + size) + 1
  }

  predicate InRange(s: Space, v: nat) {
    s.base <= v < s.base + s.size
  }

  /** The range of addresses at `base` contains another range. */
  predicate ContainsRange(base: nat, size: nat, start: nat, bytes: nat) {
    base <= start && start + bytes <= base + size
  }

  predicate Aligned(v: nat) {
    v % PAGE_SIZE == 0
  }

  predicate PresentIn(arch: Arch, table: map<nat, Leaf>, p: nat) {
    p in table && Present(arch, table[p])
  }

  predicate PagePresent(s: Space, p: nat) {
    PresentIn(s.arch, s.table, p)
  }

  /** The host address behind a guest address, if its page is present. */
  function Query(s: Space, v: nat): Option<nat> {
    if PagePresent(s, PageOf(v)) then Some(s.table[PageOf(v)].frame + v % PAGE_SIZE) else None
  }

  function Translate(s: Space, v: nat): Option<nat> {
    if InRange(s, v) then Query(s, v) else None
  }

  /** Translation that also consults the areas and reports the size of the area found. */
  ghost function TranslateAndGetLimit(s: Space, v: nat): Option<(nat, nat)> {
    if !InRange(s, v) then None
    else
      match Lookup(s.areas, PageOf(v))
      case None => None
      case Some(a) =>
        match Query(s, v)
        case None => None
        case Some(h) => Some((h, a.Size()))
  }

  // ----- effects of the mapping calls

  /** The leaf of a lazy page that has not been touched yet. */
  const PLACEHOLDER := Mapped(0, NO_FLAGS)

  /** The leaf written for page `p` of an area. */
  function LeafFor(arch: Arch, a: Area, frames: seq<nat>, p: nat): Leaf
    requires a.first <= p
    requires a.backend == Alloc(true) ==> p - a.first < |frames|
  {
    match a.backend
    case Linear(offset) => Mapped(FrameAddr(arch, WrapSub(p * PAGE_SIZE, offset)), a.flags)
    case Alloc(populate) => if populate then Mapped(frames[p - a.first], a.flags) else PLACEHOLDER
  }

  predicate Within(p: nat, lo: nat, hi: nat) {
    lo <= p < hi
  }

  /** The pages from `lo` up to `hi`. */
  function Span(lo: nat, hi: nat): set<nat> {
    set p: nat | lo <= p < hi && Within(p, lo, hi)
  }

  /** The table after the first `done` pages of an area have been written. */
  function Fill(arch: Arch, table: map<nat, Leaf>, a: Area, frames: seq<nat>, done: nat): map<nat, Leaf>
    requires a.backend == Alloc(true) ==> done <= |frames|
  {
    var written := Span(a.first, a.first + done);
    map p | p in table.Keys + written ::
      if p in written then LeafFor(arch, a, frames, p) else table[p]
  }

  /** Frames the allocator may hand out: distinct, page-aligned, not outstanding. */
  ghost predicate Fresh(frames: seq<nat>, owned: set<nat>) {
    && (forall i, j :: 0 <= i < j < |frames| ==> frames[i] != frames[j])
    && (forall i :: 0 <= i < |frames| ==> frames[i] !in owned && Aligned(frames[i]))
  }

  /** The slot holds a non-zero word, so that a new mapping of it is refused. */
  predicate Occupied(arch: Arch, table: map<nat, Leaf>, p: nat) {
    p in table && !Vacant(arch, table[p])
  }

  ghost predicate FramesFit(s: Space, a: Area, done: nat, frames: seq<nat>) {
    if a.backend == Alloc(true) then
      done <= |frames| <= done + 1 && |frames| <= a.count && Fresh(frames, s.owned)
    else frames == []
  }

  function FrameSet(frames: seq<nat>): set<nat> {
    set f | f in frames
  }

  /** A non-empty area that overlaps none of the present ones. */
  ghost predicate Admissible(s: Space, a: Area) {
    a.count > 0 && forall b :: b in s.areas ==> !b.Overlaps(a)
  }

  /** The effect of handing an admissible area to its backend, which may stop part-way. */
  ghost predicate BackendStep(s: Space, a: Area, done: nat, frames: seq<nat>, denied: bool, s': Space) {
    && done <= a.count
    && FramesFit(s, a, done, frames)
    && (forall p: nat :: a.first <= p < a.first + done ==> !Occupied(s.arch, s.table, p))
    && (done < a.count ==> denied || Occupied(s.arch, s.table, a.first + done))
    && s' == s.(areas := if done == a.count then s.areas + {a} else s.areas,
                table := Fill(s.arch, s.table, a, frames, done),
                owned := s.owned + FrameSet(frames),
                allocs := s.allocs + |frames|)
  }

  /** Adding an area: overlap is rejected, a backend that stops part-way leaves its pages written. */
  ghost predicate MapStep(s: Space, a: Area, reply: Reply, done: nat, frames: seq<nat>, denied: bool, s': Space) {
    if Admissible(s, a) then
      && BackendStep(s, a, done, frames, denied, s')
      && reply == (if done == a.count then Ok else Err(BadState))
    else
      && reply == (if a.count == 0 then Err(InvalidInput) else Err(AlreadyExists))
      && done == 0 && frames == [] && s' == s
  }

  function LinearArea(vaddr: nat, paddr: nat, bytes: nat, flags: MappingFlags): Area {
    Area(PageOf(vaddr), bytes / PAGE_SIZE, flags, Linear(WrapSub(vaddr, paddr)))
  }

  function AllocArea(vaddr: nat, bytes: nat, flags: MappingFlags, populate: bool): Area {
    Area(PageOf(vaddr), bytes / PAGE_SIZE, flags, Alloc(populate))
  }

  /** The call asks for a new area. */
  predicate Maps(e: Event) {
    e.MapLinear? || e.MapAlloc?
  }

  /** The area asked for. */
  function AreaOf(e: Event): Area
    requires Maps(e)
  {
    if e.MapLinear? then LinearArea(e.vaddr, e.paddr, e.bytes, e.flags)
    else AllocArea(e.vaddr, e.bytes, e.flags, e.populate)
  }

  // ----- effects of the unmapping calls

  /** The page is present and belongs to an allocating area: unmapping it gives its frame back. */
  ghost predicate Holds(s: Space, p: nat) {
    PagePresent(s, p) && AllocCovers(s.areas, p)
  }

  /** The frames behind the held pages of a range. */
  ghost function FramesIn(s: Space, lo: nat, hi: nat): set<nat> {
    set p | p in s.table && lo <= p < hi && Holds(s, p) :: s.table[p].frame
  }

  /** An unmapped slot is cleared; whether a slot that was not present is cleared too is left open. */
  ghost predicate Erase(arch: Arch, leaf: Leaf, leaf': Leaf) {
    leaf' == Empty || (leaf' == leaf && !Present(arch, leaf))
  }

  /** Taking the pages from `lo` up to `hi` away from every area. */
  ghost predicate UnmapStep(s: Space, lo: nat, hi: nat, s': Space) {
    && s'.table.Keys == s.table.Keys
    && (forall p :: p in s.table ==>
          if lo <= p < hi && Covers(s.areas, p) then Erase(s.arch, s.table[p], s'.table[p])
          else s'.table[p] == s.table[p])
    && s' == s.(areas := Trim(s.areas, lo, hi),
                table := s'.table,
                owned := s.owned - FramesIn(s, lo, hi),
                deallocs := s.deallocs + |FramesIn(s, lo, hi)|)
  }

  /** A linear area without access rights meets the range: its pages were never present to unmap. */
  ghost predicate Jams(s: Space, lo: nat, hi: nat) {
    exists a :: a in s.areas && a.backend.Linear? && !Presentable(s.arch, a.flags) && a.first < hi && lo < a.End()
  }

  /** Unmapping a range that does not jam; an empty range changes nothing. */
  ghost predicate UnmapRange(s: Space, lo: nat, hi: nat, s': Space) {
    if lo == hi then s' == s else lo < hi && !Jams(s, lo, hi) && UnmapStep(s, lo, hi, s')
  }

  // ----- page faults

  /** The fault is one that lazy allocation may serve. */
  ghost predicate Servable(s: Space, v: nat, access: MappingFlags) {
    && InRange(s, v)
    && var a := Lookup(s.areas, PageOf(v));
       a.Some? && a.value.flags.Contains(access) && a.value.backend == Alloc(false)
  }

  ghost predicate FaultStep(s: Space, v: nat, access: MappingFlags, handled: bool, frames: seq<nat>, denied: bool,
                            s': Space)
  {
    && handled == (Servable(s, v, access) && !denied)
    && if !handled then frames == [] && s' == s
       else
         && |frames| == 1 && Fresh(frames, s.owned)
         && s' == s.(table := s.table[PageOf(v) := Mapped(frames[0], Lookup(s.areas, PageOf(v)).value.flags)],
                     owned := s.owned + {frames[0]},
                     allocs := s.allocs + 1)
  }

  // ----- the machine

  /** The frames the allocator handed out during a call. */
  function Taken(e: Event): set<nat> {
    match e
    case MapAlloc(_, _, _, _, _, _, frames, _) => FrameSet(frames)
    case PageFault(_, _, _, frames, _) => FrameSet(frames)
    case MapLinear(_, _, _, _, _, _, _) => {}
    case Unmap(_, _, _) => {}
    case Clear => {}
  }

  /** The checks made on a byte range before anything is touched. */
  predicate GoodRange(s: Space, vaddr: nat, bytes: nat) {
    ContainsRange(s.base, s.size, vaddr, bytes) && Aligned(vaddr) && Aligned(bytes)
  }

  ghost predicate Step(s: Space, e: Event, s': Space) {
    match e
    case MapLinear(vaddr, paddr, bytes, flags, reply, done, denied) =>
      if GoodRange(s, vaddr, bytes) && Aligned(paddr) then
        MapStep(s, LinearArea(vaddr, paddr, bytes, flags), reply, done, [], denied, s')
      else reply == Err(InvalidInput) && done == 0 && s' == s
    case MapAlloc(vaddr, bytes, flags, populate, reply, done, frames, denied) =>
      if GoodRange(s, vaddr, bytes) then
        MapStep(s, AllocArea(vaddr, bytes, flags, populate), reply, done, frames, denied, s')
      else reply == Err(InvalidInput) && done == 0 && frames == [] && s' == s
    case Unmap(vaddr, bytes, reply) =>
      if GoodRange(s, vaddr, bytes) then
        reply == Ok && UnmapRange(s, PageOf(vaddr), PageOf(vaddr + bytes), s')
      else reply == Err(InvalidInput) && s' == s
    case PageFault(vaddr, access, handled, frames, denied) =>
      FaultStep(s, vaddr, access, handled, frames, denied, s')
    case Clear =>
      UnmapRange(s, 0, PageLimit(s.base, s.size), s')
  }

  // ----- the invariant

  /** What the slot of page `p` of an area holds. */
  predicate LeafOk(s: Space, a: Area, p: nat) {
    && p in s.table
    && match a.backend
       case Linear(offset) => s.table[p] == Mapped(FrameAddr(s.arch, WrapSub(p * PAGE_SIZE, offset)), a.flags)
       case Alloc(populate) =>
         || (!populate && s.table[p] == PLACEHOLDER)
         || (s.table[p].Mapped? && s.table[p].flags == a.flags &&
             (Present(s.arch, s.table[p]) ==> s.table[p].frame in s.owned))
  }

  /** No two pages of allocating areas are backed by the same frame. */
  ghost predicate Exclusive(s: Space) {
    forall p, q :: Holds(s, p) && Holds(s, q) && s.table[p].frame == s.table[q].frame ==> p == q
  }

  ghost predicate AreasOk(s: Space) {
    && Disjoint(s.areas)
    && forall a :: a in s.areas ==>
         a.count > 0 && s.base <= a.first * PAGE_SIZE && a.End() * PAGE_SIZE <= s.base + s.size
  }

  ghost predicate Inv(s: Space) {
    && AreasOk(s)
    && (forall a, p: nat :: a in s.areas && a.Has(p) ==> LeafOk(s, a, p))
    && Exclusive(s)
    && (forall f :: f in s.owned ==> Aligned(f))
    && s.allocs == s.deallocs + |s.owned|
  }
}
