/** The linear and the allocating backend: page loops over the page table and the frame allocator. */
module Backends {
  import opened Flags
  import opened Words
  import opened Entries
  import opened Pte
  import opened Areas
  import opened Spaces
  import opened SpaceInv
  import opened Machine

  // ----- one more page of a mapping call

  /** Writing the next page extends the filled prefix by one. */
  lemma FillNext(arch: Arch, table: map<nat, Leaf>, a: Area, frames: seq<nat>, more: seq<nat>, done: nat)
    requires a.backend == Alloc(true) ==> done <= |frames| && done + 1 <= |frames + more|
    ensures Fill(arch, table, a, frames + more, done + 1) ==
            Fill(arch, table, a, frames, done)[a.first + done := LeafFor(arch, a, frames + more, a.first + done)]
  {
  }

  lemma FillNone(arch: Arch, table: map<nat, Leaf>, a: Area)
    ensures Fill(arch, table, a, [], 0) == table
  {
  }

  /** Every slot of the range is unused. */
  ghost predicate AllUnused(arch: Arch, table: map<nat, Leaf>, lo: nat, hi: nat) {
    forall p: nat :: lo <= p < hi ==> !Occupied(arch, table, p)
  }

  /** The address closure of an area whose backend asks for no frames. */
  function Target(a: Area, p: nat): nat {
    match a.backend
    case Linear(offset) => WrapSub(p * PAGE_SIZE, offset)
    case Alloc(_) => 0
  }

  /** The flags such an area writes: a lazy area writes placeholders. */
  function InitialFlags(a: Area): MappingFlags {
    if a.backend.Linear? then a.flags else NO_FLAGS
  }

  /** One more page of such an area. */
  lemma RegionNext(arch: Arch, table: map<nat, Leaf>, a: Area, done: nat)
    requires a.backend != Alloc(true)
    ensures Fill(arch, table, a, [], done + 1) ==
            Fill(arch, table, a, [], done)[
              a.first + done := Mapped(FrameAddr(arch, Target(a, a.first + done)), InitialFlags(a))]
  {
  }

  /** The next slot was unused when the table lets it be mapped. */
  lemma AllUnusedNext(arch: Arch, table: map<nat, Leaf>, a: Area, frames: seq<nat>, done: nat)
    requires a.backend == Alloc(true) ==> done <= |frames|
    requires AllUnused(arch, table, a.first, a.first + done)
    requires !Occupied(arch, Fill(arch, table, a, frames, done), a.first + done)
    ensures AllUnused(arch, table, a.first, a.first + done + 1)
  {
  }

  lemma OccupiedAhead(arch: Arch, table: map<nat, Leaf>, a: Area, frames: seq<nat>, done: nat)
    requires a.backend == Alloc(true) ==> done <= |frames|
    ensures Occupied(arch, Fill(arch, table, a, frames, done), a.first + done) <==>
            Occupied(arch, table, a.first + done)
  {
  }

  /** Maps a linear area, or the placeholders of a lazy one, page by page until the table refuses. */
  method MapRegion(a: Area, pt: PageTable) returns (ok: bool, ghost done: nat, ghost denied: bool)
    requires pt.Valid() && a.backend != Alloc(true)
    modifies pt
    ensures pt.Valid()
    ensures done <= a.count && (ok <==> done == a.count)
    ensures pt.leaves == Fill(pt.arch, old(pt.leaves), a, [], done)
    ensures AllUnused(pt.arch, old(pt.leaves), a.first, a.first + done)
    ensures done < a.count ==> denied || Occupied(pt.arch, old(pt.leaves), a.first + done)
    ensures pt.refusals == old(pt.refusals) + if denied then 1 else 0
  {
    hide Fill, Occupied;
    done, denied := 0, false;
    ghost var table := pt.leaves;
    FillNone(pt.arch, table, a);
    var p := a.first;
    while p < a.End()
      invariant pt.Valid() && done <= a.count && p == a.first + done
      invariant pt.leaves == Fill(pt.arch, table, a, [], done)
      invariant AllUnused(pt.arch, table, a.first, p)
      invariant pt.refusals == old(pt.refusals) && !denied
    {
      OccupiedAhead(pt.arch, table, a, [], done);
      var r := pt.Map(p, Target(a, p), InitialFlags(a));
      if r != Done {
        denied := r == NoMemory;
        return false, done, denied;
      }
      RegionNext(pt.arch, table, a, done);
      AllUnusedNext(pt.arch, table, a, [], done);
      p, done := p + 1, done + 1;
    }
    ok := true;
  }

  /** Takes a frame and maps one page to it. */
  method PopulatePage(p: nat, flags: MappingFlags, pt: PageTable, hal: Hal)
    returns (ok: bool, ghost taken: seq<nat>, ghost denied: bool)
    requires pt.Valid() && hal.arch == pt.arch
    modifies pt, hal
    ensures pt.Valid() && hal.deallocs == old(hal.deallocs)
    ensures |taken| <= 1 && Fresh(taken, old(hal.owned))
    ensures hal.owned == old(hal.owned) + FrameSet(taken) && hal.allocs == old(hal.allocs) + |taken|
    ensures ok ==> !denied && |taken| == 1 && !Occupied(pt.arch, old(pt.leaves), p)
    ensures ok ==> pt.leaves == old(pt.leaves)[p := Mapped(taken[0], flags)]
    ensures !ok ==> pt.leaves == old(pt.leaves) && (denied || Occupied(pt.arch, old(pt.leaves), p))
    ensures pt.refusals + hal.refusals == old(pt.refusals + hal.refusals) + if denied then 1 else 0
  {
    var f := hal.AllocFrame();
    if f == None {
      assert hal.owned + FrameSet([]) == hal.owned;
      return false, [], true;
    }
    assert FrameSet([f.value]) == {f.value};
    var r := pt.Map(p, f.value, flags);
    return r == Done, [f.value], r == NoMemory;
  }

  /** Table and outstanding frames when `frames` stand behind the first pages of an area. */
  ghost function Stocked(arch: Arch, table: map<nat, Leaf>, owned: set<nat>, a: Area, frames: seq<nat>)
    : (map<nat, Leaf>, set<nat>)
  {
    (Fill(arch, table, a, frames, |frames|), owned + FrameSet(frames))
  }

  /** One more page of a populated area. */
  lemma StockedNext(arch: Arch, table: map<nat, Leaf>, owned: set<nat>, a: Area, frames: seq<nat>, f: nat,
                    mid: map<nat, Leaf>, midOwned: set<nat>)
    requires a.backend == Alloc(true) && (mid, midOwned) == Stocked(arch, table, owned, a, frames)
    ensures (mid[a.first + |frames| := Mapped(f, a.flags)], midOwned + {f}) ==
            Stocked(arch, table, owned, a, frames + [f])
  {
    FillNext(arch, table, a, frames, [f], |frames|);
    assert FrameSet(frames + [f]) == FrameSet(frames) + {f};
    assert owned + FrameSet(frames) + {f} == owned + (FrameSet(frames) + {f});
  }

  /** The first pages of an area have been populated with `frames`. */
  ghost predicate Stocking(arch: Arch, table: map<nat, Leaf>, owned: set<nat>, a: Area, frames: seq<nat>,
                           table': map<nat, Leaf>, owned': set<nat>)
  {
    && Fresh(frames, owned)
    && (table', owned') == Stocked(arch, table, owned, a, frames)
    && AllUnused(arch, table, a.first, a.first + |frames|)
  }

  lemma StockingNone(arch: Arch, table: map<nat, Leaf>, owned: set<nat>, a: Area)
    ensures Stocking(arch, table, owned, a, [], table, owned)
  {
    FillNone(arch, table, a);
    assert owned + FrameSet([]) == owned;
  }

  lemma StockingAhead(arch: Arch, table: map<nat, Leaf>, owned: set<nat>, a: Area, frames: seq<nat>,
                      mid: map<nat, Leaf>, midOwned: set<nat>)
    requires Stocking(arch, table, owned, a, frames, mid, midOwned)
    ensures Occupied(arch, mid, a.first + |frames|) <==> Occupied(arch, table, a.first + |frames|)
    ensures Fresh(frames, owned) && midOwned == owned + FrameSet(frames)
  {
    OccupiedAhead(arch, table, a, frames, |frames|);
  }

  lemma StockingNext(arch: Arch, table: map<nat, Leaf>, owned: set<nat>, a: Area, frames: seq<nat>,
                     mid: map<nat, Leaf>, midOwned: set<nat>, taken: seq<nat>)
    requires a.backend == Alloc(true) && Stocking(arch, table, owned, a, frames, mid, midOwned)
    requires |taken| == 1 && Fresh(taken, midOwned) && !Occupied(arch, mid, a.first + |frames|)
    ensures Stocking(arch, table, owned, a, frames + taken,
                     mid[a.first + |frames| := Mapped(taken[0], a.flags)], midOwned + FrameSet(taken))
  {
    assert taken == [taken[0]] && FrameSet(taken) == {taken[0]};
    FramesTaken(frames, taken, owned);
    AllUnusedNext(arch, table, a, frames, |frames|);
    StockedNext(arch, table, owned, a, frames, taken[0], mid, midOwned);
  }

  /** One round of the loop of `Populate`. */
  method PopulateNext(a: Area, p: nat, pt: PageTable, hal: Hal,
                      ghost table: map<nat, Leaf>, ghost owned: set<nat>, ghost frames: seq<nat>)
    returns (ok: bool, ghost more: seq<nat>, ghost denied: bool)
    requires pt.Valid() && hal.arch == pt.arch && a.backend == Alloc(true) && p == a.first + |frames|
    requires Stocking(pt.arch, table, owned, a, frames, pt.leaves, hal.owned)
    modifies pt, hal
    ensures pt.Valid() && hal.deallocs == old(hal.deallocs) && hal.allocs == old(hal.allocs) + |more| - |frames|
    ensures |frames| <= |more| <= |frames| + 1 && frames == more[..|frames|]
    ensures ok ==> |more| == |frames| + 1 && Stocking(pt.arch, table, owned, a, more, pt.leaves, hal.owned)
    ensures !ok ==> pt.leaves == old(pt.leaves) && hal.owned == owned + FrameSet(more) && Fresh(more, owned)
    ensures !ok ==> denied || Occupied(pt.arch, table, p)
    ensures ok ==> !denied
    ensures pt.refusals + hal.refusals == old(pt.refusals + hal.refusals) + if denied then 1 else 0
  {
    hide Stocking, Fresh, Occupied;
    ghost var mid, midOwned := pt.leaves, hal.owned;
    StockingAhead(pt.arch, table, owned, a, frames, mid, midOwned);
    ghost var taken;
    ok, taken, denied := PopulatePage(p, a.flags, pt, hal);
    more := frames + taken;
    if ok {
      StockingNext(pt.arch, table, owned, a, frames, mid, midOwned, taken);
    } else {
      FramesTaken(frames, taken, owned);
    }
  }

  /** Populates an area: a frame and a mapping per page, stopping at the first refusal. */
  method Populate(a: Area, pt: PageTable, hal: Hal)
    returns (ok: bool, ghost done: nat, ghost frames: seq<nat>, ghost denied: bool)
    requires pt.Valid() && hal.arch == pt.arch && a.backend == Alloc(true)
    modifies pt, hal
    ensures pt.Valid() && hal.deallocs == old(hal.deallocs)
    ensures done <= |frames| <= done + 1 && |frames| <= a.count && (ok <==> done == a.count)
    ensures Fresh(frames, old(hal.owned))
    ensures hal.owned == old(hal.owned) + FrameSet(frames) && hal.allocs == old(hal.allocs) + |frames|
    ensures pt.leaves == Fill(pt.arch, old(pt.leaves), a, frames, done)
    ensures AllUnused(pt.arch, old(pt.leaves), a.first, a.first + done)
    ensures done < a.count ==> denied || Occupied(pt.arch, old(pt.leaves), a.first + done)
    ensures pt.refusals + hal.refusals == old(pt.refusals + hal.refusals) + if denied then 1 else 0
  {
    hide Fill, Fresh, AllUnused, Occupied;
    frames, denied := [], false;
    ghost var table, owned := pt.leaves, hal.owned;
    StockingNone(pt.arch, table, owned, a);
    var p := a.first;
    while p < a.End()
      invariant pt.Valid() && |frames| <= a.count && p == a.first + |frames|
      invariant hal.deallocs == old(hal.deallocs) && hal.allocs == old(hal.allocs) + |frames|
      invariant Stocking(pt.arch, table, owned, a, frames, pt.leaves, hal.owned)
      invariant pt.refusals + hal.refusals == old(pt.refusals + hal.refusals) && !denied
    {
      ghost var more;
      done := |frames|;
      ok, more, denied := PopulateNext(a, p, pt, hal, table, owned, frames);
      if !ok {
        FillPrefix(pt.arch, table, a, frames, more, done);
        return false, done, more, denied;
      }
      frames, p := more, p + 1;
    }
    ok, done := true, |frames|;
  }

  /** Frames beyond the written prefix do not matter for the table. */
  lemma FillPrefix(arch: Arch, table: map<nat, Leaf>, a: Area, frames: seq<nat>, longer: seq<nat>, done: nat)
    requires a.backend == Alloc(true) && done == |frames| <= |longer| && frames == longer[..done]
    ensures Fill(arch, table, a, frames, done) == Fill(arch, table, a, longer, done)
  {
  }

  // ----- unmapping

  /** The frames behind the present pages of a range. */
  ghost function PresentFrames(arch: Arch, table: map<nat, Leaf>, lo: nat, hi: nat): set<nat> {
    set p | p in table && lo <= p < hi && PresentIn(arch, table, p) :: table[p].frame
  }

  /** The present pages of a range have different, outstanding frames: each can be given back once. */
  ghost predicate Returnable(arch: Arch, table: map<nat, Leaf>, owned: set<nat>, lo: nat, hi: nat) {
    && (forall p: nat :: lo <= p < hi && PresentIn(arch, table, p) ==> table[p].frame in owned)
    && (forall p: nat, q: nat ::
          (lo <= p < q < hi && PresentIn(arch, table, p) && PresentIn(arch, table, q)) ==>
          table[p].frame != table[q].frame)
  }

  /** The slots of the range have been erased, all others kept. */
  ghost predicate Erased(arch: Arch, table: map<nat, Leaf>, lo: nat, hi: nat, table': map<nat, Leaf>) {
    && table'.Keys == table.Keys
    && forall p :: p in table ==>
         if lo <= p < hi then Erase(arch, table[p], table'[p]) else table'[p] == table[p]
  }

  /** Frames that can be given back can be given back to an allocator with more frames outstanding. */
  lemma ReturnableFromAll(arch: Arch, table: map<nat, Leaf>, owned: set<nat>, all: set<nat>, lo: nat, hi: nat)
    requires Returnable(arch, table, owned, lo, hi) && owned <= all
    ensures Returnable(arch, table, all, lo, hi) && PresentFrames(arch, table, lo, hi) <= owned
  {
  }

  lemma PresentFramesGrow(arch: Arch, table: map<nat, Leaf>, lo: nat, p: nat)
    requires lo <= p
    ensures PresentFrames(arch, table, lo, p + 1) ==
            PresentFrames(arch, table, lo, p) + if PresentIn(arch, table, p) then {table[p].frame} else {}
  {
  }

  lemma PresentFramesFresh(arch: Arch, table: map<nat, Leaf>, owned: set<nat>, lo: nat, p: nat, hi: nat)
    requires lo <= p < hi && Returnable(arch, table, owned, lo, hi) && PresentIn(arch, table, p)
    ensures table[p].frame in owned - PresentFrames(arch, table, lo, p)
  {
  }

  /** One page further, one frame more, and a new one. */
  lemma PresentFramesNext(arch: Arch, table: map<nat, Leaf>, owned: set<nat>, lo: nat, p: nat, hi: nat)
    requires lo <= p < hi && Returnable(arch, table, owned, lo, hi)
    ensures var before, after := PresentFrames(arch, table, lo, p), PresentFrames(arch, table, lo, p + 1);
            if PresentIn(arch, table, p)
            then && table[p].frame in owned - before
                 && owned - before - {table[p].frame} == owned - after
                 && |after| == |before| + 1
            else after == before
  {
    PresentFramesGrow(arch, table, lo, p);
    if PresentIn(arch, table, p) {
      PresentFramesFresh(arch, table, owned, lo, p, hi);
    }
  }

  lemma ErasedNone(arch: Arch, table: map<nat, Leaf>, lo: nat)
    ensures Erased(arch, table, lo, lo, table)
  {
  }

  lemma ErasedOne(arch: Arch, table: map<nat, Leaf>, p: nat, table': map<nat, Leaf>)
    requires table'.Keys == table.Keys && (forall q :: q in table' && q != p ==> table'[q] == table[q])
    requires p in table' ==> Erase(arch, table[p], table'[p])
    ensures Erased(arch, table, p, p + 1, table')
  {
  }

  lemma ErasedNext(arch: Arch, table: map<nat, Leaf>, lo: nat, p: nat, mid: map<nat, Leaf>, table': map<nat, Leaf>)
    requires lo <= p && Erased(arch, table, lo, p, mid) && Erased(arch, mid, p, p + 1, table')
    ensures Erased(arch, table, lo, p + 1, table')
  {
  }

  /** The next page is still as it was. */
  lemma SameAhead(arch: Arch, table: map<nat, Leaf>, lo: nat, p: nat, mid: map<nat, Leaf>)
    requires Erased(arch, table, lo, p, mid)
    ensures PresentIn(arch, mid, p) <==> PresentIn(arch, table, p)
    ensures PresentIn(arch, table, p) ==> mid[p] == table[p]
  {
  }

  /** Unmaps one page and gives its frame back, if it had one. */
  method ReleasePage(p: nat, pt: PageTable, hal: Hal) returns (ok: bool)
    requires pt.Valid() && (PresentIn(pt.arch, pt.leaves, p) ==> pt.leaves[p].frame in hal.owned)
    modifies pt, hal
    ensures pt.Valid() && ok && hal.allocs == old(hal.allocs)
    ensures Erased(pt.arch, old(pt.leaves), p, p + 1, pt.leaves)
    ensures if PresentIn(pt.arch, old(pt.leaves), p)
            then hal.owned == old(hal.owned) - {old(pt.leaves)[p].frame} && hal.deallocs == old(hal.deallocs) + 1
            else hal.owned == old(hal.owned) && hal.deallocs == old(hal.deallocs)
  {
    var r, huge := pt.Unmap(p);
    ok := true;
    if r.Some? {
      ok := !huge;
      if ok {
        hal.DeallocFrame(r.value);
      }
    }
  }

  /** What is left of the outstanding frames, and how many were given back, when a range is released. */
  ghost function Settled(arch: Arch, table: map<nat, Leaf>, owned: set<nat>, lo: nat, hi: nat): (set<nat>, int) {
    (owned - PresentFrames(arch, table, lo, hi), |PresentFrames(arch, table, lo, hi)|)
  }

  /** The pages of a range have been erased and their frames given back, one deallocation each. */
  ghost predicate Released(arch: Arch, table: map<nat, Leaf>, owned: set<nat>, lo: nat, hi: nat,
                           table': map<nat, Leaf>, owned': set<nat>, freed: int)
  {
    && Erased(arch, table, lo, hi, table')
    && (owned', freed) == Settled(arch, table, owned, lo, hi)
  }

  lemma ReleasedNone(arch: Arch, table: map<nat, Leaf>, owned: set<nat>, lo: nat)
    ensures Released(arch, table, owned, lo, lo, table, owned, 0)
  {
    assert PresentFrames(arch, table, lo, lo) == {};
    assert owned - {} == owned;
  }

  lemma NextReturnable(arch: Arch, table: map<nat, Leaf>, owned: set<nat>, lo: nat, p: nat, hi: nat,
                       mid: map<nat, Leaf>, midOwned: set<nat>, freed: int)
    requires lo <= p < hi && Returnable(arch, table, owned, lo, hi)
    requires Released(arch, table, owned, lo, p, mid, midOwned, freed)
    ensures PresentIn(arch, mid, p) ==> mid[p].frame in midOwned
  {
  }

  lemma ReleasedNext(arch: Arch, table: map<nat, Leaf>, owned: set<nat>, lo: nat, p: nat, hi: nat,
                     mid: map<nat, Leaf>, midOwned: set<nat>, freed: int,
                     table': map<nat, Leaf>, owned': set<nat>, freed': int)
    requires lo <= p < hi && Returnable(arch, table, owned, lo, hi)
    requires Released(arch, table, owned, lo, p, mid, midOwned, freed)
    requires Erased(arch, mid, p, p + 1, table')
    requires if PresentIn(arch, mid, p) then owned' == midOwned - {mid[p].frame} && freed' == freed + 1
             else owned' == midOwned && freed' == freed
    ensures Released(arch, table, owned, lo, p + 1, table', owned', freed')
  {
    SameAhead(arch, table, lo, p, mid);
    PresentFramesNext(arch, table, owned, lo, p, hi);
    ErasedNext(arch, table, lo, p, mid, table');
  }

  /** Unmaps the pages of an allocating area; pages that were never backed are fine. */
  method UnmapAlloc(lo: nat, hi: nat, pt: PageTable, hal: Hal) returns (ok: bool)
    requires pt.Valid() && lo <= hi && Returnable(pt.arch, pt.leaves, hal.owned, lo, hi)
    modifies pt, hal
    ensures pt.Valid() && ok && hal.allocs == old(hal.allocs)
    ensures Released(pt.arch, old(pt.leaves), old(hal.owned), lo, hi,
                     pt.leaves, hal.owned, hal.deallocs - old(hal.deallocs))
  {
    hide Released, Returnable;
    ghost var table, owned, start := pt.leaves, hal.owned, hal.deallocs;
    ok := true;
    var p := lo;
    ReleasedNone(pt.arch, table, owned, lo);
    while ok && p < hi
      invariant pt.Valid() && ok && lo <= p <= hi && hal.allocs == old(hal.allocs)
      invariant Released(pt.arch, table, owned, lo, p, pt.leaves, hal.owned, hal.deallocs - start)
      decreases hi - p
    {
      ok := ReleaseNext(lo, p, hi, pt, hal, table, owned, start);
      p := p + 1;
    }
    assert p == hi;
  }

  /** One round of the loop of `UnmapAlloc`. */
  method ReleaseNext(lo: nat, p: nat, hi: nat, pt: PageTable, hal: Hal,
                     ghost table: map<nat, Leaf>, ghost owned: set<nat>, ghost start: nat) returns (ok: bool)
    requires pt.Valid() && lo <= p < hi && Returnable(pt.arch, table, owned, lo, hi)
    requires Released(pt.arch, table, owned, lo, p, pt.leaves, hal.owned, hal.deallocs - start)
    modifies pt, hal
    ensures pt.Valid() && ok && hal.allocs == old(hal.allocs)
    ensures Released(pt.arch, table, owned, lo, p + 1, pt.leaves, hal.owned, hal.deallocs - start)
  {
    hide Released, Returnable, Erased;
    ghost var mid, midOwned, freed := pt.leaves, hal.owned, hal.deallocs - start;
    NextReturnable(pt.arch, table, owned, lo, p, hi, mid, midOwned, freed);
    ok := ReleasePage(p, pt, hal);
    ReleasedNext(pt.arch, table, owned, lo, p, hi, mid, midOwned, freed,
                 pt.leaves, hal.owned, hal.deallocs - start);
  }

  /** Unmaps the pages of a linear area; a page that is not present stops the call. */
  method UnmapLinear(lo: nat, hi: nat, pt: PageTable) returns (ok: bool)
    requires pt.Valid() && lo <= hi
    modifies pt
    ensures pt.Valid()
    ensures ok <==> forall p: nat :: lo <= p < hi ==> PresentIn(pt.arch, old(pt.leaves), p)
    ensures ok ==> Erased(pt.arch, old(pt.leaves), lo, hi, pt.leaves)
  {
    hide Erased, Erase, PageTable.Valid;
    ghost var table := pt.leaves;
    ErasedNone(pt.arch, table, lo);
    var p := lo;
    while p < hi
      invariant pt.Valid() && lo <= p <= hi
      invariant forall q: nat :: lo <= q < p ==> PresentIn(pt.arch, table, q)
      invariant Erased(pt.arch, table, lo, p, pt.leaves)
    {
      ghost var mid := pt.leaves;
      SameAhead(pt.arch, table, lo, p, mid);
      var r, huge := pt.Unmap(p);
      if r == None {
        assert !PresentIn(pt.arch, table, p);
        return false;
      }
      ErasedOne(pt.arch, mid, p, pt.leaves);
      ErasedNext(pt.arch, table, lo, p, mid, pt.leaves);
      p := p + 1;
    }
    ok := true;
  }
}
