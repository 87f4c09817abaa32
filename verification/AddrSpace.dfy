/** The guest address space as the program runs it: areas, page table and allocator, changed in place. */
module AddrSpace {
  import opened Flags
  import opened Words
  import opened Pte
  import opened Areas
  import opened Spaces
  import opened SpaceInv
  import opened Machine
  import opened Backends
  import opened Withdrawal
  import opened Tiling
  import opened Calls

  /** What the two page loops promise is the backend step of the machine. */
  lemma BackendEffect(s: Space, a: Area, done: nat, frames: seq<nat>, denied: bool, s': Space)
    requires done <= a.count && FramesFit(s, a, done, frames)
    requires AllUnused(s.arch, s.table, a.first, a.first + done)
    requires done < a.count ==> denied || Occupied(s.arch, s.table, a.first + done)
    requires s'.table == Fill(s.arch, s.table, a, frames, done)
    requires s'.owned == s.owned + FrameSet(frames)
    requires s' == s.(areas := if done == a.count then s.areas + {a} else s.areas, table := s'.table,
                      owned := s'.owned, allocs := s.allocs + |frames|)
    ensures BackendStep(s, a, done, frames, denied, s')
  {
  }

  // ----- one allocator, several spaces

  /** A call that was handed new frames leaves what others have outstanding as it was. */
  lemma TakenIsOwn(all: set<nat>, own: set<nat>, frames: seq<nat>)
    requires own <= all && Fresh(frames, all)
    ensures Fresh(frames, own) && FrameSet(frames) !! all
    ensures (all + FrameSet(frames)) - (own + FrameSet(frames)) == all - own
  {
  }

  lemma NoneTaken(own: set<nat>)
    ensures FrameSet([]) == {} && own + FrameSet([]) == own
  {
  }

  /** So does a call that gave back frames of its own. */
  lemma GivenIsOwn(all: set<nat>, own: set<nat>, given: set<nat>)
    requires given <= own <= all
    ensures own - given <= all - given && (all - given) - (own - given) == all - own
  {
  }

  /**
   * The allocator may serve other address spaces too. What this one has outstanding, and how many calls moved
   * it, is its own share of the allocator's state.
   */
  class AddrSpace {
    const base: nat
    const size: nat
    var areas: set<Area>
    const pt: PageTable
    const hal: Hal
    ghost var owned: set<nat>
    ghost var allocs: nat
    ghost var deallocs: nat

    /** The state of the machine that this object is in. */
    ghost function Model(): Space
      reads this, pt
    {
      Space.Space(pt.arch, base, size, areas, pt.leaves, owned, allocs, deallocs)
    }

    ghost predicate Valid()
      reads this, pt, hal
    {
      pt.Valid() && hal.arch == pt.arch && owned <= hal.owned && Inv(Model())
    }

    /** The rest of the allocator's state: frames outstanding elsewhere, and calls made for others. */
    ghost function Elsewhere(): (set<nat>, int, int)
      reads this, hal
    {
      (hal.owned - owned, hal.allocs - allocs, hal.deallocs - deallocs)
    }

    /** How often memory was refused so far. */
    ghost function Refusals(): nat
      reads pt, hal
    {
      pt.refusals + hal.refusals
    }

    constructor NewEmpty(hal: Hal, base: nat, size: nat)
      ensures Valid() && Model() == Spaces.NewEmpty(hal.arch, base, size)
      ensures this.base == base && this.size == size && areas == {} && pt.leaves == map[]
      ensures fresh(pt) && this.hal == hal
    {
      this.base, this.size := base, size;
      areas := {};
      pt := new PageTable(hal.arch);
      this.hal := hal;
      owned, allocs, deallocs := {}, 0, 0;
    }

    /** The area set hands a new area to its backend and keeps it if the backend succeeds. */
    method AddArea(a: Area) returns (reply: Reply, ghost done: nat, ghost frames: seq<nat>, ghost denied: bool)
      requires Valid() && FitsRange(Model(), a)
      modifies this, pt, hal
      ensures Valid() && MapStep(old(Model()), a, reply, done, frames, denied, Model())
      ensures FrameSet(frames) !! old(hal.owned) && Elsewhere() == old(Elsewhere())
      ensures Refusals() == old(Refusals()) + if denied then 1 else 0
    {
      done, frames, denied := 0, [], false;
      if a.count == 0 {
        return Err(InvalidInput), done, frames, denied;
      }
      if exists b :: b in areas && b.Overlaps(a) {
        return Err(AlreadyExists), done, frames, denied;
      }
      var ok;
      ok, done, frames, denied := RunBackend(a);
      reply := if ok then Ok else Err(BadState);
    }

    /** The page loop of the backend of an area. */
    method ServeBackend(a: Area) returns (ok: bool, ghost done: nat, ghost frames: seq<nat>, ghost denied: bool)
      requires pt.Valid() && hal.arch == pt.arch && owned <= hal.owned
      modifies this`owned, this`allocs, pt, hal
      ensures pt.Valid() && owned <= hal.owned && Elsewhere() == old(Elsewhere())
      ensures done <= a.count && (ok <==> done == a.count) && FramesFit(old(Model()), a, done, frames)
      ensures pt.leaves == Fill(pt.arch, old(pt.leaves), a, frames, done)
      ensures owned == old(owned) + FrameSet(frames) && allocs == old(allocs) + |frames|
      ensures FrameSet(frames) !! old(hal.owned)
      ensures AllUnused(pt.arch, old(pt.leaves), a.first, a.first + done)
      ensures done < a.count ==> denied || Occupied(pt.arch, old(pt.leaves), a.first + done)
      ensures Refusals() == old(Refusals()) + if denied then 1 else 0
    {
      hide Fill, Fresh, AllUnused, Occupied, FrameSet;
      frames := [];
      if a.backend == Alloc(true) {
        ok, done, frames, denied := Populate(a, pt, hal);
        TakenIsOwn(old(hal.owned), owned, frames);
        owned, allocs := owned + FrameSet(frames), allocs + |frames|;
      } else {
        ok, done, denied := MapRegion(a, pt);
        NoneTaken(owned);
      }
    }

    /** Runs the backend of an admissible area. */
    method RunBackend(a: Area) returns (ok: bool, ghost done: nat, ghost frames: seq<nat>, ghost denied: bool)
      requires Valid() && FitsRange(Model(), a) && Admissible(Model(), a)
      modifies this, pt, hal
      ensures Valid() && BackendStep(old(Model()), a, done, frames, denied, Model())
      ensures ok <==> done == a.count
      ensures FrameSet(frames) !! old(hal.owned) && Elsewhere() == old(Elsewhere())
      ensures Refusals() == old(Refusals()) + if denied then 1 else 0
    {
      hide Inv, Fill, Fresh, FramesFit, AllUnused, Occupied, BackendStep, FrameSet;
      ghost var s := Model();
      ok, done, frames, denied := ServeBackend(a);
      if ok {
        areas := areas + {a};
      }
      BackendEffect(s, a, done, frames, denied, Model());
      MapKeepsInv(s, a, done, frames, denied, Model());
    }

    method MapLinear(vaddr: nat, paddr: nat, bytes: nat, flags: MappingFlags) returns (reply: Reply, ghost e: Event)
      requires Valid() && vaddr + bytes < WORD_LIMIT && paddr < WORD_LIMIT
      modifies this, pt, hal
      ensures Valid() && Step(old(Model()), e, Model())
      ensures Elsewhere() == old(Elsewhere())
      ensures e.MapLinear? && e == Event.MapLinear(vaddr, paddr, bytes, flags, reply, e.done, e.denied)
      ensures Refusals() == old(Refusals()) + if e.denied then 1 else 0
    {
      hide Inv, Fill, Fresh, Admissible;
      if !ContainsRange(base, size, vaddr, bytes) || !Aligned(vaddr) || !Aligned(paddr) || !Aligned(bytes) {
        reply := Err(InvalidInput);
        e := Event.MapLinear(vaddr, paddr, bytes, flags, reply, 0, false);
        return;
      }
      var a := Area(PageOf(vaddr), bytes / PAGE_SIZE, flags, Linear(WrapSub(vaddr, paddr)));
      GoodRangeFits(Model(), vaddr, bytes, a);
      ghost var done, frames, denied;
      reply, done, frames, denied := AddArea(a);
      e := Event.MapLinear(vaddr, paddr, bytes, flags, reply, done, denied);
    }

    method MapAlloc(vaddr: nat, bytes: nat, flags: MappingFlags, populate: bool) returns (reply: Reply, ghost e: Event)
      requires Valid() && vaddr + bytes < WORD_LIMIT
      modifies this, pt, hal
      ensures Valid() && Step(old(Model()), e, Model())
      ensures Taken(e) !! old(hal.owned) && Elsewhere() == old(Elsewhere())
      ensures e.MapAlloc? && e == Event.MapAlloc(vaddr, bytes, flags, populate, reply, e.done, e.frames, e.denied)
      ensures Refusals() == old(Refusals()) + if e.denied then 1 else 0
    {
      hide Inv, BackendStep, Admissible;
      if !ContainsRange(base, size, vaddr, bytes) || !Aligned(vaddr) || !Aligned(bytes) {
        reply := Err(InvalidInput);
        e := Event.MapAlloc(vaddr, bytes, flags, populate, reply, 0, [], false);
        return;
      }
      var a := Area(PageOf(vaddr), bytes / PAGE_SIZE, flags, Alloc(populate));
      GoodRangeFits(Model(), vaddr, bytes, a);
      ghost var done, frames, denied;
      reply, done, frames, denied := AddArea(a);
      e := Event.MapAlloc(vaddr, bytes, flags, populate, reply, done, frames, denied);
    }

    /** Unmaps pages of an allocating area and gives back their frames, which are this space's own. */
    method ReleaseOwn(lo: nat, hi: nat) returns (ok: bool)
      requires pt.Valid() && lo <= hi && owned <= hal.owned && Returnable(pt.arch, pt.leaves, owned, lo, hi)
      modifies this`owned, this`deallocs, pt, hal
      ensures pt.Valid() && ok && owned <= hal.owned && Elsewhere() == old(Elsewhere())
      ensures Released(pt.arch, old(pt.leaves), old(owned), lo, hi, pt.leaves, owned, deallocs - old(deallocs))
    {
      hide Returnable, Erased, PresentFrames;
      ghost var given := PresentFrames(pt.arch, pt.leaves, lo, hi);
      ReturnableFromAll(pt.arch, pt.leaves, owned, hal.owned, lo, hi);
      GivenIsOwn(hal.owned, owned, given);
      ok := UnmapAlloc(lo, hi, pt, hal);
      owned, deallocs := owned - given, deallocs + |given|;
    }

    /** Unmaps the part of one area that lies in the range. */
    method WithdrawArea(a: Area, lo: nat, hi: nat, ghost s: Space, ghost gone: set<Area>) returns (ok: bool)
      requires pt.Valid() && pt.arch == s.arch && Inv(s) && gone <= s.areas && a in s.areas && a !in gone
      requires owned <= hal.owned && Withdrawn(s, gone, lo, hi, pt.leaves, owned, deallocs - s.deallocs)
      modifies this`owned, this`deallocs, pt, hal
      ensures pt.Valid() && owned <= hal.owned && Elsewhere() == old(Elsewhere())
      ensures ok <==> !(a.backend.Linear? && !Presentable(s.arch, a.flags) && Lower(a, lo) < Upper(a, hi))
      ensures ok ==> Withdrawn(s, gone + {a}, lo, hi, pt.leaves, owned, deallocs - s.deallocs)
    {
      hide Withdrawn, LeafOk, Exclusive, Disjoint, Returnable, Elsewhere;
      ghost var table, held, freed := pt.leaves, owned, deallocs - s.deallocs;
      var l, u := Lower(a, lo), Upper(a, hi);
      if u <= l {
        ok := true;
        assert OwnFrames(s, a, lo, hi) == {};
      } else if a.backend.Linear? {
        LinearPresence(s, gone, a, lo, hi, table, held, freed);
        assert PresentIn(s.arch, table, l) <==> Presentable(s.arch, a.flags);
        ok := UnmapLinear(l, u, pt);
      } else {
        OwnReturnable(s, gone, a, lo, hi, table, held, freed);
        OwnFramesNow(s, gone, a, lo, hi, table, held, freed);
        ok := ReleaseOwn(l, u);
      }
      if ok {
        WithdrawOne(s, gone, a, lo, hi, table, held, freed, pt.leaves, owned, deallocs - s.deallocs);
      }
    }

    /** Unmaps the part of the range in each area, up to one that cannot be unmapped. */
    method WithdrawAreas(lo: nat, hi: nat) returns (ok: bool)
      requires Valid() && lo < hi
      modifies this`owned, this`deallocs, pt, hal
      ensures pt.Valid() && owned <= hal.owned && Elsewhere() == old(Elsewhere())
      ensures ok <==> !Jams(old(Model()), lo, hi)
      ensures ok ==> Withdrawn(old(Model()), areas, lo, hi, pt.leaves, owned, deallocs - old(deallocs))
    {
      ghost var s := Model();
      hide Withdrawn, Inv, Jams, Elsewhere;
      var todo := areas;
      WithdrawnNone(s, lo, hi);
      NoneJams(s, lo, hi);
      assert s.areas - todo == {};
      while todo != {}
        invariant pt.Valid() && todo <= s.areas && owned <= hal.owned && Elsewhere() == old(Elsewhere())
        invariant Withdrawn(s, s.areas - todo, lo, hi, pt.leaves, owned, deallocs - s.deallocs)
        invariant !Jams(s.(areas := s.areas - todo), lo, hi)
      {
        var a :| a in todo;
        ok := WithdrawArea(a, lo, hi, s, s.areas - todo);
        OneMoreJams(s, s.areas - todo, a, lo, hi);
        if !ok {
          return;
        }
        assert s.areas - (todo - {a}) == s.areas - todo + {a};
        todo := todo - {a};
      }
      assert s.areas - todo == s.areas && s.(areas := s.areas) == s;
      ok := true;
    }

    /**
     * The area set unmaps a range: each area loses its part of the range and is removed, shrunk or split.
     * It fails exactly when a linear area in the way has no access rights.
     */
    method Withdraw(lo: nat, hi: nat) returns (ok: bool)
      requires Valid() && lo < hi
      modifies this, pt, hal
      ensures ok <==> !Jams(old(Model()), lo, hi)
      ensures owned <= hal.owned && Elsewhere() == old(Elsewhere())
      ensures ok ==> Valid() && UnmapStep(old(Model()), lo, hi, Model())
    {
      hide Withdrawn, UnmapStep, Trim, Inv, Jams;
      ghost var s := Model();
      ok := WithdrawAreas(lo, hi);
      if ok {
        areas := Trim(areas, lo, hi);
        WithdrawnAll(s, lo, hi, Model(), deallocs - s.deallocs);
      }
    }

    method Unmap(vaddr: nat, bytes: nat) returns (reply: Reply)
      requires Valid() && vaddr + bytes < WORD_LIMIT
      modifies this, pt, hal
      ensures reply == Err(BadState) <==>
              !BadRange(old(Model()), vaddr, bytes) && bytes > 0 &&
              Jams(old(Model()), PageOf(vaddr), PageOf(vaddr + bytes))
      ensures owned <= hal.owned && Elsewhere() == old(Elsewhere())
      ensures reply == Err(InvalidInput) <==> BadRange(old(Model()), vaddr, bytes)
      ensures reply != Err(BadState) ==> Valid() && Step(old(Model()), Event.Unmap(vaddr, bytes, reply), Model())
    {
      hide Inv, UnmapStep, Jams;
      if !ContainsRange(base, size, vaddr, bytes) || !Aligned(vaddr) || !Aligned(bytes) {
        return Err(InvalidInput);
      }
      if bytes == 0 {
        return Ok;
      }
      var ok := Withdraw(PageOf(vaddr), PageOf(vaddr + bytes));
      reply := if ok then Ok else Err(BadState);
    }

    /** Removes every mapping. A result of false stands for the panic of the unwrapped error. */
    method Clear() returns (completed: bool)
      requires Valid()
      modifies this, pt, hal
      ensures owned <= hal.owned && Elsewhere() == old(Elsewhere())
      ensures completed <==> !Jams(old(Model()), 0, PageLimit(base, size))
      ensures completed ==> Valid() && Step(old(Model()), Event.Clear, Model())
    {
      hide Inv, UnmapStep, Jams;
      completed := Withdraw(0, PageLimit(base, size));
    }

    /** Looks up the area of a page. */
    method Find(p: nat) returns (r: Option<Area>)
      requires Disjoint(areas)
      ensures r == Lookup(areas, p)
    {
      if a :| a in areas && a.Has(p) {
        r := Some(a);
      } else {
        r := None;
      }
    }

    /** Takes a frame and puts it behind a page that has a slot. */
    method BackPage(p: nat, flags: MappingFlags) returns (f: Option<nat>)
      requires pt.Valid() && hal.arch == pt.arch && owned <= hal.owned && p in pt.leaves
      modifies this`owned, this`allocs, pt, hal
      ensures pt.Valid() && owned <= hal.owned && Elsewhere() == old(Elsewhere())
      ensures Refusals() == old(Refusals()) + if f == None then 1 else 0
      ensures match f
              case None => owned == old(owned) && allocs == old(allocs) && pt.leaves == old(pt.leaves)
              case Some(g) =>
                && Fresh([g], old(owned)) && FrameSet([g]) !! old(hal.owned)
                && owned == old(owned) + {g} && allocs == old(allocs) + 1
                && pt.leaves == old(pt.leaves)[p := Mapped(g, flags)]
    {
      f := hal.AllocFrame();
      if f.Some? {
        TakenIsOwn(old(hal.owned), owned, [f.value]);
        assert FrameSet([f.value]) == {f.value};
        owned, allocs := owned + {f.value}, allocs + 1;
        var ok := pt.Remap(p, f.value, flags);
      }
    }

    method HandlePageFault(vaddr: nat, access: MappingFlags) returns (handled: bool, ghost e: Event)
      requires Valid()
      modifies this, pt, hal
      ensures Valid() && Step(old(Model()), e, Model())
      ensures Taken(e) !! old(hal.owned) && Elsewhere() == old(Elsewhere())
      ensures e.PageFault? && e == PageFault(vaddr, access, handled, e.frames, e.denied)
      ensures Refusals() == old(Refusals()) + if e.denied then 1 else 0
    {
      hide LeafOk, Exclusive, Disjoint, PageTable.Valid;
      ghost var s := Model();
      e := PageFault(vaddr, access, false, [], false);
      if !(base <= vaddr < base + size) {
        return false, e;
      }
      var found := Find(PageOf(vaddr));
      if found == None || !found.value.flags.Contains(access) || found.value.backend != Alloc(false) {
        return false, e;
      }
      var a := found.value;
      SlotExists(s, a, PageOf(vaddr));
      var f := BackPage(PageOf(vaddr), a.flags);
      if f == None {
        e := PageFault(vaddr, access, false, [], true);
        return false, e;
      }
      handled := true;
      e := PageFault(vaddr, access, true, [f.value], false);
      FaultKeepsInv(s, vaddr, access, true, [f.value], false, Model());
    }

    method Translate(vaddr: nat) returns (r: Option<nat>)
      requires Valid()
      ensures r == Spaces.Translate(Model(), vaddr)
    {
      hide Inv, PageTable.Valid;
      if !(base <= vaddr < base + size) {
        return None;
      }
      var frame := pt.Query(PageOf(vaddr));
      r := match frame case None => None case Some(f) => Some(f + vaddr % PAGE_SIZE);
    }

    method TranslateAndGetLimit(vaddr: nat) returns (r: Option<(nat, nat)>)
      requires Valid()
      ensures r == Spaces.TranslateAndGetLimit(Model(), vaddr)
    {
      hide LeafOk, Exclusive, Disjoint, PageTable.Valid;
      if !(base <= vaddr < base + size) {
        return None;
      }
      var found := Find(PageOf(vaddr));
      if found == None {
        return None;
      }
      var frame := pt.Query(PageOf(vaddr));
      r := match frame case None => None case Some(f) => Some((f + vaddr % PAGE_SIZE, found.value.Size()));
    }

    /** The loop over the pages of a guest range; it stops at a page that is not present. */
    method CollectSlices(vaddr: nat, end: nat) returns (r: Buffer)
      requires pt.Valid() && vaddr <= end
      ensures r != NotFound
      ensures r.Found? ==> Tiles(Model(), r.slices, vaddr, end)
      ensures r.Panicked? <==> HasGap(Model(), vaddr, end - vaddr)
    {
      hide Tiles, HasGap, PageTable.Valid;
      ghost var s := Model();
      var start := vaddr;
      var slices: seq<Slice> := [];
      TilesNone(s, vaddr);
      while start < end
        invariant vaddr <= start <= end && (start == vaddr || start == end || Aligned(start))
        invariant Tiles(s, slices, vaddr, start)
      {
        var frame := pt.Query(PageOf(start));
        if frame == None {
          GapAt(s, vaddr, end - vaddr, start);
          return Panicked;
        }
        var next := (PageOf(start) + 1) * PAGE_SIZE;
        PageStartAligned(PageOf(start) + 1);
        var endVa := if next < end then next else end;
        var slice := Slice(frame.value + start % PAGE_SIZE, endVa - start);
        TilesExtend(s, slices, vaddr, start, slice, endVa);
        slices := slices + [slice];
        start := endVa;
      }
      TilesNoGap(s, slices, vaddr, end);
      r := Found(slices);
    }

    /** Collects the host slices behind a guest range, page by page. */
    method TranslatedByteBuffer(vaddr: nat, len: nat) returns (r: Buffer)
      requires Valid() && vaddr + len < WORD_LIMIT
      ensures r == NotFound <==> !Accepted(Model(), vaddr, len)
      ensures r.Panicked? <==> Accepted(Model(), vaddr, len) && HasGap(Model(), vaddr, len)
      ensures r.Found? ==> Tiles(Model(), r.slices, vaddr, vaddr + len)
      ensures forall a :: a in areas && Backs(pt.arch, a, vaddr, len) ==> r.Found?
    {
      hide Tiles, HasGap, LeafOk, Exclusive, Disjoint;
      forall a | a in areas && Backs(pt.arch, a, vaddr, len)
        ensures Accepted(Model(), vaddr, len) && !HasGap(Model(), vaddr, len)
      {
        BackedRange(Model(), a, vaddr, len);
      }
      if !(base <= vaddr < base + size) {
        return NotFound;
      }
      var found := Find(PageOf(vaddr));
      if found == None || len > found.value.Size() {
        return NotFound;
      }
      r := CollectSlices(vaddr, vaddr + len);
    }
  }

  /** Creates an empty address space; `None` stands for the reply that there is no memory for the root table. */
  method TryNewEmpty(hal: Hal, base: nat, size: nat) returns (r: Option<AddrSpace>)
    ensures r.Some? ==>
              && fresh(r.value) && fresh(r.value.pt) && r.value.hal == hal
              && r.value.Valid() && r.value.Model() == Spaces.NewEmpty(hal.arch, base, size)
  {
    var starved: bool := *;
    if starved {
      return None;
    }
    var space := new AddrSpace.NewEmpty(hal, base, size);
    r := Some(space);
  }
}
