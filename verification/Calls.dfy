/** What each call replies and leaves behind, in bytes and page numbers. */
module Calls {
  import opened Flags
  import opened Pte
  import opened Areas
  import opened Spaces
  import opened SpaceInv
  import opened Tiling

  /** A new address space spans the range asked for and holds nothing. */
  lemma NewSpace(arch: Arch, base: nat, size: nat)
    ensures var s := NewEmpty(arch, base, size);
            && s.arch == arch && s.base == base && s.size == size
            && s.areas == {} && s.table == map[] && s.owned == {} && s.allocs == 0 && s.deallocs == 0
  {
  }

  // ----- mapping and unmapping

  /** A range of bytes that is not whole pages, or does not lie inside the range of the space. */
  predicate BadRange(s: Space, vaddr: nat, bytes: nat) {
    vaddr % 4096 != 0 || bytes % 4096 != 0 || vaddr < s.base || s.base + s.size < vaddr + bytes
  }

  /** The area and the range have a byte in common. */
  predicate Meets(a: Area, vaddr: nat, bytes: nat) {
    a.first * 4096 < vaddr + bytes && vaddr < (a.first + a.count) * 4096
  }

  /**
   * Each reply of a mapping call has its exact cause: a bad or empty range or an unaligned target, a byte that some
   * area already has, or a page loop that stopped early.
   */
  lemma MapReply(s: Space, e: Event, s': Space)
    requires Inv(s) && Step(s, e, s') && Maps(e)
    ensures e.reply == Err(InvalidInput) <==>
            BadRange(s, e.vaddr, e.bytes) || e.bytes == 0 || (e.MapLinear? && e.paddr % 4096 != 0)
    ensures e.reply == Err(AlreadyExists) <==>
            e.reply != Err(InvalidInput) && exists a :: a in s.areas && Meets(a, e.vaddr, e.bytes)
    ensures e.reply == Err(BadState) <==>
            e.reply != Err(InvalidInput) && e.reply != Err(AlreadyExists) && e.done < e.bytes / 4096
    ensures e.reply == Err(InvalidInput) || e.reply == Err(AlreadyExists) ==> s' == s
  {
    hide LeafOk, Exclusive, Fill, Fresh;
    var a := AreaOf(e);
    forall b | b in s.areas
      ensures e.bytes > 0 && !BadRange(s, e.vaddr, e.bytes) ==> (b.Overlaps(a) <==> Meets(b, e.vaddr, e.bytes))
    {
      assert b.count > 0;
    }
  }

  /**
   * Where the page loop of a mapping call stops: every slot it wrote held no word or the zero word, and it stops
   * early only when memory was denied or at a slot with another word.
   */
  lemma MapStops(s: Space, e: Event, s': Space, p: nat)
    requires Step(s, e, s') && Maps(e)
    ensures e.vaddr / 4096 <= p < e.vaddr / 4096 + e.done ==> p !in s.table || Encode(s.arch, s.table[p]) == 0
    ensures e.reply == Err(BadState) && !e.denied && p == e.vaddr / 4096 + e.done ==>
              p in s.table && Encode(s.arch, s.table[p]) != 0
  {
    hide Encode;
    if p in s.table {
      VacantIsZero(s.arch, s.table[p]);
    }
    assert e.vaddr / 4096 <= p < e.vaddr / 4096 + e.done ==> !Occupied(s.arch, s.table, p);
  }

  /** What a mapping call adds to the areas: on success the range with the flags of the call, else nothing. */
  lemma MapAdds(s: Space, e: Event, s': Space)
    requires Step(s, e, s') && Maps(e)
    ensures e.reply != Ok ==> s'.areas == s.areas
    ensures e.reply == Ok ==>
              exists a :: a !in s.areas && s'.areas == s.areas + {a}
                && a.first * 4096 == e.vaddr && a.count * 4096 == e.bytes && a.flags == e.flags
                && a.backend == if e.MapLinear? then Linear((e.vaddr - e.paddr) % 0x1_0000_0000_0000_0000)
                                else Alloc(e.populate)
  {
    var a := AreaOf(e);
    assert e.reply == Ok ==> !a.Overlaps(a) || a !in s.areas;
  }

  /** An unmapping step is refused exactly for a bad range; an empty one changes nothing. */
  lemma UnmapReply(s: Space, e: Event, s': Space)
    requires Step(s, e, s') && e.Unmap?
    ensures e.reply == (if BadRange(s, e.vaddr, e.bytes) then Err(InvalidInput) else Ok)
    ensures e.reply == Err(InvalidInput) || e.bytes == 0 ==> s' == s
  {
  }

  /** An unmap is stopped exactly by a linear area without access rights that has a byte of the range. */
  lemma JamsExactly(s: Space, vaddr: nat, bytes: nat)
    requires Inv(s) && vaddr % 4096 == 0 && bytes % 4096 == 0
    ensures Jams(s, PageOf(vaddr), PageOf(vaddr + bytes)) <==>
            exists a :: a in s.areas && a.backend.Linear? && Meets(a, vaddr, bytes) && !a.flags.read &&
              (s.arch == X86_64 ==> !a.flags.write && !a.flags.execute)
  {
    hide LeafOk, Exclusive, Disjoint;
  }

  // ----- page faults

  /** The range of bytes of an area. */
  predicate HasByte(a: Area, v: nat) {
    a.first * 4096 <= v < (a.first + a.count) * 4096
  }

  /** Every access right and attribute asked for is among those of the area. */
  predicate Permits(flags: MappingFlags, access: MappingFlags) {
    && (access.read ==> flags.read) && (access.write ==> flags.write) && (access.execute ==> flags.execute)
    && (access.user ==> flags.user) && (access.device ==> flags.device) && (access.uncached ==> flags.uncached)
  }

  /**
   * A fault is handled exactly when it lies in a lazy area that permits the access and memory was not denied; the
   * page then gets the new frame with the flags of the area.
   */
  lemma FaultHandled(s: Space, e: Event, s': Space)
    requires Inv(s) && Step(s, e, s') && e.PageFault?
    ensures e.handled <==>
            && s.base <= e.vaddr < s.base + s.size && !e.denied
            && exists a :: a in s.areas && HasByte(a, e.vaddr) && a.backend == Alloc(false) &&
                 Permits(a.flags, e.access)
    ensures e.handled ==>
              forall a :: a in s.areas && HasByte(a, e.vaddr) ==>
                |e.frames| == 1 && s' == s.(table := s.table[e.vaddr / 4096 := Mapped(e.frames[0], a.flags)],
                                            owned := s.owned + {e.frames[0]}, allocs := s.allocs + 1)
    ensures !e.handled ==> s' == s
  {
    hide LeafOk, Exclusive;
    forall a | a in s.areas && HasByte(a, e.vaddr) ensures Lookup(s.areas, PageOf(e.vaddr)) == Some(a) {
      assert a.Has(PageOf(e.vaddr));
    }
    forall a | a in s.areas && a.Has(PageOf(e.vaddr)) ensures HasByte(a, e.vaddr) {
    }
  }

  // ----- sizes

  lemma AreaOfByte(s: Space, a: Area, v: nat)
    requires Disjoint(s.areas) && a in s.areas
    ensures HasByte(a, v) <==> Lookup(s.areas, PageOf(v)) == Some(a)
  {
    assert HasByte(a, v) <==> a.Has(PageOf(v));
  }

  /** The limit reported with a translation is the length of the area, and there is none outside the areas. */
  lemma LimitIsAreaLength(s: Space, v: nat)
    requires Disjoint(s.areas)
    ensures TranslateAndGetLimit(s, v).Some? ==>
              && (exists a :: a in s.areas && HasByte(a, v))
              && forall a :: a in s.areas && HasByte(a, v) ==> TranslateAndGetLimit(s, v).value.1 == a.count * 4096
  {
    if Covers(s.areas, PageOf(v)) {
      AreaOfByte(s, Lookup(s.areas, PageOf(v)).value, v);
    }
    forall a | a in s.areas && HasByte(a, v) ensures Lookup(s.areas, PageOf(v)) == Some(a) {
      AreaOfByte(s, a, v);
    }
  }

  /** Right after a successful mapping, the limit in its range is the length that was asked for. */
  lemma LimitAfterMap(s: Space, e: Event, s': Space, v: nat)
    requires Inv(s) && Step(s, e, s') && Maps(e) && e.reply == Ok
    requires e.vaddr <= v < e.vaddr + e.bytes && TranslateAndGetLimit(s', v).Some?
    ensures TranslateAndGetLimit(s', v).value.1 == e.bytes
  {
    assert Disjoint(s'.areas) by {
      StepKeepsInv(s, e, s');
    }
    MapAdds(s, e, s');
    LimitIsAreaLength(s', v);
    hide Step, Inv, TranslateAndGetLimit;
    assert exists a :: a in s'.areas && HasByte(a, v) && a.count * 4096 == e.bytes;
  }

  /** A buffer request passes the checks exactly when its first byte lies in an area at least as long as it. */
  lemma AcceptedExactly(s: Space, vaddr: nat, len: nat)
    requires Disjoint(s.areas)
    ensures Accepted(s, vaddr, len) <==>
            && s.base <= vaddr < s.base + s.size
            && exists a :: a in s.areas && HasByte(a, vaddr) && len <= a.count * 4096
  {
    if Covers(s.areas, PageOf(vaddr)) {
      AreaOfByte(s, Lookup(s.areas, PageOf(vaddr)).value, vaddr);
    }
    forall a | a in s.areas && HasByte(a, vaddr) ensures Lookup(s.areas, PageOf(vaddr)) == Some(a) {
      AreaOfByte(s, a, vaddr);
    }
  }
}
