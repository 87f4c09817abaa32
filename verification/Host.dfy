/** Two address spaces of one program: calls on either, served by the same allocator, are a joint run. */
module Host {
  import opened Flags
  import opened Words
  import opened Spaces
  import opened Guests
  import opened AddrSpace

  /** Two spaces over one allocator, with nothing else in common and no frame outstanding in both. */
  ghost predicate Sharing(a: AddrSpace, b: AddrSpace)
    reads a, a.pt, a.hal, b, b.pt, b.hal
  {
    a != b && a.pt != b.pt && a.hal == b.hal && a.Valid() && b.Valid() && a.owned !! b.owned
  }

  /**
   * A call that leaves the frames outstanding elsewhere as they were, even when it breaks off, takes none from
   * another space and shares none with it.
   */
  lemma OtherUnaffected(all: set<nat>, own: set<nat>, all': set<nat>, own': set<nat>, other: set<nat>)
    requires all' - own' == all - own && own' <= all' && other <= all && other !! own
    ensures other <= all' && other !! own'
  {
    forall f | f in other ensures f in all' && f !in own' {
      assert f in all - own;
    }
  }

  /** Creates a second space over the allocator of the first. */
  method Join(a: AddrSpace, base: nat, size: nat) returns (r: Option<AddrSpace>)
    requires a.Valid()
    ensures r.Some? ==> fresh(r.value) && Sharing(a, r.value)
    ensures r.Some? ==> r.value.Model() == Spaces.NewEmpty(a.hal.arch, base, size)
  {
    hide Inv;
    r := TryNewEmpty(a.hal, base, size);
  }

  method MapLinear(a: AddrSpace, b: AddrSpace, vaddr: nat, paddr: nat, bytes: nat, flags: MappingFlags)
    returns (reply: Reply, ghost e: Event)
    requires Sharing(a, b) && vaddr + bytes < WORD_LIMIT && paddr < WORD_LIMIT
    modifies a, a.pt, a.hal
    ensures Sharing(a, b) && e.MapLinear?
    ensures e == Event.MapLinear(vaddr, paddr, bytes, flags, reply, e.done, e.denied)
    ensures JointStep(Pair(old(a.Model()), old(b.Model())), Call(true, e), Pair(a.Model(), b.Model()))
  {
    hide Inv, Step;
    ghost var all, own := a.hal.owned, a.owned;
    reply, e := a.MapLinear(vaddr, paddr, bytes, flags);
    OtherUnaffected(all, own, a.hal.owned, a.owned, b.owned);
  }

  method MapAlloc(a: AddrSpace, b: AddrSpace, vaddr: nat, bytes: nat, flags: MappingFlags, populate: bool)
    returns (reply: Reply, ghost e: Event)
    requires Sharing(a, b) && vaddr + bytes < WORD_LIMIT
    modifies a, a.pt, a.hal
    ensures Sharing(a, b) && e.MapAlloc?
    ensures e == Event.MapAlloc(vaddr, bytes, flags, populate, reply, e.done, e.frames, e.denied)
    ensures JointStep(Pair(old(a.Model()), old(b.Model())), Call(true, e), Pair(a.Model(), b.Model()))
  {
    hide Inv, Step;
    ghost var all, own := a.hal.owned, a.owned;
    reply, e := a.MapAlloc(vaddr, bytes, flags, populate);
    OtherUnaffected(all, own, a.hal.owned, a.owned, b.owned);
  }

  method HandlePageFault(a: AddrSpace, b: AddrSpace, vaddr: nat, access: MappingFlags)
    returns (handled: bool, ghost e: Event)
    requires Sharing(a, b)
    modifies a, a.pt, a.hal
    ensures Sharing(a, b) && e.PageFault?
    ensures e == PageFault(vaddr, access, handled, e.frames, e.denied)
    ensures JointStep(Pair(old(a.Model()), old(b.Model())), Call(true, e), Pair(a.Model(), b.Model()))
  {
    hide Inv, Step;
    ghost var all, own := a.hal.owned, a.owned;
    handled, e := a.HandlePageFault(vaddr, access);
    OtherUnaffected(all, own, a.hal.owned, a.owned, b.owned);
  }

  /** Also when it reports a bad state, an unmap leaves the other space as it was. */
  method Unmap(a: AddrSpace, b: AddrSpace, vaddr: nat, bytes: nat) returns (reply: Reply)
    requires Sharing(a, b) && vaddr + bytes < WORD_LIMIT
    modifies a, a.pt, a.hal
    ensures b.Valid() && b.Model() == old(b.Model()) && a.owned !! b.owned
    ensures reply != Err(BadState) ==>
              && Sharing(a, b)
              && JointStep(Pair(old(a.Model()), old(b.Model())), Call(true, Event.Unmap(vaddr, bytes, reply)),
                           Pair(a.Model(), b.Model()))
  {
    hide Inv, Step, Jams;
    ghost var all, own := a.hal.owned, a.owned;
    reply := a.Unmap(vaddr, bytes);
    OtherUnaffected(all, own, a.hal.owned, a.owned, b.owned);
  }

  /** Tearing one space down leaves the other as it was. */
  method Clear(a: AddrSpace, b: AddrSpace) returns (completed: bool)
    requires Sharing(a, b)
    modifies a, a.pt, a.hal
    ensures b.Valid() && b.Model() == old(b.Model()) && a.owned !! b.owned
    ensures completed ==>
              && Sharing(a, b)
              && JointStep(Pair(old(a.Model()), old(b.Model())), Call(true, Event.Clear), Pair(a.Model(), b.Model()))
  {
    hide Inv, Step, Jams;
    ghost var all, own := a.hal.owned, a.owned;
    completed := a.Clear();
    OtherUnaffected(all, own, a.hal.owned, a.owned, b.owned);
  }
}
