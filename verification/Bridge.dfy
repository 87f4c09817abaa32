/** Guest memory access over the page table of an address space. */
module Bridge {
  import opened Flags
  import opened Words
  import opened Pte
  import opened Areas
  import opened Spaces
  import opened SpaceInv
  import opened Tiling
  import opened Accessor

  /** The translator that reports, for each address, the rest of its page. */
  function PageTranslator(s: Space): Translator {
    (g: nat) =>
      match Query(s, g)
      case None => None
      case Some(h) => Some(Region(h, PAGE_SIZE - g % PAGE_SIZE))
  }

  /** All present frames lie inside a host memory of `size` bytes. */
  ghost predicate FramesInMemory(s: Space, size: nat) {
    forall p: nat :: PagePresent(s, p) ==> s.table[p].frame + PAGE_SIZE <= size
  }

  /** The page-granular translator of any address space meets the contract of the accessor. */
  lemma PageTranslatorSound(s: Space, size: nat)
    requires FramesInMemory(s, size)
    ensures Sound(PageTranslator(s), size)
    ensures forall g: nat :: PageTranslator(s)(g) ==
              match Query(s, g) case None => None case Some(h) => Some(Region(h, 4096 - g % 4096))
  {
  }

  /** Bytes of different pages with different aligned frames lie at different host addresses. */
  lemma FramesApart(f: nat, g: nat, i: nat, j: nat)
    requires Aligned(f) && Aligned(g) && f != g && i < PAGE_SIZE && j < PAGE_SIZE
    ensures f + i != g + j
  {
  }

  /** All bytes of a guest range lie in one area. */
  ghost predicate InArea(a: Area, g: nat, n: nat) {
    forall v: nat :: g <= v < g + n ==> a.Has(PageOf(v))
  }

  /** Different bytes of allocated pages lie at different host addresses. */
  lemma AllocBytesApart(s: Space, v: nat, w: nat)
    requires Inv(s) && Holds(s, PageOf(v)) && Holds(s, PageOf(w)) && v != w
    ensures Query(s, v) != Query(s, w)
  {
    hide LeafOk, AreasOk, AllocCovers;
    HeldFrameOwned(s, PageOf(v));
    HeldFrameOwned(s, PageOf(w));
    if PageOf(v) != PageOf(w) {
      FramesApart(s.table[PageOf(v)].frame, s.table[PageOf(w)].frame, v % PAGE_SIZE, w % PAGE_SIZE);
    }
  }

  lemma AllocInjective(s: Space, a: Area, g: nat, n: nat)
    requires Inv(s) && a in s.areas && a.backend.Alloc? && InArea(a, g, n)
    ensures InjectiveOn(PageTranslator(s), g, n)
  {
    hide Inv;
    forall v: nat, w: nat | g <= v < w < g + n && Query(s, v).Some? && Query(s, w).Some?
      ensures Query(s, v) != Query(s, w)
    {
      AllocBytesApart(s, v, w);
    }
  }

  lemma {:induction false} PopulatedReach(s: Space, a: Area, g: nat, n: nat)
    requires Inv(s) && a in s.areas && a.backend != Alloc(false) && Presentable(s.arch, a.flags) && InArea(a, g, n)
    ensures Reach(PageTranslator(s), g, n) == n
    decreases n
  {
    if n != 0 {
      BackedAreaTranslates(s, a, g);
      PopulatedReach(s, a, g + 1, n - 1);
    }
  }

  /**
   * In every state that satisfies the invariant, a buffer written anywhere inside a populated area, across
   * any number of pages and scattered frames, is written completely and reads back unchanged.
   */
  lemma PopulatedAreaRoundTrip(s: Space, a: Area, memory: seq<Byte>, g: nat, data: seq<Byte>)
    requires Inv(s) && FramesInMemory(s, |memory|)
    requires a in s.areas && a.backend == Alloc(true) && Presentable(s.arch, a.flags) && InArea(a, g, |data|)
    ensures var t := PageTranslator(s);
            && Sound(t, |memory|) && Reach(t, g, |data|) == |data|
            && Load(t, Store(t, memory, g, data), g, |data|) == data
  {
    PageTranslatorSound(s, |memory|);
    PopulatedReach(s, a, g, |data|);
    AllocInjective(s, a, g, |data|);
    WriteReadRoundTrip(PageTranslator(s), memory, g, data);
    assert data[..|data|] == data;
  }
}
