/** Byte buffers handed out as slices of host memory that tile a guest range. */
module Tiling {
  import opened Flags
  import opened Words
  import opened Pte
  import opened Areas
  import opened Spaces

  datatype Slice = Slice(paddr: nat, len: nat)

  /** The result of asking for a buffer; `Panicked` is the failing unwrap inside the loop. */
  datatype Buffer = NotFound | Panicked | Found(slices: seq<Slice>)

  /**
   * The slices cover the guest bytes from `lo` up to `hi` in order: each starts where the one before
   * ends, stays within one page, and begins at the host address of its first byte.
   */
  predicate Tiles(s: Space, slices: seq<Slice>, lo: nat, hi: nat) {
    if slices == [] then lo == hi
    else
      var n := |slices| - 1;
      var last := slices[n];
      && 0 < last.len <= hi - lo
      && var cut := hi - last.len;
         && Query(s, cut) == Some(last.paddr)
         && PageOf(cut) == PageOf(hi - 1)
         && (cut == lo || Aligned(cut))
         && Tiles(s, slices[..n], lo, cut)
  }

  /** The checks made before anything is collected. */
  ghost predicate Accepted(s: Space, vaddr: nat, len: nat) {
    && InRange(s, vaddr)
    && var a := Lookup(s.areas, PageOf(vaddr)); a.Some? && len <= a.value.Size()
  }

  /** Some byte of the range does not translate. */
  ghost predicate HasGap(s: Space, vaddr: nat, len: nat) {
    exists v :: vaddr <= v < vaddr + len && Query(s, v) == None
  }

  /** The whole range lies in one linear or populated area with access rights. */
  predicate Backs(arch: Arch, a: Area, vaddr: nat, len: nat) {
    && len > 0 && a.Has(PageOf(vaddr)) && a.Has(PageOf(vaddr + len - 1))
    && a.backend != Alloc(false) && Presentable(arch, a.flags)
  }

  lemma TilesNone(s: Space, lo: nat)
    ensures Tiles(s, [], lo, lo)
  {
  }

  lemma GapAt(s: Space, vaddr: nat, len: nat, v: nat)
    requires vaddr <= v < vaddr + len && Query(s, v) == None
    ensures HasGap(s, vaddr, len)
  {
  }

  lemma PageStartAligned(p: nat)
    ensures Aligned(p * PAGE_SIZE)
  {
  }

  /** A slice from where the tiles end to the end of that page, or sooner, extends the tiling. */
  lemma TilesExtend(s: Space, slices: seq<Slice>, lo: nat, cut: nat, slice: Slice, hi: nat)
    requires Tiles(s, slices, lo, cut) && lo <= cut && (cut == lo || Aligned(cut))
    requires cut < hi <= (PageOf(cut) + 1) * PAGE_SIZE
    requires Query(s, cut) == Some(slice.paddr) && slice.len == hi - cut
    ensures Tiles(s, slices + [slice], lo, hi)
  {
  }

  function TotalLength(slices: seq<Slice>): nat {
    if slices == [] then 0 else TotalLength(slices[..|slices| - 1]) + slices[|slices| - 1].len
  }

  /** The host address of byte `j` of the concatenated slices. */
  function ByteAt(slices: seq<Slice>, j: nat): nat
    requires j < TotalLength(slices)
  {
    var n := |slices| - 1;
    var before := TotalLength(slices[..n]);
    if j < before then ByteAt(slices[..n], j) else slices[n].paddr + (j - before)
  }

  /** Lengths add up to the length of the range. */
  lemma {:induction false} TilesLength(s: Space, slices: seq<Slice>, lo: nat, hi: nat)
    requires Tiles(s, slices, lo, hi)
    ensures lo <= hi && TotalLength(slices) == hi - lo
  {
    if slices != [] {
      var n := |slices| - 1;
      TilesLength(s, slices[..n], lo, hi - slices[n].len);
    }
  }

  /** Within a page, translation advances with the address. */
  lemma QueryWithinPage(s: Space, u: nat, v: nat)
    requires u <= v && PageOf(u) == PageOf(v) && Query(s, u).Some?
    ensures Query(s, v) == Some(Query(s, u).value + (v - u))
  {
  }

  /** Byte `j` of the buffer lies at the host address of guest byte `lo + j`. */
  lemma {:induction false} TilesBytes(s: Space, slices: seq<Slice>, lo: nat, hi: nat, j: nat)
    requires Tiles(s, slices, lo, hi) && lo + j < hi
    ensures j < TotalLength(slices) && Query(s, lo + j) == Some(ByteAt(slices, j))
  {
    TilesLength(s, slices, lo, hi);
    var n := |slices| - 1;
    var cut := hi - slices[n].len;
    TilesLength(s, slices[..n], lo, cut);
    if lo + j < cut {
      TilesBytes(s, slices[..n], lo, cut, j);
    } else {
      assert PageOf(cut) <= PageOf(lo + j) <= PageOf(hi - 1);
      QueryWithinPage(s, cut, lo + j);
    }
  }

  /** There is one slice per page touched. */
  lemma {:induction false} TilesCount(s: Space, slices: seq<Slice>, lo: nat, hi: nat)
    requires Tiles(s, slices, lo, hi) && lo < hi
    ensures |slices| == PageOf(hi - 1) - PageOf(lo) + 1
  {
    var n := |slices| - 1;
    var cut := hi - slices[n].len;
    if n == 0 {
      assert slices[..0] == [];
    } else {
      TilesLength(s, slices[..n], lo, cut);
      var m := slices[..n];
      assert m[n - 1].len > 0 by {
        assert Tiles(s, m, lo, cut);
      }
      assert cut != lo;
      TilesCount(s, m, lo, cut);
      assert PageOf(cut - 1) == PageOf(cut) - 1;
    }
  }

  /** No slice crosses a page boundary. */
  lemma {:induction false} TilesWithinPages(s: Space, slices: seq<Slice>, lo: nat, hi: nat, i: nat)
    requires Tiles(s, slices, lo, hi) && i < |slices|
    ensures exists v :: lo <= v && v + slices[i].len <= hi && 0 < slices[i].len &&
              Query(s, v) == Some(slices[i].paddr) && PageOf(v) == PageOf(v + slices[i].len - 1)
  {
    var n := |slices| - 1;
    var cut := hi - slices[n].len;
    if i < n {
      TilesWithinPages(s, slices[..n], lo, cut, i);
    } else {
      assert lo <= cut;
    }
  }

  /** Inside a linear or populated area with access rights every byte translates. */
  lemma BackedAreaTranslates(s: Space, a: Area, v: nat)
    requires Inv(s) && a in s.areas && a.Has(PageOf(v))
    requires a.backend != Alloc(false) && Presentable(s.arch, a.flags)
    ensures Query(s, v).Some?
  {
  }

  /** Every byte of a tiled range translates. */
  lemma TilesNoGap(s: Space, slices: seq<Slice>, lo: nat, hi: nat)
    requires Tiles(s, slices, lo, hi) && lo <= hi
    ensures !HasGap(s, lo, hi - lo)
  {
    forall v: nat | lo <= v < hi ensures Query(s, v).Some? {
      TilesBytes(s, slices, lo, hi, v - lo);
    }
  }

  /** Inside such an area the checks pass and there is no gap. */
  lemma BackedRange(s: Space, a: Area, vaddr: nat, len: nat)
    requires Inv(s) && a in s.areas && Backs(s.arch, a, vaddr, len)
    ensures Accepted(s, vaddr, len) && !HasGap(s, vaddr, len)
  {
    hide Exclusive, LeafOk;
    forall v: nat | vaddr <= v < vaddr + len ensures Query(s, v).Some? {
      assert PageOf(vaddr) <= PageOf(v) <= PageOf(vaddr + len - 1);
      BackedAreaTranslates(s, a, v);
    }
    var b := Lookup(s.areas, PageOf(vaddr)).value;
    assert b.Has(PageOf(vaddr)) && b == a;
  }
}
