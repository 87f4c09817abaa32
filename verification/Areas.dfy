/** Memory areas and the set of areas of an address space, in units of 4K pages. */
module Areas {
  import opened Flags
  import opened Words

  /** How the frames behind an area are obtained. */
  datatype Backend =
    | Linear(offset: nat)
    | Alloc(populate: bool)

  datatype Area = Area(first: nat, count: nat, flags: MappingFlags, backend: Backend) {
    function End(): nat {
      first + count
    }

    predicate Has(p: nat) {
      first <= p < End()
    }

    predicate Overlaps(other: Area) {
      first < other.End() && other.first < End()
    }

    function Size(): nat {
      count * PAGE_SIZE
    }

    /** What remains of the area below page `lo`; the backend is cloned. */
    function Left(lo: nat): Area
      requires first < lo
    {
      this.(count := (if End() <= lo then End() else lo) - first)
    }

    /** What remains of the area from page `hi` up; the backend is cloned. */
    function Right(hi: nat): Area
      requires hi < End()
    {
      var from := if first < hi then hi else first;
      this.(first := from, count := End() - from)
    }
  }

  /** Some area contains the page. */
  ghost predicate Covers(areas: set<Area>, p: nat) {
    exists a :: a in areas && a.Has(p)
  }

  /** Some area with an allocating backend contains the page. */
  ghost predicate AllocCovers(areas: set<Area>, p: nat) {
    exists a :: a in areas && a.Has(p) && a.backend.Alloc?
  }

  /** No page belongs to two areas. */
  ghost predicate Disjoint(areas: set<Area>) {
    forall a, b, p: nat :: a in areas && b in areas && a.Has(p) && b.Has(p) ==> a == b
  }

  /** The area of a page. */
  ghost function Lookup(areas: set<Area>, p: nat): (r: Option<Area>)
    ensures r.Some? <==> Covers(areas, p)
    ensures r.Some? ==> r.value in areas && r.value.Has(p)
  {
    if Covers(areas, p) then
      var a :| a in areas && a.Has(p);
      Some(a)
    else None
  }

  /** The areas left when the pages from `lo` up to `hi` are taken away: areas vanish, shrink or split. */
  function Trim(areas: set<Area>, lo: nat, hi: nat): set<Area> {
    (set a | a in areas && a.first < lo :: a.Left(lo)) +
    (set a | a in areas && hi < a.End() :: a.Right(hi))
  }

  /** Every remaining piece lies in one old area, outside the removed range, and keeps its attributes. */
  lemma PieceHasParent(areas: set<Area>, lo: nat, hi: nat, x: Area) returns (a: Area)
    requires lo <= hi && x in Trim(areas, lo, hi)
    ensures a in areas && x.flags == a.flags && x.backend == a.backend
    ensures (a.count > 0 ==> x.count > 0) && a.first <= x.first && x.End() <= a.End()
    ensures forall p: nat :: x.Has(p) ==> a.Has(p) && !(lo <= p < hi)
    ensures if x.first < lo then x == a.Left(lo) else hi < a.End() && x == a.Right(hi)
  {
    if y :| y in areas && y.first < lo && x == y.Left(lo) {
      a := y;
    } else {
      a :| a in areas && hi < a.End() && x == a.Right(hi);
    }
  }

  /** Every page of an old area outside the removed range stays in a piece with the same attributes. */
  lemma PageHasPiece(areas: set<Area>, lo: nat, hi: nat, a: Area, p: nat) returns (x: Area)
    requires a in areas && a.Has(p) && !(lo <= p < hi)
    ensures x in Trim(areas, lo, hi) && x.Has(p)
    ensures x.flags == a.flags && x.backend == a.backend
  {
    x := if p < lo then a.Left(lo) else a.Right(hi);
  }

  /** Pieces never share a page. */
  lemma TrimDisjoint(areas: set<Area>, lo: nat, hi: nat)
    requires Disjoint(areas) && lo <= hi
    ensures Disjoint(Trim(areas, lo, hi))
  {
    var pieces := Trim(areas, lo, hi);
    forall x, y, p: nat | x in pieces && y in pieces && x.Has(p) && y.Has(p)
      ensures x == y
    {
      var a := PieceHasParent(areas, lo, hi, x);
      var b := PieceHasParent(areas, lo, hi, y);
      assert a.Has(p) && b.Has(p);
    }
  }

  /** A page is covered afterwards exactly when it was covered before and lies outside the range. */
  lemma TrimCovers(areas: set<Area>, lo: nat, hi: nat, p: nat)
    requires lo <= hi
    ensures Covers(Trim(areas, lo, hi), p) <==> Covers(areas, p) && !(lo <= p < hi)
    ensures AllocCovers(Trim(areas, lo, hi), p) <==> AllocCovers(areas, p) && !(lo <= p < hi)
  {
    forall x | x in Trim(areas, lo, hi) && x.Has(p)
      ensures exists a :: a in areas && a.Has(p) && a.backend == x.backend && !(lo <= p < hi)
    {
      var a := PieceHasParent(areas, lo, hi, x);
      assert a.Has(p);
    }
    forall a | a in areas && a.Has(p) && !(lo <= p < hi)
      ensures exists x :: x in Trim(areas, lo, hi) && x.Has(p) && x.backend == a.backend
    {
      var x := PageHasPiece(areas, lo, hi, a, p);
    }
  }
}
