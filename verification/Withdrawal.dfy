/** Taking a range away from the areas one area at a time amounts to one unmapping step. */
module Withdrawal {
  import opened Pte
  import opened Areas
  import opened Spaces
  import opened SpaceInv
  import opened Backends

  /** The part of a range that lies in an area: from here ... */
  function Lower(a: Area, lo: nat): nat {
    if a.first < lo then lo else a.first
  }

  /** ... up to here. */
  function Upper(a: Area, hi: nat): nat {
    if a.End() < hi then a.End() else hi
  }

  /** Frames the range holds through the areas of `some`. */
  ghost function FramesOf(s: Space, some: set<Area>, lo: nat, hi: nat): set<nat> {
    FramesIn(s.(areas := some), lo, hi)
  }

  /** Frames the range holds through one area. */
  ghost function OwnFrames(s: Space, a: Area, lo: nat, hi: nat): set<nat> {
    if a.backend.Alloc? then PresentFrames(s.arch, s.table, Lower(a, lo), Upper(a, hi)) else {}
  }

  /** The range has been taken away from the areas of `gone`, starting from state `s`. */
  ghost predicate Withdrawn(s: Space, gone: set<Area>, lo: nat, hi: nat,
                            table: map<nat, Leaf>, owned: set<nat>, freed: int)
  {
    && table.Keys == s.table.Keys
    && (forall p :: p in s.table ==>
          if lo <= p < hi && Covers(gone, p) then Erase(s.arch, s.table[p], table[p]) else table[p] == s.table[p])
    && owned == s.owned - FramesOf(s, gone, lo, hi)
    && freed == |FramesOf(s, gone, lo, hi)|
  }

  lemma WithdrawnNone(s: Space, lo: nat, hi: nat)
    ensures Withdrawn(s, {}, lo, hi, s.table, s.owned, 0)
  {
  }

  /** Once every area has been dealt with, the range has been unmapped. */
  lemma WithdrawnAll(s: Space, lo: nat, hi: nat, s': Space, freed: int)
    requires Inv(s) && lo <= hi && Withdrawn(s, s.areas, lo, hi, s'.table, s'.owned, freed)
    requires s' == s.(areas := Trim(s.areas, lo, hi), table := s'.table, owned := s'.owned,
                      deallocs := s.deallocs + freed)
    ensures UnmapStep(s, lo, hi, s') && Inv(s')
  {
    assert s.(areas := s.areas) == s;
    UnmapKeepsInv(s, lo, hi, s');
  }

  /** Pages of an area still to come are as they were. */
  lemma StillUntouched(s: Space, gone: set<Area>, a: Area, p: nat)
    requires Disjoint(s.areas) && gone <= s.areas && a in s.areas && a !in gone && a.Has(p)
    ensures !Covers(gone, p)
  {
  }

  lemma OwnFramesMember(s: Space, a: Area, lo: nat, hi: nat, p: nat)
    requires a.backend.Alloc? && a.Has(p) && lo <= p < hi && PagePresent(s, p)
    ensures s.table[p].frame in OwnFrames(s, a, lo, hi)
  {
  }

  /** One more area adds its own frames. */
  lemma FramesOfMore(s: Space, gone: set<Area>, a: Area, lo: nat, hi: nat)
    requires a in s.areas
    ensures FramesOf(s, gone + {a}, lo, hi) == FramesOf(s, gone, lo, hi) + OwnFrames(s, a, lo, hi)
  {
  }

  /** The frames of different areas are different. */
  lemma FramesOfApart(s: Space, gone: set<Area>, a: Area, lo: nat, hi: nat)
    requires Disjoint(s.areas) && Exclusive(s) && gone <= s.areas && a in s.areas && a !in gone
    ensures FramesOf(s, gone, lo, hi) !! OwnFrames(s, a, lo, hi)
  {
  }

  /** Erasing the part of the range in one more area. */
  lemma EraseMore(s: Space, gone: set<Area>, a: Area, lo: nat, hi: nat, table: map<nat, Leaf>, table': map<nat, Leaf>,
                  p: nat)
    requires Disjoint(s.areas) && gone <= s.areas && a in s.areas && a !in gone && p in s.table
    requires table.Keys == s.table.Keys && p in table
    requires if lo <= p < hi && Covers(gone, p) then Erase(s.arch, s.table[p], table[p]) else table[p] == s.table[p]
    requires Erased(s.arch, table, Lower(a, lo), Upper(a, hi), table')
    ensures if lo <= p < hi && Covers(gone + {a}, p) then Erase(s.arch, s.table[p], table'[p])
            else table'[p] == s.table[p]
  {
  }

  lemma WithdrawOne(s: Space, gone: set<Area>, a: Area, lo: nat, hi: nat,
                    table: map<nat, Leaf>, owned: set<nat>, freed: int,
                    table': map<nat, Leaf>, owned': set<nat>, freed': int)
    requires Disjoint(s.areas) && Exclusive(s) && gone <= s.areas && a in s.areas && a !in gone
    requires Withdrawn(s, gone, lo, hi, table, owned, freed)
    requires Erased(s.arch, table, Lower(a, lo), Upper(a, hi), table')
    requires owned' == owned - OwnFrames(s, a, lo, hi) && freed' == freed + |OwnFrames(s, a, lo, hi)|
    ensures Withdrawn(s, gone + {a}, lo, hi, table', owned', freed')
  {
    FramesOfMore(s, gone, a, lo, hi);
    FramesOfApart(s, gone, a, lo, hi);
    forall p | p in s.table
      ensures if lo <= p < hi && Covers(gone + {a}, p) then Erase(s.arch, s.table[p], table'[p])
              else table'[p] == s.table[p]
    {
      EraseMore(s, gone, a, lo, hi, table, table', p);
    }
  }

  /** The frames an area holds now are those it held at the start. */
  lemma OwnFramesNow(s: Space, gone: set<Area>, a: Area, lo: nat, hi: nat,
                     table: map<nat, Leaf>, owned: set<nat>, freed: int)
    requires Disjoint(s.areas) && gone <= s.areas && a in s.areas && a !in gone && a.backend.Alloc?
    requires Withdrawn(s, gone, lo, hi, table, owned, freed)
    ensures PresentFrames(s.arch, table, Lower(a, lo), Upper(a, hi)) == OwnFrames(s, a, lo, hi)
  {
  }

  /** The frames of an area still to come can be given back. */
  lemma OwnReturnable(s: Space, gone: set<Area>, a: Area, lo: nat, hi: nat,
                      table: map<nat, Leaf>, owned: set<nat>, freed: int)
    requires Inv(s) && gone <= s.areas && a in s.areas && a !in gone && a.backend.Alloc?
    requires Withdrawn(s, gone, lo, hi, table, owned, freed)
    ensures Returnable(s.arch, table, owned, Lower(a, lo), Upper(a, hi))
  {
    var l, u := Lower(a, lo), Upper(a, hi);
    FramesOfApart(s, gone, a, lo, hi);
    forall p: nat | l <= p < u && PresentIn(s.arch, table, p)
      ensures Holds(s, p) && table[p] == s.table[p] && table[p].frame in owned
    {
      assert a.Has(p);
      StillUntouched(s, gone, a, p);
      assert Holds(s, p);
      HeldFrameOwned(s, p);
      OwnFramesMember(s, a, lo, hi, p);
    }
  }

  /** A linear area is present on all its pages or on none. */
  lemma LinearPresence(s: Space, gone: set<Area>, a: Area, lo: nat, hi: nat,
                       table: map<nat, Leaf>, owned: set<nat>, freed: int)
    requires Inv(s) && gone <= s.areas && a in s.areas && a !in gone && a.backend.Linear?
    requires Withdrawn(s, gone, lo, hi, table, owned, freed)
    ensures forall p: nat :: Lower(a, lo) <= p < Upper(a, hi) ==>
              (PresentIn(s.arch, table, p) <==> Presentable(s.arch, a.flags))
  {
    forall p: nat | Lower(a, lo) <= p < Upper(a, hi)
      ensures PresentIn(s.arch, table, p) <==> Presentable(s.arch, a.flags)
    {
      assert a.Has(p) && LeafOk(s, a, p);
      StillUntouched(s, gone, a, p);
    }
  }

  lemma NoneJams(s: Space, lo: nat, hi: nat)
    ensures !Jams(s.(areas := {}), lo, hi)
  {
  }

  /** One more area jams the range, or the areas so far do. */
  lemma OneMoreJams(s: Space, gone: set<Area>, a: Area, lo: nat, hi: nat)
    requires Inv(s) && a in s.areas && gone <= s.areas && lo < hi
    ensures Jams(s.(areas := gone + {a}), lo, hi) <==>
            || Jams(s.(areas := gone), lo, hi)
            || (a.backend.Linear? && !Presentable(s.arch, a.flags) && Lower(a, lo) < Upper(a, hi))
    ensures Jams(s.(areas := gone + {a}), lo, hi) ==> Jams(s, lo, hi)
  {
    hide LeafOk, Exclusive, Disjoint;
    assert a.count > 0;
  }
}
