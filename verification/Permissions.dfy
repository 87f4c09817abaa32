/** The permissions of a mapping call stay with its pages. */
module Permissions {
  import opened Flags
  import opened Pte
  import opened Areas
  import opened Spaces
  import opened History
  import opened Runs

  /** The bytes of the page belong to the range of the mapping call. */
  predicate InCall(e: Event, p: nat)
    requires Maps(e)
  {
    e.vaddr <= p * 4096 < e.vaddr + e.bytes
  }

  function BackendOf(e: Event): Backend
    requires Maps(e)
  {
    if e.MapLinear? then Linear((e.vaddr - e.paddr) % 0x1_0000_0000_0000_0000) else Alloc(e.populate)
  }

  /** The slot of a lazy page before its first fault. */
  const UNTOUCHED := Mapped(0, MappingFlags(false, false, false, false, false, false))

  lemma LinearCellStarts(s: Space, h: Cells, e: Event, s': Space, p: nat)
    requires Step(s, e, s') && e.MapLinear? && e.reply == Ok && InCall(e, p)
    ensures var h' := Observe(s.arch, s.base, s.size, h, e);
            && p in h' && !h'[p].orphan && h'[p].flags == e.flags && h'[p].backend == BackendOf(e)
            && h'[p].leaf.Mapped? && h'[p].leaf.flags == e.flags
  {
    hide Fresh, Admissible;
  }

  lemma AllocCellStarts(s: Space, h: Cells, e: Event, s': Space, p: nat)
    requires Step(s, e, s') && e.MapAlloc? && e.reply == Ok && InCall(e, p)
    ensures var h' := Observe(s.arch, s.base, s.size, h, e);
            && p in h' && !h'[p].orphan && h'[p].flags == e.flags && h'[p].backend == BackendOf(e)
            && if e.populate then h'[p].leaf.Mapped? && h'[p].leaf.flags == e.flags else h'[p].leaf == UNTOUCHED
  {
    hide Fresh, Admissible;
  }

  /** A fault hit the page after call `i`, among the first `n` calls. */
  ghost predicate HitSince(events: seq<Event>, i: nat, n: nat, p: nat)
    requires n <= |events|
  {
    exists j :: i < j < n && Hits(events[j], p)
  }

  /** What the page's cell looks like while the mapping stands. */
  ghost predicate CellOfCall(cell: Cell, e: Event, hit: bool)
    requires Maps(e)
  {
    && !cell.orphan && cell.flags == e.flags && cell.backend == BackendOf(e)
    && if BackendOf(e) == Alloc(false) && !hit then cell.leaf == UNTOUCHED
       else cell.leaf.Mapped? && cell.leaf.flags == e.flags
  }

  lemma {:induction false} CellPersists(states: seq<Space>, events: seq<Event>, i: nat, n: nat, p: nat)
    requires Run(states, events) && i < n <= |events| && Maps(events[i]) && events[i].reply == Ok
    requires InCall(events[i], p) && forall j :: i < j < n ==> !Removes(events[j], p)
    ensures var h := CellsAfter(states, events, n);
            p in h && CellOfCall(h[p], events[i], HitSince(events, i, n, p))
  {
    hide Inv, Matches, Step, Observe, CellsAfter;
    CellsAfterStep(states, events, n);
    RunInvariant(states, events, n - 1);
    if n == i + 1 {
      if events[i].MapLinear? {
        LinearCellStarts(states[i], CellsAfter(states, events, i), events[i], states[n], p);
      } else {
        AllocCellStarts(states[i], CellsAfter(states, events, i), events[i], states[n], p);
      }
    } else {
      CellPersists(states, events, i, n - 1, p);
      CellStays(states[n - 1], CellsAfter(states, events, n - 1), events[n - 1], states[n], p);
      assert HitSince(events, i, n, p) <==> HitSince(events, i, n - 1, p) || Hits(events[n - 1], p);
    }
  }

  /**
   * While no call takes a page away, its area keeps the flags and the backend of the mapping call, and so does its
   * slot: at once for a linear or populated mapping, and from its first handled fault on for a lazy one.
   */
  lemma FlagsAreStable(states: seq<Space>, events: seq<Event>, i: nat, n: nat, p: nat)
    requires Run(states, events) && i < n <= |events| && Maps(events[i]) && events[i].reply == Ok
    requires InCall(events[i], p) && forall j :: i < j < n ==> !Removes(events[j], p)
    ensures var s, e := states[n], events[i];
            && (exists a :: a in s.areas && a.first <= p < a.first + a.count && a.flags == e.flags &&
                  a.backend == BackendOf(e))
            && p in s.table
            && if BackendOf(e) == Alloc(false) && !HitSince(events, i, n, p) then s.table[p] == UNTOUCHED
               else s.table[p].Mapped? && s.table[p].flags == e.flags
  {
    hide Inv, Step, CellsAfter;
    CellPersists(states, events, i, n, p);
    RunInvariant(states, events, n);
    assert Covers(states[n].areas, p);
    var a := Lookup(states[n].areas, p).value;
    assert a.Has(p);
  }

  /** What an entry made with the flags of a call reads back as: exactly what x86_64 can record of them. */
  lemma EntryReadsBack(states: seq<Space>, events: seq<Event>, i: nat, n: nat, p: nat)
    requires Run(states, events) && i < n <= |events| && Maps(events[i]) && events[i].reply == Ok
    requires InCall(events[i], p) && forall j :: i < j < n ==> !Removes(events[j], p)
    requires states[n].arch == X86_64 && PagePresent(states[n], p)
    ensures var f := events[i].flags;
            Ept.DecodeFlags(Encode(X86_64, states[n].table[p])) ==
            MappingFlags(f.read, f.write, f.execute, false, f.device, false)
  {
    hide Step, Inv, Matches, CellsAfter, Ept.DecodeFlags;
    FlagsAreStable(states, events, i, n, p);
    Ept.NewPageRoundTrip(states[n].table[p].frame, events[i].flags, false);
  }

  /** An untouched slot is the zero word on x86_64 and a descriptor without valid bit on AArch64. */
  lemma UntouchedWord()
    ensures Encode(X86_64, UNTOUCHED) == 0 && Encode(AArch64, UNTOUCHED) == 0x63e
  {
    Ept.PageInNumbers(0, 0, UNTOUCHED.flags, false);
    Stage2.PageInNumbers(0, 0, UNTOUCHED.flags, false);
  }
}
