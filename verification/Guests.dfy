/** Two address spaces that share an allocator keep their guests apart. */
module Guests {
  import opened Flags
  import opened Words
  import opened Entries
  import opened Areas
  import opened Spaces
  import opened Accessor
  import opened Isolation
  import opened Bridge

  // ----- two spaces over one allocator

  /** A call on one of two address spaces. */
  datatype Call = Call(first: bool, event: Event)

  datatype Pair = Pair(first: Space, second: Space) {
    function Of(first: bool): Space {
      if first then this.first else second
    }
  }

  /** One space makes a call; the allocator hands it no frame that is outstanding in either. */
  ghost predicate JointStep(pair: Pair, call: Call, pair': Pair) {
    && Step(pair.Of(call.first), call.event, pair'.Of(call.first))
    && pair'.Of(!call.first) == pair.Of(!call.first)
    && Taken(call.event) !! pair.Of(!call.first).owned
  }

  /** Two new address spaces and calls on them in any order. */
  ghost predicate JointRun(pairs: seq<Pair>, calls: seq<Call>) {
    && |pairs| == |calls| + 1
    && IsNew(pairs[0].first) && IsNew(pairs[0].second)
    && forall i :: 0 <= i < |calls| ==> JointStep(pairs[i], calls[i], pairs[i + 1])
  }

  /** A call makes no frame outstanding but those it was handed. */
  lemma StepTakes(s: Space, e: Event, s': Space)
    requires Step(s, e, s')
    ensures s'.owned <= s.owned + Taken(e)
  {
  }

  /** In every joint run, with linear mappings and failing calls, no frame is outstanding in both spaces. */
  lemma {:induction false} JointRunApart(pairs: seq<Pair>, calls: seq<Call>, n: nat)
    requires JointRun(pairs, calls) && n <= |calls|
    ensures pairs[n].first.owned !! pairs[n].second.owned
  {
    if n != 0 {
      JointRunApart(pairs, calls, n - 1);
      hide Step;
      var call := calls[n - 1];
      assert JointStep(pairs[n - 1], call, pairs[n - 1 + 1]);
      StepTakes(pairs[n - 1].Of(call.first), call.event, pairs[n].Of(call.first));
    }
  }

  // ----- one space: present pages stand on frames of their own, or on memory set aside for the guest

  /** The frame behind page `p` of a linear call. */
  function Image(arch: Arch, e: Event, p: nat): nat
    requires e.MapLinear?
  {
    FrameAddr(arch, WrapSub(p * PAGE_SIZE, WrapSub(e.vaddr, e.paddr)))
  }

  /** The pages that a linear call mapped all go to the given host frames. */
  ghost predicate StaysWithin(arch: Arch, e: Event, reserved: set<nat>) {
    e.MapLinear? ==> forall p: nat :: PageOf(e.vaddr) <= p < PageOf(e.vaddr) + e.done ==> Image(arch, e, p) in reserved
  }

  /**
   * Every present page has a page-aligned frame, either from the allocator and then to itself, or among the
   * frames set aside for linear mappings.
   */
  ghost predicate Private(s: Space, reserved: set<nat>) {
    && s.owned !! reserved
    && (forall p :: PagePresent(s, p) ==> s.table[p].frame in s.owned + reserved && Aligned(s.table[p].frame))
    && (forall p, q :: PagePresent(s, p) && PagePresent(s, q) && s.table[p].frame == s.table[q].frame ==>
          p == q || s.table[p].frame !in s.owned)
  }

  lemma BackendPage(s: Space, a: Area, done: nat, frames: seq<nat>, denied: bool, s': Space, p: nat)
    requires BackendStep(s, a, done, frames, denied, s') && PagePresent(s', p)
    ensures if a.first <= p < a.first + done
            then match a.backend
                 case Alloc(populate) =>
                   populate && s'.table[p].frame == frames[p - a.first] && Fresh(frames, s.owned)
                 case Linear(offset) => s'.table[p].frame == FrameAddr(s.arch, WrapSub(p * PAGE_SIZE, offset))
            else PagePresent(s, p) && s'.table[p] == s.table[p]
  {
  }

  lemma FrameAddrAligned(arch: Arch, paddr: nat)
    ensures Aligned(FrameAddr(arch, paddr))
  {
  }

  lemma BackendKeepsPrivate(s: Space, a: Area, done: nat, frames: seq<nat>, denied: bool, s': Space,
                            reserved: set<nat>)
    requires Private(s, reserved) && BackendStep(s, a, done, frames, denied, s') && FrameSet(frames) !! reserved
    requires a.backend.Linear? ==> forall p: nat :: a.first <= p < a.first + done ==>
               FrameAddr(s.arch, WrapSub(p * PAGE_SIZE, a.backend.offset)) in reserved
    ensures Private(s', reserved)
  {
    hide FrameAddr, WrapSub;
    forall p: nat | PagePresent(s', p)
      ensures s'.table[p].frame in s'.owned + reserved && Aligned(s'.table[p].frame)
    {
      BackendPage(s, a, done, frames, denied, s', p);
      if a.first <= p < a.first + done && a.backend.Linear? {
        FrameAddrAligned(s.arch, WrapSub(p * PAGE_SIZE, a.backend.offset));
      }
    }
    forall p: nat, q: nat | PagePresent(s', p) && PagePresent(s', q) && s'.table[p].frame == s'.table[q].frame
      ensures p == q || s'.table[p].frame !in s'.owned
    {
      BackendPage(s, a, done, frames, denied, s', p);
      BackendPage(s, a, done, frames, denied, s', q);
    }
  }

  /** Frames are given back with the only page that stood on them. */
  lemma UnmapKeepsPrivate(s: Space, lo: nat, hi: nat, s': Space, reserved: set<nat>)
    requires Private(s, reserved) && UnmapStep(s, lo, hi, s')
    ensures Private(s', reserved)
  {
    forall p | PagePresent(s', p) ensures PagePresent(s, p) && s'.table[p] == s.table[p] {
    }
    forall p | PagePresent(s', p) ensures s'.table[p].frame in s'.owned + reserved {
      assert s'.table[p].frame in s.owned ==> s'.table[p].frame !in FramesIn(s, lo, hi);
    }
  }

  lemma FaultKeepsPrivate(s: Space, v: nat, access: MappingFlags, handled: bool, frames: seq<nat>, denied: bool,
                          s': Space, reserved: set<nat>)
    requires Private(s, reserved) && FaultStep(s, v, access, handled, frames, denied, s')
    requires FrameSet(frames) !! reserved
    ensures Private(s', reserved)
  {
    assert handled ==> frames[0] in FrameSet(frames);
  }

  lemma MapKeepsPrivate(s: Space, a: Area, reply: Reply, done: nat, frames: seq<nat>, denied: bool, s': Space,
                        reserved: set<nat>)
    requires Private(s, reserved) && MapStep(s, a, reply, done, frames, denied, s') && FrameSet(frames) !! reserved
    requires a.backend.Linear? ==> forall p: nat :: a.first <= p < a.first + done ==>
               FrameAddr(s.arch, WrapSub(p * PAGE_SIZE, a.backend.offset)) in reserved
    ensures Private(s', reserved)
  {
    if Admissible(s, a) {
      hide Private, BackendStep, FrameAddr, WrapSub;
      BackendKeepsPrivate(s, a, done, frames, denied, s', reserved);
    }
  }

  /** Every call, failing part-way or not, keeps pages on frames of their own or on those set aside. */
  lemma StepKeepsPrivate(s: Space, e: Event, s': Space, reserved: set<nat>)
    requires Private(s, reserved) && Step(s, e, s') && Taken(e) !! reserved && StaysWithin(s.arch, e, reserved)
    ensures Private(s', reserved)
  {
    hide Private, MapStep, FaultStep, UnmapStep, Jams, FrameAddr, WrapSub;
    match e
    case MapLinear(vaddr, paddr, bytes, flags, reply, done, denied) =>
      if GoodRange(s, vaddr, bytes) && Aligned(paddr) {
        forall p: nat | PageOf(vaddr) <= p < PageOf(vaddr) + done
          ensures FrameAddr(s.arch, WrapSub(p * PAGE_SIZE, WrapSub(vaddr, paddr))) in reserved
        {
          assert Image(s.arch, e, p) in reserved;
        }
        MapKeepsPrivate(s, LinearArea(vaddr, paddr, bytes, flags), reply, done, [], denied, s', reserved);
      }
    case MapAlloc(vaddr, bytes, flags, populate, reply, done, frames, denied) =>
      if GoodRange(s, vaddr, bytes) {
        MapKeepsPrivate(s, AllocArea(vaddr, bytes, flags, populate), reply, done, frames, denied, s', reserved);
      }
    case Unmap(vaddr, bytes, _) =>
      if s' != s {
        UnmapKeepsPrivate(s, PageOf(vaddr), PageOf(vaddr + bytes), s', reserved);
      }
    case PageFault(vaddr, access, handled, frames, denied) =>
      FaultKeepsPrivate(s, vaddr, access, handled, frames, denied, s', reserved);
    case Clear =>
      UnmapKeepsPrivate(s, 0, PageLimit(s.base, s.size), s', reserved);
  }

  // ----- isolation

  /** Host frames set aside for the linear mappings of each guest. */
  datatype Plan = Plan(first: set<nat>, second: set<nat>) {
    function Of(first: bool): set<nat> {
      if first then this.first else second
    }
  }

  /** The allocator and the linear calls of a joint run respect a plan that gives no frame to both guests. */
  ghost predicate Respects(pairs: seq<Pair>, calls: seq<Call>, plan: Plan) {
    && plan.first !! plan.second
    && forall i :: 0 <= i < |calls| && i < |pairs| ==>
         && Taken(calls[i].event) !! plan.first + plan.second
         && StaysWithin(pairs[i].Of(calls[i].first).arch, calls[i].event, plan.Of(calls[i].first))
  }

  lemma JointStepKeepsPrivate(pair: Pair, call: Call, pair': Pair, plan: Plan)
    requires Private(pair.first, plan.first) && Private(pair.second, plan.second) && JointStep(pair, call, pair')
    requires Taken(call.event) !! plan.first + plan.second
    requires StaysWithin(pair.Of(call.first).arch, call.event, plan.Of(call.first))
    ensures Private(pair'.first, plan.first) && Private(pair'.second, plan.second)
  {
    hide Private, Step, StaysWithin;
    StepKeepsPrivate(pair.Of(call.first), call.event, pair'.Of(call.first), plan.Of(call.first));
  }

  lemma {:induction false} JointRunPrivate(pairs: seq<Pair>, calls: seq<Call>, plan: Plan, n: nat)
    requires JointRun(pairs, calls) && Respects(pairs, calls, plan) && n <= |calls|
    ensures Private(pairs[n].first, plan.first) && Private(pairs[n].second, plan.second)
  {
    if n != 0 {
      JointRunPrivate(pairs, calls, plan, n - 1);
      hide Private, JointStep, StaysWithin;
      assert JointStep(pairs[n - 1], calls[n - 1], pairs[n - 1 + 1]);
      JointStepKeepsPrivate(pairs[n - 1], calls[n - 1], pairs[n], plan);
    }
  }

  /** The other guest's frames avoid what is set aside for this one. */
  lemma {:induction false} JointRunAvoids(pairs: seq<Pair>, calls: seq<Call>, plan: Plan, n: nat)
    requires JointRun(pairs, calls) && Respects(pairs, calls, plan) && n <= |calls|
    ensures pairs[n].first.owned + pairs[n].second.owned !! plan.first + plan.second
  {
    if n != 0 {
      JointRunAvoids(pairs, calls, plan, n - 1);
      hide Step, StaysWithin;
      var call := calls[n - 1];
      assert JointStep(pairs[n - 1], call, pairs[n - 1 + 1]);
      StepTakes(pairs[n - 1].Of(call.first), call.event, pairs[n].Of(call.first));
    }
  }

  /** Spaces that stand on different frames have disjoint host images. */
  lemma PrivateApart(pair: Pair, plan: Plan)
    requires Private(pair.first, plan.first) && Private(pair.second, plan.second)
    requires pair.first.owned !! pair.second.owned && plan.first !! plan.second
    requires pair.first.owned + pair.second.owned !! plan.first + plan.second
    ensures Apart(PageTranslator(pair.first), PageTranslator(pair.second))
  {
    var t, u := PageTranslator(pair.first), PageTranslator(pair.second);
    forall v: nat, w: nat | t(v).Some? && u(w).Some? ensures t(v).value.host != u(w).value.host {
      var f, g := pair.first.table[PageOf(v)].frame, pair.second.table[PageOf(w)].frame;
      FramesApart(f, g, v % PAGE_SIZE, w % PAGE_SIZE);
    }
  }

  /**
   * Two guests whose memory comes from one allocator are isolated. Whatever calls their address spaces have
   * made, in whatever order and failing wherever they failed, neither guest can reach a byte of the other, as
   * long as no host frame is set aside for linear mappings of both: each gets the answers it would get alone.
   */
  lemma GuestsOfOneAllocator(pairs: seq<Pair>, calls: seq<Call>, plan: Plan, n: nat, memory: seq<Byte>,
                             turns: seq<Turn>)
    requires JointRun(pairs, calls) && Respects(pairs, calls, plan) && n <= |calls|
    requires FramesInMemory(pairs[n].first, |memory|) && FramesInMemory(pairs[n].second, |memory|)
    ensures var t, u := PageTranslator(pairs[n].first), PageTranslator(pairs[n].second);
            && InMemory(t, |memory|) && InMemory(u, |memory|)
            && Interleaved(t, u, memory, turns, true) == Alone(t, memory, Mine(turns, true))
            && Interleaved(t, u, memory, turns, false) == Alone(u, memory, Mine(turns, false))
  {
    hide Private, JointStep, StaysWithin;
    PageTranslatorSound(pairs[n].first, |memory|);
    PageTranslatorSound(pairs[n].second, |memory|);
    JointRunPrivate(pairs, calls, plan, n);
    JointRunApart(pairs, calls, n);
    JointRunAvoids(pairs, calls, plan, n);
    PrivateApart(pairs[n], plan);
    GuestsIsolated(PageTranslator(pairs[n].first), PageTranslator(pairs[n].second), memory, turns);
  }
}
