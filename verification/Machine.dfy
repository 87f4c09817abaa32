/** The two services the address space drives: the nested page table and the frame allocator. */
module Machine {
  import opened Flags
  import opened Entries
  import opened Pte
  import opened Spaces

  datatype MapOutcome = Done | AlreadyMapped | NoMemory

  /**
   * A flat nested page table over raw words. `leaves` is the abstract value of the words.
   * Intermediate tables are not modelled, except that creating a slot may run out of memory.
   */
  class PageTable {
    const arch: Arch
    var words: map<nat, nat>
    ghost var leaves: map<nat, Leaf>
    /** How often there was no memory for a new slot. */
    ghost var refusals: nat

    ghost predicate Valid()
      reads this
    {
      && words.Keys == leaves.Keys
      && forall p {:trigger words[p]} :: p in words ==>
           && words[p] == Encode(arch, leaves[p])
           && (leaves[p].Mapped? ==> FrameAddr(arch, leaves[p].frame) == leaves[p].frame)
    }

    constructor (arch: Arch)
      ensures Valid() && leaves == map[] && this.arch == arch
    {
      this.arch := arch;
      words := map[];
      leaves, refusals := map[], 0;
    }

    /** Maps one page; a slot that is not unused is refused. */
    method Map(p: nat, target: nat, flags: MappingFlags) returns (r: MapOutcome)
      requires Valid()
      modifies this
      ensures Valid()
      ensures r == AlreadyMapped <==> Occupied(arch, old(leaves), p)
      ensures r == NoMemory ==> p !in old(leaves)
      ensures refusals == old(refusals) + if r == NoMemory then 1 else 0
      ensures leaves == if r == Done then old(leaves)[p := Mapped(FrameAddr(arch, target), flags)] else old(leaves)
    {
      if p in words {
        VacantIsZero(arch, leaves[p]);
      }
      if p in words && words[p] != 0 {
        return AlreadyMapped;
      }
      var starved: bool := *;
      if p !in words && starved {
        refusals := refusals + 1;
        return NoMemory;
      }
      RewrittenLeaf(arch, 0, target, flags);
      words := words[p := NewPage(arch, target, flags)];
      leaves := leaves[p := Mapped(FrameAddr(arch, target), flags)];
      r := Done;
    }

    /** Overwrites an existing slot in place. */
    method Remap(p: nat, target: nat, flags: MappingFlags) returns (ok: bool)
      requires Valid()
      modifies this
      ensures Valid()
      ensures refusals == old(refusals)
      ensures ok <==> p in old(leaves)
      ensures leaves == if ok then old(leaves)[p := Mapped(FrameAddr(arch, target), flags)] else old(leaves)
    {
      if p !in words {
        return false;
      }
      EncodeFits(arch, leaves[p]);
      RewrittenLeaf(arch, words[p], target, flags);
      words := words[p := SetFlags(arch, SetPaddr(arch, words[p], target), flags)];
      leaves := leaves[p := Mapped(FrameAddr(arch, target), flags)];
      ok := true;
    }

    /** Clears a present slot and returns its frame; a slot that is not present may or may not be cleared. */
    method Unmap(p: nat) returns (r: Option<nat>, huge: bool)
      requires Valid()
      modifies this
      ensures Valid()
      ensures leaves.Keys == old(leaves).Keys
      ensures forall q :: q in leaves && q != p ==> leaves[q] == old(leaves)[q]
      ensures p in leaves ==> Erase(arch, old(leaves)[p], leaves[p])
      ensures r.Some? <==> p in old(leaves) && Present(arch, old(leaves)[p])
      ensures r.Some? ==> !huge && r.value == old(leaves)[p].frame
    {
      huge := false;
      if p !in words {
        return None, false;
      }
      var w := words[p];
      EncodedLeaf(arch, leaves[p]);
      if !IsPresent(arch, w) {
        var wipe: bool := *;
        if wipe {
          words := words[p := 0];
          leaves := leaves[p := Empty];
        }
        return None, false;
      }
      huge := IsHuge(arch, w);
      r := Some(Paddr(arch, w));
      words := words[p := 0];
      leaves := leaves[p := Empty];
    }

    /** The frame behind a present page. */
    method Query(p: nat) returns (r: Option<nat>)
      requires Valid()
      ensures r == if p in leaves && Present(arch, leaves[p]) then Some(leaves[p].frame) else None
    {
      if p !in words {
        return None;
      }
      EncodedLeaf(arch, leaves[p]);
      r := if IsPresent(arch, words[p]) then Some(Paddr(arch, words[p])) else None;
    }
  }

  /** The frame allocator: any page-aligned frame not outstanding, or nothing. */
  class Hal {
    const arch: Arch
    var owned: set<nat>
    var allocs: nat
    var deallocs: nat
    /** How often a request was turned down. */
    ghost var refusals: nat

    constructor (arch: Arch)
      ensures owned == {} && allocs == 0 && deallocs == 0 && this.arch == arch
    {
      this.arch := arch;
      owned, allocs, deallocs, refusals := {}, 0, 0, 0;
    }

    method AllocFrame() returns (r: Option<nat>)
      modifies this
      ensures deallocs == old(deallocs)
      ensures match r
              case None => owned == old(owned) && allocs == old(allocs) && refusals == old(refusals) + 1
              case Some(f) =>
                && refusals == old(refusals)
                && f !in old(owned) && Aligned(f) && FrameAddr(arch, f) == f
                && owned == old(owned) + {f} && allocs == old(allocs) + 1
    {
      var f: nat := *;
      if f in owned || !Aligned(f) || FrameAddr(arch, f) != f {
        refusals := refusals + 1;
        return None;
      }
      owned, allocs := owned + {f}, allocs + 1;
      r := Some(f);
    }

    /** Giving back a frame that is not outstanding is a double free: callers must exclude it. */
    method DeallocFrame(f: nat)
      requires f in owned
      modifies this
      ensures owned == old(owned) - {f} && deallocs == old(deallocs) + 1 && allocs == old(allocs)
    {
      owned, deallocs := owned - {f}, deallocs + 1;
    }
  }
}
