/** Page-table entries for either architecture, and the abstract leaf that a raw word stands for. */
module Pte {
  import opened Flags
  import opened Words
  import opened Entries
  import Ept
  import Stage2

  /** A table slot: never written or cleared, or mapping a frame with some flags. */
  datatype Leaf = Empty | Mapped(frame: nat, flags: MappingFlags)

  /** The attribute bits of a 4K leaf. */
  function LeafBits(arch: Arch, f: MappingFlags): nat {
    match arch
    case X86_64 => Ept.LeafBits(f, false)
    case AArch64 => Stage2.LeafBits(f, false)
  }

  function NewPage(arch: Arch, paddr: nat, f: MappingFlags): nat {
    MakeEntry(arch, paddr, LeafBits(arch, f))
  }

  function SetFlags(arch: Arch, w: nat, f: MappingFlags): nat {
    SetBits(arch, w, LeafBits(arch, f))
  }

  predicate IsPresent(arch: Arch, w: nat) {
    match arch
    case X86_64 => Ept.IsPresent(w)
    case AArch64 => Stage2.IsPresent(w)
  }

  predicate IsHuge(arch: Arch, w: nat) {
    match arch
    case X86_64 => Ept.IsHuge(w)
    case AArch64 => Stage2.IsHuge(w)
  }

  /** Flags that make a leaf present. */
  predicate Presentable(arch: Arch, f: MappingFlags) {
    match arch
    case X86_64 => Ept.Presentable(f)
    case AArch64 => Stage2.Presentable(f)
  }

  predicate Present(arch: Arch, leaf: Leaf) {
    leaf.Mapped? && Presentable(arch, leaf.flags)
  }

  /** The raw word behind a leaf; the all-zero word is unused. */
  function Encode(arch: Arch, leaf: Leaf): nat {
    match leaf
    case Empty => 0
    case Mapped(frame, flags) => NewPage(arch, frame, flags)
  }

  lemma LeafBitsFit(arch: Arch, f: MappingFlags)
    ensures LeafBits(arch, f) < PAGE_SIZE
    ensures LeafBits(arch, f) == 0 <==> arch == X86_64 && !Presentable(arch, f) && (f.IsEmpty() || f.device)
  {
    hide Bits.And, Bits.Or, Ept.LeafBits, Stage2.LeafBits;
    Ept.LeafBitsAre(f, false);
    Stage2.LeafBitsAre(f, false);
  }

  lemma EncodeFits(arch: Arch, leaf: Leaf)
    ensures Encode(arch, leaf) < WORD_LIMIT
  {
    if leaf.Mapped? {
      hide MakeEntry, LeafBits;
      LeafBitsFit(arch, leaf.flags);
      MakeEntryFields(arch, leaf.frame, LeafBits(arch, leaf.flags));
    }
  }

  /** Tests on the raw word answer for the leaf, and no present leaf is a huge page. */
  lemma EncodedLeaf(arch: Arch, leaf: Leaf)
    ensures IsPresent(arch, Encode(arch, leaf)) == Present(arch, leaf)
    ensures Present(arch, leaf) ==> !IsHuge(arch, Encode(arch, leaf))
    ensures leaf.Mapped? ==> Paddr(arch, Encode(arch, leaf)) == FrameAddr(arch, leaf.frame)
  {
    match leaf
    case Empty =>
      Ept.PlaceholderIsUnused();
      Stage2.PlaceholderIsNotUnused();
    case Mapped(frame, flags) =>
      Ept.NewPageRoundTrip(frame, flags, false);
      Stage2.NewPageRoundTrip(frame, flags, false);
  }

  /**
   * The leaf is recorded as the zero word, so that its slot passes for unused: a cleared slot, or on x86_64
   * frame zero mapped without access as device memory or with no flags at all.
   */
  predicate Vacant(arch: Arch, leaf: Leaf) {
    || leaf.Empty?
    || (&& arch == X86_64 && FrameAddr(arch, leaf.frame) == 0
        && !Presentable(arch, leaf.flags) && (leaf.flags.IsEmpty() || leaf.flags.device))
  }

  lemma VacantIsZero(arch: Arch, leaf: Leaf)
    ensures Encode(arch, leaf) == 0 <==> Vacant(arch, leaf)
  {
    if leaf.Mapped? {
      hide MakeEntry, LeafBits;
      LeafBitsFit(arch, leaf.flags);
      MakeEntryFields(arch, leaf.frame, LeafBits(arch, leaf.flags));
    }
  }

  /** Writing an address and flags over any old word leaves the leaf of that address and those flags. */
  lemma RewrittenLeaf(arch: Arch, w: Word, paddr: nat, f: MappingFlags)
    ensures SetFlags(arch, SetPaddr(arch, w, paddr), f) == Encode(arch, Mapped(FrameAddr(arch, paddr), f))
    ensures NewPage(arch, paddr, f) == Encode(arch, Mapped(FrameAddr(arch, paddr), f))
    ensures FrameAddr(arch, FrameAddr(arch, paddr)) == FrameAddr(arch, paddr)
  {
    hide MakeEntry, LeafBits, SetPaddr, SetBits;
    var bits := LeafBits(arch, f);
    LeafBitsFit(arch, f);
    SettersMakeEntry(arch, w, paddr, bits);
    FrameAddrExact(arch, paddr);
    MakeEntryFields(arch, paddr, bits);
    MakeEntryFields(arch, FrameAddr(arch, paddr), bits);
  }
}
