/** The x86_64 extended-page-table entry (Intel SDM Vol. 3C, sections 28.3.2 and 28.3.7), bit for bit. */
module Ept {
  import opened Flags
  import opened Words
  import opened Bits
  import opened Entries

  const READ: nat := 0x1
  const WRITE: nat := 0x2
  const EXECUTE: nat := 0x4
  /** The three-bit memory type starts at this bit. */
  const MEM_TYPE: nat := 0x8
  const MEM_TYPE_MASK: nat := 0x38
  const HUGE_PAGE: nat := 0x80
  const UNCACHED: nat := 0
  const WRITE_BACK: nat := 6

  /** Flag bits of a non-huge leaf. */
  function FlagBits(f: MappingFlags): nat {
    if f.IsEmpty() then 0
    else
      (if f.read then READ else 0) + (if f.write then WRITE else 0) + (if f.execute then EXECUTE else 0)
      + (if f.device then UNCACHED else WRITE_BACK) * MEM_TYPE
  }

  lemma AddRead(bits: nat)
    requires bits == 0
    ensures Or(bits, READ) == READ
  {
  }

  lemma AddWrite(bits: nat)
    requires bits < WRITE
    ensures Or(bits, WRITE) == bits + WRITE
  {
    hide And, Or;
    OrAbove(1, bits, 1);
  }

  lemma AddExecute(bits: nat)
    requires bits < EXECUTE
    ensures Or(bits, EXECUTE) == bits + EXECUTE
  {
    hide And, Or;
    OrAbove(2, bits, 1);
  }

  /** Bits without a memory type are not changed by clearing it. */
  lemma NoMemType(bits: Word)
    requires bits < MEM_TYPE
    ensures And(bits, Not(MEM_TYPE_MASK)) == bits
  {
    hide And, Or;
    Powers();
    ComplementSplits(64, bits, MEM_TYPE_MASK);
    assert Shl(7, 3) == MEM_TYPE_MASK;
    LowApart(3, bits, 7);
  }

  /** Setting the memory type of bits that have none adds it. */
  lemma SetMemType(bits: Word)
    requires bits < MEM_TYPE
    ensures Or(And(bits, Not(MEM_TYPE_MASK)), WRITE_BACK * MEM_TYPE) == bits + WRITE_BACK * MEM_TYPE
  {
    hide And, Or;
    NoMemType(bits);
    assert Shl(WRITE_BACK, 3) == WRITE_BACK * MEM_TYPE;
    OrAbove(3, bits, WRITE_BACK);
  }

  /**
   * What the flag bits of a set mean. They stay clear of the address and of the huge bit, are present when some
   * access is granted, and read back as what an entry can record of the set, unless the set is empty.
   */
  predicate Means(bits: nat, f: MappingFlags) {
    && bits < HUGE_PAGE && And(bits, AddrMask(X86_64)) == 0
    && IsPresent(bits) == Presentable(f)
    && DecodeFlags(bits) == if f.IsEmpty() then NO_FLAGS.(device := true) else f.Recorded()
  }

  function LeafBits(f: MappingFlags, huge: bool): nat {
    if huge then Or(FlagBits(f), HUGE_PAGE) else FlagBits(f)
  }

  function NewPage(paddr: nat, f: MappingFlags, huge: bool): nat {
    MakeEntry(X86_64, paddr, LeafBits(f, huge))
  }

  function SetFlags(w: nat, f: MappingFlags, huge: bool): nat {
    SetBits(X86_64, w, LeafBits(f, huge))
  }

  function DecodeFlags(w: nat): MappingFlags {
    MappingFlags(HasBits(w, READ), HasBits(w, WRITE), HasBits(w, EXECUTE), false,
                 Field(w, MEM_TYPE, 8) == UNCACHED, false)
  }

  predicate IsPresent(w: nat) {
    And(w, 0x7) != 0
  }

  predicate IsHuge(w: nat) {
    HasBits(w, HUGE_PAGE)
  }

  /** Flags that give some access right, so that a page entry made with them is present. */
  predicate Presentable(f: MappingFlags) {
    f.read || f.write || f.execute
  }

  /** The tests of the code read single bits and fields. */
  lemma TestsReadBits(w: nat)
    ensures HasBits(w, READ) == Bit(w, READ) && HasBits(w, WRITE) == Bit(w, WRITE)
    ensures HasBits(w, EXECUTE) == Bit(w, EXECUTE) && IsHuge(w) == Bit(w, HUGE_PAGE)
    ensures IsPresent(w) <==> Field(w, READ, 8) != 0
  {
    hide And, Or;
    OneBit(w, 0, READ, w / READ, 0);
    OneBit(w, 1, WRITE, w / WRITE, w % WRITE);
    OneBit(w, 2, EXECUTE, w / EXECUTE, w % EXECUTE);
    OneBit(w, 7, HUGE_PAGE, w / HUGE_PAGE, w % HUGE_PAGE);
    MaskReadsField(w, 0, 3, 1, 8, w / 8, w % 8, 0);
  }

  /** The bits of a leaf, and that none of them lies in the address field. */
  lemma LeafBitsAre(f: MappingFlags, huge: bool)
    ensures LeafBits(f, huge) == FlagBits(f) + if huge then HUGE_PAGE else 0
    ensures FlagBits(f) < HUGE_PAGE && LeafBits(f, huge) < PAGE_SIZE
  {
    hide And, Or;
    OrAbove(7, FlagBits(f), 1);
  }

  /** Attribute tests look at the low field only. */
  lemma LowFieldDecides(w: nat)
    ensures DecodeFlags(w) == DecodeFlags(Low(w))
    ensures IsPresent(w) == IsPresent(Low(w))
    ensures IsHuge(w) == IsHuge(Low(w))
  {
    hide And, Or;
    TestsReadBits(w);
    TestsReadBits(Low(w));
    LowField(w, READ, 2, 2048);
    LowField(w, WRITE, 2, 1024);
    LowField(w, EXECUTE, 2, 512);
    LowField(w, MEM_TYPE, 8, 64);
    LowField(w, READ, 8, 512);
    LowField(w, HUGE_PAGE, 2, 16);
  }

  /** What the attribute tests find in the flag bits of a leaf. */
  lemma LeafBitsDecode(f: MappingFlags, huge: bool)
    ensures DecodeFlags(LeafBits(f, huge)) == if f.IsEmpty() then NO_FLAGS.(device := true) else f.Recorded()
    ensures IsPresent(LeafBits(f, huge)) == Presentable(f)
    ensures IsHuge(LeafBits(f, huge)) == huge
  {
    hide And, Or;
    LeafBitsAre(f, huge);
    TestsReadBits(LeafBits(f, huge));
    SumFields(f, huge);
  }

  /** The fields of the sum of the flag bits. */
  lemma SumFields(f: MappingFlags, huge: bool)
    ensures var bits := FlagBits(f) + if huge then HUGE_PAGE else 0;
            && Bit(bits, READ) == f.read && Bit(bits, WRITE) == f.write && Bit(bits, EXECUTE) == f.execute
            && (Field(bits, MEM_TYPE, 8) == UNCACHED <==> f.device || f.IsEmpty())
            && (Field(bits, READ, 8) != 0 <==> Presentable(f)) && Bit(bits, HUGE_PAGE) == huge
  {
    if f.read {
    } else if f.write {
    } else if f.execute {
    }
  }

  lemma FlagBitsMean(f: MappingFlags)
    ensures Means(FlagBits(f), f) && FlagBits(f) == LeafNumber(f, false)
  {
    hide And, Or;
    LeafBitsAre(f, false);
    MaskReadsFrame(X86_64, FlagBits(f));
    LeafBitsDecode(f, false);
  }

  // ----- the entry in the numbers of the manual

  /** The attribute bits of a leaf: access in bits 0..3, the memory type in bits 3..6, the size in bit 7. */
  function LeafNumber(f: MappingFlags, huge: bool): nat {
    (if f.read then 1 else 0) + (if f.write then 2 else 0) + (if f.execute then 4 else 0)
    + (if f.device || f == MappingFlags(false, false, false, false, false, false) then 0 else 6 * 8)
    + (if huge then 128 else 0)
  }

  /** The whole word of a page entry, freshly made or with its flags replaced. */
  lemma PageInNumbers(w: nat, paddr: nat, f: MappingFlags, huge: bool)
    ensures NewPage(paddr, f, huge) == paddr / 4096 % 0x100_0000_0000 * 4096 + LeafNumber(f, huge)
    ensures SetFlags(w, f, huge) == w / 4096 % 0x100_0000_0000 * 4096 + LeafNumber(f, huge)
  {
    hide And, Or;
    LeafBitsAre(f, huge);
    MakeEntryFields(X86_64, paddr, LeafBits(f, huge));
    SetBitsFields(X86_64, w, LeafBits(f, huge));
  }

  /** What the tests of the entry find in any word. */
  lemma TestsInNumbers(w: nat)
    ensures DecodeFlags(w) ==
            MappingFlags(w % 2 == 1, w / 2 % 2 == 1, w / 4 % 2 == 1, false, w / 8 % 8 == 0, false)
    ensures IsPresent(w) <==> w % 8 != 0
    ensures IsHuge(w) <==> w / 128 % 2 == 1
  {
    hide And, Or;
    TestsReadBits(w);
  }

  // ----- what the entry promises

  /** Each setter alone leaves what is read from the other's field as it was, whatever the old word. */
  lemma SettersKeepOtherField(w: Word, paddr: nat, f: MappingFlags, huge: bool)
    ensures Paddr(X86_64, SetFlags(w, f, huge)) == Paddr(X86_64, w)
    ensures var w' := SetPaddr(X86_64, w, paddr);
            DecodeFlags(w') == DecodeFlags(w) && IsPresent(w') == IsPresent(w) && IsHuge(w') == IsHuge(w)
  {
    hide And, Or, DecodeFlags, IsPresent, IsHuge;
    LeafBitsAre(f, huge);
    SettersKeepFields(X86_64, w, paddr, LeafBits(f, huge));
    LowFieldDecides(w);
    LowFieldDecides(SetPaddr(X86_64, w, paddr));
  }

  /** Address, size bit and presence survive the encoding; the flags do exactly for a non-empty set. */
  lemma NewPageRoundTrip(paddr: nat, f: MappingFlags, huge: bool)
    ensures Paddr(X86_64, NewPage(paddr, f, huge)) == FrameAddr(X86_64, paddr)
    ensures IsHuge(NewPage(paddr, f, huge)) == huge
    ensures IsPresent(NewPage(paddr, f, huge)) == Presentable(f)
    ensures DecodeFlags(NewPage(paddr, f, huge)) == f.Recorded() <==> !f.IsEmpty()
  {
    hide And, Or, DecodeFlags, IsPresent, IsHuge;
    LeafBitsAre(f, huge);
    EntryParts(X86_64, paddr, LeafBits(f, huge));
    LowFieldDecides(NewPage(paddr, f, huge));
    LeafBitsDecode(f, huge);
  }

  /** The empty flag set is recorded as no bits at all, which reads back as uncached device memory. */
  lemma EmptyFlagsReadBackAsDevice(paddr: nat, huge: bool)
    ensures DecodeFlags(NewPage(paddr, NO_FLAGS, huge)) == NO_FLAGS.(device := true)
  {
    hide And, Or, DecodeFlags;
    LeafBitsAre(NO_FLAGS, huge);
    EntryParts(X86_64, paddr, LeafBits(NO_FLAGS, huge));
    LowFieldDecides(NewPage(paddr, NO_FLAGS, huge));
    LeafBitsDecode(NO_FLAGS, huge);
  }

  /** The placeholder of a lazy mapping is the all-zero word: unused and not present. */
  lemma PlaceholderIsUnused()
    ensures NewPage(0, NO_FLAGS, false) == 0
    ensures !IsPresent(0) && !IsHuge(0)
  {
  }
}
