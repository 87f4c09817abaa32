/** The AArch64 stage-2 descriptor (VMSAv8-64, Arm ARM DDI 0487, section D8.3), bit for bit. */
module Stage2 {
  import opened Flags
  import opened Words
  import opened Bits
  import opened Entries

  const VALID: nat := 0x1
  const NON_BLOCK: nat := 0x2
  const S2AP_RO: nat := 0x40
  const S2AP_WO: nat := 0x80
  const SHAREABLE: nat := 0x200
  const AF: nat := 0x400
  const XN: nat := 0x40_0000_0000_0000
  /** The four-bit memory attribute, and its values. */
  const ATTR_INDEX_MASK: nat := 0x3c
  const INNER_WRITE_BACK: nat := 0xc
  const OUTER_WRITE_BACK: nat := 0x30
  const OUTER_NON_CACHE: nat := 0x10

  datatype MemType = Device | Normal | NormalNonCache

  function MemTypeBits(m: MemType): nat {
    match m
    case Normal => Or(Or(INNER_WRITE_BACK, OUTER_WRITE_BACK), SHAREABLE)
    case NormalNonCache => Or(Or(INNER_WRITE_BACK, OUTER_NON_CACHE), SHAREABLE)
    case Device => SHAREABLE
  }

  /** The memory type read back from a descriptor; `None` stands for the panic on an unknown index. */
  function ReadMemType(w: nat): Option<MemType> {
    var index := And(w, ATTR_INDEX_MASK);
    if index == Or(INNER_WRITE_BACK, OUTER_WRITE_BACK) then Some(Normal)
    else if index == OUTER_NON_CACHE then Some(NormalNonCache)
    else if index == 0 then Some(Device)
    else None
  }

  function MemTypeOf(f: MappingFlags): MemType {
    if !f.device then Normal else if f.uncached then NormalNonCache else Device
  }

  /** Attribute bits of a flag set. */
  function FlagBits(f: MappingFlags): nat {
    (match MemTypeOf(f) case Normal => 0x23c case NormalNonCache => 0x21c case Device => 0x200)
    + (if f.read then VALID + S2AP_RO else 0)
    + (if f.write then S2AP_WO else 0)
  }

  lemma NormalIndex()
    ensures Or(INNER_WRITE_BACK, OUTER_WRITE_BACK) == 0x3c
  {
    hide And, Or;
    assert Shl(1, 4) == 16 && Shl(3, 4) == OUTER_WRITE_BACK;
    OrAbove(4, INNER_WRITE_BACK, 3);
  }

  lemma NonCacheIndex()
    ensures Or(INNER_WRITE_BACK, OUTER_NON_CACHE) == 0x1c
  {
    hide And, Or;
    assert Shl(1, 4) == OUTER_NON_CACHE;
    OrAbove(4, INNER_WRITE_BACK, 1);
  }

  lemma Shareable(index: nat)
    requires index < SHAREABLE
    ensures Or(index, SHAREABLE) == index + SHAREABLE
  {
    hide And, Or;
    assert Shl(1, 9) == SHAREABLE;
    OrAbove(9, index, 1);
  }

  lemma MemTypeBitsAre()
    ensures MemTypeBits(Normal) == 0x23c && MemTypeBits(NormalNonCache) == 0x21c && MemTypeBits(Device) == 0x200
  {
    hide And, Or;
    NormalIndex();
    NonCacheIndex();
    Shareable(0x3c);
    Shareable(0x1c);
  }

  /** The access bits are not among those of a memory type. */
  lemma AccessBits(attr: nat)
    requires attr % 0x80 < S2AP_RO && attr % 2 == 0
    ensures Or(attr, Or(VALID, S2AP_RO)) == attr + (VALID + S2AP_RO)
  {
    hide And, Or;
    OrAssociates(attr, VALID, S2AP_RO);
    OrBit(attr, 0, VALID, attr / 2, 0);
    OrBit(attr + VALID, 6, S2AP_RO, (attr + VALID) / 0x80, (attr + VALID) % 0x80);
  }

  lemma WriteBit(attr: nat)
    requires attr % 0x100 < S2AP_WO
    ensures Or(attr, S2AP_WO) == attr + S2AP_WO
  {
    hide And, Or;
    OrBit(attr, 7, S2AP_WO, attr / 0x100, attr % 0x100);
  }

  /**
   * What the attribute bits of a flag set mean. They stay clear of the address, of the access flag and of the
   * block bit; only READ makes them valid, and only uncached device memory does not read back as a memory type.
   */
  predicate Means(attr: nat, f: MappingFlags) {
    && attr < AF && And(attr, AddrMask(AArch64)) == 0 && !HasBits(attr, NON_BLOCK)
    && HasBits(attr, VALID) == f.read
    && HasBits(attr, S2AP_WO) == f.write
    && ReadMemType(attr) == if MemTypeOf(f) == NormalNonCache then None else Some(MemTypeOf(f))
  }

  function LeafBits(f: MappingFlags, huge: bool): nat {
    var attr := Or(FlagBits(f), AF);
    if huge then attr else Or(attr, NON_BLOCK)
  }

  function NewPage(paddr: nat, f: MappingFlags, huge: bool): nat {
    MakeEntry(AArch64, paddr, LeafBits(f, huge))
  }

  function SetFlags(w: nat, f: MappingFlags, huge: bool): nat {
    SetBits(AArch64, w, LeafBits(f, huge))
  }

  /** The flags read back from a descriptor; `None` stands for the panic on an unknown memory index. */
  function DecodeFlags(w: nat): Option<MappingFlags> {
    match ReadMemType(w)
    case None => None
    case Some(m) =>
      Some(MappingFlags(HasBits(w, VALID), !HasBits(w, S2AP_WO), !HasBits(w, XN), false, m == Device, false))
  }

  predicate IsPresent(w: nat) {
    HasBits(w, VALID)
  }

  predicate IsHuge(w: nat) {
    !HasBits(w, NON_BLOCK)
  }

  /** Only READ sets the valid bit. */
  predicate Presentable(f: MappingFlags) {
    f.read
  }

  lemma ExecuteNeverBit(w: nat)
    ensures HasBits(w, XN) == Bit(w, XN)
  {
    hide And, Or;
    Powers();
    ShlSum(1, 36, 18);
    ShlIsProduct(0x10_0000_0000, 18);
    assert Shl(1, 18) == 0x4_0000;
    OneBit(w, 54, XN, w / XN, w % XN);
  }

  /** The tests of the code read single bits. */
  lemma TestsReadBits(w: nat)
    ensures HasBits(w, VALID) == Bit(w, VALID) && HasBits(w, NON_BLOCK) == Bit(w, NON_BLOCK)
    ensures HasBits(w, S2AP_WO) == Bit(w, S2AP_WO)
  {
    hide And, Or;
    OneBit(w, 0, VALID, w / VALID, 0);
    OneBit(w, 1, NON_BLOCK, w / NON_BLOCK, w % NON_BLOCK);
    OneBit(w, 7, S2AP_WO, w / S2AP_WO, w % S2AP_WO);
  }

  /** The memory type is read from the four bits from bit 2 up. */
  lemma MemTypeReadsField(w: nat)
    ensures And(w, ATTR_INDEX_MASK) == 4 * Field(w, 4, 16)
  {
    hide And, Or;
    var f := w / 4 % 16;
    assert Shl(15, 2) == ATTR_INDEX_MASK && Shl(f, 1) == 2 * f;
    MaskReadsField(w, 2, 4, 4, 16, w / 4 / 16, f, w % 4);
  }

  lemma FlagBitsGap(f: MappingFlags)
    ensures FlagBits(f) < AF && FlagBits(f) % 4 < NON_BLOCK
  {
  }

  lemma AddAccessFlag(attr: nat)
    requires attr < AF
    ensures Or(attr, AF) == attr + AF
  {
    hide And, Or;
    assert Shl(1, 10) == AF;
    OrAbove(10, attr, 1);
  }

  lemma AddNonBlock(attr: nat)
    requires attr % 4 < NON_BLOCK
    ensures Or(attr, NON_BLOCK) == attr + NON_BLOCK
  {
    hide And, Or;
    OrBit(attr, 1, NON_BLOCK, attr / 4, attr % 4);
  }

  /** The bits of a leaf lie below the address field. */
  lemma LeafBitsAre(f: MappingFlags, huge: bool)
    ensures LeafBits(f, huge) == FlagBits(f) + AF + if huge then 0 else NON_BLOCK
    ensures FlagBits(f) < AF && LeafBits(f, huge) < PAGE_SIZE
  {
    hide And, Or;
    FlagBitsGap(f);
    AddAccessFlag(FlagBits(f));
    AddNonBlock(FlagBits(f) + AF);
  }

  /** Attribute tests look at the low field, and at the execute-never bit of the high one. */
  lemma OuterFieldsDecide(w: nat)
    ensures ReadMemType(w) == ReadMemType(Low(w))
    ensures HasBits(w, VALID) == HasBits(Low(w), VALID)
    ensures HasBits(w, S2AP_WO) == HasBits(Low(w), S2AP_WO)
    ensures HasBits(w, NON_BLOCK) == HasBits(Low(w), NON_BLOCK)
    ensures HasBits(w, XN) == Bit(High(AArch64, w), XN / AddrSpan(AArch64))
  {
    hide And, Or;
    TestsReadBits(w);
    TestsReadBits(Low(w));
    MemTypeReadsField(w);
    MemTypeReadsField(Low(w));
    ExecuteNeverBit(w);
    LowField(w, 4, 16, 64);
    LowField(w, VALID, 2, 2048);
    LowField(w, S2AP_WO, 2, 16);
    LowField(w, NON_BLOCK, 2, 1024);
    assert w / XN == w / 0x1_0000_0000_0000 / 0x40;
    assert XN / AddrSpan(AArch64) == 0x40;
  }

  /** The fields of the sum of the attribute bits. */
  lemma SumFields(f: MappingFlags, rest: nat)
    requires rest == 0 || rest == AF || rest == AF + NON_BLOCK
    ensures var bits := FlagBits(f) + rest;
            && Bit(bits, VALID) == f.read && Bit(bits, S2AP_WO) == f.write
            && Bit(bits, NON_BLOCK) == (rest == AF + NON_BLOCK)
  {
    if f.read {
    } else if f.write {
    }
  }

  lemma SumMemType(f: MappingFlags, rest: nat)
    requires rest == 0 || rest == AF || rest == AF + NON_BLOCK
    ensures 4 * Field(FlagBits(f) + rest, 4, 16) ==
            match MemTypeOf(f) case Normal => 0x3c case NormalNonCache => 0x1c case Device => 0
  {
    if f.read {
    } else if f.write {
    }
  }

  /** What the attribute tests find in the attribute bits of a flag set, alone or with those of a leaf. */
  lemma TestsOfSum(f: MappingFlags, rest: nat, bits: nat)
    requires bits == FlagBits(f) + rest && (rest == 0 || rest == AF || rest == AF + NON_BLOCK)
    ensures ReadMemType(bits) == if MemTypeOf(f) == NormalNonCache then None else Some(MemTypeOf(f))
    ensures HasBits(bits, VALID) == f.read && HasBits(bits, S2AP_WO) == f.write
    ensures HasBits(bits, NON_BLOCK) == (rest == AF + NON_BLOCK)
  {
    hide And, Or;
    TestsReadBits(bits);
    SumFields(f, rest);
    MemTypeReadsField(bits);
    NormalIndex();
    SumMemType(f, rest);
  }

  lemma FlagBitsMean(f: MappingFlags)
    ensures Means(FlagBits(f), f)
  {
    hide And, Or;
    FlagBitsGap(f);
    MaskReadsFrame(AArch64, FlagBits(f));
    TestsOfSum(f, 0, FlagBits(f));
  }

  lemma LeafBitsDecode(f: MappingFlags, huge: bool)
    ensures ReadMemType(LeafBits(f, huge)) == if MemTypeOf(f) == NormalNonCache then None else Some(MemTypeOf(f))
    ensures HasBits(LeafBits(f, huge), VALID) == f.read
    ensures HasBits(LeafBits(f, huge), S2AP_WO) == f.write
    ensures HasBits(LeafBits(f, huge), NON_BLOCK) == !huge
  {
    hide And, Or;
    LeafBitsAre(f, huge);
    TestsOfSum(f, if huge then AF else AF + NON_BLOCK, LeafBits(f, huge));
  }

  // ----- the descriptor in the numbers of the manual

  /**
   * The attribute bits of a leaf: valid and read access in bits 0 and 6, write access in bit 7, the memory type in
   * bits 2..6, shareable in bit 9, the access flag in bit 10, and bit 1 for a page that is not a block.
   */
  function LeafNumber(f: MappingFlags, huge: bool): nat {
    (if f.read then 1 + 64 else 0) + (if f.write then 128 else 0)
    + (if !f.device then 15 * 4 else if f.uncached then 7 * 4 else 0)
    + 512 + 1024 + (if huge then 0 else 2)
  }

  /** The whole word of a page descriptor, freshly made or with its flags replaced. */
  lemma PageInNumbers(w: nat, paddr: nat, f: MappingFlags, huge: bool)
    ensures NewPage(paddr, f, huge) == paddr / 4096 % 0x10_0000_0000 * 4096 + LeafNumber(f, huge)
    ensures SetFlags(w, f, huge) == w / 4096 % 0x10_0000_0000 * 4096 + LeafNumber(f, huge)
  {
    hide And, Or;
    LeafBitsAre(f, huge);
    MakeEntryFields(AArch64, paddr, LeafBits(f, huge));
    SetBitsFields(AArch64, w, LeafBits(f, huge));
  }

  /** What the tests of the descriptor find in any word; the decoder panics on all other memory types. */
  lemma TestsInNumbers(w: nat)
    ensures DecodeFlags(w) ==
            if w / 4 % 16 == 15 || w / 4 % 16 == 4 || w / 4 % 16 == 0
            then Some(MappingFlags(w % 2 == 1, w / 128 % 2 == 0, w / 0x40_0000_0000_0000 % 2 == 0, false,
                                   w / 4 % 16 == 0, false))
            else None
    ensures IsPresent(w) <==> w % 2 == 1
    ensures IsHuge(w) <==> w / 2 % 2 == 0
  {
    hide And, Or;
    TestsReadBits(w);
    MemTypeReadsField(w);
    NormalIndex();
    ExecuteNeverBit(w);
  }

  // ----- what the descriptor promises

  /** Each setter alone leaves what is read from the other's field as it was, whatever the old word. */
  lemma SettersKeepOtherField(w: Word, paddr: nat, f: MappingFlags, huge: bool)
    ensures Paddr(AArch64, SetFlags(w, f, huge)) == Paddr(AArch64, w)
    ensures var w' := SetPaddr(AArch64, w, paddr);
            DecodeFlags(w') == DecodeFlags(w) && IsPresent(w') == IsPresent(w) && IsHuge(w') == IsHuge(w)
  {
    hide And, Or;
    LeafBitsAre(f, huge);
    SettersKeepFields(AArch64, w, paddr, LeafBits(f, huge));
    OuterFieldsDecide(w);
    OuterFieldsDecide(SetPaddr(AArch64, w, paddr));
  }

  /** Address, size bit and presence survive the encoding. */
  lemma NewPageRoundTrip(paddr: nat, f: MappingFlags, huge: bool)
    ensures Paddr(AArch64, NewPage(paddr, f, huge)) == FrameAddr(AArch64, paddr)
    ensures IsHuge(NewPage(paddr, f, huge)) == huge
    ensures IsPresent(NewPage(paddr, f, huge)) == Presentable(f)
  {
    hide And, Or;
    LeafBitsAre(f, huge);
    EntryParts(AArch64, paddr, LeafBits(f, huge));
    OuterFieldsDecide(NewPage(paddr, f, huge));
    LeafBitsDecode(f, huge);
  }

  /**
   * Flags never survive the encoding. Reading them back panics exactly for uncached device memory;
   * otherwise READ and DEVICE are kept, WRITE comes back inverted and EXECUTE is always reported.
   */
  lemma FlagsReadBack(paddr: nat, f: MappingFlags, huge: bool)
    ensures DecodeFlags(NewPage(paddr, f, huge)) ==
            if f.device && f.uncached then None
            else Some(MappingFlags(f.read, !f.write, true, false, f.device, false))
  {
    hide And, Or;
    LeafBitsAre(f, huge);
    EntryParts(AArch64, paddr, LeafBits(f, huge));
    OuterFieldsDecide(NewPage(paddr, f, huge));
    LeafBitsDecode(f, huge);
  }

  /** Unlike on x86_64 the placeholder of a lazy mapping is a non-zero word, still not present. */
  lemma PlaceholderIsNotUnused()
    ensures NewPage(0, NO_FLAGS, false) != 0
    ensures !IsPresent(NewPage(0, NO_FLAGS, false)) && !IsPresent(0)
  {
    NewPageRoundTrip(0, NO_FLAGS, false);
    LeafBitsAre(NO_FLAGS, false);
    EntryParts(AArch64, 0, LeafBits(NO_FLAGS, false));
  }
}
