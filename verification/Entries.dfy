/**
 * What the two page-table entry formats share: an address field from bit 12 up, as wide as physical addresses
 * are, and attribute bits around it.
 */
module Entries {
  import opened Flags
  import opened Words
  import opened Bits

  /** How many frame numbers an entry can hold: 40 bits of them on x86_64, 36 on AArch64. */
  function FrameSpan(arch: Arch): nat {
    match arch
    case X86_64 => 0x100_0000_0000
    case AArch64 => 0x10_0000_0000
  }

  /** One more than the largest physical address. */
  function AddrSpan(arch: Arch): nat {
    match arch
    case X86_64 => 0x10_0000_0000_0000
    case AArch64 => 0x1_0000_0000_0000
  }

  /** Bits 12..52 on x86_64, bits 12..48 on AArch64. */
  function AddrMask(arch: Arch): Word {
    match arch
    case X86_64 => 0x000f_ffff_ffff_f000
    case AArch64 => 0x0000_ffff_ffff_f000
  }

  // ----- a word as three fields

  /** The word with the given fields. */
  function Compose(arch: Arch, high: nat, frame: nat, low: nat): nat {
    match arch
    case X86_64 => high * 0x10_0000_0000_0000 + frame * PAGE_SIZE + low
    case AArch64 => high * 0x1_0000_0000_0000 + frame * PAGE_SIZE + low
  }

  function High(arch: Arch, w: nat): nat {
    match arch
    case X86_64 => w / 0x10_0000_0000_0000
    case AArch64 => w / 0x1_0000_0000_0000
  }

  function Frame(arch: Arch, w: nat): nat {
    match arch
    case X86_64 => (w / PAGE_SIZE) % 0x100_0000_0000
    case AArch64 => (w / PAGE_SIZE) % 0x10_0000_0000
  }

  function Low(w: nat): nat {
    w % PAGE_SIZE
  }

  /** Every word is determined by its three fields ... */
  lemma WordOfFields(arch: Arch, w: nat)
    ensures w == Compose(arch, High(arch, w), Frame(arch, w), Low(w))
    ensures Frame(arch, w) < FrameSpan(arch) && Low(w) < PAGE_SIZE
  {
    match arch
    case X86_64 => Word52(w);
    case AArch64 => Word48(w);
  }

  lemma Word52(w: nat)
    ensures w == w / 0x10_0000_0000_0000 * 0x10_0000_0000_0000 + w / PAGE_SIZE % 0x100_0000_0000 * PAGE_SIZE
                 + w % PAGE_SIZE
  {
    assert w / 0x10_0000_0000_0000 == w / PAGE_SIZE / 0x100_0000_0000;
  }

  lemma Word48(w: nat)
    ensures w == w / 0x1_0000_0000_0000 * 0x1_0000_0000_0000 + w / PAGE_SIZE % 0x10_0000_0000 * PAGE_SIZE
                 + w % PAGE_SIZE
  {
    assert w / 0x1_0000_0000_0000 == w / PAGE_SIZE / 0x10_0000_0000;
  }

  /** ... and the fields can be chosen freely. */
  lemma FieldsOfWord(arch: Arch, high: nat, frame: nat, low: nat)
    requires frame < FrameSpan(arch) && low < PAGE_SIZE
    ensures var w := Compose(arch, high, frame, low);
            High(arch, w) == high && Frame(arch, w) == frame && Low(w) == low
  {
    match arch
    case X86_64 => Fields52(high, frame, low);
    case AArch64 => Fields48(high, frame, low);
  }

  lemma Fields52(high: nat, frame: nat, low: nat)
    requires frame < 0x100_0000_0000 && low < PAGE_SIZE
    ensures var w := high * 0x10_0000_0000_0000 + frame * PAGE_SIZE + low;
            w / 0x10_0000_0000_0000 == high && w / PAGE_SIZE % 0x100_0000_0000 == frame && w % PAGE_SIZE == low
  {
  }

  lemma Fields48(high: nat, frame: nat, low: nat)
    requires frame < 0x10_0000_0000 && low < PAGE_SIZE
    ensures var w := high * 0x1_0000_0000_0000 + frame * PAGE_SIZE + low;
            w / 0x1_0000_0000_0000 == high && w / PAGE_SIZE % 0x10_0000_0000 == frame && w % PAGE_SIZE == low
  {
  }

  /** The part of an address that an entry can hold: page-aligned and below the physical width. */
  function FrameAddr(arch: Arch, paddr: nat): nat {
    Frame(arch, paddr) * PAGE_SIZE
  }

  lemma MaskReads52(w: nat)
    ensures And(w, 0x000f_ffff_ffff_f000) == w / PAGE_SIZE % 0x100_0000_0000 * PAGE_SIZE
  {
    hide And, Or;
    var f := w / PAGE_SIZE % 0x100_0000_0000;
    Powers();
    MaskReadsField(w, 12, 40, PAGE_SIZE, 0x100_0000_0000, w / 0x10_0000_0000_0000, f, w % PAGE_SIZE);
    ShlIsProduct(0xff_ffff_ffff, 12);
    ShlIsProduct(f, 12);
  }

  lemma MaskReads48(w: nat)
    ensures And(w, 0x0000_ffff_ffff_f000) == w / PAGE_SIZE % 0x10_0000_0000 * PAGE_SIZE
  {
    hide And, Or;
    var f := w / PAGE_SIZE % 0x10_0000_0000;
    Powers();
    MaskReadsField(w, 12, 36, PAGE_SIZE, 0x10_0000_0000, w / 0x1_0000_0000_0000, f, w % PAGE_SIZE);
    ShlIsProduct(0xf_ffff_ffff, 12);
    ShlIsProduct(f, 12);
  }

  /** Masking with the address mask keeps exactly the bits of the address field. */
  lemma MaskReadsFrame(arch: Arch, w: nat)
    ensures And(w, AddrMask(arch)) == FrameAddr(arch, w)
  {
    hide And, Or;
    match arch
    case X86_64 => MaskReads52(w);
    case AArch64 => MaskReads48(w);
  }

  /** An address survives masking unchanged exactly when it is page-aligned and fits the physical width. */
  lemma FrameAddrExact(arch: Arch, paddr: nat)
    ensures And(paddr, AddrMask(arch)) == paddr <==> paddr % PAGE_SIZE == 0 && paddr < AddrSpan(arch)
    ensures FrameAddr(arch, paddr) == paddr <==> paddr % PAGE_SIZE == 0 && paddr < AddrSpan(arch)
    ensures FrameAddr(arch, FrameAddr(arch, paddr)) == FrameAddr(arch, paddr)
  {
    hide And, Or;
    MaskReadsFrame(arch, paddr);
  }

  // ----- making and changing entries

  /** The entry with the given address and attribute bits. */
  function MakeEntry(arch: Arch, paddr: nat, bits: nat): nat {
    Or(bits, And(paddr, AddrMask(arch)))
  }

  function Paddr(arch: Arch, w: nat): nat {
    And(w, AddrMask(arch))
  }

  function SetPaddr(arch: Arch, w: nat, paddr: nat): nat {
    Or(And(w, Not(AddrMask(arch))), And(paddr, AddrMask(arch)))
  }

  function SetBits(arch: Arch, w: nat, bits: nat): nat {
    Or(And(w, AddrMask(arch)), bits)
  }

  /** The words that these operations make, as fields. */
  lemma MakeEntryFields(arch: Arch, paddr: nat, bits: nat)
    requires bits < PAGE_SIZE
    ensures MakeEntry(arch, paddr, bits) == Compose(arch, 0, Frame(arch, paddr), bits)
    ensures MakeEntry(arch, paddr, bits) < WORD_LIMIT
  {
    hide And, Or;
    Powers();
    MaskReadsFrame(arch, paddr);
    ShlIsProduct(Frame(arch, paddr), 12);
    OrAbove(12, bits, Frame(arch, paddr));
  }

  lemma SetBitsFields(arch: Arch, w: nat, bits: nat)
    requires bits < PAGE_SIZE
    ensures SetBits(arch, w, bits) == Compose(arch, 0, Frame(arch, w), bits)
    ensures SetBits(arch, w, bits) < WORD_LIMIT
  {
    hide And, Or;
    Powers();
    MaskReadsFrame(arch, w);
    ShlIsProduct(Frame(arch, w), 12);
    OrAbove(12, bits, Frame(arch, w));
  }

  lemma SetPaddrFields(arch: Arch, w: Word, paddr: nat)
    ensures SetPaddr(arch, w, paddr) == Compose(arch, High(arch, w), Frame(arch, paddr), Low(w))
  {
    hide And, Or;
    ReplaceMasked(w, paddr, AddrMask(arch));
    MaskReadsFrame(arch, w);
    MaskReadsFrame(arch, paddr);
    WordOfFields(arch, w);
  }

  /** The two setters, in either order, turn any old word into a freshly made entry. */
  lemma SettersMakeEntry(arch: Arch, w: Word, paddr: nat, bits: nat)
    requires bits < PAGE_SIZE
    ensures SetBits(arch, SetPaddr(arch, w, paddr), bits) == MakeEntry(arch, paddr, bits)
    ensures SetPaddr(arch, SetBits(arch, w, bits), paddr) == MakeEntry(arch, paddr, bits)
  {
    hide And, Or, MakeEntry, SetPaddr, SetBits, Compose, High, Frame, Low;
    MakeEntryFields(arch, paddr, bits);
    SetPaddrFields(arch, w, paddr);
    SetBitsFields(arch, SetPaddr(arch, w, paddr), bits);
    WordOfFields(arch, w);
    WordOfFields(arch, paddr);
    FieldsOfWord(arch, High(arch, w), Frame(arch, paddr), Low(w));
    SetBitsFields(arch, w, bits);
    SetPaddrFields(arch, SetBits(arch, w, bits), paddr);
    FieldsOfWord(arch, 0, Frame(arch, w), bits);
  }

  /** Each setter alone leaves the field of the other as it was, whatever the old word. */
  lemma SettersKeepFields(arch: Arch, w: Word, paddr: nat, bits: nat)
    requires bits < PAGE_SIZE
    ensures Paddr(arch, SetBits(arch, w, bits)) == Paddr(arch, w)
    ensures Low(SetPaddr(arch, w, paddr)) == Low(w) && High(arch, SetPaddr(arch, w, paddr)) == High(arch, w)
  {
    hide And, Or;
    WordOfFields(arch, w);
    WordOfFields(arch, paddr);
    SetBitsFields(arch, w, bits);
    SetPaddrFields(arch, w, paddr);
    MaskReadsFrame(arch, w);
    MaskReadsFrame(arch, SetBits(arch, w, bits));
    FieldsOfWord(arch, 0, Frame(arch, w), bits);
    FieldsOfWord(arch, High(arch, w), Frame(arch, paddr), Low(w));
  }

  /** A fresh entry gives back the address that fits it and the attribute bits. */
  lemma EntryParts(arch: Arch, paddr: nat, bits: nat)
    requires bits < PAGE_SIZE
    ensures Paddr(arch, MakeEntry(arch, paddr, bits)) == FrameAddr(arch, paddr)
    ensures Low(MakeEntry(arch, paddr, bits)) == bits && High(arch, MakeEntry(arch, paddr, bits)) == 0
  {
    hide And, Or, MakeEntry;
    WordOfFields(arch, paddr);
    MakeEntryFields(arch, paddr, bits);
    MaskReadsFrame(arch, MakeEntry(arch, paddr, bits));
    FieldsOfWord(arch, 0, Frame(arch, paddr), bits);
  }

  /** The address operations in numbers: which bits are read and which are replaced. */
  lemma AddressInNumbers(w: Word, paddr: nat)
    ensures Paddr(X86_64, w) == w / 4096 % 0x100_0000_0000 * 4096
    ensures Paddr(AArch64, w) == w / 4096 % 0x10_0000_0000 * 4096
    ensures SetPaddr(X86_64, w, paddr) ==
            w / 0x10_0000_0000_0000 * 0x10_0000_0000_0000 + paddr / 4096 % 0x100_0000_0000 * 4096 + w % 4096
    ensures SetPaddr(AArch64, w, paddr) ==
            w / 0x1_0000_0000_0000 * 0x1_0000_0000_0000 + paddr / 4096 % 0x10_0000_0000 * 4096 + w % 4096
  {
    hide And, Or;
    MaskReads52(w);
    MaskReads48(w);
    SetPaddrFields(X86_64, w, paddr);
    SetPaddrFields(AArch64, w, paddr);
  }
}
