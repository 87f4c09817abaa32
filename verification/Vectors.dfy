/**
 * The operators of `Bits` are those of 64-bit vectors: reading a vector as a number turns the expressions that
 * the code writes with `&`, `|` and `!` into those of the model.
 */
module Vectors {
  import opened Flags
  import opened Words
  import opened Bits
  import opened Entries
  import Ept
  import Stage2

  function Half(w: bv64): bv64 {
    w >> 1
  }

  predicate Odd(w: bv64) {
    w & 1 == 1
  }

  function Both(a: bv64, b: bv64): bv64 {
    a & b
  }

  function Either(a: bv64, b: bv64): bv64 {
    a | b
  }

  function Flip(a: bv64): bv64 {
    !a
  }

  lemma HalfIsLess(w: bv64)
    requires w != 0
    ensures Half(w) < w
  {
  }

  /** The number that a vector stands for. */
  function Value(w: bv64): nat
    decreases w
  {
    if w == 0 then 0 else HalfIsLess(w); 2 * Value(Half(w)) + if Odd(w) then 1 else 0
  }

  lemma HalfOfZero()
    ensures Half(0) == 0 && !Odd(0)
  {
  }

  lemma ValueStep(w: bv64)
    ensures Value(w) == 2 * Value(Half(w)) + if Odd(w) then 1 else 0
    ensures Value(w) / 2 == Value(Half(w)) && (Value(w) % 2 == 1 <==> Odd(w))
  {
    HalfOfZero();
  }

  lemma BothStep(a: bv64, b: bv64)
    ensures Half(Both(a, b)) == Both(Half(a), Half(b)) && (Odd(Both(a, b)) <==> Odd(a) && Odd(b))
  {
  }

  lemma EitherStep(a: bv64, b: bv64)
    ensures Half(Either(a, b)) == Either(Half(a), Half(b)) && (Odd(Either(a, b)) <==> Odd(a) || Odd(b))
  {
  }

  lemma WithZero(a: bv64)
    ensures Both(0, a) == 0 && Either(0, a) == a
  {
  }

  lemma {:induction false} ValueOfAnd(a: bv64, b: bv64)
    ensures Value(Both(a, b)) == And(Value(a), Value(b))
    decreases a
  {
    if a == 0 {
      WithZero(b);
    } else {
      hide Value, And, Half, Both;
      HalfIsLess(a);
      ValueOfAnd(Half(a), Half(b));
      BothStep(a, b);
      ValueStep(a);
      ValueStep(b);
      ValueStep(Both(a, b));
      AndStep(Value(a), Value(b));
    }
  }

  lemma {:induction false} ValueOfOr(a: bv64, b: bv64)
    ensures Value(Either(a, b)) == Or(Value(a), Value(b))
    decreases a
  {
    if a == 0 {
      WithZero(b);
    } else {
      hide Value, Or, Half, Either;
      HalfIsLess(a);
      ValueOfOr(Half(a), Half(b));
      EitherStep(a, b);
      ValueStep(a);
      ValueStep(b);
      ValueStep(Either(a, b));
      OrStep(Value(a), Value(b));
    }
  }

  /** Different vectors stand for different numbers. */
  lemma {:induction false} ValueIsInjective(a: bv64, b: bv64)
    requires Value(a) == Value(b)
    ensures a == b
    decreases a
  {
    if a == 0 {
      if b != 0 {
        ValuePositive(b);
      }
    } else {
      SameParts(a, b);
      HalfIsLess(a);
      ValueIsInjective(Half(a), Half(b));
      SameHalves(a, b);
    }
  }

  lemma SameParts(a: bv64, b: bv64)
    requires Value(a) == Value(b)
    ensures Value(Half(a)) == Value(Half(b)) && Odd(a) == Odd(b)
  {
    ValueStep(a);
    ValueStep(b);
  }

  lemma {:induction false} ValuePositive(w: bv64)
    requires w != 0
    ensures Value(w) > 0
    decreases w
  {
    HalfIsLess(w);
    if Half(w) != 0 {
      ValuePositive(Half(w));
    } else {
      OnlyOne(w);
    }
  }

  lemma OnlyOne(w: bv64)
    requires w != 0 && Half(w) == 0
    ensures Odd(w)
  {
  }

  lemma SameHalves(a: bv64, b: bv64)
    requires Half(a) == Half(b) && Odd(a) == Odd(b)
    ensures a == b
  {
  }

  // ----- constants

  /** Four more bits at the low end. */
  function Append(w: bv64, digit: bv64): bv64 {
    (w << 4) | digit
  }

  lemma AppendOnes(w: bv64)
    requires w >> 60 == 0
    ensures Value(Append(w, 0xf)) == 16 * Value(w) + 15
  {
    var d := Append(w, 0xf);
    AppendedOnes(w);
    ValueStep(d);
    ValueStep(Half(d));
    ValueStep(Half(Half(d)));
    ValueStep(Half(Half(Half(d))));
  }

  lemma AppendedOnes(w: bv64)
    requires w >> 60 == 0
    ensures var d := Append(w, 0xf);
            && Odd(d) && Odd(Half(d)) && Odd(Half(Half(d))) && Odd(Half(Half(Half(d))))
            && Half(Half(Half(Half(d)))) == w
  {
  }

  lemma ThirtySixOnes()
    ensures Value(0xfff) == 0xfff && Value(0xf_ffff_ffff) == 0xf_ffff_ffff
  {
    AppendOnes(0);
    AppendOnes(0xf);
    AppendOnes(0xff);
    AppendOnes(0xfff);
    AppendOnes(0xffff);
    AppendOnes(0xf_ffff);
    AppendOnes(0xff_ffff);
    AppendOnes(0xfff_ffff);
    AppendOnes(0xffff_ffff);
  }

  lemma AllOnes()
    ensures Value(0xfff) == 0xfff && Value(0xffff_ffff_ffff) == 0xffff_ffff_ffff
    ensures Value(0xf_ffff_ffff_ffff) == 0xf_ffff_ffff_ffff
    ensures Value(0xffff_ffff_ffff_ffff) == 0xffff_ffff_ffff_ffff
  {
    ThirtySixOnes();
    AppendOnes(0xf_ffff_ffff);
    AppendOnes(0xff_ffff_ffff);
    AppendOnes(0xfff_ffff_ffff);
    AppendOnes(0xffff_ffff_ffff);
    AppendOnes(0xf_ffff_ffff_ffff);
    AppendOnes(0xff_ffff_ffff_ffff);
    AppendOnes(0xfff_ffff_ffff_ffff);
  }

  /** Vectors without a common bit: the value of their "or" is the sum of their values. */
  lemma ValueOfSum(a: bv64, b: bv64)
    requires Both(a, b) == 0
    ensures Value(Either(a, b)) == Value(a) + Value(b)
  {
    ValueOfAnd(a, b);
    ValueOfOr(a, b);
    OrIsSum(Value(a), Value(b));
  }

  lemma Complements(a: bv64)
    ensures Both(a, Flip(a)) == 0 && Either(a, Flip(a)) == 0xffff_ffff_ffff_ffff
  {
  }

  lemma ValueOfNot(a: bv64)
    ensures Value(a) < WORD_LIMIT && Value(Flip(a)) == Not(Value(a))
  {
    Complements(a);
    AllOnes();
    ValueOfSum(a, Flip(a));
  }

  /** The address masks of the two formats. */
  lemma Masks()
    ensures Value(0x000f_ffff_ffff_f000) == AddrMask(X86_64)
    ensures Value(0x0000_ffff_ffff_f000) == AddrMask(AArch64)
  {
    AllOnes();
    assert Both(0x000f_ffff_ffff_f000, 0xfff) == 0 && Either(0x000f_ffff_ffff_f000, 0xfff) == 0xf_ffff_ffff_ffff;
    ValueOfSum(0x000f_ffff_ffff_f000, 0xfff);
    assert Both(0x0000_ffff_ffff_f000, 0xfff) == 0 && Either(0x0000_ffff_ffff_f000, 0xfff) == 0xffff_ffff_ffff;
    ValueOfSum(0x0000_ffff_ffff_f000, 0xfff);
  }

  // ----- the expressions of the code

  lemma ReplacedBits(w: bv64, p: bv64, m: bv64)
    ensures Value(w) < WORD_LIMIT && Value(m) < WORD_LIMIT
    ensures Value(Either(Both(w, Flip(m)), Both(p, m))) == Or(And(Value(w), Not(Value(m))), And(Value(p), Value(m)))
  {
    ValueOfNot(w);
    ValueOfNot(m);
    ValueOfAnd(w, Flip(m));
    ValueOfAnd(p, m);
    ValueOfOr(Both(w, Flip(m)), Both(p, m));
  }

  lemma AddedBits(b: bv64, p: bv64, m: bv64)
    ensures Value(Either(b, Both(p, m))) == Or(Value(b), And(Value(p), Value(m)))
    ensures Value(Either(Both(p, m), b)) == Or(And(Value(p), Value(m)), Value(b))
  {
    ValueOfAnd(p, m);
    ValueOfOr(b, Both(p, m));
    ValueOfOr(Both(p, m), b);
  }

  /** Reading and replacing the address of an x86_64 entry. */
  lemma EptAddress(w: bv64, p: bv64)
    ensures Value(w & 0x000f_ffff_ffff_f000) == Paddr(X86_64, Value(w))
    ensures Value((w & !0x000f_ffff_ffff_f000) | (p & 0x000f_ffff_ffff_f000)) == SetPaddr(X86_64, Value(w), Value(p))
  {
    hide And, Or, Value;
    Masks();
    ValueOfAnd(w, 0x000f_ffff_ffff_f000);
    ReplacedBits(w, p, 0x000f_ffff_ffff_f000);
  }

  /** Reading and replacing the address of an AArch64 descriptor. */
  lemma Stage2Address(w: bv64, p: bv64)
    ensures Value(w & 0x0000_ffff_ffff_f000) == Paddr(AArch64, Value(w))
    ensures Value((w & !0x0000_ffff_ffff_f000) | (p & 0x0000_ffff_ffff_f000)) == SetPaddr(AArch64, Value(w), Value(p))
  {
    hide And, Or, Value;
    Masks();
    ValueOfAnd(w, 0x0000_ffff_ffff_f000);
    ReplacedBits(w, p, 0x0000_ffff_ffff_f000);
  }

  // ----- the flag conversions, accumulated bit by bit as in the code

  lemma ValueOfDouble(w: bv64)
    requires w >> 63 == 0
    ensures Value(w << 1) == 2 * Value(w)
  {
    DoubleStep(w);
    ValueStep(w << 1);
  }

  lemma DoubleStep(w: bv64)
    requires w >> 63 == 0
    ensures Half(w << 1) == w && !Odd(w << 1)
  {
  }

  lemma ValuesOfBits()
    ensures Value(0) == 0 && Value(1) == 1 && Value(2) == 2 && Value(4) == 4 && Value(8) == 8 && Value(0x10) == 0x10
    ensures Value(0x20) == 0x20 && Value(0x40) == 0x40 && Value(0x80) == 0x80 && Value(0x200) == 0x200
    ensures Value(0x400) == 0x400
  {
    HalfOfOne();
    ValueStep(1);
    ValueOfDouble(1);
    ValueOfDouble(2);
    ValueOfDouble(4);
    ValueOfDouble(8);
    ValueOfDouble(0x10);
    ValueOfDouble(0x20);
    ValueOfDouble(0x40);
    ValueOfDouble(0x80);
    ValueOfDouble(0x100);
    ValueOfDouble(0x200);
  }

  lemma HalfOfOne()
    ensures Half(1) == 0 && Odd(1)
  {
  }

  lemma ValuesOfFields()
    ensures Value(0xc) == 0xc && Value(0x30) == 0x30 && Value(0x38) == 0x38
  {
    ValuesOfBits();
    assert Both(4, 8) == 0 && Either(4, 8) == 0xc;
    ValueOfSum(4, 8);
    assert Both(0x10, 0x20) == 0 && Either(0x10, 0x20) == 0x30;
    ValueOfSum(0x10, 0x20);
    assert Both(8, 0x30) == 0 && Either(8, 0x30) == 0x38;
    ValueOfSum(8, 0x30);
  }

  /** Setting bits, and replacing the bits of a mask, on values. */
  lemma SetOne(b: bv64, bit: bv64)
    ensures Value(b | bit) == Or(Value(b), Value(bit))
  {
    ValueOfOr(b, bit);
  }

  lemma SetField(b: bv64, m: bv64, bits: bv64)
    ensures Value(b) < WORD_LIMIT && Value(m) < WORD_LIMIT
    ensures Value((b & !m) | bits) == Or(And(Value(b), Not(Value(m))), Value(bits))
  {
    hide And, Or, Value;
    ValueOfNot(b);
    ValueOfNot(m);
    ValueOfAnd(b, Flip(m));
    ValueOfOr(Both(b, Flip(m)), bits);
  }

  /** The assignment `|=`. */
  method SetBit(b: bv64, bit: bv64) returns (r: bv64)
    ensures Value(r) == Or(Value(b), Value(bit))
  {
    hide And, Or, Value;
    SetOne(b, bit);
    r := b | bit;
  }

  /** Setting the memory type of flag bits that have none. */
  method EptSetWriteBack(bits: bv64) returns (r: bv64)
    requires Value(bits) < Ept.MEM_TYPE
    ensures Value(r) == Value(bits) + Ept.WRITE_BACK * Ept.MEM_TYPE
  {
    hide And, Or, Value;
    ValuesOfFields();
    SetField(bits, 0x38, 0x30);
    Ept.SetMemType(Value(bits));
    r := (bits & !0x38) | 0x30;
  }

  /** The x86_64 flag bits of a mapping: what they are worth and what they mean. */
  method EptEncodeFlags(f: MappingFlags) returns (ret: bv64)
    ensures Value(ret) == Ept.FlagBits(f) && Ept.Means(Value(ret), f) && Value(ret) == Ept.LeafNumber(f, false)
  {
    hide And, Or, Value, Ept.Means;
    ValuesOfBits();
    Ept.FlagBitsMean(f);
    ret := 0;
    if f.IsEmpty() {
      return;
    }
    if f.read {
      Ept.AddRead(Value(ret));
      ret := SetBit(ret, 1);
    }
    if f.write {
      Ept.AddWrite(Value(ret));
      ret := SetBit(ret, 2);
    }
    if f.execute {
      Ept.AddExecute(Value(ret));
      ret := SetBit(ret, 4);
    }
    if !f.device {
      ret := EptSetWriteBack(ret);
    }
  }

  method EptLeafBits(f: MappingFlags, huge: bool) returns (bits: bv64)
    ensures Value(bits) == Ept.LeafBits(f, huge)
  {
    hide And, Or, Value, Ept.Means;
    ValuesOfBits();
    bits := EptEncodeFlags(f);
    if huge {
      bits := SetBit(bits, 0x80);
    }
  }

  /** Making an x86_64 page entry from an address and mapping flags. */
  method EptNewPage(paddr: bv64, f: MappingFlags, huge: bool) returns (w: bv64)
    ensures Value(w) == Ept.NewPage(Value(paddr), f, huge)
    ensures Value(w) == Value(paddr) / 4096 % 0x100_0000_0000 * 4096 + Ept.LeafNumber(f, huge)
  {
    hide And, Or, Value, Ept.LeafBits, Ept.LeafNumber;
    Ept.PageInNumbers(0, Value(paddr), f, huge);
    Masks();
    var bits := EptLeafBits(f, huge);
    AddedBits(bits, paddr, 0x000f_ffff_ffff_f000);
    w := bits | (paddr & 0x000f_ffff_ffff_f000);
  }

  /** Replacing the flags of an x86_64 entry. */
  method EptSetFlags(entry: bv64, f: MappingFlags, huge: bool) returns (w: bv64)
    ensures Value(w) == Ept.SetFlags(Value(entry), f, huge)
    ensures Value(w) == Value(entry) / 4096 % 0x100_0000_0000 * 4096 + Ept.LeafNumber(f, huge)
  {
    hide And, Or, Value, Ept.LeafBits, Ept.LeafNumber;
    Ept.PageInNumbers(Value(entry), 0, f, huge);
    Masks();
    var bits := EptLeafBits(f, huge);
    AddedBits(bits, entry, 0x000f_ffff_ffff_f000);
    w := (entry & 0x000f_ffff_ffff_f000) | bits;
  }

  method Stage2MemType(m: Stage2.MemType) returns (bits: bv64)
    ensures Value(bits) == Stage2.MemTypeBits(m)
  {
    hide And, Or, Value;
    ValuesOfBits();
    ValuesOfFields();
    match m
    case Normal =>
      SetOne(0xc, 0x30);
      SetOne(0xc | 0x30, 0x200);
      bits := 0xc | 0x30 | 0x200;
    case NormalNonCache =>
      SetOne(0xc, 0x10);
      SetOne(0xc | 0x10, 0x200);
      bits := 0xc | 0x10 | 0x200;
    case Device =>
      bits := 0x200;
  }

  /** The AArch64 attribute bits of a mapping: what they are worth and what they mean. */
  method Stage2EncodeFlags(f: MappingFlags) returns (attr: bv64)
    ensures Value(attr) == Stage2.FlagBits(f) && Stage2.Means(Value(attr), f)
  {
    hide And, Or, Value, Stage2.Means, Stage2.MemTypeBits;
    ValuesOfBits();
    Stage2.FlagBitsMean(f);
    Stage2.MemTypeBitsAre();
    if f.device {
      if f.uncached {
        attr := Stage2MemType(Stage2.NormalNonCache);
      } else {
        attr := Stage2MemType(Stage2.Device);
      }
    } else {
      attr := Stage2MemType(Stage2.Normal);
    }
    if f.read {
      var access := SetBit(1, 0x40);
      Stage2.AccessBits(Value(attr));
      attr := SetBit(attr, access);
    }
    if f.write {
      Stage2.WriteBit(Value(attr));
      attr := SetBit(attr, 0x80);
    }
  }

  method Stage2LeafBits(f: MappingFlags, huge: bool) returns (attr: bv64)
    ensures Value(attr) == Stage2.LeafBits(f, huge)
  {
    hide And, Or, Value, Stage2.Means, Stage2.FlagBits;
    ValuesOfBits();
    attr := Stage2EncodeFlags(f);
    attr := SetBit(attr, 0x400);
    if !huge {
      attr := SetBit(attr, 2);
    }
  }

  /** Making an AArch64 page descriptor from an address and mapping flags. */
  method Stage2NewPage(paddr: bv64, f: MappingFlags, huge: bool) returns (w: bv64)
    ensures Value(w) == Stage2.NewPage(Value(paddr), f, huge)
    ensures Value(w) == Value(paddr) / 4096 % 0x10_0000_0000 * 4096 + Stage2.LeafNumber(f, huge)
  {
    hide And, Or, Value, Stage2.LeafBits, Stage2.LeafNumber;
    Stage2.PageInNumbers(0, Value(paddr), f, huge);
    Masks();
    var attr := Stage2LeafBits(f, huge);
    AddedBits(attr, paddr, 0x0000_ffff_ffff_f000);
    w := attr | (paddr & 0x0000_ffff_ffff_f000);
  }

  /** Replacing the attributes of an AArch64 descriptor. */
  method Stage2SetFlags(entry: bv64, f: MappingFlags, huge: bool) returns (w: bv64)
    ensures Value(w) == Stage2.SetFlags(Value(entry), f, huge)
    ensures Value(w) == Value(entry) / 4096 % 0x10_0000_0000 * 4096 + Stage2.LeafNumber(f, huge)
  {
    hide And, Or, Value, Stage2.LeafBits, Stage2.LeafNumber;
    Stage2.PageInNumbers(Value(entry), 0, f, huge);
    Masks();
    var attr := Stage2LeafBits(f, huge);
    AddedBits(attr, entry, 0x0000_ffff_ffff_f000);
    w := (entry & 0x0000_ffff_ffff_f000) | attr;
  }

  // ----- the same laws on vectors, for any mask and any attribute bits outside it

  /** Both orders of the setters give a fresh entry. */
  lemma SetAddressThenFlags(w: bv64, p: bv64, b: bv64, m: bv64)
    requires b & m == 0
    ensures (((w & !m) | (p & m)) & m) | b == b | (p & m)
  {
  }

  lemma SetFlagsThenAddress(w: bv64, p: bv64, b: bv64, m: bv64)
    requires b & m == 0
    ensures (((w & m) | b) & !m) | (p & m) == b | (p & m)
  {
  }

  /** Each setter keeps the part of the other. */
  lemma SettersKeepParts(w: bv64, p: bv64, b: bv64, m: bv64)
    requires b & m == 0
    ensures ((w & m) | b) & m == w & m
    ensures ((w & !m) | (p & m)) & !m == w & !m
  {
  }

  /** A fresh entry gives back what it was made of. */
  lemma FreshEntryParts(p: bv64, b: bv64, m: bv64)
    requires b & m == 0
    ensures (b | (p & m)) & m == p & m
    ensures (b | (p & m)) & !m == b
  {
  }
}
