/** The bitwise operators on machine words, and what masks make of bit fields. */
module Bits {
  import opened Words

  function And(a: nat, b: nat): nat {
    if a == 0 || b == 0 then 0 else 2 * And(a / 2, b / 2) + if a % 2 == 1 && b % 2 == 1 then 1 else 0
  }

  function Or(a: nat, b: nat): nat {
    if a == 0 then b else if b == 0 then a
    else 2 * Or(a / 2, b / 2) + if a % 2 == 1 || b % 2 == 1 then 1 else 0
  }

  /** The complement of a 64-bit word. */
  function Not(a: Word): Word {
    WORD_LIMIT - 1 - a
  }

  function Shl(x: nat, k: nat): (r: nat)
    ensures r >= x
  {
    if k == 0 then x else 2 * Shl(x, k - 1)
  }

  lemma AndStep(a: nat, b: nat)
    ensures And(a, b) == 2 * And(a / 2, b / 2) + if a % 2 == 1 && b % 2 == 1 then 1 else 0
    ensures And(a, b) / 2 == And(a / 2, b / 2) && (And(a, b) % 2 == 1 <==> a % 2 == 1 && b % 2 == 1)
  {
  }

  lemma OrStep(a: nat, b: nat)
    ensures Or(a, b) == 2 * Or(a / 2, b / 2) + if a % 2 == 1 || b % 2 == 1 then 1 else 0
    ensures Or(a, b) / 2 == Or(a / 2, b / 2) && (Or(a, b) % 2 == 1 <==> a % 2 == 1 || b % 2 == 1)
  {
  }

  /** An "or" of words without a common bit is their sum. */
  lemma {:induction false} OrIsSum(a: nat, b: nat)
    requires And(a, b) == 0
    ensures Or(a, b) == a + b
  {
    if a != 0 && b != 0 {
      OrIsSum(a / 2, b / 2);
    }
  }

  /** A word is the sum of what a mask and its complement let through. */
  lemma {:induction false} ComplementSplits(k: nat, a: nat, m: nat)
    requires a < Shl(1, k) && m < Shl(1, k)
    ensures And(a, Shl(1, k) - 1 - m) + And(a, m) == a
  {
    if k != 0 {
      var n := Shl(1, k) - 1 - m;
      assert n / 2 == Shl(1, k - 1) - 1 - m / 2 && n % 2 == 1 - m % 2;
      ComplementSplits(k - 1, a / 2, m / 2);
      AndStep(a, n);
      AndStep(a, m);
    }
  }

  /** What a mask lets through and what its complement lets through have no bit in common. */
  lemma {:induction false} ComplementApart(k: nat, a: nat, b: nat, m: nat)
    requires m < Shl(1, k)
    ensures And(And(a, Shl(1, k) - 1 - m), And(b, m)) == 0
  {
    if k != 0 {
      var n := Shl(1, k) - 1 - m;
      assert n / 2 == Shl(1, k - 1) - 1 - m / 2 && n % 2 == 1 - m % 2;
      ComplementApart(k - 1, a / 2, b / 2, m / 2);
      AndStep(a, n);
      AndStep(b, m);
      ApartStep(And(a, n), And(b, m));
    }
  }

  lemma ApartStep(a: nat, b: nat)
    requires And(a / 2, b / 2) == 0 && (a % 2 == 0 || b % 2 == 0)
    ensures And(a, b) == 0
  {
  }

  /** Masking with `k` ones keeps the lowest `k` bits. */
  lemma {:induction false} LowMask(k: nat, h: nat, l: nat)
    requires l < Shl(1, k)
    ensures And(Shl(h, k) + l, Shl(1, k) - 1) == l
  {
    if k != 0 {
      hide And;
      var x, m := Shl(h, k - 1), Shl(1, k - 1) - 1;
      assert Shl(h, k) == 2 * x && Shl(1, k) - 1 == 2 * m + 1;
      LowMask(k - 1, h, l / 2);
      AndOdd(x, l, m);
    }
  }

  lemma AndOdd(x: nat, l: nat, m: nat)
    ensures And(2 * x + l, 2 * m + 1) == 2 * And(x + l / 2, m) + l % 2
  {
    AndStep(2 * x + l, 2 * m + 1);
  }

  /** A mask shifted by `j` looks at the bits from `j` up only. */
  lemma {:induction false} ShiftedMask(j: nat, x: nat, l: nat, m: nat)
    requires l < Shl(1, j)
    ensures And(Shl(x, j) + l, Shl(m, j)) == Shl(And(x, m), j)
  {
    if j != 0 {
      hide And;
      var x', m' := Shl(x, j - 1), Shl(m, j - 1);
      assert Shl(x, j) == 2 * x' && Shl(m, j) == 2 * m';
      ShiftedMask(j - 1, x, l / 2, m);
      AndEven(x', l, m');
    }
  }

  lemma AndEven(x: nat, l: nat, m: nat)
    ensures And(2 * x + l, 2 * m) == 2 * And(x + l / 2, m)
  {
    AndStep(2 * x + l, 2 * m);
  }

  /** Masking with `k` ones from bit `j` up keeps that field in place and drops the rest. */
  lemma FieldMask(j: nat, k: nat, h: nat, f: nat, l: nat)
    requires f < Shl(1, k) && l < Shl(1, j)
    ensures And(Shl(Shl(h, k) + f, j) + l, Shl(Shl(1, k) - 1, j)) == Shl(f, j)
  {
    hide And;
    ShiftedMask(j, Shl(h, k) + f, l, Shl(1, k) - 1);
    LowMask(k, h, f);
  }

  lemma {:induction false} ShlZero(k: nat)
    ensures Shl(0, k) == 0
  {
    if k != 0 {
      ShlZero(k - 1);
    }
  }

  lemma {:induction false} ShlSum(x: nat, j: nat, k: nat)
    ensures Shl(x, j + k) == Shl(Shl(x, j), k)
  {
    if k != 0 {
      ShlSum(x, j, k - 1);
    }
  }

  /** A word below bit `j` has no bit in common with a multiple of 2^j. */
  lemma LowApart(j: nat, a: nat, b: nat)
    requires a < Shl(1, j)
    ensures And(a, Shl(b, j)) == 0
  {
    ShiftedMask(j, 0, a, b);
    ShlZero(j);
  }

  lemma {:induction false} AndCommutes(a: nat, b: nat)
    ensures And(a, b) == And(b, a)
  {
    if a != 0 && b != 0 {
      AndCommutes(a / 2, b / 2);
    }
  }

  lemma {:induction false} ShlIsProduct(x: nat, k: nat)
    ensures Shl(x, k) == x * Shl(1, k)
  {
    if k != 0 {
      ShlIsProduct(x, k - 1);
      Twice(x, Shl(1, k - 1));
    }
  }

  lemma Twice(x: nat, y: nat)
    ensures x * (2 * y) == 2 * (x * y)
  {
  }

  /** Masking with the ones of a field reads the field in place. */
  lemma MaskReadsField(w: nat, j: nat, k: nat, weight: nat, range: nat, h: nat, f: nat, l: nat)
    requires weight == Shl(1, j) && range == Shl(1, k)
    requires w == (h * range + f) * weight + l && f < range && l < weight
    ensures And(w, Shl(range - 1, j)) == Shl(f, j)
  {
    hide And;
    ShlIsProduct(h, k);
    ShlIsProduct(h * range + f, j);
    FieldMask(j, k, h, f, l);
  }

  lemma SmallPowers()
    ensures Shl(1, 12) == PAGE_SIZE && Shl(1, 24) == 0x100_0000
  {
    assert Shl(1, 12) == 0x1000;
    ShlSum(1, 12, 12);
    ShlIsProduct(0x1000, 12);
  }

  lemma Powers()
    ensures Shl(1, 12) == PAGE_SIZE && Shl(1, 36) == 0x10_0000_0000 && Shl(1, 40) == 0x100_0000_0000
    ensures Shl(1, 64) == WORD_LIMIT
  {
    SmallPowers();
    ShlSum(1, 24, 12);
    ShlIsProduct(0x100_0000, 12);
    ShlSum(1, 36, 4);
    ShlIsProduct(0x10_0000_0000, 4);
    ShlSum(1, 40, 24);
    ShlIsProduct(0x100_0000_0000, 24);
    assert Shl(1, 4) == 0x10;
  }

  /** Replacing the bits of a mask: the kept and the new bits add up. */
  lemma ReplaceMasked(w: Word, p: nat, m: Word)
    ensures Or(And(w, Not(m)), And(p, m)) == w - And(w, m) + And(p, m)
  {
    Powers();
    ComplementSplits(64, w, m);
    ComplementApart(64, w, p, m);
    OrIsSum(And(w, Not(m)), And(p, m));
  }

  /** Setting bits above all others adds them. */
  lemma OrAbove(j: nat, a: nat, b: nat)
    requires a < Shl(1, j)
    ensures Or(a, Shl(b, j)) == a + Shl(b, j) && Or(Shl(b, j), a) == a + Shl(b, j)
  {
    LowApart(j, a, b);
    AndCommutes(a, Shl(b, j));
    OrIsSum(a, Shl(b, j));
    OrIsSum(Shl(b, j), a);
  }

  lemma {:induction false} OrAssociates(a: nat, b: nat, c: nat)
    ensures Or(a, Or(b, c)) == Or(Or(a, b), c)
  {
    if a != 0 {
      OrAssociates(a / 2, b / 2, c / 2);
      OrStep(b, c);
      OrStep(a, Or(b, c));
      OrStep(a, b);
      OrStep(Or(a, b), c);
    }
  }

  /** Setting a bit that was clear adds it. */
  lemma OrBit(w: nat, j: nat, weight: nat, h: nat, l: nat)
    requires weight == Shl(1, j) && l < weight
    requires w == h * (2 * weight) + l
    ensures Or(w, weight) == w + weight
  {
    assert h * (2 * weight) == (h * 2 + 0) * weight;
    assert Shl(1, 1) == 2;
    MaskReadsField(w, j, 1, weight, 2, h, 0, l);
    ShlZero(j);
    OrIsSum(w, weight);
  }

  /** All the bits of `bits` are set in a word. */
  predicate HasBits(w: nat, bits: nat) {
    And(w, bits) == bits
  }

  /** Testing one bit. */
  lemma OneBit(w: nat, j: nat, weight: nat, h: nat, l: nat)
    requires weight == Shl(1, j) && l < weight
    requires w == h * weight + l
    ensures HasBits(w, weight) <==> h % 2 == 1
  {
    var f := h % 2;
    assert Shl(1, 1) == 2;
    assert h == h / 2 * 2 + f;
    MaskReadsField(w, j, 1, weight, 2, h / 2, f, l);
    ShlZero(j);
  }
}
