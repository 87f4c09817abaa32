/** 64-bit machine words as natural numbers, with the wrap-around and bit fields the code relies on. */
module Words {

  const PAGE_SIZE: nat := 4096
  /** One more than the largest machine word. */
  const WORD_LIMIT: nat := 0x1_0000_0000_0000_0000

  type Word = w: nat | w < WORD_LIMIT

  /** Subtraction of machine words, wrapping below zero. */
  function WrapSub(x: int, y: int): Word {
    (x - y) % WORD_LIMIT
  }

  /** The bit field that starts at the bit of value `weight` and has `range` different values. */
  function Field(w: nat, weight: nat, range: nat): nat
    requires weight > 0 && range > 0
  {
    (w / weight) % range
  }

  /** The bit of value `weight` (a power of two) of a word. */
  predicate Bit(w: nat, weight: nat)
    requires weight > 0
  {
    Field(w, weight, 2) == 1
  }

  lemma DivShift(l: nat, d: nat, k: nat)
    requires d > 0
    ensures (d * k + l) / d == k + l / d
  {
    var q := (d * k + l) / d;
    var r := (d * k + l) % d;
    assert d * (q - k - l / d) == l % d - r;
    if q != k + l / d {
      MultipleAtLeast(d, q - k - l / d);
    }
  }

  lemma MultipleAtLeast(d: int, x: int)
    requires d > 0 && x != 0
    ensures d * x >= d || d * x <= -d
  {
  }

  lemma ModShift(l: nat, d: nat, k: nat)
    requires d > 0
    ensures (d * k + l) % d == l % d
  {
    DivShift(l, d, k);
    assert d * (k + l / d) == d * k + d * (l / d);
  }

  /** A field that ends below bit 12 depends on the low twelve bits only. */
  lemma LowField(w: nat, weight: nat, range: nat, rest: nat)
    requires weight > 0 && range > 0 && weight * (range * rest) == PAGE_SIZE
    ensures Field(w, weight, range) == Field(w % PAGE_SIZE, weight, range)
  {
    var q, l := w / PAGE_SIZE, w % PAGE_SIZE;
    assert w == weight * (range * rest) * q + l;
    assert weight * (range * rest) * q == weight * (range * (rest * q));
    DivShift(l, weight, range * (rest * q));
    ModShift(l / weight, range, rest * q);
  }

  /**
   * The constant-offset arithmetic of linear mappings. With `vaddr - paddr` as the wrapping offset,
   * subtracting it again from an address `n` bytes further on gives `paddr + n`, whichever of the two
   * addresses is larger.
   */
  lemma OffsetCancels(vaddr: nat, paddr: nat, n: nat)
    ensures WrapSub(vaddr + n, WrapSub(vaddr, paddr)) == (paddr + n) % WORD_LIMIT
  {
  }

  /**
   * When this arithmetic wraps, which a build with overflow checks turns into a panic: the offset of a mapping
   * exactly for an image above the guest range, and the subtraction for an address of the area then exactly
   * when its image is a machine word. For an image at or below the guest range nothing ever wraps.
   */
  lemma OffsetWraps(vaddr: Word, paddr: Word, n: nat)
    requires vaddr + n < WORD_LIMIT
    ensures WrapSub(vaddr, paddr) == vaddr - paddr <==> paddr <= vaddr
    ensures var offset := WrapSub(vaddr, paddr);
            WrapSub(vaddr + n, offset) == vaddr + n - offset <==> paddr <= vaddr || WORD_LIMIT <= paddr + n
  {
    if paddr <= vaddr {
      WrapsNot(vaddr - paddr);
      WrapsNot(paddr + n);
    } else {
      WrapsOnce(vaddr - paddr);
      if WORD_LIMIT <= paddr + n {
        WrapsNot(paddr + n - WORD_LIMIT);
      } else {
        WrapsOnce(paddr + n - WORD_LIMIT);
      }
    }
  }

  lemma WrapsNot(x: int)
    requires 0 <= x < WORD_LIMIT
    ensures x % WORD_LIMIT == x
  {
  }

  lemma WrapsOnce(x: int)
    requires 0 <= x + WORD_LIMIT < WORD_LIMIT
    ensures x % WORD_LIMIT == x + WORD_LIMIT
  {
  }
}
