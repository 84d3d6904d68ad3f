/** Machine words as natural numbers: single bits, `&`, `|` and `<<` for every
    word width. Everything is defined by halving, so that facts about words are
    proved by following their bits. */
module Bits {

  function Pow2(k: nat): (p: nat)
    ensures p >= 1
  {
    if k == 0 then 1 else 2 * Pow2(k - 1)
  }

  predicate Bit(x: nat, i: nat) {
    if i == 0 then x % 2 == 1 else Bit(x / 2, i - 1)
  }

  /** Bitwise and. */
  function And(x: nat, y: nat): nat {
    if x == 0 || y == 0 then 0
    else 2 * And(x / 2, y / 2) + (if x % 2 == 1 && y % 2 == 1 then 1 else 0)
  }

  /** Bitwise or. */
  function Or(x: nat, y: nat): nat
    decreases x + y
  {
    if x == 0 && y == 0 then 0
    else 2 * Or(x / 2, y / 2) + (if x % 2 == 1 || y % 2 == 1 then 1 else 0)
  }

  /** `x << k`. */
  function Shl(x: nat, k: nat): nat {
    if k == 0 then x else 2 * Shl(x, k - 1)
  }

  /** The low `k` bits of `x`. */
  function Low(x: nat, k: nat): nat {
    if k == 0 then 0 else x % 2 + 2 * Low(x / 2, k - 1)
  }

  predicate Aligned(x: nat, k: nat) {
    Low(x, k) == 0
  }

  /** `MAX << k` in a word of `w` bits: the low `k` bits clear, the rest set. */
  function HighMask(w: nat, k: nat): nat
    requires k <= w
  {
    Pow2Mono(k, w);
    Pow2(w) - Pow2(k)
  }

  // ---------- powers of two ----------

  lemma {:induction false} Pow2Mono(a: nat, b: nat)
    requires a <= b
    ensures Pow2(a) <= Pow2(b)
    decreases b
  {
    if a < b { Pow2Mono(a, b - 1); }
  }

  lemma Pow2Strict(a: nat, b: nat)
    requires a < b
    ensures 2 * Pow2(a) <= Pow2(b)
  {
    Pow2Mono(a + 1, b);
  }

  lemma Pow2Plus4(k: nat)
    ensures Pow2(k + 4) == 16 * Pow2(k)
  {
    assert Pow2(k + 2) == 2 * Pow2(k + 1) == 4 * Pow2(k);
    assert Pow2(k + 4) == 2 * Pow2(k + 3) == 4 * Pow2(k + 2);
  }

  lemma Pow2Plus16(k: nat)
    ensures Pow2(k + 16) == 0x1_0000 * Pow2(k)
  {
    Pow2Plus4(k);
    Pow2Plus4(k + 4);
    Pow2Plus4(k + 8);
    Pow2Plus4(k + 12);
  }

  lemma Pow2At64()
    ensures Pow2(64) == 0x1_0000_0000_0000_0000
  {
    Pow2Values();
    Pow2Plus16(16);
    Pow2Plus16(32);
    Pow2Plus16(48);
  }

  // ---------- single bits ----------

  lemma {:induction false} BitZero(i: nat)
    ensures !Bit(0, i)
  {
    if i > 0 { BitZero(i - 1); }
  }

  lemma {:induction false} BitBound(x: nat, w: nat, i: nat)
    requires x < Pow2(w) && w <= i
    ensures !Bit(x, i)
    decreases w
  {
    if w == 0 { BitZero(i); } else { BitBound(x / 2, w - 1, i - 1); }
  }

  /** Words with the same bits are equal. */
  lemma {:induction false} BitsExt(x: nat, y: nat, w: nat)
    requires x < Pow2(w) && y < Pow2(w)
    requires forall i: nat :: i < w ==> (Bit(x, i) <==> Bit(y, i))
    ensures x == y
  {
    if w > 0 {
      assert Bit(x, 0) <==> Bit(y, 0);
      forall i: nat | i < w - 1 ensures Bit(x / 2, i) <==> Bit(y / 2, i) {
        assert Bit(x, i + 1) <==> Bit(y, i + 1);
      }
      BitsExt(x / 2, y / 2, w - 1);
    }
  }

  lemma {:induction false} BitPow2(k: nat, i: nat)
    ensures Bit(Pow2(k), i) <==> i == k
  {
    if k == 0 {
      if i > 0 { BitZero(i - 1); }
    } else if i > 0 {
      BitPow2(k - 1, i - 1);
    }
  }

  /** The bits of `!(1 << k)` in a word of `w` bits. */
  lemma {:induction false} BitComplement(k: nat, w: nat, i: nat)
    requires k < w
    ensures Pow2(k) < Pow2(w)
    ensures Bit(Pow2(w) - 1 - Pow2(k), i) <==> i < w && i != k
    decreases w
  {
    Pow2Strict(k, w);
    if k == 0 {
      if i > 0 { BitOnes(w - 1, i - 1); }
    } else if i > 0 {
      BitComplement(k - 1, w - 1, i - 1);
    }
  }

  lemma {:induction false} BitOnes(w: nat, i: nat)
    ensures Bit(Pow2(w) - 1, i) <==> i < w
    decreases w
  {
    if w == 0 { BitZero(i); } else if i > 0 { BitOnes(w - 1, i - 1); }
  }

  // ---------- and, or ----------

  lemma {:induction false} AndBit(x: nat, y: nat, i: nat)
    ensures Bit(And(x, y), i) <==> Bit(x, i) && Bit(y, i)
    decreases i
  {
    if x == 0 || y == 0 {
      BitZero(i);
    } else if i > 0 {
      AndBit(x / 2, y / 2, i - 1);
    }
  }

  lemma {:induction false} OrBit(x: nat, y: nat, i: nat)
    ensures Bit(Or(x, y), i) <==> Bit(x, i) || Bit(y, i)
    decreases i
  {
    if x == 0 && y == 0 {
      BitZero(i);
    } else if i > 0 {
      OrBit(x / 2, y / 2, i - 1);
    }
  }

  /** Testing one bit with a shifted one. */
  lemma {:induction false} AndPow2(x: nat, k: nat)
    ensures And(x, Pow2(k)) == if Bit(x, k) then Pow2(k) else 0
    decreases k
  {
    if x == 0 { BitZero(k); } else if k > 0 { AndPow2(x / 2, k - 1); }
  }

  lemma {:induction false} AndBound(x: nat, y: nat)
    ensures And(x, y) <= x && And(x, y) <= y
  {
    if x != 0 && y != 0 { AndBound(x / 2, y / 2); }
  }

  lemma {:induction false} OrBound(x: nat, y: nat, w: nat)
    requires x < Pow2(w) && y < Pow2(w)
    ensures Or(x, y) < Pow2(w)
  {
    if x != 0 || y != 0 {
      if w > 0 { OrBound(x / 2, y / 2, w - 1); }
    }
  }

  /** `&` works on the two halves of a word separately. */
  lemma {:induction false} AndSplit(a: nat, b: nat, c: nat, d: nat, k: nat)
    requires a < Pow2(k) && c < Pow2(k)
    ensures And(a + Shl(b, k), c + Shl(d, k)) == And(a, c) + Shl(And(b, d), k)
    decreases k
  {
    if k > 0 {
      AndSplit(a / 2, b, c / 2, d, k - 1);
      assert (a + Shl(b, k)) / 2 == a / 2 + Shl(b, k - 1);
      assert (c + Shl(d, k)) / 2 == c / 2 + Shl(d, k - 1);
    }
  }

  lemma {:induction false} AndOnes(x: nat, w: nat)
    requires x < Pow2(w)
    ensures And(x, Pow2(w) - 1) == x
  {
    if x != 0 && w > 0 { AndOnes(x / 2, w - 1); }
  }

  /** Masking with `MAX << k` clears the low `k` bits. */
  lemma {:induction false} AndHighMask(x: nat, w: nat, k: nat)
    requires k <= w && x < Pow2(w)
    ensures Low(x, k) <= x && And(x, HighMask(w, k)) == x - Low(x, k)
    decreases w
  {
    if k == 0 {
      AndOnes(x, w);
    } else {
      AndHighMask(x / 2, w - 1, k - 1);
      assert HighMask(w, k) == 2 * HighMask(w - 1, k - 1);
    }
  }

  /** `x | !(MAX << k)` is the last word of the block of `2^k` words around `x`. */
  lemma {:induction false} OrLowOnes(x: nat, k: nat)
    ensures Or(x, Pow2(k) - 1) == x - Low(x, k) + Pow2(k) - 1
    decreases k
  {
    if k == 0 {
      OrZero(x);
    } else {
      OrLowOnes(x / 2, k - 1);
    }
  }

  lemma {:induction false} OrZero(x: nat)
    ensures Or(x, 0) == x
  {
    if x != 0 { OrZero(x / 2); }
  }

  // ---------- aligned blocks ----------

  lemma {:induction false} LowBound(x: nat, k: nat)
    ensures Low(x, k) < Pow2(k) && Low(x, k) <= x
  {
    if k > 0 { LowBound(x / 2, k - 1); }
  }

  lemma {:induction false} LowOfSmall(x: nat, k: nat)
    requires x < Pow2(k)
    ensures Low(x, k) == x
  {
    if k > 0 { LowOfSmall(x / 2, k - 1); }
  }

  lemma {:induction false} AlignedLess(x: nat, a: nat, b: nat)
    requires a <= b && Aligned(x, b)
    ensures Aligned(x, a)
  {
    if a > 0 { AlignedLess(x / 2, a - 1, b - 1); }
  }

  lemma {:induction false} AlignedPow2(k: nat, j: nat)
    requires k <= j
    ensures Aligned(Pow2(j), k)
  {
    if k > 0 { AlignedPow2(k - 1, j - 1); }
  }

  /** An aligned word is aligned one bit further exactly when that bit is clear. */
  lemma {:induction false} AlignedNext(x: nat, k: nat)
    requires Aligned(x, k)
    ensures Aligned(x, k + 1) <==> !Bit(x, k)
  {
    assert Low(x, k + 1) == x % 2 + 2 * Low(x / 2, k);
    if k > 0 { AlignedNext(x / 2, k - 1); }
  }

  /** The block of `2^k` words that starts at an aligned `s` is the set of words
      that agree with `s` once their low `k` bits are cleared. */
  lemma {:induction false} BlockMember(s: nat, p: nat, k: nat)
    requires Aligned(s, k)
    ensures s <= p < s + Pow2(k) <==> p - Low(p, k) == s
  {
    if k > 0 { BlockMember(s / 2, p / 2, k - 1); }
  }

  /** An aligned word below a word that is aligned further is a whole block below it. */
  lemma {:induction false} AlignedGap(x: nat, y: nat, k: nat)
    requires Aligned(x, k) && Aligned(y, k) && x < y
    ensures x + Pow2(k) <= y
  {
    if k > 0 { AlignedGap(x / 2, y / 2, k - 1); }
  }

  lemma Pow2Values()
    ensures Pow2(8) == 256 && Pow2(16) == 0x1_0000 && Pow2(15) == 0x8000 && Pow2(14) == 0x4000
  {
    assert Pow2(8) == 256;
    assert Pow2(14) == 0x4000;
    assert Pow2(16) == 4 * Pow2(14);
  }

  // ---------- bits of bytes and masks ----------

  lemma {:induction false} HighMaskBit(w: nat, k: nat, i: nat)
    requires k <= w
    ensures Bit(HighMask(w, k), i) <==> k <= i < w
    decreases w
  {
    if k == 0 {
      BitOnes(w, i);
    } else {
      assert HighMask(w, k) == 2 * HighMask(w - 1, k - 1);
      if i > 0 { HighMaskBit(w - 1, k - 1, i - 1); }
    }
  }

  lemma HalfSum(x: nat, p: nat)
    ensures (x + 2 * p) / 2 == x / 2 + p && (x + 2 * p) % 2 == x % 2
  {
  }

  /** The bits of two numbers put side by side. */
  lemma {:induction false} BitOfSum(lo: nat, hi: nat, k: nat, i: nat)
    requires lo < Pow2(k)
    ensures Bit(lo + Shl(hi, k), i) <==> if i < k then Bit(lo, i) else Bit(hi, i - k)
    decreases k
  {
    if k > 0 {
      var x := lo + Shl(hi, k);
      HalfSum(lo, Shl(hi, k - 1));
      if i > 0 {
        BitOfSum(lo / 2, hi, k - 1, i - 1);
        assert Bit(x, i) == Bit(x / 2, i - 1);
      }
    }
  }

  lemma Shl8(x: nat)
    ensures Shl(x, 8) == 256 * x
  {
    assert Shl(x, 4) == 2 * Shl(x, 3) == 4 * Shl(x, 2) == 8 * Shl(x, 1) == 16 * x;
    assert Shl(x, 8) == 2 * Shl(x, 7) == 4 * Shl(x, 6) == 8 * Shl(x, 5) == 16 * Shl(x, 4);
  }

  /** The bits of a number are those of its low byte and of the rest. */
  lemma BitByte(x: nat, i: nat)
    ensures Bit(x, i) <==> if i < 8 then Bit(x % 256, i) else Bit(x / 256, i - 8)
  {
    hide Bit, Shl;
    Pow2Values();
    Shl8(x / 256);
    BitOfSum(x % 256, x / 256, 8, i);
  }
}
