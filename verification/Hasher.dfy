/** `jenkins64` of src/utils/hasher.rs. Its comment claims that the hash is invertible.
    Words are numbers below 2^64; sums, differences and left shifts wrap. */
module Hasher {
  import opened Words
  import opened Bits

  const M: nat := 0x1_0000_0000_0000_0000

  /** Bitwise exclusive or. */
  function Xor(x: nat, y: nat): nat
    decreases x + y
  {
    if x == 0 && y == 0 then 0
    else 2 * Xor(x / 2, y / 2) + (if x % 2 != y % 2 then 1 else 0)
  }

  /** `x >> k`. */
  function Shr(x: nat, k: nat): nat
    decreases k
  {
    if k == 0 then x else Shr(x / 2, k - 1)
  }

  function Add(x: u64, y: u64): u64 { (x + y) % M }

  function Sub(x: u64, y: u64): u64 { (x - y) % M }

  function Fold(x: u64, k: nat): u64 {
    FoldBound(x, k);
    Xor(x, Shr(x, k))
  }

  // ---------- the rounds ----------

  function Round1(h: u64): u64 { Sub(Sub(h * 0x20_0000 % M, h), 1) }
  function Round2(h: u64): u64 { Fold(h, 24) }
  function Round3(h: u64): u64 { Add(Add(h, h * 8 % M), h * 256 % M) }
  function Round4(h: u64): u64 { Fold(h, 14) }
  function Round5(h: u64): u64 { Add(Add(h, h * 4 % M), h * 16 % M) }
  function Round6(h: u64): u64 { Fold(h, 28) }
  function Round7(h: u64): u64 { Add(h, h * 0x8000_0000 % M) }

  function Jenkins64(h: u64): u64 {
    Round7(Round6(Round5(Round4(Round3(Round2(Round1(h)))))))
  }

  // ---------- their inverses: odd multipliers and repeated folds ----------

  function Undo1(y: u64): u64 { (y + 1) * 0x7fff_fbff_ffdf_ffff % M }
  function Undo2(y: u64): u64 { Unfold(y, 24) }
  function Undo3(y: u64): u64 { y * 0xd38f_f08b_1c03_dd39 % M }
  function Undo4(y: u64): u64 { Unfold(y, 14) }
  function Undo5(y: u64): u64 { y * 0xcf3c_f3cf_3cf3_cf3d % M }
  function Undo6(y: u64): u64 { Unfold(y, 28) }
  function Undo7(y: u64): u64 { y * 0x3fff_ffff_8000_0001 % M }

  function Unjenkins64(y: u64): u64 {
    Undo1(Undo2(Undo3(Undo4(Undo5(Undo6(Undo7(y)))))))
  }

  /** `y ^ y >> k ^ y >> 2k ^ ...` from the shift `s` on, until nothing is left to shift. */
  function UnfoldFrom(y: nat, k: nat, s: nat): nat
    requires k > 0
    decreases 64 - s
  {
    if s >= 64 then 0 else Xor(Shr(y, s), UnfoldFrom(y, k, s + k))
  }

  function Unfold(y: u64, k: nat): u64
    requires k > 0
  {
    UnfoldBound(y, k, 0);
    UnfoldFrom(y, k, 0)
  }

  // ---------- bits of folds ----------

  lemma {:induction false} XorBit(x: nat, y: nat, i: nat)
    ensures Bit(Xor(x, y), i) <==> Bit(x, i) != Bit(y, i)
    decreases i
  {
    if x == 0 && y == 0 {
      BitZero(i);
    } else if i > 0 {
      XorBit(x / 2, y / 2, i - 1);
    }
  }

  lemma {:induction false} XorBound(x: nat, y: nat, w: nat)
    requires x < Pow2(w) && y < Pow2(w)
    ensures Xor(x, y) < Pow2(w)
    decreases w
  {
    if (x != 0 || y != 0) && w > 0 { XorBound(x / 2, y / 2, w - 1); }
  }

  lemma {:induction false} ShrBit(x: nat, k: nat, i: nat)
    ensures Bit(Shr(x, k), i) <==> Bit(x, i + k)
    decreases k
  {
    if k > 0 { ShrBit(x / 2, k - 1, i); }
  }

  lemma {:induction false} ShrBound(x: nat, k: nat)
    ensures Shr(x, k) <= x
    decreases k
  {
    if k > 0 { ShrBound(x / 2, k - 1); }
  }

  lemma FoldBound(x: u64, k: nat)
    ensures Xor(x, Shr(x, k)) < M
  {
    Pow2At64();
    ShrBound(x, k);
    XorBound(x, Shr(x, k), 64);
  }

  lemma {:induction false} UnfoldBound(y: nat, k: nat, s: nat)
    requires y < M && k > 0
    ensures UnfoldFrom(y, k, s) < M
    decreases 64 - s
  {
    if s < 64 {
      Pow2At64();
      ShrBound(y, s);
      UnfoldBound(y, k, s + k);
      XorBound(Shr(y, s), UnfoldFrom(y, k, s + k), 64);
    }
  }

  lemma UnfoldBit(y: nat, k: nat, s: nat, i: nat)
    requires k > 0
    ensures Bit(UnfoldFrom(y, k, s), i) <==> s < 64 && (Bit(y, i + s) != Bit(UnfoldFrom(y, k, s + k), i))
  {
    hide Bit;
    if s < 64 {
      XorBit(Shr(y, s), UnfoldFrom(y, k, s + k), i);
      ShrBit(y, s, i);
    } else {
      BitZero(i);
    }
  }

  lemma HighBits(x: u64, i: nat)
    requires i >= 64
    ensures !Bit(x, i)
  {
    Pow2At64();
    BitBound(x, 64, i);
  }

  lemma FoldBit(x: u64, k: nat, i: nat)
    ensures Bit(Fold(x, k), i) <==> Bit(x, i) != Bit(x, i + k)
  {
    hide Bit, Xor, Shr;
    XorBit(x, Shr(x, k), i);
    ShrBit(x, k, i);
  }

  /** Unfolding a folded word telescopes. */
  lemma {:induction false} UnfoldFold(x: u64, k: nat, s: nat, i: nat)
    requires k > 0
    ensures Bit(UnfoldFrom(Fold(x, k), k, s), i) <==> Bit(x, i + s)
    decreases 64 - s
  {
    hide Bit, Fold, UnfoldFrom;
    UnfoldBit(Fold(x, k), k, s, i);
    if s < 64 {
      UnfoldFold(x, k, s + k, i);
      FoldBit(x, k, i + s);
      assert i + s + k == i + (s + k);
    } else {
      HighBits(x, i + s);
    }
  }

  /** Shifting an unfolded word drops its first term. */
  lemma {:induction false} UnfoldShift(y: u64, k: nat, s: nat, i: nat)
    requires k > 0
    ensures Bit(UnfoldFrom(y, k, s + k), i) <==> Bit(UnfoldFrom(y, k, s), i + k)
    decreases 64 - s
  {
    hide Bit, UnfoldFrom;
    UnfoldBit(y, k, s + k, i);
    UnfoldBit(y, k, s, i + k);
    assert i + k + s == i + (s + k);
    if s < 64 {
      UnfoldShift(y, k, s + k, i);
      if s + k >= 64 { HighBits(y, i + (s + k)); UnfoldBit(y, k, s + k, i + k); }
    }
  }

  lemma SameWord(x: u64, y: u64)
    requires forall i: nat :: i < 64 ==> (Bit(x, i) <==> Bit(y, i))
    ensures x == y
  {
    Pow2At64();
    BitsExt(x, y, 64);
  }

  /** A fold and its repeated fold undo each other, in both orders. */
  lemma FoldInverse(h: u64, k: nat)
    requires k > 0
    ensures Unfold(Fold(h, k), k) == h && Fold(Unfold(h, k), k) == h
  {
    hide Bit, Fold, UnfoldFrom;
    forall i: nat | i < 64
      ensures Bit(Unfold(Fold(h, k), k), i) <==> Bit(h, i)
      ensures Bit(Fold(Unfold(h, k), k), i) <==> Bit(h, i)
    {
      UnfoldFold(h, k, 0, i);
      FoldBit(Unfold(h, k), k, i);
      UnfoldShift(h, k, 0, i);
      UnfoldBit(h, k, 0, i);
    }
    SameWord(Unfold(Fold(h, k), k), h);
    SameWord(Fold(Unfold(h, k), k), h);
  }

  // ---------- the multipliers ----------

  /** Numbers that differ by a multiple of 2^64 are the same word. */
  lemma Wraps(x: int, y: u64, q: int)
    requires x == y + q * M
    ensures x % M == y
  {
  }

  lemma Times3(h: u64)
    ensures Round3(h) == h * 265 % M
  {
    var c := (h + h * 8 % M) / M;
    Wraps((h + h * 8 % M) % M + h * 256 % M, h * 265 % M, h * 265 / M - h * 8 / M - h * 256 / M - c);
  }

  lemma Inverse3(h: u64)
    ensures Undo3(Round3(h)) == h && Round3(Undo3(h)) == h
  {
    Times3(h);
    Times3(Undo3(h));
    var q, p := h * 265 / M, h * 0xd38f_f08b_1c03_dd39 / M;
    Wraps((h * 265 % M) * 0xd38f_f08b_1c03_dd39, h, h * 0x00db - q * 0xd38f_f08b_1c03_dd39);
    Wraps((h * 0xd38f_f08b_1c03_dd39 % M) * 265, h, h * 0x00db - p * 265);
  }

  lemma Times5(h: u64)
    ensures Round5(h) == h * 21 % M
  {
    var c := (h + h * 4 % M) / M;
    Wraps((h + h * 4 % M) % M + h * 16 % M, h * 21 % M, h * 21 / M - h * 4 / M - h * 16 / M - c);
  }

  lemma Inverse5(h: u64)
    ensures Undo5(Round5(h)) == h && Round5(Undo5(h)) == h
  {
    Times5(h);
    Times5(Undo5(h));
    var q, p := h * 21 / M, h * 0xcf3c_f3cf_3cf3_cf3d / M;
    Wraps((h * 21 % M) * 0xcf3c_f3cf_3cf3_cf3d, h, h * 0x0011 - q * 0xcf3c_f3cf_3cf3_cf3d);
    Wraps((h * 0xcf3c_f3cf_3cf3_cf3d % M) * 21, h, h * 0x0011 - p * 21);
  }

  lemma Times7(h: u64)
    ensures Round7(h) == h * 0x8000_0001 % M
  {
    Wraps(h + h * 0x8000_0000 % M, h * 0x8000_0001 % M, h * 0x8000_0001 / M - h * 0x8000_0000 / M);
  }

  lemma Inverse7(h: u64)
    ensures Undo7(Round7(h)) == h && Round7(Undo7(h)) == h
  {
    Times7(h);
    Times7(Undo7(h));
    var q, p := h * 0x8000_0001 / M, h * 0x3fff_ffff_8000_0001 / M;
    Wraps((h * 0x8000_0001 % M) * 0x3fff_ffff_8000_0001, h, h * 0x2000_0000 - q * 0x3fff_ffff_8000_0001);
    Wraps((h * 0x3fff_ffff_8000_0001 % M) * 0x8000_0001, h, h * 0x2000_0000 - p * 0x8000_0001);
  }

  lemma Times1(h: u64)
    ensures Round1(h) == (h * 0x001f_ffff - 1) % M
  {
    var a := h * 0x20_0000;
    var d := (a % M - h) / M;
    Wraps((a % M - h) % M - 1, (h * 0x001f_ffff - 1) % M, (h * 0x001f_ffff - 1) / M - a / M - d);
  }

  lemma Inverse1(h: u64)
    ensures Undo1(Round1(h)) == h && Round1(Undo1(h)) == h
  {
    Times1(h);
    Times1(Undo1(h));
    var q, p := (h * 0x001f_ffff - 1) / M, (h + 1) * 0x7fff_fbff_ffdf_ffff / M;
    Wraps(((h * 0x001f_ffff - 1) % M + 1) * 0x7fff_fbff_ffdf_ffff, h, h * 0x000f_ffff - q * 0x7fff_fbff_ffdf_ffff);
    Wraps(((h + 1) * 0x7fff_fbff_ffdf_ffff % M) * 0x001f_ffff - 1, h, (h + 1) * 0x000f_ffff - p * 0x001f_ffff);
  }

  // ---------- the hash ----------

  /** Every bit of `y` is that of `x`, flipped by the bit `k` above it. */
  ghost predicate Folds(x: u64, k: nat, y: u64) { forall i: nat :: Bit(y, i) <==> Bit(x, i) != Bit(x, i + k) }

  lemma FoldFolds(x: u64, k: nat)
    ensures Folds(x, k, Fold(x, k))
  {
    forall i: nat ensures Bit(Fold(x, k), i) <==> Bit(x, i) != Bit(x, i + k) { FoldBit(x, k, i); }
  }

  /** The hash by what its steps compute: four multiplications modulo 2^64 and, between them,
      three folds by 24, 14 and 28 bits. */
  lemma JenkinsSteps(h: u64) returns (a: u64, b: u64, c: u64, d: u64, e: u64, f: u64)
    ensures a == (h * 0x1f_ffff - 1) % 0x1_0000_0000_0000_0000 && Folds(a, 24, b)
    ensures c == b * 265 % 0x1_0000_0000_0000_0000 && Folds(c, 14, d)
    ensures e == d * 21 % 0x1_0000_0000_0000_0000 && Folds(e, 28, f)
    ensures Jenkins64(h) == f * 0x8000_0001 % 0x1_0000_0000_0000_0000
  {
    hide Round1, Round3, Round5, Round7, Fold, Folds;
    a := Round1(h);
    b := Fold(a, 24);
    c := Round3(b);
    d := Fold(c, 14);
    e := Round5(d);
    f := Fold(e, 28);
    Times1(h);
    Times3(b);
    Times5(d);
    Times7(f);
    FoldFolds(a, 24);
    FoldFolds(c, 14);
    FoldFolds(e, 28);
  }

  /** `jenkins64` is a bijection on 64-bit words, with `Unjenkins64` as its inverse. */
  lemma JenkinsBijective(h: u64)
    ensures Unjenkins64(Jenkins64(h)) == h && Jenkins64(Unjenkins64(h)) == h
  {
    hide Round1, Round3, Round5, Round7, Undo1, Undo3, Undo5, Undo7, Fold, Unfold;
    var a1 := Round1(h); var a2 := Round2(a1); var a3 := Round3(a2);
    var a4 := Round4(a3); var a5 := Round5(a4); var a6 := Round6(a5);
    Inverse1(h); FoldInverse(a1, 24); Inverse3(a2); FoldInverse(a3, 14); Inverse5(a4); FoldInverse(a5, 28);
    Inverse7(a6);
    var b6 := Undo7(h); var b5 := Undo6(b6); var b4 := Undo5(b5);
    var b3 := Undo4(b4); var b2 := Undo3(b3); var b1 := Undo2(b2);
    Inverse7(h); FoldInverse(b6, 28); Inverse5(b5); FoldInverse(b4, 14); Inverse3(b3); FoldInverse(b2, 24);
    Inverse1(b1);
  }

  /** Distinct inputs never collide. */
  lemma JenkinsInjective(x: u64, y: u64)
    requires Jenkins64(x) == Jenkins64(y)
    ensures x == y
  {
    hide Jenkins64, Unjenkins64;
    JenkinsBijective(x);
    JenkinsBijective(y);
  }
}
