/** How `Vector::init` of src/legacy/policy/first_path.rs uses `set_bits`: the mask
    vector is built from the chosen bit positions, and `set_bits` keeps only one bit
    per byte. This decides exactly when the bucket index can be trusted. */
module VectorMask {
  import opened Words
  import opened Bits
  import opened MatchedFields
  import opened TableIndex

  ghost predicate LastInByte(bits: seq<nat>, i: nat)
    requires i < |bits|
  {
    forall j :: i < j < |bits| ==> bits[j] / 8 != bits[i] / 8
  }

  /** A last position in another byte changes nothing. */
  lemma OtherByteKeeps(bits: seq<nat>, b: nat)
    requires bits != [] && b / 8 != bits[|bits| - 1] / 8
    ensures var front := bits[..|bits| - 1];
            (exists i :: 0 <= i < |bits| && bits[i] == b && LastInByte(bits, i)) <==>
            (exists i :: 0 <= i < |front| && front[i] == b && LastInByte(front, i))
  {
    var m := |bits| - 1;
    var front := bits[..m];
    forall i | 0 <= i < m && bits[i] == b ensures LastInByte(bits, i) <==> LastInByte(front, i) {
      assert forall j :: i < j < m ==> front[j] == bits[j];
    }
    if exists i :: 0 <= i < |bits| && bits[i] == b && LastInByte(bits, i) {
      var i :| 0 <= i < |bits| && bits[i] == b && LastInByte(bits, i);
      assert front[i] == b && LastInByte(front, i);
    }
    if exists i :: 0 <= i < |front| && front[i] == b && LastInByte(front, i) {
      var i :| 0 <= i < |front| && front[i] == b && LastInByte(front, i);
      assert bits[i] == b && LastInByte(bits, i);
    }
  }

  /** `set_bits` keeps a position exactly when no later one shares its byte. */
  lemma {:induction false} BitsValueBits(bits: seq<nat>, size: nat, b: nat)
    requires InRange(bits, size) && b < 8 * size
    ensures FieldBit(BitsValue(bits, size), b) <==> exists i :: 0 <= i < |bits| && bits[i] == b && LastInByte(bits, i)
  {
    if bits == [] {
      BitZero(b % 8);
    } else {
      var m := |bits| - 1;
      var front, c := bits[..m], bits[m];
      BitsValueBits(front, size, b);
      assert LastInByte(bits, m);
      if b / 8 == c / 8 {
        BitPow2(c % 8, b % 8);
        if b != c {
          forall i | 0 <= i < |bits| && bits[i] == b ensures !LastInByte(bits, i) { assert i < m; }
        }
      } else {
        assert FieldBit(BitsValue(bits, size), b) <==> FieldBit(BitsValue(front, size), b);
        OtherByteKeeps(bits, b);
      }
    }
  }

  ghost predicate DistinctBytes(bits: seq<nat>) {
    forall i, j :: 0 <= i < j < |bits| ==> bits[i] / 8 != bits[j] / 8
  }

  /** What `init` requires of its choice: sorted positions inside the field. */
  ghost predicate Choice(bits: seq<nat>, size: nat) {
    1 <= |bits| <= 16 && Ascending(bits) && InRange(bits, size)
  }

  ghost function VectorOf(bits: seq<nat>, size: nat): Vector
    requires Choice(bits, size)
  {
    Vector(BitsValue(bits, size), bits[0], bits[|bits| - 1], bits)
  }

  ghost function SelectedBits(bits: seq<nat>, size: nat): (s: seq<nat>)
    requires Choice(bits, size)
    ensures InRange(s, size)
  {
    var v := VectorOf(bits, size);
    MaskBits(v.mask, v.minBit, v.maxBit + 1)
  }

  /** The selected positions are the chosen ones that survive `set_bits`. */
  lemma SelectedMember(bits: seq<nat>, size: nat, b: nat)
    requires Choice(bits, size)
    ensures b in SelectedBits(bits, size) <==> exists i :: 0 <= i < |bits| && bits[i] == b && LastInByte(bits, i)
  {
    var v := VectorOf(bits, size);
    MaskBitsMember(v.mask, v.minBit, v.maxBit + 1, b);
    if b < 8 * size { BitsValueBits(bits, size, b); }
  }

  lemma SelectedAscend(bits: seq<nat>, size: nat)
    requires Choice(bits, size)
    ensures Ascending(SelectedBits(bits, size))
  {
    var v := VectorOf(bits, size);
    MaskBitsAscend(v.mask, v.minBit, v.maxBit + 1);
  }

  lemma VectorValid(bits: seq<nat>, size: nat)
    requires Choice(bits, size)
    ensures VectorOf(bits, size).Valid() && VectorOf(bits, size).Selected() == SelectedBits(bits, size)
  {
    var s := SelectedBits(bits, size);
    SelectedAscend(bits, size);
    forall b | b in s ensures b in bits { SelectedMember(bits, size, b); }
    AscendingLength(s, bits);
  }

  lemma {:induction false} AscendingLength(s: seq<nat>, t: seq<nat>)
    requires Ascending(s) && Ascending(t) && forall b :: b in s ==> b in t
    ensures |s| <= |t|
    decreases t
  {
    if s != [] {
      var m, n := |s| - 1, |t| - 1;
      assert s[m] in t && t != [];
      forall b | b in s[..m] ensures b in t[..n] {
        assert b in s;
        var k :| 0 <= k < |t| && t[k] == b;
        var i :| 0 <= i < m && s[i] == b;
        var l :| 0 <= l < |t| && t[l] == s[m];
        assert t[k] < t[l];
        assert k < l;
        assert t[..n][k] == b;
      }
      AscendingLength(s[..m], t[..n]);
    }
  }

  lemma {:induction false} AscendingUnique(s: seq<nat>, t: seq<nat>)
    requires Ascending(s) && Ascending(t) && forall b :: b in s <==> b in t
    ensures s == t
  {
    AscendingLength(s, t);
    AscendingLength(t, s);
    if s != [] {
      var m := |s| - 1;
      LastEqual(s, t);
      LastEqual(t, s);
      FrontMembers(s, s[..m], t, t[..m]);
      FrontMembers(t, t[..m], s, s[..m]);
      AscendingUnique(s[..m], t[..m]);
      assert s == s[..m] + [s[m]] && t == t[..m] + [t[m]];
    }
  }

  lemma LastEqual(s: seq<nat>, t: seq<nat>)
    requires s != [] && t != [] && Ascending(t) && s[|s| - 1] in t
    ensures s[|s| - 1] <= t[|t| - 1]
  {
    var k :| 0 <= k < |t| && t[k] == s[|s| - 1];
  }

  lemma FrontMembers(s: seq<nat>, front: seq<nat>, t: seq<nat>, front': seq<nat>)
    requires s != [] && |s| == |t| && Ascending(s) && s[|s| - 1] == t[|t| - 1] && forall b :: b in s ==> b in t
    requires front == s[..|s| - 1] && front' == t[..|t| - 1]
    ensures forall b :: b in front ==> b in front'
  {
    var m := |s| - 1;
    forall b | b in front ensures b in front' {
      var i :| 0 <= i < m && front[i] == b;
      assert s[i] == b && b in s;
      var k :| 0 <= k < |t| && t[k] == b;
      assert front'[k] == b;
    }
  }

  /** With the positions in distinct bytes the mask vector selects all of them. */
  lemma DistinctSelected(bits: seq<nat>, size: nat)
    requires Choice(bits, size) && DistinctBytes(bits)
    ensures SelectedBits(bits, size) == bits
  {
    var s := SelectedBits(bits, size);
    SelectedAscend(bits, size);
    forall b ensures b in s <==> b in bits {
      if b >= 0 { SelectedMember(bits, size, b); }
      if b in bits {
        var i :| 0 <= i < |bits| && bits[i] == b;
        assert LastInByte(bits, i);
      }
    }
    AscendingUnique(s, bits);
  }

  /** A selected position is never below the chosen position of the same rank. */
  lemma RankAbove(bits: seq<nat>, size: nat, r: nat)
    requires Choice(bits, size) && r < |SelectedBits(bits, size)|
    ensures r < |bits| && bits[r] <= SelectedBits(bits, size)[r]
  {
    hide SelectedBits;
    var s := SelectedBits(bits, size);
    SelectedAscend(bits, size);
    forall b | b in s ensures b in bits { SelectedMember(bits, size, b); }
    assert s[r] in s;
    var l :| 0 <= l < |bits| && bits[l] == s[r];
    var front, below := s[..r + 1], bits[..l + 1];
    forall b | b in front ensures b in below {
      var i :| 0 <= i <= r && front[i] == b;
      assert s[i] == b && s[i] in s;
      var k :| 0 <= k < |bits| && bits[k] == b;
      assert k <= l;
      assert below[k] == b;
    }
    AscendingLength(front, below);
  }

  /** A key looks into a bucket of the pair iff, rank by rank, the selected bit of the key is
      that of the field wherever the chosen bit is masked. */
  lemma ReachedIff(key: Field, field: Field, mask: Field, bits: seq<nat>, size: nat)
    requires Choice(bits, size) && |key| == |field| == |mask| == size
    ensures VectorOf(bits, size).Valid()
    ensures var v, s := VectorOf(bits, size), SelectedBits(bits, size);
            |s| <= |bits| &&
            (Bucket(key, v) in AllBuckets(field, mask, v) <==>
             forall r :: 0 <= r < |s| && FieldBit(mask, bits[r]) ==> (FieldBit(key, s[r]) <==> FieldBit(field, s[r])))
  {
    hide AllBuckets, Extract, FieldBit, BitsValue, SelectedBits, Bit;
    var v, s := VectorOf(bits, size), SelectedBits(bits, size);
    VectorValid(bits, size);
    SelectedCount(bits, size);
    AllBucketsMember(field, mask, v, Bucket(key, v));
    OpenBelow(mask, bits);
    BucketBits(key, bits, size);
    BucketBits(field, bits, size);
    if forall r :: 0 <= r < |s| && FieldBit(mask, bits[r]) ==> (FieldBit(key, s[r]) <==> FieldBit(field, s[r])) {
      forall j: nat | j < 16 && j !in Open(mask, bits) ensures Bit(Bucket(key, v), j) <==> Bit(Bucket(field, v), j) {
        assert j < |s| ==> FieldBit(mask, bits[j]);
      }
    }
    if Bucket(key, v) in AllBuckets(field, mask, v) {
      forall r | 0 <= r < |s| && FieldBit(mask, bits[r]) ensures FieldBit(key, s[r]) <==> FieldBit(field, s[r]) {
        assert r !in Open(mask, bits);
        assert Bit(Bucket(key, v), r) <==> Bit(Bucket(field, v), r);
      }
    }
  }

  lemma SelectedCount(bits: seq<nat>, size: nat)
    requires Choice(bits, size)
    ensures |SelectedBits(bits, size)| <= |bits|
  {
    var n := |SelectedBits(bits, size)|;
    if n > 0 { RankAbove(bits, size, n - 1); }
  }

  lemma BucketBits(key: Field, bits: seq<nat>, size: nat)
    requires Choice(bits, size) && |key| == size && VectorOf(bits, size).Valid()
    ensures var v, s := VectorOf(bits, size), SelectedBits(bits, size);
            && Bucket(key, v) < 0x1_0000
            && forall j: nat :: Bit(Bucket(key, v), j) <==> j < |s| && FieldBit(key, s[j])
  {
    VectorValid(bits, size);
    ExtractBits(key, SelectedBits(bits, size));
    ExtractBound(key, SelectedBits(bits, size));
  }

  // ---------- exactly when no key is missed, whatever the masks ----------

  ghost predicate SameSize(a: Field, b: Field, c: Field, size: nat) { |a| == |b| == |c| == size }

  /** Every key that matches a field/mask pair looks into one of the pair's buckets. */
  ghost predicate NeverMisses(v: Vector)
    requires v.Valid()
  {
    forall key: Field, field: Field, mask: Field ::
      SameSize(key, field, mask, |v.mask|) && AndField(key, mask) == field ==>
        Bucket(key, v) in AllBuckets(field, mask, v)
  }

  lemma MatchAgrees(key: Field, field: Field, mask: Field, bits: seq<nat>)
    requires |key| == |mask| && AndField(key, mask) == field && InRange(bits, |key|)
    ensures AgreesOnMasked(key, field, mask, bits)
  {
    forall j | 0 <= j < |bits| && FieldBit(mask, bits[j]) ensures FieldBit(key, bits[j]) <==> FieldBit(field, bits[j]) {
      AndFieldBit(key, mask, bits[j]);
    }
  }

  lemma FieldExt(a: Field, b: Field)
    requires |a| == |b| && forall i: nat :: i < 8 * |a| ==> (FieldBit(a, i) <==> FieldBit(b, i))
    ensures a == b
  {
    Pow2Values();
    forall i | 0 <= i < |a| ensures a[i] == b[i] {
      forall j: nat | j < 8 ensures Bit(a[i], j) <==> Bit(b[i], j) {
        assert (8 * i + j) / 8 == i && (8 * i + j) % 8 == j;
        assert FieldBit(a, 8 * i + j) <==> FieldBit(b, 8 * i + j);
      }
      BitsExt(a[i], b[i], 8);
    }
  }

  ghost function Constant(x: byte, size: nat): (f: Field)
    ensures |f| == size
  {
    seq(size, _ => x)
  }

  lemma ConstantBits(size: nat, i: nat)
    requires i < 8 * size
    ensures !FieldBit(Constant(0, size), i) && FieldBit(Constant(255, size), i)
  {
    BitZero(i % 8);
    BitOnes(8, i % 8);
    Pow2Values();
  }

  /** A key with the single bit `b`, a mask that ignores only `b`, and the empty field. */
  lemma Probe(b: nat, size: nat) returns (key: Field, mask: Field)
    requires b < 8 * size
    ensures |key| == |mask| == size && AndField(key, mask) == Constant(0, size)
    ensures forall i: nat :: i < 8 * size ==> (FieldBit(key, i) <==> i == b) && (FieldBit(mask, i) <==> i != b)
  {
    key := PutBit(Constant(0, size), b, true);
    mask := PutBit(Constant(255, size), b, false);
    forall i: nat | i < 8 * size
      ensures (FieldBit(key, i) <==> i == b) && (FieldBit(mask, i) <==> i != b)
      ensures FieldBit(AndField(key, mask), i) <==> FieldBit(Constant(0, size), i)
    {
      ConstantBits(size, i);
      PutBitBits(Constant(0, size), b, true, i);
      PutBitBits(Constant(255, size), b, false, i);
      AndFieldBit(key, mask, i);
    }
    FieldExt(AndField(key, mask), Constant(0, size));
  }

  /** If nothing is missed, a selected position sits at its own rank. */
  lemma RankKept(bits: seq<nat>, size: nat, l: nat, r: nat)
    requires Choice(bits, size) && VectorOf(bits, size).Valid() && NeverMisses(VectorOf(bits, size))
    requires l < |bits| && r < |SelectedBits(bits, size)| && SelectedBits(bits, size)[r] == bits[l]
    ensures r == l
  {
    hide NeverMisses, Bit, FieldBit, AllBuckets, BitsValue, AndField;
    var v, s := VectorOf(bits, size), SelectedBits(bits, size);
    var key, mask := Probe(bits[l], size);
    var zero := Constant(0, size);
    ProbeHit(v, key, zero, mask);
    ExtractBits(key, s);
    ExtractBits(zero, s);
    assert bits[l] < 8 * size;
    assert Bit(Bucket(key, v), r);
    forall i: nat | i < 8 * size ensures !FieldBit(zero, i) { ConstantBits(size, i); }
    AllBucketsMember(zero, mask, v, Bucket(key, v));
    OpenBelow(mask, bits);
    VectorValid(bits, size);
    assert r in Open(mask, bits);
    assert bits[r] == bits[l];
  }

  lemma ProbeHit(v: Vector, key: Field, field: Field, mask: Field)
    requires v.Valid() && NeverMisses(v)
    requires SameSize(key, field, mask, |v.mask|) && AndField(key, mask) == field
    ensures Bucket(key, v) in AllBuckets(field, mask, v)
  {
  }

  lemma MissesUnlessDistinct(bits: seq<nat>, size: nat)
    requires Choice(bits, size) && VectorOf(bits, size).Valid() && NeverMisses(VectorOf(bits, size))
    ensures DistinctBytes(bits)
  {
    hide NeverMisses;
    var s, n := SelectedBits(bits, size), |bits|;
    forall r | 0 <= r < |s| ensures r < n && s[r] == bits[r] {
      SelectedMember(bits, size, s[r]);
      var l :| 0 <= l < n && bits[l] == s[r] && LastInByte(bits, l);
      RankKept(bits, size, l, r);
    }
    assert LastInByte(bits, n - 1);
    SelectedMember(bits, size, bits[n - 1]);
    var top :| 0 <= top < |s| && s[top] == bits[n - 1];
    assert top == n - 1;
    forall i, j | 0 <= i < j < n ensures bits[i] / 8 != bits[j] / 8 {
      assert s[i] == bits[i];
      SelectedMember(bits, size, bits[i]);
      var k :| 0 <= k < n && bits[k] == bits[i] && LastInByte(bits, k);
      assert k == i;
    }
  }

  /** With masks of any shape, the index misses no matching key if and only if the chosen
      positions lie in pairwise different bytes. The masks that ACLs compile to ask for less
      (`PolicyLookup.LookupExactIff`). */
  lemma NeverMissesIff(bits: seq<nat>, size: nat)
    requires Choice(bits, size)
    ensures VectorOf(bits, size).Valid()
    ensures NeverMisses(VectorOf(bits, size)) <==> DistinctBytes(bits)
  {
    VectorValid(bits, size);
    var v := VectorOf(bits, size);
    if NeverMisses(v) {
      MissesUnlessDistinct(bits, size);
    }
    if DistinctBytes(bits) {
      DistinctSelected(bits, size);
      forall key: Field, field: Field, mask: Field |
        SameSize(key, field, mask, |v.mask|) && AndField(key, mask) == field
        ensures Bucket(key, v) in AllBuckets(field, mask, v)
      {
        MatchAgrees(key, field, mask, bits);
        BucketSound(key, field, mask, v);
      }
    }
  }
}
