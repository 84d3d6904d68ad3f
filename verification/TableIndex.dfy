/** `get_table_index` and `get_all_table_index` of src/common/matched_field.rs: the
    bucket of a key, and all the buckets a field/mask pair is filed under. */
module TableIndex {
  import opened Words
  import opened Bits
  import opened MatchedFields

  // ---------- the bucket of a key ----------

  /** The set bits of the mask vector between `lo` and `hi`, ascending. */
  ghost function MaskBits(mv: Field, lo: nat, hi: nat): (bits: seq<nat>)
    requires hi <= 8 * |mv|
    ensures InRange(bits, |mv|)
    decreases hi
  {
    if hi <= lo then []
    else
      var front := MaskBits(mv, lo, hi - 1);
      if FieldBit(mv, hi - 1) then front + [hi - 1] else front
  }

  /** The number whose bit `j` is the key's bit `bits[j]`. */
  ghost function Extract(key: Field, bits: seq<nat>): nat
    requires InRange(bits, |key|)
  {
    if bits == [] then 0
    else
      var m := |bits| - 1;
      Extract(key, bits[..m]) + (if FieldBit(key, bits[m]) then Pow2(m) else 0)
  }

  lemma {:induction false} ExtractBits(key: Field, bits: seq<nat>)
    requires InRange(bits, |key|)
    ensures Extract(key, bits) < Pow2(|bits|)
    ensures forall j: nat :: Bit(Extract(key, bits), j) <==> j < |bits| && FieldBit(key, bits[j])
  {
    if bits == [] {
      forall j: nat ensures !Bit(0, j) { BitZero(j); }
    } else {
      var m := |bits| - 1;
      var front := bits[..m];
      var x := Extract(key, front);
      ExtractBits(key, front);
      forall j: nat ensures Bit(Extract(key, bits), j) <==> j < |bits| && FieldBit(key, bits[j]) {
        if FieldBit(key, bits[m]) {
          AddTopBit(x, m, j);
        }
        assert j < m ==> front[j] == bits[j];
        assert Bit(x, j) <==> j < m && FieldBit(key, front[j]);
      }
    }
  }

  /** Adding a power of two above all bits sets one bit; `|` does the same. */
  lemma {:induction false} AddTopBit(x: nat, m: nat, j: nat)
    requires x < Pow2(m)
    ensures Bit(x + Pow2(m), j) <==> j == m || Bit(x, j)
    decreases m
  {
    if m == 0 {
      if j > 0 { BitZero(j - 1); }
    } else if j > 0 {
      assert (x + Pow2(m)) / 2 == x / 2 + Pow2(m - 1);
      AddTopBit(x / 2, m - 1, j - 1);
    }
  }

  lemma {:induction false} OrTopBit(x: nat, m: nat)
    requires x < Pow2(m)
    ensures Or(x, Pow2(m)) == x + Pow2(m)
    decreases m
  {
    if m == 0 { OrZero(0); } else { OrTopBit(x / 2, m - 1); }
  }

  method GetTableIndex(key: MatchedFieldN, maskVector: MatchedFieldN, min: nat, max: nat) returns (index: nat)
    requires key.Valid() && maskVector.Valid() && key.n == maskVector.n
    requires min <= max < 8 * (2 * key.n + OTHER_SIZE)
    requires |MaskBits(maskVector.Value(), min, max + 1)| <= 16
    ensures index == Extract(key.Value(), MaskBits(maskVector.Value(), min, max + 1)) < 0x1_0000
  {
    hide *;
    ghost var k, mv := key.Value(), maskVector.Value();
    var result := key.BitAnd(maskVector);
    index := 0;
    var offset := 0;
    var i := min;
    IndexStart(k, mv, min);
    while i <= max
      invariant min <= i <= max + 1
      invariant result.Value() == AndField(k, mv) && maskVector.Value() == mv
      invariant offset == |MaskBits(mv, min, i)| && index == Extract(k, MaskBits(mv, min, i))
    {
      var zero := result.IsBitZero(i);
      var maskZero := maskVector.IsBitZero(i);
      AndFieldBit(k, mv, i);
      IndexStep(k, mv, min, i);
      if !zero { index := Or(index, Pow2(offset)); }
      if !maskZero { offset := offset + 1; }
      i := i + 1;
    }
    ExtractBound(k, MaskBits(mv, min, max + 1));
  }

  lemma ExtractBound(key: Field, bits: seq<nat>)
    requires InRange(bits, |key|) && |bits| <= 16
    ensures Extract(key, bits) < 0x1_0000
  {
    ExtractBits(key, bits);
    Pow2Mono(|bits|, 16);
    Pow2Values();
  }

  lemma IndexStart(k: Field, mv: Field, min: nat)
    requires |k| == |mv| && min <= 8 * |mv|
    ensures MaskBits(mv, min, min) == [] && Extract(k, MaskBits(mv, min, min)) == 0
  {
  }

  lemma IndexStep(k: Field, mv: Field, min: nat, i: nat)
    requires |k| == |mv| && min <= i < 8 * |mv|
    ensures var bits, bits' := MaskBits(mv, min, i), MaskBits(mv, min, i + 1);
            && |bits'| == |bits| + (if FieldBit(mv, i) then 1 else 0)
            && Extract(k, bits') == if FieldBit(k, i) && FieldBit(mv, i) then Or(Extract(k, bits), Pow2(|bits|))
                                    else Extract(k, bits)
  {
    hide FieldBit, Or, Pow2;
    var bits, bits' := MaskBits(mv, min, i), MaskBits(mv, min, i + 1);
    ExtractBits(k, bits);
    OrTopBit(Extract(k, bits), |bits|);
    if FieldBit(mv, i) {
      assert bits' == bits + [i];
      assert bits'[..|bits|] == bits && bits'[|bits|] == i;
    } else {
      assert bits' == bits;
    }
  }

  lemma AndFieldBit(a: Field, b: Field, i: nat)
    requires |a| == |b| && i < 8 * |a|
    ensures FieldBit(AndField(a, b), i) <==> FieldBit(a, i) && FieldBit(b, i)
  {
    AndBit(a[i / 8], b[i / 8], i % 8);
  }

  lemma {:induction false} MaskBitsMember(mv: Field, lo: nat, hi: nat, b: nat)
    requires hi <= 8 * |mv|
    ensures b in MaskBits(mv, lo, hi) <==> lo <= b < hi && FieldBit(mv, b)
    decreases hi
  {
    hide FieldBit;
    if lo < hi { MaskBitsMember(mv, lo, hi - 1, b); }
  }

  // ---------- the buckets of a field/mask pair ----------

  /** The bit vector that the first path indexes its table with. */
  datatype Vector = Vector(mask: Field, minBit: nat, maxBit: nat, vectorBits: seq<nat>) {
    ghost predicate Valid() {
      && minBit <= maxBit < 8 * |mask|
      && InRange(vectorBits, |mask|)
      && |vectorBits| <= 16 && |MaskBits(mask, minBit, maxBit + 1)| <= 16
    }

    ghost function Selected(): seq<nat>
      requires Valid()
    {
      MaskBits(mask, minBit, maxBit + 1)
    }
  }

  ghost function Bucket(key: Field, v: Vector): nat
    requires v.Valid() && |key| == |v.mask|
  {
    Extract(key, v.Selected())
  }

  /** Positions in `bits` that the mask leaves open. */
  ghost function Open(mask: Field, bits: seq<nat>): seq<nat>
    requires InRange(bits, |mask|)
  {
    if bits == [] then []
    else
      var m := |bits| - 1;
      var front := Open(mask, bits[..m]);
      if FieldBit(mask, bits[m]) then front else front + [m]
  }

  /** `index &= !(1 << offset)` for every offset. */
  ghost function ClearAll(index: nat, offsets: seq<nat>): nat
    requires forall i :: 0 <= i < |offsets| ==> offsets[i] < 16
  {
    if offsets == [] then index
    else
      var m := |offsets| - 1;
      And(ClearAll(index, offsets[..m]), NotBit(offsets[m]))
  }

  function NotBit(k: nat): u16
    requires k < 16
  {
    Pow2Mono(k, 15);
    Pow2Values();
    0xFFFF - Pow2(k)
  }

  /** Doubling the list for every offset. */
  ghost function Spread(index: nat, offsets: seq<nat>): seq<nat> {
    if offsets == [] then [index]
    else
      var m := |offsets| - 1;
      Doubled(Spread(index, offsets[..m]), offsets[m])
  }

  ghost function Doubled(base: seq<nat>, offset: nat): seq<nat> {
    base + seq(|base|, i requires 0 <= i < |base| => Or(base[i], Pow2(offset)))
  }

  ghost function AllBuckets(field: Field, mask: Field, v: Vector): seq<nat>
    requires v.Valid() && |field| == |mask| == |v.mask|
  {
    var open := Open(mask, v.vectorBits);
    OpenBelow(mask, v.vectorBits);
    Spread(ClearAll(Bucket(field, v), open), open)
  }

  lemma {:induction false} OpenBound(mask: Field, bits: seq<nat>)
    requires InRange(bits, |mask|)
    ensures forall i :: 0 <= i < |Open(mask, bits)| ==> Open(mask, bits)[i] < |bits|
  {
    hide FieldBit;
    if bits != [] { OpenBound(mask, bits[..|bits| - 1]); }
  }

  lemma {:induction false} OpenAscend(mask: Field, bits: seq<nat>)
    requires InRange(bits, |mask|)
    ensures Ascending(Open(mask, bits))
  {
    hide FieldBit;
    if bits != [] {
      OpenAscend(mask, bits[..|bits| - 1]);
      OpenBound(mask, bits[..|bits| - 1]);
    }
  }

  lemma {:induction false} OpenMember(mask: Field, bits: seq<nat>, r: nat)
    requires InRange(bits, |mask|)
    ensures r in Open(mask, bits) <==> r < |bits| && !FieldBit(mask, bits[r])
  {
    hide FieldBit;
    if bits != [] { OpenMember(mask, bits[..|bits| - 1], r); }
  }

  /** The open positions are ranks of `bits`, in order, and exactly those the mask leaves open. */
  lemma OpenBelow(mask: Field, bits: seq<nat>)
    requires InRange(bits, |mask|)
    ensures Ascending(Open(mask, bits))
    ensures forall i :: 0 <= i < |Open(mask, bits)| ==> Open(mask, bits)[i] < |bits|
    ensures forall r: nat :: r in Open(mask, bits) <==> r < |bits| && !FieldBit(mask, bits[r])
  {
    hide FieldBit, Open, Ascending;
    OpenAscend(mask, bits);
    OpenBound(mask, bits);
    forall r: nat ensures r in Open(mask, bits) <==> r < |bits| && !FieldBit(mask, bits[r]) {
      OpenMember(mask, bits, r);
    }
  }

  ghost predicate Ascending(s: seq<nat>) {
    forall i, j :: 0 <= i < j < |s| ==> s[i] < s[j]
  }

  method GetAllTableIndex(field: MatchedFieldN, mask: MatchedFieldN, maskVector: MatchedFieldN,
                          min: nat, max: nat, vectorBits: seq<nat>)
    returns (base: seq<nat>)
    requires field.Valid() && mask.Valid() && maskVector.Valid() && field.n == mask.n == maskVector.n
    requires Vector(maskVector.Value(), min, max, vectorBits).Valid()
    ensures base == AllBuckets(field.Value(), mask.Value(), Vector(maskVector.Value(), min, max, vectorBits))
  {
    hide Extract, MaskBits, Open, ClearAll, Spread, FieldBit, Ascending;
    var index := GetTableIndex(field, maskVector, min, max);
    var indexOffset := OpenOffsets(mask, vectorBits);
    OpenBelow(mask.Value(), vectorBits);
    index := ClearOffsets(index, indexOffset);
    base := SpreadOffsets(index, indexOffset);
  }

  method ClearOffsets(start: nat, offsets: seq<nat>) returns (index: nat)
    requires forall i :: 0 <= i < |offsets| ==> offsets[i] < 16
    ensures index == ClearAll(start, offsets)
  {
    index := start;
    for i := 0 to |offsets|
      invariant index == ClearAll(start, offsets[..i])
    {
      assert offsets[..i + 1][..i] == offsets[..i];
      index := And(index, NotBit(offsets[i]));
    }
    assert offsets[..|offsets|] == offsets;
  }

  method SpreadOffsets(index: nat, offsets: seq<nat>) returns (base: seq<nat>)
    ensures base == Spread(index, offsets)
  {
    base := [index];
    for i := 0 to |offsets|
      invariant base == Spread(index, offsets[..i])
    {
      assert offsets[..i + 1][..i] == offsets[..i];
      base := DoubleList(base, offsets[i]);
    }
    assert offsets[..|offsets|] == offsets;
  }

  method OpenOffsets(mask: MatchedFieldN, vectorBits: seq<nat>) returns (offsets: seq<nat>)
    requires mask.Valid() && InRange(vectorBits, 2 * mask.n + OTHER_SIZE)
    ensures offsets == Open(mask.Value(), vectorBits)
  {
    offsets := [];
    for i := 0 to |vectorBits|
      invariant offsets == Open(mask.Value(), vectorBits[..i])
    {
      assert vectorBits[..i + 1][..i] == vectorBits[..i];
      // mask bit 0 means all
      var zero := mask.IsBitZero(vectorBits[i]);
      if zero { offsets := offsets + [i]; }
    }
    assert vectorBits[..|vectorBits|] == vectorBits;
  }

  method DoubleList(list: seq<nat>, offset: nat) returns (base: seq<nat>)
    ensures base == Doubled(list, offset)
  {
    base := list;
    for i := 0 to |list|
      invariant base == Doubled(list, offset)[..|list| + i]
    {
      base := base + [Or(base[i], Pow2(offset))];
    }
  }

  // ---------- what the buckets are ----------

  /** `x` agrees with `index` on every bit outside `offsets`. */
  ghost predicate AgreesOutside(x: nat, index: nat, offsets: seq<nat>) {
    x < 0x1_0000 && forall j: nat :: j < 16 && j !in offsets ==> (Bit(x, j) <==> Bit(index, j))
  }

  ghost predicate Offsets(offsets: seq<nat>) {
    Ascending(offsets) && forall i :: 0 <= i < |offsets| ==> offsets[i] < 16
  }

  lemma {:induction false} ClearAllBits(index: nat, offsets: seq<nat>)
    requires index < 0x1_0000 && forall i :: 0 <= i < |offsets| ==> offsets[i] < 16
    ensures ClearAll(index, offsets) < 0x1_0000
    ensures forall j: nat :: j < 16 ==> (Bit(ClearAll(index, offsets), j) <==> Bit(index, j) && j !in offsets)
  {
    if offsets != [] {
      var m := |offsets| - 1;
      var x := ClearAll(index, offsets[..m]);
      ClearAllBits(index, offsets[..m]);
      AndBound(x, NotBit(offsets[m]));
      assert offsets == offsets[..m] + [offsets[m]];
      forall j: nat | j < 16 ensures Bit(ClearAll(index, offsets), j) <==> Bit(index, j) && j !in offsets {
        AndBit(x, NotBit(offsets[m]), j);
        NotBitBits(offsets[m], j);
      }
    }
  }

  lemma NotBitBits(k: nat, j: nat)
    requires k < 16
    ensures Bit(NotBit(k), j) <==> j < 16 && j != k
  {
    BitComplement(k, 16, j);
    Pow2Values();
  }

  /** Setting one 16-bit bit. */
  lemma SetBit(u: nat, o: nat)
    requires u < 0x1_0000 && o < 16
    ensures Or(u, Pow2(o)) < 0x1_0000
    ensures forall j: nat :: Bit(Or(u, Pow2(o)), j) <==> Bit(u, j) || j == o
  {
    Pow2Values();
    Pow2Mono(o, 15);
    OrBound(u, Pow2(o), 16);
    forall j: nat ensures Bit(Or(u, Pow2(o)), j) <==> Bit(u, j) || j == o {
      OrBit(u, Pow2(o), j);
      BitPow2(o, j);
    }
  }

  lemma SameBits16(x: nat, y: nat)
    requires x < 0x1_0000 && y < 0x1_0000 && forall j: nat :: j < 16 ==> (Bit(x, j) <==> Bit(y, j))
    ensures x == y
  {
    Pow2Values();
    BitsExt(x, y, 16);
  }

  /** Without bit `o`, the word `u` whose bit is cleared; with it, `u | 1 << o`. */
  lemma Without(x: nat, o: nat) returns (u: nat)
    requires x < 0x1_0000 && o < 16 && Bit(x, o)
    ensures u < 0x1_0000 && !Bit(u, o) && Or(u, Pow2(o)) == x
    ensures forall j: nat :: j < 16 && j != o ==> (Bit(u, j) <==> Bit(x, j))
  {
    u := And(x, NotBit(o));
    AndBound(x, NotBit(o));
    forall j: nat | j < 16 ensures Bit(u, j) <==> Bit(x, j) && j != o {
      AndBit(x, NotBit(o), j);
      NotBitBits(o, j);
    }
    SetBit(u, o);
    SameBits16(Or(u, Pow2(o)), x);
  }

  lemma {:induction false} SpreadMembers(index: nat, offsets: seq<nat>, x: nat)
    requires index < 0x1_0000 && Offsets(offsets)
    requires forall j :: j in offsets ==> !Bit(index, j)
    ensures x in Spread(index, offsets) <==> AgreesOutside(x, index, offsets)
    decreases offsets
  {
    hide Bit, Or;
    if offsets == [] {
      if AgreesOutside(x, index, offsets) { SameBits16(x, index); }
    } else {
      var m := |offsets| - 1;
      var front, o := offsets[..m], offsets[m];
      var base := Spread(index, front);
      assert offsets == front + [o];
      assert o !in front;
      SpreadMembers(index, front, x);
      if x in Spread(index, offsets) && x !in base {
        var u := DoubledFrom(base, o, x);
        SpreadMembers(index, front, u);
        SetBit(u, o);
      }
      if AgreesOutside(x, index, offsets) {
        if Bit(x, o) {
          var u := Without(x, o);
          SpreadMembers(index, front, u);
          DoubledHas(base, o, u);
        } else {
          assert AgreesOutside(x, index, front);
        }
      }
    }
  }

  lemma DoubledFrom(base: seq<nat>, o: nat, x: nat) returns (u: nat)
    requires x in Doubled(base, o) && x !in base
    ensures u in base && x == Or(u, Pow2(o))
  {
    var i :| 0 <= i < |Doubled(base, o)| && Doubled(base, o)[i] == x;
    u := base[i - |base|];
  }

  lemma DoubledHas(base: seq<nat>, o: nat, u: nat)
    requires u in base
    ensures Or(u, Pow2(o)) in Doubled(base, o)
  {
    var i :| 0 <= i < |base| && base[i] == u;
    assert Doubled(base, o)[|base| + i] == Or(u, Pow2(o));
  }

  ghost predicate NoDuplicates(s: seq<nat>) {
    forall i, j :: 0 <= i < j < |s| ==> s[i] != s[j]
  }

  lemma {:induction false} SpreadDistinct(index: nat, offsets: seq<nat>)
    requires index < 0x1_0000 && Offsets(offsets)
    requires forall j :: j in offsets ==> !Bit(index, j)
    ensures NoDuplicates(Spread(index, offsets)) && |Spread(index, offsets)| == Pow2(|offsets|)
    decreases offsets
  {
    hide Bit, Or;
    if offsets != [] {
      var m := |offsets| - 1;
      var front, o := offsets[..m], offsets[m];
      var base := Spread(index, front);
      assert offsets == front + [o];
      SpreadDistinct(index, front);
      forall i | 0 <= i < |base| ensures base[i] < 0x1_0000 && !Bit(base[i], o) {
        SpreadMembers(index, front, base[i]);
      }
      DoubledDistinct(base, o);
    }
  }

  lemma DoubledDistinct(base: seq<nat>, o: nat)
    requires NoDuplicates(base) && o < 16
    requires forall i :: 0 <= i < |base| ==> base[i] < 0x1_0000 && !Bit(base[i], o)
    ensures NoDuplicates(Doubled(base, o))
  {
    var d, n := Doubled(base, o), |base|;
    hide Bit, Or;
    forall i | 0 <= i < n
      ensures Bit(d[n + i], o) && forall j: nat :: j < 16 && j != o ==> (Bit(d[n + i], j) <==> Bit(base[i], j))
    {
      SetBit(base[i], o);
    }
    forall i, j | 0 <= i < j < |d| ensures d[i] != d[j] {
      if n <= i && d[i] == d[j] {
        SameBits16(base[i - n], base[j - n]);
      }
    }
  }

  // ---------- exactness of the bucket list ----------

  lemma {:induction false} MaskBitsAscend(mv: Field, lo: nat, hi: nat)
    requires hi <= 8 * |mv|
    ensures Ascending(MaskBits(mv, lo, hi))
    decreases hi
  {
    if lo < hi {
      MaskBitsAscend(mv, lo, hi - 1);
      var front := MaskBits(mv, lo, hi - 1);
      forall i | 0 <= i < |front| ensures front[i] < hi - 1 {
        MaskBitsMember(mv, lo, hi - 1, front[i]);
      }
    }
  }

  /** The key agrees with the field on every vector bit that the mask looks at. */
  ghost predicate AgreesOnMasked(key: Field, field: Field, mask: Field, bits: seq<nat>)
    requires |key| == |field| == |mask| && InRange(bits, |key|)
  {
    forall j :: 0 <= j < |bits| && FieldBit(mask, bits[j]) ==> (FieldBit(key, bits[j]) <==> FieldBit(field, bits[j]))
  }

  /** The list holds `x` exactly when `x` is the field's own bucket up to open positions. */
  lemma AllBucketsMember(field: Field, mask: Field, v: Vector, x: nat)
    requires v.Valid() && |field| == |mask| == |v.mask|
    ensures x in AllBuckets(field, mask, v) <==>
              AgreesOutside(x, Bucket(field, v), Open(mask, v.vectorBits))
  {
    var open := Open(mask, v.vectorBits);
    var own := Bucket(field, v);
    OpenBelow(mask, v.vectorBits);
    ExtractBound(field, v.Selected());
    ClearAllBits(own, open);
    SpreadMembers(ClearAll(own, open), open, x);
  }

  /** Each bucket once, two to the number of open vector bits in all. */
  lemma AllBucketsDistinct(field: Field, mask: Field, v: Vector)
    requires v.Valid() && |field| == |mask| == |v.mask|
    ensures NoDuplicates(AllBuckets(field, mask, v))
    ensures |AllBuckets(field, mask, v)| == Pow2(|Open(mask, v.vectorBits)|)
    ensures forall x :: x in AllBuckets(field, mask, v) ==> x < 0x1_0000
  {
    var open := Open(mask, v.vectorBits);
    var own := Bucket(field, v);
    OpenBelow(mask, v.vectorBits);
    ExtractBound(field, v.Selected());
    ClearAllBits(own, open);
    SpreadDistinct(ClearAll(own, open), open);
    forall x | x in AllBuckets(field, mask, v) ensures x < 0x1_0000 {
      AllBucketsMember(field, mask, v, x);
    }
  }

  /** When the mask vector selects exactly the vector bits, no key that agrees is missed. */
  lemma BucketSound(key: Field, field: Field, mask: Field, v: Vector)
    requires v.Valid() && |key| == |field| == |mask| == |v.mask| && v.Selected() == v.vectorBits
    requires AgreesOnMasked(key, field, mask, v.vectorBits)
    ensures Bucket(key, v) in AllBuckets(field, mask, v)
  {
    hide Bit, FieldBit, Spread, ClearAll, AllBuckets;
    var x, own, open := Bucket(key, v), Bucket(field, v), Open(mask, v.vectorBits);
    ExtractBits(key, v.vectorBits);
    ExtractBits(field, v.vectorBits);
    ExtractBound(key, v.vectorBits);
    OpenBelow(mask, v.vectorBits);
    assert AgreesOutside(x, own, open);
    AllBucketsMember(field, mask, v, x);
  }

  // ---------- every listed bucket belongs to a key ----------

  ghost function PutBit(f: Field, pos: nat, b: bool): (r: Field)
    requires pos < 8 * |f|
    ensures |r| == |f|
  {
    var i := pos / 8;
    assert Or(f[i], Pow2(pos % 8)) < 256 && And(f[i], 255 - Pow2(pos % 8)) < 256 && Pow2(pos % 8) <= 255 by {
      Pow2Mono(pos % 8, 7);
      Pow2Values();
      OrBound(f[i], Pow2(pos % 8), 8);
      AndBound(f[i], 255 - Pow2(pos % 8));
    }
    f[i := if b then Or(f[i], Pow2(pos % 8)) else And(f[i], 255 - Pow2(pos % 8))]
  }

  lemma PutBitBits(f: Field, pos: nat, b: bool, q: nat)
    requires pos < 8 * |f| && q < 8 * |f|
    ensures FieldBit(PutBit(f, pos, b), q) <==> if q == pos then b else FieldBit(f, q)
  {
    var i, k := pos / 8, pos % 8;
    Pow2Values();
    if q / 8 == i {
      OrBit(f[i], Pow2(k), q % 8);
      BitPow2(k, q % 8);
      AndBit(f[i], 255 - Pow2(k), q % 8);
      BitComplement(k, 8, q % 8);
    }
  }

  /** A key whose vector bits spell out `x`. */
  ghost function KeyFor(f: Field, bits: seq<nat>, x: nat): (r: Field)
    requires InRange(bits, |f|)
    ensures |r| == |f|
  {
    if bits == [] then f
    else
      var m := |bits| - 1;
      PutBit(KeyFor(f, bits[..m], x), bits[m], Bit(x, m))
  }

  lemma {:induction false} KeyForBits(f: Field, bits: seq<nat>, x: nat, j: nat)
    requires InRange(bits, |f|) && Ascending(bits) && j < |bits|
    ensures FieldBit(KeyFor(f, bits, x), bits[j]) <==> Bit(x, j)
  {
    var m := |bits| - 1;
    hide Bit, FieldBit, PutBit;
    PutBitBits(KeyFor(f, bits[..m], x), bits[m], Bit(x, m), bits[j]);
    if j < m { KeyForBits(f, bits[..m], x, j); }
  }

  lemma BucketComplete(field: Field, mask: Field, v: Vector, x: nat) returns (key: Field)
    requires v.Valid() && |field| == |mask| == |v.mask| && v.Selected() == v.vectorBits
    requires x in AllBuckets(field, mask, v)
    ensures |key| == |field| && AgreesOnMasked(key, field, mask, v.vectorBits) && Bucket(key, v) == x
  {
    hide Bit, FieldBit, Spread, ClearAll, AllBuckets, KeyFor;
    var bits, own, open := v.vectorBits, Bucket(field, v), Open(mask, v.vectorBits);
    key := KeyFor(field, bits, x);
    MaskBitsAscend(v.mask, v.minBit, v.maxBit + 1);
    forall j: nat | j < |bits| ensures FieldBit(key, bits[j]) <==> Bit(x, j) {
      KeyForBits(field, bits, x, j);
    }
    ExtractBits(field, bits);
    ExtractBits(key, bits);
    ExtractBound(key, bits);
    OpenBelow(mask, bits);
    AllBucketsMember(field, mask, v, x);
    assert forall j :: 0 <= j < |bits| && FieldBit(mask, bits[j]) ==> j !in open;
    forall j: nat | j < 16 ensures Bit(Bucket(key, v), j) <==> Bit(x, j) {
      assert j >= |bits| ==> j !in open;
    }
    SameBits16(Bucket(key, v), x);
  }

  /** Sound and complete: the list is exactly the set of buckets of the agreeing keys. */
  lemma AllBucketsExact(field: Field, mask: Field, v: Vector, x: nat)
    requires v.Valid() && |field| == |mask| == |v.mask| && v.Selected() == v.vectorBits
    ensures x in AllBuckets(field, mask, v) <==>
              exists key: Field :: |key| == |field| && AgreesOnMasked(key, field, mask, v.vectorBits) &&
                Bucket(key, v) == x
  {
    if x in AllBuckets(field, mask, v) {
      var key := BucketComplete(field, mask, v, x);
    }
    forall key: Field | |key| == |field| && AgreesOnMasked(key, field, mask, v.vectorBits)
      ensures Bucket(key, v) in AllBuckets(field, mask, v)
    {
      BucketSound(key, field, mask, v);
    }
  }
}
