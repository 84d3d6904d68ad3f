/** src/common/matched_field.rs: the packed header key, its bits, and the two
    bucket-index computations. The three byte arrays of `MatchedFieldN` are one
    byte string; the source splits it only because Rust cannot name the array length. */
module MatchedFields {
  import opened Words
  import opened Bits

  datatype Flag = SrcIp | DstIp | SrcEpc | DstEpc | SrcPort | DstPort | Proto | CaptureNetworkType

  const OTHER_SIZE: nat := 10

  type Field = seq<byte>

  // ---------- values ----------

  /** Offset inside the last ten bytes. */
  function OffsetOf(flag: Flag): nat {
    match flag
    case SrcEpc => 0
    case DstEpc => 2
    case SrcPort => 4
    case DstPort => 6
    case Proto => 8
    case CaptureNetworkType => 9
    case SrcIp => 0
    case DstIp => 0
  }

  predicate IsIp(flag: Flag) { flag.SrcIp? || flag.DstIp? }

  function LeBytes(v: u16): seq<byte> { [v % 256, v / 256] }

  /** What `set` stores for a flag: two little-endian bytes, or one truncated byte. */
  function FlagBytes(flag: Flag, v: u16): seq<byte> {
    if flag.Proto? || flag.CaptureNetworkType? then [v % 256] else LeBytes(v)
  }

  function Splice(f: Field, at: nat, bs: seq<byte>): Field
    requires at + |bs| <= |f|
  {
    f[..at] + bs + f[at + |bs|..]
  }

  function AndField(a: Field, b: Field): (r: Field)
    requires |a| == |b|
    ensures |r| == |a|
  {
    seq(|a|, i requires 0 <= i < |a| => AndByte(a[i], b[i]))
  }

  function AndByte(a: byte, b: byte): byte {
    AndBound(a, b);
    And(a, b)
  }

  predicate FieldBit(f: Field, i: nat)
    requires i < 8 * |f|
  {
    Bit(f[i / 8], i % 8)
  }

  // ---------- the object ----------

  class MatchedFieldN {
    const n: nat
    const srcIp: array<byte>
    const dstIp: array<byte>
    const others: array<byte>

    ghost predicate Valid() {
      && srcIp.Length == n && dstIp.Length == n && others.Length == OTHER_SIZE
      && srcIp != dstIp && srcIp != others && dstIp != others
    }

    function Value(): (f: Field)
      requires Valid()
      reads srcIp, dstIp, others
      ensures |f| == 2 * n + OTHER_SIZE
    {
      srcIp[..] + dstIp[..] + others[..]
    }

    constructor (n: nat)
      ensures Valid() && this.n == n
      ensures fresh(srcIp) && fresh(dstIp) && fresh(others)
      ensures Value() == seq(2 * n + OTHER_SIZE, _ => 0)
    {
      this.n := n;
      srcIp := new byte[n](_ => 0);
      dstIp := new byte[n](_ => 0);
      others := new byte[OTHER_SIZE](_ => 0);
    }

    /** A copy of a stored field. */
    constructor Of(n: nat, f: Field)
      requires |f| == 2 * n + OTHER_SIZE
      ensures Valid() && this.n == n && Value() == f
      ensures fresh(srcIp) && fresh(dstIp) && fresh(others)
    {
      this.n := n;
      srcIp := new byte[n](i requires 0 <= i < n => f[i]);
      dstIp := new byte[n](i requires 0 <= i < n => f[n + i]);
      others := new byte[OTHER_SIZE](i requires 0 <= i < OTHER_SIZE => f[2 * n + i]);
    }

    method Set(flag: Flag, value: u16)
      requires Valid() && !IsIp(flag)
      modifies others
      ensures Value() == Splice(old(Value()), 2 * n + OffsetOf(flag), FlagBytes(flag, value))
    {
      var offset := OffsetOf(flag);
      if flag.Proto? || flag.CaptureNetworkType? {
        others[offset] := value % 256;
      } else {
        others[offset] := value % 256;
        others[offset + 1] := value / 256;
      }
    }

    method SetIp(flag: Flag, octets: seq<byte>)
      requires Valid() && IsIp(flag) && |octets| == n
      modifies srcIp, dstIp
      ensures Value() == Splice(old(Value()), if flag.SrcIp? then 0 else n, octets)
    {
      if flag.SrcIp? {
        forall i | 0 <= i < n { srcIp[i] := octets[i]; }
        assert srcIp[..] == octets;
      } else {
        forall i | 0 <= i < n { dstIp[i] := octets[i]; }
        assert dstIp[..] == octets;
      }
    }

    /** `is_bit_zero`: an offset past the end panics. */
    method IsBitZero(offset: nat) returns (zero: bool)
      requires Valid() && offset < 8 * (2 * n + OTHER_SIZE)
      ensures zero <==> !FieldBit(Value(), offset)
    {
      if offset < 8 * n {
        zero := And(srcIp[offset / 8], Pow2(offset % 8)) == 0;
        AndPow2(srcIp[offset / 8], offset % 8);
      } else if offset < 8 * 2 * n {
        var o := offset - 8 * n;
        zero := And(dstIp[o / 8], Pow2(o % 8)) == 0;
        AndPow2(dstIp[o / 8], o % 8);
        assert offset / 8 == n + o / 8 && offset % 8 == o % 8;
      } else {
        var o := offset - 8 * 2 * n;
        zero := And(others[o / 8], Pow2(o % 8)) == 0;
        AndPow2(others[o / 8], o % 8);
        assert offset / 8 == 2 * n + o / 8 && offset % 8 == o % 8;
      }
    }

    /** `set_bits`: every bit replaces whatever its byte held. */
    method SetBits(bits: seq<nat>)
      requires Valid() && InRange(bits, 2 * n + OTHER_SIZE)
      modifies srcIp, dstIp, others
      ensures Value() == BitsValue(bits, 2 * n + OTHER_SIZE)
    {
      hide Pow2, Valid, Value;
      Clear();
      for i := 0 to |bits|
        invariant Value() == BitsValue(bits[..i], 2 * n + OTHER_SIZE)
      {
        SetBit(bits[i]);
        assert bits[..i + 1][..i] == bits[..i];
      }
      assert bits[..|bits|] == bits;
    }

    /** The body of that loop. */
    method SetBit(b: nat)
      requires Valid() && b < 8 * (2 * n + OTHER_SIZE)
      modifies srcIp, dstIp, others
      ensures Pow2(b % 8) < 256 && Value() == old(Value())[b / 8 := Pow2(b % 8)]
    {
      Pow2Mono(b % 8, 7);
      if b < 8 * n {
        srcIp[b / 8] := Pow2(b % 8);
      } else if b < 8 * 2 * n {
        var c := b - 8 * n;
        assert b / 8 == n + c / 8 && b % 8 == c % 8;
        dstIp[c / 8] := Pow2(c % 8);
      } else {
        var c := b - 8 * 2 * n;
        assert b / 8 == 2 * n + c / 8 && b % 8 == c % 8;
        others[c / 8] := Pow2(c % 8);
      }
    }

    method Clear()
      requires Valid()
      modifies srcIp, dstIp, others
      ensures Value() == seq(2 * n + OTHER_SIZE, _ => 0)
    {
      forall i | 0 <= i < n { srcIp[i] := 0; }
      forall i | 0 <= i < n { dstIp[i] := 0; }
      forall i | 0 <= i < OTHER_SIZE { others[i] := 0; }
    }

    /** The `&` of two fields is a new field. */
    method BitAnd(rhs: MatchedFieldN) returns (r: MatchedFieldN)
      requires Valid() && rhs.Valid() && rhs.n == n
      ensures fresh(r) && fresh(r.srcIp) && fresh(r.dstIp) && fresh(r.others)
      ensures r.Valid() && r.n == n && r.Value() == AndField(Value(), rhs.Value())
    {
      hide And;
      r := new MatchedFieldN(n);
      for i := 0 to n
        invariant forall j :: 0 <= j < i ==> r.srcIp[j] == And(srcIp[j], rhs.srcIp[j])
        invariant forall j :: 0 <= j < i ==> r.dstIp[j] == And(dstIp[j], rhs.dstIp[j])
      {
        AndBound(srcIp[i], rhs.srcIp[i]);
        AndBound(dstIp[i], rhs.dstIp[i]);
        r.srcIp[i] := And(srcIp[i], rhs.srcIp[i]);
        r.dstIp[i] := And(dstIp[i], rhs.dstIp[i]);
      }
      for i := 0 to OTHER_SIZE
        invariant forall j :: 0 <= j < n ==> r.srcIp[j] == And(srcIp[j], rhs.srcIp[j])
        invariant forall j :: 0 <= j < n ==> r.dstIp[j] == And(dstIp[j], rhs.dstIp[j])
        invariant forall j :: 0 <= j < i ==> r.others[j] == And(others[j], rhs.others[j])
      {
        AndBound(others[i], rhs.others[i]);
        r.others[i] := And(others[i], rhs.others[i]);
      }
    }
  }

  predicate InRange(bits: seq<nat>, size: nat) {
    forall i :: 0 <= i < |bits| ==> bits[i] < 8 * size
  }

  /** The field that `set_bits` leaves behind. */
  function BitsValue(bits: seq<nat>, size: nat): (f: Field)
    requires InRange(bits, size)
    ensures |f| == size
  {
    if bits == [] then seq(size, _ => 0)
    else
      var b := bits[|bits| - 1];
      assert Pow2(b % 8) < 256 by { Pow2Mono(b % 8, 7); }
      BitsValue(bits[..|bits| - 1], size)[b / 8 := Pow2(b % 8)]
  }
}
