/** The parts of a packed key that an ACL masks as one: an octet of an address, an epc, a
    port, the protocol, the tap type. Inside a part every compiled mask is ordered: with a
    bit it has all higher bits of the part. */
module Parts {
  import opened Words
  import opened Bits
  import opened MatchedFields
  import opened HeaderLayout
  import opened Acls
  import opened AclMeaning
  import PortSegments

  /** The part of bit position `i` in a key with addresses of `n` octets. */
  function Part(i: nat, n: nat): nat {
    var b := i / 8;
    if b < 2 * n then b else if b < 2 * n + 8 then 2 * n + (b - 2 * n) / 2 else b - 4
  }

  lemma PartMono(i: nat, j: nat, n: nat)
    requires i <= j
    ensures Part(i, n) <= Part(j, n)
  {
  }

  lemma OtherPart(n: nat, j: nat)
    requires j < 8 * OTHER_SIZE
    ensures Part(16 * n + j, n) == 2 * n + (if j < 64 then j / 16 else j / 8 - 4)
  {
    assert (16 * n + j) / 8 == 2 * n + j / 8;
  }

  // ---------- the bit at a position ----------

  predicate HeaderBit(h: Header, n: nat, i: nat)
    requires Sized(h, n) && i < 8 * (2 * n + OTHER_SIZE)
  {
    if i < 8 * n then Bit(h.srcIp[i / 8], i % 8)
    else if i < 16 * n then Bit(h.dstIp[i / 8 - n], i % 8)
    else
      var j := i - 16 * n;
      if j < 16 then Bit(h.srcEpc, j)
      else if j < 32 then Bit(h.dstEpc, j - 16)
      else if j < 48 then Bit(h.srcPort, j - 32)
      else if j < 64 then Bit(h.dstPort, j - 48)
      else if j < 72 then Bit(h.proto, j - 64)
      else Bit(h.tap, j - 72)
  }

  lemma LeBit(v: u16, i: nat)
    requires i < 16
    ensures Bit(LeBytes(v)[i / 8], i % 8) <==> Bit(v, i)
  {
    BitByte(v, i);
  }

  lemma OthersBit(h: Header, j: nat)
    requires j < 8 * OTHER_SIZE
    ensures FieldBit(Others(h), j) <==> HeaderBit(h.(srcIp := [], dstIp := []), 0, j)
  {
    hide Bit;
    var b := j / 8;
    assert b < 2 ==> Others(h)[b] == LeBytes(h.srcEpc)[b];
    assert 2 <= b < 4 ==> Others(h)[b] == LeBytes(h.dstEpc)[b - 2];
    assert 4 <= b < 6 ==> Others(h)[b] == LeBytes(h.srcPort)[b - 4];
    assert 6 <= b < 8 ==> Others(h)[b] == LeBytes(h.dstPort)[b - 6];
    if j < 16 { LeBit(h.srcEpc, j); }
    else if j < 32 { LeBit(h.dstEpc, j - 16); }
    else if j < 48 { LeBit(h.srcPort, j - 32); }
    else if j < 64 { LeBit(h.dstPort, j - 48); }
  }

  lemma LayoutBit(h: Header, n: nat, i: nat)
    requires Sized(h, n) && i < 8 * (2 * n + OTHER_SIZE)
    ensures |Layout(h)| == 2 * n + OTHER_SIZE
    ensures FieldBit(Layout(h), i) <==> HeaderBit(h, n, i)
  {
    hide Bit, Others;
    if i >= 16 * n {
      OthersBit(h, i - 16 * n);
      assert Layout(h)[i / 8] == Others(h)[i / 8 - 2 * n];
    }
  }

  function Word(lo: byte, hi: byte): u16 {
    var l: nat, h: nat := lo, hi;
    l + 256 * h
  }

  /** Every byte string of the right size is a packed header. */
  lemma LayoutOnto(f: Field, n: nat) returns (h: Header)
    requires |f| == 2 * n + OTHER_SIZE
    ensures Sized(h, n) && Layout(h) == f
  {
    var o := f[2 * n..];
    h := Header(f[..n], f[n..2 * n], Word(o[0], o[1]), Word(o[2], o[3]), Word(o[4], o[5]), Word(o[6], o[7]),
                o[8], o[9]);
    assert LeBytes(h.srcEpc) == o[..2] && LeBytes(h.dstEpc) == o[2..4];
    assert LeBytes(h.srcPort) == o[4..6] && LeBytes(h.dstPort) == o[6..8];
    assert Others(h) == o;
  }

  // ---------- netmasks ----------

  /** The first `len` bits, from the most significant bit of the first octet. */
  ghost predicate FirstBits(mask: seq<byte>, len: nat) {
    forall o, j :: 0 <= o < |mask| && 0 <= j < 8 ==> (Bit(mask[o], j) <==> 8 * o + 7 - j < len)
  }

  ghost predicate IsNetmask(mask: seq<byte>) {
    exists len: nat :: FirstBits(mask, len)
  }

  lemma OctetOrdered(mask: seq<byte>, o: nat, i: nat, j: nat)
    requires IsNetmask(mask) && o < |mask| && i <= j < 8 && Bit(mask[o], i)
    ensures Bit(mask[o], j)
  {
    var len: nat :| FirstBits(mask, len);
  }

  lemma {:induction false} OctetsBit(x: nat, n: nat, o: nat, j: nat)
    requires o < n && j < 8
    ensures Bit(Octets(x, n)[o], j) <==> Bit(x, 8 * (n - 1 - o) + j)
  {
    if o == n - 1 {
      BitByte(x, j);
    } else {
      OctetsBit(x / 256, n - 1, o, j);
      BitByte(x, 8 * (n - 1 - o) + j);
    }
  }

  /** The mask of a network's segment is a netmask. */
  lemma SegmentNetmask(addr: nat, len: nat, n: nat, epc: u16)
    requires len <= 8 * n
    ensures IsNetmask(SegmentOf(addr, len, n, epc).mask)
  {
    hide Bit, Octets, HighMask;
    var mask := Octets(HighMask(8 * n, 8 * n - len), n);
    forall o, j | 0 <= o < n && 0 <= j < 8 ensures Bit(mask[o], j) <==> 8 * o + 7 - j < len {
      OctetsBit(HighMask(8 * n, 8 * n - len), n, o, j);
      HighMaskBit(8 * n, 8 * n - len, 8 * (n - 1 - o) + j);
    }
    assert FirstBits(mask, len);
  }

  // ---------- compiled masks ----------

  ghost predicate Ordered(mask: Field, n: nat) {
    forall i: nat, j: nat :: i <= j < 8 * |mask| && Part(i, n) == Part(j, n) && FieldBit(mask, i) ==> FieldBit(mask, j)
  }

  ghost predicate IsHighMask(m: u16) { exists k: nat :: k <= 16 && m == HighMask(16, k) }

  lemma {:induction false} AllHighMasks(ranges: seq<PortRange>, s: PortSegment)
    requires s in AllSegments(ranges)
    ensures IsHighMask(s.mask)
  {
    var m := |ranges| - 1;
    if s in AllSegments(ranges[..m]) {
      AllHighMasks(ranges[..m], s);
    } else {
      var r := ranges[m];
      var bs := PortSegments.Blocks(r.min, r.max);
      var j :| 0 <= j < |PortSegments.Segments(r)| && PortSegments.Segments(r)[j] == s;
      PortSegments.BlocksWellFormed(r.min, r.max);
      assert s == PortSegments.Segment(bs[j]);
    }
  }

  lemma SideHighMask(ranges: seq<PortRange>, s: PortSegment)
    requires s in SideSegments(ranges)
    ensures IsHighMask(s.mask)
  {
    if AllSegments(ranges) == [] {
      assert s.mask == HighMask(16, 16);
    } else {
      AllHighMasks(ranges, s);
    }
  }

  lemma HighMaskOrdered(m: u16, i: nat, j: nat)
    requires IsHighMask(m) && i <= j < 16 && Bit(m, i)
    ensures Bit(m, j)
  {
    var k: nat :| k <= 16 && m == HighMask(16, k);
    HighMaskBit(16, k, i);
    HighMaskBit(16, k, j);
  }

  /** All bits or none. */
  lemma WholeOrdered(m: u16, w: nat, i: nat, j: nat)
    requires (m == 0 || m == Pow2(w) - 1) && i <= j < w && Bit(m, i)
    ensures Bit(m, j)
  {
    BitZero(i);
    BitOnes(w, j);
  }

  ghost predicate NetSegment(s: IpSegment) { s.Valid() && IsNetmask(s.mask) }

  lemma OtherBitOrdered(rule: Rule, s: IpSegment, d: IpSegment, sp: PortSegment, dp: PortSegment, a: nat, b: nat)
    requires IsHighMask(sp.mask) && IsHighMask(dp.mask) && |s.mask| == |d.mask|
    requires a <= b < 8 * OTHER_SIZE && (if a < 64 then a / 16 == b / 16 else a / 8 == b / 8)
    requires HeaderBit(MaskHeader(rule, s, d, sp, dp), |s.mask|, 16 * |s.mask| + a)
    ensures HeaderBit(MaskHeader(rule, s, d, sp, dp), |s.mask|, 16 * |s.mask| + b)
  {
    hide Bit, IsHighMask;
    var h := MaskHeader(rule, s, d, sp, dp);
    Pow2Values();
    if a < 16 { WholeOrdered(h.srcEpc, 16, a, b); }
    else if a < 32 { WholeOrdered(h.dstEpc, 16, a - 16, b - 16); }
    else if a < 48 { HighMaskOrdered(h.srcPort, a - 32, b - 32); }
    else if a < 64 { HighMaskOrdered(h.dstPort, a - 48, b - 48); }
    else if a < 72 { WholeOrdered(h.proto, 8, a - 64, b - 64); }
    else { WholeOrdered(h.tap, 8, a - 72, b - 72); }
  }

  lemma MaskBitOrdered(rule: Rule, s: IpSegment, d: IpSegment, sp: PortSegment, dp: PortSegment, i: nat, j: nat)
    requires NetSegment(s) && NetSegment(d) && |s.ip| == |d.ip| && IsHighMask(sp.mask) && IsHighMask(dp.mask)
    requires i <= j < 8 * (2 * |s.ip| + OTHER_SIZE) && Part(i, |s.ip|) == Part(j, |s.ip|)
    requires HeaderBit(MaskHeader(rule, s, d, sp, dp), |s.ip|, i)
    ensures HeaderBit(MaskHeader(rule, s, d, sp, dp), |s.ip|, j)
  {
    hide Bit, IsNetmask, IsHighMask;
    var n := |s.ip|;
    if i < 8 * n {
      OctetOrdered(s.mask, i / 8, i % 8, j % 8);
    } else if i < 16 * n {
      OctetOrdered(d.mask, i / 8 - n, i % 8, j % 8);
    } else {
      OtherPart(n, i - 16 * n);
      OtherPart(n, j - 16 * n);
      OtherBitOrdered(rule, s, d, sp, dp, i - 16 * n, j - 16 * n);
    }
  }

  lemma PairOrdered(rule: Rule, s: IpSegment, d: IpSegment, sp: PortSegment, dp: PortSegment)
    requires NetSegment(s) && NetSegment(d) && |s.ip| == |d.ip| && IsHighMask(sp.mask) && IsHighMask(dp.mask)
    ensures Ordered(PairOf(rule, s, d, sp, dp).mask, |s.ip|)
  {
    hide Bit, IsNetmask, IsHighMask, HeaderBit, FieldBit, Layout;
    var n, h := |s.ip|, MaskHeader(rule, s, d, sp, dp);
    var mask := Layout(h);
    LayoutBit(h, n, 0);
    forall i: nat, j: nat | i <= j < 8 * |mask| && Part(i, n) == Part(j, n) && FieldBit(mask, i)
      ensures FieldBit(mask, j)
    {
      LayoutBit(h, n, i);
      LayoutBit(h, n, j);
      MaskBitOrdered(rule, s, d, sp, dp, i, j);
    }
  }

  ghost predicate AllNets(segs: seq<IpSegment>) {
    forall s :: s in segs ==> NetSegment(s)
  }

  /** Every compiled mask is ordered in every part. */
  lemma CompiledOrdered(rule: Rule, srcs: seq<IpSegment>, dsts: seq<IpSegment>, v6: bool, pair: FieldPair)
    requires AllNets(srcs) && AllNets(dsts) && pair in Compile(rule, srcs, dsts, v6)
    ensures Ordered(pair.mask, if v6 then 16 else 4)
  {
    hide SideSegments, Grid, Ordered, PairOf;
    CompileMember(rule, srcs, dsts, v6, pair);
    var s, d :| s in srcs && d in dsts && pair in Cell(rule, s, d, v6);
    var sps, dps := SideSegments(rule.srcPorts), SideSegments(rule.dstPorts);
    GridMember(rule, s, d, sps, dps, pair);
    var sp, dp :| sp in sps && dp in dps && pair == PairOf(rule, s, d, sp, dp);
    SideHighMask(rule.srcPorts, sp);
    SideHighMask(rule.dstPorts, dp);
    PairOrdered(rule, s, d, sp, dp);
  }
}
