/** The compiler preserves meaning: a packet satisfies an ACL exactly when one of the
    compiled field/mask pairs matches its packed key. */
module AclMeaning {
  import opened Words
  import opened Bits
  import opened MatchedFields
  import opened HeaderLayout
  import opened Acls
  import PortSegments
  import CidrRange

  // ---------- the plain meaning of a rule ----------

  predicate InSegment(seg: IpSegment, ip: seq<byte>, epc: u16)
    requires seg.Valid()
  {
    && |ip| == |seg.ip| && AndField(ip, seg.mask) == seg.ip
    && (seg.epc == 0xFFFF || seg.epc == epc)
  }

  /** Some range holds the port, or no range holds any port at all. */
  ghost predicate PortOk(ranges: seq<PortRange>, p: u16) {
    || (exists r :: r in ranges && r.Contains(p))
    || (forall r :: r in ranges ==> r.min > r.max)
  }

  predicate ProtoOk(rule: Rule, proto: byte) {
    rule.proto == 256 || rule.proto % 256 == proto
  }

  predicate TapOk(rule: Rule, tap: byte) {
    rule.tap == Any || TapNumber(rule.tap) % 256 == tap
  }

  ghost predicate HeaderOk(rule: Rule, key: Header) {
    && PortOk(rule.srcPorts, key.srcPort) && PortOk(rule.dstPorts, key.dstPort)
    && ProtoOk(rule, key.proto) && TapOk(rule, key.tap)
  }

  ghost predicate AllValid(segs: seq<IpSegment>) {
    forall s :: s in segs ==> s.Valid()
  }

  ghost predicate Satisfies(rule: Rule, srcs: seq<IpSegment>, dsts: seq<IpSegment>, key: Header)
    requires AllValid(srcs) && AllValid(dsts)
  {
    && HeaderOk(rule, key)
    && (exists s :: s in srcs && InSegment(s, key.srcIp, key.srcEpc))
    && (exists d :: d in dsts && InSegment(d, key.dstIp, key.dstEpc))
  }

  /** The test the first path makes: `key & mask == field`. */
  predicate Matches(key: Field, pair: FieldPair) {
    |key| == |pair.mask| && AndField(key, pair.mask) == pair.field
  }

  // ---------- one pair ----------

  lemma AndZero(x: nat)
    ensures And(x, 0) == 0
  {
  }

  lemma ZeroAnd(x: nat)
    ensures And(0, x) == 0
  {
  }

  lemma AndAll16(x: u16)
    ensures And(x, 0xFFFF) == x
  {
    Pow2Values();
    AndOnes(x, 16);
  }

  lemma AndAll8(x: byte)
    ensures And(x, 255) == x
  {
    Pow2Values();
    AndOnes(x, 8);
  }

  lemma PairMatch(rule: Rule, src: IpSegment, dst: IpSegment, sp: PortSegment, dp: PortSegment, key: Header)
    requires src.Valid() && dst.Valid() && Sized(key, |src.ip|) && |dst.ip| == |src.ip|
    ensures Matches(Layout(key), PairOf(rule, src, dst, sp, dp)) <==>
              && InSegment(src, key.srcIp, key.srcEpc) && InSegment(dst, key.dstIp, key.dstEpc)
              && sp.Matches(key.srcPort) && dp.Matches(key.dstPort)
              && ProtoOk(rule, key.proto) && TapOk(rule, key.tap)
  {
    hide And, AndField, Layout;
    var mask, field := MaskHeader(rule, src, dst, sp, dp), FieldHeader(rule, src, dst, sp, dp);
    MatchIsComponentwise(key, mask, field, |src.ip|);
    AndZero(key.srcEpc);
    AndZero(key.dstEpc);
    AndZero(key.proto);
    AndZero(key.tap);
    AndAll16(key.srcEpc);
    AndAll16(key.dstEpc);
    AndAll8(key.proto);
    AndAll8(key.tap);
  }

  // ---------- port segments ----------

  lemma {:induction false} AllSegmentsMatch(ranges: seq<PortRange>, p: u16)
    ensures (exists s :: s in AllSegments(ranges) && s.Matches(p)) <==> (exists r :: r in ranges && r.Contains(p))
    ensures AllSegments(ranges) == [] <==> forall r :: r in ranges ==> r.min > r.max
  {
    hide PortSegments.PortSegment.Matches, PortSegments.Segments;
    if ranges != [] {
      var m := |ranges| - 1;
      var front, last := ranges[..m], ranges[m];
      assert ranges == front + [last];
      AllSegmentsMatch(front, p);
      PortSegments.SegmentsTile(last, p);
      var ss, ts := AllSegments(front), PortSegments.Segments(last);
      assert forall s :: s in ss + ts <==> s in ss || s in ts;
    }
  }

  lemma SideMatch(ranges: seq<PortRange>, p: u16)
    ensures (exists s :: s in SideSegments(ranges) && s.Matches(p)) <==> PortOk(ranges, p)
  {
    AllSegmentsMatch(ranges, p);
    AndZero(p);
    if AllSegments(ranges) == [] {
      assert PortSegments.ALL in SideSegments(ranges) && PortSegments.ALL.Matches(p);
    }
  }

  // ---------- membership in the compiled list ----------

  lemma {:induction false} GridMember(rule: Rule, src: IpSegment, dst: IpSegment,
                                      sps: seq<PortSegment>, dps: seq<PortSegment>, pair: FieldPair)
    ensures pair in Grid(rule, src, dst, sps, dps) <==>
              exists sp, dp :: sp in sps && dp in dps && pair == PairOf(rule, src, dst, sp, dp)
  {
    hide PairOf;
    if sps != [] {
      var m := |sps| - 1;
      var front, last := sps[..m], sps[m];
      assert sps == front + [last];
      GridMember(rule, src, dst, front, dps, pair);
      RowMember(rule, src, dst, last, dps, pair);
    }
  }

  lemma RowMember(rule: Rule, src: IpSegment, dst: IpSegment, sp: PortSegment, dps: seq<PortSegment>, pair: FieldPair)
    ensures pair in Row(rule, src, dst, sp, dps) <==> exists dp :: dp in dps && pair == PairOf(rule, src, dst, sp, dp)
  {
    hide PairOf;
    var row := Row(rule, src, dst, sp, dps);
    if pair in row {
      var j :| 0 <= j < |row| && row[j] == pair;
      assert dps[j] in dps;
    }
    forall dp | dp in dps && pair == PairOf(rule, src, dst, sp, dp) ensures pair in row {
      var j :| 0 <= j < |dps| && dps[j] == dp;
      assert row[j] == pair;
    }
  }

  lemma {:induction false} CellsMember(rule: Rule, src: IpSegment, dsts: seq<IpSegment>, v6: bool, pair: FieldPair)
    ensures pair in CellsFor(rule, src, dsts, v6) <==> exists d :: d in dsts && pair in Cell(rule, src, d, v6)
  {
    hide Cell;
    if dsts != [] {
      var m := |dsts| - 1;
      assert dsts == dsts[..m] + [dsts[m]];
      CellsMember(rule, src, dsts[..m], v6, pair);
    }
  }

  lemma {:induction false} CompileMember(rule: Rule, srcs: seq<IpSegment>, dsts: seq<IpSegment>, v6: bool,
                                         pair: FieldPair)
    ensures pair in Compile(rule, srcs, dsts, v6) <==>
              exists s, d :: s in srcs && d in dsts && pair in Cell(rule, s, d, v6)
  {
    hide Cell;
    if srcs != [] {
      var m := |srcs| - 1;
      var front, last := srcs[..m], srcs[m];
      assert srcs == front + [last];
      CompileMember(rule, front, dsts, v6, pair);
      CellsMember(rule, last, dsts, v6, pair);
    }
  }

  // ---------- the theorem ----------

  ghost predicate IsKey(key: Header, v6: bool) { Sized(key, if v6 then 16 else 4) }

  lemma CellMatch(rule: Rule, s: IpSegment, d: IpSegment, key: Header, v6: bool)
    requires s.Valid() && d.Valid() && IsKey(key, v6)
    ensures (exists pair :: pair in Cell(rule, s, d, v6) && Matches(Layout(key), pair)) <==>
              HeaderOk(rule, key) && InSegment(s, key.srcIp, key.srcEpc) && InSegment(d, key.dstIp, key.dstEpc)
  {
    hide PairOf, AndField, Layout, SideSegments, Grid, Matches, PortSegments.PortSegment.Matches, PortOk;
    var sps, dps := SideSegments(rule.srcPorts), SideSegments(rule.dstPorts);
    SideMatch(rule.srcPorts, key.srcPort);
    SideMatch(rule.dstPorts, key.dstPort);
    if s.IsIpv6() == v6 && d.IsIpv6() == v6 {
      forall sp, dp | sp in sps && dp in dps
        ensures PairOf(rule, s, d, sp, dp) in Cell(rule, s, d, v6)
        ensures Matches(Layout(key), PairOf(rule, s, d, sp, dp)) <==>
                  && InSegment(s, key.srcIp, key.srcEpc) && InSegment(d, key.dstIp, key.dstEpc)
                  && sp.Matches(key.srcPort) && dp.Matches(key.dstPort)
                  && ProtoOk(rule, key.proto) && TapOk(rule, key.tap)
      {
        GridMember(rule, s, d, sps, dps, PairOf(rule, s, d, sp, dp));
        PairMatch(rule, s, d, sp, dp, key);
      }
      forall pair | pair in Cell(rule, s, d, v6)
        ensures exists sp, dp :: sp in sps && dp in dps && pair == PairOf(rule, s, d, sp, dp)
      {
        GridMember(rule, s, d, sps, dps, pair);
      }
    }
  }

  /** Meaning preserved: for every rule, every list of address segments and every packet
      key of either IP version. */
  lemma CompilePreservesMeaning(rule: Rule, srcs: seq<IpSegment>, dsts: seq<IpSegment>, key: Header, v6: bool)
    requires AllValid(srcs) && AllValid(dsts) && IsKey(key, v6)
    ensures (exists pair :: pair in Compile(rule, srcs, dsts, v6) && Matches(Layout(key), pair)) <==>
              Satisfies(rule, srcs, dsts, key)
  {
    hide Cell, Compile, Matches, Layout, HeaderOk, InSegment, IpSegment.Valid;
    forall s, d | s in srcs && d in dsts
      ensures (exists pair :: pair in Cell(rule, s, d, v6) && Matches(Layout(key), pair)) <==>
                HeaderOk(rule, key) && InSegment(s, key.srcIp, key.srcEpc) && InSegment(d, key.dstIp, key.dstEpc)
    {
      CellMatch(rule, s, d, key, v6);
    }
    forall pair ensures pair in Compile(rule, srcs, dsts, v6) <==>
                          exists s, d :: s in srcs && d in dsts && pair in Cell(rule, s, d, v6)
    {
      CompileMember(rule, srcs, dsts, v6, pair);
    }
    if Satisfies(rule, srcs, dsts, key) {
      var s :| s in srcs && InSegment(s, key.srcIp, key.srcEpc);
      var d :| d in dsts && InSegment(d, key.dstIp, key.dstEpc);
      var pair :| pair in Cell(rule, s, d, v6) && Matches(Layout(key), pair);
    }
  }

  // ---------- generated fields lie under their masks ----------

  lemma SideUnderMask(ranges: seq<PortRange>, s: PortSegment)
    requires s in SideSegments(ranges)
    ensures And(s.port, s.mask) == s.port
  {
    if AllSegments(ranges) == [] {
      AndZero(0);
    } else {
      AllUnderMask(ranges, s);
    }
  }

  lemma {:induction false} AllUnderMask(ranges: seq<PortRange>, s: PortSegment)
    requires s in AllSegments(ranges)
    ensures And(s.port, s.mask) == s.port
  {
    var m := |ranges| - 1;
    if s in AllSegments(ranges[..m]) {
      AllUnderMask(ranges[..m], s);
    } else {
      var r := ranges[m];
      var bs := PortSegments.Blocks(r.min, r.max);
      var j :| 0 <= j < |PortSegments.Segments(r)| && PortSegments.Segments(r)[j] == s;
      PortSegments.BlocksWellFormed(r.min, r.max);
      PortSegments.SegmentMatch(bs[j], bs[j].start);
    }
  }

  /** Every compiled field has no bit outside its mask, as the first path's equality needs. */
  lemma FieldsUnderMasks(rule: Rule, srcs: seq<IpSegment>, dsts: seq<IpSegment>, v6: bool, pair: FieldPair)
    requires AllValid(srcs) && AllValid(dsts) && pair in Compile(rule, srcs, dsts, v6)
    ensures |pair.field| == |pair.mask| == 2 * (if v6 then 16 else 4) + OTHER_SIZE
    ensures AndField(pair.field, pair.mask) == pair.field
  {
    hide AndField, Layout, SideSegments, And, Grid;
    CompileMember(rule, srcs, dsts, v6, pair);
    var s, d :| s in srcs && d in dsts && pair in Cell(rule, s, d, v6);
    var sps, dps := SideSegments(rule.srcPorts), SideSegments(rule.dstPorts);
    GridMember(rule, s, d, sps, dps, pair);
    var sp, dp :| sp in sps && dp in dps && pair == PairOf(rule, s, d, sp, dp);
    SideUnderMask(rule.srcPorts, sp);
    SideUnderMask(rule.dstPorts, dp);
    PairUnderMask(rule, s, d, sp, dp);
  }

  lemma PairUnderMask(rule: Rule, s: IpSegment, d: IpSegment, sp: PortSegment, dp: PortSegment)
    requires s.Valid() && d.Valid() && |s.ip| == |d.ip|
    requires And(sp.port, sp.mask) == sp.port && And(dp.port, dp.mask) == dp.port
    ensures var pair := PairOf(rule, s, d, sp, dp);
            && |pair.field| == |pair.mask| == 2 * |s.ip| + OTHER_SIZE
            && AndField(pair.field, pair.mask) == pair.field
  {
    hide And, AndField;
    var mask, field := MaskHeader(rule, s, d, sp, dp), FieldHeader(rule, s, d, sp, dp);
    MatchIsComponentwise(field, mask, field, |s.ip|);
    AndZero(0);
    AndAll16(field.srcEpc);
    AndAll16(field.dstEpc);
    AndAll8(field.proto);
    AndAll8(field.tap);
  }

  // ---------- where the plain reading holds ----------

  ghost predicate PlainPorts(ranges: seq<PortRange>, p: u16) {
    ranges == [] || exists r :: r in ranges && r.Contains(p)
  }

  /** An empty list means every port; a list whose ranges are all inverted means every
      port too, and that is the only deviation from the plain reading. */
  lemma PortsPlainIff(ranges: seq<PortRange>)
    ensures (forall p: u16 :: PortOk(ranges, p) <==> PlainPorts(ranges, p)) <==>
              ranges == [] || exists r :: r in ranges && r.min <= r.max
  {
    if ranges != [] && forall r :: r in ranges ==> r.min > r.max {
      assert PortOk(ranges, 0) && !PlainPorts(ranges, 0);
    }
  }

  /** Protocol numbers above 256 are compared by their low byte only. */
  lemma ProtoPlainIff(rule: Rule)
    ensures (forall p: byte :: ProtoOk(rule, p) <==> rule.proto == 256 || rule.proto == p) <==>
            rule.proto <= 256
  {
    var low: byte := rule.proto % 256;
    assert ProtoOk(rule, low);
  }

  /** For example the rule 443-80 on the source port lets source port 22 through. */
  lemma InvertedExample()
    ensures PortOk([PortSegments.PortRange(443, 80)], 22) && !PlainPorts([PortSegments.PortRange(443, 80)], 22)
  {
    assert forall r :: r in [PortSegments.PortRange(443, 80)] ==> r == PortSegments.PortRange(443, 80);
  }

  lemma ProtoExample(rule: Rule)
    requires rule.proto == 262
    ensures ProtoOk(rule, 6) && rule.proto != 256 && rule.proto != 6
  {
  }

  // ---------- the tap type ----------

  /** `TryFrom<u16> for CaptureNetworkType`. */
  function TapOf(x: u16): Option<CaptureNetwork> {
    if x == 0 then Some(Any)
    else if x == 3 then Some(Cloud)
    else if x == 0xFFFF then Some(Unknown)
    else if x < 256 then Some(Idc(x))
    else None
  }

  /** A value that comes out of a number. */
  predicate Parsed(t: CaptureNetwork) { TapOf(TapNumber(t)) == Some(t) }

  lemma ParsedIff(t: CaptureNetwork)
    ensures Parsed(t) <==> exists x: u16 :: TapOf(x) == Some(t)
  {
    if Parsed(t) { assert TapOf(TapNumber(t)) == Some(t); }
  }

  /** A packet of the tap type passes the rule. */
  predicate TapPasses(rule: Rule, tap: CaptureNetwork) { TapOk(rule, TapNumber(tap) % 256) }

  predicate PlainTap(rule: Rule, tap: CaptureNetwork) { rule.tap == Any || rule.tap == tap }

  /** The tap type of a rule means what it says for all packets iff it is any, or a number whose
      byte no other value has. */
  lemma TapPlainIff(rule: Rule)
    ensures (forall t: CaptureNetwork :: TapPasses(rule, t) <==> PlainTap(rule, t)) <==>
            rule.tap == Any || (rule.tap.Idc? && rule.tap.n !in {0, 3, 255})
  {
    assert rule.tap == Max ==> TapPasses(rule, Any);
    assert rule.tap == Unknown ==> TapPasses(rule, Idc(255));
    assert rule.tap == Cloud ==> TapPasses(rule, Idc(3));
    assert rule.tap == Idc(0) ==> TapPasses(rule, Any);
    assert rule.tap == Idc(3) ==> TapPasses(rule, Cloud);
    assert rule.tap == Idc(255) ==> TapPasses(rule, Unknown);
  }

  /** Between values that come out of numbers, only 255 and unknown are taken for each other. */
  lemma TapParsedIff(rule: Rule)
    requires Parsed(rule.tap)
    ensures (forall t: CaptureNetwork :: Parsed(t) ==> (TapPasses(rule, t) <==> PlainTap(rule, t))) <==>
            rule.tap != Unknown && rule.tap != Idc(255)
  {
    assert rule.tap == Unknown ==> Parsed(Idc(255)) && TapPasses(rule, Idc(255));
    assert rule.tap == Idc(255) ==> Parsed(Unknown) && TapPasses(rule, Unknown);
  }

  lemma TapExample(rule: Rule)
    ensures rule.tap == Idc(255) ==> TapPasses(rule, Unknown) && !PlainTap(rule, Unknown)
    ensures rule.tap == Max ==> TapPasses(rule, Any) && !PlainTap(rule, Any)
  {
  }

  // ---------- the plain theorem ----------

  /** What a rule says of ports, protocol and tap type, with no regard to how they are encoded. */
  ghost predicate PlainHeader(rule: Rule, key: Header, tap: CaptureNetwork) {
    && PlainPorts(rule.srcPorts, key.srcPort) && PlainPorts(rule.dstPorts, key.dstPort)
    && (rule.proto == 256 || rule.proto == key.proto) && PlainTap(rule, tap)
  }

  ghost predicate PlainlySatisfies(rule: Rule, srcs: seq<IpSegment>, dsts: seq<IpSegment>, key: Header,
                                   tap: CaptureNetwork)
    requires AllValid(srcs) && AllValid(dsts)
  {
    && PlainHeader(rule, key, tap)
    && (exists s :: s in srcs && InSegment(s, key.srcIp, key.srcEpc))
    && (exists d :: d in dsts && InSegment(d, key.dstIp, key.dstEpc))
  }

  ghost predicate SomeUpright(ranges: seq<PortRange>) { ranges == [] || exists r :: r in ranges && r.min <= r.max }

  /** The three conditions together, for packets of every tap type. */
  ghost predicate PlainRule(rule: Rule) {
    && SomeUpright(rule.srcPorts) && SomeUpright(rule.dstPorts) && rule.proto <= 256
    && (rule.tap == Any || (rule.tap.Idc? && rule.tap.n !in {0, 3, 255}))
  }

  /** A header of the tap type. */
  predicate TappedAs(key: Header, tap: CaptureNetwork) { key.tap == TapNumber(tap) % 256 }

  /** Some port that a side lets through. */
  lemma SomePort(ranges: seq<PortRange>) returns (p: u16)
    ensures PortOk(ranges, p) && (!SomeUpright(ranges) ==> !PlainPorts(ranges, p))
  {
    if r :| r in ranges && r.min <= r.max {
      p := r.min;
      assert r.Contains(p);
    } else {
      p := 0;
    }
  }

  /** The compiler's reading of ports, protocol and tap type is the plain one for all packets if
      and only if the rule meets the three conditions. */
  lemma HeaderPlainIff(rule: Rule)
    ensures (forall key: Header, tap: CaptureNetwork :: TappedAs(key, tap) ==>
              (HeaderOk(rule, key) <==> PlainHeader(rule, key, tap))) <==> PlainRule(rule)
  {
    hide PortOk, PlainPorts;
    if PlainRule(rule) {
      PortsPlainIff(rule.srcPorts);
      PortsPlainIff(rule.dstPorts);
      ProtoPlainIff(rule);
      TapPlainIff(rule);
      forall key: Header, tap: CaptureNetwork | TappedAs(key, tap)
        ensures HeaderOk(rule, key) <==> PlainHeader(rule, key, tap)
      {
        assert TapPasses(rule, tap) <==> PlainTap(rule, tap);
      }
    } else {
      var key, tap := Misread(rule);
      assert TappedAs(key, tap);
    }
  }

  lemma Misread(rule: Rule) returns (key: Header, tap: CaptureNetwork)
    requires !PlainRule(rule)
    ensures TappedAs(key, tap) && HeaderOk(rule, key) && !PlainHeader(rule, key, tap)
  {
    hide PortOk, PlainPorts, SomeUpright;
    TapPlainIff(rule);
    tap := rule.tap;
    if t :| TapPasses(rule, t) && !PlainTap(rule, t) { tap := t; }
    var p := SomePort(rule.srcPorts);
    var q := SomePort(rule.dstPorts);
    key := Header([], [], 0, 0, p, q, rule.proto % 256, TapNumber(tap) % 256);
  }

  /** The tap types of the rule and of the packet are told apart. */
  predicate TapsDiffer(rule: Rule, tap: CaptureNetwork) {
    || rule.tap == Any
    || (rule.tap.Idc? && rule.tap.n !in {0, 3, 255})
    || (Parsed(rule.tap) && Parsed(tap) && rule.tap != Unknown && rule.tap != Idc(255))
  }

  /** A rule whose port lists are empty or hold an upright range, whose protocol is at most 256
      and whose tap type is told apart compiles to pairs that match exactly the packets it
      plainly speaks of. */
  lemma CompileMeansPlain(rule: Rule, srcs: seq<IpSegment>, dsts: seq<IpSegment>, key: Header, tap: CaptureNetwork,
                          v6: bool)
    requires AllValid(srcs) && AllValid(dsts) && IsKey(key, v6) && key.tap == TapNumber(tap) % 256
    requires SomeUpright(rule.srcPorts) && SomeUpright(rule.dstPorts) && rule.proto <= 256 && TapsDiffer(rule, tap)
    ensures (exists pair :: pair in Compile(rule, srcs, dsts, v6) && Matches(Layout(key), pair)) <==>
            PlainlySatisfies(rule, srcs, dsts, key, tap)
  {
    hide Compile, Matches, InSegment, PortOk, PlainPorts;
    CompilePreservesMeaning(rule, srcs, dsts, key, v6);
    PortsPlainIff(rule.srcPorts);
    PortsPlainIff(rule.dstPorts);
    ProtoPlainIff(rule);
    TapPlainIff(rule);
    if Parsed(rule.tap) { TapParsedIff(rule); }
    assert TapPasses(rule, tap) <==> PlainTap(rule, tap);
    assert PortOk(rule.srcPorts, key.srcPort) <==> PlainPorts(rule.srcPorts, key.srcPort);
    assert PortOk(rule.dstPorts, key.dstPort) <==> PlainPorts(rule.dstPorts, key.dstPort);
    assert ProtoOk(rule, key.proto) <==> rule.proto == 256 || rule.proto == key.proto;
  }

  // ---------- address segments are networks ----------

  /** Big-endian octets of an address. */
  function Octets(x: nat, n: nat): (s: seq<byte>)
    ensures |s| == n
  {
    if n == 0 then [] else Octets(x / 256, n - 1) + [x % 256]
  }

  lemma {:induction false} OctetsInjective(x: nat, y: nat, n: nat)
    requires x < Pow2(8 * n) && y < Pow2(8 * n) && Octets(x, n) == Octets(y, n)
    ensures x == y
  {
    if n > 0 {
      Pow2Byte(n);
      var s, t := Octets(x, n), Octets(y, n);
      assert s[n - 1] == x % 256 && t[n - 1] == y % 256;
      assert s[..n - 1] == Octets(x / 256, n - 1) && t[..n - 1] == Octets(y / 256, n - 1);
      OctetsInjective(x / 256, y / 256, n - 1);
    }
  }

  lemma Pow2Byte(n: nat)
    requires n > 0
    ensures Pow2(8 * n) == 256 * Pow2(8 * (n - 1))
  {
    hide Pow2;
    var k := 8 * (n - 1);
    Pow2Plus4(k);
    Pow2Plus4(k + 4);
    assert k + 4 + 4 == 8 * n;
  }

  lemma {:induction false} OctetsAnd(x: nat, y: nat, n: nat)
    ensures AndField(Octets(x, n), Octets(y, n)) == Octets(And(x, y), n)
  {
    if n > 0 {
      OctetsAnd(x / 256, y / 256, n - 1);
      AndBytes(x, y);
      AndConcat(Octets(x / 256, n - 1), [x % 256], Octets(y / 256, n - 1), [y % 256]);
      AndOne(x % 256, y % 256);
    }
  }

  /** `IpSegment::from` a network: the masked address and the netmask. */
  function SegmentOf(addr: nat, len: nat, n: nat, epc: u16): IpSegment
    requires len <= 8 * n
  {
    var mask := HighMask(8 * n, 8 * n - len);
    IpSegment(Octets(And(addr, mask), n), Octets(mask, n), epc)
  }

  /** The segment holds exactly the addresses of the network. */
  lemma SegmentIsNet(addr: nat, len: nat, n: nat, epc: u16, p: nat, pEpc: u16)
    requires (n == 4 || n == 16) && len <= 8 * n && addr < Pow2(8 * n) && p < Pow2(8 * n)
    ensures SegmentOf(addr, len, n, epc).Valid()
    ensures InSegment(SegmentOf(addr, len, n, epc), Octets(p, n), pEpc) <==>
              CidrRange.InNet(CidrRange.Net(addr, len), 8 * n, p) && (epc == 0xFFFF || epc == pEpc)
  {
    hide And, Octets, AndField;
    var mask := HighMask(8 * n, 8 * n - len);
    var net := And(addr, mask);
    OctetsAnd(net, mask, n);
    AndTwice(addr, mask);
    OctetsAnd(p, mask, n);
    AndBound(p, mask);
    AndBound(addr, mask);
    if Octets(And(p, mask), n) == Octets(net, n) {
      OctetsInjective(And(p, mask), net, n);
    }
  }

  lemma {:induction false} AndTwice(x: nat, m: nat)
    ensures And(And(x, m), m) == And(x, m)
  {
    if x != 0 && m != 0 { AndTwice(x / 2, m / 2); }
  }

  /** A group given as an address range: its segments hold the converted range. */
  lemma RangeSegments(nets: seq<CidrRange.Net>, start: nat, end: nat, n: nat, epc: u16, p: nat, pEpc: u16)
    requires (n == 4 || n == 16) && start <= end && p < Pow2(8 * n)
    requires CidrRange.IsConversion(nets, start, end, 8 * n)
    ensures forall j :: 0 <= j < |nets| ==> nets[j].len <= 8 * n && SegmentOf(nets[j].addr, nets[j].len, n, epc).Valid()
    ensures (exists j :: 0 <= j < |nets| &&
              InSegment(SegmentOf(nets[j].addr, nets[j].len, n, epc), Octets(p, n), pEpc)) <==>
              && CidrRange.Even(start) <= p < CidrRange.End(start, end)
              && (epc == 0xFFFF || epc == pEpc)
  {
    hide CidrRange.InNet, SegmentOf, InSegment, IpSegment.Valid, CidrRange.Best;
    CidrRange.ConversionDenotes(nets, start, end, 8 * n, p);
    forall j | 0 <= j < |nets|
      ensures nets[j].len <= 8 * n
      ensures SegmentOf(nets[j].addr, nets[j].len, n, epc).Valid()
      ensures InSegment(SegmentOf(nets[j].addr, nets[j].len, n, epc), Octets(p, n), pEpc) <==>
                CidrRange.InNet(nets[j], 8 * n, p) && (epc == 0xFFFF || epc == pEpc)
    {
      assert CidrRange.BestNet(nets[j], end, 8 * n);
      SegmentIsNet(nets[j].addr, nets[j].len, n, epc, p, pEpc);
      assert CidrRange.Net(nets[j].addr, nets[j].len) == nets[j];
    }
  }
}
