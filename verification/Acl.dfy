/** The flow-ACL compiler of src/common/policy.rs: `generate_port_segment`,
    `generate_match_field` (and its IPv6 twin) and `generate_match`. An ACL and its
    address segments become field/mask pairs. */
module Acls {
  import opened Words
  import opened MatchedFields
  import opened HeaderLayout
  import PortSegments

  type PortRange = PortSegments.PortRange
  type PortSegment = PortSegments.PortSegment

  const EPC_ANY: u16 := 0xFFFF
  const PROTOCOL_ANY: u16 := 256

  datatype CaptureNetwork = Any | Idc(n: byte) | Cloud | Max | Unknown

  function TapNumber(t: CaptureNetwork): u16 {
    match t
    case Any => 0
    case Idc(n) => n
    case Cloud => 3
    case Max => 256
    case Unknown => 0xFFFF
  }

  /** An address block with its endpoint class, as made from a network: `ip` is the
      network address and `mask` the netmask. */
  datatype IpSegment = IpSegment(ip: seq<byte>, mask: seq<byte>, epc: u16) {
    predicate Valid() { (|ip| == 4 || |ip| == 16) && |mask| == |ip| && AndField(ip, mask) == ip }
    predicate IsIpv6() { |ip| == 16 }
  }

  datatype FieldPair = FieldPair(field: Field, mask: Field)

  /** The part of an ACL the compiler reads. */
  datatype Rule = Rule(tap: CaptureNetwork, proto: u16, srcPorts: seq<PortRange>, dstPorts: seq<PortRange>)

  // ---------- the specification of one pair ----------

  function FieldHeader(rule: Rule, src: IpSegment, dst: IpSegment, sp: PortSegment, dp: PortSegment): Header {
    Header(src.ip, dst.ip,
           if src.epc == EPC_ANY then 0 else src.epc, if dst.epc == EPC_ANY then 0 else dst.epc,
           sp.port, dp.port, if rule.proto == PROTOCOL_ANY then 0 else rule.proto % 256, TapNumber(rule.tap) % 256)
  }

  function MaskHeader(rule: Rule, src: IpSegment, dst: IpSegment, sp: PortSegment, dp: PortSegment): Header {
    Header(src.mask, dst.mask,
           if src.epc == EPC_ANY then 0 else 0xFFFF, if dst.epc == EPC_ANY then 0 else 0xFFFF,
           sp.mask, dp.mask, if rule.proto == PROTOCOL_ANY then 0 else 255, if rule.tap == Any then 0 else 255)
  }

  function PairOf(rule: Rule, src: IpSegment, dst: IpSegment, sp: PortSegment, dp: PortSegment): FieldPair {
    FieldPair(Layout(FieldHeader(rule, src, dst, sp, dp)), Layout(MaskHeader(rule, src, dst, sp, dp)))
  }

  // ---------- building one pair in place ----------

  /** `set`, with the header it turns `h` into. */
  method Put(f: MatchedFieldN, ghost h: Header, flag: Flag, v: u16) returns (ghost h': Header)
    requires f.Valid() && !IsIp(flag) && Sized(h, f.n) && f.Value() == Layout(h)
    modifies f.others
    ensures h' == With(h, flag, v) && Sized(h', f.n) && f.Value() == Layout(h')
  {
    hide Layout, Splice;
    f.Set(flag, v);
    SetIsWith(h, f.n, flag, v);
    h' := With(h, flag, v);
  }

  /** `set_ip`, with the header it turns `h` into. */
  method PutIp(f: MatchedFieldN, ghost h: Header, flag: Flag, octets: seq<byte>) returns (ghost h': Header)
    requires f.Valid() && IsIp(flag) && |octets| == f.n && Sized(h, f.n) && f.Value() == Layout(h)
    modifies f.srcIp, f.dstIp
    ensures h' == if flag.SrcIp? then h.(srcIp := octets) else h.(dstIp := octets)
    ensures Sized(h', f.n) && f.Value() == Layout(h')
  {
    hide Layout, Splice;
    f.SetIp(flag, octets);
    SetIpIsUpdate(h, f.n, octets);
    h' := if flag.SrcIp? then h.(srcIp := octets) else h.(dstIp := octets);
  }

  method BlankField(n: nat) returns (f: MatchedFieldN)
    ensures fresh(f) && fresh(f.srcIp) && fresh(f.dstIp) && fresh(f.others)
    ensures f.Valid() && f.n == n && f.Value() == Layout(Blank(n))
  {
    f := new MatchedFieldN(n);
    BlankLayout(n);
  }

  method BuildField(rule: Rule, src: IpSegment, dst: IpSegment, sp: PortSegment, dp: PortSegment, n: nat)
    returns (f: MatchedFieldN)
    requires |src.ip| == |dst.ip| == n
    ensures fresh(f) && f.Valid() && f.n == n
    ensures f.Value() == Layout(FieldHeader(rule, src, dst, sp, dp))
  {
    hide Layout, MatchedFieldN.Value, MatchedFieldN.Valid;
    f := BlankField(n);
    ghost var h := Blank(n);
    h := Put(f, h, CaptureNetworkType, TapNumber(rule.tap));
    h := PutIp(f, h, SrcIp, src.ip);
    if src.epc == EPC_ANY { h := Put(f, h, SrcEpc, 0); } else { h := Put(f, h, SrcEpc, src.epc); }
    h := PutIp(f, h, DstIp, dst.ip);
    if dst.epc == EPC_ANY { h := Put(f, h, DstEpc, 0); } else { h := Put(f, h, DstEpc, dst.epc); }
    h := Put(f, h, SrcPort, sp.port);
    h := Put(f, h, DstPort, dp.port);
    if rule.proto == PROTOCOL_ANY { h := Put(f, h, Proto, 0); } else { h := Put(f, h, Proto, rule.proto); }
  }

  method BuildMask(rule: Rule, src: IpSegment, dst: IpSegment, sp: PortSegment, dp: PortSegment, n: nat)
    returns (f: MatchedFieldN)
    requires |src.mask| == |dst.mask| == n
    ensures fresh(f) && f.Valid() && f.n == n
    ensures f.Value() == Layout(MaskHeader(rule, src, dst, sp, dp))
  {
    hide Layout, MatchedFieldN.Value, MatchedFieldN.Valid;
    f := BlankField(n);
    ghost var h := Blank(n);
    h := Put(f, h, CaptureNetworkType, MaskWord(rule.tap != Any));
    h := PutIp(f, h, SrcIp, src.mask);
    h := Put(f, h, SrcEpc, MaskWord(src.epc != EPC_ANY));
    h := PutIp(f, h, DstIp, dst.mask);
    h := Put(f, h, DstEpc, MaskWord(dst.epc != EPC_ANY));
    h := Put(f, h, SrcPort, sp.mask);
    h := Put(f, h, DstPort, dp.mask);
    if rule.proto == PROTOCOL_ANY { h := Put(f, h, Proto, 0); } else { h := Put(f, h, Proto, MaskWord(true)); }
  }

  /** The word `set_mask` stores. */
  function MaskWord(isSet: bool): u16 { if isSet then 0xFFFF else 0 }

  // ---------- the specification of a whole rule ----------

  function AllSegments(ranges: seq<PortRange>): seq<PortSegment> {
    if ranges == [] then []
    else AllSegments(ranges[..|ranges| - 1]) + PortSegments.Segments(ranges[|ranges| - 1])
  }

  /** One side's segments: everything when the ranges yield no segment at all. */
  function SideSegments(ranges: seq<PortRange>): seq<PortSegment> {
    if AllSegments(ranges) == [] then [PortSegments.ALL] else AllSegments(ranges)
  }

  function Row(rule: Rule, src: IpSegment, dst: IpSegment, sp: PortSegment, dps: seq<PortSegment>): seq<FieldPair> {
    seq(|dps|, j requires 0 <= j < |dps| => PairOf(rule, src, dst, sp, dps[j]))
  }

  function Grid(rule: Rule, src: IpSegment, dst: IpSegment, sps: seq<PortSegment>,
                dps: seq<PortSegment>): seq<FieldPair> {
    if sps == [] then []
    else Grid(rule, src, dst, sps[..|sps| - 1], dps) + Row(rule, src, dst, sps[|sps| - 1], dps)
  }

  /** The pairs one source segment and one destination segment add for one IP version. */
  function Cell(rule: Rule, src: IpSegment, dst: IpSegment, v6: bool): seq<FieldPair> {
    if src.IsIpv6() == v6 && dst.IsIpv6() == v6 then
      Grid(rule, src, dst, SideSegments(rule.srcPorts), SideSegments(rule.dstPorts))
    else []
  }

  function CellsFor(rule: Rule, src: IpSegment, dsts: seq<IpSegment>, v6: bool): seq<FieldPair> {
    if dsts == [] then []
    else CellsFor(rule, src, dsts[..|dsts| - 1], v6) + Cell(rule, src, dsts[|dsts| - 1], v6)
  }

  function Compile(rule: Rule, srcs: seq<IpSegment>, dsts: seq<IpSegment>, v6: bool): seq<FieldPair> {
    if srcs == [] then []
    else Compile(rule, srcs[..|srcs| - 1], dsts, v6) + CellsFor(rule, srcs[|srcs| - 1], dsts, v6)
  }

  lemma CellsStart(rule: Rule, src: IpSegment, dsts: seq<IpSegment>, m4: seq<FieldPair>, m6: seq<FieldPair>)
    ensures m4 + CellsFor(rule, src, dsts[..0], false) == m4
    ensures m6 + CellsFor(rule, src, dsts[..0], true) == m6
  {
  }

  lemma CellsStep(rule: Rule, src: IpSegment, dsts: seq<IpSegment>, j: nat, v6: bool, front: seq<FieldPair>)
    requires j < |dsts|
    ensures front + CellsFor(rule, src, dsts[..j + 1], v6) ==
            front + CellsFor(rule, src, dsts[..j], v6) + Cell(rule, src, dsts[j], v6)
  {
    hide Cell;
    assert dsts[..j + 1][..j] == dsts[..j];
  }

  // ---------- the source's loops ----------

  method GenerateSide(ranges: seq<PortRange>) returns (segments: seq<PortSegment>)
    ensures segments == SideSegments(ranges)
  {
    segments := [];
    for i := 0 to |ranges|
      invariant segments == AllSegments(ranges[..i])
    {
      assert ranges[..i + 1][..i] == ranges[..i];
      var more := PortSegments.New(ranges[i]);
      segments := segments + more;
    }
    assert ranges[..|ranges|] == ranges;
    if |segments| == 0 {
      segments := [PortSegments.ALL];
    }
  }

  class Acl {
    const rule: Rule
    var matchField: seq<FieldPair>
    var matchField6: seq<FieldPair>

    constructor (rule: Rule)
      ensures this.rule == rule && matchField == [] && matchField6 == []
    {
      this.rule := rule;
      matchField, matchField6 := [], [];
    }

    method Reset()
      modifies this
      ensures matchField == [] && matchField6 == []
    {
      matchField, matchField6 := [], [];
    }

    method GeneratePortSegment() returns (src: seq<PortSegment>, dst: seq<PortSegment>)
      ensures src == SideSegments(rule.srcPorts) && dst == SideSegments(rule.dstPorts)
    {
      src := GenerateSide(rule.srcPorts);
      dst := GenerateSide(rule.dstPorts);
    }

    /** `generate_match_field` for four-byte addresses, `generate_match_field6` for sixteen. Segments
        of another version add nothing. */
    method GenerateMatchField(src: IpSegment, dst: IpSegment, sps: seq<PortSegment>, dps: seq<PortSegment>, v6: bool)
      requires src.Valid() && dst.Valid()
      modifies this
      ensures var own := src.IsIpv6() == v6 && dst.IsIpv6() == v6;
              && matchField == old(matchField) + (if own && !v6 then Grid(rule, src, dst, sps, dps) else [])
              && matchField6 == old(matchField6) + (if own && v6 then Grid(rule, src, dst, sps, dps) else [])
    {
      if src.IsIpv6() != v6 || dst.IsIpv6() != v6 {
        return;
      }
      var pairs: seq<FieldPair> := [];
      for i := 0 to |sps|
        invariant pairs == Grid(rule, src, dst, sps[..i], dps)
        invariant matchField == old(matchField) && matchField6 == old(matchField6)
      {
        ghost var before := pairs;
        for j := 0 to |dps|
          invariant pairs == before + Row(rule, src, dst, sps[i], dps)[..j]
          invariant matchField == old(matchField) && matchField6 == old(matchField6)
        {
          var item := BuildPair(rule, src, dst, sps[i], dps[j]);
          pairs := pairs + [item];
        }
        assert sps[..i + 1][..i] == sps[..i];
      }
      assert sps[..|sps|] == sps;
      if v6 { matchField6 := matchField6 + pairs; } else { matchField := matchField + pairs; }
    }

    /** The inner loop of `generate_match`. */
    method GenerateForSource(src: IpSegment, dstIps: seq<IpSegment>, srcPorts: seq<PortSegment>,
                             dstPorts: seq<PortSegment>)
      requires src.Valid() && forall s :: s in dstIps ==> s.Valid()
      requires srcPorts == SideSegments(rule.srcPorts) && dstPorts == SideSegments(rule.dstPorts)
      modifies this
      ensures matchField == old(matchField) + CellsFor(rule, src, dstIps, false)
      ensures matchField6 == old(matchField6) + CellsFor(rule, src, dstIps, true)
    {
      CellsStart(rule, src, dstIps, matchField, matchField6);
      hide SideSegments, Grid, CellsFor, IpSegment.Valid;
      for j := 0 to |dstIps|
        invariant matchField == old(matchField) + CellsFor(rule, src, dstIps[..j], false)
        invariant matchField6 == old(matchField6) + CellsFor(rule, src, dstIps[..j], true)
      {
        var dst := dstIps[j];
        CellsStep(rule, src, dstIps, j, false, old(matchField));
        CellsStep(rule, src, dstIps, j, true, old(matchField6));
        if src.IsIpv6() && dst.IsIpv6() {
          GenerateMatchField(src, dst, srcPorts, dstPorts, true);
        } else if !src.IsIpv6() && !dst.IsIpv6() {
          GenerateMatchField(src, dst, srcPorts, dstPorts, false);
        }
      }
      assert dstIps[..|dstIps|] == dstIps;
    }

    method GenerateMatch(srcIps: seq<IpSegment>, dstIps: seq<IpSegment>)
      requires forall s :: s in srcIps ==> s.Valid()
      requires forall s :: s in dstIps ==> s.Valid()
      modifies this
      ensures matchField == old(matchField) + Compile(rule, srcIps, dstIps, false)
      ensures matchField6 == old(matchField6) + Compile(rule, srcIps, dstIps, true)
    {
      hide SideSegments, CellsFor, IpSegment.Valid;
      var srcPorts, dstPorts := GeneratePortSegment();
      for i := 0 to |srcIps|
        invariant matchField == old(matchField) + Compile(rule, srcIps[..i], dstIps, false)
        invariant matchField6 == old(matchField6) + Compile(rule, srcIps[..i], dstIps, true)
      {
        assert srcIps[..i + 1][..i] == srcIps[..i];
        GenerateForSource(srcIps[i], dstIps, srcPorts, dstPorts);
      }
      assert srcIps[..|srcIps|] == srcIps;
    }
  }

  method BuildPair(rule: Rule, src: IpSegment, dst: IpSegment, sp: PortSegment, dp: PortSegment)
    returns (item: FieldPair)
    requires src.Valid() && dst.Valid() && |src.ip| == |dst.ip|
    ensures item == PairOf(rule, src, dst, sp, dp)
  {
    var field := BuildField(rule, src, dst, sp, dp, |src.ip|);
    var mask := BuildMask(rule, src, dst, sp, dp, |src.ip|);
    item := FieldPair(field.Value(), mask.Value());
  }
}
