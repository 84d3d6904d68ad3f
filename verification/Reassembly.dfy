/** `segmentation_reassembly` of src/legacy/ebpf_dispatcher.rs with `merge`, `next` and
    `generate_ebpf_flow_id` of src/common/meta_packet.rs: neighbouring eBPF segments are
    appended to the packet in front of them, which remembers where each one begins.
    Integer fields wrap as in a release build. */
module Reassembly {
  import opened Words
  import opened Bits

  const EBPF_TYPE_NONE: byte := 255
  const HEADER_LEN: nat := 54

  datatype SegmentFlags = NoSegment | Start | Seg

  datatype SubPacket = SubPacket(capSeq: u64, syscallTraceId: u64, rawOffset: nat, timestamp: nat, tcpSeq: u32)

  datatype Tcp = NoTcp | TcpSeq(seqNo: u32)

  /** The fields of a `MetaPacket` that reassembly reads or writes. */
  datatype Packet = Packet(ebpfType: byte, socketId: u64, flags: SegmentFlags, capStart: u64, capEnd: u64,
                           raw: seq<byte>, subPackets: seq<SubPacket>,
                           packetLen: u32, payloadLen: u16, l4PayloadLen: u16,
                           timestamp: nat, syscallTraceId: u64, tcp: Tcp)

  /** `(source << 48) | (socket_id & !(0xff << 48))`. */
  function FlowId(p: Packet): nat {
    Or(Shl(p.ebpfType, 48), And(p.socketId, 0xFFFF_FFFF_FFFF_FFFF - 0xFF_0000_0000_0000))
  }

  function Next64(x: u64): u64 { (x + 1) % 0x1_0000_0000_0000_0000 }

  function SeqOf(p: Packet): u32 { if p.tcp.NoTcp? then 0 else p.tcp.seqNo }

  function SubOf(p: Packet, offset: nat): SubPacket {
    SubPacket(p.capStart, p.syscallTraceId, offset, p.timestamp, SeqOf(p))
  }

  // ---------- the specification ----------

  /** `a` after `a.merge(p)`. */
  function Merged(a: Packet, p: Packet): Packet {
    if a.ebpfType == EBPF_TYPE_NONE then a
    else a.(raw := a.raw + p.raw,
            subPackets := a.subPackets + [SubOf(p, a.l4PayloadLen)],
            packetLen := (a.packetLen + p.packetLen - HEADER_LEN) % 0x1_0000_0000,
            payloadLen := (a.payloadLen + p.payloadLen) % 0x1_0000,
            l4PayloadLen := (a.l4PayloadLen + p.l4PayloadLen) % 0x1_0000,
            capEnd := p.capStart)
  }

  /** `p` continues the packet `last`. */
  predicate Continues(last: Packet, p: Packet) {
    p.flags.Seg? && FlowId(last) == FlowId(p) && last.flags.Start? && Next64(last.capEnd) == p.capStart
  }

  function Push(out: seq<Packet>, p: Packet): (r: seq<Packet>)
    ensures r != []
  {
    if out != [] && Continues(out[|out| - 1], p) then out[..|out| - 1] + [Merged(out[|out| - 1], p)]
    else out + [p]
  }

  function Reassemble(ps: seq<Packet>): seq<Packet> {
    if ps == [] then [] else Push(Reassemble(ps[..|ps| - 1]), ps[|ps| - 1])
  }

  // ---------- the source's objects and loop ----------

  class MetaPacket {
    var p: Packet
    var rawOffset: nat
    var subPacketIndex: nat

    constructor (p: Packet)
      ensures this.p == p && rawOffset == 0 && subPacketIndex == 0
    {
      this.p := p;
      rawOffset, subPacketIndex := 0, 0;
    }

    /** `merge`: the payload of `packet` is moved to the end of this packet's payload. */
    method Merge(packet: MetaPacket)
      requires packet != this
      modifies this, packet
      ensures p == Merged(old(p), old(packet.p))
      ensures packet.p == if old(p).ebpfType == EBPF_TYPE_NONE then old(packet.p) else old(packet.p).(raw := [])
    {
      if p.ebpfType == EBPF_TYPE_NONE {
        return;
      }
      var q := packet.p;
      p := p.(raw := p.raw + q.raw);
      packet.p := q.(raw := []);
      var sub := SubPacket(q.capStart, q.syscallTraceId, p.l4PayloadLen, q.timestamp, SeqOf(q));
      p := p.(subPackets := p.subPackets + [sub]);
      p := p.(packetLen := (p.packetLen + q.packetLen - HEADER_LEN) % 0x1_0000_0000);
      p := p.(payloadLen := (p.payloadLen + q.payloadLen) % 0x1_0000);
      p := p.(l4PayloadLen := (p.l4PayloadLen + q.l4PayloadLen) % 0x1_0000);
      p := p.(capEnd := q.capStart);
    }

    /** `next`: moves to the next sub-packet and restores its header values. */
    method Next() returns (more: bool)
      modifies this
      ensures more <==> old(subPacketIndex) < |old(p).subPackets|
      ensures !more ==> p == old(p) && rawOffset == old(rawOffset) && subPacketIndex == old(subPacketIndex)
      ensures more ==> subPacketIndex == old(subPacketIndex) + 1
      ensures more && p.ebpfType != EBPF_TYPE_NONE ==>
                var sub := old(p).subPackets[old(subPacketIndex)];
                p == At(old(p), sub) && rawOffset == sub.rawOffset
      ensures more && p.ebpfType == EBPF_TYPE_NONE ==> p == old(p) && rawOffset == old(rawOffset)
    {
      if subPacketIndex >= |p.subPackets| {
        return false;
      }
      if p.ebpfType != EBPF_TYPE_NONE {
        var sub := p.subPackets[subPacketIndex];
        p := p.(capStart := sub.capSeq);
        p := p.(timestamp := sub.timestamp);
        p := p.(syscallTraceId := sub.syscallTraceId);
        rawOffset := sub.rawOffset;
        if p.tcp.TcpSeq? {
          p := p.(tcp := TcpSeq(sub.tcpSeq));
        }
      }
      subPacketIndex := subPacketIndex + 1;
      more := true;
    }
  }

  /** A packet that shows one of its sub-packets. */
  function At(p: Packet, sub: SubPacket): Packet {
    p.(capStart := sub.capSeq, timestamp := sub.timestamp, syscallTraceId := sub.syscallTraceId,
       tcp := if p.tcp.NoTcp? then NoTcp else TcpSeq(sub.tcpSeq))
  }

  ghost function Values(ms: seq<MetaPacket>): (vs: seq<Packet>)
    reads ms
    ensures |vs| == |ms|
  {
    seq(|ms|, i requires 0 <= i < |ms| reads ms => ms[i].p)
  }

  ghost predicate Distinct(ms: seq<MetaPacket>) {
    forall i, j :: 0 <= i < j < |ms| ==> ms[i] != ms[j]
  }

  lemma ReassembleNone()
    ensures Reassemble([]) == []
  {
  }

  lemma ReassembleStep(ps: seq<Packet>, i: nat)
    requires i < |ps|
    ensures Reassemble(ps[..i + 1]) == Push(Reassemble(ps[..i]), ps[i])
  {
    assert ps[..i + 1][..i] == ps[..i];
  }

  method SegmentationReassembly(packets: seq<MetaPacket>) returns (merged: seq<MetaPacket>)
    requires Distinct(packets)
    modifies packets
    ensures Values(merged) == Reassemble(old(Values(packets)))
    ensures Distinct(merged) && forall m :: m in merged ==> m in packets
  {
    hide FlowId, Next64, Merged, Reassemble, SeqOf;
    ghost var input := Values(packets);
    merged := [];
    ReassembleNone();
    for i := 0 to |packets|
      invariant Values(merged) == Reassemble(input[..i])
      invariant Distinct(merged) && forall m :: m in merged ==> m in packets[..i]
      invariant forall j :: i <= j < |packets| ==> packets[j].p == input[j]
    {
      var p := packets[i];
      ghost var before := Values(merged);
      ReassembleStep(input, i);
      assert packets[..i + 1] == packets[..i] + [p];
      assert p !in packets[..i];
      if !p.p.flags.Seg? || |merged| == 0 {
        merged := merged + [p];
        assert Values(merged) == before + [input[i]];
      } else {
        var last := merged[|merged| - 1];
        assert last in packets[..i];
        if FlowId(last.p) == FlowId(p.p) && last.p.flags.Start? && Next64(last.p.capEnd) == p.p.capStart {
          last.Merge(p);
          assert Values(merged) == before[..|merged| - 1] + [Merged(before[|merged| - 1], input[i])];
        } else {
          merged := merged + [p];
          assert Values(merged) == before + [input[i]];
        }
      }
    }
    assert input[..|packets|] == input;
  }

  // ---------- running it twice changes nothing ----------

  ghost predicate Settled(out: seq<Packet>) {
    forall i :: 0 <= i < |out| - 1 ==> !Continues(out[i], out[i + 1])
  }

  lemma {:induction false} ReassembleSettles(ps: seq<Packet>)
    ensures Settled(Reassemble(ps))
  {
    hide Continues;
    if ps != [] {
      var n := |ps| - 1;
      ReassembleSettles(ps[..n]);
      PushSettles(Reassemble(ps[..n]), ps[n]);
    }
  }

  lemma PushSettles(out: seq<Packet>, p: Packet)
    requires Settled(out)
    ensures Settled(Push(out, p))
  {
    hide FlowId;
    if out != [] && Continues(out[|out| - 1], p) {
      assert Merged(out[|out| - 1], p).flags == out[|out| - 1].flags;
    }
  }

  lemma {:induction false} SettledIsFixed(out: seq<Packet>)
    requires Settled(out)
    ensures Reassemble(out) == out
  {
    hide Continues, Merged;
    if out != [] {
      var n := |out| - 1;
      var front := out[..n];
      SettledIsFixed(front);
      if n > 0 { assert !Continues(out[n - 1], out[n - 1 + 1]); }
      assert Push(front, out[n]) == front + [out[n]] == out;
    }
  }

  /** Reassembly is idempotent, for every input. */
  lemma ReassembleTwice(ps: seq<Packet>)
    ensures Reassemble(Reassemble(ps)) == Reassemble(ps)
  {
    ReassembleSettles(ps);
    SettledIsFixed(Reassemble(ps));
  }

  // ---------- which packets end up together ----------

  /** A packet as the eBPF reader makes it: one sub-packet, the whole payload captured. */
  predicate Fresh(p: Packet) {
    && p.ebpfType != 255
    && p.capEnd == p.capStart
    && p.subPackets == [SubOf(p, 0)]
    && p.l4PayloadLen == |p.raw|
    && p.packetLen >= 54
  }

  ghost predicate AllFresh(ps: seq<Packet>) {
    forall i :: 0 <= i < |ps| ==> Fresh(ps[i])
  }

  /** One flow, a start segment followed by segments with consecutive sequence numbers. */
  ghost predicate IsGroup(g: seq<Packet>) {
    && g != []
    && (|g| > 1 ==> g[0].flags.Start?)
    && (forall j :: 0 < j < |g| ==>
          && g[j].flags.Seg? && FlowId(g[j]) == FlowId(g[0])
          && g[j].capStart == (g[j - 1].capStart + 1) % 0x1_0000_0000_0000_0000)
  }

  function MergeGroup(g: seq<Packet>): Packet
    requires g != []
  {
    if |g| == 1 then g[0] else Merged(MergeGroup(g[..|g| - 1]), g[|g| - 1])
  }

  function Flat(groups: seq<seq<Packet>>): seq<Packet> {
    if groups == [] then [] else Flat(groups[..|groups| - 1]) + groups[|groups| - 1]
  }

  function ConcatRaw(g: seq<Packet>): seq<byte> {
    if g == [] then [] else ConcatRaw(g[..|g| - 1]) + g[|g| - 1].raw
  }

  /** The sum of the lengths behind the headers. */
  function PayloadSum(g: seq<Packet>): int {
    if g == [] then 0 else PayloadSum(g[..|g| - 1]) + g[|g| - 1].packetLen - 54
  }

  /** The sum of the original payload lengths. */
  function LengthSum(g: seq<Packet>): nat {
    if g == [] then 0 else LengthSum(g[..|g| - 1]) + g[|g| - 1].payloadLen
  }

  /** Everything a merged packet holds, in terms of the packets it was made from. */
  ghost predicate Holds(o: Packet, g: seq<Packet>)
    requires g != []
  {
    && o.ebpfType == g[0].ebpfType && o.socketId == g[0].socketId && o.flags == g[0].flags && o.tcp == g[0].tcp
    && o.timestamp == g[0].timestamp && o.syscallTraceId == g[0].syscallTraceId
    && o.capStart == g[0].capStart && o.capEnd == g[|g| - 1].capStart
    && o.raw == ConcatRaw(g) && o.l4PayloadLen == |ConcatRaw(g)| % 0x1_0000
    && o.packetLen == (54 + PayloadSum(g)) % 0x1_0000_0000 && o.payloadLen == LengthSum(g) % 0x1_0000
    && |o.subPackets| == |g|
    && forall j :: 0 <= j < |g| ==> o.subPackets[j] == SubOf(g[j], |ConcatRaw(g[..j])| % 0x1_0000)
  }

  lemma HoldsOne(p: Packet)
    requires Fresh(p)
    ensures Holds(p, [p])
  {
    assert [p][..0] == [];
    assert ConcatRaw([p]) == [] + p.raw == p.raw;
    assert PayloadSum([p]) == p.packetLen - 54 && LengthSum([p]) == p.payloadLen;
  }

  lemma Mod16(x: int, y: int)
    ensures (x % 0x1_0000 + y) % 0x1_0000 == (x + y) % 0x1_0000
  {
  }

  lemma Mod32(x: int, y: int)
    ensures (x % 0x1_0000_0000 + y) % 0x1_0000_0000 == (x + y) % 0x1_0000_0000
  {
  }

  lemma GroupSnoc(g: seq<Packet>, p: Packet)
    ensures ConcatRaw(g + [p]) == ConcatRaw(g) + p.raw
    ensures PayloadSum(g + [p]) == PayloadSum(g) + p.packetLen - 54 && LengthSum(g + [p]) == LengthSum(g) + p.payloadLen
    ensures forall j :: 0 <= j <= |g| ==> (g + [p])[..j] == g[..j]
  {
    assert (g + [p])[..|g|] == g;
  }

  lemma HoldsMore(a: Packet, g: seq<Packet>, p: Packet)
    requires g != [] && Holds(a, g) && a.ebpfType != EBPF_TYPE_NONE && Fresh(p)
    ensures Holds(Merged(a, p), g + [p])
  {
    hide ConcatRaw, PayloadSum, LengthSum, SubOf;
    var h, o := g + [p], Merged(a, p);
    GroupSnoc(g, p);
    Mod16(|ConcatRaw(g)|, |p.raw|);
    Mod16(LengthSum(g), p.payloadLen);
    Mod32(54 + PayloadSum(g), p.packetLen - 54);
    forall j | 0 <= j < |h| ensures o.subPackets[j] == SubOf(h[j], |ConcatRaw(h[..j])| % 0x1_0000) {
      if j < |g| {
        assert h[..j] == g[..j] && h[j] == g[j];
      } else {
        LastSub(a, g, p);
      }
    }
  }

  lemma LastSub(a: Packet, g: seq<Packet>, p: Packet)
    requires g != [] && Holds(a, g) && a.ebpfType != EBPF_TYPE_NONE
    ensures Merged(a, p).subPackets == a.subPackets + [SubOf(p, |ConcatRaw(g)| % 0x1_0000)]
    ensures (g + [p])[..|g|] == g
  {
  }

  lemma {:induction false} MergeGroupHolds(g: seq<Packet>)
    requires g != [] && AllFresh(g)
    ensures Holds(MergeGroup(g), g)
  {
    hide Holds, Fresh, Merged;
    var n := |g| - 1;
    if n == 0 {
      HoldsOne(g[0]);
      assert g == [g[0]];
    } else {
      var front := g[..n];
      assert g == front + [g[n]];
      MergeGroupHolds(front);
      HoldsEbpf(MergeGroup(front), front);
      HoldsMore(MergeGroup(front), front, g[n]);
    }
  }

  lemma HoldsEbpf(o: Packet, g: seq<Packet>)
    requires g != [] && AllFresh(g) && Holds(o, g)
    ensures o.ebpfType != EBPF_TYPE_NONE && FlowId(o) == FlowId(g[0]) && o.flags == g[0].flags
    ensures o.capStart == g[0].capStart && o.capEnd == g[|g| - 1].capStart
  {
    assert Fresh(g[0]);
  }

  ghost predicate Explains(groups: seq<seq<Packet>>, ps: seq<Packet>, out: seq<Packet>) {
    && |groups| == |out| && Flat(groups) == ps
    && forall i :: 0 <= i < |groups| ==> IsGroup(groups[i]) && AllFresh(groups[i]) && out[i] == MergeGroup(groups[i])
  }

  /** The first packet of `h` extends `g` to a longer group. */
  ghost predicate Joins(g: seq<Packet>, h: seq<Packet>) { h != [] && IsGroup(g + [h[0]]) }

  /** No group could have taken the packet that follows it. */
  ghost predicate Maximal(groups: seq<seq<Packet>>) {
    forall i :: 0 <= i < |groups| - 1 ==> !Joins(groups[i], groups[i + 1])
  }

  /** The output cuts the input into groups: each output packet is one group merged, the
      groups are the input in order, and each of them is as long as it can be. */
  lemma ReassembleGroups(ps: seq<Packet>) returns (groups: seq<seq<Packet>>)
    requires AllFresh(ps)
    ensures Explains(groups, ps, Reassemble(ps)) && Maximal(groups)
  {
    groups := CutIntoGroups(ps);
    ReassembleSettles(ps);
    forall i | 0 <= i < |groups| - 1 ensures !Joins(groups[i], groups[i + 1]) {
      GroupEnds(groups[i], groups[i + 1]);
    }
  }

  lemma {:induction false} GroupEnds(g: seq<Packet>, h: seq<Packet>)
    requires g != [] && h != [] && AllFresh(g) && AllFresh(h) && !Continues(MergeGroup(g), MergeGroup(h))
    ensures !IsGroup(g + [h[0]])
  {
    MergeGroupHolds(g);
    MergeGroupHolds(h);
    HoldsEbpf(MergeGroup(g), g);
    HoldsEbpf(MergeGroup(h), h);
    var more, n := g + [h[0]], |g|;
    assert more[n] == h[0] && more[n - 1] == g[n - 1] && more[0] == g[0];
  }

  lemma {:induction false} CutIntoGroups(ps: seq<Packet>) returns (groups: seq<seq<Packet>>)
    requires AllFresh(ps)
    ensures Explains(groups, ps, Reassemble(ps))
  {
    hide Explains, Push, Fresh;
    if ps == [] {
      groups := [];
      ExplainsNothing();
    } else {
      var n := |ps| - 1;
      groups := CutIntoGroups(ps[..n]);
      groups := PushExplained(groups, ps[..n], Reassemble(ps[..n]), ps[n]);
      assert ps == ps[..n] + [ps[n]];
    }
  }

  lemma ExplainsNothing()
    ensures Explains([], [], [])
  {
  }

  lemma PushExplained(gs: seq<seq<Packet>>, ps: seq<Packet>, out: seq<Packet>, p: Packet)
    returns (groups: seq<seq<Packet>>)
    requires Explains(gs, ps, out) && Fresh(p)
    ensures Explains(groups, ps + [p], Push(out, p))
  {
    hide Merged, MergeGroup, Fresh, IsGroup, Continues;
    if out != [] && Continues(out[|out| - 1], p) {
      var m := |gs| - 1;
      GroupExtend(gs[m], p);
      groups := gs[..m] + [gs[m] + [p]];
      assert groups[..m] == gs[..m];
      assert Flat(groups) == Flat(gs[..m]) + (gs[m] + [p]) == Flat(gs) + [p];
    } else {
      SingleGroup(p);
      groups := gs + [[p]];
      assert groups[..|gs|] == gs;
      assert AllFresh([p]);
    }
  }

  lemma SingleGroup(p: Packet)
    ensures IsGroup([p]) && MergeGroup([p]) == p
  {
  }

  lemma GroupExtend(g: seq<Packet>, p: Packet)
    requires IsGroup(g) && AllFresh(g) && Fresh(p) && Continues(MergeGroup(g), p)
    ensures IsGroup(g + [p]) && AllFresh(g + [p]) && MergeGroup(g + [p]) == Merged(MergeGroup(g), p)
  {
    hide Merged, Fresh, MergeGroup, Holds, FlowId;
    MergeGroupHolds(g);
    HoldsEbpf(MergeGroup(g), g);
    MergeGroupSnoc(g, p);
    var h := g + [p];
    assert h[|g|] == p && h[|g| - 1] == g[|g| - 1];
  }

  lemma MergeGroupSnoc(g: seq<Packet>, p: Packet)
    requires g != []
    ensures MergeGroup(g + [p]) == Merged(MergeGroup(g), p)
  {
    assert (g + [p])[..|g|] == g;
  }

  // ---------- there is only one way to cut ----------

  lemma {:induction false} FlatCons(g: seq<Packet>, gs: seq<seq<Packet>>)
    ensures Flat([g] + gs) == g + Flat(gs)
  {
    var all, n := [g] + gs, |gs|;
    if n == 0 {
      assert all[..0] == [] && Flat(all) == Flat([]) + g;
    } else {
      FlatCons(g, gs[..n - 1]);
      assert all[..n] == [g] + gs[..n - 1] && all[n] == gs[n - 1];
    }
  }

  ghost predicate AllGroups(gs: seq<seq<Packet>>) {
    forall i :: 0 <= i < |gs| ==> IsGroup(gs[i])
  }

  lemma FlatSplit(gs: seq<seq<Packet>>)
    requires gs != []
    ensures Flat(gs) == gs[0] + Flat(gs[1..])
  {
    assert gs == [gs[0]] + gs[1..];
    FlatCons(gs[0], gs[1..]);
  }

  lemma PrefixGroup(g: seq<Packet>, n: nat)
    requires IsGroup(g) && 0 < n <= |g|
    ensures IsGroup(g[..n])
  {
    hide FlowId;
    var h := g[..n];
    assert forall j :: 0 <= j < n ==> h[j] == g[j];
  }

  /** A maximal first group is not shorter than the first group of another cut. */
  lemma FirstNotShorter(gs: seq<seq<Packet>>, hs: seq<seq<Packet>>)
    requires gs != [] && hs != [] && AllGroups(gs) && AllGroups(hs) && Maximal(gs) && Flat(gs) == Flat(hs)
    ensures |gs[0]| >= |hs[0]|
  {
    hide FlowId, Flat, IsGroup;
    FlatSplit(gs);
    FlatSplit(hs);
    FlatNone();
    var n := |gs[0]|;
    assert |gs| == 1 ==> gs[1..] == [];
    if |gs| > 1 && n < |hs[0]| {
      FlatSplit(gs[1..]);
      NonEmpty(gs[0 + 1]);
      assert hs[0][..n + 1] == Flat(gs)[..n + 1] == gs[0] + [gs[0 + 1][0]];
      PrefixGroup(hs[0], n + 1);
      assert false;
    }
  }

  lemma FlatNone()
    ensures Flat([]) == []
  {
  }

  lemma NonEmpty(g: seq<Packet>)
    requires IsGroup(g)
    ensures g != []
  {
  }

  /** Two maximal cuts of the same packets are the same cut: the result of reassembly is
      fixed by what a group is. */
  lemma {:induction false} CutUnique(gs: seq<seq<Packet>>, hs: seq<seq<Packet>>)
    requires AllGroups(gs) && AllGroups(hs) && Maximal(gs) && Maximal(hs) && Flat(gs) == Flat(hs)
    ensures gs == hs
    decreases |gs|
  {
    hide FlowId, Flat, IsGroup;
    FlatNone();
    if gs != [] { FlatSplit(gs); NonEmpty(gs[0]); }
    if hs != [] { FlatSplit(hs); NonEmpty(hs[0]); }
    if gs != [] && hs != [] {
      FirstNotShorter(gs, hs);
      FirstNotShorter(hs, gs);
      var n := |gs[0]|;
      assert gs[0] == Flat(gs)[..n] == hs[0];
      assert Flat(gs[1..]) == Flat(gs)[n..] == Flat(hs[1..]);
      TailMaximal(gs);
      TailMaximal(hs);
      CutUnique(gs[1..], hs[1..]);
      assert gs == [gs[0]] + gs[1..] && hs == [hs[0]] + hs[1..];
    }
  }

  lemma TailMaximal(gs: seq<seq<Packet>>)
    requires gs != [] && AllGroups(gs) && Maximal(gs)
    ensures AllGroups(gs[1..]) && Maximal(gs[1..])
  {
    hide IsGroup;
    var tail := gs[1..];
    forall i | 0 <= i < |tail| - 1 ensures !Joins(tail[i], tail[i + 1]) {
      assert tail[i] == gs[i + 1] && tail[i + 1] == gs[i + 1 + 1];
    }
  }

  // ---------- the recorded offsets give the packets back ----------

  /** Stepping through the sub-packets of `o` shows the packets of `g` one after the
      other: their header values, and the payload from the packet's first byte on. */
  ghost predicate Replays(o: Packet, g: seq<Packet>) {
    && |o.subPackets| == |g|
    && forall j :: 0 <= j < |g| ==>
         var sub := o.subPackets[j];
         && sub.capSeq == g[j].capStart && sub.timestamp == g[j].timestamp
         && sub.syscallTraceId == g[j].syscallTraceId && sub.tcpSeq == SeqOf(g[j])
         && sub.rawOffset <= |o.raw| && o.raw[sub.rawOffset..] == ConcatRaw(g[j..])
  }

  lemma {:induction false} ConcatSplit(g: seq<Packet>, j: nat)
    requires j <= |g|
    ensures ConcatRaw(g) == ConcatRaw(g[..j]) + ConcatRaw(g[j..])
    decreases |g|
  {
    if j == |g| {
      assert g[..j] == g && g[j..] == [];
    } else {
      var n := |g| - 1;
      ConcatSplit(g[..n], j);
      assert g[..n][..j] == g[..j] && g[j..][..n - j] == g[..n][j..] && g[j..][n - j] == g[n];
    }
  }

  /** The start of the last packet of a group fits the 16-bit length field. */
  predicate OffsetsFit(g: seq<Packet>)
    requires g != []
  {
    |ConcatRaw(g[..|g| - 1])| < 0x1_0000
  }

  lemma SplitAt(head: seq<byte>, tail: seq<byte>, off: nat)
    ensures off <= |head + tail| && (head + tail)[off..] == tail <==> off == |head|
  {
    if off <= |head + tail| { assert |(head + tail)[off..]| == |head| + |tail| - off; }
  }

  lemma ReplaysOne(o: Packet, g: seq<Packet>, j: nat)
    requires j < |g| && Holds(o, g)
    ensures var sub := o.subPackets[j];
            sub.rawOffset <= |o.raw| && o.raw[sub.rawOffset..] == ConcatRaw(g[j..]) <==> |ConcatRaw(g[..j])| < 0x1_0000
    ensures |ConcatRaw(g[..j])| <= |ConcatRaw(g[..|g| - 1])|
  {
    var n := |g| - 1;
    hide ConcatRaw, PayloadSum, LengthSum, SeqOf;
    ConcatSplit(g, j);
    ConcatSplit(g[..n], j);
    assert g[..n][..j] == g[..j];
    SplitAt(ConcatRaw(g[..j]), ConcatRaw(g[j..]), o.subPackets[j].rawOffset);
  }

  /** The offsets replay a group if and only if the payload in front of its last packet
      is shorter than 65536 bytes. */
  lemma ReplaysIff(g: seq<Packet>)
    requires IsGroup(g) && AllFresh(g)
    ensures Replays(MergeGroup(g), g) <==> OffsetsFit(g)
  {
    MergeGroupHolds(g);
    hide MergeGroup, FlowId, Fresh, IsGroup, ConcatRaw, SeqOf, PayloadSum;
    var o, n := MergeGroup(g), |g| - 1;
    forall j | 0 <= j < |g|
      ensures var sub := o.subPackets[j];
              sub.rawOffset <= |o.raw| && o.raw[sub.rawOffset..] == ConcatRaw(g[j..]) <==>
              |ConcatRaw(g[..j])| < 0x1_0000
      ensures |ConcatRaw(g[..j])| <= |ConcatRaw(g[..n])|
    {
      ReplaysOne(o, g, j);
    }
  }

  /** Round trip: with every group's offsets in range, the merged packets replay the
      input packets in order. */
  lemma ReassembleReplays(ps: seq<Packet>) returns (groups: seq<seq<Packet>>)
    requires AllFresh(ps)
    ensures Explains(groups, ps, Reassemble(ps))
    ensures (forall i :: 0 <= i < |groups| ==> OffsetsFit(groups[i])) <==>
              forall i :: 0 <= i < |groups| ==> Replays(Reassemble(ps)[i], groups[i])
  {
    groups := ReassembleGroups(ps);
    forall i | 0 <= i < |groups| ensures Replays(Reassemble(ps)[i], groups[i]) <==> OffsetsFit(groups[i]) {
      ReplaysIff(groups[i]);
    }
  }

  // ---------- a packet that is not from eBPF swallows its continuation ----------

  /** `merge` does nothing on a packet without an eBPF type, and the segment is dropped. */
  lemma NoneLosesSegments(a: Packet, p: Packet)
    requires a.ebpfType == 255 && a.capEnd == a.capStart && IsGroup([a, p])
    ensures Reassemble([a, p]) == [a]
  {
    assert [a, p][..1] == [a] && [a][..0] == [] && Continues(a, [a, p][1]);
    assert Reassemble([a]) == [a];
  }

  // ---------- what the flow id identifies ----------

  lemma {:induction false} ShlBit(x: nat, k: nat, i: nat)
    ensures Bit(Shl(x, k), i) <==> i >= k && Bit(x, i - k)
    decreases k
  {
    if k > 0 && i > 0 { ShlBit(x, k - 1, i - 1); }
  }

  lemma HalfOfRest(p: nat, x: nat)
    requires x < 2 * p
    ensures (2 * p - 1 - x) / 2 == p - 1 - x / 2 && ((2 * p - 1 - x) % 2 == 1 <==> x % 2 == 0)
  {
  }

  lemma {:induction false} BitNot(x: nat, w: nat, i: nat)
    requires x < Pow2(w)
    ensures Bit(Pow2(w) - 1 - x, i) <==> i < w && !Bit(x, i)
    decreases w
  {
    if w == 0 {
      BitZero(i);
    } else {
      var y := Pow2(w) - 1 - x;
      HalfOfRest(Pow2(w - 1), x);
      if i > 0 {
        BitNot(x / 2, w - 1, i - 1);
        assert Bit(y, i) == Bit(y / 2, i - 1);
      }
    }
  }

  lemma Shl255()
    ensures Shl(255, 48) == 0xFF_0000_0000_0000
  {
    hide Shl;
    Shl12(255, 0);
    Shl12(255, 12);
    Shl12(255, 24);
    Shl12(255, 36);
    ShlNone(255);
  }

  lemma ShlNone(x: nat)
    ensures Shl(x, 0) == x
  {
  }

  lemma Shl12(x: nat, k: nat)
    ensures Shl(x, k + 12) == 4096 * Shl(x, k)
  {
    assert Shl(x, k + 4) == 2 * Shl(x, k + 3) == 4 * Shl(x, k + 2) == 8 * Shl(x, k + 1) == 16 * Shl(x, k);
    assert Shl(x, k + 8) == 2 * Shl(x, k + 7) == 4 * Shl(x, k + 6) == 8 * Shl(x, k + 5) == 16 * Shl(x, k + 4);
    assert Shl(x, k + 12) == 2 * Shl(x, k + 11) == 4 * Shl(x, k + 10) == 8 * Shl(x, k + 9) == 16 * Shl(x, k + 8);
  }

  lemma FlowIdBits(p: Packet, i: nat)
    ensures Bit(FlowId(p), i) <==> if 48 <= i < 56 then Bit(p.ebpfType, i - 48) else Bit(p.socketId, i)
    ensures FlowId(p) < Pow2(64)
  {
    hide Bit, And, Or, Shl, Pow2;
    Pow2At64();
    Shl255();
    Pow2Values();
    var mask := Pow2(64) - 1 - Shl(255, 48);
    OrBit(Shl(p.ebpfType, 48), And(p.socketId, mask), i);
    ShlBit(p.ebpfType, 48, i);
    AndBit(p.socketId, mask, i);
    BitNot(Shl(255, 48), 64, i);
    ShlBit(255, 48, i);
    if i >= 48 { BitOnes(8, i - 48); }
    if i >= 56 { BitBound(p.ebpfType, 8, i - 48); }
    if i >= 64 { BitBound(p.socketId, 64, i); }
    ShlBound(p.ebpfType, 48);
    AndBound(p.socketId, mask);
    OrBound(Shl(p.ebpfType, 48), And(p.socketId, mask), 64);
  }

  lemma ShlBound(x: nat, k: nat)
    requires x <= 255
    ensures Shl(x, k) <= Shl(255, k)
  {
    if k > 0 { ShlBound(x, k - 1); }
  }

  ghost predicate SameSocket(p: Packet, q: Packet) {
    forall i: nat :: i < 64 && !(48 <= i < 56) ==> (Bit(p.socketId, i) <==> Bit(q.socketId, i))
  }

  /** Two packets share a flow id exactly when they have the same eBPF source and their
      socket ids agree outside the byte that the source replaces. */
  lemma FlowIdIff(p: Packet, q: Packet)
    ensures FlowId(p) == FlowId(q) <==> p.ebpfType == q.ebpfType && SameSocket(p, q)
  {
    hide Bit, FlowId;
    Pow2Values();
    forall i: nat
      ensures Bit(FlowId(p), i) <==> if 48 <= i < 56 then Bit(p.ebpfType, i - 48) else Bit(p.socketId, i)
      ensures Bit(FlowId(q), i) <==> if 48 <= i < 56 then Bit(q.ebpfType, i - 48) else Bit(q.socketId, i)
    {
      FlowIdBits(p, i);
      FlowIdBits(q, i);
    }
    FlowIdBits(p, 0);
    FlowIdBits(q, 0);
    if FlowId(p) == FlowId(q) {
      forall i: nat | i < 8 ensures Bit(p.ebpfType, i) <==> Bit(q.ebpfType, i) {
        assert Bit(FlowId(p), i + 48) <==> Bit(FlowId(q), i + 48);
      }
      BitsExt(p.ebpfType, q.ebpfType, 8);
      forall i: nat | i < 64 && !(48 <= i < 56) ensures Bit(p.socketId, i) <==> Bit(q.socketId, i) {
        assert Bit(FlowId(p), i) <==> Bit(FlowId(q), i);
      }
    }
    if p.ebpfType == q.ebpfType && SameSocket(p, q) {
      BitsExt(FlowId(p), FlowId(q), 64);
    }
  }

  // ---------- offsets that wrap ----------

  function Segment(flags: SegmentFlags, capSeq: u64, payload: nat): (p: Packet)
    requires payload < 0x1_0000
    ensures Fresh(p) && |p.raw| == payload
  {
    Packet(0, 0, flags, capSeq, capSeq, seq(payload, _ => 0), [SubPacket(capSeq, 0, 0, 0, 0)],
           HEADER_LEN, 0, payload, 0, 0, NoTcp)
  }

  /** Three segments of 40000 bytes merge into a packet whose last offset has wrapped. */
  lemma WrapExample()
    ensures var g := [Segment(Start, 1, 40000), Segment(Seg, 2, 40000), Segment(Seg, 3, 40000)];
            IsGroup(g) && AllFresh(g) && !Replays(MergeGroup(g), g)
  {
    hide MergeGroup, Replays, Segment;
    var g := [Segment(Start, 1, 40000), Segment(Seg, 2, 40000), Segment(Seg, 3, 40000)];
    WrapGroup();
    ReplaysIff(g);
    assert g[..2][..1] == g[..1] && g[..1][..0] == [];
    assert |ConcatRaw(g[..2])| == |ConcatRaw(g[..1])| + 40000;
    assert |ConcatRaw(g[..1])| == 40000;
  }

  lemma WrapGroup()
    ensures IsGroup([Segment(Start, 1, 40000), Segment(Seg, 2, 40000), Segment(Seg, 3, 40000)])
  {
    hide Or, And, Shl;
  }

  // ---------- stepping through a merged packet ----------

  /** What one step shows: the packet with the header values of the part, and where its payload
      begins. */
  datatype Shown = Shown(packet: Packet, offset: nat)

  /** `next` until it ends. */
  method Replay(m: MetaPacket) returns (shown: seq<Shown>)
    requires m.subPacketIndex == 0 && m.p.ebpfType != EBPF_TYPE_NONE
    modifies m
    ensures |shown| == |old(m.p).subPackets|
    ensures forall j :: 0 <= j < |shown| ==>
              var sub := old(m.p).subPackets[j]; shown[j] == Shown(At(old(m.p), sub), sub.rawOffset)
  {
    ghost var o := m.p;
    shown := [];
    var more := m.Next();
    while more
      invariant |shown| <= |o.subPackets| && m.p.subPackets == o.subPackets && m.p.ebpfType != EBPF_TYPE_NONE
      invariant more ==> |shown| < |o.subPackets| && m.subPacketIndex == |shown| + 1
      invariant more ==> m.p == At(o, o.subPackets[|shown|]) && m.rawOffset == o.subPackets[|shown|].rawOffset
      invariant !more ==> |shown| == |o.subPackets|
      invariant forall j :: 0 <= j < |shown| ==> shown[j] == Shown(At(o, o.subPackets[j]), o.subPackets[j].rawOffset)
      decreases |o.subPackets| - |shown|, if more then 1 else 0
    {
      shown := shown + [Shown(m.p, m.rawOffset)];
      more := m.Next();
    }
  }

  /** Stepping through the merge of a group shows its packets in order: sequence number, time and
      trace of each, its TCP sequence number if the merged packet has one, and, if the offsets fit,
      the place from which the rest of the payload runs. */
  lemma ReplayShows(g: seq<Packet>, j: nat)
    requires IsGroup(g) && AllFresh(g) && j < |g|
    ensures var o := MergeGroup(g);
            && |o.subPackets| == |g| && o.ebpfType != EBPF_TYPE_NONE
            && var p, off := At(o, o.subPackets[j]), o.subPackets[j].rawOffset;
            && p.capStart == g[j].capStart && p.timestamp == g[j].timestamp
            && p.syscallTraceId == g[j].syscallTraceId && (p.tcp.TcpSeq? ==> p.tcp.seqNo == SeqOf(g[j]))
            && (OffsetsFit(g) ==> off <= |p.raw| && p.raw[off..] == ConcatRaw(g[j..]))
  {
    hide MergeGroup, ConcatRaw, PayloadSum, FlowId;
    MergeGroupHolds(g);
    ReplaysIff(g);
  }
}
