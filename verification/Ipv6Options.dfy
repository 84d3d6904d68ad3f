/** `update_ip6_opt` of src/common/meta_packet.rs: the walk over the IPv6 extension
    headers (section 4 of RFC 8200; the AH length field follows section 2.2 of RFC 4302). */
module Ipv6Options {
  import opened Words

  const ETH_HEADER_SIZE: nat := 14
  const IPV6_HEADER_SIZE: nat := 40
  const IPV6_PROTO_OFFSET: nat := 20

  const HOP_BY_HOP: byte := 0
  const ROUTING: byte := 43
  const FRAGMENT: byte := 44
  const ESP: byte := 50
  const AH: byte := 51
  const ICMPV6: byte := 58
  const DESTINATION: byte := 60

  predicate IsOption(p: byte) { p == DESTINATION || p == HOP_BY_HOP || p == ROUTING }

  predicate IsExtension(p: byte) { p == AH || IsOption(p) || p == FRAGMENT }

  // ---------- the specification: a recursive walk ----------

  /** Where the chain ends: the protocol found there, the offset behind the options,
      and the offsets of the last option and of the fragment header, if any. */
  datatype Walk = Truncated | End(proto: byte, offset: nat, last: Mark, fragment: Mark)

  datatype Mark = Unset | At(offset: nat)

  /** The size of the extension header at `off`, or 0 when the packet cannot hold it. */
  function HeaderSize(packet: seq<byte>, proto: byte, off: nat): (size: nat)
    requires off <= |packet| && IsExtension(proto)
    ensures size == 0 || 8 <= size <= |packet| - off
  {
    var left := |packet| - off;
    var len: nat := if left < 2 then 0 else packet[off + 1];
    var size := if proto == AH then (len + 2) * 4 else if proto == FRAGMENT then 8 else len * 8 + 8;
    if size <= left then size else 0
  }

  function WalkFrom(packet: seq<byte>, proto: byte, off: nat, last: Mark, fragment: Mark): (w: Walk)
    requires off <= |packet|
    ensures w.End? ==> off <= w.offset <= |packet|
    decreases |packet| - off
  {
    if IsExtension(proto) then
      var size := HeaderSize(packet, proto, off);
      if size == 0 then Truncated
      else WalkFrom(packet, packet[off], off + size, At(off), if proto == FRAGMENT then At(off) else fragment)
    else if proto == ESP then End(proto, |packet|, At(off), fragment)
    else End(proto, off, last, fragment)
  }

  function Recorded(mark: Mark, old': u16): u16 {
    if mark.Unset? then old' else mark.offset % 0x1_0000
  }

  // ---------- the source's loop ----------

  class MetaPacket {
    var nextHeader: byte
    var offsetLastOption: u16
    var offsetFragmentOption: u16

    /** A packet that holds the fixed header: the caller has checked the length. */
    method UpdateIp6Opt(packet: seq<byte>, l2OptSize: nat) returns (proto: byte, length: nat)
      requires ETH_HEADER_SIZE + IPV6_HEADER_SIZE + l2OptSize <= |packet|
      modifies this
      ensures nextHeader == packet[IPV6_PROTO_OFFSET + l2OptSize]
      ensures var start := ETH_HEADER_SIZE + IPV6_HEADER_SIZE + l2OptSize;
              match WalkFrom(packet, nextHeader, start, Unset, Unset)
              case Truncated =>
                proto == nextHeader && length == 0 && offsetLastOption == 0 && offsetFragmentOption == 0
              case End(p, offset, last, fragment) =>
                && proto == p && length == offset - start <= |packet| - start
                && offsetLastOption == Recorded(last, old(offsetLastOption))
                && offsetFragmentOption == Recorded(fragment, old(offsetFragmentOption))
    {
      var next := packet[IPV6_PROTO_OFFSET + l2OptSize];
      var originalOffset := ETH_HEADER_SIZE + IPV6_HEADER_SIZE + l2OptSize;
      var optionOffset := originalOffset;
      nextHeader := next;
      var sizeChecker: int := |packet| - optionOffset;
      ghost var whole := WalkFrom(packet, next, originalOffset, Unset, Unset);
      ghost var last, fragment := Unset, Unset;
      while true
        invariant originalOffset <= optionOffset <= |packet|
        invariant sizeChecker == |packet| - optionOffset
        invariant whole == WalkFrom(packet, next, optionOffset, last, fragment)
        invariant offsetLastOption == Recorded(last, old(offsetLastOption))
        invariant offsetFragmentOption == Recorded(fragment, old(offsetFragmentOption))
        invariant nextHeader == packet[IPV6_PROTO_OFFSET + l2OptSize]
        decreases sizeChecker
      {
        if next == AH {
          if sizeChecker < 2 { break; }
          offsetLastOption := optionOffset % 0x1_0000;
          next := packet[optionOffset];
          var len: nat := packet[optionOffset + 1];
          var size := (len + 2) * 4;
          last := At(optionOffset);
          optionOffset := optionOffset + size;
          sizeChecker := sizeChecker - size;
          if sizeChecker < 0 { break; }
        } else if next == DESTINATION || next == HOP_BY_HOP || next == ROUTING {
          sizeChecker := sizeChecker - 8;
          if sizeChecker < 0 { break; }
          offsetLastOption := optionOffset % 0x1_0000;
          next := packet[optionOffset];
          var size: nat := packet[optionOffset + 1];
          last := At(optionOffset);
          optionOffset := optionOffset + size * 8 + 8;
          sizeChecker := sizeChecker - size * 8;
          if sizeChecker < 0 { break; }
        } else if next == FRAGMENT {
          sizeChecker := sizeChecker - 8;
          if sizeChecker < 0 { break; }
          offsetLastOption := optionOffset % 0x1_0000;
          offsetFragmentOption := optionOffset % 0x1_0000;
          next := packet[optionOffset];
          last, fragment := At(optionOffset), At(optionOffset);
          optionOffset := optionOffset + 8;
        } else if next == ICMPV6 {
          return next, optionOffset - originalOffset;
        } else if next == ESP {
          offsetLastOption := optionOffset % 0x1_0000;
          optionOffset := optionOffset + sizeChecker;
          return next, optionOffset - originalOffset;
        } else {
          return next, optionOffset - originalOffset;
        }
      }
      offsetLastOption := 0;
      offsetFragmentOption := 0;
      return packet[IPV6_PROTO_OFFSET + l2OptSize], 0;
    }
  }

  // ---------- the format: chains of extension headers ----------

  /** An extension header without its first byte, the number of what follows it. The
      numbers are those of the registry of IPv6 extension header types. */
  datatype Extension =
    | HopByHop(len: byte, rest: seq<byte>)
    | Routing(len: byte, rest: seq<byte>)
    | Fragment(rest: seq<byte>)
    | Auth(len: byte, rest: seq<byte>)
    | Destination(len: byte, rest: seq<byte>)
  {
    predicate Valid() {
      match this
      case HopByHop(len, rest) => |rest| == len as nat * 8 + 6
      case Routing(len, rest) => |rest| == len as nat * 8 + 6
      case Fragment(rest) => |rest| == 7
      case Auth(len, rest) => |rest| == len as nat * 4 + 6
      case Destination(len, rest) => |rest| == len as nat * 8 + 6
    }

    function Number(): byte {
      match this
      case HopByHop(_, _) => 0
      case Routing(_, _) => 43
      case Fragment(_) => 44
      case Auth(_, _) => 51
      case Destination(_, _) => 60
    }

    function Bytes(next: byte): seq<byte> {
      if Fragment? then [next] + rest else [next, len] + rest
    }
  }

  /** A number that announces no extension header. */
  predicate IsFinal(p: byte) { p != 0 && p != 43 && p != 44 && p != 51 && p != 60 }

  /** The walk goes on at exactly the numbers of the format. */
  lemma FinalIff(p: byte)
    ensures IsFinal(p) <==> !IsExtension(p)
  {
  }

  ghost predicate ValidChain(chain: seq<Extension>) {
    forall i :: 0 <= i < |chain| ==> chain[i].Valid()
  }

  /** The number a chain announces itself with. */
  function FirstNumber(chain: seq<Extension>, final: byte): byte {
    if chain == [] then final else chain[0].Number()
  }

  /** The bytes of a chain in front of a payload with protocol `final`. */
  function Encode(chain: seq<Extension>, final: byte): seq<byte> {
    if chain == [] then []
    else chain[0].Bytes(FirstNumber(chain[1..], final)) + Encode(chain[1..], final)
  }

  lemma BytesSize(e: Extension, next: byte, packet: seq<byte>, off: nat)
    requires e.Valid() && off + |e.Bytes(next)| <= |packet| && packet[off..off + |e.Bytes(next)|] == e.Bytes(next)
    ensures IsExtension(e.Number()) && |e.Bytes(next)| >= 8 && (e.Number() == FRAGMENT <==> e.Fragment?)
    ensures HeaderSize(packet, e.Number(), off) == |e.Bytes(next)| && packet[off] == next
  {
    var bytes := e.Bytes(next);
    assert packet[off] == packet[off..off + |bytes|][0];
    assert packet[off + 1] == packet[off..off + |bytes|][1];
  }

  /** Where the walk stops behind a chain that ends at `end`: ESP takes the rest. */
  function StopAt(final: byte, end: nat, size: nat): nat {
    if final == 50 then size else end
  }

  /** The offset of the last header of a chain that starts at `off` (an ESP payload counts). */
  function LastMark(chain: seq<Extension>, final: byte, off: nat, mark: Mark): Mark {
    if chain == [] then (if final == 50 then At(off) else mark)
    else LastMark(chain[1..], final, off + |chain[0].Bytes(FirstNumber(chain[1..], final))|, At(off))
  }

  /** The offset of the last fragment header of the chain. */
  function FragmentMark(chain: seq<Extension>, final: byte, off: nat, mark: Mark): Mark {
    if chain == [] then mark
    else FragmentMark(chain[1..], final, off + |chain[0].Bytes(FirstNumber(chain[1..], final))|,
                      if chain[0].Fragment? then At(off) else mark)
  }

  /** Every well-formed chain is walked to its end, whatever follows it, and the offsets
      of its last header and of its fragment header are found. */
  lemma {:induction false} WalkOfEncoded(front: seq<byte>, chain: seq<Extension>, final: byte, payload: seq<byte>,
                                         last: Mark, fragment: Mark)
    requires ValidChain(chain) && IsFinal(final)
    ensures var packet := front + Encode(chain, final) + payload;
            var w := WalkFrom(packet, FirstNumber(chain, final), |front|, last, fragment);
            && w.End? && w.proto == final && w.offset == StopAt(final, |front| + |Encode(chain, final)|, |packet|)
            && w.last == LastMark(chain, final, |front|, last)
            && w.fragment == FragmentMark(chain, final, |front|, fragment)
    decreases |chain|
  {
    hide HeaderSize, Extension.Bytes, Extension.Number, Extension.Valid, IsExtension;
    var packet := front + Encode(chain, final) + payload;
    FinalIff(final);
    if chain != [] {
      var e, tail := chain[0], chain[1..];
      var next := FirstNumber(tail, final);
      var bytes := e.Bytes(next);
      var front' := front + bytes;
      var mark := if e.Number() == FRAGMENT then At(|front|) else fragment;
      assert Encode(chain, final) == bytes + Encode(tail, final);
      assert packet == front' + Encode(tail, final) + payload;
      assert packet[|front|..|front| + |bytes|] == bytes;
      BytesSize(e, next, packet, |front|);
      WalkOfEncoded(front', tail, final, payload, At(|front|), mark);
      WalkStep(packet, e.Number(), |front|, last, fragment);
    } else {
      assert Encode(chain, final) == [];
    }
  }

  lemma WalkStep(packet: seq<byte>, proto: byte, off: nat, last: Mark, fragment: Mark)
    requires off <= |packet| && IsExtension(proto) && HeaderSize(packet, proto, off) != 0
    ensures WalkFrom(packet, proto, off, last, fragment) ==
            WalkFrom(packet, packet[off], off + HeaderSize(packet, proto, off), At(off),
                     if proto == FRAGMENT then At(off) else fragment)
  {
  }

  /** The header that starts at `off`. */
  function HeaderAt(packet: seq<byte>, proto: byte, off: nat): (e: Extension)
    requires off <= |packet| && IsExtension(proto) && HeaderSize(packet, proto, off) != 0
    ensures e.Valid() && e.Number() == proto && (e.Fragment? <==> proto == FRAGMENT)
  {
    var size := HeaderSize(packet, proto, off);
    if proto == FRAGMENT then Fragment(packet[off + 1..off + size])
    else
      var len, rest := packet[off + 1], packet[off + 2..off + size];
      if proto == AH then Auth(len, rest)
      else if proto == ROUTING then Routing(len, rest)
      else if proto == DESTINATION then Destination(len, rest)
      else HopByHop(len, rest)
  }

  lemma HeaderBytes(packet: seq<byte>, proto: byte, off: nat)
    requires off <= |packet| && IsExtension(proto) && HeaderSize(packet, proto, off) != 0
    ensures HeaderAt(packet, proto, off).Bytes(packet[off]) == packet[off..off + HeaderSize(packet, proto, off)]
  {
    var e, size := HeaderAt(packet, proto, off), HeaderSize(packet, proto, off);
    hide HeaderSize, Extension.Valid, Extension.Number;
    if proto == FRAGMENT {
      assert e.rest == packet[off + 1..off + size];
    } else {
      assert e.len == packet[off + 1] && e.rest == packet[off + 2..off + size];
      assert [packet[off], packet[off + 1]] + packet[off + 2..off + size] == packet[off..off + size];
    }
  }

  /** Every walk that is not cut short has followed a well-formed chain. */
  lemma {:induction false} WalkDecodes(packet: seq<byte>, proto: byte, off: nat, last: Mark, fragment: Mark)
    returns (chain: seq<Extension>)
    requires off <= |packet| && WalkFrom(packet, proto, off, last, fragment).End?
    ensures var w := WalkFrom(packet, proto, off, last, fragment);
            && ValidChain(chain) && IsFinal(w.proto) && FirstNumber(chain, w.proto) == proto
            && off + |Encode(chain, w.proto)| <= |packet|
            && packet[off..off + |Encode(chain, w.proto)|] == Encode(chain, w.proto)
            && w.offset == StopAt(w.proto, off + |Encode(chain, w.proto)|, |packet|)
    decreases |packet| - off
  {
    hide HeaderSize, Extension.Bytes, Extension.Number, Extension.Valid;
    if IsExtension(proto) {
      var e, size := HeaderAt(packet, proto, off), HeaderSize(packet, proto, off);
      var mark := if proto == FRAGMENT then At(off) else fragment;
      HeaderBytes(packet, proto, off);
      WalkStep(packet, proto, off, last, fragment);
      var tail := WalkDecodes(packet, packet[off], off + size, At(off), mark);
      chain := [e] + tail;
      var final := WalkFrom(packet, proto, off, last, fragment).proto;
      assert chain[1..] == tail;
      assert Encode(chain, final) == packet[off..off + size] + Encode(tail, final);
    } else {
      chain := [];
    }
  }

  /** An Ethernet frame: addresses and type with the options between them, the fixed IPv6
      header in three parts around its next-header byte, and what follows it. */
  function Frame(macs: seq<byte>, l2: seq<byte>, fixed: seq<byte>, next: byte, addresses: seq<byte>,
                 behind: seq<byte>): seq<byte> {
    macs + l2 + fixed + [next] + addresses + behind
  }

  lemma FrameParts(macs: seq<byte>, l2: seq<byte>, fixed: seq<byte>, next: byte, addresses: seq<byte>,
                   behind: seq<byte>)
    returns (front: seq<byte>)
    requires |macs| == 14 && |fixed| == 6 && |addresses| == 33
    ensures var frame := Frame(macs, l2, fixed, next, addresses, behind);
            frame == front + behind && |front| == 54 + |l2| && frame[20 + |l2|] == next
  {
    front := macs + l2 + fixed + [next] + addresses;
  }

  /** What the walk reports for a frame with a well-formed chain: the final protocol, the
      length of the chain (up to the end of the frame for ESP), and the two offsets. */
  method FrameOptions(packet: MetaPacket, macs: seq<byte>, l2: seq<byte>, fixed: seq<byte>, addresses: seq<byte>,
                      chain: seq<Extension>, final: byte, payload: seq<byte>)
    returns (proto: byte, length: nat)
    requires |macs| == 14 && |fixed| == 6 && |addresses| == 33
    requires ValidChain(chain) && IsFinal(final)
    modifies packet
    ensures packet.nextHeader == FirstNumber(chain, final) && proto == final
    ensures var size := |Encode(chain, final)|;
            length == if final == 50 then size + |payload| else size
    ensures packet.offsetLastOption ==
            Recorded(LastMark(chain, final, 54 + |l2|, Unset), old(packet.offsetLastOption))
    ensures packet.offsetFragmentOption ==
            Recorded(FragmentMark(chain, final, 54 + |l2|, Unset), old(packet.offsetFragmentOption))
  {
    hide WalkFrom, Encode, FirstNumber, LastMark, FragmentMark, Recorded, Frame, StopAt, IsFinal, ValidChain;
    var behind := Encode(chain, final) + payload;
    var frame := Frame(macs, l2, fixed, FirstNumber(chain, final), addresses, behind);
    ghost var front := FrameParts(macs, l2, fixed, FirstNumber(chain, final), addresses, behind);
    assert frame == front + Encode(chain, final) + payload;
    WalkOfEncoded(front, chain, final, payload, Unset, Unset);
    proto, length := packet.UpdateIp6Opt(frame, |l2|);
    StopLength(final, 54 + |l2|, |Encode(chain, final)|, |payload|);
  }

  lemma StopLength(final: byte, start: nat, size: nat, rest: nat)
    ensures StopAt(final, start + size, start + size + rest) - start == if final == 50 then size + rest else size
  {
  }
}
