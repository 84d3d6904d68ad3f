/** src/common/lookup_key.rs: a packet's key is packed once as it is and once with the
    two ends exchanged; `get_policy_from_table` of src/legacy/policy/first_path.rs looks
    both up. */
module LookupKeys {
  import opened Words
  import opened MatchedFields
  import opened HeaderLayout
  import opened Acls
  import opened AclMeaning
  import opened TableIndex
  import opened VectorMask
  import opened FirstPath
  import opened PolicyLookup

  /** The fields of a `LookupKey` that `reverse` and the packing touch. */
  datatype KeyFields = KeyFields(srcMac: nat, dstMac: nat, srcIp: seq<byte>, dstIp: seq<byte>,
                                 srcPort: u16, dstPort: u16,
                                 l2End0: bool, l2End1: bool, l3End0: bool, l3End1: bool,
                                 isVip0: bool, isVip1: bool, l3Epc0: u16, l3Epc1: u16,
                                 proto: byte, tap: CaptureNetwork)

  function ForwardHeader(k: KeyFields, srcEpc: u16, dstEpc: u16): Header {
    Header(k.srcIp, k.dstIp, srcEpc, dstEpc, k.srcPort, k.dstPort, k.proto, TapNumber(k.tap) % 256)
  }

  function BackwardHeader(k: KeyFields, srcEpc: u16, dstEpc: u16): Header {
    Header(k.dstIp, k.srcIp, dstEpc, srcEpc, k.dstPort, k.srcPort, k.proto, TapNumber(k.tap) % 256)
  }

  function Reversed(k: KeyFields): KeyFields {
    KeyFields(k.dstMac, k.srcMac, k.dstIp, k.srcIp, k.dstPort, k.srcPort,
              k.l2End1, k.l2End0, k.l3End1, k.l3End0, k.isVip1, k.isVip0, k.l3Epc1, k.l3Epc0, k.proto, k.tap)
  }

  predicate OneVersion(k: KeyFields) { |k.srcIp| == |k.dstIp| && (|k.srcIp| == 4 || |k.srcIp| == 16) }

  class LookupKey {
    var fields: KeyFields
    var forward: Option<Field>
    var backward: Option<Field>

    constructor (fields: KeyFields)
      ensures this.fields == fields && forward.None? && backward.None?
    {
      this.fields := fields;
      forward, backward := None, None;
    }

    /** `generate_matched_field`; addresses of different versions panic in `set_ip`. */
    method GenerateMatchedField(srcEpc: u16, dstEpc: u16)
      requires OneVersion(fields)
      modifies this
      ensures fields == old(fields)
      ensures forward == Some(Layout(ForwardHeader(fields, srcEpc, dstEpc)))
      ensures backward == Some(Layout(BackwardHeader(fields, srcEpc, dstEpc)))
    {
      var f := SetMatchedField(fields.tap, fields.proto, fields.srcIp, fields.dstIp,
                               srcEpc, dstEpc, fields.srcPort, fields.dstPort);
      var b := SetMatchedField(fields.tap, fields.proto, fields.dstIp, fields.srcIp,
                               dstEpc, srcEpc, fields.dstPort, fields.srcPort);
      forward, backward := Some(f), Some(b);
    }

    method Reverse()
      modifies this`fields
      ensures fields == Reversed(old(fields))
    {
      fields := fields.(srcMac := fields.dstMac, dstMac := fields.srcMac);
      fields := fields.(srcIp := fields.dstIp, dstIp := fields.srcIp);
      fields := fields.(srcPort := fields.dstPort, dstPort := fields.srcPort);
      fields := fields.(l2End0 := fields.l2End1, l2End1 := fields.l2End0);
      fields := fields.(l3End0 := fields.l3End1, l3End1 := fields.l3End0);
      fields := fields.(isVip0 := fields.isVip1, isVip1 := fields.isVip0);
      fields := fields.(l3Epc0 := fields.l3Epc1, l3Epc1 := fields.l3Epc0);
    }
  }

  method SetMatchedField(tap: CaptureNetwork, proto: byte, srcIp: seq<byte>, dstIp: seq<byte>,
                         srcEpc: u16, dstEpc: u16, srcPort: u16, dstPort: u16)
    returns (field: Field)
    requires |srcIp| == |dstIp|
    ensures field == Layout(Header(srcIp, dstIp, srcEpc, dstEpc, srcPort, dstPort, proto, TapNumber(tap) % 256))
  {
    hide Layout, MatchedFieldN.Value, MatchedFieldN.Valid;
    var f := BlankField(|srcIp|);
    ghost var h := Blank(|srcIp|);
    h := Put(f, h, CaptureNetworkType, TapNumber(tap));
    h := Put(f, h, Proto, proto);
    h := PutIp(f, h, SrcIp, srcIp);
    h := PutIp(f, h, DstIp, dstIp);
    h := Put(f, h, SrcEpc, srcEpc);
    h := Put(f, h, DstEpc, dstEpc);
    h := Put(f, h, SrcPort, srcPort);
    h := Put(f, h, DstPort, dstPort);
    field := f.Value();
  }

  /** The ten bytes behind the addresses of a packed key. */
  predicate Packs(tail: seq<byte>, srcEpc: u16, dstEpc: u16, srcPort: u16, dstPort: u16, proto: byte, tap: byte) {
    tail == [srcEpc % 256, srcEpc / 256, dstEpc % 256, dstEpc / 256, srcPort % 256, srcPort / 256,
             dstPort % 256, dstPort / 256, proto, tap]
  }

  /** The bytes of both keys: addresses, endpoint classes and ports of source and destination,
      with the lower byte first, then protocol and capture network; backward with the two
      ends exchanged. */
  lemma KeyBytes(k: KeyFields, srcEpc: u16, dstEpc: u16)
    requires OneVersion(k)
    ensures var f, n := Layout(ForwardHeader(k, srcEpc, dstEpc)), |k.srcIp|;
            && |f| == 2 * n + 10 && f[..n] == k.srcIp && f[n..2 * n] == k.dstIp
            && Packs(f[2 * n..], srcEpc, dstEpc, k.srcPort, k.dstPort, k.proto, TapNumber(k.tap) % 256)
    ensures var b, n := Layout(BackwardHeader(k, srcEpc, dstEpc)), |k.srcIp|;
            && |b| == 2 * n + 10 && b[..n] == k.dstIp && b[n..2 * n] == k.srcIp
            && Packs(b[2 * n..], dstEpc, srcEpc, k.dstPort, k.srcPort, k.proto, TapNumber(k.tap) % 256)
  {
    LayoutParts(ForwardHeader(k, srcEpc, dstEpc), |k.srcIp|);
    LayoutParts(BackwardHeader(k, srcEpc, dstEpc), |k.srcIp|);
  }

  lemma LayoutParts(h: Header, n: nat)
    requires Sized(h, n)
    ensures var f := Layout(h);
            && |f| == 2 * n + 10 && f[..n] == h.srcIp && f[n..2 * n] == h.dstIp
            && Packs(f[2 * n..], h.srcEpc, h.dstEpc, h.srcPort, h.dstPort, h.proto, h.tap)
  {
    assert Layout(h)[2 * n..] == Others(h);
  }

  /** Reversing exchanges every pair of fields and keeps the two that have no end. */
  lemma ReversedExchanges(k: KeyFields)
    ensures var r := Reversed(k);
            && (r.srcMac, r.srcIp, r.srcPort) == (k.dstMac, k.dstIp, k.dstPort)
            && (r.dstMac, r.dstIp, r.dstPort) == (k.srcMac, k.srcIp, k.srcPort)
            && (r.l2End0, r.l3End0, r.isVip0, r.l3Epc0) == (k.l2End1, k.l3End1, k.isVip1, k.l3Epc1)
            && (r.l2End1, r.l3End1, r.isVip1, r.l3Epc1) == (k.l2End0, k.l3End0, k.isVip0, k.l3Epc0)
            && r.proto == k.proto && r.tap == k.tap
  {
  }

  /** The backward key is the forward key of the reversed packet with the endpoint
      classes exchanged, and reversing twice gives the packet back. */
  lemma BackwardIsReversedForward(k: KeyFields, srcEpc: u16, dstEpc: u16)
    ensures Layout(BackwardHeader(k, srcEpc, dstEpc)) == Layout(ForwardHeader(Reversed(k), dstEpc, srcEpc))
    ensures Layout(ForwardHeader(k, srcEpc, dstEpc)) == Layout(BackwardHeader(Reversed(k), dstEpc, srcEpc))
    ensures Reversed(Reversed(k)) == k
  {
  }

  /** `get_policy_from_table`: the forward matches, then the backward matches. */
  method GetPolicy(key: LookupKey, srcEpc: u16, dstEpc: u16, table: array<seq<Item>>, v: Vector, ghost items: seq<Item>)
    returns (policy: PolicyData)
    requires OneVersion(key.fields) && table.Length == TABLE_SIZE
    requires v.Valid() && |v.mask| == 2 * |key.fields.srcIp| + OTHER_SIZE
    requires AllFit(items, |v.mask|) && forall b :: 0 <= b < TABLE_SIZE ==> table[b] == Filed(items, v, b)
    modifies key
    ensures key.fields == old(key.fields)
    ensures policy == MergeAll(MergeAll(NO_POLICY, Lookup(items, v, Layout(ForwardHeader(key.fields, srcEpc, dstEpc)))),
                               Lookup(items, v, Layout(BackwardHeader(key.fields, srcEpc, dstEpc))))
  {
    hide Filed, Lookup, MergeAll, Vector.Valid;
    var n := |key.fields.srcIp|;
    key.GenerateMatchedField(srcEpc, dstEpc);
    policy := GetPolicyFromTable(table, v, n, key.forward.value, NO_POLICY, items);
    policy := GetPolicyFromTable(table, v, n, key.backward.value, policy, items);
  }

  /** Both directions end to end: if the vector suits the ACLs, the two
      lookups find a policy exactly when the packet or its reverse satisfies an ACL
      that carries it. */
  lemma BothDirections(acls: seq<SourceAcl>, bits: seq<nat>, k: KeyFields, srcEpc: u16, dstEpc: u16, policy: PolicyData)
    requires Wellformed(acls) && OneVersion(k)
    requires Choice(bits, KeySize(|k.srcIp| == 16)) && MasksKept(acls, bits, |k.srcIp| == 16)
    ensures var v6 := |k.srcIp| == 16;
            var fwd, bwd := ForwardHeader(k, srcEpc, dstEpc), BackwardHeader(k, srcEpc, dstEpc);
            var turned := ForwardHeader(Reversed(k), dstEpc, srcEpc);
            && IsKey(fwd, v6) && IsKey(bwd, v6)
            && ((exists item :: item in Found(acls, bits, fwd, v6) && item.policy == policy) <==>
                (exists a :: a in acls && a.policy == policy && Satisfies(a.rule, a.srcs, a.dsts, fwd)))
            && ((exists item :: item in Found(acls, bits, bwd, v6) && item.policy == policy) <==>
                (exists a :: a in acls && a.policy == policy && Satisfies(a.rule, a.srcs, a.dsts, turned)))
  {
    hide Found, Choice, Satisfies, MasksKept;
    var v6 := |k.srcIp| == 16;
    LookupMeansSatisfies(acls, bits, ForwardHeader(k, srcEpc, dstEpc), v6, policy);
    LookupMeansSatisfies(acls, bits, ForwardHeader(Reversed(k), dstEpc, srcEpc), v6, policy);
  }
}
