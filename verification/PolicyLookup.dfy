/** The first path of src/legacy/policy/first_path.rs end to end: from ACLs to the policies a
    packet finds in its bucket, and exactly which vectors make the bucket enough. */
module PolicyLookup {
  import opened Words
  import opened Bits
  import opened MatchedFields
  import opened HeaderLayout
  import opened Acls
  import opened AclMeaning
  import opened TableIndex
  import opened VectorMask
  import opened Parts
  import opened FirstPath
  import VectorInit
  import PortSegments

  /** An ACL with the address segments of its groups, which are made from networks. */
  datatype SourceAcl = SourceAcl(rule: Rule, srcs: seq<IpSegment>, dsts: seq<IpSegment>, policy: PolicyData)

  ghost predicate Wellformed(acls: seq<SourceAcl>) {
    forall a :: a in acls ==> AllNets(a.srcs) && AllNets(a.dsts)
  }

  function CompileAll(acls: seq<SourceAcl>, v6: bool): seq<Compiled> {
    seq(|acls|, i requires 0 <= i < |acls| =>
      Compiled(Compile(acls[i].rule, acls[i].srcs, acls[i].dsts, v6), acls[i].policy))
  }

  function AddressSize(v6: bool): nat { if v6 then 16 else 4 }

  function KeySize(v6: bool): nat { 2 * AddressSize(v6) + OTHER_SIZE }

  // ---------- the items of a list of ACLs ----------

  lemma {:induction false} ItemsMember(acls: seq<Compiled>, item: Item)
    ensures item in Items(acls) <==> exists a :: a in acls && item.pair in a.pairs && item.policy == a.policy
  {
    if acls != [] {
      var m := |acls| - 1;
      var front, last := acls[..m], acls[m];
      assert acls == front + [last];
      ItemsMember(front, item);
      var own := ItemsOf(last.pairs, last.policy);
      if item.pair in last.pairs && item.policy == last.policy {
        var i :| 0 <= i < |last.pairs| && last.pairs[i] == item.pair;
        assert own[i] == item;
      }
    }
  }

  /** An item carries a compiled pair and the policy of one of the ACLs. */
  ghost predicate ComesFrom(item: Item, a: SourceAcl, v6: bool) {
    item.pair in Compile(a.rule, a.srcs, a.dsts, v6) && item.policy == a.policy
  }

  lemma CompiledItem(acls: seq<SourceAcl>, v6: bool, item: Item)
    ensures item in Items(CompileAll(acls, v6)) <==> exists a :: a in acls && ComesFrom(item, a, v6)
  {
    hide Compile, Items;
    var compiled := CompileAll(acls, v6);
    ItemsMember(compiled, item);
    if item in Items(compiled) {
      var c :| c in compiled && item.pair in c.pairs && item.policy == c.policy;
      var i :| 0 <= i < |compiled| && compiled[i] == c;
      assert acls[i] in acls && ComesFrom(item, acls[i], v6);
    }
    forall a | a in acls && ComesFrom(item, a, v6) ensures item in Items(compiled) {
      var i :| 0 <= i < |acls| && acls[i] == a;
      assert compiled[i] in compiled;
    }
  }

  lemma AllCompiledFit(acls: seq<SourceAcl>, v6: bool)
    requires Wellformed(acls)
    ensures AllFit(Items(CompileAll(acls, v6)), KeySize(v6))
  {
    hide Compile, Items, CompileAll, IsNetmask;
    var items := Items(CompileAll(acls, v6));
    forall i | 0 <= i < |items| ensures Fits(items[i].pair, KeySize(v6)) {
      CompiledItem(acls, v6, items[i]);
      var a :| a in acls && ComesFrom(items[i], a, v6);
      FieldsUnderMasks(a.rule, a.srcs, a.dsts, v6, items[i].pair);
    }
  }

  // ---------- what a packet finds, and what it should find ----------

  /** The items that the packet finds in its bucket of the table, for a vector of `bits`. */
  ghost function Found(acls: seq<SourceAcl>, bits: seq<nat>, key: Header, v6: bool): seq<Item>
    requires Wellformed(acls) && IsKey(key, v6) && Choice(bits, KeySize(v6))
  {
    AllCompiledFit(acls, v6);
    VectorValid(bits, KeySize(v6));
    Lookup(Items(CompileAll(acls, v6)), VectorOf(bits, KeySize(v6)), Layout(key))
  }

  /** The items that match the packet, in the order of the ACLs. */
  ghost function Expected(acls: seq<SourceAcl>, key: Header, v6: bool): seq<Item> {
    Scan(Items(CompileAll(acls, v6)), Layout(key))
  }

  /** Rank by rank, the position the mask vector selects is in the part of the position that
      was chosen. */
  ghost predicate PartsKept(bits: seq<nat>, v6: bool)
    requires Choice(bits, KeySize(v6))
  {
    var s := SelectedBits(bits, KeySize(v6));
    forall r :: 0 <= r < |s| && r < |bits| ==> Part(bits[r], AddressSize(v6)) == Part(s[r], AddressSize(v6))
  }

  /** Positions in different bytes are all selected, so the parts are kept. */
  lemma DistinctKept(bits: seq<nat>, v6: bool)
    requires Choice(bits, KeySize(v6)) && DistinctBytes(bits)
    ensures PartsKept(bits, v6)
  {
    DistinctSelected(bits, KeySize(v6));
  }

  // ---------- one list of ACLs ----------

  /** Rank by rank, a mask that covers the position that was chosen covers the position that the
      mask vector selects. */
  ghost predicate MaskKept(mask: Field, bits: seq<nat>, size: nat)
    requires Choice(bits, size) && |mask| == size
  {
    var s := SelectedBits(bits, size);
    forall r :: 0 <= r < |s| && r < |bits| && FieldBit(mask, bits[r]) ==> FieldBit(mask, s[r])
  }

  /** The vector suits the compiled masks of the list. */
  ghost predicate MasksKept(acls: seq<SourceAcl>, bits: seq<nat>, v6: bool)
    requires Choice(bits, KeySize(v6))
  {
    forall item :: item in Items(CompileAll(acls, v6)) && |item.pair.mask| == KeySize(v6) ==>
      MaskKept(item.pair.mask, bits, KeySize(v6))
  }

  /** Every packet finds in its bucket exactly the items that match it. */
  ghost predicate ListExact(acls: seq<SourceAcl>, bits: seq<nat>, v6: bool)
    requires Wellformed(acls) && Choice(bits, KeySize(v6))
  {
    forall key: Header :: IsKey(key, v6) ==> Found(acls, bits, key, v6) == Expected(acls, key, v6)
  }

  lemma KeptReached(key: Field, pair: FieldPair, bits: seq<nat>, size: nat)
    requires Choice(bits, size) && Fits(pair, size) && |key| == size && MaskKept(pair.mask, bits, size)
    ensures VectorOf(bits, size).Valid() && Reached(key, pair, VectorOf(bits, size))
  {
    hide AllBuckets, Bucket, FieldBit, SelectedBits, BitsValue;
    var s := SelectedBits(bits, size);
    ReachedIff(key, pair.field, pair.mask, bits, size);
    if Matches(key, pair) {
      forall r | 0 <= r < |s| && FieldBit(pair.mask, bits[r])
        ensures FieldBit(key, s[r]) <==> FieldBit(pair.field, s[r])
      {
        RankAbove(bits, size, r);
        AndFieldBit(key, pair.mask, s[r]);
      }
    }
  }

  lemma KeptIsExact(acls: seq<SourceAcl>, bits: seq<nat>, key: Header, v6: bool)
    requires Wellformed(acls) && IsKey(key, v6) && Choice(bits, KeySize(v6)) && MasksKept(acls, bits, v6)
    ensures Found(acls, bits, key, v6) == Expected(acls, key, v6)
  {
    hide Lookup, Scan, Layout, Items, CompileAll, MaskKept, Reached, SelectedBits, BitsValue;
    var items, size := Items(CompileAll(acls, v6)), KeySize(v6);
    AllCompiledFit(acls, v6);
    VectorValid(bits, size);
    LayoutSize(key, v6);
    forall i | 0 <= i < |items| ensures Reached(Layout(key), items[i].pair, VectorOf(bits, size)) {
      assert items[i] in items && Fits(items[i].pair, size);
      KeptReached(Layout(key), items[i].pair, bits, size);
    }
    LookupIsScanIff(items, VectorOf(bits, size), Layout(key));
  }

  lemma LayoutSize(key: Header, v6: bool)
    requires IsKey(key, v6)
    ensures |Layout(key)| == KeySize(v6)
  {
  }

  /** A pair that masks a chosen bit but not the selected bit of its rank misses a key that it
      matches. */
  lemma MissedKey(pair: FieldPair, bits: seq<nat>, size: nat, r: nat) returns (key: Field)
    requires Choice(bits, size) && Fits(pair, size) && AndField(pair.field, pair.mask) == pair.field
    requires r < |SelectedBits(bits, size)| && r < |bits|
    requires FieldBit(pair.mask, bits[r]) && !FieldBit(pair.mask, SelectedBits(bits, size)[r])
    ensures |key| == size && VectorOf(bits, size).Valid() && !Reached(key, pair, VectorOf(bits, size))
  {
    hide AllBuckets, Bucket, FieldBit, SelectedBits, BitsValue, AndField, PutBit;
    var s := SelectedBits(bits, size);
    key := PutBit(pair.field, s[r], true);
    forall i: nat | i < 8 * size ensures FieldBit(AndField(key, pair.mask), i) <==> FieldBit(pair.field, i) {
      AndFieldBit(key, pair.mask, i);
      AndFieldBit(pair.field, pair.mask, i);
      PutBitBits(pair.field, s[r], true, i);
    }
    FieldExt(AndField(key, pair.mask), pair.field);
    AndFieldBit(pair.field, pair.mask, s[r]);
    PutBitBits(pair.field, s[r], true, s[r]);
    ReachedIff(key, pair.field, pair.mask, bits, size);
  }

  /** A mask that is not kept misses a packet that its pair matches. */
  lemma NotKeptMisses(acls: seq<SourceAcl>, bits: seq<nat>, v6: bool) returns (key: Header)
    requires Wellformed(acls) && Choice(bits, KeySize(v6)) && !MasksKept(acls, bits, v6)
    ensures IsKey(key, v6) && Found(acls, bits, key, v6) != Expected(acls, key, v6)
  {
    hide Lookup, Scan, Layout, Compile, Items, CompileAll, Reached, SelectedBits, BitsValue, IsNetmask, FieldBit,
      AndField;
    var size, items := KeySize(v6), Items(CompileAll(acls, v6));
    var s := SelectedBits(bits, size);
    var item :| item in items && |item.pair.mask| == size && !MaskKept(item.pair.mask, bits, size);
    var r :| 0 <= r < |s| && r < |bits| && FieldBit(item.pair.mask, bits[r]) && !FieldBit(item.pair.mask, s[r]);
    CompiledItem(acls, v6, item);
    var a :| a in acls && ComesFrom(item, a, v6);
    FieldsUnderMasks(a.rule, a.srcs, a.dsts, v6, item.pair);
    var field := MissedKey(item.pair, bits, size, r);
    key := LayoutOnto(field, AddressSize(v6));
    AllCompiledFit(acls, v6);
    VectorValid(bits, size);
    var i :| 0 <= i < |items| && items[i] == item;
    LookupIsScanIff(items, VectorOf(bits, size), field);
    assert !Reached(field, items[i].pair, VectorOf(bits, size));
  }

  /** For a list of ACLs and a vector, the first path finds exactly the matching items of every
      packet if and only if the vector suits the list's masks. */
  lemma ListExactIff(acls: seq<SourceAcl>, bits: seq<nat>, v6: bool)
    requires Wellformed(acls) && Choice(bits, KeySize(v6))
    ensures ListExact(acls, bits, v6) <==> MasksKept(acls, bits, v6)
  {
    hide Found, Expected, MasksKept, Choice, Wellformed;
    if MasksKept(acls, bits, v6) {
      forall key: Header | IsKey(key, v6) ensures Found(acls, bits, key, v6) == Expected(acls, key, v6) {
        KeptIsExact(acls, bits, key, v6);
      }
    } else {
      var key := NotKeptMisses(acls, bits, v6);
    }
  }

  // ---------- all lists of ACLs ----------

  /** If the parts are kept, so are the masks of all lists. */
  lemma PartsKeepMasks(acls: seq<SourceAcl>, bits: seq<nat>, v6: bool)
    requires Wellformed(acls) && Choice(bits, KeySize(v6)) && PartsKept(bits, v6)
    ensures MasksKept(acls, bits, v6)
  {
    hide Compile, Items, CompileAll, SelectedBits, BitsValue, IsNetmask, FieldBit, Part;
    var s := SelectedBits(bits, KeySize(v6));
    forall item | item in Items(CompileAll(acls, v6)) && |item.pair.mask| == KeySize(v6)
      ensures MaskKept(item.pair.mask, bits, KeySize(v6))
    {
      CompiledItem(acls, v6, item);
      var a :| a in acls && ComesFrom(item, a, v6);
      CompiledOrdered(a.rule, a.srcs, a.dsts, v6, item.pair);
      forall r | 0 <= r < |s| && r < |bits| && FieldBit(item.pair.mask, bits[r])
        ensures FieldBit(item.pair.mask, s[r])
      {
        RankAbove(bits, KeySize(v6), r);
      }
    }
  }

  function Zeros(n: nat): (s: seq<byte>)
    ensures |s| == n
  {
    seq(n, _ => 0)
  }

  /** The network 0.0.0.0 with `k` whole octets of netmask. */
  function Octet0(n: nat, k: nat): (s: IpSegment)
    requires k <= n
    ensures |s.ip| == |s.mask| == n && s.epc == EPC_ANY
  {
    IpSegment(Zeros(n), seq(n, i => if i < k then 255 else 0), EPC_ANY)
  }

  lemma Octet0Net(n: nat, k: nat, epc: u16)
    requires (n == 4 || n == 16) && k <= n
    ensures NetSegment(Octet0(n, k).(epc := epc))
  {
    hide Bit;
    var s := Octet0(n, k);
    assert AndField(s.ip, s.mask) == s.ip by { AndZero(0); AndZero(255); ZeroAnd(255); }
    forall o, j | 0 <= o < n && 0 <= j < 8 ensures Bit(s.mask[o], j) <==> 8 * o + 7 - j < 8 * k {
      ByteBit(j);
    }
    assert FirstBits(s.mask, 8 * k);
  }

  lemma ByteBit(j: nat)
    requires j < 8
    ensures Bit(255, j) && !Bit(0, j)
  {
    BitOnes(8, j);
    BitZero(j);
    Pow2Values();
  }

  /** An ACL that asks for one part to be zero: an octet with the octets in front of it, an
      epc, a port or the protocol. */
  function Asking(part: nat, n: nat): SourceAcl
    requires part < 2 * n + 5
  {
    var src := if part < n then Octet0(n, part + 1) else Octet0(n, 0);
    var dst := if n <= part < 2 * n then Octet0(n, part - n + 1) else Octet0(n, 0);
    var zero := [PortSegments.PortRange(0, 0)];
    SourceAcl(Rule(Any, if part == 2 * n + 4 then 0 else PROTOCOL_ANY,
                   if part == 2 * n + 2 then zero else [], if part == 2 * n + 3 then zero else []),
              [if part == 2 * n then src.(epc := 0) else src],
              [if part == 2 * n + 1 then dst.(epc := 0) else dst], NO_POLICY)
  }

  /** A range of one port compiles to a segment with a full mask. */
  lemma OnePort() returns (s: PortSegment)
    ensures s in SideSegments([PortSegments.PortRange(0, 0)]) && s.mask == 0xFFFF
  {
    hide SideSegments, PortSegments.PortSegment.Matches;
    var ranges := [PortSegments.PortRange(0, 0)];
    SideMatch(ranges, 0);
    assert ranges[0] in ranges && ranges[0].Contains(0);
    s :| s in SideSegments(ranges) && s.Matches(0);
    forall j: nat | j < 16 ensures Bit(s.mask, j) <==> Bit(0xFFFF, j) {
      Pow2Mono(j, 15);
      Pow2Values();
      BitOnes(16, j);
      SideMatch(ranges, Pow2(j));
      if !Bit(s.mask, j) { SingleMiss(s, j); }
    }
    Pow2Values();
    BitsExt(s.mask, 0xFFFF, 16);
  }

  lemma SingleMiss(s: PortSegment, j: nat)
    requires j < 16 && s.Matches(0) && !Bit(s.mask, j)
    ensures s.Matches(Pow2(j))
  {
    ZeroAnd(s.mask);
    AndBound(Pow2(j), s.mask);
    Pow2Mono(j, 15);
    Pow2Values();
    forall i: nat | i < 16 ensures Bit(And(Pow2(j), s.mask), i) <==> Bit(0, i) {
      AndBit(Pow2(j), s.mask, i);
      BitPow2(j, i);
      BitZero(i);
    }
    BitsExt(And(Pow2(j), s.mask), 0, 16);
  }

  lemma SideOf(asked: bool) returns (s: PortSegment)
    ensures s in SideSegments(if asked then [PortSegments.PortRange(0, 0)] else [])
    ensures s.mask == if asked then 0xFFFF else 0
  {
    if asked {
      s := OnePort();
    } else {
      s := PortSegments.ALL;
    }
  }

  function AskingMask(part: nat, n: nat, sp: PortSegment, dp: PortSegment): (h: Header)
    requires part < 2 * n + 5
    ensures Sized(h, n)
  {
    MaskHeader(Asking(part, n).rule, Asking(part, n).srcs[0], Asking(part, n).dsts[0], sp, dp)
  }

  lemma AskingAddressBit(part: nat, n: nat, sp: PortSegment, dp: PortSegment, i: nat)
    requires part < 2 * n + 5 && i < 16 * n
    ensures var h := AskingMask(part, n, sp, dp);
            (i / 8 == part ==> HeaderBit(h, n, i)) && (i / 8 > part ==> !HeaderBit(h, n, i))
  {
    hide Bit;
    ByteBit(i % 8);
  }

  lemma AskingOthers(part: nat, n: nat, sp: PortSegment, dp: PortSegment)
    requires part < 2 * n + 5
    ensures var h := AskingMask(part, n, sp, dp);
            && h.srcEpc == (if part == 2 * n then 0xFFFF else 0)
            && h.dstEpc == (if part == 2 * n + 1 then 0xFFFF else 0)
            && h.srcPort == sp.mask && h.dstPort == dp.mask
            && h.proto == (if part == 2 * n + 4 then 255 else 0) && h.tap == 0
  {
    hide Octet0;
  }

  lemma AskingOtherBit(part: nat, n: nat, sp: PortSegment, dp: PortSegment, j: nat)
    requires part < 2 * n + 5 && j < 8 * OTHER_SIZE
    requires sp.mask == (if part == 2 * n + 2 then 0xFFFF else 0)
    requires dp.mask == (if part == 2 * n + 3 then 0xFFFF else 0)
    ensures HeaderBit(AskingMask(part, n, sp, dp), n, 16 * n + j) <==> Part(16 * n + j, n) == part
  {
    hide Bit, AskingMask;
    AskingOthers(part, n, sp, dp);
    OtherPart(n, j);
    WordBit(j % 16);
    if j >= 64 { ByteBit(j % 8); }
  }

  /** The mask of that ACL has the part it asks for and nothing behind it. */
  lemma AskingBit(part: nat, n: nat, sp: PortSegment, dp: PortSegment, i: nat)
    requires part < 2 * n + 5 && i < 8 * (2 * n + OTHER_SIZE)
    requires sp.mask == (if part == 2 * n + 2 then 0xFFFF else 0)
    requires dp.mask == (if part == 2 * n + 3 then 0xFFFF else 0)
    ensures var h := AskingMask(part, n, sp, dp);
            (Part(i, n) == part ==> HeaderBit(h, n, i)) && (Part(i, n) > part ==> !HeaderBit(h, n, i))
  {
    hide HeaderBit, AskingMask;
    if i < 16 * n {
      AskingAddressBit(part, n, sp, dp, i);
    } else {
      AskingOtherBit(part, n, sp, dp, i - 16 * n);
    }
  }

  lemma WordBit(j: nat)
    requires j < 16
    ensures Bit(0xFFFF, j) && !Bit(0, j)
  {
    BitOnes(16, j);
    BitZero(j);
    Pow2Values();
  }

  lemma Witness(part: nat, v6: bool) returns (pair: FieldPair)
    requires part < 2 * AddressSize(v6) + 5
    ensures var a, n := Asking(part, AddressSize(v6)), AddressSize(v6);
            && Wellformed([a]) && pair in Compile(a.rule, a.srcs, a.dsts, v6) && Fits(pair, KeySize(v6))
            && AndField(pair.field, pair.mask) == pair.field
            && forall i: nat :: i < 8 * KeySize(v6) ==>
                 (Part(i, n) == part ==> FieldBit(pair.mask, i)) && (Part(i, n) > part ==> !FieldBit(pair.mask, i))
  {
    hide Compile, SideSegments, Layout, AndField, HeaderBit, FieldBit, IsNetmask, Part, Grid;
    var n := AddressSize(v6);
    var a := Asking(part, n);
    var s, d := a.srcs[0], a.dsts[0];
    AskingNets(part, n);
    var sp := SideOf(part == 2 * n + 2);
    var dp := SideOf(part == 2 * n + 3);
    pair := PairOf(a.rule, s, d, sp, dp);
    GridMember(a.rule, s, d, SideSegments(a.rule.srcPorts), SideSegments(a.rule.dstPorts), pair);
    CompileMember(a.rule, a.srcs, a.dsts, v6, pair);
    assert s in a.srcs && d in a.dsts && pair in Cell(a.rule, s, d, v6);
    FieldsUnderMasks(a.rule, a.srcs, a.dsts, v6, pair);
    forall i: nat | i < 8 * KeySize(v6)
      ensures (Part(i, n) == part ==> FieldBit(pair.mask, i)) && (Part(i, n) > part ==> !FieldBit(pair.mask, i))
    {
      AskingBit(part, n, sp, dp, i);
      LayoutBit(MaskHeader(a.rule, s, d, sp, dp), n, i);
    }
  }

  lemma AskingNets(part: nat, n: nat)
    requires (n == 4 || n == 16) && part < 2 * n + 5
    ensures var a := Asking(part, n);
            && |a.srcs| == |a.dsts| == 1 && |a.srcs[0].ip| == |a.dsts[0].ip| == n
            && Wellformed([a]) && AllValid(a.srcs) && AllValid(a.dsts)
  {
    hide IsNetmask;
    var a := Asking(part, n);
    Octet0Net(n, if part < n then part + 1 else 0, a.srcs[0].epc);
    Octet0Net(n, if n <= part < 2 * n then part - n + 1 else 0, a.dsts[0].epc);
  }

  /** If a part is not kept, some ACL has a mask that is not. */
  lemma PartLost(bits: seq<nat>, v6: bool) returns (acl: SourceAcl)
    requires Choice(bits, KeySize(v6)) && !PartsKept(bits, v6)
    ensures Wellformed([acl]) && !MasksKept([acl], bits, v6)
  {
    hide Compile, Items, CompileAll, SelectedBits, BitsValue, IsNetmask, Asking, FieldBit, AndField;
    var n, size := AddressSize(v6), KeySize(v6);
    var s := SelectedBits(bits, size);
    var r :| 0 <= r < |s| && r < |bits| && Part(bits[r], n) != Part(s[r], n);
    RankAbove(bits, size, r);
    PartMono(bits[r], s[r], n);
    var part := Part(bits[r], n);
    PartBound(s[r], n);
    acl := Asking(part, n);
    var pair := Witness(part, v6);
    var item := Item(pair, acl.policy);
    assert acl in [acl] && ComesFrom(item, acl, v6);
    CompiledItem([acl], v6, item);
    assert !MaskKept(pair.mask, bits, size);
  }

  lemma PartBound(i: nat, n: nat)
    requires i < 8 * (2 * n + OTHER_SIZE)
    ensures Part(i, n) < 2 * n + 6
  {
  }

  // ---------- the theorems ----------

  /** For all ACLs and all packets, the bucket gives exactly the matching items. */
  ghost predicate LookupExact(bits: seq<nat>, v6: bool)
    requires Choice(bits, KeySize(v6))
  {
    forall acls: seq<SourceAcl> :: Wellformed(acls) ==> ListExact(acls, bits, v6)
  }

  /** A vector is exact for all lists of ACLs if and only if `set_bits` keeps the parts. */
  lemma LookupExactIff(bits: seq<nat>, v6: bool)
    requires Choice(bits, KeySize(v6))
    ensures LookupExact(bits, v6) <==> PartsKept(bits, v6)
  {
    hide ListExact, MasksKept, PartsKept, Choice, Wellformed;
    if PartsKept(bits, v6) {
      forall acls: seq<SourceAcl> | Wellformed(acls) ensures ListExact(acls, bits, v6) {
        PartsKeepMasks(acls, bits, v6);
        ListExactIff(acls, bits, v6);
      }
    } else {
      var acl := PartLost(bits, v6);
      ListExactIff([acl], bits, v6);
    }
  }

  /** The compiled pairs of each ACL. */
  function PairLists(acls: seq<SourceAcl>, v6: bool): seq<seq<FieldPair>> {
    seq(|acls|, i requires 0 <= i < |acls| => Compile(acls[i].rule, acls[i].srcs, acls[i].dsts, v6))
  }

  /** The vector that `init` derives from the ACLs: `count` ascending positions, and none that was
      left out ranks before one of them. There is only one (`VectorInit.BestUnique`). */
  ghost predicate IsInit(acls: seq<SourceAcl>, bits: seq<nat>, count: nat, v6: bool) {
    && VectorInit.AllSized(VectorInit.Pairs(PairLists(acls, v6)), KeySize(v6))
    && |bits| == count && Ascending(bits)
    && VectorInit.Best(VectorInit.Pairs(PairLists(acls, v6)), KeySize(v6), bits)
  }

  lemma {:induction false} PairsMember(lists: seq<seq<FieldPair>>, pair: FieldPair)
    ensures pair in VectorInit.Pairs(lists) <==> exists i :: 0 <= i < |lists| && pair in lists[i]
  {
    if lists != [] {
      var m := |lists| - 1;
      PairsMember(lists[..m], pair);
      assert pair in lists[m] ==> 0 <= m < |lists|;
      if pair in VectorInit.Pairs(lists[..m]) {
        var i :| 0 <= i < |lists[..m]| && pair in lists[..m][i];
        assert pair in lists[i];
      }
      if i :| 0 <= i < |lists| && pair in lists[i] {
        assert i < m ==> lists[..m][i] == lists[i];
      }
    }
  }

  lemma PairsSized(acls: seq<SourceAcl>, v6: bool)
    requires Wellformed(acls)
    ensures VectorInit.AllSized(VectorInit.Pairs(PairLists(acls, v6)), KeySize(v6))
  {
    hide Compile, VectorInit.Pairs, IsNetmask;
    var pairs := VectorInit.Pairs(PairLists(acls, v6));
    forall k | 0 <= k < |pairs| ensures |pairs[k].field| == |pairs[k].mask| == KeySize(v6) {
      PairsMember(PairLists(acls, v6), pairs[k]);
      assert pairs[k] in pairs;
      var i :| 0 <= i < |acls| && pairs[k] in PairLists(acls, v6)[i];
      assert acls[i] in acls;
      FieldsUnderMasks(acls[i].rule, acls[i].srcs, acls[i].dsts, v6, pairs[k]);
    }
  }

  /** The first path for the vector that it chooses itself: it is found, and every packet finds
      exactly its matching items if and only if the vector suits the list. */
  method InitVector(acls: seq<SourceAcl>, count: nat, v6: bool) returns (bits: seq<nat>)
    requires Wellformed(acls) && 1 <= count <= 16
    ensures IsInit(acls, bits, count, v6) && Choice(bits, KeySize(v6))
    ensures ListExact(acls, bits, v6) <==> MasksKept(acls, bits, v6)
  {
    hide Compile, ListExact, MasksKept, VectorInit.Best;
    PairsSized(acls, v6);
    var r := VectorInit.ChooseBits(PairLists(acls, v6), KeySize(v6), count);
    bits := r.value;
    ListExactIff(acls, bits, v6);
  }

  /** An item is expected iff it comes from an ACL and matches; some item of an ACL is iff the
      packet satisfies the ACL. */
  lemma ExpectedMeansSatisfies(acls: seq<SourceAcl>, key: Header, v6: bool, policy: PolicyData)
    requires Wellformed(acls) && IsKey(key, v6)
    ensures (exists item :: item in Expected(acls, key, v6) && item.policy == policy) <==>
            (exists a :: a in acls && a.policy == policy && Satisfies(a.rule, a.srcs, a.dsts, key))
  {
    hide Scan, Layout, Compile, Matches, Satisfies, Items, CompileAll, IsNetmask;
    var items := Items(CompileAll(acls, v6));
    if exists item :: item in Expected(acls, key, v6) && item.policy == policy {
      var item :| item in Expected(acls, key, v6) && item.policy == policy;
      ScanMember(items, Layout(key), item);
      CompiledItem(acls, v6, item);
      var a :| a in acls && ComesFrom(item, a, v6);
      CompilePreservesMeaning(a.rule, a.srcs, a.dsts, key, v6);
    }
    forall a | a in acls && a.policy == policy && Satisfies(a.rule, a.srcs, a.dsts, key)
      ensures exists item :: item in Expected(acls, key, v6) && item.policy == policy
    {
      CompilePreservesMeaning(a.rule, a.srcs, a.dsts, key, v6);
      var pair :| pair in Compile(a.rule, a.srcs, a.dsts, v6) && Matches(Layout(key), pair);
      var item := Item(pair, policy);
      assert ComesFrom(item, a, v6);
      CompiledItem(acls, v6, item);
      ScanMember(items, Layout(key), item);
    }
  }

  /** From ACL to verdict: if the vector suits the list, a policy is found exactly when some ACL
      with that policy is satisfied by the packet. */
  lemma LookupMeansSatisfies(acls: seq<SourceAcl>, bits: seq<nat>, key: Header, v6: bool, policy: PolicyData)
    requires Wellformed(acls) && IsKey(key, v6) && Choice(bits, KeySize(v6)) && MasksKept(acls, bits, v6)
    ensures (exists item :: item in Found(acls, bits, key, v6) && item.policy == policy) <==>
            (exists a :: a in acls && a.policy == policy && Satisfies(a.rule, a.srcs, a.dsts, key))
  {
    hide Found, Expected, MasksKept, Choice, Satisfies;
    KeptIsExact(acls, bits, key, v6);
    ExpectedMeansSatisfies(acls, key, v6, policy);
  }

  ghost predicate AllPlain(acls: seq<SourceAcl>) {
    forall a :: a in acls ==> PlainRule(a.rule)
  }

  /** The same in plain terms: if all rules mean what they say, a policy is found exactly when
      some ACL with that policy plainly speaks of the packet. */
  lemma LookupMeansPlain(acls: seq<SourceAcl>, bits: seq<nat>, key: Header, tap: CaptureNetwork, v6: bool,
                         policy: PolicyData)
    requires Wellformed(acls) && AllPlain(acls) && IsKey(key, v6) && TappedAs(key, tap)
    requires Choice(bits, KeySize(v6)) && MasksKept(acls, bits, v6)
    ensures (exists item :: item in Found(acls, bits, key, v6) && item.policy == policy) <==>
            (exists a :: a in acls && a.policy == policy && PlainlySatisfies(a.rule, a.srcs, a.dsts, key, tap))
  {
    hide Found, MasksKept, Choice, HeaderOk, PlainHeader, InSegment, PlainRule;
    LookupMeansSatisfies(acls, bits, key, v6, policy);
    forall a | a in acls
      ensures PlainlySatisfies(a.rule, a.srcs, a.dsts, key, tap) <==> Satisfies(a.rule, a.srcs, a.dsts, key)
    {
      HeaderPlainIff(a.rule);
    }
  }
}
