/** Lists of ACLs, the vectors that `init` of src/legacy/policy/first_path.rs derives from them,
    and what a packet then finds. */
module PolicyExamples {
  import opened Words
  import opened Bits
  import opened MatchedFields
  import opened HeaderLayout
  import opened Acls
  import opened AclMeaning
  import opened TableIndex
  import opened VectorMask
  import opened Parts
  import opened FirstPath
  import opened PolicyLookup
  import opened VectorInit
  import PortSegments

  // ---------- one network as the source ----------

  /** The network a.b.0.0 with `k` octets of netmask. */
  datatype Net = Net(a: byte, b: byte, k: nat) {
    predicate Valid() { k == 2 || (k == 1 && b == 0) }
  }

  /** From the network to anywhere, any port and any protocol. */
  function NetAcl(n: Net, policy: PolicyData): SourceAcl
    requires n.Valid()
  {
    SourceAcl(Rule(Any, PROTOCOL_ANY, [], []),
              [IpSegment([n.a, n.b, 0, 0], Octet0(4, n.k).mask, EPC_ANY)], [Octet0(4, 0)], policy)
  }

  /** The one pair it compiles to. */
  function NetPair(n: Net): FieldPair
    requires n.Valid()
  {
    var acl := NetAcl(n, NO_POLICY);
    PairOf(acl.rule, acl.srcs[0], acl.dsts[0], PortSegments.ALL, PortSegments.ALL)
  }

  lemma NetCompiled(n: Net, policy: PolicyData)
    requires n.Valid()
    ensures var acl := NetAcl(n, policy); Compile(acl.rule, acl.srcs, acl.dsts, false) == [NetPair(n)]
  {
    hide PairOf, Octet0;
    var acl := NetAcl(n, policy);
    var s, d := acl.srcs[0], acl.dsts[0];
    assert acl.srcs[..0] == [] && acl.dsts[..0] == [];
    var all := [PortSegments.ALL];
    assert SideSegments([]) == all && all[..0] == [];
    assert Row(acl.rule, s, d, PortSegments.ALL, all) == [NetPair(n)];
    assert Grid(acl.rule, s, d, all, all) == Grid(acl.rule, s, d, [], all) + [NetPair(n)];
    assert Cell(acl.rule, s, d, false) == [NetPair(n)];
    assert CellsFor(acl.rule, s, acl.dsts, false) == [NetPair(n)];
  }

  lemma NetWellformed(n: Net, policy: PolicyData)
    requires n.Valid()
    ensures AllNets(NetAcl(n, policy).srcs) && AllNets(NetAcl(n, policy).dsts)
  {
    hide IsNetmask;
    var s := NetAcl(n, policy).srcs[0];
    AndAll8(n.a);
    AndAll8(n.b);
    AndZero(0);
    assert AndField(s.ip, s.mask) == s.ip;
    Octet0Net(4, n.k, EPC_ANY);
    Octet0Net(4, 0, EPC_ANY);
  }

  /** Its mask covers the first octets, and its field has bits in the first two. */
  lemma NetBits(n: Net, i: nat)
    requires n.Valid() && i < 8 * 18
    ensures var pair := NetPair(n);
            && |pair.field| == |pair.mask| == 18
            && (FieldBit(pair.mask, i) <==> i < 8 * n.k)
            && (FieldBit(pair.field, i) <==> i < 16 && Bit(if i < 8 then n.a else n.b, i % 8))
  {
    hide Bit, Layout, FieldBit;
    var acl := NetAcl(n, NO_POLICY);
    var s, d := acl.srcs[0], acl.dsts[0];
    LayoutBit(FieldHeader(acl.rule, s, d, PortSegments.ALL, PortSegments.ALL), 4, i);
    LayoutBit(MaskHeader(acl.rule, s, d, PortSegments.ALL, PortSegments.ALL), 4, i);
    ByteBit(i % 8);
    forall j: nat ensures !Bit(0, j) { BitZero(j); }
  }

  // ---------- three networks and their scores ----------

  function ThreeAcls(x: Net, y: Net, z: Net, p: PolicyData, q: PolicyData, r: PolicyData): seq<SourceAcl>
    requires x.Valid() && y.Valid() && z.Valid()
  {
    [NetAcl(x, p), NetAcl(y, q), NetAcl(z, r)]
  }

  function ThreePairs(x: Net, y: Net, z: Net): seq<FieldPair>
    requires x.Valid() && y.Valid() && z.Valid()
  {
    [NetPair(x), NetPair(y), NetPair(z)]
  }

  lemma ThreeWellformed(x: Net, y: Net, z: Net, p: PolicyData, q: PolicyData, r: PolicyData)
    requires x.Valid() && y.Valid() && z.Valid()
    ensures Wellformed(ThreeAcls(x, y, z, p, q, r))
  {
    hide NetAcl, AllNets;
    NetWellformed(x, p);
    NetWellformed(y, q);
    NetWellformed(z, r);
  }

  function FixesTo(n: Net, i: nat, one: bool): nat {
    if i < 8 * n.k && Bit(if i < 8 then n.a else n.b, i % 8) == one then 1 else 0
  }

  lemma FixingOne(front: seq<FieldPair>, n: Net, i: nat, one: bool)
    requires n.Valid() && i < 8 * 18 && AllSized(front, 18)
    ensures AllSized(front + [NetPair(n)], 18)
    ensures Fixing(front + [NetPair(n)], 18, i, one) == Fixing(front, 18, i, one) + FixesTo(n, i, one)
  {
    hide FieldBit, Bit, NetPair;
    var all := front + [NetPair(n)];
    NetBits(n, i);
    assert all[..|front|] == front && all[|front|] == NetPair(n);
  }

  lemma NothingFixes(i: nat, one: bool)
    requires i < 8 * 18
    ensures AllSized([], 18) && Fixing([], 18, i, one) == 0
  {
  }

  lemma ThreeFixing(x: Net, y: Net, z: Net, i: nat, one: bool)
    requires x.Valid() && y.Valid() && z.Valid() && i < 8 * 18
    ensures AllSized(ThreePairs(x, y, z), 18)
    ensures Fixing(ThreePairs(x, y, z), 18, i, one) == FixesTo(x, i, one) + FixesTo(y, i, one) + FixesTo(z, i, one)
  {
    hide NetPair, FixesTo, Fixing, AllSized;
    var p, q, r := NetPair(x), NetPair(y), NetPair(z);
    NothingFixes(i, one);
    FixingOne([], x, i, one);
    assert [] + [p] == [p];
    FixingOne([p], y, i, one);
    assert [p] + [q] == [p, q];
    FixingOne([p, q], z, i, one);
    assert [p, q] + [r] == ThreePairs(x, y, z);
  }

  /** The bits of the octets in the examples. */
  lemma OctetBits(j: nat)
    requires j < 8
    ensures Bit(10, j) <==> j == 1 || j == 3
    ensures Bit(9, j) <==> j == 0 || j == 3
    ensures Bit(3, j) <==> j == 0 || j == 1
    ensures (Bit(1, j) <==> j == 0) && (Bit(2, j) <==> j == 1) && !Bit(0, j)
  {
    BitZero(j);
    BitPow2(0, j);
    BitPow2(1, j);
    Bits4(10, j);
    Bits4(9, j);
    Bits4(3, j);
  }

  lemma Bits4(x: nat, j: nat)
    requires x < 16
    ensures Bit(x, j) <==> (j == 0 && x % 2 == 1) || (j == 1 && x / 2 % 2 == 1) ||
                           (j == 2 && x / 4 % 2 == 1) || (j == 3 && x / 8 == 1)
  {
    assert j > 0 ==> Bit(x, j) == Bit(x / 2, j - 1);
    assert j > 1 ==> Bit(x / 2, j - 1) == Bit(x / 2 / 2, j - 2);
    assert j > 2 ==> Bit(x / 2 / 2, j - 2) == Bit(x / 2 / 2 / 2, j - 3);
    if j > 3 {
      assert Bit(x / 2 / 2 / 2, j - 3) == Bit(x / 2 / 2 / 2 / 2, j - 4);
      BitZero(j - 4);
    }
  }

  predicate IsLow(i: nat) { i == 0 || i == 1 || i == 8 || i == 9 }

  /** Positions that two of three values or one of two share score 1, all others 3. */
  ghost predicate LowScores(pairs: seq<FieldPair>) {
    AllSized(pairs, 18) && forall i: nat :: i < 8 * 18 ==> Score(pairs, 18, i) == if IsLow(i) then 1 else 3
  }

  /** With such scores `init` takes the bits 0, 1, 8 and 9. */
  lemma LowScoresChosen(pairs: seq<FieldPair>, bits: seq<nat>)
    requires LowScores(pairs) && |bits| == 4 && Ascending(bits)
    ensures Best(pairs, 18, bits) <==> bits == [0, 1, 8, 9]
  {
    hide Score;
    var low: seq<nat> := [0, 1, 8, 9];
    forall c: nat, u: nat | c in low && u < 8 * 18 && u !in low ensures c < 8 * 18 && Before(pairs, 18, c, u) {
      assert IsLow(c);
      assert !IsLow(u) by { assert low[0] == 0 && low[1] == 1 && low[2] == 8 && low[3] == 9; }
    }
    assert Best(pairs, 18, low);
    if Best(pairs, 18, bits) { BestUnique(pairs, 18, bits, low); }
  }

  /** The pairs of three lists with one pair each. */
  lemma PairsOfThree(p: FieldPair, q: FieldPair, r: FieldPair)
    ensures Pairs([[p], [q], [r]]) == [p, q, r]
  {
    var lists := [[p], [q], [r]];
    assert lists[..2][..1] == lists[..1] && lists[..1][..0] == [];
    assert Pairs(lists[..1]) == [p];
    assert Pairs(lists[..2]) == [p] + [q];
  }

  lemma ChosenOf(pairs: seq<FieldPair>, bits: seq<nat>)
    requires LowScores(pairs)
    ensures AllSized(pairs, 18)
    ensures |bits| == 4 && Ascending(bits) && Best(pairs, 18, bits) <==> bits == [0, 1, 8, 9]
  {
    if |bits| == 4 && Ascending(bits) { LowScoresChosen(pairs, bits); }
  }

  /** The vector of three networks with such scores. */
  lemma ThreeInit(x: Net, y: Net, z: Net, p: PolicyData, q: PolicyData, r: PolicyData, bits: seq<nat>)
    requires x.Valid() && y.Valid() && z.Valid() && LowScores(ThreePairs(x, y, z))
    ensures IsInit(ThreeAcls(x, y, z, p, q, r), bits, 4, false) <==> bits == [0, 1, 8, 9]
  {
    hide Compile, NetPair, NetAcl, Pairs, Best, LowScores;
    NetCompiled(x, p);
    NetCompiled(y, q);
    NetCompiled(z, r);
    assert PairLists(ThreeAcls(x, y, z, p, q, r), false) == [[NetPair(x)], [NetPair(y)], [NetPair(z)]];
    PairsOfThree(NetPair(x), NetPair(y), NetPair(z));
    ChosenOf(ThreePairs(x, y, z), bits);
  }

  lemma ExampleSelected()
    ensures Choice([0, 1, 8, 9], 18) && SelectedBits([0, 1, 8, 9], 18) == [1, 9]
  {
    hide SelectedBits, BitsValue;
    var bits: seq<nat> := [0, 1, 8, 9];
    var s := SelectedBits(bits, 18);
    SelectedAscend(bits, 18);
    assert bits[2] / 8 == bits[3] / 8 && bits[0] / 8 == bits[1] / 8;
    assert LastInByte(bits, 1) && LastInByte(bits, 3) && !LastInByte(bits, 0) && !LastInByte(bits, 2);
    forall b: nat ensures b in s <==> b == 1 || b == 9 {
      SelectedMember(bits, 18, b);
    }
    AscendingUnique(s, [1, 9]);
  }

  // ---------- a list that its own vector misses ----------

  const TEN: Net := Net(10, 0, 1)
  const NINE_ONE: Net := Net(9, 1, 2)
  const NINE_TWO: Net := Net(9, 2, 2)
  const TEN_THREE: Net := Net(10, 3, 2)

  lemma MixedScores()
    ensures LowScores(ThreePairs(TEN, NINE_ONE, NINE_TWO))
  {
    hide Fixing, NetPair, Bit, FieldBit, ThreePairs;
    ThreeFixing(TEN, NINE_ONE, NINE_TWO, 0, true);
    forall i: nat | i < 8 * 18
      ensures Score(ThreePairs(TEN, NINE_ONE, NINE_TWO), 18, i) == if IsLow(i) then 1 else 3
    {
      ThreeFixing(TEN, NINE_ONE, NINE_TWO, i, false);
      ThreeFixing(TEN, NINE_ONE, NINE_TWO, i, true);
      OctetBits(i % 8);
      ThreeCount(TEN, NINE_ONE, NINE_TWO);
    }
  }

  lemma ThreeCount(x: Net, y: Net, z: Net)
    requires x.Valid() && y.Valid() && z.Valid()
    ensures |ThreePairs(x, y, z)| == 3
  {
  }

  lemma SixteenScores()
    ensures LowScores(ThreePairs(NINE_ONE, NINE_TWO, TEN_THREE))
  {
    hide Fixing, NetPair, Bit, FieldBit, ThreePairs;
    ThreeFixing(NINE_ONE, NINE_TWO, TEN_THREE, 0, true);
    forall i: nat | i < 8 * 18
      ensures Score(ThreePairs(NINE_ONE, NINE_TWO, TEN_THREE), 18, i) == if IsLow(i) then 1 else 3
    {
      ThreeFixing(NINE_ONE, NINE_TWO, TEN_THREE, i, false);
      ThreeFixing(NINE_ONE, NINE_TWO, TEN_THREE, i, true);
      OctetBits(i % 8);
      ThreeCount(NINE_ONE, NINE_TWO, TEN_THREE);
    }
  }

  lemma NetMatchesFirst(n: Net, key: Header)
    requires n.Valid() && IsKey(key, false) && Matches(Layout(key), NetPair(n))
    ensures key.srcIp[0] == n.a
  {
    hide Others;
    var f, m := NetPair(n).field, NetPair(n).mask;
    assert f[0] == n.a && m[0] == 255 && Layout(key)[0] == key.srcIp[0];
    AndAll8(key.srcIp[0]);
    assert AndField(Layout(key), m)[0] == AndByte(Layout(key)[0], m[0]);
  }

  lemma TenSatisfied(policy: PolicyData, key: Header)
    requires IsKey(key, false) && key.srcIp == [10, 2, 0, 1]
    ensures var a := NetAcl(TEN, policy); AllValid(a.srcs) && AllValid(a.dsts) && Satisfies(a.rule, a.srcs, a.dsts, key)
  {
    hide IsNetmask;
    var a := NetAcl(TEN, policy);
    NetWellformed(TEN, policy);
    AndAll8(10);
    AndZero(2);
    AndZero(0);
    AndZero(1);
    var s, d := a.srcs[0], a.dsts[0];
    assert AndField(key.srcIp, s.mask) == s.ip;
    forall i | 0 <= i < 4 ensures AndByte(key.dstIp[i], 0) == 0 { AndZero(key.dstIp[i]); }
    assert AndField(key.dstIp, d.mask) == d.ip;
    assert s in a.srcs && d in a.dsts;
  }

  lemma TenMissed(key: Header)
    requires IsKey(key, false) && key.srcIp == [10, 2, 0, 1]
    ensures Choice([0, 1, 8, 9], 18) && VectorOf([0, 1, 8, 9], 18).Valid()
    ensures |Layout(key)| == 18 && Fits(NetPair(TEN), 18)
    ensures var v := VectorOf([0, 1, 8, 9], 18);
            Bucket(Layout(key), v) !in AllBuckets(NetPair(TEN).field, NetPair(TEN).mask, v)
  {
    hide AllBuckets, Bucket, SelectedBits, BitsValue, Bit, Choice, NetPair, Layout;
    var bits: seq<nat> := [0, 1, 8, 9];
    ExampleSelected();
    OctetBits(1);
    NetBits(TEN, 1);
    NetBits(TEN, 9);
    LayoutBit(key, 4, 9);
    ReachedIff(Layout(key), NetPair(TEN).field, NetPair(TEN).mask, bits, 18);
    assert FieldBit(NetPair(TEN).mask, bits[1]) && FieldBit(Layout(key), 9) && !FieldBit(NetPair(TEN).field, 9);
  }

  /** For 10.0.0.0/8, 9.1.0.0/16 and 9.2.0.0/16 `init` takes bits 0 and 1 of the first two octets
      of the source address. A packet from 10.2.0.1 satisfies the first ACL and finds nothing. */
  lemma MissExample(p: PolicyData, q: PolicyData, r: PolicyData, key: Header)
    requires IsKey(key, false) && key.srcIp == [10, 2, 0, 1]
    ensures var acls := ThreeAcls(TEN, NINE_ONE, NINE_TWO, p, q, r);
            && Wellformed(acls) && Choice([0, 1, 8, 9], KeySize(false))
            && (forall bits :: IsInit(acls, bits, 4, false) <==> bits == [0, 1, 8, 9])
            && Satisfies(acls[0].rule, acls[0].srcs, acls[0].dsts, key)
            && Found(acls, [0, 1, 8, 9], key, false) == []
  {
    hide Satisfies, Found, Wellformed, NetAcl, IsInit;
    var acls, bits: seq<nat> := ThreeAcls(TEN, NINE_ONE, NINE_TWO, p, q, r), [0, 1, 8, 9];
    ThreeWellformed(TEN, NINE_ONE, NINE_TWO, p, q, r);
    MixedScores();
    forall other: seq<nat> ensures IsInit(acls, other, 4, false) <==> other == bits {
      ThreeInit(TEN, NINE_ONE, NINE_TWO, p, q, r, other);
    }
    TenSatisfied(p, key);
    NothingFound(p, q, r, key);
  }

  lemma NothingFound(p: PolicyData, q: PolicyData, r: PolicyData, key: Header)
    requires IsKey(key, false) && key.srcIp == [10, 2, 0, 1]
    requires Wellformed(ThreeAcls(TEN, NINE_ONE, NINE_TWO, p, q, r)) && Choice([0, 1, 8, 9], KeySize(false))
    ensures Found(ThreeAcls(TEN, NINE_ONE, NINE_TWO, p, q, r), [0, 1, 8, 9], key, false) == []
  {
    hide Scan, Filed, Items, CompileAll, Choice, Wellformed, SelectedBits, BitsValue, NetPair, NetAcl, Compile, Layout;
    var acls, bits: seq<nat> := ThreeAcls(TEN, NINE_ONE, NINE_TWO, p, q, r), [0, 1, 8, 9];
    TenMissed(key);
    AllCompiledFit(acls, false);
    var items, v, f := Items(CompileAll(acls, false)), VectorOf(bits, 18), Found(acls, bits, key, false);
    if f != [] {
      var item := f[0];
      ScanMember(Filed(items, v, Bucket(Layout(key), v)), Layout(key), item);
      FiledMember(items, v, Bucket(Layout(key), v), item);
      CompiledItem(acls, false, item);
      NetCompiled(TEN, p);
      NetCompiled(NINE_ONE, q);
      NetCompiled(NINE_TWO, r);
      if item.pair == NetPair(NINE_ONE) { NetMatchesFirst(NINE_ONE, key); }
      if item.pair == NetPair(NINE_TWO) { NetMatchesFirst(NINE_TWO, key); }
      assert false;
    }
  }

  /** For 9.1.0.0/16, 9.2.0.0/16 and 10.3.0.0/16 it takes the same bits. They do not keep the parts,
      but every mask of the list covers both octets, so every packet finds what it should. */
  lemma KeptExample(p: PolicyData, q: PolicyData, r: PolicyData)
    ensures var acls := ThreeAcls(NINE_ONE, NINE_TWO, TEN_THREE, p, q, r);
            && Wellformed(acls) && Choice([0, 1, 8, 9], KeySize(false))
            && (forall bits :: IsInit(acls, bits, 4, false) <==> bits == [0, 1, 8, 9])
            && !PartsKept([0, 1, 8, 9], false) && ListExact(acls, [0, 1, 8, 9], false)
  {
    hide Items, CompileAll, Choice, Wellformed, SelectedBits, BitsValue, NetPair, NetAcl, IsInit, Compile, ListExact,
      FieldBit;
    var acls, bits: seq<nat> := ThreeAcls(NINE_ONE, NINE_TWO, TEN_THREE, p, q, r), [0, 1, 8, 9];
    ThreeWellformed(NINE_ONE, NINE_TWO, TEN_THREE, p, q, r);
    SixteenScores();
    forall other: seq<nat> ensures IsInit(acls, other, 4, false) <==> other == bits {
      ThreeInit(NINE_ONE, NINE_TWO, TEN_THREE, p, q, r, other);
    }
    ExampleSelected();
    assert SelectedBits(bits, 18)[1] == 9 && Part(bits[1], 4) != Part(9, 4);
    forall item | item in Items(CompileAll(acls, false)) && |item.pair.mask| == 18
      ensures MaskKept(item.pair.mask, bits, 18)
    {
      CompiledItem(acls, false, item);
      NetCompiled(NINE_ONE, p);
      NetCompiled(NINE_TWO, q);
      NetCompiled(TEN_THREE, r);
      forall i: nat | i < 16 ensures FieldBit(item.pair.mask, i) {
        NetBits(NINE_ONE, i);
        NetBits(NINE_TWO, i);
        NetBits(TEN_THREE, i);
      }
    }
    ListExactIff(acls, bits, false);
  }

  /** Four bits of one byte may be chosen without harm, if the byte is a part. */
  lemma OneByteExample()
    ensures var bits := [128, 129, 130, 131];
            Choice(bits, KeySize(false)) && !DistinctBytes(bits) && PartsKept(bits, false)
  {
    var bits: seq<nat> := [128, 129, 130, 131];
    assert bits[0] / 8 == bits[1] / 8;
    forall r | 0 <= r < |SelectedBits(bits, 18)| && r < |bits|
      ensures Part(bits[r], 4) == Part(SelectedBits(bits, 18)[r], 4)
    {
      var s := SelectedBits(bits, 18);
      assert s[r] in s;
      SelectedMember(bits, 18, s[r]);
    }
  }
}
