/** The first path of src/legacy/policy/first_path.rs: compiled pairs are filed in a
    bucket table (`generate_table4`/`6`), and a packet key looks at one bucket only
    (`get_policy_from_table4`/`6`). */
module FirstPath {
  import opened MatchedFields
  import opened Acls
  import opened AclMeaning
  import opened TableIndex

  const TABLE_SIZE: nat := 0x1_0000

  /** The actions of a policy are opaque here. */
  type Action = nat

  datatype PolicyData = PolicyData(aclId: nat, npbActions: seq<Action>)

  const NO_POLICY := PolicyData(0, [])

  datatype Item = Item(pair: FieldPair, policy: PolicyData)

  /** An ACL after `generate_match`, for one IP version. */
  datatype Compiled = Compiled(pairs: seq<FieldPair>, policy: PolicyData)

  // ---------- filing ----------

  ghost predicate Fits(pair: FieldPair, size: nat) { |pair.field| == |pair.mask| == size }

  ghost predicate AllFit(items: seq<Item>, size: nat) {
    forall i :: 0 <= i < |items| ==> Fits(items[i].pair, size)
  }

  /** The items of one ACL, and of all ACLs in order. */
  function ItemsOf(pairs: seq<FieldPair>, policy: PolicyData): seq<Item> {
    seq(|pairs|, i requires 0 <= i < |pairs| => Item(pairs[i], policy))
  }

  function Items(acls: seq<Compiled>): seq<Item> {
    if acls == [] then []
    else Items(acls[..|acls| - 1]) + ItemsOf(acls[|acls| - 1].pairs, acls[|acls| - 1].policy)
  }

  ghost predicate Ready(acls: seq<Compiled>, v: Vector) {
    v.Valid() && forall a, p :: a in acls && p in a.pairs ==> Fits(p, |v.mask|)
  }

  /** What bucket `b` holds after filing the items in order. */
  ghost function Filed(items: seq<Item>, v: Vector, b: nat): seq<Item>
    requires v.Valid() && AllFit(items, |v.mask|)
  {
    if items == [] then []
    else
      var last := items[|items| - 1];
      var front := Filed(items[..|items| - 1], v, b);
      if b in AllBuckets(last.pair.field, last.pair.mask, v) then front + [last] else front
  }

  method FileItem(table: array<seq<Item>>, indices: seq<nat>, item: Item)
    requires table.Length == TABLE_SIZE && NoDuplicates(indices) && forall x :: x in indices ==> x < TABLE_SIZE
    modifies table
    ensures forall b :: 0 <= b < TABLE_SIZE ==>
              table[b] == if b in indices then old(table[b]) + [item] else old(table[b])
  {
    for i := 0 to |indices|
      invariant forall b :: 0 <= b < TABLE_SIZE ==>
                  table[b] == if b in indices[..i] then old(table[b]) + [item] else old(table[b])
    {
      var index := indices[i];
      assert index in indices && index !in indices[..i];
      assert indices[..i + 1] == indices[..i] + [index];
      table[index] := table[index] + [item];
    }
    assert indices[..|indices|] == indices;
  }

  /** `generate_table4` for `n` = 4 and `generate_table6` for `n` = 16. */
  method GenerateTable(acls: seq<Compiled>, n: nat, v: Vector) returns (table: array<seq<Item>>)
    requires |v.mask| == 2 * n + OTHER_SIZE && Ready(acls, v)
    ensures fresh(table) && table.Length == TABLE_SIZE && AllFit(Items(acls), |v.mask|)
    ensures forall b :: 0 <= b < TABLE_SIZE ==> table[b] == Filed(Items(acls), v, b)
  {
    hide AllBuckets, Vector.Valid;
    table := new seq<Item>[TABLE_SIZE](_ => []);
    ItemsFit(acls, v);
    for i := 0 to |acls|
      invariant AllFit(Items(acls[..i]), |v.mask|)
      invariant forall b :: 0 <= b < TABLE_SIZE ==> table[b] == Filed(Items(acls[..i]), v, b)
    {
      assert acls[..i + 1][..i] == acls[..i];
      assert acls[i] in acls;
      FileAcl(table, acls[i], n, v, Items(acls[..i]));
    }
    assert acls[..|acls|] == acls;
  }

  method FileAcl(table: array<seq<Item>>, acl: Compiled, n: nat, v: Vector, ghost before: seq<Item>)
    requires table.Length == TABLE_SIZE && |v.mask| == 2 * n + OTHER_SIZE
    requires v.Valid() && (forall p :: p in acl.pairs ==> Fits(p, |v.mask|)) && AllFit(before, |v.mask|)
    requires forall b :: 0 <= b < TABLE_SIZE ==> table[b] == Filed(before, v, b)
    modifies table
    ensures AllFit(before + ItemsOf(acl.pairs, acl.policy), |v.mask|)
    ensures forall b :: 0 <= b < TABLE_SIZE ==> table[b] == Filed(before + ItemsOf(acl.pairs, acl.policy), v, b)
  {
    hide AllBuckets, Vector.Valid;
    ghost var more := ItemsOf(acl.pairs, acl.policy);
    var maskVector := new MatchedFieldN.Of(n, v.mask);
    assert before + more[..0] == before;
    for j := 0 to |acl.pairs|
      invariant maskVector.Valid() && maskVector.n == n && maskVector.Value() == v.mask
      invariant AllFit(before + more[..j], |v.mask|)
      invariant forall b :: 0 <= b < TABLE_SIZE ==> table[b] == Filed(before + more[..j], v, b)
    {
      var pair := acl.pairs[j];
      assert pair in acl.pairs;
      var field := new MatchedFieldN.Of(n, pair.field);
      var mask := new MatchedFieldN.Of(n, pair.mask);
      var indices := GetAllTableIndex(field, mask, maskVector, v.minBit, v.maxBit, v.vectorBits);
      AllBucketsDistinct(pair.field, pair.mask, v);
      ghost var items, items' := before + more[..j], before + more[..j + 1];
      assert items' == items + [more[j]];
      FileItem(table, indices, Item(pair, acl.policy));
      assert items'[..|items'| - 1] == items;
    }
    assert more[..|more|] == more;
  }

  lemma {:induction false} ItemsFit(acls: seq<Compiled>, v: Vector)
    requires Ready(acls, v)
    ensures AllFit(Items(acls), |v.mask|)
  {
    if acls != [] {
      var m := |acls| - 1;
      assert forall a :: a in acls[..m] ==> a in acls;
      ItemsFit(acls[..m], v);
      assert acls[m] in acls;
    }
  }

  // ---------- looking up ----------

  function Merge(policy: PolicyData, p: PolicyData): PolicyData {
    PolicyData(p.aclId, policy.npbActions + p.npbActions)
  }

  /** The items that match the key, in order. */
  function Scan(items: seq<Item>, key: Field): seq<Item> {
    if items == [] then []
    else
      var last := items[|items| - 1];
      var front := Scan(items[..|items| - 1], key);
      if Matches(key, last.pair) then front + [last] else front
  }

  function MergeAll(policy: PolicyData, items: seq<Item>): PolicyData {
    if items == [] then policy
    else Merge(MergeAll(policy, items[..|items| - 1]), items[|items| - 1].policy)
  }

  lemma ScanSnoc(items: seq<Item>, x: Item, key: Field)
    ensures Scan(items + [x], key) == if Matches(key, x.pair) then Scan(items, key) + [x] else Scan(items, key)
  {
    assert (items + [x])[..|items|] == items;
  }

  lemma MergeAllSnoc(policy: PolicyData, items: seq<Item>, x: Item)
    ensures MergeAll(policy, items + [x]) == Merge(MergeAll(policy, items), x.policy)
  {
    assert (items + [x])[..|items|] == items;
  }

  /** The actions of the items, in order. */
  function Actions(items: seq<Item>): seq<Action> {
    if items == [] then [] else items[0].policy.npbActions + Actions(items[1..])
  }

  lemma {:induction false} ActionsSnoc(items: seq<Item>, x: Item)
    ensures Actions(items + [x]) == Actions(items) + x.policy.npbActions
  {
    var all := items + [x];
    if items == [] {
      assert all[1..] == [];
    } else {
      ActionsSnoc(items[1..], x);
      assert all[1..] == items[1..] + [x];
    }
  }

  /** Merging collects the actions of all items in order and keeps the id of the last one. */
  lemma {:induction false} MergeAllMeaning(policy: PolicyData, items: seq<Item>)
    ensures MergeAll(policy, items).npbActions == policy.npbActions + Actions(items)
    ensures MergeAll(policy, items).aclId == if items == [] then policy.aclId else items[|items| - 1].policy.aclId
  {
    if items != [] {
      var n := |items| - 1;
      MergeAllMeaning(policy, items[..n]);
      ActionsSnoc(items[..n], items[n]);
      assert items == items[..n] + [items[n]];
    }
  }

  /** The matches of two lists are found one after the other, and so are the items of two lists
      of ACLs. */
  lemma {:induction false} ScanConcat(a: seq<Item>, b: seq<Item>, key: Field)
    ensures Scan(a + b, key) == Scan(a, key) + Scan(b, key)
  {
    if b == [] {
      assert a + b == a;
    } else {
      var n := |b| - 1;
      ScanConcat(a, b[..n], key);
      assert a + b == (a + b[..n]) + [b[n]] && b == b[..n] + [b[n]];
      ScanSnoc(a + b[..n], b[n], key);
      ScanSnoc(b[..n], b[n], key);
    }
  }

  lemma ItemsSnoc(acls: seq<Compiled>, c: Compiled)
    ensures Items([]) == [] && Items(acls + [c]) == Items(acls) + ItemsOf(c.pairs, c.policy)
  {
    hide ItemsOf;
    assert (acls + [c])[..|acls|] == acls;
  }

  lemma {:induction false} ItemsConcat(a: seq<Compiled>, b: seq<Compiled>)
    ensures Items(a + b) == Items(a) + Items(b)
  {
    hide Items, ItemsOf;
    if b == [] {
      ItemsSnoc([], Compiled([], NO_POLICY));
      assert a + b == a;
    } else {
      var n := |b| - 1;
      ItemsConcat(a, b[..n]);
      ItemsSnoc(a + b[..n], b[n]);
      ItemsSnoc(b[..n], b[n]);
      assert a + b == (a + b[..n]) + [b[n]] && b == b[..n] + [b[n]];
    }
  }

  /** What the table lookup finds for a key. */
  ghost function Lookup(items: seq<Item>, v: Vector, key: Field): seq<Item>
    requires v.Valid() && AllFit(items, |v.mask|) && |key| == |v.mask|
  {
    Scan(Filed(items, v, Bucket(key, v)), key)
  }

  /** `get_policy_from_table4`/`6`: one bucket is searched and every match is merged. */
  method GetPolicyFromTable(table: array<seq<Item>>, v: Vector, n: nat, field: Field, start: PolicyData,
                            ghost items: seq<Item>)
    returns (policy: PolicyData)
    requires table.Length == TABLE_SIZE && v.Valid() && |v.mask| == |field| == 2 * n + OTHER_SIZE
    requires AllFit(items, |v.mask|) && forall b :: 0 <= b < TABLE_SIZE ==> table[b] == Filed(items, v, b)
    ensures policy == MergeAll(start, Lookup(items, v, field))
  {
    hide AllBuckets, Filed, Vector.Valid, Matches, Bucket;
    var key := new MatchedFieldN.Of(n, field);
    var maskVector := new MatchedFieldN.Of(n, v.mask);
    var index := TableBucket(key, maskVector, v);
    var bucket := table[index];
    policy := start;
    for i := 0 to |bucket|
      invariant policy == MergeAll(start, Scan(bucket[..i], field))
    {
      var item := bucket[i];
      assert bucket[..i + 1] == bucket[..i] + [item];
      ScanSnoc(bucket[..i], item, field);
      MergeAllSnoc(start, Scan(bucket[..i], field), item);
      if Matches(field, item.pair) {
        policy := Merge(policy, item.policy);
      }
    }
    assert bucket[..|bucket|] == bucket;
  }

  method TableBucket(key: MatchedFieldN, maskVector: MatchedFieldN, v: Vector) returns (index: nat)
    requires key.Valid() && maskVector.Valid() && key.n == maskVector.n && maskVector.Value() == v.mask && v.Valid()
    ensures index == Bucket(key.Value(), v) < TABLE_SIZE
  {
    index := GetTableIndex(key, maskVector, v.minBit, v.maxBit);
  }

  // ---------- the lookup is the linear scan ----------

  /** If the pair matches the key, the key looks into one of the pair's buckets. */
  ghost predicate Reached(key: Field, pair: FieldPair, v: Vector)
    requires v.Valid() && Fits(pair, |v.mask|) && |key| == |v.mask|
  {
    Matches(key, pair) ==> Bucket(key, v) in AllBuckets(pair.field, pair.mask, v)
  }

  lemma {:induction false} ScanFiled(items: seq<Item>, v: Vector, key: Field)
    requires v.Valid() && AllFit(items, |v.mask|) && |key| == |v.mask|
    requires forall i :: 0 <= i < |items| ==> Reached(key, items[i].pair, v)
    ensures Lookup(items, v, key) == Scan(items, key)
  {
    hide AllBuckets, Vector.Valid, Bucket;
    if items != [] {
      var m, last := |items| - 1, items[|items| - 1];
      ScanFiled(items[..m], v, key);
      assert Reached(key, last.pair, v);
      ScanSnoc(Filed(items[..m], v, Bucket(key, v)), last, key);
    }
  }

  lemma {:induction false} FiledMember(items: seq<Item>, v: Vector, b: nat, item: Item)
    requires v.Valid() && AllFit(items, |v.mask|) && item in Filed(items, v, b)
    ensures item in items && Fits(item.pair, |v.mask|) && b in AllBuckets(item.pair.field, item.pair.mask, v)
  {
    hide AllBuckets, Vector.Valid;
    var m := |items| - 1;
    assert items == items[..m] + [items[m]];
    if item in Filed(items[..m], v, b) { FiledMember(items[..m], v, b, item); }
  }

  lemma {:induction false} ScanMember(items: seq<Item>, key: Field, item: Item)
    ensures item in Scan(items, key) <==> item in items && Matches(key, item.pair)
  {
    hide Matches;
    if items != [] {
      var m := |items| - 1;
      assert items == items[..m] + [items[m]];
      ScanMember(items[..m], key, item);
    }
  }

  /** Looking at one bucket finds what a scan of all items finds, in the same order, if and
      only if the key looks into a bucket of every item that matches it. */
  lemma LookupIsScanIff(items: seq<Item>, v: Vector, key: Field)
    requires v.Valid() && AllFit(items, |v.mask|) && |key| == |v.mask|
    ensures Lookup(items, v, key) == Scan(items, key) <==>
            forall i :: 0 <= i < |items| ==> Reached(key, items[i].pair, v)
  {
    hide AllBuckets, Vector.Valid, Bucket, Filed, Scan, Matches;
    if forall i :: 0 <= i < |items| ==> Reached(key, items[i].pair, v) { ScanFiled(items, v, key); }
    if Lookup(items, v, key) == Scan(items, key) {
      var filed := Filed(items, v, Bucket(key, v));
      forall i | 0 <= i < |items| && Matches(key, items[i].pair) ensures Reached(key, items[i].pair, v) {
        ScanMember(items, key, items[i]);
        ScanMember(filed, key, items[i]);
        FiledMember(items, v, Bucket(key, v), items[i]);
      }
    }
  }
}
