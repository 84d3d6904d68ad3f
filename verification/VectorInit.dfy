/** `Vector::init` of src/legacy/policy/first_path.rs: every bit position gets a score, low
    where the position splits the compiled pairs evenly, and the positions with the lowest
    scores become the vector. */
module VectorInit {
  import opened Words
  import opened MatchedFields
  import opened Acls
  import opened TableIndex
  import opened VectorMask

  const SORT_SIZE: nat := 0xffff
  const I16_MAX: nat := 0x7fff

  function Pairs(acls: seq<seq<FieldPair>>): seq<FieldPair> {
    if acls == [] then [] else Pairs(acls[..|acls| - 1]) + acls[|acls| - 1]
  }

  ghost predicate AllSized(pairs: seq<FieldPair>, size: nat) {
    forall i :: 0 <= i < |pairs| ==> |pairs[i].field| == |pairs[i].mask| == size
  }

  // ---------- scores ----------

  function CalcIndex(zeros: nat, ones: nat, base: nat): (r: nat)
    requires zeros + ones <= base
    ensures r + 2 * (if zeros < ones then zeros else ones) == base
  {
    if zeros == 0 && ones == 0 then base
    else (if zeros > ones then zeros - ones else ones - zeros) + (base - (zeros + ones))
  }

  /** `sort_table_index`: large scores share the upper half of the table, and every score
      is a slot of it. */
  function SortTableIndex(zeros: nat, ones: nat, base: nat): (r: nat)
    requires zeros + ones <= base
    ensures r < SORT_SIZE
  {
    var index := CalcIndex(zeros, ones, base);
    if index > I16_MAX then
      ScaleBound(index, base);
      index / (base / 0x8000 + 1) + I16_MAX
    else index
  }

  /** The slots keep the order of the scores, and small scores are their own slots. */
  lemma SlotsInOrder(zeros: nat, ones: nat, zeros': nat, ones': nat, base: nat)
    requires zeros + ones <= base && zeros' + ones' <= base
    requires CalcIndex(zeros, ones, base) <= CalcIndex(zeros', ones', base)
    ensures SortTableIndex(zeros, ones, base) <= SortTableIndex(zeros', ones', base)
    ensures SortTableIndex(zeros, ones, base) <= 0x7fff || CalcIndex(zeros, ones, base) > 0x7fff
    ensures CalcIndex(zeros, ones, base) <= 0x7fff ==> SortTableIndex(zeros, ones, base) == CalcIndex(zeros, ones, base)
  {
    QuotientsInOrder(CalcIndex(zeros, ones, base), CalcIndex(zeros', ones', base), base / 0x8000 + 1);
  }

  lemma QuotientsInOrder(a: nat, b: nat, n: nat)
    requires a <= b && n > 0
    ensures a / n <= b / n
  {
    var p, q := a / n, b / n;
    assert n * p <= a && b < n * q + n;
    if p > q {
      Multiples(n, p, q + 1);
      assert false;
    }
  }

  lemma Multiples(n: nat, p: nat, q: nat)
    requires p >= q
    ensures n * p >= n * q
  {
  }

  lemma ScaleBound(index: nat, base: nat)
    requires index <= base
    ensures index / (base / 0x8000 + 1) <= I16_MAX
  {
    var n := base / 0x8000 + 1;
    var q := index / n;
    assert q * n <= index < n * 0x8000;
    if q >= 0x8000 { Product(q, n); }
  }

  lemma Product(q: nat, n: nat)
    requires q >= 0x8000
    ensures q * n >= 0x8000 * n
  {
  }

  /** Pairs that fix the bit at `i` to `one`. */
  ghost function Fixing(pairs: seq<FieldPair>, size: nat, i: nat, one: bool): nat
    requires AllSized(pairs, size) && i < 8 * size
  {
    if pairs == [] then 0
    else
      var last := pairs[|pairs| - 1];
      Fixing(pairs[..|pairs| - 1], size, i, one) +
      (if FieldBit(last.mask, i) && FieldBit(last.field, i) == one then 1 else 0)
  }

  lemma {:induction false} FixingBound(pairs: seq<FieldPair>, size: nat, i: nat)
    requires AllSized(pairs, size) && i < 8 * size
    ensures Fixing(pairs, size, i, false) + Fixing(pairs, size, i, true) <= |pairs|
  {
    if pairs != [] { FixingBound(pairs[..|pairs| - 1], size, i); }
  }

  ghost function Score(pairs: seq<FieldPair>, size: nat, i: nat): (r: nat)
    requires AllSized(pairs, size) && i < 8 * size
    ensures r < SORT_SIZE
  {
    FixingBound(pairs, size, i);
    SortTableIndex(Fixing(pairs, size, i, false), Fixing(pairs, size, i, true), |pairs|)
  }

  /** Lower scores first, then lower positions. */
  ghost predicate Before(pairs: seq<FieldPair>, size: nat, a: nat, b: nat)
    requires AllSized(pairs, size) && a < 8 * size && b < 8 * size
  {
    Score(pairs, size, a) < Score(pairs, size, b) || (Score(pairs, size, a) == Score(pairs, size, b) && a < b)
  }

  lemma {:induction false} SizedFront(acls: seq<seq<FieldPair>>, size: nat, k: nat)
    requires AllSized(Pairs(acls), size) && k <= |acls|
    ensures AllSized(Pairs(acls[..k]), size)
    ensures k < |acls| ==> Pairs(acls[..k + 1]) == Pairs(acls[..k]) + acls[k] && AllSized(acls[k], size)
    decreases |acls|
  {
    assert acls[..|acls|] == acls;
    if k < |acls| {
      var m := |acls| - 1;
      var front, all := Pairs(acls[..m]), Pairs(acls);
      assert forall i :: 0 <= i < |front| ==> front[i] == all[i];
      assert forall i :: 0 <= i < |acls[m]| ==> acls[m][i] == all[|front| + i];
      if k < m {
        SizedFront(acls[..m], size, k);
        assert acls[..m][..k] == acls[..k] && acls[..m][..k + 1] == acls[..k + 1];
      }
    }
  }

  /** The innermost loop of `generate_sort_table4`, over the pairs of one ACL. */
  method CountAcl(acl: seq<FieldPair>, size: nat, i: nat, z: nat, o: nat, ghost front: seq<FieldPair>)
    returns (zeros: nat, ones: nat)
    requires AllSized(front, size) && AllSized(acl, size) && i < 8 * size
    requires z == Fixing(front, size, i, false) && o == Fixing(front, size, i, true)
    ensures AllSized(front + acl, size)
    ensures zeros == Fixing(front + acl, size, i, false) && ones == Fixing(front + acl, size, i, true)
  {
    zeros, ones := z, o;
    assert front + acl[..0] == front;
    for j := 0 to |acl|
      invariant zeros == Fixing(front + acl[..j], size, i, false) && ones == Fixing(front + acl[..j], size, i, true)
    {
      FixingSnoc(front, acl, size, i, j);
      if FieldBit(acl[j].mask, i) {
        if !FieldBit(acl[j].field, i) {
          zeros := zeros + 1;
        } else {
          ones := ones + 1;
        }
      }
    }
    assert acl[..|acl|] == acl;
  }

  lemma FixingSnoc(front: seq<FieldPair>, acl: seq<FieldPair>, size: nat, i: nat, j: nat)
    requires AllSized(front, size) && AllSized(acl, size) && i < 8 * size && j < |acl|
    ensures forall one :: Fixing(front + acl[..j + 1], size, i, one) ==
                          Fixing(front + acl[..j], size, i, one) +
                          (if FieldBit(acl[j].mask, i) && FieldBit(acl[j].field, i) == one then 1 else 0)
  {
    hide FieldBit;
    var next := front + acl[..j + 1];
    assert next[..|next| - 1] == front + acl[..j] && next[|next| - 1] == acl[j];
  }

  method CountFixing(acls: seq<seq<FieldPair>>, size: nat, i: nat) returns (zeros: nat, ones: nat)
    requires AllSized(Pairs(acls), size) && i < 8 * size
    ensures zeros == Fixing(Pairs(acls), size, i, false) && ones == Fixing(Pairs(acls), size, i, true)
  {
    zeros, ones := 0, 0;
    for k := 0 to |acls|
      invariant AllSized(Pairs(acls[..k]), size)
      invariant zeros == Fixing(Pairs(acls[..k]), size, i, false) && ones == Fixing(Pairs(acls[..k]), size, i, true)
    {
      SizedFront(acls, size, k);
      zeros, ones := CountAcl(acls[k], size, i, zeros, ones, Pairs(acls[..k]));
    }
    assert acls[..|acls|] == acls;
  }

  // ---------- the table of scores ----------

  /** The positions below `n` with score `s`, in order. */
  ghost function Positions(pairs: seq<FieldPair>, size: nat, n: nat, s: nat): seq<nat>
    requires AllSized(pairs, size) && n <= 8 * size
  {
    if n == 0 then []
    else
      var front := Positions(pairs, size, n - 1, s);
      if Score(pairs, size, n - 1) == s then front + [n - 1] else front
  }

  method GenerateSortTable(acls: seq<seq<FieldPair>>, size: nat) returns (table: array<seq<nat>>)
    requires AllSized(Pairs(acls), size)
    ensures fresh(table) && table.Length == SORT_SIZE
    ensures forall s :: 0 <= s < SORT_SIZE ==> table[s] == Positions(Pairs(acls), size, 8 * size, s)
  {
    hide SortTableIndex, Fixing;
    ghost var pairs := Pairs(acls);
    var base := 0;
    for k := 0 to |acls|
      invariant base == |Pairs(acls[..k])|
    {
      assert acls[..k + 1][..k] == acls[..k];
      base := base + |acls[k]|;
    }
    assert acls[..|acls|] == acls;
    table := new seq<nat>[SORT_SIZE](_ => []);
    for i := 0 to 8 * size
      invariant forall s :: 0 <= s < SORT_SIZE ==> table[s] == Positions(pairs, size, i, s)
    {
      var zeros, ones := CountFixing(acls, size, i);
      FixingBound(pairs, size, i);
      var index := SortTableIndex(zeros, ones, base);
      assert index == Score(pairs, size, i);
      table[index] := table[index] + [i];
    }
  }

  // ---------- choosing ----------

  /** All slots below `s`, one after the other. */
  ghost function Ranked(pairs: seq<FieldPair>, size: nat, s: nat): seq<nat>
    requires AllSized(pairs, size)
  {
    if s == 0 then [] else Ranked(pairs, size, s - 1) + Positions(pairs, size, 8 * size, s - 1)
  }

  lemma {:induction false} PositionsMember(pairs: seq<FieldPair>, size: nat, n: nat, s: nat)
    requires AllSized(pairs, size) && n <= 8 * size
    ensures var p := Positions(pairs, size, n, s);
            && (forall x: nat :: x in p <==> x < n && Score(pairs, size, x) == s)
            && forall i, j :: 0 <= i < j < |p| ==> p[i] < p[j]
  {
    hide Score;
    if n > 0 {
      PositionsMember(pairs, size, n - 1, s);
      var front := Positions(pairs, size, n - 1, s);
      assert forall i :: 0 <= i < |front| ==> front[i] in front;
    }
  }

  /** In the ranking every position stands once, best first. */
  lemma {:induction false} RankedOrder(pairs: seq<FieldPair>, size: nat, s: nat)
    requires AllSized(pairs, size)
    ensures var r := Ranked(pairs, size, s);
            && (forall x: nat :: x in r <==> x < 8 * size && Score(pairs, size, x) < s)
            && (forall i :: 0 <= i < |r| ==> r[i] < 8 * size)
            && forall i, j :: 0 <= i < j < |r| ==> Before(pairs, size, r[i], r[j])
  {
    hide Score;
    if s > 0 {
      RankedOrder(pairs, size, s - 1);
      PositionsMember(pairs, size, 8 * size, s - 1);
      var front, slot := Ranked(pairs, size, s - 1), Positions(pairs, size, 8 * size, s - 1);
      var r := front + slot;
      forall i, j | 0 <= i < j < |r| ensures r[i] < 8 * size && r[j] < 8 * size && Before(pairs, size, r[i], r[j]) {
        assert i < |front| ==> r[i] in front;
        assert i >= |front| ==> r[i] == slot[i - |front|] && r[i] in slot;
        assert j < |front| ==> r[j] in front;
        assert j >= |front| ==> r[j] == slot[j - |front|] && r[j] in slot;
      }
      forall i | 0 <= i < |r| ensures r[i] < 8 * size { assert r[i] in front || r[i] in slot; }
    }
  }

  lemma {:induction false} AtLeast(s: seq<nat>, n: nat)
    requires forall x :: 0 <= x < n ==> x in s
    ensures n <= |s|
    decreases n
  {
    if n > 0 {
      assert n - 1 in s;
      var i :| 0 <= i < |s| && s[i] == n - 1;
      var rest := s[..i] + s[i + 1..];
      forall x | 0 <= x < n - 1 ensures x in rest {
        assert x in s;
        var j :| 0 <= j < |s| && s[j] == x;
        assert rest[if j < i then j else j - 1] == x;
      }
      AtLeast(rest, n - 1);
    }
  }

  lemma {:induction false} AtMost(s: seq<nat>, n: nat)
    requires forall i :: 0 <= i < |s| ==> s[i] < n
    requires forall i, j :: 0 <= i < j < |s| ==> s[i] != s[j]
    ensures |s| <= n
    decreases n
  {
    assert |s| > 0 ==> s[0] < n;
    if n > 0 && n - 1 in s {
      var i :| 0 <= i < |s| && s[i] == n - 1;
      AtMost(s[..i] + s[i + 1..], n - 1);
    } else if n > 0 {
      AtMost(s, n - 1);
    }
  }

  /** The ranking of all positions has one place for each of them. */
  lemma RankedLength(pairs: seq<FieldPair>, size: nat)
    requires AllSized(pairs, size)
    ensures |Ranked(pairs, size, SORT_SIZE)| == 8 * size
  {
    RankedOrder(pairs, size, SORT_SIZE);
    AtLeast(Ranked(pairs, size, SORT_SIZE), 8 * size);
    AtMost(Ranked(pairs, size, SORT_SIZE), 8 * size);
  }

  lemma {:induction false} RankedPrefix(pairs: seq<FieldPair>, size: nat, s: nat, t: nat)
    requires AllSized(pairs, size) && s <= t
    ensures Ranked(pairs, size, s) <= Ranked(pairs, size, t)
    decreases t
  {
    if s < t { RankedPrefix(pairs, size, s, t - 1); }
  }

  /** Nothing outside the chosen positions ranks before one of them. */
  ghost predicate Best(pairs: seq<FieldPair>, size: nat, bits: seq<nat>)
    requires AllSized(pairs, size)
  {
    && InRange(bits, size)
    && forall c: nat, u: nat :: c in bits && u < 8 * size && u !in bits ==> c < 8 * size && Before(pairs, size, c, u)
  }

  lemma PrefixBest(pairs: seq<FieldPair>, size: nat, m: nat)
    requires AllSized(pairs, size) && m <= 8 * size
    ensures var r := Ranked(pairs, size, SORT_SIZE);
            && m <= |r| && Best(pairs, size, r[..m])
            && forall i, j :: 0 <= i < j < m ==> r[i] != r[j]
  {
    hide Score;
    RankedLength(pairs, size);
    RankedOrder(pairs, size, SORT_SIZE);
    var r := Ranked(pairs, size, SORT_SIZE);
    forall k | 0 <= k < m ensures r[k] in r[..m] { assert r[..m][k] == r[k]; }
    forall c: nat, u: nat | c in r[..m] && u < 8 * size && u !in r[..m]
      ensures c < 8 * size && Before(pairs, size, c, u)
    {
      var i :| 0 <= i < m && r[i] == c;
      assert u in r;
      var j :| 0 <= j < |r| && r[j] == u;
      assert j >= m;
    }
    forall i, j | 0 <= i < j < m ensures r[i] != r[j] { assert Before(pairs, size, r[i], r[j]); }
  }

  /** The selection loop of `init`, for at least one position. */
  method Select(table: array<seq<nat>>, count: nat, ghost pairs: seq<FieldPair>, ghost size: nat)
    returns (bits: seq<nat>)
    requires count >= 1 && table.Length == SORT_SIZE && AllSized(pairs, size)
    requires forall s :: 0 <= s < SORT_SIZE ==> table[s] == Positions(pairs, size, 8 * size, s)
    ensures var r := Ranked(pairs, size, SORT_SIZE); bits == if count <= |r| then r[..count] else r
  {
    bits := [];
    for i := 0 to SORT_SIZE
      invariant bits == Ranked(pairs, size, i) && |bits| < count
    {
      RankedPrefix(pairs, size, i + 1, SORT_SIZE);
      ghost var front := bits;
      for j := 0 to |table[i]|
        invariant bits == front + table[i][..j] && |bits| < count
      {
        bits := bits + [table[i][j]];
        assert bits == front + table[i][..j + 1] <= Ranked(pairs, size, i + 1);
        if |bits| >= count {
          return;
        }
      }
      assert table[i][..|table[i]|] == table[i];
    }
  }

  // ---------- sorting the chosen positions ----------

  function Insert(x: nat, s: seq<nat>): seq<nat> {
    if s == [] || x <= s[0] then [x] + s else [s[0]] + Insert(x, s[1..])
  }

  function Sort(s: seq<nat>): seq<nat> {
    if s == [] then [] else Insert(s[0], Sort(s[1..]))
  }

  ghost predicate Sorted(s: seq<nat>) {
    forall i, j :: 0 <= i < j < |s| ==> s[i] <= s[j]
  }

  lemma {:induction false} InsertKeeps(x: nat, s: seq<nat>)
    ensures multiset(Insert(x, s)) == multiset(s) + multiset{x}
  {
    if !(s == [] || x <= s[0]) {
      InsertKeeps(x, s[1..]);
      assert s == [s[0]] + s[1..];
    }
  }

  lemma {:induction false} InsertSorted(x: nat, s: seq<nat>)
    requires Sorted(s)
    ensures Sorted(Insert(x, s))
  {
    if !(s == [] || x <= s[0]) {
      var tail := s[1..];
      var rest := Insert(x, tail);
      InsertSorted(x, tail);
      InsertKeeps(x, tail);
      forall i | 0 <= i < |rest| ensures s[0] <= rest[i] {
        assert rest[i] in multiset(rest);
        assert rest[i] == x || rest[i] in tail;
      }
    }
  }

  lemma {:induction false} SortSorted(s: seq<nat>)
    ensures Sorted(Sort(s)) && multiset(Sort(s)) == multiset(s)
  {
    if s != [] {
      SortSorted(s[1..]);
      InsertSorted(s[0], Sort(s[1..]));
      InsertKeeps(s[0], Sort(s[1..]));
      assert s == [s[0]] + s[1..];
    }
  }

  /** Distinct positions come out strictly ascending. */
  lemma SortAscending(s: seq<nat>)
    requires forall i, j :: 0 <= i < j < |s| ==> s[i] != s[j]
    ensures Ascending(Sort(s)) && |Sort(s)| == |s| && forall x :: x in Sort(s) <==> x in s
  {
    var t := Sort(s);
    SortSorted(s);
    assert |multiset(t)| == |t| && |multiset(s)| == |s|;
    forall x ensures x in t <==> x in s { assert x in multiset(t) <==> x in multiset(s); }
    forall i, j | 0 <= i < j < |t| ensures t[i] < t[j] {
      if t[i] == t[j] {
        Twice(t, i, j);
        Once(s, t[i]);
      }
    }
  }

  lemma Twice(s: seq<nat>, i: nat, j: nat)
    requires i < j < |s| && s[i] == s[j]
    ensures multiset(s)[s[i]] >= 2
  {
    assert s == s[..j] + s[j..] && s[j..] == [s[j]] + s[j + 1..];
    assert s[i] == s[..j][i];
    assert s[i] in multiset(s[..j]);
  }

  lemma {:induction false} Once(s: seq<nat>, x: nat)
    requires forall i, j :: 0 <= i < j < |s| ==> s[i] != s[j]
    ensures multiset(s)[x] <= 1
  {
    if s != [] {
      assert s == [s[0]] + s[1..];
      Once(s[1..], x);
      if s[0] == x { assert forall i :: 0 <= i < |s[1..]| ==> s[1..][i] != x; }
    }
  }

  // ---------- the choice ----------

  /** `init` up to the mask. It chooses `count` positions, ascending, and none that was left
      out ranks before one of them. The index that follows the loop panics exactly when
      there is no such choice. */
  method ChooseBits(acls: seq<seq<FieldPair>>, size: nat, count: nat) returns (r: Option<seq<nat>>)
    requires AllSized(Pairs(acls), size)
    ensures r.None? <==> count == 0 || count > 8 * size
    ensures r.Some? ==> |r.value| == count && Ascending(r.value) && Best(Pairs(acls), size, r.value)
    ensures r.Some? && count <= 16 ==> Choice(r.value, size)
  {
    hide Positions, Ranked, Before;
    RankedLength(Pairs(acls), size);
    var table := GenerateSortTable(acls, size);
    if count == 0 {
      return None;
    }
    var bits := Select(table, count, Pairs(acls), size);
    if |bits| < count {
      return None;
    }
    PrefixBest(Pairs(acls), size, count);
    SortAscending(bits);
    SameBest(Pairs(acls), size, bits, Sort(bits));
    r := Some(Sort(bits));
  }

  lemma BestWithin(pairs: seq<FieldPair>, size: nat, a: seq<nat>, b: seq<nat>, x: nat)
    requires AllSized(pairs, size) && Best(pairs, size, a) && Best(pairs, size, b)
    requires |a| == |b| && Ascending(a) && Ascending(b) && x in a
    ensures x in b
  {
    hide Score;
    if x !in b {
      var y := Missing(a, b, x);
      assert false;
    }
  }

  /** There is only one such choice. */
  lemma BestUnique(pairs: seq<FieldPair>, size: nat, a: seq<nat>, b: seq<nat>)
    requires AllSized(pairs, size) && Best(pairs, size, a) && Best(pairs, size, b)
    requires |a| == |b| && Ascending(a) && Ascending(b)
    ensures a == b
  {
    hide Best;
    forall x | x in a ensures x in b { BestWithin(pairs, size, a, b, x); }
    forall x | x in b ensures x in a { BestWithin(pairs, size, b, a, x); }
    AscendingUnique(a, b);
  }

  /** If `a` has something else, then `b` of the same length has too. */
  lemma Missing(a: seq<nat>, b: seq<nat>, x: nat) returns (y: nat)
    requires Ascending(a) && Ascending(b) && |a| == |b| && x in a && x !in b
    ensures y in b && y !in a
  {
    if forall z :: z in b ==> z in a {
      var i :| 0 <= i < |a| && a[i] == x;
      var rest := a[..i] + a[i + 1..];
      forall z | z in b ensures z in rest {
        var k :| 0 <= k < |a| && a[k] == z;
        assert rest[if k < i then k else k - 1] == z;
      }
      AscendingLength(b, rest);
      assert false;
    }
    y :| y in b && y !in a;
  }

  lemma SameBest(pairs: seq<FieldPair>, size: nat, a: seq<nat>, b: seq<nat>)
    requires AllSized(pairs, size) && Best(pairs, size, a) && forall x :: x in a <==> x in b
    ensures Best(pairs, size, b)
  {
    forall i | 0 <= i < |b| ensures b[i] < 8 * size {
      assert b[i] in b && b[i] in a;
    }
  }

  /** `init`: the mask and the bounds that go with the choice. */
  method Init(mask: MatchedFieldN, acls: seq<seq<FieldPair>>, count: nat)
    returns (minBit: nat, maxBit: nat, bits: seq<nat>)
    requires mask.Valid() && AllSized(Pairs(acls), 2 * mask.n + OTHER_SIZE)
    requires 1 <= count <= 16 && count <= 8 * (2 * mask.n + OTHER_SIZE)
    modifies mask.srcIp, mask.dstIp, mask.others
    ensures |bits| == count && Choice(bits, 2 * mask.n + OTHER_SIZE) && Best(Pairs(acls), 2 * mask.n + OTHER_SIZE, bits)
    ensures mask.Valid() && Vector(mask.Value(), minBit, maxBit, bits) == VectorOf(bits, 2 * mask.n + OTHER_SIZE)
  {
    var r := ChooseBits(acls, 2 * mask.n + OTHER_SIZE, count);
    bits := r.value;
    minBit, maxBit := bits[0], bits[count - 1];
    mask.SetBits(bits);
  }
}
