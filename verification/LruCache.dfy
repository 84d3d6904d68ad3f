/** The `lru` crate's `LruCache`, by its documented behaviour: a bounded map whose
    entries are ordered by last use. It is foreign code and therefore a plain value here. */
module LruCaches {
  import opened Words

  /** Entries from the most to the least recently used. */
  datatype LruCache<!K(==), V> = LruCache(cap: nat, entries: seq<(K, V)>) {

    predicate Has(k: K) { Peek(k).Some? }

    /** `peek`: the value without a change of order. */
    function Peek(k: K): Option<V> { Find(entries, k) }

    /** `get` and `get_mut` move the entry to the front. */
    function Touch(k: K): LruCache<K, V> {
      match Find(entries, k)
      case None => this
      case Some(v) => LruCache(cap, [(k, v)] + Without(entries, k))
    }

    /** Writing through the reference that `get_mut` returns. */
    function Write(k: K, v: V): LruCache<K, V> {
      if Has(k) then LruCache(cap, [(k, v)] + Without(entries, k)) else this
    }

    /** `put`: a new key displaces the least recently used entry of a full cache. */
    function Put(k: K, v: V): LruCache<K, V> {
      if Has(k) || |entries| < cap then LruCache(cap, [(k, v)] + Without(entries, k))
      else if entries == [] then this
      else LruCache(cap, [(k, v)] + entries[..|entries| - 1])
    }

    /** What `push` returns: the old value of the key, or the displaced entry. */
    function Displaced(k: K): Option<(K, V)> {
      match Find(entries, k)
      case Some(v) => Some((k, v))
      case None => if |entries| < cap || entries == [] then None else Some(entries[|entries| - 1])
    }

    /** `pop`. */
    function Pop(k: K): LruCache<K, V> { LruCache(cap, Without(entries, k)) }

    /** `get_or_insert_mut`. */
    function GetOrInsert(k: K, v: V): LruCache<K, V> {
      if Has(k) then Touch(k) else Put(k, v)
    }

    /** `resize`: the least recently used entries go first. */
    function Resize(newCap: nat): LruCache<K, V> {
      LruCache(newCap, if |entries| <= newCap then entries else entries[..newCap])
    }

    function Clear(): LruCache<K, V> { LruCache(cap, []) }

    ghost predicate Valid() { 1 <= cap && |entries| <= cap && Unique(entries) }
  }

  function Find<K(==), V>(es: seq<(K, V)>, k: K): Option<V> {
    if es == [] then None
    else if es[0].0 == k then Some(es[0].1)
    else Find(es[1..], k)
  }

  function Without<K(==), V>(es: seq<(K, V)>, k: K): seq<(K, V)> {
    if es == [] then []
    else if es[0].0 == k then es[1..]
    else [es[0]] + Without(es[1..], k)
  }

  ghost predicate Unique<K, V>(es: seq<(K, V)>) {
    forall i, j :: 0 <= i < j < |es| ==> es[i].0 != es[j].0
  }

  // ---------- entries ----------

  lemma {:induction false} FindMember<K, V>(es: seq<(K, V)>, k: K)
    ensures Find(es, k).Some? <==> exists i :: 0 <= i < |es| && es[i].0 == k
    ensures Find(es, k).Some? ==> (k, Find(es, k).value) in es
    ensures Unique(es) ==> forall v :: (k, v) in es ==> Find(es, k) == Some(v)
  {
    if es != [] {
      FindMember(es[1..], k);
      assert es == [es[0]] + es[1..];
      if Find(es, k).Some? {
        if es[0].0 != k {
          var i :| 0 <= i < |es[1..]| && es[1..][i].0 == k;
          assert es[i + 1].0 == k;
        }
      }
      if Unique(es) {
        assert forall i :: 0 <= i < |es[1..]| ==> es[1..][i] == es[i + 1];
        assert Unique(es[1..]);
        forall v | (k, v) in es ensures Find(es, k) == Some(v) {
          var i :| 0 <= i < |es| && es[i] == (k, v);
          if es[0].0 == k {
          } else {
            assert es[1..][i - 1] == (k, v);
          }
        }
      }
      if exists i :: 0 <= i < |es| && es[i].0 == k {
        var i :| 0 <= i < |es| && es[i].0 == k;
        if i > 0 { assert es[1..][i - 1].0 == k; }
      }
    }
  }

  lemma {:induction false} WithoutFind<K, V>(es: seq<(K, V)>, k: K, q: K)
    requires Unique(es)
    ensures Find(Without(es, k), q) == if q == k then None else Find(es, q)
    ensures |Without(es, k)| == |es| - (if Find(es, k).Some? then 1 else 0)
    ensures Unique(Without(es, k))
    ensures forall x :: x in Without(es, k) ==> x in es && x.0 != k
  {
    if es != [] {
      var tail := es[1..];
      assert es == [es[0]] + tail;
      assert forall i :: 0 <= i < |tail| ==> tail[i] == es[i + 1];
      assert Unique(tail);
      WithoutFind(tail, k, q);
      if es[0].0 == k {
        FindMember(tail, k);
      } else {
        var w := Without(tail, k);
        forall i | 0 <= i < |w| ensures w[i].0 != es[0].0 {
          assert w[i] in w && w[i] in tail;
          var j :| 0 <= j < |tail| && tail[j] == w[i];
          assert es[j + 1].0 != es[0].0;
        }
      }
    }
  }

  lemma ConsUnique<K, V>(k: K, v: V, es: seq<(K, V)>)
    requires Unique(es) && Find(es, k).None?
    ensures Unique([(k, v)] + es)
    ensures forall q :: Find([(k, v)] + es, q) == if q == k then Some(v) else Find(es, q)
  {
    FindMember(es, k);
    var all := [(k, v)] + es;
    assert all[1..] == es;
    assert forall i :: 0 < i < |all| ==> all[i] == es[i - 1];
  }

  lemma {:induction false} FrontFind<K, V>(es: seq<(K, V)>, q: K)
    requires Unique(es) && es != []
    ensures var front, last := es[..|es| - 1], es[|es| - 1];
            Unique(front) && Find(front, q) == if q == last.0 then None else Find(es, q)
  {
    var n := |es| - 1;
    var front, last := es[..n], es[n];
    if n > 0 {
      assert forall i :: 0 <= i < |es[1..]| ==> es[1..][i] == es[i + 1];
      FrontFind(es[1..], q);
      assert es[1..][..n - 1] == front[1..];
    }
  }

  // ---------- operations, by what they leave readable ----------

  /** The entry that a put of `k` pushes out, if any. */
  ghost predicate Evicts<K, V>(c: LruCache<K, V>, k: K, q: K) {
    !c.Has(k) && |c.entries| == c.cap && |c.entries| > 0 && c.entries[|c.entries| - 1].0 == q
  }

  lemma PutEffect<K, V>(c: LruCache<K, V>, k: K, v: V)
    requires c.Valid()
    ensures var c' := c.Put(k, v);
            && c'.Valid() && c'.cap == c.cap
            && forall q :: c'.Peek(q) == if q == k then Some(v) else if Evicts(c, k, q) then None else c.Peek(q)
    ensures |c.Put(k, v).entries| == if c.Has(k) || |c.entries| == c.cap then |c.entries| else |c.entries| + 1
  {
    if c.Has(k) || |c.entries| < c.cap {
      forall q ensures Find(Without(c.entries, k), q) == if q == k then None else Find(c.entries, q) {
        WithoutFind(c.entries, k, q);
      }
      WithoutFind(c.entries, k, k);
      ConsUnique(k, v, Without(c.entries, k));
    } else {
      var front := c.entries[..|c.entries| - 1];
      forall q ensures Find(front, q) == if q == c.entries[|c.entries| - 1].0 then None else Find(c.entries, q) {
        FrontFind(c.entries, q);
      }
      FrontFind(c.entries, k);
      ConsUnique(k, v, front);
    }
  }

  /** Replacing the value of a present key, or moving it to the front, keeps all else. */
  lemma WriteEffect<K, V>(c: LruCache<K, V>, k: K, v: V)
    requires c.Valid() && c.Has(k)
    ensures var c' := c.Write(k, v);
            && c'.Valid() && c'.cap == c.cap && |c'.entries| == |c.entries|
            && forall q :: c'.Peek(q) == if q == k then Some(v) else c.Peek(q)
  {
    PutEffect(c, k, v);
  }

  lemma TouchEffect<K, V>(c: LruCache<K, V>, k: K)
    requires c.Valid()
    ensures var c' := c.Touch(k);
            && c'.Valid() && c'.cap == c.cap && |c'.entries| == |c.entries|
            && forall q :: c'.Peek(q) == c.Peek(q)
  {
    if c.Has(k) { WriteEffect(c, k, c.Peek(k).value); }
  }

  lemma PopEffect<K, V>(c: LruCache<K, V>, k: K)
    requires c.Valid()
    ensures var c' := c.Pop(k);
            && c'.Valid() && c'.cap == c.cap
            && forall q :: c'.Peek(q) == if q == k then None else c.Peek(q)
    ensures |c.Pop(k).entries| == |c.entries| - (if c.Has(k) then 1 else 0)
  {
    forall q ensures Find(Without(c.entries, k), q) == if q == k then None else Find(c.entries, q) {
      WithoutFind(c.entries, k, q);
    }
    WithoutFind(c.entries, k, k);
  }

  // ---------- operations, by the order they leave ----------

  lemma {:induction false} WithoutAt<K, V>(es: seq<(K, V)>, k: K) returns (i: nat)
    requires Find(es, k).Some?
    ensures i < |es| && es[i] == (k, Find(es, k).value) && Without(es, k) == es[..i] + es[i + 1..]
  {
    if es[0].0 == k {
      i := 0;
    } else {
      var j := WithoutAt(es[1..], k);
      i := j + 1;
    }
  }

  /** Using a present key moves it to the front; all other entries keep their order. */
  lemma UseOrder<K, V>(c: LruCache<K, V>, k: K, v: V) returns (i: nat)
    requires c.Has(k)
    ensures i < |c.entries| && c.entries[i] == (k, c.Peek(k).value)
    ensures var others := c.entries[..i] + c.entries[i + 1..];
            && c.Touch(k).entries == c.GetOrInsert(k, v).entries == [c.entries[i]] + others
            && c.Put(k, v).entries == c.Write(k, v).entries == [(k, v)] + others
            && c.Pop(k).entries == others && c.Displaced(k) == Some(c.entries[i])
  {
    i := WithoutAt(c.entries, k);
  }

  /** A new key goes to the front; a full cache gives up its last entry. */
  lemma InsertOrder<K, V>(c: LruCache<K, V>, k: K, v: V)
    requires c.Valid() && !c.Has(k)
    ensures c.Put(k, v) == c.GetOrInsert(k, v)
    ensures |c.entries| < c.cap ==> c.Put(k, v).entries == [(k, v)] + c.entries && c.Displaced(k) == None
    ensures |c.entries| == c.cap ==>
              c.Put(k, v).entries == [(k, v)] + c.entries[..c.cap - 1] && c.Displaced(k) == Some(c.entries[c.cap - 1])
    ensures c.Touch(k) == c == c.Write(k, v) && c.Pop(k) == c
  {
    WithoutNothing(c.entries, k);
  }

  lemma {:induction false} WithoutNothing<K, V>(es: seq<(K, V)>, k: K)
    requires Find(es, k).None?
    ensures Without(es, k) == es
  {
    if es != [] { WithoutNothing(es[1..], k); }
  }

  // ---------- counting entries ----------

  ghost function CountIf<K, V>(es: seq<(K, V)>, p: (K, V) -> bool): nat {
    if es == [] then 0 else (if p(es[0].0, es[0].1) then 1 else 0) + CountIf(es[1..], p)
  }

  /** One, if the entry of `k` is counted. */
  ghost function CountAt<K, V>(c: LruCache<K, V>, k: K, p: (K, V) -> bool): nat {
    if c.Has(k) && p(k, c.Peek(k).value) then 1 else 0
  }

  lemma CountCons<K, V>(k: K, v: V, es: seq<(K, V)>, p: (K, V) -> bool)
    ensures CountIf([(k, v)] + es, p) == (if p(k, v) then 1 else 0) + CountIf(es, p)
  {
    assert ([(k, v)] + es)[1..] == es;
  }

  lemma {:induction false} CountWithout<K, V>(es: seq<(K, V)>, k: K, p: (K, V) -> bool)
    ensures CountIf(es, p) == CountIf(Without(es, k), p) +
                              (if Find(es, k).Some? && p(k, Find(es, k).value) then 1 else 0)
  {
    if es != [] {
      CountWithout(es[1..], k, p);
      CountCons(es[0].0, es[0].1, Without(es[1..], k), p);
    }
  }

  lemma {:induction false} CountFront<K, V>(es: seq<(K, V)>, p: (K, V) -> bool)
    requires es != []
    ensures var n := |es| - 1; CountIf(es, p) == CountIf(es[..n], p) + (if p(es[n].0, es[n].1) then 1 else 0)
  {
    if |es| > 1 {
      CountFront(es[1..], p);
      assert es[1..][..|es| - 2] == es[..|es| - 1][1..];
    }
  }

  /** Entries with distinct keys, all of them among the keys of `ks`, are no more than `ks`. */
  lemma {:induction false} CountWithin<K, V, W>(es: seq<(K, V)>, ks: seq<(K, W)>, p: (K, V) -> bool)
    requires Unique(es)
    requires forall q :: Find(es, q).Some? && p(q, Find(es, q).value) ==> Find(ks, q).Some?
    ensures CountIf(es, p) <= |ks|
    decreases |ks|
  {
    if ks == [] {
      CountNone(es, p);
    } else {
      var k := ks[0].0;
      CountWithout(es, k, p);
      forall q ensures Find(Without(es, k), q) == if q == k then None else Find(es, q) {
        WithoutFind(es, k, q);
      }
      WithoutFind(es, k, k);
      CountWithin(Without(es, k), ks[1..], p);
    }
  }

  lemma {:induction false} CountNone<K, V>(es: seq<(K, V)>, p: (K, V) -> bool)
    requires Unique(es)
    requires forall q :: Find(es, q).Some? ==> !p(q, Find(es, q).value)
    ensures CountIf(es, p) == 0
  {
    if es != [] {
      var k := es[0].0;
      assert Find(es, k) == Some(es[0].1);
      forall q ensures Find(Without(es, k), q) == if q == k then None else Find(es, q) {
        WithoutFind(es, k, q);
      }
      WithoutFind(es, k, k);
      CountNone(es[1..], p);
    }
  }

  lemma TouchCount<K, V>(c: LruCache<K, V>, k: K, p: (K, V) -> bool)
    ensures CountIf(c.Touch(k).entries, p) == CountIf(c.entries, p)
  {
    CountWithout(c.entries, k, p);
    if c.Has(k) { CountCons(k, c.Peek(k).value, Without(c.entries, k), p); }
  }

  lemma PopCount<K, V>(c: LruCache<K, V>, k: K, p: (K, V) -> bool)
    ensures CountIf(c.entries, p) == CountIf(c.Pop(k).entries, p) + CountAt(c, k, p)
  {
    CountWithout(c.entries, k, p);
  }

  lemma PutCount<K, V>(c: LruCache<K, V>, k: K, v: V, p: (K, V) -> bool)
    requires c.Valid()
    ensures var evicted := if !c.Has(k) && |c.entries| == c.cap then CountAt(c, c.entries[|c.entries| - 1].0, p) else 0;
            CountIf(c.Put(k, v).entries, p) + CountAt(c, k, p) + evicted ==
            CountIf(c.entries, p) + (if p(k, v) then 1 else 0)
  {
    if c.Has(k) || |c.entries| < c.cap {
      CountWithout(c.entries, k, p);
      CountCons(k, v, Without(c.entries, k), p);
    } else {
      var n := |c.entries| - 1;
      CountFront(c.entries, p);
      CountCons(k, v, c.entries[..n], p);
      FindMember(c.entries, c.entries[n].0);
      assert (c.entries[n].0, c.entries[n].1) in c.entries;
    }
  }

  lemma {:induction false} CountEntries<K, V>(es: seq<(K, V)>, p: (K, V) -> bool, q: (K, V) -> bool)
    requires forall i :: 0 <= i < |es| ==> p(es[i].0, es[i].1) == q(es[i].0, es[i].1)
    ensures CountIf(es, p) == CountIf(es, q)
  {
    if es != [] { CountEntries(es[1..], p, q); }
  }

  /** Conditions that agree on what is there count the same. */
  lemma CountAgrees<K, V>(c: LruCache<K, V>, p: (K, V) -> bool, q: (K, V) -> bool)
    requires c.Valid() && forall k :: c.Has(k) ==> p(k, c.Peek(k).value) == q(k, c.Peek(k).value)
    ensures CountIf(c.entries, p) == CountIf(c.entries, q)
  {
    forall i | 0 <= i < |c.entries| ensures p(c.entries[i].0, c.entries[i].1) == q(c.entries[i].0, c.entries[i].1) {
      FindMember(c.entries, c.entries[i].0);
      assert (c.entries[i].0, c.entries[i].1) in c.entries && c.Has(c.entries[i].0);
    }
    CountEntries(c.entries, p, q);
  }
}
