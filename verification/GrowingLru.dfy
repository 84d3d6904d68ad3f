/** `Lru` of src/utils/lru.rs: a cache that starts small and doubles its capacity when
    it fills up. */
module GrowingLru {
  import opened Words
  import opened LruCaches

  // ---------- powers of two ----------

  ghost predicate IsPow2(x: nat)
    decreases x
  {
    x == 1 || (x > 1 && x % 2 == 0 && IsPow2(x / 2))
  }

  /** The smallest power of two that is not below `x`. */
  function NextPowerOfTwo(x: nat): (p: nat)
    ensures IsPow2(p) && x <= p && (x > 1 ==> p < 2 * x)
    decreases x
  {
    if x <= 1 then 1 else 2 * NextPowerOfTwo((x + 1) / 2)
  }

  lemma {:induction false} DoubleFits(a: nat, b: nat)
    requires IsPow2(a) && IsPow2(b) && a < b
    ensures IsPow2(2 * a) && 2 * a <= b
    decreases b
  {
    if a > 1 { DoubleFits(a / 2, b / 2); }
  }

  // ---------- the specification: operations on both caches ----------

  datatype Op<K, V> = PutOp(key: K, value: V) | GetOp(key: K) | WriteOp(key: K, value: V) | ClearOp

  /** What an operation returns: the old value of a put, the value found by a get. */
  function Answer<K(==), V>(c: LruCache<K, V>, op: Op<K, V>): Option<V> {
    match op
    case PutOp(k, _) => c.Peek(k)
    case GetOp(k) => c.Peek(k)
    case WriteOp(k, _) => c.Peek(k)
    case ClearOp => None
  }

  /** A plain cache of fixed capacity. */
  function FixedStep<K(==), V>(c: LruCache<K, V>, op: Op<K, V>): LruCache<K, V> {
    match op
    case PutOp(k, v) => c.Put(k, v)
    case GetOp(k) => c.Touch(k)
    case WriteOp(k, v) => c.Write(k, v)
    case ClearOp => c.Clear()
  }

  datatype State<!K(==), V> = State(cache: LruCache<K, V>, initCap: nat, maxCap: nat, cap: nat) {
    ghost predicate Valid() {
      && cache.Valid() && cache.cap == cap
      && IsPow2(initCap) && IsPow2(maxCap) && IsPow2(cap) && initCap <= cap <= maxCap
      && (|cache.entries| < cap || cap == maxCap)
    }

    /** The fixed cache that this one stands for. */
    function Fixed(): LruCache<K, V> { LruCache(maxCap, cache.entries) }
  }

  function GrowStep<K(==), V>(s: State<K, V>, op: Op<K, V>): State<K, V> {
    match op
    case PutOp(k, v) =>
      var c := s.cache.Put(k, v);
      if s.cache.Peek(k).None? && |c.entries| >= s.cap && s.cap < s.maxCap then
        s.(cache := c.Resize(2 * s.cap), cap := 2 * s.cap)
      else s.(cache := c)
    case GetOp(k) => s.(cache := s.cache.Touch(k))
    case WriteOp(k, v) => s.(cache := s.cache.Write(k, v))
    case ClearOp => s.(cache := s.cache.Resize(s.initCap).Clear(), cap := s.initCap)
  }

  /** The capacity doubles exactly when a new key fills the cache below its limit, and falls
      back when the cache is cleared. */
  lemma CapAfter<K, V>(s: State<K, V>, op: Op<K, V>)
    requires s.Valid()
    ensures GrowStep(s, op).cap ==
            match op {
              case PutOp(k, _) =>
                if !s.cache.Has(k) && |s.cache.entries| + 1 == s.cap && s.cap < s.maxCap then 2 * s.cap else s.cap
              case GetOp(_) => s.cap
              case WriteOp(_, _) => s.cap
              case ClearOp => s.initCap
            }
  {
    if op.PutOp? { PutEffect(s.cache, op.key, op.value); }
  }

  // ---------- the source's object ----------

  class Lru<K(==), V> {
    var cache: LruCache<K, V>
    const initCap: nat
    const maxCap: nat
    var cap: nat

    function View(): State<K, V>
      reads this
    {
      State(cache, initCap, maxCap, cap)
    }

    constructor (init: nat, max: nat)
      ensures View().Valid() && cache.entries == [] && cap == initCap
      ensures initCap == NextPowerOfTwo(init)
      ensures maxCap == if NextPowerOfTwo(max) < initCap then initCap else NextPowerOfTwo(max)
    {
      var i := NextPowerOfTwo(init);
      var m := NextPowerOfTwo(max);
      initCap := i;
      maxCap := if m < i then i else m;
      cap := i;
      cache := LruCache(i, []);
    }

    method Put(k: K, v: V) returns (r: Option<V>)
      requires View().Valid()
      modifies this
      ensures View() == GrowStep(old(View()), PutOp(k, v)) && r == Answer(old(cache), PutOp(k, v))
    {
      r := cache.Peek(k);
      cache := cache.Put(k, v);
      if r.None? && |cache.entries| >= cap && cap < maxCap {
        cap := 2 * cap;
        cache := cache.Resize(cap);
      }
    }

    method GetMut(k: K) returns (r: Option<V>)
      requires View().Valid()
      modifies this
      ensures View() == GrowStep(old(View()), GetOp(k)) && r == Answer(old(cache), GetOp(k))
    {
      r := cache.Peek(k);
      cache := cache.Touch(k);
    }

    method Clear()
      requires View().Valid()
      modifies this
      ensures View() == GrowStep(old(View()), ClearOp)
    {
      cache := cache.Resize(initCap);
      cap := initCap;
      cache := cache.Clear();
    }

    method IsFull() returns (full: bool)
      requires View().Valid()
      ensures full <==> |View().Fixed().entries| == maxCap
    {
      full := |cache.entries| >= maxCap;
    }
  }

  // ---------- refinement ----------

  lemma StepRefines<K, V>(s: State<K, V>, op: Op<K, V>)
    requires s.Valid()
    ensures GrowStep(s, op).Valid()
    ensures GrowStep(s, op).Fixed() == FixedStep(s.Fixed(), op)
    ensures Answer(s.cache, op) == Answer(s.Fixed(), op)
  {
    match op
    case PutOp(k, v) =>
      PutEffect(s.cache, k, v);
      if s.cap < s.maxCap { DoubleFits(s.cap, s.maxCap); }
    case GetOp(k) =>
      TouchEffect(s.cache, k);
    case WriteOp(k, v) =>
      if s.cache.Has(k) { WriteEffect(s.cache, k, v); }
    case ClearOp =>
  }

  function GrowRun<K(==), V>(s: State<K, V>, ops: seq<Op<K, V>>): State<K, V> {
    if ops == [] then s else GrowStep(GrowRun(s, ops[..|ops| - 1]), ops[|ops| - 1])
  }

  function FixedRun<K(==), V>(c: LruCache<K, V>, ops: seq<Op<K, V>>): LruCache<K, V> {
    if ops == [] then c else FixedStep(FixedRun(c, ops[..|ops| - 1]), ops[|ops| - 1])
  }

  /** Over every run the growing cache holds what a cache of capacity `max_cap` holds, in
      the same order, and its next answer is the same. */
  lemma {:induction false} RunRefines<K, V>(s: State<K, V>, ops: seq<Op<K, V>>, next: Op<K, V>)
    requires s.Valid()
    ensures GrowRun(s, ops).Valid() && GrowRun(s, ops).maxCap == s.maxCap
    ensures GrowRun(s, ops).Fixed() == FixedRun(s.Fixed(), ops)
    ensures Answer(GrowRun(s, ops).cache, next) == Answer(FixedRun(s.Fixed(), ops), next)
  {
    hide GrowStep, FixedStep, Answer;
    if ops != [] {
      var n := |ops| - 1;
      RunRefines(s, ops[..n], ops[n]);
      StepRefines(GrowRun(s, ops[..n]), ops[n]);
      StepKeepsMax(GrowRun(s, ops[..n]), ops[n]);
    }
    StepRefines(GrowRun(s, ops), next);
  }

  lemma StepKeepsMax<K, V>(s: State<K, V>, op: Op<K, V>)
    ensures GrowStep(s, op).maxCap == s.maxCap
  {
  }

  /** Nothing is evicted before `max_cap` entries: a put into a cache that is not full
      leaves every other entry readable. */
  lemma NoEarlyEviction<K, V>(s: State<K, V>, k: K, v: V, q: K)
    requires s.Valid() && q != k && |s.cache.entries| < s.maxCap
    ensures GrowStep(s, PutOp(k, v)).cache.Peek(q) == s.cache.Peek(q)
  {
    StepRefines(s, PutOp(k, v));
    PutEffect(s.cache, k, v);
  }
}
