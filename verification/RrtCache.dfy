/** `RrtCache` of src/common/l7_protocol_log.rs: cached logs under a bounded map, with a
    second bounded map from each flow to the keys of its logs. */
module RrtCaches {
  import opened Words
  import opened LruCaches
  import opened L7Stats

  const LOG_INTERVAL: nat := 60_000_000
  const MAX_PER_FLOW: nat := 16

  type KeySet = LruCache<Key, ()>
  type FlowMap = LruCache<nat, KeySet>

  datatype Rrt = Rrt(logs: LruCache<Key, Log>, flows: FlowMap, cacheLen: nat, lastLogTime: nat) {

    function Put(k: Key, v: Log): Rrt {
      var logs' := Spared(this, k).Put(k, v);
      Rrt(logs', Track(flows, k), |logs'.entries|, LogTime(this, k, v.time))
    }

    function Pop(k: Key): Rrt {
      var logs' := logs.Pop(k);
      this.(logs := logs', flows := Untrack(flows, k), cacheLen := |logs'.entries|)
    }

    function Collect(f: nat): Rrt {
      this.(flows := flows.Pop(f), logs := Drop(logs, KeysOf(flows, f).entries))
    }

    function RemoveFlow(f: nat): Rrt {
      var s := Collect(f);
      s.(cacheLen := |s.logs.entries|)
    }
  }

  const NO_KEYS: KeySet := LruCache(MAX_PER_FLOW, [])

  function KeysOf(flows: FlowMap, f: nat): KeySet {
    match flows.Peek(f)
    case Some(keys) => keys
    case None => NO_KEYS
  }

  // ---------- what the operations compute ----------

  /** The flow map after `k` was pushed into the key set of its flow. */
  function Track(flows: FlowMap, k: Key): FlowMap {
    flows.GetOrInsert(FlowOf(k), NO_KEYS).Write(FlowOf(k), KeysOf(flows, FlowOf(k)).Put(k, ()))
  }

  /** The flow map after `k` was taken out of the key set of its flow. */
  function Untrack(flows: FlowMap, k: Key): FlowMap {
    if !flows.Has(FlowOf(k)) then flows
    else
      var keys := KeysOf(flows, FlowOf(k)).Pop(k);
      if keys.entries == [] then flows.Touch(FlowOf(k)).Pop(FlowOf(k)) else flows.Write(FlowOf(k), keys)
  }

  /** The logs that remain when a flow has pushed out the key of another log. */
  function Spared(s: Rrt, k: Key): LruCache<Key, Log> {
    match KeysOf(s.flows, FlowOf(k)).Displaced(k)
    case Some(gone) => if gone.0 != k then s.logs.Pop(gone.0) else s.logs
    case None => s.logs
  }

  function LogTime(s: Rrt, k: Key, now: nat): nat {
    var last := if |s.logs.entries| >= s.logs.cap && s.lastLogTime + LOG_INTERVAL < now then now else s.lastLogTime;
    match KeysOf(s.flows, FlowOf(k)).Displaced(k)
    case Some(gone) => if gone.0 != k && last + LOG_INTERVAL < now then now else last
    case None => last
  }

  function Drop(logs: LruCache<Key, Log>, keys: seq<(Key, ())>): LruCache<Key, Log>
    decreases |keys|
  {
    if keys == [] then logs else Drop(logs.Pop(keys[0].0), keys[1..])
  }

  /** The logs that `Drop` takes out. */
  function Taken(logs: LruCache<Key, Log>, keys: seq<(Key, ())>): seq<Log>
    decreases |keys|
  {
    if keys == [] then []
    else
      var rest := Taken(logs.Pop(keys[0].0), keys[1..]);
      match logs.Peek(keys[0].0)
      case Some(v) => [v] + rest
      case None => rest
  }

  /** Those of one direction, by the test that `LogCacheKey` offers. */
  function TakenSide(logs: LruCache<Key, Log>, keys: seq<(Key, ())>, reversed: bool): seq<Log>
    decreases |keys|
  {
    if keys == [] then []
    else
      var k := keys[0].0;
      var rest := TakenSide(logs.Pop(k), keys[1..], reversed);
      if logs.Has(k) && IsReversed(k) == reversed then [logs.Peek(k).value] + rest else rest
  }

  function Total(logs: seq<Log>): Stats {
    if logs == [] then NO_STATS else Merge(Total(logs[..|logs| - 1]), StatsOf(logs[|logs| - 1]))
  }

  // ---------- the cache itself ----------

  class RrtCache {
    var logs: LruCache<Key, Log>
    var flows: FlowMap
    var cacheLen: nat
    var lastLogTime: nat

    ghost function View(): Rrt
      reads this
    {
      Rrt(logs, flows, cacheLen, lastLogTime)
    }

    constructor (cap: nat)
      requires 1 <= cap
      ensures View() == Rrt(LruCache(cap, []), LruCache(cap, []), 0, 0)
      ensures Sound(View())
    {
      logs, flows := LruCache(cap, []), LruCache(cap, []);
      cacheLen, lastLogTime := 0, 0;
    }

    method GetMut(k: Key) returns (r: Option<Log>)
      modifies this
      ensures r == old(logs.Peek(k))
      ensures View() == old(View()).(logs := old(logs).Touch(k))
    {
      r := logs.Peek(k);
      logs := logs.Touch(k);
    }

    method Put(k: Key, v: Log) returns (r: Option<Log>)
      requires Sound(View())
      modifies this
      ensures r == old(logs.Peek(k))
      ensures View() == old(View()).Put(k, v)
    {
      ghost var s := View();
      var now, flow := v.time, FlowOf(k);
      if |logs.entries| >= logs.cap && lastLogTime + LOG_INTERVAL < now {
        lastLogTime := now;
      }
      GetOrInsertPeek(flows, flow);
      flows := flows.GetOrInsert(flow, NO_KEYS);
      var keys := flows.Peek(flow).value;
      var displaced := keys.Displaced(k);
      flows := flows.Write(flow, keys.Put(k, ()));
      if displaced.Some? && displaced.value.0 != k {
        logs := logs.Pop(displaced.value.0);
        if lastLogTime + LOG_INTERVAL < now {
          lastLogTime := now;
        }
      }
      SparedKeepsKey(s, k);
      r := logs.Peek(k);
      logs := logs.Put(k, v);
      cacheLen := |logs.entries|;
    }

    method Pop(k: Key) returns (r: Option<Log>)
      requires Sound(View())
      modifies this
      ensures r == old(logs.Peek(k))
      ensures View() == old(View()).Pop(k)
    {
      var flow := FlowOf(k);
      if flows.Has(flow) {
        TouchPop(flows, flow);
        var keys := flows.Peek(flow).value.Pop(k);
        flows := flows.Write(flow, keys);
        if keys.entries == [] {
          flows := flows.Pop(flow);
        }
      }
      r := logs.Peek(k);
      logs := logs.Pop(k);
      cacheLen := |logs.entries|;
    }

    method CollectFlowPerfStats(f: nat) returns (r: Option<(Stats, Stats)>)
      modifies this
      ensures View() == old(View()).Collect(f)
      ensures var total := Total(Taken(old(logs), KeysOf(old(flows), f).entries));
              r == if total == NO_STATS then None else Some((total, NO_STATS))
    {
      hide StatsOf, Merge, IsReversed, Find, Without, LruCache.Pop;
      if !flows.Has(f) {
        NotThere(flows, f);
        return None;
      }
      var keys := flows.Peek(f).value.entries;
      flows := flows.Pop(f);
      var forward := new L7PerfStats.Default();
      var backward := new L7PerfStats.Default();
      var i := 0;
      while i < |keys|
        invariant 0 <= i <= |keys|
        invariant flows == old(flows).Pop(f) && cacheLen == old(cacheLen) && lastLogTime == old(lastLogTime)
        invariant logs == Drop(old(logs), keys[..i])
        invariant fresh(forward) && fresh(backward) && forward != backward
        invariant forward.Value() == Total(TakenSide(old(logs), keys[..i], false))
        invariant backward.Value() == Total(TakenSide(old(logs), keys[..i], true))
      {
        var key := keys[i].0;
        DropSnoc(old(logs), keys[..i], keys[i]);
        TakenSnoc(old(logs), keys[..i], keys[i], false);
        TakenSnoc(old(logs), keys[..i], keys[i], true);
        assert keys[..i + 1] == keys[..i] + [keys[i]];
        if logs.Has(key) {
          var stats := new L7PerfStats.From(logs.Peek(key).value);
          if IsReversed(key) {
            backward.SequentialMerge(stats);
          } else {
            forward.SequentialMerge(stats);
          }
        }
        logs := logs.Pop(key);
        i := i + 1;
      }
      assert keys[..i] == keys;
      TakenSides(old(logs), keys);
      var f', b' := forward.Value(), backward.Value();
      r := if f' == NO_STATS && b' == NO_STATS then None else Some((f', b'));
    }

    method RemoveFlow(f: nat)
      modifies this
      ensures View() == old(View()).RemoveFlow(f)
    {
      if flows.Has(f) {
        var keys := flows.Peek(f).value.entries;
        flows := flows.Pop(f);
        var i := 0;
        while i < |keys|
          invariant 0 <= i <= |keys|
          invariant flows == old(flows).Pop(f) && lastLogTime == old(lastLogTime)
          invariant logs == Drop(old(logs), keys[..i])
        {
          DropSnoc(old(logs), keys[..i], keys[i]);
          assert keys[..i + 1] == keys[..i] + [keys[i]];
          logs := logs.Pop(keys[i].0);
          i := i + 1;
        }
        assert keys[..i] == keys;
      } else {
        NotThere(flows, f);
      }
      cacheLen := |logs.entries|;
    }
  }

  // ---------- small steps ----------

  lemma NotThere<K, V>(c: LruCache<K, V>, k: K)
    requires !c.Has(k)
    ensures c.Pop(k) == c
  {
    WithoutNothing(c.entries, k);
  }

  /** Popping the front entry gives back the rest, whatever was written to it. */
  lemma TouchPop<K, V>(c: LruCache<K, V>, k: K)
    requires c.Has(k)
    ensures forall v :: c.Write(k, v).Pop(k) == c.Touch(k).Pop(k)
  {
    forall v ensures c.Write(k, v).Pop(k).entries == Without(c.entries, k) {
      assert ([(k, v)] + Without(c.entries, k))[1..] == Without(c.entries, k);
    }
  }

  lemma {:induction false} DropSnoc(logs: LruCache<Key, Log>, keys: seq<(Key, ())>, last: (Key, ()))
    ensures Drop(logs, keys + [last]) == Drop(logs, keys).Pop(last.0)
    decreases |keys|
  {
    var all := keys + [last];
    if keys == [] {
      assert all[1..] == [];
    } else {
      assert all[0] == keys[0] && all[1..] == keys[1..] + [last];
      DropSnoc(logs.Pop(keys[0].0), keys[1..], last);
    }
  }

  lemma {:induction false} TakenSideSnoc(logs: LruCache<Key, Log>, keys: seq<(Key, ())>, last: (Key, ()),
                                         reversed: bool)
    ensures var d := Drop(logs, keys);
            TakenSide(logs, keys + [last], reversed) ==
            if d.Has(last.0) && IsReversed(last.0) == reversed
            then TakenSide(logs, keys, reversed) + [d.Peek(last.0).value]
            else TakenSide(logs, keys, reversed)
    decreases |keys|
  {
    hide IsReversed, LruCache.Pop, LruCache.Peek;
    var all := keys + [last];
    if keys == [] {
      assert all[1..] == [];
    } else {
      assert all[0] == keys[0] && all[1..] == keys[1..] + [last];
      TakenSideSnoc(logs.Pop(keys[0].0), keys[1..], last, reversed);
    }
  }

  lemma TakenSnoc(logs: LruCache<Key, Log>, keys: seq<(Key, ())>, last: (Key, ()), reversed: bool)
    ensures var d, t := Drop(logs, keys), TakenSide(logs, keys, reversed);
            Total(TakenSide(logs, keys + [last], reversed)) ==
            if d.Has(last.0) && IsReversed(last.0) == reversed
            then Merge(Total(t), StatsOf(d.Peek(last.0).value))
            else Total(t)
  {
    hide IsReversed, LruCache.Pop, LruCache.Peek, StatsOf, Merge, Drop, TakenSide;
    TakenSideSnoc(logs, keys, last, reversed);
    var t, t' := TakenSide(logs, keys, reversed), TakenSide(logs, keys + [last], reversed);
    if Drop(logs, keys).Has(last.0) && IsReversed(last.0) == reversed { assert t'[..|t'| - 1] == t; }
  }

  /** The direction test never succeeds, so one side gets everything. */
  lemma {:induction false} TakenSides(logs: LruCache<Key, Log>, keys: seq<(Key, ())>)
    ensures TakenSide(logs, keys, false) == Taken(logs, keys) && TakenSide(logs, keys, true) == []
    decreases |keys|
  {
    hide IsReversed, LruCache.Pop, LruCache.Peek;
    if keys != [] {
      NeverReversed(keys[0].0);
      TakenSides(logs.Pop(keys[0].0), keys[1..]);
    }
  }

  // ---------- what holds of every reachable cache ----------

  /** A key set in use: one to sixteen keys, all of the flow. */
  ghost predicate InUse(f: nat, keys: KeySet) {
    && keys.Valid() && keys.cap == MAX_PER_FLOW && keys.entries != []
    && forall q :: keys.Has(q) ==> FlowOf(q) == f
  }

  ghost predicate SoundFlows(flows: FlowMap) {
    flows.Valid() && forall f :: flows.Has(f) ==> InUse(f, flows.Peek(f).value)
  }

  ghost predicate Sound(s: Rrt) {
    s.logs.Valid() && SoundFlows(s.flows)
  }

  /** Every cached log can be reached from its flow. */
  ghost predicate Tracked(s: Rrt) {
    forall q :: s.logs.Has(q) ==> KeysOf(s.flows, FlowOf(q)).Has(q)
  }

  lemma GetOrInsertPeek(flows: FlowMap, f: nat)
    requires flows.Valid()
    ensures var flows' := flows.GetOrInsert(f, NO_KEYS);
            && flows'.Valid() && flows'.cap == flows.cap && flows'.Peek(f) == Some(KeysOf(flows, f))
            && forall g :: g != f ==> flows'.Peek(g) == if Evicts(flows, f, g) then None else flows.Peek(g)
  {
    if flows.Has(f) {
      TouchEffect(flows, f);
    } else {
      PutEffect(flows, f, NO_KEYS);
    }
  }

  lemma KeysOfValid(flows: FlowMap, f: nat)
    requires SoundFlows(flows)
    ensures var keys := KeysOf(flows, f); keys.Valid() && keys.cap == MAX_PER_FLOW
    ensures forall q :: KeysOf(flows, f).Has(q) ==> FlowOf(q) == f
  {
  }

  lemma HeadFound<K, V>(es: seq<(K, V)>, i: nat)
    requires i < |es|
    ensures Find(es, es[i].0).Some?
  {
    FindMember(es, es[i].0);
  }

  /** Pushing a key keeps the flow map sound; it changes the key set of its own flow,
      and a new flow may push out one whole flow. */
  lemma TrackEffect(flows: FlowMap, k: Key)
    requires SoundFlows(flows)
    ensures var flows', f := Track(flows, k), FlowOf(k);
            && SoundFlows(flows') && flows'.cap == flows.cap
            && flows'.Peek(f) == Some(KeysOf(flows, f).Put(k, ()))
            && forall g :: g != f ==> flows'.Peek(g) == if Evicts(flows, f, g) then None else flows.Peek(g)
  {
    var f := FlowOf(k);
    var keys := KeysOf(flows, f);
    KeysOfValid(flows, f);
    PutEffect(keys, k, ());
    GetOrInsertPeek(flows, f);
    WriteEffect(flows.GetOrInsert(f, NO_KEYS), f, keys.Put(k, ()));
    assert InUse(f, keys.Put(k, ()));
  }

  lemma UntrackEffect(flows: FlowMap, k: Key)
    requires SoundFlows(flows)
    ensures var flows', f := Untrack(flows, k), FlowOf(k);
            && SoundFlows(flows') && flows'.cap == flows.cap
            && (forall q :: KeysOf(flows', f).Has(q) <==> q != k && KeysOf(flows, f).Has(q))
            && forall g :: g != f ==> flows'.Peek(g) == flows.Peek(g)
  {
    var f := FlowOf(k);
    var keys := KeysOf(flows, f);
    KeysOfValid(flows, f);
    PopEffect(keys, k);
    if flows.Has(f) {
      if keys.Pop(k).entries == [] {
        TouchEffect(flows, f);
        PopEffect(flows.Touch(f), f);
      } else {
        WriteEffect(flows, f, keys.Pop(k));
        assert InUse(f, keys.Pop(k));
      }
    }
  }

  /** The other log that a put drops: the one its flow has no room for, or else the one
      the full cache has no room for. */
  ghost function Victim(s: Rrt, k: Key): Option<Key> {
    var keys, logs := KeysOf(s.flows, FlowOf(k)), Spared(s, k);
    if !keys.Has(k) && |keys.entries| == 16 && s.logs.Has(keys.entries[|keys.entries| - 1].0)
       && keys.entries[|keys.entries| - 1].0 != k
    then Some(keys.entries[|keys.entries| - 1].0)
    else if !logs.Has(k) && |logs.entries| == logs.cap && |logs.entries| > 0
    then Some(logs.entries[|logs.entries| - 1].0)
    else None
  }

  lemma SparedEffect(s: Rrt, k: Key)
    requires Sound(s)
    ensures var logs, keys := Spared(s, k), KeysOf(s.flows, FlowOf(k));
            && logs.Valid() && logs.cap == s.logs.cap
            && if !keys.Has(k) && |keys.entries| == 16
               then keys.entries[|keys.entries| - 1].0 != k && logs == s.logs.Pop(keys.entries[|keys.entries| - 1].0)
               else logs == s.logs
  {
    var keys := KeysOf(s.flows, FlowOf(k));
    KeysOfValid(s.flows, FlowOf(k));
    if !keys.Has(k) && |keys.entries| == 16 {
      HeadFound(keys.entries, |keys.entries| - 1);
      PopEffect(s.logs, keys.entries[|keys.entries| - 1].0);
    }
  }

  lemma SparedKeepsKey(s: Rrt, k: Key)
    requires Sound(s)
    ensures Spared(s, k).Peek(k) == s.logs.Peek(k)
  {
    SparedEffect(s, k);
    var keys := KeysOf(s.flows, FlowOf(k));
    if !keys.Has(k) && |keys.entries| == 16 { PopEffect(s.logs, keys.entries[|keys.entries| - 1].0); }
  }

  /** A put makes its value readable, drops at most one other live log and leaves every
      other log alone; the bounds and the length hold again. */
  lemma PutRrt(s: Rrt, k: Key, v: Log)
    requires Sound(s)
    ensures var s' := s.Put(k, v);
            && Sound(s') && s'.logs.cap == s.logs.cap && s'.flows.cap == s.flows.cap
            && s'.cacheLen == |s'.logs.entries|
            && s'.logs.Peek(k) == Some(v)
            && (forall q :: q != k ==> s'.logs.Peek(q) == if Victim(s, k) == Some(q) then None else s.logs.Peek(q))
    ensures Victim(s, k).Some? ==> Victim(s, k).value != k && s.logs.Has(Victim(s, k).value)
  {
    var keys, logs := KeysOf(s.flows, FlowOf(k)), Spared(s, k);
    TrackEffect(s.flows, k);
    SparedEffect(s, k);
    SparedKeepsKey(s, k);
    PutEffect(logs, k, v);
    if !keys.Has(k) && |keys.entries| == 16 {
      PopEffect(s.logs, keys.entries[|keys.entries| - 1].0);
    }
    if |logs.entries| > 0 { HeadFound(logs.entries, |logs.entries| - 1); }
  }

  /** The time of the last debug message moves to that of the log when the cache is full or the
      flow has sixteen other keys, and the last message is more than a minute ago. */
  lemma MessageTime(s: Rrt, k: Key, v: Log)
    requires Sound(s)
    ensures var keys := KeysOf(s.flows, FlowOf(k));
            s.Put(k, v).lastLogTime ==
            if s.lastLogTime + 60_000_000 < v.time &&
               (|s.logs.entries| == s.logs.cap || (|keys.entries| == 16 && !keys.Has(k)))
            then v.time else s.lastLogTime
  {
    var keys := KeysOf(s.flows, FlowOf(k));
    KeysOfValid(s.flows, FlowOf(k));
    if keys.entries != [] { HeadFound(keys.entries, |keys.entries| - 1); }
  }

  /** A put and a pop use the flow map once: the key set of the flow is put back in front, or
      taken out when it has become empty. */
  lemma FlowsUsed(flows: FlowMap, k: Key)
    requires SoundFlows(flows)
    ensures var f := FlowOf(k);
            var keys := KeysOf(flows, f);
            && Track(flows, k) == flows.Put(f, keys.Put(k, ()))
            && Untrack(flows, k) ==
               if !flows.Has(f) then flows
               else if forall q :: keys.Has(q) ==> q == k then flows.Pop(f)
               else flows.Put(f, keys.Pop(k))
  {
    var f := FlowOf(k);
    var keys := KeysOf(flows, f);
    UsedOnce(flows, f, NO_KEYS, keys.Put(k, ()));
    KeysOfValid(flows, f);
    EmptyIff(keys, k);
    if flows.Has(f) { assert flows.Touch(f).entries[1..] == flows.Pop(f).entries; }
  }

  lemma UsedOnce<K, V>(c: LruCache<K, V>, k: K, fresh': V, v: V)
    requires c.Valid()
    ensures c.GetOrInsert(k, fresh').Write(k, v) == c.Put(k, v)
  {
    var d := c.GetOrInsert(k, fresh');
    assert d.entries != [] && d.entries[0].0 == k;
    assert d.Write(k, v).entries == [(k, v)] + d.entries[1..];
  }

  lemma EmptyIff(keys: KeySet, k: Key)
    requires keys.Valid()
    ensures keys.Pop(k).entries == [] <==> forall q :: keys.Has(q) ==> q == k
  {
    PopEffect(keys, k);
    var rest := keys.Pop(k);
    if rest.entries == [] {
      forall q | keys.Has(q) ensures q == k { assert rest.Peek(q).None?; }
    } else {
      var q := rest.entries[0].0;
      HeadFound(rest.entries, 0);
      assert rest.Peek(q).Some? && q != k && keys.Has(q);
    }
  }

  lemma PopRrt(s: Rrt, k: Key)
    requires Sound(s)
    ensures var s' := s.Pop(k);
            && Sound(s') && s'.logs.cap == s.logs.cap && s'.flows.cap == s.flows.cap
            && s'.cacheLen == |s'.logs.entries|
            && (forall q :: s'.logs.Peek(q) == if q == k then None else s.logs.Peek(q))
  {
    UntrackEffect(s.flows, k);
    PopEffect(s.logs, k);
  }

  lemma {:induction false} DropEffect(logs: LruCache<Key, Log>, keys: seq<(Key, ())>)
    requires logs.Valid()
    ensures var logs' := Drop(logs, keys);
            && logs'.Valid() && logs'.cap == logs.cap
            && forall q :: logs'.Peek(q) == if Find(keys, q).Some? then None else logs.Peek(q)
    decreases |keys|
  {
    if keys != [] {
      PopEffect(logs, keys[0].0);
      DropEffect(logs.Pop(keys[0].0), keys[1..]);
    }
  }

  /** Dropping a flow takes exactly the logs its key set names. */
  lemma CollectRrt(s: Rrt, f: nat)
    requires Sound(s)
    ensures var s' := s.Collect(f);
            && Sound(s') && s'.logs.cap == s.logs.cap && s'.flows.cap == s.flows.cap && !s'.flows.Has(f)
            && (forall g :: g != f ==> s'.flows.Peek(g) == s.flows.Peek(g))
            && (forall q :: s'.logs.Peek(q) == if KeysOf(s.flows, f).Has(q) then None else s.logs.Peek(q))
  {
    PopEffect(s.flows, f);
    DropEffect(s.logs, KeysOf(s.flows, f).entries);
  }

  // ---------- whole runs ----------

  datatype Op = GetOp(k: Key) | PutOp(k: Key, v: Log) | PopOp(k: Key) | CollectOp(f: nat) | RemoveOp(f: nat)

  function Apply(s: Rrt, op: Op): Rrt {
    match op
    case GetOp(k) => s.(logs := s.logs.Touch(k))
    case PutOp(k, v) => s.Put(k, v)
    case PopOp(k) => s.Pop(k)
    case CollectOp(f) => s.Collect(f)
    case RemoveOp(f) => s.RemoveFlow(f)
  }

  function Run(cap: nat, ops: seq<Op>): Rrt {
    if ops == [] then Rrt(LruCache(cap, []), LruCache(cap, []), 0, 0)
    else Apply(Run(cap, ops[..|ops| - 1]), ops[|ops| - 1])
  }

  lemma ApplySound(s: Rrt, op: Op)
    requires Sound(s)
    ensures var s' := Apply(s, op);
            && Sound(s') && s'.logs.cap == s.logs.cap && s'.flows.cap == s.flows.cap
            && (op.PutOp? || op.PopOp? || op.RemoveOp? ==> s'.cacheLen == |s'.logs.entries|)
  {
    match op
    case GetOp(k) => TouchEffect(s.logs, k);
    case PutOp(k, v) => PutRrt(s, k, v);
    case PopOp(k) => PopRrt(s, k);
    case CollectOp(f) => CollectRrt(s, f);
    case RemoveOp(f) => CollectRrt(s, f);
  }

  /** Both maps stay within the capacity, every key set holds one to sixteen keys of its
      own flow, and the published length is right after every put, pop and removal. */
  lemma {:induction false} RunSound(cap: nat, ops: seq<Op>)
    requires 1 <= cap
    ensures var s := Run(cap, ops);
            && Sound(s) && |s.logs.entries| <= cap && |s.flows.entries| <= cap
            && s.logs.cap == cap && s.flows.cap == cap
            && (ops != [] && !ops[|ops| - 1].GetOp? && !ops[|ops| - 1].CollectOp? ==> s.cacheLen == |s.logs.entries|)
  {
    if ops != [] {
      RunSound(cap, ops[..|ops| - 1]);
      ApplySound(Run(cap, ops[..|ops| - 1]), ops[|ops| - 1]);
    }
  }

  /** A put of `k` would push a whole flow out of the flow map while one of its logs, other
      than the one the put drops, is in the cache. */
  ghost predicate Strands(s: Rrt, k: Key) {
    exists q: Key :: Evicts(s.flows, FlowOf(k), FlowOf(q)) && s.logs.Has(q) && Victim(s, k) != Some(q)
  }

  lemma NoOwnEviction(flows: FlowMap, f: nat)
    requires flows.Valid()
    ensures !Evicts(flows, f, f)
  {
    if |flows.entries| > 0 { HeadFound(flows.entries, |flows.entries| - 1); }
  }

  /** A put keeps every log tracked exactly when it strands none. */
  lemma PutTracked(s: Rrt, k: Key, v: Log)
    requires Sound(s) && Tracked(s)
    ensures Tracked(s.Put(k, v)) <==> !Strands(s, k)
  {
    hide Victim, Sound, Track, Spared, LogTime, Rrt.Put;
    var s', f := s.Put(k, v), FlowOf(k);
    PutRrt(s, k, v);
    PutFlows(s, k, v);
    NoOwnEviction(s.flows, f);
    forall q | s'.logs.Has(q) && !Evicts(s.flows, f, FlowOf(q)) ensures KeysOf(s'.flows, FlowOf(q)).Has(q) {
      if q != k { StillTracked(s, k, v, q); }
    }
    if Strands(s, k) {
      var q: Key :| Evicts(s.flows, f, FlowOf(q)) && s.logs.Has(q) && Victim(s, k) != Some(q);
      assert s'.logs.Has(q) && s'.flows.Peek(FlowOf(q)) == None;
    } else {
      forall q | s'.logs.Has(q) ensures !Evicts(s.flows, f, FlowOf(q)) {
        assert q != k ==> s.logs.Has(q) && Victim(s, k) != Some(q);
      }
    }
  }

  lemma PutFlows(s: Rrt, k: Key, v: Log)
    requires Sound(s)
    ensures var s', f := s.Put(k, v), FlowOf(k);
            && s'.flows.Peek(f).Some? && s'.flows.Peek(f).value.Has(k)
            && forall g :: g != f ==> s'.flows.Peek(g) == if Evicts(s.flows, f, g) then None else s.flows.Peek(g)
    ensures s.flows.Valid()
  {
    TrackEffect(s.flows, k);
    KeysOfValid(s.flows, FlowOf(k));
    PutEffect(KeysOf(s.flows, FlowOf(k)), k, ());
  }

  /** A log that a put leaves stays in the key set of its flow, if that stays. */
  lemma StillTracked(s: Rrt, k: Key, v: Log, q: Key)
    requires Sound(s) && Tracked(s) && q != k && s.Put(k, v).logs.Has(q) && !Evicts(s.flows, FlowOf(k), FlowOf(q))
    ensures s.logs.Has(q) && KeysOf(s.Put(k, v).flows, FlowOf(q)).Has(q)
  {
    hide Victim;
    PutRrt(s, k, v);
    TrackEffect(s.flows, k);
    if FlowOf(q) == FlowOf(k) {
      KeysOfValid(s.flows, FlowOf(k));
      PutEffect(KeysOf(s.flows, FlowOf(k)), k, ());
      KeptByFlow(s, k, q);
    }
  }

  /** A log of the flow that survives a put was not the one its key set pushed out. */
  lemma KeptByFlow(s: Rrt, k: Key, q: Key)
    requires Sound(s) && q != k && s.logs.Has(q) && Victim(s, k) != Some(q)
    ensures !Evicts(KeysOf(s.flows, FlowOf(k)), k, q)
  {
    KeysOfValid(s.flows, FlowOf(k));
  }

  lemma ApplyTracked(s: Rrt, op: Op)
    requires Sound(s) && Tracked(s) && (op.PutOp? ==> !Strands(s, op.k))
    ensures Tracked(Apply(s, op))
  {
    match op
    case GetOp(k) => TouchEffect(s.logs, k);
    case PutOp(k, v) => PutTracked(s, k, v);
    case PopOp(k) => PopRrt(s, k); UntrackEffect(s.flows, k);
    case CollectOp(f) => CollectRrt(s, f); KeysOfValid(s.flows, f);
    case RemoveOp(f) => CollectRrt(s, f); KeysOfValid(s.flows, f);
  }

  ghost predicate NeverStrands(cap: nat, ops: seq<Op>) {
    forall i :: 0 <= i < |ops| && ops[i].PutOp? ==> !Strands(Run(cap, ops[..i]), ops[i].k)
  }

  /** As long as no put strands a log, every log is tracked under its flow, so no flow has
      more than sixteen live logs. */
  lemma {:induction false} RunTracked(cap: nat, ops: seq<Op>, f: nat)
    requires 1 <= cap && NeverStrands(cap, ops)
    ensures Tracked(Run(cap, ops)) && CountIf(Run(cap, ops).logs.entries, OfFlow(f)) <= 16
  {
    hide Strands, Sound, Apply, OfFlow;
    RunSound(cap, ops);
    if ops != [] {
      var front, last := ops[..|ops| - 1], ops[|ops| - 1];
      assert forall i :: 0 <= i < |front| ==> front[..i] == ops[..i] && front[i] == ops[i];
      RunSound(cap, front);
      RunTracked(cap, front, f);
      ApplyTracked(Run(cap, front), last);
    }
    AtMostSixteen(Run(cap, ops), f);
  }

  function OfFlow(f: nat): (Key, Log) -> bool { (q: Key, v: Log) => FlowOf(q) == f }

  lemma AtMostSixteen(s: Rrt, f: nat)
    requires Sound(s) && Tracked(s)
    ensures CountIf(s.logs.entries, OfFlow(f)) <= 16
  {
    KeysOfValid(s.flows, f);
    forall q | Find(s.logs.entries, q).Some? && FlowOf(q) == f
      ensures Find(KeysOf(s.flows, f).entries, q).Some?
    {
      assert s.logs.Has(q);
    }
    CountWithin(s.logs.entries, KeysOf(s.flows, f).entries, OfFlow(f));
  }

  /** Removing or collecting a flow leaves none of its logs and every log of the others,
      exactly when the flow's logs are all tracked. */
  lemma FlowRemoved(s: Rrt, f: nat)
    requires Sound(s)
    ensures forall q :: FlowOf(q) != f ==> s.Collect(f).logs.Peek(q) == s.logs.Peek(q)
    ensures (forall q :: FlowOf(q) == f ==> !s.Collect(f).logs.Has(q)) <==>
            (forall q :: FlowOf(q) == f && s.logs.Has(q) ==> KeysOf(s.flows, f).Has(q))
    ensures s.RemoveFlow(f).logs == s.Collect(f).logs && s.RemoveFlow(f).flows == s.Collect(f).flows
  {
    CollectRrt(s, f);
    KeysOfValid(s.flows, f);
  }

  /** The first put for a flow, where both maps are full or neither is. */
  lemma FirstPut(s: Rrt, k: Key, v: Log)
    requires !s.logs.Has(k) && !s.flows.Has(FlowOf(k)) && 1 <= s.logs.cap && s.flows.cap == s.logs.cap
    requires |s.flows.entries| == |s.logs.entries| <= s.logs.cap
    ensures var s', n := s.Put(k, v), if |s.logs.entries| < s.logs.cap then |s.logs.entries| else |s.logs.entries| - 1;
            && s'.logs == LruCache(s.logs.cap, [(k, v)] + s.logs.entries[..n])
            && s'.flows ==
               LruCache(s.flows.cap, [(FlowOf(k), LruCache(16, [(k, ())]))] + s.flows.entries[..n])
  {
    var f := FlowOf(k);
    WithoutNothing(s.logs.entries, k);
    WithoutNothing(s.flows.entries, f);
    var flows := s.flows.GetOrInsert(f, NO_KEYS);
    assert flows.entries[0] == (f, NO_KEYS);
    assert Without(flows.entries, f) == flows.entries[1..];
    assert NO_KEYS.Put(k, ()).entries == [(k, ())];
  }

  /** Two entries, looked up in either order. */
  lemma TwoEntries<K, V>(c: LruCache<K, V>, a: K, b: K, x: V, y: V)
    requires a != b && c.entries == [(b, y), (a, x)]
    ensures c.Peek(a) == Some(x) && c.Touch(a) == LruCache(c.cap, [(a, x), (b, y)])
    ensures forall q :: c.Has(q) <==> q == a || q == b
  {
    var tail := LruCache(c.cap, c.entries[1..]);
    OneEntry(tail, a, x);
    assert Without(tail.entries, a) == [];
    assert Without(c.entries, a) == [(b, y)];
    forall q ensures c.Has(q) <==> q == a || q == b {
      assert if q == b then c.Peek(q) == Some(y) else c.Peek(q) == tail.Peek(q);
      assert tail.Has(q) <==> q == a;
    }
  }

  lemma OneEntry<K, V>(c: LruCache<K, V>, a: K, x: V)
    requires c.entries == [(a, x)]
    ensures c.Peek(a) == Some(x) && forall q :: c.Has(q) <==> q == a
  {
    assert c.entries[1..] == [];
    forall q ensures c.Has(q) <==> q == a {
      assert Find(c.entries[1..], q) == None;
    }
  }

  /** A log can be stranded, since the two maps age differently: in a cache of two, any
      three flows will do. Removing the flow then no longer finds the log. */
  lemma Stranded(a: Key, b: Key, c: Key, v: Log)
    requires FlowOf(a) != FlowOf(b) && FlowOf(a) != FlowOf(c) && FlowOf(b) != FlowOf(c)
    ensures var s := Run(2, [PutOp(a, v), PutOp(b, v), GetOp(a), PutOp(c, v)]);
            !Tracked(s) && s.RemoveFlow(FlowOf(a)).logs.Has(a)
  {
    hide FlowOf, Track, Untrack, Spared, KeysOf, LogTime, Drop, Rrt.Put, LruCache.Touch, LruCache.Put, Tracked;
    var ops := [PutOp(a, v), PutOp(b, v), GetOp(a), PutOp(c, v)];
    var s0, s1, s2, s3, s := Run(2, []), Run(2, ops[..1]), Run(2, ops[..2]), Run(2, ops[..3]), Run(2, ops);
    assert ops[..1][..0] == [] && ops[..2][..1] == ops[..1] && ops[..3][..2] == ops[..2];
    var A, B := LruCache(16, [(a, ())]), LruCache(16, [(b, ())]);
    var C := LruCache(16, [(c, ())]);
    FirstPut(s0, a, v);
    assert s1.logs.entries == [(a, v)] && s1.flows.entries == [(FlowOf(a), A)];
    OneEntry(s1.logs, a, v);
    OneEntry(s1.flows, FlowOf(a), A);
    FirstPut(s1, b, v);
    assert s2.logs.entries == [(b, v), (a, v)] && s2.flows.entries == [(FlowOf(b), B), (FlowOf(a), A)];
    TwoEntries(s2.logs, a, b, v, v);
    TwoEntries(s2.flows, FlowOf(a), FlowOf(b), A, B);
    TwoEntries(s3.logs, b, a, v, v);
    FirstPut(s3, c, v);
    assert s.logs.entries == [(c, v), (a, v)] && s.flows.entries == [(FlowOf(c), C), (FlowOf(b), B)];
    TwoEntries(s.logs, a, c, v, v);
    TwoEntries(s.flows, FlowOf(b), FlowOf(c), B, C);
    Untracked(s, a);
  }

  lemma Untracked(s: Rrt, q: Key)
    requires s.logs.Has(q) && !s.flows.Has(FlowOf(q))
    ensures !Tracked(s) && s.RemoveFlow(FlowOf(q)).logs == s.logs
  {
  }

  // ---------- counting logs ----------

  predicate LiveResponse(q: Key, v: Log) { v.msgType.Response? && !v.onBlacklist }

  predicate LiveRequest(q: Key, v: Log) { v.msgType.Request? && !v.onBlacklist }

  predicate ClientFailed(q: Key, v: Log) { v.status.ClientError? && !v.onBlacklist }

  predicate ServerFailed(q: Key, v: Log) { v.status.ServerError? && !v.onBlacklist }

  ghost function VictimCount(s: Rrt, k: Key, p: (Key, Log) -> bool): nat {
    match Victim(s, k)
    case Some(q) => CountAt(s.logs, q, p)
    case None => 0
  }

  /** What a put does to the number of logs of any kind. */
  lemma PutRrtCount(s: Rrt, k: Key, v: Log, p: (Key, Log) -> bool)
    requires Sound(s)
    ensures CountIf(s.Put(k, v).logs.entries, p) + CountAt(s.logs, k, p) + VictimCount(s, k, p) ==
            CountIf(s.logs.entries, p) + (if p(k, v) then 1 else 0)
  {
    var keys, logs := KeysOf(s.flows, FlowOf(k)), Spared(s, k);
    SparedEffect(s, k);
    SparedKeepsKey(s, k);
    PutCount(logs, k, v, p);
    if !keys.Has(k) && |keys.entries| == 16 {
      var last := keys.entries[|keys.entries| - 1].0;
      PopCount(s.logs, last, p);
      PopEffect(s.logs, last);
    }
    if |logs.entries| > 0 { HeadFound(logs.entries, |logs.entries| - 1); }
  }

  lemma {:induction false} DropCountLe(logs: LruCache<Key, Log>, keys: seq<(Key, ())>, p: (Key, Log) -> bool)
    ensures CountIf(Drop(logs, keys).entries, p) <= CountIf(logs.entries, p)
    decreases |keys|
  {
    if keys != [] {
      PopCount(logs, keys[0].0, p);
      DropCountLe(logs.Pop(keys[0].0), keys[1..], p);
    }
  }

  lemma {:induction false} TotalCons(v: Log, logs: seq<Log>)
    ensures Total([v] + logs).responses == StatsOf(v).responses + Total(logs).responses
    ensures Total([v] + logs).requests == StatsOf(v).requests + Total(logs).requests
    ensures Total([v] + logs).errClient == StatsOf(v).errClient + Total(logs).errClient
    ensures Total([v] + logs).errServer == StatsOf(v).errServer + Total(logs).errServer
  {
    hide StatsOf;
    var all := [v] + logs;
    var n := |logs|;
    if n == 0 {
      assert all[..n] == [];
    } else {
      TotalCons(v, logs[..n - 1]);
      assert all[..n] == [v] + logs[..n - 1] && all[n] == logs[n - 1];
      assert Total(all) == Merge(Total(all[..n]), StatsOf(all[n]));
    }
  }

  /** The collected statistics count exactly the responses, requests and errors that leave the
      cache. */
  lemma {:induction false} DropTotal(logs: LruCache<Key, Log>, keys: seq<(Key, ())>)
    ensures CountIf(logs.entries, LiveResponse) ==
            CountIf(Drop(logs, keys).entries, LiveResponse) + Total(Taken(logs, keys)).responses
    ensures CountIf(logs.entries, LiveRequest) ==
            CountIf(Drop(logs, keys).entries, LiveRequest) + Total(Taken(logs, keys)).requests
    ensures CountIf(logs.entries, ClientFailed) ==
            CountIf(Drop(logs, keys).entries, ClientFailed) + Total(Taken(logs, keys)).errClient
    ensures CountIf(logs.entries, ServerFailed) ==
            CountIf(Drop(logs, keys).entries, ServerFailed) + Total(Taken(logs, keys)).errServer
    decreases |keys|
  {
    if keys != [] {
      var k := keys[0].0;
      PopCount(logs, k, LiveResponse);
      PopCount(logs, k, LiveRequest);
      PopCount(logs, k, ClientFailed);
      PopCount(logs, k, ServerFailed);
      DropTotal(logs.Pop(k), keys[1..]);
      if logs.Has(k) { TotalCons(logs.Peek(k).value, Taken(logs.Pop(k), keys[1..])); }
    }
  }
}
