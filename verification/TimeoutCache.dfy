/** `TimeoutCache` of src/common/l7_protocol_log.rs: per flow and direction, the requests
    that still wait in the cache and the requests that timed out. */
module TimeoutCaches {
  import opened Words
  import opened LruCaches

  /** A counter for each direction; `true` is the reversed one. */
  datatype Pair = Pair(forward: nat, backward: nat) {
    function At(d: bool): nat { if d then backward else forward }

    function With(d: bool, n: nat): Pair { if d then this.(backward := n) else this.(forward := n) }
  }

  datatype Entry = Entry(inCache: Pair, timeout: Pair) {
    function AddInCache(d: bool): Entry { this.(inCache := inCache.With(d, inCache.At(d) + 1)) }

    function SubInCache(d: bool): Entry {
      this.(inCache := inCache.With(d, if inCache.At(d) == 0 then 0 else inCache.At(d) - 1))
    }

    function AddTimeout(d: bool): Entry { this.(timeout := timeout.With(d, timeout.At(d) + 1)) }
  }

  const ZERO := Entry(Pair(0, 0), Pair(0, 0))

  datatype Timeouts = Timeouts(flows: LruCache<nat, Entry>, cacheLen: nat) {

    function EntryOf(f: nat): Entry {
      match flows.Peek(f)
      case Some(e) => e
      case None => ZERO
    }

    /** Requests of a flow and direction that are accounted for here. */
    function Held(f: nat, d: bool): nat { EntryOf(f).inCache.At(d) + EntryOf(f).timeout.At(d) }

    function GetOrInsert(f: nat): Timeouts {
      var flows' := flows.GetOrInsert(f, ZERO);
      Timeouts(flows', |flows'.entries|)
    }

    function Store(f: nat, e: Entry): Timeouts { this.(flows := flows.Write(f, e)) }

    function RemoveFlow(f: nat): Timeouts {
      var flows' := flows.Pop(f);
      Timeouts(flows', |flows'.entries|)
    }

    /** `pop_timeout_count`: the end of a flow gives up its whole entry. */
    function PopTimeout(f: nat, end: bool, d: bool): Timeouts {
      if end then GetOrInsert(f).RemoveFlow(f)
      else GetOrInsert(f).Store(f, EntryOf(f).(timeout := EntryOf(f).timeout.With(d, 0)))
    }

    function Popped(f: nat, end: bool, d: bool): nat {
      if end then Held(f, d) else EntryOf(f).timeout.At(d)
    }
  }

  class TimeoutCache {
    var flows: LruCache<nat, Entry>
    var cacheLen: nat

    ghost function View(): Timeouts
      reads this
    {
      Timeouts(flows, cacheLen)
    }

    constructor (cap: nat)
      requires 1 <= cap
      ensures View() == Timeouts(LruCache(cap, []), 0) && flows.Valid()
    {
      flows, cacheLen := LruCache(cap, []), 0;
    }

    method GetOrInsertMut(f: nat) returns (e: Entry)
      requires flows.Valid()
      modifies this
      ensures View() == old(View()).GetOrInsert(f) && flows.Valid()
      ensures flows.Has(f) && e == old(View().EntryOf(f))
    {
      InsertEffect(flows, f);
      flows := flows.GetOrInsert(f, ZERO);
      cacheLen := |flows.entries|;
      TouchFront(flows, f);
      e := flows.Peek(f).value;
      flows := flows.Touch(f);
    }

    /** The write through the reference that `GetOrInsertMut` stands for. */
    method Store(f: nat, e: Entry)
      requires flows.Valid() && flows.Has(f)
      modifies this
      ensures View() == old(View()).Store(f, e) && flows.Valid()
    {
      WriteEffect(flows, f, e);
      flows := flows.Write(f, e);
    }

    method PopTimeoutCount(f: nat, end: bool, d: bool) returns (v: nat)
      requires flows.Valid()
      modifies this
      ensures View() == old(View()).PopTimeout(f, end, d) && flows.Valid()
      ensures v == old(View()).Popped(f, end, d)
    {
      var entry := GetOrInsertMut(f);
      if end {
        v := entry.inCache.At(d) + entry.timeout.At(d);
        PopEffect(flows, f);
        flows := flows.Pop(f);
        cacheLen := |flows.entries|;
      } else {
        v := entry.timeout.At(d);
        Store(f, entry.(timeout := entry.timeout.With(d, 0)));
      }
    }

    method RemoveFlow(f: nat)
      requires flows.Valid()
      modifies this
      ensures View() == old(View()).RemoveFlow(f) && flows.Valid()
    {
      PopEffect(flows, f);
      flows := flows.Pop(f);
      cacheLen := |flows.entries|;
    }
  }

  /** The entry that was just used is in front. */
  lemma TouchFront(flows: LruCache<nat, Entry>, f: nat)
    requires flows.entries != [] && flows.entries[0].0 == f
    ensures flows.Touch(f) == flows
  {
    assert flows.entries == [flows.entries[0]] + flows.entries[1..];
  }

  lemma InsertEffect(flows: LruCache<nat, Entry>, f: nat)
    requires flows.Valid()
    ensures var flows' := flows.GetOrInsert(f, ZERO);
            && flows'.Valid() && flows'.cap == flows.cap && flows'.entries != [] && flows'.entries[0].0 == f
            && flows'.Peek(f) == Some(match flows.Peek(f) case Some(e) => e case None => ZERO)
            && forall g :: g != f ==> flows'.Peek(g) == if Evicts(flows, f, g) then None else flows.Peek(g)
  {
    if flows.Has(f) {
      TouchEffect(flows, f);
    } else {
      PutEffect(flows, f, ZERO);
    }
  }

  /** Entering and storing change one flow; another flow's entry can only be pushed out. */
  lemma StoreEffect(t: Timeouts, f: nat, e: Entry)
    requires t.flows.Valid()
    ensures var t' := t.GetOrInsert(f).Store(f, e);
            && t'.flows.Valid() && t'.flows.cap == t.flows.cap && t'.EntryOf(f) == e
            && forall g :: g != f ==> t'.EntryOf(g) == if Evicts(t.flows, f, g) then ZERO else t.EntryOf(g)
  {
    InsertEffect(t.flows, f);
    WriteEffect(t.flows.GetOrInsert(f, ZERO), f, e);
  }

  lemma PopTimeoutEffect(t: Timeouts, f: nat, end: bool, d: bool)
    requires t.flows.Valid()
    ensures var t' := t.PopTimeout(f, end, d);
            && t'.flows.Valid() && t'.flows.cap == t.flows.cap
            && t'.EntryOf(f) == (if end then ZERO else t.EntryOf(f).(timeout := t.EntryOf(f).timeout.With(d, 0)))
            && forall g :: g != f ==> t'.EntryOf(g) == if Evicts(t.flows, f, g) then ZERO else t.EntryOf(g)
  {
    if end {
      InsertEffect(t.flows, f);
      PopEffect(t.GetOrInsert(f).flows, f);
    } else {
      StoreEffect(t, f, t.EntryOf(f).(timeout := t.EntryOf(f).timeout.With(d, 0)));
    }
  }

  lemma RemoveEffect(t: Timeouts, f: nat)
    requires t.flows.Valid()
    ensures var t' := t.RemoveFlow(f);
            && t'.flows.Valid() && t'.flows.cap == t.flows.cap && t'.EntryOf(f) == ZERO
            && forall g :: g != f ==> t'.EntryOf(g) == t.EntryOf(g)
  {
    PopEffect(t.flows, f);
  }
}
