/** `L7ProtocolInfoInterface::perf_stats` of src/common/l7_protocol_info.rs over
    `L7PerfCache` of src/common/l7_protocol_log.rs, for logs that merge at most once. */
module PerfStatistics {
  import opened Words
  import opened LruCaches
  import opened L7Stats
  import opened RrtCaches
  import opened TimeoutCaches

  /** What `perf_stats` reads of a parsed log and its parameters. The flow id is that of
      the key (`L7Stats.NewKeyParts`). */
  datatype Info = Info(log: Log, key: Key, reversed: bool, aggregated: bool, serverToClient: bool, limit: nat) {
    /** The logs that go through the caches. */
    predicate Paired() { log.time != 0 && aggregated && !log.msgType.Session? }

    function Flow(): nat { FlowOf(key) }
  }

  datatype Perf = Perf(rrt: Rrt, timeouts: Timeouts)

  datatype Action = PutCurrent | PopKey | Keep

  datatype Outcome = Outcome(entry: Entry, action: Action, stats: Option<Stats>)

  function SessionStats(e: Info): Option<Stats> {
    var stats := StatsOf(e.log);
    if e.log.onBlacklist then None
    else if e.serverToClient then Some(stats.(responses := stats.responses + 1))
    else Some(stats.(requests := stats.requests + 1))
  }

  /** The cached request `p` meets its response. */
  function SettleResponse(p: Log, cur: Log, entry: Entry, d: bool, limit: nat): Outcome
    requires p.IsRequestOf(cur)
  {
    if p.onBlacklist || cur.onBlacklist then Outcome(entry, PopKey, None)
    else if cur.time - p.time > limit then Outcome(entry.AddTimeout(d), PopKey, Some(StatsOf(cur)))
    else Outcome(entry, PopKey, Some(WithRrt(StatsOf(cur), cur.time - p.time)))
  }

  /** The cached response `p` meets its request. */
  function SettleRequest(p: Log, cur: Log, entry: Entry, d: bool, limit: nat): Outcome
    requires p.IsResponseOf(cur)
  {
    if cur.onBlacklist then Outcome(entry, PopKey, None)
    else if p.onBlacklist then Outcome(entry, PopKey, Some(StatsOf(cur)))
    else
      Outcome(if p.time - cur.time > limit then entry.AddTimeout(d) else entry, PopKey,
              Some(WithRrt(Merge(StatsOf(cur), StatsOf(p)), p.time - cur.time)))
  }

  /** Neither is the answer to the other: the later log stays. */
  function SettleOther(p: Log, cur: Log, entry: Entry, d: bool): Outcome {
    if p.time > cur.time then
      var e := if cur.LiveRequest() then entry.AddTimeout(d) else entry;
      Outcome(if p.LiveRequest() then e.AddInCache(d) else e, Keep,
              if cur.onBlacklist then None else Some(StatsOf(cur)))
    else
      var e := if p.LiveRequest() then entry.AddTimeout(d) else entry;
      Outcome(if cur.LiveRequest() then e.AddInCache(d) else e, PutCurrent,
              if p.onBlacklist then None else Some(StatsOf(p)))
  }

  function Settle(prev: Option<Log>, cur: Log, entry: Entry, d: bool, limit: nat): Outcome {
    match prev
    case None =>
      if cur.LiveRequest() then Outcome(entry.AddInCache(d), PutCurrent, Some(StatsOf(cur)))
      else Outcome(entry, PutCurrent, None)
    case Some(p) =>
      var e := if p.LiveRequest() then entry.SubInCache(d) else entry;
      if p.IsRequestOf(cur) then SettleResponse(p, cur, e, d, limit)
      else if p.IsResponseOf(cur) then SettleRequest(p, cur, e, d, limit)
      else SettleOther(p, cur, e, d)
  }

  function OutcomeOf(s: Perf, e: Info): Outcome {
    Settle(s.rrt.logs.Peek(e.key), e.log, s.timeouts.EntryOf(e.Flow()), e.reversed, e.limit)
  }

  function Act(rrt: Rrt, action: Action, k: Key, v: Log): Rrt {
    match action
    case PutCurrent => rrt.Put(k, v)
    case PopKey => rrt.Pop(k)
    case Keep => rrt
  }

  function Process(s: Perf, e: Info): Perf {
    if !e.Paired() then s
    else
      Perf(Act(s.rrt.(logs := s.rrt.logs.Touch(e.key)), OutcomeOf(s, e).action, e.key, e.log),
           s.timeouts.GetOrInsert(e.Flow()).Store(e.Flow(), OutcomeOf(s, e).entry))
  }

  function Returned(s: Perf, e: Info): Option<Stats> {
    if e.log.time == 0 then None
    else if !e.aggregated then Some(StatsOf(e.log))
    else if e.log.msgType.Session? then SessionStats(e)
    else OutcomeOf(s, e).stats
  }

  ghost predicate Sane(s: Perf) { Sound(s.rrt) && s.timeouts.flows.Valid() }

  class L7PerfCache {
    const rrtCache: RrtCache
    const timeoutCache: TimeoutCache

    ghost function View(): Perf
      reads rrtCache, timeoutCache
    {
      Perf(rrtCache.View(), timeoutCache.View())
    }

    constructor (cap: nat)
      requires 1 <= cap
      ensures View() == New(cap) && Sane(View())
      ensures fresh(rrtCache) && fresh(timeoutCache)
    {
      rrtCache := new RrtCache(cap);
      timeoutCache := new TimeoutCache(cap);
    }

    method PerfStats(e: Info) returns (r: Option<Stats>)
      requires Sane(View())
      modifies rrtCache, timeoutCache
      ensures View() == Process(old(View()), e) && Sane(View())
      ensures r == Returned(old(View()), e)
    {
      ghost var s := View();
      if e.log.time == 0 {
        return None;
      }
      if !e.aggregated {
        return Some(StatsOf(e.log));
      }
      if e.log.msgType.Session? {
        if e.log.onBlacklist {
          return None;
        }
        var stats := new L7PerfStats.From(e.log);
        if e.serverToClient {
          stats.IncResp();
        } else {
          stats.IncReq();
        }
        return Some(stats.Value());
      }
      ProcessSane(s, e);
      TouchEffect(s.rrt.logs, e.key);
      var prev := rrtCache.GetMut(e.key);
      var entry := timeoutCache.GetOrInsertMut(FlowOf(e.key));
      if prev.None? {
        if e.log.LiveRequest() {
          entry := entry.AddInCache(e.reversed);
          r := Some(StatsOf(e.log));
        } else {
          r := None;
        }
        var _ := rrtCache.Put(e.key, e.log);
      } else {
        entry, r := Meet(prev.value, e, entry);
      }
      timeoutCache.Store(FlowOf(e.key), entry);
    }

    /** The part of `perf_stats` that has found a previous log. */
    method Meet(p: Log, e: Info, entry: Entry) returns (entry': Entry, r: Option<Stats>)
      requires Sound(rrtCache.View()) && rrtCache.logs.Peek(e.key) == Some(p)
      modifies rrtCache
      ensures var o := Settle(Some(p), e.log, entry, e.reversed, e.limit);
              rrtCache.View() == Act(old(rrtCache.View()), o.action, e.key, e.log) && entry' == o.entry && r == o.stats
    {
      hide Sound, RrtCaches.Rrt.Put, RrtCaches.Rrt.Pop, LruCaches.LruCache.Peek, WithRrt, Merge, StatsOf;
      var cur, d := e.log, e.reversed;
      entry' := entry;
      if p.LiveRequest() {
        entry' := entry'.SubInCache(d);
      }
      if p.IsRequestOf(cur) {
        if p.onBlacklist || cur.onBlacklist {
          r := None;
        } else {
          var stats := new L7PerfStats.From(cur);
          var rrt := cur.time - p.time;
          if rrt > e.limit {
            entry' := entry'.AddTimeout(d);
          } else {
            stats.UpdateRrt(rrt);
          }
          r := Some(stats.Value());
        }
        var _ := rrtCache.Pop(e.key);
      } else if p.IsResponseOf(cur) {
        if cur.onBlacklist {
          r := None;
        } else {
          var stats := new L7PerfStats.From(cur);
          if !p.onBlacklist {
            var rrt := p.time - cur.time;
            if rrt > e.limit {
              entry' := entry'.AddTimeout(d);
            }
            var response := new L7PerfStats.From(p);
            stats.SequentialMerge(response);
            stats.UpdateRrt(rrt);
          }
          r := Some(stats.Value());
        }
        var _ := rrtCache.Pop(e.key);
      } else if p.time > cur.time {
        if cur.LiveRequest() {
          entry' := entry'.AddTimeout(d);
        }
        if p.LiveRequest() {
          entry' := entry'.AddInCache(d);
        }
        r := if cur.onBlacklist then None else Some(StatsOf(cur));
      } else {
        if p.LiveRequest() {
          entry' := entry'.AddTimeout(d);
        }
        if cur.LiveRequest() {
          entry' := entry'.AddInCache(d);
        }
        var replaced := rrtCache.Put(e.key, cur);
        var q := replaced.value;
        r := if q.onBlacklist then None else Some(StatsOf(q));
      }
    }

    method RemoveFlow(f: nat)
      requires Sane(View())
      modifies rrtCache, timeoutCache
      ensures View() == Forget(old(View()), f) && Sane(View())
    {
      CollectRrt(rrtCache.View(), f);
      rrtCache.RemoveFlow(f);
      timeoutCache.RemoveFlow(f);
    }
  }

  function New(cap: nat): Perf {
    Perf(Rrt(LruCache(cap, []), LruCache(cap, []), 0, 0), Timeouts(LruCache(cap, []), 0))
  }

  function Forget(s: Perf, f: nat): Perf { Perf(s.rrt.RemoveFlow(f), s.timeouts.RemoveFlow(f)) }

  lemma ActSound(rrt: Rrt, action: Action, k: Key, v: Log)
    requires Sound(rrt)
    ensures Sound(Act(rrt, action, k, v)) && Act(rrt, action, k, v).logs.cap == rrt.logs.cap
  {
    PutRrt(rrt, k, v);
    PopRrt(rrt, k);
  }

  lemma TouchSound(rrt: Rrt, k: Key)
    requires Sound(rrt)
    ensures Sound(rrt.(logs := rrt.logs.Touch(k)))
  {
    TouchEffect(rrt.logs, k);
  }

  lemma ProcessSane(s: Perf, e: Info)
    requires Sane(s)
    ensures Sane(Process(s, e))
  {
    TouchSound(s.rrt, e.key);
    ActSound(s.rrt.(logs := s.rrt.logs.Touch(e.key)), OutcomeOf(s, e).action, e.key, e.log);
    StoreEffect(s.timeouts, e.Flow(), OutcomeOf(s, e).entry);
  }
}
