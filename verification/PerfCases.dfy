/** What one log does to the caches and what it reports, said by message types, times,
    statuses and the blacklist alone. */
module PerfCases {
  import opened Words
  import opened LruCaches
  import opened L7Stats
  import opened RrtCaches
  import opened TimeoutCaches
  import opened PerfStatistics

  function One(b: bool): nat { if b then 1 else 0 }

  /** A request and a later response. */
  predicate IsPair(request: Log, response: Log) {
    request.msgType.Request? && response.msgType.Response? && request.time < response.time
  }

  /** One of the two logs answers the other. */
  predicate Answered(p: Log, cur: Log) { IsPair(p, cur) || IsPair(cur, p) }

  predicate Counted(log: Log) { log.msgType.Request? && !log.onBlacklist }

  /** What a log reports by itself. */
  function Alone(log: Log): Stats {
    var live := !log.onBlacklist;
    Stats(One(live && log.msgType.Request?), One(live && log.msgType.Response?),
          One(live && log.status.ClientError?), One(live && log.status.ServerError?), 0, 0, 0, 0, 0)
  }

  /** The log that stays under the key, and the one that does not, when two logs meet that are
      no pair: the later one stays, and the new one on a tie. */
  function Stays(p: Log, cur: Log): Log { if cur.time >= p.time then cur else p }

  function Goes(p: Log, cur: Log): Log { if cur.time >= p.time then p else cur }

  /** What is found under the key afterwards. */
  function Found(prev: Option<Log>, cur: Log): Option<Log> {
    match prev
    case None => Some(cur)
    case Some(p) => if Answered(p, cur) then None else Some(Stays(p, cur))
  }

  /** A request times out: its response is late, or another log takes its place. */
  predicate TimesOut(prev: Option<Log>, cur: Log, limit: nat) {
    match prev
    case None => false
    case Some(p) =>
      if IsPair(p, cur) then !p.onBlacklist && !cur.onBlacklist && cur.time - p.time > limit
      else if IsPair(cur, p) then !p.onBlacklist && !cur.onBlacklist && p.time - cur.time > limit
      else Counted(Goes(p, cur))
  }

  /** The key of the log holds nothing after a pair, and else the later of the two logs as the
      most recently used one. */
  lemma KeyAfter(s: Perf, e: Info)
    requires Sane(s) && e.Paired()
    ensures var logs, found := Process(s, e).rrt.logs, Found(s.rrt.logs.Peek(e.key), e.log);
            && logs.Peek(e.key) == found
            && (found.Some? ==> logs.entries != [] && logs.entries[0] == (e.key, found.value))
  {
    hide StatsOf, WithRrt, Merge, Entry.AddTimeout, Entry.AddInCache, Entry.SubInCache, Rrt.Pop, LruCache.Pop;
    var rrt := s.rrt.(logs := s.rrt.logs.Touch(e.key));
    TouchSound(s.rrt, e.key);
    TouchEffect(s.rrt.logs, e.key);
    PutRrt(rrt, e.key, e.log);
    PopRrt(rrt, e.key);
    PutFirst(rrt, e.key, e.log);
  }

  lemma PutFirst(rrt: Rrt, k: Key, v: Log)
    requires Sound(rrt)
    ensures var es := rrt.Put(k, v).logs.entries; es != [] && es[0] == (k, v)
  {
    SparedEffect(rrt, k);
  }

  lemma SettleCounts(prev: Option<Log>, cur: Log, entry: Entry, d: bool, limit: nat)
    ensures var x, found := Settle(prev, cur, entry, d, limit).entry, Found(prev, cur);
            var rest := if prev.Some? && Counted(prev.value) && entry.inCache.At(d) > 0 then entry.inCache.At(d) - 1
                        else entry.inCache.At(d);
            && x.inCache.At(d) == rest + One(found.Some? && Counted(found.value))
            && x.timeout.At(d) == entry.timeout.At(d) + One(TimesOut(prev, cur, limit))
            && x.inCache.At(!d) == entry.inCache.At(!d) && x.timeout.At(!d) == entry.timeout.At(!d)
  {
    hide StatsOf, WithRrt, Merge;
  }

  /** The counters of the log's flow and direction: a request that was found leaves the waiting
      ones, a request that is left under the key joins them, and one that times out is added
      to those. Its flow becomes the most recently used one. */
  lemma CountersAfter(s: Perf, e: Info)
    requires Sane(s) && e.Paired()
    ensures var prev, entry, entry' := s.rrt.logs.Peek(e.key), s.timeouts.EntryOf(e.Flow()),
                                       Process(s, e).timeouts.EntryOf(e.Flow());
            var found, d := Found(prev, e.log), e.reversed;
            var rest := if prev.Some? && Counted(prev.value) && entry.inCache.At(d) > 0 then entry.inCache.At(d) - 1
                        else entry.inCache.At(d);
            && entry'.inCache.At(d) == rest + One(found.Some? && Counted(found.value))
            && entry'.timeout.At(d) == entry.timeout.At(d) + One(TimesOut(prev, e.log, e.limit))
            && entry'.inCache.At(!d) == entry.inCache.At(!d) && entry'.timeout.At(!d) == entry.timeout.At(!d)
    ensures var t, f := Process(s, e).timeouts, e.Flow();
            t.flows == s.timeouts.flows.Put(f, t.EntryOf(f)) && t.cacheLen == |t.flows.entries|
  {
    hide Settle, Found, TimesOut, Counted, Act;
    var entry := OutcomeOf(s, e).entry;
    SettleCounts(s.rrt.logs.Peek(e.key), e.log, s.timeouts.EntryOf(e.Flow()), e.reversed, e.limit);
    StoreEffect(s.timeouts, e.Flow(), entry);
    StoreIsPut(s.timeouts, e.Flow(), entry);
  }

  lemma StoreIsPut(t: Timeouts, f: nat, e: Entry)
    requires t.flows.Valid()
    ensures var t' := t.GetOrInsert(f).Store(f, e);
            t'.flows == t.flows.Put(f, e) && t'.cacheLen == |t'.flows.entries|
  {
    InsertEffect(t.flows, f);
    var c := t.flows.GetOrInsert(f, ZERO);
    WriteEffect(c, f, e);
    assert c.Write(f, e).entries == [(f, e)] + c.entries[1..];
  }

  // ---------- what is returned ----------

  lemma AloneIs(log: Log)
    ensures StatsOf(log) == Alone(log)
  {
  }

  /** A log that finds none returns itself if it is a counted request, and else nothing yet. */
  lemma FirstReturned(s: Perf, e: Info)
    requires e.Paired() && !s.rrt.logs.Has(e.key)
    ensures Returned(s, e) == if Counted(e.log) then Some(Alone(e.log)) else None
  {
    AloneIs(e.log);
  }

  /** Two logs that are no pair: the one that does not stay is returned, unless blacklisted. */
  lemma OtherReturned(s: Perf, e: Info, p: Log)
    requires e.Paired() && s.rrt.logs.Peek(e.key) == Some(p) && !Answered(p, e.log)
    ensures var gone := Goes(p, e.log);
            Returned(s, e) == if gone.onBlacklist then None else Some(Alone(gone))
  {
    AloneIs(p);
    AloneIs(e.log);
    hide StatsOf, Alone, Entry.AddTimeout, Entry.AddInCache, Entry.SubInCache;
  }

  /** What the second log of a pair returns: itself, with a cached response that counts, and
      the time between the two if the response is in time or was the first to come. */
  function SecondOfPair(p: Log, cur: Log, limit: nat): Option<Stats> {
    var rrt := if cur.time > p.time then cur.time - p.time else p.time - cur.time;
    var both := !p.onBlacklist && !cur.onBlacklist;
    var late := cur.msgType.Response? && rrt > limit;
    var other := p.msgType.Response? && both;
    if cur.onBlacklist || (cur.msgType.Response? && p.onBlacklist) then None
    else
      Some(Stats(One(cur.msgType.Request?), One(cur.msgType.Response? || other),
                 One(cur.status.ClientError?) + One(other && p.status.ClientError?),
                 One(cur.status.ServerError?) + One(other && p.status.ServerError?), 0,
                 One(both && !late), if both && !late then rrt else 0,
                 if both && !late then rrt % 0x1_0000_0000 else 0, 0))
  }

  lemma ResponseSecond(p: Log, cur: Log, entry: Entry, d: bool, limit: nat)
    requires IsPair(p, cur)
    ensures SettleResponse(p, cur, entry, d, limit).stats == SecondOfPair(p, cur, limit)
  {
    hide Entry.AddTimeout;
  }

  lemma RequestSecond(p: Log, cur: Log, entry: Entry, d: bool, limit: nat)
    requires IsPair(cur, p)
    ensures SettleRequest(p, cur, entry, d, limit).stats == SecondOfPair(p, cur, limit)
  {
    hide Entry.AddTimeout;
  }

  /** The second log of a pair returns what the types, times, statuses and blacklist say. */
  lemma PairReturned(s: Perf, e: Info, p: Log)
    requires e.Paired() && s.rrt.logs.Peek(e.key) == Some(p) && Answered(p, e.log)
    ensures Returned(s, e) == SecondOfPair(p, e.log, e.limit)
  {
    hide SettleResponse, SettleRequest, SecondOfPair, Entry.SubInCache;
    var entry := s.timeouts.EntryOf(e.Flow());
    var rest := if Counted(p) then entry.SubInCache(e.reversed) else entry;
    if IsPair(p, e.log) {
      ResponseSecond(p, e.log, rest, e.reversed, e.limit);
    } else {
      RequestSecond(p, e.log, rest, e.reversed, e.limit);
    }
  }

  /** Logs that do not go through the caches. */
  lemma UnpairedReturned(s: Perf, e: Info)
    requires !e.Paired()
    ensures Process(s, e) == s
    ensures e.log.time == 0 ==> Returned(s, e) == None
    ensures e.log.time != 0 && !e.aggregated ==> Returned(s, e) == Some(Alone(e.log))
    ensures e.log.time != 0 && e.aggregated ==>
              var alone := Alone(e.log);
              Returned(s, e) ==
              if e.log.onBlacklist then None
              else Some(Stats(One(!e.serverToClient), One(e.serverToClient), alone.errClient, alone.errServer,
                              0, 0, 0, 0, 0))
  {
    AloneIs(e.log);
  }
}
