/** Conservation laws of `perf_stats` over whole runs. */
module PerfLaws {
  import opened Words
  import opened LruCaches
  import opened L7Stats
  import opened RrtCaches
  import opened TimeoutCaches
  import opened PerfStatistics
  import opened PerfCases

  // ---------- runs ----------

  datatype Event =
    | LogEvent(info: Info)
    | PopEvent(f: nat, end: bool, d: bool)
    | CollectEvent(f: nat)
    | RemoveEvent(f: nat)

  function Next(s: Perf, ev: Event): Perf {
    match ev
    case LogEvent(e) => Process(s, e)
    case PopEvent(f, end, d) => s.(timeouts := s.timeouts.PopTimeout(f, end, d))
    case CollectEvent(f) => s.(rrt := s.rrt.Collect(f))
    case RemoveEvent(f) => Forget(s, f)
  }

  function After(cap: nat, run: seq<Event>): Perf {
    if run == [] then New(cap) else Next(After(cap, run[..|run| - 1]), run[|run| - 1])
  }

  lemma NextSane(s: Perf, ev: Event)
    requires Sane(s)
    ensures Sane(Next(s, ev))
  {
    match ev
    case LogEvent(e) => ProcessSane(s, e);
    case PopEvent(f, end, d) => PopTimeoutEffect(s.timeouts, f, end, d);
    case CollectEvent(f) => CollectRrt(s.rrt, f);
    case RemoveEvent(f) => CollectRrt(s.rrt, f); RemoveEffect(s.timeouts, f);
  }

  lemma {:induction false} AfterSane(cap: nat, run: seq<Event>)
    requires 1 <= cap
    ensures Sane(After(cap, run))
  {
    if run != [] {
      AfterSane(cap, run[..|run| - 1]);
      NextSane(After(cap, run[..|run| - 1]), run[|run| - 1]);
    }
  }

  // ---------- requests of one flow and direction ----------

  /** What happened to the requests of a flow and direction. The first three are told by the logs
      alone; the others read the counters before each event. */
  datatype Requests = Requests(seen: nat, answered: nat, silenced: nat, popped: nat, lost: nat, saturated: nat)

  function Plus(a: Requests, b: Requests): Requests {
    Requests(a.seen + b.seen, a.answered + b.answered, a.silenced + b.silenced, a.popped + b.popped, a.lost + b.lost,
             a.saturated + b.saturated)
  }

  /** A counted request is answered within the limit. */
  predicate Answers(p: Log, cur: Log, limit: nat) {
    && !p.onBlacklist && !cur.onBlacklist
    && ((IsPair(p, cur) && cur.time - p.time <= limit) || (IsPair(cur, p) && p.time - cur.time <= limit))
  }

  /** A counted request is answered by a response on the blacklist. */
  predicate Silences(p: Log, cur: Log) {
    (IsPair(p, cur) && !p.onBlacklist && cur.onBlacklist) || (IsPair(cur, p) && !cur.onBlacklist && p.onBlacklist)
  }

  ghost function LogRequests(s: Perf, e: Info, f: nat, d: bool): Requests {
    if !e.Paired() then Requests(0, 0, 0, 0, 0, 0)
    else if e.Flow() != f then
      Requests(0, 0, 0, 0, if Evicts(s.timeouts.flows, e.Flow(), f) then s.timeouts.Held(f, d) else 0, 0)
    else if e.reversed != d then Requests(0, 0, 0, 0, 0, 0)
    else
      match s.rrt.logs.Peek(e.key)
      case None => Requests(One(e.log.LiveRequest()), 0, 0, 0, 0, 0)
      case Some(p) =>
        Requests(One(e.log.LiveRequest()), One(Answers(p, e.log, e.limit)), One(Silences(p, e.log)), 0, 0,
                 One(p.LiveRequest() && s.timeouts.EntryOf(f).inCache.At(d) == 0))
  }

  ghost function EventRequests(s: Perf, ev: Event, f: nat, d: bool): Requests {
    var none := Requests(0, 0, 0, 0, 0, 0);
    match ev
    case LogEvent(e) => LogRequests(s, e, f, d)
    case PopEvent(g, end, dir) =>
      if g != f then none.(lost := if Evicts(s.timeouts.flows, g, f) then s.timeouts.Held(f, d) else 0)
      else if dir == d then none.(popped := s.timeouts.Popped(f, end, d))
      else none.(lost := if end then s.timeouts.Held(f, d) else 0)
    case CollectEvent(g) => none
    case RemoveEvent(g) => none.(lost := if g == f then s.timeouts.Held(f, d) else 0)
  }

  ghost function RunRequests(cap: nat, run: seq<Event>, f: nat, d: bool): Requests {
    if run == [] then Requests(0, 0, 0, 0, 0, 0)
    else
      var front, last := run[..|run| - 1], run[|run| - 1];
      Plus(RunRequests(cap, front, f, d), EventRequests(After(cap, front), last, f, d))
  }

  /** One log moves requests between the counters; the other direction is not touched. */
  lemma SettleBalance(prev: Option<Log>, cur: Log, entry: Entry, d: bool, limit: nat)
    ensures var e := Settle(prev, cur, entry, d, limit).entry;
            var answered := prev.Some? && Answers(prev.value, cur, limit);
            var silenced := prev.Some? && Silences(prev.value, cur);
            var saturated := prev.Some? && prev.value.LiveRequest() && entry.inCache.At(d) == 0;
            && e.inCache.At(d) + e.timeout.At(d) + One(answered) + One(silenced) ==
               entry.inCache.At(d) + entry.timeout.At(d) + One(cur.LiveRequest()) + One(saturated)
            && e.inCache.At(!d) == entry.inCache.At(!d) && e.timeout.At(!d) == entry.timeout.At(!d)
  {
  }

  lemma LogBalance(s: Perf, e: Info, f: nat, d: bool)
    requires Sane(s)
    ensures var t', c := Process(s, e).timeouts, LogRequests(s, e, f, d);
            t'.Held(f, d) + c.popped + c.answered + c.silenced + c.lost == s.timeouts.Held(f, d) + c.seen + c.saturated
  {
    hide Settle, Answers, Silences, Act;
    if e.Paired() {
      var prev := s.rrt.logs.Peek(e.key);
      SettleBalance(prev, e.log, s.timeouts.EntryOf(e.Flow()), e.reversed, e.limit);
      StoreEffect(s.timeouts, e.Flow(), OutcomeOf(s, e).entry);
    }
  }

  lemma EventBalance(s: Perf, ev: Event, f: nat, d: bool)
    requires Sane(s)
    ensures var t', c := Next(s, ev).timeouts, EventRequests(s, ev, f, d);
            t'.Held(f, d) + c.popped + c.answered + c.silenced + c.lost == s.timeouts.Held(f, d) + c.seen + c.saturated
  {
    match ev
    case LogEvent(e) => LogBalance(s, e, f, d);
    case PopEvent(g, end, dir) => PopTimeoutEffect(s.timeouts, g, end, dir);
    case CollectEvent(g) =>
    case RemoveEvent(g) => RemoveEffect(s.timeouts, g);
  }

  // ---------- no counter runs dry ----------

  /** The requests of a flow and direction that wait in the cache, where `dir` is the direction of
      the log that was cached under a key. */
  function Waiting(f: nat, d: bool, dir: Key -> bool): (Key, Log) -> bool {
    (q: Key, v: Log) => FlowOf(q) == f && dir(q) == d && Counted(v)
  }

  /** The counter covers the requests that wait. */
  ghost predicate Covered(s: Perf, f: nat, d: bool, dir: Key -> bool) {
    CountIf(s.rrt.logs.entries, Waiting(f, d, dir)) <= s.timeouts.EntryOf(f).inCache.At(d)
  }

  /** The log that an outcome leaves under the key. */
  function Left(prev: Option<Log>, cur: Log, action: Action): Option<Log> {
    match action
    case PutCurrent => Some(cur)
    case PopKey => None
    case Keep => prev
  }

  lemma SettleInCache(prev: Option<Log>, cur: Log, entry: Entry, d: bool, limit: nat)
    ensures var o := Settle(prev, cur, entry, d, limit);
            var left := Left(prev, cur, o.action);
            && ((prev.Some? && prev.value.LiveRequest() && entry.inCache.At(d) == 0) ||
                o.entry.inCache.At(d) + One(prev.Some? && prev.value.LiveRequest()) ==
                entry.inCache.At(d) + One(left.Some? && left.value.LiveRequest()))
            && o.entry.inCache.At(!d) == entry.inCache.At(!d)
            && (prev.None? ==> o.action.PutCurrent?)
  {
  }

  /** An outcome takes the previous log from the count and adds what it leaves; a put may
      also push out one more. */
  lemma ActCount(rrt: Rrt, action: Action, k: Key, v: Log, p: (Key, Log) -> bool)
    requires Sound(rrt)
    ensures var left := Left(rrt.logs.Peek(k), v, action);
            CountIf(Act(rrt, action, k, v).logs.entries, p) + CountAt(rrt.logs, k, p) +
            (if action.PutCurrent? then VictimCount(rrt, k, p) else 0) ==
            CountIf(rrt.logs.entries, p) + One(left.Some? && p(k, left.value))
  {
    PutRrtCount(rrt, k, v, p);
    PopCount(rrt.logs, k, p);
  }

  /** The event drops the counters of the flow. */
  ghost predicate Drops(s: Perf, ev: Event, f: nat) {
    match ev
    case LogEvent(e) => e.Paired() && Evicts(s.timeouts.flows, e.Flow(), f)
    case PopEvent(g, end, d) => if g == f then end else Evicts(s.timeouts.flows, g, f)
    case CollectEvent(g) => false
    case RemoveEvent(g) => g == f
  }

  /** The log goes into the cache: it finds none under its key, or an older one that is
      neither its request nor its response. */
  predicate Enters(s: Perf, e: Info) {
    && e.Paired()
    && match s.rrt.logs.Peek(e.key) {
         case None => true
         case Some(p) => !p.IsRequestOf(e.log) && !p.IsResponseOf(e.log) && p.time <= e.log.time
       }
  }

  /** The event leaves the log of another key in the cache. */
  ghost predicate Spares(s: Perf, ev: Event, q: Key) {
    match ev
    case LogEvent(e) => !(Enters(s, e) && Victim(s.rrt.(logs := s.rrt.logs.Touch(e.key)), e.key) == Some(q))
    case PopEvent(f, end, d) => true
    case CollectEvent(f) => !KeysOf(s.rrt.flows, f).Has(q)
    case RemoveEvent(f) => !KeysOf(s.rrt.flows, f).Has(q)
  }

  /** The event would drop the counters although it spares a request of the flow that waits. */
  ghost predicate Abandons(s: Perf, ev: Event, f: nat, d: bool, dir: Key -> bool) {
    && Drops(s, ev, f)
    && exists q :: s.rrt.logs.Has(q) && Waiting(f, d, dir)(q, s.rrt.logs.Peek(q).value) && Spares(s, ev, q)
  }

  lemma EntersIff(s: Perf, e: Info)
    requires e.Paired()
    ensures Enters(s, e) <==> OutcomeOf(s, e).action.PutCurrent?
  {
    hide StatsOf, WithRrt, Merge;
  }

  /** What is left under the other keys. */
  lemma LogSpares(s: Perf, e: Info, q: Key)
    requires Sane(s) && q != e.key
    ensures Process(s, e).rrt.logs.Peek(q) == if Spares(s, LogEvent(e), q) then s.rrt.logs.Peek(q) else None
  {
    hide Settle, Victim;
    if e.Paired() {
      var rrt := s.rrt.(logs := s.rrt.logs.Touch(e.key));
      EntersIff(s, e);
      TouchSound(s.rrt, e.key);
      TouchEffect(s.rrt.logs, e.key);
      PutRrt(rrt, e.key, e.log);
      PopRrt(rrt, e.key);
    }
  }

  lemma EventSpares(s: Perf, ev: Event, f: nat, q: Key)
    requires Sane(s) && Drops(s, ev, f) && FlowOf(q) == f
    ensures Next(s, ev).rrt.logs.Peek(q) == if Spares(s, ev, q) then s.rrt.logs.Peek(q) else None
  {
    hide Victim;
    match ev
    case LogEvent(e) =>
      NotEvicted(s.timeouts, f);
      LogSpares(s, e, q);
    case PopEvent(g, end, d) =>
    case CollectEvent(g) =>
    case RemoveEvent(g) => CollectRrt(s.rrt, g);
  }

  /** When counters are dropped, a request goes on waiting iff the event abandons one. */
  lemma AbandonsIff(s: Perf, ev: Event, f: nat, d: bool, dir: Key -> bool)
    requires Sane(s) && Drops(s, ev, f)
    ensures Abandons(s, ev, f, d, dir) <==> CountIf(Next(s, ev).rrt.logs.entries, Waiting(f, d, dir)) > 0
  {
    hide Spares, Next, Drops;
    var logs, p := Next(s, ev).rrt.logs, Waiting(f, d, dir);
    NextSane(s, ev);
    CountPositive(logs, p);
    forall q: Key | FlowOf(q) == f ensures logs.Peek(q) == if Spares(s, ev, q) then s.rrt.logs.Peek(q) else None {
      EventSpares(s, ev, f, q);
    }
    if Abandons(s, ev, f, d, dir) {
      var q :| s.rrt.logs.Has(q) && p(q, s.rrt.logs.Peek(q).value) && Spares(s, ev, q);
      assert logs.Has(q) && p(q, logs.Peek(q).value);
    }
    if CountIf(logs.entries, p) > 0 {
      var q :| logs.Has(q) && p(q, logs.Peek(q).value);
      assert s.rrt.logs.Has(q) && p(q, s.rrt.logs.Peek(q).value) && Spares(s, ev, q);
    }
  }

  lemma CountPositive(logs: LruCache<Key, Log>, p: (Key, Log) -> bool)
    requires logs.Valid()
    ensures CountIf(logs.entries, p) > 0 <==> exists q :: logs.Has(q) && p(q, logs.Peek(q).value)
  {
    if exists q :: logs.Has(q) && p(q, logs.Peek(q).value) {
      var q :| logs.Has(q) && p(q, logs.Peek(q).value);
      CountAtLe(logs, q, p);
    } else {
      forall q | Find(logs.entries, q).Some? ensures !p(q, Find(logs.entries, q).value) { assert logs.Has(q); }
      CountNone(logs.entries, p);
    }
  }

  lemma CountAtLe(logs: LruCache<Key, Log>, k: Key, p: (Key, Log) -> bool)
    ensures CountAt(logs, k, p) <= CountIf(logs.entries, p)
  {
    PopCount(logs, k, p);
  }

  lemma NotEvicted(t: Timeouts, f: nat)
    requires t.flows.Valid()
    ensures !Evicts(t.flows, f, f)
  {
    if |t.flows.entries| > 0 { FindMember(t.flows.entries, t.flows.entries[|t.flows.entries| - 1].0); }
  }

  /** If the log has the direction of its key, the counter has one for the log that is met, and
      covers the rest again unless it is dropped. */
  lemma LogCovered(s: Perf, e: Info, f: nat, d: bool, dir: Key -> bool)
    requires Sane(s) && Covered(s, f, d, dir) && e.reversed == dir(e.key)
    ensures LogRequests(s, e, f, d).saturated == 0
    ensures !Drops(s, LogEvent(e), f) ==> Covered(Process(s, e), f, d, dir)
    ensures Drops(s, LogEvent(e), f) ==> Process(s, e).timeouts.EntryOf(f) == ZERO
  {
    hide Settle, Answers, Silences, Act, Victim, VictimCount;
    if e.Paired() {
      var p := Waiting(f, d, dir);
      var prev, entry := s.rrt.logs.Peek(e.key), s.timeouts.EntryOf(e.Flow());
      var rrt := s.rrt.(logs := s.rrt.logs.Touch(e.key));
      TouchSound(s.rrt, e.key);
      TouchEffect(s.rrt.logs, e.key);
      TouchCount(s.rrt.logs, e.key, p);
      ActCount(rrt, OutcomeOf(s, e).action, e.key, e.log, p);
      SettleInCache(prev, e.log, entry, e.reversed, e.limit);
      StoreEffect(s.timeouts, e.Flow(), OutcomeOf(s, e).entry);
      CountAtLe(s.rrt.logs, e.key, p);
      NotEvicted(s.timeouts, e.Flow());
    }
  }

  /** The directions of the cached logs after an event. */
  function NextDir(s: Perf, ev: Event, dir: Key -> bool): Key -> bool {
    if ev.LogEvent? && Enters(s, ev.info) then WithDir(dir, ev.info.key, ev.info.reversed) else dir
  }

  function WithDir(dir: Key -> bool, k: Key, d: bool): Key -> bool {
    (q: Key) => if q == k then d else dir(q)
  }

  /** The log meets a waiting request that came from the other direction. */
  predicate Turns(s: Perf, ev: Event, dir: Key -> bool) {
    && ev.LogEvent? && ev.info.Paired() && s.rrt.logs.Has(ev.info.key)
    && s.rrt.logs.Peek(ev.info.key).value.LiveRequest() && ev.info.reversed != dir(ev.info.key)
  }

  /** The direction of a key matters only while a request waits under it. */
  lemma DirAgrees(s: Perf, f: nat, d: bool, dir: Key -> bool, k: Key, x: bool)
    requires Sane(s) && (s.rrt.logs.Has(k) && s.rrt.logs.Peek(k).value.LiveRequest() ==> dir(k) == x)
    ensures Covered(s, f, d, dir) <==> Covered(s, f, d, WithDir(dir, k, x))
  {
    CountAgrees(s.rrt.logs, Waiting(f, d, dir), Waiting(f, d, WithDir(dir, k, x)));
  }

  /** A log that is not cached leaves no request of its own direction under its key. */
  lemma LeftDir(s: Perf, e: Info, dir: Key -> bool)
    requires Sane(s) && !Turns(s, LogEvent(e), dir) && e.Paired() && !Enters(s, e)
    ensures var logs := Process(s, e).rrt.logs;
            logs.Has(e.key) && logs.Peek(e.key).value.LiveRequest() ==> dir(e.key) == e.reversed
  {
    hide StatsOf, WithRrt, Merge;
    var rrt := s.rrt.(logs := s.rrt.logs.Touch(e.key));
    TouchSound(s.rrt, e.key);
    TouchEffect(s.rrt.logs, e.key);
    PopRrt(rrt, e.key);
  }

  lemma LogTurns(s: Perf, e: Info, f: nat, d: bool, dir: Key -> bool)
    requires Sane(s) && Covered(s, f, d, dir) && !Turns(s, LogEvent(e), dir)
    ensures LogRequests(s, e, f, d).saturated == 0
    ensures !Drops(s, LogEvent(e), f) ==> Covered(Process(s, e), f, d, NextDir(s, LogEvent(e), dir))
    ensures Drops(s, LogEvent(e), f) ==> Process(s, e).timeouts.EntryOf(f) == ZERO
  {
    hide Process, LogRequests, Enters, Covered;
    if e.Paired() {
      var own := WithDir(dir, e.key, e.reversed);
      DirAgrees(s, f, d, dir, e.key, e.reversed);
      LogCovered(s, e, f, d, own);
      if !Enters(s, e) {
        ProcessSane(s, e);
        LeftDir(s, e, dir);
        DirAgrees(Process(s, e), f, d, dir, e.key, e.reversed);
      }
    } else {
      NotPaired(s, e, f, d);
    }
  }

  lemma NotPaired(s: Perf, e: Info, f: nat, d: bool)
    requires !e.Paired()
    ensures Process(s, e) == s && LogRequests(s, e, f, d).saturated == 0 && !Enters(s, e) && !Drops(s, LogEvent(e), f)
  {
  }

  /** A counter that covers the waiting requests never runs dry in the next step, unless a waiting
      request is met from the other direction. It covers them again if and only if the step does not
      abandon one. */
  lemma EventCovered(s: Perf, ev: Event, f: nat, d: bool, dir: Key -> bool)
    requires Sane(s) && Covered(s, f, d, dir) && !Turns(s, ev, dir)
    ensures EventRequests(s, ev, f, d).saturated == 0
    ensures Covered(Next(s, ev), f, d, NextDir(s, ev, dir)) <==> !Abandons(s, ev, f, d, dir)
  {
    hide Process, LogRequests, Waiting, Spares, Enters;
    if Drops(s, ev, f) { AbandonsIff(s, ev, f, d, dir); }
    match ev
    case LogEvent(e) =>
      LogTurns(s, e, f, d, dir);
      if Drops(s, ev, f) { OtherFlow(s, e, f, d, dir); }
    case PopEvent(g, end, x) => PopTimeoutEffect(s.timeouts, g, end, x);
    case CollectEvent(g) => DropCountLe(s.rrt.logs, KeysOf(s.rrt.flows, g).entries, Waiting(f, d, dir));
    case RemoveEvent(g) =>
      RemoveEffect(s.timeouts, g);
      DropCountLe(s.rrt.logs, KeysOf(s.rrt.flows, g).entries, Waiting(f, d, dir));
  }

  /** The direction of a log is nothing to another flow. */
  lemma OtherFlow(s: Perf, e: Info, f: nat, d: bool, dir: Key -> bool)
    requires Sane(s) && Drops(s, LogEvent(e), f)
    ensures var logs := Process(s, e).rrt.logs;
            CountIf(logs.entries, Waiting(f, d, NextDir(s, LogEvent(e), dir))) ==
              CountIf(logs.entries, Waiting(f, d, dir))
  {
    hide Process, Enters;
    ProcessSane(s, e);
    NotEvicted(s.timeouts, f);
    CountAgrees(Process(s, e).rrt.logs, Waiting(f, d, NextDir(s, LogEvent(e), dir)), Waiting(f, d, dir));
  }

  // ---------- the request law ----------

  /** The directions of the cached logs after a run. */
  function Dirs(cap: nat, run: seq<Event>): Key -> bool {
    if run == [] then (q: Key) => false
    else NextDir(After(cap, run[..|run| - 1]), run[|run| - 1], Dirs(cap, run[..|run| - 1]))
  }

  /** No log meets a waiting request that came from the other direction. */
  ghost predicate NeverTurns(cap: nat, run: seq<Event>) {
    forall i :: 0 <= i < |run| ==> !Turns(After(cap, run[..i]), run[i], Dirs(cap, run[..i]))
  }

  ghost predicate NeverAbandons(cap: nat, run: seq<Event>, f: nat, d: bool) {
    forall i :: 0 <= i < |run| ==> !Abandons(After(cap, run[..i]), run[i], f, d, Dirs(cap, run[..i]))
  }

  ghost predicate NeverDrops(cap: nat, run: seq<Event>, f: nat) {
    forall i :: 0 <= i < |run| ==> !Drops(After(cap, run[..i]), run[i], f)
  }

  /** Over every run, the requests seen are the requests accounted for. */
  lemma {:induction false} RequestsBalance(cap: nat, run: seq<Event>, f: nat, d: bool)
    requires 1 <= cap
    ensures var t, c := After(cap, run).timeouts, RunRequests(cap, run, f, d);
            c.seen + c.saturated == t.Held(f, d) + c.popped + c.answered + c.silenced + c.lost
  {
    if run != [] {
      RequestsBalance(cap, run[..|run| - 1], f, d);
      AfterSane(cap, run[..|run| - 1]);
      EventBalance(After(cap, run[..|run| - 1]), run[|run| - 1], f, d);
    }
  }

  /** The subtraction never saturates unless counters are dropped while requests wait, or a
      waiting request is met from the other direction; single logs may be evicted all the same. */
  lemma {:induction false} NeverSaturates(cap: nat, run: seq<Event>, f: nat, d: bool)
    requires 1 <= cap && NeverTurns(cap, run) && NeverAbandons(cap, run, f, d)
    ensures Covered(After(cap, run), f, d, Dirs(cap, run)) && RunRequests(cap, run, f, d).saturated == 0
  {
    if run != [] {
      var front, last := run[..|run| - 1], run[|run| - 1];
      assert forall i :: 0 <= i < |front| ==> front[..i] == run[..i] && front[i] == run[i];
      NeverSaturates(cap, front, f, d);
      AfterSane(cap, front);
      hide Next, Abandons, Turns, EventRequests, Covered;
      EventCovered(After(cap, front), last, f, d, Dirs(cap, front));
    }
  }

  lemma {:induction false} NothingLost(cap: nat, run: seq<Event>, f: nat, d: bool)
    requires 1 <= cap && NeverDrops(cap, run, f)
    ensures RunRequests(cap, run, f, d).lost == 0
  {
    if run != [] {
      var front := run[..|run| - 1];
      assert forall i :: 0 <= i < |front| ==> front[..i] == run[..i] && front[i] == run[i];
      NothingLost(cap, front, f, d);
    }
  }

  /** While the counters of a flow are kept: requests seen are those in the cache, timed
      out, popped, answered in time, and answered by a blacklisted response. */
  lemma RequestsConserved(cap: nat, run: seq<Event>, f: nat, d: bool)
    requires 1 <= cap && NeverTurns(cap, run) && NeverDrops(cap, run, f)
    ensures var e, c := After(cap, run).timeouts.EntryOf(f), RunRequests(cap, run, f, d);
            c.seen == e.inCache.At(d) + e.timeout.At(d) + c.popped + c.answered + c.silenced
  {
    assert NeverAbandons(cap, run, f, d);
    RequestsBalance(cap, run, f, d);
    NeverSaturates(cap, run, f, d);
    NothingLost(cap, run, f, d);
  }

  /** Every log of the run has the direction that `dir` gives its key. */
  ghost predicate Directed(run: seq<Event>, dir: Key -> bool) {
    forall i :: 0 <= i < |run| && run[i].LogEvent? ==> run[i].info.reversed == dir(run[i].info.key)
  }

  ghost predicate Follows(s: Perf, dirs: Key -> bool, dir: Key -> bool) {
    forall q :: s.rrt.logs.Has(q) ==> dirs(q) == dir(q)
  }

  lemma NextFollows(s: Perf, ev: Event, dirs: Key -> bool, dir: Key -> bool)
    requires Sane(s) && Follows(s, dirs, dir) && (ev.LogEvent? ==> ev.info.reversed == dir(ev.info.key))
    ensures Follows(Next(s, ev), NextDir(s, ev, dirs), dir)
  {
    match ev
    case LogEvent(e) =>
      hide Settle, Victim, Enters, Spares;
      forall q | Process(s, e).rrt.logs.Has(q) ensures NextDir(s, ev, dirs)(q) == dir(q) {
        if q != e.key { LogSpares(s, e, q); } else if !Enters(s, e) { KeyThere(s, e); }
      }
    case PopEvent(f, end, d) =>
    case CollectEvent(f) => CollectRrt(s.rrt, f);
    case RemoveEvent(f) => CollectRrt(s.rrt, f);
  }

  /** A log under the key was there before, unless it was just cached. */
  lemma KeyThere(s: Perf, e: Info)
    requires Sane(s) && Process(s, e).rrt.logs.Has(e.key) && !Enters(s, e)
    ensures s.rrt.logs.Has(e.key)
  {
    hide StatsOf, WithRrt, Merge;
    if e.Paired() {
      var rrt := s.rrt.(logs := s.rrt.logs.Touch(e.key));
      TouchSound(s.rrt, e.key);
      TouchEffect(s.rrt.logs, e.key);
      PopRrt(rrt, e.key);
    }
  }

  lemma NothingCached(cap: nat, dir: Key -> bool)
    ensures Follows(After(cap, []), Dirs(cap, []), dir)
  {
  }

  lemma FollowsNoTurn(s: Perf, ev: Event, dirs: Key -> bool, dir: Key -> bool)
    requires Follows(s, dirs, dir) && (ev.LogEvent? ==> ev.info.reversed == dir(ev.info.key))
    ensures !Turns(s, ev, dirs)
  {
  }

  lemma RunSnoc(cap: nat, run: seq<Event>)
    requires run != []
    ensures var front, last := run[..|run| - 1], run[|run| - 1];
            && After(cap, run) == Next(After(cap, front), last)
            && Dirs(cap, run) == NextDir(After(cap, front), last, Dirs(cap, front))
  {
    hide Next, NextDir;
  }

  lemma {:induction false} RunFollows(cap: nat, run: seq<Event>, dir: Key -> bool)
    requires 1 <= cap && Directed(run, dir)
    ensures Follows(After(cap, run), Dirs(cap, run), dir)
  {
    hide Next, NextDir, Follows, After, Dirs;
    if run == [] {
      NothingCached(cap, dir);
    } else {
      var front, last := run[..|run| - 1], run[|run| - 1];
      RunFollows(cap, front, dir);
      AfterSane(cap, front);
      NextFollows(After(cap, front), last, Dirs(cap, front), dir);
      RunSnoc(cap, run);
    }
  }

  /** If every key keeps one direction, no waiting request is met from the other one. */
  lemma DirectedNeverTurns(cap: nat, run: seq<Event>, dir: Key -> bool)
    requires 1 <= cap && Directed(run, dir)
    ensures NeverTurns(cap, run)
  {
    hide Turns, Follows, After, Dirs;
    forall i | 0 <= i < |run| ensures !Turns(After(cap, run[..i]), run[i], Dirs(cap, run[..i])) {
      RunFollows(cap, run[..i], dir);
      FollowsNoTurn(After(cap, run[..i]), run[i], Dirs(cap, run[..i]), dir);
    }
  }

  /** The end of a flow collects its logs first: if they are all tracked, no request is
      left to wait and the final pop abandons none, in either direction. That pop takes the
      counters of both directions. */
  lemma FlowEnd(s: Perf, f: nat, x: bool, d: bool, dir: Key -> bool)
    requires Sane(s) && forall q :: FlowOf(q) == f && s.rrt.logs.Has(q) ==> KeysOf(s.rrt.flows, f).Has(q)
    ensures var s' := Next(s, CollectEvent(f));
            !Abandons(s', PopEvent(f, true, x), f, d, dir) && Next(s', PopEvent(f, true, x)).timeouts.Held(f, d) == 0
  {
    var s' := Next(s, CollectEvent(f));
    FlowRemoved(s.rrt, f);
    CollectRrt(s.rrt, f);
    PopTimeoutEffect(s'.timeouts, f, true, x);
  }

  /** A remark on the interface: without the collection the answer would find a counter at zero. */
  lemma AbandonedSaturates(s: Perf, a: Info, b: Info, x: bool)
    requires Sane(s) && a.Paired() && b == a.(log := b.log) && b.Paired()
    requires a.log.LiveRequest() && !s.rrt.logs.Has(a.key)
    ensures var s' := Next(Process(s, a), PopEvent(a.Flow(), true, x));
            LogRequests(s', b, a.Flow(), a.reversed).saturated == 1
  {
    hide Settle;
    PutRrt(s.rrt, a.key, a.log);
    ProcessSane(s, a);
    assert OutcomeOf(s, a).action.PutCurrent? by {
      SettleInCache(None, a.log, s.timeouts.EntryOf(a.Flow()), a.reversed, a.limit);
    }
    PopTimeoutEffect(Process(s, a).timeouts, a.Flow(), true, x);
  }

  // ---------- a run in which a counter runs dry ----------

  /** A new flow in the counters: it goes to the front, and a full cache loses its last flow. */
  lemma NewEntry(t: Timeouts, f: nat, e: Entry)
    requires t.flows.Valid() && !t.flows.Has(f)
    ensures var n := if |t.flows.entries| < t.flows.cap then |t.flows.entries| else |t.flows.entries| - 1;
            t.GetOrInsert(f).Store(f, e).flows == LruCache(t.flows.cap, [(f, e)] + t.flows.entries[..n])
  {
    var flows := t.flows.GetOrInsert(f, ZERO);
    WithoutNothing(t.flows.entries, f);
    assert flows.entries[0] == (f, ZERO) && Without(flows.entries, f) == flows.entries[1..];
  }

  /** A request of a new flow under a new key. */
  lemma NewRequest(s: Perf, e: Info)
    requires Sane(s) && e.Paired() && e.log.LiveRequest() && s.rrt.flows.cap == s.rrt.logs.cap
    requires !s.rrt.logs.Has(e.key) && !s.rrt.flows.Has(e.Flow()) && !s.timeouts.flows.Has(e.Flow())
    requires |s.rrt.flows.entries| == |s.rrt.logs.entries|
    ensures Process(s, e).rrt == s.rrt.Put(e.key, e.log)
    ensures Process(s, e).timeouts == s.timeouts.GetOrInsert(e.Flow()).Store(e.Flow(), ZERO.AddInCache(e.reversed))
  {
    hide Rrt.Put, Timeouts.GetOrInsert, Timeouts.Store, Entry.AddInCache, Sound;
  }

  predicate ThreeRequests(a: Info, b: Info, c: Info) {
    && a.Paired() && b.Paired() && c.Paired() && a.log.LiveRequest() && b.log.LiveRequest() && c.log.LiveRequest()
    && a.Flow() != b.Flow() && a.Flow() != c.Flow() && b.Flow() != c.Flow()
  }

  /** In caches of two: the requests `a` and `b`, a non-final pop of the flow of `a`, and the request
      `c` of a third flow. The pop has made `b` the older flow in the counters, but `a` is the older
      log, so `c` pushes out the counters of `b` and the log of `a`. */
  function CrowdedRun(a: Info, b: Info, c: Info, x: bool): seq<Event> {
    [LogEvent(a), LogEvent(b), PopEvent(a.Flow(), false, x), LogEvent(c)]
  }

  lemma CrowdedLogs(a: Info, b: Info, c: Info)
    requires ThreeRequests(a, b, c)
    ensures var s1 := New(2).rrt.Put(a.key, a.log);
            var s2 := s1.Put(b.key, b.log);
            && s1.logs.entries == [(a.key, a.log)] && s2.logs.entries == [(b.key, b.log), (a.key, a.log)]
            && |s1.flows.entries| == 1 && s1.flows.cap == s1.logs.cap == 2
            && |s2.flows.entries| == 2 && s2.flows.cap == s2.logs.cap == 2
            && !s1.logs.Has(b.key) && !s1.flows.Has(b.Flow()) && !s2.logs.Has(c.key) && !s2.flows.Has(c.Flow())
            && s2.Put(c.key, c.log).logs.Peek(b.key) == Some(b.log)
  {
    hide FlowOf, Track, Untrack, Spared, KeysOf, LogTime, Rrt.Put, LruCache.Touch, LruCache.Put;
    var A, B := LruCache(MAX_PER_FLOW, [(a.key, ())]), LruCache(MAX_PER_FLOW, [(b.key, ())]);
    var s0 := New(2).rrt;
    FirstPut(s0, a.key, a.log);
    var s1 := s0.Put(a.key, a.log);
    assert s1.logs.entries == [(a.key, a.log)] && s1.flows.entries == [(a.Flow(), A)];
    OneEntry(s1.logs, a.key, a.log);
    OneEntry(s1.flows, a.Flow(), A);
    FirstPut(s1, b.key, b.log);
    var s2 := s1.Put(b.key, b.log);
    assert s2.logs.entries == [(b.key, b.log), (a.key, a.log)] && s2.flows.entries == [(b.Flow(), B), (a.Flow(), A)];
    TwoEntries(s2.logs, a.key, b.key, a.log, b.log);
    TwoEntries(s2.flows, a.Flow(), b.Flow(), A, B);
    FirstPut(s2, c.key, c.log);
    var s3 := s2.Put(c.key, c.log);
    assert s3.logs.entries == [(c.key, c.log), (b.key, b.log)];
    TwoEntries(s3.logs, b.key, c.key, b.log, c.log);
  }

  lemma CrowdedCounters(a: Info, b: Info, c: Info, x: bool)
    requires ThreeRequests(a, b, c)
    ensures var t1 := New(2).timeouts.GetOrInsert(a.Flow()).Store(a.Flow(), ZERO.AddInCache(a.reversed));
            var t2 := t1.GetOrInsert(b.Flow()).Store(b.Flow(), ZERO.AddInCache(b.reversed));
            var t3 := t2.PopTimeout(a.Flow(), false, x);
            && t1.flows.Valid() && t2.flows.Valid() && t3.flows.Valid()
            && !t1.flows.Has(b.Flow()) && !t3.flows.Has(c.Flow())
            && !t3.GetOrInsert(c.Flow()).Store(c.Flow(), ZERO.AddInCache(c.reversed)).flows.Has(b.Flow())
  {
    hide Entry.AddInCache, Info.Flow, LruCache.GetOrInsert, Info.Paired, Log.LiveRequest;
    var f, g, h := a.Flow(), b.Flow(), c.Flow();
    var d, e := ZERO.AddInCache(a.reversed), ZERO.AddInCache(b.reversed);
    var t0 := New(2).timeouts;
    NewEntry(t0, f, d);
    StoreEffect(t0, f, d);
    var t1 := t0.GetOrInsert(f).Store(f, d);
    assert t1.flows.entries == [(f, d)];
    OneEntry(t1.flows, f, d);
    NewEntry(t1, g, e);
    StoreEffect(t1, g, e);
    var t2 := t1.GetOrInsert(g).Store(g, e);
    assert t2.flows.entries == [(g, e), (f, d)];
    TwoEntries(t2.flows, f, g, d, e);
    PopKeepsOrder(t2, f, g, d, e, x);
    var t3 := t2.PopTimeout(f, false, x);
    var d' := d.(timeout := d.timeout.With(x, 0));
    TwoEntries(t3.flows, g, f, e, d');
    NewEntry(t3, h, ZERO.AddInCache(c.reversed));
    var t4 := t3.GetOrInsert(h).Store(h, ZERO.AddInCache(c.reversed));
    assert t4.flows.entries == [(h, ZERO.AddInCache(c.reversed)), (f, d')];
    TwoEntries(t4.flows, f, h, d', ZERO.AddInCache(c.reversed));
  }

  lemma PopKeepsOrder(t: Timeouts, f: nat, g: nat, d: Entry, e: Entry, x: bool)
    requires f != g && t.flows.Valid() && t.flows.entries == [(g, e), (f, d)]
    ensures var t' := t.PopTimeout(f, false, x);
            t'.flows == LruCache(t.flows.cap, [(f, d.(timeout := d.timeout.With(x, 0))), (g, e)]) && t'.flows.Valid()
  {
    TwoEntries(t.flows, f, g, d, e);
    PopTimeoutEffect(t, f, false, x);
    var touched := t.flows.Touch(f);
    assert touched.entries[0] == (f, d) && touched.entries[1..] == [(g, e)];
    assert touched.Write(f, d).entries == [(f, d), (g, e)];
  }

  /** The answer to `b` then meets its request and finds the counter of its flow at zero. */
  lemma CrowdedSaturates(a: Info, b: Info, c: Info, answer: Info, x: bool)
    requires ThreeRequests(a, b, c) && answer == b.(log := answer.log) && answer.Paired()
    ensures LogRequests(After(2, CrowdedRun(a, b, c, x)), answer, b.Flow(), b.reversed).saturated == 1
  {
    hide Process, Rrt.Put, Timeouts.GetOrInsert, Timeouts.Store, Timeouts.PopTimeout, LruCache.Peek, Entry.AddInCache,
      Log.LiveRequest, FlowOf;
    var run := CrowdedRun(a, b, c, x);
    assert run[..1][..0] == [] && run[..2][..1] == run[..1] && run[..3][..2] == run[..2] && run[..4] == run;
    var s0, s1, s2, s3, s4 := After(2, []), After(2, run[..1]), After(2, run[..2]), After(2, run[..3]), After(2, run);
    AfterSane(2, []);
    AfterSane(2, run[..1]);
    AfterSane(2, run[..3]);
    CrowdedLogs(a, b, c);
    CrowdedCounters(a, b, c, x);
    Fresh(a.key, a.Flow());
    NewRequest(s0, a);
    NewRequest(s1, b);
    NewRequest(s3, c);
    assert s4.timeouts.flows.Peek(b.Flow()) == None;
  }

  lemma Fresh(k: Key, f: nat)
    ensures var s := New(2); !s.rrt.logs.Has(k) && !s.rrt.flows.Has(f) && !s.timeouts.flows.Has(f)
  {
  }

  // ---------- the response law ----------

  datatype Responses = Responses(seen: nat, returned: nat, dropped: nat, discarded: nat)

  function Add(a: Responses, b: Responses): Responses {
    Responses(a.seen + b.seen, a.returned + b.returned, a.dropped + b.dropped, a.discarded + b.discarded)
  }

  function CountOf(stats: Option<Stats>): nat {
    match stats
    case Some(x) => x.responses
    case None => 0
  }

  /** A response log that counts, or a session log of the answering side. */
  predicate IsCounted(e: Info) {
    && e.log.time != 0
    && (e.log.LiveResponse() || (e.aggregated && e.log.msgType.Session? && !e.log.onBlacklist && e.serverToClient))
  }

  /** A response that would count meets a request on the blacklist. */
  predicate Discards(p: Log, cur: Log) {
    (IsPair(p, cur) && p.onBlacklist && !cur.onBlacklist) || (IsPair(cur, p) && cur.onBlacklist && !p.onBlacklist)
  }

  ghost function LogResponses(s: Perf, e: Info): Responses {
    var prev, rrt := s.rrt.logs.Peek(e.key), s.rrt.(logs := s.rrt.logs.Touch(e.key));
    Responses(One(IsCounted(e)), CountOf(Returned(s, e)),
              if e.Paired() && OutcomeOf(s, e).action.PutCurrent? then VictimCount(rrt, e.key, LiveResponse) else 0,
              One(e.Paired() && prev.Some? && Discards(prev.value, e.log)))
  }

  ghost function EventResponses(s: Perf, ev: Event): Responses {
    match ev
    case LogEvent(e) => LogResponses(s, e)
    case PopEvent(f, end, d) => Responses(0, 0, 0, 0)
    case CollectEvent(f) => Responses(0, Total(Taken(s.rrt.logs, KeysOf(s.rrt.flows, f).entries)).responses, 0, 0)
    case RemoveEvent(f) => Responses(0, 0, Total(Taken(s.rrt.logs, KeysOf(s.rrt.flows, f).entries)).responses, 0)
  }

  ghost function RunResponses(cap: nat, run: seq<Event>): Responses {
    if run == [] then Responses(0, 0, 0, 0)
    else Add(RunResponses(cap, run[..|run| - 1]), EventResponses(After(cap, run[..|run| - 1]), run[|run| - 1]))
  }

  lemma SettleResponses(prev: Option<Log>, cur: Log, entry: Entry, d: bool, limit: nat)
    ensures var o := Settle(prev, cur, entry, d, limit);
            var left := Left(prev, cur, o.action);
            CountOf(o.stats) + One(left.Some? && left.value.LiveResponse()) +
            One(prev.Some? && Discards(prev.value, cur)) ==
            One(prev.Some? && prev.value.LiveResponse()) + One(cur.LiveResponse())
  {
  }

  lemma EventWaits(s: Perf, ev: Event)
    requires Sane(s)
    ensures var c, waiting := EventResponses(s, ev), CountIf(s.rrt.logs.entries, LiveResponse);
            CountIf(Next(s, ev).rrt.logs.entries, LiveResponse) + c.returned + c.dropped + c.discarded ==
            waiting + c.seen
  {
    hide Settle, Discards, Act, Victim, VictimCount;
    match ev
    case LogEvent(e) =>
      if e.Paired() {
        TouchSound(s.rrt, e.key);
        TouchEffect(s.rrt.logs, e.key);
        TouchCount(s.rrt.logs, e.key, LiveResponse);
        ActCount(s.rrt.(logs := s.rrt.logs.Touch(e.key)), OutcomeOf(s, e).action, e.key, e.log, LiveResponse);
        SettleResponses(s.rrt.logs.Peek(e.key), e.log, s.timeouts.EntryOf(e.Flow()), e.reversed, e.limit);
      }
    case PopEvent(f, end, d) =>
    case CollectEvent(f) => DropTotal(s.rrt.logs, KeysOf(s.rrt.flows, f).entries);
    case RemoveEvent(f) => DropTotal(s.rrt.logs, KeysOf(s.rrt.flows, f).entries);
  }

  /** Over every run: responses seen are those returned, those that wait in the cache,
      those dropped while they waited, and those whose request is blacklisted. */
  lemma {:induction false} ResponsesConserved(cap: nat, run: seq<Event>)
    requires 1 <= cap
    ensures var c := RunResponses(cap, run);
            c.seen == c.returned + CountIf(After(cap, run).rrt.logs.entries, LiveResponse) + c.dropped + c.discarded
  {
    if run != [] {
      ResponsesConserved(cap, run[..|run| - 1]);
      AfterSane(cap, run[..|run| - 1]);
      EventWaits(After(cap, run[..|run| - 1]), run[|run| - 1]);
    }
  }

  // ---------- response times ----------

  ghost predicate Sample(x: Stats, rrt: nat) {
    x.rrtCount == 1 && x.rrtSum == rrt && x.rrtMax == Low32(rrt)
  }

  predicate NoSample(x: Stats) { x.rrtCount == 0 && x.rrtSum == 0 && x.rrtMax == 0 }

  lemma NoSampleYet(a: Log, b: Log)
    ensures NoSample(StatsOf(a)) && NoSample(Merge(StatsOf(a), StatsOf(b)))
  {
    var x, y := StatsOf(a), StatsOf(b);
    assert NoSample(x);
    assert NoSample(y);
  }

  lemma FirstSample(x: Stats, rrt: nat)
    requires rrt > 0 && NoSample(x)
    ensures Sample(WithRrt(x, rrt), rrt)
  {
    hide Low32;
  }

  /** A time is measured for a pair that counts on both sides, if it is in time or the
      response came first; it is the distance of the two logs and never zero. */
  lemma MeasuredIff(prev: Option<Log>, cur: Log, entry: Entry, d: bool, limit: nat)
    ensures var o := Settle(prev, cur, entry, d, limit);
            var measured := prev.Some? && !prev.value.onBlacklist && !cur.onBlacklist &&
                            ((IsPair(prev.value, cur) && cur.time - prev.value.time <= limit) ||
                             IsPair(cur, prev.value));
            && (o.stats.Some? && o.stats.value.rrtCount > 0 <==> measured)
            && (measured ==>
                  var rrt := if cur.time > prev.value.time then cur.time - prev.value.time
                             else prev.value.time - cur.time;
                  rrt > 0 && Sample(o.stats.value, rrt))
  {
    hide WithRrt, StatsOf, Merge, Low32, Entry.AddTimeout, Entry.AddInCache, Entry.SubInCache;
    NoSampleYet(cur, cur);
    if prev.Some? {
      var p := prev.value;
      NoSampleYet(p, cur);
      NoSampleYet(cur, p);
      if cur.time != p.time {
        var rrt := if cur.time > p.time then cur.time - p.time else p.time - cur.time;
        FirstSample(StatsOf(cur), rrt);
        FirstSample(Merge(StatsOf(cur), StatsOf(p)), rrt);
      }
    }
  }

  // ---------- order of arrival ----------

  function OrNothing(stats: Option<Stats>): Stats {
    match stats
    case Some(x) => x
    case None => NO_STATS
  }

  /** What two logs in a row report together. */
  function Reported(s: Perf, a: Info, b: Info): Stats {
    Merge(OrNothing(Returned(s, a)), OrNothing(Returned(Process(s, a), b)))
  }

  /** Equal but for the time of the last debug message. */
  predicate Same(a: Perf, b: Perf) {
    a.timeouts == b.timeouts && a.rrt.(lastLogTime := 0) == b.rrt.(lastLogTime := 0)
  }

  /** Putting a new log and taking it out again leaves the same cache, whatever the log. */
  lemma PutThenPop(rrt: Rrt, k: Key, v: Log, w: Log)
    requires Sound(rrt) && !rrt.logs.Has(k)
    ensures var a, b := rrt.Put(k, v), rrt.Put(k, w);
            && a.logs.Touch(k) == a.logs
            && a.Pop(k).(lastLogTime := 0) == b.Pop(k).(lastLogTime := 0)
  {
    var a, b := rrt.Put(k, v), rrt.Put(k, w);
    SparedEffect(rrt, k);
    SparedKeepsKey(rrt, k);
    assert a.logs.entries[0] == (k, v) && b.logs.entries[0] == (k, w) && a.logs.entries[1..] == b.logs.entries[1..];
    assert a.logs.entries == [(k, v)] + a.logs.entries[1..];
  }

  lemma AddThenSub(e: Entry, d: bool)
    ensures e.AddInCache(d).SubInCache(d) == e
  {
  }

  /** The counters after two logs of the flow in a row. */
  lemma StoreTwice(t: Timeouts, f: nat, x: Entry, y: Entry)
    requires t.flows.Valid()
    ensures t.GetOrInsert(f).Store(f, x).GetOrInsert(f).Store(f, y) == t.GetOrInsert(f).Store(f, y)
    ensures t.GetOrInsert(f).Store(f, x).EntryOf(f) == x
  {
    InsertEffect(t.flows, f);
    var a := t.GetOrInsert(f);
    WriteEffect(a.flows, f, x);
    var b := a.Store(f, x);
    assert b.flows.entries[0] == (f, x) && b.flows.entries[1..] == a.flows.entries[1..];
    TouchFront(b.flows, f);
  }

  /** The second log of a pair under a fresh key. */
  lemma SecondLog(s: Perf, a: Info, b: Info)
    requires Sane(s) && a.Paired() && b.Paired() && a.key == b.key && !s.rrt.logs.Has(a.key)
    ensures Returned(s, a) == if a.log.LiveRequest() then Some(StatsOf(a.log)) else None
    ensures var f, e := a.Flow(), s.timeouts.EntryOf(a.Flow());
            var e1 := if a.log.LiveRequest() then e.AddInCache(a.reversed) else e;
            var o := Settle(Some(a.log), b.log, e1, b.reversed, b.limit);
            && Returned(Process(s, a), b) == o.stats
            && Process(Process(s, a), b).timeouts == s.timeouts.GetOrInsert(f).Store(f, o.entry)
            && (o.action.PopKey? ==> Process(Process(s, a), b).rrt == s.rrt.Put(a.key, a.log).Pop(a.key))
  {
    hide SettleResponse, SettleRequest, SettleOther, StatsOf, Entry.AddInCache, Entry.SubInCache, Rrt.Put, Rrt.Pop;
    var o := OutcomeOf(s, a);
    PutRrt(s.rrt, a.key, a.log);
    PutThenPop(s.rrt, a.key, a.log, a.log);
    StoreTwice(s.timeouts, a.Flow(), o.entry, OutcomeOf(Process(s, a), b).entry);
  }

  /** The statistics of a pair, for either order of arrival. */
  lemma PairReports(a: Log, b: Log, e: Entry, d: bool, limit: nat)
    requires IsPair(a, b)
    ensures var first := if a.onBlacklist then NO_STATS else StatsOf(a);
            var inOrder := Settle(Some(a), b, if a.onBlacklist then e else e.AddInCache(d), d, limit);
            var swapped := Settle(Some(b), a, e, d, limit);
            && (Merge(first, OrNothing(inOrder.stats)) == Merge(NO_STATS, OrNothing(swapped.stats)) <==>
                a.onBlacklist || b.onBlacklist || b.time - a.time <= limit)
            && inOrder.entry == swapped.entry && inOrder.action == swapped.action == PopKey
  {
    hide WithRrt, StatsOf, Merge, Low32, Entry.AddTimeout, Entry.AddInCache, Entry.SubInCache;
    var x, y, rrt := StatsOf(a), StatsOf(b), b.time - a.time;
    AddThenSub(e, d);
    NoSampleYet(a, b);
    UpdateMerge(x, y, rrt);
    FirstSample(Merge(x, y), rrt);
    MergeNothing(x);
    MergeNothing(WithRrt(Merge(x, y), rrt));
  }

  lemma MergeNothing(x: Stats)
    ensures Merge(NO_STATS, x) == x == Merge(x, NO_STATS)
  {
  }

  lemma UpdateMerge(x: Stats, y: Stats, rrt: nat)
    requires x.rrtMax == 0
    ensures Merge(x, WithRrt(y, rrt)) == WithRrt(Merge(x, y), rrt)
  {
    hide Low32;
  }

  /** For a request and its later response under a fresh key, the order of arrival never
      matters to the caches and the counters. It does not matter to the statistics either,
      except when both count and the response is late: then only the response that came
      first has its time measured. */
  lemma ArrivalOrder(s: Perf, a: Info, b: Info)
    requires Sane(s) && a.Paired() && b.Paired() && b == a.(log := b.log) && !s.rrt.logs.Has(a.key)
    requires IsPair(a.log, b.log)
    ensures Same(Process(Process(s, a), b), Process(Process(s, b), a))
    ensures Reported(s, a, b) == Reported(s, b, a) <==>
            a.log.onBlacklist || b.log.onBlacklist || b.log.time - a.log.time <= a.limit
  {
    hide Process, Returned, Rrt.Put, Rrt.Pop, LruCache.Peek, Sound, Settle, StatsOf, Merge, Entry.AddInCache;
    SecondLog(s, a, b);
    SecondLog(s, b, a);
    PutThenPop(s.rrt, a.key, a.log, b.log);
    PairReports(a.log, b.log, s.timeouts.EntryOf(a.Flow()), a.reversed, a.limit);
  }

  lemma SampleAdded(x: Stats, rrt: nat)
    requires rrt > 0 && NoSample(x)
    ensures WithRrt(x, rrt) == x.(rrtCount := 1, rrtSum := rrt, rrtMax := Low32(rrt))
  {
    hide Low32;
  }

  /** A request and its response together: nothing if the request is blacklisted. */
  function PairStats(a: Log, b: Log, limit: nat): Stats
    requires IsPair(a, b)
  {
    var live, rrt := !b.onBlacklist, b.time - a.time;
    var inTime := live && rrt <= limit;
    if a.onBlacklist then NO_STATS
    else
      Stats(1, One(live), One(a.status.ClientError?) + One(live && b.status.ClientError?),
            One(a.status.ServerError?) + One(live && b.status.ServerError?), 0,
            One(inTime), if inTime then rrt else 0, if inTime then rrt % 0x1_0000_0000 else 0, 0)
  }

  lemma PairStatsIs(a: Log, b: Log, limit: nat)
    requires IsPair(a, b)
    ensures var both, rrt := Merge(StatsOf(a), StatsOf(b)), b.time - a.time;
            PairStats(a, b, limit) ==
            if a.onBlacklist then NO_STATS
            else if b.onBlacklist then StatsOf(a)
            else if rrt > limit then both
            else both.(rrtCount := 1, rrtSum := rrt, rrtMax := Low32(rrt))
  {
    AloneIs(a);
    AloneIs(b);
    hide StatsOf;
    hide Merge;
    if !a.onBlacklist && !b.onBlacklist { BothCount(a, b); }
  }

  lemma BothCount(a: Log, b: Log)
    requires !a.onBlacklist && !b.onBlacklist
    ensures var x := Merge(StatsOf(a), StatsOf(b));
            && x.requests == One(a.msgType.Request?) + One(b.msgType.Request?)
            && x.responses == One(a.msgType.Response?) + One(b.msgType.Response?)
            && x.errClient == One(a.status.ClientError?) + One(b.status.ClientError?)
            && x.errServer == One(a.status.ServerError?) + One(b.status.ServerError?)
            && x.errTimeout == x.rrtCount == x.rrtSum == x.rrtMax == x.tlsRtt == 0
  {
    hide StatsOf, One;
    LiveCounts(a);
    LiveCounts(b);
  }

  lemma LiveCounts(a: Log)
    requires !a.onBlacklist
    ensures var x := StatsOf(a);
            && x.requests == One(a.msgType.Request?) && x.responses == One(a.msgType.Response?)
            && x.errClient == One(a.status.ClientError?) && x.errServer == One(a.status.ServerError?)
            && x.errTimeout == x.rrtCount == x.rrtSum == x.rrtMax == x.tlsRtt == 0
  {
  }

  lemma PairInOrder(a: Log, b: Log, e: Entry, d: bool, limit: nat)
    requires IsPair(a, b)
    ensures Merge(if a.onBlacklist then NO_STATS else StatsOf(a), OrNothing(Settle(Some(a), b, e, d, limit).stats)) ==
            PairStats(a, b, limit)
  {
    hide WithRrt, StatsOf, Merge, Low32, PairStats, Entry.AddTimeout, Entry.AddInCache, Entry.SubInCache;
    var x, y, rrt := StatsOf(a), StatsOf(b), b.time - a.time;
    PairStatsIs(a, b, limit);
    NoSampleYet(a, b);
    UpdateMerge(x, y, rrt);
    SampleAdded(Merge(x, y), rrt);
    MergeNothing(x);
    MergeNothing(NO_STATS);
  }

  /** What a request and its later response under a fresh key report in order: nothing if
      the request is blacklisted, the request alone if the response is, and else one request,
      one response, an error for each of the two that has that status, and the time between
      them if it is within the limit. */
  lemma PairReported(s: Perf, a: Info, b: Info)
    requires Sane(s) && a.Paired() && b.Paired() && b == a.(log := b.log) && !s.rrt.logs.Has(a.key)
    requires IsPair(a.log, b.log)
    ensures Reported(s, a, b) == PairStats(a.log, b.log, a.limit)
  {
    hide Process, Returned, Settle, Rrt.Put, Rrt.Pop, LruCache.Peek, Sound, StatsOf, Merge, PairStats,
         Entry.AddInCache;
    SecondLog(s, a, b);
    var e := s.timeouts.EntryOf(a.Flow());
    PairInOrder(a.log, b.log, if a.log.onBlacklist then e else e.AddInCache(a.reversed), a.reversed, a.limit);
  }

  /** A request at 1 and its response at 100 with a limit of 10 report differently in the two
      orders. */
  lemma LateExample(s: Perf, a: Info, b: Info)
    requires Sane(s) && b == a.(log := b.log) && !s.rrt.logs.Has(a.key) && a.aggregated && a.limit == 10
    requires a.log == Log(Request, 1, Ok, false) && b.log == Log(Response, 100, Ok, false)
    ensures Reported(s, a, b) != Reported(s, b, a)
  {
    hide Reported, Process;
    ArrivalOrder(s, a, b);
  }

  /** A key that is met from the other direction also finds a counter at zero, so the laws ask
      that a key keeps its direction. */
  lemma TurnedSaturates(s: Perf, a: Info, b: Info)
    requires Sane(s) && a.Paired() && b == a.(log := b.log, reversed := !a.reversed) && b.Paired()
    requires a.log.LiveRequest() && !s.rrt.logs.Has(a.key) && s.timeouts.EntryOf(a.Flow()).inCache.At(b.reversed) == 0
    ensures LogRequests(Process(s, a), b, a.Flow(), b.reversed).saturated == 1
  {
    hide Settle;
    var entry := s.timeouts.EntryOf(a.Flow());
    PutRrt(s.rrt, a.key, a.log);
    SettleInCache(None, a.log, entry, a.reversed, a.limit);
    StoreEffect(s.timeouts, a.Flow(), OutcomeOf(s, a).entry);
  }
}
