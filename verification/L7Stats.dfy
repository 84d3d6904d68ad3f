/** Logs, cache keys and performance counters: `LogCache`, `LogCacheKey` and
    `From<&LogCache> for L7PerfStats` of src/common/l7_protocol_log.rs, and the
    `L7PerfStats` operations of src/common/flow.rs. Logs that are merged more than once
    (`multi_merge_info`) are not part of this model. */
module L7Stats {
  import opened Words

  datatype MessageType = Request | Response | Session | Other

  datatype ResponseStatus = Ok | ClientError | ServerError | OtherStatus

  datatype Log = Log(msgType: MessageType, time: nat, status: ResponseStatus, onBlacklist: bool) {
    predicate IsRequestOf(other: Log) { msgType.Request? && other.msgType.Response? && time < other.time }
    predicate IsResponseOf(other: Log) { msgType.Response? && other.msgType.Request? && time > other.time }
    /** A request, or a response, that counts. */
    predicate LiveRequest() { msgType.Request? && !onBlacklist }
    predicate LiveResponse() { msgType.Response? && !onBlacklist }
  }

  datatype Stats = Stats(requests: nat, responses: nat, errClient: nat, errServer: nat, errTimeout: nat,
                         rrtCount: nat, rrtSum: nat, rrtMax: nat, tlsRtt: nat)

  const NO_STATS := Stats(0, 0, 0, 0, 0, 0, 0, 0, 0)

  /** `L7PerfStats::from(&LogCache)`. */
  function StatsOf(log: Log): Stats {
    if log.onBlacklist then NO_STATS
    else
      Stats(if log.msgType.Request? then 1 else 0, if log.msgType.Response? then 1 else 0,
            if log.status.ClientError? then 1 else 0, if log.status.ServerError? then 1 else 0, 0, 0, 0, 0, 0)
  }

  function Max(a: nat, b: nat): (m: nat)
    ensures a <= m && b <= m && (m == a || m == b)
  {
    if a < b then b else a
  }

  /** `sequential_merge`. */
  function Merge(a: Stats, b: Stats): Stats {
    Stats(a.requests + b.requests, a.responses + b.responses, a.errClient + b.errClient, a.errServer + b.errServer,
          a.errTimeout + b.errTimeout, a.rrtCount + b.rrtCount, a.rrtSum + b.rrtSum, Max(a.rrtMax, b.rrtMax),
          a.tlsRtt + b.tlsRtt)
  }

  /** Merging is commutative and associative; with itself it doubles every counter but the
      maximum. */
  lemma MergeLaws(a: Stats, b: Stats, c: Stats)
    ensures Merge(a, b) == Merge(b, a) && Merge(Merge(a, b), c) == Merge(a, Merge(b, c))
    ensures Merge(a, a) == Stats(2 * a.requests, 2 * a.responses, 2 * a.errClient, 2 * a.errServer, 2 * a.errTimeout,
                                 2 * a.rrtCount, 2 * a.rrtSum, a.rrtMax, 2 * a.tlsRtt)
    ensures Merge(a, b).rrtMax >= a.rrtMax
  {
  }

  /** A cast to 32 bits. */
  function Low32(n: nat): (r: nat)
    ensures r < 0x1_0000_0000 && n == 0x1_0000_0000 * (n / 0x1_0000_0000) + r
  {
    n % 0x1_0000_0000
  }

  /** `update_rrt`: a zero sample is ignored, the maximum keeps only 32 bits. */
  function WithRrt(s: Stats, rrt: nat): Stats {
    if rrt == 0 then s
    else s.(rrtMax := Max(s.rrtMax, Low32(rrt)), rrtSum := s.rrtSum + rrt, rrtCount := s.rrtCount + 1)
  }

  /** The contribution of one `merge_perf`. */
  function Single(requests: nat, responses: nat, requestErrors: nat, responseErrors: nat, rrt: nat,
                  tlsRtt: nat): Stats {
    Stats(requests, responses, requestErrors, responseErrors, 0,
          if rrt == 0 then 0 else 1, rrt, Low32(rrt), Low32(tlsRtt))
  }

  class L7PerfStats {
    var requests: nat
    var responses: nat
    var errClient: nat
    var errServer: nat
    var errTimeout: nat
    var rrtCount: nat
    var rrtSum: nat
    var rrtMax: nat
    var tlsRtt: nat

    function Value(): Stats
      reads this
    {
      Stats(requests, responses, errClient, errServer, errTimeout, rrtCount, rrtSum, rrtMax, tlsRtt)
    }

    constructor Default()
      ensures Value() == NO_STATS
    {
      requests, responses, errClient, errServer, errTimeout := 0, 0, 0, 0, 0;
      rrtCount, rrtSum, rrtMax, tlsRtt := 0, 0, 0, 0;
    }

    constructor From(log: Log)
      ensures Value() == StatsOf(log)
    {
      var counts := !log.onBlacklist;
      requests := if counts && log.msgType.Request? then 1 else 0;
      responses := if counts && log.msgType.Response? then 1 else 0;
      errClient := if counts && log.status.ClientError? then 1 else 0;
      errServer := if counts && log.status.ServerError? then 1 else 0;
      errTimeout, rrtCount, rrtSum, rrtMax, tlsRtt := 0, 0, 0, 0, 0;
    }

    method SequentialMerge(other: L7PerfStats)
      modifies this
      ensures Value() == Merge(old(Value()), old(other.Value()))
    {
      requests := requests + other.requests;
      responses := responses + other.responses;
      errClient := errClient + other.errClient;
      errServer := errServer + other.errServer;
      errTimeout := errTimeout + other.errTimeout;
      rrtCount := rrtCount + other.rrtCount;
      rrtSum := rrtSum + other.rrtSum;
      if rrtMax < other.rrtMax {
        rrtMax := other.rrtMax;
      }
      tlsRtt := tlsRtt + other.tlsRtt;
    }

    method MergePerf(req: nat, resp: nat, reqErr: nat, respErr: nat, rrt: nat, tls: nat)
      modifies this
      ensures Value() == Merge(old(Value()), Single(req, resp, reqErr, respErr, rrt, tls))
    {
      requests := requests + req;
      responses := responses + resp;
      errClient := errClient + reqErr;
      errServer := errServer + respErr;
      if rrt != 0 {
        rrtMax := Max(rrtMax, Low32(rrt));
        rrtSum := rrtSum + rrt;
        rrtCount := rrtCount + 1;
      }
      if tls != 0 {
        tlsRtt := tlsRtt + Low32(tls);
      }
    }

    method IncReq()
      modifies this
      ensures Value() == old(Value()).(requests := old(requests) + 1)
    {
      MergePerf(1, 0, 0, 0, 0, 0);
    }

    method IncResp()
      modifies this
      ensures Value() == old(Value()).(responses := old(responses) + 1)
    {
      MergePerf(0, 1, 0, 0, 0, 0);
    }

    method UpdateRrt(rrt: nat)
      modifies this
      ensures Value() == WithRrt(old(Value()), rrt)
    {
      MergePerf(0, 0, 0, 0, rrt, 0);
    }
  }

  // ---------- cache keys ----------

  const WORD: nat := 0x1_0000_0000_0000_0000
  const HALF: nat := 0x8000_0000_0000_0000

  /** A 128-bit key: the flow id in the upper word. */
  type Key = nat

  function FlowOf(k: Key): nat { k / WORD }

  /** `LogCacheKey::is_reversed` compares the masked bit 63 with 1. */
  predicate IsReversed(k: Key) {
    (if k % WORD >= HALF then HALF else 0) == 1
  }

  /** The bit that `LogCacheKey::new` sets for reversed logs. */
  predicate DirectionBit(k: Key) { k % WORD >= HALF }

  datatype Sequence = NoEbpf | Ebpf(clientToServer: bool, startSeq: nat, endSeq: nat)

  /** `LogCacheKey::new`; the parts occupy disjoint bits. */
  function NewKey(flow: nat, session: Option<nat>, s: Sequence, reversed: bool): Key {
    var bit := if reversed then HALF else 0;
    match session
    case Some(sid) => flow * WORD + bit + sid
    case None =>
      if s.NoEbpf? then flow * WORD
      else flow * WORD + bit + (if s.clientToServer then s.endSeq + 1 else s.startSeq) % HALF
  }

  /** The parts of a key: the flow, the direction if there is a session id or an eBPF sequence
      number, and that id or 63 bits of the number. */
  lemma NewKeyParts(flow: nat, session: Option<nat>, s: Sequence, reversed: bool)
    requires session.Some? ==> session.value < 0x1_0000_0000
    ensures FlowOf(NewKey(flow, session, s, reversed)) == flow
    ensures DirectionBit(NewKey(flow, session, s, reversed)) <==> reversed && (session.Some? || s.Ebpf?)
    ensures NewKey(flow, session, s, reversed) % 0x8000_0000_0000_0000 ==
            match session {
              case Some(id) => id
              case None =>
                if s.NoEbpf? then 0
                else (if s.clientToServer then s.endSeq + 1 else s.startSeq) % 0x8000_0000_0000_0000
            }
  {
    var k := NewKey(flow, session, s, reversed);
    var low := k - flow * WORD;
    assert 0 <= low < WORD;
    assert k == flow * WORD + low;
    PartsOfKey(flow, low >= HALF, if low >= HALF then low - HALF else low);
  }

  lemma PartsOfKey(flow: nat, bit: bool, low: nat)
    requires low < HALF
    ensures (flow * WORD + (if bit then HALF else 0) + low) % HALF == low
  {
    var n := 2 * flow + if bit then 1 else 0;
    assert flow * WORD + (if bit then HALF else 0) + low == n * HALF + low;
  }

  // ---------- when two logs meet under one key ----------

  lemma KeySplit(f: nat, a: nat, g: nat, b: nat)
    requires a < WORD && b < WORD
    ensures f * WORD + a == g * WORD + b <==> f == g && a == b
  {
    assert (f * WORD + a) / WORD == f && (g * WORD + b) / WORD == g;
  }

  /** Bit 63 and the 63 bits below it. */
  lemma LowSplit(d: bool, a: nat, e: bool, b: nat)
    requires a < HALF && b < HALF
    ensures (if d then HALF else 0) + a == (if e then HALF else 0) + b <==> d == e && a == b
  {
  }

  /** With session ids, two logs share a key exactly when flow, direction and id agree. */
  lemma SessionKeyIff(f: nat, a: nat, s: Sequence, d: bool, g: nat, b: nat, t: Sequence, e: bool)
    requires a < 0x1_0000_0000 && b < 0x1_0000_0000
    ensures NewKey(f, Some(a), s, d) == NewKey(g, Some(b), t, e) <==> f == g && d == e && a == b
  {
    LowSplit(d, a, e, b);
    KeySplit(f, (if d then HALF else 0) + a, g, (if e then HALF else 0) + b);
  }

  /** From eBPF: exactly when flow and direction agree and the sequence numbers do modulo
      2^63, where a packet from the client counts the number after its last one. */
  lemma EbpfKeyIff(f: nat, s: Sequence, d: bool, g: nat, t: Sequence, e: bool)
    requires s.Ebpf? && t.Ebpf?
    ensures var m := if s.clientToServer then s.endSeq + 1 else s.startSeq;
            var n := if t.clientToServer then t.endSeq + 1 else t.startSeq;
            NewKey(f, None, s, d) == NewKey(g, None, t, e) <==>
            f == g && d == e && m % 0x8000_0000_0000_0000 == n % 0x8000_0000_0000_0000
  {
    var m := (if s.clientToServer then s.endSeq + 1 else s.startSeq) % HALF;
    var n := (if t.clientToServer then t.endSeq + 1 else t.startSeq) % HALF;
    LowSplit(d, m, e, n);
    KeySplit(f, (if d then HALF else 0) + m, g, (if e then HALF else 0) + n);
  }

  /** Without either, all logs of a flow share one key, whatever their direction; it is the
      key of session id 0 and of sequence number 0 in forward direction. */
  lemma PlainKeyIff(f: nat, d: bool, g: nat, e: bool, id: nat)
    requires id < 0x1_0000_0000
    ensures NewKey(f, None, NoEbpf, d) == NewKey(g, None, NoEbpf, e) <==> f == g
    ensures NewKey(f, None, NoEbpf, d) == NewKey(g, Some(id), NoEbpf, e) <==> f == g && !e && id == 0
  {
    LowSplit(false, 0, e, id);
    KeySplit(f, 0, g, 0);
    KeySplit(f, 0, g, (if e then HALF else 0) + id);
  }

  /** An eBPF request and its response with the next sequence number meet under one key. */
  lemma PairMeets(flow: nat, requestEnd: nat, responseStart: nat, a: nat, b: nat, reversed: bool)
    requires responseStart == requestEnd + 1
    ensures NewKey(flow, None, Ebpf(true, a, requestEnd), reversed) ==
            NewKey(flow, None, Ebpf(false, responseStart, b), reversed)
  {
  }

  /** The comparison with 1 never holds. */
  lemma NeverReversed(k: Key)
    ensures !IsReversed(k)
  {
  }
}
