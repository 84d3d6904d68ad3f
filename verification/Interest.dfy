/** `PortRangeList::create_table` and `interest` of src/common/port_range.rs: a list
    of possibly overlapping port ranges is cut into its elementary pieces by one
    sweep over a table with a status for every port. */
module Interest {
  import opened Words
  import opened PortSegments
  import opened PortList

  datatype PortStatus = RangeNone | RangeIn | RangeEdge | RangeLeft | RangeRight

  const PORTS: nat := 0x1_0000

  // ---------- the status of a port, independent of the order of the list ----------

  ghost predicate Single(list: seq<PortRange>, p: nat) {
    exists r :: r in list && r.min == p && r.max == p
  }

  ghost predicate OpensAt(list: seq<PortRange>, p: nat) {
    exists r :: r in list && r.min == p && r.max != p
  }

  ghost predicate ClosesAt(list: seq<PortRange>, p: nat) {
    exists r :: r in list && r.max == p && r.min != p
  }

  ghost predicate Inside(list: seq<PortRange>, p: nat) {
    exists r :: r in list && r.min < p < r.max
  }

  ghost function StatusOf(list: seq<PortRange>, p: nat): PortStatus {
    if Single(list, p) || (OpensAt(list, p) && ClosesAt(list, p)) then RangeEdge
    else if OpensAt(list, p) then RangeLeft
    else if ClosesAt(list, p) then RangeRight
    else if Inside(list, p) then RangeIn
    else RangeNone
  }

  ghost predicate IsTable(table: seq<PortStatus>, list: seq<PortRange>) {
    |table| == PORTS && forall p :: 0 <= p < PORTS ==> table[p] == StatusOf(list, p)
  }

  /** What one more range does to a status. */
  function AddRange(s: PortStatus, r: PortRange, p: nat): PortStatus {
    if r.min == r.max then (if p == r.min then RangeEdge else s)
    else if p == r.min then (if s == RangeRight || s == RangeEdge then RangeEdge else RangeLeft)
    else if p == r.max then (if s == RangeLeft || s == RangeEdge then RangeEdge else RangeRight)
    else if r.min < p < r.max && s == RangeNone then RangeIn
    else s
  }

  lemma StatusSnoc(list: seq<PortRange>, r: PortRange, p: nat)
    ensures StatusOf(list + [r], p) == AddRange(StatusOf(list, p), r, p)
  {
    assert r in list + [r];
    assert forall x :: x in list + [r] <==> x in list || x == r;
  }

  method CreateTable(list: seq<PortRange>, table: array<PortStatus>)
    requires table.Length == PORTS && forall p :: 0 <= p < PORTS ==> table[p] == RangeNone
    modifies table
    ensures IsTable(table[..], list)
  {
    hide StatusOf;
    StatusEmpty();
    for k := 0 to |list|
      invariant forall p :: 0 <= p < PORTS ==> table[p] == StatusOf(list[..k], p)
    {
      var port := list[k];
      assert list[..k + 1] == list[..k] + [port];
      forall p | 0 <= p < PORTS ensures StatusOf(list[..k + 1], p) == AddRange(table[p], port, p) {
        StatusSnoc(list[..k], port, p);
      }
      MarkRange(table, port);
    }
    assert list[..|list|] == list;
  }

  lemma StatusEmpty()
    ensures forall p: nat :: StatusOf([], p) == RangeNone
  {
  }

  method MarkRange(table: array<PortStatus>, port: PortRange)
    requires table.Length == PORTS
    modifies table
    ensures forall p :: 0 <= p < PORTS ==> table[p] == AddRange(old(table[p]), port, p)
  {
    if port.min == port.max {
      table[port.min] := RangeEdge;
      return;
    }
    if table[port.min] == RangeRight || table[port.min] == RangeEdge {
      table[port.min] := RangeEdge;
    } else {
      table[port.min] := RangeLeft;
    }
    if table[port.max] == RangeLeft || table[port.max] == RangeEdge {
      table[port.max] := RangeEdge;
    } else {
      table[port.max] := RangeRight;
    }
    var i: nat := port.min + 1;
    while i < port.max
      invariant i > port.min
      invariant forall p :: 0 <= p < PORTS && !(i <= p < port.max) ==> table[p] == AddRange(old(table[p]), port, p)
      invariant forall p :: i <= p < port.max ==> table[p] == old(table[p])
    {
      if table[i] == RangeNone { table[i] := RangeIn; }
      i := i + 1;
    }
  }

  // ---------- cuts and signatures ----------

  /** The two ports lie in the same ranges. */
  ghost predicate SameRanges(list: seq<PortRange>, p: nat, q: nat) {
    forall r :: r in list ==> (r.Contains(p) <==> r.Contains(q))
  }

  ghost predicate CutBefore(list: seq<PortRange>, p: nat) {
    exists r :: r in list && r.min == p
  }

  ghost predicate CutAfter(list: seq<PortRange>, p: nat) {
    exists r :: r in list && r.max == p
  }

  lemma StatusIsCuts(list: seq<PortRange>, p: nat)
    ensures StatusOf(list, p) == RangeEdge <==> Single(list, p) || (OpensAt(list, p) && ClosesAt(list, p))
    ensures StatusOf(list, p) in {RangeEdge, RangeLeft} <==> CutBefore(list, p)
    ensures StatusOf(list, p) in {RangeEdge, RangeRight} <==> CutAfter(list, p)
    ensures NoneInverted(list) ==> (StatusOf(list, p) == RangeNone <==> !Denotes(list, p))
  {
    if CutBefore(list, p) {
      var r :| r in list && r.min == p;
      assert if r.max == p then Single(list, p) else OpensAt(list, p);
    }
    if CutAfter(list, p) {
      var r :| r in list && r.max == p;
      assert if r.min == p then Single(list, p) else ClosesAt(list, p);
    }
    if NoneInverted(list) && Denotes(list, p) {
      var r :| r in list && r.Contains(p);
      assert Single(list, p) || OpensAt(list, p) || ClosesAt(list, p) || Inside(list, p);
    }
  }

  /** Neighbouring ports are in the same ranges exactly when nothing cuts between them. */
  lemma CutsSeparate(list: seq<PortRange>, p: nat)
    requires NoneInverted(list)
    ensures SameRanges(list, p, p + 1) <==> !CutAfter(list, p) && !CutBefore(list, p + 1)
  {
  }

  ghost predicate Uncut(list: seq<PortRange>, lo: nat, end: nat) {
    && (forall q :: lo < q < end ==> !CutBefore(list, q))
    && (forall q :: lo <= q < end - 1 ==> !CutAfter(list, q))
  }

  /** Without a cut in between, a whole stretch lies in the same ranges. */
  lemma UncutSame(list: seq<PortRange>, lo: nat, end: nat, p: nat)
    requires Uncut(list, lo, end) && lo <= p < end
    ensures SameRanges(list, lo, p)
  {
    forall r | r in list ensures r.Contains(lo) <==> r.Contains(p) {
      assert lo < r.min <= p ==> CutBefore(list, r.min);
      assert lo <= r.max < p ==> CutAfter(list, r.max);
    }
  }

  // ---------- elementary pieces ----------

  ghost predicate Ascending(out: seq<PortRange>) {
    forall j :: 0 <= j < |out| - 1 ==> out[j].max < out[j + 1].min
  }

  /** A piece never straddles the border of a range. */
  ghost predicate Homogeneous(out: seq<PortRange>, list: seq<PortRange>) {
    forall j, p :: 0 <= j < |out| && out[j].Contains(p) ==> SameRanges(list, out[j].min, p)
  }

  /** Two pieces that touch lie in different ranges. */
  ghost predicate Coarse(out: seq<PortRange>, list: seq<PortRange>) {
    forall j :: 0 <= j < |out| - 1 && out[j].max + 1 == out[j + 1].min ==>
      !SameRanges(list, out[j].max, out[j + 1].min)
  }

  ghost predicate SameBelow(out: seq<PortRange>, list: seq<PortRange>, end: nat) {
    forall p: nat :: Denotes(out, p) <==> p < end && Denotes(list, p)
  }

  /** `out` is the elementary decomposition of the ports below `end`. */
  ghost predicate Pieces(out: seq<PortRange>, list: seq<PortRange>, end: nat) {
    && (forall j :: 0 <= j < |out| ==> out[j].min <= out[j].max < end)
    && Ascending(out) && Homogeneous(out, list) && Coarse(out, list)
    && SameBelow(out, list, end)
  }

  /** The decomposition of all ports. */
  ghost predicate Elementary(out: seq<PortRange>, list: seq<PortRange>) {
    Pieces(out, list, PORTS)
  }

  lemma DenotesSnoc(out: seq<PortRange>, r: PortRange, p: nat)
    ensures Denotes(out + [r], p) <==> Denotes(out, p) || r.Contains(p)
  {
    assert r in out + [r];
    assert forall x :: x in out + [r] <==> x in out || x == r;
  }

  // ---------- what the sweep returns, for every list ----------

  /** A range begins at the port, or one ends right in front of it. */
  ghost predicate Border(list: seq<PortRange>, p: nat) {
    CutBefore(list, p) || (p > 0 && CutAfter(list, p - 1))
  }

  ghost predicate NoBorder(list: seq<PortRange>, lo: nat, end: nat) {
    forall q :: lo < q < end ==> !Border(list, q)
  }

  /** From a border to the next one, with a status at the first port. */
  ghost predicate Stretch(list: seq<PortRange>, lo: nat, hi: nat) {
    && lo <= hi && Border(list, lo) && Border(list, hi + 1) && NoBorder(list, lo, hi + 1)
    && StatusOf(list, lo) != RangeNone
  }

  /** `out` lists the stretches below `end`, in order. */
  ghost predicate Lists(out: seq<PortRange>, list: seq<PortRange>, end: nat) {
    && Ascending(out)
    && (forall j :: 0 <= j < |out| ==> out[j].max < end && Stretch(list, out[j].min, out[j].max))
    && (forall lo: u16, hi: u16 :: hi < end && Stretch(list, lo, hi) ==> PortRange(lo, hi) in out)
  }

  /** All stretches, in order. */
  ghost predicate Swept(out: seq<PortRange>, list: seq<PortRange>) {
    Lists(out, list, PORTS)
  }

  /** Going on to `end` adds the one stretch in between, if there is one. */
  lemma ListsOn(out: seq<PortRange>, list: seq<PortRange>, base: nat, end: nat)
    requires Lists(out, list, base) && base <= end <= PORTS && NoBorder(list, base, end)
    requires base < end ==> !Border(list, base) || Border(list, end)
    requires !Border(list, base) ==> forall q :: 0 <= q < base ==> !Border(list, q)
    ensures if base < end && Border(list, base) && StatusOf(list, base) != RangeNone
            then Lists(out + [PortRange(base, end - 1)], list, end)
            else Lists(out, list, end)
  {
    hide StatusOf, Border;
    forall lo: u16, hi: u16 | base <= hi < end && Stretch(list, lo, hi) ensures lo == base && hi == end - 1 {
    }
    if base < end && Border(list, base) && StatusOf(list, base) != RangeNone {
      assert Stretch(list, base, end - 1);
      assert PortRange(base, end - 1) in out + [PortRange(base, end - 1)];
    }
  }

  /** State of the sweep before it looks at `port`: the stretches below `base` are listed, and
      no cut was met from `base` on. Before the first cut `base` is 0. */
  ghost predicate Going(out: seq<PortRange>, list: seq<PortRange>, base: nat, met: bool, port: nat) {
    && base <= port && Lists(out, list, base)
    && (if met then Border(list, base) else base == 0 && (port > 0 ==> !CutBefore(list, 0)))
    && (forall q :: base < q < port ==> !CutBefore(list, q))
    && (forall q :: base <= q < port ==> !CutAfter(list, q))
  }

  /** A port without a cut, or a range that begins at `base`. */
  lemma CarryOn(out: seq<PortRange>, list: seq<PortRange>, base: nat, met: bool, port: nat)
    requires Going(out, list, base, met, port) && !CutAfter(list, port)
    requires !CutBefore(list, port) || (met && base == port)
    ensures Going(out, list, base, met, port + 1)
  {
    hide Lists, Border;
  }

  /** The stretch in front of a range that begins. */
  lemma Flush(out: seq<PortRange>, list: seq<PortRange>, base: nat, met: bool, port: u16)
    requires Going(out, list, base, met, port) && CutBefore(list, port)
    ensures if base < port && met && StatusOf(list, base) != RangeNone
            then Going(out + [PortRange(base, port - 1)], list, port, true, port)
            else Going(out, list, port, true, port)
  {
    hide Lists, StatusOf;
    ListsOn(out, list, base, port);
  }

  /** The stretch that a range closes. */
  lemma Close(out: seq<PortRange>, list: seq<PortRange>, base: nat, port: u16)
    requires Going(out, list, base, true, port) && CutAfter(list, port) && (!CutBefore(list, port) || base == port)
    ensures if StatusOf(list, base) != RangeNone
            then Going(out + [PortRange(base, port)], list, port + 1, true, port + 1)
            else Going(out, list, port + 1, true, port + 1)
  {
    hide Lists, StatusOf;
    ListsOn(out, list, base, port + 1);
  }

  lemma Finish(out: seq<PortRange>, list: seq<PortRange>, base: nat)
    requires Going(out, list, base, true, PORTS)
    ensures Swept(out, list)
  {
    hide StatusOf;
    forall lo: u16, hi: u16 | Stretch(list, lo, hi) ensures hi < base {
    }
  }

  /** Whether the first port with a cut is cut only from behind: then the sweep
      reads the table at index -1. */
  ghost predicate Panics(list: seq<PortRange>) {
    exists r :: r in list && forall s :: s in list ==> r.max < s.min
  }

  /** `met` tells whether the sweep has met a left border. */
  ghost predicate Opened(list: seq<PortRange>, met: bool, port: nat) {
    && (!met ==> forall q :: 0 <= q < port ==> !CutBefore(list, q) && !CutAfter(list, q))
    && (met ==> exists s :: s in list && forall r :: r in list ==> s.min <= r.max)
  }

  lemma OpenedAt(list: seq<PortRange>, met: bool, port: nat)
    requires Opened(list, met, port)
    ensures CutBefore(list, port) ==> Opened(list, true, port + 1)
    ensures !CutBefore(list, port) && !CutAfter(list, port) ==> Opened(list, met, port + 1)
    ensures CutAfter(list, port) && !CutBefore(list, port) && !met ==> Panics(list)
    ensures met ==> Opened(list, true, port + 1) && !Panics(list)
  {
    if !met {
      forall r | r in list ensures r.max >= port && r.min >= port {
        assert CutAfter(list, r.max) && CutBefore(list, r.min);
      }
      if CutBefore(list, port) {
        var s :| s in list && s.min == port;
      } else if CutAfter(list, port) {
        var r :| r in list && r.max == port;
        forall s | s in list ensures r.max < s.min {
          assert CutBefore(list, s.min);
        }
      }
    }
  }

  /** The sweep; `None` when it indexes the table at -1. */
  method Sweep(table: array<PortStatus>, ghost list: seq<PortRange>) returns (result: Option<seq<PortRange>>)
    requires list != [] && IsTable(table[..], list)
    ensures result.None? <==> Panics(list)
    ensures result.Some? ==> Swept(result.value, list)
  {
    hide StatusOf, Swept, Going, Opened, Panics, CutBefore, CutAfter, Denotes;
    var out: seq<PortRange> := [];
    var lastPort := -1;
    var port := 0;
    ghost var base: nat := 0;
    Begin(list);
    while port < PORTS
      invariant 0 <= port <= PORTS && -1 <= lastPort <= port
      invariant base == if lastPort >= 0 then lastPort else 0
      invariant Opened(list, lastPort >= 0, port)
      invariant Going(out, list, base, lastPort >= 0, port)
    {
      var status := table[port];
      StatusIsCuts(list, port);
      OpenedAt(list, lastPort >= 0, port);
      match status {
        case RangeEdge =>
          Flush(out, list, base, lastPort >= 0, port);
          if lastPort >= 0 && lastPort != port && table[lastPort] != RangeNone {
            out := out + [PortRange(lastPort, port - 1)];
          }
          Close(out, list, port, port);
          out := out + [PortRange(port, port)];
          lastPort, base := port + 1, port + 1;
        case RangeLeft =>
          Flush(out, list, base, lastPort >= 0, port);
          if lastPort >= 0 && lastPort != port && table[lastPort] != RangeNone {
            out := out + [PortRange(lastPort, port - 1)];
          }
          CarryOn(out, list, port, true, port);
          lastPort, base := port, port;
        case RangeRight =>
          if lastPort < 0 { return None; }
          Close(out, list, base, port);
          if table[lastPort] != RangeNone {
            out := out + [PortRange(lastPort, port)];
          }
          lastPort, base := port + 1, port + 1;
        case _ =>
          CarryOn(out, list, base, lastPort >= 0, port);
      }
      port := port + 1;
    }
    SomeCut(list, lastPort >= 0);
    Finish(out, list, base);
    return Some(out);
  }

  lemma Begin(list: seq<PortRange>)
    ensures Going([], list, 0, false, 0) && Opened(list, false, 0)
  {
  }

  lemma SomeCut(list: seq<PortRange>, met: bool)
    requires list != [] && Opened(list, met, PORTS)
    ensures met && !Panics(list)
  {
    assert list[0] in list;
    assert CutBefore(list, list[0].min);
  }

  /** The whole of `interest`. */
  method InterestRanges(list: seq<PortRange>) returns (result: Option<seq<PortRange>>)
    ensures result.None? <==> Panics(list)
    ensures result.Some? ==> Swept(result.value, list)
    ensures result.Some? && NoneInverted(list) ==> Elementary(result.value, list)
  {
    hide Elementary, Swept;
    if |list| == 0 {
      EmptySwept();
      SweptElementary([], list);
      return Some([]);
    }
    var table := new PortStatus[PORTS](_ => RangeNone);
    CreateTable(list, table);
    result := Sweep(table, list);
    if result.Some? && NoneInverted(list) { SweptElementary(result.value, list); }
  }

  lemma EmptySwept()
    ensures Swept([], []) && NoneInverted([])
  {
  }

  // ---------- upright ranges: the stretches are the elementary pieces ----------

  /** The borders around a covered port. */
  lemma {:induction false} BorderBelow(list: seq<PortRange>, p: nat, n: nat) returns (lo: nat)
    requires n <= p && NoBorder(list, n, p + 1) && NoneInverted(list) && Denotes(list, p)
    ensures lo <= p && Border(list, lo) && NoBorder(list, lo, p + 1)
    decreases n
  {
    if Border(list, n) {
      lo := n;
    } else {
      var r :| r in list && r.Contains(p);
      assert CutBefore(list, r.min) && Border(list, r.min);
      lo := BorderBelow(list, p, n - 1);
    }
  }

  lemma {:induction false} BorderAbove(list: seq<PortRange>, p: nat, n: nat) returns (end: nat)
    requires p < n && NoBorder(list, p, n) && Denotes(list, p)
    ensures p < end && Border(list, end) && NoBorder(list, p, end)
    decreases PORTS + 1 - n
  {
    var r :| r in list && r.Contains(p);
    assert CutAfter(list, r.max) && Border(list, r.max + 1);
    if Border(list, n) {
      end := n;
    } else {
      end := BorderAbove(list, p, n + 1);
    }
  }

  lemma StretchSame(list: seq<PortRange>, lo: nat, hi: nat, p: nat)
    requires NoBorder(list, lo, hi + 1) && lo <= p <= hi
    ensures SameRanges(list, lo, p)
  {
    forall q | lo < q < hi + 1 ensures !CutBefore(list, q) { assert !Border(list, q); }
    forall q | lo <= q < hi ensures !CutAfter(list, q) { assert !Border(list, q + 1); }
    UncutSame(list, lo, hi + 1, p);
  }

  lemma SameDenotes(list: seq<PortRange>, p: nat, q: nat)
    requires SameRanges(list, p, q)
    ensures Denotes(list, p) <==> Denotes(list, q)
  {
  }

  /** A port is covered by the output exactly when a range covers it. */
  lemma SweptCovers(out: seq<PortRange>, list: seq<PortRange>, p: nat)
    requires Swept(out, list) && NoneInverted(list)
    ensures Denotes(out, p) <==> Denotes(list, p)
  {
    hide StatusOf, SameRanges, NoBorder, Border, Denotes;
    if Denotes(out, p) {
      var j := PieceOf(out, p);
      StatusIsCuts(list, out[j].min);
      StretchSame(list, out[j].min, out[j].max, p);
      SameDenotes(list, out[j].min, p);
    }
    if Denotes(list, p) {
      InPorts(list, p);
      var lo := BorderBelow(list, p, p);
      var end := BorderAbove(list, p, p + 1);
      EndInPorts(list, end);
      JoinNoBorder(list, lo, p, end);
      StatusIsCuts(list, lo);
      StretchSame(list, lo, end - 1, p);
      SameDenotes(list, lo, p);
      assert Stretch(list, lo, end - 1);
      PieceCovers(out, PortRange(lo, end - 1), p);
    }
  }

  lemma PieceOf(out: seq<PortRange>, p: nat) returns (j: nat)
    requires Denotes(out, p)
    ensures j < |out| && out[j].Contains(p)
  {
    var r :| r in out && r.Contains(p);
    j :| 0 <= j < |out| && out[j] == r;
  }

  lemma PieceCovers(out: seq<PortRange>, r: PortRange, p: nat)
    requires r in out && r.Contains(p)
    ensures Denotes(out, p)
  {
  }

  lemma InPorts(list: seq<PortRange>, p: nat)
    requires Denotes(list, p)
    ensures p < PORTS && NoBorder(list, p, p + 1)
  {
  }

  lemma EndInPorts(list: seq<PortRange>, end: nat)
    requires Border(list, end)
    ensures end <= PORTS
  {
  }

  lemma JoinNoBorder(list: seq<PortRange>, lo: nat, p: nat, end: nat)
    requires NoBorder(list, lo, p + 1) && NoBorder(list, p, end)
    ensures NoBorder(list, lo, end)
  {
  }

  /** For upright ranges the sweep returns the elementary decomposition. */
  lemma SweptElementary(out: seq<PortRange>, list: seq<PortRange>)
    requires Swept(out, list) && NoneInverted(list)
    ensures Elementary(out, list)
  {
    hide StatusOf, SameRanges, NoBorder, Denotes;
    forall p: nat ensures Denotes(out, p) <==> p < PORTS && Denotes(list, p) {
      SweptCovers(out, list, p);
      if Denotes(list, p) { InPorts(list, p); }
    }
    forall j, p | 0 <= j < |out| && out[j].Contains(p) ensures SameRanges(list, out[j].min, p) {
      StretchSame(list, out[j].min, out[j].max, p);
    }
    forall j | 0 <= j < |out| - 1 && out[j].max + 1 == out[j + 1].min
      ensures !SameRanges(list, out[j].max, out[j + 1].min)
    {
      CutsSeparate(list, out[j].max);
    }
  }

  /** Coarsest: every covered stretch that no range border cuts lies in a single piece. */
  lemma PiecesCoarsest(out: seq<PortRange>, list: seq<PortRange>, lo: nat, hi: nat) returns (j: nat)
    requires NoneInverted(list) && Elementary(out, list) && lo <= hi < PORTS
    requires forall p :: lo <= p <= hi ==> Denotes(list, p) && SameRanges(list, lo, p)
    ensures j < |out| && out[j].min <= lo && hi <= out[j].max
  {
    assert Denotes(list, lo) && Denotes(out, lo);
    j :| 0 <= j < |out| && out[j].Contains(lo);
    if out[j].max < hi {
      var q: nat := out[j].max + 1;
      assert Denotes(list, q) && Denotes(out, q);
      var k :| 0 <= k < |out| && out[k].Contains(q);
      PiecesOrder(out, j, k);
      assert out[j + 1].min == q;
      assert SameRanges(list, lo, q) && SameRanges(list, lo, out[j].max);
      assert SameRanges(list, out[j].max, q);
    }
  }

  lemma {:induction false} PiecesOrder(out: seq<PortRange>, j: nat, k: nat)
    requires Ascending(out) && (forall i :: 0 <= i < |out| ==> out[i].min <= out[i].max)
    requires j < |out| && k < |out| && out[k].Contains(out[j].max + 1)
    ensures j < k && out[j + 1].min == out[j].max + 1
  {
    AscendingOrder(out, j, k);
    AscendingOrder(out, k, j);
    if k > j + 1 { AscendingOrder(out, j + 1, k); }
  }

  lemma {:induction false} AscendingOrder(out: seq<PortRange>, a: nat, b: nat)
    requires Ascending(out) && (forall i :: 0 <= i < |out| ==> out[i].min <= out[i].max)
    requires a < |out| && b < |out|
    ensures a < b ==> out[a].max < out[b].min
    decreases b
  {
    if a + 1 < b { AscendingOrder(out, a, b - 1); }
  }

  /** Any inverted range on its own panics, for example 5 to 3. */
  lemma PanicExample(r: PortRange)
    requires r.min > r.max
    ensures Panics([r])
  {
    var list := [r];
    assert list[0] in list;
    forall s | s in list ensures r.max < s.min { assert s == list[0]; }
  }
}
