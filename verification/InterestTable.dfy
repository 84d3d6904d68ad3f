/** `generate_interest_table` and `interest_table_map` of src/legacy/policy/fast_path.rs:
    the fast path replaces every port by a representative of its elementary piece. */
module InterestTable {
  import opened Words
  import opened PortSegments
  import opened PortList
  import opened Interest

  const ZERO := PortRange(0, 0)

  // ---------- the specification ----------

  /** The running value of `port_other`: the end of the pieces that connect to port 0. */
  function PortOther(pieces: seq<PortRange>): u16 {
    if pieces == [] then 0
    else
      var n := |pieces| - 1;
      if n == 0 then (if pieces[0].min == 0 then pieces[0].max else 0)
      else if PortOther(pieces[..n]) >= pieces[n].min - 1 then pieces[n].max
      else PortOther(pieces[..n])
  }

  /** The last piece that contains the port, or the initial table entry. */
  function PieceAt(pieces: seq<PortRange>, p: nat): PortRange {
    if pieces == [] then ZERO
    else
      var last := pieces[|pieces| - 1];
      if last.Contains(p) then last else PieceAt(pieces[..|pieces| - 1], p)
  }

  function Entry(pieces: seq<PortRange>, p: nat): PortRange {
    var other: nat := PortOther(pieces);
    if 0 < other < PORT_MAX && PieceAt(pieces, p) == ZERO then PortRange(other + 1, other + 1)
    else PieceAt(pieces, p)
  }

  /** The port that stands for `p` in the fast path. */
  function Representative(pieces: seq<PortRange>, p: nat): nat {
    Entry(pieces, p).min
  }

  // ---------- the source's loops ----------

  /** The loop over the pieces of `generate_interest_table`. It panics, which is `false`, if and
      only if a piece other than the first begins at port 0. */
  method Generate(list: seq<PortRange>, table: array<PortRange>) returns (ok: bool)
    requires table.Length == PORTS && forall p :: 0 <= p < PORTS ==> table[p] == ZERO
    modifies table
    ensures ok <==> forall i :: 0 < i < |list| ==> list[i].min > 0
    ensures ok ==> forall p :: 0 <= p < PORTS ==> table[p] == Entry(list, p)
  {
    var portOther: u16 := 0;
    for i := 0 to |list|
      invariant forall k :: 0 < k < i ==> list[k].min > 0
      invariant portOther == PortOther(list[..i])
      invariant forall p :: 0 <= p < PORTS ==> table[p] == PieceAt(list[..i], p)
    {
      var item := list[i];
      assert list[..i + 1][..i] == list[..i] && list[..i + 1][i] == item;
      if i == 0 {
        portOther := if item.min == 0 then item.max else 0;
      } else {
        if item.min == 0 {
          return false;
        }
        if portOther >= item.min - 1 {
          portOther := item.max;
        }
      }
      FillPiece(table, item);
    }
    assert list[..|list|] == list;
    if portOther != 0 && portOther < PORT_MAX {
      portOther := portOther + 1;
      for i := 0 to PORTS
        invariant forall p :: 0 <= p < i ==> table[p] == Entry(list, p)
        invariant forall p :: i <= p < PORTS ==> table[p] == PieceAt(list, p)
      {
        if table[i] == ZERO {
          table[i] := PortRange(portOther, portOther);
        }
      }
    }
    ok := true;
  }

  /** The pieces of upright ranges never panic. */
  lemma PiecesFine(pieces: seq<PortRange>, i: nat)
    requires Plain(pieces) && 0 < i < |pieces|
    ensures pieces[i].min > 0
  {
    AscendingOrder(pieces, 0, i);
  }

  method FillPiece(table: array<PortRange>, item: PortRange)
    requires table.Length == PORTS
    modifies table
    ensures forall p :: 0 <= p < PORTS ==> table[p] == if item.Contains(p) then item else old(table[p])
  {
    if item.min > item.max {
      return;
    }
    for j: nat := item.min to item.max + 1
      invariant forall p :: 0 <= p < PORTS ==> table[p] == if item.min <= p < j then item else old(table[p])
    {
      table[j] := item;
    }
  }

  // ---------- when representatives respect the ranges ----------

  /** Ports with one representative lie in the same ranges. */
  ghost predicate Sound(pieces: seq<PortRange>, list: seq<PortRange>) {
    forall p, q :: 0 <= p < PORTS && 0 <= q < PORTS && Representative(pieces, p) == Representative(pieces, q) ==>
      SameRanges(list, p, q)
  }

  ghost predicate AllCovered(list: seq<PortRange>) {
    forall p :: 0 <= p < PORTS ==> Denotes(list, p)
  }

  /** Port 0 is in some range, but not in the same ranges as port 1. */
  ghost predicate ZeroAlone(list: seq<PortRange>) {
    Denotes(list, 0) && !SameRanges(list, 0, 1)
  }

  lemma {:induction false} PieceAtMeaning(pieces: seq<PortRange>, p: nat)
    ensures if Denotes(pieces, p) then PieceAt(pieces, p) in pieces && PieceAt(pieces, p).Contains(p)
            else PieceAt(pieces, p) == ZERO
  {
    if pieces != [] {
      var n := |pieces| - 1;
      assert pieces == pieces[..n] + [pieces[n]];
      DenotesSnoc(pieces[..n], pieces[n], p);
      PieceAtMeaning(pieces[..n], p);
    }
  }

  ghost predicate Plain(pieces: seq<PortRange>) {
    Ascending(pieces) && forall i :: 0 <= i < |pieces| ==> pieces[i].min <= pieces[i].max
  }

  ghost predicate Run(pieces: seq<PortRange>, e: nat) {
    forall p :: 0 <= p <= e ==> Denotes(pieces, p)
  }

  ghost predicate Stop(pieces: seq<PortRange>, e: nat) {
    forall i :: 0 <= i < |pieces| && pieces[i].min <= e + 1 ==> pieces[i].max <= e
  }

  lemma RunStep(front: seq<PortRange>, last: PortRange, e: nat)
    requires front != [] && Plain(front + [last]) && Run(front, e) && Stop(front, e)
    ensures last.min >= 1
    ensures var e' := if e >= last.min - 1 then last.max else e;
            Run(front + [last], e') && Stop(front + [last], e')
  {
    var pieces := front + [last];
    forall i | 0 <= i < |front| ensures pieces[i] == front[i] && front[i].max < last.min {
      AscendingOrder(pieces, i, |front|);
    }
    assert front[0].max < last.min && pieces[|front|] == last;
    hide Denotes;
    forall p: nat ensures Denotes(pieces, p) <==> Denotes(front, p) || last.Contains(p) {
      DenotesSnoc(front, last, p);
    }
  }

  lemma PlainFront(pieces: seq<PortRange>)
    requires Plain(pieces) && pieces != []
    ensures Plain(pieces[..|pieces| - 1])
  {
  }

  /** `port_other` ends the run of covered ports that starts at 0. */
  lemma {:induction false} PortOtherMeaning(pieces: seq<PortRange>)
    requires Plain(pieces) && pieces != []
    ensures if pieces[0].min == 0 then Run(pieces, PortOther(pieces)) && Stop(pieces, PortOther(pieces))
            else PortOther(pieces) == 0
  {
    var n := |pieces| - 1;
    var last := pieces[n];
    if n == 0 {
      assert last in pieces;
      assert forall p :: last.Contains(p) ==> Denotes(pieces, p);
    } else {
      var front := pieces[..n];
      assert pieces == front + [last];
      PlainFront(pieces);
      PortOtherMeaning(front);
      if pieces[0].min == 0 {
        RunStep(front, last, PortOther(front));
      } else {
        AscendingOrder(pieces, 0, n);
      }
    }
  }

  /** The port behind the run that starts at 0 is in no range. */
  lemma OtherIsFree(pieces: seq<PortRange>, e: nat)
    requires Plain(pieces) && Stop(pieces, e)
    ensures !Denotes(pieces, e + 1)
  {
  }

  // ---------- the theorem ----------

  lemma SameMeaning(list: seq<PortRange>, p: nat, q: nat)
    requires !Denotes(list, p) && !Denotes(list, q)
    ensures SameRanges(list, p, q)
  {
  }

  lemma SamePiece(pieces: seq<PortRange>, list: seq<PortRange>, x: PortRange, p: nat, q: nat)
    requires Elementary(pieces, list) && x in pieces && x.Contains(p) && x.Contains(q)
    ensures SameRanges(list, p, q)
  {
    var j :| 0 <= j < |pieces| && pieces[j] == x;
    assert SameRanges(list, x.min, p) && SameRanges(list, x.min, q);
  }

  /** Pieces are told apart by their lower ends. */
  lemma PieceByMin(pieces: seq<PortRange>, x: PortRange, y: PortRange)
    requires Plain(pieces) && x in pieces && y in pieces && x.min == y.min
    ensures x == y
  {
    var j :| 0 <= j < |pieces| && pieces[j] == x;
    var k :| 0 <= k < |pieces| && pieces[k] == y;
    AscendingOrder(pieces, j, k);
    AscendingOrder(pieces, k, j);
  }

  /** The piece [0,0] exists exactly when port 0 stands alone. */
  lemma ZeroPiece(pieces: seq<PortRange>, list: seq<PortRange>)
    requires NoneInverted(list) && Elementary(pieces, list)
    ensures ZERO in pieces <==> ZeroAlone(list)
    ensures ZERO in pieces ==> pieces[0] == ZERO
  {
    if ZERO in pieces {
      var j :| 0 <= j < |pieces| && pieces[j] == ZERO;
      AscendingOrder(pieces, 0, j);
      assert ZERO.Contains(0);
      assert Denotes(pieces, 0);
      if SameRanges(list, 0, 1) {
        var r :| r in list && r.Contains(0);
        assert r.Contains(1) && Denotes(list, 1) && Denotes(pieces, 1);
        var x :| x in pieces && x.Contains(1);
        var k :| 0 <= k < |pieces| && pieces[k] == x;
        PiecesOrder(pieces, 0, k);
      }
    }
    if ZeroAlone(list) {
      assert Denotes(pieces, 0);
      var x :| x in pieces && x.Contains(0);
      if x.max > 0 { SamePiece(pieces, list, x, 0, 1); }
    }
  }

  /** A covered and a free port never share a representative. */
  lemma CoveredVersusFree(pieces: seq<PortRange>, p: nat, q: nat)
    requires Plain(pieces) && ZERO !in pieces
    requires p < PORTS && q < PORTS && Denotes(pieces, p) && !Denotes(pieces, q)
    ensures Representative(pieces, p) != Representative(pieces, q)
  {
    PieceAtMeaning(pieces, p);
    PieceAtMeaning(pieces, q);
    PortOtherMeaning(pieces);
    var x, e := PieceAt(pieces, p), PortOther(pieces);
    assert x.Contains(x.min) && Denotes(pieces, x.min);
    var j :| 0 <= j < |pieces| && pieces[j] == x;
    AscendingOrder(pieces, 0, j);
    if pieces[0].min == 0 { OtherIsFree(pieces, e); }
  }

  lemma SoundUnlessZero(pieces: seq<PortRange>, list: seq<PortRange>, p: nat, q: nat)
    requires NoneInverted(list) && Elementary(pieces, list) && p < PORTS && q < PORTS
    requires ZERO !in pieces || AllCovered(list)
    requires Representative(pieces, p) == Representative(pieces, q)
    ensures SameRanges(list, p, q)
  {
    hide SameRanges, PortOther, PieceAt;
    PieceAtMeaning(pieces, p);
    PieceAtMeaning(pieces, q);
    if !Denotes(pieces, p) && !Denotes(pieces, q) {
      SameMeaning(list, p, q);
    } else if ZERO !in pieces {
      if !Denotes(pieces, p) { CoveredVersusFree(pieces, q, p); }
      if !Denotes(pieces, q) { CoveredVersusFree(pieces, p, q); }
      PieceByMin(pieces, PieceAt(pieces, p), PieceAt(pieces, q));
      SamePiece(pieces, list, PieceAt(pieces, p), p, q);
    } else {
      RunToTheEnd(pieces);
      PieceByMin(pieces, PieceAt(pieces, p), PieceAt(pieces, q));
      SamePiece(pieces, list, PieceAt(pieces, p), p, q);
    }
  }

  /** When every port is covered no entry is redirected. */
  lemma RunToTheEnd(pieces: seq<PortRange>)
    requires Plain(pieces) && ZERO in pieces && forall p :: 0 <= p < PORTS ==> Denotes(pieces, p)
    ensures PortOther(pieces) == PORT_MAX
  {
    var j :| 0 <= j < |pieces| && pieces[j] == ZERO;
    AscendingOrder(pieces, 0, j);
    PortOtherMeaning(pieces);
    OtherIsFree(pieces, PortOther(pieces));
  }

  /** Exactly when the fast path's port classes are sound: ports that share a
      representative lie in the same ranges, unless port 0 is separated from port 1
      and some port is in no range at all. */
  lemma SoundIff(pieces: seq<PortRange>, list: seq<PortRange>)
    requires NoneInverted(list) && Elementary(pieces, list)
    ensures Sound(pieces, list) <==> !ZeroAlone(list) || AllCovered(list)
  {
    hide SameRanges, PortOther, PieceAt, Representative;
    ZeroPiece(pieces, list);
    if ZERO !in pieces || AllCovered(list) {
      forall p, q | 0 <= p < PORTS && 0 <= q < PORTS && Representative(pieces, p) == Representative(pieces, q)
        ensures SameRanges(list, p, q)
      {
        SoundUnlessZero(pieces, list, p, q);
      }
    } else {
      var u :| 0 <= u < PORTS && !Denotes(list, u);
      FreeJoinsZero(pieces, list, u);
    }
  }

  lemma FreeJoinsZero(pieces: seq<PortRange>, list: seq<PortRange>, u: nat)
    requires NoneInverted(list) && Elementary(pieces, list) && ZERO in pieces && u < PORTS && !Denotes(list, u)
    ensures Representative(pieces, 0) == Representative(pieces, u) && !SameRanges(list, 0, u)
  {
    PieceAtMeaning(pieces, 0);
    PieceAtMeaning(pieces, u);
    assert ZERO.Contains(0);
    assert Denotes(pieces, 0) && Denotes(list, 0);
    var x := PieceAt(pieces, 0);
    PieceByMin(pieces, x, ZERO);
  }

  /** For example with the ranges 0-0 and 1-5, port 0 is classed with the free ports. */
  lemma ZeroExample(pieces: seq<PortRange>)
    requires Elementary(pieces, [PortRange(0, 0), PortRange(1, 5)])
    ensures !Sound(pieces, [PortRange(0, 0), PortRange(1, 5)])
  {
    var list := [PortRange(0, 0), PortRange(1, 5)];
    SoundIff(pieces, list);
    assert list[0].Contains(0) && !list[0].Contains(1) && list[0] in list;
    assert Denotes(list, 0) && !SameRanges(list, 0, 1);
    assert !Denotes(list, 6);
  }
}
