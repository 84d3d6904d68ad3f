/** Runs of power-of-two blocks that cover an interval without gap or overlap. */
module Tiling {
  import opened Bits

  /** The block of `2^exp` numbers that starts at `start`. */
  datatype Block = Block(start: nat, exp: nat)

  ghost predicate Covers(b: Block, p: nat) {
    b.start <= p < b.start + Pow2(b.exp)
  }

  /** Consecutive blocks touch; the first starts at `lo` and the last ends just before `end`. */
  ghost predicate Tiles(bs: seq<Block>, lo: nat, end: nat) {
    if bs == [] then lo == end
    else bs[0].start == lo && Tiles(bs[1..], lo + Pow2(bs[0].exp), end)
  }

  lemma {:induction false} TilesAscend(bs: seq<Block>, lo: nat, end: nat, j: nat)
    requires Tiles(bs, lo, end) && j < |bs|
    ensures lo <= bs[j].start && bs[j].start + Pow2(bs[j].exp) <= end
    ensures forall k :: j < k < |bs| ==> bs[j].start + Pow2(bs[j].exp) <= bs[k].start
  {
    var next := lo + Pow2(bs[0].exp);
    forall k | 0 <= k < |bs[1..]| ensures next <= bs[1..][k].start && bs[1..][k].start + Pow2(bs[1..][k].exp) <= end {
      TilesAscend(bs[1..], next, end, k);
    }
    TilesLe(bs[1..], next, end);
    if j == 0 {
      forall k | 0 < k < |bs| ensures next <= bs[k].start { assert bs[k] == bs[1..][k - 1]; }
    } else {
      TilesAscend(bs[1..], next, end, j - 1);
      forall k | j < k < |bs| ensures bs[j].start + Pow2(bs[j].exp) <= bs[k].start {
        assert bs[k] == bs[1..][k - 1];
      }
    }
  }

  lemma {:induction false} TilesLe(bs: seq<Block>, lo: nat, end: nat)
    requires Tiles(bs, lo, end)
    ensures lo <= end
  {
    if bs != [] { TilesLe(bs[1..], lo + Pow2(bs[0].exp), end); }
  }

  lemma {:induction false} TilesHit(bs: seq<Block>, lo: nat, end: nat, p: nat) returns (j: nat)
    requires Tiles(bs, lo, end) && lo <= p < end
    ensures j < |bs| && Covers(bs[j], p)
  {
    if p < lo + Pow2(bs[0].exp) {
      j := 0;
    } else {
      j := TilesHit(bs[1..], lo + Pow2(bs[0].exp), end, p);
      j := j + 1;
    }
  }

  lemma {:induction false} TilesAppend(bs: seq<Block>, lo: nat, mid: nat, b: Block)
    requires Tiles(bs, lo, mid) && b.start == mid
    ensures Tiles(bs + [b], lo, mid + Pow2(b.exp))
  {
    if bs == [] {
      assert (bs + [b])[1..] == [];
    } else {
      TilesAppend(bs[1..], lo + Pow2(bs[0].exp), mid, b);
      assert (bs + [b])[1..] == bs[1..] + [b];
    }
  }

  ghost predicate Covered(bs: seq<Block>, p: nat) {
    exists j :: 0 <= j < |bs| && Covers(bs[j], p)
  }

  ghost predicate Disjoint(bs: seq<Block>, p: nat) {
    forall j, k :: 0 <= j < k < |bs| ==> !(Covers(bs[j], p) && Covers(bs[k], p))
  }

  /** A tiling covers its interval and nothing else, every number once. */
  lemma TilesCover(bs: seq<Block>, lo: nat, end: nat, p: nat)
    requires Tiles(bs, lo, end)
    ensures Covered(bs, p) <==> lo <= p < end
    ensures Disjoint(bs, p)
  {
    forall j | 0 <= j < |bs|
      ensures lo <= bs[j].start && bs[j].start + Pow2(bs[j].exp) <= end
      ensures forall k :: j < k < |bs| ==> bs[j].start + Pow2(bs[j].exp) <= bs[k].start
    {
      TilesAscend(bs, lo, end, j);
    }
    if lo <= p < end {
      var j := TilesHit(bs, lo, end, p);
    }
  }
}
