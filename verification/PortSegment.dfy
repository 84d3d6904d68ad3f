/** `PortSegment::new` of src/common/policy.rs: a port range is cut into aligned
    power-of-two blocks, each stored as a value/mask pair. */
module PortSegments {
  import opened Words
  import opened Bits
  import opened Tiling

  /** `PortRange` packs its two ends into one u32; the two halves are kept apart here. */
  datatype PortRange = PortRange(min: u16, max: u16) {
    predicate Contains(p: nat) { min <= p <= max }
  }

  datatype PortSegment = PortSegment(port: u16, mask: u16) {
    predicate Matches(p: nat) { And(p, mask) == port }
  }

  const ALL := PortSegment(0, 0)

  ghost predicate WellFormed(b: Block) {
    b.exp <= 16 && Aligned(b.start, b.exp) && b.start + Pow2(b.exp) <= 0x1_0000
  }

  function Segment(b: Block): PortSegment
    requires b.exp <= 16 && b.start < 0x1_0000
  {
    Pow2Values();
    PortSegment(b.start, HighMask(16, b.exp))
  }

  // ---------- the specification: greedy blocks ----------

  function TrailingZeros(x: nat, w: nat): nat {
    if w == 0 || x % 2 == 1 then 0 else 1 + TrailingZeros(x / 2, w - 1)
  }

  lemma {:induction false} TrailingZerosSpec(x: nat, w: nat)
    ensures var n := TrailingZeros(x, w);
            n <= w && Aligned(x, n) && (n < w ==> Bit(x, n))
  {
    if w != 0 && x % 2 == 0 { TrailingZerosSpec(x / 2, w - 1); }
  }

  /** The largest exponent up to `n` whose block at `port` ends by `last`. */
  function BlockExp(port: nat, last: nat, n: nat): (e: nat)
    requires port <= last
    ensures e <= n && port + Pow2(e) - 1 <= last
    ensures e < n ==> last < port + Pow2(e + 1) - 1
  {
    if n == 0 || port + Pow2(n) - 1 <= last then n else BlockExp(port, last, n - 1)
  }

  function FirstExp(port: nat, last: nat): nat
    requires port <= last
  {
    BlockExp(port, last, TrailingZeros(port, 16))
  }

  function Blocks(port: nat, last: nat): seq<Block>
    decreases last + 1 - port
  {
    if port > last then []
    else [Block(port, FirstExp(port, last))] + Blocks(port + Pow2(FirstExp(port, last)), last)
  }

  // ---------- the source's loops ----------

  method CalcRightZero(port: u16) returns (count: nat)
    ensures count <= 16 && Aligned(port, count)
    ensures count < 16 ==> Bit(port, count)
  {
    count := 0;
    for i := 0 to 16
      invariant count == i && Aligned(port, i)
    {
      if Bit(port, i) { return; }
      AlignedNext(port, i);
      count := count + 1;
    }
  }

  method CalcMask(port: u16, maxPort: u16, count: nat) returns (mask: u16, n: nat)
    requires count <= 16 && Aligned(port, count)
    ensures n <= count && mask == HighMask(16, n)
    ensures port <= maxPort ==> n == BlockExp(port, maxPort, count)
  {
    Pow2Values();
    for i := 0 to count
      invariant port <= maxPort ==> BlockExp(port, maxPort, count) == BlockExp(port, maxPort, count - i)
    {
      AlignedFits(port, count);
      Pow2Mono(count - i, count);
      assert port + (Pow2(count - i) - 1) < 0x1_0000;  // the u16 addition cannot overflow
      if maxPort >= port + (Pow2(count - i) - 1) {
        return HighMask(16, count - i), count - i;
      }
    }
    return 0xFFFF, 0;
  }

  method NextSegment(port: u16, maxPort: u16) returns (segment: PortSegment, n: nat)
    requires port <= maxPort
    ensures n == FirstExp(port, maxPort) && n <= 16 && segment == Segment(Block(port, n))
  {
    var zeros := CalcRightZero(port);
    TrailingZerosUnique(port, zeros, 16);
    var mask;
    mask, n := CalcMask(port, maxPort, zeros);
    segment := PortSegment(port, mask);
  }

  method New(range: PortRange) returns (segments: seq<PortSegment>)
    ensures segments == Segments(range)
  {
    segments := [];
    var i: nat := range.min;
    ghost var done: seq<Block> := [];
    while i < range.max + 1
      invariant InRange(done) && segments == Encode(done)
      invariant Prefix(done, i, range)
      decreases range.max + 1 - i
    {
      var segment, n := NextSegment(i, range.max);
      PrefixStep(done, i, range);
      EncodeAppend(done, Block(i, n));
      segments := segments + [segment];
      i, done := i + Pow2(n), done + [Block(i, n)];
    }
  }

  /** The blocks in front of `port` are `done`. */
  ghost predicate Prefix(done: seq<Block>, port: nat, range: PortRange) {
    done + Blocks(port, range.max) == Blocks(range.min, range.max)
  }

  lemma PrefixStep(done: seq<Block>, port: nat, range: PortRange)
    requires port <= range.max && Prefix(done, port, range)
    ensures var e := FirstExp(port, range.max);
            Prefix(done + [Block(port, e)], port + Pow2(e), range)
  {
    var e := FirstExp(port, range.max);
    var rest := Blocks(port + Pow2(e), range.max);
    assert Blocks(port, range.max) == [Block(port, e)] + rest;
    assert done + ([Block(port, e)] + rest) == done + [Block(port, e)] + rest;
  }

  lemma EncodeAppend(bs: seq<Block>, b: Block)
    requires InRange(bs) && b.exp <= 16 && b.start < 0x1_0000
    ensures InRange(bs + [b]) && Encode(bs + [b]) == Encode(bs) + [Segment(b)]
  {
  }

  predicate InRange(bs: seq<Block>) {
    forall j :: 0 <= j < |bs| ==> bs[j].exp <= 16 && bs[j].start < 0x1_0000
  }

  ghost predicate WellFormedAll(bs: seq<Block>) {
    forall j :: 0 <= j < |bs| ==> WellFormed(bs[j])
  }

  function Encode(bs: seq<Block>): (s: seq<PortSegment>)
    requires InRange(bs)
  {
    seq(|bs|, j requires 0 <= j < |bs| => Segment(bs[j]))
  }

  /** The segments of a range, in the order the source pushes them. */
  function Segments(range: PortRange): seq<PortSegment> {
    BlocksWellFormed(range.min, range.max);
    Encode(Blocks(range.min, range.max))
  }

  // ---------- alignment ----------

  lemma AlignedFits(x: nat, k: nat)
    requires x < 0x1_0000 && k <= 16 && Aligned(x, k)
    ensures x + Pow2(k) <= 0x1_0000
  {
    Pow2Values();
    AlignedPow2(k, 16);
    AlignedGap(x, Pow2(16), k);
  }

  lemma {:induction false} TrailingZerosUnique(x: nat, n: nat, w: nat)
    requires n <= w && Aligned(x, n) && (n < w ==> Bit(x, n))
    ensures TrailingZeros(x, w) == n
  {
    if n > 0 { TrailingZerosUnique(x / 2, n - 1, w - 1); }
  }

  lemma BlockWellFormed(port: nat, last: nat)
    requires port <= last < 0x1_0000
    ensures WellFormed(Block(port, FirstExp(port, last)))
  {
    TrailingZerosSpec(port, 16);
    AlignedLess(port, FirstExp(port, last), TrailingZeros(port, 16));
    AlignedFits(port, FirstExp(port, last));
  }

  lemma {:induction false} BlocksWellFormed(port: nat, last: nat)
    requires last < 0x1_0000
    ensures WellFormedAll(Blocks(port, last)) && InRange(Blocks(port, last))
    decreases last + 1 - port
  {
    if port <= last {
      BlockWellFormed(port, last);
      BlocksWellFormed(port + Pow2(FirstExp(port, last)), last);
    }
  }

  // ---------- the blocks tile the range ----------

  lemma {:induction false} BlocksTile(lo: nat, hi: nat)
    requires lo <= hi + 1
    ensures Tiles(Blocks(lo, hi), lo, hi + 1)
    decreases hi + 1 - lo
  {
    if lo <= hi {
      var e := FirstExp(lo, hi);
      BlocksTile(lo + Pow2(e), hi);
      assert Blocks(lo, hi)[1..] == Blocks(lo + Pow2(e), hi);
    }
  }

  lemma SegmentMatch(b: Block, p: nat)
    requires WellFormed(b) && p < 0x1_0000
    ensures b.start < 0x1_0000 && (Segment(b).Matches(p) <==> Covers(b, p))
  {
    Pow2Values();
    BlockMember(b.start, p, b.exp);
    AndHighMask(p, 16, b.exp);
    LowBound(p, b.exp);
  }

  /** Tiling: a port is matched by some segment exactly when the range contains it,
      and never by two. An inverted range yields no segment. */
  lemma SegmentsTile(range: PortRange, p: u16)
    ensures range.Contains(p) <==> exists s :: s in Segments(range) && s.Matches(p)
    ensures forall j, k :: 0 <= j < k < |Segments(range)| ==>
              !(Segments(range)[j].Matches(p) && Segments(range)[k].Matches(p))
    ensures Segments(range) == [] <==> range.min > range.max
  {
    var bs := Blocks(range.min, range.max);
    var ss := Segments(range);
    BlocksWellFormed(range.min, range.max);
    forall j | 0 <= j < |bs| ensures ss[j].Matches(p) <==> Covers(bs[j], p) {
      SegmentMatch(bs[j], p);
    }
    if range.min <= range.max {
      BlocksTile(range.min, range.max);
      TilesCover(bs, range.min, range.max + 1, p);
      if range.Contains(p) {
        var j :| 0 <= j < |bs| && Covers(bs[j], p);
        assert ss[j] in ss;
      }
    }
  }

  // ---------- shape and number of blocks ----------

  ghost predicate Rising(bs: seq<Block>) {
    forall j :: 0 <= j < |bs| - 1 ==> bs[j].exp < bs[j + 1].exp
  }

  ghost predicate Falling(bs: seq<Block>) {
    forall j :: 0 <= j < |bs| - 1 ==> bs[j].exp > bs[j + 1].exp
  }

  /** The block at `port` is cut short by the end of the range, not by alignment. */
  ghost predicate CutByEnd(port: nat, last: nat)
    requires port <= last
  {
    FirstExp(port, last) < TrailingZeros(port, 16)
  }

  /** A block cut by the end of the range is followed by a smaller one, again cut by the end. */
  lemma StepCut(port: nat, last: nat)
    requires port <= last < 0x1_0000 && CutByEnd(port, last)
    ensures var e := FirstExp(port, last); var next := port + Pow2(e);
            next <= last ==> CutByEnd(next, last) && FirstExp(next, last) < e
  {
    var e := FirstExp(port, last);
    var next := port + Pow2(e);
    if next <= last {
      TrailingZerosSpec(port, 16);
      AlignedLess(port, e + 1, TrailingZeros(port, 16));
      NextBit(port, e);
      TrailingZerosUnique(next, e, 16);
      assert last < next + Pow2(e) - 1;
    }
  }

  /** After a block bounded by alignment the next start is aligned further. */
  lemma StepAligned(port: nat, last: nat)
    requires port <= last < 0x1_0000 && !CutByEnd(port, last)
    ensures var e := FirstExp(port, last);
            port + Pow2(e) <= last ==> e < TrailingZeros(port + Pow2(e), 16)
  {
    var e := FirstExp(port, last);
    var next := port + Pow2(e);
    if next <= last {
      Pow2Values();
      TrailingZerosSpec(port, 16);
      CarryAligned(port, e);
      FurtherZeros(next, e + 1);
    }
  }

  lemma {:induction false} FurtherZeros(x: nat, k: nat)
    requires k <= 16 && Aligned(x, k)
    ensures k <= TrailingZeros(x, 16)
  {
    var z := TrailingZeros(x, 16);
    TrailingZerosSpec(x, 16);
    if z < k {
      AlignedLess(x, z + 1, k);
      AlignedNext(x, z);
    }
  }

  lemma {:induction false} NextBit(x: nat, k: nat)
    requires Aligned(x, k + 1)
    ensures Aligned(x + Pow2(k), k) && Bit(x + Pow2(k), k)
  {
    if k == 0 {
      assert Low(x, 1) == x % 2 + 2 * Low(x / 2, 0);
    } else {
      assert Low(x, k + 1) == x % 2 + 2 * Low(x / 2, k);
      NextBit(x / 2, k - 1);
      HalfSum(x, Pow2(k - 1));
      var y := x + Pow2(k);
      assert Low(y, k) == y % 2 + 2 * Low(y / 2, k - 1);
      assert Bit(y, k) == Bit(y / 2, k - 1);
    }
  }

  lemma {:induction false} CarryAligned(x: nat, k: nat)
    requires Aligned(x, k) && Bit(x, k)
    ensures Aligned(x + Pow2(k), k + 1)
  {
    if k == 0 {
      assert Low(x + 1, 1) == (x + 1) % 2 + 2 * Low((x + 1) / 2, 0);
    } else {
      CarryAligned(x / 2, k - 1);
      assert Low(x + Pow2(k), k + 1) == (x + Pow2(k)) % 2 + 2 * Low((x + Pow2(k)) / 2, k);
    }
  }

  lemma {:induction false} FallingPhase(port: nat, last: nat)
    requires port <= last < 0x1_0000 && CutByEnd(port, last)
    ensures Falling(Blocks(port, last))
    ensures |Blocks(port, last)| <= FirstExp(port, last) + 1
    decreases last + 1 - port
  {
    var e := FirstExp(port, last);
    var next := port + Pow2(e);
    StepCut(port, last);
    if next <= last {
      FallingPhase(next, last);
      assert Blocks(port, last) == [Block(port, e)] + Blocks(next, last);
    }
  }

  /** Shape: exponents strictly rise and then strictly fall. */
  lemma {:induction false} BlocksUnimodal(port: nat, last: nat) returns (k: nat)
    requires last < 0x1_0000
    ensures k <= |Blocks(port, last)|
    ensures Rising(Blocks(port, last)[..k]) && Falling(Blocks(port, last)[k..])
    ensures 0 < k ==> port <= last && !CutByEnd(port, last)
    decreases last + 1 - port
  {
    var bs := Blocks(port, last);
    if port > last {
      k := 0;
    } else if CutByEnd(port, last) {
      FallingPhase(port, last);
      k := 0;
      assert bs[0..] == bs;
    } else {
      var e := FirstExp(port, last);
      var next := port + Pow2(e);
      var rest := Blocks(next, last);
      StepAligned(port, last);
      var m := BlocksUnimodal(next, last);
      k := m + 1;
      assert bs[..k] == [bs[0]] + rest[..m] && bs[k..] == rest[m..];
    }
  }

  lemma ZerosBelow16(port: nat)
    requires 0 < port < 0x1_0000
    ensures TrailingZeros(port, 16) <= 15
  {
    TrailingZerosSpec(port, 16);
    if TrailingZeros(port, 16) == 16 {
      AlignedFits(port, 16);
      Pow2Values();
    }
  }

  lemma {:induction false} CountFrom(port: nat, last: nat)
    requires 0 < port <= last < 0x1_0000
    ensures |Blocks(port, last)| <= 30 - TrailingZeros(port, 16)
    decreases last + 1 - port
  {
    var next := port + Pow2(FirstExp(port, last));
    ZerosBelow16(port);
    if CutByEnd(port, last) {
      FallingPhase(port, last);
    } else {
      assert |Blocks(port, last)| == 1 + |Blocks(next, last)|;
      if next <= last {
        StepAligned(port, last);
        CountFrom(next, last);
      }
    }
  }

  /** Number: at most thirty segments for any range. */
  lemma SegmentCount(range: PortRange)
    ensures |Segments(range)| <= 30
  {
    var lo: nat, hi: nat := range.min, range.max;
    if lo <= hi {
      TrailingZerosSpec(lo, 16);
      if lo > 0 {
        CountFrom(lo, hi);
      } else if CutByEnd(lo, hi) {
        FallingPhase(lo, hi);
        assert FirstExp(lo, hi) < 16;
      } else {
        Pow2Values();
        TrailingZerosUnique(0, 16, 16) by { LowOfSmall(0, 16); }
        assert Blocks(lo + 0x1_0000, hi) == [];
      }
    }
  }
}
