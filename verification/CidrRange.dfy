/** `ipv4_range_convert` and `ipv6_range_convert` of src/common/policy.rs: an
    address range becomes a list of networks. The two functions differ only in
    the width `w` of an address (32 or 128). */
module CidrRange {
  import opened Words
  import opened Bits
  import opened Tiling

  /** An `IpNet`: an address, which may carry host bits, and a prefix length. */
  datatype Net = Net(addr: nat, len: nat)

  /** The address belongs to the network: it agrees with `addr` under the netmask. */
  ghost predicate InNet(n: Net, w: nat, p: nat) {
    n.len <= w && And(p, HighMask(w, w - n.len)) == And(n.addr, HighMask(w, w - n.len))
  }

  function Even(x: nat): nat { x - x % 2 }

  /** `start | !netmask(len)`. */
  function LastIp(ip: nat, len: nat, w: nat): nat
    requires len <= w
  {
    Or(ip, Pow2(w - len) - 1)
  }

  /** The choice the mask search makes: the even part of `start` begins a block of
      `2^k` addresses that stays within `end` (a block of two may pass it by one),
      and no block twice that size would do. */
  ghost predicate Best(start: nat, end: nat, k: nat) {
    && k >= 1
    && Low(start, k) == start % 2
    && (k == 1 || Even(start) + Pow2(k) - 1 <= end)
    && (Bit(start, k) || end < Even(start) + Pow2(k + 1) - 1)
  }

  /** A shift by the full word width panics; the result is then `None`. */
  method GetFirstMask(start: nat, end: nat, w: nat) returns (mask: Option<nat>)
    requires 2 <= w && start <= end < Pow2(w)
    ensures mask.None? <==> start <= 1 && Pow2(w - 1) <= end
    ensures mask.Some? ==> 1 <= mask.value < w && Best(start, end, w - mask.value)
  {
    hide Low, Bit, Or, And;
    var len := w - 1;
    LowOne(start);
    while len > 0
      invariant 0 <= len < w
      invariant Low(start, w - len) == start % 2
      invariant len == w - 1 || Even(start) + Pow2(w - len) - 1 <= end
      invariant len > 0
    {
      ghost var k := w - len;
      AndPow2(start, k);
      OrLowOnes(start, k);
      OrLowOnes(start, k + 1);
      SearchStep(start, k);
      if And(start, Pow2(w - len)) != 0 {
        SmallBits(start, k);
        return Some(len);
      }
      if LastIp(start, len, w) >= end {
        SmallBlock(start, end, k, w);
        return Some(len);
      }
      if len == 1 {
        // netmask(0) shifts by the word width
        TopBlock(start, w);
        return None;
      }
      if LastIp(start, len - 1, w) > end {
        SmallBlock(start, end, k, w);
        return Some(len);
      }
      len := len - 1;
    }
  }

  /** The whole conversion; `None` when the search panics. */
  method RangeConvert(first: nat, end: nat, w: nat) returns (nets: Option<seq<Net>>)
    requires 2 <= w && first < Pow2(w) && end < Pow2(w)
    ensures nets.None? <==> first <= end && first <= 1 && Pow2(w - 1) <= end
    ensures nets.Some? ==> IsConversion(nets.value, first, end, w)
  {
    var ips: seq<Net> := [];
    assert Tiles(BlocksOf(ips, w), Even(first), Even(first)) && AllBest(ips, end, w);
    hide Best, Tiles, IsConversion, AllBest, BlocksOf, End, LastIp;
    var start := first;
    ghost var covered: nat := Even(first);
    while start <= end
      invariant start < Pow2(w) && start % 2 == first % 2 && first <= start
      invariant AllBest(ips, end, w)
      invariant Tiles(BlocksOf(ips, w), Even(first), covered) && covered == Even(start)
      invariant if first <= end then covered <= End(first, end) else ips == []
      invariant first <= end && first <= 1 && Pow2(w - 1) <= end ==> start == first
      decreases end + 1 - start
    {
      var mask := GetFirstMask(start, end, w);
      if mask.None? { return None; }
      var len := mask.value;
      StepBound(start, end, len, w);
      StepEnd(first, start, end);
      Appended(ips, Net(start, len), Even(first), end, w);
      ips, covered := ips + [Net(start, len)], covered + Pow2(w - len);
      if LastIp(start, len, w) == Pow2(w) - 1 { break; }
      if start + Pow2(w - len) >= Pow2(w) { break; }  // checked_add finds no sum
      start := start + Pow2(w - len);
    }
    StepEnd(first, start, end);
    Finished(ips, covered, first, end, w);
    return Some(ips);
  }

  lemma Finished(nets: seq<Net>, covered: nat, start: nat, end: nat, w: nat)
    requires AllBest(nets, end, w) && Tiles(BlocksOf(nets, w), Even(start), covered)
    requires if start <= end then covered == End(start, end) else nets == []
    ensures IsConversion(nets, start, end, w)
  {
  }

  lemma StepEnd(first: nat, start: nat, end: nat)
    requires start % 2 == first % 2
    ensures End(first, end) == End(start, end)
    ensures Even(start) <= End(first, end) && end < start ==> Even(start) == End(first, end)
  {
    var a, e := start / 2, end / 2;
    assert start == 2 * a + start % 2 && end == 2 * e + end % 2;
  }

  /** One block further: still within the target, and inside the address space. */
  lemma StepBound(start: nat, end: nat, len: nat, w: nat)
    requires 1 <= len < w && start <= end < Pow2(w) && Best(start, end, w - len)
    ensures var size := Pow2(w - len);
            && (start + size) % 2 == start % 2
            && Even(start + size) == Even(start) + size
            && LastIp(start, len, w) == Even(start) + size - 1
            && Even(start) + size <= End(start, end) <= Pow2(w)
            && (Even(start) + size < Pow2(w) ==> start + size < Pow2(w))
  {
    var k := w - len;
    OrLowOnes(start, k);
    hide Low, Or, Bit;
    assert Pow2(k) == 2 * Pow2(k - 1) && Pow2(w) == 2 * Pow2(w - 1);
    assert k == 1 ==> Pow2(k - 1) == 1;
    StepParity(start, end, Pow2(k - 1), Pow2(w - 1));
  }

  lemma StepParity(start: nat, end: nat, half: nat, top: nat)
    requires start <= end < 2 * top
    requires half == 1 || Even(start) + 2 * half - 1 <= end
    ensures (start + 2 * half) % 2 == start % 2
    ensures Even(start + 2 * half) == Even(start) + 2 * half <= End(start, end) <= 2 * top
    ensures Even(start) + 2 * half < 2 * top ==> start + 2 * half < 2 * top
  {
    var a, e := start / 2, end / 2;
    assert start == 2 * a + start % 2 && end == 2 * e + end % 2;
    assert start + 2 * half == 2 * (a + half) + start % 2;
  }

  lemma Appended(nets: seq<Net>, n: Net, lo: nat, end: nat, w: nat)
    requires AllBest(nets, end, w) && BestNet(n, end, w)
    requires Tiles(BlocksOf(nets, w), lo, Even(n.addr))
    ensures AllBest(nets + [n], end, w)
    ensures Tiles(BlocksOf(nets + [n], w), lo, Even(n.addr) + Pow2(w - n.len))
  {
    hide Best, Even;
    var b := BlockOf(n, w);
    TilesAppend(BlocksOf(nets, w), lo, Even(n.addr), b);
    assert BlocksOf(nets + [n], w) == BlocksOf(nets, w) + [b];
  }

  ghost predicate BestNet(n: Net, end: nat, w: nat) {
    1 <= n.len < w && n.addr < Pow2(w) && Best(n.addr, end, w - n.len)
  }

  ghost predicate AllBest(nets: seq<Net>, end: nat, w: nat) {
    forall j :: 0 <= j < |nets| ==> BestNet(nets[j], end, w)
  }

  ghost function BlockOf(n: Net, w: nat): Block {
    Block(Even(n.addr), if n.len <= w then w - n.len else 0)
  }

  ghost function BlocksOf(nets: seq<Net>, w: nat): seq<Block> {
    seq(|nets|, j requires 0 <= j < |nets| => BlockOf(nets[j], w))
  }

  /** What a conversion covers: from `start` rounded down to even, through `end`
      rounded up to odd when `start` is even and down to odd when it is odd. */
  ghost predicate IsConversion(nets: seq<Net>, start: nat, end: nat, w: nat) {
    && AllBest(nets, end, w)
    && (start > end ==> nets == [])
    && (start <= end ==> Tiles(BlocksOf(nets, w), Even(start), End(start, end)))
  }

  /** One past the last address covered. */
  function End(start: nat, end: nat): nat {
    if start % 2 == 0 then end + 2 - end % 2 else end + end % 2
  }

  // ---------- one step of the mask search ----------

  lemma LowOne(x: nat)
    ensures Low(x, 1) == x % 2
  {
    assert Low(x, 1) == x % 2 + 2 * Low(x / 2, 0);
  }

  /** Clearing the parity bit leaves an aligned word, so the low bits grow only by bit `k`. */
  lemma {:induction false} SearchStep(x: nat, k: nat)
    requires k >= 1 && Low(x, k) == x % 2
    ensures Low(x, k + 1) == x % 2 + (if Bit(x, k) then Pow2(k) else 0)
  {
    LowNext(x, k);
  }

  lemma {:induction false} LowNext(x: nat, k: nat)
    ensures Low(x, k + 1) == Low(x, k) + (if Bit(x, k) then Pow2(k) else 0)
  {
    assert Low(x, k + 1) == x % 2 + 2 * Low(x / 2, k);
    if k > 0 { LowNext(x / 2, k - 1); }
  }

  lemma SmallBits(x: nat, k: nat)
    requires k >= 1
    ensures x <= 1 ==> !Bit(x, k)
  {
    BitZero(k - 1);
  }

  /** A block at 0 that reaches `end` keeps `end` in the lower half. */
  lemma SmallBlock(start: nat, end: nat, k: nat, w: nat)
    requires 1 <= k < w && Low(start, k) == start % 2
    ensures start <= 1 && end <= Or(start, Pow2(k) - 1) ==> end < Pow2(w - 1)
    ensures (start <= 1 && k + 1 < w && end < Or(start, Pow2(k + 1) - 1) && Low(start, k + 1) == start % 2) ==>
              end < Pow2(w - 1)
  {
    OrLowOnes(start, k);
    OrLowOnes(start, k + 1);
    Pow2Mono(k, w - 1);
    if k + 1 < w { Pow2Mono(k + 1, w - 1); }
  }

  lemma TopBlock(start: nat, w: nat)
    requires 2 <= w && start < Pow2(w) && Low(start, w - 1) == start % 2 && !Bit(start, w - 1)
    ensures start <= 1
  {
    LowNext(start, w - 1);
    LowOfSmall(start, w);
  }

  // ---------- what the networks denote ----------

  lemma NetIsBlock(n: Net, end: nat, w: nat, p: nat)
    requires 1 <= n.len < w && n.addr < Pow2(w) && p < Pow2(w) && Best(n.addr, end, w - n.len)
    ensures InNet(n, w, p) <==> Covers(Block(Even(n.addr), w - n.len), p)
  {
    var k := w - n.len;
    AndHighMask(p, w, k);
    AndHighMask(n.addr, w, k);
    ClearedAligned(n.addr, k);
    BlockMember(Even(n.addr), p, k);
  }

  lemma {:induction false} ClearedAligned(x: nat, k: nat)
    requires Low(x, k) <= x
    ensures Aligned(x - Low(x, k), k)
  {
    if k > 0 {
      LowBound(x / 2, k - 1);
      ClearedAligned(x / 2, k - 1);
    }
  }

  ghost predicate Denotes(nets: seq<Net>, w: nat, p: nat) {
    exists j :: 0 <= j < |nets| && InNet(nets[j], w, p)
  }

  /** Denotation: a converted range covers exactly the addresses from `start` rounded
      down to even up to `End`, each in one network only. */
  lemma ConversionDenotes(nets: seq<Net>, start: nat, end: nat, w: nat, p: nat)
    requires 2 <= w && p < Pow2(w) && start <= end && IsConversion(nets, start, end, w)
    ensures Denotes(nets, w, p) <==> Even(start) <= p < End(start, end)
    ensures forall j, k :: 0 <= j < k < |nets| ==> !(InNet(nets[j], w, p) && InNet(nets[k], w, p))
  {
    var bs := BlocksOf(nets, w);
    TilesCover(bs, Even(start), End(start, end), p);
    hide InNet, Best, Tiles, Even, Pow2;
    forall j | 0 <= j < |nets| ensures InNet(nets[j], w, p) <==> Covers(bs[j], p) {
      NetIsBlock(nets[j], end, w, p);
    }
    if Covered(bs, p) {
      var j :| 0 <= j < |bs| && Covers(bs[j], p);
      assert InNet(nets[j], w, p);
    }
  }

  /** The range starts even and ends odd. */
  predicate WholePairs(start: nat, end: nat) { start == Even(start) && end == Even(end) + 1 }

  /** The networks hold the addresses of the range and no others. */
  ghost predicate DenotesExactly(nets: seq<Net>, start: nat, end: nat, w: nat) {
    forall p: nat :: p < Pow2(w) ==> (Denotes(nets, w, p) <==> start <= p <= end)
  }

  /** The list is exactly the requested range if and only if `start` is even and `end` is odd. */
  lemma ExactIffEvenOdd(nets: seq<Net>, start: nat, end: nat, w: nat)
    requires 2 <= w && start <= end < Pow2(w) && IsConversion(nets, start, end, w)
    ensures DenotesExactly(nets, start, end, w) <==> WholePairs(start, end)
  {
    hide Denotes, IsConversion;
    forall p: nat | p < Pow2(w)
      ensures Denotes(nets, w, p) <==> Even(start) <= p < End(start, end)
    {
      ConversionDenotes(nets, start, end, w, p);
    }
    var denoted := (p: nat) => Denotes(nets, w, p);
    IntervalsAgree(denoted, start, end, w);
    assert forall p: nat :: denoted(p) == Denotes(nets, w, p);
  }

  lemma IntervalsAgree(denoted: nat -> bool, start: nat, end: nat, w: nat)
    requires 2 <= w && start <= end < Pow2(w)
    requires forall p: nat :: p < Pow2(w) ==> (denoted(p) <==> Even(start) <= p < End(start, end))
    ensures start % 2 == 0 && end % 2 == 1 <==>
              forall p: nat :: p < Pow2(w) ==> (denoted(p) <==> start <= p <= end)
  {
    assert Pow2(w) == 2 * Pow2(w - 1);
    if start % 2 == 1 {
      assert denoted(start - 1);
    } else if end % 2 == 0 {
      assert denoted(end + 1);
    }
  }

  /** For example 0.0.0.3-0.0.0.4 becomes a list that holds 0.0.0.2 and misses 0.0.0.4. */
  lemma OddStartExample(nets: seq<Net>)
    requires IsConversion(nets, 3, 4, 32)
    ensures Denotes(nets, 32, 2) && !Denotes(nets, 32, 4)
  {
    hide Denotes, IsConversion;
    Pow2Mono(16, 32);
    Pow2Values();
    ConversionDenotes(nets, 3, 4, 32, 2);
    ConversionDenotes(nets, 3, 4, 32, 4);
  }

  /** The whole IPv4 space cannot be converted. */
  method PanicExample() returns (nets: Option<seq<Net>>)
    ensures nets.None?
  {
    Pow2Values();
    Pow2Plus16(16);
    Pow2Mono(31, 32);
    nets := RangeConvert(0, 0xFFFF_FFFF, 32);
  }
}
