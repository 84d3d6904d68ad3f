/** The meaning of the packed key: which header value sits in which bytes, and what
    masking the bytes does to the values. */
module HeaderLayout {
  import opened Words
  import opened Bits
  import opened MatchedFields

  datatype Header = Header(srcIp: seq<byte>, dstIp: seq<byte>, srcEpc: u16, dstEpc: u16,
                           srcPort: u16, dstPort: u16, proto: byte, tap: byte)

  predicate Sized(h: Header, n: nat) { |h.srcIp| == n && |h.dstIp| == n }

  function Others(h: Header): (s: seq<byte>)
    ensures |s| == OTHER_SIZE
  {
    LeBytes(h.srcEpc) + LeBytes(h.dstEpc) + LeBytes(h.srcPort) + LeBytes(h.dstPort) + [h.proto] + [h.tap]
  }

  function Layout(h: Header): Field {
    h.srcIp + h.dstIp + Others(h)
  }

  function Blank(n: nat): (h: Header)
    ensures Sized(h, n)
  {
    Header(seq(n, _ => 0), seq(n, _ => 0), 0, 0, 0, 0, 0, 0)
  }

  lemma BlankLayout(n: nat)
    ensures Layout(Blank(n)) == seq(2 * n + OTHER_SIZE, _ => 0)
  {
  }

  /** The header after `set`; one-byte values are truncated. */
  function With(h: Header, flag: Flag, v: u16): Header {
    match flag
    case SrcEpc => h.(srcEpc := v)
    case DstEpc => h.(dstEpc := v)
    case SrcPort => h.(srcPort := v)
    case DstPort => h.(dstPort := v)
    case Proto => h.(proto := v % 256)
    case CaptureNetworkType => h.(tap := v % 256)
    case SrcIp => h
    case DstIp => h
  }

  /** `set` on the bytes is `With` on the header. */
  lemma SetIsWith(h: Header, n: nat, flag: Flag, v: u16)
    requires Sized(h, n) && !IsIp(flag)
    ensures Splice(Layout(h), 2 * n + OffsetOf(flag), FlagBytes(flag, v)) == Layout(With(h, flag, v))
  {
    OthersSet(h, flag, v);
    hide Others, FlagBytes, OffsetOf, With, Splice;
    SpliceBehind(h.srcIp + h.dstIp, Others(h), OffsetOf(flag), FlagBytes(flag, v));
  }

  lemma SpliceBehind(head: Field, tail: Field, at: nat, bs: seq<byte>)
    requires at + |bs| <= |tail|
    ensures Splice(head + tail, |head| + at, bs) == head + Splice(tail, at, bs)
  {
    assert (head + tail)[..|head| + at] == head + tail[..at];
    assert (head + tail)[|head| + at + |bs|..] == tail[at + |bs|..];
  }

  lemma OthersSet(h: Header, flag: Flag, v: u16)
    requires !IsIp(flag)
    ensures var h' := With(h, flag, v);
            && OffsetOf(flag) + |FlagBytes(flag, v)| <= OTHER_SIZE
            && Splice(Others(h), OffsetOf(flag), FlagBytes(flag, v)) == Others(h')
            && h'.srcIp == h.srcIp && h'.dstIp == h.dstIp
  {
    hide LeBytes;
    LeLength();
  }

  lemma SetIpIsUpdate(h: Header, n: nat, octets: seq<byte>)
    requires Sized(h, n) && |octets| == n
    ensures Splice(Layout(h), 0, octets) == Layout(h.(srcIp := octets))
    ensures Splice(Layout(h), n, octets) == Layout(h.(dstIp := octets))
  {
    assert Others(h.(srcIp := octets)) == Others(h) == Others(h.(dstIp := octets));
    assert Layout(h)[..0] == [] && Layout(h)[n..] == h.dstIp + Others(h);
    assert Layout(h)[..n] == h.srcIp && Layout(h)[n + n..] == Others(h);
  }

  // ---------- masking ----------

  lemma AndBytes(x: nat, y: nat)
    ensures And(x % 256, y % 256) < 256 && And(x, y) == And(x % 256, y % 256) + 256 * And(x / 256, y / 256)
  {
    hide And, Shl;
    Pow2Values();
    AndSplit(x % 256, x / 256, y % 256, y / 256, 8);
    Shl8(x / 256);
    Shl8(y / 256);
    Shl8(And(x / 256, y / 256));
    AndBound(x % 256, y % 256);
  }

  lemma And16(x: u16, y: u16)
    ensures And(x, y) < 0x1_0000
    ensures And(x, y) % 256 == And(x % 256, y % 256) && And(x, y) / 256 == And(x / 256, y / 256)
  {
    hide And;
    AndBytes(x, y);
    AndBound(x, y);
  }

  function AndWord(x: u16, y: u16): u16 {
    And16(x, y);
    And(x, y)
  }

  function AndHeader(a: Header, b: Header): Header
    requires |a.srcIp| == |b.srcIp| && |a.dstIp| == |b.dstIp|
  {
    Header(AndField(a.srcIp, b.srcIp), AndField(a.dstIp, b.dstIp),
           AndWord(a.srcEpc, b.srcEpc), AndWord(a.dstEpc, b.dstEpc),
           AndWord(a.srcPort, b.srcPort), AndWord(a.dstPort, b.dstPort),
           AndByte(a.proto, b.proto), AndByte(a.tap, b.tap))
  }

  lemma AndConcat(a: Field, b: Field, c: Field, d: Field)
    requires |a| == |c| && |b| == |d|
    ensures AndField(a + b, c + d) == AndField(a, c) + AndField(b, d)
  {
  }

  lemma AndLe(x: u16, y: u16)
    ensures AndField(LeBytes(x), LeBytes(y)) == LeBytes(AndWord(x, y))
  {
    And16(x, y);
  }

  lemma AndOthers(a: Header, b: Header)
    requires |a.srcIp| == |b.srcIp| && |a.dstIp| == |b.dstIp|
    ensures AndField(Others(a), Others(b)) == Others(AndHeader(a, b))
  {
    hide And, AndField, LeBytes;
    var (e1, e2, p1, p2) := (LeBytes(a.srcEpc), LeBytes(a.dstEpc), LeBytes(a.srcPort), LeBytes(a.dstPort));
    var (f1, f2, q1, q2) := (LeBytes(b.srcEpc), LeBytes(b.dstEpc), LeBytes(b.srcPort), LeBytes(b.dstPort));
    AndLe(a.srcEpc, b.srcEpc);
    AndLe(a.dstEpc, b.dstEpc);
    AndLe(a.srcPort, b.srcPort);
    AndLe(a.dstPort, b.dstPort);
    AndOne(a.proto, b.proto);
    AndOne(a.tap, b.tap);
    LeLength();
    AndConcat(e1, e2, f1, f2);
    AndConcat(e1 + e2, p1, f1 + f2, q1);
    AndConcat(e1 + e2 + p1, p2, f1 + f2 + q1, q2);
    AndConcat(e1 + e2 + p1 + p2, [a.proto], f1 + f2 + q1 + q2, [b.proto]);
    AndConcat(e1 + e2 + p1 + p2 + [a.proto], [a.tap], f1 + f2 + q1 + q2 + [b.proto], [b.tap]);
  }

  lemma LeLength()
    ensures forall x: u16 :: |LeBytes(x)| == 2
  {
  }

  lemma AndOne(x: byte, y: byte)
    ensures AndField([x], [y]) == [AndByte(x, y)]
  {
  }

  /** `&` on packed keys is `&` on every header value. */
  lemma AndLayout(a: Header, b: Header)
    requires |a.srcIp| == |b.srcIp| && |a.dstIp| == |b.dstIp|
    ensures |Layout(a)| == |Layout(b)|
    ensures AndField(Layout(a), Layout(b)) == Layout(AndHeader(a, b))
  {
    hide And, AndField, Others;
    AndOthers(a, b);
    AndConcat(a.srcIp, a.dstIp, b.srcIp, b.dstIp);
    AndConcat(a.srcIp + a.dstIp, Others(a), b.srcIp + b.dstIp, Others(b));
  }

  /** Headers with the same bytes are the same header. */
  lemma LayoutInjective(a: Header, b: Header, n: nat)
    requires Sized(a, n) && Sized(b, n) && Layout(a) == Layout(b)
    ensures a == b
  {
    assert a.srcIp == Layout(a)[..n] == Layout(b)[..n] == b.srcIp;
    assert a.dstIp == Layout(a)[n..2 * n] == Layout(b)[n..2 * n] == b.dstIp;
    assert Others(a) == Layout(a)[2 * n..] == Layout(b)[2 * n..] == Others(b);
    OthersInjective(a, b);
  }

  lemma OthersInjective(a: Header, b: Header)
    requires Others(a) == Others(b)
    ensures a.srcEpc == b.srcEpc && a.dstEpc == b.dstEpc && a.srcPort == b.srcPort && a.dstPort == b.dstPort
    ensures a.proto == b.proto && a.tap == b.tap
  {
    var s, t := Others(a), Others(b);
    assert s[0] == a.srcEpc % 256 && s[1] == a.srcEpc / 256 && t[0] == b.srcEpc % 256 && t[1] == b.srcEpc / 256;
    assert s[2] == a.dstEpc % 256 && s[3] == a.dstEpc / 256 && t[2] == b.dstEpc % 256 && t[3] == b.dstEpc / 256;
    assert s[4] == a.srcPort % 256 && s[5] == a.srcPort / 256 && t[4] == b.srcPort % 256 && t[5] == b.srcPort / 256;
    assert s[6] == a.dstPort % 256 && s[7] == a.dstPort / 256 && t[6] == b.dstPort % 256 && t[7] == b.dstPort / 256;
    assert s[8] == a.proto && s[9] == a.tap && t[8] == b.proto && t[9] == b.tap;
  }

  /** A key matches a field/mask pair exactly when every header value does. */
  lemma MatchIsComponentwise(key: Header, mask: Header, field: Header, n: nat)
    requires Sized(key, n) && Sized(mask, n) && Sized(field, n)
    ensures |Layout(key)| == |Layout(mask)|
    ensures AndField(Layout(key), Layout(mask)) == Layout(field) <==> AndHeader(key, mask) == field
  {
    hide And, AndField, Layout;
    AndLayout(key, mask);
    if AndField(Layout(key), Layout(mask)) == Layout(field) {
      LayoutInjective(AndHeader(key, mask), field, n);
    }
  }
}
