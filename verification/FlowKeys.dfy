/** A flow's five-tuple and the printed key under which the controller caches rules and aggregates
    flows (`FlowKey.AsKey`). */
module FlowKeys {
  import opened GoTypes
  import opened Text
  import opened IpAddress

  const TCP: u8 := 0x06
  const UDP: u8 := 0x11

  datatype FlowKey = FlowKey(protocol: u8, srcAddr: IP, dstAddr: IP, srcPort: u16, dstPort: u16)

  function Addresses(fk: FlowKey): string { IpString(fk.srcAddr) + ":" + IpString(fk.dstAddr) }

  // "%d:%s:%s:%d:%d"
  function AsKey(fk: FlowKey): string
  {
    Numeral(fk.protocol, 10) + ":" + Addresses(fk) + ":" + Numeral(fk.srcPort, 10) + ":" + Numeral(fk.dstPort, 10)
  }

  // The same five-tuple, whichever form the addresses are held in.
  predicate SameFlow(a: FlowKey, b: FlowKey)
  {
    && a.protocol == b.protocol && a.srcPort == b.srcPort && a.dstPort == b.dstPort
    && Meaning(a.srcAddr) == Meaning(b.srcAddr) && Meaning(a.dstAddr) == Meaning(b.dstAddr)
  }

  predicate IsV4(fk: FlowKey) { Meaning(fk.srcAddr).V4? && Meaning(fk.dstAddr).V4? }

  lemma NoColon(n: nat)
    ensures ':' !in Numeral(n, 10)
  {
    NumeralShape(n, 10);
  }

  // Protocol and ports can always be read back from a key; only the border between the two
  // addresses may be lost.
  lemma KeyFields(a: FlowKey, b: FlowKey)
    requires AsKey(a) == AsKey(b)
    ensures a.protocol == b.protocol && a.srcPort == b.srcPort && a.dstPort == b.dstPort
    ensures Addresses(a) == Addresses(b)
  {
    NoColon(a.protocol); NoColon(b.protocol);
    NoColon(a.srcPort); NoColon(b.srcPort);
    NoColon(a.dstPort); NoColon(b.dstPort);
    var pa, pb := Numeral(a.protocol, 10), Numeral(b.protocol, 10);
    var sa, sb := Numeral(a.srcPort, 10), Numeral(b.srcPort, 10);
    var da, db := Numeral(a.dstPort, 10), Numeral(b.dstPort, 10);
    LastSeparator(pa + ":" + Addresses(a) + ":" + sa, da, pb + ":" + Addresses(b) + ":" + sb, db, ':');
    LastSeparator(pa + ":" + Addresses(a), sa, pb + ":" + Addresses(b), sb, ':');
    FirstSeparator(pa, Addresses(a), pb, Addresses(b), ':');
    NumeralInjective(a.protocol, b.protocol, 10);
    NumeralInjective(a.srcPort, b.srcPort, 10);
    NumeralInjective(a.dstPort, b.dstPort, 10);
  }

  // If the first of two equal colon-separated texts starts with a colon-free word, every character of
  // that word lies before the first colon of the second text.
  lemma WordInHead(a: string, x: string, b: string, y: string, k: nat)
    requires ':' !in a && ':' in b && k < |a|
    requires a + ":" + x == b + ":" + y
    ensures a[k] in b
  {
    var s, t := a + ":" + x, b + ":" + y;
    assert forall i :: 0 <= i < |a| ==> s[i] == a[i];
    assert forall i :: 0 <= i < |b| ==> t[i] == b[i];
    var i :| 0 <= i < |b| && b[i] == ':';
    assert k < |a| <= i;
    assert b[k] == a[k];
  }

  lemma WordInTail(a: string, x: string, b: string, y: string, k: nat)
    requires ':' !in a && ':' in b && k < |a|
    requires x + ":" + a == y + ":" + b
    ensures a[k] in b
  {
    var s, t := x + ":" + a, y + ":" + b;
    assert forall i :: |x| < i < |s| ==> s[i] == a[i - |x| - 1];
    assert forall i :: |y| < i < |t| ==> t[i] == b[i - |y| - 1];
    var i :| 0 <= i < |b| && b[i] == ':';
    assert t[|y| + 1 + i] == ':';
    assert s[|x| + 1 + k] == a[k];
    assert b[|x| + k - |y|] == a[k];
  }

  // A printed address without colons cannot be a piece of a printed IPv6 address: it holds a character
  // that is no hex digit.
  lemma HeadIsWhole(a: IP, x: string, b: IP, y: string)
    requires !Meaning(a).V6?
    requires IpString(a) + ":" + x == IpString(b) + ":" + y
    ensures !Meaning(b).V6?
  {
    TextShape(a);
    TextShape(b);
    var k :| 0 <= k < |IpString(a)| && !IsHexDigit(IpString(a)[k]);
    if Meaning(b).V6? {
      WordInHead(IpString(a), x, IpString(b), y, k);
    }
  }

  lemma TailIsWhole(a: IP, x: string, b: IP, y: string)
    requires !Meaning(a).V6?
    requires x + ":" + IpString(a) == y + ":" + IpString(b)
    ensures !Meaning(b).V6?
  {
    TextShape(a);
    TextShape(b);
    var k :| 0 <= k < |IpString(a)| && !IsHexDigit(IpString(a)[k]);
    if Meaning(b).V6? {
      WordInTail(IpString(a), x, IpString(b), y, k);
    }
  }

  lemma AddressesIdentify(a: FlowKey, b: FlowKey)
    requires Addresses(a) == Addresses(b)
    requires !(Meaning(a.srcAddr).V6? && Meaning(a.dstAddr).V6?)
    ensures Meaning(a.srcAddr) == Meaning(b.srcAddr) && Meaning(a.dstAddr) == Meaning(b.dstAddr)
  {
    var sa, da, sb, db := IpString(a.srcAddr), IpString(a.dstAddr), IpString(b.srcAddr), IpString(b.dstAddr);
    TextShape(a.srcAddr); TextShape(a.dstAddr);
    TextShape(b.srcAddr); TextShape(b.dstAddr);
    if !Meaning(a.srcAddr).V6? {
      HeadIsWhole(a.srcAddr, da, b.srcAddr, db);
      FirstSeparator(sa, da, sb, db, ':');
    } else {
      TailIsWhole(a.dstAddr, sa, b.dstAddr, sb);
      LastSeparator(sa, da, sb, db, ':');
    }
    IpStringIdentifies(a.srcAddr, b.srcAddr);
    IpStringIdentifies(a.dstAddr, b.dstAddr);
  }

  // A key with at least one address that is not IPv6 names its flow: no other flow of any kind prints
  // the same key.
  lemma AsKeyIdentifies(a: FlowKey, b: FlowKey)
    requires !(Meaning(a.srcAddr).V6? && Meaning(a.dstAddr).V6?)
    ensures AsKey(a) == AsKey(b) <==> SameFlow(a, b)
  {
    if AsKey(a) == AsKey(b) {
      KeyFields(a, b);
      AddressesIdentify(a, b);
    }
    if SameFlow(a, b) {
      IpStringIdentifies(a.srcAddr, b.srcAddr);
      IpStringIdentifies(a.dstAddr, b.dstAddr);
    }
  }

  // ---- IPv6 to IPv6 flows collide ----

  lemma FromGroupsMeans(g: seq<u16>)
    requires |g| == 8 && g[0] != 0
    ensures Meaning(FromGroups(g)) == V6(g)
  {
    var ip := FromGroups(g);
    assert To4(ip).None? by {
      FromGroupsGroup(g, 0);
      assert ip[..12][0] == ip[0] && ip[..12][1] == ip[1];
    }
    forall i | 0 <= i < 8 ensures Group(ip, i) == g[i] {
      FromGroupsGroup(g, i);
    }
    assert Meaning(ip).groups == g;
  }

  // a:b::c and the like: p groups, zeros, q groups.
  lemma CompressedText(g: seq<u16>, p: nat, q: nat)
    requires |g| == 8 && p + q <= 6
    requires forall k :: 0 <= k < 8 ==> (g[k] == 0 <==> p <= k < 8 - q)
    ensures V6Text(g) == Join(g[..p], 16, ':') + "::" + Join(g[8 - q..], 16, ':')
  {
    RunBefore(g, 0, p, q);
  }

  lemma {:induction false} RunLength(g: seq<u16>, i: nat, end: nat)
    requires i <= end <= |g| && (forall k :: i <= k < end ==> g[k] == 0) && (end < |g| ==> g[end] != 0)
    ensures ZeroRun(g, i) == end - i
    decreases end - i
  {
    if i < end {
      RunLength(g, i + 1, end);
    }
  }

  lemma {:induction false} RunAfter(g: seq<u16>, i: nat, s: nat, m: nat)
    requires s + m <= |g| && (forall k :: s <= k < s + m ==> g[k] == 0)
    requires forall k :: i <= k < |g| ==> g[k] != 0
    ensures LongestRun(g, i, s, m) == (s, m)
    decreases |g| - i
  {
    if i < |g| {
      RunAfter(g, i + 1, s, m);
    }
  }

  lemma {:induction false} RunBefore(g: seq<u16>, i: nat, p: nat, q: nat)
    requires |g| == 8 && p + q <= 6 && i <= p
    requires forall k :: 0 <= k < 8 ==> (g[k] == 0 <==> p <= k < 8 - q)
    ensures LongestRun(g, i, 0, 0) == (p, 8 - q - p)
    decreases p - i
  {
    if i < p {
      RunBefore(g, i + 1, p, q);
    } else {
      RunLength(g, p, 8 - q);
      RunAfter(g, 8 - q + 1, p, 8 - q - p);
    }
  }

  function DigitList(v: seq<u16>): string
    requires 1 <= |v| <= 2 && forall k :: 0 <= k < |v| ==> v[k] < 10
  {
    if |v| == 1 then [DigitChar(v[0])] else [DigitChar(v[0])] + ":" + [DigitChar(v[1])]
  }

  lemma SmallText(g: seq<u16>, p: seq<u16>, q: seq<u16>)
    requires |g| == 8 && 1 <= |p| <= 2 && 1 <= |q| <= 2
    requires g[..|p|] == p && g[8 - |q|..] == q
    requires forall k :: 0 <= k < 8 ==> (g[k] == 0 <==> |p| <= k < 8 - |q|)
    requires forall k :: 0 <= k < |p| ==> p[k] < 10
    requires forall k :: 0 <= k < |q| ==> q[k] < 10
    ensures Meaning(FromGroups(g)) == V6(g)
    ensures IpString(FromGroups(g)) == DigitList(p) + "::" + DigitList(q)
  {
    FromGroupsMeans(g);
    CompressedText(g, |p|, |q|);
    SmallJoin(p);
    SmallJoin(q);
  }

  lemma SmallJoin(v: seq<u16>)
    requires 1 <= |v| <= 2 && forall k :: 0 <= k < |v| ==> v[k] < 10
    ensures Join(v, 16, ':') == DigitList(v)
  {
    if |v| == 2 {
      assert v[1..] == [v[1]];
    }
  }

  // Small nonzero groups: a::b, a:b::c and a::b:c.
  function Ip11(a: u16, b: u16): (ip: IP) { FromGroups([a, 0, 0, 0, 0, 0, 0, b]) }
  function Ip21(a: u16, b: u16, c: u16): (ip: IP) { FromGroups([a, b, 0, 0, 0, 0, 0, c]) }
  function Ip12(a: u16, b: u16, c: u16): (ip: IP) { FromGroups([a, 0, 0, 0, 0, 0, b, c]) }

  lemma Text11(a: u16, b: u16)
    requires 0 < a < 10 && 0 < b < 10
    ensures IpString(Ip11(a, b)) == [DigitChar(a)] + "::" + [DigitChar(b)]
    ensures Meaning(Ip11(a, b)) == V6([a, 0, 0, 0, 0, 0, 0, b])
  {
    var g: seq<u16> := [a, 0, 0, 0, 0, 0, 0, b];
    assert g[..1] == [a] && g[7..] == [b];
    SmallText(g, [a], [b]);
  }

  lemma Text21(a: u16, b: u16, c: u16)
    requires 0 < a < 10 && 0 < b < 10 && 0 < c < 10
    ensures IpString(Ip21(a, b, c)) == [DigitChar(a)] + ":" + [DigitChar(b)] + "::" + [DigitChar(c)]
    ensures Meaning(Ip21(a, b, c)) == V6([a, b, 0, 0, 0, 0, 0, c])
  {
    var g: seq<u16> := [a, b, 0, 0, 0, 0, 0, c];
    assert g[..2] == [a, b] && g[7..] == [c];
    SmallText(g, [a, b], [c]);
  }

  lemma Text12(a: u16, b: u16, c: u16)
    requires 0 < a < 10 && 0 < b < 10 && 0 < c < 10
    ensures IpString(Ip12(a, b, c)) == [DigitChar(a)] + "::" + ([DigitChar(b)] + ":" + [DigitChar(c)])
    ensures Meaning(Ip12(a, b, c)) == V6([a, 0, 0, 0, 0, 0, b, c])
  {
    var g: seq<u16> := [a, 0, 0, 0, 0, 0, b, c];
    assert g[..1] == [a] && g[6..] == [b, c];
    SmallText(g, [a], [b, c]);
  }

  lemma Regroup(a: string, b: string, c: string, d: string, e: string)
    ensures (a + "::" + b) + ":" + (c + ":" + d + "::" + e) == (a + "::" + (b + ":" + c)) + ":" + (d + "::" + e)
  {
  }

  // From 1::2 to 3:4::5, and from 1::2:3 to 4::5: two flows, one key, whatever the protocol and ports.
  lemma AsKeyCollides(protocol: u8, srcPort: u16, dstPort: u16) returns (a: FlowKey, b: FlowKey)
    ensures AsKey(a) == AsKey(b) && !SameFlow(a, b)
    ensures Meaning(a.srcAddr) == V6([1, 0, 0, 0, 0, 0, 0, 2]) && Meaning(a.dstAddr) == V6([3, 4, 0, 0, 0, 0, 0, 5])
    ensures Meaning(b.srcAddr) == V6([1, 0, 0, 0, 0, 0, 2, 3]) && Meaning(b.dstAddr) == V6([4, 0, 0, 0, 0, 0, 0, 5])
  {
    a := FlowKey(protocol, Ip11(1, 2), Ip21(3, 4, 5), srcPort, dstPort);
    b := FlowKey(protocol, Ip12(1, 2, 3), Ip11(4, 5), srcPort, dstPort);
    Text11(1, 2);
    Text21(3, 4, 5);
    Text12(1, 2, 3);
    Text11(4, 5);
    Regroup([DigitChar(1)], [DigitChar(2)], [DigitChar(3)], [DigitChar(4)], [DigitChar(5)]);
    assert Addresses(a) == Addresses(b);
    assert Meaning(a.srcAddr).groups[6] != Meaning(b.srcAddr).groups[6];
  }

  datatype Kind = NoKind | V4Kind | V6Kind | MalformedKind

  function KindOf(ip: IP): Kind
  {
    match Meaning(ip)
    case NoAddress => NoKind
    case V4(_) => V4Kind
    case V6(_) => V6Kind
    case Malformed(_) => MalformedKind
  }

  ghost predicate OfKind(fk: FlowKey, src: Kind, dst: Kind) { KindOf(fk.srcAddr) == src && KindOf(fk.dstAddr) == dst }

  // The printed key names its flow, against flows of every kind, exactly for those kinds of flow that
  // do not run from IPv6 to IPv6.
  lemma AsKeyIdentifiesExactly(src: Kind, dst: Kind)
    ensures (forall a, b :: OfKind(a, src, dst) && AsKey(a) == AsKey(b) ==> SameFlow(a, b))
       <==> !(src == V6Kind && dst == V6Kind)
  {
    if src == V6Kind && dst == V6Kind {
      var a, b := AsKeyCollides(TCP, 1, 1);
      assert OfKind(a, src, dst);
    } else {
      forall a, b | OfKind(a, src, dst) && AsKey(a) == AsKey(b) ensures SameFlow(a, b) {
        AsKeyIdentifies(a, b);
      }
    }
  }

  // ---- The format ----

  // Between its colons a key shows protocol, source, destination, source port and destination port.
  lemma KeySplits(fk: FlowKey)
    requires !Meaning(fk.srcAddr).V6? && !Meaning(fk.dstAddr).V6?
    ensures Split(AsKey(fk), ':') == [Numeral(fk.protocol, 10), IpString(fk.srcAddr), IpString(fk.dstAddr),
                                      Numeral(fk.srcPort, 10), Numeral(fk.dstPort, 10)]
  {
    hide Numeral, IpString;
    NoColon(fk.protocol); NoColon(fk.srcPort); NoColon(fk.dstPort);
    TextShape(fk.srcAddr); TextShape(fk.dstAddr);
    FiveFields(Numeral(fk.protocol, 10), IpString(fk.srcAddr), IpString(fk.dstAddr), Numeral(fk.srcPort, 10),
               Numeral(fk.dstPort, 10));
  }

  lemma FiveFields(a: string, b: string, c: string, d: string, e: string)
    requires ':' !in a && ':' !in b && ':' !in c && ':' !in d && ':' !in e
    ensures Split(a + ":" + (b + ":" + c) + ":" + d + ":" + e, ':') == [a, b, c, d, e]
  {
    hide Split;
    SplitNone(e, ':');
    SplitAtFirst(d, e, ':');
    SplitAtFirst(c, d + ":" + e, ':');
    SplitAtFirst(b, c + ":" + (d + ":" + e), ':');
    SplitAtFirst(a, b + ":" + (c + ":" + (d + ":" + e)), ':');
    assert a + ":" + (b + ":" + c) + ":" + d + ":" + e == a + ":" + (b + ":" + (c + ":" + (d + ":" + e)));
  }

  // Two texts in full: 10.0.0.1, and 2001:db8::1 from its sixteen bytes.
  lemma KnownTexts()
    ensures IpString([10, 0, 0, 1]) == "10.0.0.1"
    ensures IpString([0x20, 0x01, 0x0d, 0xb8, 0, 0, 0, 0, 0, 0, 0, 0, 0, 0, 0, 1]) == "2001:db8::1"
  {
    KnownV4();
    KnownV6();
  }

  lemma KnownV4()
    ensures IpString([10, 0, 0, 1]) == "10.0.0.1"
  {
    var b: seq<u8> := [10, 0, 0, 1];
    assert Numeral(10, 10) == "10" && Numeral(0, 10) == "0" && Numeral(1, 10) == "1";
    assert b[1..] == [0, 0, 1] && [0, 0, 1][1..] == [0, 1] && [0, 1][1..] == [1];
    assert Join([1], 10, '.') == "1";
    assert Join([0, 1], 10, '.') == "0.1";
    assert Join([0, 0, 1], 10, '.') == "0.0.1";
    assert Join(b, 10, '.') == "10.0.0.1";
  }

  lemma KnownV6()
    ensures IpString([0x20, 0x01, 0x0d, 0xb8, 0, 0, 0, 0, 0, 0, 0, 0, 0, 0, 0, 1]) == "2001:db8::1"
  {
    hide Numeral, Join, LongestRun;
    var ip: IP := [0x20, 0x01, 0x0d, 0xb8, 0, 0, 0, 0, 0, 0, 0, 0, 0, 0, 0, 1];
    var g: seq<u16> := [0x2001, 0xdb8, 0, 0, 0, 0, 0, 1];
    assert ip[..12][0] == 0x20;
    assert To4(ip).None?;
    forall i | 0 <= i < 8
      ensures Group(ip, i) == g[i]
    {
    }
    assert Meaning(ip).groups == g;
    CompressedText(g, 2, 1);
    assert g[..2] == [0x2001, 0xdb8] && g[7..] == [1];
    KnownGroups();
  }

  lemma KnownGroups()
    ensures Join([0x2001, 0xdb8], 16, ':') + "::" + Join([1], 16, ':') == "2001:db8::1"
  {
    HexText(0x2001, 2, 0, 0, 1);
    assert Numeral(0xdb, 16) == "db" && Numeral(0xdb8, 16) == Numeral(0xdb, 16) + "8";
    assert [0x2001, 0xdb8][1..] == [0xdb8];
  }

  lemma HexText(n: u16, a: u16, b: u16, c: u16, d: u16)
    requires 0 < a < 16 && b < 16 && c < 16 && d < 16 && n == a * 0x1000 + b * 0x100 + c * 0x10 + d
    ensures Numeral(n, 16) == [DigitChar(a), DigitChar(b), DigitChar(c), DigitChar(d)]
  {
    assert n / 16 == a * 0x100 + b * 0x10 + c && n % 16 == d;
    assert (n / 16) / 16 == a * 0x10 + b && (n / 16) % 16 == c;
    assert Numeral(n / 16 / 16, 16) == [DigitChar(a), DigitChar(b)];
    assert Numeral(n / 16, 16) == [DigitChar(a), DigitChar(b), DigitChar(c)];
  }
}
