/** Keys of flows between two IPv6 addresses: for which flows the border between the two printed
    addresses can be lost. */
module FlowBorders {
  import opened GoTypes
  import opened Text
  import opened IpAddress
  import opened IpParse
  import opened FlowKeys

  // A text that prints an IPv6 address: it parses, and prints the same again.
  predicate Printed(t: string)
  {
    var g := ParseV6(t);
    g.Some? && Meaning(FromGroups(g.value)) == V6(g.value) && V6Text(g.value) == t
  }

  lemma PrintedExactly(t: string)
    ensures Printed(t) <==> exists ip :: Meaning(ip).V6? && IpString(ip) == t
  {
    if Printed(t) {
      assert IpString(FromGroups(ParseV6(t).value)) == t;
    }
    if ip :| Meaning(ip).V6? && IpString(ip) == t {
      PrintsAsItself(ip);
    }
  }

  lemma PrintsAsItself(ip: IP)
    requires Meaning(ip).V6?
    ensures Printed(IpString(ip))
  {
    var g := Meaning(ip).groups;
    V6ReadsBack(g);
    GroupsBack(ip, g);
  }

  // The text can be cut at the colon at k into two printed addresses.
  predicate Cuts(t: string, k: int)
  {
    0 <= k < |t| && t[k] == ':' && Printed(t[..k]) && Printed(t[k + 1..])
  }

  predicate BorderFixed(a: FlowKey)
  {
    forall k :: 0 <= k < |Addresses(a)| && Cuts(Addresses(a), k) ==> k == |IpString(a.srcAddr)|
  }

  predicate BothV6(a: FlowKey) { Meaning(a.srcAddr).V6? && Meaning(a.dstAddr).V6? }

  lemma AddressesCut(a: FlowKey)
    requires BothV6(a)
    ensures var k := |IpString(a.srcAddr)|;
      Cuts(Addresses(a), k) && Addresses(a)[..k] == IpString(a.srcAddr) && Addresses(a)[k + 1..] == IpString(a.dstAddr)
  {
    PrintsAsItself(a.srcAddr);
    PrintsAsItself(a.dstAddr);
    var s, d := IpString(a.srcAddr), IpString(a.dstAddr);
    assert (s + ":" + d)[..|s|] == s && (s + ":" + d)[|s| + 1..] == d;
  }

  // A key between IPv6 addresses names its flow exactly when its address text can be cut into two printed
  // addresses in one place only.
  lemma BorderExactly(a: FlowKey)
    requires BothV6(a)
    ensures (forall b :: AsKey(a) == AsKey(b) ==> SameFlow(a, b)) <==> BorderFixed(a)
  {
    hide AsKey, Printed;
    if BorderFixed(a) {
      forall b | AsKey(a) == AsKey(b)
        ensures SameFlow(a, b)
      {
        SameKeySameCut(a, b);
      }
    } else {
      var k :| 0 <= k < |Addresses(a)| && Cuts(Addresses(a), k) && k != |IpString(a.srcAddr)|;
      var b := OtherFlow(a, k);
    }
  }

  lemma SameKeySameCut(a: FlowKey, b: FlowKey)
    requires BothV6(a) && BorderFixed(a) && AsKey(a) == AsKey(b)
    ensures SameFlow(a, b)
  {
    KeyFields(a, b);
    if BothV6(b) {
      AddressesCut(a);
      AddressesCut(b);
      IpStringIdentifies(a.srcAddr, b.srcAddr);
      IpStringIdentifies(a.dstAddr, b.dstAddr);
    } else {
      AsKeyIdentifies(b, a);
    }
  }

  lemma OtherFlow(a: FlowKey, k: nat) returns (b: FlowKey)
    requires BothV6(a) && Cuts(Addresses(a), k) && k != |IpString(a.srcAddr)|
    ensures AsKey(a) == AsKey(b) && !SameFlow(a, b)
  {
    hide Printed, IpString, Meaning, Numeral;
    var t := Addresses(a);
    PrintedExactly(t[..k]);
    PrintedExactly(t[k + 1..]);
    var x :| Meaning(x).V6? && IpString(x) == t[..k];
    var y :| Meaning(y).V6? && IpString(y) == t[k + 1..];
    b := a.(srcAddr := x, dstAddr := y);
    assert t == t[..k] + ":" + t[k + 1..];
    assert Addresses(b) == t;
    IpStringIdentifies(a.srcAddr, x);
  }

  // ---- An address without "::" fixes the border ----

  function Colons(s: string): nat
  {
    if s == "" then 0 else Colons(s[..|s| - 1]) + if s[|s| - 1] == ':' then 1 else 0
  }

  lemma {:induction false} ColonsAdd(s: string, t: string)
    ensures Colons(s + t) == Colons(s) + Colons(t)
  {
    if t == "" {
      assert s + t == s;
    } else {
      assert (s + t)[..|s + t| - 1] == s + t[..|t| - 1];
      ColonsAdd(s, t[..|t| - 1]);
    }
  }

  lemma {:induction false} NoColons(s: string)
    requires ':' !in s
    ensures Colons(s) == 0
  {
    if s != "" {
      NoColons(s[..|s| - 1]);
    }
  }

  lemma {:induction false} ColonsOfJoin(g: seq<u16>)
    ensures Colons(Join(g, 16, ':')) == if g == [] then 0 else |g| - 1
  {
    if g != [] {
      NumeralShape(g[0], 16);
      NoColons(Numeral(g[0], 16));
      if |g| > 1 {
        ColonsOfJoin(g[1..]);
        ColonsAdd(Numeral(g[0], 16) + [':'], Join(g[1..], 16, ':'));
        ColonsAdd(Numeral(g[0], 16), [':']);
        assert Colons([':']) == 1;
      }
    }
  }

  predicate HasDoubleColon(s: string) { exists i :: 0 <= i < |s| && DoubleColonAt(s, i) }

  // A printed address has seven colons, or a "::" and at most seven.
  lemma ColonsOfAddress(g: seq<u16>)
    requires |g| == 8
    ensures Colons(V6Text(g)) <= 7 && (!HasDoubleColon(V6Text(g)) ==> Colons(V6Text(g)) == 7)
  {
    hide Join, Colons;
    var (s, m) := LongestRun(g, 0, 0, 0);
    if m <= 1 {
      ColonsOfJoin(g);
    } else {
      var a, x := Join(g[..s], 16, ':'), Join(g[s + m..], 16, ':');
      ColonsOfJoin(g[..s]);
      ColonsOfJoin(g[s + m..]);
      ColonsAdd(a + "::", x);
      ColonsAdd(a, "::");
      TwoColons();
      assert DoubleColonAt(a + "::" + x, |a|);
    }
  }

  lemma TwoColons()
    ensures Colons("::") == 2 && Colons(":") == 1
  {
    assert "::"[..1] == ":" && ":"[..0] == "";
  }

  lemma PrintedColons(t: string)
    requires Printed(t)
    ensures Colons(t) <= 7 && (!HasDoubleColon(t) ==> Colons(t) == 7)
  {
    hide ParseV6, V6Text;
    ColonsOfAddress(ParseV6(t).value);
  }

  // Of two printed addresses with a colon between, neither is part of another one without "::" that
  // continues with a colon.
  lemma NoPrefix(x: string, y: string, t: string)
    requires Printed(x) && Printed(y) && y == x + ":" + t
    ensures HasDoubleColon(x)
  {
    PrintedColons(x);
    PrintedColons(y);
    ColonsAdd(x + ":", t);
    ColonsAdd(x, ":");
    TwoColons();
  }

  lemma DoubleColonStays(x: string, y: string)
    requires HasDoubleColon(x)
    ensures HasDoubleColon(x + y) && HasDoubleColon(y + x)
  {
    var i :| 0 <= i < |x| && DoubleColonAt(x, i);
    assert DoubleColonAt(x + y, i) && DoubleColonAt(y + x, |y| + i);
  }

  lemma NoSuffix(x: string, y: string, t: string)
    requires Printed(x) && Printed(y) && y == t + ":" + x
    ensures HasDoubleColon(x)
  {
    PrintedColons(x);
    PrintedColons(y);
    ColonsAdd(t + ":", x);
    ColonsAdd(t, ":");
    TwoColons();
  }

  // If either address prints without "::", the key names its flow.
  lemma FullAddressFixesBorder(a: FlowKey)
    requires BothV6(a) && (!HasDoubleColon(IpString(a.srcAddr)) || !HasDoubleColon(IpString(a.dstAddr)))
    ensures BorderFixed(a)
  {
    AddressesCut(a);
    PrintsAsItself(a.srcAddr);
    PrintsAsItself(a.dstAddr);
    forall k | 0 <= k < |Addresses(a)| && Cuts(Addresses(a), k)
      ensures k == |IpString(a.srcAddr)|
    {
      OneCut(IpString(a.srcAddr), IpString(a.dstAddr), k);
    }
  }

  lemma OneCut(s: string, d: string, k: nat)
    requires Printed(s) && Printed(d) && (!HasDoubleColon(s) || !HasDoubleColon(d)) && Cuts(s + ":" + d, k)
    ensures k == |s|
  {
    hide Printed;
    var t := s + ":" + d;
    var x, y := t[..k], t[k + 1..];
    if k < |s| {
      var w := s[k + 1..];
      assert s == x + ":" + w == x + (":" + w) && y == w + ":" + d;
      NoSuffix(d, y, w);
      NoPrefix(x, s, w);
      DoubleColonStays(x, ":" + w);
    } else if k > |s| {
      var w := d[..k - |s| - 1];
      assert x == s + ":" + w && d == w + ":" + y == (w + ":") + y;
      NoPrefix(s, x, w);
      NoSuffix(y, d, w);
      DoubleColonStays(y, w + ":");
    }
  }
}
