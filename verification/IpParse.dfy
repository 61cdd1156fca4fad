/** Parsing addresses and networks: `ParseCIDR` of package `net`, for both families, that it undoes
    `String`, and which addresses the network written for one host covers. */
module IpParse {
  import opened GoTypes
  import opened Text
  import opened IpAddress

  predicate IsByteText(s: string)
  {
    0 < |s| && AllDecimal(s) && NumeralValue(s, 10) < TWO8
  }

  // "a.b.c.d"
  function ParseV4(text: string): (r: Option<seq<u8>>)
    ensures r.Some? ==> |r.value| == 4
  {
    var q := Split(text, '.');
    if |q| == 4 && forall i :: 0 <= i < 4 ==> IsByteText(q[i]) then
      Some(seq(4, i requires 0 <= i < 4 => NumeralValue(q[i], 10)))
    else None
  }

  predicate IsGroupText(s: string)
  {
    && 0 < |s| && (forall i :: 0 <= i < |s| ==> IsHexDigit(s[i]) || IsUpperHex(s[i]))
    && NumeralValue(s, 16) < TWO16
  }

  // The groups of fields that stood between colons; at the end of an address the last may be dotted.
  function FieldGroups(fields: seq<string>, end: bool): Option<seq<u16>>
  {
    if fields == [] then Some([])
    else if end && |fields| == 1 && '.' in fields[0] then
      var b := ParseV4(fields[0]);
      if b.None? then None
      else Some([b.value[0] as int * 256 + b.value[1] as int, b.value[2] as int * 256 + b.value[3] as int])
    else if !IsGroupText(fields[0]) then None
    else
      var rest := FieldGroups(fields[1..], end);
      if rest.None? then None else Some([NumeralValue(fields[0], 16)] + rest.value)
  }

  function SideGroups(text: string, end: bool): Option<seq<u16>>
  {
    if text == "" then Some([]) else FieldGroups(Split(text, ':'), end)
  }

  predicate DoubleColonAt(s: string, i: int) { 0 <= i < |s| - 1 && s[i] == ':' && s[i + 1] == ':' }

  // The first "::", or the end of the text.
  function FirstDoubleColon(s: string): (r: nat)
    ensures r == |s| || DoubleColonAt(s, r)
    ensures forall i :: 0 <= i < r ==> !DoubleColonAt(s, i)
  {
    if s == "" then 0
    else if DoubleColonAt(s, 0) then 0
    else
      var r := FirstDoubleColon(s[1..]);
      assert forall i :: 0 < i < |s| ==> (DoubleColonAt(s, i) <==> DoubleColonAt(s[1..], i - 1));
      1 + r
  }

  // Eight groups, or fewer around a "::" that stands for at least one zero group.
  function ParseV6(text: string): (r: Option<seq<u16>>)
    ensures r.Some? ==> |r.value| == 8
  {
    var k := FirstDoubleColon(text);
    if k == |text| then
      var g := SideGroups(text, true);
      if g.Some? && |g.value| == 8 then g else None
    else
      var left, right := SideGroups(text[..k], false), SideGroups(text[k + 2..], true);
      if left.Some? && right.Some? && |left.value| + |right.value| < 8 then
        Some(left.value + seq(8 - |left.value| - |right.value|, _ => 0) + right.value)
      else None
  }

  // The four or sixteen bytes of an address; IPv4 is tried first.
  function AddressBytes(text: string): (r: Option<seq<u8>>)
    ensures r.Some? ==> |r.value| == 4 || |r.value| == 16
  {
    var b := ParseV4(text);
    if b.Some? then b
    else
      var g := ParseV6(text);
      if g.Some? then Some(FromGroups(g.value)) else None
  }

  // An address and the length of its network part in bits.
  datatype Network = Network(base: seq<u8>, bits: nat)

  // net.ParseCIDR, the network: "a.b.c.d/n", or groups with a "/n".
  function ParseNetwork(text: string): (r: Option<Network>)
    ensures r.Some? ==> (|r.value.base| == 4 || |r.value.base| == 16) && r.value.bits <= 8 * |r.value.base|
  {
    var halves := Split(text, '/');
    if |halves| != 2 || AddressBytes(halves[0]).None? then None
    else
      var base := AddressBytes(halves[0]).value;
      if 0 < |halves[1]| && AllDecimal(halves[1]) && NumeralValue(halves[1], 10) <= 8 * |base| then
        Some(Network(base, NumeralValue(halves[1], 10)))
      else None
  }

  // net.ParseCIDR, the address: in its 16-byte form.
  function ParseCidr(text: string): (r: Option<IP>)
    ensures r.Some? ==> |r.value| == 16
  {
    var n := ParseNetwork(text);
    if n.None? then None else Some(if |n.value.base| == 4 then V4_IN_V6_PREFIX + n.value.base else n.value.base)
  }

  // The text written into a rule for one host.
  function HostCidr(ip: IP): string { IpString(ip) + "/32" }

  // ---- Parsing undoes printing ----

  lemma DottedReadsBack(b: seq<u8>)
    requires |b| == 4
    ensures ParseV4(Join(b, 10, '.')) == Some(b)
  {
    SplitJoin(b, 10, '.');
    var q := Split(Join(b, 10, '.'), '.');
    forall i | 0 <= i < 4
      ensures IsByteText(q[i]) && NumeralValue(q[i], 10) == b[i]
    {
      NumeralShape(b[i], 10);
      NumeralRoundTrip(b[i], 10);
    }
    assert ParseV4(Join(b, 10, '.')).value == b;
  }

  lemma GroupReadsBack(x: u16)
    ensures IsGroupText(Numeral(x, 16)) && NumeralValue(Numeral(x, 16), 16) == x && '.' !in Numeral(x, 16)
  {
    NumeralShape(x, 16);
    NumeralRoundTrip(x, 16);
  }

  function Numerals(g: seq<u16>): (r: seq<string>)
    ensures |r| == |g|
  {
    seq(|g|, i requires 0 <= i < |g| => Numeral(g[i], 16))
  }

  lemma {:induction false} FieldsReadBack(g: seq<u16>, end: bool)
    ensures FieldGroups(Numerals(g), end) == Some(g)
  {
    if g != [] {
      hide NumeralValue, Numeral, IsGroupText;
      GroupReadsBack(g[0]);
      FieldsReadBack(g[1..], end);
      assert Numerals(g)[1..] == Numerals(g[1..]);
      assert [g[0]] + g[1..] == g;
    }
  }

  lemma SideReadsBack(g: seq<u16>, end: bool)
    ensures SideGroups(Join(g, 16, ':'), end) == Some(g)
  {
    JoinShape(g, 16, ':');
    if g != [] {
      SplitJoin(g, 16, ':');
      assert Split(Join(g, 16, ':'), ':') == Numerals(g);
      FieldsReadBack(g, end);
    }
  }

  lemma PlainHasNoDoubleColon(g: seq<u16>)
    ensures FirstDoubleColon(Join(g, 16, ':')) == |Join(g, 16, ':')|
  {
    JoinShape(g, 16, ':');
  }

  lemma DoubleColonFound(g: seq<u16>, x: string)
    ensures var a := Join(g, 16, ':'); FirstDoubleColon(a + "::" + x) == |a|
  {
    JoinShape(g, 16, ':');
    var a := Join(g, 16, ':');
    var s := a + "::" + x;
    assert DoubleColonAt(s, |a|);
    forall i | 0 <= i < |a|
      ensures !DoubleColonAt(s, i)
    {
      assert s[i] == a[i] && (i + 1 < |a| ==> s[i + 1] == a[i + 1]);
    }
  }

  lemma V6ReadsBack(g: seq<u16>)
    requires |g| == 8
    ensures ParseV6(V6Text(g)) == Some(g)
  {
    hide SideGroups, FirstDoubleColon, Join;
    var (s, m) := LongestRun(g, 0, 0, 0);
    if m <= 1 {
      PlainHasNoDoubleColon(g);
      SideReadsBack(g, true);
    } else {
      CompressedReadsBack(g[..s], m, g[s + m..]);
      assert g == g[..s] + seq(m, _ => 0) + g[s + m..];
    }
  }

  lemma CompressedReadsBack(l: seq<u16>, m: nat, r: seq<u16>)
    requires m > 0 && |l| + m + |r| == 8
    ensures ParseV6(Join(l, 16, ':') + "::" + Join(r, 16, ':')) == Some(l + seq(m, _ => 0) + r)
  {
    hide Join, SideGroups, FirstDoubleColon;
    var a, x := Join(l, 16, ':'), Join(r, 16, ':');
    DoubleColonFound(l, x);
    SideReadsBack(l, false);
    SideReadsBack(r, true);
    var t := a + "::" + x;
    assert t[..|a|] == a && t[|a| + 2..] == x;
  }

  // ---- One host ----

  // A host address written into a rule reads back as the same address, exactly when it is one.
  lemma HostCidrReadsBack(ip: IP)
    ensures ParseCidr(HostCidr(ip)).Some? <==> Meaning(ip).V4? || Meaning(ip).V6?
    ensures ParseCidr(HostCidr(ip)).Some? ==> Meaning(ParseCidr(HostCidr(ip)).value) == Meaning(ip)
  {
    HostHalves(ip);
    match Meaning(ip) {
      case V4(b) => DottedReadsBack(b); MappedMeans(b);
      case V6(g) => NotDotted(ip); V6ReadsBack(g); GroupsBack(ip, g);
      case _ => NotDotted(ip); NoV6(ip);
    }
  }

  lemma HostHalves(ip: IP)
    ensures var b := AddressBytes(IpString(ip));
      ParseNetwork(HostCidr(ip)) == if b.None? then None else Some(Network(b.value, 32))
  {
    hide AddressBytes, IpString;
    var s := IpString(ip);
    NoSlash(ip);
    assert HostCidr(ip) == s + ['/'] + "32";
    SplitAtFirst(s, "32", '/');
    SplitNone("32", '/');
    MaskText();
  }

  lemma MappedMeans(b: seq<u8>)
    requires |b| == 4
    ensures Meaning(V4_IN_V6_PREFIX + b) == V4(b)
  {
    var ip: IP := V4_IN_V6_PREFIX + b;
    assert ip[..12] == V4_IN_V6_PREFIX && ip[12..] == b;
  }

  lemma GroupsBack(ip: IP, g: seq<u16>)
    requires Meaning(ip) == V6(g)
    ensures FromGroups(g) == ip
  {
    forall i | 0 <= i < 8
      ensures Group(FromGroups(g), i) == Group(ip, i)
    {
      FromGroupsGroup(g, i);
      assert Meaning(ip).groups[i] == Group(ip, i);
    }
    GroupsInjective(FromGroups(g), ip);
  }

  lemma MaskText()
    ensures AllDecimal("32") && NumeralValue("32", 10) == 32
  {
    assert "32"[..1] == "3";
    assert "3"[..0] == "";
    assert NumeralValue("3", 10) == 3;
  }

  lemma NoSlash(ip: IP)
    ensures '/' !in IpString(ip)
  {
    match Meaning(ip)
    case NoAddress =>
    case V4(b) => JoinShape(b, 10, '.');
    case V6(g) => V6Shape(g);
    case Malformed(raw) => HexBytesShape(raw);
  }

  // Text that is not dotted decimal is no IPv4 address.
  lemma NotDotted(ip: IP)
    requires !Meaning(ip).V4?
    ensures '.' !in IpString(ip) && ParseV4(IpString(ip)).None?
  {
    var s := IpString(ip);
    assert '.' !in s by {
      match Meaning(ip)
      case NoAddress =>
      case V6(g) => V6Shape(g);
      case Malformed(raw) => HexBytesShape(raw);
    }
    SplitNone(s, '.');
  }

  // A nil or malformed address prints as text without colons that is no group either.
  lemma NoV6(ip: IP)
    requires Meaning(ip).NoAddress? || Meaning(ip).Malformed?
    ensures ParseV6(IpString(ip)).None?
  {
    var s := IpString(ip);
    TextShape(ip);
    assert ':' !in s;
    assert FirstDoubleColon(s) == |s|;
    SplitNone(s, ':');
    assert !IsGroupText(s);
    NotDotted(ip);
  }

  // ---- What a network covers ----

  // A byte without its low n bits.
  function Shifted(x: u8, n: nat): u8 { if n == 0 then x else Shifted(x, n - 1) / 2 }

  // Bit j of a byte, most significant first.
  function Bit(x: u8, j: nat): nat
    requires j < 8
  {
    Shifted(x, 7 - j) % 2
  }

  lemma ShiftedBelow(x: u8, n: nat, b: nat)
    requires Shifted(x, n) < 2 * b
    ensures Shifted(x, n + 1) < b
  {
  }

  lemma ZeroShift(x: u8)
    ensures Shifted(x, 0) == x
  {
  }

  lemma NothingLeft(x: u8)
    ensures Shifted(x, 8) == 0
  {
    hide Shifted;
    ZeroShift(x);
    ShiftedBelow(x, 0, 128);
    ShiftedBelow(x, 1, 64);
    ShiftedBelow(x, 2, 32);
    ShiftedBelow(x, 3, 16);
    ShiftedBelow(x, 4, 8);
    ShiftedBelow(x, 5, 4);
    ShiftedBelow(x, 6, 2);
    ShiftedBelow(x, 7, 1);
  }

  lemma {:induction false} BitsMakeShifted(x: u8, y: u8, n: nat)
    requires n <= 8 && forall j :: 0 <= j < 8 ==> Bit(x, j) == Bit(y, j)
    ensures Shifted(x, n) == Shifted(y, n)
    decreases 8 - n
  {
    if n == 8 {
      NothingLeft(x);
      NothingLeft(y);
    } else {
      BitsMakeShifted(x, y, n + 1);
      assert Bit(x, 7 - n) == Bit(y, 7 - n);
      SameHalves(Shifted(x, n), Shifted(y, n));
    }
  }

  lemma SameHalves(a: nat, b: nat)
    requires a / 2 == b / 2 && a % 2 == b % 2
    ensures a == b
  {
  }

  predicate SameBit(a: seq<u8>, b: seq<u8>, i: nat)
    requires |a| == |b| && i < 8 * |a|
  {
    Bit(a[i / 8], i % 8) == Bit(b[i / 8], i % 8)
  }

  function FamilyBytes(ip: IP): seq<u8> { if To4(ip).Some? then To4(ip).value else ip }

  // An address is in the network if it is of the same family and agrees with it on the network part.
  predicate Covers(n: Network, ip: IP)
  {
    var b := FamilyBytes(ip);
    |b| == |n.base| && forall i :: 0 <= i < n.bits && i < 8 * |b| ==> SameBit(n.base, b, i)
  }

  predicate TextCovers(text: string, ip: IP) { ParseNetwork(text).Some? && Covers(ParseNetwork(text).value, ip) }

  // A prefix of whole bytes.
  lemma WholeBytes(a: seq<u8>, b: seq<u8>, n: nat)
    requires |a| == |b| && n <= |a|
    ensures (forall i :: 0 <= i < 8 * n && i < 8 * |b| ==> SameBit(a, b, i)) <==> a[..n] == b[..n]
  {
    if forall i :: 0 <= i < 8 * n && i < 8 * |b| ==> SameBit(a, b, i) {
      forall k | 0 <= k < n
        ensures a[k] == b[k]
      {
        forall j | 0 <= j < 8
          ensures Bit(a[k], j) == Bit(b[k], j)
        {
          assert SameBit(a, b, 8 * k + j);
        }
        BitsMakeShifted(a[k], b[k], 0);
      }
    } else {
      var i :| 0 <= i < 8 * n && i < 8 * |b| && !SameBit(a, b, i);
      assert a[..n][i / 8] == a[i / 8] && b[..n][i / 8] == b[i / 8];
    }
  }

  lemma CoversWholeBytes(base: seq<u8>, ip: IP, n: nat)
    requires n <= |base|
    ensures Covers(Network(base, 8 * n), ip) <==> |FamilyBytes(ip)| == |base| && base[..n] == FamilyBytes(ip)[..n]
  {
    hide Bit, To4;
    if |FamilyBytes(ip)| == |base| {
      WholeBytes(base, FamilyBytes(ip), n);
    }
  }

  // The host text of an IPv4 address covers that address and no other.
  lemma HostCoversExactly(a: IP, b: IP)
    requires Meaning(a).V4?
    ensures TextCovers(HostCidr(a), b) <==> Meaning(a) == Meaning(b)
  {
    hide Bit, SameBit;
    var x := Meaning(a).bytes;
    HostHalves(a);
    DottedReadsBack(x);
    BytesCovered(x, b);
  }

  lemma BytesCovered(x: seq<u8>, b: IP)
    requires |x| == 4
    ensures Covers(Network(x, 32), b) <==> Meaning(b) == V4(x)
  {
    hide Covers;
    CoversWholeBytes(x, b, 4);
    var y := FamilyBytes(b);
    if |y| == 4 {
      assert x[..4] == x && y[..4] == y && Meaning(b) == V4(y);
    }
  }

  // That of an IPv6 address, which carries the same length, covers all addresses that share its first two
  // groups.
  lemma HostCoversExactlyV6(a: IP, b: IP)
    requires Meaning(a).V6?
    ensures TextCovers(HostCidr(a), b) <==>
      Meaning(b).V6? && Meaning(b).groups[0] == Meaning(a).groups[0] && Meaning(b).groups[1] == Meaning(a).groups[1]
  {
    hide Bit, SameBit;
    var g := Meaning(a).groups;
    HostHalves(a);
    NotDotted(a);
    V6ReadsBack(g);
    GroupsBack(a, g);
    GroupsCovered(a, b);
  }

  lemma GroupsCovered(a: IP, b: IP)
    requires Meaning(a).V6?
    ensures Covers(Network(a, 32), b) <==>
      Meaning(b).V6? && Meaning(b).groups[0] == Meaning(a).groups[0] && Meaning(b).groups[1] == Meaning(a).groups[1]
  {
    hide Covers, Group;
    CoversWholeBytes(a, b, 4);
    if Meaning(b).V6? {
      FourBytes(a, b);
    } else if |FamilyBytes(b)| == 16 {
      assert To4(b).None?;
    }
  }

  lemma FourBytes(a: IP, b: IP)
    requires |a| == |b| == 16
    ensures a[..4] == b[..4] <==> Group(a, 0) == Group(b, 0) && Group(a, 1) == Group(b, 1)
  {
    var x, y := a[..4], b[..4];
    assert x[0] == a[0] && x[1] == a[1] && x[2] == a[2] && x[3] == a[3];
    assert y[0] == b[0] && y[1] == b[1] && y[2] == b[2] && y[3] == b[3];
    assert x == y <==> x[0] == y[0] && x[1] == y[1] && x[2] == y[2] && x[3] == y[3];
  }
}
