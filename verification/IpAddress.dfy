/** Package `net` as the controller uses it: an address is a byte slice of any length, and
    `String`, `To4`, `Equal` and `ParseCIDR` decide what a flow key and a device rule look like. */
module IpAddress {
  import opened GoTypes
  import opened Text

  // net.IP: 4 or 16 bytes when well formed, empty when nil.
  type IP = seq<u8>

  // What a byte slice means as an address. An IPv4 address has a 4-byte and a 16-byte form.
  datatype Address =
    | NoAddress
    | V4(bytes: seq<u8>)
    | V6(groups: seq<u16>)
    | Malformed(raw: seq<u8>)

  const V4_IN_V6_PREFIX: seq<u8> := [0, 0, 0, 0, 0, 0, 0, 0, 0, 0, 0xff, 0xff]
  const IPV4_ZERO: IP := V4_IN_V6_PREFIX + [0, 0, 0, 0]
  const IPV6_ZERO: IP := [0, 0, 0, 0, 0, 0, 0, 0, 0, 0, 0, 0, 0, 0, 0, 0]

  function To4(ip: IP): Option<seq<u8>>
  {
    if |ip| == 4 then Some(ip)
    else if |ip| == 16 && ip[..12] == V4_IN_V6_PREFIX then Some(ip[12..])
    else None
  }

  function Group(ip: IP, i: nat): u16
    requires |ip| == 16 && i < 8
  {
    var high: int, low: int := ip[2 * i], ip[2 * i + 1];
    high * 256 + low
  }

  function Meaning(ip: IP): (a: Address)
    ensures a.V4? ==> |a.bytes| == 4
    ensures a.V6? ==> |a.groups| == 8
    ensures a.V4? <==> To4(ip).Some?
  {
    if |ip| == 0 then NoAddress
    else if To4(ip).Some? then V4(To4(ip).value)
    else if |ip| == 16 then V6(seq(8, i requires 0 <= i < 8 => Group(ip, i)))
    else Malformed(ip)
  }

  // net.IP.Equal: an IPv4 address equals its 16-byte form.
  predicate Equal(a: IP, b: IP)
  {
    if |a| == |b| then a == b
    else if |a| == 4 && |b| == 16 then b[..12] == V4_IN_V6_PREFIX && a == b[12..]
    else if |a| == 16 && |b| == 4 then a[..12] == V4_IN_V6_PREFIX && a[12..] == b
    else false
  }

  lemma {:induction false} GroupsInjective(a: IP, b: IP)
    requires |a| == |b| == 16
    requires forall i :: 0 <= i < 8 ==> Group(a, i) == Group(b, i)
    ensures a == b
  {
    forall k | 0 <= k < 16 ensures a[k] == b[k] {
      assert Group(a, k / 2) == Group(b, k / 2);
      assert k == 2 * (k / 2) || k == 2 * (k / 2) + 1;
    }
  }

  // Equal identifies exactly the slices that mean the same address.
  lemma EqualIsSameMeaning(a: IP, b: IP)
    ensures Equal(a, b) <==> Meaning(a) == Meaning(b)
  {
    if Meaning(a).V6? && Meaning(a) == Meaning(b) {
      forall i | 0 <= i < 8 ensures Group(a, i) == Group(b, i) {
        assert Meaning(a).groups[i] == Meaning(b).groups[i];
      }
      GroupsInjective(a, b);
    }
    if |a| == |b| == 16 && Meaning(a).V4? && Meaning(a) == Meaning(b) {
      assert a == a[..12] + a[12..] == b;
    }
  }

  // The 16-byte form of eight groups.
  function FromGroups(g: seq<u16>): (ip: IP)
    requires |g| == 8
    ensures |ip| == 16
  {
    seq(16, i requires 0 <= i < 16 => if i % 2 == 0 then g[i / 2] / 256 else g[i / 2] % 256)
  }

  lemma FromGroupsGroup(g: seq<u16>, i: nat)
    requires |g| == 8 && i < 8
    ensures Group(FromGroups(g), i) == g[i]
  {
    var ip := FromGroups(g);
    assert ip[2 * i] == g[i] / 256 && ip[2 * i + 1] == g[i] % 256;
  }

  // ---- String ----

  // Zero groups from position i on.
  function ZeroRun(g: seq<u16>, i: nat): (n: nat)
    requires i <= |g|
    ensures i + n <= |g| && forall k :: i <= k < i + n ==> g[k] == 0
    decreases |g| - i
  {
    if i < |g| && g[i] == 0 then 1 + ZeroRun(g, i + 1) else 0
  }

  // The leftmost longest run of zero groups: its start and its length.
  function LongestRun(g: seq<u16>, i: nat, start: nat, len: nat): (r: (nat, nat))
    requires start + len <= |g| && forall k :: start <= k < start + len ==> g[k] == 0
    ensures r.0 + r.1 <= |g| && forall k :: r.0 <= k < r.0 + r.1 ==> g[k] == 0
    decreases |g| - i
  {
    if i >= |g| then (start, len)
    else
      var n := ZeroRun(g, i);
      if n > len then LongestRun(g, i + n + 1, i, n) else LongestRun(g, i + 1, start, len)
  }

  predicate ZerosAt(g: seq<u16>, k: nat, n: nat) { k + n <= |g| && forall j :: k <= j < k + n ==> g[j] == 0 }

  lemma {:induction false} ZeroRunLongest(g: seq<u16>, k: nat, n: nat)
    requires ZerosAt(g, k, n)
    ensures n <= ZeroRun(g, k)
    decreases n
  {
    if n > 0 {
      ZeroRunLongest(g, k + 1, n - 1);
    }
  }

  // Up to position i no run is longer than len, and none before start is as long.
  ghost predicate LongestUpTo(g: seq<u16>, i: nat, start: nat, len: nat)
  {
    && start <= i
    && forall k: nat, n: nat :: k < i && ZerosAt(g, k, n) ==> n <= len && (n == len > 0 ==> start <= k)
  }

  lemma {:induction false} LongestRunFinds(g: seq<u16>, i: nat, start: nat, len: nat)
    requires start + len <= |g| && (forall k :: start <= k < start + len ==> g[k] == 0) && LongestUpTo(g, i, start, len)
    ensures var (s, m) := LongestRun(g, i, start, len); LongestUpTo(g, |g|, s, m)
    decreases |g| - i
  {
    if i < |g| {
      var z := ZeroRun(g, i);
      if z > len {
        forall k: nat, n: nat | k < i + z + 1 && ZerosAt(g, k, n)
          ensures n <= z && (n == z ==> i <= k)
        {
          if k >= i {
            WithinRun(g, i, k, n);
          }
        }
        LongestRunFinds(g, i + z + 1, i, z);
      } else {
        forall n: nat | ZerosAt(g, i, n)
          ensures n <= len
        {
          ZeroRunLongest(g, i, n);
        }
        LongestRunFinds(g, i + 1, start, len);
      }
    }
  }

  lemma WithinRun(g: seq<u16>, i: nat, k: nat, n: nat)
    requires i < |g| && i <= k <= i + ZeroRun(g, i) && ZerosAt(g, k, n)
    ensures n <= ZeroRun(g, i)
  {
    assert ZerosAt(g, i, k - i + n) by {
      assert forall j :: i <= j < k + n ==> g[j] == 0;
    }
    ZeroRunLongest(g, i, k - i + n);
  }

  // What is compressed is the longest run of zeros, the first of several as long.
  lemma LongestRunExactly(g: seq<u16>)
    ensures var (s, m) := LongestRun(g, 0, 0, 0);
      && ZerosAt(g, s, m)
      && forall k: nat, n: nat :: ZerosAt(g, k, n) ==> n <= m && (n == m > 0 ==> s <= k)
  {
    LongestRunFinds(g, 0, 0, 0);
    forall k: nat, n: nat | ZerosAt(g, k, n) && n > 0
      ensures k < |g|
    {
    }
  }

  function V6Text(g: seq<u16>): string
    requires |g| == 8
  {
    var (start, len) := LongestRun(g, 0, 0, 0);
    if len <= 1 then Join(g, 16, ':')
    else Join(g[..start], 16, ':') + "::" + Join(g[start + len..], 16, ':')
  }

  function HexBytes(raw: seq<u8>): string
  {
    if raw == [] then "" else [DigitChar(raw[0] / 16), DigitChar(raw[0] % 16)] + HexBytes(raw[1..])
  }

  function AddressText(a: Address): string
    requires a.V6? ==> |a.groups| == 8
  {
    match a
    case NoAddress => "<nil>"
    case V4(b) => Join(b, 10, '.')
    case V6(g) => V6Text(g)
    case Malformed(raw) => "?" + HexBytes(raw)
  }

  // net.IP.String.
  function IpString(ip: IP): string
  {
    AddressText(Meaning(ip))
  }

  // ---- Printing is injective ----

  lemma {:induction false} HexBytesInjective(a: seq<u8>, b: seq<u8>)
    requires HexBytes(a) == HexBytes(b)
    ensures a == b
  {
    if a != [] && b != [] {
      var s, t := HexBytes(a), HexBytes(b);
      assert s[2..] == HexBytes(a[1..]) && t[2..] == HexBytes(b[1..]);
      HexBytesInjective(a[1..], b[1..]);
      DigitRoundTrip(a[0] / 16);
      DigitRoundTrip(a[0] % 16);
      DigitRoundTrip(b[0] / 16);
      DigitRoundTrip(b[0] % 16);
      assert s[0] == t[0] && s[1] == t[1];
      assert a == [a[0]] + a[1..] && b == [b[0]] + b[1..];
    }
  }

  // The position of the only "::" determines both sides.
  lemma DoubleColon(a: string, x: string, b: string, y: string)
    requires WellJoined(a, ':') && WellJoined(b, ':')
    requires a + "::" + x == b + "::" + y
    ensures a == b && x == y
  {
    var s, t := a + "::" + x, b + "::" + y;
    assert s[|a|] == ':' && s[|a| + 1] == ':' && t[|b|] == ':' && t[|b| + 1] == ':';
    assert forall i :: 0 <= i < |a| ==> s[i] == a[i];
    assert forall i :: 0 <= i < |b| ==> t[i] == b[i];
    assert |a| == |b|;
    assert a == s[..|a|] == t[..|b|] == b;
    assert x == s[|a| + 2..] == t[|b| + 2..] == y;
  }

  // A text with a "::" is no plain join.
  lemma CompressedIsNotJoined(g: seq<u16>, a: string, x: string)
    ensures Join(g, 16, ':') != a + "::" + x
  {
    JoinShape(g, 16, ':');
    var s := a + "::" + x;
    assert s[|a|] == ':' && s[|a| + 1] == ':';
  }

  lemma CompressedInjective(g: seq<u16>, h: seq<u16>, s: nat, m: nat, t: nat, n: nat)
    requires |g| == |h| == 8 && s + m <= 8 && t + n <= 8
    requires forall k :: s <= k < s + m ==> g[k] == 0
    requires forall k :: t <= k < t + n ==> h[k] == 0
    requires Join(g[..s], 16, ':') + "::" + Join(g[s + m..], 16, ':')
          == Join(h[..t], 16, ':') + "::" + Join(h[t + n..], 16, ':')
    ensures g == h
  {
    JoinShape(g[..s], 16, ':');
    JoinShape(h[..t], 16, ':');
    DoubleColon(Join(g[..s], 16, ':'), Join(g[s + m..], 16, ':'), Join(h[..t], 16, ':'), Join(h[t + n..], 16, ':'));
    JoinInjective(g[..s], h[..t], 16, ':');
    JoinInjective(g[s + m..], h[t + n..], 16, ':');
    assert s == |g[..s]| == |h[..t]| == t;
    assert 8 - s - m == |g[s + m..]| == |h[t + n..]| == 8 - t - n;
    forall k | 0 <= k < 8 ensures g[k] == h[k] {
      if k < s {
        assert g[k] == g[..s][k] == h[..t][k];
      } else if k >= s + m {
        assert g[k] == g[s + m..][k - s - m] == h[t + n..][k - s - m];
      }
    }
  }

  lemma V6TextInjective(g: seq<u16>, h: seq<u16>)
    requires |g| == |h| == 8 && V6Text(g) == V6Text(h)
    ensures g == h
  {
    var (s, m) := LongestRun(g, 0, 0, 0);
    var (t, n) := LongestRun(h, 0, 0, 0);
    if m <= 1 && n <= 1 {
      JoinInjective(g, h, 16, ':');
    } else if m > 1 && n > 1 {
      CompressedInjective(g, h, s, m, t, n);
    } else if m <= 1 {
      CompressedIsNotJoined(g, Join(h[..t], 16, ':'), Join(h[t + n..], 16, ':'));
    } else {
      CompressedIsNotJoined(h, Join(g[..s], 16, ':'), Join(g[s + m..], 16, ':'));
    }
  }

  // The characters of a printed address tell its kind.
  lemma TextShape(ip: IP)
    ensures |IpString(ip)| > 0
    ensures Meaning(ip).V6? <==> ':' in IpString(ip)
    ensures Meaning(ip).V6? ==> forall c :: c in IpString(ip) ==> c == ':' || IsHexDigit(c)
    ensures !Meaning(ip).V6? ==> exists c :: c in IpString(ip) && !IsHexDigit(c)
    ensures Meaning(ip).V4? ==> IsHexDigit(IpString(ip)[0])
    ensures IpString(ip)[0] == '<' <==> Meaning(ip).NoAddress?
    ensures IpString(ip)[0] == '?' <==> Meaning(ip).Malformed?
  {
    match Meaning(ip)
    case NoAddress => assert IpString(ip)[0] == '<' && '<' in IpString(ip);
    case V4(b) =>
      JoinShape(b, 10, '.');
      assert '.' in IpString(ip);
    case V6(g) =>
      V6Shape(g);
      assert IpString(ip)[0] in IpString(ip);
    case Malformed(raw) =>
      assert IpString(ip)[0] == '?' && '?' in IpString(ip);
      HexBytesShape(raw);
  }

  lemma {:induction false} HexBytesShape(raw: seq<u8>)
    ensures AllHex(HexBytes(raw))
  {
    if raw != [] {
      HexBytesShape(raw[1..]);
    }
  }

  lemma {:induction false} V6Shape(g: seq<u16>)
    requires |g| == 8
    ensures |V6Text(g)| > 0 && ':' in V6Text(g)
    ensures forall c :: c in V6Text(g) ==> c == ':' || IsHexDigit(c)
  {
    var (s, m) := LongestRun(g, 0, 0, 0);
    JoinShape(g, 16, ':');
    JoinShape(g[..s], 16, ':');
    JoinShape(g[s + m..], 16, ':');
    if m > 1 {
      var u := Join(g[..s], 16, ':');
      assert V6Text(g)[|u|] == ':';
    }
  }

  // Two slices print alike exactly when they mean the same address.
  lemma IpStringIdentifies(a: IP, b: IP)
    ensures IpString(a) == IpString(b) <==> Meaning(a) == Meaning(b)
  {
    if IpString(a) == IpString(b) {
      TextShape(a);
      TextShape(b);
      match Meaning(a)
      case NoAddress =>
      case V4(x) => JoinInjective(x, Meaning(b).bytes, 10, '.');
      case V6(g) => V6TextInjective(g, Meaning(b).groups);
      case Malformed(x) =>
        var y := Meaning(b).raw;
        assert HexBytes(x) == IpString(a)[1..] == IpString(b)[1..] == HexBytes(y);
        HexBytesInjective(x, y);
    }
  }
}
