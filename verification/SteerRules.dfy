/** From flow keys to rules and back: the texts `Steer` writes for a flow, and the flow the reload and
    `GetSteerInterface` read from a rule. */
module SteerRules {
  import opened GoTypes
  import opened Text
  import opened IpAddress
  import opened IpParse
  import opened FlowKeys
  import opened AclModel
  import opened AclContents

  // FlowProto.String.
  function ProtocolText(protocol: u8): string
  {
    if protocol == TCP then "tcp(0x06)" else if protocol == UDP then "udp(0x11)" else Numeral(protocol, 10)
  }

  // Reading a protocol back: text missing from the map gives Go's zero value.
  function ProtocolOf(text: string): u8
  {
    if text == "tcp(0x06)" then TCP else if text == "udp(0x11)" then UDP else 0
  }

  // The rule texts `Steer` writes for a flow, with the key it caches.
  function MatchOf(fk: FlowKey): Match
  {
    Match(AsKey(fk), ProtocolText(fk.protocol), HostCidr(fk.srcAddr), HostCidr(fk.dstAddr), fk.srcPort, fk.dstPort)
  }

  // What a caller passes to `Steer`: a flow and the upper name of a WAN interface.
  datatype SteerRule = SteerRule(rule: FlowKey, nextHop: string)

  function ItemOf(r: SteerRule): SteerItem { SteerItem(MatchOf(r.rule), r.nextHop) }

  function ItemsOf(rules: seq<SteerRule>): seq<SteerItem>
  {
    seq(|rules|, i requires 0 <= i < |rules| => ItemOf(rules[i]))
  }

  function KeysOf(flows: seq<FlowKey>): seq<string>
  {
    seq(|flows|, i requires 0 <= i < |flows| => AsKey(flows[i]))
  }

  // The flow the reload loop caches for a rule, if both of its addresses parse.
  function Loaded(m: Match): Option<FlowKey>
  {
    var src, dst := ParseCidr(m.src), ParseCidr(m.dst);
    if src.Some? && dst.Some? then Some(FlowKey(ProtocolOf(m.protocol), src.value, dst.value, m.srcPort, m.dstPort))
    else None
  }

  function ParsedOrNil(text: string): IP
  {
    if ParseCidr(text).Some? then ParseCidr(text).value else []
  }

  // The flow under which `GetSteerInterface` files a rule: an address that does not parse is nil.
  function ReadBack(m: Match): FlowKey
  {
    FlowKey(ProtocolOf(m.protocol), ParsedOrNil(m.src), ParsedOrNil(m.dst), m.srcPort, m.dstPort)
  }

  // The rule was written for a flow with its key, or is loaded as one.
  ghost predicate Faithful(m: Match)
  {
    || (exists fk :: m == MatchOf(fk))
    || (Loaded(m).Some? && AsKey(Loaded(m).value) == m.key)
  }

  lemma ProtocolReadsBack(protocol: u8)
    ensures ProtocolOf(ProtocolText(protocol)) == (if protocol == TCP || protocol == UDP then protocol else 0)
  {
    NumeralShape(protocol, 10);
    assert "tcp(0x06)"[0] == 't' && "udp(0x11)"[0] == 'u';
  }

  lemma AddressReadsBack(ip: IP)
    ensures Meaning(ParsedOrNil(HostCidr(ip))) == if Meaning(ip).V4? || Meaning(ip).V6? then Meaning(ip) else NoAddress
  {
    HostCidrReadsBack(ip);
  }

  predicate WellFormed(ip: IP) { !Meaning(ip).Malformed? }

  // A rule written for a flow is read back under the flow's key exactly when the protocol is TCP, UDP or
  // zero and no address is malformed.
  lemma ReadsBackExactly(fk: FlowKey)
    ensures AsKey(ReadBack(MatchOf(fk))) == AsKey(fk)
       <==> fk.protocol in {0, TCP, UDP} && WellFormed(fk.srcAddr) && WellFormed(fk.dstAddr)
  {
    hide IpString, ParseCidr;
    var r := ReadBack(MatchOf(fk));
    ProtocolReadsBack(fk.protocol);
    AddressReadsBack(fk.srcAddr);
    AddressReadsBack(fk.dstAddr);
    if WellFormed(fk.srcAddr) && WellFormed(fk.dstAddr) {
      if fk.protocol in {0, TCP, UDP} {
        IpStringIdentifies(fk.srcAddr, r.srcAddr);
        IpStringIdentifies(fk.dstAddr, r.dstAddr);
      } else if AsKey(r) == AsKey(fk) {
        KeyFields(r, fk);
      }
    } else {
      AsKeyIdentifies(fk, r);
    }
  }

  // The reload loads it, and under the flow's key, exactly when moreover both addresses are given.
  lemma LoadsBackExactly(fk: FlowKey)
    ensures (Loaded(MatchOf(fk)).Some? && AsKey(Loaded(MatchOf(fk)).value) == AsKey(fk))
       <==> fk.protocol in {0, TCP, UDP} && Given(fk.srcAddr) && Given(fk.dstAddr)
  {
    hide IpString, ParseCidr, AsKey;
    HostCidrReadsBack(fk.srcAddr);
    HostCidrReadsBack(fk.dstAddr);
    ReadsBackExactly(fk);
  }

  predicate Given(ip: IP) { Meaning(ip).V4? || Meaning(ip).V6? }

  // Only rules cached under the key are read back under the key of an IPv4 TCP or UDP flow.
  lemma ReadsAsOnlyIfKeyed(m: Match, fk: FlowKey)
    requires Faithful(m) && IsV4(fk) && fk.protocol in {TCP, UDP}
    requires AsKey(ReadBack(m)) == AsKey(fk)
    ensures m.key == AsKey(fk)
  {
    if w :| m == MatchOf(w) {
      AsKeyIdentifies(fk, ReadBack(m));
      ProtocolReadsBack(w.protocol);
      AddressReadsBack(w.srcAddr);
      AddressReadsBack(w.dstAddr);
      AsKeyIdentifies(fk, w);
    } else {
      assert ReadBack(m) == Loaded(m).value;
    }
  }

  lemma FaithfulTiesPorts()
    ensures TiesPorts((m: Match) => Faithful(m))
  {
    forall m, n | Faithful(m) && Faithful(n) && m.key == n.key
      ensures m.srcPort == n.srcPort && m.dstPort == n.dstPort
    {
      var v := KeyOwner(m);
      var w := KeyOwner(n);
      KeyFields(v, w);
    }
  }

  lemma KeyOwner(m: Match) returns (fk: FlowKey)
    requires Faithful(m)
    ensures AsKey(fk) == m.key && fk.srcPort == m.srcPort && fk.dstPort == m.dstPort
  {
    if w :| m == MatchOf(w) {
      fk := w;
    } else {
      fk := Loaded(m).value;
    }
  }

  // The default rule does not load.
  lemma DefaultDoesNotLoad()
    ensures Loaded(DEFAULT_RULE.flow).None?
  {
    SplitNone("any", '/');
  }

  // The default rule is not read back as any TCP or UDP flow.
  lemma DefaultReadsAsNoFlow(fk: FlowKey)
    requires AsKey(ReadBack(DEFAULT_RULE.flow)) == AsKey(fk)
    ensures fk.protocol == 0
  {
    KeyFields(ReadBack(DEFAULT_RULE.flow), fk);
    assert DEFAULT_RULE.flow.protocol[0] == 'a';
  }

  lemma OneItem(hops: Hops, item: SteerItem, id: nat)
    requires KnownHop(hops, item)
    ensures KnownPrefix(hops, [item]) == 1
    ensures Assigned([item], [id]) == map[id := item.flow.key]
    ensures forall cache :: Uncached(cache, [item][..0]) == 0
  {
    assert [item][..0] == [];
    assert KnownPrefix(hops, [item][1..]) == 0;
    assert [id][..0] == [];
  }
}
