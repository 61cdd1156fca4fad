/** What a rule of the device selects: the five-tuples its texts admit. A rule written for an IPv4 flow
    selects that flow and no other, and accepted calls leave such rules in force. */
module RuleMeaning {
  import opened GoTypes
  import opened Text
  import opened IpAddress
  import opened IpParse
  import opened FlowKeys
  import opened AclModel
  import opened AclRuns
  import opened AclContents
  import opened SteerRules

  // "any", one of the two names the device knows, or a number.
  predicate ProtocolSelects(text: string, protocol: u8)
  {
    || text == "any"
    || (text == "tcp(0x06)" && protocol == 6)
    || (text == "udp(0x11)" && protocol == 17)
    || (text != "" && AllDecimal(text) && NumeralValue(text, 10) == protocol)
  }

  predicate AddressSelects(text: string, ip: IP) { text == "any" || TextCovers(text, ip) }

  // A port that was not sent admits every port.
  predicate PortSelects(rule: u16, port: u16) { rule == 0 || rule == port }

  predicate Selects(m: Match, p: FlowKey)
  {
    && ProtocolSelects(m.protocol, p.protocol)
    && AddressSelects(m.src, p.srcAddr) && AddressSelects(m.dst, p.dstAddr)
    && PortSelects(m.srcPort, p.srcPort) && PortSelects(m.dstPort, p.dstPort)
  }

  lemma ProtocolSelectsExactly(a: u8, b: u8)
    ensures ProtocolSelects(ProtocolText(a), b) <==> a == b
  {
    NumeralShape(a, 10);
    NumeralRoundTrip(a, 10);
    assert "any"[0] == 'a' && "tcp(0x06)"[0] == 't' && "udp(0x11)"[0] == 'u';
    if a == TCP || a == UDP {
      assert !IsDigit(ProtocolText(a)[0]);
    } else {
      assert IsDigit(Numeral(a, 10)[0]);
    }
  }

  lemma HostIsNotAny(ip: IP)
    ensures HostCidr(ip) != "any"
  {
    assert HostCidr(ip)[|HostCidr(ip)| - 1] == '2' && "any"[2] == 'y';
  }

  // The flows that the rule of an IPv4 flow should select: with its protocol and addresses, and its ports
  // where they are not zero.
  predicate Intended(fk: FlowKey, p: FlowKey)
  {
    && fk.protocol == p.protocol
    && Meaning(fk.srcAddr) == Meaning(p.srcAddr) && Meaning(fk.dstAddr) == Meaning(p.dstAddr)
    && PortSelects(fk.srcPort, p.srcPort) && PortSelects(fk.dstPort, p.dstPort)
  }

  lemma RuleSelectsExactly(fk: FlowKey, p: FlowKey)
    requires IsV4(fk)
    ensures Selects(MatchOf(fk), p) <==> Intended(fk, p)
    ensures fk.srcPort != 0 && fk.dstPort != 0 ==> (Selects(MatchOf(fk), p) <==> SameFlow(fk, p))
  {
    hide TextCovers, ProtocolSelects, ProtocolText, HostCidr, AsKey;
    ProtocolSelectsExactly(fk.protocol, p.protocol);
    HostIsNotAny(fk.srcAddr);
    HostIsNotAny(fk.dstAddr);
    HostCoversExactly(fk.srcAddr, p.srcAddr);
    HostCoversExactly(fk.dstAddr, p.dstAddr);
  }

  // The default rule selects everything, and lets it pass.
  lemma DefaultSelectsAll(p: FlowKey)
    ensures Selects(DEFAULT_RULE.flow, p) && DEFAULT_RULE.ruleType == "allow" && DEFAULT_RULE.nextHop.None?
  {
  }

  // An accepted call that steers distinct flows leaves under each item's id a rule that lets exactly the
  // item's flow pass, to the address of the interface named, or to no address when none is named.
  lemma AcceptedRuleSelects(s: State, b: map<nat, string>, e: Event, i: nat, fk: FlowKey, p: FlowKey)
    requires BoundState(s, b) && RulesOk(s.candidate, (m: Match) => Faithful(m))
    requires EventOk(e, (m: Match) => Faithful(m))
    requires Enabled(s, e) && e.Steer? && !Fails(e) && i < |e.items| && DEFAULT_RULE_ID !in e.ids
    requires forall j, k :: 0 <= j < k < |e.items| ==> KeyAt(e.items, j) != KeyAt(e.items, k)
    requires e.items[i].flow == MatchOf(fk) && IsV4(fk)
    ensures i < |e.ids| && e.ids[i] in Post(s, e).running
    ensures var rule := Post(s, e).running[e.ids[i]];
      && (Selects(rule.flow, p) <==> Intended(fk, p)) && rule.ruleType == "allow"
      && (e.items[i].nextHop == "" ==> rule.nextHop == Some([]))
      && (e.items[i].nextHop != "" ==>
            e.items[i].nextHop in e.hops && rule.nextHop == Some(e.hops[e.items[i].nextHop]))
  {
    hide Post, Selects, Intended, MatchOf, Faithful, BoundState;
    FaithfulTiesPorts();
    AcceptedRules(s, b, e, (m: Match) => Faithful(m), i);
    RuleSelectsExactly(fk, p);
    assert KnownHop(e.hops, e.items[i]);
  }
}
