/** `GetSteerInterface` reads the running rules back into interface names. What it may answer, and that
    it answers an accepted `Steer` with exactly the interfaces asked for. */
module Readback {
  import opened GoTypes
  import opened IpAddress
  import opened FlowKeys
  import opened AclModel
  import opened AclRuns
  import opened AclTheorems
  import opened AclContents
  import opened AclAgreement
  import opened SteerRules
  import opened Reload

  // A rule of the reply: the key it is filed under and its next hop.
  datatype ReadRule = ReadRule(key: string, nextHop: Option<IP>)

  function ReadRuleOf(c: RuleConfig): ReadRule { ReadRule(AsKey(ReadBack(c.flow)), c.nextHop) }

  function ReadRules(listing: seq<Entry>): seq<ReadRule>
  {
    seq(|listing|, i requires 0 <= i < |listing| => ReadRuleOf(listing[i].config))
  }

  // A rule without next hop stands for the empty name; otherwise any WAN interface with that address.
  predicate Answers(r: ReadRule, hops: Hops, name: string)
  {
    if r.nextHop.None? then name == "" else name in hops && Equal(hops[name], r.nextHop.value)
  }

  ghost predicate Writes(r: ReadRule, hops: Hops) { exists name :: Answers(r, hops, name) }

  // The last rule filed under the key that writes at all wrote this name.
  ghost predicate LastAnswer(view: seq<ReadRule>, hops: Hops, j: nat, key: string, name: string)
  {
    && j < |view| && view[j].key == key && Answers(view[j], hops, name)
    && forall k :: j < k < |view| && view[k].key == key ==> !Writes(view[k], hops)
  }

  // The maps the loop may build: Go visits the WAN interfaces in any order.
  ghost predicate Response(view: seq<ReadRule>, hops: Hops, resp: map<string, string>)
  {
    && (forall j :: 0 <= j < |view| && Writes(view[j], hops) ==> view[j].key in resp)
    && (forall key :: key in resp ==> exists j: nat :: LastAnswer(view, hops, j, key, resp[key]))
  }

  lemma ResponseWrite(view: seq<ReadRule>, hops: Hops, resp: map<string, string>, r: ReadRule, name: string)
    requires Response(view, hops, resp) && Answers(r, hops, name)
    ensures Response(view + [r], hops, resp[r.key := name])
  {
    var view', resp' := view + [r], resp[r.key := name];
    assert LastAnswer(view', hops, |view|, r.key, name);
    forall key | key in resp' && key != r.key ensures exists j: nat :: LastAnswer(view', hops, j, key, resp'[key]) {
      var j: nat :| LastAnswer(view, hops, j, key, resp[key]);
      assert LastAnswer(view', hops, j, key, resp'[key]);
    }
  }

  lemma ResponseSkip(view: seq<ReadRule>, hops: Hops, resp: map<string, string>, r: ReadRule)
    requires Response(view, hops, resp) && !Writes(r, hops)
    ensures Response(view + [r], hops, resp)
  {
    var view' := view + [r];
    forall key | key in resp ensures exists j: nat :: LastAnswer(view', hops, j, key, resp[key]) {
      var j: nat :| LastAnswer(view, hops, j, key, resp[key]);
      assert LastAnswer(view', hops, j, key, resp[key]);
    }
  }

  predicate Matches(resp: map<string, string>, item: SteerItem)
  {
    item.flow.key in resp && resp[item.flow.key] == item.nextHop
  }

  // ---- What may be listed and answered ----

  lemma {:induction false} ListingExists(acl: Acl) returns (listing: seq<Entry>)
    ensures Lists(listing, acl)
    decreases |acl|
  {
    listing := [];
    if acl != map[] {
      var x :| x in acl;
      listing := ListingExists(acl - {x});
      ListOneMore(listing, acl, x);
      listing := listing + [Entry(x, acl[x])];
    }
  }

  lemma ListOneMore(listing: seq<Entry>, acl: Acl, x: nat)
    requires x in acl && Lists(listing, acl - {x})
    ensures Lists(listing + [Entry(x, acl[x])], acl)
  {
    var all := listing + [Entry(x, acl[x])];
    forall id | id in acl
      ensures exists i :: 0 <= i < |all| && all[i].id == id
    {
      if id == x {
        assert all[|listing|].id == id;
      } else {
        assert id in acl - {x};
        var i :| 0 <= i < |listing| && listing[i].id == id;
        assert all[i].id == id;
      }
    }
  }

  lemma {:induction false} ResponseExists(view: seq<ReadRule>, hops: Hops) returns (resp: map<string, string>)
    ensures Response(view, hops, resp)
  {
    if view == [] {
      resp := map[];
    } else {
      var before, r := view[..|view| - 1], view[|view| - 1];
      resp := ResponseExists(before, hops);
      assert view == before + [r];
      if name :| Answers(r, hops, name) {
        ResponseWrite(before, hops, resp, r, name);
        resp := resp[r.key := name];
      } else {
        ResponseSkip(before, hops, resp, r);
      }
    }
  }

  // Whatever a stored rule can answer, some listing and some order of interfaces make it the answer.
  lemma AnyAnswerHappens(acl: Acl, hops: Hops, x: nat, name: string)
    returns (listing: seq<Entry>, resp: map<string, string>)
    requires x in acl && Answers(ReadRuleOf(acl[x]), hops, name)
    ensures Lists(listing, acl) && Response(ReadRules(listing), hops, resp)
    ensures ReadRuleOf(acl[x]).key in resp && resp[ReadRuleOf(acl[x]).key] == name
  {
    hide ReadRuleOf, Response;
    var before := ListingExists(acl - {x});
    ListOneMore(before, acl, x);
    listing := before + [Entry(x, acl[x])];
    resp := ResponseExists(ReadRules(before), hops);
    ResponseWrite(ReadRules(before), hops, resp, ReadRuleOf(acl[x]), name);
    resp := resp[ReadRuleOf(acl[x]).key := name];
    assert ReadRules(listing) == ReadRules(before) + [ReadRuleOf(acl[x])];
  }

  // ---- Read your writes ----

  // An item `GetSteerInterface` can report: an IPv4 TCP or UDP flow, steered to a named interface.
  ghost predicate Reportable(item: SteerItem, fk: FlowKey)
  {
    item.flow == MatchOf(fk) && IsV4(fk) && fk.protocol in {TCP, UDP} && item.nextHop != ""
  }

  ghost predicate DistinctKeys(items: seq<SteerItem>)
  {
    forall i, j :: 0 <= i < j < |items| ==> KeyAt(items, i) != KeyAt(items, j)
  }

  // The id of the default rule holds that rule, if anything, and neither cache nor call use it.
  ghost predicate DefaultAside(s: State, e: Event)
    requires e.Steer?
  {
    && DEFAULT_RULE_ID !in s.cache && DEFAULT_RULE_ID !in e.ids
    && (DEFAULT_RULE_ID in s.candidate ==> s.candidate[DEFAULT_RULE_ID] == DEFAULT_RULE)
  }

  // The question: cache and device agree, and an accepted call steers distinct IPv4 TCP or UDP flows to
  // named interfaces.
  ghost predicate Asked(s: State, b: map<nat, string>, e: Event, fks: seq<FlowKey>)
  {
    && BoundState(s, b) && Agree(s, {}) && RulesOk(s.candidate, (m: Match) => Faithful(m))
    && Enabled(s, e) && e.Steer? && !Fails(e) && DistinctKeys(e.items) && DefaultAside(s, e)
    && |fks| == |e.items| && (forall i :: 0 <= i < |fks| ==> Reportable(e.items[i], fks[i]))
  }

  // Every reply the device may list, read in any order of the interfaces, gives back what was asked for.
  ghost predicate AlwaysReadBack(s: State, e: Event)
    requires e.Steer?
  {
    forall listing, resp :: Lists(listing, Post(s, e).running) && Response(ReadRules(listing), e.hops, resp) ==>
      AllMatch(resp, e.items)
  }

  predicate AllMatch(resp: map<string, string>, items: seq<SteerItem>)
  {
    forall i :: 0 <= i < |items| ==> Matches(resp, items[i])
  }

  predicate SameAddress(hops: Hops, a: string, b: string) { a in hops && b in hops && Equal(hops[a], hops[b]) }

  // No other interface has the address of one asked for.
  ghost predicate AddressesTell(hops: Hops, items: seq<SteerItem>)
  {
    forall i, name :: 0 <= i < |items| && SameAddress(hops, name, items[i].nextHop) ==> name == items[i].nextHop
  }

  // A further rule under the key of item i, besides the one the call writes.
  ghost predicate Rival(s: State, e: Event, i: nat, x: nat)
    requires e.Steer? && i < |e.items|
  {
    i < |e.ids| && x in s.cache && s.cache[x] == KeyAt(e.items, i) && x != e.ids[i] && x in s.running
  }

  // Whatever a further rule under the key of an item answers, it is the interface asked for.
  ghost predicate Unopposed(s: State, e: Event)
    requires e.Steer?
  {
    forall i, x, name ::
      0 <= i < |e.items| && Rival(s, e, i, x) && Answers(ReadRuleOf(s.running[x]), e.hops, name) ==>
        name == e.items[i].nextHop
  }

  // After the call, a key of an item is cached under the id chosen for it and under its rivals only.
  lemma OnlyItsIds(s: State, b: map<nat, string>, e: Event, i: nat, x: nat)
    requires BoundState(s, b) && Enabled(s, e) && e.Steer? && |e.ids| == |e.items| && i < |e.items|
    requires DistinctKeys(e.items) && x in CacheAfter(s, e) && CacheAfter(s, e)[x] == KeyAt(e.items, i)
    ensures x == e.ids[i] || (x in s.cache && s.cache[x] == KeyAt(e.items, i))
  {
    SteerCaches(s, b, e);
    if x !in s.cache {
      var j :| 0 <= j < |e.ids| && e.ids[j] == x;
      assert KeyAt(e.items, j) == KeyAt(e.items, i);
    }
  }

  lemma KeyOfRunning(t: State, b: map<nat, string>, x: nat)
    requires BoundState(t, b) && Agree(t, {}) && x in t.running && x != DEFAULT_RULE_ID
    ensures x in t.cache && t.cache[x] == t.running[x].flow.key
  {
    assert AgreeOn(t, x);
  }

  lemma AgreeAfter(s: State, b: map<nat, string>, e: Event)
    requires BoundState(s, b) && Agree(s, {}) && Enabled(s, e) && e.Steer? && e.items != [] && !Fails(e)
    ensures BoundState(Post(s, e), BoundAfter(b, e)) && Agree(Post(s, e), {})
    ensures Post(s, e).cache == CacheAfter(s, e) && |e.ids| == |e.items|
    ensures SameOutside(s.candidate, Post(s, e).running, e.ids)
  {
    hide Post, BoundState, Agree, SameOutside;
    AcceptedSends(e);
    StepKeepsBound(s, b, e);
    StepKeepsAgreement(s, b, {}, e);
    assert {} + Dirtied(e) == {};
    PostParts(s, e);
    EditTouches(s.candidate, e, Reached(e));
    CandidateAfter(s, e);
  }

  // Only the rule written for an item and its rivals are read back under its key.
  lemma OnlyItsRules(s: State, b: map<nat, string>, e: Event, fks: seq<FlowKey>, i: nat, x: nat)
    requires Asked(s, b, e, fks) && i < |fks|
    requires x in Post(s, e).running && AsKey(ReadBack(Post(s, e).running[x].flow)) == AsKey(fks[i])
    requires x != DEFAULT_RULE_ID ==> Faithful(Post(s, e).running[x].flow)
    ensures |e.ids| == |e.items|
    ensures x == e.ids[i] || (Rival(s, e, i, x) && Post(s, e).running[x] == s.running[x])
  {
    hide Post, AsKey, ReadBack, Faithful, RulesOk, BoundState, MatchOf, IsV4;
    var t := Post(s, e);
    AgreeAfter(s, b, e);
    if x == DEFAULT_RULE_ID {
      assert t.running[x] == DEFAULT_RULE;
      DefaultReadsAsNoFlow(fks[i]);
    } else {
      ReadsAsOnlyIfKeyed(t.running[x].flow, fks[i]);
      KeyOfRunning(t, BoundAfter(b, e), x);
      assert KeyAt(e.items, i) == AsKey(fks[i]) by { KeyOfMatch(fks[i]); }
      OnlyItsIds(s, b, e, i, x);
      if x != e.ids[i] {
        RivalUntouched(s, b, e, i, x);
      }
    }
  }

  lemma KeyOfMatch(fk: FlowKey)
    ensures MatchOf(fk).key == AsKey(fk)
  {
  }

  lemma RivalUntouched(s: State, b: map<nat, string>, e: Event, i: nat, x: nat)
    requires BoundState(s, b) && Agree(s, {}) && Enabled(s, e) && e.Steer? && !Fails(e) && i < |e.items|
    requires DistinctKeys(e.items) && x != DEFAULT_RULE_ID && |e.ids| == |e.items|
    requires x in s.cache && s.cache[x] == KeyAt(e.items, i) && x != e.ids[i]
    ensures Rival(s, e, i, x) && x in Post(s, e).running && Post(s, e).running[x] == s.running[x]
  {
    hide Post;
    AgreeAfter(s, b, e);
    SteerCaches(s, b, e);
    assert AgreeOn(s, x);
    forall j | 0 <= j < |e.ids|
      ensures e.ids[j] != x
    {
      assert j != i ==> KeyAt(e.items, j) != KeyAt(e.items, i);
    }
  }

  // The rule an item wrote is in force and read back under the item's key.
  lemma RuleInForce(s: State, b: map<nat, string>, e: Event, fks: seq<FlowKey>, i: nat)
    requires Asked(s, b, e, fks) && i < |fks|
    ensures |e.ids| == |e.items| && e.ids[i] in Post(s, e).running
    ensures ReadRuleOf(Post(s, e).running[e.ids[i]]) == ReadRule(KeyAt(e.items, i), Some(HopOf(e.hops, e.items[i])))
    ensures forall x :: x in Post(s, e).running && x != DEFAULT_RULE_ID ==> Faithful(Post(s, e).running[x].flow)
  {
    hide Post, AsKey, ReadBack, MatchOf, Faithful, BoundState;
    var ok := (m: Match) => Faithful(m);
    FaithfulTiesPorts();
    SentFaithfully(e, fks);
    RunningOk(s, ok);
    AcceptedRules(s, b, e, ok, i);
    StepContents(s, b, e, ok);
    V4ReadsBack(fks[i]);
    KeyOfMatch(fks[i]);
    assert forall x :: x in Post(s, e).running && x != DEFAULT_RULE_ID ==> ok(Post(s, e).running[x].flow);
  }

  lemma RunningOk(s: State, ok: Match -> bool)
    requires Agree(s, {}) && RulesOk(s.candidate, ok)
    ensures RulesOk(s.running, ok)
  {
    forall id | id in s.running && id != DEFAULT_RULE_ID
      ensures ok(s.running[id].flow)
    {
      assert AgreeOn(s, id);
    }
  }

  lemma SentFaithfully(e: Event, fks: seq<FlowKey>)
    requires e.Steer? && |fks| == |e.items| && forall i :: 0 <= i < |fks| ==> Reportable(e.items[i], fks[i])
    ensures EventOk(e, (m: Match) => Faithful(m))
  {
    forall i | 0 <= i < |e.items| ensures Faithful(e.items[i].flow) {
      assert e.items[i].flow == MatchOf(fks[i]);
    }
  }

  lemma V4ReadsBack(fk: FlowKey)
    requires IsV4(fk) && fk.protocol in {TCP, UDP}
    ensures AsKey(ReadBack(MatchOf(fk))) == AsKey(fk)
  {
    hide AsKey, ReadBack, MatchOf;
    ReadsBackExactly(fk);
  }

  // A rival, too, is read back under the item's key.
  lemma RivalReadsBack(s: State, e: Event, fks: seq<FlowKey>, b: map<nat, string>, i: nat, x: nat)
    requires Asked(s, b, e, fks) && i < |fks| && Rival(s, e, i, x)
    ensures |e.ids| == |e.items| && x in Post(s, e).running && Post(s, e).running[x] == s.running[x]
    ensures ReadRuleOf(s.running[x]).key == KeyAt(e.items, i)
  {
    hide Post, AsKey, ReadBack, MatchOf, Faithful;
    AgreeAfter(s, b, e);
    RivalUntouched(s, b, e, i, x);
    RuleInForce(s, b, e, fks, i);
    assert AgreeOn(s, x) && s.running[x].flow.key == s.cache[x];
    KeyOfMatch(fks[i]);
    SameKeyReadsBack(s.running[x].flow, fks[i]);
  }

  lemma SameKeyReadsBack(m: Match, fk: FlowKey)
    requires Faithful(m) && m.key == AsKey(fk) && IsV4(fk) && fk.protocol in {TCP, UDP}
    ensures AsKey(ReadBack(m)) == AsKey(fk)
  {
    hide AsKey;
    if w :| m == MatchOf(w) {
      KeyOfMatch(w);
      AsKeyIdentifies(fk, w);
      V4ReadsBack(w);
    }
  }

  // What a rule read back under the key of an item answers is the interface asked for.
  lemma AnswersAsAsked(s: State, b: map<nat, string>, e: Event, fks: seq<FlowKey>, i: nat, x: nat, name: string)
    requires Asked(s, b, e, fks) && i < |fks| && AddressesTell(e.hops, e.items) && Unopposed(s, e)
    requires x in Post(s, e).running && ReadRuleOf(Post(s, e).running[x]).key == KeyAt(e.items, i)
    requires Answers(ReadRuleOf(Post(s, e).running[x]), e.hops, name)
    ensures name == e.items[i].nextHop
  {
    hide Post, AsKey, ReadBack, MatchOf, Faithful, BoundState, RulesOk, Agree, Equal, IsV4;
    RuleInForce(s, b, e, fks, i);
    HopIsKnown(s, b, e, fks, i);
    KeyOfMatch(fks[i]);
    OnlyItsRules(s, b, e, fks, i, x);
    if x == e.ids[i] {
      assert SameAddress(e.hops, name, e.items[i].nextHop);
    } else {
      assert Answers(ReadRuleOf(s.running[x]), e.hops, name);
    }
  }

  lemma HopIsKnown(s: State, b: map<nat, string>, e: Event, fks: seq<FlowKey>, i: nat)
    requires Asked(s, b, e, fks) && i < |fks|
    ensures e.items[i].nextHop in e.hops && HopOf(e.hops, e.items[i]) == e.hops[e.items[i].nextHop]
  {
    assert KnownHop(e.hops, e.items[i]);
  }

  // If every answer under a key is the same, and there is one, it is the reply.
  lemma OnlyAnswer(view: seq<ReadRule>, hops: Hops, resp: map<string, string>, j: nat, name: string)
    requires Response(view, hops, resp) && j < |view| && Answers(view[j], hops, name)
    requires forall k, other :: 0 <= k < |view| && view[k].key == view[j].key && Answers(view[k], hops, other) ==>
      other == name
    ensures view[j].key in resp && resp[view[j].key] == name
  {
    hide Answers;
    var key := view[j].key;
    assert Writes(view[j], hops);
    var k: nat :| LastAnswer(view, hops, k, key, resp[key]);
  }

  // Every reply is the one asked for, if the addresses tell the interfaces apart and no rival disagrees.
  lemma ReadsBack(s: State, b: map<nat, string>, e: Event, fks: seq<FlowKey>, listing: seq<Entry>,
                  resp: map<string, string>, i: nat)
    requires Asked(s, b, e, fks) && i < |fks| && AddressesTell(e.hops, e.items) && Unopposed(s, e)
    requires Lists(listing, Post(s, e).running) && Response(ReadRules(listing), e.hops, resp)
    ensures Matches(resp, e.items[i])
  {
    hide Post, AsKey, ReadBack, MatchOf, Asked, Response;
    AskedLength(s, b, e, fks);
    RuleInForce(s, b, e, fks, i);
    HopIsKnown(s, b, e, fks, i);
    var name, view := e.items[i].nextHop, ReadRules(listing);
    var j :| 0 <= j < |listing| && listing[j].id == e.ids[i];
    EqualIsSameMeaning(e.hops[name], e.hops[name]);
    forall k, other | 0 <= k < |view| && view[k].key == view[j].key && Answers(view[k], e.hops, other)
      ensures other == name
    {
      AnswersAsAsked(s, b, e, fks, i, listing[k].id, other);
    }
    OnlyAnswer(view, e.hops, resp, j, name);
  }

  lemma AskedLength(s: State, b: map<nat, string>, e: Event, fks: seq<FlowKey>)
    requires Asked(s, b, e, fks)
    ensures e.Steer? && |fks| == |e.items|
  {
  }

  lemma MayMisread(s: State, b: map<nat, string>, e: Event, fks: seq<FlowKey>)
    requires Asked(s, b, e, fks) && !(AddressesTell(e.hops, e.items) && Unopposed(s, e))
    ensures !AlwaysReadBack(s, e)
  {
    hide Asked, Post, Response, Lists, AsKey, ReadBack, Equal;
    AskedLength(s, b, e, fks);
    var i, x, name;
    if !AddressesTell(e.hops, e.items) {
      i, name :| && 0 <= i < |e.items| && SameAddress(e.hops, name, e.items[i].nextHop)
                 && name != e.items[i].nextHop;
      RuleInForce(s, b, e, fks, i);
      HopIsKnown(s, b, e, fks, i);
      x := e.ids[i];
    } else {
      i, x, name :| && 0 <= i < |e.items| && Rival(s, e, i, x) && Answers(ReadRuleOf(s.running[x]), e.hops, name)
                    && name != e.items[i].nextHop;
      RivalReadsBack(s, e, fks, b, i, x);
    }
    var listing, resp := AnyAnswerHappens(Post(s, e).running, e.hops, x, name);
    assert !Matches(resp, e.items[i]);
    assert !AllMatch(resp, e.items);
  }

  // An accepted call is always read back exactly when no other interface has an address asked for, and no
  // further rule under the key of one of its flows answers with another interface.
  lemma ReadYourWritesExactly(s: State, b: map<nat, string>, e: Event, fks: seq<FlowKey>)
    requires Asked(s, b, e, fks)
    ensures AlwaysReadBack(s, e) <==> AddressesTell(e.hops, e.items) && Unopposed(s, e)
  {
    hide Asked, Post, Answers, ReadRuleOf, Response, Lists;
    AskedLength(s, b, e, fks);
    if AddressesTell(e.hops, e.items) && Unopposed(s, e) {
      forall listing, resp | Lists(listing, Post(s, e).running) && Response(ReadRules(listing), e.hops, resp)
        ensures AllMatch(resp, e.items)
      {
        forall i | 0 <= i < |e.items|
          ensures Matches(resp, e.items[i])
        {
          ReadsBack(s, b, e, fks, listing, resp, i);
        }
      }
    } else {
      MayMisread(s, b, e, fks);
    }
  }
  lemma ReplyMatches(s: State, b: map<nat, string>, e: Event, fks: seq<FlowKey>, listing: seq<Entry>,
                     resp: map<string, string>)
    requires Asked(s, b, e, fks) && AddressesTell(e.hops, e.items) && Unopposed(s, e)
    requires Lists(listing, Post(s, e).running) && Response(ReadRules(listing), e.hops, resp)
    ensures !Fails(e) && AllMatch(resp, e.items)
  {
    hide Post, AddressesTell, Unopposed, Lists, Response;
    ReadYourWritesExactly(s, b, e, fks);
  }

  // ---- Consequences ----

  ghost predicate DistinctAddresses(hops: Hops)
  {
    forall a, b :: a in hops && b in hops && Equal(hops[a], hops[b]) ==> a == b
  }

  // The cache holds the key under at most one id.
  ghost predicate AtMostOneId(cache: map<nat, string>, key: string)
  {
    forall x, y :: x in cache && y in cache && cache[x] == cache[y] == key ==> x == y
  }

  lemma NoRival(s: State, e: Event, i: nat, x: nat)
    requires Enabled(s, e) && e.Steer? && i < |e.items| && AtMostOneId(s.cache, KeyAt(e.items, i))
    ensures !Rival(s, e, i, x)
  {
    if i < |e.ids| && x in s.cache && s.cache[x] == KeyAt(e.items, i) {
      assert s.cache[x] in s.cache.Values;
    }
  }

  // Read your writes: with distinct addresses, and flows that had at most one id before.
  lemma ReadYourWrites(s: State, b: map<nat, string>, e: Event, fks: seq<FlowKey>)
    requires Asked(s, b, e, fks) && DistinctAddresses(e.hops)
    requires forall i :: 0 <= i < |e.items| ==> AtMostOneId(s.cache, KeyAt(e.items, i))
    ensures AlwaysReadBack(s, e)
  {
    ReadYourWritesExactly(s, b, e, fks);
    forall i, x | 0 <= i < |e.items|
      ensures !Rival(s, e, i, x)
    {
      NoRival(s, e, i, x);
    }
  }

  // For a whole run: after any run of genuine calls of which none left a trace in the candidate.
  lemma ReadYourWritesInRun(s0: State, es: seq<Event>, e: Event, fks: seq<FlowKey>)
    requires Initial(s0) && RulesOk(s0.candidate, (m: Match) => Faithful(m))
    requires RulesOk(s0.running, (m: Match) => Faithful(m))
    requires IsRun(s0, es) && NeverATrace(s0, es)
    requires forall m :: 0 <= m < |es| ==> EventOk(es[m], (f: Match) => Faithful(f))
    requires Enabled(After(s0, es), e) && e.Steer? && !Fails(e) && DistinctKeys(e.items)
    requires DefaultAside(After(s0, es), e)
    requires |fks| == |e.items| && forall i :: 0 <= i < |fks| ==> Reportable(e.items[i], fks[i])
    ensures AlwaysReadBack(After(s0, es), e) <==> AddressesTell(e.hops, e.items) && Unopposed(After(s0, es), e)
  {
    hide Post, Enabled, Reportable, Mirrors, LeavesNoTrace, BoundState;
    FaithfulTiesPorts();
    RunInvariant(s0, es);
    RunContents(s0, es, (m: Match) => Faithful(m));
    MirrorsExactly(s0, es);
    assert es[..|es|] == es;
    assert MirrorsAt(s0, es, |es|);
    AgreeIsMirrors(After(s0, es), Bound(s0, es));
    ReadYourWritesExactly(After(s0, es), Bound(s0, es), e, fks);
  }

  // The situation arises from the first call on: from a flushed device, steering any one IPv4 TCP or UDP
  // flow to a WAN interface is read back, if the addresses differ.
  lemma FirstSteerReadsBack(hops: Hops, fk: FlowKey, name: string)
    requires IsV4(fk) && fk.protocol in {TCP, UDP} && name != "" && name in hops && DistinctAddresses(hops)
    ensures var e := Steer(hops, [SteerItem(MatchOf(fk), name)], [FIRST_RULE_ID], Accepted);
      Enabled(FLUSHED, e) && AlwaysReadBack(FLUSHED, e)
  {
    hide Post, MatchOf, AsKey, AlwaysReadBack;
    var item := SteerItem(MatchOf(fk), name);
    var e := Steer(hops, [item], [FIRST_RULE_ID], Accepted);
    FirstAsked(hops, fk, item);
    ReadYourWrites(FLUSHED, map[], e, [fk]);
  }

  lemma FirstAsked(hops: Hops, fk: FlowKey, item: SteerItem)
    requires Reportable(item, fk) && item.nextHop in hops
    ensures Asked(FLUSHED, map[], Steer(hops, [item], [FIRST_RULE_ID], Accepted), [fk])
  {
    hide Post, AsKey;
    FlushedIsInitial();
    OneItem(hops, item, FIRST_RULE_ID);
    assert Planned(FLUSHED.cache, FLUSHED.nextId, [item], [FIRST_RULE_ID]);
  }

  // ---- A flow with two ids ----

  // The calls that get there from a flushed device: one call listing the flow twice, then one moving it.
  function TwiceSteered(hops: Hops, m: Match, name: string, other: string): seq<Event>
  {
    [Steer(hops, [SteerItem(m, other), SteerItem(m, other)], [10, 20], Accepted),
     Steer(hops, [SteerItem(m, name)], [10], Accepted)]
  }

  lemma TwiceSteeredRuns(hops: Hops, m: Match, name: string, other: string)
    requires name != "" && other != "" && name in hops && other in hops
    ensures var es := TwiceSteered(hops, m, name, other);
      && IsRun(FLUSHED, es)
      && After(FLUSHED, es).running.Keys == {DEFAULT_RULE_ID, 10, 20}
      && After(FLUSHED, es).running[10] == RuleConfig(m, Some(hops[name]), "allow")
      && After(FLUSHED, es).running[20] == RuleConfig(m, Some(hops[other]), "allow")
  {
    var es := TwiceSteered(hops, m, name, other);
    TwiceFirst(hops, m, other);
    TwiceSecond(hops, m, name, other);
    TwoSteps(FLUSHED, es[0], es[1]);
  }

  lemma TwiceFirst(hops: Hops, m: Match, other: string)
    requires other != "" && other in hops
    ensures var e := Steer(hops, [SteerItem(m, other), SteerItem(m, other)], [10, 20], Accepted);
      var rule := RuleConfig(m, Some(hops[other]), "allow");
      var acl := map[DEFAULT_RULE_ID := DEFAULT_RULE, 10 := rule, 20 := rule];
      Enabled(FLUSHED, e) && Post(FLUSHED, e) == State(30, map[10 := m.key, 20 := m.key], acl, acl)
  {
    var item := SteerItem(m, other);
    var rule := RuleConfig(m, Some(hops[other]), "allow");
    var e := Steer(hops, [item, item], [10, 20], Accepted);
    TwicePlanned(hops, item, FLUSHED.cache);
    TwiceApplied(FLUSHED.candidate, rule);
    var ops := [Merge(10, rule), Merge(20, rule)];
    assert Ops(e) == ops;
    PostIfSent(FLUSHED, e);
    var acl := map[DEFAULT_RULE_ID := DEFAULT_RULE, 10 := rule, 20 := rule];
    assert FLUSHED.candidate[10 := rule][20 := rule] == acl;
    assert CacheAfter(FLUSHED, e) == map[10 := m.key, 20 := m.key];
  }

  lemma TwicePlanned(hops: Hops, item: SteerItem, cache: map<nat, string>)
    requires KnownHop(hops, item) && item.flow.key !in cache.Values
    ensures KnownPrefix(hops, [item, item]) == 2
    ensures Planned(cache, 10, [item, item], [10, 20])
    ensures Uncached(cache, [item, item][..2]) == 2
    ensures Assigned([item, item], [10, 20]) == map[10 := item.flow.key, 20 := item.flow.key]
  {
    var items := [item, item];
    assert items[1..] == [item] && [item][1..] == [];
    assert KnownPrefix(hops, [item]) == 1;
    assert items[..0] == [];
    UncachedStep(cache, items, 0);
    UncachedStep(cache, items, 1);
    AssignedStep(items, [], 10);
    AssignedStep(items, [10], 20);
    assert [] + [10] == [10] && [10] + [20] == [10, 20];
  }

  lemma TwiceApplied(acl: Acl, rule: RuleConfig)
    requires 10 !in acl && 20 !in acl
    ensures ApplyOps(acl, [Merge(10, rule), Merge(20, rule)]) == acl[10 := rule][20 := rule]
  {
    var ops := [Merge(10, rule), Merge(20, rule)];
    assert ops[..1] == [ops[0]];
    SingleOp(acl, ops[0]);
  }

  lemma TwiceSecond(hops: Hops, m: Match, name: string, other: string)
    requires name != "" && name in hops && other in hops
    ensures var e := Steer(hops, [SteerItem(m, name)], [10], Accepted);
      var rule, moved := RuleConfig(m, Some(hops[other]), "allow"), RuleConfig(m, Some(hops[name]), "allow");
      var acl := map[DEFAULT_RULE_ID := DEFAULT_RULE, 10 := rule, 20 := rule];
      var s := State(30, map[10 := m.key, 20 := m.key], acl, acl);
      Enabled(s, e) && Post(s, e).running == acl[10 := moved]
  {
    var item := SteerItem(m, name);
    var rule, moved := RuleConfig(m, Some(hops[other]), "allow"), RuleConfig(m, Some(hops[name]), "allow");
    var acl := map[DEFAULT_RULE_ID := DEFAULT_RULE, 10 := rule, 20 := rule];
    var cache := map[10 := m.key, 20 := m.key];
    OneItem(hops, item, 10);
    assert cache[10] == m.key && m.key in cache.Values;
    assert SteerOps(hops, [item], [10]) == [Merge(10, moved)];
    SingleOp(acl, Merge(10, moved));
    assert Merged(rule, moved) == moved;
  }

  // A call that lists a flow twice gives it two ids, and the next call that moves it may be denied: the
  // rule under the other id is a rival with another answer.
  lemma RepeatedFlowMisreads(hops: Hops, fk: FlowKey, name: string, other: string)
    requires IsV4(fk) && fk.protocol in {TCP, UDP}
    requires name != "" && other != "" && name in hops && other in hops && name != other
    ensures var es := TwiceSteered(hops, MatchOf(fk), name, other);
      && IsRun(FLUSHED, es) && !Fails(es[1])
      && !AlwaysReadBack(After(FLUSHED, es[..1]), es[1])
  {
    hide Post, MatchOf, AsKey, AlwaysReadBack;
    var m := MatchOf(fk);
    var es := TwiceSteered(hops, m, name, other);
    var s := After(FLUSHED, es[..1]);
    TwiceSteeredRuns(hops, m, name, other);
    TwiceFirst(hops, m, other);
    assert es[..1][..0] == [];
    TwiceAsked(s, hops, fk, name, other);
    ReadYourWritesExactly(s, s.cache, es[1], [fk]);
    assert Rival(s, es[1], 0, 20);
    EqualIsSameMeaning(hops[other], hops[other]);
    assert Answers(ReadRuleOf(s.running[20]), hops, other);
  }

  lemma TwiceAsked(s: State, hops: Hops, fk: FlowKey, name: string, other: string)
    requires IsV4(fk) && fk.protocol in {TCP, UDP} && name != "" && name in hops && other in hops
    requires var rule := RuleConfig(MatchOf(fk), Some(hops[other]), "allow");
      var acl := map[DEFAULT_RULE_ID := DEFAULT_RULE, 10 := rule, 20 := rule];
      s == State(30, map[10 := MatchOf(fk).key, 20 := MatchOf(fk).key], acl, acl)
    ensures Asked(s, s.cache, Steer(hops, [SteerItem(MatchOf(fk), name)], [10], Accepted), [fk])
  {
    hide Post, MatchOf, AsKey, ApplyOps, Loaded;
    TwiceSecond(hops, MatchOf(fk), name, other);
    assert Faithful(MatchOf(fk));
  }
}
