/** The controller and the device it drives, with the loops of the source: every method is the step of
    AclModel that the environment's choices name. */
module Controller {
  import opened GoTypes
  import opened IpAddress
  import opened FlowKeys
  import opened AclModel
  import opened AclTexts
  import opened SteerRules
  import opened Reload
  import opened Readback

  datatype Reply = Done | EmptyCommit | Refused

  // The NETCONF device: edits go to the candidate, a commit makes the candidate the running datastore.
  class Device {
    var candidate: Acl
    var running: Acl

    constructor (acl: Acl)
      ensures candidate == acl && running == acl
    {
      candidate, running := acl, acl;
    }

    // edit-config. A failing edit stops at an error, possibly after some operations.
    method EditConfig(ops: seq<Op>, outcome: Outcome) returns (ok: bool)
      modifies this`candidate
      ensures ok <==> !outcome.EditError?
      ensures candidate == ApplyOps(old(candidate), if outcome.EditError? then Prefix(ops, outcome.applied) else ops)
    {
      candidate := ApplyOps(candidate, if outcome.EditError? then Prefix(ops, outcome.applied) else ops);
      ok := !outcome.EditError?;
    }

    // commit. The device reports a commit of an unchanged candidate as an error of its own.
    method Commit(outcome: Outcome) returns (reply: Reply)
      modifies this`running
      ensures reply == Refused <==> outcome != Accepted
      ensures running == if outcome == Accepted then candidate else old(running)
    {
      if outcome != Accepted {
        reply := Refused;
      } else if candidate == running {
        reply := EmptyCommit;
      } else {
        running := candidate;
        reply := Done;
      }
    }

    // get-config of the running datastore, in whatever order the device lists it.
    method GetConfig() returns (listing: seq<Entry>)
      ensures Lists(listing, running)
    {
      listing := [];
      var rest := running.Keys;
      while rest != {}
        invariant rest <= running.Keys
        invariant forall i :: 0 <= i < |listing| ==> listing[i].id !in rest && listing[i].id in running
        invariant forall i :: 0 <= i < |listing| ==> running[listing[i].id] == listing[i].config
        invariant forall id :: id in running && id !in rest ==> Has(listing, id)
        invariant forall i, j :: 0 <= i < j < |listing| ==> listing[i].id != listing[j].id
      {
        var id :| id in rest;
        rest := rest - {id};
        HasAfter(listing, Entry(id, running[id]));
        listing := listing + [Entry(id, running[id])];
      }
    }
  }

  ghost predicate Has(listing: seq<Entry>, id: nat) { exists i :: 0 <= i < |listing| && listing[i].id == id }

  lemma HasAfter(listing: seq<Entry>, e: Entry)
    ensures forall id :: Has(listing, id) || id == e.id ==> Has(listing + [e], id)
  {
    var all := listing + [e];
    assert all[|listing|] == e;
    forall id | Has(listing, id)
      ensures Has(all, id)
    {
      var i :| 0 <= i < |listing| && listing[i].id == id;
      assert all[i].id == id;
    }
  }

  function FlowsOf(rules: seq<SteerRule>): seq<FlowKey>
  {
    seq(|rules|, i requires 0 <= i < |rules| => rules[i].rule)
  }

  class Controller {
    var accessListID: nat
    var aclRules: map<nat, string>
    const device: Device

    constructor (device: Device)
      ensures this.device == device && View() == State(FIRST_RULE_ID, map[], device.candidate, device.running)
    {
      this.device := device;
      accessListID, aclRules := FIRST_RULE_ID, map[];
    }

    function View(): State
      reads this, device
    {
      State(accessListID, aclRules, device.candidate, device.running)
    }

    // An empty commit counts as success.
    method CommitChanges(outcome: Outcome) returns (ok: bool)
      modifies device`running
      ensures ok <==> outcome == Accepted
      ensures device.running == if outcome == Accepted then device.candidate else old(device.running)
    {
      var reply := device.Commit(outcome);
      ok := reply == Done || reply == EmptyCommit;
    }

    // The first id found with the key, visiting the cache in any order.
    method FindRule(key: string) returns (id: int)
      ensures id == -1 || (id >= 0 && id in aclRules && aclRules[id] == key)
      ensures id == -1 <==> key !in aclRules.Values
    {
      id := -1;
      var rest := aclRules.Keys;
      while rest != {}
        invariant rest <= aclRules.Keys
        invariant forall k :: k in aclRules && k !in rest ==> aclRules[k] != key
      {
        var k :| k in rest;
        if aclRules[k] == key {
          return k;
        }
        rest := rest - {k};
      }
    }

    // The first loop of Steer: an id and a rule for each item, until one names an unknown next hop.
    method PlanRules(hops: Hops, items: seq<SteerItem>)
      returns (ok: bool, ruleIdxMap: map<nat, string>, rulesList: seq<Op>, ghost ids: seq<nat>)
      modifies this`accessListID
      ensures |ids| == KnownPrefix(hops, items) && Planned(aclRules, old(accessListID), items, ids)
      ensures ok <==> |ids| == |items|
      ensures accessListID == old(accessListID) + RULE_ID_STEP * Uncached(aclRules, items[..|ids|])
      ensures ruleIdxMap == Assigned(items, ids) && rulesList == SteerOps(hops, items, ids)
    {
      hide Planned, Uncached, Assigned, SteerOps;
      ids, ruleIdxMap, rulesList := [], map[], [];
      EmptyPlan(aclRules, accessListID, hops, items);
      var i := 0;
      while i < |items|
        invariant 0 <= i <= |items| && |ids| == i <= KnownPrefix(hops, items)
        invariant Planned(aclRules, old(accessListID), items, ids)
        invariant accessListID == old(accessListID) + RULE_ID_STEP * Uncached(aclRules, items[..i])
        invariant ruleIdxMap == Assigned(items, ids) && rulesList == SteerOps(hops, items, ids)
      {
        var item := items[i];
        var nextHop1: IP := [];
        if item.nextHop != "" {
          if item.nextHop !in hops {
            return false, ruleIdxMap, rulesList, ids;
          }
          nextHop1 := hops[item.nextHop];
        }
        var currentRuleId := FindRule(item.flow.key);
        if currentRuleId == -1 {
          currentRuleId := accessListID;
          accessListID := accessListID + RULE_ID_STEP;
        }
        PlannedStep(aclRules, old(accessListID), items, ids, currentRuleId);
        UncachedStep(aclRules, items, i);
        AssignedStep(items, ids, currentRuleId);
        OpsStep(hops, items, ids, currentRuleId);
        ids := ids + [currentRuleId];
        ruleIdxMap := ruleIdxMap[currentRuleId := item.flow.key];
        rulesList := rulesList + [Merge(currentRuleId, RuleConfig(item.flow, Some(nextHop1), "allow"))];
        i := i + 1;
      }
      ok := true;
    }

    // The last loop of Steer writes the planned keys into the cache, in any order.
    method CacheRules(ruleIdxMap: map<nat, string>)
      modifies this`aclRules
      ensures aclRules == old(aclRules) + ruleIdxMap
    {
      var rest := ruleIdxMap.Keys;
      while rest != {}
        invariant rest <= ruleIdxMap.Keys
        invariant aclRules == old(aclRules) + (ruleIdxMap - rest)
      {
        var k :| k in rest;
        aclRules := aclRules[k := ruleIdxMap[k]];
        rest := rest - {k};
      }
    }

    // The printed keys and the rule texts depend on the flows alone; they are computed before the loop.
    method Steer(hops: Hops, rules: seq<SteerRule>, outcome: Outcome) returns (ok: bool, ghost ids: seq<nat>)
      modifies this, device
      ensures !ok ==> aclRules == old(aclRules) && device.running == old(device.running)
      ensures Enabled(old(View()), AclModel.Steer(hops, ItemsOf(rules), ids, outcome))
      ensures View() == Post(old(View()), AclModel.Steer(hops, ItemsOf(rules), ids, outcome))
      ensures ok <==> !Fails(AclModel.Steer(hops, ItemsOf(rules), ids, outcome))
    {
      hide Planned, KnownPrefix, Assigned, ApplyOps, Uncached;
      var ruleIdxMap, rulesList;
      ok, ruleIdxMap, rulesList, ids := PlanRules(hops, ItemsOf(rules));
      ghost var s, e := old(View()), AclModel.Steer(hops, ItemsOf(rules), ids, outcome);
      if !ok {
        PostIfNothingSent(s, e);
        return;
      }
      assert Ops(e) == rulesList;
      if |rulesList| == 0 {
        PostIfNothingSent(s, e);
        return;
      }
      PostIfSent(s, e);
      ok := device.EditConfig(rulesList, outcome);
      if !ok {
        return;
      }
      ok := CommitChanges(outcome);
      if !ok {
        return;
      }
      CacheRules(ruleIdxMap);
    }

    // The first loop of RemoveSteer: every id cached for a key, visiting the cache in any order.
    method SelectRules(keys: seq<string>) returns (rulesToRemove: seq<Op>, ghost ids: seq<nat>)
      ensures rulesToRemove == DeleteOps(ids)
      ensures forall k :: k in ids <==> k in aclRules && aclRules[k] in keys
    {
      ids, rulesToRemove := [], [];
      var i := 0;
      while i < |keys|
        invariant 0 <= i <= |keys|
        invariant rulesToRemove == DeleteOps(ids)
        invariant forall k :: k in ids <==> k in aclRules && aclRules[k] in keys[..i]
      {
        var rest := aclRules.Keys;
        assert keys[..i + 1] == keys[..i] + [keys[i]];
        while rest != {}
          invariant rest <= aclRules.Keys
          invariant rulesToRemove == DeleteOps(ids)
          invariant forall k :: k in ids ==> k in aclRules && aclRules[k] in keys[..i + 1]
          invariant forall k :: k in aclRules && aclRules[k] in keys[..i] ==> k in ids
          invariant forall k :: k in aclRules && k !in rest && aclRules[k] == keys[i] ==> k in ids
        {
          var k :| k in rest;
          if aclRules[k] == keys[i] {
            rulesToRemove := rulesToRemove + [Delete(k)];
            ids := ids + [k];
          }
          rest := rest - {k};
        }
        i := i + 1;
      }
      assert keys[..|keys|] == keys;
    }

    // The last loop of RemoveSteer.
    method UncacheRules(rulesToRemove: seq<Op>, ghost ids: seq<nat>)
      requires rulesToRemove == DeleteOps(ids)
      modifies this`aclRules
      ensures aclRules == old(aclRules) - (set k | k in ids)
    {
      var j := 0;
      while j < |rulesToRemove|
        invariant 0 <= j <= |rulesToRemove|
        invariant aclRules == old(aclRules) - (set k | k in ids[..j])
      {
        assert ids[..j + 1] == ids[..j] + [ids[j]];
        aclRules := aclRules - {rulesToRemove[j].id};
        j := j + 1;
      }
      assert ids[..j] == ids;
    }

    method RemoveSteer(flows: seq<FlowKey>, outcome: Outcome) returns (ok: bool, ghost ids: seq<nat>)
      modifies this, device
      ensures !ok ==> aclRules == old(aclRules) && device.running == old(device.running)
      ensures Enabled(old(View()), AclModel.RemoveSteer(KeysOf(flows), ids, outcome))
      ensures View() == Post(old(View()), AclModel.RemoveSteer(KeysOf(flows), ids, outcome))
      ensures ok <==> !Fails(AclModel.RemoveSteer(KeysOf(flows), ids, outcome))
    {
      var rulesToRemove;
      rulesToRemove, ids := SelectRules(KeysOf(flows));
      ghost var s, e := old(View()), AclModel.RemoveSteer(KeysOf(flows), ids, outcome);
      if |rulesToRemove| == 0 {
        PostIfNothingSent(s, e);
        return true, ids;
      }
      PostIfSent(s, e);
      ok := device.EditConfig(rulesToRemove, outcome);
      if !ok {
        return;
      }
      ok := CommitChanges(outcome);
      if !ok {
        return;
      }
      UncacheRules(rulesToRemove, ids);
    }

    // AddTunnel and DeleteTunnel: edits of other parts of the candidate, then a commit.
    method TunnelCall(outcome: Outcome) returns (ok: bool)
      modifies this, device
      ensures View() == Post(old(View()), Tunnel(outcome))
      ensures ok <==> !Fails(Tunnel(outcome))
    {
      assert ApplyOps(device.candidate, []) == device.candidate;
      if outcome.EditError? {
        return false;
      }
      ok := CommitChanges(outcome);
    }

    // SteeringAclCleanup: delete all rules, add the default rule, commit. Both edits may fail.
    method SteeringAclCleanup(deletion: Outcome, addition: Outcome) returns (ok: bool)
      modifies device
      ensures ok <==> CleanupSucceeds(deletion, addition)
      ensures device.candidate == CleanedCandidate(old(device.candidate), deletion, addition)
      ensures device.running == CleanedRunning(old(device.running), deletion, addition)
    {
      var del: seq<Op> := [DeleteAll];
      var add: seq<Op> := [Merge(DEFAULT_RULE_ID, DEFAULT_RULE)];
      assert del[..0] == [] && add[..0] == [];
      ok := device.EditConfig(del, deletion);
      if !ok {
        return;
      }
      ok := device.EditConfig(add, addition);
      if !ok {
        return;
      }
      ok := CommitChanges(addition);
    }

    // The reload loop of InitNetConf, over the rules in the order the device lists them.
    method InitNetConf() returns (listing: seq<Entry>)
      requires accessListID == FIRST_RULE_ID && aclRules == map[]
      modifies this
      ensures Lists(listing, device.running)
      ensures SameState(View(), Started(device.candidate, device.running, listing))
    {
      listing := device.GetConfig();
      var maxID := accessListID;
      var i := 0;
      while i < |listing|
        invariant 0 <= i <= |listing|
        invariant accessListID == NextIdOver(FIRST_RULE_ID, TakenIds(listing[..i]))
        invariant aclRules == ReloadCache(map[], listing[..i])
      {
        var v := listing[i];
        ReloadStep(listing, i);
        if v.id != DEFAULT_RULE_ID {
          var fk := Loaded(v.config.flow);
          if fk.Some? {
            aclRules := aclRules[v.id := AsKey(fk.value)];
            if v.id > maxID {
              accessListID := v.id + RULE_ID_STEP;
            }
          }
        }
        i := i + 1;
      }
      assert listing[..|listing|] == listing;
      RekeyedSameTexts(device.candidate);
      RekeyedSameTexts(device.running);
    }

    // Init, as far as the access list goes: a failed cleanup is only logged.
    method Init(flushSteer: bool, deletion: Outcome, addition: Outcome) returns (listing: seq<Entry>)
      requires accessListID == FIRST_RULE_ID
      modifies this, device
      ensures flushSteer ==> device.candidate == CleanedCandidate(old(device.candidate), deletion, addition)
      ensures flushSteer ==> device.running == CleanedRunning(old(device.running), deletion, addition)
      ensures !flushSteer ==> device.candidate == old(device.candidate) && device.running == old(device.running)
      ensures Lists(listing, device.running)
      ensures SameState(View(), Started(device.candidate, device.running, listing))
    {
      aclRules := map[];
      if flushSteer {
        var ok := SteeringAclCleanup(deletion, addition);
      }
      listing := InitNetConf();
    }

    // The reply loop of GetSteerInterface, over the rules in the order the device lists them.
    method ReadReply(hops: Hops, listing: seq<Entry>) returns (responseMap: map<string, string>)
      ensures Response(ReadRules(listing), hops, responseMap)
    {
      ghost var view := ReadRules(listing);
      responseMap := map[];
      var i := 0;
      while i < |listing|
        invariant 0 <= i <= |listing|
        invariant Response(view[..i], hops, responseMap)
      {
        responseMap := ReadRule(hops, listing[i], responseMap, view[..i]);
        assert view[..i + 1] == view[..i] + [view[i]];
        i := i + 1;
      }
      assert view[..i] == view;
    }

    // Its second loop: one name for each item, empty where the reply does not hold what was asked for.
    method CompareItems(responseMap: map<string, string>, items: seq<SteerItem>)
      returns (status: bool, names: seq<string>)
      ensures |names| == |items|
      ensures forall i :: 0 <= i < |items| ==>
        names[i] == if Matches(responseMap, items[i]) then items[i].nextHop else ""
      ensures status <==> forall i :: 0 <= i < |items| ==> Matches(responseMap, items[i])
    {
      names := [];
      var matchSum := 0;
      var i := 0;
      while i < |items|
        invariant 0 <= i <= |items| && |names| == i && 0 <= matchSum <= i
        invariant forall k :: 0 <= k < i ==> names[k] == if Matches(responseMap, items[k]) then items[k].nextHop else ""
        invariant matchSum == i <==> forall k :: 0 <= k < i ==> Matches(responseMap, items[k])
      {
        var key := items[i].flow.key;
        if key in responseMap && responseMap[key] == items[i].nextHop {
          matchSum := matchSum + 1;
          names := names + [responseMap[key]];
        } else {
          names := names + [""];
        }
        i := i + 1;
      }
      status := matchSum == |items|;
    }

    method GetSteerInterface(hops: Hops, rules: seq<SteerRule>)
      returns (status: bool, names: seq<string>, ghost listing: seq<Entry>, ghost resp: map<string, string>)
      ensures Lists(listing, device.running) && Response(ReadRules(listing), hops, resp)
      ensures |names| == |rules|
      ensures forall i :: 0 <= i < |rules| ==>
        names[i] == if Matches(resp, ItemOf(rules[i])) then rules[i].nextHop else ""
      ensures status <==> AllMatch(resp, ItemsOf(rules))
    {
      var reply := device.GetConfig();
      var responseMap := ReadReply(hops, reply);
      listing, resp := reply, responseMap;
      status, names := CompareItems(responseMap, ItemsOf(rules));
    }

    // The client: steer, then verify that the rules have been applied. When an accepted call can be read
    // back, the check succeeds and names exactly the interfaces asked for.
    method SteerAndVerify(hops: Hops, rules: seq<SteerRule>, outcome: Outcome, ghost b: map<nat, string>)
      returns (ok: bool, status: bool, names: seq<string>, ghost ids: seq<nat>)
      modifies this, device
      ensures View() == Post(old(View()), AclModel.Steer(hops, ItemsOf(rules), ids, outcome))
      ensures ok <==> !Fails(AclModel.Steer(hops, ItemsOf(rules), ids, outcome))
      ensures |names| == |rules|
      ensures var s, e := old(View()), AclModel.Steer(hops, ItemsOf(rules), ids, outcome);
        Asked(s, b, e, FlowsOf(rules)) && AddressesTell(hops, ItemsOf(rules)) && Unopposed(s, e) ==>
          ok && status && forall i :: 0 <= i < |rules| ==> names[i] == rules[i].nextHop
    {
      hide Post, Asked, AddressesTell, Unopposed, Enabled, Lists, Response;
      ghost var s := View();
      ok, ids := Steer(hops, rules, outcome);
      ghost var e := AclModel.Steer(hops, ItemsOf(rules), ids, outcome);
      ghost var listing, resp;
      status, names, listing, resp := GetSteerInterface(hops, rules);
      if Asked(s, b, e, FlowsOf(rules)) && AddressesTell(hops, ItemsOf(rules)) && Unopposed(s, e) {
        ReplyMatches(s, b, e, FlowsOf(rules), listing, resp);
        assert forall i :: 0 <= i < |rules| ==> ItemsOf(rules)[i] == ItemOf(rules[i]);
      }
    }

    // One rule of the reply.
    method ReadRule(hops: Hops, entry: Entry, responseMap: map<string, string>, ghost view: seq<ReadRule>)
      returns (next: map<string, string>)
      requires Response(view, hops, responseMap)
      ensures Response(view + [ReadRuleOf(entry.config)], hops, next)
    {
      var key := AsKey(ReadBack(entry.config.flow));
      ghost var r := ReadRuleOf(entry.config);
      next := responseMap;
      if entry.config.nextHop.None? {
        next := next[key := ""];
        assert Answers(r, hops, "");
        Readback.ResponseWrite(view, hops, responseMap, r, "");
      } else {
        var rest := hops.Keys;
        ghost var found := false;
        while rest != {}
          invariant rest <= hops.Keys
          invariant forall name :: name in hops && name !in rest && Answers(r, hops, name) ==> found
          invariant found ==> key in next && Answers(r, hops, next[key]) && next == responseMap[key := next[key]]
          invariant !found ==> next == responseMap
        {
          var name :| name in rest;
          if Equal(hops[name], entry.config.nextHop.value) {
            next := next[key := name];
            found := true;
          }
          rest := rest - {name};
        }
        if found {
          Readback.ResponseWrite(view, hops, responseMap, r, next[key]);
        } else {
          Readback.ResponseSkip(view, hops, responseMap, r);
        }
      }
    }
  }
}
