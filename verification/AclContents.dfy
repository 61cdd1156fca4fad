/** What the rules of the device say, over whole runs: a rule always carries the texts of a flow that
    some call steered under the rule's key, although a merge does not send zero ports. */
module AclContents {
  import opened AclModel
  import opened AclRuns

  // A property of flows under which a key determines the ports.
  ghost predicate TiesPorts(ok: Match -> bool)
  {
    forall m, n :: ok(m) && ok(n) && m.key == n.key ==> m.srcPort == n.srcPort && m.dstPort == n.dstPort
  }

  ghost predicate RulesOk(acl: Acl, ok: Match -> bool)
  {
    forall id :: id in acl && id != DEFAULT_RULE_ID ==> ok(acl[id].flow)
  }

  ghost predicate EventOk(e: Event, ok: Match -> bool)
  {
    e.Steer? ==> forall i :: 0 <= i < |e.items| ==> ok(e.items[i].flow)
  }

  // Merging a rule into the id bound to its key stores exactly that rule.
  lemma MergeStoresSent(acl: Acl, b: map<nat, string>, id: nat, sent: RuleConfig, ok: Match -> bool)
    requires TiesPorts(ok) && RulesBound(acl, b) && RulesOk(acl, ok) && ok(sent.flow)
    requires id in b && b[id] == sent.flow.key && sent.nextHop.Some?
    ensures var acl' := ApplyOp(acl, Merge(id, sent));
      && (id != DEFAULT_RULE_ID ==> acl' == acl[id := sent]) && id in acl' && acl' == acl[id := acl'[id]]
      && RulesOk(acl', ok)
  {
    if id in acl && id != DEFAULT_RULE_ID {
      assert ok(acl[id].flow);
      assert Merged(acl[id], sent) == sent;
    }
  }

  // No position between i and n holds the id of position i.
  predicate LastUse(ids: seq<nat>, i: nat, n: nat)
    requires i < n <= |ids|
  {
    forall k :: i < k < n ==> ids[k] != ids[i]
  }

  // Each id but the default rule's holds the last of the first n rules sent for it.
  ghost predicate Stored(acl: Acl, hops: Hops, items: seq<SteerItem>, ids: seq<nat>, n: nat)
    requires n <= |ids| <= |items|
  {
    forall i :: 0 <= i < n && LastUse(ids, i, n) && ids[i] != DEFAULT_RULE_ID ==>
      ids[i] in acl && acl[ids[i]] == Sent(hops, items, i)
  }

  lemma StoredStep(acl: Acl, acl': Acl, hops: Hops, items: seq<SteerItem>, ids: seq<nat>, n: nat)
    requires n < |ids| <= |items| && Stored(acl, hops, items, ids, n)
    requires ids[n] in acl' && (ids[n] != DEFAULT_RULE_ID ==> acl' == acl[ids[n] := Sent(hops, items, n)])
    requires ids[n] == DEFAULT_RULE_ID ==> acl' == acl[ids[n] := acl'[ids[n]]]
    ensures Stored(acl', hops, items, ids, n + 1)
  {
    forall i | 0 <= i < n + 1 && LastUse(ids, i, n + 1) && ids[i] != DEFAULT_RULE_ID
      ensures ids[i] in acl' && acl'[ids[i]] == Sent(hops, items, i)
    {
      if i < n {
        assert LastUse(ids, i, n) && ids[n] != ids[i];
      }
    }
  }

  lemma {:induction false} SteerContents(acl: Acl, b: map<nat, string>, hops: Hops, items: seq<SteerItem>,
                                         ids: seq<nat>, n: nat, ok: Match -> bool)
    requires n <= |ids| <= |items| && RulesBound(acl, b) && Binds(b, items, ids)
    requires TiesPorts(ok) && RulesOk(acl, ok) && forall i :: 0 <= i < |items| ==> ok(items[i].flow)
    ensures var acl' := ApplyOps(acl, SteerOps(hops, items, ids)[..n]);
      RulesOk(acl', ok) && Stored(acl', hops, items, ids, n)
  {
    hide LastUse, Merged, ApplyOp, TiesPorts;
    var ops := SteerOps(hops, items, ids);
    if n == 0 {
      assert ops[..0] == [];
    } else {
      var before := ApplyOps(acl, ops[..n - 1]);
      SteerContents(acl, b, hops, items, ids, n - 1, ok);
      SteerEdit(acl, b, hops, items, ids, n - 1);
      MergeStoresSent(before, b, ids[n - 1], Sent(hops, items, n - 1), ok);
      ApplyLast(acl, ops, n);
      StoredStep(before, ApplyOps(acl, ops[..n]), hops, items, ids, n - 1);
    }
  }

  lemma {:induction false} DeleteContents(acl: Acl, ids: seq<nat>, n: nat, ok: Match -> bool)
    requires n <= |ids| && RulesOk(acl, ok)
    ensures RulesOk(ApplyOps(acl, DeleteOps(ids)[..n]), ok)
  {
    DeleteEdit(acl, ids, n);
  }

  lemma StepContents(s: State, b: map<nat, string>, e: Event, ok: Match -> bool)
    requires BoundState(s, b) && Enabled(s, e) && EventOk(e, ok)
    requires TiesPorts(ok) && RulesOk(s.candidate, ok) && RulesOk(s.running, ok)
    ensures RulesOk(Post(s, e).candidate, ok) && RulesOk(Post(s, e).running, ok)
  {
    hide Planned, Assigned, Uncached, TiesPorts;
    CandidateAfter(s, e);
    StepBinds(s, b, e);
    var n := Reached(e);
    if Ops(e) == [] {
      assert Ops(e)[..n] == [];
    } else if e.Steer? {
      var b' := BoundAfter(b, e);
      assert RulesBound(s.candidate, b');
      SteerContents(s.candidate, b', e.hops, e.items, e.ids, n, ok);
    } else {
      DeleteContents(s.candidate, e.ids, n, ok);
    }
  }

  // Over every run: if all calls steer flows with the property, every rule keeps it.
  lemma {:induction false} RunContents(s: State, es: seq<Event>, ok: Match -> bool)
    requires Initial(s) && IsRun(s, es) && forall m :: 0 <= m < |es| ==> EventOk(es[m], ok)
    requires TiesPorts(ok) && RulesOk(s.candidate, ok) && RulesOk(s.running, ok)
    ensures RulesOk(After(s, es).candidate, ok) && RulesOk(After(s, es).running, ok)
  {
    if es != [] {
      var before, e := es[..|es| - 1], es[|es| - 1];
      RunContents(s, before, ok);
      RunInvariant(s, before);
      var t := After(s, before);
      StepContents(t, Bound(s, before), e, ok);
      assert After(s, es) == Post(t, e);
    }
  }

  lemma DistinctIds(b: map<nat, string>, items: seq<SteerItem>, ids: seq<nat>, i: nat)
    requires i < |ids| <= |items| && Binds(b, items, ids)
    requires forall j, k :: 0 <= j < k < |items| ==> KeyAt(items, j) != KeyAt(items, k)
    ensures LastUse(ids, i, |ids|)
  {
  }

  // An accepted call whose items have distinct keys leaves in force exactly the rules it sent.
  lemma AcceptedRules(s: State, b: map<nat, string>, e: Event, ok: Match -> bool, i: nat)
    requires BoundState(s, b) && Enabled(s, e) && EventOk(e, ok) && TiesPorts(ok) && RulesOk(s.candidate, ok)
    requires e.Steer? && !Fails(e) && i < |e.items|
    requires forall j, k :: 0 <= j < k < |e.items| ==> KeyAt(e.items, j) != KeyAt(e.items, k)
    requires DEFAULT_RULE_ID !in e.ids
    ensures i < |e.ids| && e.ids[i] in Post(s, e).running
    ensures Post(s, e).running[e.ids[i]] == Sent(e.hops, e.items, i)
  {
    hide ApplyOps, Planned, Assigned, Uncached, TiesPorts, Sent, RulesBound, Post;
    StepBinds(s, b, e);
    var b' := BoundAfter(b, e);
    RulesStayBound(s.candidate, b, b');
    var n := |e.ids|;
    var acl' := ApplyOps(s.candidate, SteerOps(e.hops, e.items, e.ids)[..n]);
    SteerContents(s.candidate, b', e.hops, e.items, e.ids, n, ok);
    DistinctIds(b', e.items, e.ids, i);
    assert e.ids[i] in acl' && acl'[e.ids[i]] == Sent(e.hops, e.items, i);
    assert Ops(e)[..n] == Ops(e);
    PostIfSent(s, e);
  }
}
