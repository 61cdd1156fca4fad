/** When cache and device agree over a whole run: exactly when no call that fails after sending its edit
    leaves a trace in the candidate. */
module AclAgreement {
  import opened GoTypes
  import opened AclModel
  import opened AclRuns
  import opened AclTheorems
  import opened AclContents

  // The same rules, the default rule aside.
  ghost predicate SameRules(a: Acl, b: Acl)
  {
    forall id :: id != DEFAULT_RULE_ID ==> (id in a <==> id in b) && (id in a ==> a[id] == b[id])
  }

  // Cache and device say the same: nothing is left uncommitted, and the cache holds exactly the running
  // rules, each under its key; the default rule aside.
  ghost predicate Mirrors(t: State)
  {
    && SameRules(t.candidate, t.running)
    && t.cache.Keys - {DEFAULT_RULE_ID} == t.running.Keys - {DEFAULT_RULE_ID}
    && forall id :: id in t.cache && id != DEFAULT_RULE_ID ==>
         id in t.running && t.running[id].flow.key == t.cache[id]
  }

  lemma AgreeIsMirrors(t: State, b: map<nat, string>)
    requires BoundState(t, b)
    ensures Agree(t, {}) <==> Mirrors(t)
  {
    if Agree(t, {}) {
      AgreeMirrors(t, b);
    } else if Mirrors(t) {
      forall id | id != DEFAULT_RULE_ID
        ensures AgreeOn(t, id)
      {
        assert id in t.cache.Keys - {DEFAULT_RULE_ID} <==> id in t.running.Keys - {DEFAULT_RULE_ID};
      }
    }
  }

  lemma AgreeMirrors(t: State, b: map<nat, string>)
    requires BoundState(t, b) && Agree(t, {})
    ensures Mirrors(t)
  {
    forall id | id != DEFAULT_RULE_ID
      ensures (id in t.cache <==> id in t.running) && (id in t.candidate <==> id in t.running)
      ensures id in t.running ==> t.candidate[id] == t.running[id]
    {
      assert AgreeOn(t, id);
    }
  }

  // A call that commits and is not accepted leaves the candidate as it was.
  ghost predicate LeavesNoTrace(s: State, e: Event)
  {
    Commits(e) && e.outcome != Accepted ==> SameRules(s.candidate, Post(s, e).candidate)
  }

  lemma StepAgreesExactly(s: State, b: map<nat, string>, e: Event)
    requires BoundState(s, b) && Agree(s, {}) && Enabled(s, e)
    ensures Agree(Post(s, e), {}) <==> LeavesNoTrace(s, e)
  {
    hide Post, Enabled, BoundState;
    PostParts(s, e);
    if !Commits(e) || e.outcome.Accepted? {
      StepKeepsAgreement(s, b, {}, e);
      assert {} + Dirtied(e) == {};
    } else {
      SameCacheAgrees(s, Post(s, e));
    }
  }

  lemma SameCacheAgrees(s: State, t: State)
    requires Agree(s, {}) && t.cache == s.cache && t.running == s.running
    ensures Agree(t, {}) <==> SameRules(s.candidate, t.candidate)
  {
    forall id | id != DEFAULT_RULE_ID
      ensures AgreeOn(t, id) <==>
        (id in s.candidate <==> id in t.candidate) && (id in s.candidate ==> s.candidate[id] == t.candidate[id])
    {
      assert AgreeOn(s, id);
    }
  }

  // ---- Over a run ----

  ghost predicate MirrorsAt(s: State, es: seq<Event>, m: nat)
    requires m <= |es|
  {
    Mirrors(After(s, es[..m]))
  }

  ghost predicate NoTraceAt(s: State, es: seq<Event>, m: nat)
    requires m < |es|
  {
    LeavesNoTrace(After(s, es[..m]), es[m])
  }

  ghost predicate AlwaysMirrors(s: State, es: seq<Event>) { forall m :: 0 <= m <= |es| ==> MirrorsAt(s, es, m) }

  ghost predicate NeverATrace(s: State, es: seq<Event>) { forall m :: 0 <= m < |es| ==> NoTraceAt(s, es, m) }

  lemma MirrorsSplit(s: State, es: seq<Event>)
    requires es != []
    ensures AlwaysMirrors(s, es) <==> AlwaysMirrors(s, es[..|es| - 1]) && Mirrors(After(s, es))
  {
    hide Mirrors, After;
    var n := |es| - 1;
    var before := es[..n];
    forall m | 0 <= m <= n
      ensures MirrorsAt(s, before, m) <==> MirrorsAt(s, es, m)
    {
      assert before[..m] == es[..m];
    }
    assert es[..|es|] == es;
    assert MirrorsAt(s, es, |es|) <==> Mirrors(After(s, es));
    if AlwaysMirrors(s, before) && Mirrors(After(s, es)) {
      forall m | 0 <= m <= |es|
        ensures MirrorsAt(s, es, m)
      {
        assert m <= n ==> MirrorsAt(s, before, m);
      }
    }
  }

  lemma TraceSplit(s: State, es: seq<Event>)
    requires es != []
    ensures var n := |es| - 1;
      NeverATrace(s, es) <==> NeverATrace(s, es[..n]) && LeavesNoTrace(After(s, es[..n]), es[n])
  {
    hide LeavesNoTrace, After;
    var n := |es| - 1;
    var before := es[..n];
    forall m | 0 <= m < n
      ensures NoTraceAt(s, before, m) <==> NoTraceAt(s, es, m)
    {
      assert before[..m] == es[..m] && before[m] == es[m];
    }
    assert NoTraceAt(s, es, n) <==> LeavesNoTrace(After(s, before), es[n]);
    if NeverATrace(s, before) && NoTraceAt(s, es, n) {
      forall m | 0 <= m < |es|
        ensures NoTraceAt(s, es, m)
      {
        assert m < n ==> NoTraceAt(s, before, m);
      }
    }
  }

  lemma StepMirrorsExactly(s: State, es: seq<Event>)
    requires Initial(s) && IsRun(s, es) && es != [] && Mirrors(After(s, es[..|es| - 1]))
    ensures var n := |es| - 1; Mirrors(After(s, es)) <==> LeavesNoTrace(After(s, es[..n]), es[n])
  {
    hide Mirrors, LeavesNoTrace, Agree, Post;
    var n := |es| - 1;
    RunInvariant(s, es[..n]);
    RunInvariant(s, es);
    var t, b := After(s, es[..n]), Bound(s, es[..n]);
    AgreeIsMirrors(t, b);
    AgreeIsMirrors(After(s, es), Bound(s, es));
    StepAgreesExactly(t, b, es[n]);
  }

  // Cache and device agree at every moment of a run exactly when no call that commits without being
  // accepted has left a trace in the candidate.
  lemma {:induction false} MirrorsExactly(s: State, es: seq<Event>)
    requires Initial(s) && IsRun(s, es)
    ensures AlwaysMirrors(s, es) <==> NeverATrace(s, es)
  {
    hide Mirrors, LeavesNoTrace;
    if es == [] {
      assert es[..0] == [];
      AgreeIsMirrors(s, s.cache);
      assert MirrorsAt(s, es, 0);
    } else {
      var n := |es| - 1;
      MirrorsExactly(s, es[..n]);
      MirrorsSplit(s, es);
      TraceSplit(s, es);
      if AlwaysMirrors(s, es[..n]) {
        assert es[..n][..n] == es[..n];
        assert MirrorsAt(s, es[..n], n);
        StepMirrorsExactly(s, es);
      }
    }
  }

  // ---- Which failing calls leave no trace ----

  lemma TunnelLeavesNoTrace(s: State, e: Event)
    requires e.Tunnel?
    ensures LeavesNoTrace(s, e)
  {
    CandidateAfter(s, e);
    assert Ops(e)[..Reached(e)] == [];
  }

  // A removal leaves none exactly when the device stops before its first deletion.
  lemma RemoveLeavesNoTraceExactly(s: State, e: Event)
    requires Agree(s, {}) && DEFAULT_RULE_ID !in s.cache
    requires Enabled(s, e) && e.RemoveSteer? && Commits(e) && e.outcome != Accepted
    ensures LeavesNoTrace(s, e) <==> e.outcome == EditError(0)
  {
    hide Post;
    var n := Reached(e);
    CandidateAfter(s, e);
    DeleteEdit(s.candidate, e.ids, n);
    if n == 0 {
      assert e.ids[..0] == [];
    } else {
      assert e.ids[0] in e.ids[..n] && AgreeOn(s, e.ids[0]);
      assert e.ids[0] in s.candidate;
    }
  }

  // The last of the first n positions that hold the id.
  lemma {:induction false} LastPosition(ids: seq<nat>, n: nat, id: nat) returns (i: nat)
    requires n <= |ids| && id in ids[..n]
    ensures i < n && ids[i] == id && LastUse(ids, i, n)
  {
    if ids[n - 1] == id {
      i := n - 1;
    } else {
      assert ids[..n] == ids[..n - 1] + [ids[n - 1]];
      i := LastPosition(ids, n - 1, id);
    }
  }

  // The candidate held every rule that the device applied before it stopped.
  ghost predicate AlreadyStored(s: State, e: Event)
    requires e.Steer? && |e.ids| == |e.items|
  {
    Stored(s.candidate, e.hops, e.items, e.ids, Reached(e))
  }

  // A call steering flows leaves none exactly when what it applied was there before.
  lemma SteerLeavesNoTraceExactly(s: State, b: map<nat, string>, e: Event, ok: Match -> bool)
    requires BoundState(s, b) && Enabled(s, e) && e.Steer? && Commits(e) && e.outcome != Accepted
    requires TiesPorts(ok) && EventOk(e, ok) && RulesOk(s.candidate, ok)
    ensures |e.ids| == |e.items| && (LeavesNoTrace(s, e) <==> AlreadyStored(s, e))
  {
    hide Post, Planned, Assigned, TiesPorts, RulesBound, ApplyOps;
    var n := Reached(e);
    CandidateAfter(s, e);
    StepBinds(s, b, e);
    var b' := BoundAfter(b, e);
    RulesStayBound(s.candidate, b, b');
    SteerContents(s.candidate, b', e.hops, e.items, e.ids, n, ok);
    SteerTouches(s.candidate, e.hops, e.items, e.ids, n);
    StoredExactly(s.candidate, Post(s, e).candidate, e.hops, e.items, e.ids, n);
  }

  lemma StoredExactly(acl: Acl, acl': Acl, hops: Hops, items: seq<SteerItem>, ids: seq<nat>, n: nat)
    requires n <= |ids| <= |items| && Stored(acl', hops, items, ids, n) && SameOutside(acl, acl', ids[..n])
    ensures SameRules(acl, acl') <==> Stored(acl, hops, items, ids, n)
  {
    hide Sent, LastUse;
    if Stored(acl, hops, items, ids, n) {
      forall id | id != DEFAULT_RULE_ID
        ensures (id in acl <==> id in acl') && (id in acl ==> acl[id] == acl'[id])
      {
        if id in ids[..n] {
          var i := LastPosition(ids, n, id);
        }
      }
    }
  }

  // ---- What a trace does ----

  // The edit of a refused commit stays in the candidate, and the next accepted commit, here of a tunnel
  // call, puts it into force behind the cache's back.
  lemma RefusedCommitSurfaces(s: State, hops: Hops, item: SteerItem)
    requires Initial(s) && KnownHop(hops, item) && item.flow.key !in s.cache.Values
    ensures var es := [Steer(hops, [item], [s.nextId], CommitError), Tunnel(Accepted)];
      && IsRun(s, es)
      && s.nextId in After(s, es).running && After(s, es).running[s.nextId].flow.key == item.flow.key
      && After(s, es).cache == s.cache && s.nextId !in s.cache
  {
    var e, t := Steer(hops, [item], [s.nextId], CommitError), Tunnel(Accepted);
    RefusedSteer(s, hops, item);
    TwoSteps(s, e, t);
    assert Post(Post(s, e), t).running == ApplyOps(Post(s, e).candidate, []);
  }

  lemma RefusedSteer(s: State, hops: Hops, item: SteerItem)
    requires Initial(s) && KnownHop(hops, item) && item.flow.key !in s.cache.Values
    ensures var e := Steer(hops, [item], [s.nextId], CommitError);
      && Enabled(s, e)
      && Post(s, e).cache == s.cache
      && s.nextId in Post(s, e).candidate && Post(s, e).candidate[s.nextId].flow.key == item.flow.key
  {
    var e := Steer(hops, [item], [s.nextId], CommitError);
    assert [item][..0] == [];
    assert KnownPrefix(hops, [item][1..]) == 0;
    assert KnownPrefix(hops, [item]) == 1;
    var rule := RuleConfig(item.flow, Some(HopOf(hops, item)), "allow");
    assert Ops(e) == [Merge(s.nextId, rule)];
    SingleOp(s.candidate, Merge(s.nextId, rule));
  }
}
