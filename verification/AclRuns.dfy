/** What every run of steering calls keeps, whatever the device answers. */
module AclRuns {
  import opened AclModel

  // ---- Invariants ----

  // Ids are bound to keys: the cache, and both datastores but for the default rule, only ever hold an id
  // with the key it is bound to, and bound ids lie below the allocator.
  ghost predicate BoundState(s: State, b: map<nat, string>)
  {
    && (forall id :: id in s.cache ==> id in b && b[id] == s.cache[id])
    && RulesBound(s.candidate, b) && RulesBound(s.running, b)
    && (forall id :: id in b ==> id < s.nextId)
  }

  ghost predicate RulesBound(acl: Acl, b: map<nat, string>)
  {
    forall id :: id in acl && id != DEFAULT_RULE_ID ==> id in b && acl[id].flow.key == b[id]
  }

  // Cache, candidate and running agree on an id.
  ghost predicate AgreeOn(s: State, id: nat)
  {
    && (id in s.cache <==> id in s.running)
    && (id in s.candidate <==> id in s.running)
    && (id in s.running ==> s.candidate[id] == s.running[id])
  }

  ghost predicate Agree(s: State, dirty: set<nat>)
  {
    forall id :: id !in dirty && id != DEFAULT_RULE_ID ==> AgreeOn(s, id)
  }

  // A state the controller may start from: everything committed, cached and bound.
  ghost predicate Initial(s: State) { BoundState(s, s.cache) && Agree(s, {}) }

  lemma FlushedIsInitial()
    ensures Initial(FLUSHED)
  {
  }

  // ---- Choosing ids ----

  lemma {:induction false} UncachedGrows(cache: map<nat, string>, items: seq<SteerItem>, i: nat, j: nat)
    requires i < j <= |items| && KeyAt(items, i) !in cache.Values
    ensures Uncached(cache, items[..i]) < Uncached(cache, items[..j])
  {
    var n := j - 1;
    assert items[..j][..n] == items[..n];
    if i < n {
      UncachedGrows(cache, items, i, n);
    }
  }

  // Within one call, two items share an id only if they share their key.
  ghost predicate Consistent(items: seq<SteerItem>, ids: seq<nat>)
    requires |ids| <= |items|
  {
    forall i, j :: 0 <= i < j < |ids| && ids[i] == ids[j] ==> KeyAt(items, i) == KeyAt(items, j)
  }

  lemma PlanConsistent(s: State, b: map<nat, string>, items: seq<SteerItem>, ids: seq<nat>)
    requires BoundState(s, b) && Planned(s.cache, s.nextId, items, ids)
    ensures Consistent(items, ids)
  {
    forall i, j | 0 <= i < j < |ids| && ids[i] == ids[j] ensures KeyAt(items, i) == KeyAt(items, j) {
      if KeyAt(items, i) !in s.cache.Values && KeyAt(items, j) !in s.cache.Values {
        UncachedGrows(s.cache, items, i, j);
      }
    }
  }

  lemma {:induction false} AssignedAt(items: seq<SteerItem>, ids: seq<nat>)
    requires |ids| <= |items| && Consistent(items, ids)
    ensures forall id :: id in Assigned(items, ids) <==> id in ids
    ensures forall i :: 0 <= i < |ids| ==> Assigned(items, ids)[ids[i]] == KeyAt(items, i)
  {
    if ids != [] {
      var n := |ids| - 1;
      AssignedAt(items, ids[..n]);
      assert ids == ids[..n] + [ids[n]];
      forall i | 0 <= i < n ensures Assigned(items, ids)[ids[i]] == KeyAt(items, i) {
        assert ids[..n][i] == ids[i];
      }
    }
  }

  // What binding an event leaves: the old bindings and the ids the event chooses.
  function BoundAfter(b: map<nat, string>, e: Event): map<nat, string>
  {
    if e.Steer? && |e.ids| <= |e.items| then b + Assigned(e.items, e.ids) else b
  }

  ghost predicate Extends(b: map<nat, string>, c: map<nat, string>)
  {
    forall id :: id in b ==> id in c && c[id] == b[id]
  }

  // Every id chosen lies below the new allocator, and is either new or bound to the very key it is chosen
  // for.
  lemma PlanBinds(s: State, b: map<nat, string>, items: seq<SteerItem>, ids: seq<nat>)
    requires BoundState(s, b) && Planned(s.cache, s.nextId, items, ids)
    ensures forall i :: 0 <= i < |ids| ==>
      && ids[i] < s.nextId + RULE_ID_STEP * Uncached(s.cache, items[..|ids|])
      && (ids[i] in b ==> b[ids[i]] == KeyAt(items, i))
  {
    forall i | 0 <= i < |ids|
      ensures ids[i] < s.nextId + RULE_ID_STEP * Uncached(s.cache, items[..|ids|])
      ensures ids[i] in b ==> b[ids[i]] == KeyAt(items, i)
    {
      if KeyAt(items, i) !in s.cache.Values {
        UncachedGrows(s.cache, items, i, |ids|);
      }
    }
  }

  // The bindings after a step: old ones stay, the chosen ids are bound to the keys they are chosen for.
  ghost predicate Binds(b: map<nat, string>, items: seq<SteerItem>, ids: seq<nat>)
    requires |ids| <= |items|
  {
    forall i :: 0 <= i < |ids| ==> ids[i] in b && b[ids[i]] == KeyAt(items, i)
  }

  // The ids of a plan may be bound: within the plan and with earlier bindings they agree.
  ghost predicate Bindable(b: map<nat, string>, items: seq<SteerItem>, ids: seq<nat>)
    requires |ids| <= |items|
  {
    && Consistent(items, ids)
    && forall i :: 0 <= i < |ids| ==> (ids[i] in b ==> b[ids[i]] == KeyAt(items, i))
  }

  lemma AssignedBinds(b: map<nat, string>, items: seq<SteerItem>, ids: seq<nat>)
    requires |ids| <= |items| && Bindable(b, items, ids)
    ensures Extends(b, b + Assigned(items, ids)) && Binds(b + Assigned(items, ids), items, ids)
    ensures forall id :: id in Assigned(items, ids) <==> id in ids
  {
    AssignedAt(items, ids);
    forall id | id in b && id in ids ensures Assigned(items, ids)[id] == b[id] {
      var i :| 0 <= i < |ids| && ids[i] == id;
    }
  }

  lemma PlanBindable(s: State, b: map<nat, string>, items: seq<SteerItem>, ids: seq<nat>)
    requires BoundState(s, b) && Planned(s.cache, s.nextId, items, ids)
    ensures Bindable(b, items, ids)
  {
    PlanConsistent(s, b, items, ids);
    PlanBinds(s, b, items, ids);
  }

  // What a plan adds to the bindings.
  lemma PlanExtends(s: State, b: map<nat, string>, items: seq<SteerItem>, ids: seq<nat>)
    requires BoundState(s, b) && Planned(s.cache, s.nextId, items, ids)
    ensures var b' := b + Assigned(items, ids);
      && Extends(b, b') && Binds(b', items, ids)
      && forall id :: id in b' ==> id < s.nextId + RULE_ID_STEP * Uncached(s.cache, items[..|ids|])
    ensures forall id :: id in Assigned(items, ids) <==> id in ids
  {
    PlanBindable(s, b, items, ids);
    AssignedBinds(b, items, ids);
    PlanBinds(s, b, items, ids);
    forall id | id in ids
      ensures id < s.nextId + RULE_ID_STEP * Uncached(s.cache, items[..|ids|])
    {
      var i :| 0 <= i < |ids| && ids[i] == id;
    }
  }

  lemma StepBinds(s: State, b: map<nat, string>, e: Event)
    requires BoundState(s, b) && Enabled(s, e)
    ensures Extends(b, BoundAfter(b, e))
    ensures e.Steer? ==> Binds(BoundAfter(b, e), e.items, e.ids)
    ensures s.nextId <= NextIdAfter(s, e)
    ensures forall id :: id in BoundAfter(b, e) ==> id < NextIdAfter(s, e)
    ensures e.Steer? ==> forall id :: id in Assigned(e.items, e.ids) <==> id in e.ids
  {
    if e.Steer? {
      PlanExtends(s, b, e.items, e.ids);
    }
  }

  // ---- Editing ----

  // Untouched ids keep their rule.
  ghost predicate SameOutside(acl: Acl, acl': Acl, ids: seq<nat>)
  {
    forall id :: id !in ids ==> (id in acl' <==> id in acl) && (id in acl ==> acl'[id] == acl[id])
  }

  lemma MergeKeepsBound(acl: Acl, b: map<nat, string>, id: nat, config: RuleConfig)
    requires RulesBound(acl, b) && id in b && b[id] == config.flow.key
    ensures RulesBound(ApplyOp(acl, Merge(id, config)), b)
  {
  }

  lemma ApplyLast(acl: Acl, ops: seq<Op>, n: nat)
    requires 0 < n <= |ops|
    ensures ApplyOps(acl, ops[..n]) == ApplyOp(ApplyOps(acl, ops[..n - 1]), ops[n - 1])
  {
    assert ops[..n][..n - 1] == ops[..n - 1];
  }

  // The edit of a `Steer` touches the chosen ids only, and leaves a rule for each.
  lemma {:induction false} SteerTouches(acl: Acl, hops: Hops, items: seq<SteerItem>, ids: seq<nat>, n: nat)
    requires n <= |ids| <= |items|
    ensures SameOutside(acl, ApplyOps(acl, SteerOps(hops, items, ids)[..n]), ids[..n])
    ensures forall i :: 0 <= i < n ==> ids[i] in ApplyOps(acl, SteerOps(hops, items, ids)[..n])
  {
    var ops := SteerOps(hops, items, ids);
    if n == 0 {
      assert ops[..0] == [];
    } else {
      SteerTouches(acl, hops, items, ids, n - 1);
      ApplyLast(acl, ops, n);
      assert ids[..n] == ids[..n - 1] + [ids[n - 1]];
    }
  }

  // Every rule in it belongs to the key its id is bound to.
  lemma {:induction false} SteerEdit(acl: Acl, b: map<nat, string>, hops: Hops, items: seq<SteerItem>, ids: seq<nat>,
                                     n: nat)
    requires n <= |ids| <= |items| && RulesBound(acl, b) && Binds(b, items, ids)
    ensures RulesBound(ApplyOps(acl, SteerOps(hops, items, ids)[..n]), b)
  {
    var ops := SteerOps(hops, items, ids);
    if n == 0 {
      assert ops[..0] == [];
    } else {
      SteerEdit(acl, b, hops, items, ids, n - 1);
      ApplyLast(acl, ops, n);
      MergeKeepsBound(ApplyOps(acl, ops[..n - 1]), b, ids[n - 1], ops[n - 1].config);
    }
  }

  lemma {:induction false} DeleteEdit(acl: Acl, ids: seq<nat>, n: nat)
    requires n <= |ids|
    ensures ApplyOps(acl, DeleteOps(ids)[..n]) == acl - (set id | id in ids[..n])
  {
    var ops := DeleteOps(ids);
    if n == 0 {
      assert ops[..0] == [];
    } else {
      DeleteEdit(acl, ids, n - 1);
      assert ops[..n][..n - 1] == ops[..n - 1];
      assert ids[..n] == ids[..n - 1] + [ids[n - 1]];
    }
  }

  // ---- One step ----

  // Part of the call's edit, applied to a bound datastore.
  lemma EditKeepsBound(acl: Acl, b: map<nat, string>, e: Event, n: nat)
    requires e.Steer? ==> |e.ids| <= |e.items| && Binds(b, e.items, e.ids)
    requires RulesBound(acl, b) && n <= |Ops(e)|
    ensures var acl' := ApplyOps(acl, Ops(e)[..n]);
      && RulesBound(acl', b)
      && SameOutside(acl, acl', if Ops(e) == [] then [] else e.ids)
      && (Ops(e) != [] && n == |Ops(e)| ==> forall id :: id in e.ids ==> (id in acl' <==> e.Steer?))
  {
    if Ops(e) == [] {
      assert Ops(e)[..n] == [];
    } else if e.Steer? {
      SteerEdit(acl, b, e.hops, e.items, e.ids, n);
      SteerTouches(acl, e.hops, e.items, e.ids, n);
    } else {
      DeleteEdit(acl, e.ids, n);
    }
  }

  // How much of the edit reaches the candidate.
  function Reached(e: Event): (n: nat)
    ensures n <= |Ops(e)|
    ensures Commits(e) && e.outcome.EditError? ==> Prefix(Ops(e), e.outcome.applied) == Ops(e)[..n]
    ensures n < |Ops(e)| ==> Commits(e) && e.outcome.EditError?
  {
    assert Ops(e)[..|Ops(e)|] == Ops(e);
    if Commits(e) && e.outcome.EditError? && e.outcome.applied <= |Ops(e)| then e.outcome.applied else |Ops(e)|
  }

  lemma CandidateAfter(s: State, e: Event)
    ensures Post(s, e).candidate == ApplyOps(s.candidate, Ops(e)[..Reached(e)])
  {
    assert Ops(e)[..|Ops(e)|] == Ops(e);
  }

  // The parts of Post other than the candidate.
  lemma PostParts(s: State, e: Event)
    ensures Post(s, e).nextId == NextIdAfter(s, e)
    ensures Post(s, e).cache == if Commits(e) && e.outcome.Accepted? then CacheAfter(s, e) else s.cache
    ensures Post(s, e).running == if Commits(e) && e.outcome.Accepted? then Post(s, e).candidate else s.running
  {
    hide ApplyOps, CacheAfter, NextIdAfter, Ops, Commits;
  }

  lemma RulesStayBound(acl: Acl, b: map<nat, string>, c: map<nat, string>)
    requires RulesBound(acl, b) && Extends(b, c)
    ensures RulesBound(acl, c)
  {
  }

  lemma CacheStaysBound(s: State, b: map<nat, string>, e: Event)
    requires forall id :: id in s.cache ==> id in b && b[id] == s.cache[id]
    requires Extends(b, BoundAfter(b, e)) && (e.Steer? ==> |e.ids| <= |e.items|)
    ensures forall id :: id in CacheAfter(s, e) ==>
      id in BoundAfter(b, e) && BoundAfter(b, e)[id] == CacheAfter(s, e)[id]
  {
    hide Assigned;
  }

  lemma StepKeepsBound(s: State, b: map<nat, string>, e: Event)
    requires BoundState(s, b) && Enabled(s, e)
    ensures BoundState(Post(s, e), BoundAfter(b, e))
  {
    hide Post, RulesBound, BoundAfter, NextIdAfter, CacheAfter;
    StepBinds(s, b, e);
    RulesStayBound(s.candidate, b, BoundAfter(b, e));
    RulesStayBound(s.running, b, BoundAfter(b, e));
    EditKeepsBound(s.candidate, BoundAfter(b, e), e, Reached(e));
    CandidateAfter(s, e);
    CacheStaysBound(s, b, e);
    PostParts(s, e);
  }

  // What an edit did to an id decides whether the three still agree on it.
  lemma StaysAgreed(s: State, e: Event, id: nat)
    requires AgreeOn(s, id) && id !in Dirtied(e) && (e.Steer? ==> |e.ids| <= |e.items|)
    requires SameOutside(s.candidate, Post(s, e).candidate, if Ops(e) == [] then [] else e.ids)
    requires Ops(e) != [] && e.outcome.Accepted? && id in e.ids ==> (id in Post(s, e).candidate <==> e.Steer?)
    requires e.Steer? ==> (id in Assigned(e.items, e.ids) <==> id in e.ids)
    ensures AgreeOn(Post(s, e), id)
  {
    hide Post, Assigned;
    PostParts(s, e);
  }

  lemma StepKeepsAgreement(s: State, b: map<nat, string>, dirty: set<nat>, e: Event)
    requires BoundState(s, b) && Enabled(s, e) && Agree(s, dirty)
    ensures Agree(Post(s, e), dirty + Dirtied(e))
  {
    hide Post, AgreeOn, SameOutside, ApplyOps, Ops, Assigned, Planned;
    StepBinds(s, b, e);
    EditKeepsBound(s.candidate, BoundAfter(b, e), e, Reached(e));
    CandidateAfter(s, e);
    forall id | id !in dirty + Dirtied(e) && id != DEFAULT_RULE_ID
      ensures AgreeOn(Post(s, e), id)
    {
      assert AgreeOn(s, id);
      StaysAgreed(s, e, id);
    }
  }

  // ---- Runs ----

  // The main invariant, over every run and every mix of failures.
  lemma {:induction false} RunInvariant(s: State, es: seq<Event>)
    requires Initial(s) && IsRun(s, es)
    ensures BoundState(After(s, es), Bound(s, es))
    ensures Agree(After(s, es), Dirty(es))
  {
    if es != [] {
      var n := |es| - 1;
      RunInvariant(s, es[..n]);
      StepKeepsBound(After(s, es[..n]), Bound(s, es[..n]), es[n]);
      StepKeepsAgreement(After(s, es[..n]), Bound(s, es[..n]), Dirty(es[..n]), es[n]);
    }
  }
}
