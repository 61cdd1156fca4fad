/** Consequences for whole runs: an id means one flow for ever, the default rule survives, and what
    steering and unsteering undo. */
module AclTheorems {
  import opened GoTypes
  import opened AclModel
  import opened AclRuns

  // ---- An id belongs to one key for ever ----

  // Some part of the state gives id the key.
  predicate Gives(s: State, id: nat, key: string)
  {
    || (id in s.cache && s.cache[id] == key)
    || (id in s.candidate && s.candidate[id].flow.key == key)
    || (id in s.running && s.running[id].flow.key == key)
  }

  lemma {:induction false} PrefixIsRun(s: State, es: seq<Event>, m: nat)
    requires IsRun(s, es) && m <= |es|
    ensures IsRun(s, es[..m])
  {
    if m == |es| {
      assert es[..m] == es;
    } else {
      var before := es[..|es| - 1];
      assert before[..m] == es[..m];
      PrefixIsRun(s, before, m);
    }
  }

  lemma {:induction false} PrefixRun(s: State, es: seq<Event>, m: nat)
    requires Initial(s) && IsRun(s, es) && m <= |es|
    ensures IsRun(s, es[..m])
    ensures Extends(Bound(s, es[..m]), Bound(s, es))
    ensures After(s, es[..m]).nextId <= After(s, es).nextId
  {
    PrefixIsRun(s, es, m);
    if m == |es| {
      assert es[..m] == es;
    } else {
      var before, e := es[..|es| - 1], es[|es| - 1];
      assert before[..m] == es[..m];
      PrefixRun(s, before, m);
      LastStep(s, es);
    }
  }

  lemma NextIdOfPost(s: State, e: Event)
    ensures Post(s, e).nextId == NextIdAfter(s, e)
  {
  }

  lemma LastStep(s: State, es: seq<Event>)
    requires Initial(s) && IsRun(s, es) && es != []
    ensures Extends(Bound(s, es[..|es| - 1]), Bound(s, es))
    ensures After(s, es[..|es| - 1]).nextId <= After(s, es).nextId
  {
    var before, e := es[..|es| - 1], es[|es| - 1];
    RunInvariant(s, before);
    var t, b := After(s, before), Bound(s, before);
    StepBinds(t, b, e);
    NextIdOfPost(t, e);
    assert After(s, es) == Post(t, e) && Bound(s, es) == BoundAfter(b, e);
  }

  lemma GivenIsBound(s: State, es: seq<Event>, m: nat, id: nat, key: string)
    requires Initial(s) && IsRun(s, es) && m <= |es|
    requires id != DEFAULT_RULE_ID && Gives(After(s, es[..m]), id, key)
    ensures id in Bound(s, es) && Bound(s, es)[id] == key && id < After(s, es[..m]).nextId
  {
    PrefixRun(s, es, m);
    RunInvariant(s, es[..m]);
  }

  lemma ChosenIsBound(s: State, es: seq<Event>, m: nat, i: nat)
    requires Initial(s) && IsRun(s, es) && m < |es| && es[m].Steer? && i < |es[m].ids|
    ensures i < |es[m].items|
    ensures es[m].ids[i] in Bound(s, es) && Bound(s, es)[es[m].ids[i]] == KeyAt(es[m].items, i)
  {
    PrefixRun(s, es, m + 1);
    var before := es[..m + 1][..m];
    assert before == es[..m];
    RunInvariant(s, before);
    StepBinds(After(s, before), Bound(s, before), es[m]);
  }

  // Wherever and whenever in a run an id is given a key, in the cache, the candidate or the running
  // datastore, it is the same key: across removals, early returns, failed edits and failed commits.
  lemma OneKeyPerId(s: State, es: seq<Event>, m: nat, n: nat, id: nat, key: string, key': string)
    requires Initial(s) && IsRun(s, es) && m <= |es| && n <= |es| && id != DEFAULT_RULE_ID
    requires Gives(After(s, es[..m]), id, key) && Gives(After(s, es[..n]), id, key')
    ensures key == key'
  {
    GivenIsBound(s, es, m, id, key);
    GivenIsBound(s, es, n, id, key');
  }

  // The same for the choices of the calls: two calls of a run, or two items of one call, that choose the
  // same id choose it for the same key; and it is the key the id already had at the start.
  lemma ChoicesNeverReuse(s: State, es: seq<Event>, m: nat, n: nat, i: nat, j: nat)
    requires Initial(s) && IsRun(s, es) && m < |es| && n < |es|
    requires es[m].Steer? && es[n].Steer? && i < |es[m].ids| && j < |es[n].ids|
    requires es[m].ids[i] == es[n].ids[j]
    ensures i < |es[m].items| && j < |es[n].items| && KeyAt(es[m].items, i) == KeyAt(es[n].items, j)
    ensures es[m].ids[i] in s.cache ==> s.cache[es[m].ids[i]] == KeyAt(es[m].items, i)
  {
    ChosenIsBound(s, es, m, i);
    ChosenIsBound(s, es, n, j);
    PrefixRun(s, es, 0);
    assert es[..0] == [];
  }

  // The allocator never moves back and stays above every id in use.
  lemma AllocatorAhead(s: State, es: seq<Event>, m: nat, id: nat)
    requires Initial(s) && IsRun(s, es) && m <= |es| && id != DEFAULT_RULE_ID
    requires id in After(s, es[..m]).cache || id in After(s, es[..m]).candidate || id in After(s, es[..m]).running
    ensures id < After(s, es[..m]).nextId <= After(s, es).nextId
  {
    PrefixRun(s, es, m);
    RunInvariant(s, es[..m]);
  }

  // ---- Agreement ----

  // Cache and device agree, in membership and in key, on every id that no failed call has edited.
  lemma CacheMatchesDevice(s: State, es: seq<Event>, id: nat)
    requires Initial(s) && IsRun(s, es) && id !in Dirty(es) && id != DEFAULT_RULE_ID
    ensures var t := After(s, es);
      && AgreeOn(t, id)
      && (id in t.cache ==> t.running[id].flow.key == t.cache[id])
  {
    RunInvariant(s, es);
  }

  lemma TwoSteps(s: State, e: Event, f: Event)
    ensures IsRun(s, [e, f]) <==> Enabled(s, e) && Enabled(Post(s, e), f)
    ensures After(s, [e, f]) == Post(Post(s, e), f)
  {
    var es := [e, f];
    assert es[..1] == [e] && [e][..0] == [];
    assert IsRun(s, [e]) <==> Enabled(s, e);
    assert After(s, es[..1]) == Post(s, e);
  }

  lemma SingleOp(acl: Acl, op: Op)
    ensures ApplyOps(acl, [op]) == ApplyOp(acl, op)
  {
    assert [op][..0] == [];
  }

  // ---- The default rule ----

  // The allocator steps past the id of the default rule, and the cache does not hold it.
  predicate Sheltered(s: State) { s.nextId % RULE_ID_STEP == 0 && DEFAULT_RULE_ID !in s.cache }

  function Lookup(acl: Acl, id: nat): Option<RuleConfig> { if id in acl then Some(acl[id]) else None }

  // No call chooses it or deletes it.
  lemma StepSheltered(s: State, e: Event)
    requires Enabled(s, e) && Sheltered(s)
    ensures Sheltered(Post(s, e)) && (!e.Tunnel? ==> DEFAULT_RULE_ID !in e.ids)
    ensures e.Steer? ==> DEFAULT_RULE_ID !in Assigned(e.items, e.ids)
  {
    hide Post, Uncached;
    PostParts(s, e);
    assert DEFAULT_RULE_ID % RULE_ID_STEP == 4;
    if e.Steer? {
      forall i | 0 <= i < |e.ids|
        ensures e.ids[i] != DEFAULT_RULE_ID
      {
        MultipleOfTen(s.nextId, Uncached(s.cache, e.items[..i]));
      }
      MultipleOfTen(s.nextId, Uncached(s.cache, e.items[..|e.ids|]));
      AssignedFrom(e.items, e.ids);
    }
  }

  lemma MultipleOfTen(n: nat, k: nat)
    requires n % RULE_ID_STEP == 0
    ensures (n + RULE_ID_STEP * k) % RULE_ID_STEP == 0
  {
  }

  lemma {:induction false} AssignedFrom(items: seq<SteerItem>, ids: seq<nat>)
    requires |ids| <= |items|
    ensures forall id :: id in Assigned(items, ids) ==> id in ids
  {
    if ids != [] {
      AssignedFrom(items, ids[..|ids| - 1]);
    }
  }

  lemma EditTouches(acl: Acl, e: Event, n: nat)
    requires n <= |Ops(e)| && (e.Steer? ==> |e.ids| <= |e.items|)
    ensures SameOutside(acl, ApplyOps(acl, Ops(e)[..n]), if e.Tunnel? then [] else e.ids)
  {
    if Ops(e) == [] {
      assert Ops(e)[..n] == [];
    } else if e.Steer? {
      SteerTouches(acl, e.hops, e.items, e.ids, n);
    } else {
      DeleteEdit(acl, e.ids, n);
    }
  }

  lemma StepKeepsDefault(s: State, e: Event)
    requires Enabled(s, e) && Sheltered(s)
    ensures Lookup(Post(s, e).candidate, DEFAULT_RULE_ID) == Lookup(s.candidate, DEFAULT_RULE_ID)
    ensures Post(s, e).running == s.running || Post(s, e).running == Post(s, e).candidate
  {
    hide Post, ApplyOps;
    StepSheltered(s, e);
    EditTouches(s.candidate, e, Reached(e));
    CandidateAfter(s, e);
    PostParts(s, e);
  }

  // Starting from a multiple of ten, no run hands out the default rule's id, and none of the calls
  // touches the rule: the candidate keeps it, and running has its own or the candidate's.
  lemma {:induction false} DefaultRuleSurvives(s: State, es: seq<Event>)
    requires IsRun(s, es) && Sheltered(s)
    ensures var t := After(s, es);
      && Sheltered(t) && DEFAULT_RULE_ID !in Bound(s, es)
      && Lookup(t.candidate, DEFAULT_RULE_ID) == Lookup(s.candidate, DEFAULT_RULE_ID)
      && (Lookup(t.running, DEFAULT_RULE_ID) == Lookup(s.running, DEFAULT_RULE_ID)
          || Lookup(t.running, DEFAULT_RULE_ID) == Lookup(s.candidate, DEFAULT_RULE_ID))
  {
    if es != [] {
      hide Post, Enabled;
      var before, e := es[..|es| - 1], es[|es| - 1];
      DefaultRuleSurvives(s, before);
      StepSheltered(After(s, before), e);
      StepKeepsDefault(After(s, before), e);
    }
  }

  // Which runs hand it out: exactly those that start a multiple of ten below it and get past it.
  lemma DefaultIdHandedOutExactly(s: State, es: seq<Event>)
    requires IsRun(s, es)
    ensures DEFAULT_RULE_ID in AllFreshIds(s, es)
       <==> (s.nextId <= DEFAULT_RULE_ID < After(s, es).nextId && (DEFAULT_RULE_ID - s.nextId) % RULE_ID_STEP == 0)
  {
    hide After, AllFreshIds, IsRun;
    FreshIdsInOrder(s, es);
    InProgression(AllFreshIds(s, es), s.nextId, DEFAULT_RULE_ID);
  }

  lemma InProgression(all: seq<nat>, first: nat, x: nat)
    requires forall k :: 0 <= k < |all| ==> all[k] == first + RULE_ID_STEP * k
    ensures x in all <==> first <= x < first + RULE_ID_STEP * |all| && (x - first) % RULE_ID_STEP == 0
  {
    if first <= x < first + RULE_ID_STEP * |all| && (x - first) % RULE_ID_STEP == 0 {
      assert all[(x - first) / RULE_ID_STEP] == x;
    }
  }

  // ---- Fresh ids ----

  // The fresh ids a call takes, in order.
  function FreshIds(cache: map<nat, string>, items: seq<SteerItem>, ids: seq<nat>): seq<nat>
    requires |ids| <= |items|
  {
    if ids == [] then []
    else
      var n := |ids| - 1;
      FreshIds(cache, items, ids[..n]) + if KeyAt(items, n) in cache.Values then [] else [ids[n]]
  }

  function AllFreshIds(s: State, es: seq<Event>): seq<nat>
  {
    if es == [] then []
    else
      var before, e := es[..|es| - 1], es[|es| - 1];
      AllFreshIds(s, before) + FreshOf(After(s, before), e)
  }

  lemma {:induction false} FreshIdsCount(cache: map<nat, string>, nextId: nat, items: seq<SteerItem>, ids: seq<nat>)
    requires Planned(cache, nextId, items, ids)
    ensures FreshIds(cache, items, ids)
         == seq(Uncached(cache, items[..|ids|]), k requires 0 <= k => nextId + RULE_ID_STEP * k)
  {
    if ids != [] {
      var n := |ids| - 1;
      FreshIdsCount(cache, nextId, items, ids[..n]);
      assert items[..|ids|][..n] == items[..n];
    }
  }

  lemma {:induction false} FreshIdsInOrder(s: State, es: seq<Event>)
    requires IsRun(s, es)
    ensures After(s, es).nextId == s.nextId + RULE_ID_STEP * |AllFreshIds(s, es)|
    ensures forall k :: 0 <= k < |AllFreshIds(s, es)| ==> AllFreshIds(s, es)[k] == s.nextId + RULE_ID_STEP * k
  {
    if es != [] {
      var before, e := es[..|es| - 1], es[|es| - 1];
      FreshIdsInOrder(s, before);
      var t := After(s, before);
      FreshStep(t, e);
      var ids, all := AllFreshIds(s, before), AllFreshIds(s, es);
      assert all == ids + FreshOf(t, e);
      assert After(s, es) == Post(t, e);
    }
  }

  function FreshOf(t: State, e: Event): seq<nat>
  {
    if e.Steer? && |e.ids| <= |e.items| then FreshIds(t.cache, e.items, e.ids) else []
  }

  lemma FreshStep(t: State, e: Event)
    requires Enabled(t, e)
    ensures Post(t, e).nextId == t.nextId + RULE_ID_STEP * |FreshOf(t, e)|
    ensures forall k :: 0 <= k < |FreshOf(t, e)| ==> FreshOf(t, e)[k] == t.nextId + RULE_ID_STEP * k
  {
    NextIdOfPost(t, e);
    if e.Steer? {
      FreshIdsCount(t.cache, t.nextId, e.items, e.ids);
    }
  }

  // From a flushed device exactly the first 6543 fresh ids of a run lie below the default rule.
  lemma FirstFreshIdsPrecedeDefault(es: seq<Event>, k: nat)
    requires IsRun(FLUSHED, es) && k < |AllFreshIds(FLUSHED, es)|
    ensures AllFreshIds(FLUSHED, es)[k] == 10 * (k + 1)
    ensures AllFreshIds(FLUSHED, es)[k] < DEFAULT_RULE_ID <==> k < 6543
  {
    FreshIdsInOrder(FLUSHED, es);
  }

  // ---- Steering and unsteering ----

  function KeySet(items: seq<SteerItem>): set<string> { set i | 0 <= i < |items| :: KeyAt(items, i) }

  // An accepted `Steer`: what it leaves in the cache.
  lemma SteerCaches(s: State, b: map<nat, string>, e: Event)
    requires BoundState(s, b) && Enabled(s, e) && e.Steer? && |e.ids| == |e.items|
    ensures forall id :: id in CacheAfter(s, e) <==> id in s.cache || id in e.ids
    ensures forall id :: id in s.cache ==> CacheAfter(s, e)[id] == s.cache[id]
    ensures forall i :: 0 <= i < |e.ids| ==> CacheAfter(s, e)[e.ids[i]] == KeyAt(e.items, i)
  {
    PlanConsistent(s, b, e.items, e.ids);
    AssignedAt(e.items, e.ids);
    PlanBinds(s, b, e.items, e.ids);
  }

  // The ids a removal takes are those cached for the removed keys.
  lemma RemovedIds(t: State, r: Event, keys: set<string>)
    requires Enabled(t, r) && r.RemoveSteer? && (set k | k in r.keys) == keys
    ensures forall id :: id in r.ids <==> id in t.cache && t.cache[id] in keys
  {
    forall id ensures id in r.ids <==> id in t.cache && t.cache[id] in keys {
      if id in t.cache && t.cache[id] in keys {
        assert t.cache[id] in r.keys;
      }
    }
  }

  lemma AcceptedSends(e: Event)
    requires !Fails(e) && (e.Steer? ==> e.items != []) && (e.RemoveSteer? ==> e.ids != [])
    requires e.Steer? ==> |e.ids| <= |e.items|
    ensures Commits(e) && e.outcome.Accepted?
  {
  }

  // Steering flows and then removing them leaves the cache without exactly those flows.
  lemma SteerThenRemoveCache(s: State, b: map<nat, string>, e: Event, r: Event)
    requires BoundState(s, b) && Enabled(s, e) && e.Steer? && e.items != [] && !Fails(e)
    requires Enabled(Post(s, e), r) && r.RemoveSteer? && !Fails(r) && (set k | k in r.keys) == KeySet(e.items)
    ensures var t := Post(Post(s, e), r);
      && (forall id :: id in t.cache <==> id in s.cache && s.cache[id] !in KeySet(e.items))
      && (forall id :: id in t.cache ==> t.cache[id] == s.cache[id])
  {
    hide Post, Assigned, Planned, Uncached;
    var s1 := Post(s, e);
    SteerCaches(s, b, e);
    RemovedIds(s1, r, KeySet(e.items));
    PostParts(s, e);
    PostParts(s1, r);
    AcceptedSends(e);
    forall i | 0 <= i < |e.ids| ensures e.ids[i] in r.ids {
      assert KeyAt(e.items, i) in KeySet(e.items);
    }
    assert e.ids[0] in r.ids;
    AcceptedSends(r);
  }

  // If none of the flows was steered before and the candidate was committed, removing them again restores
  // the cache, and both datastores exactly unless the call was handed the default rule's id.
  lemma SteerThenRemoveRestores(s: State, b: map<nat, string>, e: Event, r: Event)
    requires BoundState(s, b) && s.candidate == s.running
    requires Enabled(s, e) && e.Steer? && e.items != [] && !Fails(e)
    requires Enabled(Post(s, e), r) && r.RemoveSteer? && !Fails(r) && (set k | k in r.keys) == KeySet(e.items)
    requires forall i :: 0 <= i < |e.items| ==> KeyAt(e.items, i) !in s.cache.Values
    ensures var t := Post(Post(s, e), r);
      && t.cache == s.cache
      && ((t.candidate == s.candidate && t.running == s.running) <==>
            (DEFAULT_RULE_ID !in e.ids || DEFAULT_RULE_ID !in s.candidate))
  {
    hide ApplyOps, Planned, Assigned, Uncached;
    var s1 := Post(s, e);
    var t := Post(s1, r);
    SteerThenRemoveCache(s, b, e, r);
    forall id | id in s.cache ensures s.cache[id] !in KeySet(e.items) {
      assert s.cache[id] in s.cache.Values;
    }
    assert t.cache == s.cache;
    FreshIdsRemoved(s, b, e, r);
    FreshIdsUnused(s, b, e);
    EditsCancel(s.candidate, e, r);
    assert e.ids[0] in r.ids;
    assert t.running == t.candidate == ApplyOps(s1.candidate, Ops(r));
    assert s.candidate - (set id | id in e.ids) == s.candidate <==> forall id :: id in e.ids ==> id !in s.candidate;
  }

  lemma EditsCancel(acl: Acl, e: Event, r: Event)
    requires e.Steer? && |e.ids| == |e.items| && r.RemoveSteer?
    requires forall id :: id in r.ids <==> id in e.ids
    ensures ApplyOps(ApplyOps(acl, Ops(e)), Ops(r)) == acl - (set id | id in e.ids)
  {
    assert Ops(e)[..|Ops(e)|] == Ops(e) && Ops(r)[..|Ops(r)|] == Ops(r);
    assert e.ids[..|e.ids|] == e.ids && r.ids[..|r.ids|] == r.ids;
    SteerTouches(acl, e.hops, e.items, e.ids, |e.ids|);
    DeleteEdit(ApplyOps(acl, Ops(e)), r.ids, |r.ids|);
    assert (set id | id in r.ids) == (set id | id in e.ids);
  }

  lemma FreshIdsRemoved(s: State, b: map<nat, string>, e: Event, r: Event)
    requires BoundState(s, b)
    requires Enabled(s, e) && e.Steer? && e.items != [] && !Fails(e)
    requires Enabled(Post(s, e), r) && r.RemoveSteer? && (set k | k in r.keys) == KeySet(e.items)
    requires forall i :: 0 <= i < |e.items| ==> KeyAt(e.items, i) !in s.cache.Values
    ensures forall id :: id in r.ids <==> id in e.ids
  {
    hide Post, Assigned, Planned, Uncached;
    var s1 := Post(s, e);
    SteerCaches(s, b, e);
    RemovedIds(s1, r, KeySet(e.items));
    PostParts(s, e);
    AcceptedSends(e);
    forall id | id in s.cache ensures s.cache[id] !in KeySet(e.items) {
      assert s.cache[id] in s.cache.Values;
    }
    forall i | 0 <= i < |e.ids| ensures s1.cache[e.ids[i]] in KeySet(e.items) {
      assert KeyAt(e.items, i) in KeySet(e.items);
    }
  }

  lemma FreshIdsUnused(s: State, b: map<nat, string>, e: Event)
    requires BoundState(s, b) && Enabled(s, e) && e.Steer?
    requires forall i :: 0 <= i < |e.items| ==> KeyAt(e.items, i) !in s.cache.Values
    ensures forall id :: id in e.ids && id != DEFAULT_RULE_ID ==> id !in s.candidate
  {
    forall i | 0 <= i < |e.ids| && e.ids[i] != DEFAULT_RULE_ID ensures e.ids[i] !in s.candidate {
      assert e.ids[i] >= s.nextId;
    }
  }

  // ---- The reported cache size ----

  ghost predicate Injective(cache: map<nat, string>)
  {
    forall i, j :: i in cache && j in cache && cache[i] == cache[j] ==> i == j
  }

  // No key without a cached rule is listed twice in one call.
  predicate NoFreshRepeat(s: State, e: Event)
  {
    e.Steer? ==> forall i, j :: 0 <= i < j < |e.items| && KeyAt(e.items, i) == KeyAt(e.items, j) ==>
                   KeyAt(e.items, i) in s.cache.Values
  }

  lemma SameIdForKey(s: State, e: Event, c: map<nat, string>, x: nat, y: nat)
    requires Enabled(s, e) && e.Steer? && |e.ids| == |e.items| && NoFreshRepeat(s, e) && Injective(s.cache)
    requires forall id :: id in c <==> id in s.cache || id in e.ids
    requires forall id :: id in s.cache ==> c[id] == s.cache[id]
    requires forall i :: 0 <= i < |e.ids| ==> c[e.ids[i]] == KeyAt(e.items, i)
    requires x in c && y in c && c[x] == c[y]
    ensures x == y
  {
    // A cached key has one id; an uncached one has one position in the call.
    if c[x] in s.cache.Values {
      CachedKeyKeepsId(s, e, c, x);
      CachedKeyKeepsId(s, e, c, y);
    } else {
      assert x !in s.cache && y !in s.cache;
      var i :| 0 <= i < |e.ids| && e.ids[i] == x;
      var j :| 0 <= j < |e.ids| && e.ids[j] == y;
      assert KeyAt(e.items, i) == KeyAt(e.items, j) == c[x];
      assert i == j;
    }
  }

  lemma CachedKeyKeepsId(s: State, e: Event, c: map<nat, string>, x: nat)
    requires Enabled(s, e) && e.Steer? && |e.ids| == |e.items|
    requires x in s.cache || x in e.ids
    requires x in s.cache ==> x in c && c[x] == s.cache[x]
    requires x in e.ids ==> x in c && forall i :: 0 <= i < |e.ids| && e.ids[i] == x ==> c[x] == KeyAt(e.items, i)
    requires c[x] in s.cache.Values
    ensures x in s.cache && s.cache[x] == c[x]
  {
    if x in e.ids {
      var i :| 0 <= i < |e.ids| && e.ids[i] == x;
      assert KeyAt(e.items, i) in s.cache.Values;
    }
  }

  // An accepted call keeps one id per key exactly when it repeats no uncached key.
  lemma KeepsInjective(s: State, b: map<nat, string>, e: Event)
    requires BoundState(s, b) && Injective(s.cache) && Enabled(s, e) && Commits(e) && e.outcome == Accepted
    ensures Injective(Post(s, e).cache) <==> NoFreshRepeat(s, e)
  {
    if e.Steer? {
      SteerCaches(s, b, e);
      var c := CacheAfter(s, e);
      if NoFreshRepeat(s, e) {
        forall x, y | x in c && y in c && c[x] == c[y] ensures x == y {
          SameIdForKey(s, e, c, x, y);
        }
      } else {
        var i, j :| && 0 <= i < j < |e.items| && KeyAt(e.items, i) == KeyAt(e.items, j)
                    && KeyAt(e.items, i) !in s.cache.Values;
        UncachedGrows(s.cache, e.items, i, j);
        assert e.ids[i] != e.ids[j];
        assert c[e.ids[i]] == c[e.ids[j]];
      }
    }
  }

  // The condition, over a run.
  ghost predicate NeverRepeats(s: State, es: seq<Event>)
  {
    forall m :: 0 <= m < |es| ==> StepDoesNotRepeat(After(s, es[..m]), es[m])
  }

  ghost predicate StepDoesNotRepeat(t: State, e: Event)
  {
    Commits(e) && e.outcome == Accepted ==> NoFreshRepeat(t, e)
  }

  ghost predicate AlwaysInjective(s: State, es: seq<Event>)
  {
    forall m :: 0 <= m <= |es| ==> Injective(After(s, es[..m]).cache)
  }

  lemma LastInjective(s: State, es: seq<Event>)
    requires Initial(s) && IsRun(s, es) && es != [] && Injective(After(s, es[..|es| - 1]).cache)
    ensures var before, e := es[..|es| - 1], es[|es| - 1];
      Injective(After(s, es).cache) <==> StepDoesNotRepeat(After(s, before), e)
  {
    var before, e := es[..|es| - 1], es[|es| - 1];
    RunInvariant(s, before);
    var t := After(s, before);
    assert After(s, es) == Post(t, e);
    if Commits(e) && e.outcome == Accepted {
      KeepsInjective(t, Bound(s, before), e);
    }
  }

  // Over whole runs: the cache has one id per key at every moment exactly when no accepted call repeats
  // a key that is not cached when the call is made.
  lemma {:induction false} InjectiveAlways(s: State, es: seq<Event>)
    requires Initial(s) && Injective(s.cache) && IsRun(s, es)
    ensures AlwaysInjective(s, es) <==> NeverRepeats(s, es)
  {
    assert es[..|es|] == es;
    if es == [] {
      assert After(s, es[..0]) == s;
    } else {
      var n := |es| - 1;
      var before := es[..n];
      InjectiveAlways(s, before);
      assert forall m :: 0 <= m <= n ==> before[..m] == es[..m];
      AlwaysInjectiveSplit(s, es);
      if AlwaysInjective(s, before) {
        assert before[..n] == before;
        assert Injective(After(s, before[..n]).cache);
        LastInjective(s, es);
      }
    }
  }

  lemma AlwaysInjectiveSplit(s: State, es: seq<Event>)
    requires es != []
    ensures var before := es[..|es| - 1];
      && (AlwaysInjective(s, es) <==> AlwaysInjective(s, before) && Injective(After(s, es).cache))
      && (NeverRepeats(s, es) <==> (NeverRepeats(s, before) && StepDoesNotRepeat(After(s, before), es[|es| - 1])))
  {
    var n := |es| - 1;
    var before := es[..n];
    assert es[..|es|] == es;
    assert forall m :: 0 <= m <= n ==> before[..m] == es[..m];
    assert forall m :: 0 <= m < n ==> before[m] == es[m];
  }

  lemma OneMoreEntry(rest: map<nat, string>, id: nat, key: string)
    requires id !in rest
    ensures Injective(rest[id := key]) <==> Injective(rest) && key !in rest.Values
    ensures rest[id := key].Values == rest.Values + {key}
  {
    var c := rest[id := key];
    assert id in c && c[id] == key && forall j :: j in rest ==> c[j] == rest[j];
    if Injective(c) {
      forall j | j in rest
        ensures rest[j] != key
      {
        assert c[j] == c[id] ==> j == id;
      }
    }
  }

  // The size the statistics server reports counts the steered flows exactly when no flow has two ids.
  lemma {:induction false} SizeCountsFlows(cache: map<nat, string>)
    ensures |cache| == |cache.Values| <==> Injective(cache)
    ensures |cache.Values| <= |cache|
  {
    if cache != map[] {
      var id :| id in cache;
      var rest := cache - {id};
      SizeCountsFlows(rest);
      assert |rest| == |cache| - 1;
      OneMoreEntry(rest, id, cache[id]);
      assert cache == rest[id := cache[id]];
    }
  }
}
