/** Start-up: what the reload loop of `InitNetConf` leaves, after a cleanup of the device or without one,
    and what it recovers of an earlier run. */
module Reload {
  import opened GoTypes
  import opened IpAddress
  import opened FlowKeys
  import opened AclModel
  import opened AclRuns
  import opened AclTheorems
  import opened AclAgreement
  import opened AclContents
  import opened AclTexts
  import opened SteerRules

  // One rule of a datastore, as the device lists it.
  datatype Entry = Entry(id: nat, config: RuleConfig)

  predicate ListedIn(listing: seq<Entry>, acl: Acl)
  {
    forall i :: 0 <= i < |listing| ==> listing[i].id in acl && acl[listing[i].id] == listing[i].config
  }

  // The device lists a datastore in any order.
  ghost predicate Lists(listing: seq<Entry>, acl: Acl)
  {
    && ListedIn(listing, acl)
    && (forall id :: id in acl ==> exists i :: 0 <= i < |listing| && listing[i].id == id)
    && (forall i, j :: 0 <= i < j < |listing| ==> listing[i].id != listing[j].id)
  }

  // ---- The loop ----

  predicate Parsed(m: Match) { Loaded(m).Some? }

  // The rules the reload loop takes in.
  predicate Taken(e: Entry) { e.id != DEFAULT_RULE_ID && Parsed(e.config.flow) }

  function LoadedKey(m: Match): string
    requires Parsed(m)
  {
    AsKey(Loaded(m).value)
  }

  // What it adds to the cache.
  function ReloadCache(cache: map<nat, string>, listing: seq<Entry>): map<nat, string>
  {
    if listing == [] then cache
    else
      var n := |listing| - 1;
      var before, e := ReloadCache(cache, listing[..n]), listing[n];
      if Taken(e) then before[e.id := LoadedKey(e.config.flow)] else before
  }

  function TakenIds(listing: seq<Entry>): seq<nat>
  {
    if listing == [] then []
    else
      var n := |listing| - 1;
      TakenIds(listing[..n]) + if Taken(listing[n]) then [listing[n].id] else []
  }

  // Where it leaves the allocator. `maxID` keeps its first value.
  function NextIdOver(nextId: nat, ids: seq<nat>): nat
  {
    if ids == [] then nextId
    else
      var n := |ids| - 1;
      if ids[n] > nextId then ids[n] + RULE_ID_STEP else NextIdOver(nextId, ids[..n])
  }

  lemma NextIdSnoc(nextId: nat, ids: seq<nat>, id: nat)
    ensures NextIdOver(nextId, ids + [id]) == if id > nextId then id + RULE_ID_STEP else NextIdOver(nextId, ids)
  {
    assert (ids + [id])[..|ids|] == ids;
  }

  lemma ReloadStep(listing: seq<Entry>, i: nat)
    requires i < |listing|
    ensures var e := listing[i];
      var before, after := ReloadCache(map[], listing[..i]), ReloadCache(map[], listing[..i + 1]);
      var was := NextIdOver(FIRST_RULE_ID, TakenIds(listing[..i]));
      var now := NextIdOver(FIRST_RULE_ID, TakenIds(listing[..i + 1]));
      && after == (if Taken(e) then before[e.id := LoadedKey(e.config.flow)] else before)
      && now == if Taken(e) && e.id > FIRST_RULE_ID then e.id + RULE_ID_STEP else was
  {
    hide Taken, LoadedKey;
    assert listing[..i + 1][..i] == listing[..i];
    var ids := TakenIds(listing[..i]);
    assert ids + [] == ids;
    NextIdSnoc(FIRST_RULE_ID, ids, listing[i].id);
  }

  ghost predicate LoadedFrom(cache: map<nat, string>, acl: Acl)
  {
    forall id :: id in cache ==>
      id in acl && id != DEFAULT_RULE_ID && Parsed(acl[id].flow) && cache[id] == LoadedKey(acl[id].flow)
  }

  lemma CacheUnfolds(listing: seq<Entry>)
    requires listing != []
    ensures var n := |listing| - 1; var before, e := ReloadCache(map[], listing[..n]), listing[n];
      ReloadCache(map[], listing) == if Taken(e) then before[e.id := LoadedKey(e.config.flow)] else before
  {
  }

  // The loaded rules, each under the key it loads under.
  lemma {:induction false} ReloadCacheHolds(listing: seq<Entry>, acl: Acl)
    requires ListedIn(listing, acl)
    ensures LoadedFrom(ReloadCache(map[], listing), acl)
  {
    if listing != [] {
      hide LoadedKey, Parsed, ReloadCache;
      var n := |listing| - 1;
      assert ListedIn(listing[..n], acl);
      ReloadCacheHolds(listing[..n], acl);
      CacheUnfolds(listing);
    }
  }

  lemma {:induction false} ReloadCacheHasAll(listing: seq<Entry>, i: nat)
    requires i < |listing| && Taken(listing[i])
    ensures listing[i].id in ReloadCache(map[], listing)
  {
    hide LoadedKey, Taken, ReloadCache;
    var n := |listing| - 1;
    CacheUnfolds(listing);
    if i < n {
      assert listing[..n][i] == listing[i];
      ReloadCacheHasAll(listing[..n], i);
    }
  }

  lemma {:induction false} TakenIdsAre(listing: seq<Entry>)
    ensures forall id :: id in TakenIds(listing) <==> id in ReloadCache(map[], listing)
  {
    if listing != [] {
      hide LoadedKey, Taken;
      TakenIdsAre(listing[..|listing| - 1]);
    }
  }

  // For a whole listing: exactly the parsed rules but the default one.
  lemma ReloadCacheIs(listing: seq<Entry>, acl: Acl)
    requires Lists(listing, acl)
    ensures var cache := ReloadCache(map[], listing);
      && (forall id :: id in cache <==> id in acl && id != DEFAULT_RULE_ID && Parsed(acl[id].flow))
      && (forall id :: id in cache ==> cache[id] == LoadedKey(acl[id].flow))
  {
    hide Parsed, LoadedKey, ReloadCache;
    ReloadCacheHolds(listing, acl);
    forall id | id in acl && id != DEFAULT_RULE_ID && Parsed(acl[id].flow)
      ensures id in ReloadCache(map[], listing)
    {
      var i :| 0 <= i < |listing| && listing[i].id == id;
      ReloadCacheHasAll(listing, i);
    }
  }

  // ---- The allocator ----

  // The last listed id above the first one; all others are less than one step above it.
  predicate LeadsAt(ids: seq<nat>, j: nat)
    requires j < |ids|
  {
    && ids[j] > FIRST_RULE_ID
    && (forall i :: j < i < |ids| ==> ids[i] <= FIRST_RULE_ID)
    && (forall i :: 0 <= i < |ids| ==> ids[i] < ids[j] + RULE_ID_STEP)
  }

  predicate SafeOrder(ids: seq<nat>)
  {
    || (forall i :: 0 <= i < |ids| ==> ids[i] < FIRST_RULE_ID)
    || (exists j :: 0 <= j < |ids| && LeadsAt(ids, j))
  }

  // The last listed id above the first id decides the allocator.
  lemma {:induction false} NextIdIsLast(nextId: nat, ids: seq<nat>) returns (j: int)
    ensures -1 <= j < |ids|
    ensures forall i :: j < i < |ids| ==> ids[i] <= nextId
    ensures NextIdOver(nextId, ids) == if j < 0 then nextId else ids[j] + RULE_ID_STEP
    ensures j >= 0 ==> ids[j] > nextId
  {
    if ids == [] {
      j := -1;
    } else {
      var n := |ids| - 1;
      if ids[n] > nextId {
        j := n;
      } else {
        j := NextIdIsLast(nextId, ids[..n]);
        assert forall i :: 0 <= i < n ==> ids[..n][i] == ids[i];
      }
    }
  }

  // The allocator is ahead of every loaded id exactly for the safe orders, whatever the ids are.
  lemma AheadExactly(ids: seq<nat>)
    ensures (forall i :: 0 <= i < |ids| ==> ids[i] < NextIdOver(FIRST_RULE_ID, ids)) <==> SafeOrder(ids)
  {
    var j := NextIdIsLast(FIRST_RULE_ID, ids);
    if k :| 0 <= k < |ids| && LeadsAt(ids, k) {
      assert j == k;
    }
    if j >= 0 && forall i :: 0 <= i < |ids| ==> ids[i] < NextIdOver(FIRST_RULE_ID, ids) {
      assert LeadsAt(ids, j);
    }
  }

  // A listing in ascending order is safe exactly when its largest id is not ten.
  lemma AscendingListing(ids: seq<nat>)
    requires ids != [] && forall i, j :: 0 <= i < j < |ids| ==> ids[i] < ids[j]
    ensures SafeOrder(ids) <==> ids[|ids| - 1] != FIRST_RULE_ID
  {
    var n := |ids| - 1;
    if ids[n] > FIRST_RULE_ID {
      assert LeadsAt(ids, n);
    }
  }

  // ---- The state after start-up ----

  // From then on a rule is known by the key it loads under.
  function Rekeyed(acl: Acl): Acl
  {
    map id | id in acl :: if Parsed(acl[id].flow) then acl[id].(flow := acl[id].flow.(key := LoadedKey(acl[id].flow)))
                          else acl[id]
  }

  lemma RekeyedSameTexts(acl: Acl)
    ensures SameTexts(acl, Rekeyed(acl))
  {
    hide Parsed, LoadedKey;
  }

  // The candidate may hold what earlier programs left uncommitted.
  function Started(candidate: Acl, running: Acl, listing: seq<Entry>): State
  {
    State(NextIdOver(FIRST_RULE_ID, TakenIds(listing)), ReloadCache(map[], listing),
          Rekeyed(candidate), Rekeyed(running))
  }

  ghost predicate AllParsed(acl: Acl) { forall id :: id in acl && id != DEFAULT_RULE_ID ==> Parsed(acl[id].flow) }

  // Start-up gives a state from which the theorems on runs hold exactly when every rule parses, the
  // listing is safe, and nothing was left uncommitted. The code compares ids with the allocator's first
  // value, not with the largest seen, so not every listing is safe.
  lemma StartedIsInitialExactly(candidate: Acl, running: Acl, listing: seq<Entry>)
    requires Lists(listing, running)
    ensures Initial(Started(candidate, running, listing))
       <==> AllParsed(running) && SafeOrder(TakenIds(listing)) && SameRules(Rekeyed(candidate), Rekeyed(running))
  {
    hide Parsed, LoadedKey, SafeOrder, NextIdOver, ReloadCache, TakenIds, Mirrors;
    var s := Started(candidate, running, listing);
    var ids := TakenIds(listing);
    TakenIdsAre(listing);
    ReloadCacheIs(listing, running);
    AheadExactly(ids);
    AheadById(ids, s.cache, s.nextId);
    StartedAgrees(s, running);
  }

  lemma AheadById(ids: seq<nat>, cache: map<nat, string>, nextId: nat)
    requires forall id :: id in ids <==> id in cache
    ensures (forall i :: 0 <= i < |ids| ==> ids[i] < nextId) <==> forall id :: id in cache ==> id < nextId
  {
    if forall i :: 0 <= i < |ids| ==> ids[i] < nextId {
      forall id | id in cache
        ensures id < nextId
      {
        assert id in ids;
      }
    } else {
      var i :| 0 <= i < |ids| && ids[i] >= nextId;
      assert ids[i] in ids;
    }
  }

  lemma StartedAgrees(s: State, running: Acl)
    requires s.running == Rekeyed(running)
    requires forall id :: id in s.cache <==> id in running && id != DEFAULT_RULE_ID && Parsed(running[id].flow)
    requires forall id :: id in s.cache ==> s.cache[id] == LoadedKey(running[id].flow)
    ensures Initial(s) <==>
      AllParsed(running) && (forall id :: id in s.cache ==> id < s.nextId) && SameRules(s.candidate, s.running)
  {
    hide Parsed, LoadedKey;
    if Agree(s, {}) {
      forall id | id in running && id != DEFAULT_RULE_ID
        ensures Parsed(running[id].flow)
      {
        assert AgreeOn(s, id);
      }
      AgreedSame(s);
    }
    if AllParsed(running) && SameRules(s.candidate, s.running) {
      forall id | id != DEFAULT_RULE_ID
        ensures AgreeOn(s, id)
      {
      }
    }
  }

  lemma AgreedSame(s: State)
    requires Agree(s, {})
    ensures SameRules(s.candidate, s.running)
  {
    forall id | id != DEFAULT_RULE_ID
      ensures (id in s.candidate <==> id in s.running) && (id in s.candidate ==> s.candidate[id] == s.running[id])
    {
      assert AgreeOn(s, id);
    }
  }

  // Without leftovers: the exact condition on the listing alone.
  lemma ReloadIsInitialExactly(acl: Acl, listing: seq<Entry>)
    requires Lists(listing, acl)
    ensures Initial(Started(acl, acl, listing)) <==> AllParsed(acl) && SafeOrder(TakenIds(listing))
  {
    StartedIsInitialExactly(acl, acl, listing);
  }

  // Otherwise an id can be handed out twice: after the reload of any single rule with id ten, the first
  // new flow takes its id, in the cache and on the device.
  lemma ReloadOfTenCollides(m: Match, hop: Option<IP>, hops: Hops, item: SteerItem)
    requires Parsed(m) && KnownHop(hops, item) && item.flow.key != LoadedKey(m)
    ensures Lists([Entry(10, RuleConfig(m, hop, "allow"))], map[10 := RuleConfig(m, hop, "allow")])
    ensures var acl := map[10 := RuleConfig(m, hop, "allow")];
      var s := Started(acl, acl, [Entry(10, RuleConfig(m, hop, "allow"))]);
      var e := Steer(hops, [item], [10], Accepted);
      && s.cache == map[10 := LoadedKey(m)] && Enabled(s, e) && Post(s, e).cache == map[10 := item.flow.key]
  {
    hide Parsed, LoadedKey, Started, Post;
    var acl := map[10 := RuleConfig(m, hop, "allow")];
    ReloadOfTen(m, hop);
    TakesTen(Started(acl, acl, [Entry(10, RuleConfig(m, hop, "allow"))]), hops, item);
  }

  lemma ReloadOfTen(m: Match, hop: Option<IP>)
    requires Parsed(m)
    ensures var config := RuleConfig(m, hop, "allow");
      var s := Started(map[10 := config], map[10 := config], [Entry(10, config)]);
      && Lists([Entry(10, config)], map[10 := config]) && s.nextId == 10 && s.cache == map[10 := LoadedKey(m)]
  {
    hide Parsed, LoadedKey;
    var listing := [Entry(10, RuleConfig(m, hop, "allow"))];
    assert listing[0].id == 10;
    ReloadStep(listing, 0);
    assert listing[..1] == listing && listing[..0] == [];
  }

  lemma TakesTen(s: State, hops: Hops, item: SteerItem)
    requires s.nextId == 10 && 10 in s.cache && s.cache.Keys == {10} && s.cache[10] != item.flow.key
    requires KnownHop(hops, item)
    ensures var e := Steer(hops, [item], [10], Accepted);
      Enabled(s, e) && Post(s, e).cache == map[10 := item.flow.key]
  {
    hide ApplyOps, Post;
    var e := Steer(hops, [item], [10], Accepted);
    OneItem(hops, item, 10);
    PostParts(s, e);
    assert Ops(e) != [];
  }

  // ---- After a cleanup ----

  predicate CleanupSucceeds(deletion: Outcome, addition: Outcome) { !deletion.EditError? && addition.Accepted? }

  // What the cleanup leaves in the candidate, also when an edit fails half way.
  function CleanedCandidate(acl: Acl, deletion: Outcome, addition: Outcome): Acl
  {
    var empty: Acl := if deletion.EditError? && deletion.applied == 0 then acl else map[];
    if deletion.EditError? || (addition.EditError? && addition.applied == 0) then empty
    else empty[DEFAULT_RULE_ID := DEFAULT_RULE]
  }

  function CleanedRunning(running: Acl, deletion: Outcome, addition: Outcome): Acl
  {
    if CleanupSucceeds(deletion, addition) then DEFAULT_ONLY else running
  }

  lemma {:induction false} NothingTaken(listing: seq<Entry>)
    requires forall i :: 0 <= i < |listing| ==> !Taken(listing[i])
    ensures TakenIds(listing) == [] && ReloadCache(map[], listing) == map[]
  {
    if listing != [] {
      NothingTaken(listing[..|listing| - 1]);
    }
  }

  // A cleanup that succeeds gives the flushed state.
  lemma CleanStart(listing: seq<Entry>)
    requires Lists(listing, DEFAULT_ONLY)
    ensures Started(DEFAULT_ONLY, DEFAULT_ONLY, listing) == FLUSHED
  {
    hide LoadedKey;
    DefaultDoesNotLoad();
    NothingTaken(listing);
    assert Rekeyed(DEFAULT_ONLY) == DEFAULT_ONLY;
  }

  predicate NoRules(acl: Acl) { forall id :: id in acl ==> id == DEFAULT_RULE_ID }

  // A failed cleanup is only logged, and the reload then caches the running rules. If the device had not
  // even deleted the candidate's rules, it is as if there had been no cleanup; otherwise the state is good
  // exactly when there was no rule to clean up.
  lemma FailedCleanupStartExactly(candidate: Acl, running: Acl, deletion: Outcome, addition: Outcome,
                                  listing: seq<Entry>)
    requires !CleanupSucceeds(deletion, addition) && Lists(listing, running)
    ensures var s := Started(CleanedCandidate(candidate, deletion, addition), running, listing);
      && (deletion == EditError(0) ==> (Initial(s) <==> Initial(Started(candidate, running, listing))))
      && (deletion != EditError(0) ==> (Initial(s) <==> NoRules(running)))
  {
    hide Parsed, LoadedKey, Initial;
    var c := CleanedCandidate(candidate, deletion, addition);
    StartedIsInitialExactly(c, running, listing);
    if deletion != EditError(0) {
      assert NoRules(c);
      if NoRules(running) {
        NothingTaken(listing);
        assert SameRules(Rekeyed(c), Rekeyed(running));
      } else {
        var id :| id in running && id != DEFAULT_RULE_ID;
        assert id !in Rekeyed(c) && id in Rekeyed(running);
      }
    }
  }

  // What then happens: the next accepted commit, here of a tunnel call, removes every rule from the device
  // while the cache still holds it.
  lemma FailedCleanupSurfaces(candidate: Acl, running: Acl, deletion: Outcome, addition: Outcome,
                              listing: seq<Entry>, id: nat)
    requires !CleanupSucceeds(deletion, addition) && deletion != EditError(0) && Lists(listing, running)
    requires id in running && id != DEFAULT_RULE_ID && Parsed(running[id].flow)
    ensures var t := Post(Started(CleanedCandidate(candidate, deletion, addition), running, listing), Tunnel(Accepted));
      id in t.cache && id !in t.running
  {
    hide Parsed, LoadedKey;
    ReloadCacheIs(listing, running);
  }

  // ---- After an earlier run ----

  // The rule was written for a flow.
  ghost predicate Genuine(m: Match) { exists fk :: m == MatchOf(fk) }

  // The flows that a reload recovers.
  predicate Recoverable(fk: FlowKey)
  {
    fk.protocol in {0, TCP, UDP} && Given(fk.srcAddr) && Given(fk.dstAddr)
  }

  // A program that starts after one that ended with cache and device in agreement recovers its cache
  // exactly when every steered flow has protocol TCP, UDP or zero, and two addresses.
  lemma RestartExactly(t: State, listing: seq<Entry>)
    requires Mirrors(t) && DEFAULT_RULE_ID !in t.cache && Lists(listing, t.running)
    requires forall id :: id in t.cache && id in t.running ==> Genuine(t.running[id].flow)
    ensures ReloadCache(map[], listing) == t.cache <==>
      forall id, fk :: id in t.cache && id in t.running && t.running[id].flow == MatchOf(fk) ==> Recoverable(fk)
  {
    hide MatchOf, LoadedKey, Parsed, ReloadCache, Recoverable;
    ReloadCacheIs(listing, t.running);
    MirroredIds(t);
    forall id | id in t.cache
      ensures KeptBy(t, id) <==> forall fk :: t.running[id].flow == MatchOf(fk) ==> Recoverable(fk)
    {
      KeptExactly(t, id);
    }
    var cache := ReloadCache(map[], listing);
    assert cache == t.cache <==> forall id :: id in t.cache ==> KeptBy(t, id);
  }

  predicate KeptBy(t: State, id: nat)
    requires id in t.running && id in t.cache
  {
    Parsed(t.running[id].flow) && LoadedKey(t.running[id].flow) == t.cache[id]
  }

  lemma MirroredIds(t: State)
    requires Mirrors(t) && DEFAULT_RULE_ID !in t.cache
    ensures forall id :: id in t.cache <==> id in t.running && id != DEFAULT_RULE_ID
    ensures forall id :: id in t.cache ==> t.running[id].flow.key == t.cache[id]
  {
    forall id
      ensures id in t.cache <==> id in t.running && id != DEFAULT_RULE_ID
    {
      assert id in t.cache.Keys - {DEFAULT_RULE_ID} <==> id in t.running.Keys - {DEFAULT_RULE_ID};
    }
  }

  lemma KeptExactly(t: State, id: nat)
    requires id in t.running && id in t.cache && t.running[id].flow.key == t.cache[id] && Genuine(t.running[id].flow)
    ensures KeptBy(t, id) <==> forall fk :: t.running[id].flow == MatchOf(fk) ==> Recoverable(fk)
  {
    hide AsKey, ProtocolText;
    var m := t.running[id].flow;
    forall fk | m == MatchOf(fk)
      ensures KeptBy(t, id) <==> Recoverable(fk)
    {
      LoadsBackExactly(fk);
    }
  }

  lemma GenuineTiesPorts()
    ensures TiesPorts((m: Match) => Genuine(m))
  {
    forall m, n | Genuine(m) && Genuine(n) && m.key == n.key
      ensures m.srcPort == n.srcPort && m.dstPort == n.dstPort
    {
      var v :| m == MatchOf(v);
      var w :| n == MatchOf(w);
      KeyFields(v, w);
    }
  }

  // Over a whole run of genuine calls from a flushed device of which none left a trace.
  lemma RestartInRun(es: seq<Event>, listing: seq<Entry>)
    requires IsRun(FLUSHED, es) && NeverATrace(FLUSHED, es)
    requires forall m :: 0 <= m < |es| ==> EventOk(es[m], (f: Match) => Genuine(f))
    requires Lists(listing, After(FLUSHED, es).running)
    ensures var t := After(FLUSHED, es);
      ReloadCache(map[], listing) == t.cache <==>
        forall id, fk :: id in t.cache && id in t.running && t.running[id].flow == MatchOf(fk) ==> Recoverable(fk)
  {
    hide Mirrors, Genuine, MatchOf, Post, Enabled, LeavesNoTrace, ReloadCache;
    FlushedIsInitial();
    GenuineTiesPorts();
    var t := After(FLUSHED, es);
    RunContents(FLUSHED, es, (m: Match) => Genuine(m));
    MirrorsExactly(FLUSHED, es);
    assert es[..|es|] == es;
    assert MirrorsAt(FLUSHED, es, |es|);
    DefaultRuleSurvives(FLUSHED, es);
    MirroredIds(t);
    assert forall id :: id in t.cache ==> RulesOk(t.running, (m: Match) => Genuine(m)) && Genuine(t.running[id].flow);
    RestartExactly(t, listing);
  }
}
