/** The steering controller as a transition system: the id allocator and the rule cache of the
    controller, and the candidate and running datastores of the device (sections 7.2 and 8.3 of
    RFC 6241). A step is one call of `Steer` or `RemoveSteer`, or one tunnel call sharing the same
    candidate. Everything the environment may choose is part of the event: the device's replies and
    the order in which Go iterates a map. */
module AclModel {
  import opened GoTypes
  import opened IpAddress

  const DEFAULT_RULE_ID: nat := 65434
  const FIRST_RULE_ID: nat := 10
  const RULE_ID_STEP: nat := 10

  // ---- Rules as the device stores them ----

  // The flow a rule is for: the texts and ports written into the rule, together with the printed key of
  // the flow they were written for. The device stores the texts only; module SteerRules shows that in
  // every run the key and the texts belong together, and when the key can be read back from them.
  datatype Match = Match(key: string, protocol: string, src: string, dst: string, srcPort: u16, dstPort: u16)

  datatype RuleConfig = RuleConfig(flow: Match, nextHop: Option<IP>, ruleType: string)

  type Acl = map<nat, RuleConfig>

  const DEFAULT_RULE := RuleConfig(Match("any", "any", "any", "any", 0, 0), None, "allow")

  // ---- edit-config ----

  datatype Op = Merge(id: nat, config: RuleConfig) | Delete(id: nat) | DeleteAll

  // A merge replaces the leaves that are sent; a zero port and a nil next hop are not sent.
  function Merged(stored: RuleConfig, sent: RuleConfig): RuleConfig
  {
    sent.(flow := sent.flow.(srcPort := if sent.flow.srcPort == 0 then stored.flow.srcPort else sent.flow.srcPort,
                             dstPort := if sent.flow.dstPort == 0 then stored.flow.dstPort else sent.flow.dstPort),
          nextHop := if sent.nextHop.None? then stored.nextHop else sent.nextHop)
  }

  function ApplyOp(acl: Acl, op: Op): Acl
  {
    match op
    case Merge(id, config) => acl[id := if id in acl then Merged(acl[id], config) else config]
    case Delete(id) => acl - {id}
    case DeleteAll => map[]
  }

  function ApplyOps(acl: Acl, ops: seq<Op>): Acl
  {
    if ops == [] then acl else ApplyOp(ApplyOps(acl, ops[..|ops| - 1]), ops[|ops| - 1])
  }

  // The device's answer to one call: it stops at an error after applying some of the operations
  // (stop-on-error, section 7.2 of RFC 6241), or it takes the edit and refuses the commit, or it takes both.
  datatype Outcome = EditError(applied: nat) | CommitError | Accepted

  // ---- The controller ----

  // One item of `Steer`: the flow and the upper name of the interface to steer it to.
  datatype SteerItem = SteerItem(flow: Match, nextHop: string)

  // WAN interfaces by upper name, with their next-hop address.
  type Hops = map<string, IP>

  datatype State = State(nextId: nat, cache: map<nat, string>, candidate: Acl, running: Acl)

  datatype Event =
    | Steer(hops: Hops, items: seq<SteerItem>, ids: seq<nat>, outcome: Outcome)
    | RemoveSteer(keys: seq<string>, ids: seq<nat>, outcome: Outcome)
    | Tunnel(outcome: Outcome)

  predicate KnownHop(hops: Hops, item: SteerItem) { item.nextHop == "" || item.nextHop in hops }

  // How many items are processed before one names an unknown next hop.
  function KnownPrefix(hops: Hops, items: seq<SteerItem>): (n: nat)
    ensures n <= |items|
    ensures forall i :: 0 <= i < n ==> KnownHop(hops, items[i])
    ensures n < |items| ==> !KnownHop(hops, items[n])
  {
    if items == [] || !KnownHop(hops, items[0]) then 0 else 1 + KnownPrefix(hops, items[1..])
  }

  function HopOf(hops: Hops, item: SteerItem): IP
  {
    if item.nextHop != "" && item.nextHop in hops then hops[item.nextHop] else []
  }

  function KeyAt(items: seq<SteerItem>, i: nat): string
    requires i < |items|
  {
    items[i].flow.key
  }

  // Items whose key is not cached: each takes a fresh id, even when it repeats an earlier one.
  function Uncached(cache: map<nat, string>, items: seq<SteerItem>): nat
  {
    if items == [] then 0
    else
      var n := |items| - 1;
      Uncached(cache, items[..n]) + if KeyAt(items, n) in cache.Values then 0 else 1
  }

  // The ids the loop of `Steer` may choose for the items it processes.
  predicate Planned(cache: map<nat, string>, nextId: nat, items: seq<SteerItem>, ids: seq<nat>)
  {
    && |ids| <= |items|
    && forall i :: 0 <= i < |ids| ==>
         if KeyAt(items, i) in cache.Values
         then ids[i] in cache && cache[ids[i]] == KeyAt(items, i)
         else ids[i] == nextId + RULE_ID_STEP * Uncached(cache, items[..i])
  }

  // The rule sent for an item.
  function Sent(hops: Hops, items: seq<SteerItem>, i: nat): RuleConfig
    requires i < |items|
  {
    RuleConfig(items[i].flow, Some(HopOf(hops, items[i])), "allow")
  }

  function SteerOps(hops: Hops, items: seq<SteerItem>, ids: seq<nat>): seq<Op>
    requires |ids| <= |items|
  {
    seq(|ids|, i requires 0 <= i < |ids| => Merge(ids[i], Sent(hops, items, i)))
  }

  // ruleIdxMap: the last item given an id decides its key.
  function Assigned(items: seq<SteerItem>, ids: seq<nat>): map<nat, string>
    requires |ids| <= |items|
  {
    if ids == [] then map[]
    else
      var n := |ids| - 1;
      Assigned(items, ids[..n])[ids[n] := KeyAt(items, n)]
  }

  function DeleteOps(ids: seq<nat>): seq<Op>
  {
    seq(|ids|, i requires 0 <= i < |ids| => Delete(ids[i]))
  }

  // The choices the environment may make in state s.
  predicate Enabled(s: State, e: Event)
  {
    match e
    case Steer(hops, items, ids, _) => |ids| == KnownPrefix(hops, items) && Planned(s.cache, s.nextId, items, ids)
    case RemoveSteer(keys, ids, _) =>
      && (forall i :: 0 <= i < |ids| ==> ids[i] in s.cache && s.cache[ids[i]] in keys)
      && (forall id :: id in s.cache && s.cache[id] in keys ==> id in ids)
    case Tunnel(_) => true
  }

  // The edit of the access list that the call sends; empty when it sends none.
  function Ops(e: Event): seq<Op>
  {
    match e
    case Steer(hops, items, ids, _) => if |ids| == |items| then SteerOps(hops, items, ids) else []
    case RemoveSteer(_, ids, _) => DeleteOps(ids)
    case Tunnel(_) => []
  }

  // A tunnel call edits and commits other parts of the same candidate.
  predicate Commits(e: Event) { e.Tunnel? || Ops(e) != [] }

  // The call returns an error.
  predicate Fails(e: Event)
  {
    (e.Steer? && |e.ids| < |e.items|) || (Commits(e) && e.outcome != Accepted)
  }

  function NextIdAfter(s: State, e: Event): nat
  {
    if e.Steer? && |e.ids| <= |e.items| then s.nextId + RULE_ID_STEP * Uncached(s.cache, e.items[..|e.ids|])
    else s.nextId
  }

  function CacheAfter(s: State, e: Event): map<nat, string>
  {
    match e
    case Steer(_, items, ids, _) => if |ids| == |items| then s.cache + Assigned(items, ids) else s.cache
    case RemoveSteer(_, ids, _) => s.cache - (set id | id in ids)
    case Tunnel(_) => s.cache
  }

  function Prefix(ops: seq<Op>, n: nat): seq<Op> { if n <= |ops| then ops[..n] else ops }

  function Post(s: State, e: Event): State
  {
    var s1 := s.(nextId := NextIdAfter(s, e));
    if !Commits(e) then s1
    else
      match e.outcome
      case EditError(n) => s1.(candidate := ApplyOps(s.candidate, Prefix(Ops(e), n)))
      case CommitError => s1.(candidate := ApplyOps(s.candidate, Ops(e)))
      case Accepted =>
        var c := ApplyOps(s.candidate, Ops(e));
        State(NextIdAfter(s, e), CacheAfter(s, e), c, c)
  }

  // Post, case by case.
  lemma PostIfNothingSent(s: State, e: Event)
    requires !Commits(e)
    ensures Post(s, e) == s.(nextId := NextIdAfter(s, e))
  {
  }

  lemma PostIfSent(s: State, e: Event)
    requires Commits(e)
    ensures var n, c := NextIdAfter(s, e), ApplyOps(s.candidate, Ops(e));
      match e.outcome
      case EditError(k) => Post(s, e) == State(n, s.cache, ApplyOps(s.candidate, Prefix(Ops(e), k)), s.running)
      case CommitError => Post(s, e) == State(n, s.cache, c, s.running)
      case Accepted => Post(s, e) == State(n, CacheAfter(s, e), c, c)
  {
  }

  // ---- Start-up ----

  // After a successful cleanup of the device the controller starts from here.
  const DEFAULT_ONLY: Acl := map[DEFAULT_RULE_ID := DEFAULT_RULE]
  const FLUSHED := State(FIRST_RULE_ID, map[], DEFAULT_ONLY, DEFAULT_ONLY)

  // One more round of the loop of `Steer`.
  lemma PlannedStep(cache: map<nat, string>, nextId: nat, items: seq<SteerItem>, ids: seq<nat>, id: nat)
    requires |ids| < |items| && Planned(cache, nextId, items, ids)
    requires if KeyAt(items, |ids|) in cache.Values then id in cache && cache[id] == KeyAt(items, |ids|)
             else id == nextId + RULE_ID_STEP * Uncached(cache, items[..|ids|])
    ensures Planned(cache, nextId, items, ids + [id])
  {
    var ids' := ids + [id];
    assert forall i :: 0 <= i < |ids| ==> ids'[i] == ids[i];
  }

  lemma EmptyPlan(cache: map<nat, string>, nextId: nat, hops: Hops, items: seq<SteerItem>)
    ensures Planned(cache, nextId, items, []) && Uncached(cache, items[..0]) == 0
    ensures Assigned(items, []) == map[] && SteerOps(hops, items, []) == []
  {
  }

  lemma UncachedStep(cache: map<nat, string>, items: seq<SteerItem>, n: nat)
    requires n < |items|
    ensures Uncached(cache, items[..n + 1])
         == Uncached(cache, items[..n]) + if KeyAt(items, n) in cache.Values then 0 else 1
  {
    assert items[..n + 1][..n] == items[..n];
  }

  lemma AssignedStep(items: seq<SteerItem>, ids: seq<nat>, id: nat)
    requires |ids| < |items|
    ensures Assigned(items, ids + [id]) == Assigned(items, ids)[id := KeyAt(items, |ids|)]
  {
    assert (ids + [id])[..|ids|] == ids;
  }

  lemma OpsStep(hops: Hops, items: seq<SteerItem>, ids: seq<nat>, id: nat)
    requires |ids| < |items|
    ensures SteerOps(hops, items, ids + [id])
         == SteerOps(hops, items, ids) + [Merge(id, Sent(hops, items, |ids|))]
  {
    var ids' := ids + [id];
    assert forall i :: 0 <= i < |ids| ==> ids'[i] == ids[i];
  }

  // ---- Runs ----

  function After(s: State, es: seq<Event>): State
  {
    if es == [] then s else Post(After(s, es[..|es| - 1]), es[|es| - 1])
  }

  predicate IsRun(s: State, es: seq<Event>)
  {
    es == [] || (IsRun(s, es[..|es| - 1]) && Enabled(After(s, es[..|es| - 1]), es[|es| - 1]))
  }

  // Every id handed to a key so far: the keys cached at the start and every choice made by `Steer`,
  // also by calls that fail later.
  function Bound(s: State, es: seq<Event>): map<nat, string>
  {
    if es == [] then s.cache
    else
      var before, e := Bound(s, es[..|es| - 1]), es[|es| - 1];
      if e.Steer? && |e.ids| <= |e.items| then before + Assigned(e.items, e.ids) else before
  }

  // The ids that a failed call has edited.
  function Dirtied(e: Event): set<nat>
  {
    if (e.Steer? || e.RemoveSteer?) && Ops(e) != [] && e.outcome != Accepted then set id | id in e.ids else {}
  }

  function Dirty(es: seq<Event>): set<nat>
  {
    if es == [] then {} else Dirty(es[..|es| - 1]) + Dirtied(es[|es| - 1])
  }
}
