/** The key that the model keeps beside a rule's texts is not on the device. Nothing the device or the
    controller does depends on it: two states that differ only in it stay so over every run. */
module AclTexts {
  import opened AclModel

  function TextsOf(c: RuleConfig): RuleConfig { c.(flow := c.flow.(key := "")) }

  ghost predicate SameTexts(a: Acl, b: Acl)
  {
    forall id :: (id in a <==> id in b) && (id in a ==> TextsOf(a[id]) == TextsOf(b[id]))
  }

  ghost predicate SameState(s: State, t: State)
  {
    && s.nextId == t.nextId && s.cache == t.cache
    && SameTexts(s.candidate, t.candidate) && SameTexts(s.running, t.running)
  }

  lemma OpKeepsTexts(a: Acl, b: Acl, op: Op)
    requires SameTexts(a, b)
    ensures SameTexts(ApplyOp(a, op), ApplyOp(b, op))
  {
  }

  lemma {:induction false} OpsKeepTexts(a: Acl, b: Acl, ops: seq<Op>)
    requires SameTexts(a, b)
    ensures SameTexts(ApplyOps(a, ops), ApplyOps(b, ops))
  {
    if ops != [] {
      var n := |ops| - 1;
      OpsKeepTexts(a, b, ops[..n]);
      OpKeepsTexts(ApplyOps(a, ops[..n]), ApplyOps(b, ops[..n]), ops[n]);
    }
  }

  lemma StepKeepsTexts(s: State, t: State, e: Event)
    requires SameState(s, t)
    ensures Enabled(s, e) <==> Enabled(t, e)
    ensures SameState(Post(s, e), Post(t, e))
  {
    hide SameTexts, ApplyOps, Assigned, Uncached, KnownPrefix, Planned;
    if Commits(e) {
      OpsKeepTexts(s.candidate, t.candidate, Ops(e));
      if e.outcome.EditError? {
        OpsKeepTexts(s.candidate, t.candidate, Prefix(Ops(e), e.outcome.applied));
      }
    }
  }

  // Over every run.
  lemma {:induction false} RunKeepsTexts(s: State, t: State, es: seq<Event>)
    requires SameState(s, t)
    ensures IsRun(s, es) <==> IsRun(t, es)
    ensures SameState(After(s, es), After(t, es))
  {
    hide SameState, Enabled, Post;
    if es != [] {
      var n := |es| - 1;
      RunKeepsTexts(s, t, es[..n]);
      StepKeepsTexts(After(s, es[..n]), After(t, es[..n]), es[n]);
    }
  }
}
