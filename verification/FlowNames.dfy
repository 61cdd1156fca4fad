/** The names under which flows are filed: those that the interface registry gives for a NetFlow id. */
module FlowNames {
  import opened GoTypes
  import opened Registry
  import FlowWindows
  import FlowMessages

  // What the lookup by NetFlow id knows, as names.
  function NamesOf(v: View): FlowWindows.Names { map id | id in v.netFlow :: v.netFlow[id].Upper }

  // The name of an id is that of a live interface that has it.
  lemma NameIsLive(es: seq<Event>, id: u32)
    ensures var v := After(es); var name := FlowMessages.RegisteredName(NamesOf(v), id);
      id in v.netFlow ==> name in v.upper && v.upper[name].NetFlowId == id && id != NETFLOW_ID_INVALID
  {
    AlwaysSound(es);
  }

  // After a run in which no addition took an index in use, an id is named after an interface exactly when a
  // live interface has it, and then after that one.
  lemma NamedExactly(es: seq<Event>, id: u32)
    requires NeverClashes(es) && id != NETFLOW_ID_INVALID
    ensures var v := After(es);
      && (id in NamesOf(v) <==> exists u :: u in v.upper && v.upper[u].NetFlowId == id)
      && forall u :: u in v.upper && v.upper[u].NetFlowId == id ==> FlowMessages.RegisteredName(NamesOf(v), id) == u
  {
    hide After;
    AlwaysSound(es);
    CompleteExactly(es);
    assert CompleteAt(es, |es|);
    CompleteWhole(es);
    var v := After(es);
    forall u | u in v.upper && v.upper[u].NetFlowId == id
      ensures id in v.netFlow && v.netFlow[id] == v.upper[u] && v.upper[u].Upper == u
    {
      assert FoundByIndexes(v, v.upper[u]);
    }
    if id in v.netFlow {
      var u := v.netFlow[id].Upper;
      assert u in v.upper && v.upper[u].NetFlowId == id;
    }
  }
}
