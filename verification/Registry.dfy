/** The interface registry: four maps of shared interface objects and two sorted name lists. */
module Registry {
  import opened GoTypes
  import opened IpAddress
  import opened SortedNames

  const NETFLOW_ID_INVALID: u32 := 0xFFFFFFFF

  // IsWan: only the two all-zero addresses mark a LAN interface.
  predicate IsWanAddress(nextHop: IP)
  {
    if To4(nextHop).Some? then !Equal(nextHop, IPV4_ZERO) else !Equal(nextHop, IPV6_ZERO)
  }

  lemma WanExactly(nextHop: IP)
    ensures IsWanAddress(nextHop) <==> Meaning(nextHop) != Meaning(IPV4_ZERO) && Meaning(nextHop) != Meaning(IPV6_ZERO)
  {
    EqualIsSameMeaning(nextHop, IPV4_ZERO);
    EqualIsSameMeaning(nextHop, IPV6_ZERO);
    assert IPV4_ZERO[..12] == V4_IN_V6_PREFIX;
    assert IPV6_ZERO[10] != V4_IN_V6_PREFIX[10] && IPV6_ZERO[..12][10] == IPV6_ZERO[10];
  }

  // The fields that identify an interface never change after it is built.
  class Interface {
    const Upper: string
    const Lower: string
    const NetFlowId: u32
    const NextHop: IP
    const IsWan: bool

    constructor (upper: string, lower: string, netFlowId: u32, nextHop: IP)
      ensures Upper == upper && Lower == lower && NetFlowId == netFlowId && NextHop == nextHop
      ensures IsWan == IsWanAddress(nextHop)
    {
      Upper, Lower, NetFlowId, NextHop := upper, lower, netFlowId, nextHop;
      IsWan := IsWanAddress(nextHop);
    }
  }

  datatype View = View(upper: map<string, Interface>, lower: map<string, Interface>, netFlow: map<u32, Interface>,
                       nextHop: map<string, Interface>, lan: seq<string>, wan: seq<string>)

  const EMPTY := View(map[], map[], map[], map[], [], [])

  // NewInterface on a built interface: only a duplicate upper name is rejected.
  function Added(v: View, ifc: Interface): View
  {
    if ifc.Upper in v.upper then v
    else
      View(v.upper[ifc.Upper := ifc],
           v.lower[ifc.Lower := ifc],
           if ifc.NetFlowId != NETFLOW_ID_INVALID then v.netFlow[ifc.NetFlowId := ifc] else v.netFlow,
           if ifc.IsWan then v.nextHop[ifc.Upper := ifc] else v.nextHop,
           if ifc.IsWan then v.lan else Sort(v.lan + [ifc.Upper]),
           if ifc.IsWan then Sort(v.wan + [ifc.Upper]) else v.wan)
  }

  // RemoveInterface: the keys of the removed interface go, whatever they point to.
  function Removed(v: View, upper: string): View
  {
    if upper !in v.upper then v
    else
      var ifc := v.upper[upper];
      View(v.upper - {ifc.Upper},
           v.lower - {ifc.Lower},
           if ifc.NetFlowId != NETFLOW_ID_INVALID then v.netFlow - {ifc.NetFlowId} else v.netFlow,
           v.nextHop - {ifc.Upper},
           RemoveFirst(v.lan, ifc.Upper),
           RemoveFirst(v.wan, ifc.Upper))
  }

  // ---- Consistency ----

  predicate Live(v: View, ifc: Interface) { ifc.Upper in v.upper && v.upper[ifc.Upper] == ifc }

  ghost predicate SoundUpper(v: View) { forall u :: u in v.upper ==> v.upper[u].Upper == u }

  ghost predicate SoundLower(v: View) { forall l :: l in v.lower ==> v.lower[l].Lower == l && Live(v, v.lower[l]) }

  ghost predicate SoundNetFlow(v: View)
  {
    forall n :: n in v.netFlow ==> n != NETFLOW_ID_INVALID && v.netFlow[n].NetFlowId == n && Live(v, v.netFlow[n])
  }

  ghost predicate SoundNextHop(v: View)
  {
    forall u :: u in v.nextHop ==> v.nextHop[u].Upper == u && v.nextHop[u].IsWan && Live(v, v.nextHop[u])
  }

  // No dangling entry: every index entry points to a live interface carrying that very index value.
  ghost predicate Sound(v: View) { SoundUpper(v) && SoundLower(v) && SoundNetFlow(v) && SoundNextHop(v) }

  // The name lists: sorted, duplicate-free, and between them exactly the live interfaces, split by kind.
  ghost predicate Named(v: View)
  {
    && Sorted(v.lan) && NoDuplicates(v.lan) && Sorted(v.wan) && NoDuplicates(v.wan)
    && (forall u :: u in v.lan <==> u in v.upper && !v.upper[u].IsWan)
    && (forall u :: u in v.wan <==> u in v.upper && v.upper[u].IsWan)
    && (forall u :: u in v.nextHop <==> u in v.wan)
  }

  // Every live interface is found by its lower name and by its NetFlow id, if it has one.
  ghost predicate Complete(v: View)
  {
    forall u :: u in v.upper ==> FoundByIndexes(v, v.upper[u])
  }

  predicate FoundByIndexes(v: View, ifc: Interface)
  {
    && ifc.Lower in v.lower && v.lower[ifc.Lower] == ifc
    && (ifc.NetFlowId != NETFLOW_ID_INVALID ==> ifc.NetFlowId in v.netFlow && v.netFlow[ifc.NetFlowId] == ifc)
  }

  // No live interface has the lower name or the NetFlow id of the new one.
  predicate IndexesUnused(v: View, ifc: Interface)
  {
    forall u :: u in v.upper ==>
      v.upper[u].Lower != ifc.Lower
      && (ifc.NetFlowId != NETFLOW_ID_INVALID ==> v.upper[u].NetFlowId != ifc.NetFlowId)
  }

  // ---- Steps ----

  lemma AddKeepsLower(v: View, ifc: Interface)
    requires SoundUpper(v) && SoundLower(v)
    ensures SoundUpper(Added(v, ifc)) && SoundLower(Added(v, ifc))
  {
  }

  lemma AddKeepsNetFlow(v: View, ifc: Interface)
    requires SoundNetFlow(v)
    ensures SoundNetFlow(Added(v, ifc))
  {
    hide Sort;
  }

  lemma AddKeepsNextHop(v: View, ifc: Interface)
    requires SoundNextHop(v)
    ensures SoundNextHop(Added(v, ifc))
  {
    hide Sort;
  }

  lemma AddKeepsSound(v: View, ifc: Interface)
    requires Sound(v)
    ensures Sound(Added(v, ifc))
  {
    AddKeepsLower(v, ifc);
    AddKeepsNetFlow(v, ifc);
    AddKeepsNextHop(v, ifc);
  }

  lemma RemoveKeepsLower(v: View, upper: string)
    requires SoundUpper(v) && SoundLower(v)
    ensures SoundUpper(Removed(v, upper)) && SoundLower(Removed(v, upper))
  {
  }

  lemma RemoveKeepsNetFlow(v: View, upper: string)
    requires SoundUpper(v) && SoundNetFlow(v)
    ensures SoundNetFlow(Removed(v, upper))
  {
  }

  lemma RemoveKeepsNextHop(v: View, upper: string)
    requires SoundUpper(v) && SoundNextHop(v)
    ensures SoundNextHop(Removed(v, upper))
  {
  }

  lemma RemoveKeepsSound(v: View, upper: string)
    requires Sound(v)
    ensures Sound(Removed(v, upper))
  {
    RemoveKeepsLower(v, upper);
    RemoveKeepsNetFlow(v, upper);
    RemoveKeepsNextHop(v, upper);
  }

  lemma AddKeepsNamed(v: View, ifc: Interface)
    requires Named(v)
    ensures Named(Added(v, ifc))
  {
    hide Sort, Sorted, NoDuplicates;
    if ifc.Upper !in v.upper {
      if ifc.IsWan {
        AppendSortKeeps(v.wan, ifc.Upper);
      } else {
        AppendSortKeeps(v.lan, ifc.Upper);
      }
    }
  }

  lemma RemoveKeepsNamed(v: View, upper: string)
    requires Sound(v) && Named(v)
    ensures Named(Removed(v, upper))
  {
    if upper in v.upper {
      RemoveKeeps(v.lan, upper);
      RemoveKeeps(v.wan, upper);
    }
  }

  // Adding keeps every live interface findable exactly when it takes no index that is in use.
  lemma AddKeepsCompleteExactly(v: View, ifc: Interface)
    requires Sound(v) && Complete(v)
    ensures Complete(Added(v, ifc)) <==> (ifc.Upper in v.upper || IndexesUnused(v, ifc))
  {
    if ifc.Upper !in v.upper {
      var w := Added(v, ifc);
      if IndexesUnused(v, ifc) {
        forall u | u in w.upper ensures FoundByIndexes(w, w.upper[u]) {
          assert u in v.upper ==> FoundByIndexes(v, v.upper[u]);
        }
      } else {
        var u :| u in v.upper && !(v.upper[u].Lower != ifc.Lower
          && (ifc.NetFlowId != NETFLOW_ID_INVALID ==> v.upper[u].NetFlowId != ifc.NetFlowId));
        assert w.upper[u] == v.upper[u] != ifc;
        assert !FoundByIndexes(w, w.upper[u]);
      }
    }
  }

  lemma RemoveKeepsComplete(v: View, upper: string)
    requires Sound(v) && Complete(v)
    ensures Complete(Removed(v, upper))
  {
    hide RemoveFirst;
    var w := Removed(v, upper);
    forall u | u in w.upper ensures FoundByIndexes(w, w.upper[u]) {
      assert FoundByIndexes(v, v.upper[u]);
      assert upper in v.upper ==> FoundByIndexes(v, v.upper[upper]);
    }
  }

  // ---- Runs ----

  datatype Event = Add(ifc: Interface) | Remove(upper: string)

  function Step(v: View, e: Event): View
  {
    match e
    case Add(ifc) => Added(v, ifc)
    case Remove(upper) => Removed(v, upper)
  }

  function After(es: seq<Event>): View
  {
    if es == [] then EMPTY else Step(After(es[..|es| - 1]), es[|es| - 1])
  }

  // Soundness and the name lists need no assumption on the interfaces.
  lemma {:induction false} AlwaysSound(es: seq<Event>)
    ensures Sound(After(es)) && Named(After(es))
  {
    if es != [] {
      var before, e := es[..|es| - 1], es[|es| - 1];
      AlwaysSound(before);
      match e {
        case Add(ifc) => AddKeepsSound(After(before), ifc); AddKeepsNamed(After(before), ifc);
        case Remove(upper) => RemoveKeepsSound(After(before), upper); RemoveKeepsNamed(After(before), upper);
      }
    }
  }

  // An addition that takes effect takes no index in use.
  predicate Clashes(v: View, e: Event)
  {
    e.Add? && e.ifc.Upper !in v.upper && !IndexesUnused(v, e.ifc)
  }

  predicate ClashesAt(es: seq<Event>, m: nat)
    requires m < |es|
  {
    Clashes(After(es[..m]), es[m])
  }

  ghost predicate CompleteAt(es: seq<Event>, m: nat)
    requires m <= |es|
  {
    Complete(After(es[..m]))
  }

  ghost predicate NeverClashes(es: seq<Event>)
  {
    forall m :: 0 <= m < |es| ==> !ClashesAt(es, m)
  }

  ghost predicate AlwaysComplete(es: seq<Event>)
  {
    forall m :: 0 <= m <= |es| ==> CompleteAt(es, m)
  }

  lemma PrefixesSplit(es: seq<Event>)
    requires es != []
    ensures AlwaysComplete(es) <==> (AlwaysComplete(es[..|es| - 1]) && Complete(After(es)))
    ensures NeverClashes(es) <==> (NeverClashes(es[..|es| - 1]) && !Clashes(After(es[..|es| - 1]), es[|es| - 1]))
  {
    CompleteSplit(es);
    ClashesSplit(es);
  }

  lemma CompleteSplit(es: seq<Event>)
    requires es != []
    ensures AlwaysComplete(es) <==> (AlwaysComplete(es[..|es| - 1]) && Complete(After(es)))
  {
    var before := es[..|es| - 1];
    forall m | 0 <= m <= |before| ensures CompleteAt(before, m) <==> CompleteAt(es, m) {
      CompletePrefix(es, m);
    }
    CompleteWhole(es);
    if AlwaysComplete(before) && Complete(After(es)) {
      forall m | 0 <= m <= |es| ensures CompleteAt(es, m) {
        assert m < |es| ==> CompleteAt(before, m);
      }
    }
  }

  lemma CompletePrefix(es: seq<Event>, m: nat)
    requires m < |es|
    ensures CompleteAt(es[..|es| - 1], m) <==> CompleteAt(es, m)
  {
    assert es[..|es| - 1][..m] == es[..m];
  }

  lemma CompleteWhole(es: seq<Event>)
    ensures CompleteAt(es, |es|) <==> Complete(After(es))
  {
    assert es[..|es|] == es;
  }

  lemma ClashesSplit(es: seq<Event>)
    requires es != []
    ensures NeverClashes(es) <==> (NeverClashes(es[..|es| - 1]) && !Clashes(After(es[..|es| - 1]), es[|es| - 1]))
  {
    hide After, Clashes;
    var n := |es| - 1;
    var before := es[..n];
    forall m | 0 <= m < n ensures ClashesAt(before, m) <==> ClashesAt(es, m) {
      assert before[..m] == es[..m] && before[m] == es[m];
    }
    assert ClashesAt(es, n) <==> Clashes(After(before), es[n]);
    if NeverClashes(before) && !ClashesAt(es, n) {
      forall m | 0 <= m < |es| ensures !ClashesAt(es, m) {
        assert m < n ==> !ClashesAt(before, m);
      }
    }
  }

  // At every moment of a run every live interface is found by each of its indexes exactly when no
  // addition of the run took a lower name or a NetFlow id in use.
  lemma {:induction false} CompleteExactly(es: seq<Event>)
    ensures AlwaysComplete(es) <==> NeverClashes(es)
  {
    if es == [] {
      CompleteWhole(es);
      assert AlwaysComplete(es) && NeverClashes(es);
    } else {
      var before, e := es[..|es| - 1], es[|es| - 1];
      CompleteExactly(before);
      PrefixesSplit(es);
      AlwaysSound(before);
      if AlwaysComplete(before) {
        CompleteWhole(before);
        assert CompleteAt(before, |before|);
        match e {
          case Add(ifc) => AddKeepsCompleteExactly(After(before), ifc);
          case Remove(upper) => RemoveKeepsComplete(After(before), upper);
        }
      }
    }
  }

  // Distinct indexes of the interfaces live now are not enough: of two interfaces with one lower name,
  // removing the later one also removes the entry of the earlier, which is then alone and not found.
  lemma DistinctNowIsNotEnough(a: Interface, b: Interface)
    requires a.Upper != b.Upper && a.Lower == b.Lower
    ensures var v := After([Add(a), Add(b), Remove(b.Upper)]);
      v.upper == map[a.Upper := a] && a.Lower !in v.lower && !Complete(v)
  {
    ThreeSteps(Add(a), Add(b), Remove(b.Upper));
    var v1 := Added(EMPTY, a);
    var v2 := Added(v1, b);
    assert v1.upper == map[a.Upper := a] && v1.lower == map[a.Lower := a];
    SharedLower(v1, a, b);
  }

  lemma SharedLower(v: View, a: Interface, b: Interface)
    requires a.Upper != b.Upper && a.Lower == b.Lower
    requires v.upper == map[a.Upper := a] && v.lower == map[a.Lower := a]
    ensures var r := Removed(Added(v, b), b.Upper);
      r.upper == map[a.Upper := a] && a.Lower !in r.lower && !Complete(r)
  {
    var w := Added(v, b);
    var r := Removed(w, b.Upper);
    assert w.upper == v.upper[b.Upper := b] && w.upper[b.Upper] == b;
    PutDelete(v.upper, b.Upper, b);
    assert r.upper == v.upper && r.lower == w.lower - {b.Lower};
    assert r.upper[a.Upper] == a && !FoundByIndexes(r, a);
  }

  lemma ThreeSteps(e: Event, f: Event, g: Event)
    ensures After([e, f, g]) == Step(Step(Step(EMPTY, e), f), g)
  {
    assert [e, f, g][..2] == [e, f] && [e, f][..1] == [e] && [e][..0] == [];
    assert After([e]) == Step(EMPTY, e);
    assert After([e, f]) == Step(Step(EMPTY, e), f);
  }

  // ---- Adding and removing again ----

  // It restores all four maps and both lists exactly when the lower name and the NetFlow id were unused
  // as keys; otherwise the removal takes the other interface's entry with it.
  lemma AddRemoveRestoresExactly(v: View, ifc: Interface)
    requires Sound(v) && Named(v) && ifc.Upper !in v.upper
    ensures Removed(Added(v, ifc), ifc.Upper) == v
       <==> ifc.Lower !in v.lower && (ifc.NetFlowId == NETFLOW_ID_INVALID || ifc.NetFlowId !in v.netFlow)
  {
    var r := Removed(Added(v, ifc), ifc.Upper);
    RestoresIndexes(v, ifc);
    RestoresNames(v, ifc);
    assert r == v <==> r.upper == v.upper && r.lower == v.lower && r.netFlow == v.netFlow && r.nextHop == v.nextHop
                       && r.lan == v.lan && r.wan == v.wan;
  }

  lemma RestoresIndexes(v: View, ifc: Interface)
    requires ifc.Upper !in v.upper && ifc.Upper !in v.nextHop
    ensures var r := Removed(Added(v, ifc), ifc.Upper);
      && r.upper == v.upper && r.nextHop == v.nextHop
      && (r.lower == v.lower <==> ifc.Lower !in v.lower)
      && (r.netFlow == v.netFlow <==> ifc.NetFlowId == NETFLOW_ID_INVALID || ifc.NetFlowId !in v.netFlow)
  {
    hide Sort, RemoveFirst;
    var w := Added(v, ifc);
    assert w.upper[ifc.Upper] == ifc;
    PutDelete(v.upper, ifc.Upper, ifc);
    PutDelete(v.lower, ifc.Lower, ifc);
    PutDelete(v.netFlow, ifc.NetFlowId, ifc);
    PutDelete(v.nextHop, ifc.Upper, ifc);
    assert v.nextHop - {ifc.Upper} == v.nextHop;
  }

  lemma PutDelete<K, V>(m: map<K, V>, k: K, x: V)
    ensures m[k := x] - {k} == m <==> k !in m
  {
    assert k !in m ==> m[k := x] - {k} == m;
  }

  lemma RestoresNames(v: View, ifc: Interface)
    requires Named(v) && ifc.Upper !in v.upper
    ensures var r := Removed(Added(v, ifc), ifc.Upper); r.lan == v.lan && r.wan == v.wan
  {
    var w := Added(v, ifc);
    assert w.upper[ifc.Upper] == ifc;
    if ifc.IsWan {
      AppendSortRemove(v.wan, ifc.Upper);
      RemoveAbsent(v.lan, ifc.Upper);
    } else {
      AppendSortRemove(v.lan, ifc.Upper);
      RemoveAbsent(v.wan, ifc.Upper);
    }
  }

  lemma {:induction false} RemoveAbsent(s: seq<string>, x: string)
    requires x !in s
    ensures RemoveFirst(s, x) == s
  {
    hide RemoveFirst;
    assert s[0..] == s;
    if s == [] {
      NothingToRemove(x);
    } else {
      RemoveFirstFrom(s, x, 0);
      RemoveAbsent(s[1..], x);
      assert s == [s[0]] + s[1..];
    }
  }

  // ---- Visiting ----

  // The order GetInterfaces visits: LAN before WAN, each by name.
  function VisitOrder(v: View): seq<string> { v.lan + v.wan }

  // LAN before WAN, and within each by name.
  predicate ComesFirst(v: View, a: string, b: string)
  {
    && a in v.upper && b in v.upper && (v.upper[a].IsWan ==> v.upper[b].IsWan)
    && (v.upper[a].IsWan == v.upper[b].IsWan ==> AtMost(a, b))
  }

  // It meets every live interface exactly once and never a missing one.
  lemma VisitsEachOnce(es: seq<Event>)
    ensures var v := After(es); var order := VisitOrder(v);
      && NoDuplicates(order)
      && (forall i, j :: 0 <= i < j < |order| ==> ComesFirst(v, order[i], order[j]))
      && (forall u :: u in order <==> u in v.upper)
      && |order| == |v.upper|
  {
    AlwaysSound(es);
    NamedOrder(After(es));
    NamedByKind(After(es));
  }

  lemma NamedByKind(v: View)
    requires Named(v)
    ensures forall i, j :: 0 <= i < j < |VisitOrder(v)| ==> ComesFirst(v, VisitOrder(v)[i], VisitOrder(v)[j])
  {
    hide AtMost;
    var order, n := VisitOrder(v), |v.lan|;
    forall i, j | 0 <= i < j < |order|
      ensures ComesFirst(v, order[i], order[j])
    {
      assert order[i] == if i < n then v.lan[i] else v.wan[i - n];
      assert order[j] == if j < n then v.lan[j] else v.wan[j - n];
    }
  }

  lemma NamedOrder(v: View)
    requires Named(v)
    ensures NoDuplicates(VisitOrder(v))
    ensures forall u :: u in VisitOrder(v) <==> u in v.upper
    ensures |VisitOrder(v)| == |v.upper|
  {
    var order := VisitOrder(v);
    forall i, j | 0 <= i < j < |order| ensures order[i] != order[j] {
      assert i < |v.lan| ==> order[i] == v.lan[i] && v.lan[i] in v.lan;
      assert j >= |v.lan| ==> order[j] == v.wan[j - |v.lan|] && v.wan[j - |v.lan|] in v.wan;
    }
    assert forall u :: u in order <==> u in v.lan || u in v.wan;
    CountsLikeSet(order);
    assert v.upper.Keys == set u | u in order;
  }

  lemma {:induction false} CountsLikeSet(s: seq<string>)
    requires NoDuplicates(s)
    ensures |set x | x in s| == |s|
  {
    if s != [] {
      var n := |s| - 1;
      CountsLikeSet(s[..n]);
      assert forall i :: 0 <= i < n ==> s[..n][i] == s[i] != s[n];
      assert (set x | x in s) == (set x | x in s[..n]) + {s[n]};
      assert s[n] !in s[..n];
    }
  }
}
