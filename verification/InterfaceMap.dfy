/** The registry as the program holds it: fields updated in place by NewInterface and RemoveInterface,
    the lookups, and the visits of GetInterfaces. */
module InterfaceMap {
  import opened GoTypes
  import opened IpAddress
  import opened SortedNames
  import opened Registry

  // A visit of the names in order, where `accepts` tells whether the visitor accepts its k-th call: it
  // stops after the first rejection, and otherwise visits all.
  ghost predicate Visit(names: seq<string>, accepts: nat -> bool, calls: nat, ok: bool, visited: seq<string>)
  {
    && |visited| <= |names| && visited == names[..|visited|]
    && (ok <==> forall k :: calls <= k < calls + |names| ==> accepts(k))
    && (ok ==> visited == names)
    && (!ok ==> |visited| > 0 && !accepts(calls + |visited| - 1)
                && forall k :: calls <= k < calls + |visited| - 1 ==> accepts(k))
  }

  lemma VisitStops(a: seq<string>, b: seq<string>, accepts: nat -> bool, visited: seq<string>)
    requires Visit(a, accepts, 0, false, visited)
    ensures Visit(a + b, accepts, 0, false, visited)
  {
    assert (a + b)[..|visited|] == a[..|visited|];
    assert !accepts(|visited| - 1);
  }

  lemma VisitContinues(a: seq<string>, b: seq<string>, accepts: nat -> bool, ok: bool, rest: seq<string>)
    requires Visit(a, accepts, 0, true, a) && Visit(b, accepts, |a|, ok, rest)
    ensures Visit(a + b, accepts, 0, ok, a + rest)
  {
    assert (a + b)[..|a + rest|] == a + rest;
  }

  // What the telemetry monitor is asked to do, by lower name.
  datatype Request = Watch(lower: string) | Unwatch(lower: string)

  function Asked(monitor: Option<seq<Request>>, r: Request): Option<seq<Request>>
  {
    if monitor.None? then None else Some(monitor.value + [r])
  }

  lemma RemoveMissing(v: View, upper: string)
    requires upper !in v.upper
    ensures Removed(v, upper) == v
  {
  }

  lemma RemovedFields(v: View, upper: string, w: View)
    requires upper in v.upper
    requires var ifc := v.upper[upper];
      && w.upper == v.upper - {ifc.Upper} && w.lower == v.lower - {ifc.Lower}
      && w.netFlow == (if ifc.NetFlowId != NETFLOW_ID_INVALID then v.netFlow - {ifc.NetFlowId} else v.netFlow)
      && w.nextHop == v.nextHop - {ifc.Upper}
      && w.lan == RemoveFirst(v.lan, ifc.Upper) && w.wan == RemoveFirst(v.wan, ifc.Upper)
    ensures w == Removed(v, upper)
  {
  }

  class Interfaces {
    // The requests made of the monitor so far, once it runs.
    var Monitor: Option<seq<Request>>
    var Lan: seq<string>
    var Wan: seq<string>
    var Upper2Interface: map<string, Interface>
    var Lower2Interface: map<string, Interface>
    var NetFlow2Interface: map<u32, Interface>
    var NextHop2Interface: map<string, Interface>

    constructor ()
      ensures Contents() == EMPTY && Monitor == None
    {
      Monitor := None;
      Lan, Wan := [], [];
      Upper2Interface, Lower2Interface, NetFlow2Interface, NextHop2Interface := map[], map[], map[], map[];
    }

    function Contents(): View
      reads this
    {
      View(Upper2Interface, Lower2Interface, NetFlow2Interface, NextHop2Interface, Lan, Wan)
    }

    // The NetFlow id comes from the device; the lookup may fail, and the interface is then not added.
    method NewInterface(upper: string, lower: string, nextHop: IP, lookup: Option<u32>) returns (ifc: Interface?)
      modifies this
      ensures ifc == null <==> lookup.None? || upper in old(Upper2Interface)
      ensures ifc == null ==> Contents() == old(Contents()) && Monitor == old(Monitor)
      ensures ifc != null ==> ifc.Upper == upper && ifc.Lower == lower && ifc.NextHop == nextHop
      ensures ifc != null ==> ifc.NetFlowId == lookup.value && ifc.IsWan == IsWanAddress(nextHop)
      ensures ifc != null ==> Contents() == Added(old(Contents()), ifc)
      ensures ifc != null ==> Monitor == Asked(old(Monitor), Watch(lower))
    {
      hide Added;
      if lookup.None? {
        return null;
      }
      ifc := new Interface(upper, lower, lookup.value, nextHop);
      if ifc.Upper in Upper2Interface {
        return null;
      }
      Register(ifc);
      Notify(Watch(ifc.Lower));
    }

    method Register(ifc: Interface)
      requires ifc.Upper !in Upper2Interface
      modifies this
      ensures Contents() == Added(old(Contents()), ifc) && Monitor == old(Monitor)
    {
      hide Sort;
      Index(ifc);
      Enlist(ifc);
    }

    method Notify(r: Request)
      modifies this`Monitor
      ensures Monitor == Asked(old(Monitor), r)
    {
      if Monitor.Some? {
        Monitor := Some(Monitor.value + [r]);
      }
    }

    method Index(ifc: Interface)
      modifies this`Lower2Interface, this`Upper2Interface, this`NetFlow2Interface, this`NextHop2Interface
      ensures Upper2Interface == old(Upper2Interface)[ifc.Upper := ifc]
      ensures Lower2Interface == old(Lower2Interface)[ifc.Lower := ifc]
      ensures NetFlow2Interface ==
        if ifc.NetFlowId == NETFLOW_ID_INVALID then old(NetFlow2Interface)
        else old(NetFlow2Interface)[ifc.NetFlowId := ifc]
      ensures NextHop2Interface ==
        if ifc.IsWan then old(NextHop2Interface)[ifc.Upper := ifc] else old(NextHop2Interface)
    {
      Lower2Interface := Lower2Interface[ifc.Lower := ifc];
      Upper2Interface := Upper2Interface[ifc.Upper := ifc];
      if ifc.NetFlowId != NETFLOW_ID_INVALID {
        NetFlow2Interface := NetFlow2Interface[ifc.NetFlowId := ifc];
      }
      if ifc.IsWan {
        NextHop2Interface := NextHop2Interface[ifc.Upper := ifc];
      }
    }

    method Enlist(ifc: Interface)
      modifies this`Lan, this`Wan
      ensures Wan == if ifc.IsWan then Sort(old(Wan) + [ifc.Upper]) else old(Wan)
      ensures Lan == if ifc.IsWan then old(Lan) else Sort(old(Lan) + [ifc.Upper])
    {
      if ifc.IsWan {
        Wan := Wan + [ifc.Upper];
        Wan := Sort(Wan);
      } else {
        Lan := Lan + [ifc.Upper];
        Lan := Sort(Lan);
      }
    }

    // `unwatched` tells whether the monitor takes the request. If it does not, the call fails, but the
    // interface is gone.
    method RemoveInterface(upper: string, unwatched: bool) returns (ok: bool)
      modifies this
      ensures Contents() == Removed(old(Contents()), upper)
      ensures ok <==> upper !in old(Upper2Interface) || Monitor.None? || unwatched
      ensures Monitor == if upper in old(Upper2Interface)
                         then Asked(old(Monitor), Unwatch(old(Upper2Interface)[upper].Lower)) else old(Monitor)
    {
      hide Removed;
      if upper !in Upper2Interface {
        RemoveMissing(Contents(), upper);
        return true;
      }
      var ifc := Upper2Interface[upper];
      Unregister(upper, ifc);
      Notify(Unwatch(ifc.Lower));
      ok := Monitor.None? || unwatched;
    }

    method Unregister(upper: string, ifc: Interface)
      requires upper in Upper2Interface && Upper2Interface[upper] == ifc
      modifies this`Lower2Interface, this`Upper2Interface, this`NetFlow2Interface, this`NextHop2Interface
      modifies this`Lan, this`Wan
      ensures Contents() == Removed(old(Contents()), upper)
    {
      hide RemoveFirst, Removed;
      ghost var v := Contents();
      Unindex(ifc);
      Unlist(ifc);
      RemovedFields(v, upper, Contents());
    }

    method Unindex(ifc: Interface)
      modifies this`Lower2Interface, this`Upper2Interface, this`NetFlow2Interface, this`NextHop2Interface
      ensures Lower2Interface == old(Lower2Interface) - {ifc.Lower}
      ensures Upper2Interface == old(Upper2Interface) - {ifc.Upper}
      ensures NetFlow2Interface ==
        if ifc.NetFlowId != NETFLOW_ID_INVALID then old(NetFlow2Interface) - {ifc.NetFlowId}
        else old(NetFlow2Interface)
      ensures NextHop2Interface == old(NextHop2Interface) - {ifc.Upper}
    {
      Lower2Interface := Lower2Interface - {ifc.Lower};
      Upper2Interface := Upper2Interface - {ifc.Upper};
      if ifc.NetFlowId != NETFLOW_ID_INVALID {
        NetFlow2Interface := NetFlow2Interface - {ifc.NetFlowId};
      }
      NextHop2Interface := NextHop2Interface - {ifc.Upper};
    }

    method Unlist(ifc: Interface)
      modifies this`Lan, this`Wan
      ensures Wan == RemoveFirst(old(Wan), ifc.Upper) && Lan == RemoveFirst(old(Lan), ifc.Upper)
    {
      Wan := SortedNames.Remove(Wan, ifc.Upper);
      Lan := SortedNames.Remove(Lan, ifc.Upper);
    }

    // The lookups return null for a missing key; what they find is live and carries the key.
    method FindInterfaceByLower(lower: string) returns (ifc: Interface?)
      requires Sound(Contents())
      ensures ifc == null <==> lower !in Lower2Interface
      ensures ifc != null ==> ifc.Lower == lower && Live(Contents(), ifc)
    {
      ifc := if lower in Lower2Interface then Lower2Interface[lower] else null;
    }

    method FindInterfaceByNetFlowId(nfid: u32) returns (ifc: Interface?)
      requires Sound(Contents())
      ensures ifc == null <==> nfid !in NetFlow2Interface
      ensures ifc != null ==> ifc.NetFlowId == nfid != NETFLOW_ID_INVALID && Live(Contents(), ifc)
    {
      ifc := if nfid in NetFlow2Interface then NetFlow2Interface[nfid] else null;
    }

    // The next-hop table is keyed by upper name, not by address.
    method FindInterfaceByNextHop(nh: string) returns (ifc: Interface?)
      requires Sound(Contents()) && Named(Contents())
      ensures ifc == null <==> nh !in Wan
      ensures ifc != null ==> ifc.Upper == nh && ifc.IsWan && Live(Contents(), ifc)
    {
      ifc := if nh in NextHop2Interface then NextHop2Interface[nh] else null;
    }

    method CopyInterfaces(names: seq<string>) returns (copies: seq<Interface>)
      requires Sound(Contents()) && forall u :: u in names ==> u in Upper2Interface
      ensures |copies| == |names|
      ensures forall i :: 0 <= i < |names| ==> copies[i] == Upper2Interface[names[i]] && copies[i].Upper == names[i]
    {
      copies := [];
      var idx := 0;
      while idx < |names|
        invariant 0 <= idx <= |names| && |copies| == idx
        invariant forall i :: 0 <= i < idx ==> copies[i] == Upper2Interface[names[i]] && copies[i].Upper == names[i]
      {
        copies := copies + [Upper2Interface[names[idx]]];
        idx := idx + 1;
      }
    }

    // When the monitor starts, it is asked to watch every live interface, LAN before WAN.
    method StartMonitor()
      requires Sound(Contents()) && Named(Contents())
      modifies this`Monitor
      ensures Monitor.Some? && |Monitor.value| == |VisitOrder(Contents())|
      ensures forall i :: 0 <= i < |Monitor.value| ==>
        Monitor.value[i] == Watch(Upper2Interface[VisitOrder(Contents())[i]].Lower)
    {
      hide Sorted, NoDuplicates, SoundLower, SoundNetFlow, SoundNextHop;
      NamedOrder(Contents());
      var copies := CopyInterfaces(VisitOrder(Contents()));
      var requests: seq<Request> := [];
      var i := 0;
      while i < |copies|
        invariant 0 <= i <= |copies| && |requests| == i
        invariant forall k :: 0 <= k < i ==> requests[k] == Watch(copies[k].Lower)
      {
        requests := requests + [Watch(copies[i].Lower)];
        i := i + 1;
      }
      Monitor := Some(requests);
    }

    // One of the two visits: it stops after the first interface the visitor rejects.
    method VisitAll(names: seq<string>, accepts: nat -> bool, calls: nat) returns (ok: bool, visited: seq<string>)
      requires Sound(Contents()) && forall u :: u in names ==> u in Upper2Interface
      ensures Visit(names, accepts, calls, ok, visited)
    {
      var copies := CopyInterfaces(names);
      visited := [];
      var i := 0;
      while i < |copies|
        invariant 0 <= i <= |copies| && visited == names[..i]
        invariant forall k :: calls <= k < calls + i ==> accepts(k)
      {
        visited := visited + [copies[i].Upper];
        if !accepts(calls + i) {
          return false, visited;
        }
        i := i + 1;
      }
      ok := true;
    }

    // GetInterfaces: LAN, then WAN. A visitor that never fails sees every live interface exactly once.
    method GetInterfaces(accepts: nat -> bool) returns (ok: bool, visited: seq<string>)
      requires Sound(Contents()) && Named(Contents())
      ensures Visit(VisitOrder(Contents()), accepts, 0, ok, visited)
      ensures ok ==> NoDuplicates(visited) && forall u :: u in visited <==> u in Upper2Interface
    {
      NamedOrder(Contents());
      ok, visited := VisitAll(Lan, accepts, 0);
      if !ok {
        VisitStops(Lan, Wan, accepts, visited);
        return;
      }
      var rest;
      ok, rest := VisitAll(Wan, accepts, |Lan|);
      VisitContinues(Lan, Wan, accepts, ok, rest);
      visited := visited + rest;
    }
  }
}
