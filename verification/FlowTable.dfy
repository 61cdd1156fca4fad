/** The flow table of the program: Publish updates the window in place, GetFlows swaps it out and
    reports the flows at or above the threshold, visiting the old window in any order. */
module FlowTable {
  import opened GoTypes
  import opened FlowKeys
  import opened FlowWindows
  import opened FlowRates

  datatype Telemetry = Telemetry(rxRatePps: u64, rxRateBps: u64, rxTotalPkts: u64, rxTotalBytes: u64,
                                 ingressIf: string, egressIf: string)

  function ToTelemetry(agg: Aggregate, interval: int): Telemetry
  {
    var millis := Millis(interval);
    Telemetry(Rate(agg.packets, millis), Rate(agg.bytes, millis), agg.packets, agg.bytes, agg.inIf, agg.outIf)
  }

  // What a visitor is called with.
  datatype Delivery = Delivery(flow: FlowKey, stats: Telemetry)

  // The flows of a window that reach the threshold over an interval.
  function Reported(w: Window, interval: int, threshold: u64): set<string>
  {
    set k | k in w && Passes(w[k].bytes, Millis(interval), threshold)
  }

  // By the bytes, where the rate does not wrap.
  lemma ReportedExactly(w: Window, interval: int, threshold: u64, k: string)
    requires k in w && Fits(w[k].bytes)
    ensures k in Reported(w, interval, threshold) <==> 1000 * w[k].bytes + 999 >= threshold * Millis(interval)
  {
    hide Millis, Passes;
    PassesExactly(w[k].bytes, Millis(interval), threshold);
  }

  // What is said of a flow: its own counters and interfaces, and of each counter its own rate, which is
  // left open where the computation wraps.
  predicate Delivers(w: Window, key: string, interval: int, d: Delivery)
  {
    && key in w && d.flow == w[key].flow
    && d.stats.rxTotalBytes == w[key].bytes && d.stats.rxTotalPkts == w[key].packets
    && d.stats.ingressIf == w[key].inIf && d.stats.egressIf == w[key].outIf
    && (Fits(w[key].bytes) ==> IsRateOf(d.stats.rxRateBps, w[key].bytes, Millis(interval)))
    && (Fits(w[key].packets) ==> IsRateOf(d.stats.rxRatePps, w[key].packets, Millis(interval)))
  }

  lemma TelemetryDelivers(w: Window, key: string, interval: int)
    requires key in w
    ensures Delivers(w, key, interval, Delivery(w[key].flow, ToTelemetry(w[key], interval)))
  {
    hide Millis, Rate, IsRateOf;
    var m := Millis(interval);
    if Fits(w[key].bytes) {
      RateIsExactly(w[key].bytes, m, Rate(w[key].bytes, m));
    }
    if Fits(w[key].packets) {
      RateIsExactly(w[key].packets, m, Rate(w[key].packets, m));
    }
  }

  // ---- Totals of a drain ----

  function BytesDelivered(ds: seq<Delivery>): nat
  {
    if ds == [] then 0 else BytesDelivered(ds[..|ds| - 1]) + ds[|ds| - 1].stats.rxTotalBytes
  }

  function PacketsDelivered(ds: seq<Delivery>): nat
  {
    if ds == [] then 0 else PacketsDelivered(ds[..|ds| - 1]) + ds[|ds| - 1].stats.rxTotalPkts
  }

  lemma PartGrows(w: Window, keys: set<string>, key: string, m: Metric)
    requires key in w && key !in keys
    ensures Total(Part(w, keys + {key}), m) == Total(Part(w, keys), m) + Counter(w[key], m)
  {
    var c, d := Counters(Part(w, keys), m), Counters(Part(w, keys + {key}), m);
    assert d == c[key := Counter(w[key], m)];
    SumMapPut(c, key, Counter(w[key], m));
    assert c - {key} == c;
  }

  // The totals delivered are those of the reported part of the window.
  ghost predicate CountsAll(w: Window, keys: set<string>, ds: seq<Delivery>)
  {
    && BytesDelivered(ds) == Total(Part(w, keys), Bytes)
    && PacketsDelivered(ds) == Total(Part(w, keys), Packets)
  }

  function KeysIn(order: seq<string>): set<string> { set k | k in order }

  lemma KeysSnoc(order: seq<string>)
    requires order != [] && forall i, j :: 0 <= i < j < |order| ==> order[i] != order[j]
    ensures var n := |order| - 1; KeysIn(order) == KeysIn(order[..n]) + {order[n]} && order[n] !in KeysIn(order[..n])
  {
    assert order == order[..|order| - 1] + [order[|order| - 1]];
  }

  lemma DeliveredCounters(w: Window, key: string, interval: int, d: Delivery)
    requires Delivers(w, key, interval, d)
    ensures key in w
    ensures d.stats.rxTotalBytes == Counter(w[key], Bytes) && d.stats.rxTotalPkts == Counter(w[key], Packets)
  {
  }

  lemma {:induction false} DeliveriesAddUp(w: Window, order: seq<string>, ds: seq<Delivery>, interval: int)
    requires |order| == |ds| && forall i, j :: 0 <= i < j < |order| ==> order[i] != order[j]
    requires forall i :: 0 <= i < |ds| ==> Delivers(w, order[i], interval, ds[i])
    ensures BytesDelivered(ds) == Total(Part(w, KeysIn(order)), Bytes)
    ensures PacketsDelivered(ds) == Total(Part(w, KeysIn(order)), Packets)
  {
    hide Total, Part, Delivers, Counter, KeysIn;
    if ds == [] {
      NothingDelivered(w, order);
    } else {
      var n := |ds| - 1;
      DeliveriesAddUp(w, order[..n], ds[..n], interval);
      KeysSnoc(order);
      DeliveredCounters(w, order[n], interval, ds[n]);
      PartGrows(w, KeysIn(order[..n]), order[n], Bytes);
      PartGrows(w, KeysIn(order[..n]), order[n], Packets);
    }
  }

  lemma NothingDelivered(w: Window, order: seq<string>)
    requires order == []
    ensures Total(Part(w, KeysIn(order)), Bytes) == 0 && Total(Part(w, KeysIn(order)), Packets) == 0
  {
    assert Part(w, KeysIn(order)) == map[];
    EmptyTotal(Bytes);
    EmptyTotal(Packets);
  }

  // Delivered and suppressed flows of a drain account for the whole window.
  lemma DeliveredPlusSuppressed(w: Window, interval: int, threshold: u64, m: Metric)
    ensures Total(w, m) == Total(Part(w, Reported(w, interval, threshold)), m)
                         + Total(Part(w, w.Keys - Reported(w, interval, threshold)), m)
  {
    PartsAddUp(w, Reported(w, interval, threshold), m);
  }

  class Flows {
    var start: int
    var aggregate: Window

    constructor (now: int)
      ensures start == now && aggregate == map[]
    {
      start, aggregate := now, map[];
    }

    method Publish(names: Names, update: seq<Message>)
      modifies this`aggregate
      ensures aggregate == Published(old(aggregate), UpdatesOf(names, update))
    {
      Record(UpdatesOf(names, update));
    }

    method Record(us: seq<Update>)
      modifies this`aggregate
      ensures aggregate == Published(old(aggregate), us)
    {
      var i := 0;
      while i < |us|
        invariant 0 <= i <= |us|
        invariant aggregate == Published(old(aggregate), us[..i])
      {
        assert us[..i + 1][..i] == us[..i];
        var u := us[i];
        if u.key in aggregate {
          var agg := aggregate[u.key];
          agg := agg.(bytes := ToU64(agg.bytes + u.bytes), packets := ToU64(agg.packets + u.packets));
          agg := agg.(inIf := u.inIf, outIf := u.outIf);
          aggregate := aggregate[u.key := agg];
        } else {
          aggregate := aggregate[u.key := Aggregate(u.flow, u.inIf, u.outIf, u.packets, u.bytes)];
        }
        i := i + 1;
      }
      assert us[..i] == us;
    }

    // `order` names the delivered flows in the order they were visited.
    method GetFlows(now: int, threshold: u64) returns (delivered: seq<Delivery>, ghost order: seq<string>)
      modifies this
      ensures aggregate == map[] && start == now
      ensures |order| == |delivered|
      ensures forall i, j :: 0 <= i < j < |order| ==> order[i] != order[j]
      ensures forall k :: k in order <==> k in Reported(old(aggregate), now - old(start), threshold)
      ensures forall i :: 0 <= i < |order| ==> Delivers(old(aggregate), order[i], now - old(start), delivered[i])
      ensures CountsAll(old(aggregate), Reported(old(aggregate), now - old(start), threshold), delivered)
    {
      hide Delivers, Part, Total;
      var window := aggregate;
      aggregate := map[];
      var prev := start;
      start := now;
      delivered, order := [], [];
      var rest := window.Keys;
      while rest != {}
        invariant rest <= window.Keys && |order| == |delivered| && aggregate == map[] && start == now
        invariant forall i, j :: 0 <= i < j < |order| ==> order[i] != order[j]
        invariant forall k :: k in order <==> k !in rest && k in Reported(window, now - prev, threshold)
        invariant forall i :: 0 <= i < |order| ==> Delivers(window, order[i], now - prev, delivered[i])
      {
        var k :| k in rest;
        rest := rest - {k};
        var stats := ToTelemetry(window[k], now - prev);
        TelemetryDelivers(window, k, now - prev);
        if stats.rxRateBps >= threshold || 0 >= threshold {
          delivered := delivered + [Delivery(window[k].flow, stats)];
          order := order + [k];
        }
      }
      DeliveriesAddUp(window, order, delivered, now - prev);
      assert KeysIn(order) == Reported(window, now - prev, threshold);
    }
  }
}
