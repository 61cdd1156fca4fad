/** Flow accounting: messages are summed per printed flow key in a window, which GetFlows swaps out and
    reports. Sums and totals over any interleaving of the two. */
module FlowWindows {
  import opened GoTypes
  import opened IpAddress
  import opened FlowKeys

  // A NetFlow record; protocol and ports come as 32-bit fields.
  datatype Message = Message(proto: u32, srcAddr: IP, dstAddr: IP, srcPort: u32, dstPort: u32,
                             inIf: u32, outIf: u32, bytes: u64, packets: u64)

  // What Publish makes of a message: the flow, its key, and the names of its interfaces.
  datatype Update = Update(key: string, flow: FlowKey, inIf: string, outIf: string, bytes: u64, packets: u64)

  // NetFlow ids of the registered interfaces, with their upper names.
  type Names = map<u32, string>

  function NameOf(names: Names, id: u32): string { if id in names then names[id] else "N/A" }

  function FlowOf(msg: Message): FlowKey
  {
    FlowKey(msg.proto % TWO8, msg.srcAddr, msg.dstAddr, ToU16(msg.srcPort), ToU16(msg.dstPort))
  }

  function UpdateOf(names: Names, msg: Message): Update
  {
    Update(AsKey(FlowOf(msg)), FlowOf(msg), NameOf(names, msg.inIf), NameOf(names, msg.outIf), msg.bytes, msg.packets)
  }

  function UpdatesOf(names: Names, msgs: seq<Message>): seq<Update>
  {
    seq(|msgs|, i requires 0 <= i < |msgs| => UpdateOf(names, msgs[i]))
  }

  datatype Aggregate = Aggregate(flow: FlowKey, inIf: string, outIf: string, packets: u64, bytes: u64)

  type Window = map<string, Aggregate>

  // A further message of a flow: counters wrap at 64 bits, its interface names win.
  function Updated(agg: Aggregate, u: Update): Aggregate
  {
    agg.(bytes := ToU64(agg.bytes + u.bytes), packets := ToU64(agg.packets + u.packets),
         inIf := u.inIf, outIf := u.outIf)
  }

  function First(u: Update): Aggregate { Aggregate(u.flow, u.inIf, u.outIf, u.packets, u.bytes) }

  function Absorb(w: Window, u: Update): Window
  {
    w[u.key := if u.key in w then Updated(w[u.key], u) else First(u)]
  }

  function Published(w: Window, us: seq<Update>): Window
  {
    if us == [] then w else Absorb(Published(w, us[..|us| - 1]), us[|us| - 1])
  }

  // ---- Publish is a per-key sum ----

  // The messages of one flow, in order.
  function Of(us: seq<Update>, key: string): (r: seq<Update>)
    ensures forall i :: 0 <= i < |r| ==> r[i].key == key
  {
    if us == [] then []
    else
      var n := |us| - 1;
      Of(us[..n], key) + if us[n].key == key then [us[n]] else []
  }

  datatype Metric = Bytes | Packets

  function Amount(u: Update, m: Metric): nat { if m == Bytes then u.bytes else u.packets }

  function Counter(a: Aggregate, m: Metric): nat { if m == Bytes then a.bytes else a.packets }

  function Sum(us: seq<Update>, m: Metric): nat
  {
    if us == [] then 0 else Sum(us[..|us| - 1], m) + Amount(us[|us| - 1], m)
  }

  lemma SumSnoc(us: seq<Update>, u: Update, m: Metric)
    ensures Sum(us + [u], m) == Sum(us, m) + Amount(u, m)
  {
    assert (us + [u])[..|us|] == us;
  }

  lemma WrapSum(a: nat, b: nat)
    ensures ToU64(ToU64(a) + b) == ToU64(a + b)
  {
  }

  // What the messages of one flow should leave: the flow as the first gave it, all counters summed
  // modulo 2^64, the interfaces of the last.
  function Expected(own: seq<Update>): Aggregate
    requires own != []
  {
    Aggregate(own[0].flow, own[|own| - 1].inIf, own[|own| - 1].outIf, ToU64(Sum(own, Packets)), ToU64(Sum(own, Bytes)))
  }

  lemma ExpectedSnoc(own: seq<Update>, u: Update)
    ensures Expected(own + [u]) == if own == [] then First(u) else Updated(Expected(own), u)
  {
    SumSnoc(own, u, Bytes);
    SumSnoc(own, u, Packets);
    WrapSum(Sum(own, Bytes), u.bytes);
    WrapSum(Sum(own, Packets), u.packets);
    if own == [] {
      assert Sum(own, Bytes) == 0 && Sum(own, Packets) == 0;
    }
  }

  // For every flow key the window holds exactly what the flow's own messages should leave, and nothing
  // for a key without messages.
  lemma {:induction false} PublishedSums(us: seq<Update>, key: string)
    ensures key in Published(map[], us) <==> Of(us, key) != []
    ensures key in Published(map[], us) ==> Published(map[], us)[key] == Expected(Of(us, key))
  {
    if us != [] {
      var n := |us| - 1;
      var before, u := us[..n], us[n];
      PublishedSums(before, key);
      var own := Of(before, key);
      if u.key == key {
        ExpectedSnoc(own, u);
      } else {
        assert own + [] == own;
      }
    }
  }

  // How the messages are cut into batches does not matter.
  lemma {:induction false} BatchesCompose(w: Window, a: seq<Update>, b: seq<Update>)
    ensures Published(Published(w, a), b) == Published(w, a + b)
  {
    if b == [] {
      assert a + b == a;
    } else {
      var n := |b| - 1;
      BatchesCompose(w, a, b[..n]);
      assert (a + b)[..|a + b| - 1] == a + b[..n];
    }
  }

  // ---- Totals ----

  ghost function SumMap(m: map<string, nat>): nat
  {
    if m == map[] then 0
    else
      var k :| k in m;
      m[k] + SumMap(m - {k})
  }

  lemma {:induction false} SumMapPick(m: map<string, nat>, k: string)
    requires k in m
    ensures SumMap(m) == m[k] + SumMap(m - {k})
    decreases |m|
  {
    var p :| p in m && SumMap(m) == m[p] + SumMap(m - {p});
    if p != k {
      SumMapPick(m - {p}, k);
      SumMapPick(m - {k}, p);
      assert m - {p} - {k} == m - {k} - {p};
    }
  }

  lemma SumMapPut(m: map<string, nat>, k: string, v: nat)
    ensures SumMap(m[k := v]) == SumMap(m - {k}) + v
    ensures SumMap(m) == SumMap(m - {k}) + if k in m then m[k] else 0
  {
    SumMapPick(m[k := v], k);
    assert m[k := v] - {k} == m - {k};
    if k in m {
      SumMapPick(m, k);
    } else {
      assert m - {k} == m;
    }
  }

  ghost function Counters(w: Window, m: Metric): map<string, nat> { map k | k in w :: Counter(w[k], m) }

  ghost function Total(w: Window, m: Metric): nat { SumMap(Counters(w, m)) }

  ghost predicate Congruent(a: int, b: int) { (a - b) % TWO64 == 0 }

  lemma WrapCongruent(a: nat)
    ensures Congruent(ToU64(a), a)
  {
  }

  lemma WrapExact(a: nat)
    ensures a < TWO64 ==> ToU64(a) == a
  {
  }

  // a' stands for a + x, within a sum that stands for p.
  lemma CongruentStep(a': int, a: int, x: int, d: int, p: int)
    requires Congruent(a', a + x) && Congruent(a + d, p)
    ensures Congruent(a' + d, p + x)
  {
  }

  lemma AbsorbCounters(w: Window, u: Update, m: Metric)
    ensures var c := Counters(w, m);
      Counters(Absorb(w, u), m) == c[u.key := ToU64((if u.key in c then c[u.key] else 0) + Amount(u, m))]
  {
    WrapExact(Amount(u, m));
  }

  lemma AbsorbTotal(w: Window, u: Update, m: Metric)
    ensures Congruent(Total(Absorb(w, u), m), Total(w, m) + Amount(u, m))
    ensures Total(w, m) + Amount(u, m) < TWO64 ==> Total(Absorb(w, u), m) == Total(w, m) + Amount(u, m)
  {
    var c, c' := Counters(w, m), Counters(Absorb(w, u), m);
    AbsorbCounters(w, u, m);
    var was: nat := if u.key in c then c[u.key] else 0;
    WrapCongruent(was + Amount(u, m));
    WrapExact(was + Amount(u, m));
    PutTotal(c, u.key, was, c'[u.key], Amount(u, m));
  }

  lemma PutTotal(c: map<string, nat>, key: string, was: nat, now: nat, x: nat)
    requires was == if key in c then c[key] else 0
    requires Congruent(now, was + x) && (was + x < TWO64 ==> now == was + x)
    ensures Congruent(SumMap(c[key := now]), SumMap(c) + x)
    ensures SumMap(c) + x < TWO64 ==> SumMap(c[key := now]) == SumMap(c) + x
  {
    SumMapPut(c, key, now);
    var rest := SumMap(c - {key});
    CongruentStep(now, was, x, rest, rest + was);
  }

  lemma EmptyTotal(m: Metric)
    ensures Total(map[], m) == 0
  {
    assert Counters(map[], m) == map[];
  }

  // ---- Runs of publishing and draining ----

  // One drain: the window it took and the time it covers, in nanoseconds.
  datatype Drain = Drain(window: Window, interval: int)

  datatype State = State(window: Window, start: int, drains: seq<Drain>)

  datatype Event = Publish(updates: seq<Update>) | GetFlows(now: int)

  function Step(s: State, e: Event): State
  {
    match e
    case Publish(us) => s.(window := Published(s.window, us))
    case GetFlows(now) => State(map[], now, s.drains + [Drain(s.window, now - s.start)])
  }

  function After(start: int, es: seq<Event>): State
  {
    if es == [] then State(map[], start, []) else Step(After(start, es[..|es| - 1]), es[|es| - 1])
  }

  function AllPublished(es: seq<Event>): seq<Update>
  {
    if es == [] then []
    else
      var n := |es| - 1;
      AllPublished(es[..n]) + if es[n].Publish? then es[n].updates else []
  }

  ghost function Drained(ds: seq<Drain>, m: Metric): nat
  {
    if ds == [] then 0 else Drained(ds[..|ds| - 1], m) + Total(ds[|ds| - 1].window, m)
  }

  ghost function Accounted(s: State, m: Metric): nat { Total(s.window, m) + Drained(s.drains, m) }

  lemma {:induction false} PublishedTotal(w: Window, us: seq<Update>, m: Metric)
    ensures Congruent(Total(Published(w, us), m), Total(w, m) + Sum(us, m))
    ensures Total(w, m) + Sum(us, m) < TWO64 ==> Total(Published(w, us), m) == Total(w, m) + Sum(us, m)
  {
    if us != [] {
      var before, u := us[..|us| - 1], us[|us| - 1];
      PublishedTotal(w, before, m);
      AbsorbTotal(Published(w, before), u, m);
      var was, now := Total(Published(w, before), m), Total(Published(w, us), m);
      CongruentStep(now, was, Amount(u, m), 0, Total(w, m) + Sum(before, m));
    }
  }

  lemma {:induction false} SumConcat(a: seq<Update>, b: seq<Update>, m: Metric)
    ensures Sum(a + b, m) == Sum(a, m) + Sum(b, m)
  {
    if b == [] {
      assert a + b == a;
    } else {
      SumConcat(a, b[..|b| - 1], m);
      assert (a + b)[..|a + b| - 1] == a + b[..|b| - 1];
    }
  }

  lemma PublishAccounts(s: State, us: seq<Update>, m: Metric, p: nat)
    requires Congruent(Accounted(s, m), p) && (p < TWO64 ==> Accounted(s, m) == p)
    ensures var t := Step(s, Publish(us)); var q := p + Sum(us, m);
      Congruent(Accounted(t, m), q) && (q < TWO64 ==> Accounted(t, m) == q)
  {
    PublishedTotal(s.window, us, m);
    CongruentStep(Total(Published(s.window, us), m), Total(s.window, m), Sum(us, m), Drained(s.drains, m), p);
  }

  lemma DrainAccounts(s: State, now: int, m: Metric)
    ensures Accounted(Step(s, GetFlows(now)), m) == Accounted(s, m)
  {
    var d := Drain(s.window, now - s.start);
    assert (s.drains + [d])[..|s.drains|] == s.drains;
    EmptyTotal(m);
  }

  // Conservation over whole runs: everything published is in the live window or in a drained one. The
  // totals agree modulo 2^64, and exactly as long as less than 2^64 was published.
  lemma {:induction false} Conservation(start: int, es: seq<Event>, m: Metric)
    ensures Congruent(Accounted(After(start, es), m), Sum(AllPublished(es), m))
    ensures Sum(AllPublished(es), m) < TWO64 ==> Accounted(After(start, es), m) == Sum(AllPublished(es), m)
  {
    hide Congruent, Total, Sum, Published, AllPublished;
    if es == [] {
      NothingPublished(m);
    } else {
      var before, e := es[..|es| - 1], es[|es| - 1];
      Conservation(start, before, m);
      var s := After(start, before);
      AllPublishedStep(es, m);
      if e.Publish? {
        PublishAccounts(s, e.updates, m, Sum(AllPublished(before), m));
      } else {
        DrainAccounts(s, e.now, m);
      }
    }
  }

  lemma NothingPublished(m: Metric)
    ensures Total(map[], m) == 0 && Sum(AllPublished([]), m) == 0 && Congruent(0, 0)
  {
    EmptyTotal(m);
  }

  lemma AllPublishedStep(es: seq<Event>, m: Metric)
    requires es != []
    ensures var before, e := es[..|es| - 1], es[|es| - 1];
      Sum(AllPublished(es), m) == Sum(AllPublished(before), m) + if e.Publish? then Sum(e.updates, m) else 0
  {
    var before, e := es[..|es| - 1], es[|es| - 1];
    if e.Publish? {
      SumConcat(AllPublished(before), e.updates, m);
    } else {
      assert AllPublished(before) + [] == AllPublished(before);
    }
  }

  // The intervals of the drains cover the run without gap or overlap.
  function Covered(ds: seq<Drain>): int
  {
    if ds == [] then 0 else Covered(ds[..|ds| - 1]) + ds[|ds| - 1].interval
  }

  lemma {:induction false} IntervalsCover(start: int, es: seq<Event>)
    ensures start + Covered(After(start, es).drains) == After(start, es).start
  {
    if es != [] {
      var before, e := es[..|es| - 1], es[|es| - 1];
      IntervalsCover(start, before);
      var s := After(start, before);
      if e.GetFlows? {
        var d := Drain(s.window, e.now - s.start);
        assert (s.drains + [d])[..|s.drains|] == s.drains;
      }
    }
  }

  // ---- Delivery splits a window ----

  function Part(w: Window, keys: set<string>): Window { map k | k in w && k in keys :: w[k] }

  lemma {:induction false} SumSplits(c: map<string, nat>, keys: set<string>)
    ensures SumMap(c) == SumMap(map k | k in c && k in keys :: c[k]) + SumMap(map k | k in c && k !in keys :: c[k])
    decreases |c|
  {
    var p, q := map k | k in c && k in keys :: c[k], map k | k in c && k !in keys :: c[k];
    if c != map[] {
      var x :| x in c;
      var r := c - {x};
      SumSplits(r, keys);
      SumMapPick(c, x);
      var rp, rq := map k | k in r && k in keys :: r[k], map k | k in r && k !in keys :: r[k];
      if x in keys {
        SumMapPick(p, x);
        assert p - {x} == rp && q == rq;
      } else {
        SumMapPick(q, x);
        assert q - {x} == rq && p == rp;
      }
    }
  }

  // What is delivered and what the threshold suppresses add up to the window.
  lemma PartsAddUp(w: Window, keys: set<string>, m: Metric)
    ensures Total(w, m) == Total(Part(w, keys), m) + Total(Part(w, w.Keys - keys), m)
  {
    var c := Counters(w, m);
    SumSplits(c, keys);
    assert Counters(Part(w, keys), m) == map k | k in c && k in keys :: c[k];
    assert Counters(Part(w, w.Keys - keys), m) == map k | k in c && k !in keys :: c[k];
  }
}
