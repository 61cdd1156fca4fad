/** The accumulated output of the batch client: per key, a time-weighted average that is updated with
    every entry. Floating-point values are modelled as reals. */
module Accumulator {
  datatype AverageF64 = AverageF64(weightA: real, weightB: real)
  {
    predicate Usable() { weightA >= 0.0 && weightB > 0.0 }

    function F64(a: real, b: real): real
      requires Usable()
    {
      (a * weightA + b * weightB) / (weightA + weightB)
    }

    // The conversion to an integer drops the fraction.
    function U64(a: nat, b: nat): (r: nat)
      requires Usable()
      ensures a <= b ==> a <= r <= b
      ensures b <= a ==> b <= r <= a
      ensures weightA == 0.0 ==> r == b
    {
      CountBetween(this, a, b);
      F64(a as real, b as real).Floor
    }
  }

  // The point between a and b whose distances to them are inversely as their weights.
  predicate Balances(x: real, a: real, b: real, weightA: real, weightB: real)
  {
    (x - a) * weightA == (b - x) * weightB
  }

  lemma AverageBalances(avg: AverageF64, a: real, b: real)
    requires avg.Usable()
    ensures Balances(avg.F64(a, b), a, b, avg.weightA, avg.weightB)
  {
    var x, w := avg.F64(a, b), avg.weightA + avg.weightB;
    assert x * w == a * avg.weightA + b * avg.weightB;
    assert x * w == x * avg.weightA + x * avg.weightB;
  }

  // No other value balances.
  lemma BalanceUnique(x: real, y: real, a: real, b: real, weightA: real, weightB: real)
    requires weightA >= 0.0 && weightB > 0.0
    requires Balances(x, a, b, weightA, weightB) && Balances(y, a, b, weightA, weightB)
    ensures x == y
  {
    var w := weightA + weightB;
    assert (x - y) * w == 0.0;
  }

  // The largest integer not above that point.
  predicate BalancesBelow(r: int, a: nat, b: nat, weightA: real, weightB: real)
  {
    FitsInto(r as real, a as real * weightA + b as real * weightB, weightA + weightB)
  }

  predicate FitsInto(times: real, total: real, weight: real)
  {
    times * weight <= total < times * weight + weight
  }

  lemma CountBalances(avg: AverageF64, a: nat, b: nat)
    requires avg.Usable()
    ensures BalancesBelow(avg.U64(a, b), a, b, avg.weightA, avg.weightB)
  {
    hide Balances, BalancesBelow, AverageF64.F64;
    AverageBalances(avg, a as real, b as real);
    FloorBalances(avg.F64(a as real, b as real), a, b, avg.weightA, avg.weightB);
  }

  lemma FloorBalances(x: real, a: nat, b: nat, weightA: real, weightB: real)
    requires weightA + weightB > 0.0 && Balances(x, a as real, b as real, weightA, weightB)
    ensures BalancesBelow(x.Floor, a, b, weightA, weightB)
  {
    FloorFits(x, x.Floor as real, weightA + weightB);
    assert x * (weightA + weightB) == a as real * weightA + b as real * weightB;
  }

  lemma FloorFits(x: real, times: real, weight: real)
    requires weight > 0.0 && times <= x < times + 1.0
    ensures FitsInto(times, x * weight, weight)
  {
    Weighted(times, x, weight);
    Stretched(x - times, 1.0, weight);
    assert (x - times) * weight == x * weight - times * weight;
  }

  // An average lies between its two values, and is the second when the first has no weight.
  lemma AverageBetween(avg: AverageF64, a: real, b: real, lo: real, hi: real)
    requires avg.Usable() && lo <= a <= hi && lo <= b <= hi
    ensures lo <= avg.F64(a, b) <= hi
  {
    hide Balances, AverageF64.F64;
    AverageBalances(avg, a, b);
    BalancedBetween(avg.F64(a, b), a, b, lo, hi, avg.weightA, avg.weightB);
  }

  lemma BalancedBetween(x: real, a: real, b: real, lo: real, hi: real, weightA: real, weightB: real)
    requires weightA >= 0.0 && weightB > 0.0 && lo <= a <= hi && lo <= b <= hi
    requires Balances(x, a, b, weightA, weightB)
    ensures lo <= x <= hi
  {
    if x < lo {
      Weighted(x - a, 0.0, weightA);
      Stretched(0.0, b - x, weightB);
    }
    if x > hi {
      Weighted(0.0, x - a, weightA);
      Stretched(b - x, 0.0, weightB);
    }
  }

  lemma Weighted(x: real, y: real, w: real)
    requires x <= y && w >= 0.0
    ensures x * w <= y * w
  {
  }

  lemma Stretched(x: real, y: real, w: real)
    requires x < y && w > 0.0
    ensures x * w < y * w
  {
  }

  lemma WeightlessFirst(avg: AverageF64, a: real, b: real)
    requires avg.Usable() && avg.weightA == 0.0
    ensures avg.F64(a, b) == b
  {
    hide AverageF64.F64;
    AverageBalances(avg, a, b);
    BalanceUnique(avg.F64(a, b), b, a, b, 0.0, avg.weightB);
  }

  lemma CountBetween(avg: AverageF64, a: nat, b: nat)
    requires avg.Usable()
    ensures var x := avg.F64(a as real, b as real).Floor;
      && (a <= b ==> a <= x <= b) && (b <= a ==> b <= x <= a) && (avg.weightA == 0.0 ==> x == b)
  {
    hide AverageF64.F64;
    if a <= b {
      AverageBetween(avg, a as real, b as real, a as real, b as real);
    } else {
      AverageBetween(avg, a as real, b as real, b as real, a as real);
    }
    if avg.weightA == 0.0 {
      WeightlessFirst(avg, a as real, b as real);
    }
  }

  // ---- Samples ----

  // The integer and the floating-point figures of a sample, each in a fixed order: for an interface
  // speed, rx-bps, rx-bytes, tx-bps, tx-bytes and delay, jitter; for a flow rx-pps, rx-packets, rx-bps,
  // rx-bytes and none.
  datatype Metrics = Metrics(counts: seq<nat>, gauges: seq<real>)

  datatype Shape = Shape(counts: nat, gauges: nat)

  const INTERFACES := Shape(5, 2)
  const FLOWS := Shape(4, 0)

  predicate Shaped(m: Metrics, sh: Shape) { |m.counts| == sh.counts && |m.gauges| == sh.gauges }

  function Zeros(sh: Shape): (m: Metrics)
    ensures Shaped(m, sh)
  {
    Metrics(seq(sh.counts, _ => 0), seq(sh.gauges, _ => 0.0))
  }

  function Blended(avg: AverageF64, a: Metrics, b: Metrics, sh: Shape): (m: Metrics)
    requires avg.Usable() && Shaped(a, sh) && Shaped(b, sh)
    ensures Shaped(m, sh)
  {
    Metrics(seq(sh.counts, i requires 0 <= i < sh.counts => avg.U64(a.counts[i], b.counts[i])),
            seq(sh.gauges, i requires 0 <= i < sh.gauges => avg.F64(a.gauges[i], b.gauges[i])))
  }

  // Figure by figure, m is the average of a and b, taken over the two times.
  predicate MeanOf(m: Metrics, a: Metrics, timeA: real, b: Metrics, timeB: real, sh: Shape)
    requires Shaped(a, sh) && Shaped(b, sh)
  {
    && Shaped(m, sh)
    && (forall i :: 0 <= i < sh.counts ==> BalancesBelow(m.counts[i], a.counts[i], b.counts[i], timeA, timeB))
    && (forall i :: 0 <= i < sh.gauges ==> Balances(m.gauges[i], a.gauges[i], b.gauges[i], timeA, timeB))
  }

  lemma BlendIsMean(avg: AverageF64, a: Metrics, b: Metrics, sh: Shape)
    requires avg.Usable() && Shaped(a, sh) && Shaped(b, sh)
    ensures MeanOf(Blended(avg, a, b, sh), a, avg.weightA, b, avg.weightB, sh)
  {
    hide Balances, BalancesBelow;
    var m := Blended(avg, a, b, sh);
    forall i | 0 <= i < sh.counts
      ensures BalancesBelow(m.counts[i], a.counts[i], b.counts[i], avg.weightA, avg.weightB)
    {
      CountBalances(avg, a.counts[i], b.counts[i]);
    }
    forall i | 0 <= i < sh.gauges
      ensures Balances(m.gauges[i], a.gauges[i], b.gauges[i], avg.weightA, avg.weightB)
    {
      AverageBalances(avg, a.gauges[i], b.gauges[i]);
    }
  }

  // `key` is the interface's name or the printed flow, `tags` are the other texts of the record, and
  // `time` is the time in seconds over which the figures were taken.
  datatype Sample = Sample(key: string, tags: seq<string>, metrics: Metrics, time: real)

  datatype Step = Step(entry: seq<Sample>, interval: real)

  type Table = map<string, Sample>

  function Names(entry: seq<Sample>): set<string> { set i | 0 <= i < |entry| :: entry[i].key }

  // The last sample of the key in an entry.
  function Latest(entry: seq<Sample>, k: string): (r: Sample)
    requires k in Names(entry)
    ensures r in entry && r.key == k
  {
    if entry[|entry| - 1].key == k then entry[|entry| - 1] else Latest(entry[..|entry| - 1], k)
  }

  predicate Proper(step: Step, sh: Shape)
  {
    && step.interval > 0.0
    && forall i :: 0 <= i < |step.entry| ==> Shaped(step.entry[i].metrics, sh) && step.entry[i].time > 0.0
  }

  // Every sample of a table stands under its own key.
  predicate Tabled(acc: Table, sh: Shape)
  {
    forall k :: k in acc ==> acc[k].key == k && Shaped(acc[k].metrics, sh) && acc[k].time >= 0.0
  }

  // An average carries no time: the field is not set.
  function Average(s: Sample, tags: seq<string>, m: Metrics, time: real, sh: Shape): (r: Sample)
    requires Shaped(s.metrics, sh) && Shaped(m, sh) && s.time >= 0.0 && time > 0.0
    ensures r.key == s.key && Shaped(r.metrics, sh) && r.time == 0.0 && r.tags == tags
  {
    Sample(s.key, tags, Blended(AverageF64(s.time, time), s.metrics, m, sh), 0.0)
  }

  // What an update leaves under a key.
  function UpdatedAt(acc: Table, step: Step, sh: Shape, k: string): (r: Sample)
    requires Tabled(acc, sh) && Proper(step, sh) && k in acc.Keys + Names(step.entry)
    ensures r.key == k && Shaped(r.metrics, sh) && r.time >= 0.0
  {
    if k !in Names(step.entry) then Average(acc[k], acc[k].tags, Zeros(sh), step.interval, sh)
    else
      var s := Latest(step.entry, k);
      if k !in acc then s else Average(acc[k], s.tags, s.metrics, s.time, sh)
  }

  function Updated(acc: Table, step: Step, sh: Shape): (r: Table)
    requires Tabled(acc, sh) && Proper(step, sh)
    ensures Tabled(r, sh) && r.Keys == acc.Keys + Names(step.entry)
  {
    map k | k in acc.Keys + Names(step.entry) :: UpdatedAt(acc, step, sh, k)
  }

  method UpdateAcc(acc: Table, entry: seq<Sample>, interval: real, sh: Shape) returns (next: Table)
    requires Tabled(acc, sh) && Proper(Step(entry, interval), sh)
    ensures next == Updated(acc, Step(entry, interval), sh)
  {
    hide UpdatedAt, Average, Latest, Updated;
    next := map[];
    var i := 0;
    while i < |entry|
      invariant 0 <= i <= |entry| && next.Keys == Names(entry[..i])
      invariant forall k :: k in next ==> next[k] == UpdatedAt(acc, Step(entry[..i], interval), sh, k)
    {
      var s := entry[i];
      OneMore(entry, i);
      EntryStep(acc, entry, interval, sh, i);
      if s.key in acc {
        next := next[s.key := Average(acc[s.key], s.tags, s.metrics, s.time, sh)];
      } else {
        next := next[s.key := s];
      }
      i := i + 1;
    }
    assert entry[..i] == entry;
    var rest := acc.Keys;
    while rest != {}
      invariant rest <= acc.Keys
      invariant next.Keys == Names(entry) + (acc.Keys - rest)
      invariant forall k :: k in next ==> next[k] == UpdatedAt(acc, Step(entry, interval), sh, k)
    {
      var k :| k in rest;
      rest := rest - {k};
      if k !in next {
        AbsentStep(acc, Step(entry, interval), sh, k);
        next := next[k := Average(acc[k], acc[k].tags, Zeros(sh), interval, sh)];
      }
    }
    Completed(acc, Step(entry, interval), sh, next);
  }

  lemma Completed(acc: Table, step: Step, sh: Shape, next: Table)
    requires Tabled(acc, sh) && Proper(step, sh) && next.Keys == Names(step.entry) + acc.Keys
    requires forall k :: k in next ==> next[k] == UpdatedAt(acc, step, sh, k)
    ensures next == Updated(acc, step, sh)
  {
    hide UpdatedAt;
  }

  // Reading one more sample of an entry changes what stands under its key only.
  lemma EntryStep(acc: Table, entry: seq<Sample>, interval: real, sh: Shape, i: nat)
    requires Tabled(acc, sh) && Proper(Step(entry, interval), sh) && i < |entry|
    ensures var s := entry[i];
      && s.key in Names(entry[..i + 1])
      && UpdatedAt(acc, Step(entry[..i + 1], interval), sh, s.key)
           == if s.key in acc then Average(acc[s.key], s.tags, s.metrics, s.time, sh) else s
    ensures forall k :: k in Names(entry[..i]) && k != entry[i].key ==>
      k in Names(entry[..i + 1])
      && UpdatedAt(acc, Step(entry[..i + 1], interval), sh, k) == UpdatedAt(acc, Step(entry[..i], interval), sh, k)
  {
    hide Average;
    OneMore(entry, i);
  }

  lemma AbsentStep(acc: Table, step: Step, sh: Shape, k: string)
    requires Tabled(acc, sh) && Proper(step, sh) && k in acc && k !in Names(step.entry)
    ensures UpdatedAt(acc, step, sh, k) == Average(acc[k], acc[k].tags, Zeros(sh), step.interval, sh)
  {
  }

  lemma LatestUnfolds(entry: seq<Sample>, k: string)
    requires k in Names(entry)
    ensures var n := |entry| - 1;
      if entry[n].key == k then Latest(entry, k) == entry[n]
      else k in Names(entry[..n]) && Latest(entry, k) == Latest(entry[..n], k)
  {
  }

  lemma OneMore(entry: seq<Sample>, i: nat)
    requires i < |entry|
    ensures Names(entry[..i + 1]) == Names(entry[..i]) + {entry[i].key}
    ensures forall k :: k in Names(entry[..i + 1]) ==>
      Latest(entry[..i + 1], k) == if k == entry[i].key then entry[i] else Latest(entry[..i], k)
  {
    var e := entry[..i + 1];
    assert e[..|e| - 1] == entry[..i] && e[|e| - 1] == entry[i];
    forall k | k in Names(e)
      ensures k == entry[i].key || k in Names(entry[..i])
      ensures Latest(e, k) == if k == entry[i].key then entry[i] else Latest(entry[..i], k)
    {
      var j :| 0 <= j < |e| && e[j].key == k;
      assert j < i ==> entry[..i][j].key == k;
      LatestUnfolds(e, k);
    }
    forall k | k in Names(entry[..i]) || k == entry[i].key
      ensures k in Names(e)
    {
      if k != entry[i].key {
        var j :| 0 <= j < i && entry[..i][j].key == k;
        assert e[j].key == k;
      } else {
        assert e[i].key == k;
      }
    }
  }

  // ---- Runs ----

  predicate AllProper(steps: seq<Step>, sh: Shape) { forall i :: 0 <= i < |steps| ==> Proper(steps[i], sh) }

  function AccOf(steps: seq<Step>, sh: Shape): (acc: Table)
    requires AllProper(steps, sh)
    ensures Tabled(acc, sh)
  {
    if steps == [] then map[] else Updated(AccOf(steps[..|steps| - 1], sh), steps[|steps| - 1], sh)
  }

  // The log that the client prints: the accumulated table after every entry.
  method Batch(steps: seq<Step>, sh: Shape) returns (log: seq<Table>)
    requires AllProper(steps, sh)
    ensures |log| == |steps| && forall i :: 0 <= i < |steps| ==> log[i] == AccOf(steps[..i + 1], sh)
  {
    var acc: Table := map[];
    log := [];
    var i := 0;
    while i < |steps|
      invariant 0 <= i <= |steps| && |log| == i && acc == AccOf(steps[..i], sh)
      invariant forall j :: 0 <= j < i ==> log[j] == AccOf(steps[..j + 1], sh)
    {
      assert steps[..i + 1][..i] == steps[..i];
      acc := UpdateAcc(acc, steps[i].entry, steps[i].interval, sh);
      log := log + [acc];
      i := i + 1;
    }
  }

  // No key is forgotten and none is invented.
  lemma {:induction false} KeysAreUnion(steps: seq<Step>, sh: Shape, k: string)
    requires AllProper(steps, sh)
    ensures k in AccOf(steps, sh) <==> exists i :: 0 <= i < |steps| && k in Names(steps[i].entry)
  {
    if steps != [] {
      var n := |steps| - 1;
      KeysAreUnion(steps[..n], sh, k);
      if k in AccOf(steps[..n], sh) {
        var i :| 0 <= i < n && k in Names(steps[..n][i].entry);
        assert k in Names(steps[i].entry);
      }
      if i :| 0 <= i < |steps| && k in Names(steps[i].entry) {
        assert i < n ==> steps[..n][i] == steps[i];
      }
    }
  }

  // ---- Bounds ----

  // All figures of a sample on one scale.
  function Figure(m: Metrics, sh: Shape, i: nat): real
    requires Shaped(m, sh) && i < sh.counts + sh.gauges
  {
    if i < sh.counts then m.counts[i] as real else m.gauges[i - sh.counts]
  }

  lemma BlendBetween(avg: AverageF64, a: Metrics, b: Metrics, sh: Shape, i: nat, lo: real, hi: real)
    requires avg.Usable() && Shaped(a, sh) && Shaped(b, sh) && i < sh.counts + sh.gauges
    requires lo <= Figure(a, sh, i) <= hi && lo <= Figure(b, sh, i) <= hi
    ensures lo <= Figure(Blended(avg, a, b, sh), sh, i) <= hi
  {
    if i >= sh.counts {
      AverageBetween(avg, Figure(a, sh, i), Figure(b, sh, i), lo, hi);
    } else {
      var x, y := a.counts[i], b.counts[i];
      assert avg.U64(x, y) as real == Figure(Blended(avg, a, b, sh), sh, i);
    }
  }

  // Every sample seen for a key has figure i within the bounds.
  predicate Sampled(steps: seq<Step>, sh: Shape, k: string, i: nat, lo: real, hi: real)
    requires AllProper(steps, sh) && i < sh.counts + sh.gauges
  {
    forall j :: 0 <= j < |steps| ==> EntryWithin(steps[j], sh, k, i, lo, hi)
  }

  predicate EntryWithin(step: Step, sh: Shape, k: string, i: nat, lo: real, hi: real)
    requires Proper(step, sh) && i < sh.counts + sh.gauges
  {
    forall n :: 0 <= n < |step.entry| && step.entry[n].key == k ==> lo <= Figure(step.entry[n].metrics, sh, i) <= hi
  }

  // Once seen, the key is in every entry.
  predicate Steady(steps: seq<Step>, sh: Shape, k: string)
    requires AllProper(steps, sh)
  {
    forall j :: 0 <= j < |steps| && k in AccOf(steps[..j], sh) ==> k in Names(steps[j].entry)
  }

  lemma UpdateBetween(acc: Table, step: Step, sh: Shape, k: string, i: nat, lo: real, hi: real)
    requires Tabled(acc, sh) && Proper(step, sh) && i < sh.counts + sh.gauges
    requires k in acc.Keys + Names(step.entry) && EntryWithin(step, sh, k, i, lo, hi)
    requires k in acc ==> lo <= Figure(acc[k].metrics, sh, i) <= hi
    requires k in Names(step.entry) || lo <= 0.0 <= hi
    ensures lo <= Figure(UpdatedAt(acc, step, sh, k).metrics, sh, i) <= hi
  {
    if k in Names(step.entry) {
      var s := Latest(step.entry, k);
      if k in acc {
        BlendBetween(AverageF64(acc[k].time, s.time), acc[k].metrics, s.metrics, sh, i, lo, hi);
      }
    } else {
      BlendBetween(AverageF64(acc[k].time, step.interval), acc[k].metrics, Zeros(sh), sh, i, lo, hi);
    }
  }

  // Whatever bounds hold of the samples hold of the accumulated figure, if the key stays present or the
  // bounds include zero.
  lemma {:induction false} NeverOvershoots(steps: seq<Step>, sh: Shape, k: string, i: nat, lo: real, hi: real)
    requires AllProper(steps, sh) && k in AccOf(steps, sh) && i < sh.counts + sh.gauges
    requires Sampled(steps, sh, k, i, lo, hi) && (Steady(steps, sh, k) || lo <= 0.0 <= hi)
    ensures lo <= Figure(AccOf(steps, sh)[k].metrics, sh, i) <= hi
  {
    var n := |steps| - 1;
    var acc := AccOf(steps[..n], sh);
    if k in acc {
      PrefixBounds(steps, sh, k, i, lo, hi);
      NeverOvershoots(steps[..n], sh, k, i, lo, hi);
    }
    assert steps[..n] == steps[..|steps| - 1];
    UpdateBetween(acc, steps[n], sh, k, i, lo, hi);
  }

  lemma PrefixBounds(steps: seq<Step>, sh: Shape, k: string, i: nat, lo: real, hi: real)
    requires AllProper(steps, sh) && i < sh.counts + sh.gauges && steps != []
    requires Sampled(steps, sh, k, i, lo, hi)
    ensures Sampled(steps[..|steps| - 1], sh, k, i, lo, hi)
    ensures Steady(steps, sh, k) ==> Steady(steps[..|steps| - 1], sh, k)
  {
    var t := steps[..|steps| - 1];
    assert forall j :: 0 <= j < |t| ==> t[j] == steps[j];
    assert forall j :: 0 <= j < |t| ==> t[..j] == steps[..j];
  }

  // ---- What the accumulated value is ----

  // The number of updates since the key first appeared, that one included.
  function Age(steps: seq<Step>, k: string): nat
  {
    if steps == [] then 0
    else
      var before := Age(steps[..|steps| - 1], k);
      if before > 0 || k in Names(steps[|steps| - 1].entry) then before + 1 else 0
  }

  lemma {:induction false} AgeExactly(steps: seq<Step>, sh: Shape, k: string)
    requires AllProper(steps, sh)
    ensures k in AccOf(steps, sh) <==> Age(steps, k) > 0
    ensures Age(steps, k) >= 2 ==> AccOf(steps, sh)[k].time == 0.0
  {
    if steps != [] {
      AgeExactly(steps[..|steps| - 1], sh, k);
    }
  }

  // What an entry reports of a key, and over what time: zeros over the interval when it is absent.
  function Reading(step: Step, sh: Shape, k: string): (r: (Metrics, real))
    requires Proper(step, sh)
    ensures Shaped(r.0, sh) && r.1 > 0.0
  {
    if k in Names(step.entry) then (Latest(step.entry, k).metrics, Latest(step.entry, k).time)
    else (Zeros(sh), step.interval)
  }

  lemma WeightlessBlend(time: real, a: Metrics, b: Metrics, sh: Shape)
    requires time > 0.0 && Shaped(a, sh) && Shaped(b, sh)
    ensures Blended(AverageF64(0.0, time), a, b, sh) == b
  {
    var avg := AverageF64(0.0, time);
    var m := Blended(avg, a, b, sh);
    forall i | 0 <= i < sh.gauges
      ensures m.gauges[i] == b.gauges[i]
    {
      WeightlessFirst(avg, a.gauges[i], b.gauges[i]);
    }
    assert m.counts == b.counts && m.gauges == b.gauges;
  }

  // The accumulated value by age: first the sample itself, then the time-weighted average of the first
  // sample and the second reading, and from the third update on no more than the latest reading.
  lemma ValueByAge(steps: seq<Step>, sh: Shape, k: string)
    requires AllProper(steps, sh) && steps != [] && k in AccOf(steps, sh)
    ensures var n := |steps| - 1; var r := Reading(steps[n], sh, k); var s := AccOf(steps, sh)[k];
      && (Age(steps, k) == 1 ==> k in Names(steps[n].entry) && s == Latest(steps[n].entry, k))
      && (Age(steps, k) == 2 ==>
            n > 0 && k in Names(steps[n - 1].entry)
            && MeanOf(s.metrics, Latest(steps[n - 1].entry, k).metrics, Latest(steps[n - 1].entry, k).time,
                      r.0, r.1, sh))
      && (Age(steps, k) >= 3 ==> s.metrics == r.0)
  {
    hide Blended, AccOf, Reading, MeanOf;
    AgeExactly(steps, sh, k);
    if Age(steps, k) == 1 {
      FirstValue(steps, sh, k);
    } else if Age(steps, k) == 2 {
      SecondValue(steps, sh, k);
    } else {
      LaterValue(steps, sh, k);
    }
  }

  lemma NextValue(steps: seq<Step>, sh: Shape, k: string)
    requires AllProper(steps, sh) && Age(steps, k) >= 2
    ensures var n := |steps| - 1; var r := Reading(steps[n], sh, k);
      && k in AccOf(steps[..n], sh) && k in AccOf(steps, sh)
      && AccOf(steps, sh)[k].metrics
           == Blended(AverageF64(AccOf(steps[..n], sh)[k].time, r.1), AccOf(steps[..n], sh)[k].metrics, r.0, sh)
  {
    AgeExactly(steps[..|steps| - 1], sh, k);
  }

  lemma SecondValue(steps: seq<Step>, sh: Shape, k: string)
    requires AllProper(steps, sh) && Age(steps, k) == 2
    ensures var n := |steps| - 1; var r := Reading(steps[n], sh, k);
      && n > 0 && k in Names(steps[n - 1].entry) && k in AccOf(steps, sh)
      && MeanOf(AccOf(steps, sh)[k].metrics, Latest(steps[n - 1].entry, k).metrics,
                Latest(steps[n - 1].entry, k).time, r.0, r.1, sh)
  {
    hide Blended, AccOf, Reading, MeanOf;
    var n := |steps| - 1;
    NextValue(steps, sh, k);
    FirstValue(steps[..n], sh, k);
    assert steps[..n][n - 1] == steps[n - 1];
    var first, r := Latest(steps[n - 1].entry, k), Reading(steps[n], sh, k);
    BlendIsMean(AverageF64(first.time, r.1), first.metrics, r.0, sh);
  }

  lemma LaterValue(steps: seq<Step>, sh: Shape, k: string)
    requires AllProper(steps, sh) && Age(steps, k) >= 3
    ensures k in AccOf(steps, sh) && AccOf(steps, sh)[k].metrics == Reading(steps[|steps| - 1], sh, k).0
  {
    hide Blended, AccOf, Reading;
    var n := |steps| - 1;
    NextValue(steps, sh, k);
    AgeExactly(steps[..n], sh, k);
    var r := Reading(steps[n], sh, k);
    WeightlessBlend(r.1, AccOf(steps[..n], sh)[k].metrics, r.0, sh);
  }

  lemma FirstValue(steps: seq<Step>, sh: Shape, k: string)
    requires AllProper(steps, sh) && Age(steps, k) == 1
    ensures steps != [] && k in Names(steps[|steps| - 1].entry)
    ensures k in AccOf(steps, sh) && AccOf(steps, sh)[k] == Latest(steps[|steps| - 1].entry, k)
  {
    AgeExactly(steps, sh, k);
    AgeExactly(steps[..|steps| - 1], sh, k);
  }

  // ---- Which sample ----

  // Of several samples of a key in one entry the last one counts.
  lemma {:induction false} LatestIsLast(entry: seq<Sample>, k: string) returns (i: nat)
    requires k in Names(entry)
    ensures i < |entry| && entry[i] == Latest(entry, k) && entry[i].key == k
    ensures forall j :: i < j < |entry| ==> entry[j].key != k
  {
    var n := |entry| - 1;
    LatestUnfolds(entry, k);
    if entry[n].key == k {
      i := n;
    } else {
      i := LatestIsLast(entry[..n], k);
      assert forall j :: 0 <= j < n ==> entry[..n][j] == entry[j];
    }
  }

  lemma LastTexts(steps: seq<Step>, sh: Shape, k: string)
    requires AllProper(steps, sh) && k in AccOf(steps, sh)
    ensures steps != []
    ensures var n := |steps| - 1;
      if k in Names(steps[n].entry) then AccOf(steps, sh)[k].tags == Latest(steps[n].entry, k).tags
      else k in AccOf(steps[..n], sh) && AccOf(steps, sh)[k].tags == AccOf(steps[..n], sh)[k].tags
  {
    hide Blended, Latest, Names;
  }

  // The texts of an accumulated sample are those of the last entry that held its key.
  lemma {:induction false} TextsFromLatest(steps: seq<Step>, sh: Shape, k: string) returns (j: nat)
    requires AllProper(steps, sh) && k in AccOf(steps, sh)
    ensures j < |steps| && k in Names(steps[j].entry) && AccOf(steps, sh)[k].tags == Latest(steps[j].entry, k).tags
    ensures forall i :: j < i < |steps| ==> k !in Names(steps[i].entry)
  {
    hide AccOf, Latest, Names;
    var n := |steps| - 1;
    LastTexts(steps, sh, k);
    if k in Names(steps[n].entry) {
      j := n;
    } else {
      j := TextsFromLatest(steps[..n], sh, k);
      assert forall i :: 0 <= i < n ==> steps[..n][i] == steps[i];
    }
  }
}
