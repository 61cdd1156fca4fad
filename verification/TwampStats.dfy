/** Statistics over the round-trip times of a run, in nanoseconds: extremes, the average that divides by
    the probes sent, and the jitter. */
module TwampStats {
  import opened GoTypes

  const TWO63: int := 0x8000_0000_0000_0000

  type i64 = x: int | -TWO63 <= x < TWO63

  // int64 addition wraps around.
  function ToI64(x: int): i64 { (x + TWO63) % TWO64 - TWO63 }

  // Go's integer division truncates toward zero.
  function Quotient(a: int, b: int): (q: int)
    requires b != 0
  {
    if a >= 0 then a / b else -(-a / b)
  }

  function Sum(s: seq<int>): int { if s == [] then 0 else Sum(s[..|s| - 1]) + s[|s| - 1] }

  function Abs(x: int): (r: nat)
    ensures r == x || r == -x
  {
    if x < 0 then -x else x
  }

  // The lengths of the steps between neighbours.
  function Variation(s: seq<int>): nat
  {
    if |s| < 2 then 0 else Variation(s[..|s| - 1]) + Abs(s[|s| - 2] - s[|s| - 1])
  }

  function JitterOf(s: seq<int>): int { if |s| < 2 then 0 else Variation(s) / (|s| - 1) }

  lemma {:induction false} WrapsOnce(a: int, b: int)
    ensures ToI64(ToI64(a) + b) == ToI64(a + b)
  {
  }

  lemma FloorOfQuotient(a: nat, n: int)
    requires n > 0
    ensures (a as real / n as real).Floor == a / n
  {
    var q, r := a / n, a % n;
    assert a == q * n + r;
    assert a as real == q as real * n as real + r as real;
    assert a as real / n as real == q as real + r as real / n as real;
    assert 0.0 <= r as real / n as real < 1.0;
  }

  // The conversion to a duration drops the fraction of the mean step.
  method Jitter(rtts: seq<int>) returns (j: int)
    ensures j == JitterOf(rtts)
  {
    if |rtts| < 2 {
      return 0;
    }
    var last, total := 0.0, 0.0;
    var i := 0;
    while i < |rtts|
      invariant 0 <= i <= |rtts|
      invariant i > 0 ==> last == rtts[i - 1] as real
      invariant total == Variation(rtts[..i]) as real
    {
      var rtt := rtts[i] as real;
      assert rtts[..i + 1][..i] == rtts[..i];
      if i != 0 {
        total := total + if last - rtt < 0.0 then rtt - last else last - rtt;
      }
      last := rtt;
      i := i + 1;
    }
    assert rtts[..i] == rtts;
    FloorOfQuotient(Variation(rtts), |rtts| - 1);
    return (total / (|rtts| - 1) as real).Floor;
  }

  lemma SumStep(s: seq<int>, x: int)
    ensures ToI64(ToI64(Sum(s)) + x) == ToI64(Sum(s + [x]))
  {
    assert (s + [x])[..|s|] == s;
    WrapsOnce(Sum(s), x);
  }

  // ---- Extremes ----

  predicate Least(m: int, s: seq<int>) { m in s && forall i :: 0 <= i < |s| ==> m <= s[i] }

  predicate Greatest(m: int, s: seq<int>) { m in s && forall i :: 0 <= i < |s| ==> s[i] <= m }

  // A zero joins the times when the first probe was lost.
  function Considered(firstKept: bool, s: seq<int>): seq<int> { if firstKept then s else [0] + s }

  predicate Extremes(min: int, max: int, firstKept: bool, s: seq<int>)
  {
    Least(min, Considered(firstKept, s)) && Greatest(max, Considered(firstKept, s))
  }

  lemma ExtremesStep(min: int, max: int, firstKept: bool, s: seq<int>, x: int)
    requires Extremes(min, max, firstKept, s)
    ensures Extremes(if x < min then x else min, if x > max then x else max, firstKept, s + [x])
    ensures Extremes(x, x, true, [x])
  {
    var c := Considered(firstKept, s);
    assert Considered(firstKept, s + [x]) == c + [x];
    assert forall y :: y in c ==> y in c + [x];
    assert (c + [x])[|c|] == x && [x][0] == x;
  }

  // ---- Jitter ----

  predicate Between(lo: int, s: seq<int>, hi: int) { forall i :: 0 <= i < |s| ==> lo <= s[i] <= hi }

  lemma {:induction false} VariationBound(s: seq<int>, lo: int, hi: int)
    requires |s| >= 1 && Between(lo, s, hi)
    ensures Variation(s) <= (hi - lo) * (|s| - 1)
  {
    if |s| > 1 {
      var t := s[..|s| - 1];
      VariationBound(t, lo, hi);
      assert lo <= s[|s| - 2] <= hi && lo <= s[|s| - 1] <= hi;
      assert (hi - lo) * (|t| - 1) + (hi - lo) == (hi - lo) * (|s| - 1);
    }
  }

  lemma Multiples(a: int, b: int, n: int)
    requires a < b && n > 0
    ensures a * n + n <= b * n
  {
    var gap := b - a - 1;
    assert gap * n >= 0;
    assert b * n == (a + 1 + gap) * n == a * n + n + gap * n;
  }

  lemma Quotients(x: int, lo: int, hi: int, n: int)
    requires n >= 1 && lo * n <= x <= hi * n
    ensures lo <= x / n <= hi
  {
    var q := x / n;
    assert q * n <= x < q * n + n;
    if q < lo {
      Multiples(q, lo, n);
    }
    if q > hi {
      Multiples(hi, q, n);
    }
  }

  lemma JitterBound(s: seq<int>, lo: int, hi: int)
    requires Between(lo, s, hi) && lo <= hi
    ensures 0 <= JitterOf(s) <= hi - lo
  {
    if |s| >= 2 {
      VariationBound(s, lo, hi);
      Quotients(Variation(s), 0, hi - lo, |s| - 1);
    }
  }

  // The lengths of steps add up, wherever the times are cut; one step is its own length.
  lemma {:induction false} VariationJoins(s: seq<int>, x: int, t: seq<int>)
    ensures Variation(s + [x] + t) == Variation(s + [x]) + Variation([x] + t)
  {
    if t == [] {
      assert s + [x] + t == s + [x] && [x] + t == [x];
    } else {
      var n := |t| - 1;
      var all, tail := s + [x] + t, [x] + t;
      VariationJoins(s, x, t[..n]);
      assert all[..|all| - 1] == s + [x] + t[..n] && tail[..|tail| - 1] == [x] + t[..n];
      assert all[|all| - 1] == tail[|tail| - 1] == t[n];
      assert all[|all| - 2] == tail[|tail| - 2];
    }
  }

  lemma OneStep(x: int, y: int)
    ensures Variation([x]) == 0 && Variation([x, y]) == Abs(y - x)
  {
    assert [x, y][..1] == [x];
  }

  // The jitter is the one number j with (n-1) * j <= the sum of the n-1 steps < (n-1) * (j+1).
  lemma JitterExactly(s: seq<int>, j: int)
    requires |s| >= 2
    ensures j == JitterOf(s) <==> j * (|s| - 1) <= Variation(s) < j * (|s| - 1) + (|s| - 1)
  {
    hide Variation;
    QuotientExactly(Variation(s), |s| - 1, j);
  }

  lemma QuotientExactly(a: nat, n: int, j: int)
    requires n > 0
    ensures j == a / n <==> j * n <= a < j * n + n
  {
    var q := a / n;
    assert q * n <= a < q * n + n;
    if q < j {
      Multiples(q, j, n);
    } else if j < q {
      Multiples(j, q, n);
    }
  }

  // Steps of one length have that length as their jitter.
  lemma JitterOfEqualSteps(s: seq<int>, d: nat)
    requires |s| >= 2 && forall i :: 0 <= i < |s| - 1 ==> Abs(s[i] - s[i + 1]) == d
    ensures JitterOf(s) == d
  {
    VariationOfEqualSteps(s, d);
    JitterExactly(s, d);
  }

  lemma {:induction false} VariationOfEqualSteps(s: seq<int>, d: nat)
    requires |s| >= 1 && forall i :: 0 <= i < |s| - 1 ==> Abs(s[i] - s[i + 1]) == d
    ensures Variation(s) == d * (|s| - 1)
  {
    if |s| > 1 {
      hide Abs;
      var n := |s| - 1;
      VariationOfEqualSteps(s[..n], d);
      assert Variation(s) == Variation(s[..n]) + d;
      OneMore(d, n);
    }
  }

  lemma OneMore(d: int, n: int)
    ensures d * (n - 1) + d == d * n
  {
  }

  // The jitter of a run: nothing of fewer than two times.
  lemma JitterLaws(s: seq<int>)
    ensures |s| < 2 ==> JitterOf(s) == 0
    ensures |s| >= 2 ==>
      var n := |s| - 1;
      JitterOf(s) * n <= Variation(s) < JitterOf(s) * n + n && JitterOf(s) >= Abs(s[n] - s[0]) / n
  {
    if |s| >= 2 {
      JitterExactly(s, JitterOf(s));
      JitterOfOneWay(s);
    }
  }

  // Times that never turn round have the distance from first to last, divided by the steps.
  lemma JitterOfOneWay(s: seq<int>)
    requires |s| >= 2
    ensures Rising(s) || Falling(s) ==> JitterOf(s) == Abs(s[|s| - 1] - s[0]) / (|s| - 1)
    ensures JitterOf(s) >= Abs(s[|s| - 1] - s[0]) / (|s| - 1)
  {
    VariationCovers(s);
    QuotientGrows(Abs(s[|s| - 1] - s[0]), Variation(s), |s| - 1);
  }

  lemma QuotientGrows(a: nat, b: nat, n: nat)
    requires a <= b && n > 0
    ensures a / n <= b / n
  {
    var p, q := a / n, b / n;
    assert p * n <= a && b < q * n + n;
    if q < p {
      Multiples(q, p, n);
    }
  }

  predicate Rising(s: seq<int>) { forall i :: 0 <= i < |s| - 1 ==> s[i] <= s[i + 1] }

  predicate Falling(s: seq<int>) { forall i :: 0 <= i < |s| - 1 ==> s[i] >= s[i + 1] }

  // The steps cover the distance from the first to the last, with nothing to spare exactly when the
  // times never turn round.
  lemma {:induction false} VariationCovers(s: seq<int>)
    requires |s| >= 1
    ensures Variation(s) >= Abs(s[|s| - 1] - s[0])
    ensures Variation(s) == s[|s| - 1] - s[0] <==> Rising(s)
    ensures Variation(s) == s[0] - s[|s| - 1] <==> Falling(s)
  {
    if |s| > 1 {
      var t := s[..|s| - 1];
      VariationCovers(t);
      RisingBySteps(s);
    }
  }

  lemma RisingBySteps(s: seq<int>)
    requires |s| > 1
    ensures Rising(s) <==> Rising(s[..|s| - 1]) && s[|s| - 2] <= s[|s| - 1]
    ensures Falling(s) <==> Falling(s[..|s| - 1]) && s[|s| - 2] >= s[|s| - 1]
  {
    var t := s[..|s| - 1];
    assert forall i :: 0 <= i < |t| ==> t[i] == s[i];
    if Rising(t) && s[|s| - 2] <= s[|s| - 1] {
      forall i | 0 <= i < |s| - 1
        ensures s[i] <= s[i + 1]
      {
        assert i < |t| - 1 ==> t[i] <= t[i + 1];
      }
    }
    if Falling(t) && s[|s| - 2] >= s[|s| - 1] {
      forall i | 0 <= i < |s| - 1
        ensures s[i] >= s[i + 1]
      {
        assert i < |t| - 1 ==> t[i] >= t[i + 1];
      }
    }
  }

  // ---- Average ----

  lemma {:induction false} SumBound(s: seq<int>, lo: int, hi: int)
    requires Between(lo, s, hi)
    ensures lo * |s| <= Sum(s) <= hi * |s|
  {
    if s != [] {
      var t := s[..|s| - 1];
      SumBound(t, lo, hi);
      assert lo * |t| + lo == lo * |s| && hi * |t| + hi == hi * |s|;
    }
  }

  // The sum adds up wherever the times are cut, and one time is its own sum.
  lemma {:induction false} SumJoins(s: seq<int>, t: seq<int>)
    ensures Sum(s + t) == Sum(s) + Sum(t)
  {
    if t == [] {
      assert s + t == s;
    } else {
      SumJoins(s, t[..|t| - 1]);
      assert (s + t)[..|s + t| - 1] == s + t[..|t| - 1];
    }
  }

  lemma SumOfOne(x: int)
    ensures Sum([]) == 0 && Sum([x]) == x
  {
    assert [x][..0] == [];
  }

  // The average kept for `count` probes sent.
  function Average(s: seq<int>, count: int): int
    requires count != 0
  {
    Quotient(ToI64(Sum(s)), count)
  }

  lemma WrapExactly(x: int)
    ensures ToI64(x) == x <==> -TWO63 <= x < TWO63
    ensures x >= TWO63 ==> ToI64(x) <= x - TWO64
  {
  }

  // With non-negative times, the average is the sum divided by the probes sent exactly when the sum
  // fits a duration.
  lemma AverageExactly(s: seq<int>, count: int)
    requires 1 <= count < TWO63 && 0 <= Sum(s)
    ensures Average(s, count) == Sum(s) / count <==> Sum(s) < TWO63
  {
    WrapExactly(Sum(s));
    if Sum(s) >= TWO63 {
      WrapMovesQuotient(Sum(s), ToI64(Sum(s)), count);
    }
  }

  // Beyond that it may turn negative: up to twice the range, exactly from a sum of 2^63 on, but for sums
  // so close to 2^64 that the quotient is cut to zero.
  lemma AverageNegativeExactly(s: seq<int>, count: int)
    requires 1 <= count < TWO63 && 0 <= Sum(s) < TWO64
    ensures Average(s, count) < 0 <==> TWO63 <= Sum(s) <= TWO64 - count
  {
    hide ToI64, Quotient, Sum;
    WrapExactly(Sum(s));
    WrapsBelow(Sum(s));
    NegativeQuotient(ToI64(Sum(s)), count);
  }

  lemma WrapsBelow(x: int)
    ensures TWO63 <= x < TWO64 ==> ToI64(x) == x - TWO64
  {
  }

  lemma NegativeQuotient(w: int, count: int)
    requires count >= 1
    ensures Quotient(w, count) < 0 <==> w <= -count
  {
    if w >= 0 {
      Quotients(w, 0, w, count);
    } else if w <= -count {
      Quotients(-w, 1, -w, count);
    } else {
      LessThanOne(-w, count);
    }
  }

  lemma LessThanOne(w: nat, count: nat)
    requires w < count
    ensures w / count == 0
  {
  }

  lemma WrapMovesQuotient(x: int, w: int, count: int)
    requires 1 <= count < TWO63 <= x && w <= x - TWO64
    ensures Quotient(w, count) != x / count
  {
    if w >= 0 {
      assert x / count * count > x - count && w / count * count <= w;
      Apart(w / count, x / count, count);
    } else {
      Quotients(x, 1, x, count);
      Quotients(-w, 0, -w, count);
    }
  }

  lemma Apart(a: int, b: int, n: int)
    requires a * n < b * n
    ensures a != b
  {
  }

  // Never above the largest time; and never below the smallest when no probe was lost.
  lemma AverageBounds(s: seq<int>, lo: int, hi: int, count: int)
    requires |s| <= count && 1 <= count < TWO63 && 0 <= lo <= hi && Between(lo, s, hi) && Sum(s) < TWO63
    ensures 0 <= Average(s, count) <= hi
    ensures |s| == count ==> lo <= Average(s, count)
  {
    SumBound(s, lo, hi);
    Widen(lo, hi, |s|, count);
    AverageExactly(s, count);
    Quotients(Sum(s), if |s| == count then lo else 0, hi, count);
  }

  lemma Widen(lo: nat, hi: nat, n: nat, count: nat)
    requires n <= count
    ensures 0 <= lo * n && hi * n <= hi * count
  {
    assert hi * (count - n) >= 0;
  }
}
