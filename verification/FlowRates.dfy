/** ToTelemetry's 64-bit rate arithmetic and the threshold of GetFlows. */
module FlowRates {
  import opened GoTypes

  // time.Duration.Milliseconds truncates toward zero; the conversion to uint64 wraps a negative value.
  function Millis(interval: int): (m: u64)
    ensures m >= 1
    ensures 1000000 <= interval < TWO64 ==> m * 1000000 <= interval < m * 1000000 + 1000000
    ensures -1000000 < interval < 1000000 ==> m == 1
    ensures -TWO64 < interval <= -1000000 ==> -interval - 1000000 < (TWO64 - m) * 1000000 <= -interval
  {
    var ms := if interval >= 0 then interval / 1000000 else -(-interval / 1000000);
    if ToU64(ms) < 1 then 1 else ToU64(ms)
  }

  // (((x + 1) * 1000) - 1) / millis, every step in uint64.
  function Rate(x: u64, millis: u64): (r: u64)
    requires millis >= 1
  {
    var scaled: nat := ToU64(ToU64(ToU64(x + 1) * 1000) - 1);
    QuotientBound(scaled, millis);
    scaled / millis
  }

  lemma QuotientBound(a: nat, m: nat)
    requires m >= 1
    ensures a / m <= a
  {
    QuotientUnique(a, m, a / m);
    if a / m > a {
      MulMonotone(a + 1, a / m, m);
    }
  }

  lemma MulMonotone(a: int, b: int, m: nat)
    requires a <= b
    ensures a * m <= b * m
  {
  }

  // Integer division, by its defining inequality.
  lemma QuotientUnique(a: nat, m: nat, q: int)
    requires m >= 1
    ensures q == a / m <==> q * m <= a < q * m + m
  {
    var d := a / m;
    assert d * m <= a < d * m + m;
    if q < d {
      MulMonotone(q + 1, d, m);
    } else if q > d {
      MulMonotone(d + 1, q, m);
    }
  }

  lemma AtLeastQuotient(a: nat, m: nat, t: int)
    requires m >= 1
    ensures a / m >= t <==> a >= t * m
  {
    QuotientUnique(a, m, a / m);
    if a / m >= t {
      MulMonotone(t, a / m, m);
    } else {
      MulMonotone(a / m + 1, t, m);
    }
  }

  // No step wraps.
  predicate Fits(x: nat) { 1000 * x + 999 < TWO64 }

  lemma NoWrap(x: u64)
    requires Fits(x)
    ensures ToU64(ToU64(ToU64(x + 1) * 1000) - 1) == 1000 * x + 999
  {
  }

  // The rate is floor((1000x + 999) / millis) for every interval exactly when no step wraps.
  lemma RateExactly(x: u64)
    ensures (forall millis: u64 :: millis >= 1 ==> Rate(x, millis) == (1000 * x + 999) / millis) <==> Fits(x)
  {
    if Fits(x) {
      NoWrap(x);
    } else {
      assert Rate(x, 1) < TWO64 <= 1000 * x + 999 == (1000 * x + 999) / 1;
    }
  }

  // The rate r of a counter x is the one number with r*m <= 1000x + 999 < (r+1)*m.
  predicate IsRateOf(r: int, x: u64, millis: u64) { r * millis <= 1000 * x + 999 < r * millis + millis }

  lemma RateIsExactly(x: u64, millis: u64, r: int)
    requires Fits(x) && millis >= 1
    ensures r == Rate(x, millis) <==> IsRateOf(r, x, millis)
  {
    NoWrap(x);
    QuotientUnique(1000 * x + 999, millis, r);
  }

  // Between the floor of the true rate and, from one second on, its ceiling; exact over one second.
  lemma RateBounds(x: u64, millis: u64)
    requires Fits(x) && millis >= 1
    ensures 1000 * x / millis <= Rate(x, millis)
    ensures millis >= 1000 ==> Rate(x, millis) <= (1000 * x + (millis - 1)) / millis
    ensures millis == 1000 ==> Rate(x, millis) == x
  {
    NoWrap(x);
    var r := Rate(x, millis);
    QuotientUnique(1000 * x + 999, millis, r);
    var f := 1000 * x / millis;
    QuotientUnique(1000 * x, millis, f);
    AtLeastQuotient(1000 * x + 999, millis, f);
    if millis >= 1000 {
      AtLeastQuotient(1000 * x + (millis - 1), millis, r);
    }
  }

  // A flow passes the threshold, on bytes: the transmit rate is always zero.
  predicate Passes(bytes: u64, millis: u64, threshold: u64)
    requires millis >= 1
  {
    Rate(bytes, millis) >= threshold || 0 >= threshold
  }

  // It does exactly when 1000 * bytes + 999 >= threshold * millis; so more bytes never lose delivery.
  lemma PassesExactly(bytes: u64, millis: u64, threshold: u64)
    requires Fits(bytes) && millis >= 1
    ensures Passes(bytes, millis, threshold) <==> 1000 * bytes + 999 >= threshold * millis
  {
    NoWrap(bytes);
    AtLeastQuotient(1000 * bytes + 999, millis, threshold);
  }

  lemma PassesMonotone(bytes: u64, more: u64, millis: u64, threshold: u64)
    requires bytes <= more && Fits(more) && millis >= 1 && Passes(bytes, millis, threshold)
    ensures Passes(more, millis, threshold)
  {
    PassesExactly(bytes, millis, threshold);
    PassesExactly(more, millis, threshold);
  }

  // Beyond the guard it is not monotone: the largest counter that fits passes where the next one fails.
  lemma WrappedRateFalls()
    ensures Fits(18446744073709550) && !Fits(18446744073709551)
    ensures Passes(18446744073709550, 1, 1000) && !Passes(18446744073709551, 1, 1000)
  {
  }
}
