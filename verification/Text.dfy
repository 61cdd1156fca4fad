/** Printing numbers in a base, joining and splitting on a separator: what `fmt.Sprintf` and package
    `net` do to the numbers of a flow key, with the parsers that undo it. */
module Text {
  predicate IsDigit(c: char) { '0' <= c <= '9' }
  predicate IsHexDigit(c: char) { IsDigit(c) || 'a' <= c <= 'f' }
  predicate IsUpperHex(c: char) { 'A' <= c <= 'F' }
  predicate AllHex(s: string) { forall i :: 0 <= i < |s| ==> IsHexDigit(s[i]) }
  predicate AllDecimal(s: string) { forall i :: 0 <= i < |s| ==> IsDigit(s[i]) }

  function DigitChar(d: nat): (c: char)
    requires d < 16
    ensures IsHexDigit(c) && (d < 10 ==> IsDigit(c))
  {
    if d < 10 then '0' + d as char else 'a' + (d - 10) as char
  }

  function DigitValue(c: char): (d: nat)
  {
    if IsDigit(c) then (c - '0') as int
    else if 'a' <= c <= 'f' then (c - 'a') as int + 10
    else if IsUpperHex(c) then (c - 'A') as int + 10
    else 0
  }

  // `%d` (base 10) and `%x` (base 16) of a natural number: no leading zero.
  function Numeral(n: nat, base: nat): (s: string)
    requires 2 <= base <= 16
  {
    if n < base then [DigitChar(n)] else Numeral(n / base, base) + [DigitChar(n % base)]
  }

  function NumeralValue(s: string, base: nat): nat
  {
    if s == "" then 0 else NumeralValue(s[..|s| - 1], base) * base + DigitValue(s[|s| - 1])
  }

  lemma {:induction false} NumeralShape(n: nat, base: nat)
    requires 2 <= base <= 16
    ensures |Numeral(n, base)| > 0 && AllHex(Numeral(n, base))
    ensures base == 10 ==> AllDecimal(Numeral(n, base))
  {
    hide DigitChar, IsHexDigit;
    if n >= base {
      NumeralShape(n / base, base);
      assert Numeral(n, base) == Numeral(n / base, base) + [DigitChar(n % base)];
    }
  }

  lemma NumeralValueSnoc(s: string, c: char, base: nat)
    ensures NumeralValue(s + [c], base) == NumeralValue(s, base) * base + DigitValue(c)
  {
    assert (s + [c])[..|s|] == s;
  }

  lemma DigitRoundTrip(d: nat)
    requires d < 16
    ensures DigitValue(DigitChar(d)) == d
  {
  }

  lemma DivMod(n: nat, base: nat)
    requires base > 0
    ensures n == n / base * base + n % base
    ensures 2 <= base <= n ==> n / base < n
  {
  }

  lemma NumeralUnfold(n: nat, base: nat)
    requires 2 <= base <= 16 && base <= n
    ensures NumeralValue(Numeral(n, base), base) == NumeralValue(Numeral(n / base, base), base) * base + n % base
  {
    NumeralValueSnoc(Numeral(n / base, base), DigitChar(n % base), base);
  }

  // Reading a printed number gives the number back.
  lemma {:induction false} NumeralRoundTrip(n: nat, base: nat)
    requires 2 <= base <= 16
    ensures NumeralValue(Numeral(n, base), base) == n
  {
    if n < base {
      NumeralValueSnoc("", DigitChar(n), base);
      assert "" + [DigitChar(n)] == [DigitChar(n)];
    } else {
      DivMod(n, base);
      var q := n / base;
      NumeralRoundTrip(q, base);
      NumeralUnfold(n, base);
      assert NumeralValue(Numeral(n, base), base) == q * base + n % base;
    }
  }

  lemma NumeralInjective(m: nat, n: nat, base: nat)
    requires 2 <= base <= 16 && Numeral(m, base) == Numeral(n, base)
    ensures m == n
  {
    NumeralRoundTrip(m, base);
    NumeralRoundTrip(n, base);
  }

  // A number is printed without leading zeros.
  lemma {:induction false} NoLeadingZero(n: nat, base: nat)
    requires 2 <= base <= 16 && n > 0
    ensures |Numeral(n, base)| > 0 && Numeral(n, base)[0] != '0'
  {
    if n >= base {
      DivMod(n, base);
      NoLeadingZero(n / base, base);
    }
  }

  // ---- Separators ----

  lemma FirstSeparator(a: string, x: string, b: string, y: string, sep: char)
    requires sep !in a && sep !in b
    requires a + [sep] + x == b + [sep] + y
    ensures a == b && x == y
  {
    var s, t := a + [sep] + x, b + [sep] + y;
    assert s[|a|] == sep && t[|b|] == sep;
    assert forall i :: 0 <= i < |a| ==> s[i] == a[i] && a[i] != sep;
    assert forall i :: 0 <= i < |b| ==> t[i] == b[i] && b[i] != sep;
    assert a == s[..|a|] == t[..|b|] == b;
    assert x == s[|a| + 1..] == t[|b| + 1..] == y;
  }

  lemma LastSeparator(a: string, x: string, b: string, y: string, sep: char)
    requires sep !in x && sep !in y
    requires a + [sep] + x == b + [sep] + y
    ensures a == b && x == y
  {
    var s, t := a + [sep] + x, b + [sep] + y;
    assert s[|a|] == sep && t[|b|] == sep;
    assert forall i :: |a| < i < |s| ==> s[i] == x[i - |a| - 1] && s[i] != sep;
    assert forall i :: |b| < i < |t| ==> t[i] == y[i - |b| - 1] && t[i] != sep;
    assert a == s[..|a|] == t[..|b|] == b;
    assert x == s[|a| + 1..] == t[|b| + 1..] == y;
  }

  // Numerals joined by a separator: "1.2.3.4", "2001:db8:0:1".
  function Join(values: seq<nat>, base: nat, sep: char): string
    requires 2 <= base <= 16
  {
    if |values| == 0 then ""
    else if |values| == 1 then Numeral(values[0], base)
    else Numeral(values[0], base) + [sep] + Join(values[1..], base, sep)
  }

  // The fields of a text between separators, as `strings.Split` returns them.
  function Split(s: string, sep: char): (parts: seq<string>)
    ensures |parts| >= 1
  {
    if s == "" then [""]
    else
      var rest := Split(s[1..], sep);
      if s[0] == sep then [""] + rest else [[s[0]] + rest[0]] + rest[1..]
  }

  lemma {:induction false} SplitAtFirst(a: string, x: string, sep: char)
    requires sep !in a
    ensures Split(a + [sep] + x, sep) == [a] + Split(x, sep)
  {
    var s := a + [sep] + x;
    if a == "" {
      assert s[1..] == x;
    } else {
      assert s[1..] == a[1..] + [sep] + x;
      SplitAtFirst(a[1..], x, sep);
      assert [a[0]] + a[1..] == a;
    }
  }

  lemma {:induction false} SplitNone(a: string, sep: char)
    requires sep !in a
    ensures Split(a, sep) == [a]
  {
    if a != "" {
      SplitNone(a[1..], sep);
      assert [a[0]] + a[1..] == a;
    }
  }

  lemma NotHex(s: string, sep: char)
    requires AllHex(s) && !IsHexDigit(sep)
    ensures sep !in s
  {
  }

  // Splitting a joined list gives the printed numbers, one field each.
  lemma {:induction false} SplitJoin(values: seq<nat>, base: nat, sep: char)
    requires 2 <= base <= 16 && !IsHexDigit(sep) && |values| > 0
    ensures Split(Join(values, base, sep), sep)
         == seq(|values|, i requires 0 <= i < |values| => Numeral(values[i], base))
  {
    NumeralShape(values[0], base);
    NotHex(Numeral(values[0], base), sep);
    if |values| == 1 {
      SplitNone(Numeral(values[0], base), sep);
    } else {
      SplitAtFirst(Numeral(values[0], base), Join(values[1..], base, sep), sep);
      SplitJoin(values[1..], base, sep);
    }
  }

  // A joined list determines its numbers.
  lemma JoinInjective(u: seq<nat>, v: seq<nat>, base: nat, sep: char)
    requires 2 <= base <= 16 && !IsHexDigit(sep)
    requires Join(u, base, sep) == Join(v, base, sep)
    ensures u == v
  {
    JoinShape(u, base, sep);
    JoinShape(v, base, sep);
    if |u| > 0 && |v| > 0 {
      SplitJoin(u, base, sep);
      SplitJoin(v, base, sep);
      var su := Split(Join(u, base, sep), sep);
      forall i | 0 <= i < |u| ensures u[i] == v[i] {
        assert su[i] == Numeral(u[i], base) == Numeral(v[i], base);
        NumeralInjective(u[i], v[i], base);
      }
    }
  }

  // A join holds only hex digits and separators, never two separators in a row, none at either end.
  ghost predicate WellJoined(s: string, sep: char)
  {
    && (forall i :: 0 <= i < |s| ==> IsHexDigit(s[i]) || s[i] == sep)
    && (forall i :: 0 <= i < |s| - 1 ==> !(s[i] == sep && s[i + 1] == sep))
    && (s != "" ==> s[0] != sep && s[|s| - 1] != sep)
  }

  lemma {:induction false} JoinShape(values: seq<nat>, base: nat, sep: char)
    requires 2 <= base <= 16 && !IsHexDigit(sep)
    ensures WellJoined(Join(values, base, sep), sep)
    ensures |values| > 0 <==> Join(values, base, sep) != ""
    ensures |values| > 1 ==> sep in Join(values, base, sep)
  {
    if |values| > 0 {
      NumeralShape(values[0], base);
      NotHex(Numeral(values[0], base), sep);
      if |values| > 1 {
        var a, x := Numeral(values[0], base), Join(values[1..], base, sep);
        JoinShape(values[1..], base, sep);
        var s := a + [sep] + x;
        assert s[|a|] == sep;
        forall i | 0 <= i < |s| - 1 ensures !(s[i] == sep && s[i + 1] == sep) {
          if i > |a| {
            assert s[i] == x[i - |a| - 1];
          }
        }
      }
    }
  }
}
