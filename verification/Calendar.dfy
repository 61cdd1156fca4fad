/** The proleptic Gregorian calendar in UTC, as package `time` computes it: dates to day numbers, day
    numbers to dates, and the shift of a date by whole years, which turns a 29 February that does not
    exist into 1 March. */
module Calendar {
  datatype Date = Date(year: int, month: int, day: int)

  predicate Leap(y: int) { y % 4 == 0 && (y % 100 != 0 || y % 400 == 0) }

  function YearLength(y: int): int { if Leap(y) then 366 else 365 }

  // Days from 0001-01-01 to the first of January of the year: the lengths of the years between.
  function DaysBeforeYear(y: int): int
    decreases if y >= 1 then y - 1 else 1 - y
  {
    if y == 1 then 0
    else if y > 1 then DaysBeforeYear(y - 1) + YearLength(y - 1)
    else DaysBeforeYear(y + 1) - YearLength(y)
  }

  lemma NextYear(y: int)
    ensures DaysBeforeYear(y + 1) == DaysBeforeYear(y) + YearLength(y)
  {
  }

  // The closed form; Dafny's division rounds down here.
  function YearFormula(y: int): int
  {
    var p := y - 1;
    365 * p + p / 4 - p / 100 + p / 400
  }

  lemma DivNext(p: int, k: int)
    requires k == 4 || k == 100 || k == 400
    ensures (p + 1) / k == p / k + if (p + 1) % k == 0 then 1 else 0
  {
    if k == 4 {
      assert (p + 1) / 4 == p / 4 + if (p + 1) % 4 == 0 then 1 else 0;
    } else if k == 100 {
      assert (p + 1) / 100 == p / 100 + if (p + 1) % 100 == 0 then 1 else 0;
    } else {
      assert (p + 1) / 400 == p / 400 + if (p + 1) % 400 == 0 then 1 else 0;
    }
  }

  lemma FormulaNextYear(y: int)
    ensures YearFormula(y + 1) == YearFormula(y) + YearLength(y)
  {
    DivNext(y - 1, 4);
    DivNext(y - 1, 100);
    DivNext(y - 1, 400);
  }

  lemma {:induction false} YearsByFormula(y: int)
    ensures DaysBeforeYear(y) == YearFormula(y)
    decreases if y >= 1 then y - 1 else 1 - y
  {
    if y > 1 {
      YearsByFormula(y - 1);
      FormulaNextYear(y - 1);
    } else if y < 1 {
      YearsByFormula(y + 1);
      FormulaNextYear(y);
    }
  }

  function DaysBeforeMonth(leap: bool, m: int): int
    requires 1 <= m <= 13
  {
    (if m == 1 then 0 else if m == 2 then 31 else if m == 3 then 59 else if m == 4 then 90
     else if m == 5 then 120 else if m == 6 then 151 else if m == 7 then 181 else if m == 8 then 212
     else if m == 9 then 243 else if m == 10 then 273 else if m == 11 then 304 else if m == 12 then 334 else 365)
    + if leap && m > 2 then 1 else 0
  }

  function MonthLength(leap: bool, m: int): (n: int)
    requires 1 <= m <= 12
    ensures n == DaysBeforeMonth(leap, m + 1) - DaysBeforeMonth(leap, m)
    ensures 28 <= n <= 31
  {
    if m == 2 then if leap then 29 else 28
    else if m == 4 || m == 6 || m == 9 || m == 11 then 30
    else 31
  }

  predicate Valid(d: Date) { 1 <= d.month <= 12 && 1 <= d.day <= MonthLength(Leap(d.year), d.month) }

  predicate LeapDay(d: Date) { d.month == 2 && d.day == 29 }

  // Days since 0001-01-01; a day past the end of the month counts on into the next.
  function Number(y: int, m: int, d: int): int
    requires 1 <= m <= 12
  {
    DaysBeforeYear(y) + DaysBeforeMonth(Leap(y), m) + d - 1
  }

  // ---- From day number to date ----

  // The year that contains the day, searching from year y.
  function YearFrom(n: int, y: int): (r: int)
    ensures DaysBeforeYear(r) <= n < DaysBeforeYear(r) + YearLength(r)
    decreases if n < DaysBeforeYear(y) then DaysBeforeYear(y) - n
              else if n >= DaysBeforeYear(y) + YearLength(y) then n - DaysBeforeYear(y) else 0
  {
    if n < DaysBeforeYear(y) then YearFrom(n, y - 1)
    else if n >= DaysBeforeYear(y) + YearLength(y) then YearFrom(n, y + 1)
    else y
  }

  // The last month that starts on or before the day.
  function MonthOf(leap: bool, yday: int, m: int): (r: int)
    requires 1 <= m <= 12 && 0 <= yday < DaysBeforeMonth(leap, m + 1)
    ensures 1 <= r <= m && DaysBeforeMonth(leap, r) <= yday < DaysBeforeMonth(leap, r + 1)
    decreases m
  {
    if yday >= DaysBeforeMonth(leap, m) then m else MonthOf(leap, yday, m - 1)
  }

  function DateOf(n: int): (d: Date)
    ensures Valid(d) && Number(d.year, d.month, d.day) == n
  {
    var y := YearFrom(n, 1);
    var yday := n - DaysBeforeYear(y);
    var m := MonthOf(Leap(y), yday, 12);
    Date(y, m, yday - DaysBeforeMonth(Leap(y), m) + 1)
  }

  lemma {:induction false} YearsGrow(y: int, z: int)
    requires y <= z
    ensures DaysBeforeYear(y) + 365 * (z - y) <= DaysBeforeYear(z)
    decreases z - y
  {
    if y < z {
      NextYear(z - 1);
      YearsGrow(y, z - 1);
    }
  }

  lemma MonthsGrow(leap: bool, m: int, n: int)
    requires 1 <= m < n <= 13
    ensures DaysBeforeMonth(leap, m) + MonthLength(leap, m) <= DaysBeforeMonth(leap, n)
  {
  }

  predicate Before(a: Date, b: Date)
  {
    a.year < b.year || (a.year == b.year && (a.month < b.month || (a.month == b.month && a.day < b.day)))
  }

  // Shifting both dates by k years keeps their order, strictly unless the earlier is a 29 February.
  lemma ShiftOrder(a: Date, b: Date, k: int)
    requires Valid(a) && Valid(b) && Before(a, b)
    ensures Number(a.year + k, a.month, a.day) <= Number(b.year + k, b.month, b.day)
    ensures !LeapDay(a) || k == 0 ==> Number(a.year + k, a.month, a.day) < Number(b.year + k, b.month, b.day)
  {
    if a.year < b.year {
      YearEnd(a, k);
      NextYear(a.year + k);
      YearsGrow(a.year + k + 1, b.year + k);
    } else if a.month < b.month {
      MonthEnd(a, k);
      MonthsGrow(Leap(a.year + k), a.month, b.month);
    }
  }

  // A date of month m, read in another year, lies before the next month, or is its first day.
  lemma MonthEnd(a: Date, k: int)
    requires Valid(a)
    ensures a.day <= MonthLength(Leap(a.year + k), a.month) + 1
    ensures !LeapDay(a) || k == 0 ==> a.day <= MonthLength(Leap(a.year + k), a.month)
  {
  }

  lemma YearEnd(a: Date, k: int)
    requires Valid(a)
    ensures Number(a.year + k, a.month, a.day) < DaysBeforeYear(a.year + k) + YearLength(a.year + k)
  {
    MonthEnd(a, k);
    if a.month < 12 {
      MonthsGrow(Leap(a.year + k), a.month, 12);
    }
  }

  lemma SameNumberSameDate(d: Date, e: Date)
    requires Valid(d) && Valid(e) && Number(d.year, d.month, d.day) == Number(e.year, e.month, e.day)
    ensures d == e
  {
    if Before(d, e) {
      ShiftOrder(d, e, 0);
    } else if Before(e, d) {
      ShiftOrder(e, d, 0);
    }
  }

  lemma SmallerNumberEarlierDate(d: Date, e: Date)
    requires Valid(d) && Valid(e) && Number(d.year, d.month, d.day) < Number(e.year, e.month, e.day)
    ensures Before(d, e)
  {
    if Before(e, d) {
      ShiftOrder(e, d, 0);
    }
  }

  // A valid date is read back from its day number.
  lemma DateOfNumber(d: Date)
    requires Valid(d)
    ensures DateOf(Number(d.year, d.month, d.day)) == d
  {
    SameNumberSameDate(DateOf(Number(d.year, d.month, d.day)), d);
  }

  // ---- Shifting by years ----

  // AddDate(k, 0, 0) on a day.
  function ShiftYears(n: int, k: int): int
  {
    var d := DateOf(n);
    Number(d.year + k, d.month, d.day)
  }

  lemma ShiftMonotone(m: int, n: int, k: int)
    requires m < n
    ensures ShiftYears(m, k) <= ShiftYears(n, k)
    ensures !LeapDay(DateOf(m)) ==> ShiftYears(m, k) < ShiftYears(n, k)
  {
    LaterShiftsLater(DateOf(m), DateOf(n), k);
  }

  lemma LaterShiftsLater(d: Date, e: Date, k: int)
    requires Valid(d) && Valid(e) && Number(d.year, d.month, d.day) < Number(e.year, e.month, e.day)
    ensures Number(d.year + k, d.month, d.day) <= Number(e.year + k, e.month, e.day)
    ensures !LeapDay(d) ==> Number(d.year + k, d.month, d.day) < Number(e.year + k, e.month, e.day)
  {
    SmallerNumberEarlierDate(d, e);
    ShiftOrder(d, e, k);
  }

  // Seventy years on and back: every day returns, except a 29 February, which returns as 1 March,
  // because a leap year plus seventy is never leap.
  lemma SeventyAndBack(n: int)
    ensures ShiftYears(ShiftYears(n, 70), -70) == if LeapDay(DateOf(n)) then n + 1 else n
  {
    var d := DateOf(n);
    DateInSeventyYears(d);
    var e := if LeapDay(d) then Date(d.year + 70, 3, 1) else Date(d.year + 70, d.month, d.day);
    DateOfNumber(e);
    ShiftOfDate(ShiftYears(n, 70), e, -70);
  }

  lemma ShiftOfDate(n: int, d: Date, k: int)
    requires DateOf(n) == d
    ensures ShiftYears(n, k) == Number(d.year + k, d.month, d.day)
  {
  }

  lemma DateInSeventyYears(d: Date)
    requires Valid(d)
    ensures LeapDay(d) ==>
      && Number(d.year + 70, d.month, d.day) == Number(d.year + 70, 3, 1)
      && Number(d.year, 3, 1) == Number(d.year, d.month, d.day) + 1
    ensures Valid(if LeapDay(d) then Date(d.year + 70, 3, 1) else Date(d.year + 70, d.month, d.day))
  {
    assert LeapDay(d) ==> Leap(d.year) && !Leap(d.year + 70);
  }
}
