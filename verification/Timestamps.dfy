/** TWAMP timestamps: an instant is moved seventy calendar years forward and cut to 32 bits, and moved
    back when read. All instants are UTC. */
module Timestamps {
  import opened GoTypes
  import opened Calendar

  const DAY: int := 86400
  const SECOND: int := 1000000000

  // time.Time: seconds since 1970-01-01 and the nanoseconds within the second.
  datatype Time = Time(sec: int, nsec: int)

  predicate IsTime(t: Time) { 0 <= t.nsec < SECOND }

  predicate Less(a: Time, b: Time) { a.sec < b.sec || (a.sec == b.sec && a.nsec < b.nsec) }

  const EPOCH: int := 719162  // 1970-01-01

  function DayOf(t: Time): int { t.sec / DAY + EPOCH }

  predicate OnLeapDay(t: Time) { LeapDay(DateOf(DayOf(t))) }

  // The same time of day on another day.
  function OnDay(t: Time, day: int): Time
  {
    Time((day - EPOCH) * DAY + t.sec % DAY, t.nsec)
  }

  // AddDate(k, 0, 0): the date moves, the time of day stays.
  function AddYears(t: Time, k: int): Time { OnDay(t, ShiftYears(DayOf(t), k)) }

  // time.Unix carries nanoseconds beyond one second.
  function Unix(sec: int, nsec: nat): (t: Time)
    ensures IsTime(t) && t.sec * SECOND + t.nsec == sec * SECOND + nsec
  {
    Time(sec + nsec / SECOND, nsec % SECOND)
  }

  datatype TwampTimestamp = TwampTimestamp(integer: u32, fraction: u32)

  function NewTwampTimestamp(t: Time): TwampTimestamp
  {
    var u := AddYears(t, 70);
    TwampTimestamp(ToU32(u.sec), ToU32(u.nsec))
  }

  // NewTimestamp, and GetTime of a timestamp.
  function GetTime(ts: TwampTimestamp): Time
  {
    AddYears(Unix(ts.integer, ts.fraction), -70)
  }

  // ---- The instants that fit ----

  const MIN_SEC: int := -2208988800  // 1900-01-01T00:00:00
  const MAX_SEC: int := 2085978495   // 2036-02-07T06:28:15

  predicate InRange(t: Time) { MIN_SEC <= t.sec <= MAX_SEC }

  // The day number of a date in closed form.
  function FormulaNumber(d: Date): int
    requires 1 <= d.month <= 12
  {
    YearFormula(d.year) + DaysBeforeMonth(Leap(d.year), d.month) + d.day - 1
  }

  // A day that, like the day before it, is no 29 February; and where the shift takes it.
  predicate Pivot(p: int, k: int, image: int)
  {
    !LeapDay(DateOf(p)) && !LeapDay(DateOf(p - 1)) && ShiftYears(p, k) == image
  }

  // What makes a date a pivot, in closed form.
  predicate PivotDate(d: Date, before: Date, k: int, p: int, image: int)
  {
    && Valid(d) && Valid(before) && !LeapDay(d) && !LeapDay(before)
    && FormulaNumber(d) == p && FormulaNumber(before) == p - 1
    && FormulaNumber(Date(d.year + k, d.month, d.day)) == image
  }

  lemma NumberByFormula(d: Date)
    requires 1 <= d.month <= 12
    ensures Number(d.year, d.month, d.day) == FormulaNumber(d)
  {
    YearsByFormula(d.year);
  }

  lemma PivotOf(d: Date, before: Date, k: int, p: int, image: int)
    requires PivotDate(d, before, k, p, image)
    ensures Pivot(p, k, image)
  {
    DateByFormula(d, p);
    DateByFormula(before, p - 1);
    ShiftByFormula(d, k, p, image);
  }

  lemma ShiftByFormula(d: Date, k: int, p: int, image: int)
    requires Valid(d) && DateOf(p) == d && FormulaNumber(Date(d.year + k, d.month, d.day)) == image
    ensures ShiftYears(p, k) == image
  {
    NumberByFormula(Date(d.year + k, d.month, d.day));
    ShiftOfDate(p, d, k);
  }

  lemma DateByFormula(d: Date, p: int)
    requires Valid(d) && FormulaNumber(d) == p
    ensures DateOf(p) == d
  {
    NumberByFormula(d);
    DateOfNumber(d);
  }

  // Shifted days compare with the image of a pivot as the days compare with the pivot.
  lemma ShiftAround(n: int, p: int, k: int, image: int)
    requires Pivot(p, k, image)
    ensures ShiftYears(n, k) < image <==> n < p
    ensures ShiftYears(n, k) > image <==> n > p
  {
    ShiftMonotone(p - 1, p, k);
    if n < p - 1 {
      ShiftMonotone(n, p - 1, k);
    } else if n > p {
      ShiftMonotone(p, n, k);
    }
  }

  lemma SplitSeconds(sec: int)
    ensures sec == sec / DAY * DAY + sec % DAY && 0 <= sec % DAY < DAY
  {
  }

  lemma OnDayFields(t: Time, day: int)
    ensures DayOf(OnDay(t, day)) == day && OnDay(t, day).sec % DAY == t.sec % DAY
    ensures OnDay(t, DayOf(t)) == t && OnDay(t, DayOf(t) + 1) == Time(t.sec + DAY, t.nsec)
  {
    SplitSeconds(t.sec);
  }

  lemma OnDayOrder(a: Time, x: int, b: Time, y: int)
    requires x < y || (x == y && Less(OnDay(a, DayOf(b)), b))
    ensures Less(OnDay(a, x), OnDay(b, y))
  {
    SplitSeconds(a.sec);
    SplitSeconds(b.sec);
  }

  // The first and last day that can be encoded, 1900-01-01 and 2036-02-07, are days 693595 and 743305;
  // seventy years on they are days 719162 and 768872.
  lemma Pivots()
    ensures PivotDate(Date(1900, 1, 1), Date(1899, 12, 31), 70, 693595, 719162)
    ensures PivotDate(Date(2036, 2, 7), Date(2036, 2, 6), 70, 743305, 768872)
    ensures PivotDate(Date(1970, 1, 1), Date(1969, 12, 31), -70, 719162, 693595)
    ensures PivotDate(Date(2106, 2, 7), Date(2106, 2, 6), -70, 768872, 743305)
  {
  }

  lemma AroundBounds(n: int)
    ensures (ShiftYears(n, 70) < 719162 <==> n < 693595) && (ShiftYears(n, 70) > 719162 <==> n > 693595)
    ensures (ShiftYears(n, 70) < 768872 <==> n < 743305) && (ShiftYears(n, 70) > 768872 <==> n > 743305)
    ensures (ShiftYears(n, -70) < 693595 <==> n < 719162) && (ShiftYears(n, -70) > 693595 <==> n > 719162)
    ensures (ShiftYears(n, -70) < 743305 <==> n < 768872) && (ShiftYears(n, -70) > 743305 <==> n > 768872)
  {
    Pivots();
    AroundPivot(n, Date(1900, 1, 1), Date(1899, 12, 31), 70, 693595, 719162);
    AroundPivot(n, Date(2036, 2, 7), Date(2036, 2, 6), 70, 743305, 768872);
    AroundPivot(n, Date(1970, 1, 1), Date(1969, 12, 31), -70, 719162, 693595);
    AroundPivot(n, Date(2106, 2, 7), Date(2106, 2, 6), -70, 768872, 743305);
  }

  lemma AroundPivot(n: int, d: Date, before: Date, k: int, p: int, image: int)
    requires PivotDate(d, before, k, p, image)
    ensures ShiftYears(n, k) < image <==> n < p
    ensures ShiftYears(n, k) > image <==> n > p
  {
    PivotOf(d, before, k, p, image);
    ShiftAround(n, p, k, image);
  }

  lemma BoundsByDay(t: Time, image: int)
    requires (image < 719162 <==> DayOf(t) < 693595) && (image > 719162 <==> DayOf(t) > 693595)
    requires (image < 768872 <==> DayOf(t) < 743305) && (image > 768872 <==> DayOf(t) > 743305)
    ensures 0 <= OnDay(t, image).sec < TWO32 <==> InRange(t)
  {
    SplitSeconds(t.sec);
  }

  // The shifted seconds need 32 bits and no sign exactly for the instants in range.
  lemma EncodesExactly(t: Time)
    ensures 0 <= AddYears(t, 70).sec < TWO32 <==> InRange(t)
  {
    AroundBounds(DayOf(t));
    BoundsByDay(t, ShiftYears(DayOf(t), 70));
  }

  lemma BoundsBackByDay(t: Time, image: int)
    requires 0 <= t.sec < TWO32
    requires (image < 693595 <==> DayOf(t) < 719162) && (image > 743305 <==> DayOf(t) > 768872)
    requires image < 743305 <==> DayOf(t) < 768872
    ensures InRange(OnDay(t, image))
  {
    SplitSeconds(t.sec);
  }

  // Whatever 32-bit seconds are read, the result is in range.
  lemma DecodesInRange(t: Time)
    requires 0 <= t.sec < TWO32
    ensures InRange(AddYears(t, -70))
  {
    AroundBounds(DayOf(t));
    BoundsBackByDay(t, ShiftYears(DayOf(t), -70));
  }

  // ---- Round trip ----

  // What a timestamp stands for: the instant itself, and on a 29 February the same time on 1 March.
  function Settled(t: Time): Time
  {
    if OnLeapDay(t) then Time(t.sec + DAY, t.nsec) else t
  }

  lemma OnDayTwice(t: Time, x: int, y: int)
    ensures OnDay(OnDay(t, x), y) == OnDay(t, y)
  {
    OnDayFields(t, x);
  }

  lemma ThereAndBack(t: Time)
    ensures AddYears(AddYears(t, 70), -70) == Settled(t)
  {
    var n := DayOf(t);
    var x := ShiftYears(n, 70);
    OnDayFields(t, x);
    OnDayTwice(t, x, ShiftYears(x, -70));
    SeventyAndBack(n);
  }

  lemma EncodedFields(t: Time)
    requires IsTime(t) && InRange(t)
    ensures NewTwampTimestamp(t).integer == AddYears(t, 70).sec && NewTwampTimestamp(t).fraction == t.nsec
  {
    EncodesExactly(t);
    Fits32(AddYears(t, 70).sec);
    Fits32(t.nsec);
  }

  lemma Fits32(x: int)
    requires 0 <= x < TWO32
    ensures ToU32(x) == x
  {
  }

  lemma UnixOfFields(sec: int, nsec: nat)
    requires nsec < SECOND
    ensures Unix(sec, nsec) == Time(sec, nsec)
  {
  }

  lemma InRangeReadsSettled(t: Time)
    requires IsTime(t) && InRange(t)
    ensures GetTime(NewTwampTimestamp(t)) == Settled(t)
  {
    EncodedFields(t);
    UnixOfFields(AddYears(t, 70).sec, t.nsec);
    ThereAndBack(t);
  }

  // A timestamp gives its instant back, to the nanosecond, exactly for the instants in range that do not
  // fall on a 29 February.
  lemma RoundTripExactly(t: Time)
    requires IsTime(t)
    ensures GetTime(NewTwampTimestamp(t)) == t <==> InRange(t) && !OnLeapDay(t)
  {
    if InRange(t) {
      InRangeReadsSettled(t);
    } else {
      var ts := NewTwampTimestamp(t);
      Fits32(t.nsec);
      UnixOfFields(ts.integer, t.nsec);
      DecodesInRange(Time(ts.integer, t.nsec));
    }
  }

  // Every 29 February in range comes back as 1 March of the same year at the same time of day.
  lemma LeapDayReadsAsMarch(t: Time)
    requires IsTime(t) && InRange(t) && OnLeapDay(t)
    ensures var r := GetTime(NewTwampTimestamp(t));
      && r == Time(t.sec + DAY, t.nsec)
      && DateOf(DayOf(r)) == Date(DateOf(DayOf(t)).year, 3, 1) && r.sec % DAY == t.sec % DAY
  {
    InRangeReadsSettled(t);
    NextDayIsMarch(DayOf(t));
    OnDayFields(t, DayOf(t) + 1);
  }

  lemma NextDayIsMarch(n: int)
    requires LeapDay(DateOf(n))
    ensures DateOf(n + 1) == Date(DateOf(n).year, 3, 1) && ShiftYears(n, 70) == ShiftYears(n + 1, 70)
  {
    var d := DateOf(n);
    DateInSeventyYears(d);
    DateOfNumber(Date(d.year, 3, 1));
  }

  // The timestamp of all zeros reads as the start of 1900.
  lemma ZeroReadsAsFirst()
    ensures GetTime(TwampTimestamp(0, 0)) == Time(MIN_SEC, 0)
  {
    hide ShiftYears, DateOf;
    UnixOfFields(0, 0);
    EpochShiftsBack(DayOf(Unix(0, 0)));
  }

  lemma EpochShiftsBack(n: int)
    requires n == EPOCH
    ensures ShiftYears(n, -70) == 693595
  {
    hide ShiftYears, DateOf;
    Pivots();
    AroundPivot(n, Date(1970, 1, 1), Date(1969, 12, 31), -70, 719162, 693595);
  }

  // A fraction of whole seconds and more, as reflectors send that count binary fractions, is carried into
  // the seconds.
  lemma FractionCarries(sec: u32, whole: nat, nsec: nat)
    requires nsec < SECOND && whole * SECOND + nsec < TWO32 && sec + whole < TWO32
    ensures GetTime(TwampTimestamp(sec, whole * SECOND + nsec)) == GetTime(TwampTimestamp(sec + whole, nsec))
  {
    hide AddYears;
    UnixUnique(sec, whole * SECOND + nsec, Time(sec + whole, nsec));
    UnixUnique(sec + whole, nsec, Time(sec + whole, nsec));
  }

  lemma UnixUnique(sec: int, nsec: nat, t: Time)
    requires IsTime(t) && t.sec * SECOND + t.nsec == sec * SECOND + nsec
    ensures Unix(sec, nsec) == t
  {
    hide Unix;
    var u := Unix(sec, nsec);
    assert (u.sec - t.sec) * SECOND == t.nsec - u.nsec;
  }

  // ---- Order ----

  predicate Earlier(a: TwampTimestamp, b: TwampTimestamp)
  {
    a.integer < b.integer || (a.integer == b.integer && a.fraction < b.fraction)
  }

  lemma SettledNotLeap(t: Time)
    ensures !OnLeapDay(Settled(t)) && AddYears(t, 70) == AddYears(Settled(t), 70)
  {
    if OnLeapDay(t) {
      NextDayIsMarch(DayOf(t));
      OnDayFields(t, DayOf(t) + 1);
      OnDayTwice(t, DayOf(t) + 1, ShiftYears(DayOf(t), 70));
    }
  }

  lemma ShiftedOrder(a: Time, b: Time)
    requires !OnLeapDay(a) && Less(a, b)
    ensures Less(AddYears(a, 70), AddYears(b, 70))
  {
    OnDayFields(a, 0);
    OnDayFields(b, 0);
    LessByDay(a, b);
    if DayOf(a) < DayOf(b) {
      ShiftMonotone(DayOf(a), DayOf(b), 70);
    }
    OnDayOrder(a, ShiftYears(DayOf(a), 70), b, ShiftYears(DayOf(b), 70));
  }

  lemma LessByDay(a: Time, b: Time)
    requires Less(a, b)
    ensures DayOf(a) < DayOf(b) || (DayOf(a) == DayOf(b) && Less(OnDay(a, DayOf(b)), b))
  {
    OnDayFields(a, DayOf(b));
  }

  // Timestamps are ordered as the instants they stand for; hence strictly monotone away from 29 February.
  lemma OrderExactly(a: Time, b: Time)
    requires IsTime(a) && IsTime(b) && InRange(a) && InRange(b)
    ensures Earlier(NewTwampTimestamp(a), NewTwampTimestamp(b)) <==> Less(Settled(a), Settled(b))
    ensures !OnLeapDay(a) && Less(a, b) ==> Earlier(NewTwampTimestamp(a), NewTwampTimestamp(b))
  {
    EncodedFields(a);
    EncodedFields(b);
    SettledNotLeap(a);
    SettledNotLeap(b);
    if Less(Settled(a), Settled(b)) {
      ShiftedOrder(Settled(a), Settled(b));
    } else if Less(Settled(b), Settled(a)) {
      ShiftedOrder(Settled(b), Settled(a));
    }
  }
}
