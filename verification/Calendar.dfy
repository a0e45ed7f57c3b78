/** mktime, gmtime_r and day_of_year of src/libc/time.c. */
module Calendar {
  import opened Words    // time_t is a long

  const MINSEC := 60
  const HOURSEC := 60 * MINSEC
  const DAYSEC := 24 * HOURSEC
  const EPOCH_WDAY := 4

  const MDAYS: seq<seq<nat>> := [
    [31, 28, 31, 30, 31, 30, 31, 31, 30, 31, 30, 31],
    [31, 29, 31, 30, 31, 30, 31, 31, 30, 31, 30, 31]
  ]

  /** C's division truncates towards zero. */
  function Quot(a: int, b: int): int
    requires b > 0
  {
    if a >= 0 then a / b else -(-a / b)
  }

  function Rem(a: int, b: int): int
    requires b > 0
  {
    a - b * Quot(a, b)
  }

  predicate IsLeap(yr: int) {
    if yr % 400 == 0 then true
    else if yr % 100 == 0 then false
    else yr % 4 == 0
  }

  function Leap(yr: int): nat { if IsLeap(yr) then 1 else 0 }

  function YearDays(yr: int): nat { if IsLeap(yr) then 366 else 365 }

  function MonthDays(leap: nat, mon: nat): nat
    requires leap < 2 && mon < 12
  {
    MDAYS[leap][mon]
  }

  /** Days of the first `mon` months. */
  function BeforeMonth(leap: nat, mon: nat): nat
    requires leap < 2 && mon <= 12
  {
    if mon == 0 then 0 else BeforeMonth(leap, mon - 1) + MonthDays(leap, mon - 1)
  }

  /** Days of the years from `first` up to but not including `end`. */
  function BetweenYears(first: int, end: int): nat
    decreases end - first
  {
    if first >= end then 0 else YearDays(first) + BetweenYears(first + 1, end)
  }

  /** The fields of a struct tm that the two functions use; `year` counts from 1900. */
  datatype Fields = Fields(sec: int, min: int, hour: int, mday: int, mon: int, year: int, wday: int, yday: int)

  function DayOfYear(year: int, mon: int, day: int): int
    requires mon <= 12
  {
    day + if mon <= 0 then 0 else BeforeMonth(Leap(year), mon)
  }

  function YearDay(f: Fields): int
    requires f.mon <= 12
  {
    DayOfYear(f.year + 1900, f.mon, f.mday - 1)
  }

  /** Days since the epoch. */
  function DayNumber(f: Fields): int
    requires f.mon <= 12
  {
    YearDay(f) + BetweenYears(1970, f.year + 1900)
  }

  function Seconds(f: Fields): int
    requires f.mon <= 12
  {
    DayNumber(f) * DAYSEC + f.hour * HOURSEC + f.min * MINSEC + f.sec
  }

  /** The fields that mktime corrects. */
  function Corrected(f: Fields): Fields
    requires f.mon <= 12
  {
    f.(yday := YearDay(f), wday := Rem(DayNumber(f) + EPOCH_WDAY, 7))
  }

  /** The year that a day number falls into, counted from `year`, and the day of that year. */
  function SplitYear(days: int, year: int): (int, int)
    decreases days
  {
    if days >= YearDays(year) then SplitYear(days - YearDays(year), year + 1) else (year, days)
  }

  /** The month that a day of the year falls into, and the day of that month. */
  function SplitMonth(leap: nat, days: int, mon: nat): (r: (nat, int))
    requires leap < 2 && mon < 12 && days < BeforeMonth(leap, 12) - BeforeMonth(leap, mon)
    ensures r.0 < 12
    decreases 12 - mon
  {
    if days >= MonthDays(leap, mon) then
      SplitMonth(leap, days - MonthDays(leap, mon), mon + 1)
    else (mon, days)
  }

  lemma WholeYear(leap: nat)
    requires leap < 2
    ensures BeforeMonth(leap, 12) == if leap == 1 then 366 else 365
  {
    assert BeforeMonth(leap, 3) == 90 + leap;
    assert BeforeMonth(leap, 6) == 181 + leap;
    assert BeforeMonth(leap, 9) == 273 + leap;
  }

  lemma {:induction false} YearSplit(days: int, year: int)
    ensures var (y, d) := SplitYear(days, year);
      y >= year && d < YearDays(y) && days == BetweenYears(year, y) + d && (days >= 0 ==> d >= 0)
        && (days < 0 ==> y == year)
    decreases days
  {
    if days >= YearDays(year) { YearSplit(days - YearDays(year), year + 1); }
  }

  lemma {:induction false} YearJoin(year: int, y: int, d: int)
    requires year <= y && 0 <= d < YearDays(y)
    ensures SplitYear(BetweenYears(year, y) + d, year) == (y, d)
    decreases y - year
  {
    if year < y { YearJoin(year + 1, y, d); }
  }

  lemma {:induction false} MonthSplit(leap: nat, days: int, mon: nat)
    requires leap < 2 && mon < 12 && days < BeforeMonth(leap, 12) - BeforeMonth(leap, mon)
    ensures var (m, d) := SplitMonth(leap, days, mon);
      m >= mon && d < MonthDays(leap, m) && BeforeMonth(leap, mon) + days == BeforeMonth(leap, m) + d
        && (days >= 0 ==> d >= 0)
    decreases 12 - mon
  {
    hide MonthDays;
    if days >= MonthDays(leap, mon) { MonthSplit(leap, days - MonthDays(leap, mon), mon + 1); }
  }

  lemma {:induction false} MonthsGrow(leap: nat, m: nat, n: nat)
    requires leap < 2 && m <= n <= 12
    ensures BeforeMonth(leap, m) <= BeforeMonth(leap, n)
  {
    if m < n { MonthsGrow(leap, m, n - 1); }
  }

  lemma {:induction false} MonthJoin(leap: nat, mon: nat, m: nat, d: int)
    requires leap < 2 && mon <= m < 12 && 0 <= d < MonthDays(leap, m)
    ensures BeforeMonth(leap, m) - BeforeMonth(leap, mon) + d < BeforeMonth(leap, 12) - BeforeMonth(leap, mon)
    ensures SplitMonth(leap, BeforeMonth(leap, m) - BeforeMonth(leap, mon) + d, mon) == (m, d)
    decreases m - mon
  {
    hide MonthDays;
    MonthsGrow(leap, m + 1, 12);
    if mon < m {
      MonthsGrow(leap, mon + 1, m);
      MonthJoin(leap, mon + 1, m, d);
    }
  }

  /** gmtime_r on values. */
  function GmTime(t: int): (f: Fields)
    ensures 0 <= f.mon < 12
  {
    var days, r := Quot(t, DAYSEC), Rem(t, DAYSEC);
    YearSplit(days, 1970);
    var (year, yday) := SplitYear(days, 1970);
    WholeYear(Leap(year));
    var (mon, day) := SplitMonth(Leap(year), yday, 0);
    Fields(Rem(Rem(r, HOURSEC), MINSEC), Quot(Rem(r, HOURSEC), MINSEC), Quot(r, HOURSEC),
           day + 1, mon, year - 1900, Rem(days + EPOCH_WDAY, 7), yday)
  }

  /** A date and a time of day that exist, from 1970 on. */
  predicate Normalized(f: Fields) {
    && 0 <= f.sec < 60 && 0 <= f.min < 60 && 0 <= f.hour < 24
    && f.year >= 70 && 0 <= f.mon < 12 && 1 <= f.mday <= MonthDays(Leap(f.year + 1900), f.mon)
  }

  /** The day number determines the date. */
  lemma DateOfDay(f: Fields)
    requires Normalized(f)
    ensures 0 <= YearDay(f) < YearDays(f.year + 1900) && BeforeMonth(Leap(f.year + 1900), 12) == YearDays(f.year + 1900)
    ensures SplitYear(DayNumber(f), 1970) == (f.year + 1900, YearDay(f))
    ensures YearDay(f) < BeforeMonth(Leap(f.year + 1900), 12) - BeforeMonth(Leap(f.year + 1900), 0)
    ensures SplitMonth(Leap(f.year + 1900), YearDay(f), 0) == (f.mon, f.mday - 1)
  {
    hide MonthDays, SplitYear, SplitMonth, BetweenYears;
    var leap := Leap(f.year + 1900);
    WholeYear(leap);
    MonthJoin(leap, 0, f.mon, f.mday - 1);
    YearJoin(1970, f.year + 1900, YearDay(f));
  }

  lemma TimeOfDay(days: int, hour: int, min: int, sec: int)
    requires days >= 0 && 0 <= sec < 60 && 0 <= min < 60 && 0 <= hour < 24
    ensures var t := days * DAYSEC + hour * HOURSEC + min * MINSEC + sec;
      && t >= 0 && Quot(t, DAYSEC) == days && Rem(t, DAYSEC) == hour * HOURSEC + min * MINSEC + sec
    ensures var r := hour * HOURSEC + min * MINSEC + sec;
      Quot(r, HOURSEC) == hour && Quot(Rem(r, HOURSEC), MINSEC) == min && Rem(Rem(r, HOURSEC), MINSEC) == sec
  {
  }

  /** Every date from 1970 on comes back from its number of seconds, with weekday and year day corrected. */
  lemma DateRoundTrip(f: Fields)
    requires Normalized(f)
    ensures Seconds(f) >= 0 && GmTime(Seconds(f)) == Corrected(f)
  {
    hide SplitYear, SplitMonth, BetweenYears, YearDay, Quot, Rem, MonthDays, BeforeMonth;
    DateOfDay(f);
    TimeOfDay(DayNumber(f), f.hour, f.min, f.sec);
  }

  /** What the date of a time has to do with it. */
  lemma PartsOf(t: int)
    ensures var f, days := GmTime(t), Quot(t, DAYSEC);
      && f.year >= 70 && 0 <= f.mon < 12 && DayNumber(f) == days && YearDay(f) == f.yday
      && f.mday <= MonthDays(Leap(f.year + 1900), f.mon) && (days >= 0 ==> f.mday >= 1) && (days < 0 ==> f.mday <= 0)
  {
    hide MonthDays, SplitYear, SplitMonth, BetweenYears, BeforeMonth, Quot, Rem;
    var days := Quot(t, DAYSEC);
    YearSplit(days, 1970);
    var (year, yday) := SplitYear(days, 1970);
    WholeYear(Leap(year));
    NoMonths(Leap(year));
    MonthSplit(Leap(year), yday, 0);
    if days < 0 { BetweenNone(year); NegativeDay(Leap(year), yday); }
  }

  lemma BetweenNone(year: int)
    ensures BetweenYears(year, year) == 0
  {
  }

  lemma NegativeDay(leap: nat, days: int)
    requires leap < 2 && days < 0 && days < BeforeMonth(leap, 12) - BeforeMonth(leap, 0)
    ensures SplitMonth(leap, days, 0) == (0, days)
  {
  }

  lemma TimeParts(t: int)
    requires t >= 0
    ensures var d, r := Quot(t, DAYSEC), Rem(t, DAYSEC);
      && d >= 0 && 0 <= Quot(r, HOURSEC) < 24 && 0 <= Quot(Rem(r, HOURSEC), MINSEC) < 60
        && 0 <= Rem(Rem(r, HOURSEC), MINSEC) < 60
      && t == d * DAYSEC + Quot(r, HOURSEC) * HOURSEC + Quot(Rem(r, HOURSEC), MINSEC) * MINSEC
              + Rem(Rem(r, HOURSEC), MINSEC)
  {
  }

  /** Every time from the epoch on comes back from its date, which is normalized and already correct. */
  lemma TimeRoundTrip(t: int)
    requires t >= 0
    ensures Normalized(GmTime(t)) && Seconds(GmTime(t)) == t && Corrected(GmTime(t)) == GmTime(t)
  {
    hide SplitYear, SplitMonth, BetweenYears, BeforeMonth, YearDay, DayNumber, MonthDays, Quot, Rem;
    PartsOf(t);
    TimeParts(t);
  }

  /** Before the epoch too a date has the seconds of its time, but no part of it is positive, as C divides. */
  lemma EveryTimeBack(t: int)
    ensures Seconds(GmTime(t)) == t && Corrected(GmTime(t)) == GmTime(t)
    ensures t < 0 ==> var f := GmTime(t);
      f.year == 70 && f.mon == 0 && f.mday <= 1 && -24 < f.hour <= 0 && -60 < f.min <= 0 && -60 < f.sec <= 0
  {
    hide SplitYear, SplitMonth, BetweenYears, BeforeMonth, YearDay, DayNumber, MonthDays, Quot, Rem;
    PartsOf(t);
    PartsSum(t);
    if t < 0 { FirstMonth(t); }
  }

  lemma PartsSum(t: int)
    ensures var d, r := Quot(t, DAYSEC), Rem(t, DAYSEC);
      && t == d * DAYSEC + Quot(r, HOURSEC) * HOURSEC + Quot(Rem(r, HOURSEC), MINSEC) * MINSEC
              + Rem(Rem(r, HOURSEC), MINSEC)
      && (t < 0 ==> d <= 0 && -24 < Quot(r, HOURSEC) <= 0 && -60 < Quot(Rem(r, HOURSEC), MINSEC) <= 0
                    && -60 < Rem(Rem(r, HOURSEC), MINSEC) <= 0)
  {
  }

  lemma FirstMonth(t: int)
    requires t < 0
    ensures GmTime(t).year == 70 && GmTime(t).mon == 0 && GmTime(t).mday == Quot(t, DAYSEC) + 1
  {
    hide Quot, Rem;
    PartsSum(t);
    if Quot(t, DAYSEC) < 0 { NegativeDay(Leap(1970), Quot(t, DAYSEC)); }
  }

  /* The calendar that the tables and loops stand for */

  /** Leap days up to the end of a year. */
  function LeapDays(y: int): int { y / 4 - y / 100 + y / 400 }

  lemma {:induction false} YearsClosed(first: int, end: int)
    requires first <= end
    ensures BetweenYears(first, end) == 365 * (end - first) + LeapDays(end - 1) - LeapDays(first - 1)
    decreases end - first
  {
    hide YearDays, LeapDays;
    if first < end {
      OneYear(first);
      YearsClosed(first + 1, end);
    }
  }

  lemma OneYear(y: int)
    ensures YearDays(y) == 365 + LeapDays(y) - LeapDays(y - 1)
  {
    Fours(y);
    Hundreds(y);
    FourHundreds(y);
    Multiples(y);
  }

  lemma Fours(y: int)
    ensures y / 4 - (y - 1) / 4 == if y % 4 == 0 then 1 else 0
  {
  }

  lemma Hundreds(y: int)
    ensures y / 100 - (y - 1) / 100 == if y % 100 == 0 then 1 else 0
  {
  }

  lemma FourHundreds(y: int)
    ensures y / 400 - (y - 1) / 400 == if y % 400 == 0 then 1 else 0
  {
  }

  lemma Multiples(y: int)
    ensures (y % 400 == 0 ==> y % 100 == 0) && (y % 100 == 0 ==> y % 4 == 0)
  {
  }

  /** The days of m months from March on, 153 for every five. */
  function FromMarch(m: int): int { (153 * m + 2) / 5 }

  function MonthsBefore(leap: nat, mon: int): int {
    if mon < 2 then FromMarch(mon + 10) - 306 else FromMarch(mon - 2) + 59 + leap
  }

  lemma {:induction false} MonthsClosed(leap: nat, mon: nat)
    requires leap < 2 && mon < 12
    ensures BeforeMonth(leap, mon) == MonthsBefore(leap, mon)
  {
    hide MonthDays, MonthsBefore;
    OneMonth(leap, mon);
    if mon > 0 { MonthsClosed(leap, mon - 1); }
  }

  lemma OneMonth(leap: nat, mon: nat)
    requires leap < 2 && mon < 12
    ensures mon == 0 ==> MonthsBefore(leap, mon) == 0
    ensures mon > 0 ==> MonthsBefore(leap, mon) - MonthsBefore(leap, mon - 1) == MonthDays(leap, mon - 1)
  {
  }

  /** The year and the month as counted from March on. */
  function MarchYear(f: Fields): int { f.year + 1900 - if f.mon < 2 then 1 else 0 }

  function MarchMonth(f: Fields): int { (f.mon + 10) % 12 }

  lemma DayClosed(f: Fields)
    requires Normalized(f)
    ensures var y := MarchYear(f); DayNumber(f) == 365 * y + LeapDays(y) + FromMarch(MarchMonth(f)) + f.mday - 719469
  {
    hide BetweenYears, BeforeMonth, MonthDays, YearDays, LeapDays, FromMarch;
    var year := f.year + 1900;
    YearsClosed(1970, year);
    MonthsClosed(Leap(year), f.mon);
    NoMonths(Leap(year));
    OneYear(year);
    LeapParts(year);
  }

  lemma LeapParts(y: int)
    ensures YearDays(y) == 365 + Leap(y) && LeapDays(1969) == 477
  {
  }

  /** The day number is that of the Gregorian calendar. */
  lemma GregorianDay(f: Fields)
    requires Normalized(f)
    ensures var y, m := MarchYear(f), MarchMonth(f);
      DayNumber(f) == 365 * y + y / 4 - y / 100 + y / 400 + (153 * m + 2) / 5 + f.mday - 719469
  {
    hide MonthDays, DayNumber, MarchYear, MarchMonth;
    DayClosed(f);
  }

  /** The weekday is the one of Zeller's congruence. */
  lemma ZellersWeekday(f: Fields)
    requires Normalized(f)
    ensures var y, m := MarchYear(f), MarchMonth(f);
      Corrected(f).wday == (f.mday + 13 * (m + 4) / 5 + y + y / 4 - y / 100 + y / 400 + 6) % 7
  {
    hide DayNumber, MonthDays, MarchYear, Rem;
    var y, m := MarchYear(f), MarchMonth(f);
    FromEpoch(f);
    DayClosed(f);
    Fifths(m);
    SameWeekday(f.mday + 13 * (m + 4) / 5 + y + LeapDays(y) + 6, 52 * y + 4 * m - 102783);
  }

  lemma FromEpoch(f: Fields)
    requires Normalized(f)
    ensures DayNumber(f) >= 0
  {
    hide MonthDays;
    DateOfDay(f);
    YearSplit(DayNumber(f), 1970);
  }

  lemma Fifths(m: int)
    ensures FromMarch(m) == 13 * (m + 4) / 5 + 28 * m - 10
  {
  }

  lemma SameWeekday(z: int, k: int)
    requires z + 7 * k >= 0
    ensures Rem(z + 7 * k, 7) == z % 7
  {
  }

  /** With a 32-bit time_t the date comes back exactly while its seconds fit. */
  lemma RoundTripExactly(f: Fields)
    requires Normalized(f)
    ensures GmTime(Wrap(Seconds(f))) == Corrected(f) <==> Seconds(f) < INT_END
  {
    hide GmTime, Seconds, Corrected, Wrap, MonthDays;
    DateRoundTrip(f);
    WrapExactly(Seconds(f));
    var t := Wrap(Seconds(f));
    SameSeconds(f);
    if t >= 0 {
      TimeRoundTrip(t);
    } else {
      BeforeEpoch(t);
    }
  }

  lemma WrapExactly(x: int)
    requires x >= 0
    ensures Wrap(x) == x <==> x < INT_END
  {
  }

  lemma SameSeconds(f: Fields)
    requires Normalized(f)
    ensures Seconds(Corrected(f)) == Seconds(f) && Normalized(Corrected(f))
  {
    hide BetweenYears, BeforeMonth, MonthDays;
  }

  /** A negative time is no normalized date. */
  lemma BeforeEpoch(t: int)
    requires t < 0
    ensures !Normalized(GmTime(t))
  {
    hide SplitYear, SplitMonth, BetweenYears, BeforeMonth, YearDay, DayNumber, MonthDays, Quot, Rem;
    PartsOf(t);
    NegativeParts(t);
  }

  lemma NegativeParts(t: int)
    requires t < 0
    ensures var d, r := Quot(t, DAYSEC), Rem(t, DAYSEC);
      d < 0 || Quot(r, HOURSEC) < 0 || Quot(Rem(r, HOURSEC), MINSEC) < 0 || Rem(Rem(r, HOURSEC), MINSEC) < 0
  {
  }

  /* The functions as the C code runs them. */

  method CountDayOfYear(year: int, mon: int, day: int) returns (yday: int)
    requires mon <= 12
    ensures yday == DayOfYear(year, mon, day)
  {
    var leap := Leap(year);
    yday := day;
    var i := 0;
    while i < mon
      invariant 0 <= i && (i <= mon || i == 0)
      invariant yday == day + BeforeMonth(leap, i)
    {
      yday := yday + MonthDays(leap, i);
      i := i + 1;
    }
  }

  lemma {:induction false} BetweenYearsUpTo(first: int, end: int)
    requires first <= end
    ensures BetweenYears(first, end + 1) == BetweenYears(first, end) + YearDays(end)
    decreases end - first
  {
    if first < end { BetweenYearsUpTo(first + 1, end); }
  }

  class Tm {
    var sec: int
    var min: int
    var hour: int
    var mday: int
    var mon: int
    var year: int
    var wday: int
    var yday: int

    function View(): Fields
      reads this
    {
      Fields(sec, min, hour, mday, mon, year, wday, yday)
    }

    /** mktime: the seconds of a date; corrects the year day and the weekday in place. */
    method MkTime() returns (t: int)
      requires mon <= 12
      modifies this`wday, this`yday
      ensures t == Wrap(Seconds(old(View()))) && View() == Corrected(old(View()))
    {
      hide DayOfYear, Rem, Wrap;
      var y, numYears := 1970, year - 70;
      var days := CountDayOfYear(year + 1900, mon, mday - 1);
      yday := days;
      var i := 0;
      while i < numYears
        invariant 0 <= i && (i <= numYears || i == 0) && y == 1970 + i
        invariant yday == YearDay(old(View())) && days == yday + BetweenYears(1970, y)
      {
        BetweenYearsUpTo(1970, y);
        days := days + YearDays(y);
        y := y + 1;
        i := i + 1;
      }
      wday := Rem(days + EPOCH_WDAY, 7);
      t := Wrap(days * DAYSEC + hour * HOURSEC + min * MINSEC + sec);
    }

    /** gmtime_r: the date of a time. */
    method FromTime(time: int)
      modifies this
      ensures View() == GmTime(time)
    {
      hide Quot, Rem, MonthDays, BeforeMonth, SplitYear, SplitMonth;
      var days, t := Quot(time, DAYSEC), Rem(time, DAYSEC);
      YearSplit(days, 1970);
      wday := Rem(days + EPOCH_WDAY, 7);
      var y, yearDays := CountYears(days);
      year := y - 1900;
      yday := yearDays;
      var leap := Leap(y);
      WholeYear(leap);
      NoMonths(leap);
      var monthDays := CountMonths(leap, yearDays);
      mday := monthDays + 1;
      hour := Quot(t, HOURSEC);
      t := Rem(t, HOURSEC);
      min := Quot(t, MINSEC);
      sec := Rem(t, MINSEC);
    }

    /** The loop over the months. */
    method CountMonths(leap: nat, yearDays: int) returns (days: int)
      requires leap < 2 && yearDays < BeforeMonth(leap, 12) - BeforeMonth(leap, 0)
      modifies this`mon
      ensures 0 <= mon < 12 && (mon, days) == SplitMonth(leap, yearDays, 0)
    {
      hide MonthDays, BeforeMonth;
      days := yearDays;
      mon := 0;
      while days >= MonthDays(leap, mon)
        invariant 0 <= mon < 12 && days < BeforeMonth(leap, 12) - BeforeMonth(leap, mon)
        invariant SplitMonth(leap, days, mon) == SplitMonth(leap, yearDays, 0)
        decreases 12 - mon
      {
        NextMonth(leap, mon, days);
        days := days - MonthDays(leap, mon);
        mon := mon + 1;
      }
    }
  }

  /** The loop over the years. */
  method CountYears(total: int) returns (y: int, days: int)
    ensures (y, days) == SplitYear(total, 1970)
  {
    days, y := total, 1970;
    while days >= YearDays(y)
      invariant SplitYear(days, y) == SplitYear(total, 1970)
      decreases days
    {
      days := days - YearDays(y);
      y := y + 1;
    }
  }

  lemma NoMonths(leap: nat)
    requires leap < 2
    ensures BeforeMonth(leap, 0) == 0
  {
  }

  /** The walk over the months never leaves the table. */
  lemma NextMonth(leap: nat, mon: nat, days: int)
    requires leap < 2 && mon < 12 && days >= MonthDays(leap, mon)
    requires days < BeforeMonth(leap, 12) - BeforeMonth(leap, mon)
    ensures mon + 1 < 12 && BeforeMonth(leap, mon + 1) == BeforeMonth(leap, mon) + MonthDays(leap, mon)
    ensures SplitMonth(leap, days, mon) == SplitMonth(leap, days - MonthDays(leap, mon), mon + 1)
  {
    hide MonthDays;
  }
}
