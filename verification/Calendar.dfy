/** The proleptic Gregorian calendar: the reference definitions that the time-zone code is
  * proved against.  `DaysTo` counts the days from the epoch to a year by walking year by
  * year, which none of the algorithms does. */
module Calendar {
  import opened CInts

  const EPOCH_YEAR := 1970
  const EPOCH_WDAY := 4
  const TM_YEAR_BASE := 1900
  const SECSPERMIN := 60
  const MINSPERHOUR := 60
  const HOURSPERDAY := 24
  const SECSPERHOUR := 3600
  const SECSPERDAY := 86400
  const DAYSPERWEEK := 7
  const DAYSPERNYEAR := 365
  const DAYSPERLYEAR := 366
  const MONSPERYEAR := 12

  predicate IsLeap(y: int) {
    y % 4 == 0 && (y % 100 != 0 || y % 400 == 0)
  }

  function YearLength(y: int): int {
    if IsLeap(y) then DAYSPERLYEAR else DAYSPERNYEAR
  }

  function MonLength(leap: bool, m: int): int
    requires 0 <= m < MONSPERYEAR
  {
    if m == 1 then (if leap then 29 else 28)
    else if m == 3 || m == 5 || m == 8 || m == 10 then 30
    else 31
  }

  /** Days of the year before month `m`. */
  function MonthStart(leap: bool, m: int): int
    requires 0 <= m <= MONSPERYEAR
  {
    if m == 0 then 0 else MonthStart(leap, m - 1) + MonLength(leap, m - 1)
  }

  /** Days from 1 January 1970 to 1 January of year `y`. */
  function DaysTo(y: int): int
    decreases if y < EPOCH_YEAR then EPOCH_YEAR - y else y - EPOCH_YEAR
  {
    if y == EPOCH_YEAR then 0
    else if y > EPOCH_YEAR then DaysTo(y - 1) + YearLength(y - 1)
    else DaysTo(y + 1) - YearLength(y)
  }

  /** Counted days step by one year length, whatever the direction of the walk. */
  lemma DaysToStep(y: int)
    ensures DaysTo(y + 1) == DaysTo(y) + YearLength(y)
  {
  }

  lemma {:induction false} DaysToMonotone(y: int, z: int)
    requires y <= z
    ensures DaysTo(y) + DAYSPERNYEAR * (z - y) <= DaysTo(z) <= DaysTo(y) + DAYSPERLYEAR * (z - y)
    decreases z - y
  {
    if y < z {
      DaysToMonotone(y, z - 1);
      DaysToStep(z - 1);
    }
  }

  /** The number of leap years from 1 through `y`; negative before year 0. */
  function LeapsThruEndOf(y: int): int
    decreases if y >= 0 then 0 else 1
  {
    if y >= 0 then y / 4 - y / 100 + y / 400 else -(LeapsThruEndOf(-(y + 1)) + 1)
  }

  /** The recursive definition is one floor-division formula on both sides of zero. */
  lemma LeapsFloor(y: int)
    ensures LeapsThruEndOf(y) == y / 4 - y / 100 + y / 400
  {
    if y < 0 {
      var n := -(y + 1);
      assert LeapsThruEndOf(n) == n / 4 - n / 100 + n / 400;
      FloorOfComplement(n, 4);
      FloorOfComplement(n, 100);
      FloorOfComplement(n, 400);
    }
  }

  lemma FloorOfComplement(n: int, k: int)
    requires n >= 0 && k > 0
    ensures (-n - 1) / k == -(n / k) - 1
  {
    var q := n / k;
    assert (-q - 1) * k == -q * k - k;
    DivideByRounds(-n - 1, k, -q - 1);
  }

  lemma QuotientStep(n: int, k: int)
    requires k > 0
    ensures n / k == (n - 1) / k + (if n % k == 0 then 1 else 0)
  {
    var q := n / k;
    if n % k == 0 {
      assert (q - 1) * k == n - k;
      DivideByRounds(n - 1, k, q - 1);
    } else {
      DivideByRounds(n - 1, k, q);
    }
  }

  lemma LeapsStep(y: int)
    ensures LeapsThruEndOf(y) == LeapsThruEndOf(y - 1) + (if IsLeap(y) then 1 else 0)
  {
    LeapsFloor(y);
    LeapsFloor(y - 1);
    QuotientStep(y, 4);
    QuotientStep(y, 100);
    QuotientStep(y, 400);
    if y % 400 == 0 {
      QuotientShift(0, 100, y / 400 * 4);
    }
    if y % 100 == 0 {
      QuotientShift(0, 4, y / 100 * 25);
    }
  }

  /** The closed form used by `timesub` counts the same days as the year-by-year walk, between
    * any two years and on both sides of year 0. */
  lemma {:induction false} LeapDayCount(y: int, z: int)
    ensures DaysTo(z) - DaysTo(y) == DAYSPERNYEAR * (z - y) + LeapsThruEndOf(z - 1) - LeapsThruEndOf(y - 1)
    decreases if y <= z then z - y else y - z
  {
    if y < z {
      LeapDayCount(y, z - 1);
      DaysToStep(z - 1);
      LeapsStep(z - 1);
    } else if z < y {
      LeapDayCount(y, z + 1);
      DaysToStep(z);
      LeapsStep(z);
    }
  }

  /** The Gregorian cycle: 400 years have 146097 days. */
  lemma FourCenturies(y: int)
    ensures DaysTo(y + 400) == DaysTo(y) + 146097
  {
    LeapDayCount(y, y + 400);
    LeapsPeriod(y - 1);
  }

  lemma LeapsPeriod(y: int)
    ensures LeapsThruEndOf(y + 400) == LeapsThruEndOf(y) + 97
  {
    LeapsFloor(y);
    LeapsFloor(y + 400);
    QuotientShift(y, 4, 100);
    QuotientShift(y, 100, 4);
    QuotientShift(y, 400, 1);
  }

  lemma DaysToClosed(y: int)
    ensures DaysTo(y) == DAYSPERNYEAR * (y - EPOCH_YEAR) + LeapsThruEndOf(y - 1) - 477
  {
    LeapDayCount(EPOCH_YEAR, y);
  }

  /** The year holding the day that is `d` days after 1 January of year `y`, by walking. */
  function YearFrom(y: int, d: int): (r: int)
    ensures DaysTo(r) <= DaysTo(y) + d < DaysTo(r) + YearLength(r)
    decreases d < 0, if d < 0 then -d else d
  {
    DaysToStep(y - 1);
    DaysToStep(y);
    if d < 0 then YearFrom(y - 1, d + YearLength(y - 1))
    else if d >= YearLength(y) then YearFrom(y + 1, d - YearLength(y))
    else y
  }

  /** The year holding day number `d` counted from the epoch. */
  function YearOfDay(d: int): (r: int)
    ensures DaysTo(r) <= d < DaysTo(r) + YearLength(r)
  {
    YearFrom(EPOCH_YEAR, d)
  }

  lemma YearUnique(d: int, y: int, z: int)
    requires DaysTo(y) <= d < DaysTo(y) + YearLength(y)
    requires DaysTo(z) <= d < DaysTo(z) + YearLength(z)
    ensures y == z
  {
    DaysToStep(y);
    DaysToStep(z);
    if y < z {
      DaysToMonotone(y + 1, z);
    } else if z < y {
      DaysToMonotone(z + 1, y);
    }
  }

  lemma YearOfDayMonotone(d: int, e: int)
    requires d <= e
    ensures YearOfDay(d) <= YearOfDay(e)
  {
    var y, z := YearOfDay(d), YearOfDay(e);
    if z < y {
      DaysToStep(z);
      DaysToMonotone(z + 1, y);
    }
  }

  lemma YearAgainstDay(y: int, day: int)
    ensures DaysTo(y) <= day <==> y <= YearOfDay(day)
  {
    var y0 := YearOfDay(day);
    if y <= y0 {
      DaysToMonotone(y, y0);
    } else {
      DaysToStep(y0);
      DaysToMonotone(y0 + 1, y);
    }
  }

  lemma MonthTable(leap: bool)
    ensures MonthStart(leap, 1) == 31 && MonthStart(leap, 2) == (if leap then 60 else 59)
    ensures MonthStart(leap, 12) == (if leap then 366 else 365)
    ensures forall m :: 0 <= m < 12 ==> MonthStart(leap, m + 1) == MonthStart(leap, m) + MonLength(leap, m)
  {
    assert MonthStart(leap, 3) == MonthStart(leap, 2) + 31;
    assert MonthStart(leap, 5) == MonthStart(leap, 3) + 61;
    assert MonthStart(leap, 7) == MonthStart(leap, 5) + 61;
    assert MonthStart(leap, 9) == MonthStart(leap, 7) + 61;
    assert MonthStart(leap, 11) == MonthStart(leap, 9) + 61;
  }

  lemma {:induction false} MonthStartMonotone(leap: bool, m: int, n: int)
    requires 0 <= m <= n <= MONSPERYEAR
    ensures MonthStart(leap, m) + 28 * (n - m) <= MonthStart(leap, n)
    decreases n
  {
    if m < n {
      MonthStartMonotone(leap, m, n - 1);
    }
  }

  /** A broken-down time, with the meaning of C's `struct tm`. */
  datatype Tm = Tm(sec: int, min: int, hour: int, mday: int, mon: int, year: int,
                   wday: int, yday: int, isdst: int)

  /** The month and day are a date of the year. */
  predicate IsDate(f: Tm) {
    && 0 <= f.mon < MONSPERYEAR
    && 1 <= f.mday <= MonLength(IsLeap(f.year + TM_YEAR_BASE), f.mon)
  }

  /** The date and time of day are in canonical range. */
  predicate IsCanonical(f: Tm) {
    IsDate(f) && 0 <= f.hour < 24 && 0 <= f.min < 60 && 0 <= f.sec < 60
  }

  /** Days from the epoch to the date. */
  function DayNumber(f: Tm): int
    requires 0 <= f.mon < MONSPERYEAR
  {
    DaysTo(f.year + TM_YEAR_BASE) + MonthStart(IsLeap(f.year + TM_YEAR_BASE), f.mon) + f.mday - 1
  }

  /** Seconds since the Epoch (IEEE Std 1003.1-2017, XBD section 4.16) of the fields, which may
    * be out of range except for the month. */
  function Instant(f: Tm): int
    requires 0 <= f.mon < MONSPERYEAR
  {
    DayNumber(f) * SECSPERDAY + f.hour * SECSPERHOUR + f.min * SECSPERMIN + f.sec
  }

  /** The derived fields agree with the date. */
  predicate DerivedFieldsAgree(f: Tm)
    requires 0 <= f.mon < MONSPERYEAR
  {
    && f.yday == MonthStart(IsLeap(f.year + TM_YEAR_BASE), f.mon) + f.mday - 1
    && f.wday == (EPOCH_WDAY + DayNumber(f)) % DAYSPERWEEK
  }

  /** The fields denote exactly the instant `x` of the proleptic Gregorian calendar. */
  predicate Denotes(f: Tm, x: int) {
    IsCanonical(f) && DerivedFieldsAgree(f) && Instant(f) == x && f.isdst == 0
  }

  /** The order that `tmcomp` compares by: negative, zero or positive. */
  function TmComp(a: Tm, b: Tm): int {
    if a.year != b.year then a.year - b.year
    else if a.mon != b.mon then a.mon - b.mon
    else if a.mday != b.mday then a.mday - b.mday
    else if a.hour != b.hour then a.hour - b.hour
    else if a.min != b.min then a.min - b.min
    else a.sec - b.sec
  }

  lemma DateInYear(f: Tm)
    requires IsDate(f)
    ensures 0 <= MonthStart(IsLeap(f.year + TM_YEAR_BASE), f.mon) + f.mday - 1 < YearLength(f.year + TM_YEAR_BASE)
  {
    var leap := IsLeap(f.year + TM_YEAR_BASE);
    MonthTable(leap);
    MonthStartMonotone(leap, 0, f.mon);
    MonthStartMonotone(leap, f.mon + 1, 12);
  }

  /** An earlier date in field order is an earlier day. */
  lemma DatesOrdered(a: Tm, b: Tm)
    requires IsDate(a) && IsDate(b)
    requires a.year < b.year || (a.year == b.year && (a.mon < b.mon || (a.mon == b.mon && a.mday < b.mday)))
    ensures DayNumber(a) < DayNumber(b)
  {
    if a.year < b.year {
      DayInYear(a);
      DayInYear(b);
      DaysToMonotone(a.year + TM_YEAR_BASE + 1, b.year + TM_YEAR_BASE);
      hide DaysTo, DayNumber, IsDate;
    } else if a.mon < b.mon {
      MonthsOrdered(IsLeap(a.year + TM_YEAR_BASE), a.mon, b.mon);
      hide DaysTo, MonthStart, MonLength, IsLeap;
    } else {
      hide DaysTo, MonthStart, MonLength, IsLeap;
    }
  }

  lemma DayInYear(f: Tm)
    requires IsDate(f)
    ensures DaysTo(f.year + TM_YEAR_BASE) <= DayNumber(f) < DaysTo(f.year + TM_YEAR_BASE + 1)
  {
    DateInYear(f);
    DaysToStep(f.year + TM_YEAR_BASE);
    hide DaysTo, MonthStart, IsLeap, IsDate;
  }

  lemma MonthsOrdered(leap: bool, m: int, n: int)
    requires 0 <= m < n < MONSPERYEAR
    ensures MonthStart(leap, m) + MonLength(leap, m) <= MonthStart(leap, n)
  {
    MonthStartMonotone(leap, m + 1, n);
    MonthTable(leap);
    hide MonthStart, MonLength;
  }

  /** Field order is instant order: on canonical fields `tmcomp` and the second count agree, in
    * both directions, so a canonical broken-down time is determined by its second count. */
  lemma FieldOrderIsTimeOrder(a: Tm, b: Tm)
    requires IsCanonical(a) && IsCanonical(b)
    ensures TmComp(a, b) < 0 <==> Instant(a) < Instant(b)
    ensures TmComp(a, b) == 0 <==> Instant(a) == Instant(b)
  {
    if SameDate(a, b) {
      assert DayNumber(a) == DayNumber(b);
    } else if DateBefore(a, b) {
      DatesOrdered(a, b);
    } else {
      DatesOrdered(b, a);
    }
  }

  predicate SameDate(a: Tm, b: Tm) {
    a.year == b.year && a.mon == b.mon && a.mday == b.mday
  }

  predicate DateBefore(a: Tm, b: Tm) {
    a.year < b.year || (a.year == b.year && (a.mon < b.mon || (a.mon == b.mon && a.mday < b.mday)))
  }

  lemma DenotesUnique(a: Tm, b: Tm, x: int)
    requires Denotes(a, x) && Denotes(b, x)
    ensures a == b
  {
    FieldOrderIsTimeOrder(a, b);
  }

  /** The month of day `d` of a year whose first `m` months are before it, by walking. */
  function MonthFrom(leap: bool, m: int, d: int): (r: int)
    requires 0 <= m < MONSPERYEAR && MonthStart(leap, m) <= d < MonthStart(leap, MONSPERYEAR)
    ensures 0 <= r < MONSPERYEAR && MonthStart(leap, r) <= d < MonthStart(leap, r + 1)
    decreases MONSPERYEAR - m
  {
    if d < MonthStart(leap, m + 1) then m else MonthFrom(leap, m + 1, d)
  }

  /** The broken-down time at second `rem` of day `yday` of year `y`. */
  function Assemble(y: int, yday: int, rem: int): Tm
    requires 0 <= yday < YearLength(y)
  {
    MonthTable(IsLeap(y));
    var mon := MonthFrom(IsLeap(y), 0, yday);
    Tm(rem % SECSPERHOUR % SECSPERMIN, rem % SECSPERHOUR / SECSPERMIN, rem / SECSPERHOUR,
       yday - MonthStart(IsLeap(y), mon) + 1, mon, y - TM_YEAR_BASE,
       (EPOCH_WDAY + (DaysTo(y) + yday)) % DAYSPERWEEK, yday, 0)
  }

  lemma TimeOfDay(rem: int)
    requires 0 <= rem < SECSPERDAY
    ensures 0 <= rem / SECSPERHOUR < 24
    ensures 0 <= rem % SECSPERHOUR / SECSPERMIN < 60
    ensures rem / SECSPERHOUR * SECSPERHOUR + rem % SECSPERHOUR / SECSPERMIN * SECSPERMIN
            + rem % SECSPERHOUR % SECSPERMIN == rem
  {
  }

  lemma AssembleDate(y: int, yday: int, rem: int)
    requires 0 <= yday < YearLength(y)
    ensures var f := Assemble(y, yday, rem);
      IsDate(f) && DerivedFieldsAgree(f) && DayNumber(f) == DaysTo(y) + yday
  {
    AssembleMonth(y, yday, rem);
    AssembleDay(y, yday, rem);
    hide Assemble, MonthStart, MonLength, DaysTo, IsLeap;
    assert DayNumber(Assemble(y, yday, rem)) == DaysTo(y) + yday;
  }

  lemma AssembleDay(y: int, yday: int, rem: int)
    requires 0 <= yday < YearLength(y)
    ensures var f := Assemble(y, yday, rem);
      f.year + TM_YEAR_BASE == y && f.yday == yday
      && f.wday == (EPOCH_WDAY + (DaysTo(y) + yday)) % DAYSPERWEEK
  {
    hide MonthStart, MonLength, DaysTo, IsLeap, MonthFrom;
  }

  lemma AssembleMonth(y: int, yday: int, rem: int)
    requires 0 <= yday < YearLength(y)
    ensures var f := Assemble(y, yday, rem);
      0 <= f.mon < MONSPERYEAR && 1 <= f.mday <= MonLength(IsLeap(y), f.mon)
      && MonthStart(IsLeap(y), f.mon) + f.mday - 1 == yday
  {
    var leap := IsLeap(y);
    MonthTable(leap);
    assert MonthStart(leap, 0) == 0 && MonthStart(leap, 12) == YearLength(y);
    hide MonthStart, MonLength, DaysTo, IsLeap, MonthFrom;
    var mon := MonthFrom(leap, 0, yday);
    assert MonthStart(leap, mon + 1) == MonthStart(leap, mon) + MonLength(leap, mon);
  }

  lemma AssembleDenotes(y: int, yday: int, rem: int)
    requires 0 <= yday < YearLength(y) && 0 <= rem < SECSPERDAY
    ensures Denotes(Assemble(y, yday, rem), (DaysTo(y) + yday) * SECSPERDAY + rem)
  {
    AssembleDate(y, yday, rem);
    TimeOfDay(rem);
  }

  /** The broken-down time of instant `x`: the one that denotes it. */
  ghost function Civil(x: int): (f: Tm)
    ensures Denotes(f, x)
  {
    var day := x / SECSPERDAY;
    AssembleDenotes(YearOfDay(day), day - DaysTo(YearOfDay(day)), x % SECSPERDAY);
    var f :| Denotes(f, x);
    f
  }

  lemma CivilYear(x: int)
    ensures Civil(x).year + TM_YEAR_BASE == YearOfDay(x / SECSPERDAY)
  {
    var f := Civil(x);
    var time := f.hour * SECSPERHOUR + f.min * SECSPERMIN + f.sec;
    DivideByRounds(x, SECSPERDAY, DayNumber(f));
    DateInYear(f);
    YearUnique(DayNumber(f), f.year + TM_YEAR_BASE, YearOfDay(x / SECSPERDAY));
  }
}
