/** The normalisation of `time2sub`: any broken-down time, however far out of range, is brought
  * into canonical form without changing the instant that it denotes. */
module Normalization {
  import opened CInts
  import opened Calendar
  import opened StandardTime

  /** Day number of day `mday` of month `mon` of year `y`; `mday` may be out of range. */
  function DayOf(y: int, mon: int, mday: int): int
    requires 0 <= mon < MONSPERYEAR
  {
    DaysTo(y) + MonthStart(IsLeap(y), mon) + mday - 1
  }

  /** The calendar year and month that an out-of-range month stands for. */
  function CarriedYear(f: Tm): int {
    f.year + f.mon / MONSPERYEAR + TM_YEAR_BASE
  }

  /** The seconds since the Epoch that the fields stand for, whatever their ranges. */
  function LinearDay(f: Tm): int {
    DayOf(CarriedYear(f), f.mon % MONSPERYEAR, f.mday)
  }

  function LinearInstant(f: Tm): int {
    LinearDay(f) * SECSPERDAY + f.hour * SECSPERHOUR + f.min * SECSPERMIN + f.sec
  }

  /** For fields in range the linear second count is that of the standard, and out of range a unit of
    * each field counts what it is worth: 12 months a year, 24 hours a day, and so on. */
  lemma LinearUnits(f: Tm, k: int)
    ensures LinearInstant(f.(sec := f.sec + k)) == LinearInstant(f) + k
    ensures LinearInstant(f.(min := f.min + k)) == LinearInstant(f) + k * 60
    ensures LinearInstant(f.(hour := f.hour + k)) == LinearInstant(f) + k * 3600
    ensures LinearInstant(f.(mday := f.mday + k)) == LinearInstant(f) + k * 86400
    ensures LinearInstant(f.(mon := f.mon + 12 * k)) == LinearInstant(f.(year := f.year + k))
    ensures forall x :: ByStandard(f, x) && f.isdst == 0 ==> LinearInstant(f) == x
  {
    QuotientShift(f.mon, 12, k);
    forall x | ByStandard(f, x) && f.isdst == 0
      ensures LinearInstant(f) == x
    {
      LinearStandard(f, x);
    }
    hide DaysTo, MonthStart, IsLeap, ByStandard;
  }

  lemma LinearStandard(f: Tm, x: int)
    requires ByStandard(f, x) && f.isdst == 0
    ensures LinearInstant(f) == x
  {
    StandardDenotes(f, x);
    hide DaysTo, MonthStart, IsLeap, ByStandard;
  }

  /** `normalize_overflow` and `normalize_overflow32`: the units are reduced, the carry is added
    * to the tens, and nothing is lost. */
  method NormalizeOverflow(tens0: int, units0: int, base: int) returns (overflow: bool, tens: int, units: int)
    requires IsInt(tens0) && IsInt(units0) && 1 < base <= 60
    ensures 0 <= units < base
    ensures overflow <==> !IsInt(tens0 + units0 / base)
    ensures !overflow ==> tens == tens0 + units0 / base && tens * base + units == tens0 * base + units0
  {
    var tensdelta := if units0 >= 0 then TruncDiv(units0, base) else -1 - TruncDiv(-1 - units0, base);
    units := units0 - tensdelta * base;
    if units0 < 0 {
      FloorOfComplement(-1 - units0, base);
    }
    assert tensdelta == units0 / base && units == units0 % base by {
      assert units0 == units0 / base * base + units0 % base;
    }
    CarryIsInt(units0, base);
    overflow, tens := IncrementOverflow(tens0, tensdelta);
    if !overflow {
      assert tens * base == tens0 * base + tensdelta * base;
    }
  }

  lemma QuotientShrinks(n: int, k: int)
    requires n >= 0 && k > 0
    ensures 0 <= n / k <= n
  {
    var q := n / k;
    assert n == q * k + n % k && 0 <= n % k;
    if q > 0 {
      AtLeastOnce(k, q);
      assert k * q == q * k >= q;
    }
  }

  lemma CarryIsInt(units: int, base: int)
    requires IsInt(units) && base > 0
    ensures IsInt(units / base)
  {
    if units >= 0 {
      QuotientShrinks(units, base);
    } else {
      QuotientShrinks(-1 - units, base);
      FloorOfComplement(-1 - units, base);
    }
  }

  /** One year at the same month and day: the length of the year in which February is passed,
    * which is the year chosen by `y + (1 < tm_mon)`. */
  lemma YearShift(y: int, mon: int, mday: int)
    requires 0 <= mon < MONSPERYEAR
    ensures DayOf(y + 1, mon, mday) == DayOf(y, mon, mday) + YearLength(y + (if 1 < mon then 1 else 0))
  {
    DaysToStep(y);
    LeapShift(mon);
  }

  lemma LeapShift(mon: int)
    requires 0 <= mon < MONSPERYEAR
    ensures MonthStart(true, mon) == MonthStart(false, mon) + (if 1 < mon then 1 else 0)
  {
    if mon > 1 {
      LeapShift(mon - 1);
    }
  }

  lemma DayOfBounds(y: int, mon: int, mday: int)
    requires 0 <= mon < MONSPERYEAR
    ensures DaysTo(y) + mday - 1 <= DayOf(y, mon, mday) <= DaysTo(y + 1) - 28 + mday - 1
  {
    MonthStartMonotone(IsLeap(y), 0, mon);
    MonthStartMonotone(IsLeap(y), mon, 12);
    MonthTable(IsLeap(y));
    DaysToStep(y);
  }

  /** The carries out of the time of day are `int`s. */
  predicate TimeCarriesFit(f: Tm, normSecs: bool) {
    var min := f.min + (if normSecs then f.sec / SECSPERMIN else 0);
    var hour := f.hour + min / MINSPERHOUR;
    IsInt(min) && IsInt(hour) && IsInt(f.mday + hour / HOURSPERDAY)
  }

  /** The year that the months are carried to is an `int` in both ways of counting. */
  predicate DateCarriesFit(f: Tm) {
    IsInt(f.year + f.mon / MONSPERYEAR) && IsInt(CarriedYear(f))
  }

  predicate AllInts(f: Tm) {
    IsInt(f.sec) && IsInt(f.min) && IsInt(f.hour) && IsInt(f.mday) && IsInt(f.mon) && IsInt(f.year)
  }

  /** The loops over years: afterwards the day is at most one year ahead. */
  method SettleYears(y0: int, mon: int, mday0: int) returns (overflow: bool, y: int, mday: int)
    requires IsInt(y0) && 0 <= mon < MONSPERYEAR
    ensures !overflow ==> IsInt(y) && 1 <= mday <= DAYSPERLYEAR && DayOf(y, mon, mday) == DayOf(y0, mon, mday0)
    ensures overflow ==> !(INT_MIN + TM_YEAR_BASE <= YearOfDay(DayOf(y0, mon, mday0)) <= INT_MAX)
  {
    hide DaysTo, MonthStart, IsLeap;
    y, mday := y0, mday0;
    ghost var day := DayOf(y0, mon, mday0);
    while mday <= 0
      invariant IsInt(y) && DayOf(y, mon, mday) == day
    {
      DayOfBounds(y, mon, mday);
      YearAgainstDay(y + 1, day);
      overflow, y := IncrementOverflow(y, -1);
      if overflow {
        return;
      }
      YearShift(y, mon, mday);
      mday := mday + YearLength(y + (if 1 < mon then 1 else 0));
    }
    while mday > DAYSPERLYEAR
      invariant mday >= 1 && IsInt(y) && DayOf(y, mon, mday) == day
    {
      YearShift(y, mon, mday);
      mday := mday - YearLength(y + (if 1 < mon then 1 else 0));
      DayOfBounds(y + 1, mon, mday);
      YearAgainstDay(y + 1, day);
      overflow, y := IncrementOverflow(y, 1);
      if overflow {
        return;
      }
    }
    overflow := false;
  }

  /** The loop over months. */
  method SettleMonths(y0: int, mon0: int, mday0: int) returns (overflow: bool, y: int, mon: int, mday: int)
    requires IsInt(y0) && 0 <= mon0 < MONSPERYEAR && 1 <= mday0
    ensures !overflow ==> IsInt(y) && 0 <= mon < MONSPERYEAR && 1 <= mday <= MonLength(IsLeap(y), mon)
    ensures !overflow ==> DayOf(y, mon, mday) == DayOf(y0, mon0, mday0)
    ensures overflow ==> YearOfDay(DayOf(y0, mon0, mday0)) > INT_MAX
  {
    hide DaysTo, IsLeap;
    y, mon, mday := y0, mon0, mday0;
    ghost var day := DayOf(y0, mon0, mday0);
    while true
      invariant IsInt(y) && 0 <= mon < MONSPERYEAR && 1 <= mday && DayOf(y, mon, mday) == day
      decreases mday
    {
      var i := MonLength(IsLeap(y), mon);
      if mday <= i {
        break;
      }
      mday := mday - i;
      mon := mon + 1;
      if mon >= MONSPERYEAR {
        mon := 0;
        DaysToStep(y);
        MonthTable(IsLeap(y));
        YearAgainstDay(y + 1, day);
        overflow, y := IncrementOverflow(y, 1);
        if overflow {
          return;
        }
      }
    }
    overflow := false;
  }

  /** Every carry and the resulting year are representable. */
  predicate CanNormalize(f: Tm, normSecs: bool) {
    && TimeCarriesFit(f, normSecs) && DateCarriesFit(f)
    && INT_MIN + TM_YEAR_BASE <= YearOfDay(CarriedDay(f, normSecs)) <= INT_MAX
  }

  /** `n` is in range, up to its seconds when these are kept, and denotes the instant of `f`. */
  predicate IsNormalForm(n: Tm, f: Tm, normSecs: bool) {
    && IsDate(n) && 0 <= n.hour < 24 && 0 <= n.min < 60
    && (if normSecs then 0 <= n.sec < 60 else n.sec == f.sec)
    && n.isdst == f.isdst
    && n.year + TM_YEAR_BASE == YearOfDay(CarriedDay(f, normSecs))
    && Instant(n) == LinearInstant(f)
  }

  /** The carries out of the time of day. */
  method CarryTimeOfDay(f: Tm, normSecs: bool) returns (ok: bool, n: Tm)
    requires AllInts(f)
    ensures ok <==> TimeCarriesFit(f, normSecs)
    ensures ok ==> n == f.(sec := n.sec, min := n.min, hour := n.hour, mday := n.mday) && AllInts(n)
    ensures ok ==> 0 <= n.hour < 24 && 0 <= n.min < 60 && if normSecs then 0 <= n.sec < 60 else n.sec == f.sec
    ensures ok ==> LinearInstant(n) == LinearInstant(f) && LinearDay(n) == CarriedDay(f, normSecs)
  {
    var overflow;
    ok, n := false, f;
    if normSecs {
      var min, sec;
      overflow, min, sec := NormalizeOverflow(n.min, n.sec, SECSPERMIN);
      n := n.(min := min, sec := sec);
      if overflow {
        return;
      }
    }
    var hour, min;
    overflow, hour, min := NormalizeOverflow(n.hour, n.min, MINSPERHOUR);
    n := n.(hour := hour, min := min);
    if overflow {
      return;
    }
    var mday;
    overflow, mday, hour := NormalizeOverflow(n.mday, n.hour, HOURSPERDAY);
    n := n.(mday := mday, hour := hour);
    ok := !overflow;
  }

  /** The carries out of the date. */
  method CarryDate(f: Tm) returns (ok: bool, n: Tm)
    requires AllInts(f)
    ensures ok <==> DateCarriesFit(f) && INT_MIN + TM_YEAR_BASE <= YearOfDay(LinearDay(f)) <= INT_MAX
    ensures ok ==> n == f.(mday := n.mday, mon := n.mon, year := n.year) && IsDate(n)
    ensures ok ==> DayNumber(n) == LinearDay(f) && n.year + TM_YEAR_BASE == YearOfDay(LinearDay(f))
  {
    var overflow, y, mon, mday;
    ok, n := false, f;
    overflow, y, mon := NormalizeOverflow(n.year, n.mon, MONSPERYEAR);
    if overflow {
      return;
    }
    overflow, y := IncrementOverflow(y, TM_YEAR_BASE);
    if overflow {
      return;
    }
    overflow, y, mday := SettleYears(y, mon, n.mday);
    if overflow {
      return;
    }
    overflow, y, mon, mday := SettleMonths(y, mon, mday);
    if overflow {
      return;
    }
    SettledYear(y, mon, mday);
    overflow, y := IncrementOverflow(y, -TM_YEAR_BASE);
    if overflow {
      return;
    }
    n := n.(mon := mon, mday := mday, year := y);
    ok := true;
  }

  /** The normalisation step of `time2sub`. */
  method Normalize(f: Tm, normSecs: bool) returns (ok: bool, n: Tm)
    requires AllInts(f)
    ensures ok <==> CanNormalize(f, normSecs)
    ensures ok ==> IsNormalForm(n, f, normSecs)
  {
    ok, n := CarryTimeOfDay(f, normSecs);
    if ok {
      ok, n := CarryDate(n);
    }
  }

  /** The day reached when the carries out of the time of day are added. */
  function CarriedDay(f: Tm, normSecs: bool): int {
    var min := f.min + (if normSecs then f.sec / SECSPERMIN else 0);
    var hour := f.hour + min / MINSPERHOUR;
    LinearDay(f) + hour / HOURSPERDAY
  }

  lemma SettledYear(y: int, mon: int, mday: int)
    requires 0 <= mon < MONSPERYEAR && 1 <= mday <= MonLength(IsLeap(y), mon)
    ensures YearOfDay(DayOf(y, mon, mday)) == y
  {
    var day := DayOf(y, mon, mday);
    DateInYear(Tm(0, 0, 0, mday, mon, y - TM_YEAR_BASE, 0, 0, 0));
    YearUnique(day, y, YearOfDay(day));
  }
}
