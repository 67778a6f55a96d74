/** `timesub` and its use by `gmtsub`: a time to a broken-down time. */
module TimeConversion {
  import opened CInts
  import opened Calendar
  import opened StandardTime

  /** An entry of the leap-second table. */
  datatype LeapSecond = LeapSecond(trans: int, corr: int)

  /** The caller's `struct tm`, which is filled in field by field. */
  class StructTm {
    var sec: int
    var min: int
    var hour: int
    var mday: int
    var mon: int
    var year: int
    var wday: int
    var yday: int
    var isdst: int

    function Value(): Tm
      reads this
    {
      Tm(sec, min, hour, mday, mon, year, wday, yday, isdst)
    }

    constructor (v: Tm)
      ensures Value() == v
    {
      sec, min, hour := v.sec, v.min, v.hour;
      mday, mon, year := v.mday, v.mon, v.year;
      wday, yday, isdst := v.wday, v.yday, v.isdst;
    }
  }

  /** The last of the first `n` table entries that is in effect at `t`, or -1. */
  function LeapIndex(lsis: seq<LeapSecond>, t: int, n: nat): (i: int)
    requires n <= |lsis|
    ensures -1 <= i < n
    ensures i >= 0 ==> lsis[i].trans <= t
    ensures forall j :: i < j < n ==> t < lsis[j].trans
  {
    if n == 0 then -1
    else if t >= lsis[n - 1].trans then n - 1
    else LeapIndex(lsis, t, n - 1)
  }

  /** The correction in effect at `t`. */
  function Corr(lsis: seq<LeapSecond>, t: int): int {
    var i := LeapIndex(lsis, t, |lsis|);
    if i < 0 then 0 else lsis[i].corr
  }

  /** It is that of the entry at or before `t` after which there is none, and 0 without any. */
  lemma CorrIs(lsis: seq<LeapSecond>, t: int)
    ensures forall i :: 0 <= i < |lsis| && lsis[i].trans <= t && (forall j :: i < j < |lsis| ==> t < lsis[j].trans) ==>
      Corr(lsis, t) == lsis[i].corr
    ensures (forall i :: 0 <= i < |lsis| ==> t < lsis[i].trans) ==> Corr(lsis, t) == 0
  {
  }

  /** How many entries immediately before entry `i` insert a second just before it. */
  function RunBefore(lsis: seq<LeapSecond>, i: nat): nat
    requires i < |lsis|
  {
    if i > 0 && lsis[i].trans == lsis[i - 1].trans + 1 && lsis[i].corr == lsis[i - 1].corr + 1
    then 1 + RunBefore(lsis, i - 1) else 0
  }

  /** How many seconds are inserted up to and including time `t` itself, ending at `t`. */
  function Hit(lsis: seq<LeapSecond>, t: int): nat {
    var i := LeapIndex(lsis, t, |lsis|);
    if i < 0 || lsis[i].trans != t then 0
    else if (if i == 0 then lsis[i].corr > 0 else lsis[i].corr > lsis[i - 1].corr) then 1 + RunBefore(lsis, i)
    else 0
  }

  /** The original reads the entry before the first one when a time hits a first entry that
    * does not insert a second; such a call has no meaning. */
  predicate Readable(lsis: seq<LeapSecond>, t: int) {
    LeapIndex(lsis, t, |lsis|) == 0 && lsis[0].trans == t ==> lsis[0].corr > 0
  }

  /** The years that the computation passes through are `int`s and the result is one too. */
  predicate Fits(t: int, shift: int) {
    && IsInt(YearOfDay(TruncDiv(t, SECSPERDAY)))
    && INT_MIN + TM_YEAR_BASE <= YearOfDay((t + shift) / SECSPERDAY) <= INT_MAX
  }

  /** The broken-down time that `timesub` has to produce. */
  ghost function BrokenDown(t: int, offset: int, lsis: seq<LeapSecond>): Tm {
    var f := Civil(t + offset - Corr(lsis, t));
    f.(sec := f.sec + Hit(lsis, t))
  }

  lemma YearEstimateUp(y: int, tdays: int, delta: int)
    requires tdays >= YearLength(y)
    requires 1 <= delta && (delta == 1 || DAYSPERLYEAR * delta <= tdays)
    ensures y + delta <= YearOfDay(DaysTo(y) + tdays)
  {
    var y0 := YearOfDay(DaysTo(y) + tdays);
    DaysToStep(y);
    DaysToStep(y0);
    DaysToMonotone(y, y + delta);
    if y0 + 1 <= y + delta {
      DaysToMonotone(y0 + 1, y + delta);
    }
  }

  lemma YearEstimateDown(y: int, tdays: int, delta: int)
    requires tdays < 0
    requires delta <= -1 && (delta == -1 || tdays <= DAYSPERLYEAR * delta)
    ensures YearOfDay(DaysTo(y) + tdays) <= y + delta
  {
    var y0 := YearOfDay(DaysTo(y) + tdays);
    DaysToMonotone(y + delta, y);
    if y + delta + 1 <= y0 {
      DaysToMonotone(y + delta, y0);
      if delta == -1 {
        DaysToMonotone(y, y0);
      }
    }
  }

  /** A year number that is an `int` is reached by year differences that are `int`s. */
  lemma YearDeltaIsInt(y: int, tdays: int)
    requires IsInt(y) && IsInt(YearOfDay(DaysTo(y) + tdays))
    requires (EPOCH_YEAR <= y && tdays >= YearLength(y)) || (y <= EPOCH_YEAR && tdays < 0)
    ensures IsInt(TruncDiv(tdays, DAYSPERLYEAR))
  {
    var y0 := YearOfDay(DaysTo(y) + tdays);
    var delta := TruncDiv(tdays, DAYSPERLYEAR);
    if tdays >= 0 {
      if delta >= 1 {
        YearEstimateUp(y, tdays, delta);
      }
    } else {
      DaysToMonotone(y, EPOCH_YEAR);
      DaysToMonotone(INT_MIN, y0);
      DaysToClosed(INT_MIN);
      LeapsFloor(INT_MIN - 1);
    }
  }

  /** The sum in the formula: each year counts one day instead of 365. */
  function ReducedDays(y: int, yday: int): int {
    EPOCH_WDAY + TruncMod(y - EPOCH_YEAR, DAYSPERWEEK) * TruncMod(DAYSPERNYEAR, DAYSPERWEEK)
    + LeapsThruEndOf(y - 1) - LeapsThruEndOf(EPOCH_YEAR - 1) + yday
  }

  /** The weekday formula of `timesub`, with C's remainders. */
  function WeekdayFormula(y: int, yday: int): int {
    var w := TruncMod(ReducedDays(y, yday), DAYSPERWEEK);
    if w < 0 then w + DAYSPERWEEK else w
  }

  /** Every value that `leaps_thru_end_of` computes is an `int`. */
  predicate LeapsFit(y: int)
    decreases if y >= 0 then 0 else 1
  {
    && IsInt(y)
    && if y >= 0 then
         && IsInt(y / 4) && IsInt(y / 100) && IsInt(y / 4 - y / 100)
         && IsInt(y / 400) && IsInt(LeapsThruEndOf(y))
       else
         && IsInt(y + 1) && IsInt(-(y + 1)) && LeapsFit(-(y + 1))
         && IsInt(LeapsThruEndOf(-(y + 1)) + 1) && IsInt(LeapsThruEndOf(y))
  }

  /** Every value that the weekday formula computes is an `int`. */
  predicate WeekdayFits(y: int, yday: int) {
    var year := EPOCH_WDAY + TruncMod(y - EPOCH_YEAR, DAYSPERWEEK) * TruncMod(DAYSPERNYEAR, DAYSPERWEEK);
    && IsInt(y - EPOCH_YEAR) && IsInt(TruncMod(y - EPOCH_YEAR, DAYSPERWEEK)) && IsInt(year)
    && IsInt(y - 1) && LeapsFit(y - 1) && IsInt(year + LeapsThruEndOf(y - 1))
    && LeapsFit(EPOCH_YEAR - 1) && IsInt(year + LeapsThruEndOf(y - 1) - LeapsThruEndOf(EPOCH_YEAR - 1))
    && IsInt(year + LeapsThruEndOf(y - 1) - LeapsThruEndOf(EPOCH_YEAR - 1) + yday)
  }

  lemma LeapsAlwaysFit(y: int)
    requires IsInt(y)
    ensures LeapsFit(y) && -0x2000_0000 <= LeapsThruEndOf(y) <= 0x2000_0000
  {
  }

  /** The remainders keep the formula within `int` exactly from the year `INT_MIN + 1970` on: for the
    * 70 earlier years that `timesub` accepts, the difference of the years overflows. */
  lemma WeekdayFitsExactly(y: int, yday: int)
    requires IsInt(y) && 0 <= yday < DAYSPERLYEAR
    ensures WeekdayFits(y, yday) <==> INT_MIN + EPOCH_YEAR <= y
  {
    if INT_MIN + EPOCH_YEAR <= y {
      LeapsAlwaysFit(y - 1);
      LeapsAlwaysFit(EPOCH_YEAR - 1);
      YearRemainder(y - EPOCH_YEAR);
      hide LeapsThruEndOf, LeapsFit, TruncMod;
    }
  }

  lemma YearRemainder(years: int)
    ensures -7 < TruncMod(years, DAYSPERWEEK) < 7 && TruncMod(DAYSPERNYEAR, DAYSPERWEEK) == 1
  {
  }

  lemma Congruent(a: int, b: int, k: int, m: int)
    requires k > 0 && a == b + m * k
    ensures a % k == b % k
  {
    QuotientShift(b, k, m);
  }

  lemma TruncModFloor(a: int, k: int)
    requires k > 0
    ensures a % k == if TruncMod(a, k) < 0 then TruncMod(a, k) + k else TruncMod(a, k)
  {
    if a < 0 {
      var q := (-a) / k;
      assert -a == q * k + (-a) % k;
      Negated(q, k);
      if (-a) % k == 0 {
        DivideByRounds(a, k, -q);
      } else {
        DivideByRounds(a, k, -q - 1);
      }
    }
  }

  lemma Negated(q: int, k: int)
    ensures (-q) * k == -(q * k) && (-q - 1) * k == -(q * k) - k
  {
  }

  /** The formula gives the weekday counted from the epoch, a Thursday. */
  lemma WeekdayCorrect(y: int, yday: int)
    ensures WeekdayFormula(y, yday) == (EPOCH_WDAY + DaysTo(y) + yday) % DAYSPERWEEK
  {
    var reduced := ReducedDays(y, yday);
    DaysReduced(y, yday);
    TruncModFloor(reduced, 7);
    hide DaysTo, ReducedDays, TruncMod, TruncDiv;
    Congruent(EPOCH_WDAY + DaysTo(y) + yday, reduced, 7, 52 * (y - EPOCH_YEAR) + TruncDiv(y - EPOCH_YEAR, 7));
  }

  lemma DaysReduced(y: int, yday: int)
    ensures EPOCH_WDAY + DaysTo(y) + yday
         == ReducedDays(y, yday) + (52 * (y - EPOCH_YEAR) + TruncDiv(y - EPOCH_YEAR, 7)) * 7
  {
    LeapDayCount(EPOCH_YEAR, y);
    assert TruncMod(DAYSPERNYEAR, 7) == 1;
    hide DaysTo, LeapsThruEndOf, TruncDiv;
  }

  /** The scan of the leap table. */
  method FindLeap(t: int, lsis: seq<LeapSecond>) returns (corr: int, hit: nat)
    requires Readable(lsis, t)
    ensures corr == Corr(lsis, t) && hit == Hit(lsis, t)
  {
    corr, hit := 0, 0;
    var i := |lsis| - 1;
    while i >= 0
      invariant -1 <= i < |lsis| && corr == 0 && hit == 0
      invariant LeapIndex(lsis, t, i + 1) == LeapIndex(lsis, t, |lsis|)
    {
      var lp := lsis[i];
      if t >= lp.trans {
        if t == lp.trans {
          if (i == 0 && lp.corr > 0) || lp.corr > lsis[i - 1].corr {
            hit := 1;
            while i > 0 && lsis[i].trans == lsis[i - 1].trans + 1 && lsis[i].corr == lsis[i - 1].corr + 1
              invariant 0 <= i < |lsis|
              invariant hit + RunBefore(lsis, i) == Hit(lsis, t)
            {
              hit := hit + 1;
              i := i - 1;
            }
          }
        }
        corr := lp.corr;
        break;
      }
      i := i - 1;
    }
  }

  /** The self-correcting year search: each estimate moves toward the year of day `d` without
    * passing it, and days are conserved. */
  method FindYear(d: int) returns (found: bool, y: int, tdays: int)
    ensures found <==> IsInt(YearOfDay(d))
    ensures found ==> y == YearOfDay(d) && DaysTo(y) + tdays == d
  {
    y, tdays := EPOCH_YEAR, d;
    ghost var y0 := YearOfDay(d);
    YearAgainstDay(EPOCH_YEAR, d);
    while tdays < 0 || tdays >= YearLength(y)
      invariant IsInt(y) && DaysTo(y) + tdays == d
      invariant EPOCH_YEAR <= y <= y0 || y0 <= y <= EPOCH_YEAR
      decreases if y <= y0 then y0 - y else y - y0
    {
      YearAgainstDay(y, d);
      var tdelta := TruncDiv(tdays, DAYSPERLYEAR);
      var idelta := ToInt(tdelta);
      if tdelta - idelta >= 1 || idelta - tdelta >= 1 {
        if IsInt(y0) {
          YearDeltaIsInt(y, tdays);
        }
        return false, y, tdays;
      }
      if idelta == 0 {
        idelta := if tdays < 0 then -1 else 1;
      }
      if tdays < 0 {
        YearEstimateDown(y, tdays, idelta);
      } else {
        YearEstimateUp(y, tdays, idelta);
      }
      var overflow, newy := IncrementOverflow(y, idelta);
      if overflow {
        return false, y, tdays;
      }
      var leapdays := LeapsThruEndOf(newy - 1) - LeapsThruEndOf(y - 1);
      LeapDayCount(y, newy);
      tdays := tdays - (newy - y) * DAYSPERNYEAR;
      tdays := tdays - leapdays;
      y := newy;
    }
    YearUnique(d, y, y0);
    found := true;
  }

  /** The final adjustment of a year and a day count that the offset has moved. */
  method SettleYear(y0: int, idays0: int) returns (ok: bool, y: int, idays: int)
    requires IsInt(y0)
    ensures ok <==> IsInt(YearOfDay(DaysTo(y0) + idays0))
    ensures ok ==> y == YearOfDay(DaysTo(y0) + idays0) && DaysTo(y) + idays == DaysTo(y0) + idays0
  {
    y, idays := y0, idays0;
    ghost var day := DaysTo(y0) + idays0;
    var overflow;
    while idays < 0
      invariant IsInt(y) && DaysTo(y) + idays == day
      decreases -idays
    {
      YearAgainstDay(y, day);
      overflow, y := IncrementOverflow(y, -1);
      if overflow {
        return false, y, idays;
      }
      DaysToStep(y);
      idays := idays + YearLength(y);
    }
    while idays >= YearLength(y)
      invariant IsInt(y) && idays >= 0 && DaysTo(y) + idays == day
      decreases idays
    {
      DaysToStep(y);
      YearAgainstDay(y + 1, day);
      idays := idays - YearLength(y);
      overflow, y := IncrementOverflow(y, 1);
      if overflow {
        return false, y, idays;
      }
    }
    YearUnique(day, y, YearOfDay(day));
    ok := true;
  }

  /** Carrying of the shifted seconds into the day count. */
  method SettleSeconds(idays0: int, rem0: int) returns (idays: int, rem: int)
    ensures 0 <= rem < SECSPERDAY && idays * SECSPERDAY + rem == idays0 * SECSPERDAY + rem0
  {
    idays, rem := idays0, rem0;
    while rem < 0
      invariant idays * SECSPERDAY + rem == idays0 * SECSPERDAY + rem0
      decreases -rem
    {
      rem := rem + SECSPERDAY;
      idays := idays - 1;
    }
    while rem >= SECSPERDAY
      invariant rem >= 0 && idays * SECSPERDAY + rem == idays0 * SECSPERDAY + rem0
    {
      rem := rem - SECSPERDAY;
      idays := idays + 1;
    }
  }

  /** The last loop: the month and day of the month of a day of the year. */
  method FindMonth(y: int, yday: int, tmp: StructTm)
    requires 0 <= yday < YearLength(y)
    modifies tmp`mon, tmp`mday
    ensures 0 <= tmp.mon < MONSPERYEAR && 1 <= tmp.mday <= MonLength(IsLeap(y), tmp.mon)
    ensures MonthStart(IsLeap(y), tmp.mon) + tmp.mday - 1 == yday
  {
    var idays := yday;
    MonthTable(IsLeap(y));
    tmp.mon := 0;
    while idays >= MonLength(IsLeap(y), tmp.mon)
      invariant 0 <= tmp.mon < MONSPERYEAR
      invariant idays >= 0 && MonthStart(IsLeap(y), tmp.mon) + idays == yday
    {
      idays := idays - MonLength(IsLeap(y), tmp.mon);
      tmp.mon := tmp.mon + 1;
    }
    tmp.mday := idays + 1;
  }

  /** Fields computed from a year, a day of it and a second of the day are the broken-down time. */
  lemma FieldsAreCivil(f: Tm, y: int, yday: int, rem: int)
    requires 0 <= yday < YearLength(y) && 0 <= rem < SECSPERDAY
    requires f.year == y - TM_YEAR_BASE && IsDate(f)
    requires f.yday == yday == MonthStart(IsLeap(y), f.mon) + f.mday - 1
    requires f.wday == (EPOCH_WDAY + DaysTo(y) + yday) % DAYSPERWEEK && f.isdst == 0
    requires f.hour == rem / SECSPERHOUR
    requires f.min == rem % SECSPERHOUR / SECSPERMIN && f.sec == rem % SECSPERHOUR % SECSPERMIN
    ensures f == Civil((DaysTo(y) + yday) * SECSPERDAY + rem)
  {
    var x := (DaysTo(y) + yday) * SECSPERDAY + rem;
    assert DayNumber(f) == DaysTo(y) + yday;
    assert 0 <= f.hour < 24 && 0 <= f.min < 60 && Instant(f) == x by {
      TimeOfDay(rem);
    }
    DenotesUnique(f, Civil(x), x);
  }

  /** The final assignments to the caller's structure, for second `rem0` of day `yday`. */
  method FillIn(y: int, yday: int, rem0: int, hit: nat, tmp: StructTm) returns (ok: bool)
    requires IsInt(y) && 0 <= yday < YearLength(y) && 0 <= rem0 < SECSPERDAY
    modifies tmp
    ensures ok <==> INT_MIN + TM_YEAR_BASE <= y
    ensures ok ==> var f := Civil((DaysTo(y) + yday) * SECSPERDAY + rem0);
      tmp.Value() == f.(sec := f.sec + hit)
    ensures !ok ==> tmp.Value() == old(tmp.Value()).(year := y)
  {
    var rem := rem0;
    var overflow;
    overflow, tmp.year := IncrementOverflow(y, -TM_YEAR_BASE);
    if overflow {
      return false;
    }
    tmp.yday := yday;
    tmp.wday := WeekdayFormula(y, yday);
    tmp.hour := TruncDiv(rem, SECSPERHOUR);
    rem := TruncMod(rem, SECSPERHOUR);
    tmp.min := TruncDiv(rem, SECSPERMIN);
    tmp.sec := TruncMod(rem, SECSPERMIN) + hit;
    FindMonth(y, yday, tmp);
    tmp.isdst := 0;
    WeekdayCorrect(y, yday);
    FieldsAreCivil(tmp.Value().(sec := tmp.sec - hit), y, yday, rem0);
    ok := true;
  }

  /** The outcome of a conversion: whether it succeeded, and what it left in the caller's structure. */
  datatype Filled = Filled(ok: bool, tm: Tm)

  /** `timesub` on a structure holding `was`.  It succeeds exactly when the years involved are
    * representable, and then leaves the broken-down time of the corrected, shifted instant.  When
    * only the subtraction of 1900 overflows, the year field has already been overwritten. */
  ghost function TimeSubSpec(t: int, offset: int, lsis: seq<LeapSecond>, was: Tm): Filled {
    var shift := offset - Corr(lsis, t);
    var y := YearOfDay((t + shift) / SECSPERDAY);
    if Fits(t, shift) then Filled(true, BrokenDown(t, offset, lsis))
    else if IsInt(YearOfDay(TruncDiv(t, SECSPERDAY))) && IsInt(y) then Filled(false, was.(year := y))
    else Filled(false, was)
  }

  lemma NoLeapSeconds(t: int, offset: int)
    ensures Corr([], t) == 0 && Hit([], t) == 0 && Readable([], t)
    ensures BrokenDown(t, offset, []) == Civil(t + offset)
  {
  }

  lemma ShownByStandard(t: int, offset: int, lsis: seq<LeapSecond>)
    ensures var f := BrokenDown(t, offset, lsis);
      ByStandard(f.(sec := f.sec - Hit(lsis, t)), t + offset - Corr(lsis, t))
  {
    hide ByStandard, Corr, Hit;
    var x := t + offset - Corr(lsis, t);
    CivilByStandard(x);
    var f := BrokenDown(t, offset, lsis);
    assert f.(sec := f.sec - Hit(lsis, t)) == Civil(x);
  }

  /** `timesub`.  What it shows, apart from inserted seconds, is by the standard the corrected and
    * shifted time. */
  method TimeSub(t: int, offset: int, lsis: seq<LeapSecond>, tmp: StructTm) returns (ok: bool)
    requires Readable(lsis, t)
    modifies tmp
    ensures Filled(ok, tmp.Value()) == TimeSubSpec(t, offset, lsis, old(tmp.Value()))
    ensures ok ==> ByStandard(tmp.Value().(sec := tmp.sec - Hit(lsis, t)), t + offset - Corr(lsis, t))
  {
    hide ByStandard;
    ShownByStandard(t, offset, lsis);
    var corr, hit := FindLeap(t, lsis);
    var tdays := TruncDiv(t, SECSPERDAY);
    var rem := t - tdays * SECSPERDAY;
    var found, y, idays := FindYear(tdays);
    if !found {
      return false;
    }
    ghost var first := DaysTo(y);
    idays, rem := SettleSeconds(idays, rem + offset - corr);
    DivideByRounds(t + offset - corr, SECSPERDAY, first + idays);
    ok, y, idays := SettleYear(y, idays);
    if ok {
      ok := FillIn(y, idays, rem, hit, tmp);
    }
  }
}
