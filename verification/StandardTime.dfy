/** Seconds since the Epoch as IEEE Std 1003.1-2017 defines them, XBD section 4.16, and that the calendar
  * is that of the standard. */
module StandardTime {
  import opened CInts
  import opened Calendar

  /** `f` shows the second count `x` by IEEE Std 1003.1-2017, XBD section 4.16, solved for the second
    * count; the day of the week is that of 1 January 1970, a Thursday, and the month and the day of
    * the month make up the day of the year. */
  predicate ByStandard(f: Tm, x: int) {
    var leap := (f.year + 1900) % 4 == 0 && ((f.year + 1900) % 100 != 0 || (f.year + 1900) % 400 == 0);
    && x == f.sec + f.min * 60 + f.hour * 3600 + f.yday * 86400 + (f.year - 70) * 31536000
            + (f.year - 69) / 4 * 86400 - (f.year - 1) / 100 * 86400 + (f.year + 299) / 400 * 86400
    && 0 <= f.sec < 60 && 0 <= f.min < 60 && 0 <= f.hour < 24
    && 0 <= f.yday < (if leap then 366 else 365) && f.wday == (x / 86400 + 4) % 7
    && 0 <= f.mon < 12
    && 1 <= f.mday <= [31, if leap then 29 else 28, 31, 30, 31, 30, 31, 31, 30, 31, 30, 31][f.mon]
    && f.yday == (367 * f.mon + 5) / 12 - (if f.mon < 2 then 0 else if leap then 1 else 2) + f.mday - 1
  }

  lemma {:induction false} MonthsByFormula(leap: bool, m: int)
    requires 0 <= m < 12
    ensures MonthStart(leap, m) == (367 * m + 5) / 12 - if m < 2 then 0 else if leap then 1 else 2
    ensures MonLength(leap, m) == [31, if leap then 29 else 28, 31, 30, 31, 30, 31, 31, 30, 31, 30, 31][m]
    decreases m
  {
    MonthProducts(m);
    if m > 0 {
      MonthProducts(m - 1);
      MonthsByFormula(leap, m - 1);
      assert MonthStart(leap, m) == MonthStart(leap, m - 1) + MonLength(leap, m - 1);
    }
    hide MonthStart;
  }

  lemma MonthProducts(m: int)
    requires 0 <= m < 12
    ensures (367 * m + 5) / 12 == [0, 31, 61, 92, 122, 153, 183, 214, 245, 275, 306, 336][m]
  {
  }

  lemma YearsByFormula(y: int)
    ensures DaysTo(y + 1900) == (y - 70) * 365 + (y - 69) / 4 - (y - 1) / 100 + (y + 299) / 400
  {
    DaysToClosed(y + 1900);
    LeapsFloor(y + 1899);
    QuotientShift(y - 69, 4, 492);
    QuotientShift(y - 1, 100, 19);
    QuotientShift(y + 299, 400, 4);
    hide DaysTo, LeapsThruEndOf;
  }

  /** The civil time of an instant is the one of the standard. */
  lemma CivilByStandard(x: int)
    ensures ByStandard(Civil(x), x)
  {
    var f := Civil(x);
    YearsByFormula(f.year);
    MonthsByFormula(IsLeap(f.year + 1900), f.mon);
    DateInYear(f);
    DivideByRounds(x, 86400, DayNumber(f));
    hide DaysTo, MonthStart, MonLength;
  }

  /** And no other fields show it by the standard. */
  lemma StandardIsCivil(f: Tm, x: int)
    requires ByStandard(f, x) && f.isdst == 0
    ensures f == Civil(x)
  {
    YearsByFormula(f.year);
    MonthsByFormula(IsLeap(f.year + 1900), f.mon);
    StandardDenotes(f, x);
    hide ByStandard;
    DenotesUnique(f, Civil(x), x);
  }

  lemma StandardDenotes(f: Tm, x: int)
    requires ByStandard(f, x) && f.isdst == 0
    ensures Denotes(f, x)
  {
    YearsByFormula(f.year);
    MonthsByFormula(IsLeap(f.year + 1900), f.mon);
    DivideByRounds(x, 86400, DaysTo(f.year + 1900) + f.yday);
    hide DaysTo, MonthStart, MonLength;
  }
}
