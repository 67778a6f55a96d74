/** The ISO 8601 week of `strftime` (conversions `%V` and `%G`). */
module IsoWeek {
  import opened CInts
  import opened Calendar
  import opened TimeConversion

  /** Days since the Monday of the week. */
  function SinceMonday(wday: int): int {
    if wday == 0 then 6 else wday - 1
  }

  /** The Thursday of the Monday-based week of a day, both counted from the epoch. */
  function Thursday(day: int): int {
    day - SinceMonday((EPOCH_WDAY + day) % 7) + 3
  }

  /** It is the day of weekday 4 from three days before the day to three days after it. */
  lemma ThursdayOfWeek(day: int)
    ensures (4 + Thursday(day)) % 7 == 4 && day - 3 <= Thursday(day) <= day + 3
  {
  }

  /** ISO 8601:2004, section 2.2.10: a week belongs to the year of its Thursday. */
  function IsoYear(day: int): int {
    YearOfDay(Thursday(day))
  }

  /** The weeks of the year up to and including this one, counted by their Thursdays. */
  function IsoWeekNumber(day: int): int {
    (Thursday(day) - DaysTo(IsoYear(day))) / 7 + 1
  }

  /** So the year is that in which the Thursday falls, and the week the one of its first 7 days, the
    * next 7, and so on, in which it falls. */
  lemma WeekByThursday(day: int)
    ensures var f := Civil(Thursday(day) * 86400);
      && f.wday == 4 && f.year + 1900 == IsoYear(day)
      && 7 * (IsoWeekNumber(day) - 1) <= f.yday < 7 * IsoWeekNumber(day)
  {
    var x := Thursday(day) * 86400;
    ThursdayOfWeek(day);
    CivilYear(x);
    DivideByRounds(x, 86400, DayNumber(Civil(x)));
    DivideByRounds(x, 86400, Thursday(day));
    hide DaysTo, MonthStart, IsLeap, Thursday;
  }

  /** `isleap_sum`: the leap-year test of a sum that may not be an `int`. */
  predicate IsLeapSum(a: int, b: int) {
    IsLeap(TruncMod(a, 400) + TruncMod(b, 400))
  }

  lemma LeapSum(a: int, b: int)
    ensures IsLeapSum(a, b) == IsLeap(a + b)
  {
    var m := TruncMod(a, 400) + TruncMod(b, 400);
    var k := TruncDiv(a, 400) + TruncDiv(b, 400);
    assert a + b == m + 400 * k;
    QuotientShift(m, 4, 100 * k);
    QuotientShift(m, 100, 4 * k);
    QuotientShift(m, 400, k);
  }

  /** The day of the year on which its first week begins, seen from day `yday` of weekday `wday`. */
  function FirstStart(yday: int, wday: int): int {
    (yday + 11 - wday) % 7 - 3
  }

  /** The same for the next year. */
  function NextStart(y: int, yday: int, wday: int): int {
    var top := FirstStart(yday, wday) - YearLength(y) % 7;
    YearLength(y) + if top < -3 then top + 7 else top
  }

  /** Both are Mondays within three days of the turn of the year. */
  lemma FirstStarts(y: int, yday: int, wday: int) returns (k: int, m: int)
    requires 0 <= wday < 7
    ensures yday - SinceMonday(wday) == FirstStart(yday, wday) + 7 * k
    ensures NextStart(y, yday, wday) == FirstStart(yday, wday) + 7 * m
    ensures -3 <= FirstStart(yday, wday) <= 3
    ensures YearLength(y) - 3 <= NextStart(y, yday, wday) <= YearLength(y) + 3
  {
    hide IsLeap;
    var q := (yday + 11 - wday) / 7;
    assert yday + 11 - wday == 7 * q + FirstStart(yday, wday) + 3;
    k := if wday == 0 then q - 2 else q - 1;
    m := if NextStart(y, yday, wday) < FirstStart(yday, wday) + 365 then 52 else 53;
  }

  /** The year and week of a day, from the Monday of its week. */
  lemma WeekFromMonday(y: int, monday: int, day: int)
    requires 0 <= monday + 3 < YearLength(y) && Thursday(day) == DaysTo(y) + monday + 3
    ensures IsoYear(day) == y && IsoWeekNumber(day) == (monday + 3) / 7 + 1
  {
    hide IsLeap, Thursday;
    YearUnique(Thursday(day), y, IsoYear(day));
  }

  /** Whole weeks between Mondays, seen from any day of the week. */
  lemma WeeksBetween(yday: int, monday: int, bot: int, k: int)
    requires monday == bot + 7 * k && monday <= yday < monday + 7 && -3 <= bot <= 3
    ensures (monday + 3) / 7 == (yday - bot) / 7
  {
    DivideByRounds(monday + 3, 7, k);
    DivideByRounds(yday - bot, 7, k);
  }

  /** The three outcomes of one round. */
  lemma Round(y: int, yday: int, wday: int, day: int)
    requires 0 <= wday < 7 && day == DaysTo(y) + yday && wday == (EPOCH_WDAY + day) % 7
    requires 0 <= yday < YearLength(y) + 3 && (YearLength(y) <= yday ==> yday < NextStart(y, yday, wday))
    ensures var bot, top := FirstStart(yday, wday), NextStart(y, yday, wday);
      && (yday >= top ==> IsoYear(day) == y + 1 && IsoWeekNumber(day) == 1)
      && (bot <= yday < top ==> IsoYear(day) == y && IsoWeekNumber(day) == 1 + (yday - bot) / 7)
      && bot <= 3 && top <= YearLength(y) + 3
  {
    hide IsLeap, DaysTo, NextStart, FirstStart, IsoYear, IsoWeekNumber;
    var monday := yday - SinceMonday(wday);
    var k, m := FirstStarts(y, yday, wday);
    var bot, top := FirstStart(yday, wday), NextStart(y, yday, wday);
    if yday >= top {
      DaysToStep(y);
      assert monday == top;
      WeekFromMonday(y + 1, monday - YearLength(y), day);
    } else if yday >= bot {
      assert bot <= monday <= top - 7;
      WeeksBetween(yday, monday, bot, k);
      WeekFromMonday(y, monday, day);
    }
  }

  /** After a round that goes back a year, the next one does not go forward. */
  lemma NoReturn(y: int, yday: int, wday: int)
    requires 0 <= wday < 7 && 0 <= yday < FirstStart(yday, wday)
    ensures yday + YearLength(y) < NextStart(y, yday + YearLength(y), wday)
  {
    hide IsLeap;
    var len := YearLength(y);
    var q := (yday + 11 - wday) / 7;
    Congruent(yday + len + 11 - wday, (yday + 11 - wday) % 7 + len % 7, 7, q + len / 7);
  }

  /** The loop of `_fmt`: for consistent fields it runs at most twice and returns the week number
    * and year of the week's Thursday. */
  method Week(year: int, yday0: int, wday: int) returns (base: int, w: int, ghost rounds: nat)
    requires 0 <= yday0 < YearLength(year + TM_YEAR_BASE)
    requires wday == (EPOCH_WDAY + DaysTo(year + TM_YEAR_BASE) + yday0) % 7
    ensures var day := DaysTo(year + TM_YEAR_BASE) + yday0;
      year + base == IsoYear(day) && w == IsoWeekNumber(day)
    ensures 1 <= w <= 53 && 1 <= rounds <= 2
  {
    hide IsLeap, DaysTo, IsLeapSum, IsoYear, IsoWeekNumber;
    ghost var day := DaysTo(year + TM_YEAR_BASE) + yday0;
    base := TM_YEAR_BASE;
    var yday := yday0;
    rounds := 0;
    while true
      invariant DaysTo(year + base) + yday == day && 0 <= yday < YearLength(year + base) + 3
      invariant rounds == 0 ==> yday < YearLength(year + base)
      invariant rounds == 1 ==> yday >= YearLength(year + base) && yday < NextStart(year + base, yday, wday)
      invariant rounds <= 1
      decreases 1 - rounds
    {
      rounds := rounds + 1;
      LeapSum(year, base);
      var len := if IsLeapSum(year, base) then DAYSPERLYEAR else DAYSPERNYEAR;
      var bot := (yday + 11 - wday) % DAYSPERWEEK - 3;
      var top := bot - len % DAYSPERWEEK;
      if top < -3 {
        top := top + DAYSPERWEEK;
      }
      top := top + len;
      assert bot == FirstStart(yday, wday) && top == NextStart(year + base, yday, wday);
      Round(year + base, yday, wday, day);
      if yday >= top {
        base := base + 1;
        w := 1;
        break;
      }
      if yday >= bot {
        w := 1 + (yday - bot) / DAYSPERWEEK;
        break;
      }
      base := base - 1;
      LeapSum(year, base);
      NoReturn(year + base, yday, wday);
      DaysToStep(year + base);
      yday := yday + if IsLeapSum(year, base) then DAYSPERLYEAR else DAYSPERNYEAR;
    }
  }
}
