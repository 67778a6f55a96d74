/** POSIX time-zone rules (IEEE Std 1003.1-2017, XBD section 8.3): `transtime` and the part of
  * `tzparse` that compiles two rules into a transition table. */
module ZoneRules {
  import opened CInts
  import opened Calendar
  import opened TimeConversion
  import opened LocalTime

  const TZ_MAX_TIMES := 1200

  /** The date part of a rule: `Jn`, `n` or `Mm.w.d`. */
  datatype RuleDate = JulianDay(n: int) | DayOfYear(n: int) | MonthNthDay(mon: int, week: int, day: int)
  datatype Rule = Rule(date: RuleDate, time: int)

  /** What `getrule` accepts. */
  predicate ValidDate(d: RuleDate) {
    match d
    case JulianDay(n) => 1 <= n <= DAYSPERNYEAR
    case DayOfYear(n) => 0 <= n <= DAYSPERLYEAR - 1
    case MonthNthDay(mon, week, day) => 1 <= mon <= 12 && 1 <= week <= 5 && 0 <= day <= 6
  }

  predicate ValidRule(r: Rule) {
    ValidDate(r.date) && 0 <= r.time <= 604800
  }

  /** The weekday of day `yday` of year `y`, 0 being Sunday. */
  function Weekday(y: int, yday: int): int {
    (EPOCH_WDAY + DaysTo(y) + yday) % DAYSPERWEEK
  }

  /** Day `yday` of year `y` is in month `m`, counted from 0. */
  predicate InMonth(y: int, m: int, yday: int)
    requires 0 <= m < 12
  {
    MonthStart(IsLeap(y), m) <= yday < MonthStart(IsLeap(y), m + 1)
  }

  /** The day of the year that a rule selects.  For `Jn` it is the n-th day not counting 29
    * February; for `Mm.w.d` it is a day with weekday `d` of month `m` before which `w - 1` such
    * days come in the month, or the last of them when there are fewer. */
  predicate Selects(d: RuleDate, y: int, yday: int)
    requires ValidDate(d)
  {
    match d
    case JulianDay(n) =>
      if IsLeap(y) then yday != 59 && n == yday + (if yday < 59 then 1 else 0) else n == yday + 1
    case DayOfYear(n) => yday == n
    case MonthNthDay(mon, week, day) =>
      && InMonth(y, mon - 1, yday) && Weekday(y, yday) == day
      && var before := (yday - MonthStart(IsLeap(y), mon - 1)) / DAYSPERWEEK;
         before == week - 1 || (before < week - 1 && !InMonth(y, mon - 1, yday + DAYSPERWEEK))
  }

  /** A rule selects at most one day of a year. */
  lemma SelectsOne(d: RuleDate, y: int, a: int, b: int)
    requires ValidDate(d) && Selects(d, y, a) && Selects(d, y, b)
    ensures a == b
  {
    hide DaysTo, IsLeap, MonthStart;
    if d.MonthNthDay? {
      var k := (b - a) / 7;
      SameWeekday(EPOCH_WDAY + DaysTo(y) + a, EPOCH_WDAY + DaysTo(y) + b);
    }
  }

  lemma SameWeekday(a: int, b: int)
    requires a % 7 == b % 7
    ensures b == a + (b - a) / 7 * 7
  {
    assert b - a == (b / 7 - a / 7) * 7;
  }

  /** Zeller's congruence as the code writes it: the weekday of the first of month `mon` of a
    * year, in C's arithmetic. */
  function Zeller(mon: int, year: int): int {
    var m1 := TruncMod(mon + 9, 12) + 1;
    var yy0 := if mon <= 2 then year - 1 else year;
    var yy1 := TruncDiv(yy0, 100);
    var yy2 := TruncMod(yy0, 100);
    var dow := TruncMod(TruncDiv(26 * m1 - 2, 10) + 1 + yy2 + TruncDiv(yy2, 4) + TruncDiv(yy1, 4) - 2 * yy1, 7);
    if dow < 0 then dow + DAYSPERWEEK else dow
  }

  /** Days from 1 March to the first of the `m1`-th month of a year that begins in March. */
  function MarchDays(m1: int): int {
    [0, 0, 31, 61, 92, 122, 153, 184, 214, 245, 275, 306, 337][if 1 <= m1 <= 12 then m1 else 0]
  }

  lemma {:induction false} MonthStartFromMarch(leap: bool, m: int)
    requires 2 <= m <= 11
    ensures MonthStart(leap, m) == (if leap then 60 else 59) + MarchDays(m - 1)
    decreases m
  {
    if m == 2 {
      MonthTable(leap);
    } else {
      MonthStartFromMarch(leap, m - 1);
    }
  }

  lemma MarchBased(mon: int, year: int)
    requires 1 <= mon <= 12
    ensures var m1 := TruncMod(mon + 9, 12) + 1;
      var yy0 := if mon <= 2 then year - 1 else year;
      DaysTo(year) + MonthStart(IsLeap(year), mon - 1)
      == DaysTo(yy0) + (if IsLeap(yy0) then 60 else 59) + MarchDays(m1)
  {
    MarchMonth(mon);
    if mon <= 2 {
      DaysToStep(year - 1);
      MonthTable(IsLeap(year));
    } else {
      MonthStartFromMarch(IsLeap(year), mon - 1);
    }
    hide DaysTo, MonthStart, IsLeap, TruncMod;
  }

  /** The number of a month in a year that begins in March. */
  lemma MarchMonth(mon: int)
    requires 1 <= mon <= 12
    ensures TruncMod(mon + 9, 12) + 1 == if mon <= 2 then mon + 10 else mon - 2
  {
  }

  /** The month term of the congruence. */
  lemma MonthTerm(m1: int) returns (k: int)
    requires 1 <= m1 <= 12
    ensures MarchDays(m1) == TruncDiv(26 * m1 - 2, 10) - 2 + 7 * k
  {
    k := [0, 0, 4, 8, 12, 16, 20, 24, 28, 32, 36, 40, 44][m1];
  }

  /** The century terms of the congruence count leap years. */
  lemma CenturyTerms(y: int)
    requires y >= 0
    ensures var c := y / 100; var r := y % 100;
      LeapsThruEndOf(y) == 24 * c + r / 4 + c / 4
  {
    var c, r := y / 100, y % 100;
    assert y == 100 * c + r;
    QuotientShift(r, 4, 25 * c);
    DivideByRounds(y, 400, c / 4);
  }

  /** The sum in the congruence, for month `m1` and year `yy0` of the calendar beginning in March. */
  function ZellerSum(m1: int, yy0: int): int {
    TruncDiv(26 * m1 - 2, 10) + 1 + yy0 % 100 + yy0 % 100 / 4 + yy0 / 100 / 4 - 2 * (yy0 / 100)
  }

  lemma ZellerDays(m1: int, yy0: int) returns (k: int)
    requires 1 <= m1 <= 12 && yy0 >= 0
    ensures EPOCH_WDAY + DaysTo(yy0) + (if IsLeap(yy0) then 60 else 59) + MarchDays(m1) == ZellerSum(m1, yy0) + 7 * k
  {
    var c := yy0 / 100;
    var j := MonthTerm(m1);
    CenturyTerms(yy0);
    DaysToClosed(yy0);
    LeapsStep(yy0);
    assert yy0 == 100 * c + yy0 % 100;
    k := 52 * (yy0 - EPOCH_YEAR) + 18 * c - 341 + j;
  }

  lemma ZellerIs(mon: int, year: int)
    requires 1 <= mon <= 12 && year >= 1
    ensures var m1 := TruncMod(mon + 9, 12) + 1;
      var dow := TruncMod(ZellerSum(m1, if mon <= 2 then year - 1 else year), 7);
      Zeller(mon, year) == if dow < 0 then dow + 7 else dow
  {
    var yy0 := if mon <= 2 then year - 1 else year;
    assert TruncDiv(yy0, 100) == yy0 / 100 && TruncMod(yy0, 100) == yy0 % 100;
    assert TruncDiv(yy0 % 100, 4) == yy0 % 100 / 4 && TruncDiv(yy0 / 100, 4) == yy0 / 100 / 4;
    hide TruncDiv, TruncMod;
  }

  /** For every year from 1 on, the congruence gives the calendar's weekday. */
  lemma ZellerCorrect(mon: int, year: int)
    requires 1 <= mon <= 12 && year >= 1
    ensures Zeller(mon, year) == Weekday(year, MonthStart(IsLeap(year), mon - 1))
  {
    hide DaysTo, MonthStart, MarchDays, IsLeap, Zeller, ZellerSum;
    var m1 := TruncMod(mon + 9, 12) + 1;
    var yy0 := if mon <= 2 then year - 1 else year;
    MarchMonth(mon);
    ZellerIs(mon, year);
    hide TruncMod;
    MarchBased(mon, year);
    var k := ZellerDays(m1, yy0);
    TruncModFloor(ZellerSum(m1, yy0), 7);
    Congruent(EPOCH_WDAY + DaysTo(year) + MonthStart(IsLeap(year), mon - 1), ZellerSum(m1, yy0), 7, k);
  }

  /** The instant at which a rule takes effect in year `y`. */
  ghost function RuleInstant(r: Rule, y: int, offset: int): int
    requires ValidRule(r) && y >= 1
  {
    SelectsSome(r.date, y);
    var yday :| Selects(r.date, y, yday);
    (DaysTo(y) + yday) * SECSPERDAY + r.time + offset
  }

  /** The first day of month `mon` that has weekday `day`, and the later one nearest to the
    * `week`-th that is still in the month. */
  function NthDay(y: int, mon: int, week: int, day: int): int
    requires 1 <= mon <= 12 && 1 <= week
    decreases week
  {
    var first := MonthStart(IsLeap(y), mon - 1);
    if week == 1 then (day - Weekday(y, first)) % DAYSPERWEEK
    else
      var d := NthDay(y, mon, week - 1, day);
      if d + DAYSPERWEEK >= MonLength(IsLeap(y), mon - 1) then d else d + DAYSPERWEEK
  }

  lemma {:induction false} NthDaySelected(y: int, mon: int, week: int, day: int)
    requires 1 <= mon <= 12 && 1 <= week && 0 <= day <= 6
    ensures var d := NthDay(y, mon, week, day);
      var yday := MonthStart(IsLeap(y), mon - 1) + d;
      && 0 <= d < MonLength(IsLeap(y), mon - 1) && Weekday(y, yday) == day
      && (d / 7 == week - 1 || (d / 7 < week - 1 && d + 7 >= MonLength(IsLeap(y), mon - 1)))
    decreases week
  {
    hide DaysTo, IsLeap, MonthStart, Weekday;
    var first := MonthStart(IsLeap(y), mon - 1);
    if week == 1 {
      FirstWeekday(y, first, day);
    } else {
      NthDaySelected(y, mon, week - 1, day);
      NextWeek(y, first + NthDay(y, mon, week - 1, day));
    }
  }

  lemma FirstWeekday(y: int, first: int, day: int)
    requires 0 <= day <= 6
    ensures Weekday(y, first + (day - Weekday(y, first)) % DAYSPERWEEK) == day
  {
    hide DaysTo;
    var base := EPOCH_WDAY + DaysTo(y) + first;
    var d, q := (day - base % 7) % 7, (day - base % 7) / 7;
    assert day - base % 7 == q * 7 + d;
    Congruent(base + d, day, 7, base / 7 - q);
  }

  lemma NextWeek(y: int, yday: int)
    ensures Weekday(y, yday + DAYSPERWEEK) == Weekday(y, yday)
  {
    hide DaysTo;
    QuotientShift(EPOCH_WDAY + DaysTo(y) + yday, 7, 1);
  }

  lemma NthDaySelects(y: int, mon: int, week: int, day: int)
    requires ValidDate(MonthNthDay(mon, week, day))
    ensures Selects(MonthNthDay(mon, week, day), y, MonthStart(IsLeap(y), mon - 1) + NthDay(y, mon, week, day))
  {
    NthDaySelected(y, mon, week, day);
    MonthTable(IsLeap(y));
  }

  lemma SelectsSome(d: RuleDate, y: int)
    requires ValidDate(d)
    ensures exists yday :: Selects(d, y, yday)
  {
    match d
    case JulianDay(n) =>
      assert Selects(d, y, if IsLeap(y) && n >= 60 then n else n - 1);
    case DayOfYear(n) =>
      assert Selects(d, y, n);
    case MonthNthDay(mon, week, day) =>
      NthDaySelects(y, mon, week, day);
  }

  lemma RuleInstantIs(r: Rule, y: int, offset: int, yday: int)
    requires ValidRule(r) && y >= 1 && Selects(r.date, y, yday)
    ensures RuleInstant(r, y, offset) == (DaysTo(y) + yday) * SECSPERDAY + r.time + offset
  {
    SelectsSome(r.date, y);
    var a :| Selects(r.date, y, a) && RuleInstant(r, y, offset) == (DaysTo(y) + a) * SECSPERDAY + r.time + offset;
    SelectsOne(r.date, y, a, yday);
  }

  /** `Jn` never selects 29 February, and no other day is out of its reach. */
  lemma JulianSkipsLeapDay(y: int, yday: int)
    requires 0 <= yday < YearLength(y)
    ensures (exists n :: 1 <= n <= DAYSPERNYEAR && Selects(JulianDay(n), y, yday)) <==> !(IsLeap(y) && yday == 59)
  {
    var n := if IsLeap(y) && yday > 59 then yday else yday + 1;
    if !(IsLeap(y) && yday == 59) {
      assert Selects(JulianDay(n), y, yday);
    }
  }

  /** Day `d` of year `y` comes before day `yday`; 29 February does not count when `skip` says so. */
  predicate ComesBefore(y: int, d: int, yday: int, skip: bool) {
    0 <= d < yday && !(skip && IsLeap(y) && d == 59)
  }

  /** The days that do. */
  function DaysBefore(y: int, yday: int, skip: bool): set<int> {
    set d | 0 <= d < yday && ComesBefore(y, d, yday, skip)
  }

  lemma {:induction false} DaysCounted(y: int, yday: nat, skip: bool)
    ensures |DaysBefore(y, yday, skip)| == yday - if skip && IsLeap(y) && yday > 59 then 1 else 0
    decreases yday
  {
    hide IsLeap;
    if yday > 0 {
      DaysCounted(y, yday - 1, skip);
      var last := if skip && IsLeap(y) && yday - 1 == 59 then {} else {yday - 1};
      assert DaysBefore(y, yday, skip) == DaysBefore(y, yday - 1, skip) + last;
    } else {
      assert DaysBefore(y, yday, skip) == {};
    }
  }

  /** `n` selects the day with exactly n days of the year before it, and `Jn` the day with exactly n - 1
    * before it, 29 February not counting. */
  lemma SelectsCounted(y: int, n: int, yday: int)
    ensures ValidDate(DayOfYear(n)) && Selects(DayOfYear(n), y, yday) ==>
      0 <= yday && |DaysBefore(y, yday, false)| == n
    ensures ValidDate(JulianDay(n)) && Selects(JulianDay(n), y, yday) ==>
      0 <= yday && |DaysBefore(y, yday, true)| == n - 1
  {
    if yday >= 0 {
      DaysCounted(y, yday, false);
      DaysCounted(y, yday, true);
    }
    hide DaysBefore, IsLeap;
  }

  /** The day of an `Mm.w.d` rule: the loops of `transtime`. */
  method MonthRuleDay(year: int, mon: int, week: int, day: int) returns (yday: int)
    requires year >= 1 && ValidDate(MonthNthDay(mon, week, day))
    ensures Selects(MonthNthDay(mon, week, day), year, yday)
  {
    hide DaysTo, IsLeap, MonLength, Weekday, Zeller, NthDay, Selects, InMonth;
    var leap := IsLeap(year);
    var value := 0;
    var i := 0;
    while i < mon - 1
      invariant 0 <= i <= mon - 1 && value == MonthStart(leap, i)
    {
      value := value + MonLength(leap, i);
      i := i + 1;
    }
    var dow := Zeller(mon, year);
    FirstNthDay(year, mon, day);
    var d := day - dow;
    if d < 0 {
      d := d + DAYSPERWEEK;
    }
    i := 1;
    while i < week
      invariant 1 <= i <= week && d == NthDay(year, mon, i, day)
    {
      NthDayStep(year, mon, i, day);
      if d + DAYSPERWEEK >= MonLength(leap, mon - 1) {
        NthDayStays(year, mon, i, week, day);
        break;
      }
      d := d + DAYSPERWEEK;
      i := i + 1;
    }
    NthDaySelects(year, mon, week, day);
    return value + d;
  }

  lemma FirstNthDay(y: int, mon: int, day: int)
    requires 1 <= mon <= 12 && 0 <= day <= 6 && y >= 1
    ensures 0 <= Zeller(mon, y) <= 6
    ensures NthDay(y, mon, 1, day) == day - Zeller(mon, y) + if day < Zeller(mon, y) then DAYSPERWEEK else 0
  {
    ZellerCorrect(mon, y);
    hide Zeller, DaysTo, IsLeap, MonthStart;
    var dow := Zeller(mon, y);
    DivideByRounds(day - dow, DAYSPERWEEK, if day < dow then -1 else 0);
  }

  lemma NthDayStep(y: int, mon: int, i: int, day: int)
    requires 1 <= mon <= 12 && 1 <= i
    ensures NthDay(y, mon, i + 1, day) == NthDay(y, mon, i, day)
      + if NthDay(y, mon, i, day) + DAYSPERWEEK >= MonLength(IsLeap(y), mon - 1) then 0 else DAYSPERWEEK
  {
  }

  lemma {:induction false} NthDayStays(y: int, mon: int, week: int, later: int, day: int)
    requires 1 <= mon <= 12 && 1 <= week <= later
    requires NthDay(y, mon, week, day) + DAYSPERWEEK >= MonLength(IsLeap(y), mon - 1)
    ensures NthDay(y, mon, later, day) == NthDay(y, mon, week, day)
    decreases later
  {
    if week < later {
      NthDayStays(y, mon, week, later - 1, day);
    }
  }

  /** `transtime`: the instant of the day that the rule selects, at the rule's local time, as a
    * value of `time_t`.  The sums wrap around one by one, which comes to the same. */
  method TransTime(janfirst: int, year: int, r: Rule, offset: int, tt: TimeT) returns (value: int)
    requires ValidRule(r) && year >= 1 && janfirst == DaysTo(year) * SECSPERDAY && tt.Valid()
    ensures value == tt.Wrap(RuleInstant(r, year, offset))
  {
    ghost var selected;
    match r.date {
      case JulianDay(n) =>
        value := janfirst + (n - 1) * SECSPERDAY;
        if IsLeap(year) && n >= 60 {
          value := value + SECSPERDAY;
        }
        selected := if IsLeap(year) && n >= 60 then n else n - 1;
      case DayOfYear(n) =>
        value := janfirst + n * SECSPERDAY;
        selected := n;
      case MonthNthDay(mon, week, day) =>
        var yday := MonthRuleDay(year, mon, week, day);
        value := janfirst + yday * SECSPERDAY;
        selected := yday;
    }
    RuleInstantIs(r, year, offset, selected);
    return tt.Wrap(value + r.time + offset);
  }

  /** A pair of rules with the offsets west of Greenwich: daylight saving starts by the clock of
    * standard time and ends by the clock of daylight saving time. */
  datatype Rules = Rules(start: Rule, end: Rule, stdoffset: int, dstoffset: int)
  {
    predicate Valid() {
      ValidRule(start) && ValidRule(end)
    }

    /** When daylight saving starts and ends in the `i`-th year from 1970 on. */
    ghost function StartOf(i: nat): int
      requires Valid()
    {
      RuleInstant(start, EPOCH_YEAR + i, stdoffset)
    }

    ghost function EndOf(i: nat): int
      requires Valid()
    {
      RuleInstant(end, EPOCH_YEAR + i, dstoffset)
    }
  }

  /** The day that the fields show is the one that `d` selects in year `y`.  Day 365 of a year that
    * has none is the first of the next year. */
  predicate IsSelected(f: Tm, d: RuleDate, y: int)
    requires ValidDate(d)
  {
    if d == DayOfYear(365) && !IsLeap(y) then f.year + 1900 == y + 1 && f.yday == 0
    else f.year + 1900 == y && Selects(d, y, f.yday)
  }

  /** By the clock at `offset` west of Greenwich a rule takes effect its time after midnight of the day
    * selected; with a time within a day, on that day at that time. */
  lemma InstantShown(r: Rule, y: int, offset: int)
    requires ValidRule(r) && y >= 1
    ensures var f := Civil(RuleInstant(r, y, offset) - offset - r.time);
      IsSelected(f, r.date, y) && f.hour == 0 && f.min == 0 && f.sec == 0
    ensures var f := Civil(RuleInstant(r, y, offset) - offset);
      r.time < 86400 ==> IsSelected(f, r.date, y) && f.hour * 3600 + f.min * 60 + f.sec == r.time
  {
    SelectsSome(r.date, y);
    var yday :| Selects(r.date, y, yday);
    RuleInstantIs(r, y, offset, yday);
    DayShown(r.date, y, yday, 0);
    if r.time < 86400 {
      DayShown(r.date, y, yday, r.time);
    }
    hide RuleInstant, Selects, DaysTo, IsLeap, IsSelected;
  }

  lemma DayShown(d: RuleDate, y: int, yday: int, rem: int)
    requires ValidDate(d) && Selects(d, y, yday) && 0 <= rem < SECSPERDAY
    ensures var f := Civil((DaysTo(y) + yday) * SECSPERDAY + rem);
      && IsSelected(f, d, y) && f.hour * 3600 + f.min * 60 + f.sec == rem
      && (rem == 0 ==> f.hour == 0 && f.min == 0 && f.sec == 0)
  {
    SelectedInYear(d, y, yday);
    DaysToStep(y);
    if yday < YearLength(y) {
      CivilOfDay(y, yday, rem);
    } else {
      CivilOfDay(y + 1, 0, rem);
    }
    hide Selects, DaysTo, IsLeap;
  }

  lemma SelectedInYear(d: RuleDate, y: int, yday: int)
    requires ValidDate(d) && Selects(d, y, yday)
    ensures 0 <= yday
    ensures yday < YearLength(y) <==> !(d == DayOfYear(365) && !IsLeap(y))
    ensures d == DayOfYear(365) ==> yday == 365
  {
    MonthTable(IsLeap(y));
    if d.MonthNthDay? {
      MonthStartMonotone(IsLeap(y), 0, d.mon - 1);
      MonthStartMonotone(IsLeap(y), d.mon, 12);
    }
    hide DaysTo, MonthStart;
  }

  lemma CivilOfDay(y: int, yday: int, rem: int)
    requires 0 <= yday < YearLength(y) && 0 <= rem < SECSPERDAY
    ensures var f := Civil((DaysTo(y) + yday) * SECSPERDAY + rem);
      && f.year + TM_YEAR_BASE == y && f.yday == yday && f.hour * 3600 + f.min * 60 + f.sec == rem
      && (rem == 0 ==> f.hour == 0 && f.min == 0 && f.sec == 0)
  {
    hide Assemble, DaysTo, Denotes, IsLeap;
    var x := (DaysTo(y) + yday) * SECSPERDAY + rem;
    AssembleDenotes(y, yday, rem);
    AssembleDay(y, yday, rem);
    AssembleTime(y, yday, rem);
    DenotesUnique(Assemble(y, yday, rem), Civil(x), x);
  }

  lemma AssembleTime(y: int, yday: int, rem: int)
    requires 0 <= yday < YearLength(y) && 0 <= rem < SECSPERDAY
    ensures var f := Assemble(y, yday, rem);
      && f.hour * 3600 + f.min * 60 + f.sec == rem && (rem == 0 ==> f.hour == 0 && f.min == 0 && f.sec == 0)
  {
    TimeOfDay(rem);
    hide DaysTo, MonthStart, IsLeap, MonthFrom;
  }

  /** What a date that `Mm.w.d` selects looks like: month m, weekday d, and the w-th such day of the
    * month, or an earlier one that is the last of them. */
  lemma MonthDateShown(f: Tm, x: int, mon: int, week: int, day: int)
    requires Denotes(f, x) && ValidDate(MonthNthDay(mon, week, day))
    ensures Selects(MonthNthDay(mon, week, day), f.year + 1900, f.yday) <==>
      && f.mon + 1 == mon && f.wday == day
      && (7 * (week - 1) < f.mday <= 7 * week
          || (f.mday <= 7 * (week - 1) && f.mday + 7 > MonLength(IsLeap(f.year + 1900), f.mon)))
  {
    DateFields(f, x);
    MonthHolds(IsLeap(f.year + 1900), f.mon, mon - 1, f.yday);
    WeekOfMonth(f.mday - 1, week);
    hide DaysTo, IsLeap, Weekday, MonthStart, MonLength, Denotes;
  }

  lemma DateFields(f: Tm, x: int)
    requires Denotes(f, x)
    ensures var leap := IsLeap(f.year + 1900);
      && 0 <= f.mon < 12 && Weekday(f.year + 1900, f.yday) == f.wday
      && f.yday - MonthStart(leap, f.mon) == f.mday - 1
      && MonthStart(leap, f.mon) <= f.yday < MonthStart(leap, f.mon + 1)
      && (f.yday + 7 < MonthStart(leap, f.mon + 1) <==> f.mday + 7 <= MonLength(leap, f.mon))
  {
    MonthTable(IsLeap(f.year + 1900));
    hide MonthStart, MonLength, IsLeap, DaysTo;
  }

  /** A day of the year is in one month. */
  lemma MonthHolds(leap: bool, m: int, n: int, yday: int)
    requires 0 <= m < 12 && 0 <= n < 12 && MonthStart(leap, m) <= yday < MonthStart(leap, m + 1)
    ensures MonthStart(leap, n) <= yday < MonthStart(leap, n + 1) <==> m == n
  {
    if m < n {
      MonthStartMonotone(leap, m + 1, n);
    } else if n < m {
      MonthStartMonotone(leap, n + 1, m);
    }
  }

  lemma WeekOfMonth(d: int, week: int)
    requires d >= 0
    ensures d / 7 == week - 1 <==> 7 * (week - 1) < d + 1 <= 7 * week
    ensures d / 7 < week - 1 <==> d + 1 <= 7 * (week - 1)
  {
  }

  /** Daylight saving starts by the clock of standard time. */
  lemma StartShown(r: Rules, i: nat)
    requires r.Valid()
    ensures var f := Civil(r.StartOf(i) - r.stdoffset - r.start.time);
      IsSelected(f, r.start.date, 1970 + i) && f.hour == 0 && f.min == 0 && f.sec == 0
    ensures var f := Civil(r.StartOf(i) - r.stdoffset);
      r.start.time < 86400 ==>
        IsSelected(f, r.start.date, 1970 + i) && f.hour * 3600 + f.min * 60 + f.sec == r.start.time
  {
    InstantShown(r.start, 1970 + i, r.stdoffset);
    hide RuleInstant, IsSelected;
  }

  /** And it ends by the clock of daylight saving time. */
  lemma EndShown(r: Rules, i: nat)
    requires r.Valid()
    ensures var f := Civil(r.EndOf(i) - r.dstoffset - r.end.time);
      IsSelected(f, r.end.date, 1970 + i) && f.hour == 0 && f.min == 0 && f.sec == 0
    ensures var f := Civil(r.EndOf(i) - r.dstoffset);
      r.end.time < 86400 ==>
        IsSelected(f, r.end.date, 1970 + i) && f.hour * 3600 + f.min * 60 + f.sec == r.end.time
  {
    InstantShown(r.end, 1970 + i, r.dstoffset);
    hide RuleInstant, IsSelected;
  }

  /** Year by year from 1970: the year's first instant, and the start and end of daylight saving. */
  datatype Schedule = Schedule(firsts: seq<int>, starts: seq<int>, ends: seq<int>)
  {
    predicate Valid() {
      && 0 < |starts| == |ends| && |firsts| == |starts| + 1 && 2 * |starts| <= TZ_MAX_TIMES
      && forall i, j :: 0 <= i < j < |firsts| ==> firsts[i] < firsts[j]
    }

    /** Each year's instants fall inside that year. */
    predicate InsideYears()
      requires Valid()
    {
      forall i :: 0 <= i < |starts| ==>
        firsts[i] <= starts[i] < firsts[i + 1] && firsts[i] <= ends[i] < firsts[i + 1]
    }

    /** The instants of a year come before those of the later years. */
    predicate Apart()
      requires Valid()
    {
      forall i, j :: 0 <= i < j < |starts| ==>
        starts[i] < starts[j] && starts[i] < ends[j] && ends[i] < starts[j] && ends[i] < ends[j]
    }

    /** All instants are values of `time_t`. */
    predicate Held(tt: TimeT)
      requires Valid()
    {
      forall i :: 0 <= i < |starts| ==> tt.Has(starts[i]) && tt.Has(ends[i])
    }

    /** Neither instant of the last year is a value of `time_t`. */
    predicate LastUnheld(tt: TimeT)
      requires Valid()
    {
      !tt.Has(starts[|starts| - 1]) && !tt.Has(ends[|ends| - 1])
    }

    /** In the last year daylight saving time ends before it starts, as in the south. */
    predicate LastEndsFirst()
      requires Valid()
    {
      starts[|starts| - 1] > ends[|ends| - 1]
    }

    /** Its years are those of the calendar from 1970 on, as many as the table takes. */
    predicate Covers(tt: TimeT)
      requires Valid()
    {
      && tt.Valid() && 0x7fff_ffff <= tt.hi && Spans(|starts|, tt)
      && forall i: nat :: i < |firsts| ==> firsts[i] == FirstOf(i)
    }

    /** The instants of each year fall inside it, or `time_t` holds all of them and those of a year come
      * before those of the later years. */
    predicate Placed(tt: TimeT)
      requires Valid()
    {
      InsideYears() || (Apart() && Held(tt))
    }

    /** The schedule without its last year. */
    function Shortened(): (s: Schedule)
      requires Valid() && |starts| > 1
      ensures s.Valid()
    {
      var n := |starts| - 1;
      Schedule(firsts[..n + 1], starts[..n], ends[..n])
    }

    /** Every end at or before `t` comes before the instant `start`. */
    predicate EndsBefore(t: int, start: int)
      requires Valid()
    {
      forall i :: 0 <= i < |ends| && ends[i] <= t ==> ends[i] < start
    }

    /** The latest instant at or before `t` is a start; an end at the same instant wins. */
    predicate InForce(t: int)
      requires Valid()
    {
      exists i :: 0 <= i < |starts| && starts[i] <= t && EndsBefore(t, starts[i])
    }
  }

  /** The first instant of the `i`-th year from 1970 on. */
  function FirstOf(i: nat): int {
    DaysTo(EPOCH_YEAR + i) * SECSPERDAY
  }

  /** The table takes the years that begin within `time_t`, as far as it has room. */
  predicate Spans(n: nat, tt: TimeT) {
    && 0 < n && 2 * n <= TZ_MAX_TIMES
    && (forall i: nat :: i < n ==> tt.Has(FirstOf(i)))
    && (2 * n + 2 > TZ_MAX_TIMES || !tt.Has(FirstOf(n)))
  }

  /** The schedule that two rules prescribe for `n` years. */
  ghost function ScheduleOf(r: Rules, n: nat): (s: Schedule)
    requires r.Valid() && 0 < n && 2 * n <= TZ_MAX_TIMES
    ensures s.Valid() && |s.starts| == n && |s.firsts| == n + 1
    ensures forall i: nat :: i <= n ==> s.firsts[i] == FirstOf(i)
  {
    var s := Schedule(seq(n + 1, (i: nat) => FirstOf(i)),
                      seq(n, (i: nat) => r.StartOf(i)),
                      seq(n, (i: nat) => r.EndOf(i)));
    FirstsAscend(s.firsts);
    s
  }

  lemma FirstsAscend(firsts: seq<int>)
    requires forall i :: 0 <= i < |firsts| ==> firsts[i] == FirstOf(i)
    ensures forall i, j :: 0 <= i < j < |firsts| ==> firsts[i] < firsts[j]
  {
    forall i, j | 0 <= i < j < |firsts|
      ensures firsts[i] < firsts[j]
    {
      DaysToMonotone(EPOCH_YEAR + i, EPOCH_YEAR + j);
    }
  }

  /** Two entries are the start, of type 0, and the end, of type 1, in order of time; the start
    * comes first when they coincide. */
  predicate IsPair(at0: int, type0: nat, at1: int, type1: nat, start: int, end: int) {
    if start > end then (at0, type0, at1, type1) == (end, 1, start, 0)
    else (at0, type0, at1, type1) == (start, 0, end, 1)
  }

  /** Entries `2 * i` and `2 * i + 1` are the pair of year `i`, as far as `time_t` can hold it. */
  predicate HasPair(ats: seq<int>, types: seq<nat>, i: nat, start: int, end: int, tt: TimeT)
    requires tt.Valid()
  {
    && 2 * i + 1 < |ats| && 2 * i + 1 < |types|
    && IsPair(ats[2 * i], types[2 * i], ats[2 * i + 1], types[2 * i + 1], tt.Wrap(start), tt.Wrap(end))
  }

  /** The table is compiled from the schedule. */
  predicate Compiled(z: Zone, s: Schedule, tt: TimeT) {
    && s.Valid() && tt.Valid() && |z.ats| == |z.types| == 2 * |s.starts| && |z.ttis| == 2
    && forall i: nat :: i < |s.starts| ==> HasPair(z.ats, z.types, i, s.starts[i], s.ends[i], tt)
  }

  /** The table has the pairs of the first `n` years. */
  ghost predicate HasPairs(ats: seq<int>, types: seq<nat>, n: nat, r: Rules, tt: TimeT)
    requires r.Valid() && tt.Valid()
  {
    && |ats| == |types| == 2 * n
    && forall i: nat :: i < n ==>
         HasPair(ats, types, i, r.StartOf(i), r.EndOf(i), tt)
  }

  lemma OnePairMore(ats: seq<int>, types: seq<nat>, n: nat, r: Rules, tt: TimeT, a0: int, t0: nat, a1: int, t1: nat)
    requires r.Valid() && tt.Valid() && HasPairs(ats, types, n, r, tt)
    requires IsPair(a0, t0, a1, t1, tt.Wrap(r.StartOf(n)), tt.Wrap(r.EndOf(n)))
    ensures HasPairs(ats + [a0, a1], types + [t0, t1], n + 1, r, tt)
  {
    hide Rules.StartOf, Rules.EndOf, IsPair, TimeT.Wrap;
    forall i: nat | i < n
      ensures HasPair(ats + [a0, a1], types + [t0, t1], i, r.StartOf(i), r.EndOf(i), tt)
    {
      assert HasPair(ats, types, i, r.StartOf(i), r.EndOf(i), tt);
    }
  }

  lemma PairsCompile(z: Zone, n: nat, r: Rules, tt: TimeT)
    requires r.Valid() && tt.Valid() && 0 < n && 2 * n <= TZ_MAX_TIMES && |z.ttis| == 2
    requires HasPairs(z.ats, z.types, n, r, tt)
    ensures Compiled(z, ScheduleOf(r, n), tt)
  {
    hide Rules.StartOf, Rules.EndOf, IsPair, TimeT.Wrap;
    var s := ScheduleOf(r, n);
    forall i: nat | i < n
      ensures HasPair(z.ats, z.types, i, s.starts[i], s.ends[i], tt)
    {
      assert s.starts[i] == r.StartOf(i);
    }
  }

  /** The first instant of the next year, and whether `time_t` can hold it. */
  lemma NextFirst(i: nat, tt: TimeT)
    requires tt.Valid() && tt.Has(FirstOf(i))
    ensures var next := FirstOf(i) + YearLength(EPOCH_YEAR + i) * SECSPERDAY;
      && next == FirstOf(i + 1)
      && (tt.Wrap(next) > FirstOf(i) <==> tt.Has(next)) && (tt.Has(next) ==> tt.Wrap(next) == next)
  {
    DaysToStep(EPOCH_YEAR + i);
    WrapDetected(tt, FirstOf(i), YearLength(EPOCH_YEAR + i) * SECSPERDAY);
    hide TimeT.Wrap, DaysTo;
  }

  /** The zone state that `tzparse` fills in. */
  class State {
    var ats: array<int>
    var types: array<nat>
    var timecnt: nat
    var ttis: seq<TtInfo>
    var lsis: seq<LeapSecond>
    var goback: bool
    var goahead: bool
    var defaulttype: nat

    ghost predicate Sized()
      reads this
    {
      ats.Length == TZ_MAX_TIMES && types.Length == TZ_MAX_TIMES && timecnt <= TZ_MAX_TIMES
    }

    function View(): Zone
      requires timecnt <= ats.Length && timecnt <= types.Length
      reads this, ats, types
    {
      Zone(ats[..timecnt], types[..timecnt], ttis, lsis, goback, goahead, defaulttype)
    }

    /** The two entries of one year. */
    method AppendPair(starttime: int, endtime: int)
      returns (ghost at0: int, ghost type0: nat, ghost at1: int, ghost type1: nat)
      requires Sized() && timecnt + 2 <= TZ_MAX_TIMES
      modifies this`timecnt, ats, types
      ensures Sized() && timecnt == old(timecnt) + 2
      ensures ats[..timecnt] == old(ats[..timecnt]) + [at0, at1]
      ensures types[..timecnt] == old(types[..timecnt]) + [type0, type1]
      ensures IsPair(at0, type0, at1, type1, starttime, endtime)
    {
      if starttime > endtime {
        ats[timecnt], types[timecnt] := endtime, 1;
        ats[timecnt + 1], types[timecnt + 1] := starttime, 0;
      } else {
        ats[timecnt], types[timecnt] := starttime, 0;
        ats[timecnt + 1], types[timecnt + 1] := endtime, 1;
      }
      at0, type0, at1, type1 := ats[timecnt], types[timecnt], ats[timecnt + 1], types[timecnt + 1];
      timecnt := timecnt + 2;
    }

    /** The rule branch of `tzparse`: all years from 1970 on that begin within `time_t` and for which
      * there is room. */
    method FillTable(rules: Rules, stdabbr: string, dstabbr: string, tt: TimeT)
      requires rules.Valid() && Sized() && tt.Valid()
      modifies this`timecnt, this`ttis, ats, types
      ensures Sized() && Spans(timecnt / 2, tt) && Compiled(View(), ScheduleOf(rules, timecnt / 2), tt)
      ensures ttis == [TtInfo(-rules.dstoffset, 1, dstabbr, false, false),
                       TtInfo(-rules.stdoffset, 0, stdabbr, false, false)]
    {
      hide RuleInstant, IsPair, HasPairs, FirstOf, TimeT.Wrap, Compiled, ScheduleOf;
      ttis := [TtInfo(-rules.dstoffset, 1, dstabbr, false, false),
               TtInfo(-rules.stdoffset, 0, stdabbr, false, false)];
      ghost var newTtis := ttis;
      var janfirst := 0;
      timecnt := 0;
      var year := EPOCH_YEAR;
      ghost var n: nat := 0;
      NoPairs(rules, tt);
      while timecnt + 2 <= TZ_MAX_TIMES
        invariant Sized() && timecnt == 2 * n && year == EPOCH_YEAR + n && ttis == newTtis
        invariant HasPairs(ats[..timecnt], types[..timecnt], n, rules, tt)
        invariant janfirst == FirstOf(n) == DaysTo(year) * SECSPERDAY && forall i: nat :: i <= n ==> tt.Has(FirstOf(i))
      {
        var starttime := TransTime(janfirst, year, rules.start, rules.stdoffset, tt);
        var endtime := TransTime(janfirst, year, rules.end, rules.dstoffset, tt);
        ghost var ats0, types0 := ats[..timecnt], types[..timecnt];
        ghost var at0, type0, at1, type1 := AppendPair(starttime, endtime);
        OnePairMore(ats0, types0, n, rules, tt, at0, type0, at1, type1);
        NextFirst(n, tt);
        FirstIs(n + 1);
        var newfirst := tt.Wrap(janfirst + YearLength(year) * SECSPERDAY);
        n := n + 1;
        if newfirst <= janfirst {
          break;
        }
        janfirst := newfirst;
        year := year + 1;
      }
      PairsCompile(View(), n, rules, tt);
    }
  }

  lemma FirstIs(i: nat)
    ensures FirstOf(i) == DaysTo(EPOCH_YEAR + i) * SECSPERDAY
  {
  }

  lemma NoPairs(r: Rules, tt: TimeT)
    requires r.Valid() && tt.Valid()
    ensures HasPairs([], [], 0, r, tt) && FirstOf(0) == 0
  {
  }

  lemma PairHeld(z: Zone, s: Schedule, tt: TimeT, i: nat)
    requires Compiled(z, s, tt) && i < |s.starts| && tt.Has(s.starts[i]) && tt.Has(s.ends[i])
    ensures IsPair(z.ats[2 * i], z.types[2 * i], z.ats[2 * i + 1], z.types[2 * i + 1], s.starts[i], s.ends[i])
  {
    assert HasPair(z.ats, z.types, i, s.starts[i], s.ends[i], tt);
    WrapSame(tt, s.starts[i]);
    WrapSame(tt, s.ends[i]);
  }

  lemma InsideApart(s: Schedule)
    requires s.Valid() && s.InsideYears()
    ensures s.Apart()
  {
    forall i, j | 0 <= i < j < |s.starts|
      ensures s.starts[i] < s.starts[j] && s.starts[i] < s.ends[j] && s.ends[i] < s.starts[j] && s.ends[i] < s.ends[j]
    {
      assert s.firsts[i + 1] <= s.firsts[j];
    }
  }

  /** Each entry is an instant of its own year. */
  lemma EntryIs(z: Zone, s: Schedule, tt: TimeT, k: nat)
    requires Compiled(z, s, tt) && s.Held(tt) && k < |z.ats|
    ensures if z.types[k] == 0 then z.ats[k] == s.starts[k / 2] else z.types[k] == 1 && z.ats[k] == s.ends[k / 2]
  {
    var i := k / 2;
    PairHeld(z, s, tt, i);
    assert k == 2 * i || k == 2 * i + 1;
  }

  lemma EntryInYear(z: Zone, s: Schedule, tt: TimeT, k: nat)
    requires Compiled(z, s, tt) && s.InsideYears() && s.Held(tt) && k < |z.ats|
    ensures s.firsts[k / 2] <= z.ats[k] < s.firsts[k / 2 + 1]
    ensures if z.types[k] == 0 then z.ats[k] == s.starts[k / 2] else z.types[k] == 1 && z.ats[k] == s.ends[k / 2]
  {
    EntryIs(z, s, tt, k);
  }

  lemma EntriesSorted(z: Zone, s: Schedule, tt: TimeT, j: nat, k: nat)
    requires Compiled(z, s, tt) && s.Apart() && s.Held(tt) && j < k < |z.ats|
    ensures z.ats[j] <= z.ats[k]
    ensures j / 2 < k / 2 ==> z.ats[j] < z.ats[k]
  {
    EntryIs(z, s, tt, j);
    EntryIs(z, s, tt, k);
    if j / 2 == k / 2 {
      assert j == 2 * (j / 2) && k == j + 1;
      PairHeld(z, s, tt, j / 2);
    }
  }

  lemma SameLength(z: Zone, s: Schedule, tt: TimeT)
    requires Compiled(z, s, tt)
    ensures s.Valid() && 0 < |s.starts| == |s.ends| && |z.ats| == 2 * |s.starts| && |z.ttis| == 2
  {
  }

  /** A compiled table can be searched, whatever the folding flags and the default type that were
    * there before. */
  lemma CompiledValid(z: Zone, s: Schedule, tt: TimeT)
    requires Compiled(z, s, tt)
    ensures z.Valid()
  {
    hide TimeT.Wrap;
    forall k | 0 <= k < |z.types|
      ensures z.types[k] < 2
    {
      assert HasPair(z.ats, z.types, k / 2, s.starts[k / 2], s.ends[k / 2], tt);
      assert k == 2 * (k / 2) || k == 2 * (k / 2) + 1;
    }
  }

  lemma HeldOrdered(z: Zone, s: Schedule, tt: TimeT)
    requires Compiled(z, s, tt) && s.Apart() && s.Held(tt)
    ensures z.Ordered()
  {
    forall j, k | 0 <= j < k < |z.ats|
      ensures z.ats[j] <= z.ats[k]
    {
      EntriesSorted(z, s, tt, j, k);
    }
  }

  /** Both instants of a year have an entry, the later of them second. */
  lemma EntryOf(z: Zone, s: Schedule, tt: TimeT, i: nat, dst: bool) returns (k: nat)
    requires Compiled(z, s, tt) && s.Held(tt) && i < |s.starts|
    ensures k < |z.ats|
    ensures z.types[k] == (if dst then 0 else 1) && z.ats[k] == (if dst then s.starts[i] else s.ends[i])
    ensures k == 2 * i + if (s.starts[i] > s.ends[i]) == dst then 1 else 0
  {
    PairHeld(z, s, tt, i);
    k := 2 * i + if (s.starts[i] > s.ends[i]) == dst then 1 else 0;
  }

  /** No end comes between the start in effect and the present. */
  lemma StartInEffect(z: Zone, s: Schedule, tt: TimeT, t: int, k: nat)
    requires Compiled(z, s, tt) && s.Apart() && s.Held(tt)
    requires LastUpTo(z.ats, t, |z.ats|, k) && z.types[k] == 0
    ensures s.InForce(t)
  {
    EntryIs(z, s, tt, k);
    forall i | 0 <= i < |s.starts| && s.ends[i] <= t
      ensures s.ends[i] < s.starts[k / 2]
    {
      var j := EntryOf(z, s, tt, i, false);
      var k' := EntryOf(z, s, tt, k / 2, true);
      if j / 2 < k / 2 {
        EntriesSorted(z, s, tt, j, k);
      }
    }
    assert s.EndsBefore(t, s.starts[k / 2]);
  }

  /** With an end in effect no start can be the latest instant. */
  lemma EndInEffect(z: Zone, s: Schedule, tt: TimeT, t: int, k: nat, i: nat)
    requires Compiled(z, s, tt) && s.Apart() && s.Held(tt)
    requires LastUpTo(z.ats, t, |z.ats|, k) && z.types[k] != 0
    requires i < |s.starts| && s.starts[i] <= t
    ensures !s.EndsBefore(t, s.starts[i])
  {
    EntryIs(z, s, tt, k);
    var j := EntryOf(z, s, tt, i, true);
    var k' := EntryOf(z, s, tt, k / 2, false);
    if j / 2 < k / 2 {
      EntriesSorted(z, s, tt, j, k);
    }
    assert s.ends[k / 2] <= t && s.starts[i] <= s.ends[k / 2];
  }

  /** When `time_t` holds all instants, the last entry at or before `t` has the type in force. */
  lemma LastFollowsRules(z: Zone, s: Schedule, tt: TimeT, t: int, k: nat)
    requires Compiled(z, s, tt) && s.Apart() && s.Held(tt) && LastUpTo(z.ats, t, |z.ats|, k)
    ensures z.types[k] == 0 <==> s.InForce(t)
  {
    if z.types[k] == 0 {
      StartInEffect(z, s, tt, t, k);
    } else if s.InForce(t) {
      var i :| 0 <= i < |s.starts| && s.starts[i] <= t && s.EndsBefore(t, s.starts[i]);
      EndInEffect(z, s, tt, t, k, i);
    }
  }

  /** The table without the entries of the last year. */
  function Shortened(z: Zone): Zone
    requires 2 <= |z.ats| == |z.types|
  {
    z.(ats := z.ats[..|z.ats| - 2], types := z.types[..|z.ats| - 2])
  }

  /** It is compiled from the schedule without that year. */
  lemma ShortenedCompiled(z: Zone, s: Schedule, tt: TimeT)
    requires Compiled(z, s, tt) && s.InsideYears() && |s.starts| > 1
    ensures Compiled(Shortened(z), s.Shortened(), tt) && s.Shortened().InsideYears() && s.Shortened().Apart()
  {
    InsideApart(s.Shortened());
    hide IsPair, TimeT.Wrap;
    var s', z' := s.Shortened(), Shortened(z);
    forall i: nat | i < |s'.starts|
      ensures HasPair(z'.ats, z'.types, i, s'.starts[i], s'.ends[i], tt)
    {
      assert HasPair(z.ats, z.types, i, s.starts[i], s.ends[i], tt);
    }
  }

  /** Before the instants of the last year that makes no difference. */
  lemma ShortenedInForce(s: Schedule, t: int)
    requires s.Valid() && |s.starts| > 1 && t < s.starts[|s.starts| - 1] && t < s.ends[|s.ends| - 1]
    ensures s.Shortened().InForce(t) <==> s.InForce(t)
  {
    var s' := s.Shortened();
    forall i | 0 <= i < |s'.starts|
      ensures s'.EndsBefore(t, s.starts[i]) <==> s.EndsBefore(t, s.starts[i])
    {
      assert forall j :: 0 <= j < |s'.ends| ==> s'.ends[j] == s.ends[j];
      assert forall j :: 0 <= j < |s.ends| && s.ends[j] <= t ==> j < |s'.ends|;
    }
    if s'.InForce(t) {
      var i :| 0 <= i < |s'.starts| && s'.starts[i] <= t && s'.EndsBefore(t, s'.starts[i]);
      assert s.EndsBefore(t, s.starts[i]);
    }
    if s.InForce(t) {
      var i :| 0 <= i < |s.starts| && s.starts[i] <= t && s.EndsBefore(t, s.starts[i]);
      assert i < |s'.starts| && s'.EndsBefore(t, s'.starts[i]);
    }
  }

  /** An instant of the last year that `time_t` cannot hold wraps around to a time in or before
    * 1971. */
  lemma WrappedEarly(tt: TimeT, n: nat, x: int)
    requires tt.Valid() && 0x7fff_ffff <= tt.hi && 0 < n && tt.Has(FirstOf(n - 1))
    requires FirstOf(n - 1) <= x < FirstOf(n) && !tt.Has(x)
    ensures tt.Wrap(x) < FirstOf(2)
  {
    DaysToStep(EPOCH_YEAR + n - 1);
    WrapOnce(tt, x);
    DaysToMonotone(EPOCH_YEAR, EPOCH_YEAR + 2);
  }

  /** The years up to 1973 begin within any `time_t` of at least 31 value bits. */
  lemma SpansSome(n: nat, tt: TimeT)
    requires tt.Valid() && 0x7fff_ffff <= tt.hi && Spans(n, tt)
    ensures n >= 4
  {
    if n < 4 {
      DaysToMonotone(EPOCH_YEAR, EPOCH_YEAR + n);
    }
  }

  /** The years that the schedule covers begin within `time_t`, and are at least four. */
  lemma FirstsHeld(s: Schedule, tt: TimeT)
    requires s.Valid() && s.Covers(tt)
    ensures 4 <= |s.starts| && forall k :: 0 <= k < |s.starts| ==> tt.Has(s.firsts[k])
  {
    SpansSome(|s.starts|, tt);
    hide FirstOf;
    assert forall k: nat :: k < |s.starts| ==> s.firsts[k] == FirstOf(k) && tt.Has(FirstOf(k));
  }

  /** The years before the last also end there, so `time_t` holds their instants. */
  lemma EarlierHeld(s: Schedule, tt: TimeT)
    requires s.Valid() && s.InsideYears() && s.Covers(tt)
    ensures 4 <= |s.starts| && s.Shortened().Held(tt)
  {
    FirstsHeld(s, tt);
    hide Schedule.Covers;
    forall i | 0 <= i < |s.starts| - 1
      ensures tt.Has(s.starts[i]) && tt.Has(s.ends[i])
    {
      assert tt.Has(s.firsts[i]) && tt.Has(s.firsts[i + 1]);
    }
  }

  lemma HeldButLast(s: Schedule, tt: TimeT)
    requires s.Valid() && 1 < |s.starts| && s.Shortened().Held(tt)
    ensures var n := |s.starts|;
      s.Held(tt) <==> tt.Has(s.starts[n - 1]) && tt.Has(s.ends[n - 1])
  {
    var s' := s.Shortened();
    assert forall i :: 0 <= i < |s'.starts| ==> s'.starts[i] == s.starts[i] && s'.ends[i] == s.ends[i];
  }

  /** An instant of the last year that `time_t` cannot hold has come to lie in or before 1971. */
  lemma LastWraps(s: Schedule, tt: TimeT, x: int)
    requires s.Valid() && s.InsideYears() && s.Covers(tt) && !tt.Has(x)
    requires x == s.starts[|s.starts| - 1] || x == s.ends[|s.ends| - 1]
    ensures 4 <= |s.starts| && tt.Wrap(x) < s.firsts[2]
  {
    var n := |s.starts|;
    FirstsHeld(s, tt);
    assert s.firsts[n - 1] <= x < s.firsts[n];
    assert s.firsts[2] == FirstOf(2) && s.firsts[n - 1] == FirstOf(n - 1) && s.firsts[n] == FirstOf(n);
    assert tt.Has(s.firsts[n - 1]);
    hide FirstOf, TimeT.Wrap, Schedule.InsideYears, Schedule.Covers;
    WrappedEarly(tt, n, x);
  }

  /** When `time_t` does not hold all instants there is such an instant. */
  lemma LastWrapped(s: Schedule, tt: TimeT) returns (x: int)
    requires s.Valid() && s.InsideYears() && s.Covers(tt) && !s.Held(tt)
    ensures x == s.starts[|s.starts| - 1] || x == s.ends[|s.ends| - 1]
    ensures 4 <= |s.starts| && tt.Wrap(x) < s.firsts[2]
  {
    hide Schedule.Covers, Schedule.InsideYears, Schedule.Held, TimeT.Wrap;
    EarlierHeld(s, tt);
    HeldButLast(s, tt);
    x := if tt.Has(s.starts[|s.starts| - 1]) then s.ends[|s.ends| - 1] else s.starts[|s.starts| - 1];
    LastWraps(s, tt, x);
  }

  lemma EntryWrapped(z: Zone, s: Schedule, tt: TimeT, i: nat, x: int) returns (k: nat)
    requires Compiled(z, s, tt) && i < |s.starts| && (x == s.starts[i] || x == s.ends[i])
    ensures 2 * i <= k <= 2 * i + 1 < |z.ats| && z.ats[k] == tt.Wrap(x)
  {
    assert HasPair(z.ats, z.types, i, s.starts[i], s.ends[i], tt);
    k := if z.ats[2 * i] == tt.Wrap(x) then 2 * i else 2 * i + 1;
  }

  /** It is out of order in the table. */
  lemma WrappedUnsorted(z: Zone, s: Schedule, tt: TimeT, x: int)
    requires Compiled(z, s, tt) && s.InsideYears() && s.Covers(tt) && 4 <= |s.starts|
    requires x == s.starts[|s.starts| - 1] || x == s.ends[|s.ends| - 1]
    requires tt.Wrap(x) < s.firsts[2]
    ensures !z.Ordered()
  {
    var n := |s.starts|;
    FirstsHeld(s, tt);
    var k := EntryWrapped(z, s, tt, n - 1, x);
    var j := EntryWrapped(z, s, tt, 2, s.starts[2]);
    assert s.firsts[2] <= s.starts[2] < s.firsts[3] && tt.Has(s.firsts[2]) && tt.Has(s.firsts[3]);
    WrapSame(tt, s.starts[2]);
    hide TimeT.Wrap, IsPair, HasPair, Schedule.Covers, Schedule.InsideYears;
    assert j < k && z.ats[k] < z.ats[j];
  }

  /** With instants inside their years, the table is in order exactly when `time_t` holds all of
    * them. */
  lemma SortedExactly(z: Zone, s: Schedule, tt: TimeT)
    requires Compiled(z, s, tt) && s.InsideYears() && s.Covers(tt)
    ensures z.Ordered() <==> s.Held(tt)
  {
    hide Schedule.Covers, Schedule.InsideYears, HasPair, TimeT.Wrap;
    if s.Held(tt) {
      InsideApart(s);
      HeldOrdered(z, s, tt);
    } else {
      var x := LastWrapped(s, tt);
      WrappedUnsorted(z, s, tt, x);
    }
  }

  lemma PairInOrder(z: Zone, s: Schedule, tt: TimeT, i: nat)
    requires Compiled(z, s, tt) && i < |s.starts|
    ensures |z.ats| == 2 * |s.starts| && z.ats[2 * i] <= z.ats[2 * i + 1]
    ensures z.ats[2 * i] <= tt.Wrap(s.starts[i]) && z.ats[2 * i] <= tt.Wrap(s.ends[i])
  {
    assert HasPair(z.ats, z.types, i, s.starts[i], s.ends[i], tt);
    hide TimeT.Wrap;
  }

  lemma PivotRange(n: nat)
    requires 4 <= n
    ensures 4 <= Pivot(1, 2 * n) <= 2 * n - 3
  {
    PivotStep(1, 2 * n);
  }

  /** The entries of the years before the last are in order, and each is inside its year. */
  lemma EarlierEntries(z: Zone, s: Schedule, tt: TimeT, p: nat)
    requires Compiled(z, s, tt) && s.InsideYears() && 1 < |s.starts| && s.Shortened().Held(tt)
    requires 4 <= p < |z.ats| - 2
    ensures Ascends(z.ats, |z.ats| - 2) && s.firsts[2] <= z.ats[p] < s.firsts[|s.starts| - 1]
  {
    ShortenedCompiled(z, s, tt);
    HeldOrdered(Shortened(z), s.Shortened(), tt);
    EntryInYear(Shortened(z), s.Shortened(), tt, p);
    hide HasPair, TimeT.Wrap, Schedule.Held;
    assert 2 <= p / 2 && p / 2 + 1 <= |s.starts| - 1;
  }

  /** The entry of the last pair that is used once the search has come to the pivot. */
  function TailEntry(z: Zone, t: int): (k: nat)
    requires 2 <= |z.ats|
    ensures |z.ats| - 2 <= k < |z.ats|
  {
    if z.ats[|z.ats| - 1] <= t then |z.ats| - 1 else |z.ats| - 2
  }

  /** When the type shown is the one in force: `time_t` holds all instants; or `t` is before the
    * entry of the pivot; or the last pair, in which the search ends from there on, has by chance
    * the type in force. */
  ghost predicate Follows(z: Zone, s: Schedule, tt: TimeT, t: int)
    requires Compiled(z, s, tt) && 2 <= |s.starts|
  {
    || s.Held(tt)
    || t < z.ats[Pivot(1, |z.ats|)]
    || (z.types[TailEntry(z, t)] == 0 <==> s.InForce(t))
  }

  /** When `time_t` holds all instants the table always has the type in force. */
  lemma HeldRefinesRules(z: Zone, s: Schedule, tt: TimeT, t: int)
    requires Compiled(z, s, tt) && s.Apart() && s.Held(tt) && z.Valid() && z.ats[0] <= t
    ensures TypeAt(z, t) == 0 <==> s.InForce(t)
  {
    HeldOrdered(z, s, tt);
    FoundIsLast(z.ats, t, 1, |z.ats|, |z.ats|);
    LastFollowsRules(z, s, tt, t, Found(z.ats, t, 1, |z.ats|));
    hide Found, LastUpTo, Schedule.InForce, HasPair;
  }

  /** When it does not, the search ends as in a table without the last year, up to the pivot, and
    * in the last pair from there on. */
  lemma WrappedTable(z: Zone, s: Schedule, tt: TimeT, t: int)
    requires Compiled(z, s, tt) && s.InsideYears() && 4 <= |s.starts| && s.Shortened().Held(tt) && z.Valid()
    requires z.ats[|z.ats| - 2] <= z.ats[|z.ats| - 1] && z.ats[|z.ats| - 2] < s.firsts[2] && z.ats[0] <= t
    ensures if t < z.ats[Pivot(1, |z.ats|)] then TypeAt(z, t) == 0 <==> s.InForce(t)
            else TypeAt(z, t) == z.types[TailEntry(z, t)]
  {
    hide *;
    SameLength(z, s, tt);
    TypeFound(z, t);
    PivotRange(|s.starts|);
    var k, p := Found(z.ats, t, 1, |z.ats|), Pivot(1, |z.ats|);
    EarlierEntries(z, s, tt, p);
    FoundBeforeTail(z.ats, t, 1);
    TailEntryIs(z, t);
    if t < z.ats[p] {
      EarlierFollowRules(z, s, tt, t, k);
    }
  }

  lemma TailEntryIs(z: Zone, t: int)
    requires 2 <= |z.ats|
    ensures TailEntry(z, t) == if z.ats[|z.ats| - 1] <= t then |z.ats| - 1 else |z.ats| - 2
  {
  }

  lemma TypeFound(z: Zone, t: int)
    requires z.Valid() && |z.ats| > 0 && z.ats[0] <= t
    ensures |z.types| == |z.ats| && z.Known(t) && TypeAt(z, t) == z.types[Found(z.ats, t, 1, |z.ats|)]
  {
  }

  lemma EarlierFollowRules(z: Zone, s: Schedule, tt: TimeT, t: int, k: nat)
    requires Compiled(z, s, tt) && s.InsideYears() && 1 < |s.starts| && s.Shortened().Held(tt)
    requires LastUpTo(z.ats, t, |z.ats| - 2, k) && t < s.firsts[|s.starts| - 1]
    ensures z.types[k] == 0 <==> s.InForce(t)
  {
    ShortenedCompiled(z, s, tt);
    assert LastUpTo(Shortened(z).ats, t, |z.ats| - 2, k);
    ShortenedInForce(s, t);
    hide HasPair, TimeT.Wrap, Schedule.Held, Schedule.InForce, LastUpTo;
    LastFollowsRules(Shortened(z), s.Shortened(), tt, t, k);
  }

  lemma HeldFollows(z: Zone, s: Schedule, tt: TimeT, t: int)
    requires Compiled(z, s, tt) && s.Apart() && s.Held(tt) && z.Valid() && z.ats[0] <= t && 2 <= |s.starts|
    ensures Follows(z, s, tt, t) && (TypeAt(z, t) == 0 <==> s.InForce(t))
  {
    HeldRefinesRules(z, s, tt, t);
  }

  lemma WrappedFollows(z: Zone, s: Schedule, tt: TimeT, t: int)
    requires Compiled(z, s, tt) && s.InsideYears() && 4 <= |s.starts| && s.Shortened().Held(tt) && !s.Held(tt)
    requires z.Valid() && z.ats[0] <= t
    requires z.ats[|z.ats| - 2] <= z.ats[|z.ats| - 1] && z.ats[|z.ats| - 2] < s.firsts[2]
    ensures (TypeAt(z, t) == 0 <==> s.InForce(t)) <==> Follows(z, s, tt, t)
  {
    hide TypeAt, Schedule.InForce, Schedule.Held, Schedule.InsideYears, HasPair, Pivot;
    WrappedTable(z, s, tt, t);
  }

  /** Refinement: from the first entry on, looking a time up in the compiled table finds the type
    * that the rules put in force exactly under that condition. */
  lemma TableRefinesRules(z: Zone, s: Schedule, tt: TimeT, t: int)
    requires Compiled(z, s, tt) && s.Placed(tt) && s.Covers(tt) && z.ats[0] <= t
    ensures z.Valid() && 4 <= |s.starts|
    ensures (TypeAt(z, t) == 0 <==> s.InForce(t)) <==> Follows(z, s, tt, t)
  {
    hide *;
    SameLength(z, s, tt);
    CompiledValid(z, s, tt);
    FirstsHeld(s, tt);
    PlacedCases(s, tt);
    if s.Held(tt) {
      HeldFollows(z, s, tt, t);
    } else {
      EarlierHeld(s, tt);
      PairInOrder(z, s, tt, |s.starts| - 1);
      var x := LastWrapped(s, tt);
      WrappedFollows(z, s, tt, t);
    }
  }

  lemma InsidePlaced(s: Schedule, tt: TimeT)
    requires s.Valid() && s.InsideYears()
    ensures s.Placed(tt)
  {
  }

  lemma PlacedCases(s: Schedule, tt: TimeT)
    requires s.Valid() && s.Placed(tt)
    ensures if s.Held(tt) then s.Apart() else s.InsideYears()
  {
    if s.InsideYears() {
      InsideApart(s);
    }
  }

  /** When both instants of the last year have wrapped around, the search has only one answer from
    * the pivot on: daylight saving time if it ends that year before it starts, as in the south, and
    * standard time otherwise. */
  lemma TailIsConstant(z: Zone, s: Schedule, tt: TimeT, t: int)
    requires Compiled(z, s, tt) && s.InsideYears() && s.Covers(tt) && s.LastUnheld(tt)
    requires 4 <= |z.ats| && z.ats[Pivot(1, |z.ats|)] <= t
    ensures !s.Held(tt) && 2 <= |s.starts|
    ensures z.types[TailEntry(z, t)] == 0 <==> s.LastEndsFirst()
    ensures Follows(z, s, tt, t) <==> (s.LastEndsFirst() <==> s.InForce(t))
  {
    hide *;
    SameLength(z, s, tt);
    NotHeld(s, tt);
    LastPairPassed(z, s, tt, t);
    TailType(z, s, tt);
    LastEntryFollows(z, s, tt, t);
  }

  /** The last entry has the type of the later instant, since both have wrapped around once. */
  lemma TailType(z: Zone, s: Schedule, tt: TimeT)
    requires Compiled(z, s, tt) && s.InsideYears() && s.Covers(tt) && s.LastUnheld(tt)
    ensures z.types[|z.ats| - 1] == 0 <==> s.LastEndsFirst()
  {
    hide *;
    SameLength(z, s, tt);
    WrappedAlike(s, tt);
    WrappedPair(z, s, tt, |s.starts| - 1);
  }

  lemma NotHeld(s: Schedule, tt: TimeT)
    requires s.Valid() && s.InsideYears() && s.Covers(tt) && s.LastUnheld(tt)
    ensures !s.Held(tt) && 2 <= |s.starts|
  {
    EarlierHeld(s, tt);
    HeldButLast(s, tt);
    hide Schedule.Covers, Schedule.InsideYears, Schedule.Held;
  }

  lemma LastEntryFollows(z: Zone, s: Schedule, tt: TimeT, t: int)
    requires Compiled(z, s, tt) && 2 <= |s.starts| && !s.Held(tt)
    requires z.ats[Pivot(1, |z.ats|)] <= t && z.ats[|z.ats| - 1] <= t
    ensures TailEntry(z, t) == |z.ats| - 1
    ensures Follows(z, s, tt, t) <==> (z.types[|z.ats| - 1] == 0 <==> s.InForce(t))
  {
    hide Pivot, Schedule.Held, Schedule.InForce, HasPair;
  }

  lemma LastPairPassed(z: Zone, s: Schedule, tt: TimeT, t: int)
    requires Compiled(z, s, tt) && s.InsideYears() && s.Covers(tt) && s.LastUnheld(tt)
    requires 4 <= |z.ats| && z.ats[Pivot(1, |z.ats|)] <= t
    ensures z.ats[|z.ats| - 1] <= t
  {
    hide TimeT.Wrap, Pivot, Schedule.Covers, Schedule.InsideYears, HasPair;
    var n := |s.starts|;
    EarlierHeld(s, tt);
    PivotRange(n);
    EarlierEntries(z, s, tt, Pivot(1, |z.ats|));
    LastWraps(s, tt, s.starts[n - 1]);
    LastWraps(s, tt, s.ends[n - 1]);
    WrappedPair(z, s, tt, n - 1);
  }

  lemma WrappedAlike(s: Schedule, tt: TimeT)
    requires s.Valid() && s.InsideYears() && s.Covers(tt) && s.LastUnheld(tt)
    ensures var n := |s.starts|;
      tt.Wrap(s.starts[n - 1]) > tt.Wrap(s.ends[n - 1]) <==> s.LastEndsFirst()
  {
    var n := |s.starts|;
    FirstsHeld(s, tt);
    DaysToStep(EPOCH_YEAR + n - 1);
    assert s.firsts[n - 1] == FirstOf(n - 1) && s.firsts[n] == FirstOf(n) && tt.Has(s.firsts[n - 1]);
    assert FirstOf(n) <= FirstOf(n - 1) + 366 * SECSPERDAY;
    assert s.firsts[n - 1] <= s.starts[n - 1] < s.firsts[n] && s.firsts[n - 1] <= s.ends[n - 1] < s.firsts[n];
    hide FirstOf, TimeT.Wrap, Schedule.InsideYears, Schedule.Covers;
    WrapOnce(tt, s.starts[n - 1]);
    WrapOnce(tt, s.ends[n - 1]);
  }

  lemma WrappedPair(z: Zone, s: Schedule, tt: TimeT, i: nat)
    requires Compiled(z, s, tt) && i < |s.starts|
    ensures var start, end := tt.Wrap(s.starts[i]), tt.Wrap(s.ends[i]);
      && |z.ats| == 2 * |s.starts|
      && z.ats[2 * i + 1] == (if start > end then start else end)
      && (z.types[2 * i + 1] == 0 <==> start > end)
  {
    assert HasPair(z.ats, z.types, i, s.starts[i], s.ends[i], tt);
    hide TimeT.Wrap;
  }

  /** Local time `t` at the offset and with the flag that the rules give one of the two types. */
  ghost function ShownAs(rules: Rules, lsis: seq<LeapSecond>, t: int, dst: bool, was: Tm): Filled {
    var shown := TimeSubSpec(t, if dst then -rules.dstoffset else -rules.stdoffset, lsis, was);
    shown.(tm := shown.tm.(isdst := if dst then 1 else 0))
  }

  /** So `localsub` on the compiled table shows, for a time that it does not fold, the local time that
    * the rules prescribe exactly under that condition, whatever else the state was left with.
    * Otherwise it shows it as the other type. */
  lemma LocalTimeFollowsRules(z: Zone, rules: Rules, n: nat, tt: TimeT, t: int, was: Tm)
    requires rules.Valid() && tt.Valid() && 0x7fff_ffff <= tt.hi && Spans(n, tt)
    requires Compiled(z, ScheduleOf(rules, n), tt) && ScheduleOf(rules, n).Placed(tt)
    requires z.ttis[0].gmtoff == -rules.dstoffset && z.ttis[0].isdst == 1
    requires z.ttis[1].gmtoff == -rules.stdoffset && z.ttis[1].isdst == 0
    requires z.ats[0] <= t && (z.goahead ==> t <= z.ats[|z.ats| - 1])
    ensures z.Valid() && z.Known(t) && 4 <= n
    ensures var s, r := ScheduleOf(rules, n), LocalSubSpec(z, t, was);
      && r == ShownAs(rules, z.lsis, t, s.InForce(t) <==> Follows(z, s, tt, t), was)
      && (r == ShownAs(rules, z.lsis, t, s.InForce(t), was) <==> Follows(z, s, tt, t))
  {
    var s := ScheduleOf(rules, n);
    TableRefinesRules(z, s, tt, t);
    assert |z.ttis| == 2 && z.Known(t) && !z.Outside(t);
    hide *;
    ShownByType(z, rules, t, was);
    TypesDiffer(rules, z.lsis, t, was);
    assert TypeAt(z, t) == 0 <==> (s.InForce(t) <==> Follows(z, s, tt, t));
  }

  lemma ShownByType(z: Zone, rules: Rules, t: int, was: Tm)
    requires z.Valid() && z.Known(t) && !z.Outside(t) && |z.ttis| == 2
    requires z.ttis[0].gmtoff == -rules.dstoffset && z.ttis[0].isdst == 1
    requires z.ttis[1].gmtoff == -rules.stdoffset && z.ttis[1].isdst == 0
    ensures LocalSubSpec(z, t, was) == ShownAs(rules, z.lsis, t, TypeAt(z, t) == 0, was)
  {
    hide TypeAt, TimeSubSpec;
  }

  lemma TypesDiffer(rules: Rules, lsis: seq<LeapSecond>, t: int, was: Tm)
    ensures ShownAs(rules, lsis, t, true, was) != ShownAs(rules, lsis, t, false, was)
  {
    hide TimeSubSpec;
    assert ShownAs(rules, lsis, t, true, was).tm.isdst == 1;
  }

  /** Without leap seconds that is a civil time. */
  lemma CivilTimeFollowsRules(z: Zone, rules: Rules, n: nat, tt: TimeT, t: int, was: Tm)
    requires rules.Valid() && tt.Valid() && 0x7fff_ffff <= tt.hi && Spans(n, tt)
    requires Compiled(z, ScheduleOf(rules, n), tt) && ScheduleOf(rules, n).Placed(tt)
    requires z.ttis[0].gmtoff == -rules.dstoffset && z.ttis[0].isdst == 1
    requires z.ttis[1].gmtoff == -rules.stdoffset && z.ttis[1].isdst == 0
    requires z.ats[0] <= t && (z.goahead ==> t <= z.ats[|z.ats| - 1]) && z.lsis == []
    ensures z.Valid() && z.Known(t) && 4 <= n
    ensures var s := ScheduleOf(rules, n);
      var dst := s.InForce(t) <==> Follows(z, s, tt, t);
      var off := if dst then rules.dstoffset else rules.stdoffset;
      var r := LocalSubSpec(z, t, was);
      (r.ok <==> Fits(t, -off)) && (r.ok ==> r.tm == Civil(t - off).(isdst := if dst then 1 else 0))
  {
    hide *;
    LocalTimeFollowsRules(z, rules, n, tt, t, was);
    ShownAsCivil(rules, t, true, was);
    ShownAsCivil(rules, t, false, was);
  }

  lemma ShownAsCivil(rules: Rules, t: int, dst: bool, was: Tm)
    ensures var off, r := if dst then rules.dstoffset else rules.stdoffset, ShownAs(rules, [], t, dst, was);
      (r.ok <==> Fits(t, -off)) && (r.ok ==> r.tm == Civil(t - off).(isdst := if dst then 1 else 0))
  {
    NoLeapSeconds(t, if dst then -rules.dstoffset else -rules.stdoffset);
  }

  /** With DJGPP's unsigned 32 bits the table ends with the year 2106. */
  const DJGPP_YEARS: nat := 137

  lemma DjgppSpans(n: nat)
    requires n == DJGPP_YEARS
    ensures Spans(n, DJGPP_TIME)
  {
    DaysToClosed(2106);
    DaysToClosed(2107);
    forall i: nat | i < n
      ensures DJGPP_TIME.Has(FirstOf(i))
    {
      DaysToMonotone(EPOCH_YEAR, EPOCH_YEAR + i);
      DaysToMonotone(EPOCH_YEAR + i, EPOCH_YEAR + n - 1);
    }
  }

  /** Daylight saving time from day 100 to day 300 of each year, by the clock of Greenwich. */
  const SUMMER := Rules(Rule(JulianDay(100), 7200), Rule(JulianDay(300), 7200), 0, 0)

  lemma SummerInside(n: nat)
    requires n == DJGPP_YEARS
    ensures SUMMER.Valid() && ScheduleOf(SUMMER, n).InsideYears() && !ScheduleOf(SUMMER, n).Held(DJGPP_TIME)
  {
    var s := ScheduleOf(SUMMER, n);
    forall i: nat | i < n
      ensures s.firsts[i] <= s.starts[i] < s.firsts[i + 1] && s.firsts[i] <= s.ends[i] < s.firsts[i + 1]
      ensures s.starts[i] >= FirstOf(i) + 99 * SECSPERDAY
    {
      var y := EPOCH_YEAR + i;
      DaysToStep(y);
      RuleInstantIs(SUMMER.start, y, 0, if IsLeap(y) then 100 else 99);
      RuleInstantIs(SUMMER.end, y, 0, if IsLeap(y) then 300 else 299);
    }
    DaysToClosed(2106);
    assert !DJGPP_TIME.Has(s.starts[n - 1]);
  }

  /** So with DJGPP's own `time_t` the table of such rules is not in order: the instants of 2106 have
    * wrapped around. */
  lemma DjgppTableUnsorted(z: Zone)
    requires Compiled(z, ScheduleOf(SUMMER, DJGPP_YEARS), DJGPP_TIME)
    ensures Spans(DJGPP_YEARS, DJGPP_TIME) && !z.Ordered()
  {
    hide ScheduleOf, Compiled, Spans;
    DjgppSpans(DJGPP_YEARS);
    SummerInside(DJGPP_YEARS);
    SortedExactly(z, ScheduleOf(SUMMER, DJGPP_YEARS), DJGPP_TIME);
  }

  /** The pivot of DJGPP's table is the first entry of the year 2105. */
  lemma DjgppPivot()
    ensures Pivot(1, 274) == 270
  {
    PivotStep(1, 274);
    PivotStep(138, 274);
    PivotStep(207, 274);
    PivotStep(241, 274);
    PivotStep(258, 274);
    PivotStep(267, 274);
    PivotStep(271, 274);
  }

  lemma SummerDays(n: nat, i: nat)
    requires n == DJGPP_YEARS && i < n
    ensures var s := ScheduleOf(SUMMER, n);
      FirstOf(i) + 99 * SECSPERDAY <= s.starts[i] < s.ends[i]
  {
    var y := EPOCH_YEAR + i;
    RuleInstantIs(SUMMER.start, y, 0, if IsLeap(y) then 100 else 99);
    RuleInstantIs(SUMMER.end, y, 0, if IsLeap(y) then 300 else 299);
    hide IsLeap, DaysTo;
  }

  lemma SummerWraps(n: nat)
    requires n == DJGPP_YEARS
    ensures var s := ScheduleOf(SUMMER, n);
      !DJGPP_TIME.Has(s.starts[n - 1]) && !DJGPP_TIME.Has(s.ends[n - 1]) && s.starts[n - 1] < s.ends[n - 1]
  {
    SummerDays(n, n - 1);
    hide ScheduleOf;
    DaysToClosed(2106);
  }

  /** In the second last year the latest instant is the end, once it has come. */
  lemma InForceBetween(s: Schedule, i: nat, t: int)
    requires s.Valid() && s.InsideYears() && i + 2 == |s.starts| && s.starts[i] <= t < s.starts[i + 1]
    requires s.starts[i] < s.ends[i] && t < s.ends[i + 1]
    ensures s.InForce(t) <==> t < s.ends[i]
  {
    if t < s.ends[i] {
      forall j | 0 <= j < |s.ends| && s.ends[j] <= t
        ensures s.ends[j] < s.starts[i]
      {
        assert j < i && s.firsts[j + 1] <= s.firsts[i];
      }
      assert s.EndsBefore(t, s.starts[i]);
    } else {
      forall j | 0 <= j < |s.starts| && s.starts[j] <= t
        ensures !s.EndsBefore(t, s.starts[j])
      {
        assert j <= i && (j < i ==> s.firsts[j + 1] <= s.firsts[i]);
        assert s.ends[i] <= t && s.starts[j] <= s.ends[i];
      }
    }
  }

  /** With rules of the north, and a pivot at the start of the second last year, the daylight saving
    * time of that year is missed, and nothing else. */
  lemma SecondLastMissed(z: Zone, s: Schedule, tt: TimeT, t: int, i: nat)
    requires Compiled(z, s, tt) && s.InsideYears() && s.Covers(tt) && tt.Has(t)
    requires i + 2 == |s.starts| && Pivot(1, |z.ats|) == 2 * i
    requires s.LastUnheld(tt) && s.starts[i] < s.ends[i] && !s.LastEndsFirst()
    ensures Follows(z, s, tt, t) <==> !(s.starts[i] <= t < s.ends[i])
    ensures s.starts[i] <= t < s.ends[i] ==> s.InForce(t)
  {
    hide *;
    SameLength(z, s, tt);
    EarlierHeld(s, tt);
    PivotStart(z, s, tt, i);
    LastLater(s, tt, t);
    if s.starts[i] <= t {
      TailIsConstant(z, s, tt, t);
      InForceBetween(s, i, t);
    } else {
      BeforePivot(z, s, tt, t);
    }
  }

  lemma BeforePivot(z: Zone, s: Schedule, tt: TimeT, t: int)
    requires Compiled(z, s, tt) && 2 <= |s.starts| && t < z.ats[Pivot(1, |z.ats|)]
    ensures Follows(z, s, tt, t)
  {
    hide Pivot;
  }

  lemma PivotStart(z: Zone, s: Schedule, tt: TimeT, i: nat)
    requires Compiled(z, s, tt) && i + 2 == |s.starts| && s.Shortened().Held(tt) && s.starts[i] < s.ends[i]
    ensures z.ats[2 * i] == s.starts[i]
  {
    assert s.Shortened().starts[i] == s.starts[i] && s.Shortened().ends[i] == s.ends[i];
    PairHeld(z, s, tt, i);
  }

  lemma LastLater(s: Schedule, tt: TimeT, t: int)
    requires s.Valid() && s.InsideYears() && s.Covers(tt) && s.LastUnheld(tt) && tt.Has(t)
    ensures var i := |s.starts| - 1;
      t < s.starts[i] && t < s.ends[i]
  {
    var i := |s.starts| - 1;
    FirstsHeld(s, tt);
    assert tt.Has(s.firsts[i]) && s.firsts[i] <= s.starts[i] && s.firsts[i] <= s.ends[i];
  }

  /** With DJGPP's `time_t`, and rules of the north whose instants of 2106 it cannot hold, `localsub`
    * shows the whole daylight saving time of 2105 as standard time, and every other time from the
    * first entry on as the rules prescribe. */
  lemma SummerOf2105Missed(z: Zone, rules: Rules, n: nat, t: int)
    requires n == DJGPP_YEARS && rules.Valid() && DJGPP_TIME.Has(t)
    requires Compiled(z, ScheduleOf(rules, n), DJGPP_TIME) && ScheduleOf(rules, n).InsideYears() && z.ats[0] <= t
    requires var s := ScheduleOf(rules, n);
      s.starts[135] < s.ends[135] && !s.LastEndsFirst() && s.LastUnheld(DJGPP_TIME)
    ensures var s := ScheduleOf(rules, n);
      && z.Valid() && (Follows(z, s, DJGPP_TIME, t) <==> !(s.starts[135] <= t < s.ends[135]))
      && (s.starts[135] <= t < s.ends[135] ==> s.InForce(t) && TypeAt(z, t) == 1)
  {
    var s := ScheduleOf(rules, n);
    assert |z.ats| == 274 && |z.ttis| == 2;
    DjgppSpans(n);
    assert s.Covers(DJGPP_TIME);
    hide *;
    DjgppPivot();
    SecondLastMissed(z, s, DJGPP_TIME, t, 135);
    InsidePlaced(s, DJGPP_TIME);
    TableRefinesRules(z, s, DJGPP_TIME, t);
  }

  /** There are such rules. */
  lemma SummerIsMissed(n: nat)
    requires n == DJGPP_YEARS
    ensures var s := ScheduleOf(SUMMER, n);
      && SUMMER.Valid() && s.InsideYears()
      && s.starts[135] < s.ends[135] && !s.LastEndsFirst() && s.LastUnheld(DJGPP_TIME)
  {
    SummerInside(n);
    SummerDays(n, 135);
    SummerWraps(n);
    hide ScheduleOf, Schedule.InsideYears;
  }
}
