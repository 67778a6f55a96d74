/** The rules of a zone over all years: they repeat every 400 years, and so does what `localsub`
  * makes of a table compiled from them when it folds a time into it. */
module RuleCycles {
  import opened CInts
  import opened Calendar
  import opened TimeConversion
  import opened LocalTime
  import opened ZoneRules

  /** Every end at or before `t`, in whatever year, comes before the instant `start`. */
  ghost predicate EndsBefore(r: Rules, t: int, start: int)
    requires r.Valid()
  {
    forall j: nat :: r.EndOf(j) <= t ==> r.EndOf(j) < start
  }

  /** The latest instant at or before `t` of all years from 1970 on is a start. */
  ghost predicate InForceAt(r: Rules, t: int)
    requires r.Valid()
  {
    exists i: nat :: r.StartOf(i) <= t && EndsBefore(r, t, r.StartOf(i))
  }

  /** The instants of the `i`-th year fall inside it. */
  ghost predicate InsideYear(r: Rules, i: nat)
    requires r.Valid()
  {
    FirstOf(i) <= r.StartOf(i) < FirstOf(i + 1) && FirstOf(i) <= r.EndOf(i) < FirstOf(i + 1)
  }

  ghost predicate AlwaysInside(r: Rules)
    requires r.Valid()
  {
    forall i: nat :: InsideYear(r, i)
  }

  lemma WeekdayRepeats(y: int, k: nat, yday: int)
    ensures Weekday(y + 400 * k, yday) == Weekday(y, yday)
  {
    YearsRepeat(y, k);
    QuotientShift(EPOCH_WDAY + DaysTo(y) + yday, 7, 20871 * k);
    hide DaysTo;
  }

  /** A rule selects the same day of the year after whole cycles. */
  lemma SelectionRepeats(d: RuleDate, y: int, k: nat, yday: int)
    requires ValidDate(d) && Selects(d, y, yday)
    ensures Selects(d, y + 400 * k, yday)
  {
    LeapRepeats(y, k);
    WeekdayRepeats(y, k, yday);
    hide IsLeap, Weekday;
  }

  lemma InstantRepeats(r: Rule, y: int, k: nat, offset: int)
    requires ValidRule(r) && y >= 1
    ensures RuleInstant(r, y + 400 * k, offset) == RuleInstant(r, y, offset) + k * SECSPERREPEAT
  {
    SelectsSome(r.date, y);
    var yday :| Selects(r.date, y, yday);
    SelectionRepeats(r.date, y, k, yday);
    RuleInstantIs(r, y, offset, yday);
    RuleInstantIs(r, y + 400 * k, offset, yday);
    YearsRepeat(y, k);
    hide DaysTo, Selects, RuleInstant;
  }

  /** So do the years and their instants. */
  lemma YearRepeats(r: Rules, i: nat, k: nat)
    requires r.Valid()
    ensures FirstOf(i + 400 * k) == FirstOf(i) + k * SECSPERREPEAT
    ensures r.StartOf(i + 400 * k) == r.StartOf(i) + k * SECSPERREPEAT
    ensures r.EndOf(i + 400 * k) == r.EndOf(i) + k * SECSPERREPEAT
  {
    YearsRepeat(EPOCH_YEAR + i, k);
    InstantRepeats(r.start, EPOCH_YEAR + i, k, r.stdoffset);
    InstantRepeats(r.end, EPOCH_YEAR + i, k, r.dstoffset);
    assert EPOCH_YEAR + (i + 400 * k) == EPOCH_YEAR + i + 400 * k;
    hide DaysTo, RuleInstant;
  }

  /** If the instants of 400 years fall inside their years, all do. */
  lemma InsideRepeats(r: Rules, n: nat)
    requires r.Valid() && 400 <= n && 2 * n <= TZ_MAX_TIMES && ScheduleOf(r, n).InsideYears()
    ensures AlwaysInside(r)
  {
    forall i: nat
      ensures InsideYear(r, i)
    {
      InsideFirst(r, n, i % 400);
      InsideLater(r, i % 400, i / 400);
      assert i == i % 400 + 400 * (i / 400);
    }
  }

  lemma InsideFirst(r: Rules, n: nat, i: nat)
    requires r.Valid() && 2 * n <= TZ_MAX_TIMES && i < n && ScheduleOf(r, n).InsideYears()
    ensures InsideYear(r, i)
  {
    var s := ScheduleOf(r, n);
    assert s.starts[i] == r.StartOf(i) && s.ends[i] == r.EndOf(i);
    assert s.firsts[i] == FirstOf(i) && s.firsts[i + 1] == FirstOf(i + 1);
    hide FirstOf, Rules.StartOf, Rules.EndOf;
  }

  lemma InsideLater(r: Rules, i: nat, k: nat)
    requires r.Valid() && InsideYear(r, i)
    ensures InsideYear(r, i + 400 * k)
  {
    hide FirstOf, Rules.StartOf, Rules.EndOf;
    YearRepeats(r, i, k);
    YearRepeats(r, i + 1, k);
    assert i + 1 + 400 * k == i + 400 * k + 1;
  }

  lemma YearsAscend(i: nat, j: nat)
    requires i <= j
    ensures FirstOf(i) <= FirstOf(j)
  {
    DaysToMonotone(EPOCH_YEAR + i, EPOCH_YEAR + j);
  }

  /** Within the years of a schedule it says what the rules say. */
  lemma ScheduleInForce(r: Rules, n: nat, t: int)
    requires r.Valid() && 0 < n && 2 * n <= TZ_MAX_TIMES && AlwaysInside(r) && t < FirstOf(n)
    ensures ScheduleOf(r, n).InForce(t) <==> InForceAt(r, t)
  {
    var s := ScheduleOf(r, n);
    forall i: nat
      ensures i < n ==> s.starts[i] == r.StartOf(i) && s.ends[i] == r.EndOf(i)
      ensures i >= n ==> r.StartOf(i) > t && r.EndOf(i) > t
    {
      if i >= n {
        YearsAscend(n, i);
        assert InsideYear(r, i);
      }
    }
    hide ScheduleOf, FirstOf, Rules.StartOf, Rules.EndOf, AlwaysInside;
    forall x
      ensures s.EndsBefore(t, x) <==> EndsBefore(r, t, x)
    {
    }
    hide EndsBefore, Schedule.EndsBefore;
  }

  /** From the first instant on, moving a time by whole cycles makes no difference. */
  lemma InForceRepeats(r: Rules, t: int, k: nat)
    requires r.Valid() && AlwaysInside(r) && (r.StartOf(0) <= t || r.EndOf(0) <= t)
    ensures InForceAt(r, t + k * SECSPERREPEAT) <==> InForceAt(r, t)
  {
    var u := t + k * SECSPERREPEAT;
    if InForceAt(r, t) {
      var i: nat :| r.StartOf(i) <= t && EndsBefore(r, t, r.StartOf(i));
      LaterInForce(r, t, k, i);
    }
    if InForceAt(r, u) {
      var i: nat :| r.StartOf(i) <= u && EndsBefore(r, u, r.StartOf(i));
      EarlierInForce(r, t, k, i);
    }
  }

  lemma LaterInForce(r: Rules, t: int, k: nat, i: nat)
    requires r.Valid() && AlwaysInside(r) && r.StartOf(i) <= t && EndsBefore(r, t, r.StartOf(i))
    ensures InForceAt(r, t + k * SECSPERREPEAT)
  {
    hide Rules.StartOf, Rules.EndOf, FirstOf;
    var u, start := t + k * SECSPERREPEAT, r.StartOf(i + 400 * k);
    YearRepeats(r, i, k);
    forall j: nat | r.EndOf(j) <= u
      ensures r.EndOf(j) < start
    {
      if j >= 400 * k {
        YearRepeats(r, j - 400 * k, k);
      } else {
        assert InsideYear(r, j) && InsideYear(r, i + 400 * k);
        YearsAscend(j + 1, i + 400 * k);
      }
    }
    assert EndsBefore(r, u, start);
  }

  lemma EarlierInForce(r: Rules, t: int, k: nat, i: nat)
    requires r.Valid() && AlwaysInside(r) && (r.StartOf(0) <= t || r.EndOf(0) <= t)
    requires var u := t + k * SECSPERREPEAT;
      r.StartOf(i) <= u && EndsBefore(r, u, r.StartOf(i))
    ensures InForceAt(r, t)
  {
    hide Rules.StartOf, Rules.EndOf, FirstOf;
    if i >= 400 * k {
      YearRepeats(r, i - 400 * k, k);
      forall j: nat | r.EndOf(j) <= t
        ensures r.EndOf(j) < r.StartOf(i - 400 * k)
      {
        YearRepeats(r, j, k);
      }
      assert EndsBefore(r, t, r.StartOf(i - 400 * k));
    } else {
      YearRepeats(r, 0, k);
      assert InsideYear(r, i) && InsideYear(r, 400 * k) && InsideYear(r, 0);
      YearsAscend(i + 1, 400 * k);
      forall j: nat
        ensures t < r.EndOf(j)
      {
        assert InsideYear(r, j);
        YearsAscend(1, if j == 0 then 1 else j);
      }
      assert EndsBefore(r, t, r.StartOf(0));
    }
  }

  /** A table for 402 years or more spans a cycle. */
  lemma LongTableSpans(z: Zone, s: Schedule, tt: TimeT)
    requires Compiled(z, s, tt) && s.InsideYears() && s.Covers(tt) && s.Held(tt) && 402 <= |s.starts|
    ensures z.Valid() && z.SpansCycle() && s.firsts[0] <= z.ats[0] < s.firsts[1]
    ensures z.ats[0] == s.starts[0] || z.ats[0] == s.ends[0]
    ensures z.ats[|z.ats| - 1] < s.firsts[|s.starts|]
  {
    CompiledValid(z, s, tt);
    var n := |s.starts|;
    assert |z.ats| == 2 * n;
    EntryInYear(z, s, tt, 0);
    EntryInYear(z, s, tt, 2 * n - 1);
    HalfOfLast(n);
    LongSchedule(s, tt);
    hide Compiled, Schedule.InsideYears, Schedule.Held, Schedule.Covers, FirstOf, HasPair;
  }

  lemma HalfOfLast(n: nat)
    requires n > 0
    ensures (2 * n - 1) / 2 == n - 1
  {
  }

  lemma LongSchedule(s: Schedule, tt: TimeT)
    requires s.Valid() && s.Covers(tt) && 402 <= |s.starts|
    ensures s.firsts[1] + SECSPERREPEAT <= s.firsts[|s.starts| - 1]
  {
    hide FirstOf;
    assert s.firsts[401] == FirstOf(401) && s.firsts[1] == FirstOf(1);
    FirstRepeats(401);
    assert s.firsts[401] <= s.firsts[|s.starts| - 1];
  }

  lemma FirstRepeats(i: nat)
    requires i >= 400
    ensures FirstOf(i) == FirstOf(i - 400) + SECSPERREPEAT
  {
    YearsRepeat(EPOCH_YEAR + i - 400, 1);
    hide DaysTo;
  }

  /** The same for the table of the rules. */
  lemma LongTable(z: Zone, r: Rules, n: nat, tt: TimeT, t: int)
    requires r.Valid() && Spans(n, tt) && tt.Valid() && 0x7fff_ffff <= tt.hi && 402 <= n
    requires Compiled(z, ScheduleOf(r, n), tt) && ScheduleOf(r, n).InsideYears() && ScheduleOf(r, n).Held(tt)
    requires z.ats[0] <= t
    ensures z.Valid() && z.SpansCycle() && z.Known(t) && AlwaysInside(r) && |z.ttis| == 2 && |z.ats| > 0
    ensures 2 * n <= TZ_MAX_TIMES && (z.Outside(t) <==> z.goahead && t > z.ats[|z.ats| - 1])
    ensures z.ats[|z.ats| - 1] < FirstOf(n) && (r.StartOf(0) <= z.ats[0] || r.EndOf(0) <= z.ats[0])
  {
    var s := ScheduleOf(r, n);
    RoomFor(n, tt);
    hide *;
    SameLength(z, s, tt);
    ScheduleEnds(r, n, tt);
    LongTableSpans(z, s, tt);
    InsideRepeats(r, n);
    KnownAfter(z, t);
  }

  lemma RoomFor(n: nat, tt: TimeT)
    requires Spans(n, tt)
    ensures 0 < n && 2 * n <= TZ_MAX_TIMES
  {
  }

  lemma ScheduleEnds(r: Rules, n: nat, tt: TimeT)
    requires r.Valid() && Spans(n, tt) && tt.Valid() && 0x7fff_ffff <= tt.hi
    ensures var s := ScheduleOf(r, n);
      s.firsts[n] == FirstOf(n) && s.starts[0] == r.StartOf(0) && s.ends[0] == r.EndOf(0) && s.Covers(tt)
  {
  }

  lemma KnownAfter(z: Zone, t: int)
    requires z.Valid() && |z.ats| > 0 && z.ats[0] <= t
    ensures z.Known(t) && (z.Outside(t) <==> z.goahead && t > z.ats[|z.ats| - 1])
  {
  }

  /** Inside such a table the type found is the one in force. */
  lemma TypeFollows(z: Zone, r: Rules, n: nat, tt: TimeT, t: int)
    requires r.Valid() && 0 < n && 2 * n <= TZ_MAX_TIMES && AlwaysInside(r)
    requires Compiled(z, ScheduleOf(r, n), tt) && ScheduleOf(r, n).InsideYears() && ScheduleOf(r, n).Held(tt)
    requires z.Valid() && |z.ats| > 0 && z.ats[0] <= t < FirstOf(n)
    ensures TypeAt(z, t) == 0 <==> InForceAt(r, t)
  {
    var s := ScheduleOf(r, n);
    hide *;
    SameLength(z, s, tt);
    InsideApart(s);
    HeldRefinesRules(z, s, tt, t);
    ScheduleInForce(r, n, t);
  }

  /** And so is the type found for a time after it that is folded into it. */
  lemma FoldedTypeFollows(z: Zone, r: Rules, n: nat, tt: TimeT, t: int)
    requires r.Valid() && 0 < n && 2 * n <= TZ_MAX_TIMES && AlwaysInside(r)
    requires Compiled(z, ScheduleOf(r, n), tt) && ScheduleOf(r, n).InsideYears() && ScheduleOf(r, n).Held(tt)
    requires z.Valid() && z.SpansCycle() && z.Outside(t) && |z.ats| > 0 && z.ats[0] <= t
    requires z.ats[|z.ats| - 1] < FirstOf(n) && (r.StartOf(0) <= z.ats[0] || r.EndOf(0) <= z.ats[0])
    ensures z.Known(Folded(z, t).0) && (TypeAt(z, Folded(z, t).0) == 0 <==> InForceAt(r, t))
  {
    assert t > z.ats[|z.ats| - 1];
    hide *;
    var k := FoldedByCycles(z, t);
    FoldLands(z, t);
    var newt := Folded(z, t).0;
    CyclesUp(t, newt, k);
    TypeFollows(z, r, n, tt, newt);
    InForceRepeats(r, newt, k);
  }

  lemma CyclesUp(t: int, newt: int, k: int)
    requires newt == t - k * SECSPERREPEAT && newt < t
    ensures k > 0
  {
  }

  /** So with a table for that many years, as a `time_t` of 64 bits gives, local time follows the rules
    * for every time from the first entry on, also past the end of the table if the state was left
    * with the flag to fold. */
  lemma LocalTimeAlwaysFollows(z: Zone, r: Rules, n: nat, tt: TimeT, t: int, was: Tm)
    requires r.Valid() && Spans(n, tt) && tt.Valid() && 0x7fff_ffff <= tt.hi && 402 <= n
    requires Compiled(z, ScheduleOf(r, n), tt) && ScheduleOf(r, n).InsideYears() && ScheduleOf(r, n).Held(tt)
    requires z.ttis[0].gmtoff == -r.dstoffset && z.ttis[0].isdst == 1
    requires z.ttis[1].gmtoff == -r.stdoffset && z.ttis[1].isdst == 0
    requires z.lsis == [] && z.ats[0] <= t && (z.goahead || t <= z.ats[|z.ats| - 1])
    ensures z.Valid() && z.Known(t)
    ensures var dst := InForceAt(r, t);
      var off := if dst then r.dstoffset else r.stdoffset;
      var shown := LocalSubSpec(z, t, was);
      && (shown.ok ==> shown.tm == Civil(t - off).(isdst := if dst then 1 else 0))
      && (shown.ok <==>
           if z.Outside(t) then Fits(Folded(z, t).0, -off) && IsInt(Civil(t - off).year) else Fits(t, -off))
  {
    hide *;
    LongTable(z, r, n, tt, t);
    if z.Outside(t) {
      FoldedTypeFollows(z, r, n, tt, t);
    } else {
      TypeFollows(z, r, n, tt, t);
    }
    ShownUnderType(z, r, t, was, InForceAt(r, t));
  }

  /** What is shown without leap seconds, when `dst` says which type is found. */
  lemma ShownUnderType(z: Zone, r: Rules, t: int, was: Tm, dst: bool)
    requires z.Valid() && z.Known(t) && z.SpansCycle() && z.lsis == [] && |z.ttis| == 2
    requires z.ttis[0].gmtoff == -r.dstoffset && z.ttis[0].isdst == 1
    requires z.ttis[1].gmtoff == -r.stdoffset && z.ttis[1].isdst == 0
    requires var u := if z.Outside(t) then Folded(z, t).0 else t;
      z.Known(u) && (TypeAt(z, u) == 0 <==> dst)
    ensures var off := if dst then r.dstoffset else r.stdoffset;
      var shown := LocalSubSpec(z, t, was);
      && (shown.ok ==> shown.tm == Civil(t - off).(isdst := if dst then 1 else 0))
      && (shown.ok <==>
           if z.Outside(t) then Fits(Folded(z, t).0, -off) && IsInt(Civil(t - off).year) else Fits(t, -off))
  {
    hide LocalSubSpec, Folded, Fits, TypeAt;
    if z.Outside(t) {
      FoldingSound(z, t, was);
    } else {
      InsideShown(z, t, was);
    }
  }

  lemma InsideShown(z: Zone, t: int, was: Tm)
    requires z.Valid() && z.Known(t) && !z.Outside(t) && z.lsis == []
    ensures var tt, r := z.ttis[TypeAt(z, t)], LocalSubSpec(z, t, was);
      (r.ok <==> Fits(t, tt.gmtoff)) && (r.ok ==> r.tm == Civil(t + tt.gmtoff).(isdst := tt.isdst))
  {
    DirectWithoutLeaps(z, t, was);
    hide TypeAt, DirectSpec, Fits;
  }

  /** With 64 bits the table has 600 years, and holds all their instants. */
  lemma WideTable(r: Rules, n: nat)
    requires r.Valid() && n == 600 && ScheduleOf(r, n).InsideYears()
    ensures Spans(n, WIDE_TIME) && ScheduleOf(r, n).Held(WIDE_TIME)
  {
    forall i: nat | i <= n
      ensures 0 <= FirstOf(i) && WIDE_TIME.Has(FirstOf(i))
    {
      YearsAscend(0, i);
      YearsAscend(i, n);
      DaysToClosed(EPOCH_YEAR + n);
    }
    var s := ScheduleOf(r, n);
    assert forall i: nat :: i <= n ==> s.firsts[i] == FirstOf(i);
    hide ScheduleOf, FirstOf;
    forall i | 0 <= i < n
      ensures WIDE_TIME.Has(s.starts[i]) && WIDE_TIME.Has(s.ends[i])
    {
      assert s.firsts[i] <= s.starts[i] < s.firsts[i + 1] && s.firsts[i] <= s.ends[i] < s.firsts[i + 1];
      assert WIDE_TIME.Has(FirstOf(i)) && WIDE_TIME.Has(FirstOf(i + 1));
    }
  }
}
