/** `timegm` and `timeoff`: what the two passes of `time2` compute for UTC at a fixed offset
  * without leap seconds, and how far that is the inverse of `gmtsub`. */
module TimeGm {
  import opened CInts
  import opened Calendar
  import opened TimeConversion
  import opened LeapSeconds
  import opened LocalTime
  import opened Normalization
  import opened MakeTime
  import opened TypeGuessing

  /** The instant that the fields `f` stand for at offset `o`. */
  function Wanted(f: Tm, o: int): int {
    LinearInstant(f) - o
  }

  /** The fields can be normalised and their time can be held and shown. */
  ghost predicate Representable(f: Tm, o: int, tt: TimeT) {
    CanNormalize(f, true) && tt.Has(Wanted(f, o)) && Fits(Wanted(f, o), o)
  }

  /** `timeoff`, and `timegm` when the offset is zero.  A failing call returns -1.  With inserted
    * seconds the fields shown for a time lead back to that time. */
  method TimeOff(tmp: StructTm, c: Converter, tt: TimeT) returns (okay: bool, t: int)
    requires c.Valid() && c.Gmt? && NoDst(c.zone) && tt.Valid() && AllInts(tmp.Value())
    modifies tmp
    ensures PlainUtc(c) ==>
      var r := Time2Outcome(old(tmp.Value()).(isdst := 0), c.offset, tt);
      okay == r.ok && tmp.Value() == r.tm && t == if okay then r.t else -1
    ensures LeapUtc(c) ==> forall x :: Asks(c, tt, old(tmp.Value()).(isdst := 0), x) ==>
      okay && t == x && tmp.Value() == Shown(c, x).tm
  {
    hide Shown, LeapUtc, Asks, UtcOutcome;
    tmp.isdst := 0;
    okay, t := Time1(tmp, c, tt);
  }

  /** The fields that `gmtsub` shows for a time ask for that time, also when it is an inserted
    * second: so the call above inverts `gmtsub` on them.  The seconds that are set aside have to
    * leave a time that can be shown as well; for regular times none are. */
  lemma ShownAsks(c: Converter, tt: TimeT, x: int)
    requires c.Valid() && LeapUtc(c) && tt.Has(x) && Shown(c, x).ok
    requires var f := Shown(c, x).tm;
      f.sec >= 60 ==> tt.Has(x - Saved(f)) && Shown(c, x - Saved(f)).ok
    ensures Asks(c, tt, Shown(c, x).tm, x) && Shown(c, x).tm.isdst == 0
  {
    hide Shown, LeapUtc, Saved, TmComp;
    ShownFields(c, x);
  }

  lemma ShownFields(c: Converter, x: int)
    requires c.Valid() && LeapUtc(c) && Shown(c, x).ok
    ensures var f := Shown(c, x).tm;
      f.isdst == 0 && TmComp(f, f) == 0 && (f.sec < 60 ==> Saved(f) == 0)
  {
    LeapShown(c, x);
    FieldRanges(x, c.offset, c.zone.lsis);
    hide Shown, Fits, InsertsAtMinuteEnds;
  }

  /** One pass is right whenever it succeeds. */
  lemma PassSound(f: Tm, o: int, tt: TimeT, normSecs: bool)
    ensures var r := UtcOutcome(f, o, tt, normSecs);
      r.ok ==> r.t == Wanted(f, o) && tt.Has(r.t) && Fits(r.t, o) && r.tm == Civil(r.t + o)
  {
    hide YearOfDay, LinearInstant, CanNormalize, BrokenDown, SavedOf;
    NoLeapSeconds(Wanted(f, o), o);
  }

  /** The second pass succeeds on every representable request. */
  lemma PassComplete(f: Tm, o: int, tt: TimeT)
    requires Representable(f, o, tt) && f.isdst <= 0
    ensures UtcOutcome(f, o, tt, true).ok
  {
  }

  /** A successful call leaves the canonical fields of the time that it returns. */
  lemma ResultIsCanonical(f: Tm, o: int, tt: TimeT)
    ensures var r := Time2Outcome(f, o, tt);
      r.ok ==> tt.Has(r.t) && Denotes(r.tm, r.t + o)
  {
    PassSound(f, o, tt, false);
    PassSound(UtcOutcome(f, o, tt, false).tm, o, tt, true);
  }

  /** Whatever the ranges of the fields: if the instant they stand for is representable, the call
    * terminates with exactly that instant and its canonical fields. */
  lemma Complete(f: Tm, o: int, tt: TimeT)
    requires Representable(f, o, tt) && f.isdst <= 0
    ensures Time2Outcome(f, o, tt) == Outcome(true, Wanted(f, o), Civil(Wanted(f, o) + o))
  {
    hide UtcOutcome, Clobbered, Wanted, Fits, Overwritten, CanNormalize;
    FirstPass(f, o, tt);
    NotClobbered(f, o, tt);
    PassSound(f, o, tt, false);
    PassSound(f, o, tt, true);
    PassComplete(f, o, tt);
    hide Representable;
  }

  /** The day that the carries lead to is the day of the instant. */
  lemma CarriedDayIs(f: Tm)
    ensures LinearInstant(f) / SECSPERDAY == CarriedDay(f, true)
  {
    hide LinearDay;
    var min := f.min + f.sec / SECSPERMIN;
    var hour := f.hour + min / MINSPERHOUR;
    DivideByRounds(LinearInstant(f), SECSPERDAY, CarriedDay(f, true));
  }

  lemma YearFits(x: int)
    requires INT_MIN + TM_YEAR_BASE <= YearOfDay(x / SECSPERDAY) <= INT_MAX
    ensures Fits(x, 0)
  {
    hide YearOfDay;
    var day := TruncDiv(x, SECSPERDAY);
    if x >= 0 {
      assert day == x / SECSPERDAY;
    } else {
      assert x / SECSPERDAY <= day <= 0;
      YearOfDayMonotone(x / SECSPERDAY, day);
      YearOfDayMonotone(day, 0);
      NearEpoch();
    }
  }

  /** For `timegm`: if no carry of the full normalisation overflows and the instant is a value of
    * `time_t`, the call succeeds with exactly that instant and its canonical fields. */
  lemma CompleteUtc(f: Tm, tt: TimeT)
    requires CanNormalize(f, true) && tt.Has(LinearInstant(f)) && f.isdst <= 0
    ensures Time2Outcome(f, 0, tt) == Outcome(true, LinearInstant(f), Civil(LinearInstant(f)))
  {
    CarriedDayIs(f);
    assert INT_MIN + TM_YEAR_BASE <= YearOfDay(LinearInstant(f) / SECSPERDAY) <= INT_MAX;
    YearFits(LinearInstant(f));
    hide LinearInstant, CanNormalize, Fits, UtcOutcome;
    Complete(f, 0, tt);
  }

  lemma NotClobbered(f: Tm, o: int, tt: TimeT)
    requires Representable(f, o, tt)
    ensures !Clobbered(f, o, tt)
  {
    hide YearOfDay, LinearInstant, CanNormalize, SavedOf;
  }

  /** `timegm` inverts `gmtsub` on every time that can be shown. */
  lemma RoundTrip(x: int, o: int, tt: TimeT)
    requires tt.Has(x) && Fits(x, o)
    ensures Time2Outcome(Civil(x + o), o, tt) == Outcome(true, x, Civil(x + o))
  {
    CivilRepresentable(x, o, tt);
    Complete(Civil(x + o), o, tt);
  }

  lemma CivilRepresentable(x: int, o: int, tt: TimeT)
    requires tt.Has(x) && Fits(x, o)
    ensures Representable(Civil(x + o), o, tt) && Wanted(Civil(x + o), o) == x
  {
    CanonicalIsNormal(Civil(x + o), x + o);
  }

  lemma CanonicalIsNormal(f: Tm, x: int)
    requires Denotes(f, x) && INT_MIN + TM_YEAR_BASE <= YearOfDay(x / SECSPERDAY) <= INT_MAX
    ensures LinearInstant(f) == x && CanNormalize(f, true)
  {
    CanonicalDay(f, x);
    DateIsNormal(f);
    DateInYear(f);
    hide DaysTo, MonthStart, MonLength, IsLeap, YearOfDay, LinearDay, LinearInstant, DayNumber, CarriedDay;
    YearUnique(DayNumber(f), f.year + TM_YEAR_BASE, YearOfDay(x / SECSPERDAY));
  }

  lemma CanonicalDay(f: Tm, x: int)
    requires Denotes(f, x)
    ensures CarriedDay(f, true) == DayNumber(f) == x / SECSPERDAY
  {
    hide DaysTo, MonthStart, MonLength, IsLeap, YearOfDay;
    DivideByRounds(x, SECSPERDAY, DayNumber(f));
  }

  /** The first pass finds a time for the fields with their seconds set aside, cannot convert the
    * time with the seconds added back, and has by then overwritten the year of the request. */
  ghost predicate Clobbered(f: Tm, o: int, tt: TimeT) {
    var x := Wanted(f, o);
    var y := YearOfDay((x + o) / SECSPERDAY);
    && CanNormalize(f, false) && IsInt(SavedOf(f, false)) && f.isdst <= 0
    && tt.Has(x - SavedOf(f, false)) && Fits(x - SavedOf(f, false), o) && tt.Has(x)
    && IsInt(YearOfDay(TruncDiv(x, SECSPERDAY))) && INT_MIN <= y < INT_MIN + TM_YEAR_BASE
  }

  /** The request that the second pass then works on. */
  function Overwritten(f: Tm, o: int): Tm {
    f.(year := YearOfDay((Wanted(f, o) + o) / SECSPERDAY))
  }

  /** What the first pass does when it fails: it overwrites the year, or nothing. */
  lemma FirstPass(f: Tm, o: int, tt: TimeT)
    requires f.isdst <= 0
    ensures var r := UtcOutcome(f, o, tt, false);
      if Clobbered(f, o, tt) then !r.ok && r.tm == Overwritten(f, o) else r.ok || r.tm == f
  {
    hide YearOfDay, LinearInstant, CanNormalize, BrokenDown, CarriedDay;
    NoLeapSeconds(Wanted(f, o), o);
  }

  lemma OkRepresentable(f: Tm, o: int, tt: TimeT)
    requires UtcOutcome(f, o, tt, true).ok
    ensures Representable(f, o, tt)
  {
    NoLeapSeconds(Wanted(f, o), o);
  }

  /** The overwritten request asks for another instant. */
  lemma OverwrittenWrong(f: Tm, o: int, tt: TimeT)
    requires Clobbered(f, o, tt) && Representable(Overwritten(f, o), o, tt)
    ensures Wanted(Overwritten(f, o), o) != Wanted(f, o)
  {
    hide YearOfDay, LinearInstant, CanNormalize, SavedOf;
  }

  /** A reported success is the instant of the requested fields, except exactly when the first
    * pass has overwritten the year and the overwritten request is representable. */
  lemma SoundUnlessClobbered(f: Tm, o: int, tt: TimeT)
    requires f.isdst <= 0
    ensures var r := Time2Outcome(f, o, tt);
      (r.ok ==> r.t == Wanted(f, o)) <==> !(Clobbered(f, o, tt) && Representable(Overwritten(f, o), o, tt))
  {
    var g := Overwritten(f, o);
    FirstPass(f, o, tt);
    PassSound(f, o, tt, false);
    PassSound(f, o, tt, true);
    PassSound(g, o, tt, true);
    if Representable(g, o, tt) {
      PassComplete(g, o, tt);
      if Clobbered(f, o, tt) {
        OverwrittenWrong(f, o, tt);
      }
    }
    if UtcOutcome(g, o, tt, true).ok {
      OkRepresentable(g, o, tt);
    }
    hide UtcOutcome, Clobbered, Representable, Wanted, Fits;
  }

  /** With a `time_t` all of whose times can be shown, success is always right. */
  lemma SoundWhenAllShown(f: Tm, o: int, tt: TimeT)
    requires f.isdst <= 0 && forall t :: tt.Has(t) ==> Fits(t, o)
    ensures var r := Time2Outcome(f, o, tt);
      r.ok ==> r.t == Wanted(f, o) && Denotes(r.tm, r.t + o)
  {
    SoundUnlessClobbered(f, o, tt);
    ResultIsCanonical(f, o, tt);
    ShownNotClobbered(f, o, tt);
    hide Time2Outcome, Clobbered, Overwritten, Representable, Denotes, Fits, Wanted;
  }

  lemma ShownNotClobbered(f: Tm, o: int, tt: TimeT)
    requires forall t :: tt.Has(t) ==> Fits(t, o)
    ensures !Clobbered(f, o, tt)
  {
    assert tt.Has(Wanted(f, o)) ==> Fits(Wanted(f, o), o);
    hide YearOfDay, Wanted, CanNormalize, SavedOf;
  }

  /** The days next to the start of year `y` are in year `y` or the year before. */
  lemma YearAtNewYear(y: int, day: int)
    requires DaysTo(y) - 1 <= day <= DaysTo(y) + 1
    ensures YearOfDay(day) == if day < DaysTo(y) then y - 1 else y
  {
    DaysToStep(y - 1);
    DaysToStep(y);
    hide DaysTo, IsLeap, YearOfDay;
    YearUnique(day, if day < DaysTo(y) then y - 1 else y, YearOfDay(day));
  }

  /** The time `d` seconds from the start of year `y`, within the day on either side, is shown in
    * year `y` or the year before. */
  lemma AroundNewYear(y: int, d: int)
    requires -SECSPERDAY <= d < SECSPERDAY
    ensures var x := DaysTo(y) * SECSPERDAY + d;
      && YearOfDay(x / SECSPERDAY) == (if d < 0 then y - 1 else y)
      && y - 1 <= YearOfDay(TruncDiv(x, SECSPERDAY)) <= y
  {
    hide *;
    var x := DaysTo(y) * SECSPERDAY + d;
    DayNextTo(DaysTo(y), d);
    YearAtNewYear(y, x / SECSPERDAY);
    YearAtNewYear(y, TruncDiv(x, SECSPERDAY));
  }

  lemma DayNextTo(n: int, d: int)
    requires -SECSPERDAY <= d < SECSPERDAY
    ensures var x := n * SECSPERDAY + d;
      && x / SECSPERDAY == (if d < 0 then n - 1 else n)
      && n - 1 <= TruncDiv(x, SECSPERDAY) <= n + 1
  {
    DivideByRounds(n * SECSPERDAY + d, SECSPERDAY, if d < 0 then n - 1 else n);
  }

  lemma SecondRequest(first: int)
    requires first == INT_MIN + TM_YEAR_BASE
    ensures Representable(Tm(-5, 0, 0, 1, 0, first - 1, 0, 0, 0), 0, WIDE_TIME)
  {
    var second := Tm(-5, 0, 0, 1, 0, first - 1, 0, 0, 0);
    DaysToMonotone(first + 1899, EPOCH_YEAR);
    assert LinearDay(second) == DaysTo(first + 1899);
    AroundNewYear(first + 1899, -5);
    assert CarriedDay(second, true) == DaysTo(first + 1899) - 1;
  }

  lemma FirstNormalized(first: int, f: Tm)
    requires first == INT_MIN + TM_YEAR_BASE && f == Tm(-5, 0, 0, 1, 0, first - TM_YEAR_BASE, 0, 0, 0)
    ensures LinearDay(f) == CarriedDay(f, false) == DaysTo(first) && NormalYear(f, false) == first
    ensures Wanted(f, 0) == DaysTo(first) * SECSPERDAY - 5
    ensures TimeCarriesFit(f, false) && DateCarriesFit(f) && SavedOf(f, false) == -64
  {
    FirstDay(first, f);
    YearAtNewYear(first, DaysTo(first));
    hide DaysTo, IsLeap, MonthStart, YearOfDay, LinearDay;
  }

  lemma FirstDay(first: int, f: Tm)
    requires f.mon == 0 && f.mday == 1 && f.year == first - TM_YEAR_BASE
    ensures LinearDay(f) == DaysTo(first)
  {
    hide DaysTo, IsLeap;
  }

  lemma FirstFits(first: int, x: int)
    requires first == INT_MIN + TM_YEAR_BASE && x == DaysTo(first) * SECSPERDAY - 5
    ensures Fits(x + 64, 0) && IsInt(YearOfDay(TruncDiv(x, SECSPERDAY))) && YearOfDay((x + 0) / SECSPERDAY) == first - 1
  {
    AroundNewYear(first, -5);
    AroundNewYear(first, 59);
    assert x + 64 == DaysTo(first) * SECSPERDAY + 59;
  }

  lemma FirstRequest(first: int, f: Tm)
    requires first == INT_MIN + TM_YEAR_BASE && f == Tm(-5, 0, 0, 1, 0, first - TM_YEAR_BASE, 0, 0, 0)
    ensures Clobbered(f, 0, WIDE_TIME) && Overwritten(f, 0) == f.(year := first - 1)
  {
    DaysToMonotone(first, EPOCH_YEAR);
    FirstNormalized(first, f);
    var x := Wanted(f, 0);
    FirstFits(first, x);
    assert x - SavedOf(f, false) == x + 64;
  }

  lemma RequestClobbers(first: int)
    requires first == INT_MIN + TM_YEAR_BASE
    ensures var f := Tm(-5, 0, 0, 1, 0, first - TM_YEAR_BASE, 0, 0, 0);
      var r := Time2Outcome(f, 0, WIDE_TIME);
      r.ok && r.t != Wanted(f, 0)
  {
    FirstRequest(first, Tm(-5, 0, 0, 1, 0, first - TM_YEAR_BASE, 0, 0, 0));
    SecondRequest(first);
    SoundUnlessClobbered(Tm(-5, 0, 0, 1, 0, first - TM_YEAR_BASE, 0, 0, 0), 0, WIDE_TIME);
  }

  /** Five seconds before the first year that a `struct tm` can hold. */
  const FIRST_REQUEST := Tm(-5, 0, 0, 1, 0, INT_MIN, 0, 0, 0)

  /** With a 64-bit `time_t` the exception happens: this request is answered with another time. */
  lemma WideTimeClobbers()
    ensures var r := Time2Outcome(FIRST_REQUEST, 0, WIDE_TIME);
      r.ok && r.t != Wanted(FIRST_REQUEST, 0)
  {
    hide Time2Outcome, Wanted;
    RequestClobbers(INT_MIN + TM_YEAR_BASE);
  }
}
