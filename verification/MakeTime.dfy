/** `time2sub` and `time2`: the inverse conversion, by normalisation and a binary search
  * over all values of `time_t`. */
module MakeTime {
  import opened CInts
  import opened Calendar
  import opened TimeConversion
  import opened LeapSeconds
  import opened LocalTime
  import opened Normalization

  const TZ_MAX_LEAPS := 50

  /** The function that is inverted, with the state that it reads. */
  datatype Converter = Gmt(zone: Zone, offset: int) | Local(zone: Zone)
  {
    ghost predicate Valid() {
      && zone.Valid() && zone.defaulttype < |zone.ttis| && |zone.lsis| <= TZ_MAX_LEAPS
      && (forall x :: Readable(zone.lsis, x))
      && (Gmt? ==> IsInt(offset))
    }
  }

  ghost function ConvertSpec(c: Converter, t: int, was: Tm): Filled
    requires c.Valid()
  {
    match c
    case Gmt(z, offset) => TimeSubSpec(t, offset, z.lsis, was)
    case Local(z) => LocalSubSpec(z, t, was)
  }

  /** The call through the function pointer: `gmtsub` or `localsub`. */
  method Convert(c: Converter, t: int, tmp: StructTm) returns (ok: bool)
    requires c.Valid()
    modifies tmp
    ensures Filled(ok, tmp.Value()) == ConvertSpec(c, t, old(tmp.Value()))
  {
    match c
    case Gmt(z, offset) => ok := TimeSub(t, offset, z.lsis, tmp);
    case Local(z) => ok := LocalSub(z, t, tmp);
  }

  const BLANK := Tm(0, 0, 0, 0, 0, 0, 0, 0, 0)

  /** What the conversion of `t` shows; on success it does not depend on the structure filled in. */
  ghost function Shown(c: Converter, t: int): Filled
    requires c.Valid()
  {
    ConvertSpec(c, t, BLANK)
  }

  lemma ShownAlways(c: Converter, t: int, was: Tm)
    requires c.Valid()
    ensures var r := ConvertSpec(c, t, was);
      r.ok == Shown(c, t).ok && (r.ok ==> r.tm == Shown(c, t).tm)
  {
  }

  /** The direction of the search at `t`: positive means too late.  A time that cannot be converted
    * is taken to be too extreme. */
  ghost function Dir(c: Converter, your: Tm, t: int): int
    requires c.Valid()
  {
    if Shown(c, t).ok then TmComp(Shown(c, t).tm, your) else if t > 0 then 1 else -1
  }

  ghost predicate Matches(c: Converter, your: Tm, t: int)
    requires c.Valid()
  {
    && Shown(c, t).ok && TmComp(Shown(c, t).tm, your) == 0
    && (your.isdst < 0 || Shown(c, t).tm.isdst == your.isdst)
  }

  /** The directions lead to `goal` from everywhere. */
  ghost predicate Guides(c: Converter, your: Tm, tt: TimeT, goal: int)
    requires c.Valid()
  {
    && tt.Has(goal)
    && forall t :: tt.Has(t) ==>
      (Dir(c, your, t) < 0 <==> t < goal) && (Dir(c, your, t) > 0 <==> goal < t)
  }

  /** At `t` the direction does not step over 0 on the way to the next second. */
  ghost predicate StepsOnto(c: Converter, your: Tm, t: int)
    requires c.Valid()
  {
    Dir(c, your, t) < 0 ==> Dir(c, your, t + 1) <= 0
  }

  /** Between the ends of `time_t` the directions go from too early to too late, and never step over
    * the fields on the way up. */
  ghost predicate Climbs(c: Converter, your: Tm, tt: TimeT)
    requires c.Valid()
  {
    && Dir(c, your, tt.lo) <= 0 <= Dir(c, your, tt.hi)
    && forall t :: tt.lo <= t < tt.hi ==> StepsOnto(c, your, t)
  }

  /** The time at which the fields shown at `t` under type `j` are shown under type `i`. */
  function Candidate(z: Zone, tt: TimeT, t: int, i: nat, j: nat): int
    requires tt.Valid() && i < |z.ttis| && j < |z.ttis|
  {
    tt.Wrap(t + z.ttis[j].gmtoff - z.ttis[i].gmtoff)
  }

  /** Type `i` is of the wanted kind, type `j` of the other, and the time that they make of `t` shows
    * the fields with the wanted kind. */
  ghost predicate Hits(c: Converter, your: Tm, tt: TimeT, t: int, i: int, j: int)
    requires c.Valid() && tt.Valid()
  {
    && 0 <= i < |c.zone.ttis| && 0 <= j < |c.zone.ttis|
    && c.zone.ttis[i].isdst == your.isdst && c.zone.ttis[j].isdst != your.isdst
    && var newt := Candidate(c.zone, tt, t, i, j);
       Matches(c, your, newt) && Shown(c, newt).tm.isdst == your.isdst
  }

  ghost predicate CanHunt(c: Converter, your: Tm, tt: TimeT, t: int)
    requires c.Valid() && tt.Valid()
  {
    exists i, j :: Hits(c, your, tt, t, i, j)
  }

  /** `newt` is what the first of the pairs that hit makes of `t`. */
  ghost predicate FirstHit(c: Converter, your: Tm, tt: TimeT, t: int, newt: int)
    requires c.Valid() && tt.Valid()
  {
    exists i, j :: Hits(c, your, tt, t, i, j) && newt == Candidate(c.zone, tt, t, i, j)
      && forall k, l :: k > i || (k == i && l > j) ==> !Hits(c, your, tt, t, k, l)
  }

  /** The search cannot miss: it is led to the fields, and wherever it meets them it has the right
    * kind of daylight saving or can hunt for it. */
  ghost predicate Sure(c: Converter, your: Tm, tt: TimeT)
    requires c.Valid() && tt.Valid()
  {
    && Climbs(c, your, tt)
    && forall t :: tt.Has(t) && Dir(c, your, t) == 0 ==> Takes(c, your, tt, t)
  }

  /** The search for the right time with the right kind of daylight saving: it tries all pairs of
    * types, the last ones first. */
  method HuntType(c: Converter, your: Tm, tt: TimeT, t: int, mytm: StructTm) returns (found: bool, newt: int)
    requires c.Valid() && tt.Valid()
    modifies mytm
    ensures found ==> tt.Has(newt) && Matches(c, your, newt)
    ensures found <==> CanHunt(c, your, tt, t)
    ensures found ==> FirstHit(c, your, tt, t, newt)
  {
    hide ConvertSpec, TmComp, TimeT.Wrap;
    var sp := c.zone;
    newt := t;
    var i := |sp.ttis| - 1;
    while i >= 0
      invariant -1 <= i < |sp.ttis|
      invariant forall k, l :: k > i ==> !Hits(c, your, tt, t, k, l)
    {
      if sp.ttis[i].isdst == your.isdst {
        var j := |sp.ttis| - 1;
        while j >= 0
          invariant -1 <= j < |sp.ttis|
          invariant forall l :: l > j ==> !Hits(c, your, tt, t, i, l)
        {
          if sp.ttis[j].isdst != your.isdst {
            newt := tt.Wrap(t + sp.ttis[j].gmtoff - sp.ttis[i].gmtoff);
            WrapHas(tt, t + sp.ttis[j].gmtoff - sp.ttis[i].gmtoff);
            ShownAlways(c, newt, mytm.Value());
            var ok := Convert(c, newt, mytm);
            assert newt == Candidate(sp, tt, t, i, j);
            if ok && TmComp(mytm.Value(), your) == 0 && mytm.isdst == your.isdst {
              assert Hits(c, your, tt, t, i, j);
              return true, newt;
            }
          }
          j := j - 1;
        }
      }
      i := i - 1;
    }
    found := false;
  }

  lemma WrapHas(tt: TimeT, x: int)
    requires tt.Valid()
    ensures tt.Has(tt.Wrap(x))
  {
  }

  /** Where the search meets the fields, if it does. */
  datatype Meeting = Met(t: int) | Missed

  /** The time that the search tries between `lo` and `hi`. */
  function Middle(lo: int, hi: int): (t: int)
    requires lo <= hi
    ensures lo <= t <= hi
  {
    var t := TruncDiv(lo, 2) + TruncDiv(hi, 2);
    if t < lo then lo else if t > hi then hi else t
  }

  /** The search between `lo` and `hi`. */
  ghost function Meets(c: Converter, your: Tm, lo: int, hi: int): Meeting
    requires c.Valid() && lo <= hi
    decreases hi - lo
  {
    var t := Middle(lo, hi);
    var dir := Dir(c, your, t);
    if dir == 0 then Met(t)
    else if lo == hi then Missed
    else var (low, high) := Narrowed(lo, hi, t, dir); Meets(c, your, low, high)
  }

  /** The bounds after a try at `t` that went past the fields or fell short of them. */
  function Narrowed(lo: int, hi: int, t: int, dir: int): (r: (int, int))
    requires lo <= t <= hi && lo < hi
    ensures lo <= r.0 <= r.1 <= hi && r.1 - r.0 < hi - lo
  {
    if t == lo then (lo + 1, if dir > 0 then lo + 1 else hi)
    else if t == hi then (if dir > 0 then lo else hi - 1, hi - 1)
    else if dir > 0 then (lo, t)
    else (t, hi)
  }

  lemma MeetsStep(c: Converter, your: Tm, lo: int, hi: int)
    requires c.Valid() && lo <= hi
    ensures var t := Middle(lo, hi);
      if Dir(c, your, t) == 0 then Meets(c, your, lo, hi) == Met(t)
      else if lo == hi then Meets(c, your, lo, hi) == Missed
      else
        var (low, high) := Narrowed(lo, hi, t, Dir(c, your, t));
        Meets(c, your, lo, hi) == Meets(c, your, low, high)
  {
    hide Dir, Middle, Narrowed;
  }

  /** It only meets times in between that show the fields. */
  lemma {:induction false} MetBetween(c: Converter, your: Tm, lo: int, hi: int)
    requires c.Valid() && lo <= hi
    ensures var m := Meets(c, your, lo, hi);
      m.Met? ==> lo <= m.t <= hi && Dir(c, your, m.t) == 0
    decreases hi - lo
  {
    hide Dir, Meets, Middle, Narrowed;
    MeetsStep(c, your, lo, hi);
    var t := Middle(lo, hi);
    if Dir(c, your, t) != 0 && lo < hi {
      var (low, high) := Narrowed(lo, hi, t, Dir(c, your, t));
      MetBetween(c, your, low, high);
    }
  }

  /** Where the directions climb, the search meets the fields. */
  lemma {:induction false} ClimbsMeets(c: Converter, your: Tm, tt: TimeT, lo: int, hi: int)
    requires c.Valid() && Climbs(c, your, tt) && tt.lo <= lo <= hi <= tt.hi
    requires Dir(c, your, lo) <= 0 <= Dir(c, your, hi)
    ensures Meets(c, your, lo, hi).Met?
    decreases hi - lo
  {
    hide Dir, Meets, Middle, Climbs;
    MeetsStep(c, your, lo, hi);
    var t := Middle(lo, hi);
    if Dir(c, your, t) != 0 && lo < hi {
      var (low, high) := Narrowed(lo, hi, t, Dir(c, your, t));
      NextSteps(c, your, tt, t);
      ClimbsMeets(c, your, tt, low, high);
    }
  }

  /** When they lead to a goal from everywhere, it meets the goal. */
  lemma GuidesMeets(c: Converter, your: Tm, tt: TimeT, goal: int)
    requires c.Valid() && tt.Valid() && Guides(c, your, tt, goal)
    ensures Meets(c, your, tt.lo, tt.hi) == Met(goal)
  {
    GuidesClimbs(c, your, tt, goal);
    ClimbsMeets(c, your, tt, tt.lo, tt.hi);
    MetBetween(c, your, tt.lo, tt.hi);
    hide Dir, Meets;
  }

  lemma GuidesClimbs(c: Converter, your: Tm, tt: TimeT, goal: int)
    requires c.Valid() && tt.Valid() && Guides(c, your, tt, goal)
    ensures Climbs(c, your, tt)
  {
    hide Dir;
  }

  /** What the search finds. */
  ghost predicate Searched(c: Converter, your: Tm, tt: TimeT, found: bool, t: int)
    requires c.Valid() && tt.Valid()
  {
    var m := Meets(c, your, tt.lo, tt.hi);
    && (found <==> m.Met? && Takes(c, your, tt, m.t))
    && (found ==> tt.Has(t) && Matches(c, your, t))
    && (found ==> if Matches(c, your, m.t) then t == m.t else FirstHit(c, your, tt, m.t, t))
  }

  /** So it finds the goal whenever the directions lead to one that has the right kind of daylight
    * saving, and something whenever it cannot miss. */
  lemma SearchFinds(c: Converter, your: Tm, tt: TimeT, found: bool, t: int)
    requires c.Valid() && tt.Valid() && Searched(c, your, tt, found, t)
    ensures forall goal :: Guides(c, your, tt, goal) && Matches(c, your, goal) ==> found && t == goal
    ensures Sure(c, your, tt) ==> found
  {
    forall goal | Guides(c, your, tt, goal) && Matches(c, your, goal)
      ensures found && t == goal
    {
      GuidesMeets(c, your, tt, goal);
      hide Meets, Guides, Matches, CanHunt, FirstHit;
    }
    if Sure(c, your, tt) {
      ClimbsMeets(c, your, tt, tt.lo, tt.hi);
      MetBetween(c, your, tt.lo, tt.hi);
      hide Meets, Dir, Takes, Matches, FirstHit;
    }
  }

  /** The binary search.  It always terminates, and what it finds shows the wanted fields. */
  method Search(c: Converter, your: Tm, tt: TimeT, mytm: StructTm) returns (found: bool, t: int)
    requires c.Valid() && tt.Valid()
    modifies mytm
    ensures found ==> tt.Has(t) && Matches(c, your, t)
    ensures Searched(c, your, tt, found, t)
  {
    hide ConvertSpec, TmComp, CanHunt, FirstHit, Dir, Meets, Matches;
    var lo, hi := tt.lo, tt.hi;
    while true
      invariant tt.lo <= lo <= hi <= tt.hi
      invariant Meets(c, your, lo, hi) == Meets(c, your, tt.lo, tt.hi)
      decreases hi - lo
    {
      t := TruncDiv(lo, 2) + TruncDiv(hi, 2);
      if t < lo {
        t := lo;
      } else if t > hi {
        t := hi;
      }
      ShownAlways(c, t, mytm.Value());
      var ok := Convert(c, t, mytm);
      var dir := if !ok then (if t > 0 then 1 else -1) else TmComp(mytm.Value(), your);
      DirIs(c, your, t);
      MeetsStep(c, your, lo, hi);
      assert t == Middle(lo, hi) && dir == Dir(c, your, t);
      if dir != 0 {
        if t == lo {
          if t == tt.hi {
            return false, t;
          }
          t := t + 1;
          lo := lo + 1;
        } else if t == hi {
          if t == tt.lo {
            return false, t;
          }
          t := t - 1;
          hi := hi - 1;
        }
        if lo > hi {
          return false, t;
        }
        if dir > 0 {
          hi := t;
        } else {
          lo := t;
        }
      } else if your.isdst < 0 || mytm.isdst == your.isdst {
        return true, t;
      } else {
        found, t := HuntType(c, your, tt, t, mytm);
        return;
      }
    }
  }

  /** The search is content with `t`, where it meets the fields, or finds another time from there. */
  ghost predicate Takes(c: Converter, your: Tm, tt: TimeT, t: int)
    requires c.Valid() && tt.Valid()
  {
    Matches(c, your, t) || CanHunt(c, your, tt, t)
  }

  lemma DirIs(c: Converter, your: Tm, t: int)
    requires c.Valid()
    ensures Dir(c, your, t) == if Shown(c, t).ok then TmComp(Shown(c, t).tm, your) else if t > 0 then 1 else -1
    ensures Dir(c, your, t) == 0 ==> (Matches(c, your, t) <==> your.isdst < 0 || Shown(c, t).tm.isdst == your.isdst)
  {
  }

  lemma NextSteps(c: Converter, your: Tm, tt: TimeT, t: int)
    requires c.Valid() && tt.Has(t)
    ensures Climbs(c, your, tt) && t < tt.hi ==> StepsOnto(c, your, t)
    ensures Climbs(c, your, tt) && tt.lo < t ==> StepsOnto(c, your, t - 1)
  {
  }

  /** A search that is guided to a match cannot miss. */
  lemma GuidedIsSure(c: Converter, your: Tm, tt: TimeT, goal: int)
    requires c.Valid() && tt.Valid() && Guides(c, your, tt, goal) && Matches(c, your, goal)
    ensures Sure(c, your, tt)
  {
    hide CanHunt, Shown;
  }

  /** The seconds set aside before the search, when they are out of range. */
  function Saved(n: Tm): int {
    if 0 <= n.sec < SECSPERMIN then 0
    else if n.year + TM_YEAR_BASE < EPOCH_YEAR then n.sec - 59
    else n.sec
  }

  /** The fields that are searched for. */
  function Target(n: Tm): Tm {
    n.(sec := n.sec - Saved(n))
  }

  method SetSecondsAside(n: Tm) returns (ok: bool, your: Tm, saved: int)
    requires IsInt(n.sec)
    ensures ok <==> IsInt(Saved(n))
    ensures ok ==> your == Target(n) && saved == Saved(n) && 0 <= your.sec < 60
  {
    your, saved := n, 0;
    if 0 <= n.sec < SECSPERMIN {
      return true, your, 0;
    }
    if n.year + TM_YEAR_BASE < EPOCH_YEAR {
      var overflow, sec := IncrementOverflow(n.sec, 1 - SECSPERMIN);
      return !overflow, n.(sec := SECSPERMIN - 1), sec;
    }
    return true, n.(sec := 0), n.sec;
  }

  /** `t` is what the search for `f` leads to: some normal form of `f`, up to the seconds set aside,
    * is what the conversion shows, with the wanted kind of daylight saving. */
  ghost predicate Sought(c: Converter, tt: TimeT, f: Tm, normSecs: bool, t: int)
    requires c.Valid()
  {
    && tt.Has(t)
    && exists n :: IsNormalForm(n, f, normSecs) && tt.Has(t - Saved(n)) && Matches(c, Target(n), t - Saved(n))
  }

  /** `t` answers the request `f`: it is sought and can itself be shown. */
  ghost predicate Answers(c: Converter, tt: TimeT, f: Tm, normSecs: bool, t: int)
    requires c.Valid()
  {
    Sought(c, tt, f, normSecs, t) && Shown(c, t).ok
  }

  /** The request `f` can be normalised, the search for it cannot miss, and whatever it finds can be
    * shown with the seconds set aside added back. */
  ghost predicate Solvable(c: Converter, tt: TimeT, f: Tm, normSecs: bool)
    requires c.Valid() && tt.Valid()
  {
    && CanNormalize(f, normSecs) && IsInt(SavedOf(f, normSecs))
    && forall n :: IsNormalForm(n, f, normSecs) ==> SureAnswer(c, tt, n)
  }

  ghost predicate SureAnswer(c: Converter, tt: TimeT, n: Tm)
    requires c.Valid() && tt.Valid()
  {
    && Sure(c, Target(n), tt)
    && forall b :: tt.Has(b) && Matches(c, Target(n), b) ==> tt.Has(b + Saved(n)) && Shown(c, b + Saved(n)).ok
  }

  /** What a failing pass leaves of the request `f`: all of it, unless the final conversion of the
    * time that was sought has failed and left its marks. */
  ghost predicate LeftBehind(c: Converter, tt: TimeT, f: Tm, normSecs: bool, g: Tm)
    requires c.Valid()
  {
    g == f || exists x :: Sought(c, tt, f, normSecs, x) && !Shown(c, x).ok && g == ConvertSpec(c, x, f).tm
  }

  /** The outcome of an inverse conversion: success, the time, and the caller's structure. */
  datatype Outcome = Outcome(ok: bool, t: int, tm: Tm)

  /** The calendar year reached by the normalised fields. */
  function NormalYear(f: Tm, normSecs: bool): int {
    YearOfDay(CarriedDay(f, normSecs))
  }

  function SavedOf(f: Tm, normSecs: bool): int {
    Saved(f.(sec := if normSecs then f.sec % 60 else f.sec, year := NormalYear(f, normSecs) - TM_YEAR_BASE))
  }

  /** What `time2sub` does for UTC at a fixed offset and without leap seconds, in closed form. */
  ghost function UtcOutcome(f: Tm, offset: int, tt: TimeT, normSecs: bool): Outcome {
    var x := LinearInstant(f) - offset;
    var base := x - SavedOf(f, normSecs);
    if CanNormalize(f, normSecs) && IsInt(SavedOf(f, normSecs)) && f.isdst <= 0
       && tt.Has(base) && Fits(base, offset) && tt.Has(x)
    then var r := TimeSubSpec(x, offset, [], f); Outcome(r.ok, x, r.tm)
    else Outcome(false, 0, f)
  }

  ghost predicate PlainUtc(c: Converter) {
    c.Gmt? && c.zone.lsis == []
  }

  lemma UtcShown(c: Converter, t: int)
    requires c.Valid() && PlainUtc(c)
    ensures Shown(c, t).ok <==> Fits(t, c.offset)
    ensures Shown(c, t).ok ==> Shown(c, t).tm == Civil(t + c.offset)
  {
    NoLeapSeconds(t, c.offset);
  }

  lemma TruncDivMonotone(a: int, b: int, k: int)
    requires a <= b && k > 0
    ensures TruncDiv(a, k) <= TruncDiv(b, k)
  {
    if a >= 0 {
      DivMonotone(a, b, k);
    } else if b < 0 {
      DivMonotone(-b, -a, k);
    } else {
      DivMonotone(0, -a, k);
      DivMonotone(0, b, k);
    }
  }

  lemma DivMonotone(a: int, b: int, k: int)
    requires a <= b && k > 0
    ensures a / k <= b / k
  {
    if a / k > b / k {
      AtLeastOnce(a / k - b / k, k);
    }
  }

  /** Offsets and corrections are less than a century and a half. */
  predicate IsShift(d: int) {
    -0x1_0000_0000 <= d <= 0x1_0000_0000
  }

  lemma FitsBelow(t: int, d: int, goal: int, e: int)
    requires IsShift(d) && Fits(goal, e) && 0 < t <= goal && t + d <= goal + e
    ensures Fits(t, d)
  {
    TruncDivMonotone(0, t, SECSPERDAY);
    TruncDivMonotone(t, goal, SECSPERDAY);
    DivMonotone(-0x1_0000_0000, t + d, SECSPERDAY);
    DivMonotone(t + d, goal + e, SECSPERDAY);
    NearEpoch();
    YearOfDayMonotone(0, TruncDiv(t, SECSPERDAY));
    YearOfDayMonotone(TruncDiv(t, SECSPERDAY), TruncDiv(goal, SECSPERDAY));
    YearOfDayMonotone(-0x1_0000_0000 / SECSPERDAY, (t + d) / SECSPERDAY);
    YearOfDayMonotone((t + d) / SECSPERDAY, (goal + e) / SECSPERDAY);
  }

  lemma FitsAbove(t: int, d: int, goal: int, e: int)
    requires IsShift(d) && Fits(goal, e) && goal <= t <= 0 && goal + e <= t + d
    ensures Fits(t, d)
  {
    TruncDivMonotone(goal, t, SECSPERDAY);
    TruncDivMonotone(t, 0, SECSPERDAY);
    DivMonotone(goal + e, t + d, SECSPERDAY);
    DivMonotone(t + d, 0x1_0000_0000, SECSPERDAY);
    NearEpoch();
    YearOfDayMonotone(TruncDiv(goal, SECSPERDAY), TruncDiv(t, SECSPERDAY));
    YearOfDayMonotone(TruncDiv(t, SECSPERDAY), 0);
    YearOfDayMonotone((goal + e) / SECSPERDAY, (t + d) / SECSPERDAY);
    YearOfDayMonotone((t + d) / SECSPERDAY, 0x1_0000_0000 / SECSPERDAY);
  }

  /** A time too extreme for conversion lies beyond every time that can be converted, on the side
    * that the search assumes. */
  lemma ExtremesOutside(t: int, d: int, goal: int, e: int)
    requires IsShift(d) && Fits(goal, e) && !Fits(t, d)
    requires t <= goal ==> t + d <= goal + e
    requires goal <= t ==> goal + e <= t + d
    ensures if t > 0 then goal < t else t < goal
  {
    if 0 < t <= goal {
      FitsBelow(t, d, goal, e);
    } else if goal <= t <= 0 {
      FitsAbove(t, d, goal, e);
    }
  }

  lemma NearEpoch()
    ensures YearOfDay(0) == 1970
    ensures 1800 <= YearOfDay(-0x1_0000_0000 / SECSPERDAY) && YearOfDay(0x1_0000_0000 / SECSPERDAY) <= 2300
  {
    YearAgainstDay(1970, 0);
    YearAgainstDay(1971, 0);
    YearAgainstDay(1800, -0x1_0000_0000 / SECSPERDAY);
    DaysToMonotone(1800, 1970);
    YearAgainstDay(2301, 0x1_0000_0000 / SECSPERDAY);
    DaysToMonotone(1970, 2301);
  }

  /** Without leap seconds the search is guided to the wanted instant from everywhere. */
  lemma UtcGuides(c: Converter, tt: TimeT, your: Tm, goal: int)
    requires c.Valid() && PlainUtc(c) && tt.Has(goal) && Fits(goal, c.offset)
    requires IsCanonical(your) && Instant(your) == goal + c.offset
    ensures Guides(c, your, tt, goal)
  {
    forall t | tt.Has(t)
      ensures (Dir(c, your, t) < 0 <==> t < goal) && (Dir(c, your, t) > 0 <==> goal < t)
    {
      UtcShown(c, t);
      if Fits(t, c.offset) {
        FieldOrderIsTimeOrder(Civil(t + c.offset), your);
      } else {
        ExtremesOutside(t, c.offset, goal, c.offset);
      }
    }
  }

  /** What matches canonical fields in UTC is exactly their instant. */
  lemma UtcMatches(c: Converter, your: Tm, t: int)
    requires c.Valid() && PlainUtc(c) && IsCanonical(your)
    ensures Matches(c, your, t) <==> Fits(t, c.offset) && t + c.offset == Instant(your) && your.isdst <= 0
  {
    UtcShown(c, t);
    FieldOrderIsTimeOrder(Civil(t + c.offset), your);
  }

  /** The end of `time2sub` after a search that found `base`, or nothing. */
  ghost predicate Finished(c: Converter, tt: TimeT, f: Tm, found: bool, x: int, okay: bool, t: int, tm: Tm)
    requires c.Valid()
  {
    if found && tt.Has(x) then t == x && Filled(okay, tm) == ConvertSpec(c, x, f)
    else !okay && tm == f
  }

  /** The addition of the seconds set aside and the final conversion. */
  method Finish(tmp: StructTm, c: Converter, tt: TimeT, base: int, saved: int) returns (okay: bool, t: int)
    requires c.Valid() && tt.Valid() && tt.Has(base) && IsInt(saved)
    modifies tmp
    ensures Finished(c, tt, old(tmp.Value()), true, base + saved, okay, t, tmp.Value())
    ensures !tt.Has(base + saved) ==> t == -1
  {
    WrapDetected(tt, base, saved);
    var newt := tt.Wrap(base + saved);
    if (newt < base) != (saved < 0) {
      return false, -1;
    }
    t := newt;
    okay := Convert(c, t, tmp);
  }

  /** UTC at a fixed offset with inserted seconds only. */
  ghost predicate LeapUtc(c: Converter) {
    c.Gmt? && InsertsAtMinuteEnds(c.zone.lsis) && c.offset % 60 == 0
  }

  lemma LeapShown(c: Converter, t: int)
    requires c.Valid() && LeapUtc(c)
    ensures Shown(c, t).ok <==> Fits(t, c.offset - Corr(c.zone.lsis, t))
    ensures Shown(c, t).ok ==> Shown(c, t).tm == BrokenDown(t, c.offset, c.zone.lsis)
    ensures IsShift(c.offset - Corr(c.zone.lsis, t))
  {
    hide Fits, BrokenDown, Corr, LeapIndex, IsDate;
    LeapShift(c, t);
  }

  lemma LeapShift(c: Converter, t: int)
    requires c.Valid() && LeapUtc(c)
    ensures IsShift(c.offset - Corr(c.zone.lsis, t))
  {
    hide LocalTime.Zone.Valid, Readable;
    InsertsAreUnitSteps(c.zone.lsis);
    PosixBounded(t, c.zone.lsis);
  }

  lemma TmCompFlips(a: Tm, b: Tm)
    ensures TmComp(a, b) == -TmComp(b, a)
  {
  }

  lemma TmCompAgainstEqual(a: Tm, b: Tm, e: Tm)
    requires TmComp(b, e) == 0
    ensures TmComp(a, e) == TmComp(a, b)
  {
  }

  /** With inserted seconds too, the search is guided to a time from everywhere. */
  lemma LeapGuides(c: Converter, tt: TimeT, your: Tm, goal: int)
    requires c.Valid() && LeapUtc(c) && tt.Has(goal) && Shown(c, goal).ok
    requires TmComp(Shown(c, goal).tm, your) == 0
    ensures Guides(c, your, tt, goal)
  {
    hide Fits, BrokenDown, Shown, Corr, TmComp;
    var lsis := c.zone.lsis;
    InsertsAreUnitSteps(lsis);
    LeapShown(c, goal);
    forall t | tt.Has(t)
      ensures (Dir(c, your, t) < 0 <==> t < goal) && (Dir(c, your, t) > 0 <==> goal < t)
    {
      LeapShown(c, t);
      if Shown(c, t).ok {
        TmCompAgainstEqual(Shown(c, t).tm, Shown(c, goal).tm, your);
        TmCompFlips(Shown(c, t).tm, Shown(c, goal).tm);
        if t < goal {
          BrokenDownIncreasing(t, goal, c.offset, lsis);
        } else if goal < t {
          BrokenDownIncreasing(goal, t, c.offset, lsis);
        }
      } else {
        if t <= goal {
          PosixMonotone(t, goal, lsis);
        } else {
          PosixMonotone(goal, t, lsis);
        }
        ExtremesOutside(t, c.offset - Corr(lsis, t), goal, c.offset - Corr(lsis, goal));
      }
    }
  }

  /** The fields `f` are those shown for the time `x`, and the time in the same minute from which
    * the search reaches it can be shown as well. */
  ghost predicate Asks(c: Converter, tt: TimeT, f: Tm, x: int)
    requires c.Valid()
  {
    && tt.Has(x) && Shown(c, x).ok && TmComp(Shown(c, x).tm, f) == 0 && f.isdst <= 0
    && tt.Has(x - Saved(f)) && Shown(c, x - Saved(f)).ok
  }

  lemma DateIsNormal(f: Tm)
    requires IsDate(f) && 0 <= f.hour < 24 && 0 <= f.min < 60
    ensures LinearInstant(f) == Instant(f) && NormalYear(f, false) == f.year + TM_YEAR_BASE
  {
    DateInYear(f);
    hide DaysTo, IsLeap, MonthStart, MonLength;
    YearUnique(DayNumber(f), f.year + TM_YEAR_BASE, YearOfDay(DayNumber(f)));
    hide YearOfDay;
  }

  /** A shown time is already normal, up to the inserted seconds. */
  lemma ShownIsNormal(f: Tm, n: Tm)
    requires IsDate(f) && 0 <= f.hour < 24 && 0 <= f.min < 60
    ensures LinearInstant(f) == Instant(f) && NormalYear(f, false) == f.year + TM_YEAR_BASE
    ensures IsNormalForm(n, f, false) ==> TmComp(n, f) == 0
  {
    DateIsNormal(f);
    hide DaysTo, IsLeap, MonthStart, LinearInstant, NormalYear, CarriedDay, YearOfDay;
    if IsNormalForm(n, f, false) {
      assert n.sec == f.sec && Instant(n) == Instant(f) && IsDate(n);
      MinutesAgree(n, f);
    }
  }

  lemma MinutesAgree(n: Tm, f: Tm)
    requires IsDate(n) && 0 <= n.hour < 24 && 0 <= n.min < 60
    requires IsDate(f) && 0 <= f.hour < 24 && 0 <= f.min < 60
    requires n.sec == f.sec && Instant(n) == Instant(f)
    ensures TmComp(n, f) == 0
  {
    var n0, f0 := n.(sec := 0), f.(sec := 0);
    OnTheMinute(n);
    OnTheMinute(f);
    FieldOrderIsTimeOrder(n0, f0);
    hide Instant, IsDate;
  }

  lemma OnTheMinute(f: Tm)
    requires IsDate(f) && 0 <= f.hour < 24 && 0 <= f.min < 60
    ensures IsCanonical(f.(sec := 0)) && Instant(f.(sec := 0)) == Instant(f) - f.sec
  {
    hide DaysTo, MonthStart, IsLeap;
  }

  /** The time searched for is shown with the seconds set aside taken off. */
  lemma TargetShown(c: Converter, f: Tm, n: Tm, x: int)
    requires c.Valid() && LeapUtc(c) && Shown(c, x).ok && Shown(c, x - Saved(f)).ok
    requires TmComp(Shown(c, x).tm, f) == 0 && TmComp(n, f) == 0 && n.isdst == f.isdst
    ensures TmComp(Shown(c, x - Saved(f)).tm, Target(n)) == 0 && Shown(c, x - Saved(f)).tm.isdst == 0
    ensures Saved(n) == Saved(f)
  {
    hide Fits, BrokenDown, Shown, InsertsAtMinuteEnds, IsDate;
    LeapShown(c, x);
    LeapShown(c, x - Saved(f));
    FieldRanges(x, c.offset, c.zone.lsis);
    FieldRanges(x - Saved(f), c.offset, c.zone.lsis);
    if f.sec >= 60 {
      assert Shown(c, x).tm.sec >= 60;
      InsertedFromMinute(x, c.offset, c.zone.lsis);
    }
  }

  lemma AskedNormalizes(c: Converter, tt: TimeT, f: Tm, n: Tm, x: int)
    requires c.Valid() && LeapUtc(c) && AllInts(f) && Asks(c, tt, f, x)
    ensures CanNormalize(f, false) && IsInt(Saved(f))
    ensures IsNormalForm(n, f, false) ==> TmComp(n, f) == 0
  {
    hide BrokenDown, Shown, InsertsAtMinuteEnds, Corr, DaysTo, IsNormalForm;
    LeapShown(c, x);
    FieldRanges(x, c.offset, c.zone.lsis);
    ShownIsNormal(f, n);
  }

  /** A request for the fields shown for `x` leads the search to `x`. */
  lemma AskedIsFound(c: Converter, tt: TimeT, f: Tm, n: Tm, x: int)
    requires c.Valid() && LeapUtc(c) && AllInts(f) && Asks(c, tt, f, x)
    requires IsNormalForm(n, f, false)
    ensures Saved(n) == Saved(f)
    ensures Guides(c, Target(n), tt, x - Saved(f)) && Matches(c, Target(n), x - Saved(f))
  {
    hide BrokenDown, Shown, InsertsAtMinuteEnds, TmComp;
    AskedNormalizes(c, tt, f, n, x);
    TargetShown(c, f, n, x);
    LeapGuides(c, tt, Target(n), x - Saved(f));
  }

  /** What the search for the fields with their seconds set aside finds in UTC. */
  ghost predicate UtcLocated(f: Tm, offset: int, tt: TimeT, normSecs: bool, found: bool, base: int) {
    var x := LinearInstant(f) - offset - SavedOf(f, normSecs);
    && (found <==> CanNormalize(f, normSecs) && IsInt(SavedOf(f, normSecs)) && f.isdst <= 0
                   && tt.Has(x) && Fits(x, offset))
    && (found ==> base == x)
  }

  /** The normalisation and the search. */
  method Locate(f: Tm, c: Converter, tt: TimeT, normSecs: bool)
    returns (found: bool, base: int, saved: int, ghost n: Tm)
    requires c.Valid() && tt.Valid() && AllInts(f)
    ensures found ==> IsNormalForm(n, f, normSecs) && saved == Saved(n) == SavedOf(f, normSecs) && IsInt(saved)
    ensures found ==> tt.Has(base) && Matches(c, Target(n), base)
    ensures PlainUtc(c) ==> UtcLocated(f, c.offset, tt, normSecs, found, base)
    ensures LeapUtc(c) && !normSecs ==> forall x :: Asks(c, tt, f, x) ==> found && x == base + saved
    ensures Solvable(c, tt, f, normSecs) ==> found && SureAnswer(c, tt, n)
  {
    hide Shown, ConvertSpec, Matches, Guides, DaysTo, LinearInstant, CanNormalize, Fits, Sure, Searched;
    var m, your;
    base, saved := -1, 0;
    if LeapUtc(c) && !normSecs {
      forall x | Asks(c, tt, f, x)
        ensures CanNormalize(f, false) && IsInt(Saved(f))
      {
        AskedNormalizes(c, tt, f, f, x);
      }
    }
    found, m := Normalize(f, normSecs);
    n := m;
    if !found {
      return;
    }
    if LeapUtc(c) && !normSecs {
      forall x | Asks(c, tt, f, x)
        ensures Saved(m) == Saved(f) && IsInt(Saved(m))
        ensures Guides(c, Target(m), tt, x - Saved(f)) && Matches(c, Target(m), x - Saved(f))
      {
        AskedNormalizes(c, tt, f, m, x);
        AskedIsFound(c, tt, f, m, x);
      }
    }
    assert Saved(m) == SavedOf(f, normSecs);
    found, your, saved := SetSecondsAside(m);
    if !found {
      return;
    }
    var mytm := new StructTm(BLANK);
    found, base := Search(c, your, tt, mytm);
    SearchFinds(c, your, tt, found, base);
    if PlainUtc(c) {
      UtcSearched(c, tt, your, found, base);
      assert Instant(your) == LinearInstant(f) - saved;
    }
  }

  ghost predicate Agrees(r: Outcome, okay: bool, t: int, tm: Tm) {
    okay == r.ok && tm == r.tm && (okay ==> t == r.t)
  }

  lemma UtcFinished(c: Converter, tt: TimeT, f: Tm, normSecs: bool, found: bool, base: int, x: int,
                    okay: bool, t: int, tm: Tm)
    requires c.Valid() && PlainUtc(c) && UtcLocated(f, c.offset, tt, normSecs, found, base)
    requires found ==> x == base + SavedOf(f, normSecs)
    requires Finished(c, tt, f, found, x, okay, t, tm)
    ensures Agrees(UtcOutcome(f, c.offset, tt, normSecs), okay, t, tm)
  {
  }

  lemma AskedShown(c: Converter, tt: TimeT, f: Tm, x: int)
    requires c.Valid() && Asks(c, tt, f, x)
    ensures tt.Has(x) && Shown(c, x).ok
  {
  }

  /** `time2sub`.  Any answer is right.  For UTC without leap seconds the outcome is known in closed
    * form.  With inserted seconds, the fields shown for a time, inserted seconds included, lead
    * back to that time. */
  method Time2Sub(tmp: StructTm, c: Converter, tt: TimeT, normSecs: bool) returns (okay: bool, t: int)
    requires c.Valid() && tt.Valid() && AllInts(tmp.Value())
    modifies tmp
    ensures okay ==> Answers(c, tt, old(tmp.Value()), normSecs, t) && tmp.Value() == Shown(c, t).tm
    ensures PlainUtc(c) ==> Agrees(UtcOutcome(old(tmp.Value()), c.offset, tt, normSecs), okay, t, tmp.Value())
    ensures LeapUtc(c) && !normSecs ==> forall x :: Asks(c, tt, old(tmp.Value()), x) ==> okay && t == x
    ensures Solvable(c, tt, old(tmp.Value()), normSecs) ==> okay
    ensures !okay ==> AllInts(tmp.Value()) && LeftBehind(c, tt, old(tmp.Value()), normSecs, tmp.Value())
    ensures !okay && Clean(c, tt, old(tmp.Value())) ==> tmp.Value() == old(tmp.Value()) && t == -1
  {
    hide ConvertSpec, UtcOutcome, Shown, Sought, IsNormalForm, Matches, UtcLocated, Asks, LeapUtc, PlainUtc;
    hide Solvable, Sure;
    ghost var f := tmp.Value();
    var found, base, saved;
    ghost var n;
    found, base, saved, n := Locate(tmp.Value(), c, tt, normSecs);
    okay, t := false, -1;
    if found {
      ShownAlways(c, base + saved, f);
      okay, t := Finish(tmp, c, tt, base, saved);
      if okay {
        ShownAlways(c, t, f);
        AnswerFound(c, tt, f, normSecs, n, base, t);
      } else if tt.Has(base + saved) {
        FailureKeepsInts(c, t, f);
        ShownAlways(c, t, f);
        AnswerFound(c, tt, f, normSecs, n, base, t);
      }
    }
    if LeapUtc(c) && !normSecs {
      forall x | Asks(c, tt, f, x)
        ensures okay && t == x
      {
        AskedShown(c, tt, f, x);
        ShownAlways(c, x, f);
      }
    }
    if PlainUtc(c) {
      UtcFinished(c, tt, f, normSecs, found, base, base + saved, okay, t, tmp.Value());
    }
  }

  lemma AnswerFound(c: Converter, tt: TimeT, f: Tm, normSecs: bool, n: Tm, base: int, t: int)
    requires c.Valid() && tt.Has(t)
    requires IsNormalForm(n, f, normSecs) && t == base + Saved(n) && tt.Has(base) && Matches(c, Target(n), base)
    ensures Sought(c, tt, f, normSecs, t)
  {
    hide IsNormalForm, Matches, Target, Saved;
    assert base == t - Saved(n);
  }

  lemma UtcSearched(c: Converter, tt: TimeT, your: Tm, found: bool, t: int)
    requires c.Valid() && PlainUtc(c) && IsCanonical(your)
    requires found ==> tt.Has(t) && Matches(c, your, t)
    requires forall goal :: Guides(c, your, tt, goal) && Matches(c, your, goal) ==> found && t == goal
    ensures var x := Instant(your) - c.offset;
      (found <==> tt.Has(x) && Fits(x, c.offset) && your.isdst <= 0) && (found ==> t == x)
  {
    var x := Instant(your) - c.offset;
    UtcMatches(c, your, t);
    UtcMatches(c, your, x);
    if tt.Has(x) && Fits(x, c.offset) && your.isdst <= 0 {
      UtcGuides(c, tt, your, x);
    }
  }

  /** Every value of `time_t` can be shown, so that no conversion fails. */
  ghost predicate AllShown(c: Converter, tt: TimeT)
    requires c.Valid()
  {
    forall t :: tt.Has(t) ==> Shown(c, t).ok
  }

  lemma {:induction false} RunBounded(lsis: seq<LeapSecond>, i: nat)
    requires i < |lsis|
    ensures RunBefore(lsis, i) <= i
    decreases i
  {
    if i > 0 {
      RunBounded(lsis, i - 1);
    }
  }

  /** A conversion that fails leaves fields that are `int`s. */
  lemma FailureKeepsInts(c: Converter, t: int, was: Tm)
    requires c.Valid() && AllInts(was) && !ConvertSpec(c, t, was).ok
    ensures AllInts(ConvertSpec(c, t, was).tm)
  {
    if c.Local? && c.zone.Outside(t) {
      var (newt, years) := Folded(c.zone, t);
      var r := DirectSpec(c.zone, newt, was);
      var gmtoff := c.zone.ttis[TypeAt(c.zone, newt)].gmtoff;
      FieldRanges(newt, gmtoff, c.zone.lsis);
      ToIntIsInt(r.tm.year + years);
      HitBounded(newt, c.zone.lsis);
      SecondsInMinute(newt + gmtoff - Corr(c.zone.lsis, newt));
    }
  }

  lemma ToIntIsInt(x: int)
    ensures IsInt(ToInt(x))
  {
  }

  lemma HitBounded(t: int, lsis: seq<LeapSecond>)
    ensures Hit(lsis, t) <= |lsis|
  {
    var i := LeapIndex(lsis, t, |lsis|);
    if i >= 0 {
      RunBounded(lsis, i);
    }
  }

  lemma SecondsInMinute(x: int)
    ensures 0 <= Civil(x).sec < 60
  {
  }

  /** The two passes: first with the seconds as they are, then with the seconds normalised, on
    * whatever the first pass has left in the structure. */
  ghost function Time2Outcome(f: Tm, o: int, tt: TimeT): Outcome {
    var r := UtcOutcome(f, o, tt, false);
    if r.ok then r else UtcOutcome(r.tm, o, tt, true)
  }

  /** `t` answers the request `f` in the first pass, or in the second what the first has left of
    * it. */
  ghost predicate Answered(c: Converter, tt: TimeT, f: Tm, t: int)
    requires c.Valid()
  {
    Answers(c, tt, f, false, t) || exists g :: LeftBehind(c, tt, f, false, g) && Answers(c, tt, g, true, t)
  }

  /** When every time can be shown nothing is ever left behind but the request itself. */
  lemma AnsweredWhenShown(c: Converter, tt: TimeT, f: Tm, t: int)
    requires c.Valid() && AllShown(c, tt)
    ensures Answered(c, tt, f, t) <==> Answers(c, tt, f, false, t) || Answers(c, tt, f, true, t)
  {
    hide Shown, ConvertSpec, IsNormalForm, Matches;
    assert LeftBehind(c, tt, f, false, f);
  }

  /** What both passes leave of the request when they fail. */
  ghost predicate Fails(c: Converter, tt: TimeT, f: Tm, g: Tm)
    requires c.Valid()
  {
    exists h :: LeftBehind(c, tt, f, false, h) && LeftBehind(c, tt, h, true, g)
  }

  /** The first pass must find the request, or the second what the first leaves of it. */
  ghost predicate Solved(c: Converter, tt: TimeT, f: Tm)
    requires c.Valid() && tt.Valid()
  {
    || Solvable(c, tt, f, false)
    || forall g :: LeftBehind(c, tt, f, false, g) ==> Solvable(c, tt, g, true)
  }

  /** Whatever the two passes seek for the request can be shown, so that none of it is overwritten. */
  ghost predicate Clean(c: Converter, tt: TimeT, f: Tm)
    requires c.Valid()
  {
    forall normSecs, x :: Sought(c, tt, f, normSecs, x) ==> Shown(c, x).ok
  }

  lemma CleanKeeps(c: Converter, tt: TimeT, f: Tm)
    requires c.Valid() && Clean(c, tt, f)
    ensures forall normSecs, g :: LeftBehind(c, tt, f, normSecs, g) ==> g == f
    ensures forall g :: Fails(c, tt, f, g) ==> g == f
  {
    hide Sought, Shown, ConvertSpec;
  }

  lemma AllShownIsClean(c: Converter, tt: TimeT, f: Tm)
    requires c.Valid() && AllShown(c, tt)
    ensures Clean(c, tt, f)
  {
    hide Shown, IsNormalForm, Matches;
  }

  /** `time2`.  An answer is right for the request, or for what the failed first pass has left of it;
    * the fields shown for a time, inserted seconds included, lead back to that time. */
  method Time2(tmp: StructTm, c: Converter, tt: TimeT) returns (okay: bool, t: int)
    requires c.Valid() && tt.Valid() && AllInts(tmp.Value())
    modifies tmp
    ensures PlainUtc(c) ==> Agrees(Time2Outcome(old(tmp.Value()), c.offset, tt), okay, t, tmp.Value())
    ensures LeapUtc(c) ==> forall x :: Asks(c, tt, old(tmp.Value()), x) ==> okay && t == x
    ensures Solved(c, tt, old(tmp.Value())) ==> okay
    ensures okay ==> tt.Has(t) && Answered(c, tt, old(tmp.Value()), t) && tmp.Value() == Shown(c, t).tm
    ensures !okay ==> AllInts(tmp.Value()) && Fails(c, tt, old(tmp.Value()), tmp.Value())
    ensures !okay && Clean(c, tt, old(tmp.Value())) ==> tmp.Value() == old(tmp.Value()) && t == -1
  {
    hide UtcOutcome, Shown, Clean, LeftBehind, IsNormalForm, Asks, Solvable;
    okay, t := Time2Sub(tmp, c, tt, false);
    if !okay {
      okay, t := Time2Sub(tmp, c, tt, true);
    }
  }

  /** Every value of DJGPP's `time_t` can be shown at every offset. */
  lemma DjgppTimesShown(t: int, o: int)
    requires DJGPP_TIME.Has(t) && IsShift(o)
    ensures Fits(t, o)
  {
    DivMonotone(0, t, SECSPERDAY);
    DivMonotone(t, 0x1_0000_0000, SECSPERDAY);
    DivMonotone(-0x1_0000_0000, t + o, SECSPERDAY);
    DivMonotone(t + o, 0x2_0000_0000, SECSPERDAY);
    YearOfDayMonotone(-0x1_0000_0000 / SECSPERDAY, (t + o) / SECSPERDAY);
    YearOfDayMonotone((t + o) / SECSPERDAY, 0x2_0000_0000 / SECSPERDAY);
    YearOfDayMonotone(0, t / SECSPERDAY);
    YearOfDayMonotone(t / SECSPERDAY, 0x1_0000_0000 / SECSPERDAY);
    NearEpoch();
    YearAgainstDay(2301, 0x2_0000_0000 / SECSPERDAY);
    DaysToMonotone(1970, 2301);
  }

  /** The offsets and corrections of the state are `int`s, and no time is folded, as is always so
    * with a `time_t` too narrow for 400 years. */
  predicate Narrow(z: Zone) {
    && !z.goback && !z.goahead
    && (forall i :: 0 <= i < |z.ttis| ==> IsInt(z.ttis[i].gmtoff))
    && (forall i :: 0 <= i < |z.lsis| ==> IsInt(z.lsis[i].corr))
  }

  lemma FitsIsOk(t: int, offset: int, lsis: seq<LeapSecond>, was: Tm)
    ensures Fits(t, offset - Corr(lsis, t)) ==> TimeSubSpec(t, offset, lsis, was).ok
  {
  }

  lemma ShiftIsNarrow(z: Zone, t: int, offset: int)
    requires Narrow(z) && IsInt(offset)
    ensures IsShift(offset - Corr(z.lsis, t))
  {
    hide LeapIndex;
  }

  lemma DjgppTimeShown(t: int, offset: int, z: Zone, was: Tm)
    requires DJGPP_TIME.Has(t) && Narrow(z) && IsInt(offset)
    ensures TimeSubSpec(t, offset, z.lsis, was).ok
  {
    ShiftIsNarrow(z, t, offset);
    DjgppTimesShown(t, offset - Corr(z.lsis, t));
    FitsIsOk(t, offset, z.lsis, was);
    hide *;
  }

  /** So with DJGPP's `time_t` no conversion fails, to local time or to UTC. */
  lemma DjgppAllShown(c: Converter)
    requires c.Valid() && Narrow(c.zone)
    ensures AllShown(c, DJGPP_TIME)
  {
    forall t | DJGPP_TIME.Has(t)
      ensures Shown(c, t).ok
    {
      hide TimeSubSpec, Folded, TypeAt;
      DjgppTimeShown(t, if c.Gmt? then c.offset else c.zone.ttis[TypeAt(c.zone, t)].gmtoff, c.zone, BLANK);
    }
  }
}
