/** What `time1` finds for local time without leap seconds: the requests that the search cannot miss,
  * in terms of the clock of the zone. */
module LocalAnswers {
  import opened CInts
  import opened Calendar
  import opened TimeConversion
  import opened LocalTime
  import opened Normalization
  import opened MakeTime
  import opened TypeGuessing

  /** The zone without leap seconds, whose table spans a cycle if it is folded. */
  ghost predicate PlainLocal(z: Zone) {
    Local(z).Valid() && z.SpansCycle() && z.lsis == []
  }

  /** What the clock of the zone says at `t`, as a second count. */
  ghost function Clock(z: Zone, t: int): int
    requires z.Valid() && z.defaulttype < |z.ttis|
  {
    t + TypeShown(z, t).gmtoff
  }

  /** No time is taken to be too extreme on the wrong side of `y`. */
  ghost predicate Legible(z: Zone, tt: TimeT, y: int)
    requires PlainLocal(z)
  {
    forall t :: tt.Has(t) && (if t > 0 then Clock(z, t) <= y else y <= Clock(z, t)) ==> Shown(Local(z), t).ok
  }

  /** From `t` to the next second the clock skips `y`. */
  ghost predicate SkippedAt(z: Zone, y: int, t: int)
    requires PlainLocal(z)
  {
    Clock(z, t) < y < Clock(z, t + 1)
  }

  /** Within `time_t` the clock comes to `y` and never skips it. */
  ghost predicate Reaches(z: Zone, tt: TimeT, y: int)
    requires PlainLocal(z)
  {
    && Clock(z, tt.lo) <= y <= Clock(z, tt.hi)
    && forall t :: tt.lo <= t < tt.hi ==> !SkippedAt(z, y, t)
  }

  /** `t` shows `y` with the kind of daylight saving asked for. */
  ghost predicate Tells(z: Zone, tt: TimeT, y: int, isdst: int, t: int)
    requires PlainLocal(z)
  {
    tt.Has(t) && Clock(z, t) == y && (isdst < 0 || TypeShown(z, t).isdst == isdst)
  }

  /** The order of the fields shown at `t` and canonical ones is that of the clock. */
  lemma ShownIsClock(z: Zone, your: Tm, t: int)
    requires PlainLocal(z) && IsCanonical(your) && Shown(Local(z), t).ok
    ensures var d := TmComp(Shown(Local(z), t).tm, your);
      (d < 0 <==> Clock(z, t) < Instant(your)) && (d > 0 <==> Clock(z, t) > Instant(your))
    ensures Shown(Local(z), t).tm.isdst == TypeShown(z, t).isdst
  {
    hide Shown, TypeShown, Instant, IsDate;
    LocalShown(z, t);
    FieldOrderIsTimeOrder(Civil(Clock(z, t)), your);
    CanonicalCivil(Clock(z, t), TypeShown(z, t).isdst, your);
  }

  lemma CanonicalCivil(x: int, isdst: int, your: Tm)
    ensures IsCanonical(Civil(x)) && Instant(Civil(x)) == x
    ensures TmComp(Civil(x).(isdst := isdst), your) == TmComp(Civil(x), your)
  {
  }

  lemma DirIsClock(z: Zone, tt: TimeT, your: Tm, t: int)
    requires PlainLocal(z) && IsCanonical(your) && Legible(z, tt, Instant(your)) && tt.Has(t)
    ensures Dir(Local(z), your, t) < 0 <==> Clock(z, t) < Instant(your)
    ensures Dir(Local(z), your, t) > 0 <==> Clock(z, t) > Instant(your)
  {
    hide Shown, Clock, Instant, TmComp;
    if Shown(Local(z), t).ok {
      ShownIsClock(z, your, t);
    }
  }

  /** So the search is led to the fields exactly when the clock comes to them and never skips them. */
  lemma ClimbsExactly(z: Zone, tt: TimeT, your: Tm)
    requires PlainLocal(z) && tt.Valid() && IsCanonical(your) && Legible(z, tt, Instant(your))
    ensures Climbs(Local(z), your, tt) <==> Reaches(z, tt, Instant(your))
  {
    hide Legible, Clock, Dir, Instant, StepsOnto, SkippedAt;
    DirIsClock(z, tt, your, tt.lo);
    DirIsClock(z, tt, your, tt.hi);
    forall t | tt.lo <= t < tt.hi
      ensures StepsOnto(Local(z), your, t) <==> !SkippedAt(z, Instant(your), t)
    {
      StepsUnlessSkipped(z, tt, your, t);
    }
    hide IsCanonical;
  }

  lemma StepsUnlessSkipped(z: Zone, tt: TimeT, your: Tm, t: int)
    requires PlainLocal(z) && IsCanonical(your) && Legible(z, tt, Instant(your)) && tt.lo <= t < tt.hi
    ensures StepsOnto(Local(z), your, t) <==> !SkippedAt(z, Instant(your), t)
  {
    hide Legible, Clock, Dir, Instant;
    DirIsClock(z, tt, your, t);
    DirIsClock(z, tt, your, t + 1);
  }

  /** Between a time whose clock is not past `y` and one whose clock is not before it, some time shows
    * `y`, when the clock never skips it. */
  lemma {:induction false} Crosses(z: Zone, y: int, a: int, b: int)
    requires PlainLocal(z) && a <= b && Clock(z, a) <= y <= Clock(z, b)
    requires forall t :: a <= t < b ==> !SkippedAt(z, y, t)
    ensures exists t :: a <= t <= b && Clock(z, t) == y
    decreases b - a
  {
    hide Clock;
    if Clock(z, a) < y {
      assert !SkippedAt(z, y, a);
      Crosses(z, y, a + 1, b);
    }
  }

  /** To a time that alone shows `y` the search is guided from everywhere exactly when the clock comes
    * to `y` and never skips it. */
  lemma GuidesExactly(z: Zone, tt: TimeT, your: Tm, goal: int)
    requires PlainLocal(z) && tt.Valid() && IsCanonical(your) && Legible(z, tt, Instant(your)) && tt.Has(goal)
    requires forall t :: tt.Has(t) ==> (Clock(z, t) == Instant(your) <==> t == goal)
    ensures Guides(Local(z), your, tt, goal) <==> Reaches(z, tt, Instant(your))
  {
    hide Legible, Clock, Dir, Instant, SkippedAt;
    if Guides(Local(z), your, tt, goal) {
      GuidesClimbs(Local(z), your, tt, goal);
      ClimbsExactly(z, tt, your);
    }
    if Reaches(z, tt, Instant(your)) {
      forall t | tt.Has(t)
        ensures (Dir(Local(z), your, t) < 0 <==> t < goal) && (Dir(Local(z), your, t) > 0 <==> goal < t)
      {
        DirIsClock(z, tt, your, t);
        OneSided(z, tt, Instant(your), goal, t);
      }
    }
  }

  lemma OneSided(z: Zone, tt: TimeT, y: int, goal: int, t: int)
    requires PlainLocal(z) && tt.Has(goal) && tt.Has(t) && Reaches(z, tt, y)
    requires forall u :: tt.Has(u) ==> (Clock(z, u) == y <==> u == goal)
    ensures (Clock(z, t) < y <==> t < goal) && (Clock(z, t) > y <==> goal < t)
  {
    hide Clock, SkippedAt;
    if t < goal && Clock(z, t) > y {
      Crosses(z, y, tt.lo, t);
    } else if goal < t && Clock(z, t) < y {
      Crosses(z, y, t, tt.hi);
    }
  }

  /** What matches the fields is what tells them. */
  lemma MatchesExactly(z: Zone, tt: TimeT, your: Tm, t: int)
    requires PlainLocal(z) && IsCanonical(your) && Legible(z, tt, Instant(your)) && tt.Has(t)
    ensures Matches(Local(z), your, t) <==> Tells(z, tt, Instant(your), your.isdst, t)
    ensures Dir(Local(z), your, t) == 0 ==> Clock(z, t) == Instant(your) && Shown(Local(z), t).ok
  {
    hide Shown, Clock, Instant, TmComp;
    DirIsClock(z, tt, your, t);
    if Shown(Local(z), t).ok {
      ShownIsClock(z, your, t);
    }
  }

  /** From any time that shows the fields the pair of its type and that of another time leads to
    * the other time. */
  lemma HuntHits(z: Zone, tt: TimeT, your: Tm, t: int, u: int)
    requires PlainLocal(z) && tt.Valid() && IsCanonical(your) && Legible(z, tt, Instant(your))
    requires tt.Has(t) && Clock(z, t) == Instant(your) && TypeShown(z, t).isdst != your.isdst
    requires Tells(z, tt, Instant(your), your.isdst, u) && your.isdst >= 0
    ensures CanHunt(Local(z), your, tt, t)
  {
    hide Shown, Instant, TmComp, Legible, Matches;
    var i := TypeAt(z, if z.Outside(u) then Folded(z, u).0 else u);
    var j := TypeAt(z, if z.Outside(t) then Folded(z, t).0 else t);
    WrapSame(tt, u);
    MatchesExactly(z, tt, your, u);
    assert Candidate(z, tt, t, i, j) == u;
    MatchKind(Local(z), your, u);
    assert Hits(Local(z), your, tt, t, i, j);
  }

  lemma MatchKind(c: Converter, your: Tm, t: int)
    requires c.Valid() && Matches(c, your, t) && your.isdst >= 0
    ensures Shown(c, t).tm.isdst == your.isdst
  {
  }

  /** A local time that the clock comes to and never skips cannot be missed if some time tells it with
    * the kind of daylight saving asked for. */
  lemma LocalIsSure(z: Zone, tt: TimeT, your: Tm, u: int)
    requires PlainLocal(z) && tt.Valid() && IsCanonical(your) && Legible(z, tt, Instant(your))
    requires Reaches(z, tt, Instant(your)) && Tells(z, tt, Instant(your), your.isdst, u)
    ensures Sure(Local(z), your, tt)
  {
    hide Legible, Clock, Dir, Instant, IsCanonical, Climbs, Reaches, Matches, CanHunt;
    ClimbsExactly(z, tt, your);
    forall t | tt.Has(t) && Dir(Local(z), your, t) == 0
      ensures Takes(Local(z), your, tt, t)
    {
      MatchesExactly(z, tt, your, t);
      if !Matches(Local(z), your, t) {
        HuntHits(z, tt, your, t, u);
      }
    }
  }

  /** A request whose normal form keeps no seconds aside, with a clock that comes to its time and never
    * skips it, must be found if some time tells it with the kind of daylight saving asked for. */
  lemma LocalSolvable(z: Zone, tt: TimeT, f: Tm, normSecs: bool, u: int)
    requires PlainLocal(z) && tt.Valid() && CanNormalize(f, normSecs) && (normSecs || 0 <= f.sec < SECSPERMIN)
    requires Legible(z, tt, LinearInstant(f)) && Reaches(z, tt, LinearInstant(f))
    requires Tells(z, tt, LinearInstant(f), f.isdst, u)
    ensures Solvable(Local(z), tt, f, normSecs)
  {
    hide Legible, Reaches, Tells, CanNormalize, LinearInstant, CarriedDay, DayNumber, Sure, YearOfDay;
    forall n | IsNormalForm(n, f, normSecs)
      ensures SureAnswer(Local(z), tt, n)
    {
      LocalIsSure(z, tt, n, u);
      SearchedItself(Local(z), tt, n);
    }
  }

  /** With its seconds in range the normal form itself is searched for. */
  lemma SearchedItself(c: Converter, tt: TimeT, n: Tm)
    requires c.Valid() && tt.Valid() && 0 <= n.sec < SECSPERMIN && Sure(c, n, tt)
    ensures SureAnswer(c, tt, n)
  {
    hide Sure, Shown, TmComp;
    assert Target(n) == n;
  }

  /** If besides nothing is overwritten the request must be found by one of the two passes. */
  lemma LocalSolved(z: Zone, tt: TimeT, f: Tm, u: int)
    requires PlainLocal(z) && tt.Valid() && CanNormalize(f, true) && Clean(Local(z), tt, f)
    requires Legible(z, tt, LinearInstant(f)) && Reaches(z, tt, LinearInstant(f))
    requires Tells(z, tt, LinearInstant(f), f.isdst, u)
    ensures Solved(Local(z), tt, f)
  {
    hide Legible, Reaches, Tells, CanNormalize, LinearInstant, Clean, Solved, Solvable;
    LocalSolvable(z, tt, f, true, u);
    CleanSolved(Local(z), tt, f);
  }

  lemma CleanSolved(c: Converter, tt: TimeT, f: Tm)
    requires c.Valid() && tt.Valid() && Clean(c, tt, f) && Solvable(c, tt, f, true)
    ensures Solved(c, tt, f)
  {
    hide LeftBehind, Solvable, Clean;
    CleanKeeps(c, tt, f);
  }

  /** A request with the wrong flag, computed from a time `t` that type `j` of the other kind shows, by
    * the clock of type `i`: the guess from `i` to `j` must be found, if the clock never skips what it
    * says at `t`. */
  lemma WrongFlagFound(z: Zone, tt: TimeT, f: Tm, i: nat, j: nat, t: int)
    requires PlainLocal(z) && tt.Valid() && IsGuess(z, f, i, j) && tt.Has(t)
    requires LinearInstant(f) == t + UsedType(z, i).gmtoff
    requires TypeShown(z, t) == UsedType(z, j) && UsedType(z, j).isdst == Not(f.isdst)
    requires Legible(z, tt, Clock(z, t)) && Reaches(z, tt, Clock(z, t))
    requires IsInt(f.sec + (UsedType(z, j).gmtoff - UsedType(z, i).gmtoff))
    requires CanNormalize(Guess(z, f, i, j), true) && Clean(Local(z), tt, Guess(z, f, i, j))
    ensures MustAnswer(Local(z), tt, f, i, j)
  {
    hide Legible, Reaches, CanNormalize, LinearInstant, Clean, Solved, UsedType, TypeShown, Adjusted, InUse;
    var g := Guess(z, f, i, j);
    GuessInstant(f, UsedType(z, i), UsedType(z, j));
    assert LinearInstant(g) == Clock(z, t) && Tells(z, tt, LinearInstant(g), g.isdst, t);
    LocalSolved(z, tt, g, t);
  }

  lemma GuessInstant(f: Tm, same: TtInfo, other: TtInfo)
    requires IsInt(f.sec + (other.gmtoff - same.gmtoff))
    ensures LinearInstant(Adjusted(f, same, other)) == LinearInstant(f) + (other.gmtoff - same.gmtoff)
    ensures Adjusted(f, same, other).isdst == Not(f.isdst)
  {
    ToIntLossless(f.sec + (other.gmtoff - same.gmtoff));
    hide DayOf, ToInt;
  }

  /** Under DJGPP's `time_t` nothing is overwritten and every time can be shown, so `time1` finds every
    * request that can be normalised, that the clock comes to and never skips, and that some time
    * tells with the flag asked for. */
  lemma DjgppSolved(z: Zone, f: Tm, u: int)
    requires PlainLocal(z) && Narrow(z) && CanNormalize(f, true)
    requires Reaches(z, DJGPP_TIME, LinearInstant(f)) && Tells(z, DJGPP_TIME, LinearInstant(f), f.isdst, u)
    ensures Solved(Local(z), DJGPP_TIME, f)
  {
    hide Reaches, Tells, CanNormalize, LinearInstant, AllShown, Clean, Solved;
    DjgppAllShown(Local(z));
    AllShownIsClean(Local(z), DJGPP_TIME, f);
    AllLegible(z, DJGPP_TIME, LinearInstant(f));
    LocalSolved(z, DJGPP_TIME, f, u);
  }

  lemma AllLegible(z: Zone, tt: TimeT, y: int)
    requires PlainLocal(z) && AllShown(Local(z), tt)
    ensures Legible(z, tt, y)
  {
    hide Shown, Clock;
  }

  /** Some 270 years on either side of `y` can be represented. */
  predicate Roomy(y: int) {
    Fits(y + 0x2_0000_0000, 0) && Fits(y - 0x2_0000_0000, 0)
  }

  /** Other integers for `time_t`: that is enough, when the table is not used for folding. */
  lemma RoomyShown(z: Zone, y: int, t: int)
    requires PlainLocal(z) && Narrow(z) && Roomy(y)
    requires if t > 0 then t <= y + 0x1_0000_0000 else y - 0x1_0000_0000 <= t
    ensures Shown(Local(z), t).ok
  {
    var d := TypeShown(z, t).gmtoff;
    assert IsInt(d) && TypeShown(z, t) == z.ttis[TypeAt(z, t)];
    hide Fits, TypeAt, TypeShown;
    if t > 0 {
      FitsBelow(t, d, y + 0x2_0000_0000, 0);
    } else {
      FitsAbove(t, d, y - 0x2_0000_0000, 0);
    }
    DirectWithoutLeaps(z, t, BLANK);
  }

  lemma RoomyIsLegible(z: Zone, tt: TimeT, y: int)
    requires PlainLocal(z) && Narrow(z) && Roomy(y)
    ensures Legible(z, tt, y)
  {
    forall t | tt.Has(t) && if t > 0 then Clock(z, t) <= y else y <= Clock(z, t)
      ensures Shown(Local(z), t).ok
    {
      assert IsInt(TypeShown(z, t).gmtoff);
      hide Roomy, TypeShown, Shown;
      RoomyShown(z, y, t);
    }
  }

  lemma RoomyIsClean(z: Zone, tt: TimeT, f: Tm)
    requires PlainLocal(z) && Narrow(z) && Roomy(LinearInstant(f))
    ensures Clean(Local(z), tt, f)
  {
    forall normSecs, x | Sought(Local(z), tt, f, normSecs, x)
      ensures Shown(Local(z), x).ok
    {
      var base := SoughtInstant(z, tt, f, normSecs, x);
      assert IsInt(TypeShown(z, base).gmtoff);
      hide Roomy, TypeShown, Shown, Sought, LinearInstant;
      RoomyShown(z, LinearInstant(f), x);
    }
  }

  /** So with any `time_t`, and a table that is not used for folding, `time1` finds every request that
    * can be normalised, has room around it, that the clock comes to and never skips, and that some
    * time tells with the flag asked for. */
  lemma RoomySolved(z: Zone, tt: TimeT, f: Tm, u: int)
    requires PlainLocal(z) && Narrow(z) && tt.Valid() && CanNormalize(f, true) && Roomy(LinearInstant(f))
    requires Reaches(z, tt, LinearInstant(f)) && Tells(z, tt, LinearInstant(f), f.isdst, u)
    ensures Solved(Local(z), tt, f)
  {
    hide Reaches, Tells, CanNormalize, LinearInstant, Clean, Solved, Roomy;
    RoomyIsClean(z, tt, f);
    RoomyIsLegible(z, tt, LinearInstant(f));
    LocalSolved(z, tt, f, u);
  }

  /** In an ordered table that is not folded the clock skips times at entries only. */
  lemma SkippedAtEntry(z: Zone, y: int, t: int)
    requires PlainLocal(z) && z.Ordered() && !z.goback && !z.goahead && SkippedAt(z, y, t)
    ensures t + 1 in z.ats
  {
    if t + 1 !in z.ats {
      TypeStays(z, t);
    }
  }

  lemma TypeStays(z: Zone, t: int)
    requires z.Valid() && z.defaulttype < |z.ttis| && z.Ordered() && t + 1 !in z.ats
    ensures TypeAt(z, t + 1) == TypeAt(z, t)
  {
    TypeInEffect(z, t);
    TypeInEffect(z, t + 1);
    hide TypeAt;
    if |z.ats| > 0 && z.ats[0] <= t {
      var k: nat :| LastUpTo(z.ats, t, |z.ats|, k) && z.types[k] == TypeAt(z, t);
      assert LastUpTo(z.ats, t + 1, |z.ats|, k);
    }
  }

  /** A zone that puts its clock forward by two hours for a thousand seconds only. */
  const HASTY := Zone([1048000, 1049000], [1, 0],
                      [TtInfo(0, 0, "S", false, false), TtInfo(7200, 1, "D", false, false)], [], false, false, 0)

  /** A time that its clock skips at first, and then comes to. */
  const SKIPPED: int := 1050000

  lemma HastyClock(t: int)
    ensures PlainLocal(HASTY) && Narrow(HASTY)
    ensures Clock(HASTY, t) == if 1048000 <= t < 1049000 then t + 7200 else t
  {
  }

  lemma HastyDir(your: Tm, t: int)
    requires IsCanonical(your) && Instant(your) == SKIPPED && DJGPP_TIME.Has(t)
    ensures PlainLocal(HASTY)
    ensures Dir(Local(HASTY), your, t) > 0 <==> Clock(HASTY, t) > SKIPPED
    ensures Dir(Local(HASTY), your, t) == 0 <==> t == SKIPPED
  {
    HastyClock(t);
    hide Clock, Narrow, Dir, IsCanonical, Instant, AllShown, Legible;
    DjgppAllShown(Local(HASTY));
    AllLegible(HASTY, DJGPP_TIME, SKIPPED);
    DirIsClock(HASTY, DJGPP_TIME, your, t);
  }

  /** A try after the request cuts the bounds in half. */
  lemma HastyHalf(your: Tm, hi: int, mid: int)
    requires IsCanonical(your) && Instant(your) == SKIPPED && DJGPP_TIME.Has(hi) && hi == 2 * mid + 1 && mid > 1048000
    requires Clock(HASTY, mid) > SKIPPED
    ensures PlainLocal(HASTY) && Meets(Local(HASTY), your, 0, hi) == Meets(Local(HASTY), your, 0, mid)
  {
    HastyDir(your, mid);
    hide Dir, Meets, IsCanonical, Instant, Clock;
    MeetsStep(Local(HASTY), your, 0, hi);
    assert Middle(0, hi) == mid;
  }

  lemma HastyHalves(your: Tm, hi: int, mid: int)
    requires IsCanonical(your) && Instant(your) == SKIPPED && DJGPP_TIME.Has(hi)
    requires hi == 16 * mid + 15 && (mid == 1048575 || mid > SKIPPED)
    ensures PlainLocal(HASTY) && Meets(Local(HASTY), your, 0, hi) == Meets(Local(HASTY), your, 0, mid)
  {
    HastyClock(mid);
    HastyClock(2 * mid + 1);
    HastyClock(4 * mid + 3);
    HastyClock(8 * mid + 7);
    hide Clock, Meets, IsCanonical, Instant, PlainLocal;
    HastyHalf(your, 2 * mid + 1, mid);
    HastyHalf(your, 4 * mid + 3, 2 * mid + 1);
    HastyHalf(your, 8 * mid + 7, 4 * mid + 3);
    HastyHalf(your, hi, 8 * mid + 7);
  }

  /** A local time that exactly one time shows can be missed, when the clock has skipped it before. */
  lemma HastyMissed(your: Tm)
    requires IsCanonical(your) && Instant(your) == SKIPPED
    ensures PlainLocal(HASTY) && SkippedAt(HASTY, SKIPPED, 1047999)
    ensures forall t :: Clock(HASTY, t) == SKIPPED <==> t == SKIPPED
    ensures Meets(Local(HASTY), your, DJGPP_TIME.lo, DJGPP_TIME.hi) == Missed
  {
    hide Clock, Meets, IsCanonical, Instant, PlainLocal, Dir, SkippedAt;
    HastySkips();
    HastyOnce();
    HastyHalves(your, 0xffff_ffff, 0xfff_ffff);
    HastyHalves(your, 0xfff_ffff, 0xff_ffff);
    HastyHalves(your, 0xff_ffff, 0xf_ffff);
    MetBetween(Local(HASTY), your, 0, 0xf_ffff);
    HastyMeets(your, Meets(Local(HASTY), your, 0, 0xf_ffff));
  }

  lemma HastySkips()
    ensures PlainLocal(HASTY) && SkippedAt(HASTY, SKIPPED, 1047999)
  {
    HastyClock(1047999);
    HastyClock(1048000);
    hide Clock;
  }

  lemma HastyOnce()
    ensures PlainLocal(HASTY) && forall t :: Clock(HASTY, t) == SKIPPED <==> t == SKIPPED
  {
    HastyClock(0);
    hide Clock, PlainLocal;
    forall t
      ensures Clock(HASTY, t) == SKIPPED <==> t == SKIPPED
    {
      HastyClock(t);
    }
  }

  lemma HastyMeets(your: Tm, m: Meeting)
    requires IsCanonical(your) && Instant(your) == SKIPPED && PlainLocal(HASTY)
    requires m.Met? ==> 0 <= m.t < SKIPPED && Dir(Local(HASTY), your, m.t) == 0
    ensures m == Missed
  {
    if m.Met? {
      HastyDir(your, m.t);
      assert false;
    }
  }
}
