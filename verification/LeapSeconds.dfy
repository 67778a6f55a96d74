/** Leap seconds: `timesub` keeps distinct times distinct and in order, which is what the search
  * of `mktime` relies on, and the conversions to and from POSIX times. */
module LeapSeconds {
  import opened CInts
  import opened Calendar
  import opened TimeConversion

  predicate Ascending(lsis: seq<LeapSecond>) {
    forall i, j :: 0 <= i < j < |lsis| ==> lsis[i].trans < lsis[j].trans
  }

  /** Every entry inserts one second, at the end of a minute. */
  predicate InsertsAtMinuteEnds(lsis: seq<LeapSecond>) {
    && Ascending(lsis)
    && forall i :: 0 <= i < |lsis| ==> lsis[i].corr == i + 1 && (lsis[i].trans - lsis[i].corr) % 60 == 59
  }

  /** Every entry inserts or deletes one second. */
  predicate UnitSteps(lsis: seq<LeapSecond>) {
    && Ascending(lsis)
    && forall i :: 0 <= i < |lsis| ==>
      lsis[i].corr == CorrOf(lsis, i - 1) + 1 || lsis[i].corr == CorrOf(lsis, i - 1) - 1
  }

  predicate AllInsert(lsis: seq<LeapSecond>) {
    && Ascending(lsis)
    && forall i :: 0 <= i < |lsis| ==> lsis[i].corr == i + 1
  }

  function CorrOf(lsis: seq<LeapSecond>, i: int): int
    requires -1 <= i < |lsis|
  {
    if i < 0 then 0 else lsis[i].corr
  }

  /** From one second to the next, the entry in effect changes only by entering the next one. */
  lemma IndexStep(lsis: seq<LeapSecond>, t: int)
    requires Ascending(lsis)
    ensures var i := LeapIndex(lsis, t, |lsis|);
      LeapIndex(lsis, t + 1, |lsis|) == if i + 1 < |lsis| && lsis[i + 1].trans == t + 1 then i + 1 else i
  {
    var i := LeapIndex(lsis, t, |lsis|);
    var j := LeapIndex(lsis, t + 1, |lsis|);
    if i + 1 < |lsis| && lsis[i + 1].trans == t + 1 {
      assert j >= i + 1;
    }
    if j > i {
      assert t < lsis[i + 1].trans <= lsis[j].trans <= t + 1;
    }
  }

  lemma SecondsOf(f: Tm)
    requires IsCanonical(f)
    ensures f.sec == Instant(f) % 60
  {
    DivideByRounds(Instant(f), 60, DayNumber(f) * 1440 + f.hour * 60 + f.min);
  }

  lemma SecondsOfCivil(x: int)
    ensures Civil(x).sec == x % 60
  {
    SecondsOf(Civil(x));
  }

  /** The next second comes later in field order; after :59 whatever number of inserted seconds
    * is shown on top of it. */
  lemma NextSecond(a: Tm, b: Tm, h: nat)
    requires IsCanonical(a) && IsCanonical(b) && Instant(b) == Instant(a) + 1
    requires h > 0 ==> a.sec == 59
    ensures TmComp(a.(sec := a.sec + h), b) < 0
  {
    if h == 0 {
      FieldOrderIsTimeOrder(a, b);
    } else {
      SecondsOf(a);
      SecondsOf(b);
      FieldOrderIsTimeOrder(a.(sec := 0), b);
    }
  }

  lemma TmCompTransitive(a: Tm, b: Tm, c: Tm)
    requires TmComp(a, b) < 0 && TmComp(b, c) < 0
    ensures TmComp(a, c) < 0
  {
  }

  lemma HitStep(lsis: seq<LeapSecond>, t: int)
    requires AllInsert(lsis)
    ensures var i := LeapIndex(lsis, t, |lsis|);
      if i + 1 < |lsis| && lsis[i + 1].trans == t + 1
      then Hit(lsis, t + 1) == Hit(lsis, t) + 1 && Corr(lsis, t + 1) == Corr(lsis, t) + 1
      else Hit(lsis, t + 1) == 0 && Corr(lsis, t + 1) == Corr(lsis, t)
  {
    IndexStep(lsis, t);
  }

  lemma CivilStep(x: int, h: nat)
    requires h > 0 ==> x % 60 == 59
    ensures TmComp(Civil(x).(sec := Civil(x).sec + h), Civil(x + 1)) < 0
  {
    SecondsOfCivil(x);
    NextSecond(Civil(x), Civil(x + 1), h);
  }

  /** Seconds are inserted only after :59. */
  lemma InsertedAfter59(t: int, offset: int, lsis: seq<LeapSecond>)
    requires InsertsAtMinuteEnds(lsis) && offset % 60 == 0
    ensures Hit(lsis, t) > 0 <==> exists i :: 0 <= i < |lsis| && lsis[i].trans == t
    ensures Hit(lsis, t) > 0 ==> (t + offset - Corr(lsis, t)) % 60 == 59
  {
    var i := LeapIndex(lsis, t, |lsis|);
    if i >= 0 && lsis[i].trans == t {
      QuotientShift(t - lsis[i].corr, 60, offset / 60);
    } else {
      forall j | 0 <= j < |lsis|
        ensures lsis[j].trans != t
      {
        if j < i {
          assert lsis[j].trans < lsis[i].trans;
        }
      }
    }
  }

  /** One more second is always a later broken-down time. */
  lemma BrokenDownStep(t: int, offset: int, lsis: seq<LeapSecond>)
    requires InsertsAtMinuteEnds(lsis) && offset % 60 == 0
    ensures TmComp(BrokenDown(t, offset, lsis), BrokenDown(t + 1, offset, lsis)) < 0
  {
    HitStep(lsis, t);
    InsertedAfter59(t, offset, lsis);
    var x, y := t + offset - Corr(lsis, t), t + 1 + offset - Corr(lsis, t + 1);
    assert (y == x + 1 && Hit(lsis, t + 1) == 0) || (y == x && Hit(lsis, t + 1) == Hit(lsis, t) + 1);
    hide TmComp, Corr, Hit, InsertsAtMinuteEnds, LeapIndex;
    SecondsStep(x, Hit(lsis, t), y, Hit(lsis, t + 1));
  }

  lemma SecondsStep(x: int, h: nat, y: int, i: nat)
    requires h > 0 ==> x % 60 == 59
    requires (y == x + 1 && i == 0) || (y == x && i == h + 1)
    ensures TmComp(Civil(x).(sec := Civil(x).sec + h), Civil(y).(sec := Civil(y).sec + i)) < 0
  {
    if y == x {
      TmCompSeconds(Civil(x), h);
    } else {
      CivilStep(x, h);
      hide TmComp;
      assert Civil(y).(sec := Civil(y).sec + i) == Civil(y);
    }
  }

  lemma TmCompSeconds(f: Tm, h: int)
    ensures TmComp(f.(sec := f.sec + h), f.(sec := f.sec + (h + 1))) < 0
  {
  }

  /** `timesub` is strictly increasing in the order of `tmcomp`, inserted seconds included. */
  lemma {:induction false} BrokenDownIncreasing(t: int, u: int, offset: int, lsis: seq<LeapSecond>)
    requires InsertsAtMinuteEnds(lsis) && offset % 60 == 0
    requires t < u
    ensures TmComp(BrokenDown(t, offset, lsis), BrokenDown(u, offset, lsis)) < 0
    decreases u - t
  {
    BrokenDownStep(u - 1, offset, lsis);
    if t < u - 1 {
      BrokenDownIncreasing(t, u - 1, offset, lsis);
      TmCompTransitive(BrokenDown(t, offset, lsis), BrokenDown(u - 1, offset, lsis), BrokenDown(u, offset, lsis));
    }
  }

  /** Exactly the inserted seconds are shown past :59, a lone one as :60. */
  lemma InsertedSecondShown(t: int, offset: int, lsis: seq<LeapSecond>)
    requires InsertsAtMinuteEnds(lsis) && offset % 60 == 0
    ensures BrokenDown(t, offset, lsis).sec >= 60 <==> exists i :: 0 <= i < |lsis| && lsis[i].trans == t
    ensures BrokenDown(t, offset, lsis).sec >= 60 ==> BrokenDown(t, offset, lsis).sec == 59 + Hit(lsis, t)
  {
    InsertedAfter59(t, offset, lsis);
    SecondsOfCivil(t + offset - Corr(lsis, t));
  }

  /** The first inserted second of a run counts as one, each following one as one more. */
  lemma RunIsCounted(lsis: seq<LeapSecond>, i: nat)
    requires AllInsert(lsis) && i < |lsis|
    ensures Hit(lsis, lsis[i].trans) ==
      if i > 0 && lsis[i - 1].trans == lsis[i].trans - 1 then Hit(lsis, lsis[i - 1].trans) + 1 else 1
  {
    HitStep(lsis, lsis[i].trans - 1);
    IndexStep(lsis, lsis[i].trans - 1);
    var j := LeapIndex(lsis, lsis[i].trans, |lsis|);
    assert j == i;
    if i > 0 {
      assert LeapIndex(lsis, lsis[i].trans - 1, |lsis|) >= i - 1 by {
        assert lsis[i - 1].trans <= lsis[i].trans - 1;
      }
    }
  }

  /** Going back over inserted seconds stays at the same corrected instant. */
  lemma {:induction false} BackOverInserted(t: int, lsis: seq<LeapSecond>, h: nat)
    requires AllInsert(lsis) && Hit(lsis, t) == h
    ensures Hit(lsis, t - h) == 0 && t - h - Corr(lsis, t - h) == t - Corr(lsis, t)
    decreases h
  {
    if h > 0 {
      HitStep(lsis, t - 1);
      assert t - 1 + 1 == t;
      hide Corr, Hit, AllInsert;
      BackOverInserted(t - 1, lsis, h - 1);
    }
  }

  /** Going back within a minute meets no insertion. */
  lemma {:induction false} BackInMinute(t: int, offset: int, lsis: seq<LeapSecond>, k: nat)
    requires InsertsAtMinuteEnds(lsis) && offset % 60 == 0
    requires Hit(lsis, t) == 0 && k <= (t + offset - Corr(lsis, t)) % 60
    ensures Hit(lsis, t - k) == 0 && Corr(lsis, t - k) == Corr(lsis, t)
    decreases k
  {
    hide Hit, Corr;
    if k > 0 {
      HitStep(lsis, t - 1);
      InsertedAfter59(t - 1, offset, lsis);
      var x := t + offset - Corr(lsis, t);
      DivideByRounds(x - 1, 60, x / 60);
      BackInMinute(t - 1, offset, lsis, k - 1);
    }
  }

  lemma SecondsBack(x: int, k: int)
    requires 0 <= k <= Civil(x).sec
    ensures Civil(x - k) == Civil(x).(sec := Civil(x).sec - k)
  {
    DenotesUnique(Civil(x).(sec := Civil(x).sec - k), Civil(x - k), x - k);
  }

  /** A time shown with its seconds field past :59 is its own minute plus that field, and the last
    * regular second of the minute plus the inserted ones. */
  lemma InsertedFromMinute(t: int, offset: int, lsis: seq<LeapSecond>)
    requires InsertsAtMinuteEnds(lsis) && offset % 60 == 0
    ensures var f := BrokenDown(t, offset, lsis);
      f.sec >= 60 ==>
        && BrokenDown(t - f.sec, offset, lsis) == f.(sec := 0)
        && BrokenDown(t - (f.sec - 59), offset, lsis) == f.(sec := 59)
  {
    hide LeapIndex, Denotes, Hit, Corr;
    var h := Hit(lsis, t);
    var x := t + offset - Corr(lsis, t);
    SecondsOfCivil(x);
    InsertedAfter59(t, offset, lsis);
    if h > 0 {
      assert BrokenDown(t, offset, lsis) == Civil(x).(sec := 59 + h);
      BackOverInserted(t, lsis, h);
      assert t - h + offset - Corr(lsis, t - h) == x;
      RegularSecond(t - h, x, offset, lsis);
      BackInMinute(t - h, offset, lsis, 59);
      SecondsBack(x, 59);
      RegularSecond(t - (59 + h), x - 59, offset, lsis);
    }
  }

  lemma FieldRanges(t: int, offset: int, lsis: seq<LeapSecond>)
    ensures var f := BrokenDown(t, offset, lsis);
      IsDate(f) && 0 <= f.hour < 24 && 0 <= f.min < 60 && 0 <= f.sec && f.isdst == 0
    ensures BrokenDown(t, offset, lsis).year + TM_YEAR_BASE == YearOfDay((t + offset - Corr(lsis, t)) / SECSPERDAY)
  {
    CivilYear(t + offset - Corr(lsis, t));
  }

  lemma RegularSecond(t: int, x: int, offset: int, lsis: seq<LeapSecond>)
    requires x == t + offset - Corr(lsis, t) && Hit(lsis, t) == 0
    ensures BrokenDown(t, offset, lsis) == Civil(x)
  {
  }

  lemma InsertsAreUnitSteps(lsis: seq<LeapSecond>)
    requires AllInsert(lsis)
    ensures UnitSteps(lsis)
  {
  }

  /** `time2posix`. */
  function Time2Posix(t: int, lsis: seq<LeapSecond>): int {
    t - Corr(lsis, t)
  }

  method LeapCorr(t: int, lsis: seq<LeapSecond>) returns (corr: int)
    ensures corr == Corr(lsis, t)
    ensures forall i :: 0 <= i < |lsis| && lsis[i].trans <= t && (forall j :: i < j < |lsis| ==> t < lsis[j].trans) ==>
      corr == lsis[i].corr
    ensures (forall i :: 0 <= i < |lsis| ==> t < lsis[i].trans) ==> corr == 0
  {
    CorrIs(lsis, t);
    var i := |lsis| - 1;
    while i >= 0
      invariant -1 <= i < |lsis|
      invariant LeapIndex(lsis, t, i + 1) == LeapIndex(lsis, t, |lsis|)
    {
      if t >= lsis[i].trans {
        return lsis[i].corr;
      }
      i := i - 1;
    }
    return 0;
  }

  lemma PosixStep(t: int, lsis: seq<LeapSecond>)
    requires UnitSteps(lsis)
    ensures 0 <= Time2Posix(t + 1, lsis) - Time2Posix(t, lsis) <= 2
    ensures AllInsert(lsis) ==> Time2Posix(t + 1, lsis) - Time2Posix(t, lsis) <= 1
  {
    IndexStep(lsis, t);
  }

  lemma {:induction false} PosixMonotone(t: int, u: int, lsis: seq<LeapSecond>)
    requires UnitSteps(lsis) && t <= u
    ensures Time2Posix(t, lsis) <= Time2Posix(u, lsis)
    decreases u - t
  {
    if t < u {
      PosixMonotone(t, u - 1, lsis);
      PosixStep(u - 1, lsis);
    }
  }

  lemma {:induction false} CorrBounded(lsis: seq<LeapSecond>, i: int)
    requires UnitSteps(lsis) && -1 <= i < |lsis|
    ensures -(i + 1) <= CorrOf(lsis, i) <= i + 1
    decreases i + 1
  {
    if i >= 0 {
      CorrBounded(lsis, i - 1);
      assert CorrOf(lsis, i) == lsis[i].corr;
    }
  }

  lemma PosixBounded(t: int, lsis: seq<LeapSecond>)
    requires UnitSteps(lsis)
    ensures t - |lsis| <= Time2Posix(t, lsis) <= t + |lsis|
  {
    CorrBounded(lsis, LeapIndex(lsis, t, |lsis|));
  }

  /** Some time converts to the POSIX time `t`. */
  ghost predicate HasPreimage(t: int, lsis: seq<LeapSecond>) {
    exists x :: Time2Posix(x, lsis) == t
  }

  /** The best possible answer: an inverse if there is one, else a time next to the gap. */
  ghost predicate Inverts(r: int, t: int, lsis: seq<LeapSecond>) {
    if HasPreimage(t, lsis) then Time2Posix(r, lsis) == t
    else Time2Posix(r, lsis) == t - 1 || Time2Posix(r, lsis) == t + 1
  }

  /** A value that is stepped over belongs to a deleted second. */
  lemma GapHasNoPreimage(t: int, x: int, lsis: seq<LeapSecond>)
    requires UnitSteps(lsis) && Time2Posix(x, lsis) < t < Time2Posix(x + 1, lsis)
    ensures !HasPreimage(t, lsis) && !AllInsert(lsis)
    ensures Inverts(x, t, lsis) && Inverts(x + 1, t, lsis)
  {
    PosixStep(x, lsis);
    forall z
      ensures Time2Posix(z, lsis) != t
    {
      if z <= x {
        PosixMonotone(z, x, lsis);
      } else {
        PosixMonotone(x + 1, z, lsis);
      }
    }
  }

  /** The upward half of the search of `posix2time`. */
  method SearchUp(t: int, lsis: seq<LeapSecond>, x0: int) returns (x: int, y: int)
    requires UnitSteps(lsis) && Time2Posix(x0, lsis) < t
    ensures y == Time2Posix(x, lsis) && Time2Posix(x - 1, lsis) < t <= y
  {
    hide UnitSteps, Corr;
    x, y := x0, Time2Posix(x0, lsis);
    while y < t
      invariant y == Time2Posix(x, lsis)
      invariant y >= t ==> Time2Posix(x - 1, lsis) < t
      decreases t + |lsis| - x
    {
      PosixBounded(x, lsis);
      x := x + 1;
      var corr := LeapCorr(x, lsis);
      y := x - corr;
    }
  }

  /** The downward half. */
  method SearchDown(t: int, lsis: seq<LeapSecond>, x0: int) returns (x: int, y: int)
    requires UnitSteps(lsis) && Time2Posix(x0, lsis) > t
    ensures y == Time2Posix(x, lsis) && y <= t < Time2Posix(x + 1, lsis)
  {
    hide UnitSteps, Corr;
    x, y := x0, Time2Posix(x0, lsis);
    while y > t
      invariant y == Time2Posix(x, lsis)
      invariant y <= t ==> t < Time2Posix(x + 1, lsis)
      decreases x - t + |lsis|
    {
      PosixBounded(x, lsis);
      x := x - 1;
      var corr := LeapCorr(x, lsis);
      y := x - corr;
    }
  }

  /** `posix2time`: inverts `time2posix` wherever it can be inverted, and returns a time next to
    * the deleted second otherwise.  With insertions only there is always an inverse. */
  method Posix2Time(t: int, lsis: seq<LeapSecond>) returns (r: int)
    requires UnitSteps(lsis)
    ensures Inverts(r, t, lsis)
    ensures AllInsert(lsis) ==> Time2Posix(r, lsis) == t
  {
    var corr := LeapCorr(t, lsis);
    var x := t + corr;
    corr := LeapCorr(x, lsis);
    var y := x - corr;
    if y < t {
      x, y := SearchUp(t, lsis, x);
      if t != y {
        GapHasNoPreimage(t, x - 1, lsis);
        return x - 1;
      }
    } else if y > t {
      x, y := SearchDown(t, lsis, x);
      if t != y {
        GapHasNoPreimage(t, x, lsis);
        return x + 1;
      }
    }
    return x;
  }
}
