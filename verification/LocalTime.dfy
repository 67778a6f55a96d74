/** `localsub`: the binary search of a zone's transition table, and the folding of times outside
  * the table by whole 400-year cycles. */
module LocalTime {
  import opened CInts
  import opened Calendar
  import opened TimeConversion

  const YEARSPERREPEAT := 400
  const AVGSECSPERYEAR := 31556952
  const SECSPERREPEAT := 12622780800

  /** One local time type. */
  datatype TtInfo = TtInfo(gmtoff: int, isdst: int, abbr: string, isstd: bool, isgmt: bool)

  /** A loaded zone: the transitions, their types and the leap seconds. */
  datatype Zone = Zone(ats: seq<int>, types: seq<nat>, ttis: seq<TtInfo>, lsis: seq<LeapSecond>,
                       goback: bool, goahead: bool, defaulttype: nat)
  {
    predicate Valid() {
      && |types| == |ats|
      && (forall i :: 0 <= i < |types| ==> types[i] < |ttis|)
      && (goback || goahead ==> |ats| > 1)
    }

    /** The transitions are in order of time, which `localsub` takes for granted. */
    predicate Ordered() {
      Ascends(ats, |ats|)
    }

    /** There is a type to look up at `t`: before the first transition it is the default type. */
    predicate Known(t: int) {
      (|ats| > 0 && ats[0] <= t) || defaulttype < |ttis|
    }

    /** What `tzload` establishes when it sets the flags: the table spans a whole cycle. */
    predicate SpansCycle() {
      goback || goahead ==> |ats| > 1 && ats[|ats| - 1] - ats[0] >= SECSPERREPEAT
    }

    predicate Outside(t: int)
      requires Valid()
    {
      (goback && t < ats[0]) || (goahead && t > ats[|ats| - 1])
    }
  }

  /** The first `n` of the times are in order. */
  predicate Ascends(ats: seq<int>, n: nat)
    requires n <= |ats|
  {
    forall i, j :: 0 <= i < j < n ==> ats[i] <= ats[j]
  }

  /** `typesequiv` for types of the zone: every attribute agrees. */
  predicate TypesEquiv(z: Zone, a: nat, b: nat) {
    a < |z.ttis| && b < |z.ttis| && z.ttis[a] == z.ttis[b]
  }

  /** `differ_by_repeat`; a `time_t` too narrow for 400 years never repeats. */
  predicate DifferByRepeat(t1: int, t0: int, wide: bool) {
    wide && t1 - t0 == SECSPERREPEAT
  }

  /** Entries `i` and `j` start the same type exactly one cycle apart. */
  predicate Repeats(z: Zone, i: nat, j: nat, wide: bool)
    requires z.Valid() && i < |z.ats| && j < |z.ats|
  {
    TypesEquiv(z, z.types[i], z.types[j]) && DifferByRepeat(z.ats[i], z.ats[j], wide)
  }

  predicate RepeatedByLast(z: Zone, i: nat, wide: bool)
    requires z.Valid()
  {
    i + 1 < |z.ats| && Repeats(z, |z.ats| - 1, i, wide)
  }

  /** The end of `tzload`: the folding flags are set exactly when a transition repeats the first,
    * or is repeated by the last, one cycle away; if the table is in order it can then be folded. */
  method SetRepeatFlags(z0: Zone, wide: bool) returns (z: Zone)
    requires z0.Valid() && !z0.goback && !z0.goahead
    ensures z == z0.(goback := z.goback, goahead := z.goahead) && z.Valid()
    ensures z0.Ordered() ==> z.SpansCycle()
    ensures z.goback <==> exists i :: 0 < i < |z0.ats| && Repeats(z0, i, 0, wide)
    ensures z.goahead <==> exists i: nat :: RepeatedByLast(z0, i, wide)
  {
    z := z0;
    var n := |z0.ats|;
    if n > 1 {
      var i := 1;
      while i < n
        invariant 1 <= i <= n && z == z0
        invariant forall j :: 0 < j < i ==> !Repeats(z0, j, 0, wide)
      {
        if Repeats(z0, i, 0, wide) {
          z := z.(goback := true);
          break;
        }
        i := i + 1;
      }
      ghost var back := z.goback;
      i := n - 2;
      while i >= 0
        invariant -1 <= i <= n - 2 && z == z0.(goback := back)
        invariant forall j: nat :: i < j ==> !RepeatedByLast(z0, j, wide)
      {
        if RepeatedByLast(z0, i, wide) {
          z := z.(goahead := true);
          break;
        }
        i := i - 1;
      }
    }
  }

  /** The type in effect at `t`: that of the last transition at or before it. */
  ghost predicate InEffect(z: Zone, t: int, i: nat)
    requires z.Valid()
  {
    if |z.ats| == 0 || t < z.ats[0] then i == z.defaulttype
    else exists k: nat :: LastUpTo(z.ats, t, |z.ats|, k) && z.types[k] == i
  }

  /** Entry `k` is the last of the first `n` at or before `t`. */
  predicate LastUpTo(ats: seq<int>, t: int, n: nat, k: nat)
    requires n <= |ats|
  {
    k < n && ats[k] <= t && forall j :: k < j < n ==> t < ats[j]
  }

  /** Entry `k` is at or before `t`, and the next one, if there is one, is after `t`. */
  predicate Boundary(ats: seq<int>, t: int, k: nat) {
    k < |ats| && ats[k] <= t && (k + 1 < |ats| ==> t < ats[k + 1])
  }

  /** Where the binary search between `lo` and `hi` ends. */
  function Found(ats: seq<int>, t: int, lo: nat, hi: nat): (k: nat)
    requires 1 <= lo <= hi <= |ats|
    ensures lo - 1 <= k < hi
    decreases hi - lo
  {
    var mid := (lo + hi) / 2;
    if lo == hi then lo - 1
    else if t < ats[mid] then Found(ats, t, lo, mid)
    else Found(ats, t, mid + 1, hi)
  }

  lemma FoundStep(ats: seq<int>, t: int, lo: nat, hi: nat)
    requires 1 <= lo < hi <= |ats|
    ensures var mid := (lo + hi) / 2;
      Found(ats, t, lo, hi) == if t < ats[mid] then Found(ats, t, lo, mid) else Found(ats, t, mid + 1, hi)
  {
  }

  lemma FoundNone(ats: seq<int>, t: int, i: nat)
    requires 1 <= i <= |ats|
    ensures Found(ats, t, i, i) == i - 1
  {
  }

  lemma LaterThan(ats: seq<int>, t: int, i: nat, n: nat)
    requires i < n <= |ats| && Ascends(ats, n) && t < ats[i]
    ensures forall j :: i <= j < n ==> t < ats[j]
  {
  }

  /** In any table, in order or not, the search ends at a boundary. */
  lemma {:induction false} FoundIsBoundary(ats: seq<int>, t: int, lo: nat, hi: nat)
    requires 1 <= lo <= hi <= |ats| && ats[lo - 1] <= t && (hi < |ats| ==> t < ats[hi])
    ensures Boundary(ats, t, Found(ats, t, lo, hi))
    decreases hi - lo
  {
    hide Found;
    if lo == hi {
      FoundNone(ats, t, lo);
    } else {
      var mid := (lo + hi) / 2;
      FoundStep(ats, t, lo, hi);
      if t < ats[mid] {
        FoundIsBoundary(ats, t, lo, mid);
      } else {
        FoundIsBoundary(ats, t, mid + 1, hi);
      }
    }
  }

  /** Among entries in order it ends at the last one at or before `t`. */
  lemma {:induction false} FoundIsLast(ats: seq<int>, t: int, lo: nat, hi: nat, n: nat)
    requires 1 <= lo <= hi <= n <= |ats| && Ascends(ats, n)
    requires ats[lo - 1] <= t && forall j :: hi <= j < n ==> t < ats[j]
    ensures LastUpTo(ats, t, n, Found(ats, t, lo, hi))
    decreases hi - lo
  {
    hide Found, Ascends;
    if lo == hi {
      FoundNone(ats, t, lo);
    } else {
      hide LastUpTo;
      var mid := (lo + hi) / 2;
      FoundStep(ats, t, lo, hi);
      if t < ats[mid] {
        LaterThan(ats, t, mid, n);
        FoundIsLast(ats, t, lo, mid, n);
      } else {
        FoundIsLast(ats, t, mid + 1, hi, n);
      }
    }
  }

  /** The last entry before the last two with which the search compares while it goes up from `lo`
    * to the end of a table of `n` entries. */
  function Pivot(lo: nat, n: nat): (p: nat)
    requires 1 <= lo <= n - 2
    ensures lo - 1 <= p <= n - 3
    decreases n - lo
  {
    var mid := (lo + n) / 2;
    if mid >= n - 2 then lo - 1 else Pivot(mid + 1, n)
  }

  /** Where the search ends when all entries but the last two are in order, and those two among
    * themselves: it looks at the two only from the pivot on, and then prefers them. */
  lemma {:induction false} FoundBeforeTail(ats: seq<int>, t: int, lo: nat)
    requires 1 <= lo <= |ats| - 2 && Ascends(ats, |ats| - 2) && ats[|ats| - 2] <= ats[|ats| - 1] && ats[lo - 1] <= t
    ensures var n, k := |ats|, Found(ats, t, lo, |ats|);
      if ats[Pivot(lo, n)] <= t && ats[n - 2] <= t then k == (if ats[n - 1] <= t then n - 1 else n - 2)
      else LastUpTo(ats, t, n - 2, k)
    decreases |ats| - lo
  {
    hide Found, Pivot, Ascends, LastUpTo;
    var n := |ats|;
    var mid := (lo + n) / 2;
    FoundStep(ats, t, lo, n);
    PivotStep(lo, n);
    if mid >= n - 2 {
      FoundAtEnd(ats, t, lo);
    } else if t < ats[mid] {
      LaterThan(ats, t, mid, n - 2);
      FoundIsLast(ats, t, lo, mid, n - 2);
    } else {
      FoundBeforeTail(ats, t, mid + 1);
    }
  }

  lemma PivotStep(lo: nat, n: nat)
    requires 1 <= lo <= n - 2
    ensures var mid := (lo + n) / 2;
      if mid >= n - 2 then Pivot(lo, n) == lo - 1 else Pivot(lo, n) == Pivot(mid + 1, n) >= mid
  {
  }

  /** The last steps of the search, which compare with the last two entries. */
  lemma FoundAtEnd(ats: seq<int>, t: int, lo: nat)
    requires 1 <= lo <= |ats| - 2 && Ascends(ats, |ats| - 2) && ats[|ats| - 2] <= ats[|ats| - 1] && ats[lo - 1] <= t
    requires (lo + |ats|) / 2 >= |ats| - 2
    ensures var n, k := |ats|, Found(ats, t, lo, |ats|);
      if ats[n - 2] <= t then k == (if ats[n - 1] <= t then n - 1 else n - 2) else LastUpTo(ats, t, n - 2, k)
  {
    hide Ascends, Found;
    var n := |ats|;
    FoundStep(ats, t, lo, n);
    FoundInOne(ats, t, n - 1);
    FoundInOne(ats, t, n - 2);
    FoundNone(ats, t, n);
    if lo < n - 2 && t < ats[n - 2] {
      FoundIsLast(ats, t, lo, n - 2, n - 2);
    }
  }

  /** The search between two neighbours. */
  lemma FoundInOne(ats: seq<int>, t: int, i: nat)
    requires 1 <= i < |ats|
    ensures Found(ats, t, i, i + 1) == if t < ats[i] then i - 1 else i
  {
    hide Found;
    FoundStep(ats, t, i, i + 1);
    FoundNone(ats, t, i);
    FoundNone(ats, t, i + 1);
  }

  method Lookup(z: Zone, t: int) returns (i: nat)
    requires z.Valid() && z.Known(t)
    ensures i == TypeAt(z, t) < |z.ttis|
  {
    if |z.ats| == 0 || t < z.ats[0] {
      return z.defaulttype;
    }
    var lo, hi := 1, |z.ats|;
    while lo < hi
      invariant 1 <= lo <= hi <= |z.ats|
      invariant Found(z.ats, t, lo, hi) == Found(z.ats, t, 1, |z.ats|)
    {
      var mid := (lo + hi) / 2;
      if t < z.ats[mid] {
        hi := mid;
      } else {
        lo := mid + 1;
      }
    }
    return z.types[lo - 1];
  }

  lemma InEffectUnique(z: Zone, t: int, i: nat, j: nat)
    requires z.Valid() && InEffect(z, t, i) && InEffect(z, t, j)
    ensures i == j
  {
  }

  /** The type that is used at `t`. */
  function TypeAt(z: Zone, t: int): (i: nat)
    requires z.Valid() && z.Known(t)
    ensures i < |z.ttis|
  {
    if |z.ats| == 0 || t < z.ats[0] then z.defaulttype else z.types[Found(z.ats, t, 1, |z.ats|)]
  }

  /** In a table in order the type used is the one in effect. */
  lemma TypeInEffect(z: Zone, t: int)
    requires z.Valid() && z.Known(t) && z.Ordered()
    ensures InEffect(z, t, TypeAt(z, t))
  {
    if |z.ats| > 0 && z.ats[0] <= t {
      FoundIsLast(z.ats, t, 1, |z.ats|, |z.ats|);
    }
  }

  /** The number of whole cycles by which a time at distance `seconds + 1` is moved. */
  function Cycles(seconds: nat): int {
    seconds / YEARSPERREPEAT / AVGSECSPERYEAR + 1
  }

  lemma CyclesCover(seconds: nat)
    ensures seconds < Cycles(seconds) * SECSPERREPEAT <= seconds + SECSPERREPEAT
  {
  }

  /** The time that the folding replaces `t` by, and the years that it then adds to the result. */
  function Folded(z: Zone, t: int): (int, int)
    requires z.Valid() && z.Outside(t)
  {
    if t < z.ats[0] then
      var k := Cycles(z.ats[0] - t - 1);
      (t + k * SECSPERREPEAT, -k * YEARSPERREPEAT)
    else
      var k := Cycles(t - z.ats[|z.ats| - 1] - 1);
      (t - k * SECSPERREPEAT, k * YEARSPERREPEAT)
  }

  /** `localsub` without folding. */
  ghost function DirectSpec(z: Zone, t: int, was: Tm): Filled
    requires z.Valid() && z.Known(t)
  {
    var tt := z.ttis[TypeAt(z, t)];
    var r := TimeSubSpec(t, tt.gmtoff, z.lsis, was);
    r.(tm := r.tm.(isdst := tt.isdst))
  }

  ghost function LocalSubSpec(z: Zone, t: int, was: Tm): Filled
    requires z.Valid() && (z.Outside(t) || z.Known(t))
  {
    if !z.Outside(t) then DirectSpec(z, t, was)
    else
      var (newt, years) := Folded(z, t);
      if !(z.ats[0] <= newt <= z.ats[|z.ats| - 1]) then Filled(false, was)
      else
        var r := DirectSpec(z, newt, was);
        if !r.ok then r
        else Filled(IsInt(r.tm.year + years), r.tm.(year := ToInt(r.tm.year + years)))
  }

  method Direct(z: Zone, t: int, tmp: StructTm) returns (ok: bool)
    requires z.Valid() && z.Known(t) && Readable(z.lsis, t)
    modifies tmp
    ensures Filled(ok, tmp.Value()) == DirectSpec(z, t, old(tmp.Value()))
  {
    var i := Lookup(z, t);
    ok := TimeSub(t, z.ttis[i].gmtoff, z.lsis, tmp);
    tmp.isdst := z.ttis[i].isdst;
  }

  /** The arithmetic of the folding. */
  method Fold(z: Zone, t: int) returns (newt: int, icycles: int)
    requires z.Valid() && z.Outside(t)
    ensures Folded(z, t) == (newt, if t < z.ats[0] then -icycles * YEARSPERREPEAT else icycles * YEARSPERREPEAT)
  {
    newt := t;
    var seconds := if t < z.ats[0] then z.ats[0] - t else t - z.ats[|z.ats| - 1];
    seconds := seconds - 1;
    var tcycles := seconds / YEARSPERREPEAT / AVGSECSPERYEAR;
    tcycles := tcycles + 1;
    icycles := tcycles;
    seconds := icycles;
    seconds := seconds * YEARSPERREPEAT;
    seconds := seconds * AVGSECSPERYEAR;
    newt := if t < z.ats[0] then newt + seconds else newt - seconds;
  }

  method LocalSub(z: Zone, t: int, tmp: StructTm) returns (ok: bool)
    requires z.Valid() && (z.Outside(t) || z.Known(t)) && forall x :: Readable(z.lsis, x)
    modifies tmp
    ensures Filled(ok, tmp.Value()) == LocalSubSpec(z, t, old(tmp.Value()))
    decreases if z.Outside(t) then 1 else 0
  {
    if z.Outside(t) {
      var newt, icycles := Fold(z, t);
      if newt < z.ats[0] || newt > z.ats[|z.ats| - 1] {
        return false;
      }
      ok := LocalSub(z, newt, tmp);
      if ok {
        ok := ShiftYears(tmp, if t < z.ats[0] then -icycles * YEARSPERREPEAT else icycles * YEARSPERREPEAT);
      }
    } else {
      ok := Direct(z, t, tmp);
    }
  }

  /** The year of the result, moved by whole cycles; the cast to `int` may lose bits. */
  method ShiftYears(tmp: StructTm, years: int) returns (ok: bool)
    modifies tmp`year
    ensures ok == IsInt(old(tmp.year) + years) && tmp.year == ToInt(old(tmp.year) + years)
  {
    var newy := tmp.year + years;
    ToIntLossless(newy);
    tmp.year := ToInt(newy);
    ok := tmp.year == newy;
  }

  /** The calendar repeats every 400 years, weekdays included. */
  lemma {:induction false} YearsRepeat(y: int, k: int)
    ensures DaysTo(y + 400 * k) == DaysTo(y) + 146097 * k
    decreases if k < 0 then -k else k
  {
    if k > 0 {
      YearsRepeat(y, k - 1);
      FourCenturies(y + 400 * (k - 1));
    } else if k < 0 {
      YearsRepeat(y, k + 1);
      FourCenturies(y + 400 * k);
    }
  }

  lemma LeapRepeats(y: int, k: int)
    ensures IsLeap(y + 400 * k) == IsLeap(y)
  {
    QuotientShift(y, 4, 100 * k);
    QuotientShift(y, 100, 4 * k);
    QuotientShift(y, 400, k);
  }

  lemma CivilRepeats(x: int, k: int)
    ensures Civil(x + k * SECSPERREPEAT) == Civil(x).(year := Civil(x).year + 400 * k)
  {
    var f := Civil(x);
    var g := f.(year := f.year + 400 * k);
    YearsRepeat(f.year + TM_YEAR_BASE, k);
    LeapRepeats(f.year + TM_YEAR_BASE, k);
    assert DayNumber(g) == DayNumber(f) + 146097 * k;
    QuotientShift(EPOCH_WDAY + DayNumber(f), 7, 20871 * k);
    DenotesUnique(g, Civil(x + k * SECSPERREPEAT), x + k * SECSPERREPEAT);
  }

  /** A folded time is always inside the table: the "cannot happen" return cannot happen. */
  lemma FoldLands(z: Zone, t: int)
    requires z.Valid() && z.SpansCycle() && z.Outside(t)
    ensures z.ats[0] <= Folded(z, t).0 <= z.ats[|z.ats| - 1]
    ensures !z.Outside(Folded(z, t).0) && z.Known(Folded(z, t).0)
  {
    var last := z.ats[|z.ats| - 1];
    if t < z.ats[0] {
      CyclesCover(z.ats[0] - t - 1);
    } else {
      CyclesCover(t - last - 1);
    }
  }

  lemma FoldedByCycles(z: Zone, t: int) returns (k: int)
    requires z.Valid() && z.Outside(t)
    ensures Folded(z, t) == (t - k * SECSPERREPEAT, k * YEARSPERREPEAT)
  {
    if t < z.ats[0] {
      k := -Cycles(z.ats[0] - t - 1);
    } else {
      k := Cycles(t - z.ats[|z.ats| - 1] - 1);
    }
  }

  lemma DirectWithoutLeaps(z: Zone, t: int, was: Tm)
    requires z.Valid() && z.Known(t) && z.lsis == []
    ensures var tt := z.ttis[TypeAt(z, t)];
      var r := DirectSpec(z, t, was);
      && (r.ok <==> Fits(t, tt.gmtoff))
      && (r.ok ==> r.tm == Civil(t + tt.gmtoff).(isdst := tt.isdst))
  {
    NoLeapSeconds(t, z.ttis[TypeAt(z, t)].gmtoff);
  }

  /** A result whose year is moved by `k` cycles, through the cast to `int`. */
  function Moved(r: Filled, k: int): Filled {
    if r.ok then Filled(IsInt(r.tm.year + k * YEARSPERREPEAT), r.tm.(year := ToInt(r.tm.year + k * YEARSPERREPEAT)))
    else r
  }

  lemma FoldedResult(z: Zone, t: int, was: Tm) returns (k: int)
    requires z.Valid() && z.SpansCycle() && z.Outside(t)
    ensures Folded(z, t).0 == t - k * SECSPERREPEAT && z.Known(t - k * SECSPERREPEAT)
    ensures LocalSubSpec(z, t, was) == Moved(DirectSpec(z, t - k * SECSPERREPEAT, was), k)
  {
    k := FoldedByCycles(z, t);
    FoldLands(z, t);
  }

  /** Moving the year of a converted time by whole cycles converts the time moved by them. */
  lemma MovedCivil(r: Filled, x: int, k: int, isdst: int)
    requires r.ok ==> r.tm == Civil(x).(isdst := isdst)
    ensures Moved(r, k).ok <==> r.ok && IsInt(Civil(x + k * SECSPERREPEAT).year)
    ensures Moved(r, k).ok ==> Moved(r, k).tm == Civil(x + k * SECSPERREPEAT).(isdst := isdst)
  {
    CivilRepeats(x, k);
    ToIntLossless(Civil(x).year + k * YEARSPERREPEAT);
  }

  /** Folding is sound: without leap seconds, a time outside the table is converted to its own
    * broken-down time under the type in effect at the folded time. */
  lemma FoldingSound(z: Zone, t: int, was: Tm)
    requires z.Valid() && z.SpansCycle() && z.Outside(t) && z.lsis == []
    ensures z.Known(Folded(z, t).0)
    ensures var newt := Folded(z, t).0;
      var tt := z.ttis[TypeAt(z, newt)];
      var r := LocalSubSpec(z, t, was);
      && (r.ok <==> Fits(newt, tt.gmtoff) && IsInt(Civil(t + tt.gmtoff).year))
      && (r.ok ==> r.tm == Civil(t + tt.gmtoff).(isdst := tt.isdst))
  {
    hide LocalSubSpec, DirectSpec, Folded, Fits, Denotes, TypeAt;
    var k := FoldedResult(z, t, was);
    var newt := t - k * SECSPERREPEAT;
    var tt := z.ttis[TypeAt(z, newt)];
    DirectWithoutLeaps(z, newt, was);
    MovedCivil(DirectSpec(z, newt, was), newt + tt.gmtoff, k, tt.isdst);
    assert newt + tt.gmtoff + k * SECSPERREPEAT == t + tt.gmtoff;
  }
}
