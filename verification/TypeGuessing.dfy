/** `time1`: the inverse conversion, with a second try under the assumption that the fields were
  * computed from a time of another type. */
module TypeGuessing {
  import opened CInts
  import opened Calendar
  import opened TimeConversion
  import opened LocalTime
  import opened Normalization
  import opened MakeTime
  import opened Sequences

  /** C's `!`. */
  function Not(x: int): int {
    if x == 0 then 1 else 0
  }

  /** Any positive daylight saving flag counts as 1. */
  function Clamped(f: Tm): Tm {
    f.(isdst := if f.isdst > 1 then 1 else f.isdst)
  }

  /** The fields of the same time under type `other`, for fields that are of type `same`; the sum
    * is an `int`. */
  function Adjusted(f: Tm, same: TtInfo, other: TtInfo): Tm {
    f.(sec := ToInt(f.sec + (other.gmtoff - same.gmtoff)), isdst := Not(f.isdst))
  }

  /** The adjustment undone. */
  function Undone(f: Tm, same: TtInfo, other: TtInfo): Tm {
    f.(sec := ToInt(f.sec - (other.gmtoff - same.gmtoff)), isdst := Not(f.isdst))
  }

  /** The `i`-th type in use. */
  function UsedType(z: Zone, i: nat): TtInfo
    requires z.Valid() && i < |InUse(z.types)|
  {
    assert InUse(z.types)[i] in z.types;
    z.ttis[InUse(z.types)[i]]
  }

  /** The `i`-th type in use is of the kind wanted and the `j`-th of the other: the request may have
    * been computed from a time of the latter. */
  predicate IsGuess(z: Zone, f: Tm, i: int, j: int)
    requires z.Valid()
  {
    && 0 <= i < |InUse(z.types)| && 0 <= j < |InUse(z.types)|
    && UsedType(z, i).isdst == f.isdst && UsedType(z, j).isdst != f.isdst
  }

  /** The request as it is adjusted then. */
  function Guess(z: Zone, f: Tm, i: int, j: int): Tm
    requires z.Valid() && IsGuess(z, f, i, j)
  {
    Adjusted(f, UsedType(z, i), UsedType(z, j))
  }

  /** The guess of `i` and `j` comes before that of `k` and `l`. */
  predicate GuessedBefore(i: int, j: int, k: int, l: int) {
    i < k || (i == k && j < l)
  }

  /** `t` answers the first guess that is not tried in vain: no guess before it must be found. */
  ghost predicate GuessAnswered(c: Converter, tt: TimeT, f: Tm, t: int)
    requires c.Valid() && tt.Valid()
  {
    exists k, l :: IsGuess(c.zone, f, k, l) && Answered(c, tt, Guess(c.zone, f, k, l), t)
      && forall i, j :: GuessedBefore(i, j, k, l) ==> !MustAnswer(c, tt, f, i, j)
  }

  /** The guess of `i` and `j` must be found. */
  ghost predicate MustAnswer(c: Converter, tt: TimeT, f: Tm, i: int, j: int)
    requires c.Valid() && tt.Valid()
  {
    IsGuess(c.zone, f, i, j) && Solved(c, tt, Guess(c.zone, f, i, j))
  }

  /** Neither the request nor a guess overwrites anything when it is tried in vain. */
  ghost predicate CleanGuesses(c: Converter, tt: TimeT, f: Tm)
    requires c.Valid()
  {
    Clean(c, tt, f) && forall i, j :: IsGuess(c.zone, f, i, j) ==> CleanGuess(c, tt, f, i, j)
  }

  ghost predicate CleanGuess(c: Converter, tt: TimeT, f: Tm, i: int, j: int)
    requires c.Valid() && IsGuess(c.zone, f, i, j)
  {
    Clean(c, tt, Guess(c.zone, f, i, j))
  }

  lemma AllShownAreClean(c: Converter, tt: TimeT, f: Tm)
    requires c.Valid() && AllShown(c, tt)
    ensures CleanGuesses(c, tt, f)
  {
    hide AllShown, Clean;
    AllShownIsClean(c, tt, f);
    forall i, j | IsGuess(c.zone, f, i, j)
      ensures CleanGuess(c, tt, f, i, j)
    {
      AllShownIsClean(c, tt, Guess(c.zone, f, i, j));
    }
  }

  /** The structure holds `g` after the request `f` itself and then guesses between the given types
    * have been tried in vain. */
  ghost predicate Tried(c: Converter, tt: TimeT, f: Tm, guesses: seq<(TtInfo, TtInfo)>, g: Tm)
    requires c.Valid()
    decreases |guesses|
  {
    if guesses == [] then Fails(c, tt, f, g)
    else
      var (same, other) := guesses[|guesses| - 1];
      exists h, r :: Tried(c, tt, f, guesses[..|guesses| - 1], h) && Fails(c, tt, Adjusted(h, same, other), r)
        && g == Undone(r, same, other)
  }

  /** `t` answers what a guess makes of the structure after any number of vain ones. */
  ghost predicate LaterAnswered(c: Converter, tt: TimeT, f: Tm, t: int)
    requires c.Valid()
  {
    exists guesses, h, a, b :: Tried(c, tt, f, guesses, h) && a in c.zone.types && b in c.zone.types
      && c.zone.ttis[b].isdst != h.isdst && Answered(c, tt, Adjusted(h, c.zone.ttis[a], c.zone.ttis[b]), t)
  }

  /** The types in use, each once, by their last uses: the type of the last transition first. */
  function InUse(types: seq<nat>): (r: seq<nat>)
    ensures forall i :: i in r <==> i in types
  {
    if types == [] then []
    else
      var rest := InUse(types[1..]);
      if types[0] in rest then rest else rest + [types[0]]
  }

  lemma {:induction false} InUseDistinct(types: seq<nat>)
    ensures Distinct(InUse(types))
  {
    if types != [] {
      InUseDistinct(types[1..]);
    }
  }

  /** A type comes before another when its last use does not come before that of the other. */
  lemma {:induction false} LatestFirst(types: seq<nat>, i: nat, j: nat, k: nat)
    requires i < j < |InUse(types)| && k < |types| && types[k] == InUse(types)[j]
    ensures exists l :: k < l < |types| && types[l] == InUse(types)[i]
  {
    var rest := InUse(types[1..]);
    if k == 0 {
      assert i < |rest| && InUse(types)[i] == rest[i] && rest[i] in types[1..];
      var l :| 0 <= l < |types[1..]| && types[1..][l] == rest[i];
      assert types[l + 1] == rest[i];
    } else {
      assert types[1..][k - 1] in rest;
      InUseDistinct(types);
      assert j < |rest|;
      LatestFirst(types[1..], i, j, k - 1);
      var l :| k - 1 < l < |types[1..]| && types[1..][l] == rest[i];
      assert types[l + 1] == InUse(types)[i];
    }
  }

  /** The list of the types in use, by their last uses. */
  method SeenTypes(z: Zone) returns (types: seq<nat>)
    requires z.Valid()
    ensures types == InUse(z.types) && Distinct(types)
  {
    var seen := new bool[|z.ttis|](_ => false);
    types := [];
    var i := |z.types| - 1;
    while i >= 0
      invariant -1 <= i < |z.types|
      invariant types == InUse(z.types[i + 1..])
      invariant forall k :: 0 <= k < |z.ttis| ==> (seen[k] <==> k in types)
    {
      assert z.types[i..][1..] == z.types[i + 1..];
      if !seen[z.types[i]] {
        seen[z.types[i]] := true;
        types := types + [z.types[i]];
      }
      i := i - 1;
    }
    assert z.types[0..] == z.types;
    InUseDistinct(z.types);
  }

  lemma ToIntBack(x: int, d: int)
    requires IsInt(x)
    ensures IsInt(ToInt(x + d)) && ToInt(ToInt(x + d) - d) == x
  {
  }

  lemma FailedUtc(f: Tm, o: int, tt: TimeT)
    ensures !Time2Outcome(f, o, tt).ok ==> Time2Outcome(f, o, tt).tm.isdst == f.isdst
  {
    hide Fits, LinearInstant, CanNormalize, BrokenDown;
  }

  lemma TriedOneMore(c: Converter, tt: TimeT, f: Tm, guesses: seq<(TtInfo, TtInfo)>, h: Tm,
                     same: TtInfo, other: TtInfo, r: Tm)
    requires c.Valid() && Tried(c, tt, f, guesses, h) && Fails(c, tt, Adjusted(h, same, other), r)
    ensures Tried(c, tt, f, guesses + [(same, other)], Undone(r, same, other))
  {
    hide Fails;
    var more := guesses + [(same, other)];
    assert more[..|more| - 1] == guesses && more[|more| - 1] == (same, other);
    assert Tried(c, tt, f, more[..|more| - 1], h);
  }

  /** One guess: the fields are adjusted, tried, and put back when the try fails. */
  method TryGuess(tmp: StructTm, c: Converter, tt: TimeT, same: TtInfo, other: TtInfo)
    returns (okay: bool, t: int, ghost left: Tm)
    requires c.Valid() && tt.Valid() && AllInts(tmp.Value())
    modifies tmp
    ensures okay ==>
      tt.Has(t) && tmp.Value() == Shown(c, t).tm && Answered(c, tt, Adjusted(old(tmp.Value()), same, other), t)
    ensures !okay ==> AllInts(tmp.Value())
    ensures !okay ==>
      Fails(c, tt, Adjusted(old(tmp.Value()), same, other), left) && tmp.Value() == Undone(left, same, other)
    ensures Solved(c, tt, Adjusted(old(tmp.Value()), same, other)) ==> okay
    ensures !okay && Clean(c, tt, Adjusted(old(tmp.Value()), same, other)) && 0 <= old(tmp.isdst) <= 1 ==>
      tmp.Value() == old(tmp.Value())
  {
    hide Shown, Clean, Answered, Fails, Solved;
    var d := other.gmtoff - same.gmtoff;
    ToIntBack(tmp.sec, d);
    tmp.sec := ToInt(tmp.sec + d);
    tmp.isdst := Not(tmp.isdst);
    okay, t := Time2(tmp, c, tt);
    left := tmp.Value();
    if !okay {
      ToIntBack(tmp.sec, -d);
      tmp.sec := ToInt(tmp.sec - d);
      tmp.isdst := Not(tmp.isdst);
    }
  }

  /** `time1`.  An answer is right for the request, or for what a guess makes of it after vain ones;
    * a request that must be found is found, and when nothing is overwritten in vain the first guess
    * that must be found is, and a failure changes nothing.  The fields shown for a time, inserted
    * seconds included, lead back to that time.  For UTC without leap seconds there is nothing to
    * guess. */
  method Time1(tmp: StructTm, c: Converter, tt: TimeT) returns (okay: bool, t: int)
    requires c.Valid() && tt.Valid() && AllInts(tmp.Value())
    modifies tmp
    ensures okay ==> tt.Has(t) && tmp.Value() == Shown(c, t).tm
    ensures okay ==> var f := Clamped(old(tmp.Value()));
      Answered(c, tt, f, t) || LaterAnswered(c, tt, f, t)
    ensures LeapUtc(c) ==> forall x :: Asks(c, tt, old(tmp.Value()), x) ==> okay && t == x
    ensures Solved(c, tt, Clamped(old(tmp.Value()))) ==> okay
    ensures CleanGuesses(c, tt, Clamped(old(tmp.Value()))) ==>
      var f := Clamped(old(tmp.Value()));
      if okay then Answered(c, tt, f, t) || (!Solved(c, tt, f) && GuessAnswered(c, tt, f, t))
      else tmp.Value() == f && t == -1 && (f.isdst < 0 || forall i, j :: !MustAnswer(c, tt, f, i, j))
    ensures PlainUtc(c) && old(tmp.isdst) == 0 && NoDst(c.zone) ==>
      var r := Time2Outcome(old(tmp.Value()), c.offset, tt);
      okay == r.ok && tmp.Value() == r.tm && t == if okay then r.t else -1
  {
    hide Shown, Clean, Answered, Fails, UtcOutcome, Tried, LeapUtc, Solved;
    AskedClamped(c, tt, tmp.Value());
    if tmp.isdst > 1 {
      tmp.isdst := 1;
    }
    ghost var f := tmp.Value();
    okay, t := Time2(tmp, c, tt);
    if PlainUtc(c) {
      FailedUtc(f, c.offset, tt);
    }
    if okay || tmp.isdst < 0 {
      return;
    }
    NothingTried(c, tt, f, tmp.Value());
    okay, t := TryGuesses(tmp, c, tt, f);
  }

  /** The guesses, by the last uses of the types. */
  method TryGuesses(tmp: StructTm, c: Converter, tt: TimeT, ghost f: Tm) returns (okay: bool, t: int)
    requires c.Valid() && tt.Valid() && AllInts(tmp.Value()) && Tried(c, tt, f, [], tmp.Value())
    requires CleanGuesses(c, tt, f) ==> tmp.Value() == f && 0 <= f.isdst <= 1
    modifies tmp
    ensures okay ==> tt.Has(t) && tmp.Value() == Shown(c, t).tm && LaterAnswered(c, tt, f, t)
    ensures CleanGuesses(c, tt, f) ==>
      if okay then GuessAnswered(c, tt, f, t)
      else tmp.Value() == f && forall i, j :: !MustAnswer(c, tt, f, i, j)
    ensures c.Gmt? && NoDst(c.zone) && old(tmp.isdst) == 0 ==> !okay && tmp.Value() == old(tmp.Value())
    ensures !okay ==> t == -1
  {
    hide Shown, Clean, Answered, Fails, Tried, Solved;
    var sp := c.zone;
    var types := SeenTypes(sp);
    ghost var g := tmp.Value();
    ghost var guesses: seq<(TtInfo, TtInfo)> := [];
    ghost var dull := c.Gmt? && NoDst(sp) && g.isdst == 0;
    ghost var clean := CleanGuesses(c, tt, f);
    for sameind := 0 to |types|
      invariant AllInts(tmp.Value()) && Tried(c, tt, f, guesses, tmp.Value())
      invariant clean ==> tmp.Value() == f
      invariant clean ==> forall i, j :: i < sameind ==> !MustAnswer(c, tt, f, i, j)
      invariant dull ==> tmp.Value() == g
    {
      assert types[sameind] in types;
      var same := sp.ttis[types[sameind]];
      if same.isdst == tmp.isdst {
        for otherind := 0 to |types|
          invariant AllInts(tmp.Value()) && Tried(c, tt, f, guesses, tmp.Value())
          invariant clean ==> tmp.Value() == f
          invariant clean ==> forall i, j :: GuessedBefore(i, j, sameind, otherind) ==> !MustAnswer(c, tt, f, i, j)
          invariant dull ==> tmp.Value() == g
        {
          assert types[otherind] in types;
          var other := sp.ttis[types[otherind]];
          if other.isdst != tmp.isdst {
            ghost var h := tmp.Value();
            ghost var left;
            assert clean ==> IsGuess(sp, f, sameind, otherind) && CleanGuess(c, tt, f, sameind, otherind);
            okay, t, left := TryGuess(tmp, c, tt, same, other);
            if okay {
              LaterGuess(c, tt, f, guesses, h, types[sameind], types[otherind], t);
              return;
            }
            TriedOneMore(c, tt, f, guesses, h, same, other, left);
            guesses := guesses + [(same, other)];
          }
        }
      }
    }
    return false, -1;
  }

  lemma LaterGuess(c: Converter, tt: TimeT, f: Tm, guesses: seq<(TtInfo, TtInfo)>, h: Tm, a: nat, b: nat, t: int)
    requires c.Valid() && Tried(c, tt, f, guesses, h) && a in c.zone.types && b in c.zone.types
    requires c.zone.ttis[b].isdst != h.isdst && Answered(c, tt, Adjusted(h, c.zone.ttis[a], c.zone.ttis[b]), t)
    ensures LaterAnswered(c, tt, f, t)
  {
  }

  /** No type of the state is daylight saving time. */
  predicate NoDst(z: Zone) {
    forall i :: 0 <= i < |z.ttis| ==> z.ttis[i].isdst == 0
  }

  lemma NothingTried(c: Converter, tt: TimeT, f: Tm, g: Tm)
    requires c.Valid() && Fails(c, tt, f, g)
    ensures Tried(c, tt, f, [], g)
  {
  }

  lemma AskedClamped(c: Converter, tt: TimeT, f: Tm)
    requires c.Valid()
    ensures forall x :: Asks(c, tt, f, x) ==> f.isdst <= 0 && Clamped(f) == f
  {
  }

  /** The local time type shown for `t`: the one in effect at `t`, or at the time that `t` is folded
    * to. */
  ghost function TypeShown(z: Zone, t: int): TtInfo
    requires z.Valid() && z.defaulttype < |z.ttis|
  {
    z.ttis[TypeAt(z, if z.Outside(t) then Folded(z, t).0 else t)]
  }

  lemma LocalShown(z: Zone, t: int)
    requires Local(z).Valid() && z.SpansCycle() && z.lsis == [] && Shown(Local(z), t).ok
    ensures var tt := TypeShown(z, t);
      Shown(Local(z), t).tm == Civil(t + tt.gmtoff).(isdst := tt.isdst)
  {
    if z.Outside(t) {
      FoldingSound(z, t, BLANK);
    } else {
      DirectWithoutLeaps(z, t, BLANK);
    }
  }

  /** What is sought for local time without leap seconds is the second count of the fields, whatever
    * their ranges, minus the offset of the local time type shown for the time found before the
    * seconds set aside were added; and that type has the daylight saving flag asked for. */
  lemma SoughtInstant(z: Zone, tt: TimeT, f: Tm, normSecs: bool, t: int) returns (base: int)
    requires Local(z).Valid() && z.SpansCycle() && z.lsis == [] && Sought(Local(z), tt, f, normSecs, t)
    ensures tt.Has(base) && (0 <= f.sec < 60 || normSecs ==> base == t)
    ensures t == LinearInstant(f) - TypeShown(z, base).gmtoff
    ensures f.isdst < 0 || TypeShown(z, base).isdst == f.isdst
  {
    hide Shown, LinearInstant, TypeShown, Fits, TmComp;
    var n :| IsNormalForm(n, f, normSecs) && tt.Has(t - Saved(n)) && Matches(Local(z), Target(n), t - Saved(n));
    base := t - Saved(n);
    LocalShown(z, base);
    TargetInstant(n);
    ComparedInstant(base + TypeShown(z, base).gmtoff, TypeShown(z, base).isdst, Target(n));
    hide Instant, IsDate, Target;
  }

  /** So that is what an answer means. */
  lemma AnswerIsInstant(z: Zone, tt: TimeT, f: Tm, normSecs: bool, t: int) returns (base: int)
    requires Local(z).Valid() && z.SpansCycle() && z.lsis == [] && Answers(Local(z), tt, f, normSecs, t)
    ensures tt.Has(base) && (0 <= f.sec < 60 || normSecs ==> base == t)
    ensures t == LinearInstant(f) - TypeShown(z, base).gmtoff
    ensures f.isdst < 0 || TypeShown(z, base).isdst == f.isdst
  {
    hide Sought, Shown;
    base := SoughtInstant(z, tt, f, normSecs, t);
  }

  /** The fields searched for are canonical, and stand for the instant less the seconds set aside. */
  lemma TargetInstant(n: Tm)
    requires IsDate(n) && 0 <= n.hour < 24 && 0 <= n.min < 60
    ensures IsCanonical(Target(n)) && Instant(Target(n)) == Instant(n) - Saved(n) && Target(n).isdst == n.isdst
  {
    hide DaysTo, MonthStart, IsLeap;
  }

  lemma ComparedInstant(x: int, isdst: int, f: Tm)
    requires IsCanonical(f) && TmComp(Civil(x).(isdst := isdst), f) == 0
    ensures Instant(f) == x
  {
    hide DaysTo, MonthStart, IsLeap, DayNumber;
    FieldOrderIsTimeOrder(Civil(x), f);
  }
}
