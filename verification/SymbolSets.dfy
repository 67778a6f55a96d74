/** Sorted sets of symbol names in the resolver: `strcmp`, `bsearch` and `sift`. */
module SymbolSets {
  import opened DxeFormat

  /** The character at position `k` of a C string, the terminator included. */
  function At(a: Name, k: nat): int
    requires k <= |a|
  {
    if k < |a| then a[k] else 0
  }

  /** `strcmp` from position `k` on. */
  function StrCmpFrom(a: Name, b: Name, k: nat): int
    requires k <= |a| && k <= |b|
    decreases |a| - k
  {
    if At(a, k) != At(b, k) then At(a, k) - At(b, k)
    else if At(a, k) == 0 then 0
    else
      assert k < |a| && k < |b|;
      StrCmpFrom(a, b, k + 1)
  }

  function StrCmp(a: Name, b: Name): int {
    StrCmpFrom(a, b, 0)
  }

  predicate Before(a: Name, b: Name) {
    StrCmp(a, b) < 0
  }

  lemma {:induction false} NoZero(a: Name, k: nat)
    requires k <= |a|
    ensures At(a, k) == 0 <==> k == |a|
  {
    if k < |a| {
      assert a[k] in a;
    }
  }

  lemma {:induction false} StrCmpFromEqual(a: Name, b: Name, k: nat)
    requires k <= |a| && k <= |b|
    ensures StrCmpFrom(a, b, k) == 0 <==> a[k..] == b[k..]
    decreases |a| - k
  {
    NoZero(a, k);
    NoZero(b, k);
    if k < |a| && k < |b| {
      StrCmpFromEqual(a, b, k + 1);
      assert a[k..] == [a[k]] + a[k + 1..] && b[k..] == [b[k]] + b[k + 1..];
    }
  }

  /** The lexicographic order: `a` is a proper beginning of `b`, or has the smaller byte where they
    * first differ. */
  predicate Precedes(a: Name, b: Name) {
    || (|a| < |b| && a == b[..|a|])
    || exists k :: 0 <= k < |a| && k < |b| && a[..k] == b[..k] && a[k] < b[k]
  }

  /** What `strcmp` compares from position `k` on, up to which the strings agree. */
  lemma {:induction false} StrCmpFromOrder(a: Name, b: Name, k: nat)
    requires k <= |a| && k <= |b| && a[..k] == b[..k]
    ensures StrCmpFrom(a, b, k) < 0 ==> Precedes(a, b)
    ensures StrCmpFrom(a, b, k) > 0 ==> Precedes(b, a)
    decreases |a| - k
  {
    NoZero(a, k);
    NoZero(b, k);
    if k < |a| && k < |b| && a[k] == b[k] {
      assert a[..k + 1] == a[..k] + [a[k]] && b[..k + 1] == b[..k] + [b[k]];
      StrCmpFromOrder(a, b, k + 1);
    } else if k == |a| && k < |b| {
      assert a == a[..k];
    } else if k == |b| && k < |a| {
      assert b == b[..k];
    }
  }

  lemma PrecedesOneWay(a: Name, b: Name)
    requires Precedes(a, b)
    ensures a != b && !Precedes(b, a)
  {
    if |a| < |b| && a == b[..|a|] {
      forall k | 0 <= k < |a|
        ensures a[k] == b[k]
      {
        assert b[..|a|][k] == b[k];
      }
    } else {
      var k :| 0 <= k < |a| && k < |b| && a[..k] == b[..k] && a[k] < b[k];
      FirstDifference(a, b, k);
    }
  }

  lemma FirstDifference(a: Name, b: Name, k: nat)
    requires k < |a| && k < |b| && a[..k] == b[..k] && a[k] < b[k]
    ensures a != b && !Precedes(b, a)
  {
    assert forall j :: 0 <= j < k ==> a[..k][j] == b[..k][j];
    assert forall j :: 0 <= j < k ==> a[j] == b[j];
    if |b| < |a| {
      assert a[..|b|][k] != b[k];
    }
    forall j | k < j < |b| && j < |a|
      ensures b[..j] != a[..j]
    {
      assert b[..j][k] != a[..j][k];
    }
  }

  /** So `strcmp` orders by the unsigned bytes, the shorter string first. */
  lemma BeforeExactly(a: Name, b: Name)
    ensures Before(a, b) <==> Precedes(a, b)
    ensures StrCmp(a, b) == 0 <==> a == b
    ensures StrCmp(a, b) > 0 <==> Precedes(b, a)
  {
    StrCmpEqual(a, b);
    StrCmpFromOrder(a, b, 0);
    if Precedes(a, b) {
      PrecedesOneWay(a, b);
    }
    if Precedes(b, a) {
      PrecedesOneWay(b, a);
    }
    hide Precedes, StrCmpFrom;
  }

  /** `strcmp` is zero exactly on equal strings. */
  lemma StrCmpEqual(a: Name, b: Name)
    ensures StrCmp(a, b) == 0 <==> a == b
  {
    StrCmpFromEqual(a, b, 0);
    assert a[0..] == a && b[0..] == b;
  }

  lemma {:induction false} StrCmpFromFlips(a: Name, b: Name, k: nat)
    requires k <= |a| && k <= |b|
    ensures StrCmpFrom(a, b, k) == -StrCmpFrom(b, a, k)
    decreases |a| - k
  {
    NoZero(a, k);
    NoZero(b, k);
    if k < |a| && k < |b| {
      StrCmpFromFlips(a, b, k + 1);
    }
  }

  lemma {:induction false} BeforeFromTransitive(a: Name, b: Name, c: Name, k: nat)
    requires k <= |a| && k <= |b| && k <= |c|
    requires StrCmpFrom(a, b, k) < 0 && StrCmpFrom(b, c, k) < 0
    ensures StrCmpFrom(a, c, k) < 0
    decreases |a| - k
  {
    NoZero(a, k);
    NoZero(b, k);
    NoZero(c, k);
    if k < |a| && k < |b| && k < |c| && a[k] == b[k] == c[k] {
      BeforeFromTransitive(a, b, c, k + 1);
    }
  }

  /** `strcmp` is a strict total order. */
  lemma BeforeTotal(a: Name, b: Name)
    ensures Before(a, b) || a == b || Before(b, a)
    ensures !(Before(a, b) && Before(b, a)) && !Before(a, a)
  {
    StrCmpEqual(a, b);
    StrCmpEqual(a, a);
    StrCmpFromFlips(a, b, 0);
  }

  lemma BeforeTransitive(a: Name, b: Name, c: Name)
    requires Before(a, b) && Before(b, c)
    ensures Before(a, c)
  {
    BeforeFromTransitive(a, b, c, 0);
  }

  predicate Sorted(s: seq<Name>) {
    forall i, j :: 0 <= i < j < |s| ==> !Before(s[j], s[i])
  }

  predicate StrictlySorted(s: seq<Name>) {
    forall i, j :: 0 <= i < j < |s| ==> Before(s[i], s[j])
  }

  /** In a sorted sequence everything before an entry that is before `key` is before it too. */
  lemma SortedBelow(s: seq<Name>, key: Name, i: nat, j: nat)
    requires Sorted(s) && i <= j < |s| && Before(s[j], key)
    ensures Before(s[i], key)
  {
    BeforeTotal(s[i], s[j]);
    if i < j && s[i] != s[j] {
      BeforeTransitive(s[i], s[j], key);
    }
  }

  lemma SortedAbove(s: seq<Name>, key: Name, i: nat, j: nat)
    requires Sorted(s) && i <= j < |s| && Before(key, s[i])
    ensures Before(key, s[j])
  {
    BeforeTotal(s[i], s[j]);
    if i < j && s[i] != s[j] {
      BeforeTransitive(key, s[i], s[j]);
    }
  }

  /** `bsearch` of the C library: in a sorted table it finds exactly the names that are there. */
  method BSearch(key: Name, t: seq<Name>) returns (found: bool)
    requires Sorted(t)
    ensures found <==> key in t
  {
    var base, lim := 0, |t|;
    while lim != 0
      invariant 0 <= lim && 0 <= base && base + lim <= |t|
      invariant forall i :: 0 <= i < base ==> Before(t[i], key)
      invariant forall i :: base + lim <= i < |t| ==> Before(key, t[i])
    {
      var p := base + lim / 2;
      var cmpval := StrCmp(key, t[p]);
      StrCmpEqual(key, t[p]);
      StrCmpFromFlips(key, t[p], 0);
      if cmpval == 0 {
        return true;
      }
      if cmpval > 0 {
        forall i | 0 <= i < p + 1
          ensures Before(t[i], key)
        {
          SortedBelow(t, key, i, p);
        }
        base := p + 1;
        lim := lim - 1;
      } else {
        forall i | p <= i < |t|
          ensures Before(key, t[i])
        {
          SortedAbove(t, key, p, i);
        }
      }
      lim := lim / 2;
    }
    forall i | 0 <= i < |t|
      ensures t[i] != key
    {
      BeforeTotal(t[i], key);
    }
    found := false;
  }

  /** What `sift` leaves of entry `k`: the first of a run of equal names that no module exports. */
  function SiftedAt(us: seq<Name>, e: seq<Name>, k: nat): Option<Name>
    requires k < |us|
  {
    if (k > 0 && us[k - 1] == us[k]) || us[k] in e then None else Some(us[k])
  }

  function Sifted(us: seq<Name>, e: seq<Name>): seq<Option<Name>> {
    seq(|us|, k requires 0 <= k < |us| => SiftedAt(us, e, k))
  }

  /** The inner loop of `sift`: the repeats of entry `i` are nulled. */
  method NullRepeats(u: array<Option<Name>>, ghost us: seq<Name>, i: nat) returns (j: nat)
    requires i < |us| == u.Length && forall k :: i <= k < |us| ==> u[k] == Some(us[k])
    modifies u
    ensures i < j <= u.Length && (forall k :: i < k < j ==> us[k - 1] == us[k] && us[k] == us[i] && u[k] == None)
    ensures forall k :: 0 <= k <= i || j <= k < u.Length ==> u[k] == old(u[k])
    ensures j < u.Length ==> us[j] != us[j - 1]
  {
    hide StrCmp;
    var name := u[i].value;
    j := i + 1;
    while j < u.Length && StrCmp(name, u[j].value) == 0
      invariant i < j <= u.Length
      invariant forall k :: i < k < j ==> us[k - 1] == us[k] && us[k] == name && u[k] == None
      invariant forall k :: 0 <= k <= i || j <= k < u.Length ==> u[k] == old(u[k])
    {
      StrCmpEqual(name, us[j]);
      u[j] := None;
      j := j + 1;
    }
    if j < u.Length {
      StrCmpEqual(name, us[j]);
    }
  }

  /** `sift`: entries are nulled in place, run by run. */
  method Sift(u: array<Option<Name>>, ghost us: seq<Name>, e: seq<Name>)
    requires |us| == u.Length && forall k :: 0 <= k < |us| ==> u[k] == Some(us[k])
    requires Sorted(e)
    modifies u
    ensures u[..] == Sifted(us, e)
  {
    hide Sorted;
    var i := 0;
    while i < u.Length
      invariant 0 <= i <= u.Length
      invariant 0 < i < u.Length ==> us[i - 1] != us[i]
      invariant forall k :: 0 <= k < i ==> u[k] == SiftedAt(us, e, k)
      invariant forall k :: i <= k < u.Length ==> u[k] == Some(us[k])
    {
      var name := u[i].value;
      var j := NullRepeats(u, us, i);
      var found := BSearch(name, e);
      if found {
        u[i] := None;
      }
      i := j;
    }
  }

  /** The entries that are left, in order. */
  function NonNull(t: seq<Option<Name>>): seq<Name> {
    if t == [] then []
    else NonNull(t[..|t| - 1]) + (if t[|t| - 1].Some? then [t[|t| - 1].value] else [])
  }

  lemma SiftedPrefix(us: seq<Name>, e: seq<Name>, n: nat)
    requires n < |us|
    ensures Sifted(us, e)[..n] == Sifted(us[..n], e)
  {
  }

  /** The first of a run of equal names is after everything before it. */
  lemma RunAfter(us: seq<Name>, n: nat, x: Name)
    requires Sorted(us) && n < |us| && x in us[..n] && us[n - 1] != us[n]
    ensures Before(x, us[n])
  {
    var k :| 0 <= k < n && us[k] == x;
    BeforeTotal(us[n - 1], us[n]);
    SortedBelow(us, us[n], k, n - 1);
  }

  /** For sorted names, `sift` leaves exactly the names that are not exported, each once and in
    * order. */
  lemma {:induction false} SiftIsDifference(us: seq<Name>, e: seq<Name>)
    requires Sorted(us)
    ensures StrictlySorted(NonNull(Sifted(us, e)))
    ensures forall x :: x in NonNull(Sifted(us, e)) <==> x in us && x !in e
    decreases |us|
  {
    if us != [] {
      var n := |us| - 1;
      var last := us[n];
      SiftedPrefix(us, e, n);
      SiftIsDifference(us[..n], e);
      var kept := NonNull(Sifted(us[..n], e));
      assert us == us[..n] + [last];
      if SiftedAt(us, e, n).Some? {
        forall i | 0 <= i < |kept|
          ensures Before(kept[i], last)
        {
          RunAfter(us, n, kept[i]);
        }
        assert NonNull(Sifted(us, e)) == kept + [last];
      } else if last !in e {
        assert last == us[n - 1] && last in us[..n];
      }
    }
  }

  /** A sorting routine with the contract of `qsort` under this order. */
  method QSort(s: seq<Name>) returns (r: seq<Name>)
    ensures Sorted(r) && multiset(r) == multiset(s)
  {
    hide Sorted, StrCmp;
    EmptySorted();
    r := [];
    var i := 0;
    while i < |s|
      invariant 0 <= i <= |s| && Sorted(r) && multiset(r) == multiset(s[..i])
    {
      var j := |r|;
      while j > 0 && Before(s[i], r[j - 1])
        invariant 0 <= j <= |r|
        invariant forall k :: j <= k < |r| ==> Before(s[i], r[k])
      {
        j := j - 1;
      }
      InsertSorted(r, s[i], j);
      OneMore(r, s[i], j);
      assert s[..i + 1] == s[..i] + [s[i]];
      r := r[..j] + [s[i]] + r[j..];
      i := i + 1;
    }
    assert s[..i] == s;
  }

  lemma OneMore(r: seq<Name>, x: Name, j: nat)
    requires j <= |r|
    ensures multiset(r[..j] + [x] + r[j..]) == multiset(r) + multiset{x}
  {
    assert r == r[..j] + r[j..];
  }

  lemma EmptySorted()
    ensures Sorted([])
  {
  }

  lemma InsertSorted(r: seq<Name>, x: Name, j: nat)
    requires Sorted(r) && j <= |r|
    requires j > 0 ==> !Before(x, r[j - 1])
    requires forall k :: j <= k < |r| ==> Before(x, r[k])
    ensures Sorted(r[..j] + [x] + r[j..])
  {
    var t := r[..j] + [x] + r[j..];
    forall a, b | 0 <= a < b < |t|
      ensures !Before(t[b], t[a])
    {
      if b == j {
        if Before(x, r[a]) {
          SortedAbove(r, x, a, j - 1);
        }
      } else if a == j {
        BeforeTotal(x, t[b]);
      }
    }
  }
}
