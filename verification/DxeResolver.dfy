/** The DXE3 resolver: collects a set of modules with everything that they depend on, and the
  * symbols that the set needs but does not export. */
module DxeResolver {
  import opened DxeFormat
  import opened Sequences
  import opened SymbolSets

  /** The part of the module header that the resolver reads. */
  datatype Header = Header(nExp: nat, expSize: nat, nUnres: nat, unresSize: nat, nDeps: nat)

  /** A module's header and its three tables, as `gettables` reads them. */
  datatype Module = Module(hdr: Header, table: seq<Byte>)
  {
    function ExportTrail(): Option<Trail> {
      Walk(Exports, table, 0, hdr.nExp)
    }

    function NeedTrail(): Option<Trail> {
      if ExportTrail().None? then None else Walk(Unresolveds, table, ExportTrail().value.end, hdr.nUnres)
    }

    function DepTrail(): Option<Trail> {
      Walk(Dependencies, table, hdr.expSize + hdr.unresSize, hdr.nDeps)
    }

    /** The counted records lie within the tables. */
    predicate WellFormed() {
      ExportTrail().Some? && NeedTrail().Some? && DepTrail().Some?
    }

    function ExportList(): seq<Name>
      requires WellFormed()
    {
      ExportTrail().value.names
    }

    function NeedList(): seq<Name>
      requires WellFormed()
    {
      NeedTrail().value.names
    }

    function DepList(): seq<Name>
      requires WellFormed()
    {
      DepTrail().value.names
    }
  }

  /** The modules that can be opened. */
  type Files = f: map<Name, Module> | forall x :: x in f ==> f[x].WellFormed() witness map[]

  /** A growing table of names. */
  class SymSet {
    var t: seq<Name>

    constructor ()
      ensures t == []
    {
      t := [];
    }
  }

  /** `parse`: the names of both symbol tables are appended. */
  method Parse(mod: Module, u: SymSet, e: SymSet)
    requires mod.WellFormed() && u != e
    modifies u, e
    ensures e.t == old(e.t) + mod.ExportList() && u.t == old(u.t) + mod.NeedList()
  {
    var scan := AppendNames(Exports, mod.table, 0, mod.hdr.nExp, e);
    scan := AppendNames(Unresolveds, mod.table, scan, mod.hdr.nUnres, u);
  }

  /** One loop of `parse`. */
  method AppendNames(kind: Kind, table: seq<Byte>, pos: nat, n: nat, s: SymSet) returns (scan: nat)
    requires Walk(kind, table, pos, n).Some?
    modifies s
    ensures s.t == old(s.t) + Walk(kind, table, pos, n).value.names
    ensures scan == Walk(kind, table, pos, n).value.end
  {
    hide RecordAt;
    scan := pos;
    ghost var trail := Walk(kind, table, pos, n).value;
    var i := 0;
    while i < n
      invariant 0 <= i <= n && Walk(kind, table, scan, n - i).Some?
      invariant Walk(kind, table, scan, n - i).value.end == trail.end
      invariant s.t + Walk(kind, table, scan, n - i).value.names == old(s.t) + trail.names
    {
      var r := RecordAt(kind, table, scan);
      ghost var rest := Walk(kind, table, r.value.next, n - i - 1).value.names;
      assert s.t + ([r.value.name] + rest) == (s.t + [r.value.name]) + rest;
      s.t := s.t + [r.value.name];
      scan := r.value.next;
      i := i + 1;
    }
  }

  /** The dependencies that are not yet listed, appended one after the other. */
  function AddMissing(m: seq<Name>, deps: seq<Name>): seq<Name>
    decreases |deps|
  {
    if deps == [] then m
    else AddMissing(if deps[0] in m then m else m + [deps[0]], deps[1..])
  }

  /** The dependency loop of `process`. */
  method AddDeps(mod: Module, m: SymSet)
    requires mod.WellFormed()
    modifies m
    ensures m.t == AddMissing(old(m.t), mod.DepList())
  {
    hide RecordAt;
    var scan: nat := mod.hdr.expSize + mod.hdr.unresSize;
    ghost var deps := mod.DepList();
    var j := 0;
    while j < mod.hdr.nDeps
      invariant 0 <= j <= mod.hdr.nDeps && Walk(Dependencies, mod.table, scan, mod.hdr.nDeps - j).Some?
      invariant AddMissing(m.t, Walk(Dependencies, mod.table, scan, mod.hdr.nDeps - j).value.names)
             == AddMissing(old(m.t), deps)
    {
      var r := RecordAt(Dependencies, mod.table, scan).value;
      ghost var rest := Walk(Dependencies, mod.table, r.next, mod.hdr.nDeps - j - 1).value.names;
      assert ([r.name] + rest)[1..] == rest;
      ghost var m0 := m.t;
      var found := false;
      var k := 0;
      while k < |m.t|
        invariant 0 <= k <= |m.t| && m.t == m0 && !found && r.name !in m0[..k]
      {
        StrCmpEqual(m.t[k], r.name);
        if StrCmp(m.t[k], r.name) == 0 {
          found := true;
          break;
        }
        k := k + 1;
      }
      if !found {
        assert m0[..k] == m0;
        m.t := m.t + [r.name];
      }
      scan := r.next;
      j := j + 1;
    }
  }

  /** Every name that some module depends on. */
  ghost function Universe(files: Files): set<Name> {
    set f, d | f in files && d in files[f].DepList() :: d
  }

  lemma {:induction false} DistinctFits(s: seq<Name>, u: set<Name>)
    requires Distinct(s) && forall x :: x in s ==> x in u
    ensures |s| <= |u|
    decreases |s|
  {
    if s != [] {
      var x := s[|s| - 1];
      forall y | y in s[..|s| - 1]
        ensures y in u - {x}
      {
      }
      DistinctFits(s[..|s| - 1], u - {x});
    }
  }

  /** A chain of dependencies. */
  ghost predicate Path(files: Files, p: seq<Name>) {
    |p| > 0 && forall i :: 0 <= i < |p| - 1 ==> p[i] in files && p[i + 1] in files[p[i]].DepList()
  }

  /** `x` is one of the roots or a transitive dependency of one. */
  ghost predicate Reachable(files: Files, roots: seq<Name>, x: Name) {
    exists p :: Path(files, p) && p[0] in roots && p[|p| - 1] == x
  }

  lemma ReachStep(files: Files, roots: seq<Name>, x: Name, y: Name)
    requires Reachable(files, roots, x) && x in files && y in files[x].DepList()
    ensures Reachable(files, roots, y)
  {
    hide Module.WellFormed, Module.DepList, Module.ExportList, Module.NeedList;
    var p :| Path(files, p) && p[0] in roots && p[|p| - 1] == x;
    assert Path(files, p + [y]) && (p + [y])[0] == p[0];
  }

  /** Module `k` of the list has been read: its dependencies are listed and its symbols collected. */
  ghost predicate Scanned(files: Files, m: seq<Name>, u: seq<Name>, e: seq<Name>, k: nat)
    requires k < |m|
  {
    && m[k] in files
    && (forall x :: x in files[m[k]].DepList() ==> x in m)
    && (forall x :: x in files[m[k]].ExportList() ==> x in e)
    && (forall x :: x in files[m[k]].NeedList() ==> x in u)
  }

  ghost predicate ExportedIn(files: Files, m: seq<Name>, x: Name) {
    exists y :: y in m && y in files && x in files[y].ExportList()
  }

  ghost predicate NeededIn(files: Files, m: seq<Name>, x: Name) {
    exists y :: y in m && y in files && x in files[y].NeedList()
  }

  /** Nothing is listed or collected without a reason; beyond the `r` roots no module is listed
    * twice. */
  ghost predicate Sound(files: Files, roots: seq<Name>, m: seq<Name>, u: seq<Name>, e: seq<Name>) {
    && roots <= m && Distinct(m[|roots|..])
    && (forall i :: |roots| <= i < |m| ==> m[i] in Universe(files))
    && (forall x :: x in m ==> Reachable(files, roots, x))
    && (forall x :: x in e ==> ExportedIn(files, m, x))
    && (forall x :: x in u ==> NeededIn(files, m, x))
  }

  lemma SoundFits(files: Files, roots: seq<Name>, m: seq<Name>, u: seq<Name>, e: seq<Name>)
    requires Sound(files, roots, m, u, e)
    ensures |m| <= |roots| + |Universe(files)|
  {
    DistinctFits(m[|roots|..], Universe(files));
  }

  lemma StillScanned(files: Files, m: seq<Name>, u: seq<Name>, e: seq<Name>,
                     m': seq<Name>, u': seq<Name>, e': seq<Name>, lo: nat, hi: nat)
    requires hi <= |m| && m <= m' && u <= u' && e <= e'
    requires forall k :: lo <= k < hi ==> Scanned(files, m, u, e, k)
    ensures forall k :: lo <= k < hi ==> Scanned(files, m', u', e', k)
  {
    forall k | lo <= k < hi
      ensures Scanned(files, m', u', e', k)
    {
      assert Scanned(files, m, u, e, k);
    }
  }

  lemma {:induction false} AddMissingAdds(files: Files, roots: seq<Name>, m: seq<Name>, u: seq<Name>, e: seq<Name>,
                                          deps: seq<Name>, x: Name)
    requires Sound(files, roots, m, u, e) && x in m && x in files
    requires forall d :: d in deps ==> d in files[x].DepList()
    ensures m <= AddMissing(m, deps) && Sound(files, roots, AddMissing(m, deps), u, e)
    ensures forall d :: d in deps ==> d in AddMissing(m, deps)
    decreases deps
  {
    hide Module.WellFormed, Module.DepList, Module.ExportList, Module.NeedList;
    hide Sound;
    if deps != [] {
      var m' := if deps[0] in m then m else m + [deps[0]];
      if deps[0] !in m {
        AddOne(files, roots, m, u, e, deps[0], x);
      }
      assert deps[0] in m';
      AddMissingAdds(files, roots, m', u, e, deps[1..], x);
      forall d | d in deps
        ensures d in AddMissing(m, deps)
      {
        if d == deps[0] {
          assert d in m';
        } else {
          assert d in deps[1..];
        }
      }
    }
  }

  lemma AddOne(files: Files, roots: seq<Name>, m: seq<Name>, u: seq<Name>, e: seq<Name>, d: Name, x: Name)
    requires Sound(files, roots, m, u, e) && x in m && x in files && d in files[x].DepList() && d !in m
    ensures Sound(files, roots, m + [d], u, e)
  {
    hide Module.WellFormed, Module.DepList, Module.ExportList, Module.NeedList;
    hide Reachable, Path, ExportedIn, NeededIn;
    ReachStep(files, roots, x, d);
    assert (m + [d])[|roots|..] == m[|roots|..] + [d];
    StillCollected(files, m, m + [d]);
  }

  lemma StillCollected(files: Files, m: seq<Name>, m': seq<Name>)
    requires m <= m'
    ensures forall x :: ExportedIn(files, m, x) ==> ExportedIn(files, m', x)
    ensures forall x :: NeededIn(files, m, x) ==> NeededIn(files, m', x)
  {
    hide Module.WellFormed, Module.DepList, Module.ExportList, Module.NeedList;
    assert forall y :: y in m ==> y in m';
  }

  lemma ParsedSound(files: Files, roots: seq<Name>, m: seq<Name>, u: seq<Name>, e: seq<Name>, x: Name)
    requires Sound(files, roots, m, u, e) && x in m && x in files
    ensures Sound(files, roots, m, u + files[x].NeedList(), e + files[x].ExportList())
  {
  }

  lemma NowScanned(files: Files, m: seq<Name>, u: seq<Name>, e: seq<Name>, k: nat, name: Name,
                   u0: seq<Name>, e0: seq<Name>)
    requires k < |m| && m[k] == name && name in files
    requires forall d :: d in files[name].DepList() ==> d in m
    requires u0 + files[name].NeedList() <= u && e0 + files[name].ExportList() <= e
    ensures Scanned(files, m, u, e, k)
  {
    hide Module.WellFormed, Module.DepList, Module.ExportList, Module.NeedList;
    assert forall x :: x in files[name].NeedList() ==> x in u0 + files[name].NeedList();
    assert forall x :: x in files[name].ExportList() ==> x in e0 + files[name].ExportList();
  }

  lemma NoDeps(mod: Module)
    requires mod.WellFormed() && mod.hdr.nDeps == 0
    ensures mod.DepList() == []
  {
  }

  /** `process`: from entry `idx` on, every listed module is read, and the modules listed meanwhile
    * as well, however often some of them are read again.  The recursion ends also when the
    * dependencies are cyclic. */
  method Process(idx: nat, m: SymSet, u: SymSet, e: SymSet, files: Files, ghost roots: seq<Name>) returns (rv: int)
    requires m != u && m != e && u != e && idx <= |m.t| && Sound(files, roots, m.t, u.t, e.t)
    modifies m, u, e
    ensures old(m.t) <= m.t && old(u.t) <= u.t && old(e.t) <= e.t && Sound(files, roots, m.t, u.t, e.t)
    ensures rv == 0 ==> forall k :: idx <= k < |m.t| ==> Scanned(files, m.t, u.t, e.t, k)
    ensures rv != 0 ==> rv == 3 && exists x :: x in m.t && x !in files
    decreases |roots| + |Universe(files)| - idx
  {
    hide Module.WellFormed, Module.DepList, Module.ExportList, Module.NeedList;
    hide Sound, Scanned, AddMissing, Universe;
    SoundFits(files, roots, m.t, u.t, e.t);
    var i, end := idx, |m.t|;
    while i < end
      invariant idx <= i <= end && end == old(|m.t|)
      invariant old(m.t) <= m.t && old(u.t) <= u.t && old(e.t) <= e.t && Sound(files, roots, m.t, u.t, e.t)
      invariant forall k :: idx <= k < i || end <= k < |m.t| ==> Scanned(files, m.t, u.t, e.t, k)
    {
      var name := m.t[i];
      if name !in files {
        return 3;
      }
      var mod := files[name];
      ghost var m0, u0, e0 := m.t, u.t, e.t;
      ParsedSound(files, roots, m.t, u.t, e.t, name);
      Parse(mod, u, e);
      if mod.hdr.nDeps != 0 {
        AddMissingAdds(files, roots, m.t, u.t, e.t, mod.DepList(), name);
        AddDeps(mod, m);
        rv := Process(end, m, u, e, files, roots);
        if rv != 0 {
          return;
        }
      } else {
        NoDeps(mod);
        StillScanned(files, m0, u0, e0, m.t, u.t, e.t, end, |m.t|);
      }
      NowScanned(files, m.t, u.t, e.t, i, name, u0, e0);
      StillScanned(files, m0, u0, e0, m.t, u.t, e.t, idx, i);
      i := i + 1;
    }
    rv := 0;
  }

  /** When every listed module has been read, the list is the closure. */
  lemma {:induction false} PathListed(files: Files, m: seq<Name>, u: seq<Name>, e: seq<Name>, p: seq<Name>)
    requires forall k :: 0 <= k < |m| ==> Scanned(files, m, u, e, k)
    requires Path(files, p) && p[0] in m
    ensures p[|p| - 1] in m
    decreases |p|
  {
    if |p| > 1 {
      var q := p[..|p| - 1];
      PathListed(files, m, u, e, q);
      var k :| 0 <= k < |m| && m[k] == q[|q| - 1];
      assert Scanned(files, m, u, e, k);
    }
  }

  lemma ListIsClosure(files: Files, roots: seq<Name>, m: seq<Name>, u: seq<Name>, e: seq<Name>)
    requires Sound(files, roots, m, u, e) && forall k :: 0 <= k < |m| ==> Scanned(files, m, u, e, k)
    ensures forall x :: x in m <==> Reachable(files, roots, x)
    ensures forall x :: x in e <==> ExportedIn(files, m, x)
    ensures forall x :: x in u <==> NeededIn(files, m, x)
    ensures forall x :: x in m ==> x in files
  {
    hide Module.WellFormed, Module.DepList, Module.ExportList, Module.NeedList;
    forall k | 0 <= k < |m|
      ensures m[k] in files
    {
      assert Scanned(files, m, u, e, k);
    }
    forall x | Reachable(files, roots, x)
      ensures x in m
    {
      var p :| Path(files, p) && p[0] in roots && p[|p| - 1] == x;
      PathListed(files, m, u, e, p);
    }
    forall x, y | y in m && y in files && x in files[y].ExportList()
      ensures x in e
    {
      var k :| 0 <= k < |m| && m[k] == y;
      assert Scanned(files, m, u, e, k);
    }
    forall x, y | y in m && y in files && x in files[y].NeedList()
      ensures x in u
    {
      var k :| 0 <= k < |m| && m[k] == y;
      assert Scanned(files, m, u, e, k);
    }
  }

  /** A symbol that some module of the closure needs and none exports. */
  ghost predicate Missing(files: Files, roots: seq<Name>, x: Name) {
    && (exists y :: Reachable(files, roots, y) && y in files && x in files[y].NeedList())
    && !(exists y :: Reachable(files, roots, y) && y in files && x in files[y].ExportList())
  }

  /** `resolve`, from the modules named on the command line to the table that is written out: it
    * fails exactly when some module of the closure cannot be opened; otherwise the modules are the
    * closure and the entries left are the missing symbols, each once and in order. */
  method Resolve(files: Files, argv: seq<Name>) returns (rv: int, m: seq<Name>, left: seq<Option<Name>>)
    ensures rv == 0 || rv == 3
    ensures rv == 3 <==> exists x :: Reachable(files, argv, x) && x !in files
    ensures rv == 0 ==> argv <= m && Distinct(m[|argv|..]) && forall x :: x in m <==> Reachable(files, argv, x)
    ensures rv == 0 ==> StrictlySorted(NonNull(left))
    ensures rv == 0 ==> forall x :: x in NonNull(left) <==> Missing(files, argv, x)
  {
    hide Module.WellFormed, Module.DepList, Module.ExportList, Module.NeedList;
    hide Sound, Scanned, Reachable, ExportedIn, NeededIn, Missing, Sifted, NonNull;
    var mset := new SymSet();
    var uset := new SymSet();
    var eset := new SymSet();
    mset.t := argv;
    RootsSound(files, argv);
    rv := Process(0, mset, uset, eset, files, argv);
    m, left := mset.t, [];
    SoundMeans(files, argv, m, uset.t, eset.t);
    if rv != 0 {
      return;
    }
    ListIsClosure(files, argv, m, uset.t, eset.t);
    var us := QSort(uset.t);
    var es := QSort(eset.t);
    var u := new Option<Name>[|us|](i requires 0 <= i < |us| => Some(us[i]));
    Sift(u, us, es);
    left := u[..];
    SiftIsDifference(us, es);
    SameNames(us, uset.t);
    SameNames(es, eset.t);
    MissingIs(files, argv, m);
  }

  lemma SameNames(s: seq<Name>, t: seq<Name>)
    requires multiset(s) == multiset(t)
    ensures forall x :: x in s <==> x in t
  {
    assert forall x :: x in s <==> x in multiset(s);
    assert forall x :: x in t <==> x in multiset(t);
  }

  lemma MissingIs(files: Files, roots: seq<Name>, m: seq<Name>)
    requires forall x :: x in m <==> Reachable(files, roots, x)
    ensures forall x :: Missing(files, roots, x) <==> NeededIn(files, m, x) && !ExportedIn(files, m, x)
  {
    hide Module.WellFormed, Module.DepList, Module.ExportList, Module.NeedList;
    hide Reachable;
  }

  lemma RootsSound(files: Files, roots: seq<Name>)
    ensures Sound(files, roots, roots, [], [])
  {
    hide Module.WellFormed, Module.DepList, Module.ExportList, Module.NeedList;
    forall x | x in roots
      ensures Reachable(files, roots, x)
    {
      assert Path(files, [x]);
    }
    assert roots[|roots|..] == [];
  }

  lemma SoundMeans(files: Files, roots: seq<Name>, m: seq<Name>, u: seq<Name>, e: seq<Name>)
    requires Sound(files, roots, m, u, e)
    ensures roots <= m && Distinct(m[|roots|..]) && forall x :: x in m ==> Reachable(files, roots, x)
  {
  }
}
