/** Which symbols of the object the symbol loop of `write_dxe` exports, lists as unresolved, and
  * fails on. */
module DxeSymbols {
  import opened DxeFilters
  import opened DxeFormat
  import opened DxeGenerator
  import opened DxePartition

  /** The indices of the symbols proper: each is followed by its auxiliary entries. */
  function Heads(syms: seq<Symbol>, i: nat): seq<nat>
    decreases |syms| - i
  {
    if i >= |syms| then [] else [i] + Heads(syms, i + 1 + syms[i].numaux)
  }

  /** A named symbol that is not private and that no section defines. */
  predicate Undefined(sym: Symbol) {
    sym.name != [] && sym.sclass != C_STAT && sym.scnum == 0
  }

  predicate Referenced(rs: seq<Reloc>, i: nat) {
    exists j :: 0 <= j < |rs| && rs[j].symndx == i
  }

  /** A defined external symbol that passes the filters, other than the two entry points. */
  predicate IsCandidate(sym: Symbol, o: Options) {
    && sym.name != [] && sym.sclass == C_EXT && sym.scnum != 0
    && sym.name != INIT && sym.name != FINI && o.Passes(sym.name)
  }

  /** It is exported if there is no export list, or the list still has its name. */
  predicate IsExport(sym: Symbol, o: Options, left: multiset<Name>) {
    IsCandidate(sym, o) && (o.names == [] || sym.name in left)
  }

  function ExportOf(sym: Symbol, o: Options, left: multiset<Name>): seq<Export> {
    if IsExport(sym, o, left) then [Export(sym.value, sym.name)] else []
  }

  /** What it takes from the export list. */
  function LeftBy(sym: Symbol, o: Options, left: multiset<Name>): multiset<Name> {
    if IsCandidate(sym, o) && o.names != [] then left - multiset{sym.name} else left
  }

  /** The symbols from `i` on that are exported, in table order, when the export list has the names
    * `left`. */
  function ExportsFrom(syms: seq<Symbol>, i: nat, o: Options, left: multiset<Name>): seq<Export>
    decreases |syms| - i
  {
    if i >= |syms| then []
    else ExportOf(syms[i], o, left) + ExportsFrom(syms, i + 1 + syms[i].numaux, o, LeftBy(syms[i], o, left))
  }

  predicate IsExportOf(syms: seq<Symbol>, k: nat, o: Options, e: Export) {
    && k < |syms| && IsCandidate(syms[k], o) && syms[k].sclass == 2 && syms[k].scnum != 0
    && e.name == syms[k].name && e.offset == syms[k].value
  }

  /** What is exported is the name and the value of a defined external symbol that passes the filters. */
  lemma {:induction false} ExportedAre(syms: seq<Symbol>, i: nat, o: Options, left: multiset<Name>, e: Export)
    ensures e in ExportsFrom(syms, i, o, left) ==> exists k :: k in Heads(syms, i) && IsExportOf(syms, k, o, e)
    decreases |syms| - i
  {
    hide *;
    if i < |syms| {
      FirstExport(syms, i, o, left);
      NextHead(syms, i);
      ExportOfIs(syms, i, o, left, e);
      ExportedAre(syms, i + 1 + syms[i].numaux, o, LeftBy(syms[i], o, left), e);
    } else {
      NothingGranted(syms, i, o, left);
    }
  }

  lemma NextHead(syms: seq<Symbol>, i: nat)
    requires i < |syms|
    ensures Heads(syms, i) == [i] + Heads(syms, i + 1 + syms[i].numaux)
  {
  }

  lemma ExportOfIs(syms: seq<Symbol>, i: nat, o: Options, left: multiset<Name>, e: Export)
    requires i < |syms|
    ensures e in ExportOf(syms[i], o, left) ==> IsExportOf(syms, i, o, e)
  {
  }

  /** And the names that are then left. */
  function LeftFrom(syms: seq<Symbol>, i: nat, o: Options, left: multiset<Name>): multiset<Name>
    decreases |syms| - i
  {
    if i >= |syms| then left else LeftFrom(syms, i + 1 + syms[i].numaux, o, LeftBy(syms[i], o, left))
  }

  /** An unresolved symbol with too many references for its record. */
  predicate Crowded(syms: seq<Symbol>, rs: seq<Reloc>, i: nat) {
    i < |syms| && Undefined(syms[i]) && !CountsFit(NeedOf(rs, i, syms[i].name).rec)
  }

  predicate UnresolvedAt(syms: seq<Symbol>, rs: seq<Reloc>, i: nat) {
    i < |syms| && Undefined(syms[i]) && Referenced(rs, i)
  }

  lemma {:induction false} HeadsInside(syms: seq<Symbol>, i: nat)
    ensures forall k :: k in Heads(syms, i) ==> i <= k < |syms|
    decreases |syms| - i
  {
    if i < |syms| {
      HeadsInside(syms, i + 1 + syms[i].numaux);
    }
  }

  lemma {:induction false} ReferencedAddresses(rs: seq<Reloc>, i: nat)
    ensures Referenced(rs, i) <==> AddressesOf(rs, i, true) != [] || AddressesOf(rs, i, false) != []
    decreases |rs|
  {
    if rs != [] {
      var init, last := rs[..|rs| - 1], rs[|rs| - 1];
      ReferencedAddresses(init, i);
      assert Referenced(rs, i) <==> Referenced(init, i) || last.symndx == i by {
        if Referenced(init, i) {
          var j :| 0 <= j < |init| && init[j].symndx == i;
          assert rs[j].symndx == i;
        }
        if last.symndx == i {
          assert rs[|rs| - 1].symndx == i;
        }
      }
    }
  }

  /** The relocations against a symbol not yet listed are those of the original table. */
  lemma StillOriginal(rs: seq<Reloc>, s: Scan, i: nat, name: Name)
    requires Partitioned(rs, s, i) && i != NO_SYMBOL
    ensures NeedOf(s.relocs, i, name) == NeedOf(rs, i, name)
    ensures var rec := NeedOf(rs, i, name).rec;
      Referenced(rs, i) <==> rec.rels != [] || rec.abss != []
  {
    hide AddressesOf, Reverse;
    NotListedYet(rs, s, i);
    SameAddresses(rs, s.relocs, i, true);
    SameAddresses(rs, s.relocs, i, false);
    ReferencedAddresses(rs, i);
    ReverseLength(AddressesOf(rs, i, false));
  }

  /** What symbol `i` adds to a scan `s` to make it `r`. */
  ghost predicate Added(syms: seq<Symbol>, rs: seq<Reloc>, i: nat, o: Options, s: Scan, r: Scan)
    requires i < |syms|
  {
    && (r.fatal <==> o.unresolved && Crowded(syms, rs, i))
    && (r.errs > 0 <==> s.errs > 0 || (!o.unresolved && UnresolvedAt(syms, rs, i)))
    && r.exports == s.exports + ExportOf(syms[i], o, Left(s.wanted))
    && Left(r.wanted) == LeftBy(syms[i], o, Left(s.wanted))
    && (!r.fatal ==> forall k :: IsListed(r.needs, k) <==>
         IsListed(s.needs, k) || (o.unresolved && k == i && UnresolvedAt(syms, rs, i)))
  }

  /** The cases of an undefined symbol, in terms of the original relocation table. */
  lemma UndefinedCases(syms: seq<Symbol>, rs: seq<Reloc>, i: nat, o: Options, s: Scan)
    requires i < |syms| <= NO_SYMBOL && Partitioned(rs, s, i) && !s.fatal && Undefined(syms[i])
    ensures var r := UndefinedCase(syms[i], i, o, s);
      && (r.fatal <==> o.unresolved && Crowded(syms, rs, i))
      && (r.errs > 0 <==> s.errs > 0 || (!o.unresolved && Referenced(rs, i)))
      && r.exports == s.exports && r.wanted == s.wanted
      && (!r.fatal && o.unresolved && Referenced(rs, i) ==> r.needs == s.needs + [NeedOf(rs, i, syms[i].name)])
      && (!r.fatal && !(o.unresolved && Referenced(rs, i)) ==> r.needs == s.needs)
  {
    StillOriginal(rs, s, i, syms[i].name);
    hide Partitioned, NeedOf, Marked, Referenced;
  }

  lemma UndefinedScanned(syms: seq<Symbol>, rs: seq<Reloc>, i: nat, o: Options, s: Scan)
    requires i < |syms| <= NO_SYMBOL && Partitioned(rs, s, i) && !s.fatal && Undefined(syms[i])
    ensures Added(syms, rs, i, o, s, UndefinedCase(syms[i], i, o, s))
  {
    var need := NeedOf(rs, i, syms[i].name);
    assert need.idx == i;
    hide Partitioned, NeedOf, Crowded, Referenced, IsListed, UndefinedCase, IsExport, Left;
    UndefinedCases(syms, rs, i, o, s);
    NoExport(syms[i], o, Left(s.wanted));
    assert s.exports + [] == s.exports;
    forall k
      ensures IsListed(s.needs + [need], k) <==> IsListed(s.needs, k) || k == i
    {
      OneMoreListed(s.needs, need, k);
    }
  }

  lemma NoExport(sym: Symbol, o: Options, left: multiset<Name>)
    requires Undefined(sym)
    ensures ExportOf(sym, o, left) == [] && LeftBy(sym, o, left) == left
  {
  }

  lemma NothingLeft(left: multiset<Name>, name: Name)
    ensures name !in left ==> left - multiset{name} == left
  {
  }

  lemma DefinedScanned(syms: seq<Symbol>, rs: seq<Reloc>, i: nat, o: Options, s: Scan)
    requires i < |syms| && !s.fatal && !Undefined(syms[i])
    ensures Added(syms, rs, i, o, s, ScanOne(syms[i], i, o, s))
  {
    var sym := syms[i];
    var s1 := NoteBss(sym, s);
    hide UndefinedCase, IsListed, Left, CrossedOut, Options.Passes;
    if sym.name != [] && sym.sclass == C_EXT {
      assert ScanOne(sym, i, o, s) == ExternalCase(sym, o, s1);
      ExternalScanned(sym, o, s1);
      hide ExternalCase, ExportOf, LeftBy;
      assert Added(syms, rs, i, o, s1, ExternalCase(sym, o, s1));
      NotedBss(syms, rs, i, o, s, ExternalCase(sym, o, s1));
    } else {
      assert ScanOne(sym, i, o, s) == s1;
      NothingScanned(syms, rs, i, o, s1);
      hide ExportOf, LeftBy;
      NotedBss(syms, rs, i, o, s, s1);
    }
  }

  lemma NothingScanned(syms: seq<Symbol>, rs: seq<Reloc>, i: nat, o: Options, s: Scan)
    requires i < |syms| && !s.fatal && !Undefined(syms[i]) && !IsCandidate(syms[i], o)
    ensures Added(syms, rs, i, o, s, s)
  {
    hide IsListed, Left, IsCandidate;
    assert s.exports + [] == s.exports;
  }

  lemma ExternalScanned(sym: Symbol, o: Options, s: Scan)
    requires sym.name != [] && sym.sclass == C_EXT && sym.scnum != 0
    ensures var r := ExternalCase(sym, o, s);
      && r.fatal == s.fatal && r.errs == s.errs && r.needs == s.needs
      && r.exports == s.exports + ExportOf(sym, o, Left(s.wanted))
      && Left(r.wanted) == LeftBy(sym, o, Left(s.wanted))
  {
    hide Left, CrossedOut, Options.Passes;
    LeftCrossed(s.wanted, sym.name);
    NothingLeft(Left(s.wanted), sym.name);
    assert s.exports + [] == s.exports;
  }

  lemma OneScanned(syms: seq<Symbol>, rs: seq<Reloc>, i: nat, o: Options, s: Scan)
    requires i < |syms| <= NO_SYMBOL && Partitioned(rs, s, i) && !s.fatal
    ensures Added(syms, rs, i, o, s, ScanOne(syms[i], i, o, s))
  {
    hide Partitioned, UndefinedCase;
    if Undefined(syms[i]) {
      var s1 := NoteBss(syms[i], s);
      PartitionedLater(rs, s, s1, i, i);
      UndefinedScanned(syms, rs, i, o, s1);
      NotedBss(syms, rs, i, o, s, UndefinedCase(syms[i], i, o, s1));
    } else {
      DefinedScanned(syms, rs, i, o, s);
    }
  }

  lemma NotedBss(syms: seq<Symbol>, rs: seq<Reloc>, i: nat, o: Options, s: Scan, r: Scan)
    requires i < |syms| && Added(syms, rs, i, o, NoteBss(syms[i], s), r)
    ensures Added(syms, rs, i, o, s, r)
  {
    hide IsListed, UnresolvedAt, Crowded, ExportOf;
  }

  lemma OneMoreListed(needs: seq<Need>, need: Need, k: int)
    ensures IsListed(needs + [need], k) <==> IsListed(needs, k) || k == need.idx
  {
    var more := needs + [need];
    assert more[|needs|] == need;
    assert forall j :: 0 <= j < |needs| ==> more[j] == needs[j];
  }

  /** Some symbol from `i` on has too many references. */
  predicate CrowdedFrom(syms: seq<Symbol>, rs: seq<Reloc>, i: nat) {
    exists k :: k in Heads(syms, i) && Crowded(syms, rs, k)
  }

  predicate UnresolvedFrom(syms: seq<Symbol>, rs: seq<Reloc>, i: nat) {
    exists k :: k in Heads(syms, i) && UnresolvedAt(syms, rs, k)
  }

  /** How a scan that was `s` before symbol `i` ends, as `r`. */
  predicate Ends(syms: seq<Symbol>, rs: seq<Reloc>, i: nat, o: Options, s: Scan, r: Scan) {
    && (r.fatal <==> o.unresolved && CrowdedFrom(syms, rs, i))
    && (!r.fatal ==> (r.errs > 0 <==> s.errs > 0 || (!o.unresolved && UnresolvedFrom(syms, rs, i))))
  }

  /** What it has added to the lists. */
  ghost predicate Lists(syms: seq<Symbol>, rs: seq<Reloc>, i: nat, o: Options, s: Scan, r: Scan) {
    && r.exports == s.exports + ExportsFrom(syms, i, o, Left(s.wanted))
    && Left(r.wanted) == LeftFrom(syms, i, o, Left(s.wanted))
    && forall k :: IsListed(r.needs, k) <==>
         IsListed(s.needs, k) || (o.unresolved && k in Heads(syms, i) && UnresolvedAt(syms, rs, k))
  }

  lemma HeadsStep(syms: seq<Symbol>, rs: seq<Reloc>, i: nat)
    requires i < |syms|
    ensures var next := i + 1 + syms[i].numaux;
      && (forall k :: k in Heads(syms, i) <==> k == i || k in Heads(syms, next))
      && (CrowdedFrom(syms, rs, i) <==> Crowded(syms, rs, i) || CrowdedFrom(syms, rs, next))
      && (UnresolvedFrom(syms, rs, i) <==> UnresolvedAt(syms, rs, i) || UnresolvedFrom(syms, rs, next))
  {
    hide Crowded, UnresolvedAt;
    assert Heads(syms, i) == [i] + Heads(syms, i + 1 + syms[i].numaux);
  }

  lemma EndsStep(syms: seq<Symbol>, rs: seq<Reloc>, i: nat, o: Options, s: Scan, r: Scan)
    requires i < |syms| <= NO_SYMBOL && Partitioned(rs, s, i) && !s.fatal
    requires var s1 := ScanOne(syms[i], i, o, s);
      if s1.fatal then r == s1 else Ends(syms, rs, i + 1 + syms[i].numaux, o, s1, r)
    ensures Ends(syms, rs, i, o, s, r)
  {
    OneScanned(syms, rs, i, o, s);
    HeadsStep(syms, rs, i);
    hide ScanOne, Partitioned, Crowded, UnresolvedAt, CrowdedFrom, UnresolvedFrom, Heads, IsListed;
  }

  lemma ListsStep(syms: seq<Symbol>, rs: seq<Reloc>, i: nat, o: Options, s: Scan, r: Scan)
    requires i < |syms| <= NO_SYMBOL && Partitioned(rs, s, i) && !s.fatal
    requires var s1 := ScanOne(syms[i], i, o, s);
      !s1.fatal && Lists(syms, rs, i + 1 + syms[i].numaux, o, s1, r)
    ensures Lists(syms, rs, i, o, s, r)
  {
    OneScanned(syms, rs, i, o, s);
    hide ScanOne, Partitioned, UnresolvedAt, Heads, IsListed, ExportOf;
    ExportsStep(syms, i, o, s.exports, Left(s.wanted));
    hide ExportsFrom, LeftFrom, LeftBy, Left;
    forall k
      ensures IsListed(r.needs, k) <==>
        IsListed(s.needs, k) || (o.unresolved && k in Heads(syms, i) && UnresolvedAt(syms, rs, k))
    {
      HeadsStep(syms, rs, i);
    }
  }

  lemma ExportsStep(syms: seq<Symbol>, i: nat, o: Options, before: seq<Export>, left: multiset<Name>)
    requires i < |syms|
    ensures var next, rest := i + 1 + syms[i].numaux, LeftBy(syms[i], o, left);
      && before + ExportsFrom(syms, i, o, left)
         == before + ExportOf(syms[i], o, left) + ExportsFrom(syms, next, o, rest)
      && LeftFrom(syms, i, o, left) == LeftFrom(syms, next, o, rest)
  {
    hide ExportOf, LeftBy;
    Associative(before, ExportOf(syms[i], o, left),
                ExportsFrom(syms, i + 1 + syms[i].numaux, o, LeftBy(syms[i], o, left)));
  }

  lemma Associative(a: seq<Export>, b: seq<Export>, c: seq<Export>)
    ensures a + b + c == a + (b + c)
  {
  }

  lemma {:induction false} SymbolsAdd(syms: seq<Symbol>, rs: seq<Reloc>, i: nat, o: Options, s: Scan)
    requires |syms| <= NO_SYMBOL && Partitioned(rs, s, i) && !s.fatal
    ensures var r := ScanAll(syms, i, o, s);
      Ends(syms, rs, i, o, s, r) && (!r.fatal ==> Lists(syms, rs, i, o, s, r))
    decreases |syms| - i
  {
    if i < |syms| {
      hide Ends, Lists, Partitioned, ScanOne;
      var s1, next := ScanOne(syms[i], i, o, s), i + 1 + syms[i].numaux;
      var r := ScanAll(syms, next, o, s1);
      assert ScanAll(syms, i, o, s) == r;
      if !s1.fatal {
        StepPartitions(syms, rs, i, o, s);
        SymbolsAdd(syms, rs, next, o, s1);
        if !r.fatal {
          ListsStep(syms, rs, i, o, s, r);
        }
      }
      EndsStep(syms, rs, i, o, s, r);
    }
  }

  /** What the symbol loop makes of an object: it stops early exactly when unresolved symbols are
    * allowed and one of them has too many references; it reports errors exactly when they are not
    * allowed and there is one; the export list is that of the object's exported symbols in order;
    * and a symbol is listed as unresolved exactly when it is undefined and referenced. */
  lemma ScanOutcome(syms: seq<Symbol>, rs: seq<Reloc>, o: Options, size: nat)
    requires |syms| <= NO_SYMBOL
    ensures var r := ScanAll(syms, 0, o, Start(rs, o, size));
      && (r.fatal <==> o.unresolved && CrowdedFrom(syms, rs, 0))
      && (!r.fatal ==> (r.errs > 0 <==> !o.unresolved && UnresolvedFrom(syms, rs, 0)))
      && (!r.fatal ==> r.exports == ExportsFrom(syms, 0, o, multiset(o.names)))
      && (!r.fatal ==> Left(r.wanted) == LeftFrom(syms, 0, o, multiset(o.names)))
      && (!r.fatal ==> forall k :: IsListed(r.needs, k) <==>
           o.unresolved && k in Heads(syms, 0) && UnresolvedAt(syms, rs, k))
  {
    var s := Start(rs, o, size);
    SymbolsAdd(syms, rs, 0, o, s);
    AllLeft(o.names);
    var exports := ExportsFrom(syms, 0, o, multiset(o.names));
    assert [] + exports == exports;
  }

  /** All candidates from `i` on, in table order. */
  function Candidates(syms: seq<Symbol>, i: nat, o: Options): seq<Export>
    decreases |syms| - i
  {
    if i >= |syms| then []
    else
      (if IsCandidate(syms[i], o) then [Export(syms[i].value, syms[i].name)] else [])
      + Candidates(syms, i + 1 + syms[i].numaux, o)
  }

  /** How many of the exports have the name `x`. */
  function Named(exports: seq<Export>, x: Name): nat {
    if exports == [] then 0 else (if exports[0].name == x then 1 else 0) + Named(exports[1..], x)
  }

  lemma NamedHead(e: Export, exports: seq<Export>, x: Name)
    ensures Named([e] + exports, x) == (if e.name == x then 1 else 0) + Named(exports, x)
  {
    assert ([e] + exports)[1..] == exports;
  }

  /** Without an export list every candidate is exported. */
  lemma {:induction false} AllCandidates(syms: seq<Symbol>, i: nat, o: Options, left: multiset<Name>)
    requires o.names == []
    ensures ExportsFrom(syms, i, o, left) == Candidates(syms, i, o)
    decreases |syms| - i
  {
    hide IsCandidate;
    if i < |syms| {
      AllCandidates(syms, i + 1 + syms[i].numaux, o, LeftBy(syms[i], o, left));
    }
  }

  /** The candidates that a list with the names `left` lets through. */
  function Granted(cs: seq<Export>, left: multiset<Name>): seq<Export> {
    if cs == [] then []
    else (if cs[0].name in left then [cs[0]] else []) + Granted(cs[1..], left - multiset{cs[0].name})
  }

  /** And what they leave of the list. */
  function Spared(cs: seq<Export>, left: multiset<Name>): multiset<Name> {
    if cs == [] then left else Spared(cs[1..], left - multiset{cs[0].name})
  }

  lemma GrantedHead(e: Export, cs: seq<Export>, left: multiset<Name>)
    ensures Granted([e] + cs, left)
            == (if e.name in left then [e] else []) + Granted(cs, left - multiset{e.name})
    ensures Spared([e] + cs, left) == Spared(cs, left - multiset{e.name})
  {
    assert ([e] + cs)[1..] == cs;
  }

  /** With an export list the exports are the candidates that it lets through. */
  lemma {:induction false} ExportsGranted(syms: seq<Symbol>, i: nat, o: Options, left: multiset<Name>)
    requires o.names != []
    ensures ExportsFrom(syms, i, o, left) == Granted(Candidates(syms, i, o), left)
    ensures LeftFrom(syms, i, o, left) == Spared(Candidates(syms, i, o), left)
    decreases |syms| - i
  {
    hide *;
    if i >= |syms| {
      NothingGranted(syms, i, o, left);
    } else {
      var next, rest := i + 1 + syms[i].numaux, LeftBy(syms[i], o, left);
      CandidatesStep(syms, i, o, left);
      FirstExport(syms, i, o, left);
      ExportsGranted(syms, next, o, rest);
    }
  }

  lemma NothingGranted(syms: seq<Symbol>, i: nat, o: Options, left: multiset<Name>)
    requires i >= |syms|
    ensures ExportsFrom(syms, i, o, left) == Granted(Candidates(syms, i, o), left) == []
    ensures LeftFrom(syms, i, o, left) == Spared(Candidates(syms, i, o), left) == left
  {
  }

  lemma FirstExport(syms: seq<Symbol>, i: nat, o: Options, left: multiset<Name>)
    requires i < |syms|
    ensures var next, rest := i + 1 + syms[i].numaux, LeftBy(syms[i], o, left);
      && ExportsFrom(syms, i, o, left) == ExportOf(syms[i], o, left) + ExportsFrom(syms, next, o, rest)
      && LeftFrom(syms, i, o, left) == LeftFrom(syms, next, o, rest)
  {
    hide ExportOf, LeftBy;
  }

  lemma CandidatesStep(syms: seq<Symbol>, i: nat, o: Options, left: multiset<Name>)
    requires i < |syms| && o.names != []
    ensures var next, rest := i + 1 + syms[i].numaux, LeftBy(syms[i], o, left);
      && Granted(Candidates(syms, i, o), left)
         == ExportOf(syms[i], o, left) + Granted(Candidates(syms, next, o), rest)
      && Spared(Candidates(syms, i, o), left) == Spared(Candidates(syms, next, o), rest)
  {
    var next, e := i + 1 + syms[i].numaux, Export(syms[i].value, syms[i].name);
    hide IsCandidate, Granted, Spared;
    if IsCandidate(syms[i], o) {
      assert Candidates(syms, i, o) == [e] + Candidates(syms, next, o);
      GrantedHead(e, Candidates(syms, next, o), left);
    } else {
      assert Candidates(syms, i, o) == Candidates(syms, next, o);
    }
  }

  lemma {:induction false} GrantedCounted(cs: seq<Export>, left: multiset<Name>, x: Name)
    ensures Named(Granted(cs, left), x) == (if Named(cs, x) < left[x] then Named(cs, x) else left[x])
    ensures Spared(cs, left)[x] == (if Named(cs, x) < left[x] then left[x] - Named(cs, x) else 0)
  {
    if cs != [] {
      var e, rest := cs[0], left - multiset{cs[0].name};
      assert rest[x] == if e.name == x && left[x] > 0 then left[x] - 1 else left[x];
      GrantedCounted(cs[1..], rest, x);
      NamedHead(e, Granted(cs[1..], rest), x);
      assert Named(cs, x) == (if e.name == x then 1 else 0) + Named(cs[1..], x);
      assert e.name !in left ==> Granted(cs, left) == Granted(cs[1..], rest);
      assert e.name in left ==> Granted(cs, left) == [e] + Granted(cs[1..], rest);
      assert Spared(cs, left) == Spared(cs[1..], rest);
      hide Named, Granted, Spared;
    }
  }

  lemma {:induction false} GrantedTotal(cs: seq<Export>, left: multiset<Name>)
    ensures |Granted(cs, left)| + |Spared(cs, left)| == |left|
  {
    if cs != [] {
      var rest := left - multiset{cs[0].name};
      NothingLeft(left, cs[0].name);
      OneFewer(left, cs[0].name);
      GrantedTotal(cs[1..], rest);
    }
  }

  lemma OneFewer(left: multiset<Name>, name: Name)
    ensures name in left ==> |left - multiset{name}| == |left| - 1
  {
  }

  /** With an export list, of the candidates of a name as many are exported, the first ones, as the
    * list has that name, and only the others of the list are left. */
  lemma ExportsCounted(syms: seq<Symbol>, i: nat, o: Options, left: multiset<Name>, x: Name)
    requires o.names != []
    ensures var c := Named(Candidates(syms, i, o), x);
      && Named(ExportsFrom(syms, i, o, left), x) == (if c < left[x] then c else left[x])
      && LeftFrom(syms, i, o, left)[x] == (if c < left[x] then left[x] - c else 0)
  {
    hide Candidates, ExportsFrom, LeftFrom, Named, Granted, Spared;
    ExportsGranted(syms, i, o, left);
    GrantedCounted(Candidates(syms, i, o), left, x);
  }

  lemma ExportsTotal(syms: seq<Symbol>, i: nat, o: Options, left: multiset<Name>)
    requires o.names != []
    ensures |ExportsFrom(syms, i, o, left)| + |LeftFrom(syms, i, o, left)| == |left|
  {
    hide Candidates, ExportsFrom, LeftFrom, Granted, Spared;
    ExportsGranted(syms, i, o, left);
    GrantedTotal(Candidates(syms, i, o), left);
  }

  /** The export list has the name `x` more often than there are candidates for it. */
  predicate IsMissing(syms: seq<Symbol>, o: Options, x: Name) {
    Named(Candidates(syms, 0, o), x) < multiset(o.names)[x]
  }

  /** The numbers agree exactly when nothing on the list is missing. */
  lemma MissingExactly(syms: seq<Symbol>, o: Options)
    requires o.names != []
    ensures var n := |ExportsFrom(syms, 0, o, multiset(o.names))|;
      n <= |o.names| && (n < |o.names| <==> exists x :: x in o.names && IsMissing(syms, o, x))
  {
    var left := LeftFrom(syms, 0, o, multiset(o.names));
    ExportsTotal(syms, 0, o, multiset(o.names));
    forall x
      ensures x in left <==> IsMissing(syms, o, x)
    {
      ExportsCounted(syms, 0, o, multiset(o.names), x);
    }
    hide LeftFrom, ExportsFrom, Named, Candidates;
    if left != multiset{} {
      var x :| x in left;
      assert IsMissing(syms, o, x) && x in multiset(o.names);
    }
  }

  /** A defined external symbol called `name`. */
  predicate IsEntry(syms: seq<Symbol>, k: nat, name: Name) {
    k < |syms| && syms[k].name == name && syms[k].sclass == C_EXT && syms[k].scnum != 0
  }

  /** `v` is the value of the last such symbol from `i` on, or `before` if there is none. */
  ghost predicate LastEntry(syms: seq<Symbol>, i: nat, name: Name, before: int, v: int) {
    if forall k :: k in Heads(syms, i) ==> !IsEntry(syms, k, name) then v == before
    else exists k: nat :: IsLastEntry(syms, i, name, k) && v == syms[k].value
  }

  ghost predicate IsLastEntry(syms: seq<Symbol>, i: nat, name: Name, k: nat) {
    && k in Heads(syms, i)
    && IsEntry(syms, k, name)
    && forall l :: l in Heads(syms, i) && l > k ==> !IsEntry(syms, l, name)
  }

  lemma LastEntryStep(syms: seq<Symbol>, i: nat, name: Name, before: int, v: int)
    requires i < |syms|
    requires LastEntry(syms, i + 1 + syms[i].numaux, name, if IsEntry(syms, i, name) then syms[i].value else before, v)
    ensures LastEntry(syms, i, name, before, v)
  {
    var next := i + 1 + syms[i].numaux;
    HeadsInside(syms, next);
    assert Heads(syms, i) == [i] + Heads(syms, next);
    hide Heads, IsEntry;
    if k: nat :| IsLastEntry(syms, next, name, k) {
      LaterEntry(syms, i, name, k);
      hide IsLastEntry;
    } else if IsEntry(syms, i, name) {
      assert IsLastEntry(syms, i, name, i);
    }
  }

  lemma LaterEntry(syms: seq<Symbol>, i: nat, name: Name, k: nat)
    requires i < |syms| && IsLastEntry(syms, i + 1 + syms[i].numaux, name, k)
    ensures IsLastEntry(syms, i, name, k)
  {
    var next := i + 1 + syms[i].numaux;
    HeadsInside(syms, next);
    assert Heads(syms, i) == [i] + Heads(syms, next);
    hide Heads, IsEntry;
  }

  /** A start of `.bss`, if symbol `k` is one. */
  predicate IsBss(syms: seq<Symbol>, k: nat) {
    k < |syms| && syms[k].name == BSS
  }

  /** `v` is the lowest value of a `.bss` symbol from `i` on, but at most `before`. */
  ghost predicate LowestBss(syms: seq<Symbol>, i: nat, before: nat, v: nat) {
    && v <= before
    && (forall k :: k in Heads(syms, i) && IsBss(syms, k) ==> v <= syms[k].value)
    && (v == before || exists k :: k in Heads(syms, i) && IsBss(syms, k) && v == syms[k].value)
  }

  lemma LowestBssStep(syms: seq<Symbol>, i: nat, before: nat, v: nat)
    requires i < |syms|
    requires LowestBss(syms, i + 1 + syms[i].numaux,
                       if IsBss(syms, i) && syms[i].value < before then syms[i].value else before, v)
    ensures LowestBss(syms, i, before, v)
  {
    assert Heads(syms, i) == [i] + Heads(syms, i + 1 + syms[i].numaux);
    hide Heads, IsBss;
  }

  lemma OneEntry(sym: Symbol, i: nat, o: Options, s: Scan)
    ensures var r := ScanOne(sym, i, o, s);
      && r.init == (if IsEntry([sym], 0, INIT) then sym.value else s.init)
      && r.fini == (if IsEntry([sym], 0, FINI) then sym.value else s.fini)
      && r.startbss == if IsBss([sym], 0) && sym.value < s.startbss then sym.value else s.startbss
  {
    hide NeedOf, Marked;
    assert INIT[1] != FINI[1];
  }

  /** The entry points are the last `_init` and `_fini`, and the section in the file ends where the
    * first uninitialised data begins. */
  lemma {:induction false} EntryPoints(syms: seq<Symbol>, i: nat, o: Options, s: Scan)
    ensures var r := ScanAll(syms, i, o, s);
      !r.fatal ==>
        && LastEntry(syms, i, INIT, s.init, r.init)
        && LastEntry(syms, i, FINI, s.fini, r.fini)
        && LowestBss(syms, i, s.startbss, r.startbss)
    decreases |syms| - i
  {
    if i < |syms| && !s.fatal {
      hide LastEntry, LowestBss, ScanOne;
      var s1 := ScanOne(syms[i], i, o, s);
      var r := ScanAll(syms, i + 1 + syms[i].numaux, o, s1);
      assert ScanAll(syms, i, o, s) == r;
      OneEntry(syms[i], i, o, s);
      EntryPoints(syms, i + 1 + syms[i].numaux, o, s1);
      if !r.fatal {
        LastEntryStep(syms, i, INIT, s.init, r.init);
        LastEntryStep(syms, i, FINI, s.fini, r.fini);
        LowestBssStep(syms, i, s.startbss, r.startbss);
      }
    }
  }
}
