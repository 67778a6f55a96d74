/** What the symbol loop of `write_dxe` does to the relocations: each goes to one place. */
module DxePartition {
  import opened DxeFormat
  import opened DxeGenerator

  /** The absolute addresses listed with the unresolved symbols. */
  function ListedAbsolute(needs: seq<Need>): multiset<int> {
    if needs == [] then multiset{}
    else ListedAbsolute(needs[..|needs| - 1]) + multiset(needs[|needs| - 1].rec.abss)
  }

  predicate IsListed(needs: seq<Need>, i: int) {
    exists k :: 0 <= k < |needs| && needs[k].idx == i
  }

  /** After the loop: exactly the relocations against listed symbols are marked; each listed symbol
    * has in its record exactly its own relocations of the original table; and the absolute
    * addresses of the original table are those still to be written and those in the records. */
  ghost predicate Partitioned(rs: seq<Reloc>, s: Scan, i: nat) {
    && |s.relocs| == |rs|
    && (forall j :: 0 <= j < |rs| ==>
      s.relocs[j] == if IsListed(s.needs, rs[j].symndx) then rs[j].(symndx := NO_SYMBOL) else rs[j])
    && (forall k :: 0 <= k < |s.needs| ==>
      && s.needs[k] == NeedOf(rs, s.needs[k].idx, s.needs[k].rec.name)
      && s.needs[k].idx < i && s.needs[k].idx != NO_SYMBOL && CountsFit(s.needs[k].rec))
    && (forall k, l :: 0 <= k < l < |s.needs| ==> s.needs[k].idx < s.needs[l].idx)
    && multiset(ValidAddresses(rs)) == multiset(ValidAddresses(s.relocs)) + ListedAbsolute(s.needs)
  }

  lemma {:induction false} SameAddresses(rs: seq<Reloc>, rs': seq<Reloc>, i: int, relative: bool)
    requires |rs| == |rs'|
    requires forall j :: 0 <= j < |rs| ==> rs[j] == rs'[j] || (rs[j].symndx != i && rs'[j].symndx != i)
    ensures AddressesOf(rs, i, relative) == AddressesOf(rs', i, relative)
    decreases |rs|
  {
    if rs != [] {
      SameAddresses(rs[..|rs| - 1], rs'[..|rs| - 1], i, relative);
    }
  }

  /** What the last relocation adds to the lists, before and after the marking. */
  lemma LastMarked(rs: seq<Reloc>, i: int)
    requires rs != []
    ensures var init, last := rs[..|rs| - 1], rs[|rs| - 1];
      ValidAddresses(Marked(rs, i))
      == ValidAddresses(Marked(init, i)) + if last.Valid() && last.symndx != i then [last.vaddr] else []
  {
    assert Marked(rs, i)[..|rs| - 1] == Marked(rs[..|rs| - 1], i);
  }

  lemma {:induction false} MarkingMoves(rs: seq<Reloc>, i: int)
    requires i != NO_SYMBOL
    ensures multiset(ValidAddresses(rs))
            == multiset(ValidAddresses(Marked(rs, i))) + multiset(AddressesOf(rs, i, false))
    decreases |rs|
  {
    if rs != [] {
      hide Marked;
      MarkingMoves(rs[..|rs| - 1], i);
      LastMarked(rs, i);
    }
  }

  /** Marking the relocations of one more symbol keeps the partition. */
  lemma NeedKeepsPartition(rs: seq<Reloc>, s: Scan, i: nat, name: Name)
    requires Partitioned(rs, s, i) && i != NO_SYMBOL && CountsFit(NeedOf(s.relocs, i, name).rec)
    ensures Partitioned(rs, s.(needs := s.needs + [NeedOf(s.relocs, i, name)], relocs := Marked(s.relocs, i)), i + 1)
  {
    hide Marked, AddressesOf, ValidAddresses, Reverse;
    var need := NeedOf(s.relocs, i, name);
    var s' := s.(needs := s.needs + [need], relocs := Marked(s.relocs, i));
    NotListedYet(rs, s, i);
    SameAddresses(rs, s.relocs, i, true);
    SameAddresses(rs, s.relocs, i, false);
    MarkedElements(rs, s, need, i);
    MarkingMoves(s.relocs, i);
    ReverseLength(AddressesOf(s.relocs, i, false));
    assert s'.needs[..|s.needs|] == s.needs;
    assert ListedAbsolute(s'.needs) == ListedAbsolute(s.needs) + multiset(need.rec.abss);
  }

  lemma NotListedYet(rs: seq<Reloc>, s: Scan, i: nat)
    requires Partitioned(rs, s, i) && i != NO_SYMBOL
    ensures !IsListed(s.needs, i)
    ensures forall j :: 0 <= j < |rs| ==> rs[j] == s.relocs[j] || (rs[j].symndx != i && s.relocs[j].symndx != i)
  {
    hide ValidAddresses, ListedAbsolute, NeedOf;
  }

  lemma MarkedElements(rs: seq<Reloc>, s: Scan, need: Need, i: nat)
    requires Partitioned(rs, s, i) && i != NO_SYMBOL && need.idx == i
    ensures |Marked(s.relocs, i)| == |rs|
    ensures forall j :: 0 <= j < |rs| ==>
      Marked(s.relocs, i)[j] == if IsListed(s.needs + [need], rs[j].symndx) then rs[j].(symndx := NO_SYMBOL) else rs[j]
  {
    hide ValidAddresses, ListedAbsolute, NeedOf;
    var needs' := s.needs + [need];
    forall x
      ensures IsListed(needs', x) <==> IsListed(s.needs, x) || x == i
    {
      assert needs'[|s.needs|] == need;
      assert forall k :: 0 <= k < |s.needs| ==> needs'[k] == s.needs[k];
    }
    NotListedYet(rs, s, i);
  }

  lemma PartitionedLater(rs: seq<Reloc>, s: Scan, s': Scan, i: nat, j: nat)
    requires Partitioned(rs, s, i) && i <= j && s'.relocs == s.relocs && s'.needs == s.needs
    ensures Partitioned(rs, s', j)
  {
  }

  /** One symbol keeps the partition. */
  lemma StepPartitions(syms: seq<Symbol>, rs: seq<Reloc>, i: nat, o: Options, s: Scan)
    requires i < |syms| <= NO_SYMBOL && Partitioned(rs, s, i)
    ensures Partitioned(rs, ScanOne(syms[i], i, o, s), i + 1 + syms[i].numaux)
  {
    hide Partitioned, Marked, NeedOf;
    var sym := syms[i];
    var s1 := NoteBss(sym, s);
    var s2 := ScanOne(sym, i, o, s);
    PartitionedLater(rs, s, s1, i, i);
    if s2.needs != s.needs {
      NeedKeepsPartition(rs, s1, i, sym.name);
      PartitionedLater(rs, s1.(needs := s2.needs, relocs := s2.relocs), s2, i + 1, i + 1 + sym.numaux);
    } else {
      StaysMarked(sym, i, o, s);
      PartitionedLater(rs, s, s2, i, i + 1 + sym.numaux);
    }
  }

  lemma {:induction false} ScanPartitions(syms: seq<Symbol>, rs: seq<Reloc>, i: nat, o: Options, s: Scan)
    requires |syms| <= NO_SYMBOL && Partitioned(rs, s, i)
    ensures exists j :: Partitioned(rs, ScanAll(syms, i, o, s), j)
    decreases |syms| - i
  {
    hide Partitioned, ScanOne;
    if i < |syms| && !s.fatal {
      StepPartitions(syms, rs, i, o, s);
      var s2, next := ScanOne(syms[i], i, o, s), i + 1 + syms[i].numaux;
      ScanPartitions(syms, rs, next, o, s2);
      assert ScanAll(syms, i, o, s) == ScanAll(syms, next, o, s2);
    } else {
      assert Partitioned(rs, ScanAll(syms, i, o, s), i);
    }
  }

  lemma StaysMarked(sym: Symbol, i: nat, o: Options, s: Scan)
    requires ScanOne(sym, i, o, s).needs == s.needs
    ensures ScanOne(sym, i, o, s).relocs == s.relocs
  {
    hide Marked, NeedOf;
    var need := NeedOf(s.relocs, i, sym.name);
    assert |s.needs + [need]| == |s.needs| + 1;
  }

  /** The relocations of any object are partitioned by the symbol loop. */
  lemma RelocationsPartitioned(syms: seq<Symbol>, rs: seq<Reloc>, o: Options, size: nat)
    requires |syms| <= NO_SYMBOL
    ensures exists j :: Partitioned(rs, ScanAll(syms, 0, o, Start(rs, o, size)), j)
  {
    assert Partitioned(rs, Start(rs, o, size), 0);
    ScanPartitions(syms, rs, 0, o, Start(rs, o, size));
  }

  /** No relative relocation, and none against a listed symbol, is left for the module's own
    * relocation table. */
  lemma LeftForModule(rs: seq<Reloc>, s: Scan, i: nat, j: nat)
    requires Partitioned(rs, s, i) && j < |rs|
    ensures s.relocs[j].Valid() <==> rs[j].Valid() && !IsListed(s.needs, rs[j].symndx)
  {
  }

  /** The count in the header: `VALID_RELOC` entries of the table. */
  method CountValid(relocs: array<Reloc>) returns (nrelocs: int)
    ensures nrelocs == |ValidAddresses(relocs[..])|
  {
    nrelocs := relocs.Length;
    for i := 0 to relocs.Length
      invariant nrelocs == |ValidAddresses(relocs[..i])| + relocs.Length - i
    {
      Snoc(relocs, i);
      if !relocs[i].Valid() {
        nrelocs := nrelocs - 1;
      }
    }
    assert relocs[..relocs.Length] == relocs[..];
  }
}
