/** The DXE3 generator: `write_dxe` turns a linked object into a module file. */
module DxeGenerator {
  import opened DxeFilters
  import opened DxeFormat

  const C_EXT := 2
  const C_STAT := 3
  const RELOC_REL32 := 20
  const NO_SYMBOL := 0xffff_ffff

  const BSS: Name := [46, 98, 115, 115]
  const INIT: Name := [95, 105, 110, 105, 116]
  const FINI: Name := [95, 102, 105, 110, 105]

  /** An entry of the object's symbol table. */
  datatype Symbol = Symbol(name: Name, value: nat, scnum: int, sclass: int, numaux: nat)

  /** An entry of its relocation table. */
  datatype Reloc = Reloc(vaddr: int, symndx: int, rtype: int)
  {
    predicate Relative() {
      rtype == RELOC_REL32
    }

    /** `VALID_RELOC`: to be listed in the module's relocation table. */
    predicate Valid() {
      !Relative() && symndx != NO_SYMBOL
    }
  }

  /** The addresses of the relocations against symbol `i` of one kind, in table order. */
  function AddressesOf(rs: seq<Reloc>, i: int, relative: bool): seq<int> {
    if rs == [] then []
    else
      var r := rs[|rs| - 1];
      AddressesOf(rs[..|rs| - 1], i, relative) + if r.symndx == i && r.Relative() == relative then [r.vaddr] else []
  }

  /** The addresses of the relocations that go to the module's relocation table. */
  function ValidAddresses(rs: seq<Reloc>): seq<int> {
    if rs == [] then []
    else
      var r := rs[|rs| - 1];
      ValidAddresses(rs[..|rs| - 1]) + if r.Valid() then [r.vaddr] else []
  }

  /** The addresses of one kind are those of the relocations against the symbol that are of type
    * `REL32`, or that are not. */
  lemma {:induction false} AddressesAre(rs: seq<Reloc>, i: int, relative: bool, x: int)
    ensures x in AddressesOf(rs, i, relative) <==>
      exists r :: r in rs && r.symndx == i && (r.rtype == 20) == relative && r.vaddr == x
    decreases |rs|
  {
    if rs != [] {
      AddressesAre(rs[..|rs| - 1], i, relative, x);
      assert rs == rs[..|rs| - 1] + [rs[|rs| - 1]];
    }
  }

  /** And those for the module's table are of the others that have not been marked. */
  lemma {:induction false} ValidAre(rs: seq<Reloc>, x: int)
    ensures x in ValidAddresses(rs) <==>
      exists r :: r in rs && r.rtype != 20 && r.symndx != 0xffff_ffff && r.vaddr == x
    decreases |rs|
  {
    if rs != [] {
      ValidAre(rs[..|rs| - 1], x);
      assert rs == rs[..|rs| - 1] + [rs[|rs| - 1]];
    }
  }

  /** The names that have a meaning of their own. */
  lemma NamesSpelled()
    ensures Ascii(BSS) == ".bss" && Ascii(INIT) == "_init" && Ascii(FINI) == "_fini"
  {
  }

  function MarkOne(r: Reloc, i: int): Reloc {
    if r.symndx == i then r.(symndx := NO_SYMBOL) else r
  }

  /** The relocations against symbol `i` marked as processed. */
  function Marked(rs: seq<Reloc>, i: int): seq<Reloc> {
    seq(|rs|, j requires 0 <= j < |rs| => MarkOne(rs[j], i))
  }

  function Reverse(s: seq<int>): seq<int> {
    if s == [] then [] else [s[|s| - 1]] + Reverse(s[..|s| - 1])
  }

  lemma {:induction false} ReverseLength(s: seq<int>)
    ensures |Reverse(s)| == |s| && multiset(Reverse(s)) == multiset(s)
  {
    if s != [] {
      ReverseLength(s[..|s| - 1]);
      assert s == s[..|s| - 1] + [s[|s| - 1]];
    }
  }

  /** An unresolved symbol: its index and its record. */
  datatype Need = Need(idx: nat, rec: Unresolved)

  function Records(needs: seq<Need>): seq<Unresolved> {
    seq(|needs|, k requires 0 <= k < |needs| => needs[k].rec)
  }

  /** The state of the symbol loop. */
  datatype Scan = Scan(relocs: seq<Reloc>, wanted: seq<Option<Name>>, exports: seq<Export>, needs: seq<Need>,
                       nUnres: nat,
                       errs: nat, fatal: bool, init: int, fini: int, startbss: nat)

  /** The options that matter here: whether unresolved symbols are allowed, the excluded and the
    * exported prefixes, the list of names to export, and whether one that is missing is an error.
    * Without prefixes or names to export, all are. */
  datatype Options = Options(unresolved: bool, excluded: seq<Name>, prefixes: seq<Name>, names: seq<Name>,
                             noMissing: bool)
  {
    predicate Passes(name: Name) {
      !MadeUp(name) && !AnyPrefix(excluded, name) && (prefixes == [] || AnyPrefix(prefixes, name))
    }
  }

  function NeedOf(rs: seq<Reloc>, i: nat, name: Name): Need {
    Need(i, Unresolved(name, AddressesOf(rs, i, true), Reverse(AddressesOf(rs, i, false))))
  }

  /** The lowest `.bss` start seen. */
  function NoteBss(sym: Symbol, s: Scan): Scan {
    if sym.name == BSS && s.startbss > sym.value then s.(startbss := sym.value) else s
  }

  /** A symbol that no section defines. */
  function UndefinedCase(sym: Symbol, i: nat, o: Options, s: Scan): Scan {
    var need := NeedOf(s.relocs, i, sym.name);
    if need.rec.rels == [] && need.rec.abss == [] then s
    else if !o.unresolved then s.(nUnres := s.nUnres + 1, errs := s.errs + 1)
    else if !CountsFit(need.rec) then s.(nUnres := s.nUnres + 1, fatal := true)
    else s.(nUnres := s.nUnres + 1, needs := s.needs + [need], relocs := Marked(s.relocs, i))
  }

  /** A defined external symbol. */
  function ExternalCase(sym: Symbol, o: Options, s: Scan): Scan {
    if sym.name == INIT then s.(init := sym.value)
    else if sym.name == FINI then s.(fini := sym.value)
    else if !o.Passes(sym.name) || (o.names != [] && Some(sym.name) !in s.wanted) then s
    else s.(exports := s.exports + [Export(sym.value, sym.name)],
            wanted := if o.names == [] then s.wanted else CrossedOut(s.wanted, sym.name))
  }

  /** One symbol. */
  function ScanOne(sym: Symbol, i: nat, o: Options, s0: Scan): Scan {
    var s := NoteBss(sym, s0);
    if sym.name == [] || sym.sclass == C_STAT then s
    else if sym.scnum == 0 then UndefinedCase(sym, i, o, s)
    else if sym.sclass == C_EXT then ExternalCase(sym, o, s)
    else s
  }

  /** The loop over the symbols, which skips auxiliary entries. */
  function ScanAll(syms: seq<Symbol>, i: nat, o: Options, s: Scan): Scan
    decreases |syms| - i
  {
    if i >= |syms| || s.fatal then s
    else ScanAll(syms, i + 1 + syms[i].numaux, o, ScanOne(syms[i], i, o, s))
  }

  function Start(rs: seq<Reloc>, o: Options, size: nat): Scan {
    Scan(rs, AllWanted(o.names), [], [], 0, 0, false, -1, -1, size)
  }

  lemma Snoc(rs: array<Reloc>, j: nat)
    requires j < rs.Length
    ensures rs[..j + 1] == rs[..j] + [rs[j]] && rs[..j + 1][..j] == rs[..j]
  {
  }

  /** The loop that counts the relocations against a symbol. */
  method CountRelocs(relocs: array<Reloc>, i: nat) returns (nRel: nat, nAbs: nat)
    ensures nRel == |AddressesOf(relocs[..], i, true)| && nAbs == |AddressesOf(relocs[..], i, false)|
  {
    nRel, nAbs := 0, 0;
    for j := 0 to relocs.Length
      invariant nRel == |AddressesOf(relocs[..j], i, true)| && nAbs == |AddressesOf(relocs[..j], i, false)|
    {
      Snoc(relocs, j);
      if relocs[j].symndx == i {
        if relocs[j].rtype == RELOC_REL32 {
          nRel := nRel + 1;
        } else {
          nAbs := nAbs + 1;
        }
      }
    }
    assert relocs[..relocs.Length] == relocs[..];
  }

  /** One relocation is marked and its address stored at the cursor for its kind. */
  method PlaceReloc(relocs: array<Reloc>, j: nat, i: nat, slots: array<int>, front0: nat, back0: nat)
    returns (front: nat, back: nat)
    requires j < relocs.Length && front0 <= back0 <= slots.Length && (relocs[j].symndx == i ==> front0 < back0)
    modifies relocs, slots
    ensures relocs[..] == old(relocs[..])[j := MarkOne(old(relocs[j]), i)]
    ensures front0 <= front <= back <= back0
    ensures slots[..front] == old(slots[..front0])
      + if old(relocs[j]).symndx == i && old(relocs[j]).Relative() then [old(relocs[j]).vaddr] else []
    ensures slots[back..]
      == (if old(relocs[j]).symndx == i && !old(relocs[j]).Relative() then [old(relocs[j]).vaddr] else [])
         + old(slots[back0..])
  {
    front, back := front0, back0;
    if relocs[j].symndx == i {
      relocs[j] := relocs[j].(symndx := NO_SYMBOL);
      if relocs[j].rtype == RELOC_REL32 {
        slots[front] := relocs[j].vaddr;
        front := front + 1;
      } else {
        back := back - 1;
        slots[back] := relocs[j].vaddr;
      }
    }
  }

  /** The loop that lists the relocations against a symbol: the relative ones from the front, the
    * absolute ones from the back, until the two cursors meet. */
  method ListRelocs(relocs: array<Reloc>, i: nat, nRel: nat, nAbs: nat) returns (words: seq<int>)
    requires i != NO_SYMBOL
    requires nRel == |AddressesOf(relocs[..], i, true)| && nAbs == |AddressesOf(relocs[..], i, false)|
    modifies relocs
    ensures words == AddressesOf(old(relocs[..]), i, true) + Reverse(AddressesOf(old(relocs[..]), i, false))
    ensures relocs[..] == Marked(old(relocs[..]), i)
  {
    hide AddressesOf, Reverse, Marked;
    ghost var rs := relocs[..];
    var slots := new int[nRel + nAbs];
    var front, back := 0, nRel + nAbs;
    NothingYet(rs, i);
    for j := 0 to relocs.Length
      invariant relocs[..] == Marked(rs[..j], i) + rs[j..] && |Marked(rs[..j], i)| == j
      invariant 0 <= front <= nRel <= back <= nRel + nAbs
      invariant slots[..front] == AddressesOf(rs[..j], i, true)
      invariant slots[back..] == Reverse(AddressesOf(rs[..j], i, false))
        && nRel + nAbs - back == |AddressesOf(rs[..j], i, false)|
    {
      assert relocs[j] == relocs[..][j] == rs[j];
      Steps(rs, i, j);
      front, back := PlaceReloc(relocs, j, i, slots, front, back);
    }
    assert rs[..relocs.Length] == rs && rs[relocs.Length..] == [];
    words := slots[..];
    assert front == back && words == slots[..front] + slots[back..];
  }

  /** What one more relocation adds to both lists. */
  lemma Steps(rs: seq<Reloc>, i: int, j: nat)
    requires j < |rs|
    ensures |Marked(rs[..j], i)| == j && |Marked(rs[..j + 1], i)| == j + 1
    ensures Marked(rs[..j + 1], i) + rs[j + 1..] == (Marked(rs[..j], i) + rs[j..])[j := MarkOne(rs[j], i)]
    ensures AddressesOf(rs[..j + 1], i, true) == AddressesOf(rs[..j], i, true)
      + if rs[j].symndx == i && rs[j].Relative() then [rs[j].vaddr] else []
    ensures Reverse(AddressesOf(rs[..j + 1], i, false))
      == (if rs[j].symndx == i && !rs[j].Relative() then [rs[j].vaddr] else [])
         + Reverse(AddressesOf(rs[..j], i, false))
    ensures |AddressesOf(rs[..j + 1], i, false)|
      == |AddressesOf(rs[..j], i, false)| + if rs[j].symndx == i && !rs[j].Relative() then 1 else 0
    ensures |AddressesOf(rs[..j + 1], i, true)| <= |AddressesOf(rs, i, true)|
    ensures |AddressesOf(rs[..j + 1], i, false)| <= |AddressesOf(rs, i, false)|
  {
    hide Reverse, AddressesOf, Marked;
    AddressStep(rs, i, true, j);
    AddressStep(rs, i, false, j);
    AddressesGrow(rs, i, true, j + 1);
    AddressesGrow(rs, i, false, j + 1);
    MarkedGrows(rs, i, j);
    ReverseStep(AddressesOf(rs[..j], i, false), rs[j].vaddr);
  }

  lemma NothingYet(rs: seq<Reloc>, i: int)
    ensures AddressesOf(rs[..0], i, true) == [] && AddressesOf(rs[..0], i, false) == [] && Reverse([]) == []
    ensures Marked(rs[..0], i) == []
  {
  }

  lemma AddressStep(rs: seq<Reloc>, i: int, relative: bool, j: nat)
    requires j < |rs|
    ensures AddressesOf(rs[..j + 1], i, relative)
         == if rs[j].symndx == i && rs[j].Relative() == relative then AddressesOf(rs[..j], i, relative) + [rs[j].vaddr]
            else AddressesOf(rs[..j], i, relative)
  {
    assert rs[..j + 1][..j] == rs[..j];
  }

  lemma ReverseStep(s: seq<int>, x: int)
    ensures Reverse(s + [x]) == [x] + Reverse(s)
  {
    assert (s + [x])[..|s|] == s;
  }

  lemma MarkedGrows(rs: seq<Reloc>, i: int, j: nat)
    requires j < |rs|
    ensures |Marked(rs[..j], i)| == j && |Marked(rs[..j + 1], i)| == j + 1
    ensures Marked(rs[..j + 1], i) + rs[j + 1..] == (Marked(rs[..j], i) + rs[j..])[j := MarkOne(rs[j], i)]
  {
  }

  lemma {:induction false} AddressesGrow(rs: seq<Reloc>, i: int, relative: bool, j: nat)
    requires j <= |rs|
    ensures |AddressesOf(rs[..j], i, relative)| <= |AddressesOf(rs, i, relative)|
    decreases |rs|
  {
    if j < |rs| {
      AddressesGrow(rs[..|rs| - 1], i, relative, j);
      assert rs[..|rs| - 1][..j] == rs[..j];
    } else {
      assert rs[..j] == rs;
    }
  }

  /** One unresolved symbol: its record is appended and its relocations are marked. */
  method EmitUnresolved(relocs: array<Reloc>, i: nat, name: Name, nRel: nat, nAbs: nat) returns (record: seq<Byte>)
    requires i != NO_SYMBOL
    requires nRel == |AddressesOf(relocs[..], i, true)| && nAbs == |AddressesOf(relocs[..], i, false)|
    modifies relocs
    ensures record == UnresRecord(NeedOf(old(relocs[..]), i, name).rec)
    ensures relocs[..] == Marked(old(relocs[..]), i)
  {
    hide AddressesOf, Reverse, Marked, Words32;
    ghost var rec := NeedOf(relocs[..], i, name).rec;
    ReverseLength(AddressesOf(relocs[..], i, false));
    record := Word16(nRel) + Word16(nAbs) + CString(name);
    var words := ListRelocs(relocs, i, nRel, nAbs);
    record := record + Words32(words);
  }

  /** What the loop keeps: the two growing tables, their counts and the header fields. */
  datatype Tables = Tables(nExp: nat, expTable: seq<Byte>, nUnres: nat, unresTable: seq<Byte>,
                           errs: nat, fatal: bool, init: int, fini: int, startbss: nat)

  /** The tables hold the records that have been decided on. */
  ghost predicate Stores(t: Tables, s: Scan) {
    && t.nExp == |s.exports| && t.expTable == ExportTable(s.exports)
    && t.nUnres == s.nUnres && t.unresTable == UnresTable(Records(s.needs))
    && t.errs == s.errs && t.fatal == s.fatal && t.init == s.init && t.fini == s.fini && t.startbss == s.startbss
  }

  lemma ExportAppended(t: Tables, s: Scan, x: Export, wanted: seq<Option<Name>>)
    requires Stores(t, s)
    ensures Stores(t.(nExp := t.nExp + 1, expTable := t.expTable + ExportRecord(x)),
                   s.(exports := s.exports + [x], wanted := wanted))
  {
    hide ExportRecord;
    assert (s.exports + [x])[..|s.exports|] == s.exports;
  }

  lemma NeedAppended(t: Tables, s: Scan, x: Need, rs: seq<Reloc>)
    requires Stores(t, s)
    ensures Stores(t.(nUnres := t.nUnres + 1, unresTable := t.unresTable + UnresRecord(x.rec)),
                  s.(nUnres := s.nUnres + 1, needs := s.needs + [x], relocs := rs))
  {
    hide UnresRecord;
    var all := Records(s.needs + [x]);
    assert all[..|s.needs|] == Records(s.needs) && all[|s.needs|] == x.rec;
  }

  method ScanUndefined(sym: Symbol, i: nat, relocs: array<Reloc>, o: Options, t0: Tables, ghost s: Scan)
    returns (t: Tables)
    requires i != NO_SYMBOL && Stores(t0, s) && relocs[..] == s.relocs
    modifies relocs
    ensures Stores(t, UndefinedCase(sym, i, o, s)) && relocs[..] == UndefinedCase(sym, i, o, s).relocs
  {
    hide AddressesOf, Reverse, Marked, ExportTable, UnresTable, UnresRecord, Records;
    t := t0;
    var nRel, nAbs := CountRelocs(relocs, i);
    ReverseLength(AddressesOf(relocs[..], i, false));
    if nRel == 0 && nAbs == 0 {
      return;
    }
    t := t.(nUnres := t.nUnres + 1);
    if !o.unresolved {
      t := t.(errs := t.errs + 1);
    } else if nRel > 0xffff || nAbs > 0xffff {
      t := t.(fatal := true);
    } else {
      NeedAppended(t0, s, NeedOf(s.relocs, i, sym.name), Marked(s.relocs, i));
      var record := EmitUnresolved(relocs, i, sym.name, nRel, nAbs);
      t := t.(unresTable := t.unresTable + record);
    }
  }

  /** A defined external symbol. */
  method ScanExternal(sym: Symbol, names: array<Option<Name>>, o: Options, t0: Tables, ghost s: Scan)
    returns (t: Tables)
    requires Stores(t0, s) && names[..] == s.wanted && |o.names| == names.Length
    modifies names
    ensures Stores(t, ExternalCase(sym, o, s)) && names[..] == ExternalCase(sym, o, s).wanted
    ensures ExternalCase(sym, o, s).relocs == s.relocs
  {
    hide ExportTable, UnresTable, ExportRecord, Records, MadeUp, AnyPrefix, CrossedOut;
    t := t0;
    if sym.name == INIT {
      t := t.(init := sym.value);
      return;
    }
    if sym.name == FINI {
      t := t.(fini := sym.value);
      return;
    }
    if MadeUp(sym.name) {
      return;
    }
    NoPrefix(sym.name);
    if |o.excluded| > 0 {
      var ok := HasPrefix(o.excluded, sym.name);
      if ok {
        return;
      }
    }
    if |o.prefixes| > 0 {
      var ok := HasPrefix(o.prefixes, sym.name);
      if !ok {
        return;
      }
    }
    if |o.names| > 0 {
      var ok := CrossOut(names, sym.name);
      if !ok {
        NoneCrossed(s.wanted, sym.name);
        return;
      }
    }
    ExportAppended(t, s, Export(sym.value, sym.name), names[..]);
    t := t.(nExp := t.nExp + 1, expTable := t.expTable + ExportRecord(Export(sym.value, sym.name)));
  }

  lemma NoPrefix(name: Name)
    ensures !AnyPrefix([], name)
  {
  }

  /** The body of the symbol loop. */
  method ScanSymbol(sym: Symbol, i: nat, relocs: array<Reloc>, names: array<Option<Name>>, o: Options, t0: Tables,
                    ghost s: Scan)
    returns (t: Tables)
    requires relocs as object != names as object
    requires i != NO_SYMBOL && Stores(t0, s)
    requires relocs[..] == s.relocs && names[..] == s.wanted && |o.names| == names.Length
    modifies relocs, names
    ensures Stores(t, ScanOne(sym, i, o, s)) && relocs[..] == ScanOne(sym, i, o, s).relocs
    ensures names[..] == ScanOne(sym, i, o, s).wanted
  {
    hide UndefinedCase, ExternalCase, ExportTable, UnresTable, ExportRecord, Records;
    t := t0;
    if sym.name == BSS {
      if t.startbss > sym.value {
        t := t.(startbss := sym.value);
      }
    }
    ghost var s1 := NoteBss(sym, s);
    if |sym.name| + 1 < 2 || sym.sclass == C_STAT {
    } else if sym.scnum == 0 {
      UndefinedKeeps(sym, i, o, s1);
      t := ScanUndefined(sym, i, relocs, o, t, s1);
    } else if sym.sclass == C_EXT {
      t := ScanExternal(sym, names, o, t, s1);
    }
  }

  lemma UndefinedKeeps(sym: Symbol, i: nat, o: Options, s: Scan)
    ensures UndefinedCase(sym, i, o, s).wanted == s.wanted
  {
    hide NeedOf, Marked;
  }

  /** The symbol loop of `write_dxe`. */
  method ScanSymbols(syms: seq<Symbol>, relocs: array<Reloc>, names: array<Option<Name>>, o: Options, size: nat)
    returns (t: Tables, ghost s: Scan)
    requires |syms| <= NO_SYMBOL && relocs as object != names as object && names[..] == AllWanted(o.names)
    modifies relocs, names
    ensures s == ScanAll(syms, 0, o, Start(old(relocs[..]), o, size)) && Stores(t, s) && relocs[..] == s.relocs
    ensures names[..] == s.wanted
  {
    hide AddressesOf, Reverse, Marked, ExportRecord, UnresRecord, ScanOne;
    s := Start(relocs[..], o, size);
    ghost var s0 := s;
    t := Tables(0, [], 0, [], 0, false, -1, -1, size);
    assert Records([]) == [];
    var i := 0;
    while i < |syms| && !t.fatal
      invariant 0 <= i && ScanAll(syms, i, o, s) == ScanAll(syms, 0, o, s0)
      invariant Stores(t, s) && relocs[..] == s.relocs && names[..] == s.wanted
      decreases |syms| - i
    {
      t := ScanSymbol(syms[i], i, relocs, names, o, t, s);
      s := ScanOne(syms[i], i, o, s);
      i := i + 1 + syms[i].numaux;
    }
  }
}
