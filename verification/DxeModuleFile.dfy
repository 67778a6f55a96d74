/** The module file: how `write_dxe` lays it out, and what the resolver reads back from it. */
module DxeModuleFile {
  import opened DxeFilters
  import opened DxeFormat
  import opened DxeGenerator
  import opened DxePartition
  import opened DxeSymbols
  import opened DxeResolver

  const DXE_MAGIC := 0x3145_5844
  const HEADER_SIZE := 80

  /** The fields of the extended header that depend on the module. */
  datatype DxeHeader = DxeHeader(symbolOffset: nat, nrelocs: nat, relocTable: nat,
                                 nExp: nat, expTable: nat, expSize: nat,
                                 nDeps: nat, depTable: nat, depSize: nat,
                                 nUnres: nat, unresTable: nat, unresSize: nat,
                                 secSize: nat, secFSize: nat, init: int, fini: int)
  {
    /** The header as words: magic, sizes and offsets in file order; version 1.0 without flags. */
    function Words(): seq<int> {
      [DXE_MAGIC, symbolOffset, -1, nrelocs, HEADER_SIZE, 1, relocTable,
       nExp, expTable, expSize, nDeps, depTable, depSize, nUnres, unresTable, unresSize,
       secSize, secFSize, init, fini]
    }

    function Bytes(): (b: seq<Byte>)
      ensures |b| == HEADER_SIZE
    {
      Words32(Words())
    }
  }

  /** Everything that follows the header. */
  datatype Body = Body(exports: seq<Byte>, data: seq<Byte>, deps: seq<Byte>, unres: seq<Byte>,
                       relocs: seq<int>, description: seq<Byte>)

  function Zeros(n: nat): (b: seq<Byte>)
    ensures |b| == n
  {
    seq(n, _ => 0)
  }

  /** The next multiple of 16. */
  function Align16(n: nat): (r: nat)
    ensures n <= r < n + 16 && r % 16 == 0
  {
    (n + 15) / 16 * 16
  }

  /** The file with header `h`. */
  function FileOf(h: DxeHeader, b: Body): seq<Byte>
    requires HEADER_SIZE + |b.exports| <= h.symbolOffset
  {
    h.Bytes() + b.exports + Zeros(h.symbolOffset - HEADER_SIZE - |b.exports|) + b.data + b.deps + b.unres
    + Words32(b.relocs) + b.description
  }

  /** Every offset in the header is the position of what it names. */
  predicate LaidOut(file: seq<Byte>, h: DxeHeader, b: Body) {
    && PartAt(file, 0, h.Bytes())
    && PartAt(file, h.expTable, b.exports) && h.expSize == |b.exports|
    && h.symbolOffset % 16 == 0 && PartAt(file, h.symbolOffset, b.data) && h.secFSize == |b.data|
    && PartAt(file, h.depTable, b.deps) && h.depSize == |b.deps|
    && PartAt(file, h.unresTable, b.unres) && h.unresSize == |b.unres|
    && PartAt(file, h.relocTable, Words32(b.relocs)) && h.nrelocs == |b.relocs|
    && PartAt(file, h.relocTable + 4 * h.nrelocs, b.description)
    && |file| == h.relocTable + 4 * h.nrelocs + |b.description|
  }

  /** The offsets that the code computes. */
  predicate OffsetsComputed(h: DxeHeader, b: Body) {
    && h.expTable == HEADER_SIZE && h.expSize == |b.exports|
    && h.symbolOffset == Align16(h.expTable + h.expSize) && h.secFSize == |b.data|
    && h.depTable == h.symbolOffset + h.secFSize && h.depSize == |b.deps|
    && h.unresTable == h.depTable + h.depSize && h.unresSize == |b.unres|
    && h.relocTable == h.unresTable + h.unresSize && h.nrelocs == |b.relocs|
  }

  lemma PartOfConcat(pre: seq<Byte>, part: seq<Byte>, post: seq<Byte>)
    ensures PartAt(pre + part + post, |pre|, part)
  {
  }

  lemma PartOfPrefix(head: seq<Byte>, part: seq<Byte>, file: seq<Byte>)
    requires head + part <= file
    ensures PartAt(file, |head|, part)
  {
    assert file[..|head| + |part|] == head + part;
  }

  lemma OffsetsAreRight(h: DxeHeader, b: Body)
    requires OffsetsComputed(h, b)
    ensures LaidOut(FileOf(h, b), h, b)
  {
    hide DxeHeader.Bytes, Words32, PartAt;
    var f1 := h.Bytes() + b.exports;
    var f2 := f1 + Zeros(h.symbolOffset - HEADER_SIZE - |b.exports|);
    var f3 := f2 + b.data;
    var f4 := f3 + b.deps;
    var f5 := f4 + b.unres;
    var f6 := f5 + Words32(b.relocs);
    var file := f6 + b.description;
    assert FileOf(h, b) == file;
    hide FileOf;
    assert |f2| == h.symbolOffset && |f3| == h.depTable && |f4| == h.unresTable && |f5| == h.relocTable;
    assert f1 <= f2 <= f3 <= f4 <= f5 <= f6 <= file;
    assert [] + h.Bytes() == h.Bytes() && h.Bytes() <= f1;
    PartOfPrefix([], h.Bytes(), file);
    PartOfPrefix(h.Bytes(), b.exports, file);
    PartOfPrefix(f2, b.data, file);
    PartOfPrefix(f3, b.deps, file);
    PartOfPrefix(f4, b.unres, file);
    PartOfPrefix(f5, Words32(b.relocs), file);
    PartOfPrefix(f6, b.description, file);
  }

  /** Word `k` of the header. */
  function Field(file: seq<Byte>, k: nat): nat
    requires 4 * k + 4 <= |file|
  {
    Read32(file, 4 * k)
  }

  lemma {:induction false} WordAt(file: seq<Byte>, pos: nat, xs: seq<int>, k: nat)
    requires PartAt(file, pos, Words32(xs)) && k < |xs|
    ensures PartAt(file, pos + 4 * k, Word32(xs[k]))
    decreases k
  {
    SubPart(file, pos, Word32(xs[0]), Words32(xs[1..]));
    if k > 0 {
      WordAt(file, pos + 4, xs[1..], k - 1);
    }
  }

  lemma FieldIs(file: seq<Byte>, h: DxeHeader, k: nat)
    requires PartAt(file, 0, h.Bytes()) && k < 20
    ensures 4 * k + 4 <= |file| && Field(file, k) == Read32(file, 4 * k) == Low32(h.Words()[k])
  {
    hide Read32, Low32, Words32, Word32, PartAt;
    WordAt(file, 0, h.Words(), k);
    WordOfPart(file, 4 * k, h.Words()[k]);
  }

  /** The header as it is read: what the module and its sections are, */
  lemma HeaderStart(file: seq<Byte>, h: DxeHeader)
    requires PartAt(file, 0, h.Bytes())
    ensures 80 <= |file| && Read32(file, 0) == 0x3145_5844 && Read32(file, 8) == 0xffff_ffff
    ensures Read32(file, 16) == 80 && Read32(file, 20) == 1 && file[20] == 1
    ensures Read32(file, 64) == Low32(h.secSize) && Read32(file, 68) == Low32(h.secFSize)
  {
    PartFits(file, 0, h.Bytes());
    SmallIsRead(DXE_MAGIC);
    SmallIsRead(HEADER_SIZE);
    SmallIsRead(1);
    assert Low32(-1) == 0xffff_ffff;
    hide Read32, Low32, DxeHeader.Bytes, PartAt;
    FieldIs(file, h, 0);
    FieldIs(file, h, 2);
    FieldIs(file, h, 4);
    FieldIs(file, h, 5);
    FieldIs(file, h, 16);
    FieldIs(file, h, 17);
    VersionByte(file);
  }

  /** where the section, the relocations and the entry points are, */
  lemma HeaderPlaces(file: seq<Byte>, h: DxeHeader)
    requires PartAt(file, 0, h.Bytes())
    ensures 80 <= |file| && Read32(file, 4) == Low32(h.symbolOffset)
    ensures Read32(file, 12) == Low32(h.nrelocs) && Read32(file, 24) == Low32(h.relocTable)
    ensures Read32(file, 72) == Low32(h.init) && Read32(file, 76) == Low32(h.fini)
  {
    FieldIs(file, h, 1);
    FieldIs(file, h, 3);
    FieldIs(file, h, 6);
    FieldIs(file, h, 18);
    FieldIs(file, h, 19);
    hide Read32, Low32, DxeHeader.Bytes, PartAt;
  }

  /** and the numbers, places and sizes of the three tables. */
  lemma HeaderTables(file: seq<Byte>, h: DxeHeader)
    requires PartAt(file, 0, h.Bytes())
    ensures 80 <= |file| && Read32(file, 28) == Low32(h.nExp)
    ensures Read32(file, 32) == Low32(h.expTable) && Read32(file, 36) == Low32(h.expSize)
    ensures Read32(file, 40) == Low32(h.nDeps)
    ensures Read32(file, 44) == Low32(h.depTable) && Read32(file, 48) == Low32(h.depSize)
    ensures Read32(file, 52) == Low32(h.nUnres)
    ensures Read32(file, 56) == Low32(h.unresTable) && Read32(file, 60) == Low32(h.unresSize)
  {
    PartFits(file, 0, h.Bytes());
    hide Read32, Low32, DxeHeader.Bytes, PartAt;
    FieldIs(file, h, 7);
    FieldIs(file, h, 8);
    FieldIs(file, h, 9);
    FieldIs(file, h, 10);
    FieldIs(file, h, 11);
    FieldIs(file, h, 12);
    FieldIs(file, h, 13);
    FieldIs(file, h, 14);
    FieldIs(file, h, 15);
  }

  lemma VersionByte(file: seq<Byte>)
    requires 24 <= |file|
    ensures Read32(file, 20) == 1 ==> file[20] == 1
  {
  }

  /** `readf`: `bytes` bytes at a position, if the file has them. */
  function ReadF(file: seq<Byte>, bytes: nat, offset: nat): Option<seq<Byte>> {
    if offset + bytes <= |file| then Some(file[offset..offset + bytes]) else None
  }

  /** `gettables`: the header is checked and the three tables are read one after the other. */
  function GetTables(file: seq<Byte>): Option<Module> {
    if |file| < HEADER_SIZE || Field(file, 0) != DXE_MAGIC || Field(file, 2) != 0xffff_ffff then None
    else
      var e := ReadF(file, Field(file, 9), Field(file, 8));
      var u := ReadF(file, Field(file, 15), Field(file, 14));
      var d := ReadF(file, Field(file, 12), Field(file, 11));
      if e.None? || u.None? || d.None? then None
      else Some(Module(Header(Field(file, 7), Field(file, 9), Field(file, 13), Field(file, 15), Field(file, 10)),
                       e.value + u.value + d.value))
  }

  /** What is laid out is what the resolver reads. */
  lemma TablesReadBack(file: seq<Byte>, h: DxeHeader, b: Body)
    requires LaidOut(file, h, b) && |file| < 0x8000_0000
    requires h.nExp < 0x8000_0000 && h.nUnres < 0x8000_0000 && h.nDeps < 0x8000_0000
    ensures GetTables(file)
         == Some(Module(Header(h.nExp, h.expSize, h.nUnres, h.unresSize, h.nDeps), b.exports + b.unres + b.deps))
  {
    hide DxeHeader.Bytes, Read32, Words32, Low32, PartAt, LaidOut, ReadF;
    TablesFound(file, h, b);
    TablesFitWords(h, |file|);
    HeaderStart(file, h);
    HeaderTables(file, h);
  }

  lemma TablesFound(file: seq<Byte>, h: DxeHeader, b: Body)
    requires LaidOut(file, h, b)
    ensures PartAt(file, 0, h.Bytes())
    ensures h.expTable + h.expSize <= |file| && ReadF(file, h.expSize, h.expTable) == Some(b.exports)
    ensures h.unresTable + h.unresSize <= |file| && ReadF(file, h.unresSize, h.unresTable) == Some(b.unres)
    ensures h.depTable + h.depSize <= |file| && ReadF(file, h.depSize, h.depTable) == Some(b.deps)
  {
    hide DxeHeader.Bytes, Words32;
  }

  lemma TablesFitWords(h: DxeHeader, size: nat)
    requires size < 0x8000_0000 && h.expTable + h.expSize <= size
    requires h.unresTable + h.unresSize <= size && h.depTable + h.depSize <= size
    requires h.nExp < 0x8000_0000 && h.nUnres < 0x8000_0000 && h.nDeps < 0x8000_0000
    ensures Low32(h.nExp) == h.nExp && Low32(h.expTable) == h.expTable && Low32(h.expSize) == h.expSize
    ensures Low32(h.nUnres) == h.nUnres && Low32(h.unresTable) == h.unresTable && Low32(h.unresSize) == h.unresSize
    ensures Low32(h.nDeps) == h.nDeps && Low32(h.depTable) == h.depTable && Low32(h.depSize) == h.depSize
  {
    hide Low32;
    SmallIsRead(h.nExp);
    SmallIsRead(h.expTable);
    SmallIsRead(h.expSize);
    SmallIsRead(h.nUnres);
    SmallIsRead(h.unresTable);
    SmallIsRead(h.unresSize);
    SmallIsRead(h.nDeps);
    SmallIsRead(h.depTable);
    SmallIsRead(h.depSize);
  }

  /** The three tables one after the other are walked back to the names they were made of. */
  lemma TablesParsed(exports: seq<Export>, unres: seq<Unresolved>, deps: seq<Name>)
    requires forall x :: x in unres ==> CountsFit(x)
    ensures var m := Module(Header(|exports|, |ExportTable(exports)|, |unres|, |UnresTable(unres)|, |deps|),
                            ExportTable(exports) + UnresTable(unres) + DepTable(deps));
      && m.WellFormed()
      && m.ExportList() == ExportNames(exports) && m.NeedList() == UnresNames(unres) && m.DepList() == deps
      && m.ExportTrail().value.end == m.hdr.expSize && m.NeedTrail().value.end == m.hdr.expSize + m.hdr.unresSize
      && m.DepTrail().value.end == |m.table|
  {
    hide Walk, ExportTable, UnresTable, DepTable, ExportNames, UnresNames, CountsFit;
    var e, u, d := ExportTable(exports), UnresTable(unres), DepTable(deps);
    var table := e + u + d;
    PartOfConcat([], e, u + d);
    assert table == [] + e + (u + d);
    ExportTableWalked(table, 0, exports);
    PartOfConcat(e, u, d);
    UnresTableWalked(table, |e|, unres);
    PartOfConcat(e + u, d, []);
    assert table == e + u + d + [];
    DepTableWalked(table, |e + u|, deps);
  }

  lemma {:induction false} TableBounds(exports: seq<Export>, unres: seq<Unresolved>, deps: seq<Name>)
    ensures |exports| <= |ExportTable(exports)| && |unres| <= |UnresTable(unres)| && |deps| <= |DepTable(deps)|
    decreases |exports| + |unres| + |deps|
  {
    if exports != [] {
      TableBounds(exports[..|exports| - 1], unres, deps);
    } else if unres != [] {
      TableBounds(exports, unres[..|unres| - 1], deps);
    } else if deps != [] {
      TableBounds(exports, unres, deps[..|deps| - 1]);
    }
  }

  /** The loops that write the dependency names and the relocations. */
  method WriteDeps(deps: seq<Name>) returns (out: seq<Byte>)
    ensures out == DepTable(deps)
  {
    out := [];
    for i := 0 to |deps|
      invariant out == DepTable(deps[..i])
    {
      assert deps[..i + 1][..i] == deps[..i];
      out := out + CString(deps[i]);
    }
    assert deps[..|deps|] == deps;
  }

  lemma ValidStep(rs: seq<Reloc>, r: Reloc)
    ensures Words32(ValidAddresses(rs + [r]))
         == if r.Valid() then Words32(ValidAddresses(rs)) + Word32(r.vaddr) else Words32(ValidAddresses(rs))
  {
    assert (rs + [r])[..|rs|] == rs;
    if r.Valid() {
      Words32Append(ValidAddresses(rs), [r.vaddr]);
      assert [r.vaddr][1..] == [];
      assert Words32([r.vaddr]) == Word32(r.vaddr) + Words32([]);
    } else {
      assert ValidAddresses(rs) + [] == ValidAddresses(rs);
    }
  }

  method WriteRelocs(relocs: array<Reloc>) returns (out: seq<Byte>)
    ensures out == Words32(ValidAddresses(relocs[..]))
  {
    out := [];
    for i := 0 to relocs.Length
      invariant out == Words32(ValidAddresses(relocs[..i]))
    {
      Snoc(relocs, i);
      ValidStep(relocs[..i], relocs[i]);
      if relocs[i].Valid() {
        out := out + Word32(relocs[i].vaddr);
      }
    }
    assert relocs[..relocs.Length] == relocs[..];
  }

  /** The end of `write_dxe`: counts, offsets, and everything written in turn. */
  method WriteFile(t: Tables, relocs: array<Reloc>, data: seq<Byte>, deps: seq<Name>, description: seq<Byte>)
    returns (file: seq<Byte>, h: DxeHeader)
    requires t.startbss <= |data|
    ensures LaidOut(file, h, Body(t.expTable, data[..t.startbss], DepTable(deps), t.unresTable,
                                  ValidAddresses(relocs[..]), description))
    ensures OffsetsComputed(h, Body(t.expTable, data[..t.startbss], DepTable(deps), t.unresTable,
                                    ValidAddresses(relocs[..]), description))
    ensures h.nExp == t.nExp && h.nUnres == t.nUnres && h.nDeps == |deps| && h.secSize == |data|
    ensures h.init == t.init && h.fini == t.fini
  {
    hide Words32, ValidAddresses, LaidOut;
    var nrelocs := CountValid(relocs);
    var depBytes := WriteDeps(deps);
    var hdrsize := HEADER_SIZE + |t.expTable|;
    var symbolOffset := (hdrsize + 15) / 16 * 16;
    var depTable := symbolOffset + t.startbss;
    var unresTable := depTable + |depBytes|;
    var relocTable := unresTable + |t.unresTable|;
    h := DxeHeader(symbolOffset, nrelocs, relocTable, t.nExp, HEADER_SIZE, |t.expTable|,
                   |deps|, depTable, |depBytes|, t.nUnres, unresTable, |t.unresTable|,
                   |data|, t.startbss, t.init, t.fini);
    file := h.Bytes();
    file := file + t.expTable;
    file := file + Zeros(symbolOffset - hdrsize);
    file := file + data[..t.startbss];
    file := file + depBytes;
    file := file + t.unresTable;
    var words := WriteRelocs(relocs);
    file := file + words;
    file := file + description;
    OffsetsAreRight(h, Body(t.expTable, data[..t.startbss], depBytes, t.unresTable, ValidAddresses(relocs[..]),
                            description));
  }

  datatype Outcome = Written | Errors | TooManyRelocations

  /** An unresolved symbol, or a name missing from the exports, that counts as an error. */
  ghost predicate Fails(syms: seq<Symbol>, rs: seq<Reloc>, o: Options) {
    || (!o.unresolved && UnresolvedFrom(syms, rs, 0))
    || (o.noMissing && exists x :: x in o.names && IsMissing(syms, o, x))
  }

  /** The check of the export list after the symbol loop. */
  method CountErrors(o: Options, t: Tables, ghost syms: seq<Symbol>) returns (errs: nat)
    requires o.names != [] ==> t.nExp == |ExportsFrom(syms, 0, o, multiset(o.names))|
    ensures errs > 0 <==> t.errs > 0 || (o.noMissing && exists x :: x in o.names && IsMissing(syms, o, x))
  {
    hide ExportsFrom, IsMissing;
    errs := t.errs;
    if o.names != [] {
      MissingExactly(syms, o);
      if |o.names| != t.nExp {
        if o.noMissing {
          errs := |o.names| - t.nExp;
        }
      }
    }
  }

  /** `write_dxe`.  When it succeeds the relocations are partitioned, every header offset is right,
    * and what the resolver reads from the file are the exported, unresolved and dependency names. */
  method WriteDxe(syms: seq<Symbol>, relocs: array<Reloc>, names: array<Option<Name>>, o: Options, data: seq<Byte>,
                  deps: seq<Name>, description: seq<Byte>)
    returns (rv: Outcome, file: seq<Byte>, h: DxeHeader, ghost s: Scan)
    requires |syms| <= NO_SYMBOL && relocs as object != names as object && names[..] == AllWanted(o.names)
    modifies relocs, names
    ensures s == ScanAll(syms, 0, o, Start(old(relocs[..]), o, |data|))
    ensures exists j :: Partitioned(old(relocs[..]), s, j)
    ensures rv == TooManyRelocations <==> o.unresolved && CrowdedFrom(syms, old(relocs[..]), 0)
    ensures rv == Errors <==>
      !(o.unresolved && CrowdedFrom(syms, old(relocs[..]), 0)) && Fails(syms, old(relocs[..]), o)
    ensures rv == Written ==> s.exports == ExportsFrom(syms, 0, o, multiset(o.names))
    ensures rv == Written ==> forall k :: IsListed(s.needs, k) <==>
      o.unresolved && k in Heads(syms, 0) && UnresolvedAt(syms, old(relocs[..]), k)
    ensures s.startbss <= |data| && (rv == Written ==> LowestBss(syms, 0, |data|, s.startbss))
    ensures rv == Written ==> LastEntry(syms, 0, INIT, -1, h.init) && LastEntry(syms, 0, FINI, -1, h.fini)
    ensures rv == Written ==>
      LaidOut(file, h, BodyOf(s, data[..s.startbss], deps, description))
    ensures rv == Written ==>
      && OffsetsComputed(h, BodyOf(s, data[..s.startbss], deps, description)) && h.secSize == |data|
      && h.nExp == |s.exports| && h.nUnres == |s.needs| && h.nDeps == |deps|
    ensures rv == Written && |file| < 0x8000_0000 ==> ReadsBack(file, s, deps)
  {
    hide ScanAll, Partitioned, ExportTable, UnresTable, DepTable, ValidAddresses, LaidOut, ReadsBack;
    hide LastEntry, LowestBss, CrowdedFrom, UnresolvedFrom, UnresolvedAt;
    hide ExportsFrom, Heads, IsListed, IsMissing, LeftFrom;
    var t;
    ghost var rs := relocs[..];
    t, s := ScanSymbols(syms, relocs, names, o, |data|);
    RelocationsPartitioned(syms, rs, o, |data|);
    ScanOutcome(syms, rs, o, |data|);
    EntryPoints(syms, 0, o, Start(rs, o, |data|));
    rv, file := Written, [];
    h := DxeHeader(0, 0, 0, 0, 0, 0, 0, 0, 0, 0, 0, 0, 0, 0, -1, -1);
    Bounded(syms, 0, o, Start(rs, o, |data|), |data|);
    if t.fatal {
      return TooManyRelocations, [], h, s;
    }
    var errs := CountErrors(o, t, syms);
    if errs > 0 {
      return Errors, [], h, s;
    }
    file, h := WriteFile(t, relocs, data, deps, description);
    if |file| < 0x8000_0000 {
      ghost var j :| Partitioned(rs, s, j);
      FileReadsBack(file, h, s, rs, j, data[..s.startbss], deps, description);
    }
  }

  /** What follows the header in the file made of the outcome of the symbol loop. */
  function BodyOf(s: Scan, data: seq<Byte>, deps: seq<Name>, description: seq<Byte>): Body {
    Body(ExportTable(s.exports), data, DepTable(deps), UnresTable(Records(s.needs)), ValidAddresses(s.relocs),
         description)
  }

  /** The resolver finds in the file the names that went into it. */
  ghost predicate ReadsBack(file: seq<Byte>, s: Scan, deps: seq<Name>) {
    var r := GetTables(file);
    && r.Some? && r.value.WellFormed()
    && r.value.ExportList() == ExportNames(s.exports)
    && r.value.NeedList() == UnresNames(Records(s.needs))
    && r.value.DepList() == deps
  }

  lemma FileReadsBack(file: seq<Byte>, h: DxeHeader, s: Scan, rs: seq<Reloc>, j: nat, data: seq<Byte>,
                      deps: seq<Name>, description: seq<Byte>)
    requires LaidOut(file, h, Body(ExportTable(s.exports), data, DepTable(deps), UnresTable(Records(s.needs)),
                                   ValidAddresses(s.relocs), description))
    requires h.nExp == |s.exports| && h.nUnres == |s.needs| && h.nDeps == |deps| && |file| < 0x8000_0000
    requires Partitioned(rs, s, j)
    ensures ReadsBack(file, s, deps)
  {
    hide Walk, ExportTable, UnresTable, DepTable, ValidAddresses, GetTables, DxeHeader.Bytes, Words32;
    TableBounds(s.exports, Records(s.needs), deps);
    TablesReadBack(file, h, Body(ExportTable(s.exports), data, DepTable(deps), UnresTable(Records(s.needs)),
                                 ValidAddresses(s.relocs), description));
    TablesParsed(s.exports, Records(s.needs), deps);
  }

  /** The start of the BSS never exceeds the section, and without errors every counted unresolved
    * symbol has its record. */
  lemma {:induction false} Bounded(syms: seq<Symbol>, i: nat, o: Options, s: Scan, size: nat)
    requires s.startbss <= size && s.nUnres == |s.needs| + s.errs + (if s.fatal then 1 else 0)
    ensures var r := ScanAll(syms, i, o, s);
      r.startbss <= size && r.nUnres == |r.needs| + r.errs + (if r.fatal then 1 else 0)
    decreases |syms| - i
  {
    hide NeedOf, Marked;
    if i < |syms| && !s.fatal {
      Bounded(syms, i + 1 + syms[i].numaux, o, ScanOne(syms[i], i, o, s), size);
    }
  }
}
