/** `dlopen` reading a module file: what it finds there for the section, the tables, the relocations
  * and the entry points. */
module DxeLoader {
  import opened DxeFilters
  import opened DxeFormat
  import opened DxeGenerator
  import opened DxePartition
  import opened DxeSymbols
  import opened DxeModuleFile

  function Low32s(xs: seq<int>): (r: seq<int>)
    ensures |r| == |xs|
  {
    if xs == [] then [] else [Low32(xs[0])] + Low32s(xs[1..])
  }

  /** What is loaded: the exported symbols, the section with its zeroed end, the dependencies, the
    * unresolved symbols, the addresses to relocate, and the entry points. */
  datatype Loaded = Loaded(exports: seq<Export>, section: seq<Byte>, deps: seq<Name>, needs: seq<Unresolved>,
                           relocs: seq<int>, init: nat, fini: nat)

  /** The `n` words at a position, the lowest byte of each first. */
  function WordsAt(b: seq<Byte>, pos: nat, n: nat): seq<int>
    requires pos + 4 * n <= |b|
    decreases n
  {
    if n == 0 then [] else [Read32(b, pos)] + WordsAt(b, pos + 4, n - 1)
  }

  /** Entries of type `T` and the position after them. */
  datatype Read<T> = Read(entries: seq<T>, end: nat)

  /** The loop that fills the exported names table. */
  function ReadExports(b: seq<Byte>, pos: nat, n: nat): Option<Read<Export>>
    decreases n
  {
    if n == 0 then Some(Read([], pos))
    else
      var name := StringAt(b, pos + 4);
      if name.None? then None
      else
        var rest := ReadExports(b, name.value.next, n - 1);
        if rest.None? then None
        else Some(Read([Export(Read32(b, pos), name.value.name)] + rest.value.entries, rest.value.end))
  }

  /** The loop over the unresolved symbols: after the name come the addresses of the relative
    * references and then those of the absolute ones. */
  function ReadNeeds(b: seq<Byte>, pos: nat, n: nat): Option<Read<Unresolved>>
    decreases n
  {
    if n == 0 then Some(Read([], pos))
    else
      var name := StringAt(b, pos + 4);
      if name.None? then None
      else
        var nRel, nAbs, words := Read16(b, pos), Read16(b, pos + 2), name.value.next;
        if words + 4 * (nRel + nAbs) > |b| then None
        else
          var rest := ReadNeeds(b, words + 4 * (nRel + nAbs), n - 1);
          if rest.None? then None
          else
            var need := Unresolved(name.value.name, WordsAt(b, words, nRel), WordsAt(b, words + 4 * nRel, nAbs));
            Some(Read([need] + rest.value.entries, rest.value.end))
  }

  /** The reading part of `dlopen`.  The header says how long the resident and the transient parts of
    * the file are; the tables are found by walking over them. */
  function Load(file: seq<Byte>): Option<Loaded> {
    if |file| < 80 || Read32(file, 0) != 0x3145_5844 || Read32(file, 8) != 0xffff_ffff || 1 < file[20] < 128 then None
    else
      var symbolOffset, nrelocs := Read32(file, 4), Read32(file, 12);
      var nExp, nDeps, depSize := Read32(file, 28), Read32(file, 40), Read32(file, 48);
      var nUnres, unresSize := Read32(file, 52), Read32(file, 60);
      var secSize, secFSize := Read32(file, 64), Read32(file, 68);
      var resident, transient := symbolOffset + secFSize, depSize + unresSize + 4 * nrelocs;
      if symbolOffset < 80 || secSize < secFSize || resident + transient > |file| then None
      else
        var header, discardable := file[80..resident], file[resident..resident + transient];
        var deps := Walk(Dependencies, discardable, 0, nDeps);
        if deps.None? then None
        else
          var needs := ReadNeeds(discardable, deps.value.end, nUnres);
          var exports := ReadExports(header, 0, nExp);
          if needs.None? || exports.None? || needs.value.end + 4 * nrelocs > |discardable| then None
          else
            Some(Loaded(exports.value.entries, file[symbolOffset..resident] + Zeros(secSize - secFSize),
                        deps.value.names, needs.value.entries, WordsAt(discardable, needs.value.end, nrelocs),
                        Read32(file, 72), Read32(file, 76)))
  }

  /** The words written are the words read. */
  lemma {:induction false} WordsBack(b: seq<Byte>, pos: nat, xs: seq<int>)
    requires PartAt(b, pos, Words32(xs))
    ensures WordsAt(b, pos, |xs|) == Low32s(xs)
    decreases |xs|
  {
    hide Read32, Low32, Word32;
    if xs != [] {
      SubPart(b, pos, Word32(xs[0]), Words32(xs[1..]));
      WordOfPart(b, pos, xs[0]);
      WordsBack(b, pos + 4, xs[1..]);
    }
  }

  /** What is read of a record of the exported symbols table, or of the unresolved symbols table. */
  function ExportRead(x: Export): Export {
    Export(Low32(x.offset), x.name)
  }

  function NeedRead(x: Unresolved): Unresolved {
    Unresolved(x.name, Low32s(x.rels), Low32s(x.abss))
  }

  function ExportsRead(xs: seq<Export>): seq<Export> {
    seq(|xs|, i requires 0 <= i < |xs| => ExportRead(xs[i]))
  }

  function NeedsRead(xs: seq<Unresolved>): seq<Unresolved> {
    seq(|xs|, i requires 0 <= i < |xs| => NeedRead(xs[i]))
  }

  /** Reading one more record. */
  lemma {:induction false} ReadExportsMore(b: seq<Byte>, pos: nat, n: nat, x: Export)
    requires var r := ReadExports(b, pos, n);
      r.Some? && PartAt(b, r.value.end, ExportRecord(x))
    ensures var r := ReadExports(b, pos, n).value;
      ReadExports(b, pos, n + 1) == Some(Read(r.entries + [ExportRead(x)], r.end + |ExportRecord(x)|))
    decreases n
  {
    hide Read32, StringAt, Low32;
    if n == 0 {
      ExportRecordRead(b, pos, x);
      assert ReadExports(b, pos + |ExportRecord(x)|, 0) == Some(Read([], pos + |ExportRecord(x)|));
      assert [] + [ExportRead(x)] == [ExportRead(x)] + [];
    } else {
      var next := StringAt(b, pos + 4).value.next;
      ReadExportsMore(b, next, n - 1, x);
      var rest := ReadExports(b, next, n - 1).value;
      var first := Export(Read32(b, pos), StringAt(b, pos + 4).value.name);
      assert [first] + (rest.entries + [ExportRead(x)]) == ([first] + rest.entries) + [ExportRead(x)];
    }
  }

  lemma ExportRecordRead(b: seq<Byte>, pos: nat, x: Export)
    requires PartAt(b, pos, ExportRecord(x))
    ensures StringAt(b, pos + 4) == Some(Step(x.name, pos + |ExportRecord(x)|)) && Read32(b, pos) == Low32(x.offset)
  {
    SubPart(b, pos, Word32(x.offset), CString(x.name));
    StringAtIs(b, pos + 4, x.name);
    WordOfPart(b, pos, x.offset);
    hide Word32, Read32, Low32, StringAt;
  }

  lemma {:induction false} ReadNeedsMore(b: seq<Byte>, pos: nat, n: nat, x: Unresolved)
    requires var r := ReadNeeds(b, pos, n);
      r.Some? && PartAt(b, r.value.end, UnresRecord(x)) && CountsFit(x)
    ensures var r := ReadNeeds(b, pos, n).value;
      ReadNeeds(b, pos, n + 1) == Some(Read(r.entries + [NeedRead(x)], r.end + |UnresRecord(x)|))
    decreases n
  {
    hide Read16, StringAt, WordsAt, UnresRecord, CountsFit;
    if n == 0 {
      NeedRecordRead(b, pos, x);
      assert ReadNeeds(b, pos + |UnresRecord(x)|, 0) == Some(Read([], pos + |UnresRecord(x)|));
      assert [] + [NeedRead(x)] == [NeedRead(x)] + [];
    } else {
      var name := StringAt(b, pos + 4).value;
      var nRel, nAbs := Read16(b, pos), Read16(b, pos + 2);
      var next := name.next + 4 * (nRel + nAbs);
      ReadNeedsMore(b, next, n - 1, x);
      var rest := ReadNeeds(b, next, n - 1).value;
      var first := Unresolved(name.name, WordsAt(b, name.next, nRel), WordsAt(b, name.next + 4 * nRel, nAbs));
      assert [first] + (rest.entries + [NeedRead(x)]) == ([first] + rest.entries) + [NeedRead(x)];
    }
  }

  lemma NeedRecordRead(b: seq<Byte>, pos: nat, x: Unresolved)
    requires PartAt(b, pos, UnresRecord(x)) && CountsFit(x)
    ensures var words := pos + 4 + |x.name| + 1;
      && StringAt(b, pos + 4) == Some(Step(x.name, words))
      && Read16(b, pos) == |x.rels| && Read16(b, pos + 2) == |x.abss|
      && words + 4 * (|x.rels| + |x.abss|) == pos + |UnresRecord(x)| <= |b|
      && WordsAt(b, words, |x.rels|) == Low32s(x.rels)
      && WordsAt(b, words + 4 * |x.rels|, |x.abss|) == Low32s(x.abss)
  {
    hide Words32, StringAt, Read16, Low32s, WordsAt, PartAt;
    NeedParts(b, pos, x);
    var words := pos + 4 + |x.name| + 1;
    PartFits(b, words, Words32(x.rels + x.abss));
    Words32Append(x.rels, x.abss);
    SubPart(b, words, Words32(x.rels), Words32(x.abss));
    WordsBack(b, words, x.rels);
    WordsBack(b, words + 4 * |x.rels|, x.abss);
  }

  lemma NeedParts(b: seq<Byte>, pos: nat, x: Unresolved)
    requires PartAt(b, pos, UnresRecord(x)) && CountsFit(x)
    ensures PartAt(b, pos + 4 + |x.name| + 1, Words32(x.rels + x.abss))
    ensures StringAt(b, pos + 4) == Some(Step(x.name, pos + 4 + |x.name| + 1)) && pos + 4 <= |b|
    ensures Read16(b, pos) == |x.rels| && Read16(b, pos + 2) == |x.abss|
  {
    hide StringAt, Read16, Word16, Words32;
    var counts := Word16(|x.rels|) + Word16(|x.abss|);
    SubPart(b, pos, counts + CString(x.name), Words32(x.rels + x.abss));
    SubPart(b, pos, counts, CString(x.name));
    SubPart(b, pos, Word16(|x.rels|), Word16(|x.abss|));
    StringAtIs(b, pos + 4, x.name);
    WordBack(b, pos, |x.rels|);
    WordBack(b, pos + 2, |x.abss|);
  }

  /** Reading a table gives back its records. */
  lemma {:induction false} ExportsBack(b: seq<Byte>, pos: nat, xs: seq<Export>)
    requires PartAt(b, pos, ExportTable(xs))
    ensures ReadExports(b, pos, |xs|) == Some(Read(ExportsRead(xs), pos + |ExportTable(xs)|))
    decreases |xs|
  {
    hide ExportRecord, ExportRead;
    if xs == [] {
      assert ExportsRead(xs) == [];
    } else {
      var k := |xs| - 1;
      SubPart(b, pos, ExportTable(xs[..k]), ExportRecord(xs[k]));
      hide ReadExports, PartAt, ExportsRead;
      ExportsBack(b, pos, xs[..k]);
      ReadExportsMore(b, pos, k, xs[k]);
      LastRead(xs);
    }
  }

  lemma LastRead(xs: seq<Export>)
    requires xs != []
    ensures var k := |xs| - 1;
      ExportsRead(xs) == ExportsRead(xs[..k]) + [ExportRead(xs[k])]
  {
    hide ExportRead;
  }

  lemma {:induction false} NeedsBack(b: seq<Byte>, pos: nat, xs: seq<Unresolved>)
    requires PartAt(b, pos, UnresTable(xs)) && forall x :: x in xs ==> CountsFit(x)
    ensures ReadNeeds(b, pos, |xs|) == Some(Read(NeedsRead(xs), pos + |UnresTable(xs)|))
    decreases |xs|
  {
    hide UnresRecord, NeedRead, CountsFit;
    if xs == [] {
      assert NeedsRead(xs) == [];
    } else {
      var k := |xs| - 1;
      SubPart(b, pos, UnresTable(xs[..k]), UnresRecord(xs[k]));
      hide ReadNeeds, PartAt, NeedsRead;
      NeedsBack(b, pos, xs[..k]);
      ReadNeedsMore(b, pos, k, xs[k]);
      LastNeedRead(xs);
    }
  }

  lemma LastNeedRead(xs: seq<Unresolved>)
    requires xs != []
    ensures var k := |xs| - 1;
      NeedsRead(xs) == NeedsRead(xs[..k]) + [NeedRead(xs[k])]
  {
    hide NeedRead;
  }

  /** A part of the file is a part of a slice that has it. */
  lemma PartOfSlice(file: seq<Byte>, lo: nat, hi: nat, pos: nat, part: seq<Byte>)
    requires lo <= pos && pos + |part| <= hi <= |file| && PartAt(file, pos, part)
    ensures PartAt(file[lo..hi], pos - lo, part)
  {
    var slice := file[lo..hi];
    forall i | 0 <= i < |part|
      ensures slice[pos - lo..pos - lo + |part|][i] == part[i]
    {
      assert slice[pos - lo + i] == file[pos + i] == file[pos..pos + |part|][i];
    }
  }

  lemma PartsFit(file: seq<Byte>, h: DxeHeader, b: Body)
    requires LaidOut(file, h, b) && OffsetsComputed(h, b)
    ensures h.expTable == 80 && 80 + |b.exports| <= h.symbolOffset && h.secFSize == |b.data|
    ensures h.depTable == h.symbolOffset + |b.data| && h.depSize == |b.deps|
    ensures h.unresTable == h.depTable + |b.deps| && h.unresSize == |b.unres|
    ensures h.relocTable == h.unresTable + |b.unres| && h.nrelocs == |b.relocs|
    ensures h.relocTable + 4 * |b.relocs| <= |file|
  {
    hide PartAt, Words32, DxeHeader.Bytes;
  }

  /** The sizes, offsets and counts of a file below 2 GB are read as they are. */
  lemma SmallHeader(file: seq<Byte>, h: DxeHeader, s: Scan, deps: seq<Name>, b: Body)
    requires LaidOut(file, h, b) && OffsetsComputed(h, b) && |file| < 0x8000_0000
    requires b.exports == ExportTable(s.exports) && b.deps == DepTable(deps)
    requires b.unres == UnresTable(Records(s.needs))
    ensures Low32(h.symbolOffset) == h.symbolOffset && Low32(h.nrelocs) == h.nrelocs
    ensures Low32(h.depSize) == h.depSize && Low32(h.unresSize) == h.unresSize && Low32(h.secFSize) == h.secFSize
    ensures Low32(|s.exports|) == |s.exports| && Low32(|deps|) == |deps| && Low32(|s.needs|) == |s.needs|
  {
    PartsFit(file, h, b);
    TableBounds(s.exports, Records(s.needs), deps);
    hide LaidOut, OffsetsComputed, ExportTable, DepTable, UnresTable, Low32;
    SmallIsRead(h.symbolOffset);
    SmallIsRead(h.nrelocs);
    SmallIsRead(h.depSize);
    SmallIsRead(h.unresSize);
    SmallIsRead(h.secFSize);
    SmallIsRead(|s.exports|);
    SmallIsRead(|deps|);
    SmallIsRead(|s.needs|);
  }

  /** The table found in the resident part of the file. */
  lemma ResidentRead(file: seq<Byte>, resident: nat, exports: seq<Export>)
    requires PartAt(file, 80, ExportTable(exports)) && 80 + |ExportTable(exports)| <= resident <= |file|
    ensures ReadExports(file[80..resident], 0, |exports|) == Some(Read(ExportsRead(exports), |ExportTable(exports)|))
  {
    hide *;
    PartOfSlice(file, 80, resident, 80, ExportTable(exports));
    ExportsBack(file[80..resident], 0, exports);
  }

  /** Where the tables of the transient part lie. */
  predicate TransientAt(file: seq<Byte>, resident: nat, end: nat, d: seq<Byte>, u: seq<Byte>, w: seq<Byte>) {
    && resident + |d| + |u| + |w| == end <= |file|
    && PartAt(file, resident, d) && PartAt(file, resident + |d|, u) && PartAt(file, resident + |d| + |u|, w)
  }

  lemma TransientSlice(file: seq<Byte>, resident: nat, end: nat, d: seq<Byte>, u: seq<Byte>, w: seq<Byte>)
    requires TransientAt(file, resident, end, d, u, w)
    ensures var rest := file[resident..end];
      PartAt(rest, 0, d) && PartAt(rest, |d|, u) && PartAt(rest, |d| + |u|, w) && |rest| == |d| + |u| + |w|
  {
    PartOfSlice(file, resident, end, resident, d);
    PartOfSlice(file, resident, end, resident + |d|, u);
    PartOfSlice(file, resident, end, resident + |d| + |u|, w);
    hide PartAt;
  }

  lemma TablesAt(file: seq<Byte>, h: DxeHeader, b: Body)
    requires LaidOut(file, h, b) && OffsetsComputed(h, b)
    ensures PartAt(file, 80, b.exports) && 80 + |b.exports| <= h.symbolOffset + h.secFSize <= |file|
    ensures TransientAt(file, h.symbolOffset + h.secFSize, h.relocTable + 4 * h.nrelocs, b.deps, b.unres,
                        Words32(b.relocs))
    ensures h.depSize == |b.deps| && h.unresSize == |b.unres| && h.nrelocs == |b.relocs|
  {
    PartsFit(file, h, b);
    assert PartAt(file, 80, b.exports) && PartAt(file, h.depTable, b.deps) && PartAt(file, h.unresTable, b.unres);
    assert PartAt(file, h.relocTable, Words32(b.relocs));
    hide PartAt, Words32, LaidOut, OffsetsComputed;
  }

  /** `dlopen` finds in the file all that went into it: every exported symbol with its offset, the
    * section, the dependencies, every unresolved symbol with its relative and its absolute
    * references, the relocations, and the entry points. */
  lemma WrittenIsLoaded(file: seq<Byte>, h: DxeHeader, s: Scan, rs: seq<Reloc>, j: nat, data: seq<Byte>,
                        deps: seq<Name>, description: seq<Byte>)
    requires s.startbss <= |data| < 0x1_0000_0000 && |file| < 0x8000_0000 && Partitioned(rs, s, j)
    requires LaidOut(file, h, BodyOf(s, data[..s.startbss], deps, description))
    requires OffsetsComputed(h, BodyOf(s, data[..s.startbss], deps, description)) && h.secSize == |data|
    requires h.nExp == |s.exports| && h.nUnres == |s.needs| && h.nDeps == |deps|
    ensures Load(file) == Some(Loaded(ExportsRead(s.exports), data[..s.startbss] + Zeros(|data| - s.startbss), deps,
                                      NeedsRead(Records(s.needs)), Low32s(ValidAddresses(s.relocs)),
                                      Low32(h.init), Low32(h.fini)))
  {
    hide ExportTable, DepTable, UnresTable, ReadExports, ReadNeeds, Walk, WordsAt, Read32, ValidAddresses;
    hide DxeHeader.Bytes, CountsFit, ListedAbsolute, ExportsRead, NeedsRead, Low32, Low32s, OffsetsComputed, PartAt;
    var b := BodyOf(s, data[..s.startbss], deps, description);
    SectionRead(file, h, b);
    TablesAt(file, h, b);
    var resident, end := h.symbolOffset + h.secFSize, h.relocTable + 4 * h.nrelocs;
    TransientSlice(file, resident, end, b.deps, b.unres, Words32(b.relocs));
    ResidentRead(file, resident, s.exports);
    DepTableWalked(file[resident..end], 0, deps);
    NeedsBack(file[resident..end], h.depSize, Records(s.needs));
    WordsBack(file[resident..end], h.depSize + h.unresSize, b.relocs);
    hide LaidOut, Partitioned, TransientAt, Words32;
    SmallHeader(file, h, s, deps, b);
    SmallIsRead(|data|);
  }

  lemma SectionRead(file: seq<Byte>, h: DxeHeader, b: Body)
    requires LaidOut(file, h, b) && OffsetsComputed(h, b)
    ensures PartAt(file, 0, h.Bytes()) && 80 <= h.symbolOffset <= h.symbolOffset + h.secFSize <= |file|
    ensures file[h.symbolOffset..h.symbolOffset + h.secFSize] == b.data
    ensures h.relocTable == h.symbolOffset + h.secFSize + h.depSize + h.unresSize
    ensures 80 <= |file|
    ensures Read32(file, 0) == 0x3145_5844 && Read32(file, 8) == 0xffff_ffff && file[20] == 1
    ensures Read32(file, 64) == Low32(h.secSize) && Read32(file, 68) == Low32(h.secFSize)
    ensures Read32(file, 4) == Low32(h.symbolOffset) && Read32(file, 12) == Low32(h.nrelocs)
    ensures Read32(file, 72) == Low32(h.init) && Read32(file, 76) == Low32(h.fini)
    ensures Read32(file, 28) == Low32(h.nExp) && Read32(file, 40) == Low32(h.nDeps)
    ensures Read32(file, 48) == Low32(h.depSize)
    ensures Read32(file, 52) == Low32(h.nUnres) && Read32(file, 60) == Low32(h.unresSize)
  {
    PartsFit(file, h, b);
    assert PartAt(file, 0, h.Bytes()) && PartAt(file, h.symbolOffset, b.data);
    assert file[h.symbolOffset..h.symbolOffset + h.secFSize] == b.data;
    hide *;
    HeaderStart(file, h);
    HeaderPlaces(file, h);
    HeaderTables(file, h);
  }
}
