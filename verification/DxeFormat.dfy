/** The tables of a DXE3 module as bytes: their records, and how a reader walks over them. */
module DxeFormat {
  import opened CInts

  datatype Option<+T> = None | Some(value: T)

  type Byte = x: int | 0 <= x < 256

  /** A C string without its terminating zero. */
  type Name = s: seq<Byte> | 0 !in s witness []

  /** Little-endian words. */
  function Word16(x: int): (b: seq<Byte>)
    ensures |b| == 2
  {
    [x % 256, x / 256 % 256]
  }

  function Word32(x: int): (b: seq<Byte>)
    ensures |b| == 4
  {
    [x % 256, x / 256 % 256, x / 65536 % 256, x / 16777216 % 256]
  }

  function Read16(b: seq<Byte>, pos: nat): nat
    requires pos + 2 <= |b|
  {
    var lo: int, hi: int := b[pos], b[pos + 1];
    lo + 256 * hi
  }

  function Read32(b: seq<Byte>, pos: nat): nat
    requires pos + 4 <= |b|
  {
    Read16(b, pos) + 65536 * Read16(b, pos + 2)
  }

  lemma Read32Word32(x: int)
    requires 0 <= x < 0x1_0000_0000
    ensures Read32(Word32(x), 0) == x
  {
    var q1, q2, q3 := x / 256, x / 65536, x / 16777216;
    Digits(x, 256, 256);
    Digits(x, 65536, 256);
    assert x == 256 * q1 + x % 256 && q1 == 256 * q2 + q1 % 256 && q2 == 256 * q3 + q2 % 256;
    assert 0 <= q3 < 256;
  }

  /** Dividing twice is dividing by the product. */
  lemma Digits(x: int, a: int, b: int)
    requires 0 <= x && (a == 256 || a == 65536) && b == 256
    ensures x / a / b == x / (a * b)
  {
  }

  /** A word read from a file: the value modulo the range of 32 bits. */
  function Low32(x: int): nat {
    x % 0x1_0000_0000
  }

  lemma SmallIsRead(x: int)
    requires 0 <= x < 0x1_0000_0000
    ensures Low32(x) == x
  {
  }

  /** The lowest byte comes first. */
  lemma Low32Word(x: int)
    ensures var b0: int, b1: int, b2: int, b3: int := Word32(x)[0], Word32(x)[1], Word32(x)[2], Word32(x)[3];
      b0 + 0x100 * b1 + 0x1_0000 * b2 + 0x100_0000 * b3 == Low32(x) == Read32(Word32(x), 0)
  {
    var q, r := x / 0x1_0000_0000, x % 0x1_0000_0000;
    assert x == r + q * 0x1_0000_0000;
    WordShift(r, q);
    Read32Word32(r);
    assert Word32(x) == Word32(r);
    hide Word32;
  }

  lemma WordShift(r: int, q: int)
    ensures Word32(r + q * 0x1_0000_0000) == Word32(r)
  {
    QuotientShift(r, 0x100, q * 0x100_0000);
    QuotientShift(r, 0x1_0000, q * 0x1_0000);
    QuotientShift(r, 0x100_0000, q * 0x100);
    QuotientShift(r / 0x100, 0x100, q * 0x1_0000);
    QuotientShift(r / 0x1_0000, 0x100, q * 0x100);
    QuotientShift(r / 0x100_0000, 0x100, q);
  }

  function Words32(xs: seq<int>): (b: seq<Byte>)
    ensures |b| == 4 * |xs|
  {
    if xs == [] then [] else Word32(xs[0]) + Words32(xs[1..])
  }

  lemma {:induction false} Words32Append(xs: seq<int>, ys: seq<int>)
    ensures Words32(xs + ys) == Words32(xs) + Words32(ys)
  {
    if xs == [] {
      assert xs + ys == ys;
    } else {
      assert (xs + ys)[1..] == xs[1..] + ys;
      Words32Append(xs[1..], ys);
    }
  }

  function CString(s: Name): seq<Byte> {
    s + [0]
  }

  /** A record of the exported symbols table. */
  datatype Export = Export(offset: int, name: Name)

  /** A record of the unresolved symbols table. */
  datatype Unresolved = Unresolved(name: Name, rels: seq<int>, abss: seq<int>)

  function ExportRecord(x: Export): seq<Byte> {
    Word32(x.offset) + CString(x.name)
  }

  function UnresRecord(x: Unresolved): seq<Byte> {
    Word16(|x.rels|) + Word16(|x.abss|) + CString(x.name) + Words32(x.rels + x.abss)
  }

  function ExportTable(xs: seq<Export>): seq<Byte> {
    if xs == [] then [] else ExportTable(xs[..|xs| - 1]) + ExportRecord(xs[|xs| - 1])
  }

  function UnresTable(xs: seq<Unresolved>): seq<Byte> {
    if xs == [] then [] else UnresTable(xs[..|xs| - 1]) + UnresRecord(xs[|xs| - 1])
  }

  function DepTable(xs: seq<Name>): seq<Byte> {
    if xs == [] then [] else DepTable(xs[..|xs| - 1]) + CString(xs[|xs| - 1])
  }

  function ExportNames(xs: seq<Export>): seq<Name> {
    seq(|xs|, i requires 0 <= i < |xs| => xs[i].name)
  }

  function UnresNames(xs: seq<Unresolved>): seq<Name> {
    seq(|xs|, i requires 0 <= i < |xs| => xs[i].name)
  }

  /** The relocation counts fit the two 16-bit fields. */
  predicate CountsFit(x: Unresolved) {
    |x.rels| <= 0xffff && |x.abss| <= 0xffff
  }

  /** The end of the C string at `pos`, or the end of the bytes when it is not terminated. */
  function StrEnd(b: seq<Byte>, pos: nat): (end: nat)
    requires pos <= |b|
    ensures pos <= end <= |b| && 0 !in b[pos..end]
    ensures end < |b| ==> b[end] == 0
    decreases |b| - pos
  {
    if pos == |b| || b[pos] == 0 then pos
    else
      var end := StrEnd(b, pos + 1);
      assert b[pos..end] == [b[pos]] + b[pos + 1..end];
      end
  }

  /** A record's name and the position of the next record. */
  datatype Step = Step(name: Name, next: nat)

  /** The string at `pos` and the position after its terminator, if it is terminated. */
  function StringAt(b: seq<Byte>, pos: nat): (r: Option<Step>)
    ensures r.Some? ==> pos < r.value.next <= |b|
  {
    if pos > |b| then None
    else
      var end := StrEnd(b, pos);
      if end == |b| then None else Some(Step(b[pos..end], end + 1))
  }

  datatype Kind = Exports | Unresolveds | Dependencies

  /** The record at `pos`, if all of it lies within the bytes. */
  function RecordAt(kind: Kind, b: seq<Byte>, pos: nat): (r: Option<Step>)
    ensures r.Some? ==> pos < r.value.next <= |b|
  {
    match kind
    case Exports => StringAt(b, pos + 4)
    case Unresolveds =>
      var r := StringAt(b, pos + 4);
      if r.None? then None
      else
        var next := r.value.next + 4 * (Read16(b, pos) + Read16(b, pos + 2));
        if next > |b| then None else Some(Step(r.value.name, next))
    case Dependencies => StringAt(b, pos)
  }

  /** The names of consecutive records and the position after them. */
  datatype Trail = Trail(names: seq<Name>, end: nat)

  /** The walk over `n` consecutive records, if they are all there. */
  function Walk(kind: Kind, b: seq<Byte>, pos: nat, n: nat): Option<Trail>
    decreases n
  {
    if n == 0 then Some(Trail([], pos))
    else
      var r := RecordAt(kind, b, pos);
      if r.None? then None
      else
        var rest := Walk(kind, b, r.value.next, n - 1);
        if rest.None? then None else Some(Trail([r.value.name] + rest.value.names, rest.value.end))
  }

  lemma {:induction false} StrEndIs(b: seq<Byte>, pos: nat, s: Name)
    requires pos + |s| < |b| && b[pos..pos + |s|] == s && b[pos + |s|] == 0
    ensures StrEnd(b, pos) == pos + |s|
    decreases |s|
  {
    if s != [] {
      assert b[pos] == s[0];
      assert s[0] in s && 0 !in s[1..] by {
        assert forall x :: x in s[1..] ==> x in s;
      }
      assert b[pos + 1..pos + |s|] == b[pos..pos + |s|][1..] == s[1..];
      StrEndIs(b, pos + 1, s[1..]);
    }
  }

  lemma StringAtIs(b: seq<Byte>, pos: nat, s: Name)
    requires pos + |s| < |b| && b[pos..pos + |s| + 1] == CString(s)
    ensures StringAt(b, pos) == Some(Step(s, pos + |s| + 1))
  {
    assert b[pos..pos + |s|] == b[pos..pos + |s| + 1][..|s|] == s;
    assert b[pos + |s|] == b[pos..pos + |s| + 1][|s|];
    StrEndIs(b, pos, s);
  }

  /** The walk over a table that ends in one more record. */
  lemma {:induction false} WalkExtends(kind: Kind, b: seq<Byte>, pos: nat, n: nat)
    requires Walk(kind, b, pos, n).Some?
    requires RecordAt(kind, b, Walk(kind, b, pos, n).value.end).Some?
    ensures var w := Walk(kind, b, pos, n).value;
      var r := RecordAt(kind, b, w.end).value;
      Walk(kind, b, pos, n + 1) == Some(Trail(w.names + [r.name], r.next))
    decreases n
  {
    hide RecordAt;
    var w := Walk(kind, b, pos, n).value;
    var r := RecordAt(kind, b, w.end).value;
    if n == 0 {
      assert Walk(kind, b, r.next, 0) == Some(Trail([], r.next));
      assert [r.name] + [] == w.names + [r.name];
    } else {
      var first := RecordAt(kind, b, pos).value;
      var rest := Walk(kind, b, first.next, n - 1).value;
      WalkExtends(kind, b, first.next, n - 1);
      assert [first.name] + (rest.names + [r.name]) == w.names + [r.name];
    }
  }

  /** The bytes at `pos` are exactly `part`. */
  predicate PartAt(b: seq<Byte>, pos: nat, part: seq<Byte>) {
    pos + |part| <= |b| && b[pos..pos + |part|] == part
  }

  lemma PartFits(b: seq<Byte>, pos: nat, part: seq<Byte>)
    requires PartAt(b, pos, part)
    ensures pos + |part| <= |b|
  {
  }

  /** A word of a part is a word of the whole. */
  lemma WordOfPart(b: seq<Byte>, pos: nat, x: int)
    requires PartAt(b, pos, Word32(x))
    ensures pos + 4 <= |b| && Read32(b, pos) == Low32(x)
  {
    var part := b[pos..pos + 4];
    assert part[0] == b[pos] && part[1] == b[pos + 1] && part[2] == b[pos + 2] && part[3] == b[pos + 3];
    Low32Word(x);
    hide Word32;
  }

  lemma SubPart(b: seq<Byte>, pos: nat, p: seq<Byte>, q: seq<Byte>)
    requires PartAt(b, pos, p + q)
    ensures PartAt(b, pos, p) && PartAt(b, pos + |p|, q)
  {
    assert b[pos..pos + |p|] == b[pos..pos + |p + q|][..|p|];
    assert b[pos + |p|..pos + |p + q|] == b[pos..pos + |p + q|][|p|..];
  }

  lemma ExportRecordWalked(b: seq<Byte>, pos: nat, x: Export)
    requires PartAt(b, pos, ExportRecord(x))
    ensures RecordAt(Exports, b, pos) == Some(Step(x.name, pos + |ExportRecord(x)|))
  {
    SubPart(b, pos, Word32(x.offset), CString(x.name));
    StringAtIs(b, pos + 4, x.name);
  }

  lemma WordBack(b: seq<Byte>, pos: nat, n: nat)
    requires PartAt(b, pos, Word16(n)) && n <= 0xffff
    ensures pos + 2 <= |b| && Read16(b, pos) == n
  {
    assert b[pos] == b[pos..pos + 2][0] && b[pos + 1] == b[pos..pos + 2][1];
  }

  lemma UnresRecordWalked(b: seq<Byte>, pos: nat, x: Unresolved)
    requires PartAt(b, pos, UnresRecord(x)) && CountsFit(x)
    ensures RecordAt(Unresolveds, b, pos) == Some(Step(x.name, pos + |UnresRecord(x)|))
  {
    var counts := Word16(|x.rels|) + Word16(|x.abss|);
    SubPart(b, pos, counts + CString(x.name), Words32(x.rels + x.abss));
    SubPart(b, pos, counts, CString(x.name));
    SubPart(b, pos, Word16(|x.rels|), Word16(|x.abss|));
    StringAtIs(b, pos + 4, x.name);
    WordBack(b, pos, |x.rels|);
    WordBack(b, pos + 2, |x.abss|);
    hide Read16, Word16, Words32, StringAt, PartAt;
    assert |UnresRecord(x)| == 4 + |x.name| + 1 + 4 * (|x.rels| + |x.abss|);
  }

  /** Walking an exported symbols table recovers its names and ends at its end. */
  lemma {:induction false} ExportTableWalked(b: seq<Byte>, pos: nat, xs: seq<Export>)
    requires PartAt(b, pos, ExportTable(xs))
    ensures Walk(Exports, b, pos, |xs|) == Some(Trail(ExportNames(xs), pos + |ExportTable(xs)|))
    decreases |xs|
  {
    hide RecordAt, ExportRecord;
    if xs == [] {
      assert ExportNames(xs) == [];
    } else {
      var k := |xs| - 1;
      SubPart(b, pos, ExportTable(xs[..k]), ExportRecord(xs[k]));
      ExportTableWalked(b, pos, xs[..k]);
      ExportRecordWalked(b, pos + |ExportTable(xs[..k])|, xs[k]);
      WalkExtends(Exports, b, pos, k);
      assert ExportNames(xs) == ExportNames(xs[..k]) + [xs[k].name];
    }
  }

  /** The same for an unresolved symbols table whose counts fit. */
  lemma {:induction false} UnresTableWalked(b: seq<Byte>, pos: nat, xs: seq<Unresolved>)
    requires PartAt(b, pos, UnresTable(xs)) && forall x :: x in xs ==> CountsFit(x)
    ensures Walk(Unresolveds, b, pos, |xs|) == Some(Trail(UnresNames(xs), pos + |UnresTable(xs)|))
    decreases |xs|
  {
    hide RecordAt, UnresRecord;
    if xs == [] {
      assert UnresNames(xs) == [];
    } else {
      var k := |xs| - 1;
      SubPart(b, pos, UnresTable(xs[..k]), UnresRecord(xs[k]));
      UnresTableWalked(b, pos, xs[..k]);
      UnresRecordWalked(b, pos + |UnresTable(xs[..k])|, xs[k]);
      WalkExtends(Unresolveds, b, pos, k);
      assert UnresNames(xs) == UnresNames(xs[..k]) + [xs[k].name];
    }
  }

  /** The same for a dependency table. */
  lemma {:induction false} DepTableWalked(b: seq<Byte>, pos: nat, xs: seq<Name>)
    requires PartAt(b, pos, DepTable(xs))
    ensures Walk(Dependencies, b, pos, |xs|) == Some(Trail(xs, pos + |DepTable(xs)|))
    decreases |xs|
  {
    hide RecordAt;
    if xs != [] {
      var k := |xs| - 1;
      SubPart(b, pos, DepTable(xs[..k]), CString(xs[k]));
      DepTableWalked(b, pos, xs[..k]);
      DepRecordWalked(b, pos + |DepTable(xs[..k])|, xs[k]);
      WalkExtends(Dependencies, b, pos, k);
      assert xs == xs[..k] + [xs[k]];
    }
  }

  lemma DepRecordWalked(b: seq<Byte>, pos: nat, x: Name)
    requires PartAt(b, pos, CString(x))
    ensures RecordAt(Dependencies, b, pos) == Some(Step(x, pos + |CString(x)|))
  {
    StringAtIs(b, pos, x);
  }
}
