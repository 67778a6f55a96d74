/** The searches for a run of free slots: linear memory in blocks of 4 MB, and descriptors of the
  * local descriptor table.  A run is tested from its end backward; a slot in use moves the
  * start of the search past it. */
module RunSearch {
  import opened Bitmap

  const GRAN_LOG := 22
  const GRAN := 0x40_0000
  const BLOCKS := 1024
  const WORD32 := 0x1_0000_0000

  /** The slots of a run. */
  ghost function Run(first: nat, count: nat): (r: set<nat>)
    ensures forall i :: i in r <==> first <= i < first + count
    decreases count
  {
    if count == 0 then {} else Run(first, count - 1) + {first + count - 1}
  }

  /** None of the `count` slots from `first` on is in use. */
  ghost predicate RunFree(used: set<nat>, first: nat, count: nat) {
    forall i :: first <= i < first + count ==> i !in used
  }

  /** Taking a free run and giving the same run back changes nothing. */
  lemma RunRestored(used: set<nat>, first: nat, count: nat)
    requires RunFree(used, first, count)
    ensures used + Run(first, count) - Run(first, count) == used
  {
  }

  /** A slot in use inside a run rules out every run from there up to the slot itself. */
  lemma SlotBlocks(used: set<nat>, first: nat, count: nat, test: nat, f: nat)
    requires first <= f <= test < first + count && test in used
    ensures !RunFree(used, f, count)
  {
  }

  /** The number of 4 MB blocks for a size, in 32-bit arithmetic. */
  function BlockCount(size: nat): nat {
    (size + (GRAN - 1)) % WORD32 / GRAN
  }

  lemma BlockCountRoundsUp(size: nat)
    requires 0 < size && size + (GRAN - 1) < WORD32
    ensures 1 <= BlockCount(size) <= 1024
    ensures (BlockCount(size) - 1) * 0x40_0000 < size <= BlockCount(size) * 0x40_0000
  {
  }

  class LinearSpace {
    const linearMap: array<bv8>

    /** The blocks in use; the first two always are. */
    ghost predicate Valid()
      reads linearMap
    {
      linearMap.Length == 4096 && 0 in Used(linearMap[..]) && 1 in Used(linearMap[..])
    }

    constructor ()
      ensures Valid() && Used(linearMap[..]) == {0, 1} && fresh(linearMap)
    {
      linearMap := new bv8[4096](_ => 0);
      new;
      assert Used(linearMap[..]) == {};
      SetMap(linearMap, 0);
      SetMap(linearMap, 1);
    }

    /** The backward test of one run. */
    method LastUsed(first: nat, count: nat) returns (free: bool, test: nat)
      requires Valid() && 1 <= count && first + count <= BLOCKS
      ensures free <==> RunFree(Used(linearMap[..]), first, count)
      ensures !free ==> first <= test < first + count && test in Used(linearMap[..])
    {
      hide Used;
      test := first + count - 1;
      var taken := TestMap(linearMap, test);
      while !taken
        invariant first <= test < first + count && (taken <==> test in Used(linearMap[..]))
        invariant forall i :: test < i < first + count ==> i !in Used(linearMap[..])
        decreases test, !taken
      {
        if test > first {
          test := test - 1;
        } else {
          return true, test;
        }
        taken := TestMap(linearMap, test);
      }
      free := false;
    }

    /** All blocks of a run are marked. */
    method Mark(first: nat, count: nat)
      requires Valid() && first + count <= BLOCKS
      modifies linearMap
      ensures Valid() && Used(linearMap[..]) == old(Used(linearMap[..])) + Run(first, count)
    {
      hide Used;
      var test := first;
      while test < first + count
        invariant first <= test <= first + count && linearMap.Length == 4096
        invariant Used(linearMap[..]) == old(Used(linearMap[..])) + Run(first, test - first)
      {
        SetMap(linearMap, test);
        assert Run(first, test + 1 - first) == Run(first, test - first) + {test};
        test := test + 1;
      }
    }

    /** `linear_alloc`: the lowest run of free blocks large enough for `size` bytes, or 0 exactly when
      * there is none. */
    method LinearAlloc(size: nat) returns (linear: nat)
      requires Valid() && 0 < size && size + (GRAN - 1) < WORD32
      modifies linearMap
      ensures Valid()
      ensures linear == 0 ==>
        && linearMap[..] == old(linearMap[..])
        && forall f :: 2 <= f && f + BlockCount(size) <= BLOCKS ==>
             !RunFree(old(Used(linearMap[..])), f, BlockCount(size))
      ensures linear != 0 ==>
        var first, count := linear / GRAN, BlockCount(size);
        && linear == first * GRAN && 2 <= first && first + count <= BLOCKS
        && RunFree(old(Used(linearMap[..])), first, count)
        && (forall f :: 2 <= f < first ==> !RunFree(old(Used(linearMap[..])), f, count))
        && Used(linearMap[..]) == old(Used(linearMap[..])) + Run(first, count)
    {
      hide Used;
      BlockCountRoundsUp(size);
      var count := (size + (GRAN - 1)) % WORD32 / GRAN;
      var first := 2;
      while first + count <= BLOCKS
        invariant 2 <= first && linearMap[..] == old(linearMap[..])
        invariant forall f :: 2 <= f < first ==> !RunFree(Used(linearMap[..]), f, count)
        decreases BLOCKS - first
      {
        var free, test := LastUsed(first, count);
        if free {
          Mark(first, count);
          assert first * GRAN / GRAN == first;
          return first * GRAN;
        }
        forall f | first <= f <= test
          ensures !RunFree(Used(linearMap[..]), f, count)
        {
          SlotBlocks(Used(linearMap[..]), first, count, test, f);
        }
        first := test + 1;
      }
      linear := 0;
    }

    /** `linear_free`: the blocks of a run of the size given are released. */
    method LinearFree(linear: nat, size: nat)
      requires Valid() && 2 <= linear / GRAN && linear / GRAN + BlockCount(size) <= BLOCKS
      modifies linearMap
      ensures Valid() && Used(linearMap[..]) == old(Used(linearMap[..])) - Run(linear / GRAN, BlockCount(size))
    {
      hide Used;
      var count := (size + (GRAN - 1)) % WORD32 / GRAN;
      var i := linear / GRAN;
      ghost var first := i;
      while count > 0
        invariant 0 <= count && i + count == first + BlockCount(size) && first <= i && linearMap.Length == 4096
        invariant Used(linearMap[..]) == old(Used(linearMap[..])) - Run(first, i - first)
      {
        ResetMap(linearMap, i);
        assert Run(first, i + 1 - first) == Run(first, i - first) + {i};
        i := i + 1;
        count := count - 1;
      }
    }

    /** Freeing what was allocated, with the same size, restores the map. */
    method AllocateAndFree(size: nat) returns (linear: nat)
      requires Valid() && 0 < size && size + (GRAN - 1) < WORD32
      modifies linearMap
      ensures Valid() && Used(linearMap[..]) == old(Used(linearMap[..]))
    {
      hide Used;
      linear := LinearAlloc(size);
      if linear != 0 {
        RunRestored(old(Used(linearMap[..])), linear / GRAN, BlockCount(size));
        LinearFree(linear, size);
      }
    }
  }

  const LDT_SELECTOR_COUNT := 128
  const FIRST_SELECTOR := 0x10

  datatype DescriptorType = FreeType | UserType | SegmentType | DosType | DosContType | SystemType

  /** A segment descriptor. */
  datatype Descriptor = Descriptor(limit0: bv16, base0: bv16, base1: bv8, stype: bv8, limit1: bv8, base2: bv8)

  /** Present, writable data for ring 3 with base and limit 0; of the old flags only the size and
    * the available bit are kept, and a 32-bit client gets the size bit. */
  function FreshDescriptor(d: Descriptor, is32bit: bool): Descriptor {
    Descriptor(0, 0, 0, (3 << 5) | 0x92, (d.limit1 & 0x50) | (if is32bit then 0x40 else 0), 0)
  }

  /** Bit by bit: present, for ring 3, a segment, data, growing upwards, writable; base and limit 0 in
    * bytes; the size bit for a 32-bit client or as before, the available bit as before. */
  lemma FreshBits(d: Descriptor, is32bit: bool)
    ensures var r := FreshDescriptor(d, is32bit);
      && r.stype & 0x80 == 0x80 && r.stype & 0x60 == 0x60 && r.stype & 0x10 == 0x10
      && r.stype & 0x08 == 0 && r.stype & 0x04 == 0 && r.stype & 0x02 == 0x02
      && r.limit0 == 0 && r.limit1 & 0x0f == 0 && r.limit1 & 0x80 == 0
      && r.base0 == 0 && r.base1 == 0 && r.base2 == 0
      && r.limit1 & 0x40 == (if is32bit then 0x40 else d.limit1 & 0x40)
      && r.limit1 & 0x10 == d.limit1 & 0x10 && r.limit1 & 0x20 == 0
  {
  }

  /** The slots of the descriptor table that are in use. */
  ghost function Taken(types: seq<DescriptorType>): set<nat> {
    set i: nat | i < |types| && types[i] != FreeType
  }

  class Client {
    const ldt: array<Descriptor>
    const ldtTypes: array<DescriptorType>
    var is32bit: bool

    ghost predicate Valid() {
      ldt.Length == LDT_SELECTOR_COUNT && ldtTypes.Length == LDT_SELECTOR_COUNT
    }

    constructor (types: seq<DescriptorType>, descriptors: seq<Descriptor>, wide: bool)
      requires |types| == |descriptors| == LDT_SELECTOR_COUNT
      ensures Valid() && ldtTypes[..] == types && ldt[..] == descriptors && is32bit == wide
      ensures fresh(ldt) && fresh(ldtTypes)
    {
      ldt := new Descriptor[LDT_SELECTOR_COUNT](i requires 0 <= i < LDT_SELECTOR_COUNT => descriptors[i]);
      ldtTypes := new DescriptorType[LDT_SELECTOR_COUNT](i requires 0 <= i < LDT_SELECTOR_COUNT => types[i]);
      is32bit := wide;
    }

    /** The loop that sets up the descriptors of the run found. */
    method SetUp(first: nat, count: nat)
      requires Valid() && first + count <= LDT_SELECTOR_COUNT
      modifies ldt, ldtTypes
      ensures forall i :: 0 <= i < LDT_SELECTOR_COUNT ==>
        ldtTypes[i] == if first <= i < first + count then UserType else old(ldtTypes[i])
      ensures forall i :: 0 <= i < LDT_SELECTOR_COUNT ==>
        ldt[i] == if first <= i < first + count then FreshDescriptor(old(ldt[i]), is32bit) else old(ldt[i])
    {
      var test := first;
      while test < first + count
        invariant first <= test <= first + count
        invariant forall i :: 0 <= i < LDT_SELECTOR_COUNT ==>
          ldtTypes[i] == if first <= i < test then UserType else old(ldtTypes[i])
        invariant forall i :: 0 <= i < LDT_SELECTOR_COUNT ==>
          ldt[i] == if first <= i < test then FreshDescriptor(old(ldt[i]), is32bit) else old(ldt[i])
      {
        ldtTypes[test] := UserType;
        var d := ldt[test].(base0 := 0, base1 := 0, base2 := 0);
        d := d.(limit0 := 0, limit1 := (d.limit1 & 0x50) | (0 << 7) | 0);
        d := d.(limit0 := 0);
        if is32bit {
          d := d.(limit1 := d.limit1 | 0x40);
        }
        d := d.(stype := (3 << 5) | 0x92);
        ldt[test] := d;
        test := test + 1;
      }
    }

    /** `ldt_allocate`: the lowest run of `count` free descriptors above the 16 reserved ones, or -1
      * exactly when there is none.  Exactly the run is set up. */
    method LdtAllocate(count: nat) returns (index: int)
      requires Valid() && 1 <= count
      modifies ldt, ldtTypes
      ensures index == -1 ==>
        && ldt[..] == old(ldt[..]) && ldtTypes[..] == old(ldtTypes[..])
        && forall f :: FIRST_SELECTOR <= f && f + count <= LDT_SELECTOR_COUNT ==>
             !RunFree(Taken(old(ldtTypes[..])), f, count)
      ensures index != -1 ==>
        && FIRST_SELECTOR <= index && index + count <= LDT_SELECTOR_COUNT
        && RunFree(Taken(old(ldtTypes[..])), index, count)
        && (forall f :: FIRST_SELECTOR <= f < index ==> !RunFree(Taken(old(ldtTypes[..])), f, count))
        && (forall i :: 0 <= i < LDT_SELECTOR_COUNT ==>
          ldtTypes[i] == if index <= i < index + count then UserType else old(ldtTypes[i]))
        && (forall i :: 0 <= i < LDT_SELECTOR_COUNT ==>
          ldt[i] == if index <= i < index + count then FreshDescriptor(old(ldt[i]), is32bit) else old(ldt[i]))
    {
      ghost var used := Taken(ldtTypes[..]);
      var first := FIRST_SELECTOR;
      while first + count <= LDT_SELECTOR_COUNT
        invariant FIRST_SELECTOR <= first && ldt[..] == old(ldt[..]) && ldtTypes[..] == old(ldtTypes[..])
        invariant forall f :: FIRST_SELECTOR <= f < first ==> !RunFree(used, f, count)
        decreases LDT_SELECTOR_COUNT - first
      {
        var free, test := LastTaken(first, count);
        if free {
          SetUp(first, count);
          return first;
        }
        forall f | first <= f <= test
          ensures !RunFree(used, f, count)
        {
          SlotBlocks(used, first, count, test, f);
        }
        first := test + 1;
      }
      index := -1;
    }

    /** The backward test of one run of descriptors. */
    method LastTaken(first: nat, count: nat) returns (free: bool, test: nat)
      requires Valid() && 1 <= count && first + count <= LDT_SELECTOR_COUNT
      ensures free <==> RunFree(Taken(ldtTypes[..]), first, count)
      ensures !free ==> first <= test < first + count && test in Taken(ldtTypes[..])
    {
      test := first + count - 1;
      while ldtTypes[test] == FreeType
        invariant first <= test < first + count
        invariant forall i :: test < i < first + count ==> i !in Taken(ldtTypes[..])
        decreases test
      {
        if test > first {
          test := test - 1;
        } else {
          return true, test;
        }
      }
      assert test in Taken(ldtTypes[..]);
      free := false;
    }
  }
}
