/** The shape of the server's heap: blocks that tile one stretch of memory, and the chain of the
  * free ones. */
module HeapShape {
  import opened Sequences

  const ALIGN := 16

  predicate Aligned(n: int) {
    n % ALIGN == 0
  }

  /** A block starts at a multiple of 16, has a positive multiple of 16 as its size, and is followed
    * by another block or the end. */
  ghost predicate WellPlaced(blocks: set<nat>, size: map<nat, nat>, lo: nat, hi: nat, a: nat) {
    && a in size && size[a] > 0 && Aligned(size[a]) && Aligned(a)
    && lo <= a && a + size[a] <= hi && (a + size[a] == hi || a + size[a] in blocks)
  }

  ghost predicate Apart(size: map<nat, nat>, a: nat, b: nat) {
    a in size && (a < b ==> a + size[a] <= b)
  }

  /** The blocks lie end to end from `lo` to `hi`. */
  ghost predicate Tiles(blocks: set<nat>, size: map<nat, nat>, lo: nat, hi: nat) {
    && Aligned(lo) && lo <= hi && (lo < hi ==> lo in blocks)
    && (forall a :: a in blocks ==> WellPlaced(blocks, size, lo, hi, a))
    && (forall a, b :: a in blocks && b in blocks ==> Apart(size, a, b))
  }

  /** The block that byte `x` lies in. */
  ghost predicate Holds(blocks: set<nat>, size: map<nat, nat>, x: nat, a: nat) {
    a in blocks && a in size && a <= x < a + size[a]
  }

  lemma {:induction false} BlockFrom(blocks: set<nat>, size: map<nat, nat>, lo: nat, hi: nat, x: nat, a: nat)
    returns (b: nat)
    requires Tiles(blocks, size, lo, hi) && a in blocks && a <= x < hi
    ensures Holds(blocks, size, x, b)
    decreases hi - a
  {
    assert WellPlaced(blocks, size, lo, hi, a);
    if x < a + size[a] {
      b := a;
    } else {
      b := BlockFrom(blocks, size, lo, hi, x, a + size[a]);
    }
  }

  /** Every byte of the stretch belongs to exactly one block, and no other byte to any. */
  lemma ExactlyOneBlock(blocks: set<nat>, size: map<nat, nat>, lo: nat, hi: nat, x: nat)
    requires Tiles(blocks, size, lo, hi)
    ensures (exists a :: Holds(blocks, size, x, a)) <==> lo <= x < hi
    ensures forall a, b :: Holds(blocks, size, x, a) && Holds(blocks, size, x, b) ==> a == b
  {
    forall a, b | Holds(blocks, size, x, a) && Holds(blocks, size, x, b)
      ensures a == b
    {
      assert Apart(size, a, b) && Apart(size, b, a);
    }
    forall a | Holds(blocks, size, x, a)
      ensures lo <= x < hi
    {
      assert WellPlaced(blocks, size, lo, hi, a);
    }
    if lo <= x < hi {
      var b := BlockFrom(blocks, size, lo, hi, x, lo);
    }
  }

  /** The sum of the block sizes. */
  ghost function Total(blocks: set<nat>, size: map<nat, nat>): nat
    requires forall a :: a in blocks ==> a in size
  {
    if blocks == {} then 0
    else
      var a :| a in blocks;
      size[a] + Total(blocks - {a}, size)
  }

  lemma {:induction false} TotalWithout(blocks: set<nat>, size: map<nat, nat>, a: nat)
    requires a in blocks && forall b :: b in blocks ==> b in size
    ensures Total(blocks, size) == size[a] + Total(blocks - {a}, size)
    decreases blocks
  {
    var b :| b in blocks && Total(blocks, size) == size[b] + Total(blocks - {b}, size);
    if a != b {
      TotalWithout(blocks - {b}, size, a);
      TotalWithout(blocks - {a}, size, b);
      assert blocks - {a} - {b} == blocks - {b} - {a};
    }
  }

  lemma NonEmpty(blocks: set<nat>, size: map<nat, nat>, lo: nat, hi: nat)
    requires Tiles(blocks, size, lo, hi)
    ensures (forall a :: a in blocks ==> a in size) && (blocks == {} <==> lo == hi)
  {
    if a :| a in blocks {
      assert WellPlaced(blocks, size, lo, hi, a);
    }
  }

  /** No byte is lost or counted twice. */
  lemma {:induction false} TotalIsLength(blocks: set<nat>, size: map<nat, nat>, lo: nat, hi: nat)
    requires Tiles(blocks, size, lo, hi) && forall a :: a in blocks ==> a in size
    ensures Total(blocks, size) == hi - lo
    decreases blocks
  {
    hide Apart, WellPlaced;
    NonEmpty(blocks, size, lo, hi);
    if lo < hi {
      FirstRemoved(blocks, size, lo, hi);
      TotalWithout(blocks, size, lo);
      TotalIsLength(blocks - {lo}, size, lo + size[lo], hi);
    }
  }

  lemma FirstRemoved(blocks: set<nat>, size: map<nat, nat>, lo: nat, hi: nat)
    requires Tiles(blocks, size, lo, hi) && lo < hi
    ensures lo in size && lo + size[lo] <= hi && Tiles(blocks - {lo}, size, lo + size[lo], hi)
  {
    assert WellPlaced(blocks, size, lo, hi, lo);
    Multiples(lo, size[lo], size[lo]);
    hide Aligned;
    var rest, next := blocks - {lo}, lo + size[lo];
    assert WellPlaced(blocks, size, lo, hi, lo);
    forall a | a in rest
      ensures WellPlaced(rest, size, next, hi, a)
    {
      assert WellPlaced(blocks, size, lo, hi, a) && Apart(size, lo, a);
    }
    forall a, b | a in rest && b in rest
      ensures Apart(size, a, b)
    {
      assert Apart(size, a, b);
    }
  }

  lemma Multiples(a: nat, b: nat, n: nat)
    requires Aligned(a) && Aligned(b) && Aligned(n) && n <= b
    ensures Aligned(a + n) && Aligned(b - n) && Aligned(a + b)
  {
    var p, q, r := a / ALIGN, b / ALIGN, n / ALIGN;
    assert a + n == ALIGN * (p + r) && b - n == ALIGN * (q - r) && a + b == ALIGN * (p + q);
  }

  /** Cutting a block in two keeps the tiling. */
  lemma SplitTiles(blocks: set<nat>, size: map<nat, nat>, lo: nat, hi: nat, a: nat, n: nat)
    requires Tiles(blocks, size, lo, hi) && a in blocks && a in size && 0 < n < size[a] && Aligned(n)
    ensures a + n !in blocks
    ensures Tiles(blocks + {a + n}, size[a + n := size[a] - n][a := n], lo, hi)
  {
    hide Aligned, WellPlaced, Apart;
    var f := a + n;
    var blocks', size' := blocks + {f}, size[f := size[a] - n][a := n];
    SplitNew(blocks, size, lo, hi, a, n);
    forall b | b in blocks'
      ensures WellPlaced(blocks', size', lo, hi, b)
    {
      SplitPlaced(blocks, size, lo, hi, a, n, b);
    }
    forall b, c | b in blocks' && c in blocks'
      ensures Apart(size', b, c)
    {
      SplitApart(blocks, size, lo, hi, a, n, b, c);
    }
  }

  lemma SplitNew(blocks: set<nat>, size: map<nat, nat>, lo: nat, hi: nat, a: nat, n: nat)
    requires Tiles(blocks, size, lo, hi) && a in blocks && a in size && 0 < n < size[a] && Aligned(n)
    ensures a + n !in blocks && Aligned(a + n) && Aligned(size[a] - n)
  {
    hide Aligned;
    assert WellPlaced(blocks, size, lo, hi, a);
    Multiples(a, size[a], n);
    assert a + n in blocks ==> Apart(size, a, a + n);
  }

  lemma SplitPlaced(blocks: set<nat>, size: map<nat, nat>, lo: nat, hi: nat, a: nat, n: nat, b: nat)
    requires Tiles(blocks, size, lo, hi) && a in blocks && a in size && 0 < n < size[a] && Aligned(n)
    requires b in blocks + {a + n}
    ensures WellPlaced(blocks + {a + n}, size[a + n := size[a] - n][a := n], lo, hi, b)
  {
    hide Aligned, Apart;
    SplitNew(blocks, size, lo, hi, a, n);
    assert WellPlaced(blocks, size, lo, hi, a);
    if b != a + n {
      assert WellPlaced(blocks, size, lo, hi, b);
    }
  }

  lemma SplitApart(blocks: set<nat>, size: map<nat, nat>, lo: nat, hi: nat, a: nat, n: nat, b: nat, c: nat)
    requires Tiles(blocks, size, lo, hi) && a in blocks && a in size && 0 < n < size[a] && Aligned(n)
    requires b in blocks + {a + n} && c in blocks + {a + n}
    ensures Apart(size[a + n := size[a] - n][a := n], b, c)
  {
    hide Aligned, WellPlaced;
    SplitNew(blocks, size, lo, hi, a, n);
    var b0, c0 := if b == a + n then a else b, if c == a + n then a else c;
    assert Apart(size, b0, c0) && Apart(size, c0, b0);
  }

  /** Adding a block at the end keeps the tiling. */
  lemma GrowTiles(blocks: set<nat>, size: map<nat, nat>, lo: nat, hi: nat, n: nat)
    requires Tiles(blocks, size, lo, hi) && n > 0 && Aligned(n) && Aligned(hi)
    ensures hi !in blocks
    ensures Tiles(blocks + {hi}, size[hi := n], lo, hi + n)
  {
    hide Aligned, WellPlaced, Apart;
    var blocks', size' := blocks + {hi}, size[hi := n];
    GrowPlaced(blocks, size, lo, hi, n, hi);
    forall b | b in blocks'
      ensures WellPlaced(blocks', size', lo, hi + n, b)
    {
      GrowPlaced(blocks, size, lo, hi, n, b);
    }
    forall b, c | b in blocks' && c in blocks'
      ensures Apart(size', b, c)
    {
      GrowApart(blocks, size, lo, hi, n, b, c);
    }
  }

  lemma GrowPlaced(blocks: set<nat>, size: map<nat, nat>, lo: nat, hi: nat, n: nat, b: nat)
    requires Tiles(blocks, size, lo, hi) && n > 0 && Aligned(n) && Aligned(hi) && b in blocks + {hi}
    ensures hi !in blocks
    ensures WellPlaced(blocks + {hi}, size[hi := n], lo, hi + n, b)
  {
    hide Aligned, Apart;
    assert hi in blocks ==> WellPlaced(blocks, size, lo, hi, hi);
    assert b != hi ==> WellPlaced(blocks, size, lo, hi, b);
  }

  lemma GrowApart(blocks: set<nat>, size: map<nat, nat>, lo: nat, hi: nat, n: nat, b: nat, c: nat)
    requires Tiles(blocks, size, lo, hi) && b in blocks + {hi} && c in blocks + {hi}
    ensures Apart(size[hi := n], b, c)
  {
    hide Aligned;
    assert b != hi ==> WellPlaced(blocks, size, lo, hi, b);
    assert c != hi ==> WellPlaced(blocks, size, lo, hi, c);
    assert b != hi && c != hi ==> Apart(size, b, c);
  }

  /** What follows entry `i` of the chain; 0 ends it. */
  function Follower(chain: seq<nat>, i: nat): nat {
    if i + 1 < |chain| then chain[i + 1] else 0
  }

  ghost predicate LinkedAt(next: map<nat, nat>, chain: seq<nat>, i: nat) {
    i < |chain| ==> chain[i] != 0 && chain[i] in next && next[chain[i]] == Follower(chain, i)
  }

  /** `first` and the `next` links spell out the chain. */
  ghost predicate Links(first: nat, next: map<nat, nat>, chain: seq<nat>) {
    && first == (if chain == [] then 0 else chain[0])
    && forall i: nat :: LinkedAt(next, chain, i)
  }

  /** The first of the smallest free blocks that are large enough, among the first `n`; -1 if there
    * is none. */
  function BestFit(chain: seq<nat>, size: map<nat, nat>, need: nat, n: nat): (k: int)
    requires n <= |chain| && forall i :: 0 <= i < |chain| ==> chain[i] in size
    ensures -1 <= k < n
    ensures k >= 0 ==> size[chain[k]] >= need
  {
    if n == 0 then -1
    else
      var k := BestFit(chain, size, need, n - 1);
      if size[chain[n - 1]] >= need && (k < 0 || size[chain[n - 1]] < size[chain[k]]) then n - 1 else k
  }

  /** The chosen block is large enough, none that is large enough is smaller, and none of the same
    * size comes before it; when none is chosen, none is large enough. */
  lemma {:induction false} BestFitIsBest(chain: seq<nat>, size: map<nat, nat>, need: nat, n: nat)
    requires n <= |chain| && forall i :: 0 <= i < |chain| ==> chain[i] in size
    ensures var k := BestFit(chain, size, need, n);
      if k < 0 then forall i :: 0 <= i < n ==> size[chain[i]] < need
      else forall i :: 0 <= i < n && size[chain[i]] >= need ==>
        size[chain[k]] < size[chain[i]] || (size[chain[k]] == size[chain[i]] && k <= i)
    decreases n
  {
    if n > 0 {
      BestFitIsBest(chain, size, need, n - 1);
    }
  }

  /** An exact fit cannot be improved on. */
  lemma {:induction false} ExactFitStays(chain: seq<nat>, size: map<nat, nat>, need: nat, n: nat, m: nat)
    requires n <= m <= |chain| && forall i :: 0 <= i < |chain| ==> chain[i] in size
    requires BestFit(chain, size, need, n) >= 0 && size[chain[BestFit(chain, size, need, n)]] == need
    ensures BestFit(chain, size, need, m) == BestFit(chain, size, need, n)
    decreases m
  {
    if n < m {
      ExactFitStays(chain, size, need, n, m - 1);
    }
  }

  /** Unlinking entry `k`, and moving it up by `n` bytes. */
  function Without(chain: seq<nat>, k: nat): seq<nat>
    requires k < |chain|
  {
    chain[..k] + chain[k + 1..]
  }

  lemma UnlinkFirst(first: nat, next: map<nat, nat>, chain: seq<nat>)
    requires Links(first, next, chain) && Distinct(chain) && chain != []
    ensures first in next && Links(next[first], next, Without(chain, 0)) && Distinct(Without(chain, 0))
  {
    assert LinkedAt(next, chain, 0);
    var moved := Without(chain, 0);
    forall i: nat
      ensures LinkedAt(next, moved, i)
    {
      assert LinkedAt(next, chain, i + 1);
    }
  }

  lemma UnlinkLater(first: nat, next: map<nat, nat>, chain: seq<nat>, k: nat)
    requires Links(first, next, chain) && Distinct(chain) && 0 < k < |chain|
    ensures chain[k] in next
    ensures Links(first, next[chain[k - 1] := next[chain[k]]], Without(chain, k)) && Distinct(Without(chain, k))
  {
    assert LinkedAt(next, chain, k);
    var links, moved := next[chain[k - 1] := next[chain[k]]], Without(chain, k);
    forall i: nat
      ensures LinkedAt(links, moved, i)
    {
      assert LinkedAt(next, chain, i) && LinkedAt(next, chain, i + 1);
    }
  }

  lemma MoveFirst(first: nat, next: map<nat, nat>, chain: seq<nat>, f: nat)
    requires Links(first, next, chain) && Distinct(chain) && chain != [] && f !in chain && f != 0
    ensures chain[0] in next && Links(f, next[f := next[chain[0]]], chain[0 := f]) && Distinct(chain[0 := f])
  {
    assert LinkedAt(next, chain, 0);
    var links, moved := next[f := next[chain[0]]], chain[0 := f];
    forall i: nat
      ensures LinkedAt(links, moved, i)
    {
      assert LinkedAt(next, chain, i);
    }
  }

  lemma MoveLater(first: nat, next: map<nat, nat>, chain: seq<nat>, k: nat, f: nat)
    requires Links(first, next, chain) && Distinct(chain) && 0 < k < |chain| && f !in chain && f != 0
    ensures chain[k] in next
    ensures Links(first, next[chain[k - 1] := f][f := next[chain[k]]], chain[k := f]) && Distinct(chain[k := f])
  {
    assert LinkedAt(next, chain, k);
    var links, moved := next[chain[k - 1] := f][f := next[chain[k]]], chain[k := f];
    forall i: nat
      ensures LinkedAt(links, moved, i)
    {
      assert LinkedAt(next, chain, i);
    }
  }

  lemma PushLinks(first: nat, next: map<nat, nat>, chain: seq<nat>, f: nat)
    requires Links(first, next, chain) && Distinct(chain) && f !in chain && f != 0
    ensures Links(f, next[f := first], [f] + chain) && Distinct([f] + chain)
  {
    var links, moved := next[f := first], [f] + chain;
    forall i: nat
      ensures LinkedAt(links, moved, i)
    {
      if i > 0 {
        assert LinkedAt(next, chain, i - 1);
      }
    }
  }
}
