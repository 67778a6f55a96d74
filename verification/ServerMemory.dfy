/** The memory of the DPMI server: physical pages, the growing core, and `malloc` on top. */
module ServerMemory {
  import CInts
  import opened Bitmap
  import opened HeapShape
  import opened Sequences

  const PAGE_SIZE := 4096
  const MAP_BYTES := 4096
  const SLOTS := 1024
  const INT_MAX := 0x7fff_ffff

  function Members(s: seq<nat>): set<nat> {
    set x | x in s
  }

  lemma FirstReplaced(a: nat, chain: seq<nat>, b: nat)
    ensures Without([a] + chain, 0) == chain && ([a] + chain)[0 := b] == [b] + chain
  {
  }

  lemma OneMoreMember(chain: seq<nat>, a: nat)
    requires Distinct(chain) && a !in Members(chain)
    ensures Distinct(chain + [a]) && Members(chain + [a]) == Members(chain) + {a}
  {
    assert forall i :: 0 <= i < |chain| ==> chain[i] in Members(chain);
  }

  lemma {:induction false} DistinctCount(s: seq<nat>)
    requires Distinct(s)
    ensures |Members(s)| == |s|
    decreases |s|
  {
    if s != [] {
      var init := s[..|s| - 1];
      DistinctCount(init);
      assert Members(s) == Members(init) + {s[|s| - 1]};
    }
  }

  lemma OneLess(s: set<nat>, x: nat)
    requires x in s
    ensures |s - {x}| == |s| - 1
  {
  }

  function FreeIn(lo: nat, hi: nat, used: set<nat>): set<nat> {
    set i | lo <= i <= hi && i !in used
  }

  /** A page-table entry for a page: present, writable, user. */
  function Entry(page: nat): nat {
    page * PAGE_SIZE + 7
  }

  /** Bit by bit: present, writable, user, no other flag, and the page number from bit 12 on. */
  lemma EntryBits(page: nat)
    ensures var e := Entry(page);
      e % 2 == 1 && e / 2 % 2 == 1 && e / 4 % 2 == 1 && e % 4096 == 7 && e / 4096 == page
  {
    var e := Entry(page);
    CInts.DivideByRounds(e, 2, page * 2048 + 3);
    CInts.DivideByRounds(page * 2048 + 3, 2, page * 1024 + 1);
    CInts.DivideByRounds(e, 4, page * 1024 + 1);
    CInts.DivideByRounds(page * 1024 + 1, 2, page * 512);
    CInts.DivideByRounds(e, 4096, page);
  }

  /** The page of an entry, and an offset into it. */
  lemma EntryPage(page: nat, offset: nat)
    requires offset < PAGE_SIZE
    ensures Entry(page) / PAGE_SIZE * PAGE_SIZE + offset == page * PAGE_SIZE + offset
    ensures (page * PAGE_SIZE + offset) / PAGE_SIZE == page && (page * PAGE_SIZE + offset) % PAGE_SIZE == offset
  {
  }

  /** The entry of the server's one page table that maps an address. */
  function Slot(address: nat): (s: nat)
    ensures s < SLOTS
  {
    address / PAGE_SIZE % SLOTS
  }

  lemma SlotOfPage(base: nat, k: nat)
    requires base % PAGE_SIZE == 0
    ensures Slot(base + PAGE_SIZE * k) == (base / PAGE_SIZE + k) % SLOTS
  {
    assert base == base / PAGE_SIZE * PAGE_SIZE;
    assert base + PAGE_SIZE * k == (base / PAGE_SIZE + k) * PAGE_SIZE;
  }

  lemma SlotsApart(base: nat, j: nat, k: nat)
    requires base % PAGE_SIZE == 0 && j < k < j + SLOTS
    ensures Slot(base + PAGE_SIZE * j) != Slot(base + PAGE_SIZE * k)
  {
    SlotOfPage(base, j);
    SlotOfPage(base, k);
  }

  /** The last of the first `n` pages that uses the same slot as page `k`. */
  function LastUser(k: nat, n: nat): (r: nat)
    requires k < n
    ensures n <= r + SLOTS && k <= r < n
    ensures exists q :: r == k + SLOTS * q
    decreases n - k
  {
    if n <= k + SLOTS then
      assert k == k + SLOTS * 0;
      k
    else
      var r := LastUser(k + SLOTS, n);
      var q :| r == k + SLOTS + SLOTS * q;
      assert r == k + SLOTS * (q + 1);
      r
  }

  lemma SameSlot(base: nat, k: nat, r: nat)
    requires base % PAGE_SIZE == 0 && exists q :: r == k + SLOTS * q
    ensures Slot(base + PAGE_SIZE * r) == Slot(base + PAGE_SIZE * k)
  {
    SlotOfPage(base, k);
    SlotOfPage(base, r);
  }

  /** The page table `t` after the pages `ps` have been mapped one by one from page number `c` on. */
  function Overlay(t: seq<nat>, c: nat, ps: seq<nat>): (r: seq<nat>)
    requires |t| == SLOTS
    ensures |r| == SLOTS
    decreases |ps|
  {
    if ps == [] then t
    else Overlay(t, c, ps[..|ps| - 1])[(c + |ps| - 1) % SLOTS := Entry(ps[|ps| - 1])]
  }

  /** Short of the end of the table, each page has the entry of its own page number and no other
    * entry changes. */
  lemma {:induction false} OverlayFits(t: seq<nat>, c: nat, ps: seq<nat>, s: nat)
    requires |t| == SLOTS && c + |ps| <= SLOTS && s < SLOTS
    ensures Overlay(t, c, ps)[s] == if c <= s < c + |ps| then Entry(ps[s - c]) else t[s]
    decreases |ps|
  {
    if ps != [] {
      OverlayFits(t, c, ps[..|ps| - 1], s);
    }
  }

  /** Past the end of the table, the first entry is overwritten. */
  lemma {:induction false} OverlayWraps(t: seq<nat>, c: nat, ps: seq<nat>)
    requires |t| == SLOTS && 0 < c <= SLOTS < c + |ps|
    ensures exists k :: 0 <= k < |ps| && Overlay(t, c, ps)[0] == Entry(ps[k])
    decreases |ps|
  {
    var init := ps[..|ps| - 1];
    if (c + |init|) % SLOTS != 0 {
      OverlayWraps(t, c, init);
      var k :| 0 <= k < |init| && Overlay(t, c, init)[0] == Entry(init[k]);
      assert ps[k] == init[k];
    } else {
      assert Overlay(t, c, ps)[0] == Entry(ps[|init|]);
    }
  }

  /** The first `c` entries of the page table are those of `was`. */
  ghost predicate Kept(was: seq<nat>, now: seq<nat>, c: nat) {
    c <= |was| && c <= |now| && forall i :: 0 <= i < c ==> now[i] == was[i]
  }

  /** From `was` to `now` the page table has got the entries of the pages `ps` from number `c` on, and
    * no other entry has changed. */
  ghost predicate MapsOnly(was: seq<nat>, now: seq<nat>, c: nat, ps: seq<nat>) {
    && |was| == |now| == SLOTS
    && forall s :: 0 <= s < SLOTS ==> now[s] == if c <= s < c + |ps| then Entry(ps[s - c]) else was[s]
  }

  /** The page table `t` begins with entries for the pages `core`, none of which is free. */
  ghost predicate MapsPages(t: seq<nat>, core: seq<nat>, free: set<nat>) {
    && |t| == SLOTS && 0 < |core| <= SLOTS && Distinct(core) && Members(core) !! free
    && forall i :: 0 <= i < |core| ==> t[i] == Entry(core[i])
  }

  /** Mapping free pages behind the core keeps the entries of the core exactly as long as the table
    * has entries left. */
  lemma KeptExactly(t: seq<nat>, core: seq<nat>, free: set<nat>, ps: seq<nat>)
    requires MapsPages(t, core, free) && Members(ps) <= free
    ensures Kept(t, Overlay(t, |core|, ps), |core|) <==> |core| + |ps| <= SLOTS
  {
    hide Overlay, Members;
    var now := Overlay(t, |core|, ps);
    if |core| + |ps| <= SLOTS {
      forall s | 0 <= s < |core|
        ensures now[s] == t[s]
      {
        OverlayFits(t, |core|, ps, s);
      }
    } else {
      OverlayWraps(t, |core|, ps);
      var k :| 0 <= k < |ps| && now[0] == Entry(ps[k]);
      NotShared(core, ps, 0, k);
    }
  }

  lemma FirstMapped(t: seq<nat>, image: seq<nat>, page: nat, free: set<nat>)
    requires |t| == SLOTS && |image| < SLOTS && Distinct(image) && page !in image && page !in free
    requires forall p :: p in image ==> p !in free
    requires t[|image|] == Entry(page) && forall i :: 0 <= i < |image| ==> t[i] == Entry(image[i])
    ensures MapsPages(t, image + [page], free)
  {
    Joined(image, [page]);
  }

  /** Both together. */
  lemma Overlaid(t: seq<nat>, core: seq<nat>, free: set<nat>, ps: seq<nat>)
    requires MapsPages(t, core, free) && Distinct(ps) && Members(ps) <= free
    ensures Kept(t, Overlay(t, |core|, ps), |core|) <==> |core| + |ps| <= SLOTS
    ensures |core| + |ps| <= SLOTS ==>
      && MapsOnly(t, Overlay(t, |core|, ps), |core|, ps)
      && MapsPages(Overlay(t, |core|, ps), core, free)
      && MapsPages(Overlay(t, |core|, ps), core + ps, free - Members(ps))
  {
    KeptExactly(t, core, free, ps);
    if |core| + |ps| <= SLOTS {
      MapsMore(t, core, free, ps);
    }
  }

  /** As long as it has, the grown core is mapped, and the old one still is. */
  lemma MapsMore(t: seq<nat>, core: seq<nat>, free: set<nat>, ps: seq<nat>)
    requires MapsPages(t, core, free) && Distinct(ps) && Members(ps) <= free && |core| + |ps| <= SLOTS
    ensures MapsPages(Overlay(t, |core|, ps), core, free)
    ensures MapsPages(Overlay(t, |core|, ps), core + ps, free - Members(ps))
    ensures MapsOnly(t, Overlay(t, |core|, ps), |core|, ps)
  {
    hide Overlay, Members, Distinct;
    var now := Overlay(t, |core|, ps);
    forall s | 0 <= s < SLOTS
      ensures now[s] == if |core| <= s < |core| + |ps| then Entry(ps[s - |core|]) else t[s]
    {
      OverlayFits(t, |core|, ps, s);
    }
    assert forall i :: 0 <= i < |core| + |ps| ==> now[i] == Entry((core + ps)[i]);
    assert forall i :: 0 <= i < |core| ==> (core + ps)[i] == core[i];
    Joined(core, ps);
  }

  lemma NotShared(core: seq<nat>, ps: seq<nat>, i: nat, k: nat)
    requires Members(core) !! Members(ps) && i < |core| && k < |ps|
    ensures core[i] != ps[k]
  {
    assert core[i] in Members(core) && ps[k] in Members(ps);
  }

  lemma Joined(a: seq<nat>, b: seq<nat>)
    requires Distinct(a) && Distinct(b) && Members(a) !! Members(b)
    ensures Distinct(a + b) && Members(a + b) == Members(a) + Members(b)
  {
    var c := a + b;
    forall i, j | 0 <= i < j < |c|
      ensures c[i] != c[j]
    {
      if i < |a| <= j {
        NotShared(a, b, i, j - |a|);
      }
    }
  }

  lemma OverlayStep(t: seq<nat>, c: nat, ps: seq<nat>, page: nat)
    requires |t| == SLOTS
    ensures Overlay(t, c, ps + [page]) == Overlay(t, c, ps)[(c + |ps|) % SLOTS := Entry(page)]
  {
    assert (ps + [page])[..|ps|] == ps;
  }

  /** How many of `n` pages cannot be found in the page table any more. */
  function Lost(n: nat): (k: nat)
    ensures k <= n
  {
    if n <= SLOTS then 0 else n - SLOTS
  }

  function Min(a: int, b: int): int {
    if a < b then a else b
  }

  /** The globals of the allocator. */
  class Memory {
    const pageMap: array<bv8>
    const table: array<nat>
    var pageMin: nat
    var pageMax: nat
    var pageSearch: nat
    var pageFreeCount: int
    var coreEnd: nat
    var freeList: nat
    var next: map<nat, nat>
    var size: map<nat, nat>
    ghost var core: seq<nat>
    ghost var start: nat
    ghost var chain: seq<nat>
    ghost var live: set<nat>

    /** The pages that can be handed out. */
    ghost function FreePages(): set<nat>
      reads this`pageMin, this`pageMax, pageMap
    {
      FreeIn(pageMin, pageMax, Used(pageMap[..]))
    }

    ghost predicate PagesValid()
      reads this`pageMin, this`pageMax, this`pageSearch, this`pageFreeCount, pageMap
    {
      && pageMap.Length == MAP_BYTES && table.Length == SLOTS
      && pageMin <= pageSearch <= pageMax < 8 * MAP_BYTES
      && pageFreeCount == |FreePages()|
    }

    /** The space below `coreEnd`, which begins with the server itself, is mapped page by page to the
      * pages `core`: each by its own entry of the page table, and none of them is free. */
    ghost predicate CoreMapped()
      reads this`coreEnd, this`core, this`pageMin, this`pageMax, pageMap, table
    {
      && table.Length == SLOTS
      && coreEnd == PAGE_SIZE * |core|
      && MapsPages(table[..], core, FreePages())
    }

    /** How far a page is from the page where the search starts, going up and around. */
    ghost function Distance(page: nat): int
      reads this
    {
      if page >= pageSearch then page - pageSearch else page - pageSearch + pageMax - pageMin + 1
    }

    /** The circular search of `palloc`. */
    method FindFree() returns (pageNo: int)
      requires PagesValid()
      ensures pageNo == -1 <==> FreePages() == {}
      ensures pageNo != -1 ==>
        && 0 <= pageNo && pageNo in FreePages()
        && forall i :: i in FreePages() ==> Distance(pageNo) <= Distance(i)
      ensures pageNo != -1 ==> forall i :: i in FreePages() ==>
        if pageSearch <= pageNo then i < pageSearch || pageNo <= i else pageNo <= i < pageSearch
    {
      hide Used;
      var no := pageSearch;
      var taken := TestMap(pageMap, no);
      while taken
        invariant pageMin <= no <= pageMax
        invariant taken <==> no in Used(pageMap[..])
        invariant forall i :: i in FreePages() ==> Distance(no) <= Distance(i)
        decreases pageMax - pageMin - Distance(no), taken
      {
        no := if no == pageMax then pageMin else no + 1;
        if no == pageSearch {
          return -1;
        }
        taken := TestMap(pageMap, no);
      }
      assert no in FreePages();
      pageNo := no;
    }

    /** `palloc`: hands out the first free page from the search position on, going around once. */
    method Palloc() returns (pageNo: int)
      requires PagesValid()
      modifies this`pageSearch, this`pageFreeCount, pageMap
      ensures PagesValid()
      ensures pageNo == -1 <==> old(FreePages()) == {}
      ensures pageNo == -1 ==>
        && pageMap[..] == old(pageMap[..])
        && pageSearch == old(pageSearch) && pageFreeCount == old(pageFreeCount)
      ensures pageNo != -1 ==>
        && 0 <= pageNo && pageNo in old(FreePages())
        && (forall i :: i in old(FreePages()) ==> old(Distance(pageNo)) <= old(Distance(i)))
        && Used(pageMap[..]) == Used(old(pageMap[..])) + {pageNo} && FreePages() == old(FreePages()) - {pageNo}
        && pageFreeCount == old(pageFreeCount) - 1 && pageSearch == pageNo
    {
      hide Used;
      ghost var free := FreePages();
      pageNo := FindFree();
      if pageNo != -1 {
        pageSearch := pageNo;
        SetMap(pageMap, pageNo);
        assert FreePages() == free - {pageNo};
        OneLess(free, pageNo);
        pageFreeCount := pageFreeCount - 1;
      }
    }

    /** `pfree`: the bit is cleared and the count raised, whatever the page. */
    method Pfree(pageNo: nat)
      requires pageMap.Length == MAP_BYTES && pageNo < 8 * MAP_BYTES
      modifies this`pageFreeCount, pageMap
      ensures Used(pageMap[..]) == Used(old(pageMap[..])) - {pageNo} && pageFreeCount == old(pageFreeCount) + 1
    {
      ResetMap(pageMap, pageNo);
      pageFreeCount := pageFreeCount + 1;
    }

    /** Freeing a page that is in use gives it back. */
    twostate lemma FreedIsFree(pageNo: nat)
      requires old(PagesValid()) && pageMap.Length == MAP_BYTES && table.Length == SLOTS
      requires pageMin == old(pageMin) && pageMax == old(pageMax) && pageSearch == old(pageSearch)
      requires pageMin <= pageNo <= pageMax && pageNo !in old(FreePages())
      requires Used(pageMap[..]) == old(Used(pageMap[..])) - {pageNo} && pageFreeCount == old(pageFreeCount) + 1
      ensures PagesValid() && FreePages() == old(FreePages()) + {pageNo}
    {
      assert FreePages() == old(FreePages()) + {pageNo};
    }

    /** The most recent pages of the core are the ones in the page table. */
    ghost predicate Mapped(base: nat, ps: seq<nat>)
      reads table
    {
      && table.Length == SLOTS
      && forall k :: 0 <= k < |ps| && |ps| <= k + SLOTS ==> table[Slot(base + PAGE_SIZE * k)] == Entry(ps[k])
    }

    /** `ptr_to_physical`. */
    function Physical(address: nat): nat
      requires table.Length == SLOTS
      reads table
    {
      table[Slot(address)] / PAGE_SIZE * PAGE_SIZE + address % PAGE_SIZE
    }

    function PageAt(address: nat): nat
      requires table.Length == SLOTS
      reads table
    {
      Physical(address) / PAGE_SIZE
    }

    /** No two addresses of the core are the same byte of physical memory, and none is in a free
      * page. */
    lemma PhysicalApart(x: nat, y: nat)
      requires CoreMapped() && x < coreEnd && y < coreEnd
      ensures Physical(x) == Physical(y) ==> x == y
      ensures PageAt(x) !in FreePages()
    {
      CoreByte(x);
      CoreByte(y);
      EntryPage(core[x / PAGE_SIZE], x % PAGE_SIZE);
      EntryPage(core[y / PAGE_SIZE], y % PAGE_SIZE);
      hide Memory.Physical, Slot, Memory.FreePages;
    }

    lemma CoreByte(x: nat)
      requires CoreMapped() && x < coreEnd
      ensures x / PAGE_SIZE < |core| && Slot(x) == x / PAGE_SIZE
      ensures Physical(x) == core[x / PAGE_SIZE] * PAGE_SIZE + x % PAGE_SIZE && PageAt(x) == core[x / PAGE_SIZE]
      ensures core[x / PAGE_SIZE] !in FreePages()
    {
      hide Memory.FreePages;
      assert core[x / PAGE_SIZE] in Members(core);
      EntryPage(core[x / PAGE_SIZE], x % PAGE_SIZE);
    }

    lemma PageRead(base: nat, ps: seq<nat>, k: nat)
      requires base % PAGE_SIZE == 0 && Mapped(base, ps) && k < |ps|
      ensures PageAt(base + PAGE_SIZE * k) == ps[LastUser(k, |ps|)]
    {
      var r := LastUser(k, |ps|);
      SameSlot(base, k, r);
      assert table[Slot(base + PAGE_SIZE * k)] == Entry(ps[r]);
      assert (base + PAGE_SIZE * k) % PAGE_SIZE == 0;
      EntryPage(ps[r], 0);
      hide Slot, LastUser, Entry;
    }

    /** The release of a partial allocation, from the last page back. */
    method Rollback(n: nat, ghost base: nat, ghost ps: seq<nat>, ghost used: set<nat>)
      requires pageMap.Length == MAP_BYTES && base % PAGE_SIZE == 0 && coreEnd == base + PAGE_SIZE * n && |ps| == n
      requires Mapped(base, ps) && forall k :: 0 <= k < n ==> ps[k] < 8 * MAP_BYTES
      requires Used(pageMap[..]) == used + Members(ps) && used !! Members(ps) && Distinct(ps)
      modifies this`coreEnd, this`pageFreeCount, pageMap
      ensures coreEnd == base && pageFreeCount == old(pageFreeCount) + n
      ensures Used(pageMap[..]) == used + Members(ps[..Lost(n)])
    {
      var count := n;
      while count > 0
        invariant 0 <= count <= n && coreEnd == base + PAGE_SIZE * count
        invariant pageFreeCount == old(pageFreeCount) + n - count
        invariant Used(pageMap[..]) == used + Members(ps[..if n <= count + SLOTS then count else n - SLOTS])
      {
        count := count - 1;
        coreEnd := coreEnd - PAGE_SIZE;
        PageRead(base, ps, count);
        var page := PageAt(coreEnd);
        ghost var r := LastUser(count, n);
        ghost var before := if n <= count + 1 + SLOTS then count + 1 else n - SLOTS;
        ghost var after := if n <= count + SLOTS then count else n - SLOTS;
        Pfree(page);
        Shorter(ps, before, after, r);
        assert used + Members(ps[..before]) - {page} == used + Members(ps[..after]);
      }
      assert ps[..0] == [];
    }

    lemma Shorter(ps: seq<nat>, before: nat, after: nat, r: nat)
      requires Distinct(ps) && r < |ps| && after <= before <= |ps|
      requires (before == after + 1 && r == after) || (before == after && before <= r)
      ensures Members(ps[..before]) - {ps[r]} == Members(ps[..after])
    {
      if before == after + 1 {
        assert ps[..before] == ps[..after] + [ps[r]];
      }
      assert ps[r] !in ps[..after];
    }

    lemma RolledBack(ps: seq<nat>, m: nat, used: set<nat>)
      requires m <= |ps| && used !! Members(ps)
      ensures used + Members(ps[..m]) == used <==> m == 0
    {
      if m > 0 {
        assert ps[0] in Members(ps[..m]) && ps[0] in Members(ps);
      }
    }

    /** `map_page` at the end of the core. */
    method MapPage(ghost base: nat, ghost ps: seq<nat>, page: nat)
      requires base % PAGE_SIZE == 0 && coreEnd == base + PAGE_SIZE * |ps| && Mapped(base, ps)
      modifies table
      ensures Mapped(base, ps + [page]) && table[..] == old(table[..])[Slot(coreEnd) := Entry(page)]
    {
      forall k | 0 <= k < |ps| && |ps| < k + SLOTS
        ensures Slot(base + PAGE_SIZE * k) != Slot(coreEnd)
      {
        SlotsApart(base, k, |ps|);
      }
      table[Slot(coreEnd)] := Entry(page);
    }

    /** The pages `ps` have been taken from `free` for the core that began at `base`, and mapped over
      * the page table `was`. */
    ghost predicate Taken(base: nat, ps: seq<nat>, free: set<nat>, used: set<nat>, was: seq<nat>)
      reads this`coreEnd, this`pageMin, this`pageMax, this`pageSearch, this`pageFreeCount, pageMap, table
    {
      && PagesValid() && Mapped(base, ps) && base % PAGE_SIZE == 0 && coreEnd == base + PAGE_SIZE * |ps|
      && Distinct(ps) && Members(ps) <= free && FreePages() == free - Members(ps)
      && Used(pageMap[..]) == used + Members(ps)
      && free == FreeIn(pageMin, pageMax, used)
      && |was| == SLOTS && table[..] == Overlay(was, base / PAGE_SIZE, ps)
    }

    lemma TakenNone()
      requires PagesValid() && coreEnd % PAGE_SIZE == 0
      ensures Taken(coreEnd, [], FreePages(), Used(pageMap[..]), table[..])
    {
      assert Members([]) == {};
    }

    /** One more page for the core, if there is a free one. */
    method TakePage(ghost base: nat, ghost ps: seq<nat>, ghost free: set<nat>, ghost used: set<nat>,
                    ghost was: seq<nat>)
      returns (ok: bool, ghost ps': seq<nat>)
      requires Taken(base, ps, free, used, was)
      modifies this`pageSearch, this`pageFreeCount, this`coreEnd, pageMap, table
      ensures Taken(base, ps', free, used, was)
      ensures ok ==> |ps'| == |ps| + 1 && pageFreeCount == old(pageFreeCount) - 1 >= 0
      ensures !ok ==> ps' == ps && FreePages() == {} && pageFreeCount == old(pageFreeCount) == 0
    {
      hide Used, Slot, Memory.Mapped, Memory.Distance, Memory.FreePages, Distinct, Overlay, FreeIn, Memory.PagesValid;
      FreeBounded();
      var page := Palloc();
      FreeBounded();
      if page == -1 {
        return false, ps;
      }
      ps' := ps + [page];
      assert page !in Members(ps);
      OneMoreMember(ps, page);
      SlotOfPage(base, |ps|);
      OverlayStep(was, base / PAGE_SIZE, ps, page);
      MapPage(base, ps, page);
      coreEnd := coreEnd + PAGE_SIZE;
      ok := true;
    }

    /** A partial allocation of all free pages is released. */
    method Release(base: nat, count: nat, ghost ps: seq<nat>, ghost free: set<nat>, ghost used: set<nat>,
                   ghost was: seq<nat>)
      requires Taken(base, ps, free, used, was) && count == |ps| && FreePages() == {}
      modifies this`pageFreeCount, this`coreEnd, pageMap
      ensures coreEnd == base && pageFreeCount == old(pageFreeCount) + count == |free|
      ensures Used(pageMap[..]) == used + Members(ps[..Lost(count)])
      ensures Used(pageMap[..]) == used <==> count <= SLOTS
      ensures count <= SLOTS ==> PagesValid() && FreePages() == free
    {
      hide Used, Memory.Mapped, Slot, Memory.Distance, Overlay;
      DistinctCount(ps);
      forall k | 0 <= k < count
        ensures ps[k] < 8 * MAP_BYTES
      {
        assert ps[k] in Members(ps);
      }
      Rollback(count, base, ps, used);
      RolledBack(ps, Lost(count), used);
      if count <= SLOTS {
        assert FreePages() == free;
      }
    }

    /** `morecore`: succeeds exactly when there are enough free pages.  It maps the pages that it
      * takes behind the core whether the page table has entries left or not: the entries of the
      * core, which begin with those of the server, are kept exactly when it has.  Then a failing
      * call restores everything. */
    method Morecore(pages: nat) returns (result: nat, ghost ps: seq<nat>)
      requires PagesValid() && CoreMapped()
      modifies this`pageSearch, this`pageFreeCount, this`coreEnd, this`core, pageMap, table
      ensures result != 0 <==> pages <= old(pageFreeCount)
      ensures |ps| == Min(pages, old(pageFreeCount)) && Members(ps) <= old(FreePages())
      ensures table[..] == Overlay(old(table[..]), |old(core)|, ps)
      ensures Kept(old(table[..]), table[..], |old(core)|) <==> |old(core)| + |ps| <= SLOTS
      ensures Kept(old(table[..]), table[..], |old(core)|) ==>
        PagesValid() && CoreMapped() && MapsOnly(old(table[..]), table[..], |old(core)|, ps)
      ensures result != 0 ==>
        && result == old(coreEnd) && coreEnd == old(coreEnd) + PAGE_SIZE * pages && core == old(core) + ps
        && Taken(result, ps, old(FreePages()), old(Used(pageMap[..])), old(table[..]))
        && pageFreeCount == old(pageFreeCount) - pages
      ensures result == 0 ==>
        && coreEnd == old(coreEnd) && core == old(core) && pageFreeCount == old(pageFreeCount)
        && Used(pageMap[..]) == old(Used(pageMap[..])) + Members(ps[..Lost(|ps|)])
        && (Used(pageMap[..]) == old(Used(pageMap[..])) <==> old(pageFreeCount) <= SLOTS)
        && (old(pageFreeCount) <= SLOTS ==> PagesValid() && FreePages() == old(FreePages()))
    {
      hide Used, Memory.Distance, Memory.FreePages, Memory.Taken, Memory.PagesValid;
      hide MapsPages, MapsOnly, Overlay, Kept, Lost, Members, Distinct;
      result := coreEnd;
      ps := [];
      ghost var free, used, was := FreePages(), Used(pageMap[..]), table[..];
      CoreBounded();
      FreeBounded();
      TakenNone();
      var left, count := pages, 0;
      while left > 0
        invariant left >= 0 && count == |ps| && count + left == pages
        invariant Taken(result, ps, free, used, was) && pageFreeCount == old(pageFreeCount) - count >= 0
        invariant core == old(core)
      {
        var ok;
        ok, ps := TakePage(result, ps, free, used, was);
        if !ok {
          TakenFacts(result, ps, free, used, was);
          Release(result, count, ps, free, used, was);
          Overlaid(was, core, free, ps);
          return 0, ps;
        }
        left, count := left - 1, count + 1;
      }
      TakenFacts(result, ps, free, used, was);
      Overlaid(was, core, free, ps);
      core := core + ps;
    }

    lemma TakenFacts(base: nat, ps: seq<nat>, free: set<nat>, used: set<nat>, was: seq<nat>)
      requires Taken(base, ps, free, used, was)
      ensures PagesValid() && coreEnd == base + PAGE_SIZE * |ps| && Distinct(ps) && Members(ps) <= free
      ensures FreePages() == free - Members(ps)
      ensures |was| == SLOTS && table[..] == Overlay(was, base / PAGE_SIZE, ps)
    {
    }

    /** All blocks, free and live. */
    ghost function Blocks(): set<nat>
      reads this`chain, this`live
    {
      Members(chain) + live
    }

    /** The space obtained from `morecore` is tiled by the free and the live blocks. */
    ghost predicate HeapValid()
      reads this`coreEnd, this`freeList, this`next, this`size, this`start, this`chain, this`live
    {
      && Tiles(Blocks(), size, start, coreEnd)
      && Links(freeList, next, chain) && Distinct(chain) && live !! Members(chain)
      && 0 < start <= coreEnd < INT_MAX && coreEnd % PAGE_SIZE == 0
    }

    /** `malloc_init` without VCPI.  The server occupies the pages `image`; the first page after the
      * ones it was loaded to holds the bitmap and is mapped behind it; all others up to `extLast`
      * are free, and there is no block yet. */
    constructor (extFirst: nat, extLast: nat, image: seq<nat>)
      requires 0 < |image| < SLOTS && Distinct(image) && extFirst + |image| + 1 <= extLast < 8 * MAP_BYTES
      requires forall p :: p in image ==> p < extFirst + |image| || extLast < p
      ensures PagesValid() && HeapValid() && CoreMapped()
      ensures core == image + [extFirst + |image|] && pageFreeCount == extLast - extFirst - |image|
      ensures forall i: nat :: i in FreePages() <==> extFirst + |image| + 1 <= i <= extLast
      ensures chain == [] && live == {}
      ensures fresh(pageMap) && fresh(table)
    {
      pageMap := new bv8[MAP_BYTES](_ => 0);
      table := new nat[SLOTS](i requires 0 <= i => if i < |image| then Entry(image[i]) else 0);
      pageMin, pageSearch, pageMax := extFirst + |image| + 1, extFirst + |image| + 1, extLast;
      pageFreeCount := extLast - (extFirst + |image| + 1) + 1;
      coreEnd, start := PAGE_SIZE * (|image| + 1), PAGE_SIZE * (|image| + 1);
      core := image + [extFirst + |image|];
      freeList, next, size := 0, map[], map[];
      chain, live := [], {};
      new;
      SlotOfPage(0, |image|);
      table[Slot(PAGE_SIZE * |image|)] := Entry(pageSearch - 1);
      assert Used(pageMap[..]) == {};
      FirstMapped(table[..], image, extFirst + |image|, FreePages());
      RangeCount(FreePages(), extFirst + |image| + 1, extLast);
      PageAligned(coreEnd);
      hide MapsPages, Used;
    }

    /** The scan of the free list: the first of the smallest blocks that are large enough, and the
      * block before it.  The scan stops at an exact fit. */
    method FindBest(need: nat) returns (fBest: nat, fbBest: nat, bestSize: nat, ghost k: int)
      requires HeapValid() && need < INT_MAX
      requires forall i :: 0 <= i < |chain| ==> chain[i] in size && size[chain[i]] < INT_MAX
      ensures k == Fit(chain, size, need)
      ensures var best := Fit(chain, size, need);
        if best < 0 then fBest == 0
        else fBest == chain[best] && bestSize == size[fBest] && need <= bestSize
             && fbBest == if best == 0 then 0 else chain[best - 1]
    {
      hide Tiles;
      var f, fb := freeList, 0;
      fBest, fbBest, bestSize := 0, 0, INT_MAX;
      ghost var i: nat := 0;
      k := -1;
      while f != 0 && bestSize != need
        invariant i <= |chain|
        invariant f == (if i < |chain| then chain[i] else 0) && fb == (if i == 0 then 0 else chain[i - 1])
        invariant k == BestFit(chain, size, need, i)
        invariant if k < 0 then fBest == 0 && bestSize == INT_MAX
          else fBest == chain[k] && bestSize == size[fBest] && fbBest == if k == 0 then 0 else chain[k - 1]
        decreases |chain| - i
      {
        assert LinkedAt(next, chain, i);
        if size[f] >= need && size[f] < bestSize {
          fBest, fbBest, bestSize := f, fb, size[f];
        }
        fb := f;
        f := next[f];
        i := i + 1;
        k := BestFit(chain, size, need, i);
      }
      assert LinkedAt(next, chain, i);
      if bestSize == need {
        ExactFitStays(chain, size, need, i, |chain|);
      }
      k := BestFit(chain, size, need, |chain|);
    }

    /** New memory for a block that no free one can hold: it becomes the first free block. */
    method Extend(need: nat) returns (fBest: nat, bestSize: nat)
      requires PagesValid() && CoreMapped() && HeapValid() && 0 < need
      modifies this`pageSearch, this`pageFreeCount, this`coreEnd, this`core,
        this`freeList, this`next, this`size, this`chain, pageMap, table
      ensures bestSize == (need + PAGE_SIZE - 1) / PAGE_SIZE * PAGE_SIZE && need <= bestSize
      ensures (fBest != 0) == (bestSize / PAGE_SIZE <= old(pageFreeCount))
      ensures CoreKept() <==> old(|core|) + Min(bestSize / PAGE_SIZE, old(pageFreeCount)) <= SLOTS
      ensures CoreKept() ==> PagesValid() && CoreMapped()
      ensures fBest == 0 && CoreKept() ==> HeapUnchanged() && PagesUnchanged()
      ensures fBest != 0 ==>
        && PagesValid() && HeapValid() && fBest == old(coreEnd) && coreEnd == fBest + bestSize
        && chain == [fBest] + old(chain) && size == old(size)[fBest := bestSize] && fBest !in old(Blocks())
    {
      hide Tiles, Links, Used, Memory.Taken, Memory.Distance, Memory.FreePages;
      hide MapsPages, Overlay, Kept, Members, Distinct;
      bestSize := (need + PAGE_SIZE - 1) / PAGE_SIZE * PAGE_SIZE;
      RoundedUp(need);
      FreeBounded();
      CoreBounded();
      ghost var ps;
      fBest, ps := Morecore(bestSize / PAGE_SIZE);
      if fBest == 0 {
        return;
      }
      TakenFacts(fBest, ps, old(FreePages()), old(Used(pageMap[..])), old(table[..]));
      Adopt(fBest, bestSize);
    }

    /** The new memory is put in front of the free list. */
    method Adopt(f: nat, bestSize: nat)
      requires Tiles(Blocks(), size, start, f) && Links(freeList, next, chain)
      requires Distinct(chain) && live !! Members(chain)
      requires 0 < start <= f && 0 < bestSize && coreEnd == f + bestSize < INT_MAX
      requires f % PAGE_SIZE == 0 && bestSize % PAGE_SIZE == 0
      modifies this`freeList, this`next, this`size, this`chain
      ensures HeapValid() && f !in old(Blocks())
      ensures chain == [f] + old(chain) && size == old(size)[f := bestSize]
    {
      hide Tiles, Links;
      PageAligned(f);
      PageAligned(bestSize);
      GrowTiles(Blocks(), size, start, f, bestSize);
      PushLinks(freeList, next, chain, f);
      next := next[f := freeList];
      size := size[f := bestSize];
      freeList := f;
      assert Members([f] + chain) + live == Blocks() + {f};
      chain := [f] + chain;
    }

    lemma NothingTaken()
      requires CoreMapped()
      ensures Kept(table[..], table[..], |core|) && |core| <= SLOTS
    {
    }

    lemma CoreBounded()
      requires CoreMapped()
      ensures 0 < coreEnd <= PAGE_SIZE * SLOTS && coreEnd % PAGE_SIZE == 0
    {
    }

    /** There are never more free pages than the bitmap has bits. */
    lemma FreeBounded()
      requires PagesValid()
      ensures 0 <= pageFreeCount <= 8 * MAP_BYTES && (pageFreeCount == 0 <==> FreePages() == {})
      ensures pageMap.Length == MAP_BYTES && table.Length == SLOTS
    {
      BoundedCount(FreePages(), 8 * MAP_BYTES);
    }

    /** The page table entries of the core as it was are the same as before. */
    twostate predicate CoreKept()
      reads table
    {
      Kept(old(table[..]), table[..], old(|core|))
    }

    /** The same pages are free and in use as before. */
    twostate predicate PagesUnchanged()
      reads this`pageMin, this`pageMax, this`pageFreeCount, this`core, pageMap
    {
      && pageFreeCount == old(pageFreeCount) && FreePages() == old(FreePages())
      && Used(pageMap[..]) == old(Used(pageMap[..])) && core == old(core)
    }

    /** Nothing about the heap differs from before. */
    twostate predicate HeapUnchanged()
      reads this`coreEnd, this`freeList, this`next, this`size, this`start, this`chain, this`live
    {
      && coreEnd == old(coreEnd) && freeList == old(freeList) && next == old(next) && size == old(size)
      && start == old(start) && chain == old(chain) && live == old(live)
    }

    /** A block that fits exactly is unlinked. */
    method Unlink(fBest: nat, fbBest: nat, ghost k: nat)
      requires HeapValid() && k < |chain| && fBest == chain[k] && fbBest == if k == 0 then 0 else chain[k - 1]
      modifies this`freeList, this`next, this`chain, this`live
      ensures HeapValid() && chain == Without(old(chain), k) && live == old(live) + {fBest}
    {
      hide Tiles;
      assert LinkedAt(next, chain, k);
      assert k > 0 ==> LinkedAt(next, chain, k - 1);
      if k == 0 {
        UnlinkFirst(freeList, next, chain);
      } else {
        UnlinkLater(freeList, next, chain, k);
      }
      if fbBest != 0 {
        next := next[fbBest := next[fBest]];
      } else {
        freeList := next[freeList];
      }
      WithoutMembers(chain, k);
      assert Members(Without(chain, k)) + (live + {fBest}) == Blocks();
      chain := Without(chain, k);
      live := live + {fBest};
    }

    /** A larger block is cut: its first `need` bytes are handed out, and the link to it is moved up to
      * the rest. */
    method Cut(fBest: nat, fbBest: nat, bestSize: nat, need: nat, ghost k: nat)
      requires HeapValid() && k < |chain| && fBest == chain[k] && fbBest == if k == 0 then 0 else chain[k - 1]
      requires fBest in size && bestSize == size[fBest] && 0 < need < bestSize && Aligned(need)
      modifies this`freeList, this`next, this`size, this`chain, this`live
      ensures HeapValid() && chain == old(chain)[k := fBest + need] && live == old(live) + {fBest}
      ensures size == old(size)[fBest + need := bestSize - need][fBest := need] && fBest + need !in old(Blocks())
    {
      hide Tiles, Aligned;
      assert LinkedAt(next, chain, k);
      assert k > 0 ==> LinkedAt(next, chain, k - 1);
      var f := fBest + need;
      SplitTiles(Blocks(), size, start, coreEnd, fBest, need);
      if k == 0 {
        MoveFirst(freeList, next, chain, f);
      } else {
        MoveLater(freeList, next, chain, k, f);
      }
      if fbBest != 0 {
        next := next[fbBest := next[fbBest] + need];
        f := next[fbBest];
      } else {
        freeList := freeList + need;
        f := freeList;
      }
      next := next[f := next[fBest]];
      size := size[f := bestSize - need][fBest := need];
      CutMembers(chain, k, f);
      assert Members(chain[k := f]) + (live + {fBest}) == Blocks() + {f};
      chain := chain[k := f];
      live := live + {fBest};
    }

    /** The chosen block is unlinked when it fits exactly, and cut otherwise. */
    method HandOut(fBest: nat, fbBest: nat, bestSize: nat, need: nat, ghost k: nat)
      requires HeapValid() && k < |chain| && fBest == chain[k] && fbBest == if k == 0 then 0 else chain[k - 1]
      requires fBest in size && bestSize == size[fBest] && 0 < need <= bestSize && Aligned(need)
      modifies this`freeList, this`next, this`size, this`chain, this`live
      ensures HeapValid() && fBest !in old(live) && live == old(live) + {fBest}
      ensures chain == if need == bestSize then Without(old(chain), k) else old(chain)[k := fBest + need]
      ensures fBest in size && size[fBest] == need
      ensures forall a :: a in old(live) ==> a in size && a in old(size) && size[a] == old(size)[a]
    {
      hide Tiles, Links;
      FreeSizes();
      assert fBest in Members(chain);
      if need == bestSize {
        Unlink(fBest, fbBest, k);
      } else {
        Cut(fBest, fbBest, bestSize, need, k);
      }
    }

    /** `malloc`: a block for `n` bytes, taken from the smallest free block that is large enough, or
      * from new memory when there is none.  No other live block is touched, and no byte is lost:
      * exactly as long as the page table has entries for the pages that the call takes. */
    method Malloc(n: nat) returns (p: nat)
      requires PagesValid() && CoreMapped() && HeapValid() && n + 2 * PAGE_SIZE < INT_MAX
      modifies this`pageSearch, this`pageFreeCount, this`coreEnd, this`core,
        this`freeList, this`next, this`size, this`chain, this`live, pageMap, table
      ensures p == 0 <==>
        Fit(old(chain), old(size), Rounded(n)) < 0 && PagesFor(Rounded(n)) > old(pageFreeCount)
      ensures CoreKept() <==>
        old(|core|) + (if Fit(old(chain), old(size), Rounded(n)) >= 0 then 0
                       else Min(PagesFor(Rounded(n)), old(pageFreeCount))) <= SLOTS
      ensures CoreKept() ==> PagesValid() && CoreMapped()
      ensures CoreKept() && p == 0 ==> HeapUnchanged() && PagesUnchanged()
      ensures CoreKept() && p != 0 ==> HeapValid() && start == old(start)
      ensures CoreKept() && p != 0 ==> Handed(p, n, old(size), old(chain), old(live), old(coreEnd))
    {
      hide Used, Memory.Distance, Memory.HeapValid, Memory.PagesValid, Memory.CoreMapped, Memory.FreePages;
      hide Fit, Aligned, Members, Without, Kept, MapsPages;
      var need := (n + 2 * ALIGN - 1) / ALIGN * ALIGN;
      RoundedAligned(n);
      FreeSizes();
      NothingTaken();
      var fBest, fbBest, bestSize;
      ghost var k;
      fBest, fbBest, bestSize, k := FindBest(need);
      ghost var chain0, size0 := chain, size;
      assert k >= 0 ==> chain0[k] in chain0;
      ChainNotNull();
      if fBest == 0 {
        fBest, bestSize := Extend(need);
        if fBest == 0 {
          return 0;
        }
        fbBest := 0;
        k := 0;
        FirstReplaced(fBest, chain0, fBest + need);
      }
      HandOut(fBest, fbBest, bestSize, need, k);
      p := fBest + ALIGN;
    }

    /** What `malloc` hands out for `n` bytes, in terms of the free blocks before. */
    ghost predicate Handed(p: nat, n: nat, size0: map<nat, nat>, chain0: seq<nat>, live0: set<nat>, core0: nat)
      reads this`coreEnd, this`size, this`chain, this`live
    {
      var need, b := Rounded(n), p - ALIGN;
      && 0 <= b && b !in live0 && live == live0 + {b} && b in size && size[b] == need
      && (forall a :: a in live0 ==> a in size && a in size0 && size[a] == size0[a])
      && var k := Fit(chain0, size0, need);
         if k >= 0 then
           && b == chain0[k] && coreEnd == core0 && b in size0
           && chain == if size0[b] == need then Without(chain0, k) else chain0[k := b + need]
         else
           var grown := (need + PAGE_SIZE - 1) / PAGE_SIZE * PAGE_SIZE;
           && b == core0 && coreEnd == core0 + grown
           && chain == if grown == need then chain0 else [b + need] + chain0
    }

    lemma FreeSizes()
      requires HeapValid()
      ensures forall i :: 0 <= i < |chain| ==> chain[i] in size && size[chain[i]] < INT_MAX
      ensures forall a :: a in live ==> a in size
    {
      forall a | a in Blocks()
        ensures a in size && size[a] < INT_MAX
      {
        assert WellPlaced(Blocks(), size, start, coreEnd, a);
      }
    }

    lemma ChainNotNull()
      requires HeapValid()
      ensures forall i :: 0 <= i < |chain| ==> chain[i] != 0
    {
      forall i | 0 <= i < |chain|
        ensures chain[i] != 0
      {
        assert LinkedAt(next, chain, i);
      }
    }

    /** `free`: a null pointer is ignored; any other is put in front of the free list. */
    method Free(p: nat)
      requires HeapValid() && (p != 0 ==> p >= ALIGN && p - ALIGN in live)
      modifies this`freeList, this`next, this`chain, this`live
      ensures HeapValid()
      ensures if p == 0 then HeapUnchanged() else chain == [p - ALIGN] + old(chain) && live == old(live) - {p - ALIGN}
    {
      hide Tiles;
      if p != 0 {
        var f := p - ALIGN;
        BlockNotNull(f);
        PushLinks(freeList, next, chain, f);
        next := next[f := freeList];
        freeList := f;
        assert Members([f] + chain) + (live - {f}) == Blocks();
        chain := [f] + chain;
        live := live - {f};
      }
    }

    lemma BlockNotNull(a: nat)
      requires HeapValid() && a in Blocks()
      ensures a != 0
    {
      assert WellPlaced(Blocks(), size, start, coreEnd, a);
    }

    /** The payload of a live block is aligned and lies in that block. */
    lemma PayloadInside(b: nat, n: nat, x: nat)
      requires HeapValid() && b in live && b in size && size[b] == Rounded(n) && b + ALIGN <= x < b + ALIGN + n
      ensures (b + ALIGN) % 16 == 0 && Holds(Blocks(), size, x, b)
    {
      hide Aligned, Rounded, Links;
      assert WellPlaced(Blocks(), size, start, coreEnd, b);
      RoundedAligned(n);
      AlignIsAligned();
      Multiples(b, size[b], ALIGN);
    }

    /** And in no other block, free or live. */
    lemma PayloadDisjoint(b: nat, n: nat, x: nat, a: nat)
      requires HeapValid() && b in live && b in size && size[b] == Rounded(n) && b + ALIGN <= x < b + ALIGN + n
      requires a in Blocks() && a != b
      ensures !Holds(Blocks(), size, x, a)
    {
      hide Aligned, Rounded, Links;
      PayloadInside(b, n, x);
      ExactlyOneBlock(Blocks(), size, start, coreEnd, x);
    }

    /** Free and live bytes together are the space obtained from `morecore`. */
    lemma Conservation()
      requires HeapValid() && forall a :: a in Blocks() ==> a in size
      ensures Total(Blocks(), size) == coreEnd - start
    {
      TotalIsLength(Blocks(), size, start, coreEnd);
    }
  }

  /** The place in the chain of the best fit, or -1. */
  ghost function Fit(chain: seq<nat>, size: map<nat, nat>, need: nat): (k: int)
    ensures k < |chain|
  {
    if forall i :: 0 <= i < |chain| ==> chain[i] in size then BestFit(chain, size, need, |chain|) else -1
  }

  /** How many pages hold a block of `need` bytes. */
  function PagesFor(need: nat): nat {
    (need + PAGE_SIZE - 1) / PAGE_SIZE
  }

  lemma {:induction false} BoundedCount(s: set<nat>, n: nat)
    requires forall x :: x in s ==> x < n
    ensures |s| <= n
    decreases n
  {
    if s != {} {
      if n - 1 in s {
        OneLess(s, n - 1);
      }
      BoundedCount(s - {n - 1}, n - 1);
    }
  }

  /** The block size for a request: room for the header, rounded up to a multiple of 16. */
  function Rounded(n: nat): nat {
    (n + 2 * ALIGN - 1) / ALIGN * ALIGN
  }

  lemma RoundedAligned(n: nat)
    ensures Aligned(Rounded(n)) && n + ALIGN <= Rounded(n) < n + 2 * ALIGN
    ensures Rounded(n) % 16 == 0 && n + 16 <= Rounded(n) < n + 32
  {
  }

  lemma AlignIsAligned()
    ensures Aligned(ALIGN)
  {
  }

  lemma RoundedUp(need: nat)
    requires need > 0
    ensures var r := (need + PAGE_SIZE - 1) / PAGE_SIZE * PAGE_SIZE;
      need <= r < need + PAGE_SIZE && r % PAGE_SIZE == 0 && r / PAGE_SIZE * PAGE_SIZE == r
  {
  }

  lemma PageAligned(n: nat)
    requires n % PAGE_SIZE == 0
    ensures Aligned(n)
  {
    assert n == n / PAGE_SIZE * 256 * ALIGN;
  }

  lemma {:induction false} RangeCount(s: set<nat>, first: nat, last: nat)
    requires first <= last && forall i: nat :: i in s <==> first <= i <= last
    ensures |s| == last - first + 1
    decreases last
  {
    if first == last {
      assert s == {first};
    } else {
      RangeCount(s - {last}, first, last - 1);
      OneLess(s, last);
    }
  }

  lemma WithoutMembers(chain: seq<nat>, k: nat)
    requires k < |chain| && Distinct(chain)
    ensures Members(Without(chain, k)) == Members(chain) - {chain[k]}
  {
    var rest := Without(chain, k);
    forall x
      ensures x in rest <==> x in chain && x != chain[k]
    {
      if x in chain && x != chain[k] {
        var i :| 0 <= i < |chain| && chain[i] == x;
        assert rest[if i < k then i else i - 1] == x;
      }
    }
  }

  lemma CutMembers(chain: seq<nat>, k: nat, f: nat)
    requires k < |chain| && Distinct(chain)
    ensures Members(chain[k := f]) == Members(chain) - {chain[k]} + {f}
  {
    var moved := chain[k := f];
    forall x
      ensures x in moved <==> (x in chain && x != chain[k]) || x == f
    {
      if x in chain && x != chain[k] {
        var i :| 0 <= i < |chain| && chain[i] == x;
        assert moved[i] == x;
      }
      if x == f {
        assert moved[k] == x;
      }
    }
  }

  /** A server of one page, with one page more free than the page table has entries.  The failing
    * call for all of them and one more has lost a page and has overwritten entries of the core. */
  method LosingCall() returns (m: Memory)
    ensures fresh(m) && m.pageFreeCount == 1025 && |m.FreePages()| == 1024 && !m.CoreMapped()
  {
    hide Used, Overlay, Kept, FreeIn, MapsOnly, Memory.Taken, Memory.HeapValid;
    m := new Memory(256, 1282, [256]);
    ghost var free, used := m.FreePages(), Used(m.pageMap[..]);
    ghost var was, core := m.table[..], m.core;
    var result;
    ghost var ps;
    result, ps := m.Morecore(1026);
    assert ps[..1] == [ps[0]] && ps[0] in Members(ps);
    assert Members(ps[..1]) == {ps[0]};
    OneTaken(m.pageMin, m.pageMax, used, ps[0]);
    OneLess(free, ps[0]);
    StillKept(was, m.table[..], core);
  }

  /** With as many pages free as the page table has entries all of them are given back, but entries
    * of the core are overwritten all the same. */
  method OverwritingCall() returns (m: Memory)
    ensures fresh(m) && m.pageFreeCount == 1024 && m.PagesValid() && !m.CoreMapped()
  {
    m := new Memory(256, 1281, [256]);
    ghost var was, core := m.table[..], m.core;
    var result;
    ghost var ps;
    result, ps := m.Morecore(1025);
    StillKept(was, m.table[..], core);
  }

  lemma OneTaken(lo: nat, hi: nat, used: set<nat>, page: nat)
    ensures FreeIn(lo, hi, used + {page}) == FreeIn(lo, hi, used) - {page}
  {
    forall i
      ensures i in FreeIn(lo, hi, used + {page}) <==> i in FreeIn(lo, hi, used) && i != page
    {
    }
  }

  /** Two page tables that begin with entries for the same pages begin with the same entries. */
  lemma StillKept(was: seq<nat>, now: seq<nat>, core: seq<nat>)
    requires |core| <= |was| && |core| <= |now| && forall i :: 0 <= i < |core| ==> was[i] == Entry(core[i])
    ensures (forall i :: 0 <= i < |core| ==> now[i] == Entry(core[i])) ==> Kept(was, now, |core|)
  {
  }
}
