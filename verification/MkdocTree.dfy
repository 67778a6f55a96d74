/** The search tree of the documentation generator: an unbalanced tree of nodes that are also
  * chained in order. */
module MkdocTree {
  import opened DxeFormat
  import opened Sequences
  import opened SymbolSets

  /** The name under which a node is sorted: without leading underscores, in lower case. */
  function Fold(name: Name): Name {
    if name != [] && name[0] == 95 then
      TailIsName(name);
      Fold(name[1..])
    else Lower(name)
  }

  lemma TailIsName(name: Name)
    requires name != []
    ensures 0 !in name[1..]
  {
    assert forall x :: x in name[1..] ==> x in name;
  }

  function LowerByte(c: Byte): Byte {
    if 65 <= c <= 90 then c + 32 else c
  }

  function Lower(name: Name): Name {
    var s: seq<Byte> := seq(|name|, i requires 0 <= i < |name| => LowerByte(name[i]));
    assert 0 !in s by {
      assert forall i :: 0 <= i < |name| ==> name[i] in name && s[i] != 0;
    }
    s
  }

  /** Folding leaves out all leading underscores, and makes each letter of the rest lower case. */
  lemma {:induction false} Folded(name: Name) returns (k: nat)
    ensures k <= |name| && (forall i :: 0 <= i < k ==> name[i] == 95) && (k < |name| ==> name[k] != 95)
    ensures |Fold(name)| == |name| - k
    ensures forall i :: 0 <= i < |name| - k ==>
      Fold(name)[i] == name[k + i] + if 65 <= name[k + i] <= 90 then 32 else 0
    ensures Fold(name) != [] ==> Fold(name)[0] != 95
    decreases |name|
  {
    k := 0;
    if name != [] && name[0] == 95 {
      TailIsName(name);
      k := Folded(name[1..]);
      k := k + 1;
    }
  }

  /** So a leading underscore makes no difference. */
  lemma UnderscoreIgnored(name: Name)
    requires name != [] && name[0] == 95
    ensures 0 !in name[1..] && Fold(name) == Fold(name[1..])
  {
    TailIsName(name);
  }

  class TreeNode {
    const name: Name
    const sname: Name
    var before: TreeNode?
    var after: TreeNode?
    var prev: TreeNode?
    var next: TreeNode?

    constructor (name: Name)
      ensures this.name == name && sname == Fold(name)
      ensures before == after == prev == next == null
    {
      this.name, sname := name, Fold(name);
      before, after, prev, next := null, null, null, null;
    }

    function Compare(sn: Name): int {
      StrCmp(sname, sn)
    }
  }

  /** The shape that the before and after fields spell out. */
  datatype Shape = Leaf | Fork(l: Shape, n: TreeNode, r: Shape)

  ghost function Nodes(s: Shape): set<TreeNode> {
    match s
    case Leaf => {}
    case Fork(l, n, r) => Nodes(l) + {n} + Nodes(r)
  }

  ghost function InOrder(s: Shape): seq<TreeNode> {
    match s
    case Leaf => []
    case Fork(l, n, r) => InOrder(l) + [n] + InOrder(r)
  }

  /** No node occurs twice. */
  ghost predicate Simple(s: Shape) {
    match s
    case Leaf => true
    case Fork(l, n, r) => n !in Nodes(l) && n !in Nodes(r) && Nodes(l) !! Nodes(r) && Simple(l) && Simple(r)
  }

  /** The before and after fields of a set of nodes at one moment. */
  type LinkMap = map<TreeNode, (TreeNode?, TreeNode?)>

  ghost function LinksOf(nodes: set<TreeNode>): LinkMap
    reads nodes`before, nodes`after
  {
    map n | n in nodes :: (n.before, n.after)
  }

  /** The fields below `p` spell out `s`. */
  ghost predicate Spells(links: LinkMap, p: TreeNode?, s: Shape) {
    match s
    case Leaf => p == null
    case Fork(l, n, r) => p == n && n in links && Spells(links, links[n].0, l) && Spells(links, links[n].1, r)
  }

  /** The shape after a node is put at the end of its search path. */
  ghost function Insert(s: Shape, x: TreeNode): Shape {
    match s
    case Leaf => Fork(Leaf, x, Leaf)
    case Fork(l, n, r) => if n.Compare(x.sname) < 0 then Fork(l, n, Insert(r, x)) else Fork(Insert(l, x), n, r)
  }

  /** The end of the search path: the last node on it and the side to which the path leaves it. */
  ghost function Landing(s: Shape, x: TreeNode, parent: TreeNode?, right: bool): (TreeNode?, bool) {
    match s
    case Leaf => (parent, right)
    case Fork(l, n, r) => if n.Compare(x.sname) < 0 then Landing(r, x, n, true) else Landing(l, x, n, false)
  }

  /** The last nodes at which the path went right and left. */
  ghost function Neighbours(s: Shape, x: TreeNode, prev: TreeNode?, next: TreeNode?): (TreeNode?, TreeNode?) {
    match s
    case Leaf => (prev, next)
    case Fork(l, n, r) =>
      if n.Compare(x.sname) < 0 then Neighbours(r, x, n, next) else Neighbours(l, x, prev, n)
  }

  ghost predicate SortedNodes(o: seq<TreeNode>) {
    forall i, j :: 0 <= i < j < |o| ==> !Before(o[j].sname, o[i].sname)
  }

  /** The entry at position `i`, or null past either end. */
  ghost function EntryAt(o: seq<TreeNode>, i: int): TreeNode? {
    if 0 <= i < |o| then o[i] else null
  }

  /** The nodes with `x` put at position `k`. */
  function With(o: seq<TreeNode>, x: TreeNode, k: nat): seq<TreeNode>
    requires k <= |o|
  {
    o[..k] + [x] + o[k..]
  }

  /** The neighbours of each entry after one has been inserted. */
  lemma AroundInserted(o: seq<TreeNode>, x: TreeNode, k: nat, i: nat)
    requires k <= |o| && i <= |o|
    ensures var t := With(o, x, k);
      && t[i] == (if i < k then o[i] else if i == k then x else o[i - 1])
      && EntryAt(t, i - 1) == (if i <= k then EntryAt(o, i - 1) else if i == k + 1 then x else EntryAt(o, i - 2))
      && EntryAt(t, i + 1) == (if i + 1 < k then EntryAt(o, i + 1) else if i + 1 == k then x else EntryAt(o, i))
  {
  }

  ghost function Entries(o: seq<TreeNode>): set<TreeNode> {
    set n | n in o
  }

  /** The chain of prev and next fields is the sequence `o`. */
  ghost predicate Chained(o: seq<TreeNode>)
    reads Entries(o)`prev, Entries(o)`next
  {
    forall i :: 0 <= i < |o| ==> o[i].prev == EntryAt(o, i - 1) && o[i].next == EntryAt(o, i + 1)
  }

  /** The nodes that the new one is to come between are the entries on both sides of its place. */
  lemma Placed(o: seq<TreeNode>, x: TreeNode, k: nat)
    requires Chained(o) && Distinct(o) && k <= |o|
    requires x.prev == EntryAt(o, k - 1) && x.next == EntryAt(o, k)
    ensures x.prev != null ==> x.prev in Entries(o)
    ensures x.next != null ==> x.next in Entries(o)
    ensures forall i :: 0 <= i < |o| ==> o[i].prev == EntryAt(o, i - 1) && o[i].next == EntryAt(o, i + 1)
    ensures forall i :: 0 <= i < |o| ==> (o[i] == x.prev <==> i + 1 == k) && (o[i] == x.next <==> i == k)
  {
    forall i | 0 <= i < |o|
      ensures (o[i] == x.prev <==> i + 1 == k) && (o[i] == x.next <==> i == k)
    {
      hide Chained, Entries;
    }
  }

  /** Each node points at the neighbours that it has once `x` is at position `k`. */
  lemma NowChained(o: seq<TreeNode>, x: TreeNode, k: nat)
    requires k <= |o| && x.prev == EntryAt(o, k - 1) && x.next == EntryAt(o, k)
    requires forall i :: 0 <= i < |o| ==> o[i].prev == if i == k then x else EntryAt(o, i - 1)
    requires forall i :: 0 <= i < |o| ==> o[i].next == if i + 1 == k then x else EntryAt(o, i + 1)
    ensures Chained(With(o, x, k))
  {
    assert |With(o, x, k)| == |o| + 1;
    hide EntryAt, With;
    forall i | 0 <= i < |With(o, x, k)|
      ensures With(o, x, k)[i].prev == EntryAt(With(o, x, k), i - 1)
      ensures With(o, x, k)[i].next == EntryAt(With(o, x, k), i + 1)
    {
      AroundInserted(o, x, k, i);
    }
  }

  lemma {:induction false} NodesInOrder(s: Shape)
    ensures Nodes(s) == Entries(InOrder(s))
    decreases s
  {
    match s
    case Leaf =>
    case Fork(l, n, r) =>
      NodesInOrder(l);
      NodesInOrder(r);
      assert InOrder(s) == InOrder(l) + [n] + InOrder(r);
  }

  lemma {:induction false} SimpleDistinct(s: Shape)
    requires Simple(s)
    ensures Distinct(InOrder(s))
    decreases s
  {
    match s
    case Leaf =>
    case Fork(l, n, r) =>
      SimpleDistinct(l);
      SimpleDistinct(r);
      NodesInOrder(l);
      NodesInOrder(r);
      var a, b := InOrder(l), InOrder(r);
      forall i, j | 0 <= i < |a| && 0 <= j < |b|
        ensures a[i] != n && b[j] != n && a[i] != b[j]
      {
        assert a[i] in Entries(a) && b[j] in Entries(b);
      }
  }

  /** `x` goes to position `k` of the nodes `o`, between the two nodes `ends`, after a node that is
    * less and before one that is not; beyond the ends of `o` are `prev` and `next`. */
  predicate Lands(o: seq<TreeNode>, x: TreeNode, k: nat, prev: TreeNode?, next: TreeNode?,
                  ends: (TreeNode?, TreeNode?))
  {
    && k <= |o|
    && ends == (if k > 0 then o[k - 1] else prev, if k < |o| then o[k] else next)
    && (k > 0 ==> Before(o[k - 1].sname, x.sname))
    && (k < |o| ==> !Before(o[k].sname, x.sname))
  }

  lemma RightPart(a: seq<TreeNode>, n: TreeNode, b: seq<TreeNode>, j: nat, x: TreeNode,
                  prev: TreeNode?, next: TreeNode?, ends: (TreeNode?, TreeNode?))
    requires Before(n.sname, x.sname) && Lands(b, x, j, n, next, ends)
    ensures Lands(a + [n] + b, x, |a| + 1 + j, prev, next, ends)
    ensures With(a + [n] + b, x, |a| + 1 + j) == a + [n] + With(b, x, j)
  {
    hide Before;
    var o, k := a + [n] + b, |a| + 1 + j;
    assert o[..k] == a + [n] + b[..j] && o[k..] == b[j..];
  }

  lemma LeftPart(a: seq<TreeNode>, n: TreeNode, b: seq<TreeNode>, k: nat, x: TreeNode,
                 prev: TreeNode?, next: TreeNode?, ends: (TreeNode?, TreeNode?))
    requires !Before(n.sname, x.sname) && Lands(a, x, k, prev, n, ends)
    ensures Lands(a + [n] + b, x, k, prev, next, ends)
    ensures With(a + [n] + b, x, k) == With(a, x, k) + [n] + b
  {
    hide Before;
    var o := a + [n] + b;
    assert o[..k] == a[..k] && o[k..] == a[k..] + [n] + b;
  }

  /** Where the path ends in the sequence of nodes: the new node goes to position `k` between its
    * two neighbours, after nodes that were found less and before nodes that were not. */
  lemma {:induction false} InsertPosition(s: Shape, x: TreeNode, prev: TreeNode?, next: TreeNode?) returns (k: nat)
    ensures Lands(InOrder(s), x, k, prev, next, Neighbours(s, x, prev, next))
    ensures InOrder(Insert(s, x)) == With(InOrder(s), x, k)
    decreases s
  {
    match s
    case Leaf =>
      k := 0;
    case Fork(l, n, r) =>
      var a, b := InOrder(l), InOrder(r);
      assert InOrder(s) == a + [n] + b;
      if n.Compare(x.sname) < 0 {
        assert InOrder(Insert(s, x)) == a + [n] + InOrder(Insert(r, x));
        assert Neighbours(s, x, prev, next) == Neighbours(r, x, n, next);
        hide Before, InOrder, Insert, Neighbours, Lands, With;
        var j := InsertPosition(r, x, n, next);
        k := |a| + 1 + j;
        RightPart(a, n, b, j, x, prev, next, Neighbours(s, x, prev, next));
      } else {
        assert InOrder(Insert(s, x)) == InOrder(Insert(l, x)) + [n] + b;
        assert Neighbours(s, x, prev, next) == Neighbours(l, x, prev, n);
        hide Before, InOrder, Insert, Neighbours, Lands, With;
        k := InsertPosition(l, x, prev, n);
        LeftPart(a, n, b, k, x, prev, next, Neighbours(s, x, prev, next));
      }
  }

  /** In a sorted sequence the position is the first whose node is not less. */
  lemma PositionIsFirst(o: seq<TreeNode>, x: TreeNode, k: nat)
    requires SortedNodes(o) && k <= |o|
    requires k > 0 ==> Before(o[k - 1].sname, x.sname)
    requires k < |o| ==> !Before(o[k].sname, x.sname)
    ensures forall i :: 0 <= i < |o| ==> (Before(o[i].sname, x.sname) <==> i < k)
    ensures SortedNodes(With(o, x, k))
  {
    forall i | 0 <= i < |o|
      ensures Before(o[i].sname, x.sname) <==> i < k
    {
      if i < k - 1 {
        NotAfterBefore(o[i].sname, o[k - 1].sname, x.sname);
      } else if i > k && Before(o[i].sname, x.sname) {
        NotAfterBefore(o[k].sname, o[i].sname, x.sname);
      }
    }
    var t := With(o, x, k);
    forall i, j | 0 <= i < j < |t|
      ensures !Before(t[j].sname, t[i].sname)
    {
      if j == k {
        BeforeTotal(t[i].sname, x.sname);
      } else if i == k {
        assert t[j] == o[j - 1];
      }
    }
  }

  lemma NotAfterBefore(a: Name, b: Name, c: Name)
    requires !Before(b, a) && Before(b, c)
    ensures Before(a, c)
  {
    BeforeTotal(a, b);
    if a != b {
      BeforeTransitive(a, b, c);
    }
  }

  lemma {:induction false} InsertNodes(s: Shape, x: TreeNode)
    requires Simple(s) && x !in Nodes(s)
    ensures Nodes(Insert(s, x)) == Nodes(s) + {x} && Simple(Insert(s, x))
    decreases s
  {
    match s
    case Leaf =>
    case Fork(l, n, r) =>
      if n.Compare(x.sname) < 0 {
        InsertNodes(r, x);
      } else {
        InsertNodes(l, x);
      }
  }

  lemma {:induction false} LandingInside(s: Shape, x: TreeNode, parent: TreeNode?, right: bool)
    ensures s.Fork? ==> Landing(s, x, parent, right).0 in Nodes(s)
    ensures s.Fork? ==> Landing(s, x, parent, right) == Landing(s, x, null, false)
    decreases s
  {
    match s
    case Leaf =>
    case Fork(l, n, r) =>
      LandingInside(l, x, n, false);
      LandingInside(r, x, n, true);
  }

  /** A part of the tree none of whose links has changed still has its shape. */
  lemma {:induction false} StillSpells(was: LinkMap, now: LinkMap, p: TreeNode?, s: Shape)
    requires Spells(was, p, s)
    requires forall n :: n in Nodes(s) ==> n in was && n in now && now[n] == was[n]
    ensures Spells(now, p, s)
    decreases s
  {
    if s.Fork? {
      StillSpells(was, now, was[s.n].0, s.l);
      StillSpells(was, now, was[s.n].1, s.r);
    }
  }

  /** The links after the new node is hung on the end of its path. */
  ghost predicate Hung(was: LinkMap, now: LinkMap, s: Shape, x: TreeNode, parent: TreeNode?, right: bool) {
    && Nodes(s) <= was.Keys <= now.Keys
    && x in now
    && now[x] == (null, null)
    && (forall n :: n in Nodes(s) ==>
          now[n] == if n != parent then was[n] else if right then (was[n].0, x) else (x, was[n].1))
  }

  /** Hanging the new node on the end of its path turns the shape into the one with it inserted. */
  lemma {:induction false} HungSpells(was: LinkMap, now: LinkMap, s: Shape, x: TreeNode, parent: TreeNode, right: bool)
    requires s.Fork? && Simple(s) && Spells(was, s.n, s) && (parent, right) == Landing(s, x, null, false)
    requires Hung(was, now, s, x, parent, right)
    ensures Spells(now, s.n, Insert(s, x))
    decreases s
  {
    var l, n, r := s.l, s.n, s.r;
    LandingInside(l, x, n, false);
    LandingInside(r, x, n, true);
    if n.Compare(x.sname) < 0 {
      StillSpells(was, now, was[n].0, l);
      if r.Fork? {
        HungSpells(was, now, r, x, parent, right);
      }
    } else {
      StillSpells(was, now, was[n].1, r);
      if l.Fork? {
        HungSpells(was, now, l, x, parent, right);
      }
    }
  }

  /** Some node goes by the folded name `sname`. */
  ghost predicate Names(s: Shape, sname: Name) {
    exists n :: n in Nodes(s) && n.sname == sname
  }

  /** No two nodes go by the same folded name. */
  ghost predicate NoTwins(o: seq<TreeNode>) {
    forall i, j :: 0 <= i < j < |o| ==> o[i].sname != o[j].sname
  }

  /** Either side of a sorted tree is sorted. */
  lemma SidesSorted(s: Shape)
    requires s.Fork? && SortedNodes(InOrder(s))
    ensures SortedNodes(InOrder(s.l)) && SortedNodes(InOrder(s.r))
    ensures forall m :: m in Nodes(s.l) ==> !Before(s.n.sname, m.sname)
    ensures forall m :: m in Nodes(s.r) ==> !Before(m.sname, s.n.sname)
  {
    hide Before, Nodes;
    var a, n, b := InOrder(s.l), s.n, InOrder(s.r);
    var o := InOrder(s);
    assert o == a + [n] + b && o[|a|] == n;
    assert forall i :: 0 <= i < |a| ==> o[i] == a[i];
    assert forall i :: 0 <= i < |b| ==> o[|a| + 1 + i] == b[i];
    NodesInOrder(s.l);
    NodesInOrder(s.r);
    forall m | m in Nodes(s.l)
      ensures !Before(n.sname, m.sname)
    {
      assert m in Entries(a);
    }
    forall m | m in Nodes(s.r)
      ensures !Before(m.sname, n.sname)
    {
      assert m in Entries(b);
    }
  }

  /** A name other than the root's can only be on the side to which the comparison points. */
  lemma SideOfName(s: Shape, sname: Name)
    requires s.Fork? && SortedNodes(InOrder(s))
    ensures s.n.Compare(sname) > 0 ==> (Names(s, sname) <==> Names(s.l, sname))
    ensures s.n.Compare(sname) < 0 ==> (Names(s, sname) <==> Names(s.r, sname))
  {
    hide InOrder, SortedNodes, StrCmpFrom;
    SidesSorted(s);
    StrCmpFromFlips(s.n.sname, sname, 0);
    StrCmpEqual(s.n.sname, sname);
    assert Nodes(s) == Nodes(s.l) + {s.n} + Nodes(s.r);
  }

  /** A name that no node had is no twin. */
  lemma StillNoTwins(o: seq<TreeNode>, x: TreeNode, k: nat)
    requires NoTwins(o) && k <= |o|
    requires forall n :: n in o ==> n.sname != x.sname
    ensures NoTwins(With(o, x, k))
  {
    var t := With(o, x, k);
    forall i, j | 0 <= i < j < |t|
      ensures t[i].sname != t[j].sname
    {
      assert i != k ==> t[i] == o[if i < k then i else i - 1];
      assert j != k ==> t[j] == o[if j < k then j else j - 1];
    }
  }

  /** `TreeNode::Traverse`: the nodes in the order they are visited. */
  method Traverse(n: TreeNode, ghost s: Shape, ghost links: LinkMap) returns (visited: seq<TreeNode>)
    requires Spells(links, n, s) && links == LinksOf(links.Keys)
    ensures visited == InOrder(s)
    decreases s
  {
    visited := [];
    if n.before != null {
      visited := Traverse(n.before, s.l, links);
    }
    visited := visited + [n];
    if n.after != null {
      var rest := Traverse(n.after, s.r, links);
      visited := visited + rest;
    }
  }

  /** What is known of the place of a new node before anything is changed. */
  lemma Prepared(s: Shape, x: TreeNode) returns (k: nat)
    requires Simple(s) && SortedNodes(InOrder(s)) && x !in Nodes(s)
    ensures k <= |InOrder(s)| && InOrder(Insert(s, x)) == With(InOrder(s), x, k)
    ensures Neighbours(s, x, null, null) == (EntryAt(InOrder(s), k - 1), EntryAt(InOrder(s), k))
    ensures forall i :: 0 <= i < |InOrder(s)| ==> (Before(InOrder(s)[i].sname, x.sname) <==> i < k)
    ensures SortedNodes(InOrder(Insert(s, x))) && Distinct(InOrder(s)) && x !in InOrder(s)
    ensures Nodes(Insert(s, x)) == Entries(InOrder(Insert(s, x)))
  {
    k := InsertPosition(s, x, null, null);
    PositionIsFirst(InOrder(s), x, k);
    NodesInOrder(s);
    NodesInOrder(Insert(s, x));
    SimpleDistinct(s);
    assert x !in Entries(InOrder(s));
    hide InOrder, Insert, Neighbours, Nodes, Simple, Before;
  }

  class Tree {
    var nodes: TreeNode?
    ghost var shape: Shape
    ghost var repr: set<TreeNode>

    /** The links spell out a search tree, and the chain is its traversal. */
    ghost predicate Valid()
      reads this, repr
    {
      && repr == Nodes(shape) == Entries(InOrder(shape))
      && Simple(shape)
      && Spells(LinksOf(repr), nodes, shape)
      && SortedNodes(InOrder(shape))
      && Chained(InOrder(shape))
    }

    constructor ()
      ensures Valid() && InOrder(shape) == []
    {
      nodes, shape, repr := null, Leaf, {};
    }

    /** The descent of `Add`: the new node's neighbours are noted on the way. */
    method Descend(tn: TreeNode) returns (parent: TreeNode?, right: bool)
      requires Valid() && tn !in repr && tn.prev == null && tn.next == null
      modifies tn`prev, tn`next
      ensures (parent, right) == Landing(shape, tn, null, false)
      ensures (tn.prev, tn.next) == Neighbours(shape, tn, null, null)
      ensures Valid()
    {
      hide SortedNodes, Chained, Simple, InOrder, Before;
      parent, right := null, false;
      var np := nodes;
      ghost var s, links := shape, LinksOf(repr);
      while np != null
        invariant Spells(links, np, s) && links == LinksOf(repr)
        invariant Landing(s, tn, parent, right) == Landing(shape, tn, null, false)
        invariant Neighbours(s, tn, tn.prev, tn.next) == Neighbours(shape, tn, null, null)
        invariant Valid()
        decreases s
      {
        if np.Compare(tn.sname) < 0 {
          tn.prev := np;
          parent, right, np, s := np, true, np.after, s.r;
        } else {
          tn.next := np;
          parent, right, np, s := np, false, np.before, s.l;
        }
      }
    }

    /** The two chain updates of `Add`: the new node's neighbours come to point at it. */
    static method Chain(tn: TreeNode, ghost o: seq<TreeNode>, ghost k: nat)
      requires Chained(o) && Distinct(o) && k <= |o| && tn !in o
      requires tn.prev == EntryAt(o, k - 1) && tn.next == EntryAt(o, k)
      modifies Entries(o)`prev, Entries(o)`next
      ensures Chained(With(o, tn, k))
    {
      Placed(o, tn, k);
      hide *;
      if tn.prev != null {
        tn.prev.next := tn;
      }
      forall i | 0 <= i < |o|
        ensures o[i].next == if i + 1 == k then tn else EntryAt(o, i + 1)
      {
      }
      if tn.next != null {
        tn.next.prev := tn;
      }
      forall i | 0 <= i < |o|
        ensures o[i].prev == if i == k then tn else EntryAt(o, i - 1)
      {
      }
      hide *;
      NowChained(o, tn, k);
    }

    /** `*np = &tn`: the new node is hung where the descent ended. */
    method Hang(tn: TreeNode, parent: TreeNode?, right: bool)
      requires repr == Nodes(shape) && Simple(shape) && tn !in repr && tn.before == tn.after == null
      requires Spells(LinksOf(repr), nodes, shape) && (parent, right) == Landing(shape, tn, null, false)
      modifies this, repr`before, repr`after
      ensures shape == Insert(old(shape), tn)
      ensures repr == Nodes(shape) == old(repr) + {tn} && Simple(shape)
      ensures Spells(LinksOf(repr), nodes, shape)
    {
      ghost var links := LinksOf(repr);
      ghost var now;
      InsertNodes(shape, tn);
      LandingInside(shape, tn, null, false);
      if parent == null {
        nodes := tn;
      } else if right {
        parent.after := tn;
      } else {
        parent.before := tn;
      }
      now := LinksOf(repr + {tn});
      if parent != null {
        HungSpells(links, now, shape, tn, parent, right);
      }
      assert Spells(now, nodes, Insert(shape, tn));
      hide Spells, LinksOf, Landing, Hung, Simple;
      shape, repr := Insert(shape, tn), repr + {tn};
    }

    /** `Tree::Add`: the new node lands before the first node that is not less, in the tree and in
      * the chain; nothing else moves. */
    method Add(tn: TreeNode) returns (ghost k: nat)
      requires Valid() && tn !in repr
      requires tn.before == tn.after == tn.prev == tn.next == null
      modifies this, repr, tn
      ensures Valid() && shape == Insert(old(shape), tn) && repr == old(repr) + {tn}
      ensures k <= |old(InOrder(shape))|
      ensures InOrder(shape) == With(old(InOrder(shape)), tn, k)
      ensures forall i :: 0 <= i < |old(InOrder(shape))| ==>
        (Before(old(InOrder(shape))[i].sname, tn.sname) <==> i < k)
    {
      hide Landing, Neighbours, Insert, Spells, Simple, InOrder, Nodes, SortedNodes, Distinct, Chained, Before;
      ghost var o := InOrder(shape);
      k := Prepared(shape, tn);
      var parent, right := Descend(tn);
      ghost var links := LinksOf(repr);
      assert Spells(links, nodes, shape);
      Chain(tn, o, k);
      assert links == LinksOf(repr);
      hide LinksOf, EntryAt, Entries;
      Hang(tn, parent, right);
    }

    /** The descent of `Find`. */
    method Search(sname: Name) returns (np: TreeNode?)
      requires Valid()
      ensures np != null <==> Names(shape, sname)
      ensures np != null ==> np in repr && np.sname == sname
    {
      np := nodes;
      ghost var s, links := shape, LinksOf(repr);
      while np != null
        invariant Spells(links, np, s) && Nodes(s) <= Nodes(shape)
        invariant SortedNodes(InOrder(s)) && (Names(s, sname) <==> Names(shape, sname))
        decreases s
      {
        SidesSorted(s);
        SideOfName(s, sname);
        var c := np.Compare(sname);
        StrCmpEqual(np.sname, sname);
        if c == 0 {
          return;
        }
        if c > 0 {
          np, s := np.before, s.l;
        } else {
          np, s := np.after, s.r;
        }
      }
    }

    /** `Tree::Find`: the node of that folded name if the tree has one, with nothing changed;
      * otherwise a new node, added. */
    method Find(name: Name) returns (tn: TreeNode)
      requires Valid()
      modifies this, repr
      ensures Valid() && tn in repr && tn.sname == Fold(name)
      ensures Names(old(shape), Fold(name)) ==>
        tn in old(repr) && unchanged(this) && unchanged(old(repr))
      ensures !Names(old(shape), Fold(name)) ==>
        fresh(tn) && tn.name == name && shape == Insert(old(shape), tn)
      ensures old(NoTwins(InOrder(shape))) ==> NoTwins(InOrder(shape))
    {
      hide Landing, Neighbours, Insert, Spells, Simple, InOrder, Nodes, SortedNodes, Chained, LinksOf;
      var np := Search(Fold(name));
      if np != null {
        return np;
      }
      tn := new TreeNode(name);
      NodesInOrder(shape);
      ghost var o := InOrder(shape);
      ghost var k := Add(tn);
      if NoTwins(o) {
        forall n | n in o
          ensures n.sname != tn.sname
        {
          assert n in Entries(o);
        }
        StillNoTwins(o, tn, k);
      }
    }

    /** `Tree::Traverse`: the nodes are visited in the order of their names, which is the order of
      * the chain. */
    method TraverseAll() returns (visited: seq<TreeNode>)
      requires Valid()
      ensures visited == InOrder(shape) && Chained(visited) && SortedNodes(visited) && Entries(visited) == repr
    {
      visited := [];
      if nodes != null {
        visited := Traverse(nodes, shape, LinksOf(repr));
      }
    }
  }
}
