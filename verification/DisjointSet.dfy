// The reference-counted union-find that holds the bags.  Nodes live in a heap
// that is keyed by address; a node that is freed leaves the heap, so touching
// a freed node would be a failed lookup.

module DisjointSet {

  type Node = nat
  type BagId = nat

  datatype Option<+T> = None | Some(value: T)

  // A node points at its parent or, when it is a root, at the bag of its set;
  // the low bits of the pointer tell S-bags from P-bags.
  datatype Link = Parent(node: Node) | Tag(bag: BagId, isP: bool)

  datatype NodeData = NodeData(link: Link, rank: nat, refCount: int)

  // A bag object: S-bag or P-bag, with a node of its set unless it is empty.
  datatype Bag = Bag(isP: bool, ds: Option<Node>)

  // What can hold a counted reference to a node: a child's parent pointer, a
  // bag, or an access recorded in the read or the write dictionary.
  datatype Holder = ChildOf(node: Node) | BagOf(bag: BagId) | AccessAt(write: bool, loc: nat)

  type Nodes = map<Node, NodeData>
  type Refs = map<Holder, Node>

  // ------------------------------------------------------------------ shape

  // `root` assigns every node ever created the root of its set.  A live root
  // is its own representative; any other live node has a live parent of higher
  // rank with the same root.
  ghost predicate NodeOk(nodes: Nodes, root: seq<Node>, n: Node) {
    && n in nodes && n < |root|
    && match nodes[n].link
       case Tag(_, _) => root[n] == n
       case Parent(p) =>
         && p in nodes && p < |root|
         && nodes[n].rank < nodes[p].rank
         && root[n] == root[p]
         && root[n] in nodes && nodes[root[n]].link.Tag?
         && nodes[n].rank < nodes[root[n]].rank
  }

  ghost predicate Shaped(nodes: Nodes, root: seq<Node>) {
    forall n {:trigger NodeOk(nodes, root, n)} :: n in nodes ==> NodeOk(nodes, root, n)
  }

  ghost predicate NoChildren(nodes: Nodes, n: Node) {
    forall m :: m in nodes ==> nodes[m].link != Parent(n)
  }

  // A root without children is alone in its set.
  lemma {:induction false} LonelyRoot(nodes: Nodes, root: seq<Node>, n: Node, m: Node)
    requires Shaped(nodes, root) && n in nodes && m in nodes && NoChildren(nodes, n)
    requires m < |root| && root[m] == n
    ensures m == n
    decreases if nodes[m].rank < nodes[n].rank then nodes[n].rank - nodes[m].rank else 0
  {
    assert NodeOk(nodes, root, m);
    if nodes[m].link.Parent? {
      assert NodeOk(nodes, root, nodes[m].link.node);
      LonelyRoot(nodes, root, n, nodes[m].link.node);
    }
  }

  lemma RemoveKeepsShape(nodes: Nodes, root: seq<Node>, n: Node)
    requires Shaped(nodes, root) && n in nodes && NoChildren(nodes, n)
    ensures Shaped(nodes - {n}, root)
  {
    forall m | m in nodes && m != n
      ensures NodeOk(nodes - {n}, root, m)
    {
      assert NodeOk(nodes, root, m);
      if root[m] == n {
        LonelyRoot(nodes, root, n, m);
      }
    }
  }

  // ----------------------------------------------------------------- counts

  ghost function HoldersOf(refs: Refs, n: Node): set<Holder> {
    set h | h in refs && refs[h] == n
  }

  // A node's count is the number of its holders, except that one reference to
  // `loose` has been dropped by its holder but is still counted.  No node
  // without references stays allocated.
  ghost predicate CountOk(nodes: Nodes, refs: Refs, loose: Option<Node>, n: Node) {
    && n in nodes
    && nodes[n].refCount == |HoldersOf(refs, n)| + (if loose == Some(n) then 1 else 0)
    && nodes[n].refCount > 0
  }

  ghost predicate Counted(nodes: Nodes, refs: Refs, loose: Option<Node>) {
    && (forall h :: h in refs ==> refs[h] in nodes)
    && (forall n {:trigger CountOk(nodes, refs, loose, n)} :: n in nodes ==> CountOk(nodes, refs, loose, n))
  }

  lemma AddHolder(refs: Refs, h: Holder, n: Node)
    requires h !in refs
    ensures |HoldersOf(refs[h := n], n)| == |HoldersOf(refs, n)| + 1
    ensures forall m :: m != n ==> HoldersOf(refs[h := n], m) == HoldersOf(refs, m)
  {
    assert HoldersOf(refs[h := n], n) == HoldersOf(refs, n) + {h};
  }

  lemma DropHolder(refs: Refs, h: Holder)
    requires h in refs
    ensures |HoldersOf(refs - {h}, refs[h])| == |HoldersOf(refs, refs[h])| - 1
    ensures forall m :: m != refs[h] ==> HoldersOf(refs - {h}, m) == HoldersOf(refs, m)
  {
    assert HoldersOf(refs - {h}, refs[h]) == HoldersOf(refs, refs[h]) - {h};
  }

  lemma MoveHolder(refs: Refs, h: Holder, n: Node)
    requires h in refs && refs[h] != n
    ensures |HoldersOf(refs[h := n], n)| == |HoldersOf(refs, n)| + 1
    ensures |HoldersOf(refs[h := n], refs[h])| == |HoldersOf(refs, refs[h])| - 1
    ensures forall m :: m != n && m != refs[h] ==> HoldersOf(refs[h := n], m) == HoldersOf(refs, m)
  {
    assert HoldersOf(refs[h := n], n) == HoldersOf(refs, n) + {h};
    assert HoldersOf(refs[h := n], refs[h]) == HoldersOf(refs, refs[h]) - {h};
  }

  // The holders are exactly the parent links, the bags and the recorded accesses.
  ghost predicate ChildRefOk(nodes: Nodes, refs: Refs, n: Node) {
    && (ChildOf(n) in refs <==> n in nodes && nodes[n].link.Parent?)
    && (ChildOf(n) in refs ==> nodes[n].link.node == refs[ChildOf(n)])
  }

  ghost predicate BagRefOk(bags: map<BagId, Bag>, refs: Refs, b: BagId) {
    && (BagOf(b) in refs <==> b in bags && bags[b].ds.Some?)
    && (BagOf(b) in refs ==> bags[b].ds.value == refs[BagOf(b)])
  }

  ghost predicate RefsMatch(nodes: Nodes, bags: map<BagId, Bag>, refs: Refs) {
    && (forall n {:trigger ChildRefOk(nodes, refs, n)} :: ChildRefOk(nodes, refs, n))
    && (forall b {:trigger BagRefOk(bags, refs, b)} :: BagRefOk(bags, refs, b))
  }

  // ------------------------------------------------------------------- size

  function Pow2(n: nat): (p: nat)
    ensures p > 0
  {
    if n == 0 then 1 else 2 * Pow2(n - 1)
  }

  lemma {:induction false} Pow2Monotone(m: nat, n: nat)
    requires m <= n
    ensures Pow2(m) <= Pow2(n)
    decreases n - m
  {
    if m < n {
      Pow2Monotone(m + 1, n);
    }
  }

  // `merged[r]` are the nodes ever created that were merged into the set of
  // root `r`, whether or not they are still allocated.
  ghost predicate SetOk(nodes: Nodes, merged: seq<set<Node>>, n: Node)
    requires n in nodes
  {
    && n < |merged|
    && (nodes[n].link.Tag? ==>
          && |merged[n]| >= Pow2(nodes[n].rank)
          && forall x :: x in merged[n] ==> x < |merged|)
  }

  ghost predicate Apart(nodes: Nodes, merged: seq<set<Node>>, m: Node, n: Node) {
    (&& m in nodes && n in nodes
     && m < |merged| && n < |merged| && m != n
     && nodes[m].link.Tag? && nodes[n].link.Tag?)
    ==> merged[m] !! merged[n]
  }

  ghost predicate Sized(nodes: Nodes, merged: seq<set<Node>>) {
    && (forall n {:trigger SetOk(nodes, merged, n)} :: n in nodes ==> SetOk(nodes, merged, n))
    && (forall m, n {:trigger Apart(nodes, merged, m, n)} :: Apart(nodes, merged, m, n))
  }

  lemma {:induction false} BoundedSet(s: set<Node>, n: nat)
    requires forall x :: x in s ==> x < n
    ensures |s| <= n
  {
    if n == 0 {
      assert s == {};
    } else if n - 1 in s {
      BoundedSet(s - {n - 1}, n - 1);
    } else {
      BoundedSet(s, n - 1);
    }
  }

  // ------------------------------------------------------------------- heap

  // A snapshot of the heap: nodes and bags, and the ghost view of roots,
  // merged sets and reference holders.
  datatype Heap = Heap(nodes: Nodes, nextNode: nat, bags: map<BagId, Bag>, nextBag: nat,
                       root: seq<Node>, merged: seq<set<Node>>, refs: Refs)

  // Structure, counts and sizes; one reference may be loose.
  ghost predicate Structured(h: Heap, loose: Option<Node>) {
    && |h.root| == |h.merged| == h.nextNode
    && Shaped(h.nodes, h.root)
    && Counted(h.nodes, h.refs, loose)
    && RefsMatch(h.nodes, h.bags, h.refs)
    && Sized(h.nodes, h.merged)
    && (forall b :: b in h.bags ==> b < h.nextBag)
  }

  // A root of rank r heads a set into which at least 2^r created nodes have
  // been merged, so no rank exceeds the logarithm of the nodes created.
  lemma RankIsLogarithmic(h: Heap, n: Node)
    requires Structured(h, None) && n in h.nodes
    ensures n < |h.root| && h.root[n] in h.nodes && h.root[n] < |h.merged| && h.nodes[h.root[n]].link.Tag?
    ensures Pow2(h.nodes[n].rank) <= Pow2(h.nodes[h.root[n]].rank) <= |h.merged[h.root[n]]| <= |h.root|
  {
    assert NodeOk(h.nodes, h.root, n);
    assert SetOk(h.nodes, h.merged, h.root[n]);
    Pow2Monotone(h.nodes[n].rank, h.nodes[h.root[n]].rank);
    BoundedSet(h.merged[h.root[n]], |h.root|);
  }

  // What freeing nodes does: the nodes that are left keep their links and
  // ranks, and the references to them; the nodes that went had rank `floor`
  // or more.
  ghost predicate Freed(h: Heap, h': Heap, floor: nat) {
    && (forall n :: n in h'.nodes ==>
          n in h.nodes && h'.nodes[n].link == h.nodes[n].link && h'.nodes[n].rank == h.nodes[n].rank)
    && (forall n :: n in h.nodes && n !in h'.nodes ==> h.nodes[n].rank >= floor)
    && (forall r :: r in h'.refs ==> r in h.refs && h'.refs[r] == h.refs[r])
    && (forall r :: r in h.refs && r !in h'.refs ==> r.ChildOf? && r.node !in h'.nodes)
    && h' == h.(nodes := h'.nodes, refs := h'.refs)
  }

  function Dropped(h: Heap, n: Node): Heap
    requires n in h.nodes
  {
    h.(nodes := h.nodes[n := h.nodes[n].(refCount := h.nodes[n].refCount - 1)])
  }

  function Removed(h: Heap, n: Node): Heap {
    h.(nodes := h.nodes - {n}, refs := h.refs - {ChildOf(n)})
  }

  ghost function LooseAfter(h: Heap, n: Node): Option<Node>
    requires n in h.nodes
  {
    if h.nodes[n].link.Parent? then Some(h.nodes[n].link.node) else None
  }

  // Changing counts and nothing else keeps everything but the counts.
  lemma CountsAside(h: Heap, nodes: Nodes, loose: Option<Node>)
    requires Structured(h, loose)
    requires nodes.Keys == h.nodes.Keys
    requires forall m :: m in nodes ==> nodes[m].link == h.nodes[m].link && nodes[m].rank == h.nodes[m].rank
    ensures Shaped(nodes, h.root) && RefsMatch(nodes, h.bags, h.refs) && Sized(nodes, h.merged)
  {
    forall m | m in nodes
      ensures NodeOk(nodes, h.root, m) && SetOk(nodes, h.merged, m)
    {
      assert NodeOk(h.nodes, h.root, m) && SetOk(h.nodes, h.merged, m);
    }
    forall m, n
      ensures Apart(nodes, h.merged, m, n)
    {
      assert Apart(h.nodes, h.merged, m, n);
    }
    forall m
      ensures ChildRefOk(nodes, h.refs, m)
    {
      assert ChildRefOk(h.nodes, h.refs, m);
    }
    forall b
      ensures BagRefOk(h.bags, h.refs, b)
    {
    }
  }

  lemma DropKeepsStructure(h: Heap, n: Node)
    requires Structured(h, Some(n)) && n in h.nodes && h.nodes[n].refCount != 1
    ensures Structured(Dropped(h, n), None)
  {
    var nodes := Dropped(h, n).nodes;
    CountsAside(h, nodes, Some(n));
    assert CountOk(h.nodes, h.refs, Some(n), n);
    forall m | m in nodes
      ensures CountOk(nodes, h.refs, None, m)
    {
      assert CountOk(h.nodes, h.refs, Some(n), m);
    }
  }

  lemma NothingHolds(h: Heap, n: Node)
    requires Structured(h, Some(n)) && n in h.nodes && h.nodes[n].refCount == 1
    ensures forall r :: r in h.refs ==> h.refs[r] != n
    ensures NoChildren(h.nodes, n)
  {
    assert CountOk(h.nodes, h.refs, Some(n), n);
    assert HoldersOf(h.refs, n) == {};
    forall r | r in h.refs
      ensures h.refs[r] != n
    {
      assert r !in HoldersOf(h.refs, n);
    }
    forall m | m in h.nodes
      ensures h.nodes[m].link != Parent(n)
    {
      assert ChildRefOk(h.nodes, h.refs, m);
    }
  }

  lemma RemoveKeepsCounts(h: Heap, n: Node)
    requires Counted(h.nodes, h.refs, Some(n)) && RefsMatch(h.nodes, h.bags, h.refs) && n in h.nodes
    requires forall r :: r in h.refs ==> h.refs[r] != n
    ensures Counted(Removed(h, n).nodes, Removed(h, n).refs, LooseAfter(h, n))
  {
    var h' := Removed(h, n);
    assert ChildRefOk(h.nodes, h.refs, n);
    forall m | m in h'.nodes
      ensures CountOk(h'.nodes, h'.refs, LooseAfter(h, n), m)
    {
      assert CountOk(h.nodes, h.refs, Some(n), m);
      if h.nodes[n].link.Parent? {
        DropHolder(h.refs, ChildOf(n));
      } else {
        assert h'.refs == h.refs;
      }
    }
  }

  lemma RemoveKeepsRefs(h: Heap, n: Node)
    requires RefsMatch(h.nodes, h.bags, h.refs)
    ensures RefsMatch(Removed(h, n).nodes, h.bags, Removed(h, n).refs)
  {
    var h' := Removed(h, n);
    forall m
      ensures ChildRefOk(h'.nodes, h'.refs, m)
    {
      assert ChildRefOk(h.nodes, h.refs, m);
    }
    forall b
      ensures BagRefOk(h'.bags, h'.refs, b)
    {
      assert BagRefOk(h.bags, h.refs, b);
    }
  }

  lemma RemoveKeepsSizes(h: Heap, n: Node)
    requires Sized(h.nodes, h.merged)
    ensures Sized(h.nodes - {n}, h.merged)
  {
    forall m | m in h.nodes && m != n
      ensures SetOk(h.nodes - {n}, h.merged, m)
    {
      assert SetOk(h.nodes, h.merged, m);
    }
    forall m, k
      ensures Apart(h.nodes - {n}, h.merged, m, k)
    {
      assert Apart(h.nodes, h.merged, m, k);
    }
  }

  // A node whose last reference is dropped can go; its reference to its parent
  // comes loose.
  lemma RemoveKeepsStructure(h: Heap, n: Node)
    requires Structured(h, Some(n)) && n in h.nodes && h.nodes[n].refCount == 1
    ensures Structured(Removed(h, n), LooseAfter(h, n))
    ensures Freed(h, Removed(h, n), h.nodes[n].rank)
  {
    NothingHolds(h, n);
    RemoveKeepsShape(h.nodes, h.root, n);
    RemoveKeepsCounts(h, n);
    RemoveKeepsRefs(h, n);
    RemoveKeepsSizes(h, n);
  }

  lemma FreedTwice(h: Heap, h': Heap, h'': Heap, low: nat, high: nat)
    requires Freed(h, h', low) && Freed(h', h'', high) && low <= high
    ensures Freed(h, h'', low)
  {
  }

  // ------------------------------------------------- relinking and linking

  // `p` now points at the root `r` instead of at its old parent, to which its
  // reference is loose.
  function Reparented(h: Heap, p: Node, r: Node): Heap
    requires p in h.nodes && r in h.nodes && p != r
  {
    h.(nodes := h.nodes[p := h.nodes[p].(link := Parent(r))][r := h.nodes[r].(refCount := h.nodes[r].refCount + 1)],
       refs := h.refs[ChildOf(p) := r])
  }

  lemma ReparentKeepsShape(h: Heap, p: Node, r: Node)
    requires Structured(h, None) && p in h.nodes && h.nodes[p].link.Parent? && p < |h.root|
    requires r == h.root[p] && r in h.nodes && r != p
    ensures Shaped(Reparented(h, p, r).nodes, h.root) && Sized(Reparented(h, p, r).nodes, h.merged)
  {
    var h' := Reparented(h, p, r);
    assert NodeOk(h.nodes, h.root, p);
    assert NodeOk(h.nodes, h.root, r);
    forall m | m in h'.nodes
      ensures NodeOk(h'.nodes, h'.root, m) && SetOk(h'.nodes, h'.merged, m)
    {
      assert NodeOk(h.nodes, h.root, m) && SetOk(h.nodes, h.merged, m);
    }
    forall m, n
      ensures Apart(h'.nodes, h'.merged, m, n)
    {
      assert Apart(h.nodes, h.merged, m, n);
    }
  }

  lemma ReparentKeepsStructure(h: Heap, p: Node, r: Node)
    requires Structured(h, None) && p in h.nodes && h.nodes[p].link.Parent? && p < |h.root|
    requires r == h.root[p] && r in h.nodes && r != p && h.nodes[p].link.node != r
    ensures Structured(Reparented(h, p, r), Some(h.nodes[p].link.node))
  {
    var h' := Reparented(h, p, r);
    var oldParent := h.nodes[p].link.node;
    ReparentKeepsShape(h, p, r);
    assert NodeOk(h.nodes, h.root, p) && ChildRefOk(h.nodes, h.refs, p);
    MoveHolder(h.refs, ChildOf(p), r);
    forall m | m in h'.nodes
      ensures CountOk(h'.nodes, h'.refs, Some(oldParent), m)
    {
      assert CountOk(h.nodes, h.refs, None, m);
    }
    forall m
      ensures ChildRefOk(h'.nodes, h'.refs, m)
    {
      assert ChildRefOk(h.nodes, h.refs, m);
    }
    forall b
      ensures BagRefOk(h'.bags, h'.refs, b)
    {
      assert BagRefOk(h.bags, h.refs, b);
    }
  }

  // Path compression: roots, ranks, tags and the references held by bags and
  // accesses stay; only parent links move, and unreferenced nodes go.
  ghost predicate Compressed(h: Heap, h': Heap) {
    && (forall n :: n in h'.nodes ==>
          && n in h.nodes
          && h'.nodes[n].rank == h.nodes[n].rank
          && (h'.nodes[n].link == h.nodes[n].link || (h.nodes[n].link.Parent? && h'.nodes[n].link.Parent?)))
    && (forall r :: r in h'.refs ==> r in h.refs && (!r.ChildOf? ==> h'.refs[r] == h.refs[r]))
    && (forall r :: r in h.refs && !r.ChildOf? ==> r in h'.refs)
    && h' == h.(nodes := h'.nodes, refs := h'.refs)
  }

  lemma ReparentedThenFreed(h: Heap, p: Node, r: Node, h': Heap)
    requires Structured(h, None) && Structured(h', None)
    requires p in h.nodes && h.nodes[p].link.Parent? && p < |h.root|
    requires r == h.root[p] && r in h.nodes && r != p && h.nodes[p].link.node in h.nodes
    requires Freed(Reparented(h, p, r), h', h.nodes[h.nodes[p].link.node].rank)
    ensures Compressed(h, h')
    ensures forall m :: m in h.nodes && m !in h'.nodes ==> h.nodes[m].rank > h.nodes[p].rank
    ensures r in h'.nodes && h'.nodes[r].link.Tag?
  {
    assert NodeOk(h.nodes, h.root, p) && ChildRefOk(h.nodes, h.refs, p);
    assert p in h'.nodes;
    assert NodeOk(h'.nodes, h'.root, p);
  }

  // A node on the way to the root `r` whose parent is not the root itself.
  ghost predicate ToCompress(nodes: Nodes, root: seq<Node>, p: Node, r: Node) {
    && p in nodes && p < |root| && root[p] == r
    && nodes[p].link.Parent?
    && nodes[p].link.node in nodes
    && nodes[nodes[p].link.node].link.Parent?
  }

  // Of two roots the one that becomes the root of both sets.
  ghost function HigherRoot(nodes: Nodes, x: Node, y: Node): Node {
    if x in nodes && y in nodes && nodes[x].rank > nodes[y].rank then x else y
  }

  // The node `k` steps up from `n`, at most the root.
  ghost function Up(nodes: Nodes, n: Node, k: nat): Node {
    if k == 0 then n
    else
      var m := Up(nodes, n, k - 1);
      if m in nodes && nodes[m].link.Parent? then nodes[m].link.node else m
  }

  // The node is the root, is gone, or points at the root.
  predicate PointsTo(nodes: Nodes, m: Node, r: Node) {
    m == r || m !in nodes || nodes[m].link == Parent(r)
  }

  // All nodes on the path that survive point at the root.
  ghost predicate PathIsShort(nodes: Nodes, nodes': Nodes, n: Node, r: Node) {
    forall k: nat {:trigger Up(nodes, n, k)} :: PointsTo(nodes', Up(nodes, n, k), r)
  }

  lemma {:induction false} UpStaysAt(nodes: Nodes, n: Node, r: Node, k: nat)
    requires r == Up(nodes, n, k) && r in nodes && nodes[r].link.Tag?
    ensures forall k' :: k' >= k ==> Up(nodes, n, k') == r
  {
    forall k' | k' >= k
      ensures Up(nodes, n, k') == r
    {
      UpStays(nodes, n, r, k, k');
    }
  }

  lemma {:induction false} UpStays(nodes: Nodes, n: Node, r: Node, k: nat, k': nat)
    requires r == Up(nodes, n, k) && r in nodes && nodes[r].link.Tag? && k <= k'
    ensures Up(nodes, n, k') == r
  {
    if k < k' {
      UpStays(nodes, n, r, k, k' - 1);
    }
  }

  // A walk up from `n` has come to `node`: the list holds the nodes passed, except
  // one whose parent is the root.
  ghost predicate Passed(nodes: Nodes, n: Node, node: Node, list: seq<Node>, walked: nat) {
    && node == Up(nodes, n, walked) && node in nodes
    && |list| == (if nodes[node].link.Parent? || walked == 0 then walked else walked - 1)
    && forall i :: 0 <= i < |list| ==> list[i] == Up(nodes, n, i)
  }

  lemma PassedFurther(nodes: Nodes, n: Node, prev: Node, list: seq<Node>, walked: nat)
    requires Passed(nodes, n, prev, list, walked) && nodes[prev].link.Parent? && nodes[prev].link.node in nodes
    ensures var node := nodes[prev].link.node;
      Passed(nodes, n, node, if nodes[node].link.Parent? then list + [prev] else list, walked + 1)
  {
  }

  // What is known of such a walk.
  ghost predicate Climbed(h: Heap, n: Node, r: Node, list: seq<Node>, walked: nat) {
    && n in h.nodes && n < |h.root| && h.root[n] in h.nodes
    && r in h.nodes && r < |h.root| && h.root[r] == h.root[n]
    && (forall i {:trigger ListedAt(h, n, r, list, i)} :: ListedAt(h, n, r, list, i))
    && (forall i, j {:trigger RanksRise(h, list, i, j)} :: RanksRise(h, list, i, j))
    && h.nodes[n].rank <= h.nodes[r].rank <= h.nodes[h.root[n]].rank
    && walked <= h.nodes[r].rank && Passed(h.nodes, n, r, list, walked)
  }

  ghost predicate ListedAt(h: Heap, n: Node, r: Node, list: seq<Node>, i: int) {
    0 <= i < |list| && n in h.nodes && n < |h.root| && r in h.nodes ==>
      && list[i] in h.nodes && ToCompress(h.nodes, h.root, list[i], h.root[n])
      && h.nodes[n].rank <= h.nodes[list[i]].rank < h.nodes[r].rank
  }

  ghost predicate RanksRise(h: Heap, list: seq<Node>, i: int, j: int) {
    0 <= i < j < |list| && list[i] in h.nodes && list[j] in h.nodes ==>
      h.nodes[list[i]].rank < h.nodes[list[j]].rank
  }

  lemma ClimbStarts(h: Heap, n: Node)
    requires Structured(h, None) && n in h.nodes && n < |h.root|
    ensures Climbed(h, n, n, [], 0)
  {
    assert NodeOk(h.nodes, h.root, n);
  }

  lemma ClimbGoesOn(h: Heap, n: Node, prev: Node, list: seq<Node>, walked: nat)
    requires Structured(h, None) && Climbed(h, n, prev, list, walked) && h.nodes[prev].link.Parent?
    ensures var r := h.nodes[prev].link.node;
      && r in h.nodes && h.nodes[prev].rank < h.nodes[r].rank
      && Climbed(h, n, r, if h.nodes[r].link.Parent? then list + [prev] else list, walked + 1)
  {
    assert NodeOk(h.nodes, h.root, prev);
    assert NodeOk(h.nodes, h.root, h.nodes[prev].link.node);
    PassedFurther(h.nodes, n, prev, list, walked);
    var r := h.nodes[prev].link.node;
    var longer := if h.nodes[r].link.Parent? then list + [prev] else list;
    forall i
      ensures ListedAt(h, n, r, longer, i)
    {
      assert ListedAt(h, n, prev, list, i);
    }
    forall i, j
      ensures RanksRise(h, longer, i, j)
    {
      assert RanksRise(h, list, i, j) && ListedAt(h, n, prev, list, i);
    }
  }

  // What the walk back needs of the list.
  lemma ClimbedList(h: Heap, n: Node, r: Node, list: seq<Node>, walked: nat)
    requires Climbed(h, n, r, list, walked)
    ensures forall i :: 0 <= i < |list| ==> list[i] in h.nodes && ToCompress(h.nodes, h.root, list[i], h.root[n])
    ensures forall i, j :: 0 <= i < j < |list| ==> h.nodes[list[i]].rank < h.nodes[list[j]].rank
    ensures forall i :: 0 <= i < |list| ==> h.nodes[n].rank <= h.nodes[list[i]].rank
  {
    forall i | 0 <= i < |list|
      ensures list[i] in h.nodes && ToCompress(h.nodes, h.root, list[i], h.root[n])
      ensures h.nodes[n].rank <= h.nodes[list[i]].rank
    {
      assert ListedAt(h, n, r, list, i);
    }
    forall i, j | 0 <= i < j < |list|
      ensures h.nodes[list[i]].rank < h.nodes[list[j]].rank
    {
      assert ListedAt(h, n, r, list, i) && ListedAt(h, n, r, list, j) && RanksRise(h, list, i, j);
    }
  }

  // The nodes of the list from `i` on have been pointed at the root, no others.
  ghost predicate CompressedFrom(h: Heap, h': Heap, list: seq<Node>, i: nat, r: Node) {
    && (forall j :: i <= j < |list| && list[j] in h'.nodes ==> h'.nodes[list[j]].link == Parent(r))
    && (forall m :: m in h'.nodes && m !in list[if i <= |list| then i else 0..] ==>
          m in h.nodes && h'.nodes[m].link == h.nodes[m].link)
  }

  // One step of the walk back.
  lemma CompressedFurther(h: Heap, now: Heap, h': Heap, list: seq<Node>, i: nat, r: Node)
    requires Structured(h', None) && i < |list| && CompressedFrom(h, now, list, i + 1, r)
    requires forall j :: 0 <= j <= i ==> list[j] in now.nodes && ToCompress(now.nodes, now.root, list[j], r)
    requires forall j, k :: 0 <= j < k <= i ==> now.nodes[list[j]].rank < now.nodes[list[k]].rank
    requires Compressed(now, h') && list[i] in h'.nodes && h'.nodes[list[i]].link == Parent(r)
    requires forall m :: m in h'.nodes && m != list[i] ==> h'.nodes[m].link == now.nodes[m].link
    requires forall m :: m in now.nodes && m !in h'.nodes ==> now.nodes[m].rank > now.nodes[list[i]].rank
    ensures CompressedFrom(h, h', list, i, r)
    ensures forall j :: 0 <= j < i ==> ToCompress(h'.nodes, h'.root, list[j], r)
  {
    assert list[i..] == [list[i]] + list[i + 1..];
    forall j | 0 <= j < i
      ensures ToCompress(h'.nodes, h'.root, list[j], r)
    {
      assert ToCompress(now.nodes, now.root, list[j], r);
      assert NodeOk(h'.nodes, h'.root, list[j]);
    }
  }

  // When the nodes of the list point at the root, the whole path does.
  lemma PathIsCompressed(h: Heap, h': Heap, n: Node, r: Node, list: seq<Node>, walked: nat)
    requires Passed(h.nodes, n, r, list, walked) && h.nodes[r].link.Tag? && CompressedFrom(h, h', list, 0, r)
    ensures PathIsShort(h.nodes, h'.nodes, n, r)
  {
    assert list[0..] == list;
    forall k: nat
      ensures PointsTo(h'.nodes, Up(h.nodes, n, k), r)
    {
      if k >= walked {
        UpStays(h.nodes, n, r, walked, k);
      } else if k < |list| {
        assert list[k] == Up(h.nodes, n, k);
      } else {
        assert k == walked - 1 && r == Up(h.nodes, n, walked);
      }
    }
  }

  ghost function Redirected(root: seq<Node>, child: Node, r: Node): (root': seq<Node>)
    ensures |root'| == |root|
    ensures forall x :: 0 <= x < |root| ==> root'[x] == if root[x] == child then r else root[x]
  {
    seq(|root|, x requires 0 <= x < |root| => if root[x] == child then r else root[x])
  }

  // The root `child` has been linked below the root `r`, whose rank grows when
  // the two ranks were equal.
  ghost function Linked(h: Heap, child: Node, r: Node): Heap
    requires child in h.nodes && r in h.nodes && child < |h.merged| && r < |h.merged|
  {
    var bump := if h.nodes[child].rank == h.nodes[r].rank then 1 else 0;
    h.(nodes := h.nodes[child := h.nodes[child].(link := Parent(r))]
                       [r := h.nodes[r].(refCount := h.nodes[r].refCount + 1, rank := h.nodes[r].rank + bump)],
       root := Redirected(h.root, child, r),
       merged := h.merged[r := h.merged[child] + h.merged[r]],
       refs := h.refs[ChildOf(child) := r])
  }

  lemma LinkKeepsShape(h: Heap, child: Node, r: Node)
    requires Structured(h, None) && child in h.nodes && r in h.nodes && child != r
    requires child < |h.merged| && r < |h.merged|
    requires h.nodes[child].link.Tag? && h.nodes[r].link.Tag? && h.nodes[child].rank <= h.nodes[r].rank
    ensures Shaped(Linked(h, child, r).nodes, Linked(h, child, r).root)
  {
    var h' := Linked(h, child, r);
    assert NodeOk(h.nodes, h.root, child) && NodeOk(h.nodes, h.root, r);
    forall m | m in h'.nodes
      ensures NodeOk(h'.nodes, h'.root, m)
    {
      assert NodeOk(h.nodes, h.root, m);
      if h.nodes[m].link.Parent? {
        assert NodeOk(h.nodes, h.root, h.nodes[m].link.node);
      }
    }
  }

  lemma LinkKeepsSizes(h: Heap, child: Node, r: Node)
    requires Structured(h, None) && child in h.nodes && r in h.nodes && child != r
    requires child < |h.merged| && r < |h.merged|
    requires h.nodes[child].link.Tag? && h.nodes[r].link.Tag? && h.nodes[child].rank <= h.nodes[r].rank
    ensures Sized(Linked(h, child, r).nodes, Linked(h, child, r).merged)
  {
    var h' := Linked(h, child, r);
    assert Apart(h.nodes, h.merged, child, r);
    assert |h'.merged[r]| == |h.merged[child]| + |h.merged[r]|;
    assert SetOk(h.nodes, h.merged, child) && SetOk(h.nodes, h.merged, r);
    forall m | m in h'.nodes
      ensures SetOk(h'.nodes, h'.merged, m)
    {
      assert SetOk(h.nodes, h.merged, m);
    }
    forall m, n
      ensures Apart(h'.nodes, h'.merged, m, n)
    {
      assert Apart(h.nodes, h.merged, m, n) && Apart(h.nodes, h.merged, m, child) && Apart(h.nodes, h.merged, child, n);
    }
  }

  lemma LinkKeepsStructure(h: Heap, child: Node, r: Node)
    requires Structured(h, None) && child in h.nodes && r in h.nodes && child != r
    requires child < |h.merged| && r < |h.merged|
    requires h.nodes[child].link.Tag? && h.nodes[r].link.Tag? && h.nodes[child].rank <= h.nodes[r].rank
    ensures Structured(Linked(h, child, r), None)
  {
    var h' := Linked(h, child, r);
    LinkKeepsShape(h, child, r);
    LinkKeepsSizes(h, child, r);
    assert ChildRefOk(h.nodes, h.refs, child);
    AddHolder(h.refs, ChildOf(child), r);
    forall m | m in h'.nodes
      ensures CountOk(h'.nodes, h'.refs, None, m)
    {
      assert CountOk(h.nodes, h.refs, None, m);
    }
    forall m
      ensures ChildRefOk(h'.nodes, h'.refs, m)
    {
      assert ChildRefOk(h.nodes, h.refs, m);
    }
    forall b
      ensures BagRefOk(h'.bags, h'.refs, b)
    {
      assert BagRefOk(h.bags, h.refs, b);
    }
  }

  // ------------------------------------------------------------------- bags

  // The bag a node resolves to.
  ghost function Resolve(h: Heap, n: Node): BagId
    requires n < |h.root| && h.root[n] in h.nodes && h.nodes[h.root[n]].link.Tag?
  {
    h.nodes[h.root[n]].link.bag
  }

  // A bag that has a node points at the root of its set, and that root's tag
  // names the bag; a stale bag has been merged into another and awaits deletion.
  ghost predicate BagOk(h: Heap, stale: set<BagId>, b: BagId) {
    b in h.bags && b !in stale && h.bags[b].ds.Some? ==>
      && h.bags[b].ds.value in h.nodes
      && h.nodes[h.bags[b].ds.value].link == Tag(b, h.bags[b].isP)
  }

  ghost predicate RootOk(h: Heap, stale: set<BagId>, n: Node) {
    n in h.nodes && h.nodes[n].link.Tag? ==>
      var b := h.nodes[n].link.bag;
      b in h.bags && b !in stale && h.bags[b] == Bag(h.nodes[n].link.isP, Some(n))
  }

  ghost predicate Owned(h: Heap, stale: set<BagId>) {
    && (forall b {:trigger BagOk(h, stale, b)} :: BagOk(h, stale, b))
    && (forall n {:trigger RootOk(h, stale, n)} :: RootOk(h, stale, n))
  }

  ghost predicate Valid(h: Heap, stale: set<BagId>) {
    Structured(h, None) && Owned(h, stale) && stale <= h.bags.Keys
  }

  // Every surviving node resolves to the same bag as before.
  ghost predicate SameBags(h: Heap, h': Heap) {
    && (forall n :: n in h'.nodes ==> n in h.nodes)
    && (forall n {:trigger Resolve(h', n)} :: n in h'.nodes ==> ResolvesAlike(h, h', n))
  }

  ghost predicate ResolvesAlike(h: Heap, h': Heap, n: Node) {
    && n < |h.root| && h.root[n] in h.nodes && h.nodes[h.root[n]].link.Tag?
    && n < |h'.root| && h'.root[n] in h'.nodes && h'.nodes[h'.root[n]].link.Tag?
    && Resolve(h', n) == Resolve(h, n)
  }

  lemma CompressionKeepsBags(h: Heap, h': Heap, stale: set<BagId>)
    requires Valid(h, stale) && Structured(h', None) && Compressed(h, h')
    ensures Valid(h', stale) && SameBags(h, h')
  {
    forall b
      ensures BagOk(h', stale, b)
    {
      assert BagOk(h, stale, b) && BagRefOk(h.bags, h.refs, b) && BagRefOk(h'.bags, h'.refs, b);
    }
    forall n
      ensures RootOk(h', stale, n)
    {
      assert RootOk(h, stale, n);
    }
    forall n | n in h'.nodes
      ensures ResolvesAlike(h, h', n)
    {
      assert NodeOk(h'.nodes, h'.root, n) && NodeOk(h.nodes, h.root, n);
    }
  }

  // A new S-bag comes with a node of its own.
  ghost function WithSBag(h: Heap): Heap {
    h.(nodes := h.nodes[h.nextNode := NodeData(Tag(h.nextBag, false), 0, 1)],
       nextNode := h.nextNode + 1,
       bags := h.bags[h.nextBag := Bag(false, Some(h.nextNode))],
       nextBag := h.nextBag + 1,
       root := h.root + [h.nextNode],
       merged := h.merged + [{h.nextNode}],
       refs := h.refs[BagOf(h.nextBag) := h.nextNode])
  }

  lemma NewNodeIsFresh(h: Heap)
    requires Structured(h, None)
    ensures h.nextNode !in h.nodes && h.nextBag !in h.bags && BagOf(h.nextBag) !in h.refs
    ensures forall r :: r in h.refs ==> h.refs[r] != h.nextNode
  {
    assert h.nextNode in h.nodes ==> NodeOk(h.nodes, h.root, h.nextNode);
    assert BagRefOk(h.bags, h.refs, h.nextBag);
  }

  lemma NewSBagKeepsStructure(h: Heap)
    requires Structured(h, None)
    ensures Structured(WithSBag(h), None)
  {
    NewNodeIsFresh(h);
    var h' := WithSBag(h);
    AddHolder(h.refs, BagOf(h.nextBag), h.nextNode);
    assert HoldersOf(h.refs, h.nextNode) == {};
    forall m | m in h'.nodes
      ensures NodeOk(h'.nodes, h'.root, m) && SetOk(h'.nodes, h'.merged, m) && CountOk(h'.nodes, h'.refs, None, m)
    {
      if m in h.nodes {
        assert NodeOk(h.nodes, h.root, m) && SetOk(h.nodes, h.merged, m) && CountOk(h.nodes, h.refs, None, m);
      }
    }
    NewSetIsApart(h);
    NewSBagKeepsRefs(h);
  }

  lemma NewSetIsApart(h: Heap)
    requires Structured(h, None)
    ensures var h' := WithSBag(h); forall m, n :: Apart(h'.nodes, h'.merged, m, n)
  {
    NewNodeIsFresh(h);
    var h' := WithSBag(h);
    forall m, n
      ensures Apart(h'.nodes, h'.merged, m, n)
    {
      assert Apart(h.nodes, h.merged, m, n);
      if m in h.nodes {
        assert SetOk(h.nodes, h.merged, m);
      }
      if n in h.nodes {
        assert SetOk(h.nodes, h.merged, n);
      }
    }
  }

  lemma NewSBagKeepsRefs(h: Heap)
    requires Structured(h, None)
    ensures RefsMatch(WithSBag(h).nodes, WithSBag(h).bags, WithSBag(h).refs)
  {
    NewNodeIsFresh(h);
    var h' := WithSBag(h);
    forall m
      ensures ChildRefOk(h'.nodes, h'.refs, m)
    {
      assert ChildRefOk(h.nodes, h.refs, m);
    }
    forall b
      ensures BagRefOk(h'.bags, h'.refs, b)
    {
      assert BagRefOk(h.bags, h.refs, b);
    }
  }

  lemma NewSBagKeepsValid(h: Heap, stale: set<BagId>)
    requires Valid(h, stale)
    ensures Valid(WithSBag(h), stale) && h.nextBag !in h.bags
    ensures forall n :: n in h.nodes ==> ResolvesAlike(h, WithSBag(h), n)
  {
    NewNodeIsFresh(h);
    NewSBagKeepsStructure(h);
    var h' := WithSBag(h);
    forall b
      ensures BagOk(h', stale, b)
    {
      assert BagOk(h, stale, b);
    }
    forall n
      ensures RootOk(h', stale, n)
    {
      assert RootOk(h, stale, n);
    }
    forall n | n in h.nodes
      ensures ResolvesAlike(h, h', n)
    {
      assert NodeOk(h.nodes, h.root, n);
    }
  }

  // A new P-bag is empty.
  ghost function WithPBag(h: Heap): Heap {
    h.(bags := h.bags[h.nextBag := Bag(true, None)], nextBag := h.nextBag + 1)
  }

  lemma NewPBagKeepsValid(h: Heap, stale: set<BagId>)
    requires Valid(h, stale)
    ensures Valid(WithPBag(h), stale) && h.nextBag !in h.bags
    ensures forall n :: n in h.nodes ==> ResolvesAlike(h, WithPBag(h), n)
  {
    NewNodeIsFresh(h);
    var h' := WithPBag(h);
    forall b
      ensures BagRefOk(h'.bags, h'.refs, b) && BagOk(h', stale, b)
    {
      assert BagRefOk(h.bags, h.refs, b) && BagOk(h, stale, b);
    }
    forall n
      ensures RootOk(h', stale, n)
    {
      assert RootOk(h, stale, n);
    }
    forall n | n in h.nodes
      ensures ResolvesAlike(h, h', n)
    {
      assert NodeOk(h.nodes, h.root, n);
    }
  }

  // --------------------------------------------------------------- combining

  // Bag `a` points at the root `r` and is its tag; nothing else about the heap
  // has changed but counts, compression and links below `r`.
  ghost predicate NodeAbsorbed(h: Heap, h': Heap, a: BagId, b: BagId, r: Node, n: Node) {
    n in h'.nodes ==>
      && n in h.nodes
      && n < |h.root| && h.root[n] in h.nodes && h.nodes[h.root[n]].link.Tag?
      && (h'.nodes[n].link.Tag? ==> h.nodes[n].link.Tag?)
      && (h.nodes[n].link.Tag? && h.nodes[n].link.bag != a && h.nodes[n].link.bag != b ==>
            h'.nodes[n].link == h.nodes[n].link)
      && (h'.nodes[n].link.Tag? && n != r ==> h.nodes[n].link.bag != a && h.nodes[n].link.bag != b)
      && n < |h'.root|
      && h'.root[n] == if Resolve(h, n) == a || Resolve(h, n) == b then r else h.root[n]
  }

  ghost predicate Absorbed(h: Heap, h': Heap, a: BagId, b: BagId, r: Node) {
    && Structured(h', None)
    && a in h.bags && b in h.bags
    && h'.bags == h.bags[a := Bag(h.bags[a].isP, Some(r))]
    && h'.nextBag == h.nextBag && h'.nextNode == h.nextNode
    && r in h'.nodes && h'.nodes[r].link == Tag(a, h.bags[a].isP)
    && (forall n {:trigger NodeAbsorbed(h, h', a, b, r, n)} :: NodeAbsorbed(h, h', a, b, r, n))
    && (forall k :: k in h'.refs && k.AccessAt? ==> k in h.refs && h'.refs[k] == h.refs[k])
    && (forall k :: k in h.refs && k.AccessAt? ==> k in h'.refs)
  }

  lemma AbsorbedResolves(h: Heap, h': Heap, a: BagId, b: BagId, r: Node, n: Node)
    requires Absorbed(h, h', a, b, r) && n in h'.nodes
    ensures NodeOk(h'.nodes, h'.root, n) && NodeAbsorbed(h, h', a, b, r, n)
    ensures n in h.nodes
    ensures Resolve(h', n) == if Resolve(h, n) == b then a else Resolve(h, n)
  {
    assert NodeOk(h'.nodes, h'.root, n) && NodeAbsorbed(h, h', a, b, r, n);
    assert NodeAbsorbed(h, h', a, b, r, h.root[n]);
  }

  lemma AbsorbedIsValid(h: Heap, h': Heap, stale: set<BagId>, a: BagId, b: BagId, r: Node)
    requires Valid(h, stale) && Absorbed(h, h', a, b, r)
    requires a != b && a !in stale && b !in stale
    ensures Valid(h', stale + {b})
  {
    forall c
      ensures BagOk(h', stale + {b}, c)
    {
      assert BagOk(h, stale, c) && BagRefOk(h'.bags, h'.refs, c);
      if c in h'.bags && c !in stale + {b} && h'.bags[c].ds.Some? && c != a {
        assert NodeAbsorbed(h, h', a, b, r, h'.bags[c].ds.value);
      }
    }
    forall n
      ensures RootOk(h', stale + {b}, n)
    {
      assert RootOk(h, stale, n) && NodeAbsorbed(h, h', a, b, r, n);
    }
  }

  // Bag `a` has been pointed at `n`; its reference to its old node is loose.
  ghost function MovedBag(h: Heap, a: BagId, n: Node): Heap
    requires a in h.bags && n in h.nodes
  {
    h.(nodes := h.nodes[n := h.nodes[n].(refCount := h.nodes[n].refCount + 1)],
       bags := h.bags[a := Bag(h.bags[a].isP, Some(n))],
       refs := h.refs[BagOf(a) := n])
  }

  lemma MoveBagKeepsStructure(h: Heap, a: BagId, n: Node)
    requires Structured(h, None) && a in h.bags && n in h.nodes
    requires h.bags[a].ds != Some(n)
    ensures Structured(MovedBag(h, a, n), h.bags[a].ds)
  {
    var h' := MovedBag(h, a, n);
    CountsAside(h, h'.nodes, None);
    assert BagRefOk(h.bags, h.refs, a);
    if h.bags[a].ds.Some? {
      MoveHolder(h.refs, BagOf(a), n);
    } else {
      AddHolder(h.refs, BagOf(a), n);
    }
    forall m | m in h'.nodes
      ensures CountOk(h'.nodes, h'.refs, h.bags[a].ds, m)
    {
      assert CountOk(h.nodes, h.refs, None, m);
    }
    forall m
      ensures ChildRefOk(h'.nodes, h'.refs, m)
    {
      assert ChildRefOk(h.nodes, h.refs, m);
    }
    forall b
      ensures BagRefOk(h'.bags, h'.refs, b)
    {
      assert BagRefOk(h.bags, h.refs, b);
    }
  }

  ghost function Retagged(h: Heap, n: Node, a: BagId, isP: bool): Heap
    requires n in h.nodes
  {
    h.(nodes := h.nodes[n := h.nodes[n].(link := Tag(a, isP))])
  }

  lemma RetagKeepsStructure(h: Heap, n: Node, a: BagId, isP: bool)
    requires Structured(h, None) && n in h.nodes && h.nodes[n].link.Tag?
    ensures Structured(Retagged(h, n, a, isP), None)
  {
    var h' := Retagged(h, n, a, isP);
    forall m | m in h'.nodes
      ensures NodeOk(h'.nodes, h'.root, m) && SetOk(h'.nodes, h'.merged, m) && CountOk(h'.nodes, h'.refs, None, m)
    {
      assert NodeOk(h.nodes, h.root, m) && SetOk(h.nodes, h.merged, m) && CountOk(h.nodes, h.refs, None, m);
    }
    forall m, k
      ensures Apart(h'.nodes, h'.merged, m, k)
    {
      assert Apart(h.nodes, h.merged, m, k);
    }
    forall m
      ensures ChildRefOk(h'.nodes, h'.refs, m)
    {
      assert ChildRefOk(h.nodes, h.refs, m);
    }
    forall b
      ensures BagRefOk(h'.bags, h'.refs, b)
    {
      assert BagRefOk(h.bags, h.refs, b);
    }
  }

  // The nodes of two bags before they are combined.
  lemma DistinctRoots(h: Heap, stale: set<BagId>, a: BagId, b: BagId)
    requires Valid(h, stale) && a in h.bags && b in h.bags && a != b && a !in stale && b !in stale
    requires h.bags[b].ds.Some?
    ensures h.bags[b].ds.value in h.nodes && h.nodes[h.bags[b].ds.value].link == Tag(b, h.bags[b].isP)
    ensures h.bags[b].ds.value < |h.root| == |h.merged| && h.root[h.bags[b].ds.value] == h.bags[b].ds.value
    ensures h.bags[a].ds != h.bags[b].ds
  {
    assert BagOk(h, stale, b) && BagOk(h, stale, a);
    assert NodeOk(h.nodes, h.root, h.bags[b].ds.value);
  }

  // An empty bag takes over the other bag's set.
  lemma AdoptionAbsorbs(h: Heap, stale: set<BagId>, a: BagId, b: BagId, h': Heap)
    requires Valid(h, stale) && a in h.bags && b in h.bags && a != b && a !in stale && b !in stale
    requires h.bags[a].ds.None? && h.bags[b].ds.Some? && h.bags[b].ds.value in h.nodes
    requires h' == Retagged(MovedBag(h, a, h.bags[b].ds.value), h.bags[b].ds.value, a, h.bags[a].isP)
    ensures Absorbed(h, h', a, b, h.bags[b].ds.value)
  {
    var r := h.bags[b].ds.value;
    DistinctRoots(h, stale, a, b);
    MoveBagKeepsStructure(h, a, r);
    RetagKeepsStructure(MovedBag(h, a, r), r, a, h.bags[a].isP);
    forall n: Node
      ensures NodeAbsorbed(h, h', a, b, r, n)
    {
      if n in h'.nodes {
        assert NodeOk(h.nodes, h.root, n) && RootOk(h, stale, n) && RootOk(h, stale, h.root[n]);
      }
    }
  }

  // Linking the two roots, when bag `a` keeps the root it had ...
  lemma LinkBelowAbsorbs(h: Heap, stale: set<BagId>, a: BagId, b: BagId, h': Heap)
    requires Valid(h, stale) && a in h.bags && b in h.bags && a != b && a !in stale && b !in stale
    requires h.bags[a].ds.Some? && h.bags[b].ds.Some?
    requires h.bags[a].ds.value in h.nodes && h.bags[b].ds.value in h.nodes
    requires h.bags[a].ds.value < |h.merged| && h.bags[b].ds.value < |h.merged|
    requires h' == Linked(h, h.bags[b].ds.value, h.bags[a].ds.value) && Structured(h', None)
    ensures Absorbed(h, h', a, b, h.bags[a].ds.value)
  {
    var r := h.bags[a].ds.value;
    DistinctRoots(h, stale, a, b);
    DistinctRoots(h, stale, b, a);
    forall n: Node
      ensures NodeAbsorbed(h, h', a, b, r, n)
    {
      if n in h'.nodes {
        assert NodeOk(h.nodes, h.root, n) && RootOk(h, stale, n) && RootOk(h, stale, h.root[n]);
      }
    }
  }

  // ... and when it takes over the root of bag `b`, whose tag is then rewritten
  // and whose count of links has just grown; the old root may be freed.
  lemma LinkAboveAbsorbs(h: Heap, stale: set<BagId>, a: BagId, b: BagId, linked: Heap, freed: Heap,
                         floor: nat, h': Heap)
    requires Valid(h, stale) && a in h.bags && b in h.bags && a != b && a !in stale && b !in stale
    requires h.bags[a].ds.Some? && h.bags[b].ds.Some?
    requires h.bags[a].ds.value in h.nodes && h.bags[b].ds.value in h.nodes
    requires h.bags[a].ds.value < |h.merged| && h.bags[b].ds.value < |h.merged|
    requires linked == Linked(h, h.bags[a].ds.value, h.bags[b].ds.value)
    requires Freed(MovedBag(linked, a, h.bags[b].ds.value), freed, floor) && Structured(freed, None)
    requires h.bags[b].ds.value in freed.nodes
    requires h' == Retagged(freed, h.bags[b].ds.value, a, h.bags[a].isP)
    ensures Absorbed(h, h', a, b, h.bags[b].ds.value)
  {
    var r := h.bags[b].ds.value;
    DistinctRoots(h, stale, a, b);
    DistinctRoots(h, stale, b, a);
    RetagKeepsStructure(freed, r, a, h.bags[a].isP);
    forall n: Node
      ensures NodeAbsorbed(h, h', a, b, r, n)
    {
      if n in h'.nodes {
        assert NodeOk(h.nodes, h.root, n) && RootOk(h, stale, n) && RootOk(h, stale, h.root[n]);
      }
    }
  }

  // Merging bag `b` into bag `a`: the nodes of `b` now resolve to `a`, every
  // other node resolves as before, and recorded accesses keep their nodes.
  ghost predicate NodeCombined(h: Heap, h': Heap, a: BagId, b: BagId, n: Node) {
    n in h'.nodes ==>
      && n in h.nodes
      && n < |h.root| && h.root[n] in h.nodes && h.nodes[h.root[n]].link.Tag?
      && n < |h'.root| && h'.root[n] in h'.nodes && h'.nodes[h'.root[n]].link.Tag?
      && Resolve(h', n) == if Resolve(h, n) == b then a else Resolve(h, n)
  }

  ghost predicate SameAccesses(h: Heap, h': Heap) {
    && (forall k :: k in h'.refs && k.AccessAt? ==> k in h.refs && h'.refs[k] == h.refs[k])
    && (forall k :: k in h.refs && k.AccessAt? ==> k in h'.refs)
  }

  ghost predicate CombinedInto(h: Heap, h': Heap, a: BagId, b: BagId) {
    && (forall n {:trigger NodeCombined(h, h', a, b, n)} :: NodeCombined(h, h', a, b, n))
    && SameAccesses(h, h')
    && a in h.bags && b in h.bags
    && h'.bags.Keys == h.bags.Keys
    && (forall c :: c in h.bags ==> h'.bags[c].isP == h.bags[c].isP)
    && (forall c :: c in h.bags && c != a ==> h'.bags[c] == h.bags[c])
    && (h.bags[a].ds.Some? || h.bags[b].ds.Some? ==> h'.bags[a].ds.Some?)
    && h'.nextBag == h.nextBag
  }

  lemma NothingToCombine(h: Heap, stale: set<BagId>, a: BagId, b: BagId)
    requires Valid(h, stale) && a in h.bags && b in h.bags && a != b && a !in stale && b !in stale
    requires h.bags[b].ds.None?
    ensures Valid(h, stale + {b}) && CombinedInto(h, h, a, b)
  {
    forall c
      ensures BagOk(h, stale + {b}, c)
    {
      assert BagOk(h, stale, c);
    }
    forall n: Node
      ensures RootOk(h, stale + {b}, n) && NodeCombined(h, h, a, b, n)
    {
      assert RootOk(h, stale, n);
      if n in h.nodes {
        assert NodeOk(h.nodes, h.root, n) && RootOk(h, stale, h.root[n]);
      }
    }
  }

  lemma AbsorbedIsCombined(h: Heap, h1: Heap, h2: Heap, stale: set<BagId>, a: BagId, b: BagId, r: Node)
    requires Valid(h, stale) && Valid(h1, stale) && a != b && a !in stale && b !in stale
    requires Compressed(h, h1) && SameBags(h, h1)
    requires Absorbed(h1, h2, a, b, r)
    ensures Valid(h2, stale + {b}) && CombinedInto(h, h2, a, b)
  {
    AbsorbedIsValid(h1, h2, stale, a, b, r);
    forall n: Node
      ensures NodeCombined(h, h2, a, b, n)
    {
      if n in h2.nodes {
        AbsorbedResolves(h1, h2, a, b, r, n);
        assert NodeOk(h1.nodes, h1.root, n) && NodeOk(h.nodes, h.root, n);
        assert ResolvesAlike(h, h1, n) by {
          assert Resolve(h1, n) == Resolve(h1, n);
        }
      }
    }
  }

  lemma CompressedTwice(h: Heap, h1: Heap, h2: Heap)
    requires Compressed(h, h1) && Compressed(h1, h2)
    ensures Compressed(h, h2)
  {
  }

  lemma SameBagsSelf(h: Heap)
    requires Structured(h, None)
    ensures Compressed(h, h) && SameBags(h, h)
  {
    forall n | n in h.nodes
      ensures ResolvesAlike(h, h, n)
    {
      assert NodeOk(h.nodes, h.root, n);
    }
  }

  // ------------------------------------------------- deleting and recording

  // A bag is gone; its reference to its node, if any, is loose.
  ghost function WithoutBag(h: Heap, b: BagId): Heap {
    h.(bags := h.bags - {b}, refs := h.refs - {BagOf(b)})
  }

  lemma DropBagKeepsStructure(h: Heap, b: BagId)
    requires Structured(h, None) && b in h.bags
    ensures Structured(WithoutBag(h, b), h.bags[b].ds)
    ensures h.bags[b].ds.Some? ==> h.bags[b].ds.value in h.nodes
    ensures h.bags[b].ds.Some? && HoldersOf(h.refs, h.bags[b].ds.value) == {BagOf(b)} ==>
      h.nodes[h.bags[b].ds.value].refCount == 1
  {
    var h' := WithoutBag(h, b);
    var ds := h.bags[b].ds;
    assert BagRefOk(h.bags, h.refs, b);
    if ds.Some? {
      DropHolder(h.refs, BagOf(b));
      assert CountOk(h.nodes, h.refs, None, ds.value);
    } else {
      assert h'.refs == h.refs;
    }
    forall m | m in h'.nodes
      ensures CountOk(h'.nodes, h'.refs, ds, m)
    {
      assert CountOk(h.nodes, h.refs, None, m);
    }
    forall m
      ensures ChildRefOk(h'.nodes, h'.refs, m)
    {
      assert ChildRefOk(h.nodes, h.refs, m);
    }
    forall c
      ensures BagRefOk(h'.bags, h'.refs, c)
    {
      assert BagRefOk(h.bags, h.refs, c);
    }
  }

  lemma DeletionKeepsValid(h: Heap, stale: set<BagId>, b: BagId, h': Heap)
    requires Valid(h, stale) && b in h.bags && Structured(h', None)
    requires h' == WithoutBag(h, b) || exists floor :: Freed(WithoutBag(h, b), h', floor)
    requires b in stale || h.bags[b].ds.None? || h.bags[b].ds.value !in h'.nodes
    ensures Valid(h', stale - {b}) && SameBags(h, h')
    ensures SameAccesses(h, h')
  {
    DeletionKeepsOwned(h, stale, b, h');
    DeletionKeepsAccesses(h, b, h');
    forall n | n in h'.nodes
      ensures ResolvesAlike(h, h', n)
    {
      assert NodeOk(h'.nodes, h'.root, n) && NodeOk(h.nodes, h.root, n);
    }
  }

  lemma DeletionKeepsAccesses(h: Heap, b: BagId, h': Heap)
    requires b in h.bags && (h' == WithoutBag(h, b) || exists floor :: Freed(WithoutBag(h, b), h', floor))
    ensures SameAccesses(h, h')
  {
  }

  lemma DeletionKeepsOwned(h: Heap, stale: set<BagId>, b: BagId, h': Heap)
    requires Owned(h, stale) && b in h.bags && Structured(h', None)
    requires h' == WithoutBag(h, b) || exists floor :: Freed(WithoutBag(h, b), h', floor)
    requires b in stale || h.bags[b].ds.None? || h.bags[b].ds.value !in h'.nodes
    ensures Owned(h', stale - {b})
  {
    forall c
      ensures BagOk(h', stale - {b}, c)
    {
      assert BagOk(h, stale, c) && BagRefOk(h'.bags, h'.refs, c);
    }
    forall n
      ensures RootOk(h', stale - {b}, n)
    {
      assert RootOk(h, stale, n);
    }
  }

  // A slot of the shadow memory now holds `n`; the reference to the node it
  // held before is loose.
  ghost function Held(h: Heap, slot: Holder, n: Node): Heap
    requires n in h.nodes
  {
    h.(nodes := h.nodes[n := h.nodes[n].(refCount := h.nodes[n].refCount + 1)], refs := h.refs[slot := n])
  }

  lemma HoldKeepsStructure(h: Heap, slot: Holder, n: Node, held: Option<Node>)
    requires Structured(h, None) && slot.AccessAt? && n in h.nodes && held != Some(n)
    requires held == if slot in h.refs then Some(h.refs[slot]) else None
    ensures Structured(Held(h, slot, n), held)
  {
    var h' := Held(h, slot, n);
    CountsAside(h, h'.nodes, None);
    if slot in h.refs {
      MoveHolder(h.refs, slot, n);
    } else {
      AddHolder(h.refs, slot, n);
    }
    forall m | m in h'.nodes
      ensures CountOk(h'.nodes, h'.refs, held, m)
    {
      assert CountOk(h.nodes, h.refs, None, m);
    }
    forall m
      ensures ChildRefOk(h'.nodes, h'.refs, m)
    {
      assert ChildRefOk(h.nodes, h.refs, m);
    }
    forall c
      ensures BagRefOk(h'.bags, h'.refs, c)
    {
      assert BagRefOk(h.bags, h.refs, c);
    }
  }

  lemma HoldingKeepsValid(h: Heap, stale: set<BagId>, slot: Holder, n: Node, h': Heap)
    requires Valid(h, stale) && slot.AccessAt? && n in h.nodes && Structured(h', None)
    requires h' == Held(h, slot, n) || exists floor :: Freed(Held(h, slot, n), h', floor)
    ensures Valid(h', stale) && SameBags(h, h')
  {
    forall c
      ensures BagOk(h', stale, c)
    {
      assert BagOk(h, stale, c) && BagRefOk(h'.bags, h'.refs, c);
    }
    forall m
      ensures RootOk(h', stale, m)
    {
      assert RootOk(h, stale, m);
    }
    forall m | m in h'.nodes
      ensures ResolvesAlike(h, h', m)
    {
      assert NodeOk(h'.nodes, h'.root, m) && NodeOk(h.nodes, h.root, m);
    }
  }

  // --------------------------------------------------------- unused S-bags

  // Every node of a set is kept alive, directly or through nodes below it, by a
  // recorded access or by the set's bag.
  lemma {:induction false} KeptByAnAccess(h: Heap, n: Node) returns (slot: Holder)
    requires Valid(h, {}) && n in h.nodes && h.nodes[n].link.Parent?
    ensures slot.AccessAt? && slot in h.refs && h.refs[slot] in h.nodes
    ensures h.refs[slot] < |h.root| && n < |h.root| && h.root[h.refs[slot]] == h.root[n]
    decreases h.nodes[n].rank
  {
    assert CountOk(h.nodes, h.refs, None, n) && NodeOk(h.nodes, h.root, n);
    assert HoldersOf(h.refs, n) != {};
    var holder :| holder in HoldersOf(h.refs, n);
    assert holder.BagOf? ==> BagRefOk(h.bags, h.refs, holder.bag) && BagOk(h, {}, holder.bag);
    match holder
    case AccessAt(_, _) => slot := holder;
    case BagOf(_) => assert false;
    case ChildOf(m) =>
      assert ChildRefOk(h.nodes, h.refs, m) && NodeOk(h.nodes, h.root, m);
      slot := KeptByAnAccess(h, m);
  }

  // A bag that no recorded access resolves to is the only holder of its node.
  lemma UnusedBagHoldsAlone(h: Heap, b: BagId)
    requires Valid(h, {}) && b in h.bags && h.bags[b].ds.Some?
    requires forall k :: k in h.refs && k.AccessAt? ==>
      h.refs[k] < |h.root| && h.root[h.refs[k]] in h.nodes && h.nodes[h.root[h.refs[k]]].link.Tag?
      && Resolve(h, h.refs[k]) != b
    ensures HoldersOf(h.refs, h.bags[b].ds.value) == {BagOf(b)}
  {
    var n := h.bags[b].ds.value;
    assert BagOk(h, {}, b) && BagRefOk(h.bags, h.refs, b) && NodeOk(h.nodes, h.root, n);
    assert BagOf(b) in HoldersOf(h.refs, n);
    forall k | k in HoldersOf(h.refs, n)
      ensures k == BagOf(b)
    {
      match k
      case AccessAt(_, _) => assert false;
      case BagOf(c) => assert BagRefOk(h.bags, h.refs, c) && BagOk(h, {}, c);
      case ChildOf(m) =>
        assert ChildRefOk(h.nodes, h.refs, m) && NodeOk(h.nodes, h.root, m);
        var slot := KeptByAnAccess(h, m);
        assert false;
    }
  }

  // Bag `b` has been merged into bag `a` and is gone.
  ghost predicate MergedInto(h: Heap, h': Heap, a: BagId, b: BagId) {
    && (forall n {:trigger NodeCombined(h, h', a, b, n)} :: NodeCombined(h, h', a, b, n))
    && SameAccesses(h, h')
    && a in h.bags && b in h.bags
    && (forall c :: c in h'.bags <==> c in h.bags && c != b)
    && (forall c :: c in h'.bags ==> h'.bags[c].isP == h.bags[c].isP)
    && (forall c :: c in h'.bags && c != a ==> h'.bags[c] == h.bags[c])
    && (h.bags[a].ds.Some? || h.bags[b].ds.Some? ==> a in h'.bags && h'.bags[a].ds.Some?)
    && h'.nextBag == h.nextBag
  }

  lemma CombinedThenDeleted(h: Heap, h1: Heap, h2: Heap, a: BagId, b: BagId)
    requires CombinedInto(h, h1, a, b) && a != b
    requires SameBags(h1, h2) && SameAccesses(h1, h2)
    requires h2.bags == h1.bags - {b} && h2.nextBag == h1.nextBag
    requires Structured(h2, None)
    ensures MergedInto(h, h2, a, b)
  {
    forall n: Node
      ensures NodeCombined(h, h2, a, b, n)
    {
      if n in h2.nodes {
        assert NodeOk(h2.nodes, h2.root, n) && NodeCombined(h, h1, a, b, n);
        assert Resolve(h2, n) == Resolve(h2, n);
      }
    }
  }
}
