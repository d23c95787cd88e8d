// The union-find and the bags as the program updates them in place.

module BagForest {
  import opened DisjointSet

  class Forest {
    var nodes: Nodes
    var nextNode: nat
    var bags: map<BagId, Bag>
    var nextBag: nat

    ghost var root: seq<Node>
    ghost var merged: seq<set<Node>>
    ghost var refs: Refs

    constructor ()
      ensures Valid(Snapshot(), {})
      ensures Snapshot() == Heap(map[], 0, map[], 0, [], [], map[])
    {
      nodes, nextNode, bags, nextBag := map[], 0, map[], 0;
      root, merged, refs := [], [], map[];
    }

    ghost function Snapshot(): Heap
      reads this
    {
      Heap(nodes, nextNode, bags, nextBag, root, merged, refs)
    }

    // Drop the reference that is loose on `n`, and free the node when it was
    // the last one, which in turn drops its reference to its parent.
    method DecRefCount(n: Node)
      requires Structured(Snapshot(), Some(n)) && n in nodes
      modifies this`nodes, this`refs
      ensures Structured(Snapshot(), None)
      ensures Freed(old(Snapshot()), Snapshot(), old(nodes[n].rank))
      ensures old(nodes[n].refCount) == 1 ==> n !in nodes
      decreases |nodes|
    {
      ghost var before := Snapshot();
      nodes := nodes[n := nodes[n].(refCount := nodes[n].refCount - 1)];
      assert CountOk(before.nodes, refs, Some(n), n);
      if nodes[n].refCount == 0 {
        RemoveKeepsStructure(before, n);
        assert NodeOk(before.nodes, root, n);
        var l := nodes[n].link;
        nodes := nodes - {n};
        refs := refs - {ChildOf(n)};
        ghost var removed := Snapshot();
        assert nodes == before.nodes - {n};
        assert removed == Removed(before, n);
        if l.Parent? {
          DecRefCount(l.node);
          FreedTwice(before, removed, Snapshot(), before.nodes[n].rank, before.nodes[l.node].rank);
        }
      } else {
        DropKeepsStructure(before, n);
        assert Snapshot() == Dropped(before, n);
      }
    }

    // Point the non-root `p` straight at the root of its set.
    method InternalSetParent(p: Node, that: Node)
      requires Structured(Snapshot(), None) && p in nodes && nodes[p].link.Parent? && p < |root|
      requires that == root[p] && that in nodes && that != p && nodes[p].link.node != that
      requires nodes[p].link.node in nodes
      modifies this`nodes, this`refs
      ensures Structured(Snapshot(), None)
      ensures Compressed(old(Snapshot()), Snapshot())
      ensures forall m :: m in nodes && m != p ==> nodes[m].link == old(nodes)[m].link
      ensures forall m :: m in old(nodes) && m !in nodes ==> old(nodes)[m].rank > old(nodes[p].rank)
      ensures that in nodes && nodes[that].link.Tag? && p in nodes && nodes[p].link == Parent(that)
    {
      ghost var before := Snapshot();
      var oldParent := nodes[p].link.node;
      ReparentKeepsStructure(before, p, that);
      nodes := nodes[p := nodes[p].(link := Parent(that))];
      nodes := nodes[that := nodes[that].(refCount := nodes[that].refCount + 1)];
      refs := refs[ChildOf(p) := that];
      ghost var moved := Snapshot();
      assert moved == Reparented(before, p, that);
      DecRefCount(oldParent);
      ReparentedThenFreed(before, p, that, Snapshot());
    }

    // The root of the node's set.  The walk up is at most as long as the
    // logarithm of the number of nodes ever created; the walk back points every
    // node passed at the root, freeing those that nothing else holds.
    method FindSet(n: Node) returns (r: Node, ghost walked: nat)
      requires Structured(Snapshot(), None) && n in nodes
      modifies this`nodes, this`refs
      ensures Structured(Snapshot(), None)
      ensures Compressed(old(Snapshot()), Snapshot())
      ensures n in nodes && n < |root| && r == root[n] && r in nodes && nodes[r].link.Tag?
      ensures r == Up(old(nodes), n, walked) && Pow2(walked) <= nextNode
      ensures PathIsShort(old(nodes), nodes, n, r)
    {
      assert NodeOk(nodes, root, n);
      RankIsLogarithmic(Snapshot(), n);
      walked := 0;
      if nodes[n].link.Tag? {
        UpStaysAt(nodes, n, n, 0);
        return n, 0;
      }
      var parent := nodes[n].link.node;
      assert NodeOk(nodes, root, parent);
      if nodes[parent].link.Tag? {
        Pow2Monotone(1, nodes[parent].rank);
        UpStaysAt(nodes, n, parent, 1);
        return parent, 1;
      }
      ghost var before := Snapshot();
      var list;
      r, list, walked := WalkUp(n);
      Pow2Monotone(walked, nodes[r].rank);
      ClimbedList(before, n, r, list, walked);
      CompressPath(n, list, r);
      PathIsCompressed(before, Snapshot(), n, r, list, walked);
    }

    // Walk up to the root, and list the nodes passed that do not point at it.
    method WalkUp(n: Node) returns (r: Node, list: seq<Node>, ghost walked: nat)
      requires Structured(Snapshot(), None) && n in nodes && n < |root|
      ensures r in nodes && nodes[r].link.Tag? && Climbed(Snapshot(), n, r, list, walked) && r == root[n]
    {
      r, list, walked := n, [], 0;
      ClimbStarts(Snapshot(), n);
      while nodes[r].link.Parent?
        invariant Snapshot() == old(Snapshot()) && r in nodes && n < |root| && root[n] in nodes
        invariant nodes[r].rank <= nodes[root[n]].rank && Climbed(Snapshot(), n, r, list, walked)
        decreases nodes[root[n]].rank - nodes[r].rank
      {
        ClimbGoesOn(Snapshot(), n, r, list, walked);
        var prev := r;
        r := nodes[r].link.node;
        if nodes[r].link.Parent? {
          list := list + [prev];
        }
        walked := walked + 1;
      }
      assert NodeOk(nodes, root, r);
    }

    // Point the nodes passed on the way up at the root, last one first, so that
    // a node is never touched after its last child has let go of it.
    method CompressPath(ghost n: Node, list: seq<Node>, r: Node)
      requires Structured(Snapshot(), None) && n in nodes && n < |root|
      requires r == root[n] && r in nodes && nodes[r].link.Tag?
      requires forall i :: 0 <= i < |list| ==> list[i] in nodes && ToCompress(nodes, root, list[i], r)
      requires forall i, j :: 0 <= i < j < |list| ==> nodes[list[i]].rank < nodes[list[j]].rank
      requires forall i :: 0 <= i < |list| ==> nodes[n].rank <= nodes[list[i]].rank
      modifies this`nodes, this`refs
      ensures Structured(Snapshot(), None)
      ensures Compressed(old(Snapshot()), Snapshot())
      ensures n in nodes && r in nodes && nodes[r].link.Tag?
      ensures CompressedFrom(old(Snapshot()), Snapshot(), list, 0, r)
    {
      ghost var before := Snapshot();
      var i := |list|;
      while i > 0
        invariant 0 <= i <= |list|
        invariant Structured(Snapshot(), None)
        invariant Compressed(before, Snapshot())
        invariant n in nodes && r in nodes && nodes[r].link.Tag?
        invariant forall j :: 0 <= j < i ==> ToCompress(nodes, root, list[j], r)
        invariant CompressedFrom(before, Snapshot(), list, i, r)
      {
        i := i - 1;
        ghost var now := Snapshot();
        assert NodeOk(nodes, root, list[i]);
        InternalSetParent(list[i], r);
        CompressedTwice(before, now, Snapshot());
        CompressedFurther(before, now, Snapshot(), list, i, r);
      }
    }

    // Union by rank of two roots: the lower one becomes a child of the other.
    method LinkRoots(a: Node, b: Node) returns (r: Node)
      requires Structured(Snapshot(), None)
      requires a in nodes && b in nodes && a != b && nodes[a].link.Tag? && nodes[b].link.Tag?
      modifies this`nodes, this`refs, this`root, this`merged
      ensures Structured(Snapshot(), None)
      ensures r == if old(nodes[a].rank > nodes[b].rank) then a else b
      ensures a < |old(root)| && b < |old(root)|
      ensures Snapshot() == Linked(old(Snapshot()), if r == a then b else a, r)
    {
      ghost var before := Snapshot();
      assert NodeOk(nodes, root, a) && NodeOk(nodes, root, b);
      assert SetOk(nodes, merged, a) && SetOk(nodes, merged, b);
      if nodes[a].rank > nodes[b].rank {
        RootSetParent(b, a);
        LinkKeepsStructure(before, b, a);
        r := a;
      } else {
        RootSetParent(a, b);
        if nodes[a].rank == nodes[b].rank {
          nodes := nodes[b := nodes[b].(rank := nodes[b].rank + 1)];
        }
        LinkKeepsStructure(before, a, b);
        r := b;
      }
      ghost var child := if r == a then b else a;
      root := Redirected(root, child, r);
      merged := merged[r := merged[child] + merged[r]];
      assert nodes == Linked(before, child, r).nodes;
      assert Snapshot() == Linked(before, child, r);
    }

    method RootSetParent(child: Node, that: Node)
      requires child in nodes && that in nodes && child != that
      modifies this`nodes, this`refs
      ensures nodes == old(nodes)[child := old(nodes)[child].(link := Parent(that))]
                         [that := old(nodes)[that].(refCount := old(nodes)[that].refCount + 1)]
      ensures refs == old(refs)[ChildOf(child) := that]
    {
      nodes := nodes[child := nodes[child].(link := Parent(that))];
      nodes := nodes[that := nodes[that].(refCount := nodes[that].refCount + 1)];
      refs := refs[ChildOf(child) := that];
    }

    // ------------------------------------------------------------------ bags

    method NewSBag(ghost stale: set<BagId>) returns (b: BagId)
      requires Valid(Snapshot(), stale)
      modifies this
      ensures Valid(Snapshot(), stale)
      ensures b == old(nextBag) && b !in old(bags)
      ensures Snapshot() == WithSBag(old(Snapshot()))
      ensures forall n :: n in old(nodes) ==> ResolvesAlike(old(Snapshot()), Snapshot(), n)
    {
      ghost var before := Snapshot();
      NewSBagKeepsValid(before, stale);
      b := nextBag;
      var n := nextNode;
      // The node starts with one reference, that of its bag.
      nodes := nodes[n := NodeData(Tag(b, false), 0, 1)];
      nextNode := nextNode + 1;
      bags := bags[b := Bag(false, Some(n))];
      nextBag := nextBag + 1;
      root := root + [n];
      merged := merged + [{n}];
      refs := refs[BagOf(b) := n];
      assert Snapshot() == WithSBag(before);
    }

    method NewPBag(ghost stale: set<BagId>) returns (b: BagId)
      requires Valid(Snapshot(), stale)
      modifies this`bags, this`nextBag
      ensures Valid(Snapshot(), stale)
      ensures b == old(nextBag) && b !in old(bags)
      ensures Snapshot() == WithPBag(old(Snapshot()))
      ensures forall n :: n in old(nodes) ==> ResolvesAlike(old(Snapshot()), Snapshot(), n)
    {
      NewPBagKeepsValid(Snapshot(), stale);
      b := nextBag;
      bags := bags[b := Bag(true, None)];
      nextBag := nextBag + 1;
    }

    // The bag a node resolves to, as the tool asks for it.
    method ResolveBag(n: Node, ghost stale: set<BagId>) returns (b: BagId, isP: bool)
      requires Valid(Snapshot(), stale) && n in nodes
      modifies this`nodes, this`refs
      ensures Valid(Snapshot(), stale)
      ensures Compressed(old(Snapshot()), Snapshot()) && SameBags(old(Snapshot()), Snapshot())
      ensures n in nodes && ResolvesAlike(old(Snapshot()), Snapshot(), n)
      ensures b == Resolve(Snapshot(), n) && b in bags && b !in stale && isP == bags[b].isP
      ensures PathIsShort(old(nodes), nodes, n, root[n])
    {
      ghost var before := Snapshot();
      var r, walked := FindSet(n);
      CompressionKeepsBags(before, Snapshot(), stale);
      assert RootOk(Snapshot(), stale, r);
      assert ResolvesAlike(before, Snapshot(), n) by {
        assert Resolve(Snapshot(), n) == nodes[r].link.bag;
      }
      b, isP := nodes[r].link.bag, nodes[r].link.isP;
    }

    // Merge the set of bag `b` into bag `a`; afterwards `b` is stale.
    method Combine(a: BagId, b: BagId, ghost stale: set<BagId>)
      requires Valid(Snapshot(), stale)
      requires a in bags && b in bags && a != b && a !in stale && b !in stale
      modifies this
      ensures Valid(Snapshot(), stale + {b})
      ensures CombinedInto(old(Snapshot()), Snapshot(), a, b)
    {
      ghost var before := Snapshot();
      if bags[b].ds.None? {
        NothingToCombine(before, stale, a, b);
        return;
      }
      DistinctRoots(before, stale, a, b);
      if bags[a].ds.None? {
        MoveBagKeepsStructure(before, a, bags[b].ds.value);
        var n := bags[b].ds.value;
        nodes := nodes[n := nodes[n].(refCount := nodes[n].refCount + 1)];
        bags := bags[a := bags[a].(ds := Some(n))];
        refs := refs[BagOf(a) := n];
        SetTag(n, a);
        AdoptionAbsorbs(before, stale, a, b, Snapshot());
        SameBagsSelf(before);
        AbsorbedIsCombined(before, before, Snapshot(), stale, a, b, n);
      } else {
        CombineSets(a, b, stale);
      }
    }

    // Rewrite the tag of a root to name bag `a`.
    method SetTag(n: Node, a: BagId)
      requires n in nodes && a in bags
      modifies this`nodes
      ensures Snapshot() == Retagged(old(Snapshot()), n, a, bags[a].isP)
    {
      nodes := nodes[n := nodes[n].(link := Tag(a, bags[a].isP))];
    }

    // Point bag `a` at the node `ds`, releasing the node it had.
    method SetDs(a: BagId, ds: Node)
      requires Structured(Snapshot(), None)
      requires a in bags && bags[a].ds.Some? && bags[a].ds.value in nodes && ds in nodes
      modifies this`nodes, this`bags, this`refs
      ensures Structured(Snapshot(), None)
      ensures old(bags[a].ds) == Some(ds) ==> Snapshot() == old(Snapshot())
      ensures old(bags[a].ds) != Some(ds) ==>
        Freed(MovedBag(old(Snapshot()), a, ds), Snapshot(), old(nodes[bags[a].ds.value].rank))
      ensures bags[a] == Bag(old(bags[a].isP), Some(ds))
    {
      if bags[a].ds == Some(ds) {
        return;
      }
      ghost var before := Snapshot();
      MoveBagKeepsStructure(before, a, ds);
      var oldDs := bags[a].ds.value;
      nodes := nodes[ds := nodes[ds].(refCount := nodes[ds].refCount + 1)];
      bags := bags[a := bags[a].(ds := Some(ds))];
      refs := refs[BagOf(a) := ds];
      DecRefCount(oldDs);
    }

    // Both bags have a set: unite the sets, move bag `a` to the new root, and
    // retag that root when it was the root of `b`.
    method CombineSets(a: BagId, b: BagId, ghost stale: set<BagId>)
      requires Valid(Snapshot(), stale)
      requires a in bags && b in bags && a != b && a !in stale && b !in stale
      requires bags[a].ds.Some? && bags[b].ds.Some?
      modifies this
      ensures Valid(Snapshot(), stale + {b})
      ensures CombinedInto(old(Snapshot()), Snapshot(), a, b)
      ensures a in bags && bags[a].ds == Some(HigherRoot(old(nodes), old(bags[a].ds.value), old(bags[b].ds.value)))
    {
      ghost var before := Snapshot();
      var x, y := FindRoots(a, b, stale);
      ghost var found := Snapshot();
      var r := UniteRoots(a, b, x, y, stale);
      AbsorbedIsCombined(before, found, Snapshot(), stale, a, b, r);
    }

    // The roots of both sets, which are the nodes of the bags.
    method FindRoots(a: BagId, b: BagId, ghost stale: set<BagId>) returns (x: Node, y: Node)
      requires Valid(Snapshot(), stale)
      requires a in bags && b in bags && a != b && a !in stale && b !in stale
      requires bags[a].ds.Some? && bags[b].ds.Some?
      modifies this`nodes, this`refs
      ensures Valid(Snapshot(), stale)
      ensures Compressed(old(Snapshot()), Snapshot()) && SameBags(old(Snapshot()), Snapshot())
      ensures bags[a].ds == Some(x) && bags[b].ds == Some(y) && x in nodes && y in nodes
    {
      ghost var before := Snapshot();
      DistinctRoots(before, stale, a, b);
      DistinctRoots(before, stale, b, a);
      var p, _ := FindSet(bags[a].ds.value);
      ghost var h1 := Snapshot();
      CompressionKeepsBags(before, h1, stale);
      DistinctRoots(h1, stale, a, b);
      var q, _ := FindSet(bags[b].ds.value);
      x, y := p, q;
      CompressedTwice(before, h1, Snapshot());
      CompressionKeepsBags(before, Snapshot(), stale);
      DistinctRoots(Snapshot(), stale, b, a);
    }

    method UniteRoots(a: BagId, b: BagId, x: Node, y: Node, ghost stale: set<BagId>) returns (r: Node)
      requires Valid(Snapshot(), stale)
      requires a in bags && b in bags && a != b && a !in stale && b !in stale
      requires bags[a].ds == Some(x) && bags[b].ds == Some(y)
      modifies this
      ensures Absorbed(old(Snapshot()), Snapshot(), a, b, r) && r == HigherRoot(old(nodes), x, y)
    {
      ghost var h := Snapshot();
      DistinctRoots(h, stale, a, b);
      DistinctRoots(h, stale, b, a);
      r := LinkRoots(x, y);
      ghost var linked := Snapshot();
      SetDs(a, r);
      if r != x {
        ghost var freed := Snapshot();
        assert BagRefOk(bags, refs, a);
        SetTag(r, a);
        LinkAboveAbsorbs(h, stale, a, b, linked, freed, linked.nodes[x].rank, Snapshot());
      } else {
        LinkBelowAbsorbs(h, stale, a, b, Snapshot());
      }
    }

    // Delete a bag that is stale, empty, or the only holder of its node.
    method DeleteBag(b: BagId, ghost stale: set<BagId>)
      requires Valid(Snapshot(), stale) && b in bags
      requires b in stale || bags[b].ds.None? || HoldersOf(refs, bags[b].ds.value) == {BagOf(b)}
      modifies this`nodes, this`bags, this`refs
      ensures Valid(Snapshot(), stale - {b})
      ensures bags == old(bags) - {b}
      ensures nextBag == old(nextBag)
      ensures SameBags(old(Snapshot()), Snapshot()) && SameAccesses(old(Snapshot()), Snapshot())
    {
      ghost var before := Snapshot();
      DropBagKeepsStructure(before, b);
      var ds := bags[b].ds;
      bags := bags - {b};
      refs := refs - {BagOf(b)};
      ghost var dropped := Snapshot();
      assert dropped == WithoutBag(before, b);
      if ds.Some? {
        assert BagRefOk(before.bags, before.refs, b) && CountOk(nodes, refs, ds, ds.value);
        DecRefCount(ds.value);
      }
      DeletionKeepsValid(before, stale, b, Snapshot());
    }

    // Record an access in the slot of the given kind and location: the slot
    // holds on to the node of the S-bag, and lets go of the node it held.
    method Record(write: bool, loc: nat, held: Option<Node>, b: BagId, ghost stale: set<BagId>) returns (n: Node)
      requires Valid(Snapshot(), stale)
      requires held.Some? <==> AccessAt(write, loc) in refs
      requires held.Some? ==> held.value == refs[AccessAt(write, loc)]
      requires b in bags && b !in stale && bags[b].ds.Some?
      modifies this`nodes, this`refs
      ensures Valid(Snapshot(), stale)
      ensures SameBags(old(Snapshot()), Snapshot()) && bags == old(bags)
      ensures AccessAt(write, loc) in refs && refs[AccessAt(write, loc)] == n && n in nodes
      ensures ResolvesAlike(Snapshot(), Snapshot(), n) && Resolve(Snapshot(), n) == b
      ensures forall k: Holder :: k.AccessAt? && k != AccessAt(write, loc) ==>
        (k in refs <==> k in old(refs)) && (k in refs ==> refs[k] == old(refs[k]))
    {
      ghost var before := Snapshot();
      ghost var slot := AccessAt(write, loc);
      assert BagOk(before, stale, b);
      n := bags[b].ds.value;
      if held != Some(n) {
        HoldKeepsStructure(before, slot, n, held);
        nodes := nodes[n := nodes[n].(refCount := nodes[n].refCount + 1)];
        refs := refs[slot := n];
        assert Snapshot() == Held(before, slot, n);
        if held.Some? {
          DecRefCount(held.value);
        }
        HoldingKeepsValid(before, stale, slot, n, Snapshot());
      } else {
        SameBagsSelf(before);
      }
      assert BagOk(Snapshot(), stale, b) && NodeOk(nodes, root, n);
    }

    // Combine, then delete the bag that was merged away.
    method MergeInto(a: BagId, b: BagId)
      requires Valid(Snapshot(), {})
      requires a in bags && b in bags && a != b
      modifies this
      ensures Valid(Snapshot(), {})
      ensures MergedInto(old(Snapshot()), Snapshot(), a, b)
    {
      ghost var before := Snapshot();
      ghost var none: set<BagId> := {};
      assert none + {b} == {b} && {b} - {b} == none;
      Combine(a, b, none);
      ghost var combined := Snapshot();
      DeleteBag(b, {b});
      CombinedThenDeleted(before, combined, Snapshot(), a, b);
    }
  }
}
