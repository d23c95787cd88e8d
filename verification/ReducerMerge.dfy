// Merging the reducer views of two strands that join: the views of a key both
// tables hold are reduced in left-to-right order, into the left view.

module ReducerMerge {
  import opened OrderedProbing
  import opened HyperTable

  // A call of a reduce function, which adds the right view to the left one.
  datatype Reduction = Reduction(reduceFn: nat, left: nat, right: nat)

  // The entries of two tables, where the first is the one merged into.
  function MergedValue(dst: Contents, src: Contents, leftDst: bool, k: Key): Reducer
    requires k in dst || k in src
  {
    if k !in src then dst[k]
    else if k !in dst then src[k]
    else if leftDst then dst[k]
    else Reducer(src[k].view, dst[k].reduceFn)
  }

  ghost predicate MergedInto(dst: Contents, src: Contents, leftDst: bool, c: Contents) {
    && c.Keys == dst.Keys + src.Keys
    && forall k :: k in c ==> c[k] == MergedValue(dst, src, leftDst, k)
  }

  // The union of two tables: a shared key keeps its left view.
  ghost predicate IsUnion(left: Contents, right: Contents, c: Contents) {
    && c.Keys == left.Keys + right.Keys
    && (forall k :: k in left && k !in right ==> c[k] == left[k])
    && (forall k :: k in right && k !in left ==> c[k] == right[k])
    && (forall k :: k in left && k in right ==>
          c[k].view == left[k].view && (c[k].reduceFn == left[k].reduceFn || c[k].reduceFn == right[k].reduceFn))
  }

  // The reductions and the freed views are those of the shared keys, each once.
  ghost predicate ReducesShared(left: Contents, right: Contents, order: seq<Key>,
                                reductions: seq<Reduction>, freed: seq<nat>)
  {
    && (forall i, j :: 0 <= i < |order| && 0 <= j < |order| && order[i] == order[j] ==> i == j)
    && (forall k :: k in order <==> k in left && k in right)
    && |reductions| == |order| == |freed|
    && (forall i :: 0 <= i < |order| ==> order[i] in left && order[i] in right)
    && (forall i :: 0 <= i < |order| ==>
          && reductions[i].left == left[order[i]].view && reductions[i].right == right[order[i]].view
          && (reductions[i].reduceFn == left[order[i]].reduceFn || reductions[i].reduceFn == right[order[i]].reduceFn)
          && freed[i] == right[order[i]].view)
  }

  lemma UnionOfMerged(dst: Contents, src: Contents, leftDst: bool, c: Contents)
    requires MergedInto(dst, src, leftDst, c)
    ensures if leftDst then IsUnion(dst, src, c) else IsUnion(src, dst, c)
  {
  }

  lemma MergingOneMore(dst: Contents, src: Contents, leftDst: bool, c: Contents, k: Key, v: Reducer)
    requires MergedInto(dst, src, leftDst, c) && k !in src
    ensures k in c <==> k in dst
    ensures k !in dst ==> MergedInto(dst, src[k := v], leftDst, c[k := v])
    ensures k in dst ==> c[k] == dst[k]
    ensures k in dst && leftDst ==> MergedInto(dst, src[k := v], leftDst, c)
    ensures k in dst && !leftDst ==> MergedInto(dst, src[k := v], leftDst, c[k := Reducer(v.view, dst[k].reduceFn)])
  {
  }

  lemma UnionSize(dst: Contents, src: Contents, leftDst: bool, c: Contents)
    requires MergedInto(dst, src, leftDst, c)
    ensures |c| <= |dst| + |src|
  {
    assert c.Keys == dst.Keys + src.Keys;
    assert |dst.Keys + src.Keys| == |dst.Keys| + |src.Keys| - |dst.Keys * src.Keys|;
  }

  lemma ReducingOneMore(dst: Contents, src: Contents, leftDst: bool, order: seq<Key>,
                        reductions: seq<Reduction>, freed: seq<nat>, k: Key, v: Reducer, r: Reduction)
    requires ReducesShared(if leftDst then dst else src, if leftDst then src else dst, order, reductions, freed)
    requires k !in src && k in dst
    requires r == if leftDst then Reduction(dst[k].reduceFn, dst[k].view, v.view)
                  else Reduction(dst[k].reduceFn, v.view, dst[k].view)
    ensures var src' := src[k := v];
      ReducesShared(if leftDst then dst else src', if leftDst then src' else dst,
                    order + [k], reductions + [r], freed + [r.right])
  {
  }

  lemma ReducingNoMore(dst: Contents, src: Contents, leftDst: bool, order: seq<Key>,
                       reductions: seq<Reduction>, freed: seq<nat>, k: Key, v: Reducer)
    requires ReducesShared(if leftDst then dst else src, if leftDst then src else dst, order, reductions, freed)
    requires k !in src && k !in dst
    ensures var src' := src[k := v];
      ReducesShared(if leftDst then dst else src', if leftDst then src' else dst, order, reductions, freed)
  {
  }

  // A table that can take that many entries.
  ghost predicate CanTake(t: Table, entries: int)
    reads t, t.buckets
  {
    t.Valid() && t.Roomy() && t.capacity <= 2 * MAX_CAPACITY && entries <= 15 * MAX_CAPACITY / 16
  }

  // Inserting an entry leaves the table ready for the next one.
  method InsertMissing(dst: Table, b: Bucket, ghost entries: int)
    requires CanTake(dst, entries) && |dst.contents| < entries && IsValid(b.key)
    modifies dst, dst.buckets
    ensures CanTake(dst, entries) && (dst.buckets == old(dst.buckets) || fresh(dst.buckets))
    ensures dst.contents == old(dst.contents)[b.key := b.value]
  {
    dst.RoomyHasRoom();
    var _, _, _ := dst.Insert(b);
  }

  // Look the key of a source entry up.  When the table has it, reduce the two
  // views in left-to-right order; the bucket ends up with the left view.
  method FindAndMerge(dst: Table, b: Bucket, leftDst: bool) returns (found: bool, r: Reduction)
    requires dst.Valid() && dst.capacity <= TWO32 && IsValid(b.key)
    modifies dst`contents, dst.buckets
    ensures dst.Valid() && (old(dst.Roomy()) ==> dst.Roomy())
    ensures found <==> b.key in old(dst.contents)
    ensures found ==> var d := old(dst.contents[b.key]);
      r == if leftDst then Reduction(d.reduceFn, d.view, b.value.view) else Reduction(d.reduceFn, b.value.view, d.view)
    ensures dst.contents == if found && !leftDst then old(dst.contents)[b.key := Reducer(b.value.view, r.reduceFn)]
                            else old(dst.contents)
  {
    var i := dst.Find(b.key);
    if i == -1 {
      return false, Reduction(0, 0, 0);
    }
    var dstValue := dst.buckets[i].value;
    if leftDst {
      r := Reduction(dstValue.reduceFn, dstValue.view, b.value.view);
    } else {
      r := Reduction(dstValue.reduceFn, b.value.view, dstValue.view);
      dst.SetView(i, b.value.view);
    }
    found := true;
  }

  // Insert an entry of the source table, or merge it with the entry of the
  // destination that has its key.
  method MergeEntry(dst: Table, b: Bucket, leftDst: bool, ghost d0: Contents, ghost moved: Contents,
                    ghost entries: int)
    returns (shared: bool, r: Reduction)
    requires CanTake(dst, entries) && |dst.contents| < entries && IsValid(b.key) && b.key !in moved
    requires MergedInto(d0, moved, leftDst, dst.contents)
    modifies dst, dst.buckets
    ensures CanTake(dst, entries) && (dst.buckets == old(dst.buckets) || fresh(dst.buckets))
    ensures MergedInto(d0, moved[b.key := b.value], leftDst, dst.contents)
    ensures shared <==> b.key in d0
    ensures shared ==> r == if leftDst then Reduction(d0[b.key].reduceFn, d0[b.key].view, b.value.view)
                            else Reduction(d0[b.key].reduceFn, b.value.view, d0[b.key].view)
  {
    MergingOneMore(d0, moved, leftDst, dst.contents, b.key, b.value);
    shared, r := FindAndMerge(dst, b, leftDst);
    if !shared {
      InsertMissing(dst, b, entries);
    }
  }

  // The first `n` buckets hold all entries.
  ghost predicate HeldBelow(bs: seq<Bucket>, n: nat, all: Contents) {
    Holds(bs, all) && n <= |bs| && forall j :: n <= j < |bs| ==> !IsValid(bs[j].key)
  }

  lemma AllMoved(bs: seq<Bucket>, n: nat, all: Contents, moved: Contents)
    requires HeldBelow(bs, n, all) && Moved(bs, n, all, moved)
    ensures moved == all
  {
    forall k | k in all
      ensures k in moved
    {
      var j :| 0 <= j < |bs| && bs[j].key == k;
      assert bs[..n][j].key == k;
    }
  }

  // Merge an entry, and note the reduction and the view that is freed.
  method MergeNext(dst: Table, b: Bucket, leftDst: bool, reductions0: seq<Reduction>, freed0: seq<nat>,
                   ghost order0: seq<Key>, ghost d0: Contents, ghost moved: Contents, ghost entries: int)
    returns (reductions: seq<Reduction>, freed: seq<nat>, ghost order: seq<Key>)
    requires CanTake(dst, entries) && |dst.contents| < entries && IsValid(b.key) && b.key !in moved
    requires MergedInto(d0, moved, leftDst, dst.contents)
    requires ReducesShared(if leftDst then d0 else moved, if leftDst then moved else d0, order0, reductions0, freed0)
    modifies dst, dst.buckets
    ensures CanTake(dst, entries) && (dst.buckets == old(dst.buckets) || fresh(dst.buckets))
    ensures var moved' := moved[b.key := b.value];
      && MergedInto(d0, moved', leftDst, dst.contents)
      && ReducesShared(if leftDst then d0 else moved', if leftDst then moved' else d0, order, reductions, freed)
  {
    var shared, r := MergeEntry(dst, b, leftDst, d0, moved, entries);
    if shared {
      ReducingOneMore(d0, moved, leftDst, order0, reductions0, freed0, b.key, b.value, r);
      reductions, freed, order := reductions0 + [r], freed0 + [r.right], order0 + [b.key];
    } else {
      ReducingNoMore(d0, moved, leftDst, order0, reductions0, freed0, b.key, b.value);
      reductions, freed, order := reductions0, freed0, order0;
    }
  }

  // Merge the entries of a source array into a table.
  method MergeInto(dst: Table, srcBuckets: array<Bucket>, srcCapacity: nat, leftDst: bool, ghost all: Contents)
    returns (reductions: seq<Reduction>, freed: seq<nat>, ghost order: seq<Key>)
    requires dst.buckets != srcBuckets && HeldBelow(srcBuckets[..], srcCapacity, all)
    requires CanTake(dst, |dst.contents| + |all|)
    modifies dst, dst.buckets
    ensures dst.Valid() && MergedInto(old(dst.contents), all, leftDst, dst.contents)
    ensures ReducesShared(if leftDst then old(dst.contents) else all,
                          if leftDst then all else old(dst.contents), order, reductions, freed)
  {
    ghost var d0, entries, bs := dst.contents, |dst.contents| + |all|, srcBuckets[..];
    ghost var moved: Contents := map[];
    reductions, freed, order := [], [], [];
    for i := 0 to srcCapacity
      invariant dst.buckets == old(dst.buckets) || fresh(dst.buckets)
      invariant dst.buckets != srcBuckets && srcBuckets[..] == bs
      invariant CanTake(dst, entries)
      invariant Moved(bs, i, all, moved) && MergedInto(d0, moved, leftDst, dst.contents)
      invariant ReducesShared(if leftDst then d0 else moved, if leftDst then moved else d0, order, reductions, freed)
    {
      var b := srcBuckets[i];
      if IsValid(b.key) {
        MovingOne(bs, i, all, moved);
        UnionSize(d0, moved, leftDst, dst.contents);
        reductions, freed, order := MergeNext(dst, b, leftDst, reductions, freed, order, d0, moved, entries);
        moved := moved[b.key := b.value];
      } else {
        MovingNone(bs, i, all, moved);
      }
    }
    AllMoved(bs, srcCapacity, all, moved);
  }

  // How far to scan a source table: a small one has its entries first.
  method ScanBound(src: Table) returns (n: nat)
    requires src.Valid()
    ensures HeldBelow(src.buckets[..], n, src.contents)
  {
    n := if src.capacity < MIN_HT_CAPACITY then src.occupancy else src.capacity;
  }

  ghost function ContentsOf(t: Table?): Contents
    reads t
  {
    if t == null then map[] else t.contents
  }

  // Merge two tables: the smaller one is the source to iterate over.
  method MergeTables(left: Table, right: Table)
    returns (result: Table, reductions: seq<Reduction>, freed: seq<nat>, ghost order: seq<Key>)
    requires left != right && left.buckets != right.buckets
    requires CanTake(left, |left.contents| + |right.contents|)
    requires CanTake(right, |left.contents| + |right.contents|)
    modifies left, right, left.buckets, right.buckets
    ensures result == if old(left.occupancy >= right.occupancy) then left else right
    ensures result.Valid() && IsUnion(old(left.contents), old(right.contents), result.contents)
    ensures ReducesShared(old(left.contents), old(right.contents), order, reductions, freed)
  {
    if left.occupancy >= right.occupancy {
      var n := ScanBound(right);
      reductions, freed, order := MergeInto(left, right.buckets, n, true, right.contents);
      UnionOfMerged(old(left.contents), old(right.contents), true, left.contents);
      result := left;
    } else {
      var n := ScanBound(left);
      reductions, freed, order := MergeInto(right, left.buckets, n, false, left.contents);
      UnionOfMerged(old(right.contents), old(left.contents), false, right.contents);
      result := right;
    }
  }

  // Merge two tables, either of which may be missing.
  method MergeTwoHyperTables(left: Table?, right: Table?)
    returns (result: Table?, reductions: seq<Reduction>, freed: seq<nat>, ghost order: seq<Key>)
    requires left != null && right != null ==> left != right && left.buckets != right.buckets
    requires left != null ==> CanTake(left, |ContentsOf(left)| + |ContentsOf(right)|)
    requires right != null ==> CanTake(right, |ContentsOf(left)| + |ContentsOf(right)|)
    modifies left, right, if left == null then {} else {left.buckets}, if right == null then {} else {right.buckets}
    ensures result == if left == null then right else if right == null then left
                      else if old(left.occupancy == 0 || (right.occupancy != 0 && left.occupancy < right.occupancy))
                      then right else left
    ensures result != null ==> result.Valid()
    ensures IsUnion(old(ContentsOf(left)), old(ContentsOf(right)), ContentsOf(result))
    ensures ReducesShared(old(ContentsOf(left)), old(ContentsOf(right)), order, reductions, freed)
  {
    if left == null || (right != null && left.occupancy == 0) {
      return right, [], [], [];
    }
    if right == null || right.occupancy == 0 {
      return left, [], [], [];
    }
    result, reductions, freed, order := MergeTables(left, right);
  }
}
