// The table of reducer views: an array scanned linearly while it is small, and
// an ordered, tombstoned hash table that grows, shrinks and rebuilds itself.

module HyperTable {
  import opened OrderedProbing

  const MIN_CAPACITY: nat := 4
  const MIN_HT_CAPACITY: nat := 8

  // Up to this capacity a table can double without overflowing the 32-bit
  // products of the load tests.
  const MAX_CAPACITY: nat := 0x400_0000

  // The table aims for a load of at most 15/16 ...
  predicate IsOverloaded(occupancy: int, capacity: nat) {
    occupancy > 15 * capacity / 16
  }

  // ... and at least 7/16, unless it is small.
  predicate IsUnderloaded(occupancy: int, capacity: nat) {
    capacity > MIN_CAPACITY && occupancy <= 7 * capacity / 16
  }

  predicate TimeToRebuild(insRmCount: int, capacity: nat) {
    insRmCount > 8 && insRmCount > capacity / 64
  }

  // Capacities are powers of two from the minimum on.
  predicate GoodCapacity(c: nat) {
    c == MIN_CAPACITY || (c > MIN_CAPACITY && c % 2 == 0 && GoodCapacity(c / 2))
  }

  lemma {:induction false} CapacityForms(c: nat)
    requires GoodCapacity(c)
    ensures c == 4 || c == 8 || (c >= 16 && c % 16 == 0)
  {
    if c != MIN_CAPACITY {
      CapacityForms(c / 2);
    }
  }

  // The slots that are empty in a new array: all of them when it is small,
  // and all but every 33rd when it is large.
  function FreshEmpties(capacity: nat): nat {
    capacity - capacity / 33
  }

  ghost predicate Blank(bs: seq<Bucket>) {
    forall i :: 0 <= i < |bs| ==> !IsValid(bs[i].key)
  }

  // The slots below `n` that a new large array leaves empty.
  ghost function Regular(n: nat): (s: set<nat>)
    ensures |s| == FreshEmpties(n)
    ensures forall i :: i in s <==> 0 <= i < n && i % 33 != 32
  {
    if n == 0 then {} else if n % 33 == 0 then Regular(n - 1) else Regular(n - 1) + {n - 1}
  }

  ghost function FirstN(n: nat): (s: set<nat>)
    ensures |s| == n && forall i :: i in s <==> 0 <= i < n
  {
    if n == 0 then {} else FirstN(n - 1) + {n - 1}
  }

  // Create an array of buckets, with graveyard tombstones at regular intervals
  // unless it is small.
  method BucketArrayCreate(size: nat) returns (buckets: array<Bucket>)
    ensures fresh(buckets) && buckets.Length == size && Blank(buckets[..])
    ensures forall i :: 0 <= i < size ==>
      buckets[i].key == if size >= MIN_HT_CAPACITY && i % 33 == 32 then KEY_DELETED else KEY_EMPTY
    ensures |Empties(buckets[..])| >= FreshEmpties(size)
  {
    buckets := new Bucket[size](_ => EMPTY_BUCKET);
    if size < MIN_HT_CAPACITY {
      assert Empties(buckets[..]) == FirstN(size);
      return;
    }
    var tombstoneIdx := 0;
    for i := 0 to size
      invariant tombstoneIdx == i % 33
      invariant forall j :: 0 <= j < size ==>
        buckets[j].key == if j < i && j % 33 == 32 then KEY_DELETED else KEY_EMPTY
    {
      NextIn33(i);
      if tombstoneIdx == 32 {
        buckets[i] := buckets[i].(key := KEY_DELETED);
        tombstoneIdx := tombstoneIdx - 32;
      } else {
        tombstoneIdx := tombstoneIdx + 1;
      }
    }
    RegularEmpties(buckets[..]);
  }

  lemma NextIn33(i: nat)
    ensures (i + 1) % 33 == if i % 33 == 32 then 0 else i % 33 + 1
  {
  }

  lemma RegularEmpties(bs: seq<Bucket>)
    requires forall j :: 0 <= j < |bs| ==> bs[j].key == if j % 33 == 32 then KEY_DELETED else KEY_EMPTY
    ensures |Empties(bs)| == FreshEmpties(|bs|)
  {
    assert Empties(bs) == Regular(|bs|);
  }

  // The slot a key hashes to; the capacity is a power of two.
  function GetTableEntry(hash: Key -> nat, capacity: nat, key: Key): (t: nat)
    requires capacity > 0
    ensures t < capacity
  {
    hash(key) % capacity
  }

  ghost predicate HashesOk(bs: seq<Bucket>, hash: Key -> nat) {
    forall i :: 0 <= i < |bs| && IsValid(bs[i].key) ==> bs[i].hash == GetTableEntry(hash, |bs|, bs[i].key)
  }

  // The buckets of a hash table hold the entries, and it was not overloaded
  // before its last insertion ...
  ghost predicate WellKept(bs: seq<Bucket>, hash: Key -> nat, contents: Contents, occupancy: int) {
    && HashesOk(bs, hash)
    && Holds(bs, contents)
    && occupancy == |contents|
    && !IsOverloaded(occupancy - 1, |bs|)
  }

  // ... and they are ordered by the slots the keys hash to.
  ghost predicate WellHashed(bs: seq<Bucket>, hash: Key -> nat, contents: Contents, occupancy: int) {
    Ordered(bs) && WellKept(bs, hash, contents, occupancy)
  }

  // A small table: the valid buckets come first and the rest are empty.
  ghost predicate WellPacked(bs: seq<Bucket>, contents: Contents, occupancy: int) {
    && Holds(bs, contents)
    && occupancy == |contents|
    && Packed(bs, occupancy)
  }

  ghost predicate Packed(bs: seq<Bucket>, occupancy: int) {
    && 0 <= occupancy <= |bs|
    && (forall i :: 0 <= i < occupancy ==> IsValid(bs[i].key))
    && (forall i :: occupancy <= i < |bs| ==> IsEmpty(bs[i].key))
  }

  // A new array of this capacity takes `occupancy` entries without becoming
  // overloaded or running out of empty slots on the way.
  predicate RoomFor(occupancy: int, capacity: nat) {
    if capacity < MIN_HT_CAPACITY then occupancy <= capacity
    else !IsOverloaded(occupancy, capacity) && occupancy <= FreshEmpties(capacity)
  }

  // Growing, rebuilding at the same size and shrinking all leave room; and
  // after growing or rebuilding at least one empty slot is left over.
  lemma GrowingLeavesRoom(occupancy: int, capacity: nat)
    requires GoodCapacity(capacity)
    requires if capacity < MIN_HT_CAPACITY then occupancy <= capacity else !IsOverloaded(occupancy - 1, capacity)
    ensures GoodCapacity(2 * capacity) && RoomFor(occupancy, 2 * capacity)
    ensures occupancy < FreshEmpties(2 * capacity)
  {
    CapacityForms(capacity);
    if capacity >= 16 {
      var q := capacity / 16;
      FifteenSixteenths(q);
      FifteenSixteenths(2 * q);
      FewTombstones(2 * q);
    }
  }

  lemma FifteenSixteenths(q: nat)
    ensures 15 * (16 * q) / 16 == 15 * q
  {
    assert 15 * (16 * q) == 16 * (15 * q);
  }

  // Less than a sixteenth of a new array are tombstones.
  lemma FewTombstones(q: nat)
    requires q >= 1
    ensures FreshEmpties(16 * q) > 15 * q
  {
  }

  lemma RebuildingLeavesRoom(occupancy: int, capacity: nat)
    requires GoodCapacity(capacity) && capacity >= MIN_HT_CAPACITY && !IsOverloaded(occupancy, capacity)
    ensures RoomFor(occupancy, capacity) && occupancy < FreshEmpties(capacity)
  {
    CapacityForms(capacity);
    if capacity >= 16 {
      FifteenSixteenths(capacity / 16);
      FewTombstones(capacity / 16);
    }
  }

  lemma ShrinkingLeavesRoom(occupancy: int, capacity: nat)
    requires GoodCapacity(capacity) && IsUnderloaded(occupancy, capacity)
    ensures GoodCapacity(capacity / 2) && RoomFor(occupancy, capacity / 2)
  {
    CapacityForms(capacity);
  }

  // Empty slots are used up by insertions only, and the count of insertions
  // and removals since the last rebuild bounds how many are gone.
  predicate Slack(empties: nat, occupancy: int, insRmCount: int, capacity: nat) {
    capacity >= MIN_HT_CAPACITY ==>
      2 * (FreshEmpties(capacity) - empties) <= occupancy + insRmCount + 15 * capacity / 16
  }

  lemma {:induction false} LargeCapacities(c: nat)
    requires GoodCapacity(c)
    ensures c == 4 || c == 8 || c == 16 || c == 32 || c == 64 || (c >= 128 && c % 128 == 0)
  {
    if c != MIN_CAPACITY {
      var d := c / 2;
      LargeCapacities(d);
      if d >= 128 {
        assert c == 128 * (2 * (d / 128));
      }
    }
  }

  // A large table that is not rebuilt by an insertion has an empty slot for it.
  lemma LargeTablesKeepAnEmptySlot(empties: nat, occupancy: int, insRmCount: int, capacity: nat)
    requires GoodCapacity(capacity) && capacity >= 128
    requires Slack(empties, occupancy, insRmCount, capacity)
    requires !IsOverloaded(occupancy, capacity) && !TimeToRebuild(insRmCount, capacity)
    ensures empties > 0
  {
    LargeCapacities(capacity);
  }

  // The probe's test is whether the entry lets the probe pass.
  lemma ContinuesOnPath(bs: seq<Bucket>, hash: Key -> nat, t: nat, i: nat)
    requires HashesOk(bs, hash) && i < |bs| && t < |bs| <= TWO32 && IsValid(bs[i].key)
    ensures ContinueProbe(t, bs[i].hash, i) <==> OnPath(bs, t, i)
    ensures !ContinueProbe(t, bs[i].hash, i) <==> Stops(bs, t, i)
  {
    ContinueProbeComparesDisplacements(|bs|, t, bs[i].hash, i);
  }

  lemma EndsAbsent(bs: seq<Bucket>, hash: Key -> nat, contents: Contents, occupancy: int, k: Key, s: nat)
    requires WellHashed(bs, hash, contents, occupancy) && s < |bs| && IsValid(k)
    requires EndsAt(bs, k, GetTableEntry(hash, |bs|, k), s)
    ensures k !in contents
  {
    EndsMisses(bs, k, GetTableEntry(hash, |bs|, k), s);
  }

  // A table that is not overloaded has a slot without a key.
  lemma {:induction false} KeysOfFull(bs: seq<Bucket>, n: nat, contents: Contents) returns (keys: set<Key>)
    requires n <= |bs| && Holds(bs, contents) && forall i :: 0 <= i < n ==> IsValid(bs[i].key)
    ensures |keys| == n && keys <= contents.Keys
    ensures forall k :: k in keys ==> exists i :: 0 <= i < n && bs[i].key == k
  {
    if n == 0 {
      keys := {};
    } else {
      var below := KeysOfFull(bs, n - 1, contents);
      assert bs[n - 1].key !in below;
      keys := below + {bs[n - 1].key};
    }
  }

  lemma SomeSlotIsFree(bs: seq<Bucket>, contents: Contents) returns (z: nat)
    requires Holds(bs, contents) && |contents| < |bs|
    ensures z < |bs| && !IsValid(bs[z].key)
  {
    if forall i :: 0 <= i < |bs| ==> IsValid(bs[i].key) {
      var keys := KeysOfFull(bs, |bs|, contents);
      SubsetSize(keys, contents.Keys);
    }
    z :| z < |bs| && !IsValid(bs[z].key);
  }

  // An insertion of a new key, with the slot its probe ends at and the slot that
  // had no key before.
  ghost predicate HasEntered(bs: seq<Bucket>, fin: seq<Bucket>, b: Bucket, s: nat, e: nat) {
    Enters(bs, fin, s, e, b) && EndsAt(bs, b.key, b.hash, s)
  }

  lemma InsertingKeepsTable(bs: seq<Bucket>, hash: Key -> nat, contents: Contents, occupancy: int,
                            fin: seq<Bucket>, s: nat, e: nat, b: Bucket)
    requires WellHashed(bs, hash, contents, occupancy) && !IsOverloaded(occupancy, |bs|)
    requires Enters(bs, fin, s, e, b) && b.key !in contents && b.hash == GetTableEntry(hash, |bs|, b.key)
    ensures WellKept(fin, hash, contents[b.key := b.value], occupancy + 1)
    ensures |Empties(fin)| >= |Empties(bs)| - 1
  {
    ShiftingKeepsHashes(bs, fin, hash, s, e, b);
    ShiftingHolds(bs, fin, contents, s, e, b);
    ShiftingKeepsEmpties(bs, fin, s, e, b);
  }

  // A key that enters was not there.
  lemma EnteringKeepsTable(bs: seq<Bucket>, hash: Key -> nat, contents: Contents, occupancy: int,
                           fin: seq<Bucket>, s: nat, e: nat, b: Bucket)
    requires WellHashed(bs, hash, contents, occupancy) && !IsOverloaded(occupancy, |bs|)
    requires HasEntered(bs, fin, b, s, e) && b.hash == GetTableEntry(hash, |bs|, b.key)
    ensures b.key !in contents && WellKept(fin, hash, contents[b.key := b.value], occupancy + 1)
    ensures |Empties(fin)| >= |Empties(bs)| - 1
  {
    EndsAbsent(bs, hash, contents, occupancy, b.key, s);
    InsertingKeepsTable(bs, hash, contents, occupancy, fin, s, e, b);
  }

  lemma EmptySlotKeepsOrder(bs: seq<Bucket>, fin: seq<Bucket>, b: Bucket, s: nat, e: nat)
    requires HasEntered(bs, fin, b, s, e) && |Empties(bs)| > 0
    ensures Ordered(fin)
  {
    var z :| z in Empties(bs);
    EndIsOutranked(bs, b.key, b.hash, s, z);
    AnEmptySlotIsEnough(bs, fin, s, e, z, b);
  }

  lemma OverwritingKeepsOrder(bs: seq<Bucket>, i: nat, b: Bucket)
    requires Ordered(bs) && i < |bs| && IsValid(b.key) && bs[i].key == b.key && bs[i].hash == b.hash
    ensures Ordered(bs[i := b])
  {
    var fin := bs[i := b];
    forall m, j | 0 <= m < |fin| && 0 <= j < |fin|
      ensures Passable(fin, m, j)
    {
      assert Passable(bs, m, j);
    }
  }

  lemma OverwritingKeepsTable(bs: seq<Bucket>, hash: Key -> nat, contents: Contents, occupancy: int, i: nat, b: Bucket)
    requires WellHashed(bs, hash, contents, occupancy)
    requires i < |bs| && IsValid(b.key) && bs[i].key == b.key && bs[i].hash == b.hash
    ensures WellHashed(bs[i := b], hash, contents[b.key := b.value], occupancy)
    ensures b.key in contents && Empties(bs[i := b]) == Empties(bs)
  {
    OverwritingKeepsOrder(bs, i, b);
    OverwritingHolds(bs, contents, i, b);
    assert contents[b.key := b.value].Keys == contents.Keys;
  }

  lemma ShiftingKeepsHashes(bs: seq<Bucket>, fin: seq<Bucket>, hash: Key -> nat, s: nat, e: nat, b: Bucket)
    requires s < |bs| && e < |bs| && Shifted(bs, fin, s, e, b) && HashesOk(bs, hash)
    requires b.hash == GetTableEntry(hash, |bs|, b.key)
    ensures HashesOk(fin, hash)
  {
  }

  lemma ShiftingKeepsEmpties(bs: seq<Bucket>, fin: seq<Bucket>, s: nat, e: nat, b: Bucket)
    requires s < |bs| && e < |bs| && Shifted(bs, fin, s, e, b)
    ensures |Empties(fin)| >= |Empties(bs)| - 1
  {
    EmptiesAfter(bs, fin, e);
  }

  lemma AppendingKeepsPacked(bs: seq<Bucket>, contents: Contents, occupancy: nat, b: Bucket)
    requires WellPacked(bs, contents, occupancy) && occupancy < |bs| && IsValid(b.key)
    requires forall j :: 0 <= j < occupancy ==> bs[j].key != b.key
    ensures WellPacked(bs[occupancy := b], contents[b.key := b.value], occupancy + 1)
  {
    assert !HasKey(bs, b.key);
    PlacingHolds(bs, contents, occupancy, b);
  }

  lemma OverwritingKeepsPacked(bs: seq<Bucket>, contents: Contents, occupancy: int, i: nat, b: Bucket)
    requires WellPacked(bs, contents, occupancy) && i < occupancy && IsValid(b.key) && bs[i].key == b.key
    ensures WellPacked(bs[i := b], contents[b.key := b.value], occupancy)
  {
    OverwritingHolds(bs, contents, i, b);
    assert contents[b.key := b.value].Keys == contents.Keys;
  }

  // Taking an entry out of its slot takes its key out of the map.
  lemma TakingOutHolds(bs: seq<Bucket>, contents: Contents, i: nat, b: Bucket)
    requires Holds(bs, contents) && i < |bs| && IsValid(bs[i].key) && !IsValid(b.key)
    ensures Holds(bs[i := b], contents - {bs[i].key}) && |contents - {bs[i].key}| == |contents| - 1
  {
    var k0, fin := bs[i].key, bs[i := b];
    forall k | k in contents - {k0}
      ensures HasKey(fin, k)
    {
      var j :| 0 <= j < |bs| && bs[j].key == k;
      assert fin[j].key == k;
    }
    assert (contents - {k0}).Keys == contents.Keys - {k0};
  }

  lemma SwappingHolds(bs: seq<Bucket>, contents: Contents, i: nat, j: nat)
    requires Holds(bs, contents) && i < |bs| && j < |bs|
    ensures Holds(bs[i := bs[j]][j := bs[i]], contents)
  {
    var fin := bs[i := bs[j]][j := bs[i]];
    forall k | k in contents
      ensures HasKey(fin, k)
    {
      var m :| 0 <= m < |bs| && bs[m].key == k;
      assert fin[if m == i then j else if m == j then i else m].key == k;
    }
  }

  lemma FillingTheGapHolds(bs: seq<Bucket>, fin: seq<Bucket>, contents: Contents, i: nat, last: nat, b: Bucket)
    requires Holds(bs, contents) && i < |bs| && last < |bs| && IsValid(bs[i].key) && !IsValid(b.key)
    requires fin == bs[i := bs[last]][last := b]
    ensures Holds(fin, contents - {bs[i].key}) && |contents - {bs[i].key}| == |contents| - 1
  {
    SwappingHolds(bs, contents, i, last);
    var swapped := bs[i := bs[last]][last := bs[i]];
    TakingOutHolds(swapped, contents, last, b);
    assert swapped[last := b] == fin;
  }

  // What removing an entry from a small table does to the array: the last
  // entry fills the gap.
  predicate Filled(bs: seq<Bucket>, fin: seq<Bucket>, i: nat, last: nat) {
    && |fin| == |bs| && i < |bs| && last < |bs|
    && fin == bs[i := bs[last]][last := bs[last].(key := KEY_EMPTY)]
  }

  // A key that is in no bucket is not in the table.
  lemma PackedMisses(bs: seq<Bucket>, contents: Contents, occupancy: int, key: Key)
    requires WellPacked(bs, contents, occupancy) && IsValid(key)
    requires forall j :: 0 <= j < occupancy && j < |bs| ==> bs[j].key != key
    ensures key !in contents && contents - {key} == contents
  {
    assert !HasKey(bs, key);
  }

  // The bucket of the key has been replaced.
  ghost predicate Overwritten(bs: seq<Bucket>, fin: seq<Bucket>, b: Bucket) {
    exists i :: 0 <= i < |bs| && bs[i].key == b.key && fin == bs[i := b]
  }

  // The last entry is where the key was.
  ghost predicate LastFillsGap(bs: seq<Bucket>, fin: seq<Bucket>, key: Key, last: int) {
    0 <= last < |bs| && exists i :: 0 <= i <= last && bs[i].key == key && Filled(bs, fin, i, last)
  }

  lemma FillingKeepsPacked(bs: seq<Bucket>, fin: seq<Bucket>, occupancy: int, i: nat)
    requires Packed(bs, occupancy) && i < occupancy && Filled(bs, fin, i, occupancy - 1)
    ensures Packed(fin, occupancy - 1)
  {
  }

  lemma RemovingKeepsPacked(bs: seq<Bucket>, fin: seq<Bucket>, contents: Contents, occupancy: int, i: nat)
    requires WellPacked(bs, contents, occupancy) && i < occupancy && Filled(bs, fin, i, occupancy - 1)
    ensures WellPacked(fin, contents - {bs[i].key}, occupancy - 1)
  {
    FillingTheGapHolds(bs, fin, contents, i, occupancy - 1, bs[occupancy - 1].(key := KEY_EMPTY));
    FillingKeepsPacked(bs, fin, occupancy, i);
  }

  lemma BuryingKeepsOrder(bs: seq<Bucket>, i: nat, b: Bucket)
    requires Ordered(bs) && i < |bs| && IsTombstone(b.key)
    ensures Ordered(bs[i := b])
  {
    var fin := bs[i := b];
    forall m, j | 0 <= m < |fin| && 0 <= j < |fin|
      ensures Passable(fin, m, j)
    {
      assert Passable(bs, m, j);
    }
  }

  // A tombstone has taken the place of the entry with the key.
  ghost predicate Buried(bs: seq<Bucket>, fin: seq<Bucket>, key: Key) {
    exists i: nat :: i < |bs| && bs[i].key == key && fin == bs[i := bs[i].(key := KEY_DELETED)]
  }

  // A removal that leaves these numbers is followed by a rebuild.
  predicate TidyDue(occupancy: int, insRmCount: int, capacity: nat) {
    IsUnderloaded(occupancy, capacity) || TimeToRebuild(insRmCount, capacity)
  }

  lemma BuryingKeepsHashes(bs: seq<Bucket>, hash: Key -> nat, i: nat, b: Bucket)
    requires HashesOk(bs, hash) && i < |bs| && IsTombstone(b.key)
    ensures HashesOk(bs[i := b], hash)
  {
  }

  lemma BuryingKeepsTable(bs: seq<Bucket>, hash: Key -> nat, contents: Contents, occupancy: int, i: nat, b: Bucket)
    requires WellHashed(bs, hash, contents, occupancy) && i < |bs| && IsValid(bs[i].key) && IsTombstone(b.key)
    ensures WellHashed(bs[i := b], hash, contents - {bs[i].key}, occupancy - 1)
    ensures Empties(bs[i := b]) == Empties(bs)
  {
    BuryingKeepsEntries(bs, contents, i, b);
    BuryingKeepsOrder(bs, i, b);
    BuryingKeepsHashes(bs, hash, i, b);
  }

  lemma BuryingKeepsEntries(bs: seq<Bucket>, contents: Contents, i: nat, b: Bucket)
    requires Holds(bs, contents) && i < |bs| && IsValid(bs[i].key) && IsTombstone(b.key)
    ensures Holds(bs[i := b], contents - {bs[i].key}) && |contents - {bs[i].key}| == |contents| - 1
    ensures Empties(bs[i := b]) == Empties(bs)
  {
    TakingOutHolds(bs, contents, i, b);
  }

  lemma BlankTable(bs: seq<Bucket>, hash: Key -> nat)
    requires Blank(bs) && |bs| > 0
    ensures Ordered(bs) && HashesOk(bs, hash) && Holds(bs, map[])
  {
  }

  // The entries of the first `n` buckets have been moved.
  ghost predicate Moved(bs: seq<Bucket>, n: nat, all: Contents, moved: Contents)
    requires n <= |bs|
  {
    && Holds(bs, all)
    && (forall k :: k in moved <==> IsValid(k) && HasKey(bs[..n], k))
    && (forall k :: k in moved ==> k in all && moved[k] == all[k])
  }

  lemma KeysOfLonger(bs: seq<Bucket>, n: nat, k: Key)
    requires n < |bs|
    ensures HasKey(bs[..n + 1], k) <==> HasKey(bs[..n], k) || k == bs[n].key
  {
    assert bs[..n + 1] == bs[..n] + [bs[n]];
    if HasKey(bs[..n], k) {
      var i :| 0 <= i < n && bs[..n][i].key == k;
      assert bs[..n + 1][i].key == k;
    }
    if k == bs[n].key {
      assert bs[..n + 1][n].key == k;
    }
  }

  lemma GrowsBelow(all: Contents, moved: Contents, k: Key, v: Reducer)
    requires k in all && k !in moved && forall x :: x in moved ==> x in all
    ensures |moved| < |all| && |moved[k := v]| == |moved| + 1
  {
    assert moved.Keys <= all.Keys - {k};
    SubsetSize(moved.Keys, all.Keys - {k});
    assert moved[k := v].Keys == moved.Keys + {k};
  }

  lemma MovingOne(bs: seq<Bucket>, n: nat, all: Contents, moved: Contents)
    requires n < |bs| && Moved(bs, n, all, moved) && IsValid(bs[n].key)
    ensures Moved(bs, n + 1, all, moved[bs[n].key := bs[n].value])
    ensures |moved| < |all|
    ensures |moved[bs[n].key := bs[n].value]| == |moved| + 1
  {
    var k0 := bs[n].key;
    forall k
      ensures HasKey(bs[..n + 1], k) <==> HasKey(bs[..n], k) || k == k0
    {
      KeysOfLonger(bs, n, k);
    }
    GrowsBelow(all, moved, k0, bs[n].value);
  }

  lemma MovingNone(bs: seq<Bucket>, n: nat, all: Contents, moved: Contents)
    requires n < |bs| && Moved(bs, n, all, moved) && !IsValid(bs[n].key)
    ensures Moved(bs, n + 1, all, moved)
  {
    forall k
      ensures HasKey(bs[..n + 1], k) <==> HasKey(bs[..n], k) || k == bs[n].key
    {
      KeysOfLonger(bs, n, k);
    }
  }

  lemma MovedAll(bs: seq<Bucket>, all: Contents, moved: Contents)
    requires Moved(bs, |bs|, all, moved)
    ensures moved == all
  {
    assert bs[..|bs|] == bs;
  }

  class Table {
    const hash: Key -> nat
    var capacity: nat
    var occupancy: int
    var insRmCount: int
    var buckets: array<Bucket>
    ghost var contents: Contents

    // The buckets hold the entries of the map.
    ghost predicate Kept()
      reads this, buckets
    {
      && GoodCapacity(capacity) && buckets.Length == capacity
      && Slack(|Empties(buckets[..])|, occupancy, insRmCount, capacity)
      && if capacity < MIN_HT_CAPACITY then WellPacked(buckets[..], contents, occupancy)
         else WellKept(buckets[..], hash, contents, occupancy)
    }

    // The buckets are in order for the mode the capacity selects.
    ghost predicate InOrder()
      reads this, buckets
    {
      && buckets.Length == capacity
      && if capacity < MIN_HT_CAPACITY then WellPacked(buckets[..], contents, occupancy)
         else WellHashed(buckets[..], hash, contents, occupancy)
    }

    ghost predicate Valid()
      reads this, buckets
    {
      GoodCapacity(capacity) && InOrder() && Slack(|Empties(buckets[..])|, occupancy, insRmCount, capacity)
    }

    constructor (hash: Key -> nat)
      ensures Valid() && fresh(buckets)
      ensures contents == map[] && capacity == MIN_CAPACITY && insRmCount == 0 && this.hash == hash
    {
      this.hash := hash;
      capacity, occupancy, insRmCount := MIN_CAPACITY, 0, 0;
      contents := map[];
      var b := BucketArrayCreate(MIN_CAPACITY);
      buckets := b;
    }

    // Scan the array backwards.
    method FindLinear(key: Key) returns (r: int)
      requires InOrder() && capacity < MIN_HT_CAPACITY && IsValid(key)
      ensures r == -1 || 0 <= r < buckets.Length
      ensures r >= 0 <==> key in contents
      ensures r >= 0 ==> buckets[r].key == key && buckets[r].value == contents[key]
    {
      var i := occupancy - 1;
      while i >= 0
        invariant -1 <= i < occupancy
        invariant forall j :: i < j < occupancy ==> buckets[j].key != key
      {
        if buckets[i].key == key {
          return i;
        }
        i := i - 1;
      }
      assert !HasKey(buckets[..], key);
      return -1;
    }

    // Probe from the slot the key hashes to.
    method FindHash(key: Key) returns (r: int)
      requires InOrder() && MIN_HT_CAPACITY <= capacity <= TWO32 && IsValid(key)
      ensures r == -1 || 0 <= r < buckets.Length
      ensures r >= 0 <==> key in contents
      ensures r >= 0 ==> buckets[r].key == key && buckets[r].value == contents[key]
    {
      ghost var bs := buckets[..];
      var tgt := GetTableEntry(hash, capacity, key);
      var i: nat := tgt;
      ghost var d: nat := 0;
      while true
        invariant i < capacity && d == Disp(capacity, i, tgt)
        invariant ProbedFor(bs, key, tgt, i)
        decreases capacity - d
      {
        var currKey := buckets[i].key;
        if key == currKey {
          return i;
        }
        if IsEmpty(currKey) {
          StoppedProbeMisses(bs, key, tgt, i);
          return -1;
        }
        if !IsTombstone(currKey) {
          ContinueProbeComparesDisplacements(capacity, tgt, buckets[i].hash, i);
          if !ContinueProbe(tgt, buckets[i].hash, i) {
            StoppedProbeMisses(bs, key, tgt, i);
            return -1;
          }
        }
        IncAdvances(capacity, i, tgt);
        i := IncIndex(i, capacity);
        if i == tgt {
          assert !HasKey(bs, key);
          return -1;
        }
        d := d + 1;
      }
    }

    // Find returns a bucket exactly when the table has the key.
    method Find(key: Key) returns (r: int)
      requires Valid() && capacity <= TWO32 && IsValid(key)
      ensures r == -1 || 0 <= r < buckets.Length
      ensures r >= 0 <==> key in contents
      ensures r >= 0 ==> buckets[r].key == key && buckets[r].value == contents[key]
    {
      if capacity < MIN_HT_CAPACITY {
        r := FindLinear(key);
      } else {
        r := FindHash(key);
      }
    }

    // What an insertion into the hash table keeps and changes.
    twostate predicate Inserted(b: Bucket)
      reads this, buckets
    {
      && buckets == old(buckets) && capacity == old(capacity) == buckets.Length
      && WellKept(buckets[..], hash, contents, occupancy)
      && contents == old(contents)[b.key := b.value]
      && (b.key in old(contents) ==>
            && occupancy == old(occupancy) && insRmCount == old(insRmCount)
            && Empties(buckets[..]) == Empties(old(buckets[..])))
      && (b.key !in old(contents) ==>
            && occupancy == old(occupancy) + 1 && insRmCount == old(insRmCount) + 1
            && |Empties(buckets[..])| >= |Empties(old(buckets[..]))| - 1)
    }

    // Put `b0` into slot `insertTgt` and move the entries from there up by one,
    // until one of them lands in a slot that holds no key.
    method ShiftUp(insertTgt: nat, b0: Bucket, ghost z: nat) returns (ghost e: nat)
      requires insertTgt < buckets.Length && z < buckets.Length && !IsValid(buckets[z].key)
      modifies buckets
      ensures e < buckets.Length && !IsValid(old(buckets[..])[e].key)
      ensures Shifted(old(buckets[..]), buckets[..], insertTgt, e, b0)
    {
      ghost var bs := buckets[..];
      ghost var c := buckets.Length;
      var b := b0;
      var i: nat := insertTgt;
      while true
        invariant i < c && Disp(c, i, insertTgt) <= Disp(c, z, insertTgt)
        invariant forall j :: 0 <= j < c && Disp(c, j, insertTgt) < Disp(c, i, insertTgt) ==>
          IsValid(bs[j].key) && buckets[j] == if j == insertTgt then b0 else bs[DecIndex(j, c)]
        invariant forall j :: 0 <= j < c && Disp(c, j, insertTgt) >= Disp(c, i, insertTgt) ==> buckets[j] == bs[j]
        invariant b == if i == insertTgt then b0 else bs[DecIndex(i, c)]
        decreases c - Disp(c, i, insertTgt)
      {
        if !IsValid(buckets[i].key) {
          buckets[i] := b;
          e := i;
          return;
        }
        var tmp := buckets[i];
        buckets[i] := b;
        b := tmp;
        IncAdvances(c, i, insertTgt);
        i := IncIndex(i, buckets.Length);
      }
    }

    // Put a new entry into the slot its probe ends at, and make room for it.
    method Place(s: nat, b: Bucket) returns (ghost e: nat)
      requires InOrder() && capacity >= MIN_HT_CAPACITY && !IsOverloaded(occupancy, capacity)
      requires IsValid(b.key) && b.hash == GetTableEntry(hash, capacity, b.key)
      requires s < buckets.Length && EndsAt(buckets[..], b.key, b.hash, s)
      modifies buckets
      ensures b.key !in contents && HasEntered(old(buckets[..]), buckets[..], b, s, e)
      ensures WellKept(buckets[..], hash, contents[b.key := b.value], occupancy + 1)
      ensures |Empties(buckets[..])| >= |Empties(old(buckets[..]))| - 1
    {
      ghost var bs := buckets[..];
      ghost var z := SomeSlotIsFree(bs, contents);
      e := ShiftUp(s, b, z);
      EnteringKeepsTable(bs, hash, contents, occupancy, buckets[..], s, e, b);
    }

    // Insert a new entry at the slot its probe ends at, and count it.
    method Enter(s: nat, b: Bucket) returns (ghost e: nat)
      requires InOrder() && capacity >= MIN_HT_CAPACITY && !IsOverloaded(occupancy, capacity)
      requires IsValid(b.key) && b.hash == GetTableEntry(hash, capacity, b.key)
      requires s < buckets.Length && EndsAt(buckets[..], b.key, b.hash, s)
      modifies this`occupancy, this`insRmCount, this`contents, buckets
      ensures b.key !in old(contents) && Inserted(b) && HasEntered(old(buckets[..]), buckets[..], b, s, e)
    {
      e := Place(s, b);
      CountInsertion(b);
    }

    // Count an insertion that has been made in the buckets.
    method CountInsertion(b: Bucket)
      requires capacity == buckets.Length > 0 && WellKept(buckets[..], hash, contents[b.key := b.value], occupancy + 1)
      modifies this`occupancy, this`insRmCount, this`contents
      ensures contents == old(contents)[b.key := b.value]
      ensures occupancy == old(occupancy) + 1 && insRmCount == old(insRmCount) + 1
      ensures WellKept(buckets[..], hash, contents, occupancy)
    {
      occupancy := occupancy + 1;
      insRmCount := insRmCount + 1;
      contents := contents[b.key := b.value];
    }

    // Skip the tombstones from slot `i` on; `d` is how far that is from `t`.
    method SkipTombstones(i: nat, t: nat) returns (n: nat, ghost d: nat)
      requires i < buckets.Length && t < buckets.Length && IsTombstone(buckets[i].key)
      ensures n < buckets.Length && Disp(buckets.Length, i, t) < d && TombRun(buckets[..], t, i, d)
      ensures if n == t then d == buckets.Length
              else d == Disp(buckets.Length, n, t) && !IsTombstone(buckets[n].key)
    {
      IncAdvances(buckets.Length, i, t);
      n, d := IncIndex(i, buckets.Length), Disp(buckets.Length, i, t) + 1;
      while n != t && IsTombstone(buckets[n].key)
        invariant n < buckets.Length && Disp(buckets.Length, i, t) < d && TombRun(buckets[..], t, i, d)
        invariant d == if n == t then buckets.Length else Disp(buckets.Length, n, t)
        decreases buckets.Length - d
      {
        IncAdvances(buckets.Length, n, t);
        n, d := IncIndex(n, buckets.Length), d + 1;
      }
    }

    // The probe has come to slot `i`: past an entry, or past tombstones to an
    // entry that lets it pass.
    ghost predicate Probing(k: Key, t: nat, i: nat)
      requires t < buckets.Length
      reads this, buckets
    {
      && i < buckets.Length && ProbedFor(buckets[..], k, t, i)
      && (i != t ==> IsValid(buckets[DecIndex(i, buckets.Length)].key)
                     || (IsValid(buckets[i].key) && OnPath(buckets[..], t, i)))
    }

    // Past a tombstone: the probe ends at it when it would stop after the run of
    // tombstones, and goes on to the entry there otherwise.
    method PassTombstones(k: Key, t: nat, i: nat) returns (ends: bool, n: nat)
      requires MIN_HT_CAPACITY <= capacity <= TWO32 && buckets.Length == capacity && HashesOk(buckets[..], hash)
      requires t < capacity && Probing(k, t, i) && IsTombstone(buckets[i].key) && IsValid(k)
      ensures ends ==> EndsAt(buckets[..], k, t, i)
      ensures !ends ==> n < capacity && Probing(k, t, n) && Disp(capacity, n, t) > Disp(capacity, i, t)
    {
      ghost var bs, d := buckets[..], 0;
      n, d := SkipTombstones(i, t);
      if n != t {
        ProbePassesTombstones(bs, k, t, i, n);
        if IsValid(bs[n].key) {
          ContinuesOnPath(bs, hash, t, n);
        }
      }
      ends := IsEmpty(buckets[n].key) || n == t || !ContinueProbe(t, buckets[n].hash, n);
      if ends {
        assert RunEnds(bs, t, i, d);
      }
    }

    // Probe for the place of an entry: the bucket with its key, or the slot where
    // a new one goes.
    method ProbeForInsert(k: Key) returns (found: bool, s: nat)
      requires MIN_HT_CAPACITY <= capacity <= TWO32 && buckets.Length == capacity && HashesOk(buckets[..], hash)
      requires IsValid(k)
      ensures s < capacity && (found ==> buckets[s].key == k)
      ensures !found ==> EndsAt(buckets[..], k, GetTableEntry(hash, capacity, k), s)
    {
      ghost var bs := buckets[..];
      var tgt := GetTableEntry(hash, capacity, k);
      s := tgt;
      while true
        invariant s < capacity && Probing(k, tgt, s)
        decreases capacity - Disp(capacity, s, tgt)
      {
        // Found the key.
        if k == buckets[s].key {
          return true, s;
        }
        // Found an empty entry.
        if IsEmpty(buckets[s].key) {
          return false, s;
        }
        if IsTombstone(buckets[s].key) {
          var ends, n := PassTombstones(k, tgt, s);
          if ends {
            // The probe would stop after the tombstones: reuse the first.
            return false, s;
          }
          s := n;
        } else {
          ContinuesOnPath(bs, hash, tgt, s);
          if !ContinueProbe(tgt, buckets[s].hash, s) {
            // This entry would stop the probe: the bucket goes before it.
            return false, s;
          }
          ProbePassesEntry(bs, k, tgt, s);
          s := IncIndex(s, capacity);
          if s == tgt {
            // The probe has gone round.
            return false, s;
          }
        }
      }
    }

    // Overwrite the bucket with the key of `b0`, reuse an empty slot or a
    // tombstone, or shift entries to make room.
    method InsertHash(b0: Bucket) returns (ghost s: nat, ghost e: nat)
      requires InOrder() && MIN_HT_CAPACITY <= capacity <= TWO32 && !IsOverloaded(occupancy, capacity)
      requires IsValid(b0.key)
      modifies this`occupancy, this`insRmCount, this`contents, buckets
      ensures Inserted(b0)
      ensures b0.key in old(contents) ==> InOrder()
      ensures b0.key !in old(contents) ==>
        HasEntered(old(buckets[..]), buckets[..], b0.(hash := GetTableEntry(hash, capacity, b0.key)), s, e)
    {
      var b := b0.(hash := GetTableEntry(hash, capacity, b0.key));
      var found, i := ProbeForInsert(b.key);
      s, e := i, i;
      if found {
        Overwrite(i, b);
      } else {
        e := Enter(i, b);
      }
    }

    method Overwrite(i: nat, b: Bucket)
      requires InOrder() && capacity >= MIN_HT_CAPACITY && i < buckets.Length
      requires IsValid(b.key) && buckets[i].key == b.key && b.hash == GetTableEntry(hash, capacity, b.key)
      modifies this`contents, buckets
      ensures b.key in old(contents) && Inserted(b) && InOrder()
    {
      OverwritingKeepsTable(buckets[..], hash, contents, occupancy, i, b);
      ghost var bs := buckets[..];
      buckets[i] := buckets[i].(value := b.value);
      assert buckets[..] == bs[i := b];
      contents := contents[b.key := b.value];
    }

    // The next insertion will move the entries to a new array first.
    predicate WouldRebuild()
      reads this
    {
      if capacity < MIN_HT_CAPACITY then occupancy >= capacity
      else IsOverloaded(occupancy, capacity) || TimeToRebuild(insRmCount, capacity)
    }

    method OverwriteLinear(i: nat, b: Bucket)
      requires InOrder() && capacity < MIN_HT_CAPACITY && i < occupancy
      requires IsValid(b.key) && buckets[i].key == b.key
      modifies this`contents, buckets
      ensures InOrder() && contents == old(contents)[b.key := b.value]
      ensures buckets[..] == old(buckets[..])[i := b] && b.key in old(contents)
    {
      OverwritingKeepsPacked(buckets[..], contents, occupancy, i, b);
      ghost var bs := buckets[..];
      buckets[i] := b;
      assert buckets[..] == bs[i := b];
      contents := contents[b.key := b.value];
    }

    method AppendLinear(b: Bucket)
      requires InOrder() && capacity < MIN_HT_CAPACITY && occupancy < capacity
      requires IsValid(b.key) && forall j :: 0 <= j < occupancy ==> buckets[j].key != b.key
      modifies this`occupancy, this`contents, buckets
      ensures InOrder() && contents == old(contents)[b.key := b.value]
      ensures buckets[..] == old(buckets[..])[old(occupancy) := b]
    {
      AppendingKeepsPacked(buckets[..], contents, occupancy, b);
      ghost var bs := buckets[..];
      buckets[occupancy] := b;
      assert buckets[..] == bs[occupancy := b];
      occupancy := occupancy + 1;
      contents := contents[b.key := b.value];
    }

    // Insert into a small table that is not full: overwrite or append.
    method InsertLinear(b: Bucket)
      requires InOrder() && capacity < MIN_HT_CAPACITY && occupancy < capacity && IsValid(b.key)
      modifies this`occupancy, this`contents, buckets
      ensures InOrder() && contents == old(contents)[b.key := b.value]
      ensures b.key !in old(contents) ==> buckets[..] == old(buckets[..])[old(occupancy) := b]
      ensures b.key in old(contents) ==> Overwritten(old(buckets[..]), buckets[..], b)
    {
      var i := 0;
      while i < occupancy && buckets[i].key != b.key
        invariant 0 <= i <= occupancy && forall j :: 0 <= j < i ==> buckets[j].key != b.key
      {
        i := i + 1;
      }
      if i < occupancy {
        OverwriteLinear(i, b);
      } else {
        PackedMisses(buckets[..], contents, occupancy, b.key);
        AppendLinear(b);
      }
    }

    // The capacity of that array.
    function NextCapacity(): nat
      reads this
    {
      if capacity < MIN_HT_CAPACITY || IsOverloaded(occupancy, capacity) then 2 * capacity else capacity
    }

    // An insertion finds an empty slot, or moves the entries to a new array
    // first.  Small tables and large tables always do.
    ghost predicate HasRoom()
      reads this, buckets
    {
      capacity < MIN_HT_CAPACITY || capacity >= 128 || WouldRebuild() || |Empties(buckets[..])| > 0
    }

    // No removal since the last rebuild has left a tombstone where an empty
    // slot was.
    ghost predicate Uncluttered()
      reads this, buckets
    {
      |Empties(buckets[..])| + occupancy >= FreshEmpties(capacity)
    }

    // Insertions keep such a table ready for insertions.
    ghost predicate Roomy()
      reads this, buckets
    {
      capacity < MIN_HT_CAPACITY || capacity >= 128 || Uncluttered()
    }

    lemma RoomyHasRoom()
      requires Valid() && Roomy()
      ensures HasRoom()
    {
      if capacity >= MIN_HT_CAPACITY && !WouldRebuild() {
        RebuildingLeavesRoom(occupancy, capacity);
      }
    }

    // Convert a small table that is full to a hash table; rebuild a hash table
    // that is overloaded, or after enough insertions and removals.
    method MakeRoom()
      requires Valid() && (capacity < MIN_HT_CAPACITY ==> occupancy >= capacity)
      requires capacity <= 2 * MAX_CAPACITY && (IsOverloaded(occupancy, capacity) ==> capacity <= MAX_CAPACITY)
      modifies this
      ensures Valid() && contents == old(contents) && (buckets == old(buckets) || fresh(buckets))
      ensures MIN_HT_CAPACITY <= capacity <= 2 * MAX_CAPACITY && !IsOverloaded(occupancy, capacity)
      ensures old(HasRoom()) ==> |Empties(buckets[..])| > 0
      ensures old(WouldRebuild()) ==> Uncluttered() && insRmCount == 0
      ensures old(WouldRebuild()) ==>
        capacity == old(NextCapacity())
      ensures !old(WouldRebuild()) ==> unchanged(this)
      decreases if WouldRebuild() then 2 else 0, 0
    {
      if capacity < MIN_HT_CAPACITY {
        GrowingLeavesRoom(occupancy, capacity);
        CapacityForms(capacity);
        Rebuild(2 * capacity);
      } else if IsOverloaded(occupancy, capacity) {
        GrowingLeavesRoom(occupancy, capacity);
        Rebuild(2 * capacity);
      } else if TimeToRebuild(insRmCount, capacity) {
        RebuildingLeavesRoom(occupancy, capacity);
        Rebuild(capacity);
      } else if capacity >= 128 {
        LargeTablesKeepAnEmptySlot(|Empties(buckets[..])|, occupancy, insRmCount, capacity);
      }
    }

    // Insert refines map update.  The table stays valid when the insertion finds
    // an empty slot, and otherwise exactly if the buckets stay ordered.
    method Insert(b: Bucket) returns (ok: bool, ghost s: nat, ghost e: nat)
      requires Valid() && IsValid(b.key)
      requires capacity <= 2 * MAX_CAPACITY && (IsOverloaded(occupancy, capacity) ==> capacity <= MAX_CAPACITY)
      modifies this, buckets
      ensures ok && Kept() && contents == old(contents)[b.key := b.value]
      ensures buckets == old(buckets) || fresh(buckets)
      ensures old(HasRoom()) || b.key in old(contents) ==> Valid()
      ensures capacity >= MIN_HT_CAPACITY ==> (Valid() <==> Ordered(buckets[..]))
      ensures capacity <= 2 * MAX_CAPACITY && (old(Roomy() || WouldRebuild()) ==> Roomy())
      ensures !old(WouldRebuild()) && capacity >= MIN_HT_CAPACITY ==> Inserted(b)
      ensures !old(WouldRebuild()) && capacity >= MIN_HT_CAPACITY && b.key !in old(contents) ==>
        HasEntered(old(buckets[..]), buckets[..], b.(hash := GetTableEntry(hash, capacity, b.key)), s, e)
      ensures !old(WouldRebuild()) && capacity < MIN_HT_CAPACITY ==> insRmCount == old(insRmCount)
      ensures !old(WouldRebuild()) ==> buckets == old(buckets) && capacity == old(capacity)
      ensures old(WouldRebuild()) ==> Uncluttered() && capacity == old(NextCapacity())
      ensures old(WouldRebuild()) ==> insRmCount == if b.key in old(contents) then 0 else 1
      decreases if WouldRebuild() then 2 else 0, 1
    {
      if capacity < MIN_HT_CAPACITY {
        if occupancy < capacity {
          InsertLinear(b);
          return true, 0, 0;
        }
      }
      MakeRoom();
      s, e := InsertIntoRoom(b);
      ok := true;
    }

    // Insert into a hash table that is not overloaded.
    method InsertIntoRoom(b: Bucket) returns (ghost s: nat, ghost e: nat)
      requires Valid() && MIN_HT_CAPACITY <= capacity <= TWO32 && !IsOverloaded(occupancy, capacity)
      requires IsValid(b.key)
      modifies this`occupancy, this`insRmCount, this`contents, buckets
      ensures Inserted(b) && Kept() && (Valid() <==> Ordered(buckets[..]))
      ensures |Empties(old(buckets[..]))| > 0 || b.key in old(contents) ==> Valid()
      ensures b.key !in old(contents) ==>
        HasEntered(old(buckets[..]), buckets[..], b.(hash := GetTableEntry(hash, capacity, b.key)), s, e)
    {
      ghost var bs := buckets[..];
      s, e := InsertHash(b);
      if |Empties(bs)| > 0 && b.key !in old(contents) {
        EmptySlotKeepsOrder(bs, buckets[..], b.(hash := GetTableEntry(hash, capacity, b.key)), s, e);
      }
    }

    // Move all entries to a new array of the given capacity.  No insertion on
    // the way rebuilds the table again.
    method Rebuild(newCapacity: nat)
      requires Valid() && GoodCapacity(newCapacity) && newCapacity <= 2 * MAX_CAPACITY
      requires RoomFor(occupancy, newCapacity)
      modifies this
      ensures Valid() && fresh(buckets)
      ensures contents == old(contents) && occupancy == old(occupancy) && capacity == newCapacity
      ensures insRmCount <= 0 && (newCapacity >= MIN_HT_CAPACITY ==> insRmCount == 0)
      ensures newCapacity >= MIN_HT_CAPACITY ==> |Empties(buckets[..])| >= FreshEmpties(newCapacity) - occupancy
      decreases 1, 2
    {
      var oldBuckets, oldCapacity := buckets, capacity;
      var oldOccupancy := occupancy;
      ghost var all := contents;
      CapacityForms(newCapacity);
      var b := BucketArrayCreate(newCapacity);
      buckets := b;
      capacity := newCapacity;
      occupancy := 0;
      insRmCount := -oldOccupancy;
      contents := map[];
      BlankTable(buckets[..], hash);
      MoveEntries(oldBuckets, oldCapacity, oldOccupancy, all);
    }

    // Some entries of the old array have been inserted into the new one.
    ghost predicate Moving(oldOccupancy: int)
      reads this, buckets
    {
      && InOrder()
      && oldOccupancy >= occupancy && insRmCount <= occupancy - oldOccupancy
      && (capacity >= MIN_HT_CAPACITY ==>
            && insRmCount == occupancy - oldOccupancy
            && |Empties(buckets[..])| >= FreshEmpties(capacity) - occupancy)
    }

    method MoveEntry(b: Bucket, oldOccupancy: int)
      requires GoodCapacity(capacity) && capacity <= 2 * MAX_CAPACITY && RoomFor(oldOccupancy, capacity)
      requires Moving(oldOccupancy) && IsValid(b.key) && b.key !in contents && occupancy < oldOccupancy
      modifies this, buckets
      ensures buckets == old(buckets) && capacity == old(capacity)
      ensures contents == old(contents)[b.key := b.value] && Moving(oldOccupancy)
      decreases 1, 0
    {
      assert !WouldRebuild();
      var _, _, _ := Insert(b);
      assert contents.Keys == old(contents).Keys + {b.key};
    }

    method MoveEntries(oldBuckets: array<Bucket>, oldCapacity: nat, oldOccupancy: int, ghost all: Contents)
      requires oldBuckets != buckets && oldBuckets.Length == oldCapacity && Holds(oldBuckets[..], all)
      requires GoodCapacity(capacity) && capacity <= 2 * MAX_CAPACITY && RoomFor(oldOccupancy, capacity)
      requires Moving(oldOccupancy) && contents == map[] && oldOccupancy == |all|
      modifies this, buckets
      ensures buckets == old(buckets) && capacity == old(capacity)
      ensures contents == all && Moving(oldOccupancy)
      decreases 1, 1
    {
      ghost var oldBs := oldBuckets[..];
      for i := 0 to oldCapacity
        invariant buckets == old(buckets) && oldBuckets[..] == oldBs && capacity == old(capacity)
        invariant Moved(oldBs, i, all, contents)
        invariant Moving(oldOccupancy)
      {
        if IsValid(oldBuckets[i].key) {
          MovingOne(oldBs, i, all, contents);
          MoveEntry(oldBuckets[i], oldOccupancy);
        } else {
          MovingNone(oldBs, i, all, contents);
        }
      }
      MovedAll(oldBs, all, contents);
    }

    // Take the entry in slot `i` out of a small table: the last entry fills
    // its place.
    method FillGap(i: nat, last: nat)
      requires i <= last < buckets.Length
      modifies buckets
      ensures Filled(old(buckets[..]), buckets[..], i, last)
    {
      if i == last {
        buckets[i] := buckets[i].(key := KEY_EMPTY);
      } else {
        buckets[i] := buckets[last];
        buckets[last] := buckets[last].(key := KEY_EMPTY);
      }
    }

    method RemoveLinear(i: nat)
      requires Valid() && capacity < MIN_HT_CAPACITY && i < occupancy
      modifies this`occupancy, this`contents, buckets
      ensures Valid() && contents == old(contents) - {old(buckets[i].key)}
      ensures old(buckets[i].key in contents) && occupancy == old(occupancy) - 1
      ensures LastFillsGap(old(buckets[..]), buckets[..], old(buckets[i].key), old(occupancy) - 1)
    {
      ghost var bs := buckets[..];
      FillGap(i, occupancy - 1);
      RemovingKeepsPacked(bs, buckets[..], contents, occupancy, i);
      contents := contents - {bs[i].key};
      occupancy := occupancy - 1;
    }

    // Replace the entry in slot `i` of a hash table by a tombstone.
    method Bury(i: nat)
      requires Valid() && capacity >= MIN_HT_CAPACITY && i < buckets.Length && IsValid(buckets[i].key)
      modifies this`occupancy, this`insRmCount, this`contents, buckets
      ensures Valid() && contents == old(contents) - {old(buckets[i].key)}
      ensures occupancy == old(occupancy) - 1 && insRmCount == old(insRmCount) + 1
      ensures Buried(old(buckets[..]), buckets[..], old(buckets[i].key))
    {
      ghost var bs := buckets[..];
      buckets[i] := buckets[i].(key := KEY_DELETED);
      assert buckets[..] == bs[i := bs[i].(key := KEY_DELETED)];
      BuryingKeepsTable(bs, hash, contents, occupancy, i, bs[i].(key := KEY_DELETED));
      contents := contents - {bs[i].key};
      occupancy := occupancy - 1;
      insRmCount := insRmCount + 1;
    }

    // Scan a small table for the key and take its entry out.
    method RemoveFromLinear(key: Key) returns (ok: bool)
      requires Valid() && capacity < MIN_HT_CAPACITY && IsValid(key)
      modifies this`occupancy, this`contents, buckets
      ensures Valid() && ok == (key in old(contents)) && contents == old(contents) - {key}
      ensures ok ==> LastFillsGap(old(buckets[..]), buckets[..], key, old(occupancy) - 1)
      ensures !ok ==> buckets[..] == old(buckets[..])
    {
      var i := 0;
      while i < occupancy && buckets[i].key != key
        invariant 0 <= i <= occupancy && forall j :: 0 <= j < i ==> buckets[j].key != key
      {
        i := i + 1;
      }
      ok := i < occupancy;
      if ok {
        RemoveLinear(i);
      } else {
        PackedMisses(buckets[..], contents, occupancy, key);
      }
    }

    // The table has been rebuilt after a removal.
    ghost predicate Tidied(occupancy0: int, capacity0: nat)
      reads this, buckets
    {
      && capacity == (if IsUnderloaded(occupancy0, capacity0) then capacity0 / 2 else capacity0)
      && (capacity >= MIN_HT_CAPACITY ==> insRmCount == 0 && Uncluttered())
    }

    // Rebuild the table when a removal has left it too empty, or after enough
    // insertions and removals.
    method Tidy()
      requires Valid() && MIN_HT_CAPACITY <= capacity <= 2 * MAX_CAPACITY && !IsOverloaded(occupancy, capacity)
      modifies this, buckets
      ensures Valid() && contents == old(contents)
      ensures buckets == old(buckets) || fresh(buckets)
      ensures !TidyDue(old(occupancy), old(insRmCount), old(capacity)) ==> unchanged(this) && unchanged(buckets)
      ensures TidyDue(old(occupancy), old(insRmCount), old(capacity)) ==>
        Tidied(old(occupancy), old(capacity))
    {
      if IsUnderloaded(occupancy, capacity) {
        ShrinkingLeavesRoom(occupancy, capacity);
        Rebuild(capacity / 2);
      } else if TimeToRebuild(insRmCount, capacity) {
        RebuildingLeavesRoom(occupancy, capacity);
        Rebuild(capacity);
      }
    }

    // Remove deletes exactly the given key.
    method Remove(key: Key) returns (ok: bool)
      requires Valid() && capacity <= 2 * MAX_CAPACITY && IsValid(key)
      modifies this, buckets
      ensures Valid() && ok == (key in old(contents)) && contents == old(contents) - {key}
      ensures buckets == old(buckets) || fresh(buckets)
      ensures ok && old(capacity) >= MIN_HT_CAPACITY ==>
        if TidyDue(old(occupancy) - 1, old(insRmCount) + 1, old(capacity))
        then Tidied(old(occupancy) - 1, old(capacity))
        else capacity == old(capacity) && insRmCount == old(insRmCount) + 1 && buckets == old(buckets)
             && Buried(old(buckets[..]), buckets[..], key)
    {
      if capacity < MIN_HT_CAPACITY {
        ok := RemoveFromLinear(key);
        return;
      }
      var entry := Find(key);
      if entry == -1 {
        assert contents == contents - {key};
        return false;
      }
      Bury(entry);
      Tidy();
      return true;
    }

    // Replace the view in the bucket that Find returned.
    method SetView(i: nat, view: nat)
      requires Valid() && i < buckets.Length && IsValid(buckets[i].key)
      modifies this`contents, buckets
      ensures Valid() && (old(Roomy()) ==> Roomy())
      ensures old(buckets[i].key in contents)
      ensures contents == old(contents)[old(buckets[i].key) := Reducer(view, old(buckets[i].value.reduceFn))]
    {
      var b := buckets[i].(value := Reducer(view, buckets[i].value.reduceFn));
      if capacity < MIN_HT_CAPACITY {
        OverwriteLinear(i, b);
      } else {
        Overwrite(i, b);
      }
    }

    // Clear empties the table.
    method Clear()
      requires Valid() && occupancy > 0
      modifies this, buckets
      ensures Valid() && contents == map[] && occupancy == 0 && capacity == MIN_CAPACITY
      ensures buckets == old(buckets) || fresh(buckets)
      ensures insRmCount == if old(capacity) == MIN_CAPACITY then old(insRmCount) else 0
    {
      if capacity == MIN_CAPACITY {
        ClearSmall();
        return;
      }
      buckets := BucketArrayCreate(MIN_CAPACITY);
      capacity, occupancy, insRmCount := MIN_CAPACITY, 0, 0;
      contents := map[];
    }

    // A table of the least capacity is cleared in place.
    method ClearSmall()
      requires Valid() && capacity == MIN_CAPACITY
      modifies this`occupancy, this`contents, buckets
      ensures Valid() && contents == map[] && occupancy == 0
    {
      for i := 0 to occupancy
        invariant occupancy <= buckets.Length && unchanged(this)
        invariant forall j :: 0 <= j < buckets.Length && (j < i || occupancy <= j) ==> IsEmpty(buckets[j].key)
      {
        buckets[i] := buckets[i].(key := KEY_EMPTY);
      }
      occupancy := 0;
      contents := map[];
    }
  }
}
