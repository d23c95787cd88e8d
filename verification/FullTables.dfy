// A hash table of eight buckets can lose a key: a run of insertions and removals
// from a new table leaves it without an empty slot and not due to be rebuilt, and
// the probe of the next insertion goes round to its start, where the new entry
// stops the probes for an entry that is moved past it.

module FullTables {
  import opened OrderedProbing
  import opened HyperTable

  // Keys from 20 on hash to slot 7 of eight, the others to slot 0.
  function SevenFrom20(k: Key): nat {
    if k >= 20 then 7 else 0
  }

  function EntryOf(k: Key): Bucket {
    Bucket(k, 0, Reducer(k, 0))
  }

  function HashedEntry(k: Key): Bucket {
    Bucket(k, SevenFrom20(k), Reducer(k, 0))
  }

  function Numbers(n: nat): (keys: set<Key>)
    ensures |keys| == n
    ensures forall k :: k in keys <==> 1 <= k <= n
  {
    if n == 0 then {} else Numbers(n - 1) + {n}
  }

  // The table holds the numbers up to `n`, and no removal has cluttered it.
  ghost predicate HoldsNumbers(t: Table, n: nat, capacity: nat, count: int)
    reads t, t.buckets
  {
    && t.Valid() && t.Roomy() && t.hash == SevenFrom20 && t.contents.Keys == Numbers(n) && t.occupancy == n
    && t.capacity == capacity && t.insRmCount == count
  }

  lemma OccupancyIs(t: Table, n: nat)
    requires t.Valid() && t.contents.Keys == Numbers(n)
    ensures t.occupancy == n
  {
    assert |t.contents| == |t.contents.Keys|;
  }

  function CapacityOf(n: nat): nat {
    if n <= 4 then 4 else 8
  }

  function CountOf(n: nat): nat {
    if n <= 4 then 0 else n - 4
  }

  // What inserting one more number makes of capacity and count.
  lemma NextNumber(t: Table, n: nat)
    requires HoldsNumbers(t, n, CapacityOf(n), CountOf(n)) && n < 8
    ensures t.WouldRebuild() <==> n == 4
    ensures t.WouldRebuild() ==> t.NextCapacity() == 8
  {
  }

  method InsertNumber(t: Table, n: nat)
    requires HoldsNumbers(t, n, CapacityOf(n), CountOf(n)) && n < 8
    modifies t, t.buckets
    ensures t.buckets == old(t.buckets) || fresh(t.buckets)
    ensures HoldsNumbers(t, n + 1, CapacityOf(n + 1), CountOf(n + 1))
  {
    NextNumber(t, n);
    ghost var contents := t.contents;
    InsertKey(t, EntryOf(n + 1));
    NumbersWith(contents, n, EntryOf(n + 1).value);
  }

  lemma NumbersWith(contents: Contents, n: nat, v: Reducer)
    requires contents.Keys == Numbers(n)
    ensures contents[n + 1 := v].Keys == Numbers(n + 1)
  {
    assert contents[n + 1 := v].Keys == contents.Keys + {n + 1};
  }

  method InsertKey(t: Table, b: Bucket)
    requires t.Valid() && t.Roomy() && IsValid(b.key) && b.key !in t.contents && t.capacity <= 16
    modifies t, t.buckets
    ensures t.Valid() && t.Roomy() && t.contents == old(t.contents)[b.key := b.value]
    ensures t.occupancy == old(t.occupancy) + 1
    ensures t.buckets == old(t.buckets) || fresh(t.buckets)
    ensures if old(t.WouldRebuild()) then t.capacity == old(t.NextCapacity()) && t.insRmCount == 1
            else t.capacity == old(t.capacity)
                 && t.insRmCount == if t.capacity < 8 then old(t.insRmCount) else old(t.insRmCount) + 1
  {
    t.RoomyHasRoom();
    OneKeyMore(t.contents, b.key, b.value);
    var _, _, _ := t.Insert(b);
  }

  lemma OneKeyMore(contents: Contents, k: Key, v: Reducer)
    requires k !in contents
    ensures |contents[k := v]| == |contents| + 1
  {
    assert contents[k := v].Keys == contents.Keys + {k};
  }

  // Eight numbers fill a table of eight slots.
  method InsertEight() returns (t: Table)
    ensures fresh(t) && fresh(t.buckets) && HoldsNumbers(t, 8, 8, 4)
  {
    t := new Table(SevenFrom20);
    OccupancyIs(t, 0);
    for n := 0 to 8
      invariant fresh(t) && fresh(t.buckets) && HoldsNumbers(t, n, CapacityOf(n), CountOf(n))
    {
      InsertNumber(t, n);
    }
  }

  // What a slot holds: a key that hashes to slot 0, one that hashes to slot 7, or
  // a tombstone.
  datatype Kind = Zero | Seven | Tomb

  predicate IsKind(b: Bucket, kind: Kind) {
    match kind
    case Zero => IsValid(b.key) && b.hash == 0
    case Seven => IsValid(b.key) && b.hash == 7
    case Tomb => IsTombstone(b.key)
  }

  // Eight slots, of which only the first two may hold anything but keys that hash
  // to slot 0.
  ghost predicate Layout(bs: seq<Bucket>, first: Kind, second: Kind) {
    && |bs| == 8 && IsKind(bs[0], first) && IsKind(bs[1], second)
    && forall i :: 2 <= i < 8 ==> IsKind(bs[i], Zero)
  }

  // Layouts without a tombstone follow from the number of keys.
  lemma {:induction false} KeysInSlots(bs: seq<Bucket>, n: nat, z: nat) returns (keys: set<Key>)
    requires z < n <= |bs| && !IsValid(bs[z].key)
    ensures |keys| < n && forall i :: 0 <= i < n && IsValid(bs[i].key) ==> bs[i].key in keys
  {
    keys := set i | 0 <= i < n && i != z :: bs[i].key;
    KeysOfSlots(bs, n, z);
  }

  lemma {:induction false} KeysOfSlots(bs: seq<Bucket>, n: nat, z: nat)
    requires n <= |bs|
    ensures |set i | 0 <= i < n && i != z :: bs[i].key| <= if z < n then n - 1 else n
  {
    var keys := set i | 0 <= i < n && i != z :: bs[i].key;
    if n > 0 {
      KeysOfSlots(bs, n - 1, z);
      var below := set i | 0 <= i < n - 1 && i != z :: bs[i].key;
      if z == n - 1 {
        assert keys == below;
      } else {
        assert keys == below + {bs[n - 1].key};
      }
    } else {
      assert keys == {};
    }
  }

  lemma AllSlotsHold(bs: seq<Bucket>, contents: Contents, i: nat)
    requires Holds(bs, contents) && |contents| == |bs| && i < |bs|
    ensures IsValid(bs[i].key)
  {
    if !IsValid(bs[i].key) {
      var keys := KeysInSlots(bs, |bs|, i);
      forall k | k in contents
        ensures k in keys
      {
        var j :| 0 <= j < |bs| && bs[j].key == k;
      }
      SubsetSize(contents.Keys, keys);
    }
  }

  lemma FullOfZeros(bs: seq<Bucket>, contents: Contents)
    requires |bs| == 8 && Holds(bs, contents) && HashesOk(bs, SevenFrom20) && |contents| == 8
    requires forall k :: k in contents ==> k < 20
    ensures Layout(bs, Zero, Zero)
  {
    forall i | 0 <= i < 8
      ensures IsKind(bs[i], Zero)
    {
      AllSlotsHold(bs, contents, i);
    }
  }

  // The table, with some entries in the first two slots.
  ghost predicate Stage(t: Table, first: Kind, second: Kind, occupancy: int, count: int)
    reads t, t.buckets
  {
    && t.Valid() && t.hash == SevenFrom20 && t.capacity == 8
    && t.occupancy == occupancy && t.insRmCount == count && Layout(t.buckets[..], first, second)
  }

  lemma FirstStage(t: Table)
    requires HoldsNumbers(t, 8, 8, 4)
    ensures Stage(t, Zero, Zero, 8, 4)
  {
    FullOfZeros(t.buckets[..], t.contents);
  }

  // Burying the entry of a slot changes just that slot.
  lemma BuriedAt(bs: seq<Bucket>, fin: seq<Bucket>, i: nat)
    requires i < |bs| && IsValid(bs[i].key) && Unique(bs) && Buried(bs, fin, bs[i].key)
    ensures fin == bs[i := bs[i].(key := KEY_DELETED)]
  {
  }

  method BuryFirst(t: Table)
    requires Stage(t, Zero, Zero, 8, 4)
    modifies t, t.buckets
    ensures t.buckets == old(t.buckets) && Stage(t, Tomb, Zero, 7, 5)
    ensures forall k :: k in t.contents ==> k in old(t.contents)
  {
    ghost var bs := t.buckets[..];
    var _ := t.Remove(t.buckets[0].key);
    BuriedAt(bs, t.buckets[..], 0);
  }

  method BurySecond(t: Table)
    requires Stage(t, Seven, Zero, 8, 6)
    modifies t, t.buckets
    ensures t.buckets == old(t.buckets) && Stage(t, Seven, Tomb, 7, 7) && t.buckets[0] == old(t.buckets[0])
    ensures forall k :: k in t.contents ==> k in old(t.contents)
  {
    ghost var bs := t.buckets[..];
    var _ := t.Remove(t.buckets[1].key);
    BuriedAt(bs, t.buckets[..], 1);
  }

  // The probe for a key that hashes to slot 7 ends at the tombstone in slot 0.
  lemma EndsFirst(bs: seq<Bucket>, k: Key, s: nat)
    requires Layout(bs, Tomb, Zero) && s < 8 && EndsAt(bs, k, 7, s)
    ensures s == 0
  {
  }

  lemma SevenThenZeros(bs: seq<Bucket>)
    requires Layout(bs, Seven, Zero)
    ensures Ordered(bs)
  {
  }

  lemma HashedIs(k: Key)
    ensures EntryOf(k).(hash := GetTableEntry(SevenFrom20, 8, k)) == HashedEntry(k)
  {
  }

  // Inserting a new key into the table as it is.
  method InsertNew(t: Table, k: Key) returns (ghost s: nat, ghost e: nat)
    requires t.Valid() && t.capacity == 8 && IsValid(k) && k !in t.contents && !t.WouldRebuild()
    modifies t, t.buckets
    ensures t.buckets == old(t.buckets) && t.capacity == 8 && t.Kept() && (t.Valid() <==> Ordered(t.buckets[..]))
    ensures t.occupancy == old(t.occupancy) + 1 && t.insRmCount == old(t.insRmCount) + 1
    ensures t.contents == old(t.contents)[k := Reducer(k, 0)]
    ensures HasEntered(old(t.buckets[..]), t.buckets[..], EntryOf(k).(hash := GetTableEntry(t.hash, 8, k)), s, e)
  {
    var _, s', e' := t.Insert(EntryOf(k));
    s, e := s', e';
  }

  lemma SevenEnters(bs: seq<Bucket>, fin: seq<Bucket>, b: Bucket, s: nat, e: nat)
    requires Layout(bs, Tomb, Zero) && b.hash == 7 && IsValid(b.key) && HasEntered(bs, fin, b, s, e)
    ensures Layout(fin, Seven, Zero) && Ordered(fin) && fin[0] == b
  {
    EndsFirst(bs, b.key, s);
    assert e == 0;
    SevenThenZeros(fin);
  }

  method InsertSeven(t: Table)
    requires Stage(t, Tomb, Zero, 7, 5) && 20 !in t.contents
    modifies t, t.buckets
    ensures t.buckets == old(t.buckets) && Stage(t, Seven, Zero, 8, 6) && t.buckets[0].key == 20
    ensures forall k :: k in t.contents <==> k in old(t.contents) || k == 20
  {
    ghost var bs := t.buckets[..];
    HashedIs(20);
    ghost var s, e := InsertNew(t, 20);
    SevenEnters(bs, t.buckets[..], HashedEntry(20), s, e);
  }

  // The probe for a key that hashes to slot 0 goes round.
  lemma TombIsPassed(bs: seq<Bucket>, d: nat)
    requires Layout(bs, Seven, Tomb)
    ensures !RunEnds(bs, 0, 1, d)
  {
    assert Disp(8, 2, 0) == 2 && IsKind(bs[2], Zero);
  }

  lemma GoesRound(bs: seq<Bucket>, k: Key, s: nat)
    requires Layout(bs, Seven, Tomb) && s < 8 && EndsAt(bs, k, 0, s)
    ensures s == 0
  {
    forall d: nat
      ensures !RunEnds(bs, 0, 1, d)
    {
      TombIsPassed(bs, d);
    }
  }

  // What is then in slot 0 stops the probe for what is in slot 1.
  lemma SevenIsLost(bs: seq<Bucket>, fin: seq<Bucket>, b: Bucket, e: nat)
    requires Layout(bs, Seven, Tomb) && b.hash == 0 && IsValid(b.key) && e < 8 && !IsValid(bs[e].key)
    requires Shifted(bs, fin, 0, e, b)
    ensures fin[1] == bs[0] && Stops(fin, 7, 0) && !Ordered(fin)
  {
    assert e == 1;
    assert !Passable(fin, 1, 0);
  }

  // The last insertion loses key 20: it is in the table, but its probe, which
  // starts at slot 7 and passes that, is stopped at slot 0.
  method InsertNine(t: Table)
    requires Stage(t, Seven, Tomb, 7, 7) && t.buckets[0].key == 20 && 9 !in t.contents
    modifies t, t.buckets
    ensures t.hash == SevenFrom20 && t.capacity == 8 == t.buckets.Length && t.Kept()
    ensures t.buckets[1].key == 20 && Stops(t.buckets[..], 7, 0) && !t.Valid()
  {
    ghost var bs := t.buckets[..];
    HashedIs(9);
    ghost var s, e := InsertNew(t, 9);
    GoesRound(bs, 9, s);
    SevenIsLost(bs, t.buckets[..], HashedEntry(9), e);
  }

  method MakeGap(t: Table)
    requires Stage(t, Zero, Zero, 8, 4) && forall k :: k in t.contents ==> k <= 8
    modifies t, t.buckets
    ensures t.buckets == old(t.buckets) && Stage(t, Seven, Tomb, 7, 7) && t.buckets[0].key == 20
    ensures 9 !in t.contents
  {
    BuryFirst(t);
    InsertSeven(t);
    BurySecond(t);
  }

  // From a new table, by operations that the load tests never answer with a
  // rebuild, to one that holds a key without finding it.
  method LoseAKey() returns (t: Table)
    ensures fresh(t) && t.hash == SevenFrom20 && t.capacity == 8 == t.buckets.Length && t.Kept()
    ensures t.buckets[1].key == 20 && Stops(t.buckets[..], 7, 0) && !t.Valid()
  {
    t := InsertEight();
    FirstStage(t);
    MakeGap(t);
    InsertNine(t);
  }
}
