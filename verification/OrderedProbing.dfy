// Ordered linear probing on a circular buffer, as facts about the sequence of
// buckets: what the order of a table means for a probe, and which updates of
// the buckets keep it.

module OrderedProbing {

  type Key = nat

  const KEY_EMPTY: Key := 0
  const KEY_DELETED: Key := 0xFFFF_FFFF_FFFF_FFFF

  predicate IsEmpty(key: Key) { key == KEY_EMPTY }
  predicate IsTombstone(key: Key) { key == KEY_DELETED }
  predicate IsValid(key: Key) { !IsEmpty(key) && !IsTombstone(key) }

  // A reducer view: a pointer to the view and its reduce function.
  datatype Reducer = Reducer(view: nat, reduceFn: nat)

  datatype Bucket = Bucket(key: Key, hash: nat, value: Reducer)

  const EMPTY_BUCKET := Bucket(KEY_EMPTY, 0, Reducer(0, 0))

  // ------------------------------------------------------- circular indices

  function IncIndex(i: nat, capacity: nat): (j: nat)
    requires i < capacity
    ensures j < capacity
  {
    if i + 1 == capacity then 0 else i + 1
  }

  function DecIndex(i: nat, capacity: nat): (j: nat)
    requires i < capacity
    ensures j < capacity && IncIndex(j, capacity) == i
  {
    if i == 0 then capacity - 1 else i - 1
  }

  // How far slot `i` lies past slot `h`, going round the buffer.
  function Disp(c: nat, i: nat, h: nat): (d: nat)
    requires i < c && h < c
    ensures d < c
  {
    if i >= h then i - h else i - h + c
  }

  // One step of a probe: it gets one slot further, or is back at its start.
  lemma IncAdvances(c: nat, i: nat, t: nat)
    requires i < c && t < c
    ensures if IncIndex(i, c) == t then Disp(c, i, t) == c - 1 else Disp(c, IncIndex(i, c), t) == Disp(c, i, t) + 1
    ensures forall j :: 0 <= j < c && Disp(c, j, t) == Disp(c, i, t) ==> j == i
  {
  }

  const TWO32: int := 0x1_0000_0000

  // Unsigned 32-bit subtraction.
  function Sub32(a: nat, b: nat): int {
    (a - b) % TWO32
  }

  // The probe's test, on unsigned 32-bit numbers.
  predicate ContinueProbe(tgt: nat, hash: nat, idx: nat) {
    Sub32(idx, tgt) <= Sub32(idx, hash)
  }

  // The bit trick: with wrap-around subtraction the test compares how far the
  // probe has come with how far the entry has been displaced, in all four
  // cases of wrapping.
  lemma ContinueProbeComparesDisplacements(c: nat, tgt: nat, hash: nat, idx: nat)
    requires c <= TWO32 && tgt < c && hash < c && idx < c
    ensures ContinueProbe(tgt, hash, idx) <==> Disp(c, idx, tgt) <= Disp(c, idx, hash)
  {
    assert Sub32(idx, tgt) == if idx >= tgt then idx - tgt else idx - tgt + TWO32;
    assert Sub32(idx, hash) == if idx >= hash then idx - hash else idx - hash + TWO32;
  }

  // ---------------------------------------------------------- ordered tables

  // Slot `j` does not stop a probe for the key in slot `m` that passes it.
  predicate Passable(bs: seq<Bucket>, m: nat, j: nat)
    requires m < |bs| && j < |bs|
  {
    IsValid(bs[m].key) && bs[m].hash < |bs| && Disp(|bs|, j, bs[m].hash) < Disp(|bs|, m, bs[m].hash) ==>
      && !IsEmpty(bs[j].key)
      && (IsValid(bs[j].key) ==>
            bs[j].hash < |bs| && Disp(|bs|, j, bs[m].hash) <= Disp(|bs|, j, bs[j].hash))
  }

  ghost predicate Ordered(bs: seq<Bucket>) {
    && (forall i :: 0 <= i < |bs| && IsValid(bs[i].key) ==> bs[i].hash < |bs|)
    && (forall m, j {:trigger Passable(bs, m, j)} :: 0 <= m < |bs| && 0 <= j < |bs| ==> Passable(bs, m, j))
  }

  // Slot `j` does not stop a probe for target `t` that passes it.
  predicate OnPath(bs: seq<Bucket>, t: nat, j: nat)
    requires t < |bs| && j < |bs|
  {
    && !IsEmpty(bs[j].key)
    && (IsValid(bs[j].key) ==> bs[j].hash < |bs| && Disp(|bs|, j, t) <= Disp(|bs|, j, bs[j].hash))
  }

  // The probe for `t` has come to slot `i`.
  ghost predicate Probed(bs: seq<Bucket>, t: nat, i: nat)
    requires t < |bs| && i < |bs|
  {
    forall j :: 0 <= j < |bs| && Disp(|bs|, j, t) < Disp(|bs|, i, t) ==> OnPath(bs, t, j)
  }

  // Whoever's probe comes to slot `i` has come no further than the probe for `t`.
  ghost predicate Outranks(bs: seq<Bucket>, t: nat, i: nat)
    requires t < |bs| && i < |bs|
  {
    forall m :: 0 <= m < |bs| && IsValid(bs[m].key) && bs[m].hash < |bs| ==>
      Disp(|bs|, i, bs[m].hash) <= Disp(|bs|, m, bs[m].hash) ==> Disp(|bs|, i, bs[m].hash) <= Disp(|bs|, i, t)
  }

  // No probe passes an empty slot.
  lemma EmptyIsOutranked(bs: seq<Bucket>, t: nat, i: nat)
    requires Ordered(bs) && t < |bs| && i < |bs| && IsEmpty(bs[i].key)
    ensures Outranks(bs, t, i)
  {
    forall m | 0 <= m < |bs| && IsValid(bs[m].key)
      ensures Disp(|bs|, i, bs[m].hash) > Disp(|bs|, m, bs[m].hash)
    {
      assert Passable(bs, m, i);
      if Disp(|bs|, i, bs[m].hash) == Disp(|bs|, m, bs[m].hash) {
        SameSlot(|bs|, m, i, bs[m].hash);
      }
    }
  }

  lemma SameSlot(c: nat, i: nat, j: nat, h: nat)
    requires i < c && j < c && h < c && Disp(c, i, h) == Disp(c, j, h)
    ensures i == j
  {
  }

  // An entry that would stop the probe for `t` is outranked by it, and so is
  // everyone who passes that entry.
  lemma EntryIsOutranked(bs: seq<Bucket>, t: nat, i: nat)
    requires Ordered(bs) && t < |bs| && i < |bs| && IsValid(bs[i].key)
    requires Disp(|bs|, i, t) > Disp(|bs|, i, bs[i].hash)
    ensures Outranks(bs, t, i)
  {
    forall m | 0 <= m < |bs| && IsValid(bs[m].key) && Disp(|bs|, i, bs[m].hash) <= Disp(|bs|, m, bs[m].hash)
      ensures Disp(|bs|, i, bs[m].hash) <= Disp(|bs|, i, t)
    {
      assert Passable(bs, m, i);
      if m != i && Disp(|bs|, i, bs[m].hash) == Disp(|bs|, m, bs[m].hash) {
        SameSlot(|bs|, m, i, bs[m].hash);
      }
    }
  }

  // The slots from `i` on, up to but not including distance `d` from `t`, are
  // tombstones.
  ghost predicate TombRun(bs: seq<Bucket>, t: nat, i: nat, d: nat)
    requires t < |bs| && i < |bs|
  {
    forall j :: 0 <= j < |bs| && Disp(|bs|, i, t) <= Disp(|bs|, j, t) < d ==> IsTombstone(bs[j].key)
  }

  // A tombstone can be reused when the first entry after the run of tombstones
  // would stop the probe for `t`.
  lemma TombstoneIsOutranked(bs: seq<Bucket>, t: nat, i: nat, n: nat)
    requires Ordered(bs) && t < |bs| && i < |bs| && n < |bs| && Disp(|bs|, i, t) < Disp(|bs|, n, t)
    requires TombRun(bs, t, i, Disp(|bs|, n, t))
    requires IsEmpty(bs[n].key) || (IsValid(bs[n].key) && Disp(|bs|, n, t) > Disp(|bs|, n, bs[n].hash))
    ensures Outranks(bs, t, i)
  {
    assert IsTombstone(bs[i].key);
    forall m | 0 <= m < |bs| && IsValid(bs[m].key) && Disp(|bs|, i, bs[m].hash) <= Disp(|bs|, m, bs[m].hash)
      ensures Disp(|bs|, i, bs[m].hash) <= Disp(|bs|, i, t)
    {
      assert Passable(bs, m, n) && Passable(bs, m, i);
    }
  }

  // The probe for `t` has come to slot `i` without meeting key `k`.
  ghost predicate ProbedFor(bs: seq<Bucket>, k: Key, t: nat, i: nat)
    requires t < |bs| && i < |bs|
  {
    && Probed(bs, t, i)
    && forall j :: 0 <= j < |bs| && Disp(|bs|, j, t) < Disp(|bs|, i, t) ==> bs[j].key != k
  }

  // Tombstones neither stop a probe nor match its key.
  lemma ProbePassesTombstones(bs: seq<Bucket>, k: Key, t: nat, i: nat, n: nat)
    requires t < |bs| && i < |bs| && n < |bs| && IsValid(k)
    requires ProbedFor(bs, k, t, i) && TombRun(bs, t, i, Disp(|bs|, n, t))
    ensures ProbedFor(bs, k, t, n)
  {
  }

  // An entry with another key that does not stop the probe is passed; the probe
  // comes to the next slot, or back to its start.
  lemma ProbePassesEntry(bs: seq<Bucket>, k: Key, t: nat, i: nat)
    requires t < |bs| && i < |bs|
    requires ProbedFor(bs, k, t, i) && IsValid(bs[i].key) && OnPath(bs, t, i) && bs[i].key != k
    ensures ProbedFor(bs, k, t, IncIndex(i, |bs|))
    ensures if IncIndex(i, |bs|) == t then Circled(bs, k, t)
            else Disp(|bs|, IncIndex(i, |bs|), t) == Disp(|bs|, i, t) + 1
  {
    IncAdvances(|bs|, i, t);
  }

  // The probe has gone round the buffer; the last slot it has passed holds an
  // entry.
  ghost predicate Circled(bs: seq<Bucket>, k: Key, t: nat)
    requires t < |bs|
  {
    IsValid(bs[DecIndex(t, |bs|)].key) && forall j :: 0 <= j < |bs| ==> OnPath(bs, t, j) && bs[j].key != k
  }

  // The run of tombstones from slot `s` on ends at distance `d`: where the probe
  // started, or where it would stop.
  ghost predicate RunEnds(bs: seq<Bucket>, t: nat, s: nat, d: nat)
    requires t < |bs| && s < |bs|
  {
    && Disp(|bs|, s, t) < d <= |bs| && TombRun(bs, t, s, d)
    && (d == |bs| || exists n: nat :: n < |bs| && Disp(|bs|, n, t) == d && Stops(bs, t, n))
  }

  // An empty slot, or an entry that the probe outranks.
  predicate Stops(bs: seq<Bucket>, t: nat, n: nat)
    requires t < |bs| && n < |bs|
  {
    IsEmpty(bs[n].key) || (IsValid(bs[n].key) && bs[n].hash < |bs| && Disp(|bs|, n, t) > Disp(|bs|, n, bs[n].hash))
  }

  // Where an insertion's probe for a new key ends: the slot before, if the probe
  // has passed one, holds an entry.
  ghost predicate EndsAt(bs: seq<Bucket>, k: Key, t: nat, s: nat)
    requires t < |bs| && s < |bs|
  {
    && ProbedFor(bs, k, t, s)
    && (s != t ==> IsValid(bs[DecIndex(s, |bs|)].key))
    && (|| Stops(bs, t, s)
        || (IsTombstone(bs[s].key) && exists d: nat :: RunEnds(bs, t, s, d))
        || (s == t && Circled(bs, k, t)))
  }

  lemma EndsMisses(bs: seq<Bucket>, k: Key, t: nat, s: nat)
    requires Ordered(bs) && IsValid(k) && t < |bs| && s < |bs| && EndsAt(bs, k, t, s)
    requires forall j :: 0 <= j < |bs| && bs[j].key == k ==> bs[j].hash == t
    ensures !HasKey(bs, k)
  {
    if Stops(bs, t, s) {
      StoppedProbeMisses(bs, k, t, s);
    } else if IsTombstone(bs[s].key) && exists d: nat :: RunEnds(bs, t, s, d) {
      var d: nat :| RunEnds(bs, t, s, d);
      if d < |bs| {
        var n: nat :| n < |bs| && Disp(|bs|, n, t) == d && Stops(bs, t, n);
        ProbePassesTombstones(bs, k, t, s, n);
        StoppedProbeMisses(bs, k, t, n);
      }
    }
  }

  // With an empty slot in the table the probe outranks whoever comes to the slot
  // it ends at.
  lemma EndIsOutranked(bs: seq<Bucket>, k: Key, t: nat, s: nat, z: nat)
    requires Ordered(bs) && t < |bs| && s < |bs| && EndsAt(bs, k, t, s) && z < |bs| && IsEmpty(bs[z].key)
    ensures Outranks(bs, t, s)
  {
    if IsEmpty(bs[s].key) {
      EmptyIsOutranked(bs, t, s);
    } else if Stops(bs, t, s) {
      EntryIsOutranked(bs, t, s);
    } else {
      assert !OnPath(bs, t, z);
      var d: nat :| RunEnds(bs, t, s, d);
      assert d < |bs|;
      var n: nat :| n < |bs| && Disp(|bs|, n, t) == d && Stops(bs, t, n);
      TombstoneIsOutranked(bs, t, s, n);
    }
  }

  // ---------------------------------------------------------------- shifting

  // The cyclic shift of an insertion: `b` is in slot `s`, and what was in the
  // valid slots from `s` on has moved up by one, into slot `e`.
  ghost predicate Shifted(bs: seq<Bucket>, fin: seq<Bucket>, s: nat, e: nat, b: Bucket)
    requires s < |bs| && e < |bs|
  {
    && |fin| == |bs|
    && (forall j :: 0 <= j < |bs| ==>
          fin[j] == if Disp(|bs|, j, s) > Disp(|bs|, e, s) then bs[j]
                    else if j == s then b else bs[DecIndex(j, |bs|)])
    && (forall j :: 0 <= j < |bs| && Disp(|bs|, j, s) < Disp(|bs|, e, s) ==> IsValid(bs[j].key))
  }

  // An insertion: the probe for `b` has come to slot `s`, and the entries from
  // there up to slot `e`, which holds no key, make room for it.
  ghost predicate Enters(bs: seq<Bucket>, fin: seq<Bucket>, s: nat, e: nat, b: Bucket) {
    && Ordered(bs)
    && s < |bs| && e < |bs| && !IsValid(bs[e].key)
    && b.hash < |bs| && IsValid(b.key)
    && Probed(bs, b.hash, s)
    && Shifted(bs, fin, s, e, b)
  }

  // No entry that the shift moves comes back to the slot it hashes to.
  ghost predicate NoFullTurn(bs: seq<Bucket>, s: nat, e: nat)
    requires s < |bs| && e < |bs|
  {
    forall j :: 0 <= j < |bs| && Disp(|bs|, j, s) < Disp(|bs|, e, s) && bs[j].hash < |bs| ==>
      Disp(|bs|, j, bs[j].hash) < |bs| - 1
  }

  // With an empty slot in the table no entry is displaced by a full turn.
  lemma EmptySlotPreventsFullTurn(bs: seq<Bucket>, fin: seq<Bucket>, s: nat, e: nat, z: nat, b: Bucket)
    requires Enters(bs, fin, s, e, b) && z < |bs| && IsEmpty(bs[z].key)
    ensures NoFullTurn(bs, s, e)
  {
    forall j | 0 <= j < |bs| && Disp(|bs|, j, s) < Disp(|bs|, e, s)
      ensures Disp(|bs|, j, bs[j].hash) < |bs| - 1
    {
      assert Passable(bs, j, z);
    }
  }

  // Whoever passed slot `j` before the shift passes its new occupant.
  lemma NewOccupantIsPassable(bs: seq<Bucket>, fin: seq<Bucket>, s: nat, e: nat, b: Bucket, m: nat, j: nat)
    requires Enters(bs, fin, s, e, b) && Outranks(bs, b.hash, s) && NoFullTurn(bs, s, e)
    requires m < |bs| && j < |bs| && IsValid(bs[m].key)
    requires Disp(|bs|, j, bs[m].hash) <= Disp(|bs|, m, bs[m].hash)
    requires Disp(|bs|, j, s) <= Disp(|bs|, e, s)
    ensures IsValid(fin[j].key) && fin[j].hash < |bs|
    ensures Disp(|bs|, j, bs[m].hash) <= Disp(|bs|, j, fin[j].hash)
  {
    if j != s {
      var p := DecIndex(j, |bs|);
      assert Disp(|bs|, p, s) < Disp(|bs|, e, s);
      assert Passable(bs, m, p);
    }
  }

  lemma ShiftedEntryIsPassable(bs: seq<Bucket>, fin: seq<Bucket>, s: nat, e: nat, b: Bucket, m: nat, j: nat)
    requires Enters(bs, fin, s, e, b) && Outranks(bs, b.hash, s) && NoFullTurn(bs, s, e)
    requires m < |bs| && j < |bs| && m != s
    ensures Passable(fin, m, j)
  {
    // where the entry that is now in slot `m` was before
    var from := if Disp(|bs|, m, s) > Disp(|bs|, e, s) then m else DecIndex(m, |bs|);
    if IsValid(fin[m].key) && Disp(|bs|, j, fin[m].hash) < Disp(|bs|, m, fin[m].hash) {
      assert fin[m] == bs[from];
      assert Disp(|bs|, j, bs[from].hash) <= Disp(|bs|, from, bs[from].hash);
      if Disp(|bs|, j, s) <= Disp(|bs|, e, s) {
        NewOccupantIsPassable(bs, fin, s, e, b, from, j);
      } else {
        assert Passable(bs, from, j);
      }
    }
  }

  lemma BeforeInRun(c: nat, j: nat, s: nat, h: nat)
    requires j < c && s < c && h < c && j != s && j != h
    ensures Disp(c, DecIndex(j, c), s) == Disp(c, j, s) - 1
    ensures Disp(c, DecIndex(j, c), h) == Disp(c, j, h) - 1
  {
  }

  lemma InsertedEntryIsPassable(bs: seq<Bucket>, fin: seq<Bucket>, s: nat, e: nat, b: Bucket, j: nat)
    requires Enters(bs, fin, s, e, b) && Outranks(bs, b.hash, s) && NoFullTurn(bs, s, e)
    requires j < |bs|
    ensures Passable(fin, s, j)
  {
    if Disp(|bs|, j, b.hash) < Disp(|bs|, s, b.hash) {
      assert OnPath(bs, b.hash, j);
      if Disp(|bs|, j, s) <= Disp(|bs|, e, s) && j != b.hash {
        // the probe for `b` also passed the slot before, whose entry is now here
        var p := DecIndex(j, |bs|);
        BeforeInRun(|bs|, j, s, b.hash);
        assert OnPath(bs, b.hash, p);
      }
    }
  }

  lemma ShiftingKeepsOrder(bs: seq<Bucket>, fin: seq<Bucket>, s: nat, e: nat, b: Bucket)
    requires Enters(bs, fin, s, e, b) && Outranks(bs, b.hash, s) && NoFullTurn(bs, s, e)
    ensures Ordered(fin)
  {
    forall i | 0 <= i < |fin| && IsValid(fin[i].key)
      ensures fin[i].hash < |fin|
    {
    }
    forall m, j | 0 <= m < |fin| && 0 <= j < |fin|
      ensures Passable(fin, m, j)
    {
      if m == s {
        InsertedEntryIsPassable(bs, fin, s, e, b, j);
      } else {
        ShiftedEntryIsPassable(bs, fin, s, e, b, m, j);
      }
    }
  }

  lemma AnEmptySlotIsEnough(bs: seq<Bucket>, fin: seq<Bucket>, s: nat, e: nat, z: nat, b: Bucket)
    requires Enters(bs, fin, s, e, b) && Outranks(bs, b.hash, s) && z < |bs| && IsEmpty(bs[z].key)
    ensures Ordered(fin)
  {
    EmptySlotPreventsFullTurn(bs, fin, s, e, z, b);
    ShiftingKeepsOrder(bs, fin, s, e, b);
  }

  lemma FullTurnIsNext(c: nat, j: nat, h: nat)
    requires j < c && h < c && Disp(c, j, h) == c - 1
    ensures IncIndex(j, c) == h
  {
  }

  // The entry in slot `s` would stop the probe for `b`, or there is none.
  predicate StopsFor(bs: seq<Bucket>, s: nat, b: Bucket)
    requires s < |bs| && b.hash < |bs|
  {
    IsValid(bs[s].key) ==> bs[s].hash < |bs| && Disp(|bs|, s, b.hash) > Disp(|bs|, s, bs[s].hash)
  }

  // An entry that the shift brings back to the slot it hashes to stops the
  // probe for the inserted key.
  lemma FullTurnLosesTheInsertedKey(bs: seq<Bucket>, fin: seq<Bucket>, s: nat, e: nat, b: Bucket, j: nat)
    requires Enters(bs, fin, s, e, b) && StopsFor(bs, s, b) && j < |bs|
    requires Disp(|bs|, j, s) < Disp(|bs|, e, s) && Disp(|bs|, j, bs[j].hash) == |bs| - 1
    ensures var h := bs[j].hash; Disp(|bs|, h, b.hash) < Disp(|bs|, s, b.hash) && !OnPath(fin, b.hash, h)
    ensures !Passable(fin, s, bs[j].hash)
  {
    var h := bs[j].hash;
    FullTurnIsNext(|bs|, j, h);
    assert fin[h] == bs[j];
    assert IsValid(bs[s].key) && j != s by {
      assert Disp(|bs|, s, s) == 0;
    }
    IncAdvances(|bs|, j, s);
    assert Passable(bs, j, s);
    FurtherThanHome(|bs|, s, j, h, b.hash);
  }

  lemma FurtherThanHome(c: nat, s: nat, j: nat, h: nat, t: nat)
    requires s < c && j < c && h < c && t < c && j != s && h != s && Disp(c, j, h) == c - 1
    ensures Disp(c, s, h) < c - 1
    ensures Disp(c, s, h) < Disp(c, s, t) ==> 0 < Disp(c, h, t) < Disp(c, s, t) && Disp(c, h, h) == 0
  {
  }

  // A probe that passes the slot and has come further is stopped there now.
  lemma OutrankedIsStopped(bs: seq<Bucket>, fin: seq<Bucket>, s: nat, b: Bucket, m: nat)
    requires Enters(bs, fin, s, s, b) && m < |bs| && IsValid(bs[m].key)
    requires Disp(|bs|, s, b.hash) < Disp(|bs|, s, bs[m].hash) <= Disp(|bs|, m, bs[m].hash)
    ensures !Passable(fin, m, s)
  {
    assert m != s && fin[m] == bs[m] && fin[s] == b;
    if Disp(|bs|, s, bs[m].hash) == Disp(|bs|, m, bs[m].hash) {
      SameSlot(|bs|, m, s, bs[m].hash);
    }
  }

  lemma StoppedKeepsOrderExactly(bs: seq<Bucket>, fin: seq<Bucket>, s: nat, e: nat, b: Bucket)
    requires Enters(bs, fin, s, e, b) && StopsFor(bs, s, b)
    ensures Ordered(fin) <==> Outranks(bs, b.hash, s) && NoFullTurn(bs, s, e)
  {
    assert Disp(|bs|, s, s) == 0;
    if IsValid(bs[s].key) {
      EntryIsOutranked(bs, b.hash, s);
    }
    if !Outranks(bs, b.hash, s) {
      var m :| 0 <= m < |bs| && IsValid(bs[m].key) && bs[m].hash < |bs| &&
        Disp(|bs|, s, b.hash) < Disp(|bs|, s, bs[m].hash) <= Disp(|bs|, m, bs[m].hash);
      OutrankedIsStopped(bs, fin, s, b, m);
    } else if !NoFullTurn(bs, s, e) {
      var j :| 0 <= j < |bs| && Disp(|bs|, j, s) < Disp(|bs|, e, s) && bs[j].hash < |bs| &&
        Disp(|bs|, j, bs[j].hash) >= |bs| - 1;
      FullTurnLosesTheInsertedKey(bs, fin, s, e, b, j);
    } else {
      ShiftingKeepsOrder(bs, fin, s, e, b);
    }
  }

  // After a probe that has gone round, an entry that comes further to the slot
  // is stopped there by `b`, which is in the slot it hashes to.
  lemma CircledOutranks(bs: seq<Bucket>, fin: seq<Bucket>, s: nat, e: nat, b: Bucket, m: nat)
    requires Enters(bs, fin, s, e, b) && s == b.hash && NoFullTurn(bs, s, e) && Ordered(fin)
    requires m < |bs| && IsValid(bs[m].key) && Disp(|bs|, s, bs[m].hash) <= Disp(|bs|, m, bs[m].hash)
    ensures bs[m].hash == s
  {
    var c := |bs|;
    if Disp(c, m, s) < Disp(c, e, s) {
      IncAdvances(c, m, s);
      IncAdvances(c, m, bs[m].hash);
      StoppedAtHome(fin, s, IncIndex(m, c));
    } else {
      assert m != e && fin[m] == bs[m];
      if Disp(c, s, bs[m].hash) == Disp(c, m, bs[m].hash) {
        SameSlot(c, s, m, bs[m].hash);
      }
      StoppedAtHome(fin, s, m);
    }
  }

  // Only probes for the same slot pass an entry in the slot it hashes to.
  lemma StoppedAtHome(fin: seq<Bucket>, s: nat, m: nat)
    requires Ordered(fin) && s < |fin| && m < |fin| && IsValid(fin[s].key) && fin[s].hash == s
    requires IsValid(fin[m].key) && Disp(|fin|, s, fin[m].hash) < Disp(|fin|, m, fin[m].hash)
    ensures fin[m].hash == s
  {
    assert Passable(fin, m, s);
  }

  // If an entry is taken a full turn the first one that moves is, too ...
  lemma FirstTurns(bs: seq<Bucket>, fin: seq<Bucket>, s: nat, e: nat, b: Bucket, j: nat)
    requires Enters(bs, fin, s, e, b) && s == b.hash && Ordered(fin) && j < |bs|
    requires Disp(|bs|, j, s) < Disp(|bs|, e, s) && Disp(|bs|, j, bs[j].hash) == |bs| - 1
    ensures s != e && bs[s].hash == IncIndex(s, |bs|)
  {
    var c, n := |bs|, IncIndex(s, |bs|);
    assert Disp(c, s, s) == 0;
    assert fin[n] == bs[s];
    assert Passable(fin, n, s) && Passable(bs, j, s);
    if bs[s].hash != n {
      OneStep(c, s, bs[s].hash);
    }
  }

  lemma OneStep(c: nat, s: nat, h: nat)
    requires s < c && h < c && h != IncIndex(s, c)
    ensures Disp(c, s, h) < Disp(c, IncIndex(s, c), h)
    ensures Disp(c, s, h) <= 0 ==> h == s
  {
  }

  // ... and stops the entry before `b`, which has come all the way.
  lemma LastIsStopped(bs: seq<Bucket>, fin: seq<Bucket>, s: nat, e: nat, b: Bucket)
    requires Enters(bs, fin, s, e, b) && s == b.hash && Circled(bs, b.key, s)
    requires s != e && bs[s].hash == IncIndex(s, |bs|)
    ensures !Ordered(fin)
  {
    var c, n, p := |bs|, IncIndex(s, |bs|), DecIndex(s, |bs|);
    LastIsDisplaced(c, s, bs[p].hash);
    assert OnPath(bs, s, p);
    NotMoved(c, s, e);
    assert fin[p] == bs[p] && bs[p].hash == s;
    assert fin[n] == bs[s];
    assert !Passable(fin, p, n);
  }

  lemma LastIsDisplaced(c: nat, s: nat, h: nat)
    requires s < c && h < c
    ensures Disp(c, DecIndex(s, c), s) == c - 1
    ensures Disp(c, DecIndex(s, c), h) >= c - 1 ==> h == s
  {
  }

  lemma NotMoved(c: nat, s: nat, e: nat)
    requires s < c && e < c && s != e
    ensures Disp(c, e, s) <= c - 1 && (e != DecIndex(s, c) ==> Disp(c, e, s) < c - 1 && c > 2)
  {
  }

  lemma CircledTurns(bs: seq<Bucket>, fin: seq<Bucket>, s: nat, e: nat, b: Bucket, j: nat)
    requires Enters(bs, fin, s, e, b) && s == b.hash && Circled(bs, b.key, s) && j < |bs|
    requires Disp(|bs|, j, s) < Disp(|bs|, e, s) && Disp(|bs|, j, bs[j].hash) == |bs| - 1
    ensures !Ordered(fin)
  {
    if Ordered(fin) {
      FirstTurns(bs, fin, s, e, b, j);
      LastIsStopped(bs, fin, s, e, b);
    }
  }

  // An insertion keeps the table ordered exactly when no probe that comes to the
  // slot has come further than its own, and no entry is taken a full turn.
  lemma InsertionKeepsOrderExactly(bs: seq<Bucket>, fin: seq<Bucket>, s: nat, e: nat, b: Bucket)
    requires Enters(bs, fin, s, e, b) && EndsAt(bs, b.key, b.hash, s)
    ensures Ordered(fin) <==> Outranks(bs, b.hash, s) && NoFullTurn(bs, s, e)
  {
    if s != b.hash || !Circled(bs, b.key, b.hash) {
      StoppedKeepsOrderExactly(bs, fin, s, e, b);
    } else if Outranks(bs, s, s) && NoFullTurn(bs, s, e) {
      ShiftingKeepsOrder(bs, fin, s, e, b);
    } else if Ordered(fin) {
      if !NoFullTurn(bs, s, e) {
        var j :| 0 <= j < |bs| && Disp(|bs|, j, s) < Disp(|bs|, e, s) && bs[j].hash < |bs| &&
          Disp(|bs|, j, bs[j].hash) >= |bs| - 1;
        CircledTurns(bs, fin, s, e, b, j);
      } else {
        var m :| 0 <= m < |bs| && IsValid(bs[m].key) && bs[m].hash < |bs| &&
          Disp(|bs|, s, s) < Disp(|bs|, s, bs[m].hash) <= Disp(|bs|, m, bs[m].hash);
        CircledOutranks(bs, fin, s, e, b, m);
      }
    }
  }

  // ------------------------------------------------------------- the mapping

  type Contents = map<Key, Reducer>

  ghost predicate Unique(bs: seq<Bucket>) {
    forall i, j :: 0 <= i < |bs| && 0 <= j < |bs| && IsValid(bs[i].key) && bs[i].key == bs[j].key ==> i == j
  }

  ghost predicate HasKey(bs: seq<Bucket>, k: Key) {
    exists i :: 0 <= i < |bs| && bs[i].key == k
  }

  // The buckets hold exactly the entries of the map, each key once.
  ghost predicate Holds(bs: seq<Bucket>, contents: Contents) {
    && Unique(bs)
    && (forall i :: 0 <= i < |bs| && IsValid(bs[i].key) ==>
          bs[i].key in contents && contents[bs[i].key] == bs[i].value)
    && (forall k :: k in contents ==> IsValid(k) && HasKey(bs, k))
  }

  lemma PlacingHolds(bs: seq<Bucket>, contents: Contents, i: nat, b: Bucket)
    requires Holds(bs, contents) && i < |bs| && !IsValid(bs[i].key) && IsValid(b.key) && b.key !in contents
    ensures Holds(bs[i := b], contents[b.key := b.value])
  {
    var fin := bs[i := b];
    forall k | k in contents[b.key := b.value]
      ensures HasKey(fin, k)
    {
      if k == b.key {
        assert fin[i].key == k;
      } else {
        var j :| 0 <= j < |bs| && bs[j].key == k;
        assert fin[j].key == k;
      }
    }
  }

  lemma OverwritingHolds(bs: seq<Bucket>, contents: Contents, i: nat, b: Bucket)
    requires Holds(bs, contents) && i < |bs| && IsValid(b.key) && bs[i].key == b.key
    ensures Holds(bs[i := b], contents[b.key := b.value])
    ensures b.key in contents
  {
    var fin := bs[i := b];
    forall k | k in contents[b.key := b.value]
      ensures HasKey(fin, k)
    {
      var j :| 0 <= j < |bs| && bs[j].key == k;
      assert fin[j].key == k;
    }
  }

  // Every key is still there after a shift ...
  lemma ShiftingKeepsKeys(bs: seq<Bucket>, fin: seq<Bucket>, s: nat, e: nat, b: Bucket, k: Key)
    requires s < |bs| && e < |bs| && !IsValid(bs[e].key)
    requires Shifted(bs, fin, s, e, b)
    requires k == b.key || (IsValid(k) && HasKey(bs, k))
    ensures HasKey(fin, k)
  {
    if k == b.key {
      assert fin[s].key == k;
    } else {
      var j :| 0 <= j < |bs| && bs[j].key == k;
      if Disp(|bs|, j, s) > Disp(|bs|, e, s) {
        assert fin[j].key == k;
      } else {
        IncAdvances(|bs|, j, s);
        assert Disp(|bs|, j, s) < Disp(|bs|, e, s);
        assert fin[IncIndex(j, |bs|)] == bs[j];
      }
    }
  }

  // ... once.
  lemma ShiftingKeepsUnique(bs: seq<Bucket>, fin: seq<Bucket>, s: nat, e: nat, b: Bucket)
    requires Unique(bs) && s < |bs| && e < |bs|
    requires Shifted(bs, fin, s, e, b)
    requires !HasKey(bs, b.key)
    ensures Unique(fin)
  {
  }

  lemma ShiftingHolds(bs: seq<Bucket>, fin: seq<Bucket>, contents: Contents, s: nat, e: nat, b: Bucket)
    requires Holds(bs, contents) && s < |bs| && e < |bs| && !IsValid(bs[e].key)
    requires IsValid(b.key) && b.key !in contents
    requires Shifted(bs, fin, s, e, b)
    ensures Holds(fin, contents[b.key := b.value])
  {
    forall k | k in contents[b.key := b.value]
      ensures HasKey(fin, k)
    {
      ShiftingKeepsKeys(bs, fin, s, e, b, k);
    }
    ShiftingKeepsUnique(bs, fin, s, e, b);
  }

  // Where a probe stops, the key cannot lie further on.
  lemma StoppedProbeMisses(bs: seq<Bucket>, k: Key, t: nat, i: nat)
    requires Ordered(bs) && IsValid(k) && t < |bs| && i < |bs|
    requires forall j :: 0 <= j < |bs| && bs[j].key == k ==> bs[j].hash == t
    requires ProbedFor(bs, k, t, i)
    requires IsEmpty(bs[i].key) || (IsValid(bs[i].key) && Disp(|bs|, i, t) > Disp(|bs|, i, bs[i].hash))
    ensures !HasKey(bs, k)
  {
    forall m | 0 <= m < |bs|
      ensures bs[m].key != k
    {
      assert Passable(bs, m, i);
    }
  }

  // ------------------------------------------------------------- empty slots

  ghost function Empties(bs: seq<Bucket>): set<nat> {
    set i | 0 <= i < |bs| && IsEmpty(bs[i].key)
  }

  // Storing into one slot uses up at most one empty slot.
  lemma EmptiesAfter(bs: seq<Bucket>, fin: seq<Bucket>, e: nat)
    requires |fin| == |bs|
    requires forall j :: 0 <= j < |bs| && j != e && IsEmpty(bs[j].key) ==> IsEmpty(fin[j].key)
    ensures |Empties(fin)| >= |Empties(bs)| - 1
  {
    var kept := Empties(bs) - {e};
    assert kept <= Empties(fin);
    SubsetSize(kept, Empties(fin));
  }

  lemma SubsetSize(a: set<nat>, b: set<nat>)
    requires a <= b
    ensures |a| <= |b|
  {
    assert b == a + (b - a);
  }
}
