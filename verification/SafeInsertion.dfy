// When an insertion into a line overwrites what the rule for bytes would
// overwrite: the index of the entry it compares with is computed before the line
// is refined, so on a line that is coarser than the access it may name another
// entry.  Which lines are safe for an access, by their grain alone, is decided
// here exactly.

module SafeInsertion {
  import opened Alignment
  import opened ShadowLine
  import opened LineOps
  import opened ShadowScan

  // The entry that holds an offset.
  function EntryStart(lg: nat, o: nat): (start: nat)
    requires lg <= 9 && o < 512
    ensures start <= o < start + Grain(lg) && start % Grain(lg) == 0 && Idx(lg, start) == Idx(lg, o)
    ensures o < Grain(lg) ==> start == 0
    ensures o % Grain(lg) == 0 ==> start == o
  {
    StartOfMultiple(o, Grain(lg));
    o - o % Grain(lg)
  }

  function EntryEnd(lg: nat, o: nat): nat
    requires lg <= 9 && o < 512
  {
    EntryStart(lg, o) + Grain(lg)
  }

  // A line of this grain is safe for the chunk: it is as fine as the access, or
  // the access begins in the first entry of the line, or it ends in the entry it
  // begins in.
  predicate SafeFor(lg: nat, c0: Chunk)
    requires lg <= 9 && c0.addr > 0
  {
    lg <= LgGrainsize(c0) || Off(c0.addr) < Grain(lg) || EndOff(c0) <= EntryEnd(lg, Off(c0.addr))
  }

  // The bytes that an insertion has stored into.
  ghost predicate Inserts(l0: Line, c0: Chunk, e: nat)
    requires ValidLine(l0) && c0.addr > 0
  {
    InsertsUpTo(l0, c0, PreviousEntry(l0, c0), Grain(Min(l0.lg, LgGrainsize(c0))), e)
  }

  // They remember what the first of them remembers, or nothing.
  ghost predicate OneRunOf(l0: Line, s: nat, e: nat)
    requires Shaped(l0) && s < 512 && e <= 512
  {
    forall o :: s <= o < e ==> At(l0, o).Null? || Same(At(l0, s), At(l0, o))
  }

  lemma SameEntryAt(l: Line, o: nat, o': nat)
    requires Shaped(l) && o < 512 && o' < 512 && EntryStart(l.lg, o) <= o' < EntryEnd(l.lg, o)
    ensures At(l, o') == At(l, o)
  {
    EntryCovers(l.lg, EntryStart(l.lg, o), o);
    EntryCovers(l.lg, EntryStart(l.lg, o), o');
  }

  lemma SafeComparesRight(l0: Line, c0: Chunk)
    requires ValidLine(l0) && c0.addr > 0 && c0.size > 0
    requires l0.lg <= LgGrainsize(c0) || Off(c0.addr) < Grain(l0.lg)
    ensures PreviousEntry(l0, c0) == At(l0, Off(c0.addr))
  {
    if l0.lg <= LgGrainsize(c0) {
      DescribesFiner(c0, LgGrainsize(c0), l0.lg);
      FineLineComparesRight(l0, c0);
    } else {
      DivUnique(Off(c0.addr), Grain(l0.lg), 0);
      SameEntryAt(l0, Off(c0.addr), 0);
    }
  }

  lemma SafeRun(l0: Line, c0: Chunk, e: nat)
    requires ValidLine(l0) && c0.addr > 0 && c0.size > 0 && SafeFor(l0.lg, c0) && Inserts(l0, c0, e)
    ensures OneRunOf(l0, Off(c0.addr), e)
  {
    var s := Off(c0.addr);
    if l0.lg <= LgGrainsize(c0) || s < Grain(l0.lg) {
      SafeComparesRight(l0, c0);
      forall o | s <= o < e
        ensures At(l0, o).Null? || Same(At(l0, s), At(l0, o))
      {
        assert Passed(l0, s, PreviousEntry(l0, c0), Grain(Min(l0.lg, LgGrainsize(c0))), o);
      }
    } else {
      forall o | s <= o < e
        ensures At(l0, o) == At(l0, s)
      {
        SameEntryAt(l0, s, o);
      }
    }
  }

  // A line that remembers `a` but for one entry.
  function LineBut(lg: nat, i: nat, a: Access): (l: Line)
    requires lg <= 9 && i < Grain(9 - lg) && a.Access?
    ensures ValidLine(l) && l.lg == lg && l.data != []
  {
    var n := Grain(9 - lg);
    ValidsOfCopies(Copies(n, a), a);
    ValidsAfter(Copies(n, a), i, Null);
    Line(lg, Copies(n, a)[i := Null], n - 1)
  }

  lemma ButOneEntry(lg: nat, x: nat, a: Access, o: nat)
    requires lg <= 9 && a.Access? && x < 512 && o < 512
    ensures At(LineBut(lg, Idx(lg, x), a), o) ==
      if EntryStart(lg, x) <= o < EntryEnd(lg, x) then Null else a
  {
    EntryCovers(lg, EntryStart(lg, x), o);
  }

  // On a line that is not safe, the entry compared with lies before the access.
  lemma UnsafeComparesEarlier(lg: nat, c0: Chunk)
    requires lg <= 9 && c0.addr > 0 && c0.size > 0 && !SafeFor(lg, c0)
    ensures Idx(lg, Off(c0.addr)) * Grain(LgGrainsize(c0)) < EntryStart(lg, Off(c0.addr))
  {
    var i, g, g' := Idx(lg, Off(c0.addr)), Grain(lg), Grain(LgGrainsize(c0));
    assert g' < g;
    Euclid(Off(c0.addr), g);
    assert EntryStart(lg, Off(c0.addr)) == i * g;
    assert i > 0;
    LessTimes(i, g', g);
  }

  lemma LessTimes(i: nat, g: nat, g': nat)
    requires i > 0 && g < g'
    ensures i * g < i * g'
  {
  }

  lemma UnsafeStep(lg: nat, c0: Chunk)
    requires lg <= 9 && c0.addr > 0 && c0.size > 0 && !SafeFor(lg, c0)
    ensures var (s, g) := (Off(c0.addr), Grain(LgGrainsize(c0)));
      LgGrainsize(c0) < lg && s + g <= EndOff(c0) && s + g <= EntryEnd(lg, s)
  {
    var lg', s := LgGrainsize(c0), Off(c0.addr);
    OffAligned(c0.addr, lg');
    AlignedFiner(EntryStart(lg, s), lg, lg');
    assert EntryEnd(lg, s) % Grain(lg') == 0 by {
      ModAdd(1, EntryStart(lg, s), Grain(lg));
      AlignedFiner(EntryEnd(lg, s), lg, lg');
    }
    NextMultiple(s, Grain(lg'));
    NoMultipleBetween(s, Grain(lg'), EntryEnd(lg, s));
  }

  // There the insertion goes on to the end, if the line remembers `a` everywhere
  // but at the access.
  lemma UnsafeInsertsAll(lg: nat, c0: Chunk, a: Access)
    requires lg <= 9 && c0.addr > 0 && c0.size > 0 && !SafeFor(lg, c0) && a.Access?
    ensures Inserts(LineBut(lg, Idx(lg, Off(c0.addr)), a), c0, EndOff(c0))
    ensures forall e :: Inserts(LineBut(lg, Idx(lg, Off(c0.addr)), a), c0, e) ==> e == EndOff(c0)
  {
    var s := Off(c0.addr);
    var l0 := LineBut(lg, Idx(lg, s), a);
    UnsafeStep(lg, c0);
    UnsafeComparesEarlier(lg, c0);
    ButOneEntry(lg, s, a, Idx(lg, s) * Grain(LgGrainsize(c0)));
    assert PreviousEntry(l0, c0) == a;
    forall o | s <= o < EndOff(c0)
      ensures Passed(l0, s, a, Grain(LgGrainsize(c0)), o) && GoesOn(a, At(l0, o))
    {
      ButOneEntry(lg, s, a, s);
      ButOneEntry(lg, s, a, o);
    }
  }

  // An insertion where nothing parallel is remembered stores into no byte that
  // remembers something parallel.
  ghost predicate KeepsParallel(par: Oracle, l0: Line, c0: Chunk, e: nat)
    requires c0.addr > 0
  {
    ValidLine(l0) && !InParallel(par, At(l0, Off(c0.addr))) && Inserts(l0, c0, e) ==>
      forall o :: Off(c0.addr) <= o < e ==> !InParallel(par, At(l0, o))
  }

  lemma SafeKeepsParallel(par: Oracle, l0: Line, c0: Chunk, e: nat)
    requires c0.addr > 0 && c0.size > 0 && l0.lg <= 9 && SafeFor(l0.lg, c0)
    ensures KeepsParallel(par, l0, c0, e)
  {
    if ValidLine(l0) && Inserts(l0, c0, e) {
      SafeRun(l0, c0, e);
    }
  }

  lemma UnsafeOverwrites(par: Oracle, lg: nat, c0: Chunk, a: Access)
    requires lg <= 9 && c0.addr > 0 && c0.size > 0 && !SafeFor(lg, c0) && InParallel(par, a)
    ensures !KeepsParallel(par, LineBut(lg, Idx(lg, Off(c0.addr)), a), c0, EndOff(c0))
  {
    var s := Off(c0.addr);
    UnsafeInsertsAll(lg, c0, a);
    ButOneEntry(lg, s, a, s);
    ButOneEntry(lg, s, a, EntryEnd(lg, s));
  }

  // For every chunk and every grain: insertions into lines of that grain keep
  // all parallel accesses, whatever the lines remember and whatever is parallel,
  // if and only if the grain is safe for the chunk.
  lemma SafeExactly(lg: nat, c0: Chunk)
    requires lg <= 9 && c0.addr > 0 && c0.size > 0
    ensures SafeFor(lg, c0) <==>
      forall par: Oracle, l0: Line, e: nat :: l0.lg == lg ==> KeepsParallel(par, l0, c0, e)
  {
    if SafeFor(lg, c0) {
      forall par: Oracle, l0: Line, e: nat | l0.lg == lg
        ensures KeepsParallel(par, l0, c0, e)
      {
        SafeKeepsParallel(par, l0, c0, e);
      }
    } else {
      var a: Access, par: Oracle := Access(1, 0, 0), (f, ver) => true;
      UnsafeOverwrites(par, lg, c0, a);
      var l0 := LineBut(lg, Idx(lg, Off(c0.addr)), a);
      assert l0.lg == lg && !KeepsParallel(par, l0, c0, EndOff(c0));
    }
  }

  // ------------------------------------------------------- a line of a region

  // The offset from which an insertion at or after this one may compare with an
  // entry before its own: none in the first entry of the line does.
  function FirstReach(lg: nat, off: nat): nat
    requires lg <= 9 && off < 512
  {
    if off < Grain(lg) then 2 * Grain(lg) else EntryEnd(lg, off)
  }

  // A region's part of a line, from `off` to `eo`, whose updates are safe: it
  // cuts no entry that matters, or it is over before that can show.
  predicate PartSafe(lg: nat, off: nat, eo: nat)
    requires lg <= 9 && off < 512
  {
    || ((off < Grain(lg) || off % Grain(lg) == 0) && eo % Grain(lg) == 0)
    || eo <= FirstReach(lg, off)
  }

  lemma OffShift(addr: nat, d: nat)
    requires Off(addr) + d < 512
    ensures Off(addr + d) == Off(addr) + d && LineOf(addr + d) == LineOf(addr)
  {
  }

  lemma EndOffIs(c: Chunk)
    ensures if WithinLine(c) then Off(c.addr + c.size) == EndOff(c) else EndOff(c) == 512
  {
    if WithinLine(c) {
      OffShift(c.addr, c.size);
    }
  }

  lemma EndIsDescribed(c: Chunk, lg: nat)
    requires c.addr > 0 && lg <= 9
    ensures lg <= LgGrainsize(c) <==> Off(c.addr) % Grain(lg) == 0 && EndOff(c) % Grain(lg) == 0
  {
    assert Describes(c, lg) <==> Off(c.addr) % Grain(lg) == 0 && EndOff(c) % Grain(lg) == 0 by {
      EndOffIs(c);
      OffAligned(c.addr, lg);
      OffAligned(c.addr + c.size, lg);
      LineIsWholeGrains(lg, 1);
    }
    if lg <= LgGrainsize(c) {
      DescribesFiner(c, LgGrainsize(c), lg);
    }
  }

  // Insertions anywhere in a safe part are safe ...
  lemma PartIsSafe(lg: nat, c: Chunk)
    requires lg <= 9 && c.addr > 0 && c.size > 0 && PartSafe(lg, Off(c.addr), EndOff(c))
    ensures SafeFor(lg, c)
  {
    EndIsDescribed(c, lg);
  }

  // ... and in one that is not safe, the insertion at its start is not, or the
  // one at the second entry.
  lemma SecondEntryUnsafe(lg: nat, c1: Chunk)
    requires lg <= 9 && c1.addr > 0 && Off(c1.addr) == Grain(lg)
    requires EndOff(c1) % Grain(lg) != 0 && EndOff(c1) > 2 * Grain(lg)
    ensures !SafeFor(lg, c1)
  {
    EndIsDescribed(c1, lg);
    ModAdd(1, 0, Grain(lg));
  }

  lemma PartIsUnsafe(lg: nat, c: Chunk)
    requires lg <= 9 && c.addr > 0 && c.size > 0 && !PartSafe(lg, Off(c.addr), EndOff(c))
    ensures Off(c.addr) >= Grain(lg) ==> !SafeFor(lg, c)
    ensures Off(c.addr) < Grain(lg) ==>
      var d := Grain(lg) - Off(c.addr); 0 < d < c.size && !SafeFor(lg, Chunk(c.addr + d, c.size - d))
  {
    if Off(c.addr) < Grain(lg) {
      var d := Grain(lg) - Off(c.addr);
      OffShift(c.addr, d);
      SecondEntryUnsafe(lg, Chunk(c.addr + d, c.size - d));
    } else {
      EndIsDescribed(c, lg);
    }
  }

  // The part after the first entry, and the part of an aligned rest, are safe.
  lemma PartAfterEntry(lg: nat, off: nat, eo: nat)
    requires lg <= 9 && off < 512 && PartSafe(lg, off, eo) && EntryEnd(lg, off) < 512
    ensures PartSafe(lg, EntryEnd(lg, off), eo)
  {
    ModAdd(1, EntryStart(lg, off), Grain(lg));
  }

  lemma AlignedPart(lg: nat, off: nat, eo: nat)
    requires lg <= 9 && off < 512 && off % Grain(lg) == 0 && eo % Grain(lg) == 0
    ensures PartSafe(lg, off, eo)
  {
  }
}
