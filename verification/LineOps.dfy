// Setting, inserting and clearing the accesses of a line, byte for byte.

module LineOps {
  import opened Alignment
  import opened ShadowLine

  // What is remembered for a byte after `v` has been set: the same node keeps its
  // version, unless the line has been reset before.
  function Stored(reset: bool, prev: Access, v: Access): (now: Access)
    ensures v.Access? ==> IsWritten(now, prev, v, reset)
  {
    if reset then v else Put(prev, v)
  }

  // Setting a whole line resets it, unless it has one entry already.
  predicate Resets(l: Line, off: nat, eo: nat) {
    off == 0 && eo == 512 && l.lg != LG_LINE_SIZE
  }

  // The chunk's bytes of the line.
  predicate Covers(c: Chunk, o: nat) {
    Off(c.addr) <= o < EndOff(c)
  }

  // Pick the finer of the granularities of line and access.
  method RefineFor(l0: Line, accessedLg: nat) returns (l: Line, lg: nat)
    requires ValidLine(l0) && accessedLg <= 9
    ensures ValidLine(l) && l.lg == lg == Min(l0.lg, accessedLg) && (l.data == [] <==> l0.data == [])
    ensures forall o :: 0 <= o < 512 ==> At(l, o) == At(l0, o)
    ensures lg == l0.lg ==> l == l0
    ensures l.count == 0 <==> l0.count == 0
  {
    l := l0;
    lg := accessedLg;
    if l0.lg > accessedLg {
      l := Refine(l0, accessedLg);
    } else if l0.lg < accessedLg {
      lg := l0.lg;
    }
  }

  method MaterializeIfNeeded(l0: Line) returns (l: Line)
    requires ValidLine(l0)
    ensures ValidLine(l) && l.data != [] && l.lg == l0.lg
    ensures forall o :: 0 <= o < 512 ==> At(l, o) == At(l0, o)
    ensures l0.data != [] ==> l == l0
  {
    l := l0;
    if l.data == [] {
      l := Materialize(l);
    }
  }

  // Store an access into the entry of an aligned offset.
  method StoreEntry(l0: Line, o: nat, v: Access) returns (l: Line)
    requires ValidLine(l0) && l0.data != [] && o < 512 && o % Grain(l0.lg) == 0 && v.Access?
    ensures ValidLine(l) && l.data != [] && l.lg == l0.lg
    ensures forall o' :: 0 <= o' < 512 ==>
      At(l, o') == if o <= o' < o + Grain(l0.lg) then Put(At(l0, o'), v) else At(l0, o')
    ensures forall o' :: o <= o' < o + Grain(l0.lg) && o' < 512 ==> IsWritten(At(l, o'), At(l0, o'), v, false)
  {
    var i := Idx(l0.lg, o);
    var count := l0.count;
    // Check if we're adding a new valid entry.
    if l0.data[i].Null? {
      count := count + 1;
    }
    l := l0.(data := l0.data[i := Put(l0.data[i], v)], count := count);
    UpdateAt(l0, o, Put(l0.data[i], v), l);
    ValidsAfter(l0.data, i, Put(l0.data[i], v));
  }

  // Where a loop over the line's part of a chunk has come.
  ghost predicate Along(c0: Chunk, c: Chunk, lg: nat) {
    && lg <= 9 && c0.size > 0 && c.size > 0 && c.addr + c.size == c0.addr + c0.size
    && LineOf(c.addr) == LineOf(c0.addr) && c.addr >= c0.addr && c.addr % Grain(lg) == 0
  }

  // The next step of such a loop.
  method StepAlong(c0: Chunk, c: Chunk, lg: nat) returns (n: Chunk)
    requires Describes(c0, lg) && Along(c0, c, lg)
    ensures Off(c.addr) % Grain(lg) == 0 && Off(c.addr) + Grain(lg) <= EndOff(c0)
    ensures n == Next(c, lg) && n.addr == c.addr + Grain(lg) && n.size < c.size
    ensures n.size == 0 || IsLineStart(n.addr) ==> AfterLine(c0, n) && Off(c.addr) + Grain(lg) == EndOff(c0)
    ensures n.size > 0 && !IsLineStart(n.addr) ==> Along(c0, n, lg) && Off(n.addr) == Off(c.addr) + Grain(lg)
  {
    StepThroughLine(c0, c, lg);
    StepStaysInLine(c0, c, Grain(lg), Advance(c, c.addr + Grain(lg)));
    n := Next(c, lg);
  }

  lemma StartsAlong(c0: Chunk, lg: nat)
    requires Describes(c0, lg) && c0.size > 0
    ensures Along(c0, c0, lg)
  {
  }

  // An access that overwrites the entire line.
  lemma WholeLine(c0: Chunk)
    requires c0.addr > 0 && c0.size > 0 && LgGrainsize(c0) == 9
    ensures Off(c0.addr) == 0 && EndOff(c0) == 512
    ensures AfterLine(c0, Next(c0, 9)) && Next(c0, 9).addr == NextLine(c0.addr)
  {
    StepThroughLine(c0, c0, 9);
    StepStaysInLine(c0, c0, 512, Advance(c0, c0.addr + 512));
  }

  lemma CoversWholeLine(c0: Chunk)
    requires c0.addr > 0 && c0.size > 0
    ensures LgGrainsize(c0) == 9 <==> Off(c0.addr) == 0 && EndOff(c0) == 512
  {
    if Off(c0.addr) == 0 && EndOff(c0) == 512 {
      assert Describes(c0, 9);
    } else if LgGrainsize(c0) == 9 {
      WholeLine(c0);
    }
  }

  // Set all entries of the line that the chunk covers; a whole line is
  // coalesced into one entry.
  method SetLine(l0: Line, c0: Chunk, v: Access) returns (l: Line, c: Chunk)
    requires ValidLine(l0) && c0.addr > 0 && c0.size > 0 && v.Access?
    ensures ValidLine(l) && AfterLine(c0, c) && c.size < c0.size
    ensures forall o :: 0 <= o < 512 ==>
      At(l, o) == if Covers(c0, o) then Stored(Resets(l0, Off(c0.addr), EndOff(c0)), At(l0, o), v) else At(l0, o)
    ensures forall o :: 0 <= o < 512 && Covers(c0, o) ==>
      IsWritten(At(l, o), At(l0, o), v, Resets(l0, Off(c0.addr), EndOff(c0)))
    ensures l.lg == if LgGrainsize(c0) == LG_LINE_SIZE then LG_LINE_SIZE else Min(l0.lg, LgGrainsize(c0))
  {
    var accessedLg := LgGrainsize(c0);
    CoversWholeLine(c0);
    if accessedLg == LG_LINE_SIZE {
      WholeLine(c0);
      l := l0;
      if l.lg != LG_LINE_SIZE {
        l := EMPTY_LINE;
      }
      l := MaterializeIfNeeded(l);
      l := StoreEntry(l, 0, v);
      return l, Next(c0, 9);
    }
    var lg;
    l, lg := RefineFor(l0, accessedLg);
    DescribesFiner(c0, accessedLg, lg);
    l := MaterializeIfNeeded(l);
    c := c0;
    StartsAlong(c0, lg);
    while true
      invariant ValidLine(l) && l.data != [] && l.lg == lg && Along(c0, c, lg)
      invariant forall o :: 0 <= o < 512 ==>
        At(l, o) == if Off(c0.addr) <= o < Off(c.addr) then Put(At(l0, o), v) else At(l0, o)
      decreases c.size
    {
      var n := StepAlong(c0, c, lg);
      l := StoreEntry(l, Off(c.addr), v);
      c := n;
      if c.size == 0 || IsLineStart(c.addr) {
        return;
      }
    }
  }

  // Forget the access of an entry.
  method InvalidateEntry(l0: Line, o: nat) returns (l: Line)
    requires ValidLine(l0) && l0.data != [] && o < 512 && o % Grain(l0.lg) == 0 && l0.data[Idx(l0.lg, o)].Access?
    ensures ValidLine(l) && l.data != [] && l.lg == l0.lg && l.count == l0.count - 1
    ensures forall o' :: 0 <= o' < 512 ==> At(l, o') == if o <= o' < o + Grain(l0.lg) then Null else At(l0, o')
  {
    var i := Idx(l0.lg, o);
    ValidsAfter(l0.data, i, Null);
    l := l0.(data := l0.data[i := Null], count := l0.count - 1);
    UpdateAt(l0, o, Null, l);
  }

  lemma SkipToNextLine(c0: Chunk, c: Chunk, lg: nat)
    requires Along(c0, c, lg)
    ensures AfterLine(c0, Next(c, 9)) && (Next(c, 9).size > 0 ==> IsLineStart(Next(c, 9).addr))
    ensures Next(c, 9).size < c.size
  {
  }

  // Clear the entries of the line that the chunk covers.
  method ClearLine(l0: Line, c0: Chunk) returns (l: Line, c: Chunk)
    requires ValidLine(l0) && c0.addr > 0 && c0.size > 0
    ensures ValidLine(l) && AfterLine(c0, c) && c.size < c0.size
    ensures forall o :: 0 <= o < 512 ==> At(l, o) == if Covers(c0, o) then Null else At(l0, o)
    ensures l.count > 0 ==> l.lg == Min(l0.lg, LgGrainsize(c0))
    ensures l0.count > 0 && l.count == 0 ==> l.lg == LG_LINE_SIZE
  {
    var accessedLg := LgGrainsize(c0);
    if accessedLg == LG_LINE_SIZE {
      WholeLine(c0);
      l := l0;
      if l.count != 0 {
        l := EMPTY_LINE;
      } else {
        EmptyIsNull(l);
      }
      return l, Next(c0, 9);
    }
    var lg;
    l, lg := RefineFor(l0, accessedLg);
    DescribesFiner(c0, accessedLg, lg);
    StartsAlong(c0, lg);
    c := c0;
    if l.count == 0 {
      EmptyIsNull(l);
      SkipToNextLine(c0, c, lg);
      return l, Next(c, 9);
    }
    while true
      invariant ValidLine(l) && l.data != [] && l.lg == lg && Along(c0, c, lg)
      invariant forall o :: 0 <= o < 512 ==>
        At(l, o) == if Off(c0.addr) <= o < Off(c.addr) then Null else At(l0, o)
      invariant l.count > 0
      decreases c.size
    {
      var n := StepAlong(c0, c, lg);
      EntryIsOneAccess(l, Off(c.addr));
      if l.data[Idx(lg, Off(c.addr))].Access? {
        l := InvalidateEntry(l, Off(c.addr));
        if l.count == 0 {
          // Skip to the end of the line, and forget about any refinement.
          EmptyIsNull(l);
          SkipToNextLine(c0, c, lg);
          c := Next(c, 9);
          if lg != LG_LINE_SIZE {
            l := EMPTY_LINE;
          }
          return;
        }
      }
      c := n;
      if c.size == 0 || IsLineStart(c.addr) {
        return;
      }
    }
  }

  lemma EntryIsOneAccess(l: Line, o: nat)
    requires ValidLine(l) && l.data != [] && o < 512 && o % Grain(l.lg) == 0
    ensures forall o' :: o <= o' < o + Grain(l.lg) && o' < 512 ==> At(l, o') == l.data[Idx(l.lg, o)]
  {
    forall o' | o <= o' < o + Grain(l.lg) && o' < 512
      ensures At(l, o') == l.data[Idx(l.lg, o)]
    {
      EntryCovers(l.lg, o, o');
    }
  }

  // --------------------------------------------------------------- inserting

  // An insertion goes on past an entry that holds nothing, or the same access
  // as `previous`.
  predicate GoesOn(previous: Access, a: Access) {
    a.Null? || (previous.Access? && Same(previous, a))
  }

  // An insertion of the chunk into the line has stored into the offsets below
  // `e`: the first entry, of `g` bytes, and the run of entries it goes on past.
  ghost predicate InsertsUpTo(l0: Line, c0: Chunk, previous: Access, g: nat, e: nat)
    requires Shaped(l0)
  {
    && Off(c0.addr) < Off(c0.addr) + g <= e <= EndOff(c0)
    && RunPassed(l0, Off(c0.addr), previous, g, e)
    && (e < EndOff(c0) ==> !GoesOn(previous, At(l0, e)))
  }

  // An insertion that starts at offset `s` stores into offset `o`.
  predicate Passed(l0: Line, s: nat, previous: Access, g: nat, o: nat)
    requires Shaped(l0) && s < 512 && o < 512
  {
    if o < s + g then At(l0, o) == At(l0, s) else GoesOn(previous, At(l0, o))
  }

  // What is left of a chunk after an insertion up to offset `e` of the line.
  ghost predicate LeftAfter(c0: Chunk, e: nat, c: Chunk) {
    if e == EndOff(c0) then AfterLine(c0, c)
    else c.addr + Off(c0.addr) == c0.addr + e && c.addr + c.size == c0.addr + c0.size && c.size > 0
  }

  // The entry that an insertion compares with.  Its index is computed before
  // the line is refined for the access.
  function PreviousEntry(l0: Line, c0: Chunk): Access
    requires Shaped(l0) && c0.addr > 0
  {
    var lg := Min(l0.lg, LgGrainsize(c0));
    var i := Idx(l0.lg, Off(c0.addr));
    IndexIsFiner(l0.lg, lg, Off(c0.addr));
    At(l0, i * Grain(lg))
  }

  lemma IndexIsFiner(lg: nat, lg': nat, o: nat)
    requires lg' <= lg <= 9 && o < 512
    ensures Idx(lg, o) * Grain(lg') < 512
    ensures Idx(lg', Idx(lg, o) * Grain(lg')) == Idx(lg, o)
    ensures o % Grain(lg) == 0 && lg' == lg ==> Idx(lg, o) * Grain(lg') == o
  {
    var i := Idx(lg, o);
    Euclid(o, Grain(lg));
    assert i * Grain(lg') <= i * Grain(lg);
    DivUnique(i * Grain(lg'), Grain(lg'), i);
  }

  // It is the access at the chunk's address when the line is already at least
  // as fine as the access.
  lemma FineLineComparesRight(l0: Line, c0: Chunk)
    requires Shaped(l0) && c0.addr > 0 && Describes(c0, l0.lg)
    ensures PreviousEntry(l0, c0) == At(l0, Off(c0.addr))
  {
    OffAligned(c0.addr, l0.lg);
    IndexIsFiner(l0.lg, l0.lg, Off(c0.addr));
  }

  // `l` is line `l1` with `v` stored into the offsets from `s` to `e`.
  ghost predicate StoredTo(l1: Line, l: Line, s: nat, e: nat, v: Access)
    requires Shaped(l1) && Shaped(l)
  {
    forall o :: 0 <= o < 512 ==> At(l, o) == if s <= o < e then Put(At(l1, o), v) else At(l1, o)
  }

  ghost predicate RunPassed(l0: Line, s: nat, previous: Access, g: nat, e: nat)
    requires Shaped(l0) && s < 512 && e <= 512
  {
    forall o :: s <= o < e ==> Passed(l0, s, previous, g, o)
  }

  lemma RunPassesEntry(l1: Line, s: nat, previous: Access, x: nat)
    requires ValidLine(l1) && l1.data != [] && s <= x < 512 && x + Grain(l1.lg) <= 512 && x % Grain(l1.lg) == 0
    requires RunPassed(l1, s, previous, Grain(l1.lg), x)
    requires x == s || (s + Grain(l1.lg) <= x && GoesOn(previous, At(l1, x)))
    ensures RunPassed(l1, s, previous, Grain(l1.lg), x + Grain(l1.lg))
  {
    EntryIsOneAccess(l1, x);
    forall o | s <= o < x + Grain(l1.lg)
      ensures Passed(l1, s, previous, Grain(l1.lg), o)
    {
      if o >= x {
        assert At(l1, o) == At(l1, x);
      }
    }
  }

  // The insertion's loop over the entries of a line that is fine enough.
  method InsertRun(l1: Line, c0: Chunk, previous: Access, v: Access) returns (l: Line, c: Chunk, ghost e: nat)
    requires ValidLine(l1) && l1.data != [] && c0.size > 0 && Describes(c0, l1.lg) && v.Access?
    ensures ValidLine(l) && l.lg == l1.lg && c.size < c0.size && LeftAfter(c0, e, c)
    ensures InsertsUpTo(l1, c0, previous, Grain(l1.lg), e)
    ensures StoredTo(l1, l, Off(c0.addr), e, v)
    ensures e < EndOff(c0) ==> c.addr % Grain(l1.lg) == 0
  {
    l, c := l1, c0;
    var lg, s := l1.lg, Off(c0.addr);
    StartsAlong(c0, lg);
    while true
      invariant ValidLine(l) && l.data != [] && l.lg == lg && Along(c0, c, lg)
      invariant c.addr == c0.addr || (s + Grain(lg) <= Off(c.addr) && GoesOn(previous, At(l1, Off(c.addr))))
      invariant StoredTo(l1, l, s, Off(c.addr), v)
      invariant RunPassed(l1, s, previous, Grain(lg), Off(c.addr))
      decreases c.size
    {
      var n := StepAlong(c0, c, lg);
      RunPassesEntry(l1, s, previous, Off(c.addr));
      l := StoreEntry(l, Off(c.addr), v);
      e := Off(c.addr) + Grain(lg);
      c := n;
      if c.size == 0 || IsLineStart(c.addr) {
        return;
      }
      assert At(l, Off(c.addr)) == At(l1, Off(c.addr));
      if !GoesOn(previous, l.data[Idx(lg, Off(c.addr))]) {
        return;
      }
    }
  }

  lemma SameRun(l0: Line, l1: Line, c0: Chunk, previous: Access, g: nat, e: nat)
    requires ValidLine(l0) && ValidLine(l1) && (forall o :: 0 <= o < 512 ==> At(l1, o) == At(l0, o))
    requires InsertsUpTo(l1, c0, previous, g, e)
    ensures InsertsUpTo(l0, c0, previous, g, e)
  {
    forall o | Off(c0.addr) <= o < e
      ensures Passed(l0, Off(c0.addr), previous, g, o)
    {
      assert Passed(l1, Off(c0.addr), previous, g, o);
    }
  }

  // Insert the access into the line from the chunk's address on, until the
  // line or the chunk ends or another access is found.
  method InsertLine(l0: Line, c0: Chunk, prevIdx: nat, v: Access)
    returns (l: Line, c: Chunk, ghost g: nat, ghost e: nat)
    requires ValidLine(l0) && c0.addr > 0 && c0.size > 0 && v.Access?
    requires prevIdx == Idx(l0.lg, Off(c0.addr))
    ensures ValidLine(l) && c.size < c0.size && LeftAfter(c0, e, c) && g == Grain(Min(l0.lg, LgGrainsize(c0)))
    ensures InsertsUpTo(l0, c0, PreviousEntry(l0, c0), g, e)
    ensures StoredTo(l0, l, Off(c0.addr), e, v)
    ensures forall o :: Off(c0.addr) <= o < e ==> IsWritten(At(l, o), At(l0, o), v, false)
    ensures l.lg == Min(l0.lg, LgGrainsize(c0)) && (e < EndOff(c0) ==> c.addr % Grain(l.lg) == 0)
  {
    var accessedLg := LgGrainsize(c0);
    var l1 := MaterializeIfNeeded(l0);
    if accessedLg == LG_LINE_SIZE && l1.lg == LG_LINE_SIZE {
      WholeLine(c0);
      EntryIsOneAccess(l1, 0);
      l := StoreEntry(l1, 0, v);
      return l, Next(c0, 9), 512, 512;
    }
    var lg;
    l1, lg := RefineFor(l1, accessedLg);
    DescribesFiner(c0, accessedLg, lg);
    IndexIsFiner(l0.lg, lg, Off(c0.addr));
    var previous := l1.data[prevIdx];
    assert previous == PreviousEntry(l0, c0);
    l, c, e := InsertRun(l1, c0, previous, v);
    g := Grain(lg);
    SameRun(l0, l1, c0, previous, g, e);
  }
}
