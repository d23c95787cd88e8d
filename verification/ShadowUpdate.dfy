// Updating the shadow memory with a new access: runs of entries are compared
// and overwritten at once.  On a region that is safe this has the effect of a
// byte-by-byte update; on any other there is a memory for which it has not.

module ShadowUpdate {
  import opened Alignment
  import opened ShadowLine
  import opened LineOps
  import opened ShadowDictionary
  import opened ShadowScan
  import opened SafeInsertion

  // The rule for one byte: a new access replaces nothing or an access in
  // series; an access in parallel stays.
  function Updated(par: Oracle, prev: Access, v: Access): Access {
    if InParallel(par, prev) then prev else Put(prev, v)
  }

  // The line is empty, or its part of the region is safe for its grain.
  predicate SafeIn(lines: Lines, k: nat, off: nat, eo: nat)
    requires off < 512
  {
    LineAt(lines, k).count == 0 || PartSafe(LineAt(lines, k).lg, off, eo)
  }

  // Only the lines in which the region begins and ends can be unsafe for it.
  predicate SafeRegion(lines: Lines, c: Chunk) {
    c.size > 0 ==>
      && SafeIn(lines, LineOf(c.addr), Off(c.addr), EndOff(c))
      && (LineOf(c.addr) < LineOf(c.addr + c.size) ==>
            SafeIn(lines, LineOf(c.addr + c.size), 0, Off(c.addr + c.size)))
  }

  // What `from` remembers is remembered up to `to`, or nothing is.
  ghost predicate OneRun(lines: Lines, from: nat, to: nat) {
    forall a :: from <= a < to ==> View(lines, a).Null? || Same(View(lines, from), View(lines, a))
  }

  // The bytes of a region have been overwritten, others have not changed.
  ghost predicate PutIn(old_: Lines, new_: Lines, from: nat, to: nat, v: Access) {
    forall a: nat :: View(new_, a) == if from <= a < to then Put(View(old_, a), v) else View(old_, a)
  }

  lemma PutWrites(l0: Lines, l1: Lines, from: nat, to: nat, v: Access)
    requires PutIn(l0, l1, from, to, v) && v.Access?
    ensures forall a :: from <= a < to ==> IsWritten(View(l1, a), View(l0, a), v, false)
    ensures View(l1, to) == View(l0, to)
  {
  }

  lemma SameLineSamePage(a: nat, b: nat)
    requires LineOf(a) == LineOf(b)
    ensures PageOf(a) == PageOf(b)
  {
  }

  // Where an insertion into a line leaves the chunk.
  lemma FrontAfter(c0: Chunk, e: nat, c: Chunk)
    requires c0.size > 0 && LeftAfter(c0, e, c) && Off(c0.addr) < e <= EndOff(c0)
    ensures Rest(c, c0.addr, c0.addr + c0.size)
    ensures Front(c, c0.addr + c0.size) == c0.addr + (e - Off(c0.addr))
    ensures c.size > 0 ==> c.addr > c0.addr && (IsPageStart(c.addr) || PageOf(c.addr) == PageOf(c0.addr))
  {
    if e == EndOff(c0) {
      AfterLineFront(c0, c);
    } else {
      assert LineOf(c.addr) == LineOf(c0.addr);
      SameLineSamePage(c.addr, c0.addr);
    }
  }

  // The outcome of an insertion into a line.
  ghost predicate LineInserted(l0: GoodLine, c0: Chunk, l: GoodLine, c: Chunk, e: nat, v: Access)
    requires c0.addr > 0
  {
    && Inserts(l0, c0, e) && StoredTo(l0, l, Off(c0.addr), e, v)
    && LeftAfter(c0, e, c) && l.lg == Min(l0.lg, LgGrainsize(c0)) && (e < EndOff(c0) ==> c.addr % Grain(l.lg) == 0)
  }

  // What it does to the dictionary ...
  lemma InsertedLine(lines: Lines, c0: Chunk, l: GoodLine, c: Chunk, e: nat, v: Access, lines': Lines)
    requires c0.addr > 0 && c0.size > 0
    requires LineInserted(LineAt(lines, LineOf(c0.addr)), c0, l, c, e, v)
    requires lines' == lines[LineOf(c0.addr) := l]
    ensures Rest(c, c0.addr, c0.addr + c0.size)
    ensures c.size > 0 ==> c.addr > c0.addr && (IsPageStart(c.addr) || PageOf(c.addr) == PageOf(c0.addr))
    ensures Front(c, c0.addr + c0.size) == c0.addr + (e - Off(c0.addr))
    ensures PutIn(lines, lines', c0.addr, Front(c, c0.addr + c0.size), v)
  {
    FrontAfter(c0, e, c);
    forall a: nat
      ensures View(lines', a) ==
        if c0.addr <= a < Front(c, c0.addr + c0.size) then Put(View(lines, a), v) else View(lines, a)
    {
      ReplacedLine(lines, LineOf(c0.addr), l, a);
    }
  }

  // ... and that it overwrites one run, if the line is safe for the access.
  lemma InsertedRun(lines: Lines, c0: Chunk, e: nat)
    requires c0.addr > 0 && c0.size > 0 && SafeIn(lines, LineOf(c0.addr), Off(c0.addr), EndOff(c0))
    requires Inserts(LineAt(lines, LineOf(c0.addr)), c0, e)
    ensures OneRun(lines, c0.addr, c0.addr + (e - Off(c0.addr)))
  {
    var l0 := LineAt(lines, LineOf(c0.addr));
    if l0.count == 0 {
      EmptyIsNull(l0);
    } else {
      PartIsSafe(l0.lg, c0);
      SafeRun(l0, c0, e);
    }
    forall a | c0.addr <= a < c0.addr + (e - Off(c0.addr))
      ensures View(lines, a).Null? || Same(View(lines, c0.addr), View(lines, a))
    {
      assert LineOf(a) == LineOf(c0.addr) && Off(c0.addr) <= Off(a) < e;
    }
  }

  // The region that is left after a line's part of it is safe if the region was.
  lemma NextLineSafe(lines: Lines, lines': Lines, c0: Chunk, c: Chunk)
    requires c0.size > 0 && SafeRegion(lines, c0) && AfterLine(c0, c)
    requires forall k :: k != LineOf(c0.addr) ==> LineAt(lines', k) == LineAt(lines, k)
    ensures SafeRegion(lines', c)
  {
    if c.size > 0 {
      assert LineOf(c.addr) == LineOf(c0.addr) + 1 && Off(c.addr) == 0;
      if LineOf(c.addr) < LineOf(c.addr + c.size) {
        LineIsWholeGrains(LineAt(lines', LineOf(c.addr)).lg, 1);
        AlignedPart(LineAt(lines', LineOf(c.addr)).lg, 0, 512);
      }
    }
  }

  // So is the region that is left within the line.
  lemma SameLineSafe(lines: Lines, lines': Lines, c0: Chunk, c: Chunk)
    requires c0.size > 0 && c.size > 0 && SafeRegion(lines, c0)
    requires LineOf(c.addr) == LineOf(c0.addr) && c.addr + c.size == c0.addr + c0.size
    requires forall k :: k != LineOf(c0.addr) ==> LineAt(lines', k) == LineAt(lines, k)
    requires SafeIn(lines', LineOf(c.addr), Off(c.addr), EndOff(c0))
    ensures SafeRegion(lines', c)
  {
    assert EndOff(c) == EndOff(c0);
  }

  lemma InsertedSafe(lines: Lines, c0: Chunk, l: GoodLine, c: Chunk, e: nat, v: Access, lines': Lines)
    requires c0.addr > 0 && c0.size > 0 && SafeRegion(lines, c0)
    requires LineInserted(LineAt(lines, LineOf(c0.addr)), c0, l, c, e, v)
    requires lines' == lines[LineOf(c0.addr) := l]
    ensures SafeRegion(lines', c)
  {
    if e == EndOff(c0) {
      NextLineSafe(lines, lines', c0, c);
    } else {
      assert LineOf(c.addr) == LineOf(c0.addr);
      OffAligned(c.addr, l.lg);
      EndIsDescribed(c0, l.lg);
      AlignedPart(l.lg, Off(c.addr), EndOff(c0));
      SameLineSafe(lines, lines', c0, c);
    }
  }

  // An insertion from `from` on has come to `to`.
  ghost predicate InsertedTo(l0: Lines, l1: Lines, from: nat, to: nat, v: Access) {
    from <= to && OneRun(l0, from, to) && PutIn(l0, l1, from, to, v)
  }

  lemma PutFurther(l0: Lines, l1: Lines, l2: Lines, from: nat, mid: nat, to: nat, v: Access)
    requires from <= mid <= to && PutIn(l0, l1, from, mid, v) && PutIn(l1, l2, mid, to, v)
    ensures PutIn(l0, l2, from, to, v)
  {
  }

  // The run goes on at `mid`.
  lemma RunsFurther(l0: Lines, l1: Lines, from: nat, mid: nat, to: nat, v: Access)
    requires from <= mid <= to && PutIn(l0, l1, from, mid, v)
    requires OneRun(l0, from, mid) && OneRun(l1, mid, to)
    requires mid == from || GoesOn(View(l0, from), View(l1, mid))
    ensures OneRun(l0, from, to)
  {
    forall a | from <= a < to
      ensures View(l0, a).Null? || Same(View(l0, from), View(l0, a))
    {
      if a >= mid {
        assert View(l1, a) == View(l0, a) && View(l1, mid) == View(l0, mid);
      }
    }
  }

  class UpdateIterator {
    const dict: Dictionary
    var accessed: Chunk
    ghost const end: nat
    // The location whose access the next insertion compares with.
    var entry: nat

    ghost predicate Valid()
      reads this, dict
    {
      && dict.Valid()
      && (accessed.size > 0 ==> accessed.addr > 0 && accessed.addr + accessed.size == end && entry == accessed.addr)
    }

    constructor (dict: Dictionary, c: Chunk)
      requires dict.Valid() && c.addr > 0
      ensures Valid() && this.dict == dict && accessed == c && end == c.addr + c.size
    {
      this.end := c.addr + c.size;
      this.dict := dict;
      accessed := c;
      entry := c.addr;
    }

    predicate IsEnd()
      reads this
    {
      accessed.size == 0
    }

    function Get(): Access
      reads this, dict
    {
      if IsEnd() || PageOf(accessed.addr) !in dict.pages then Null else View(dict.lines, accessed.addr)
    }

    lemma GetIsView()
      requires Valid() && !IsEnd()
      ensures Get() == View(dict.lines, accessed.addr)
    {
      if PageOf(accessed.addr) !in dict.pages {
        NoPageNoAccess(dict.pages, dict.lines, accessed.addr);
      }
    }

    // Insert into the current line.
    method InsertHere(v: Access) returns (c: Chunk, ghost e: nat)
      requires Valid() && !IsEnd() && v.Access?
      modifies dict
      ensures dict.Valid() && old(dict.pages) <= dict.pages
      ensures Rest(c, accessed.addr, end) && c.size < accessed.size && (c.size > 0 ==> c.addr > accessed.addr)
      ensures Inserts(LineAt(old(dict.lines), LineOf(accessed.addr)), accessed, e)
      ensures Front(c, end) == accessed.addr + (e - Off(accessed.addr))
      ensures PutIn(old(dict.lines), dict.lines, accessed.addr, Front(c, end), v)
      ensures SafeRegion(old(dict.lines), accessed) ==>
        OneRun(old(dict.lines), accessed.addr, Front(c, end)) && SafeRegion(dict.lines, c)
    {
      // Create a new page, if necessary.
      if PageOf(accessed.addr) !in dict.pages {
        dict.AllocatePage(accessed.addr);
      }
      var l0 := LineAt(dict.lines, LineOf(accessed.addr));
      var l, n, g, e' := InsertLine(l0, accessed, Idx(l0.lg, Off(accessed.addr)), v);
      ghost var lines := dict.lines;
      dict.PutLine(accessed.addr, l);
      InsertedLine(lines, accessed, l, n, e', v, dict.lines);
      if SafeRegion(lines, accessed) {
        InsertedRun(lines, accessed, e');
        InsertedSafe(lines, accessed, l, n, e', v, dict.lines);
      }
      c, e := n, e';
    }

    // Insert from the current address on, until another access is found.  The
    // first line alone is overwritten up to offset `e`.
    method Insert(v: Access) returns (ghost e: nat)
      requires Valid() && !IsEnd() && v.Access?
      modifies this, dict
      ensures Valid() && old(dict.pages) <= dict.pages
      ensures accessed.size < old(accessed.size) && Rest(accessed, old(accessed.addr), end)
      ensures Inserts(LineAt(old(dict.lines), LineOf(old(accessed.addr))), old(accessed), e)
      ensures old(accessed.addr) + (e - Off(old(accessed.addr))) <= Front(accessed, end)
      ensures PutIn(old(dict.lines), dict.lines, old(accessed.addr), Front(accessed, end), v)
      ensures SafeRegion(old(dict.lines), old(accessed)) ==>
        OneRun(old(dict.lines), old(accessed.addr), Front(accessed, end)) && SafeRegion(dict.lines, accessed)
      ensures forall a :: old(accessed.addr) <= a < Front(accessed, end) ==>
        IsWritten(View(dict.lines, a), View(old(dict.lines), a), v, false)
      ensures !IsEnd() ==>
        !GoesOn(View(old(dict.lines), old(accessed.addr)), View(old(dict.lines), accessed.addr))
    {
      var previous := View(dict.lines, entry);
      ghost var lines0, start, safe := dict.lines, accessed.addr, SafeRegion(dict.lines, accessed);
      var c, e' := InsertHere(v);
      e := e';
      accessed, entry := c, c.addr;
      while !IsEnd() && GoesOn(previous, View(dict.lines, entry))
        invariant Valid() && old(dict.pages) <= dict.pages
        invariant accessed.size < old(accessed.size) && Rest(accessed, start, end)
        invariant start + (e - Off(start)) <= Front(accessed, end)
        invariant PutIn(lines0, dict.lines, start, Front(accessed, end), v)
        invariant safe ==> OneRun(lines0, start, Front(accessed, end)) && SafeRegion(dict.lines, accessed)
        decreases accessed.size
      {
        ghost var lines, mid := dict.lines, accessed.addr;
        c, e' := InsertHere(v);
        PutFurther(lines0, lines, dict.lines, start, mid, Front(c, end), v);
        if safe {
          RunsFurther(lines0, lines, start, mid, Front(c, end), v);
        }
        accessed, entry := c, c.addr;
      }
      PutWrites(lines0, dict.lines, start, Front(accessed, end), v);
    }

    // Go on to the next location with another access or none.
    method NextLocation()
      requires Valid() && !IsEnd() && View(dict.lines, accessed.addr).Access?
      requires AllPages(dict.pages, accessed.addr, end)
      modifies this
      ensures Valid()
      ensures accessed.size < old(accessed.size) && Rest(accessed, old(accessed.addr), end)
      ensures forall a :: old(accessed.addr) <= a < Front(accessed, end) ==>
        View(dict.lines, a).Access? && Same(View(dict.lines, old(accessed.addr)), View(dict.lines, a))
      ensures !IsEnd() ==>
        !Same(View(dict.lines, old(accessed.addr)), View(dict.lines, accessed.addr))
      ensures SafeRegion(dict.lines, old(accessed)) ==> SafeRegion(dict.lines, accessed)
    {
      var previous := View(dict.lines, entry);
      ghost var start, safe := accessed.addr, SafeRegion(dict.lines, accessed);
      while true
        invariant Valid() && !IsEnd() && accessed.addr >= start
        invariant accessed.size <= old(accessed.size) && Rest(accessed, start, end)
        invariant View(dict.lines, accessed.addr).Access? && Same(previous, View(dict.lines, accessed.addr))
        invariant forall a :: start <= a < accessed.addr ==>
          View(dict.lines, a).Access? && Same(previous, View(dict.lines, a))
        invariant safe ==> SafeRegion(dict.lines, accessed)
        decreases accessed.size
      {
        var lg := LineAt(dict.lines, LineOf(accessed.addr)).lg;
        NonEmptyLine(dict.lines, accessed.addr);
        EntryIsUniform(dict.lines, accessed.addr, lg);
        var c := Next(accessed, lg);
        NextSteps(accessed, lg, c);
        if safe {
          NextIsSafe(dict.lines, accessed, c);
        }
        accessed, entry := c, c.addr;
        if IsEnd() {
          return;
        }
        if !(View(dict.lines, entry).Access? && Same(previous, View(dict.lines, entry))) {
          return;
        }
      }
    }
  }

  lemma NonEmptyLine(lines: Lines, a: nat)
    requires View(lines, a).Access?
    ensures LineAt(lines, LineOf(a)).count > 0
  {
    if LineAt(lines, LineOf(a)).count == 0 {
      NoLineNoAccess(lines, a);
    }
  }

  lemma NextIsSafe(lines: Lines, c0: Chunk, c: Chunk)
    requires c0.size > 0 && SafeRegion(lines, c0) && LineAt(lines, LineOf(c0.addr)).count > 0
    requires c == Next(c0, LineAt(lines, LineOf(c0.addr)).lg)
    ensures SafeRegion(lines, c)
  {
    var lg := LineAt(lines, LineOf(c0.addr)).lg;
    NextGrainIs(c0.addr, lg);
    if c.size > 0 {
      NextEntryIs(c0.addr, lg);
      if LineOf(c.addr) == LineOf(c0.addr) {
        PartAfterEntry(lg, Off(c0.addr), EndOff(c0));
        SameLineSafe(lines, lines, c0, c);
      } else {
        NextLineSafe(lines, lines, c0, c);
      }
    }
  }

  // The next boundary of entries is the end of the entry.
  lemma NextEntryIs(a: nat, lg: nat)
    requires lg <= 9
    ensures NextGrain(a, lg) == a - Off(a) + EntryEnd(lg, Off(a))
  {
    var g, k := Grain(lg), LineOf(a) * Grain(9 - lg);
    LineIsWholeGrains(lg, LineOf(a));
    ModAdd(k, Off(a), g);
    assert a == k * g + Off(a) && a % g == Off(a) % g;
    assert NextGrain(a, lg) == a - a % g + g;
  }

  // ----------------------------------------------------------- whole regions

  // The bytes of a region have been updated by the rule, others not.
  ghost predicate UpdatedIn(par: Oracle, l0: Lines, l1: Lines, from: nat, to: nat, v: Access) {
    forall a: nat :: View(l1, a) == if from <= a < to then Updated(par, View(l0, a), v) else View(l0, a)
  }

  lemma InsertionUpdates(par: Oracle, l0: Lines, l1: Lines, l2: Lines, from: nat, mid: nat, to: nat, v: Access)
    requires from <= mid && UpdatedIn(par, l0, l1, from, mid, v)
    requires InsertedTo(l1, l2, mid, to, v) && !InParallel(par, View(l1, mid))
    ensures UpdatedIn(par, l0, l2, from, to, v)
  {
    forall a: nat
      ensures View(l2, a) == if from <= a < to then Updated(par, View(l0, a), v) else View(l0, a)
    {
      if mid <= a < to {
        assert View(l1, a) == View(l0, a) && !InParallel(par, View(l1, a));
      }
    }
  }

  // The bytes from `from` up to the chunk remember the same, and those after not.
  ghost predicate IsRun(lines: Lines, from: nat, c: Chunk, end: nat) {
    && (forall a: nat {:trigger Alike(lines, from, a)} :: from <= a < Front(c, end) ==> Alike(lines, from, a))
    && (c.size > 0 ==> !Alike(lines, from, c.addr))
  }

  predicate Alike(lines: Lines, a: nat, b: nat) {
    Same(View(lines, a), View(lines, b))
  }

  // The bytes of a region remember the same parallel access.
  ghost predicate ParallelRun(par: Oracle, lines: Lines, from: nat, to: nat) {
    forall a :: from <= a < to ==> InParallel(par, View(lines, a))
  }

  lemma SkippingUpdates(par: Oracle, l0: Lines, l1: Lines, from: nat, mid: nat, to: nat, v: Access)
    requires from <= mid <= to && UpdatedIn(par, l0, l1, from, mid, v) && ParallelRun(par, l1, mid, to)
    ensures UpdatedIn(par, l0, l1, from, to, v)
  {
    forall a: nat
      ensures View(l1, a) == if from <= a < to then Updated(par, View(l0, a), v) else View(l0, a)
    {
      if mid <= a < to {
        assert View(l1, a) == View(l0, a) && InParallel(par, View(l1, a));
      }
    }
  }

  // A region is being updated from `addr` on; the update follows the rule if
  // the region is safe.
  ghost predicate Updating(it: UpdateIterator, par: Oracle, safe: bool, l0: Lines, addr: nat, v: Access)
    reads it, it.dict
  {
    && it.Valid() && v.Access?
    && AllPages(it.dict.pages, addr, it.end)
    && Rest(it.accessed, addr, it.end) && addr <= Front(it.accessed, it.end)
    && (safe ==>
          && SafeRegion(it.dict.lines, it.accessed)
          && UpdatedIn(par, l0, it.dict.lines, addr, Front(it.accessed, it.end), v))
  }

  // What has become `v` stays so.
  ghost predicate Keeps(l0: Lines, l1: Lines, v: Access) {
    forall a: nat :: View(l0, a) == v ==> View(l1, a) == v
  }

  // Nothing, or an access in series, is at the current address: insert.
  method InsertStep(it: UpdateIterator, par: Oracle, ghost safe: bool, ghost l0: Lines, ghost addr: nat, v: Access)
    requires Updating(it, par, safe, l0, addr, v) && !it.IsEnd()
    requires !InParallel(par, View(it.dict.lines, it.accessed.addr))
    modifies it, it.dict
    ensures Updating(it, par, safe, l0, addr, v) && it.accessed.size < old(it.accessed.size)
    ensures old(it.accessed.addr) < Front(it.accessed, it.end) && Keeps(old(it.dict.lines), it.dict.lines, v)
    ensures old(it.dict.pages) <= it.dict.pages
    ensures safe ==> OneRun(old(it.dict.lines), old(it.accessed.addr), Front(it.accessed, it.end))
  {
    ghost var lines, x := it.dict.lines, it.accessed.addr;
    var _ := it.Insert(v);
    if safe {
      InsertionUpdates(par, l0, lines, it.dict.lines, addr, x, Front(it.accessed, it.end), v);
    }
  }

  // A parallel access stays: go on to the next location.
  method SkipStep(it: UpdateIterator, par: Oracle, ghost safe: bool, ghost l0: Lines, ghost addr: nat, v: Access)
    requires Updating(it, par, safe, l0, addr, v) && !it.IsEnd()
    requires InParallel(par, View(it.dict.lines, it.accessed.addr))
    modifies it
    ensures Updating(it, par, safe, l0, addr, v) && it.accessed.size < old(it.accessed.size)
    ensures old(it.accessed.addr) < Front(it.accessed, it.end)
    ensures ParallelRun(par, it.dict.lines, old(it.accessed.addr), Front(it.accessed, it.end))
    ensures IsRun(it.dict.lines, old(it.accessed.addr), it.accessed, it.end)
  {
    ghost var lines, x := it.dict.lines, it.accessed.addr;
    it.NextLocation();
    assert ParallelRun(par, lines, x, Front(it.accessed, it.end));
    if safe {
      SkippingUpdates(par, l0, lines, addr, x, Front(it.accessed, it.end), v);
    }
  }

  // Update what is left of a region.
  method UpdateFrom(it: UpdateIterator, par: Oracle, ghost safe: bool, ghost l0: Lines, ghost addr: nat, v: Access)
    requires Updating(it, par, safe, l0, addr, v)
    modifies it, it.dict
    ensures it.dict.Valid() && Keeps(old(it.dict.lines), it.dict.lines, v) && old(it.dict.pages) <= it.dict.pages
    ensures safe ==> UpdatedIn(par, l0, it.dict.lines, addr, it.end, v)
  {
    while !it.IsEnd()
      invariant Updating(it, par, safe, l0, addr, v) && Keeps(old(it.dict.lines), it.dict.lines, v)
      invariant old(it.dict.pages) <= it.dict.pages
      decreases it.accessed.size
    {
      it.GetIsView();
      if !InParallel(par, it.Get()) {
        InsertStep(it, par, safe, l0, addr, v);
      } else {
        SkipStep(it, par, safe, l0, addr, v);
      }
    }
  }

  // Update a region with a new access.
  method UpdateRegion(dict: Dictionary, addr: nat, size: nat, v: Access, par: Oracle)
    requires dict.Valid() && addr > 0 && v.Access? && AllPages(dict.pages, addr, addr + size)
    modifies dict
    ensures dict.Valid() && old(dict.pages) <= dict.pages
    ensures SafeRegion(old(dict.lines), Chunk(addr, size)) ==>
      && UpdatedIn(par, old(dict.lines), dict.lines, addr, addr + size, v)
      && forall a :: addr <= a < addr + size && !InParallel(par, View(old(dict.lines), a)) ==>
           IsWritten(View(dict.lines, a), View(old(dict.lines), a), v, false)
  {
    var it := new UpdateIterator(dict, Chunk(addr, size));
    UpdateFrom(it, par, SafeRegion(dict.lines, Chunk(addr, size)), dict.lines, addr, v);
  }
}
