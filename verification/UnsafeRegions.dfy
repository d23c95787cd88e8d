// The condition under which regions are updated by the rule is necessary: for
// every region and every grain of a line in it that is not safe there is a
// memory, with a line of that grain, that the update leaves wrong.

module UnsafeRegions {
  import opened Alignment
  import opened ShadowLine
  import opened LineOps
  import opened ShadowDictionary
  import opened ShadowScan
  import opened SafeInsertion
  import opened ShadowUpdate

  // The grain would make line `k` of the region unsafe.
  predicate UnsafeAt(c: Chunk, k: nat, lg: nat) {
    && c.addr > 0 && c.size > 0 && lg <= 9
    && if k == LineOf(c.addr) then !PartSafe(lg, Off(c.addr), EndOff(c))
       else LineOf(c.addr) < k == LineOf(c.addr + c.size) && !PartSafe(lg, 0, Off(c.addr + c.size))
  }

  // The region's part from line `k` on.
  function PartFrom(c: Chunk, k: nat): Chunk
    requires LineOf(c.addr) <= k <= LineOf(c.addr + c.size)
  {
    if k == LineOf(c.addr) then c else Chunk(k * 512, c.addr + c.size - k * 512)
  }

  lemma UnsafePart(c: Chunk, k: nat, lg: nat)
    requires UnsafeAt(c, k, lg)
    ensures LineOf(c.addr) <= k <= LineOf(c.addr + c.size)
    ensures var p := PartFrom(c, k);
      p.addr > 0 && p.size > 0 && LineOf(p.addr) == k && !PartSafe(lg, Off(p.addr), EndOff(p))
  {
  }

  // The insertion that goes wrong: at the region's start, or at the second entry
  // of the line.
  function Culprit(c: Chunk, k: nat, lg: nat): (c1: Chunk)
    requires UnsafeAt(c, k, lg)
    ensures c1.addr > 0 && c1.size > 0 && !SafeFor(lg, c1) && c1.addr + c1.size == c.addr + c.size
    ensures LineOf(c1.addr) == k && c1.addr >= c.addr
    ensures c1.addr == c.addr || Off(c1.addr) == Grain(lg)
  {
    UnsafePart(c, k, lg);
    var p := PartFrom(c, k);
    PartIsUnsafe(lg, p);
    if Off(p.addr) >= Grain(lg) then p
    else
      OffShift(p.addr, Grain(lg) - Off(p.addr));
      Chunk(p.addr + (Grain(lg) - Off(p.addr)), p.size - (Grain(lg) - Off(p.addr)))
  }

  // A memory that remembers `a` in the lines of the region, but for the entry at
  // which that insertion starts.
  function FullLine(a: Access): (l: GoodLine)
    requires a.Access?
    ensures l.lg == 9 && forall o :: 0 <= o < 512 ==> At(l, o) == a
  {
    assert Valids([a]) == 1 by {
      ValidsOfCopies([a], a);
    }
    assert forall o :: 0 <= o < 512 ==> Idx(9, o) == 0;
    Line(9, [a], 1)
  }

  function TrapLine(k: nat, lg: nat, x: nat, a: Access, j: nat): GoodLine
    requires lg <= 9 && x < 512 && a.Access?
  {
    if j == k then LineBut(lg, Idx(lg, x), a) else FullLine(a)
  }

  function Trap(c: Chunk, k: nat, lg: nat, a: Access): (lines: Lines)
    requires UnsafeAt(c, k, lg) && a.Access?
  {
    var x := Off(Culprit(c, k, lg).addr);
    map j: nat {:trigger TrapLine(k, lg, x, a, j)} | LineOf(c.addr) <= j <= LineOf(c.addr + c.size) ::
      TrapLine(k, lg, x, a, j)
  }

  lemma TrapHas(c: Chunk, k: nat, lg: nat, a: Access, j: nat)
    requires UnsafeAt(c, k, lg) && a.Access? && LineOf(c.addr) <= j <= LineOf(c.addr + c.size)
    ensures LineAt(Trap(c, k, lg, a), j) == TrapLine(k, lg, Off(Culprit(c, k, lg).addr), a, j)
  {
    var _ := TrapLine(k, lg, Off(Culprit(c, k, lg).addr), a, j);
    assert j in Trap(c, k, lg, a);
  }

  // The gap in what it remembers.
  predicate InGap(c: Chunk, k: nat, lg: nat, b: nat)
    requires UnsafeAt(c, k, lg)
  {
    var o := Off(Culprit(c, k, lg).addr);
    LineOf(b) == k && EntryStart(lg, o) <= Off(b) < EntryEnd(lg, o)
  }

  lemma TrapView(c: Chunk, k: nat, lg: nat, a: Access, b: nat)
    requires UnsafeAt(c, k, lg) && a.Access? && c.addr <= b < c.addr + c.size
    ensures View(Trap(c, k, lg, a), b) == if InGap(c, k, lg, b) then Null else a
  {
    TrapHas(c, k, lg, a, LineOf(b));
    if LineOf(b) == k {
      ButOneEntry(lg, Off(Culprit(c, k, lg).addr), a, Off(b));
    }
  }

  lemma BeforeGap(c: Chunk, k: nat, lg: nat, b: nat)
    requires UnsafeAt(c, k, lg) && c.addr <= b < Culprit(c, k, lg).addr
    ensures !InGap(c, k, lg, b)
  {
    var c1 := Culprit(c, k, lg);
    ModAdd(1, 0, Grain(lg));
    assert EntryStart(lg, Off(c1.addr)) == Off(c1.addr);
  }

  // The byte behind the gap, which is going to be lost.
  function Victim(c: Chunk, k: nat, lg: nat): (b: nat)
    requires UnsafeAt(c, k, lg)
    ensures var c1 := Culprit(c, k, lg);
      c1.addr < b < c.addr + c.size && !InGap(c, k, lg, b) && b - c1.addr < EndOff(c1) - Off(c1.addr)
  {
    var c1 := Culprit(c, k, lg);
    var d := EntryEnd(lg, Off(c1.addr)) - Off(c1.addr);
    OffShift(c1.addr, d);
    c1.addr + d
  }

  ghost predicate TrapSet(dict: Dictionary, c: Chunk, k: nat, lg: nat, a: Access)
    requires UnsafeAt(c, k, lg) && a.Access?
    reads dict
  {
    dict.Valid() && dict.lines == Trap(c, k, lg, a) && AllPages(dict.pages, c.addr, c.addr + c.size)
  }

  method SetTrap(c: Chunk, k: nat, lg: nat, a: Access) returns (dict: Dictionary)
    requires UnsafeAt(c, k, lg) && a.Access?
    ensures fresh(dict) && TrapSet(dict, c, k, lg, a)
  {
    dict := new Dictionary();
    dict.lines := Trap(c, k, lg, a);
    dict.pages := set j | LineOf(c.addr) <= j <= LineOf(c.addr + c.size) :: PageOf(j * 512);
    UnsafePart(c, k, lg);
    forall b | c.addr <= b < c.addr + c.size
      ensures PageOf(b) in dict.pages
    {
      LineOnPage(b);
      assert LineOf(c.addr) <= LineOf(b) <= LineOf(c.addr + c.size);
    }
  }

  // The update skips what comes before the gap.
  method SkipToGap(it: UpdateIterator, ghost par: Oracle, c: Chunk, k: nat, lg: nat, a: Access)
    requires UnsafeAt(c, k, lg) && InParallel(par, a) && TrapSet(it.dict, c, k, lg, a)
    requires it.Valid() && it.accessed == c && it.end == c.addr + c.size
    modifies it
    ensures it.Valid() && it.accessed == Culprit(c, k, lg)
    ensures View(it.dict.lines, it.accessed.addr) == Null
  {
    var c1 := Culprit(c, k, lg);
    if c1.addr != c.addr {
      BeforeGap(c, k, lg, c.addr);
      TrapView(c, k, lg, a, c.addr);
      it.NextLocation();
      TrapView(c, k, lg, a, c1.addr);
      ghost var front := Front(it.accessed, it.end);
      assert front <= c1.addr;
      if front < c1.addr {
        BeforeGap(c, k, lg, front);
        TrapView(c, k, lg, a, front);
      }
    }
    TrapView(c, k, lg, a, c1.addr);
  }

  // The insertion there goes on past the byte behind the gap.
  method InsertAtGap(it: UpdateIterator, c: Chunk, k: nat, lg: nat, a: Access, v: Access)
    requires UnsafeAt(c, k, lg) && a.Access? && v.Access? && a.func != v.func
    requires it.Valid() && it.accessed == Culprit(c, k, lg) && it.end == c.addr + c.size
    requires TrapSet(it.dict, c, k, lg, a)
    modifies it, it.dict
    ensures it.Valid() && AllPages(it.dict.pages, c.addr, it.end)
    ensures Rest(it.accessed, c.addr, it.end) && c.addr <= Front(it.accessed, it.end)
    ensures View(it.dict.lines, Victim(c, k, lg)) == v
  {
    ghost var c1 := Culprit(c, k, lg);
    UnsafePart(c, k, lg);
    TrapHas(c, k, lg, a, k);
    TrapView(c, k, lg, a, Victim(c, k, lg));
    ghost var e := it.Insert(v);
    UnsafeInsertsAll(lg, c1, a);
    assert e == EndOff(c1);
  }

  // The update of the region, with its first steps written out: in the end a
  // byte that remembered a parallel access remembers the new one.
  method UpdateGoesWrong(c: Chunk, k: nat, lg: nat, v: Access, a: Access, par: Oracle)
    returns (dict: Dictionary, ghost before: Lines)
    requires UnsafeAt(c, k, lg) && v.Access? && a.Access? && a.func != v.func && InParallel(par, a)
    ensures LineAt(before, k).lg == lg
    ensures View(before, Victim(c, k, lg)) == a && View(dict.lines, Victim(c, k, lg)) == v
    ensures !UpdatedIn(par, before, dict.lines, c.addr, c.addr + c.size, v)
  {
    dict := SetTrap(c, k, lg, a);
    before := dict.lines;
    UnsafePart(c, k, lg);
    TrapHas(c, k, lg, a, k);
    TrapView(c, k, lg, a, Victim(c, k, lg));
    var it := new UpdateIterator(dict, c);
    SkipToGap(it, par, c, k, lg, a);
    InsertAtGap(it, c, k, lg, a, v);
    UpdateFrom(it, par, false, before, c.addr, v);
  }

  // For example, an access to 128 bytes from the middle of the second entry of a
  // line with entries of 128 bytes.
  lemma HalfAnEntryOff()
    ensures UnsafeAt(Chunk(512 + 192, 128), 1, 7)
  {
  }
}
