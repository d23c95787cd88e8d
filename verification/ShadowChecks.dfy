// Checking an access against the shadow memory and recording it: the general
// routines, and the fast path for small aligned accesses, which has the same
// effect and reports under the same condition.

module ShadowChecks {
  import opened Alignment
  import opened ShadowLine
  import opened LineOps
  import opened ShadowDictionary
  import opened ShadowScan
  import opened SafeInsertion
  import opened ShadowUpdate

  // Record a read, then check it against the previous writes.
  method CheckRead(rds: Dictionary, wrs: Dictionary, addr: nat, size: nat, v: Access, par: Oracle)
    returns (reports: seq<nat>)
    requires rds != wrs && rds.Valid() && wrs.Valid() && addr > 0 && v.Access?
    requires AllPages(rds.pages, addr, addr + size)
    modifies rds
    ensures rds.Valid() && old(rds.pages) <= rds.pages
    ensures SafeRegion(old(rds.lines), Chunk(addr, size)) ==>
      UpdatedIn(par, old(rds.lines), rds.lines, addr, addr + size, v)
    ensures reports == NewsIn(wrs.lines, par, addr, size)
    ensures reports != [] <==> HasParallel(wrs.lines, par, addr, addr + size)
  {
    UpdateRegion(rds, addr, size, v, par);
    reports := CheckRace(wrs, addr, size, par);
  }

  // The bytes where a run of the same parallel access begins.
  ghost function ParallelRuns(lines: Lines, par: Oracle, from: nat): nat -> bool {
    (a: nat) => InParallel(par, View(lines, a)) && (a <= from || !Alike(lines, a - 1, a))
  }

  ghost function RunsIn(lines: Lines, par: Oracle, addr: nat, size: nat): seq<nat> {
    Where(ParallelRuns(lines, par, addr), addr, addr + size)
  }

  // The check of a write has come to the chunk, with these reports.
  ghost predicate WritesScanned(lines: Lines, par: Oracle, from: nat, c: Chunk, end: nat, reports: seq<nat>) {
    && Rest(c, from, end) && from <= Front(c, end)
    && reports == Where(ParallelRuns(lines, par, from), from, Front(c, end))
    && (c.size > 0 && InParallel(par, View(lines, c.addr)) ==> ParallelRuns(lines, par, from)(c.addr))
  }

  // A run of a parallel access is reported once ...
  lemma RunIsReported(lines: Lines, par: Oracle, from: nat, c: Chunk, n: Chunk, end: nat, reports: seq<nat>)
    requires c.size > 0 && WritesScanned(lines, par, from, c, end, reports) && InParallel(par, View(lines, c.addr))
    requires Rest(n, c.addr, end) && c.addr < Front(n, end) && IsRun(lines, c.addr, n, end)
    ensures WritesScanned(lines, par, from, n, end, reports + [c.addr])
  {
    var front := Front(n, end);
    forall a | c.addr < a < front
      ensures !ParallelRuns(lines, par, from)(a)
    {
      assert Alike(lines, c.addr, a - 1) && Alike(lines, c.addr, a);
    }
    WhereOne(ParallelRuns(lines, par, from), from, c.addr, front);
    if n.size > 0 {
      AnotherRunStarts(lines, par, from, c.addr, n.addr);
    }
  }

  lemma AnotherRunStarts(lines: Lines, par: Oracle, from: nat, a: nat, b: nat)
    requires a < b && Alike(lines, a, b - 1) && !Alike(lines, a, b)
    ensures InParallel(par, View(lines, b)) ==> ParallelRuns(lines, par, from)(b)
  {
  }

  // ... and accesses in series are not.
  lemma SeriesIsNotReported(lines: Lines, par: Oracle, from: nat, c: Chunk, n: Chunk, end: nat, reports: seq<nat>)
    requires c.size > 0 && WritesScanned(lines, par, from, c, end, reports)
    requires Rest(n, c.addr, end) && c.addr < Front(n, end)
    requires forall a :: c.addr <= a < Front(n, end) ==> !InParallel(par, View(lines, a))
    ensures WritesScanned(lines, par, from, n, end, reports)
  {
    var front := Front(n, end);
    forall a | c.addr <= a < front
      ensures !ParallelRuns(lines, par, from)(a)
    {
    }
    WhereNone(ParallelRuns(lines, par, from), from, c.addr, front);
    if n.size > 0 {
      assert !InParallel(par, View(lines, n.addr - 1));
    }
  }

  lemma RunsAreRight(lines: Lines, par: Oracle, from: nat, size: nat)
    ensures RunsIn(lines, par, from, size) != [] <==> HasParallel(lines, par, from, from + size)
    ensures forall r :: r in RunsIn(lines, par, from, size) ==>
      from <= r < from + size && InParallel(par, View(lines, r))
  {
    var end, reports := from + size, RunsIn(lines, par, from, size);
    forall r | r in reports
      ensures from <= r < end && InParallel(par, View(lines, r))
    {
      WhereHas(ParallelRuns(lines, par, from), from, end, r);
    }
    if reports != [] {
      assert reports[0] in reports;
    }
    if a :| from <= a < end && InParallel(par, View(lines, a)) {
      var r := EveryRunIsReported(lines, par, from, size, a);
    }
  }

  // Every parallel byte lies in the run of a reported one.
  lemma {:induction false} EveryRunIsReported(lines: Lines, par: Oracle, from: nat, size: nat, a: nat) returns (r: nat)
    requires from <= a < from + size && InParallel(par, View(lines, a))
    ensures r in RunsIn(lines, par, from, size) && from <= r <= a
    ensures forall b: nat {:trigger Alike(lines, r, b)} :: r <= b <= a ==> Alike(lines, r, b)
    decreases a
  {
    if ParallelRuns(lines, par, from)(a) {
      WhereHas(ParallelRuns(lines, par, from), from, from + size, a);
      r := a;
    } else {
      assert Alike(lines, a - 1, a);
      r := EveryRunIsReported(lines, par, from, size, a - 1);
      assert Alike(lines, r, a - 1);
    }
  }

  // A region whose bytes remember the same has one run at most.
  lemma RunsOfOne(lines: Lines, par: Oracle, addr: nat, size: nat)
    requires size > 0 && forall a :: addr <= a < addr + size ==> View(lines, a) == View(lines, addr)
    ensures RunsIn(lines, par, addr, size) == if InParallel(par, View(lines, addr)) then [addr] else []
  {
    var c, n, end := Chunk(addr, size), Chunk(addr + size, 0), addr + size;
    if InParallel(par, View(lines, addr)) {
      assert IsRun(lines, addr, n, end);
      RunIsReported(lines, par, addr, c, n, end, []);
    } else {
      SeriesIsNotReported(lines, par, addr, c, n, end, []);
    }
  }

  // The runs depend on what the bytes remember only.
  lemma SameRuns(l0: Lines, l1: Lines, par: Oracle, addr: nat, size: nat)
    requires forall a: nat :: View(l1, a) == View(l0, a)
    ensures RunsIn(l1, par, addr, size) == RunsIn(l0, par, addr, size)
  {
    forall a: nat | addr <= a < addr + size
      ensures ParallelRuns(l1, par, addr)(a) == ParallelRuns(l0, par, addr)(a)
    {
    }
    WhereSame(ParallelRuns(l1, par, addr), ParallelRuns(l0, par, addr), addr, addr + size);
  }

  // One step of the check of a write.
  method CheckWriteStop(it: UpdateIterator, par: Oracle, ghost safe: bool, ghost l0: Lines, ghost addr: nat, v: Access,
                        reports0: seq<nat>)
    returns (reports: seq<nat>)
    requires Updating(it, par, safe, l0, addr, v) && !it.IsEnd()
    requires safe ==> WritesScanned(l0, par, addr, it.accessed, it.end, reports0)
    modifies it, it.dict
    ensures Updating(it, par, safe, l0, addr, v) && it.accessed.size < old(it.accessed.size)
    ensures old(it.dict.pages) <= it.dict.pages
    ensures safe ==> WritesScanned(l0, par, addr, it.accessed, it.end, reports)
  {
    it.GetIsView();
    ghost var lines, c := it.dict.lines, it.accessed;
    reports := reports0;
    if InParallel(par, it.Get()) {
      reports := reports + [it.accessed.addr];
      SkipStep(it, par, safe, l0, addr, v);
      if safe {
        SameRunAsBefore(par, l0, lines, addr, c, it.accessed, it.end, v);
        RunIsReported(l0, par, addr, c, it.accessed, it.end, reports0);
      }
    } else {
      InsertStep(it, par, safe, l0, addr, v);
      if safe {
        SameSeriesAsBefore(par, l0, lines, addr, c, it.accessed, it.end, v);
        SeriesIsNotReported(l0, par, addr, c, it.accessed, it.end, reports0);
      }
    }
  }

  // From the stop on, the update has not changed anything yet.
  lemma SameRunAsBefore(par: Oracle, l0: Lines, lines: Lines, addr: nat, c: Chunk, n: Chunk, end: nat, v: Access)
    requires c.size > 0 && addr <= c.addr && UpdatedIn(par, l0, lines, addr, c.addr, v) && Rest(n, c.addr, end)
    requires InParallel(par, View(lines, c.addr)) && IsRun(lines, c.addr, n, end)
    ensures InParallel(par, View(l0, c.addr)) && IsRun(l0, c.addr, n, end)
  {
    forall a: nat | c.addr <= a < Front(n, end)
      ensures Alike(l0, c.addr, a)
    {
      assert Alike(lines, c.addr, a);
    }
    if n.size > 0 {
      assert !Alike(lines, c.addr, n.addr);
    }
  }

  // What an insertion has overwritten was not parallel.
  lemma SameSeriesAsBefore(par: Oracle, l0: Lines, lines: Lines, addr: nat, c: Chunk, n: Chunk, end: nat, v: Access)
    requires c.size > 0 && addr <= c.addr && UpdatedIn(par, l0, lines, addr, c.addr, v)
    requires OneRun(lines, c.addr, Front(n, end)) && !InParallel(par, View(lines, c.addr))
    ensures forall a :: c.addr <= a < Front(n, end) ==> !InParallel(par, View(l0, a))
  {
    forall a | c.addr <= a < Front(n, end)
      ensures !InParallel(par, View(l0, a))
    {
      assert View(lines, a) == View(l0, a);
    }
  }

  // Check a write against the previous writes and record it.
  method CheckAndUpdateWrite(wrs: Dictionary, addr: nat, size: nat, v: Access, par: Oracle) returns (reports: seq<nat>)
    requires wrs.Valid() && addr > 0 && v.Access? && AllPages(wrs.pages, addr, addr + size)
    modifies wrs
    ensures wrs.Valid() && old(wrs.pages) <= wrs.pages
    ensures SafeRegion(old(wrs.lines), Chunk(addr, size)) ==>
      && UpdatedIn(par, old(wrs.lines), wrs.lines, addr, addr + size, v)
      && reports == RunsIn(old(wrs.lines), par, addr, size)
  {
    var it := new UpdateIterator(wrs, Chunk(addr, size));
    ghost var l0, safe := wrs.lines, SafeRegion(wrs.lines, Chunk(addr, size));
    reports := [];
    while !it.IsEnd()
      invariant it.dict == wrs && it.end == addr + size && fresh(it) && old(wrs.pages) <= wrs.pages
      invariant Updating(it, par, safe, l0, addr, v)
      invariant safe ==> WritesScanned(l0, par, addr, it.accessed, it.end, reports)
      decreases it.accessed.size
    {
      reports := CheckWriteStop(it, par, safe, l0, addr, v, reports);
    }
  }

  // The reports on a write: those on the writes, and those on the reads.
  ghost function RacesOfWrite(wl: Lines, rl: Lines, par: Oracle, addr: nat, size: nat, readsFirst: bool): seq<nat> {
    var ofWrites, ofReads := RunsIn(wl, par, addr, size), NewsIn(rl, par, addr, size);
    if readsFirst then ofReads + ofWrites else ofWrites + ofReads
  }

  // All of them are of parallel accesses, and there is one if there is one.
  lemma RacesOfWriteAreRight(wl: Lines, rl: Lines, par: Oracle, addr: nat, size: nat, readsFirst: bool)
    ensures var reports := RacesOfWrite(wl, rl, par, addr, size, readsFirst);
      && (reports != [] <==> HasParallel(wl, par, addr, addr + size) || HasParallel(rl, par, addr, addr + size))
      && forall r :: r in reports ==>
           addr <= r < addr + size && (InParallel(par, View(wl, r)) || InParallel(par, View(rl, r)))
  {
    RunsAreRight(wl, par, addr, size);
    ReportsAreRight(rl, par, addr, size);
  }

  // Check a write against the previous writes and record it, then check it
  // against the previous reads.
  method CheckWrite(rds: Dictionary, wrs: Dictionary, addr: nat, size: nat, v: Access, par: Oracle)
    returns (reports: seq<nat>)
    requires rds != wrs && rds.Valid() && wrs.Valid() && addr > 0 && v.Access?
    requires AllPages(wrs.pages, addr, addr + size)
    modifies wrs
    ensures wrs.Valid() && old(wrs.pages) <= wrs.pages
    ensures SafeRegion(old(wrs.lines), Chunk(addr, size)) ==>
      && UpdatedIn(par, old(wrs.lines), wrs.lines, addr, addr + size, v)
      && reports == RacesOfWrite(old(wrs.lines), rds.lines, par, addr, size, false)
  {
    var writeRaces := CheckAndUpdateWrite(wrs, addr, size, v, par);
    var readRaces := CheckRace(rds, addr, size, par);
    reports := writeRaces + readRaces;
  }

  // ----------------------------------------------------------- the fast path

  // An access that is aligned, and not larger than its alignment.
  predicate SmallAligned(addr: nat, size: nat, lgAlign: nat) {
    addr > 0 && size > 0 && lgAlign <= 9 && addr % Grain(lgAlign) == 0 && size <= Grain(lgAlign)
  }

  lemma CoarserIsLarger(lg: nat, lg': nat)
    requires lg <= 9 && lg' <= 9 && Grain(lg) <= Grain(lg')
    ensures lg <= lg'
  {
  }

  // Grains that fit the size of the access describe it.
  lemma SmallIsDescribed(addr: nat, size: nat, lgAlign: nat, lg: nat)
    requires SmallAligned(addr, size, lgAlign) && lg <= 9 && lg <= Ctz(size)
    ensures addr % Grain(lg) == 0 && (addr + size) % Grain(lg) == 0
  {
    CtzIsAlignment(size, lg);
    NoMultipleBetween(0, Grain(lg), size);
    CoarserIsLarger(lg, lgAlign);
    AlignedFiner(addr, lgAlign, lg);
    ModAdd(addr / Grain(lg), size, Grain(lg));
  }

  // It lies in one line.
  lemma SmallWithinLine(addr: nat, size: nat, lgAlign: nat)
    requires SmallAligned(addr, size, lgAlign)
    ensures addr + size <= NextLine(addr) && Off(addr) + size <= 512
    ensures forall a :: addr <= a < addr + size ==> LineOf(a) == LineOf(addr)
  {
    NextGrainIs(addr, lgAlign);
  }

  // The line of the access is as fine as the size of the access.
  ghost predicate FitsLine(lines: Lines, addr: nat, size: nat)
    requires size > 0
  {
    LineAt(lines, LineOf(addr)).lg <= Ctz(size)
  }

  lemma FittingIsSafe(lines: Lines, addr: nat, size: nat, lgAlign: nat)
    requires SmallAligned(addr, size, lgAlign) && FitsLine(lines, addr, size)
    ensures SafeRegion(lines, Chunk(addr, size))
  {
    var lg := LineAt(lines, LineOf(addr)).lg;
    SmallIsDescribed(addr, size, lgAlign, lg);
    SmallWithinLine(addr, size, lgAlign);
    OffAligned(addr, lg);
    OffAligned(addr + size, lg);
    LineIsWholeGrains(lg, 1);
    EndOffIs(Chunk(addr, size));
    AlignedPart(lg, Off(addr), EndOff(Chunk(addr, size)));
  }

  lemma SmallOnPage(pages: set<nat>, addr: nat, size: nat, lgAlign: nat)
    requires SmallAligned(addr, size, lgAlign) && PageOf(addr) in pages
    ensures AllPages(pages, addr, addr + size)
  {
    SmallWithinLine(addr, size, lgAlign);
    forall a | addr <= a < addr + size
      ensures PageOf(a) in pages
    {
      SameLineSamePage(a, addr);
    }
  }

  // Get the line of an access on an allocated page, refined for the access.
  method GetLineMustExist(d: Dictionary, addr: nat, size: nat, ghost lgAlign: nat) returns (l: GoodLine)
    requires d.Valid() && SmallAligned(addr, size, lgAlign) && PageOf(addr) in d.pages
    modifies d
    ensures d.Valid() && d.pages == old(d.pages) && l == LineAt(d.lines, LineOf(addr)) && FitsLine(d.lines, addr, size)
    ensures forall a: nat :: View(d.lines, a) == View(old(d.lines), a)
    ensures l.lg == Min(LineAt(old(d.lines), LineOf(addr)).lg, Ctz(size))
  {
    l := LineAt(d.lines, LineOf(addr));
    var lg := Ctz(size);
    if l.lg > lg {
      ghost var lines := d.lines;
      l := Refine(l, lg);
      d.PutLine(addr, l);
      forall a: nat
        ensures View(d.lines, a) == View(lines, a)
      {
        ReplacedLine(lines, LineOf(addr), l, a);
      }
    }
  }

  // When the grain is the size of the access, the access has one entry.
  lemma OneEntry(lines: Lines, addr: nat, size: nat, lgAlign: nat)
    requires SmallAligned(addr, size, lgAlign) && Grain(LineAt(lines, LineOf(addr)).lg) == size
    ensures Off(addr) % size == 0
    ensures forall a :: addr <= a < addr + size ==> LineOf(a) == LineOf(addr) && View(lines, a) == View(lines, addr)
  {
    var lg := LineAt(lines, LineOf(addr)).lg;
    CoarserIsLarger(lg, lgAlign);
    AlignedFiner(addr, lgAlign, lg);
    OffAligned(addr, lg);
    NextGrainIs(addr, lg);
    forall a | addr <= a < addr + size
      ensures LineOf(a) == LineOf(addr) && View(lines, a) == View(lines, addr)
    {
      SameEntry(addr, a, lg);
    }
  }

  // Record an access that has one entry by the rule.
  method UpdateEntry(d: Dictionary, addr: nat, size: nat, v: Access, par: Oracle, ghost lgAlign: nat)
    returns (found: bool)
    requires d.Valid() && SmallAligned(addr, size, lgAlign) && PageOf(addr) in d.pages && v.Access?
    requires Grain(LineAt(d.lines, LineOf(addr)).lg) == size
    modifies d
    ensures d.Valid() && d.pages == old(d.pages)
    ensures UpdatedIn(par, old(d.lines), d.lines, addr, addr + size, v)
    ensures found <==> HasParallel(old(d.lines), par, addr, addr + size)
    ensures !found ==> forall a :: addr <= a < addr + size ==>
      IsWritten(View(d.lines, a), View(old(d.lines), a), v, false)
  {
    OneEntry(d.lines, addr, size, lgAlign);
    SmallWithinLine(addr, size, lgAlign);
    ghost var lines := d.lines;
    var l0 := LineAt(d.lines, LineOf(addr));
    var l := MaterializeIfNeeded(l0);
    var entry := At(l, Off(addr));
    assert entry == View(lines, addr);
    found := InParallel(par, entry);
    if !found {
      l := StoreEntry(l, Off(addr), v);
    }
    d.PutLine(addr, l);
    EntryUpdated(lines, addr, size, lgAlign, l, v, par, d.lines);
  }

  lemma EntryUpdated(lines: Lines, addr: nat, size: nat, lgAlign: nat, l: GoodLine, v: Access, par: Oracle,
                     lines': Lines)
    requires SmallAligned(addr, size, lgAlign) && lines' == lines[LineOf(addr) := l]
    requires forall a :: addr <= a < addr + size ==> LineOf(a) == LineOf(addr) && View(lines, a) == View(lines, addr)
    requires forall o :: 0 <= o < 512 ==>
      At(l, o) == if Off(addr) <= o < Off(addr) + size && !InParallel(par, View(lines, addr))
                  then Put(At(LineAt(lines, LineOf(addr)), o), v) else At(LineAt(lines, LineOf(addr)), o)
    ensures UpdatedIn(par, lines, lines', addr, addr + size, v)
    ensures InParallel(par, View(lines, addr)) <==> HasParallel(lines, par, addr, addr + size)
  {
    forall a: nat
      ensures View(lines', a) == if addr <= a < addr + size then Updated(par, View(lines, a), v) else View(lines, a)
    {
      ReplacedLine(lines, LineOf(addr), l, a);
    }
  }

  // Check a small access against the previous accesses of a dictionary.
  method CheckSmall(d: Dictionary, addr: nat, size: nat, par: Oracle, ghost lgAlign: nat) returns (reports: seq<nat>)
    requires d.Valid() && SmallAligned(addr, size, lgAlign)
    ensures reports == NewsIn(d.lines, par, addr, size)
    ensures reports != [] <==> HasParallel(d.lines, par, addr, addr + size)
  {
    ReportsAreRight(d.lines, par, addr, size);
    reports := [];
    if PageOf(addr) !in d.pages || LineAt(d.lines, LineOf(addr)).count == 0 {
      NothingToCheck(d.pages, d.lines, addr, size, lgAlign);
      NewsOfOne(d.lines, par, addr, size);
      return;
    }
    if NeedsScan(d.lines, addr, size) {
      reports := CheckRace(d, addr, size, par);
      return;
    }
    OneEntry(d.lines, addr, size, lgAlign);
    NewsOfOne(d.lines, par, addr, size);
    if InParallel(par, View(d.lines, addr)) {
      reports := [addr];
    }
  }

  lemma NothingToCheck(pages: set<nat>, lines: Lines, addr: nat, size: nat, lgAlign: nat)
    requires SmallAligned(addr, size, lgAlign) && OnPages(pages, lines)
    requires PageOf(addr) !in pages || LineAt(lines, LineOf(addr)).count == 0
    ensures forall a :: addr <= a < addr + size ==> View(lines, a) == Null
  {
    SmallWithinLine(addr, size, lgAlign);
    forall a | addr <= a < addr + size
      ensures View(lines, a) == Null
    {
      assert LineOf(a) == LineOf(addr);
      SameLineSamePage(a, addr);
      if PageOf(addr) !in pages { NoPageNoAccess(pages, lines, a); } else { NoLineNoAccess(lines, a); }
    }
  }

  // Record a small access in a dictionary.
  method UpdateSmall(d: Dictionary, addr: nat, size: nat, v: Access, par: Oracle, ghost lgAlign: nat)
    requires d.Valid() && SmallAligned(addr, size, lgAlign) && PageOf(addr) in d.pages && v.Access?
    modifies d
    ensures d.Valid() && old(d.pages) <= d.pages
    ensures UpdatedIn(par, old(d.lines), d.lines, addr, addr + size, v)
  {
    var l := GetLineMustExist(d, addr, size, lgAlign);
    if Grain(l.lg) != size {
      FittingIsSafe(d.lines, addr, size, lgAlign);
      SmallOnPage(d.pages, addr, size, lgAlign);
      UpdateRegion(d, addr, size, v, par);
    } else {
      var _ := UpdateEntry(d, addr, size, v, par, lgAlign);
    }
  }

  // The fast path for reads.
  method CheckReadFast(rds: Dictionary, wrs: Dictionary, addr: nat, size: nat, v: Access, par: Oracle,
                       ghost lgAlign: nat)
    returns (reports: seq<nat>)
    requires rds != wrs && rds.Valid() && wrs.Valid() && v.Access?
    requires SmallAligned(addr, size, lgAlign) && PageOf(addr) in rds.pages
    modifies rds
    ensures rds.Valid() && old(rds.pages) <= rds.pages
    ensures UpdatedIn(par, old(rds.lines), rds.lines, addr, addr + size, v)
    ensures reports == NewsIn(wrs.lines, par, addr, size)
    ensures reports != [] <==> HasParallel(wrs.lines, par, addr, addr + size)
  {
    UpdateSmall(rds, addr, size, v, par, lgAlign);
    reports := CheckSmall(wrs, addr, size, par, lgAlign);
  }

  // Check a small write against the previous writes and record it.
  method CheckAndUpdateSmall(wrs: Dictionary, addr: nat, size: nat, v: Access, par: Oracle, ghost lgAlign: nat)
    returns (reports: seq<nat>)
    requires wrs.Valid() && SmallAligned(addr, size, lgAlign) && PageOf(addr) in wrs.pages && v.Access?
    modifies wrs
    ensures wrs.Valid() && old(wrs.pages) <= wrs.pages
    ensures UpdatedIn(par, old(wrs.lines), wrs.lines, addr, addr + size, v)
    ensures reports == RunsIn(old(wrs.lines), par, addr, size)
  {
    var l := GetLineMustExist(wrs, addr, size, lgAlign);
    SameRuns(old(wrs.lines), wrs.lines, par, addr, size);
    if Grain(l.lg) != size {
      FittingIsSafe(wrs.lines, addr, size, lgAlign);
      SmallOnPage(wrs.pages, addr, size, lgAlign);
      reports := CheckAndUpdateWrite(wrs, addr, size, v, par);
    } else {
      OneEntry(wrs.lines, addr, size, lgAlign);
      RunsOfOne(wrs.lines, par, addr, size);
      var found := UpdateEntry(wrs, addr, size, v, par, lgAlign);
      reports := if found then [addr] else [];
    }
  }

  // The fast path for writes.  The reads are checked first when they need a scan.
  method CheckWriteFast(rds: Dictionary, wrs: Dictionary, addr: nat, size: nat, v: Access, par: Oracle,
                        ghost lgAlign: nat)
    returns (reports: seq<nat>)
    requires rds != wrs && rds.Valid() && wrs.Valid() && v.Access?
    requires SmallAligned(addr, size, lgAlign) && PageOf(addr) in wrs.pages
    modifies wrs
    ensures wrs.Valid() && old(wrs.pages) <= wrs.pages
    ensures UpdatedIn(par, old(wrs.lines), wrs.lines, addr, addr + size, v)
    ensures reports == RacesOfWrite(old(wrs.lines), rds.lines, par, addr, size, NeedsScan(rds.lines, addr, size))
  {
    var readRaces, writeRaces;
    if NeedsScan(rds.lines, addr, size) {
      readRaces := CheckSmall(rds, addr, size, par, lgAlign);
      writeRaces := CheckAndUpdateSmall(wrs, addr, size, v, par, lgAlign);
      reports := readRaces + writeRaces;
    } else {
      writeRaces := CheckAndUpdateSmall(wrs, addr, size, v, par, lgAlign);
      readRaces := CheckSmall(rds, addr, size, par, lgAlign);
      reports := writeRaces + readRaces;
    }
  }

  // A small access touches more than one entry of its line, or a part of one.
  predicate NeedsScan(lines: Lines, addr: nat, size: nat) {
    Grain(LineAt(lines, LineOf(addr)).lg) != size
  }
}
