// Querying the shadow memory: a scan that skips empty pages, empty lines and
// runs of the same access sees every access that a byte-by-byte scan sees.

module ShadowScan {
  import opened Alignment
  import opened ShadowLine
  import opened LineOps
  import opened ShadowDictionary

  // Is a remembered access parallel to the current strand?  The answer depends
  // on the node and the version only.
  type Oracle = (nat, nat) -> bool

  predicate InParallel(par: Oracle, a: Access) {
    a.Access? && par(a.func, a.version)
  }

  // The step of a scan: past the bytes up to the next entry, in the same line.
  ghost predicate StepsTo(c: Chunk, next: nat, n: Chunk) {
    && (n.size > 0 ==> n.addr == next && c.addr < next <= NextLine(c.addr))
    && Front(n, c.addr + c.size) <= next
    && Rest(n, c.addr, c.addr + c.size) && n.size < c.size
    && (n.size > 0 ==> IsPageStart(n.addr) || PageOf(n.addr) == PageOf(c.addr))
  }

  lemma AdvanceSteps(c: Chunk, next: nat, n: Chunk)
    requires c.size > 0 && c.addr < next <= NextLine(c.addr) && n == Advance(c, next)
    ensures StepsTo(c, next, n)
  {
  }

  lemma NextSteps(c: Chunk, lg: nat, n: Chunk)
    requires lg <= 9 && c.size > 0 && n == Next(c, lg)
    ensures StepsTo(c, NextGrain(c.addr, lg), n)
  {
    NextGrainIs(c.addr, lg);
    AdvanceSteps(c, NextGrain(c.addr, lg), n);
  }

  // Addresses up to the next entry of a line share one entry.
  lemma SameEntry(a: nat, b: nat, lg: nat)
    requires lg <= 9 && a <= b < NextGrain(a, lg)
    ensures LineOf(b) == LineOf(a) && Idx(lg, Off(b)) == Idx(lg, Off(a))
  {
    assert LineOf(b) == LineOf(a) by {
      NextGrainIs(a, lg);
    }
    var k := LineOf(a) * Grain(9 - lg);
    assert a == k * Grain(lg) + Off(a) && b == k * Grain(lg) + Off(b) by {
      LineIsWholeGrains(lg, LineOf(a));
    }
    SameQuotient(a, b, Grain(lg), k, Off(a), Off(b));
  }

  lemma SameQuotient(a: nat, b: nat, g: nat, k: nat, x: nat, y: nat)
    requires g > 0 && a <= b < (a / g + 1) * g && a == k * g + x && b == k * g + y
    ensures x / g == y / g
  {
    var q := x / g;
    ModAdd(k, x, g);
    Euclid(x, g);
    assert (k + q + 1) * g == k * g + q * g + g;
    DivUnique(y, g, q);
  }

  // Up to the next entry, or in an empty line up to the next line, the bytes
  // remember the same.
  lemma EntryIsUniform(lines: Lines, a: nat, lg: nat)
    requires var l := LineAt(lines, LineOf(a)); lg == if l.count == 0 then 9 else l.lg
    ensures forall b :: a <= b < NextGrain(a, lg) ==> View(lines, b) == View(lines, a)
  {
    forall b | a <= b < NextGrain(a, lg)
      ensures View(lines, b) == View(lines, a)
    {
      SameEntry(a, b, lg);
      if LineAt(lines, LineOf(a)).count == 0 {
        NoLineNoAccess(lines, a);
        NoLineNoAccess(lines, b);
      }
    }
  }

  // From `from` up to `to` nothing is remembered but `prev`.
  ghost predicate OnlyRepeats(lines: Lines, prev: Access, from: nat, to: nat) {
    forall a :: from <= a < to ==> View(lines, a).Null? || Same(prev, View(lines, a))
  }

  lemma RepeatsJoin(lines: Lines, prev: Access, from: nat, mid: nat, to: nat)
    requires OnlyRepeats(lines, prev, from, mid) && OnlyRepeats(lines, prev, mid, to)
    ensures OnlyRepeats(lines, prev, from, to)
  {
  }

  // The last access remembered for the bytes from `from` up to `end`.
  ghost function LastAccess(lines: Lines, from: nat, end: nat): Access {
    if end <= from then Null
    else if View(lines, end - 1).Access? then View(lines, end - 1)
    else LastAccess(lines, from, end - 1)
  }

  // A scan from `from` on finds a new access at this byte.
  ghost predicate IsNews(lines: Lines, from: nat, a: nat) {
    View(lines, a).Access? && !Same(LastAccess(lines, from, a), View(lines, a))
  }

  // The bytes with a parallel access that is news.
  ghost function ParallelNews(lines: Lines, par: Oracle, from: nat): nat -> bool {
    (a: nat) => InParallel(par, View(lines, a)) && IsNews(lines, from, a)
  }

  // The bytes from `from` up to `end` with a property, in order.
  ghost function Where(p: nat -> bool, from: nat, end: nat): seq<nat> {
    if end <= from then []
    else Where(p, from, end - 1) + if p(end - 1) then [end - 1] else []
  }

  // The reports on a region: its bytes with a parallel access that is news.
  ghost function NewsIn(lines: Lines, par: Oracle, addr: nat, size: nat): seq<nat> {
    Where(ParallelNews(lines, par, addr), addr, addr + size)
  }

  lemma {:induction false} WhereHas(p: nat -> bool, from: nat, end: nat, a: nat)
    ensures a in Where(p, from, end) <==> from <= a < end && p(a)
    decreases end
  {
    if from < end {
      WhereHas(p, from, end - 1, a);
    }
  }

  lemma {:induction false} WhereIncreases(p: nat -> bool, from: nat, end: nat, i: nat, j: nat)
    requires i < j < |Where(p, from, end)|
    ensures Where(p, from, end)[i] < Where(p, from, end)[j]
    decreases end - from
  {
    var before := Where(p, from, end - 1);
    if j < |before| {
      WhereIncreases(p, from, end - 1, i, j);
    } else {
      assert Where(p, from, end)[i] == before[i] && before[i] in before;
      WhereHas(p, from, end - 1, before[i]);
    }
  }

  // Bytes without the property add nothing.
  lemma {:induction false} WhereNone(p: nat -> bool, from: nat, mid: nat, end: nat)
    requires from <= mid <= end && forall a :: mid <= a < end ==> !p(a)
    ensures Where(p, from, end) == Where(p, from, mid)
  {
    if mid < end {
      WhereNone(p, from, mid, end - 1);
    }
  }

  // The property is the same for all bytes of a region.
  lemma {:induction false} WhereSame(p: nat -> bool, q: nat -> bool, from: nat, end: nat)
    requires forall a: nat :: from <= a < end ==> p(a) == q(a)
    ensures Where(p, from, end) == Where(q, from, end)
    decreases end
  {
    if from < end {
      WhereSame(p, q, from, end - 1);
    }
  }

  lemma WhereOne(p: nat -> bool, from: nat, mid: nat, end: nat)
    requires from <= mid < end && p(mid) && forall a :: mid < a < end ==> !p(a)
    ensures Where(p, from, end) == Where(p, from, mid) + [mid]
  {
    WhereNone(p, from, mid + 1, end);
  }

  // What the last access is after nothing but repetitions of one.
  lemma {:induction false} LastOfRepeats(lines: Lines, prev: Access, from: nat, mid: nat, a: nat)
    requires from <= mid <= a && OnlyRepeats(lines, prev, mid, a)
    ensures Same(LastAccess(lines, from, a), LastAccess(lines, from, mid)) ||
      (prev.Access? && Same(LastAccess(lines, from, a), prev))
    ensures prev.Access? && mid < a && View(lines, mid).Access? ==> Same(LastAccess(lines, from, a), prev)
  {
    if mid < a {
      LastOfRepeats(lines, prev, from, mid, a - 1);
    }
  }

  // The step of a scan from a byte to the next access that differs: only the
  // first byte can be news.
  lemma RepeatsAreNoNews(lines: Lines, prev: Access, from: nat, mid: nat, end: nat, a: nat)
    requires from <= mid < a < end && OnlyRepeats(lines, prev, mid, end) && prev == View(lines, mid)
    ensures !IsNews(lines, from, a)
  {
    LastOfRepeats(lines, prev, from, mid, a);
  }

  class QueryIterator {
    const dict: Dictionary
    var accessed: Chunk

    ghost predicate Valid()
      reads this, dict
    {
      dict.Valid() && (accessed.size > 0 ==> PageOf(accessed.addr) in dict.pages)
    }

    // Start at the first line with an access.
    constructor (dict: Dictionary, c: Chunk)
      requires dict.Valid()
      ensures Valid() && this.dict == dict
      ensures Rest(accessed, c.addr, c.addr + c.size) && accessed.size <= c.size
      ensures OnlyRepeats(dict.lines, Null, c.addr, Front(accessed, c.addr + c.size))
      ensures accessed.size > 0 ==> LineAt(dict.lines, LineOf(accessed.addr)).count > 0
    {
      this.dict := dict;
      accessed := c;
      new;
      if c.size == 0 {
        return;
      }
      accessed := dict.SkipNullPages(accessed);
      if accessed.size == 0 {
        return;
      }
      accessed := dict.SkipEmptyLines(accessed);
    }

    predicate IsEnd()
      reads this
    {
      accessed.size == 0
    }

    // The access at the current address, if any.
    function Get(): (a: Access)
      requires !IsEnd()
      reads this, dict
      ensures a == View(dict.lines, accessed.addr)
    {
      NoAccessOnEmptyLine();
      if LineAt(dict.lines, LineOf(accessed.addr)).count == 0 then Null else View(dict.lines, accessed.addr)
    }

    lemma NoAccessOnEmptyLine()
      ensures LineAt(dict.lines, LineOf(accessed.addr)).count == 0 ==> View(dict.lines, accessed.addr) == Null
    {
      if LineAt(dict.lines, LineOf(accessed.addr)).count == 0 {
        NoLineNoAccess(dict.lines, accessed.addr);
      }
    }

    // Get a page and a line with an access, when a step has left the last.
    method EnterLine(n: Chunk) returns (c: Chunk)
      requires Valid() && n.size > 0 && (IsPageStart(n.addr) || PageOf(n.addr) in dict.pages)
      ensures Rest(c, n.addr, n.addr + n.size) && c.size <= n.size
      ensures c.size > 0 ==> PageOf(c.addr) in dict.pages
      ensures OnlyRepeats(dict.lines, Null, n.addr, Front(c, n.addr + n.size))
    {
      c := n;
      if IsPageStart(c.addr) {
        c := dict.SkipNullPages(c);
        if c.size == 0 {
          return;
        }
      }
      if IsLineStart(c.addr) {
        c := dict.SkipEmptyLines(c);
      }
    }

    // One step: to the next entry, or past an empty line.
    method StepOn() returns (c: Chunk)
      requires Valid() && !IsEnd()
      ensures Rest(c, accessed.addr, accessed.addr + accessed.size) && c.size < accessed.size
      ensures c.size > 0 ==> PageOf(c.addr) in dict.pages
      ensures forall a :: accessed.addr <= a < Front(c, accessed.addr + accessed.size) ==>
        View(dict.lines, a).Null? || View(dict.lines, a) == View(dict.lines, accessed.addr)
    {
      var l := LineAt(dict.lines, LineOf(accessed.addr));
      var lg := if l.count == 0 then 9 else l.lg;
      EntryIsUniform(dict.lines, accessed.addr, lg);
      c := Next(accessed, lg);
      NextSteps(accessed, lg, c);
      if c.size > 0 {
        c := EnterLine(c);
      }
    }

    // Scan on until another access is found.
    method NextAccess()
      requires Valid() && !IsEnd()
      modifies this
      ensures Valid() && accessed.size < old(accessed.size)
      ensures Rest(accessed, old(accessed.addr), old(accessed.addr + accessed.size))
      ensures OnlyRepeats(dict.lines, old(Get()), old(accessed.addr),
                          Front(accessed, old(accessed.addr + accessed.size)))
      ensures !IsEnd() ==> Get().Access? && !Same(old(Get()), Get())
    {
      var prev := Get();
      ghost var start, end := accessed.addr, accessed.addr + accessed.size;
      while true
        invariant Valid() && !IsEnd() && accessed.size <= old(accessed.size)
        invariant Rest(accessed, start, end)
        invariant View(dict.lines, accessed.addr).Null? || Same(prev, View(dict.lines, accessed.addr))
        invariant OnlyRepeats(dict.lines, prev, start, accessed.addr)
        decreases accessed.size
      {
        var c := StepOn();
        RepeatsJoin(dict.lines, prev, start, accessed.addr, Front(c, end));
        accessed := c;
        if IsEnd() {
          return;
        }
        var data := Get();
        if data.Access? && !(prev.Access? && Same(prev, data)) {
          return;
        }
      }
    }
  }

  // Some byte of the region remembers a parallel access.
  ghost predicate HasParallel(lines: Lines, par: Oracle, from: nat, to: nat) {
    exists a :: from <= a < to && InParallel(par, View(lines, a))
  }

  // Where a scan stops, there is news, or nothing so far.
  ghost predicate AtStop(lines: Lines, from: nat, a: nat) {
    if View(lines, a).Null? then LastAccess(lines, from, a).Null? else IsNews(lines, from, a)
  }

  // How the reports grow with a step of the scan.
  lemma NewsOfStep(lines: Lines, par: Oracle, from: nat, mid: nat, end: nat)
    requires from <= mid < end && OnlyRepeats(lines, View(lines, mid), mid, end)
    requires AtStop(lines, from, mid)
    ensures Where(ParallelNews(lines, par, from), from, end) ==
      Where(ParallelNews(lines, par, from), from, mid) + if InParallel(par, View(lines, mid)) then [mid] else []
  {
    forall a | mid < a < end
      ensures !ParallelNews(lines, par, from)(a)
    {
      RepeatsAreNoNews(lines, View(lines, mid), from, mid, end, a);
    }
    if InParallel(par, View(lines, mid)) {
      WhereOne(ParallelNews(lines, par, from), from, mid, end);
    } else {
      assert !ParallelNews(lines, par, from)(mid);
      WhereNone(ParallelNews(lines, par, from), from, mid, end);
    }
  }

  // Where a step of the scan ends, there is news again.
  lemma NewsAtStop(lines: Lines, from: nat, mid: nat, a: nat)
    requires from <= mid < a && OnlyRepeats(lines, View(lines, mid), mid, a)
    requires AtStop(lines, from, mid) && View(lines, a).Access? && !Same(View(lines, mid), View(lines, a))
    ensures AtStop(lines, from, a)
  {
    LastOfRepeats(lines, View(lines, mid), from, mid, a);
  }

  // All reports are of parallel accesses, and there is one if there is one.
  lemma ReportsAreRight(lines: Lines, par: Oracle, from: nat, size: nat)
    ensures NewsIn(lines, par, from, size) != [] <==> HasParallel(lines, par, from, from + size)
    ensures forall r :: r in NewsIn(lines, par, from, size) ==>
      from <= r < from + size && InParallel(par, View(lines, r))
  {
    var end, reports := from + size, NewsIn(lines, par, from, size);
    forall r | r in reports
      ensures from <= r < end && InParallel(par, View(lines, r))
    {
      WhereHas(ParallelNews(lines, par, from), from, end, r);
    }
    if reports != [] {
      assert reports[0] in reports;
    }
    if a :| from <= a < end && InParallel(par, View(lines, a)) {
      EveryParallelIsReported(lines, par, from, size, a);
    }
  }

  // The access at the byte was reported there or before.
  ghost predicate Reported(lines: Lines, reports: seq<nat>, a: nat) {
    exists r :: r in reports && r <= a && Same(View(lines, r), View(lines, a))
  }

  // Every parallel access is covered by a report: the same access was reported
  // at its byte or before.
  lemma {:induction false} EveryParallelIsReported(lines: Lines, par: Oracle, from: nat, size: nat, a: nat)
    requires from <= a < from + size && InParallel(par, View(lines, a))
    ensures Reported(lines, NewsIn(lines, par, from, size), a)
    decreases a
  {
    if IsNews(lines, from, a) {
      WhereHas(ParallelNews(lines, par, from), from, from + size, a);
    } else {
      var b := LastByte(lines, from, a);
      EveryParallelIsReported(lines, par, from, size, b);
    }
  }

  // Where the last access is.
  lemma {:induction false} LastByte(lines: Lines, from: nat, end: nat) returns (b: nat)
    requires LastAccess(lines, from, end).Access?
    ensures from <= b < end && View(lines, b) == LastAccess(lines, from, end)
    ensures forall a :: b < a < end ==> View(lines, a).Null?
  {
    b := end - 1;
    if View(lines, b).Null? {
      b := LastByte(lines, from, end - 1);
    }
  }

  // The reports are in order.
  lemma ReportsIncrease(lines: Lines, par: Oracle, from: nat, size: nat, i: nat, j: nat)
    requires i < j < |NewsIn(lines, par, from, size)|
    ensures NewsIn(lines, par, from, size)[i] < NewsIn(lines, par, from, size)[j]
  {
    WhereIncreases(ParallelNews(lines, par, from), from, from + size, i, j);
  }

  // Between two reports of the same access there is another access.
  lemma ReportsDiffer(lines: Lines, par: Oracle, from: nat, size: nat, r: nat, r': nat) returns (b: nat)
    requires r in NewsIn(lines, par, from, size) && r' in NewsIn(lines, par, from, size)
    requires r < r' && Same(View(lines, r), View(lines, r'))
    ensures r < b < r' && View(lines, b).Access? && !Same(View(lines, b), View(lines, r))
  {
    WhereHas(ParallelNews(lines, par, from), from, from + size, r);
    WhereHas(ParallelNews(lines, par, from), from, from + size, r');
    b := OtherBefore(lines, from, r, r');
  }

  lemma OtherBefore(lines: Lines, from: nat, r: nat, r': nat) returns (b: nat)
    requires from <= r < r' && View(lines, r).Access? && IsNews(lines, from, r')
    requires Same(View(lines, r), View(lines, r'))
    ensures r < b < r' && View(lines, b).Access? && !Same(View(lines, b), View(lines, r))
  {
    LastIsAccess(lines, from, r, r');
    b := LastByte(lines, from, r');
  }

  lemma {:induction false} LastIsAccess(lines: Lines, from: nat, r: nat, end: nat)
    requires from <= r < end && View(lines, r).Access?
    ensures LastAccess(lines, from, end).Access?
  {
    if r < end - 1 {
      LastIsAccess(lines, from, r, end - 1);
    }
  }

  // A scan from `from` on has come to `to`, with these reports.
  ghost predicate Scanned(lines: Lines, par: Oracle, from: nat, c: Chunk, end: nat, reports: seq<nat>) {
    && Rest(c, from, end) && from <= Front(c, end)
    && reports == Where(ParallelNews(lines, par, from), from, Front(c, end))
    && (c.size > 0 ==> AtStop(lines, from, c.addr))
  }

  lemma ScanStarts(lines: Lines, par: Oracle, from: nat, c: Chunk, end: nat)
    requires from <= Front(c, end) && Rest(c, from, end) && OnlyRepeats(lines, Null, from, Front(c, end))
    ensures Scanned(lines, par, from, c, end, [])
  {
    var front := Front(c, end);
    LastOfRepeats(lines, Null, from, from, front);
    forall a | from <= a < front
      ensures !ParallelNews(lines, par, from)(a)
    {
    }
    WhereNone(ParallelNews(lines, par, from), from, from, front);
  }

  lemma ScanGoesOn(lines: Lines, par: Oracle, from: nat, c: Chunk, n: Chunk, end: nat, reports: seq<nat>)
    requires c.size > 0 && Scanned(lines, par, from, c, end, reports)
    requires Rest(n, c.addr, end) && n.size < c.size && OnlyRepeats(lines, View(lines, c.addr), c.addr, Front(n, end))
    requires n.size > 0 ==> View(lines, n.addr).Access? && !Same(View(lines, c.addr), View(lines, n.addr))
    ensures Scanned(lines, par, from, n, end, reports + if InParallel(par, View(lines, c.addr)) then [c.addr] else [])
  {
    NewsOfStep(lines, par, from, c.addr, Front(n, end));
    if n.size > 0 {
      NewsAtStop(lines, from, c.addr, n.addr);
    }
  }

  // A region whose bytes remember the same has one report at most.
  lemma NewsOfOne(lines: Lines, par: Oracle, addr: nat, size: nat)
    requires size > 0 && forall a :: addr <= a < addr + size ==> View(lines, a) == View(lines, addr)
    ensures NewsIn(lines, par, addr, size) == if InParallel(par, View(lines, addr)) then [addr] else []
  {
    var c, end := Chunk(addr, size), addr + size;
    ScanStarts(lines, par, addr, c, end);
    ScanGoesOn(lines, par, addr, c, Chunk(end, 0), end, []);
  }

  // Report the access at the stop of a scan if it is parallel, and scan on.
  method ReportStop(it: QueryIterator, par: Oracle, ghost lines: Lines, ghost from: nat, ghost end: nat,
                    reports0: seq<nat>)
    returns (reports: seq<nat>)
    requires it.Valid() && !it.IsEnd() && lines == it.dict.lines
    requires Scanned(lines, par, from, it.accessed, end, reports0)
    modifies it
    ensures it.Valid() && Scanned(lines, par, from, it.accessed, end, reports)
    ensures it.accessed.size < old(it.accessed.size)
  {
    ghost var c := it.accessed;
    reports := reports0;
    var prev := it.Get();
    if prev.Access? {
      if InParallel(par, prev) {
        reports := reports + [it.accessed.addr];
      }
    }
    it.NextAccess();
    ScanGoesOn(lines, par, from, c, it.accessed, end, reports0);
  }

  // Check a region for remembered accesses that are parallel.  A report is made
  // for each of them that is news in a scan byte by byte.
  method CheckRace(dict: Dictionary, addr: nat, size: nat, par: Oracle) returns (reports: seq<nat>)
    requires dict.Valid()
    ensures reports == NewsIn(dict.lines, par, addr, size)
    ensures reports != [] <==> HasParallel(dict.lines, par, addr, addr + size)
    ensures forall r :: r in reports ==> addr <= r < addr + size && InParallel(par, View(dict.lines, r))
  {
    reports := ScanRegion(dict, addr, size, par);
    ReportsAreRight(dict.lines, par, addr, size);
  }

  method StartScan(dict: Dictionary, addr: nat, size: nat, ghost par: Oracle) returns (it: QueryIterator)
    requires dict.Valid()
    ensures fresh(it) && it.dict == dict && it.Valid()
    ensures Scanned(dict.lines, par, addr, it.accessed, addr + size, [])
  {
    it := new QueryIterator(dict, Chunk(addr, size));
    ScanStarts(dict.lines, par, addr, it.accessed, addr + size);
  }

  method ScanRegion(dict: Dictionary, addr: nat, size: nat, par: Oracle) returns (reports: seq<nat>)
    requires dict.Valid()
    ensures reports == NewsIn(dict.lines, par, addr, size)
  {
    reports := [];
    ghost var lines, end := dict.lines, addr + size;
    var it := StartScan(dict, addr, size, par);
    while !it.IsEnd()
      invariant it.Valid() && it.dict == dict && dict.lines == lines
      invariant Scanned(lines, par, addr, it.accessed, end, reports)
      decreases it.accessed.size
    {
      reports := ReportStop(it, par, lines, addr, end, reports);
    }
  }
}
