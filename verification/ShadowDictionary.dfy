// The shadow memory as a dictionary of lines, grouped into pages: a byte-indexed
// map of accesses in a compressed form.

module ShadowDictionary {
  import opened Alignment
  import opened ShadowLine
  import opened LineOps

  type GoodLine = l: Line | ValidLine(l) witness EMPTY_LINE

  type Lines = map<nat, GoodLine>

  function LineAt(lines: Lines, k: nat): GoodLine {
    if k in lines then lines[k] else EMPTY_LINE
  }

  // The byte-indexed view.
  function View(lines: Lines, a: nat): Access {
    At(LineAt(lines, LineOf(a)), Off(a))
  }

  const PAGE_SIZE: nat := 0x4000_0000

  function PageOf(a: nat): nat {
    a / 0x4000_0000
  }

  function NextPage(a: nat): nat {
    (PageOf(a) + 1) * 0x4000_0000
  }

  predicate IsPageStart(a: nat) {
    a % 0x4000_0000 == 0
  }

  // Lines exist on allocated pages only.
  ghost predicate OnPages(pages: set<nat>, lines: Lines) {
    forall k :: k in lines ==> PageOf(k * 512) in pages
  }

  // All pages of a region exist.
  ghost predicate AllPages(pages: set<nat>, from: nat, end: nat) {
    forall a :: from <= a < end ==> PageOf(a) in pages
  }

  lemma LineOnPage(a: nat)
    ensures PageOf(LineOf(a) * 512) == PageOf(a)
  {
    var q := PageOf(a);
    assert q * 0x20_0000 <= LineOf(a) < (q + 1) * 0x20_0000;
  }

  lemma LineHasOnePage(a: nat, b: nat)
    requires NextLine(b) - 512 <= a < NextLine(b)
    ensures PageOf(a) == PageOf(b)
  {
    assert LineOf(a) == LineOf(b);
    LineOnPage(a);
    LineOnPage(b);
  }

  lemma NoPageNoAccess(pages: set<nat>, lines: Lines, a: nat)
    requires OnPages(pages, lines) && PageOf(a) !in pages
    ensures View(lines, a) == Null
  {
    LineOnPage(a);
  }

  lemma NoLineNoAccess(lines: Lines, a: nat)
    requires LineAt(lines, LineOf(a)).count == 0
    ensures View(lines, a) == Null
  {
    EmptyIsNull(LineAt(lines, LineOf(a)));
  }

  // How far a scan of a region that ends at `end` has come.
  function Front(c: Chunk, end: nat): nat {
    if c.size == 0 then end else c.addr
  }

  // What is left of a region.
  ghost predicate Rest(c: Chunk, start: nat, end: nat) {
    c.size > 0 ==> start <= c.addr && c.addr + c.size == end
  }

  // The chunk's bytes of its line, by address.
  lemma CoveredBytes(c: Chunk, a: nat)
    requires c.size > 0
    ensures LineOf(a) == LineOf(c.addr) && Covers(c, Off(a)) <==> c.addr <= a < c.addr + c.size && a < NextLine(c.addr)
  {
  }

  lemma AfterLineFront(c: Chunk, n: Chunk)
    requires c.size > 0 && AfterLine(c, n)
    ensures Rest(n, c.addr, c.addr + c.size)
    ensures Front(n, c.addr + c.size) == Min(NextLine(c.addr), c.addr + c.size)
    ensures n.size > 0 ==> IsLineStart(n.addr) && (PageOf(n.addr) == PageOf(c.addr) || IsPageStart(n.addr))
  {
  }

  // Replacing one line changes its bytes only.
  lemma ReplacedLine(lines: Lines, k: nat, l: GoodLine, a: nat)
    ensures View(lines[k := l], a) == if LineOf(a) == k then At(l, Off(a)) else View(lines, a)
  {
  }

  // The region resets the line of the byte.
  predicate ResetBy(lines: Lines, addr: nat, end: nat, a: nat) {
    addr <= LineOf(a) * 512 && NextLine(a) <= end && LineAt(lines, LineOf(a)).lg != LG_LINE_SIZE
  }

  // The bytes of the region from `addr` to `end` that lie below `to` have been
  // set, others have not changed.
  ghost predicate SetIn(l0: Lines, l1: Lines, addr: nat, end: nat, to: nat, v: Access) {
    forall a: nat ::
      View(l1, a) == if addr <= a < to then Stored(ResetBy(l0, addr, end, a), View(l0, a), v) else View(l0, a)
  }

  lemma SetFurther(l0: Lines, l1: Lines, addr: nat, end: nat, c: Chunk, n: Chunk, l: GoodLine, v: Access)
    requires SetIn(l0, l1, addr, end, c.addr, v) && c.size > 0 && Rest(c, addr, end) && AfterLine(c, n)
    requires c.addr == addr || IsLineStart(c.addr)
    requires LineAt(l1, LineOf(c.addr)) == LineAt(l0, LineOf(c.addr))
    requires var k := LineAt(l0, LineOf(c.addr));
      forall o :: 0 <= o < 512 ==>
        At(l, o) == if Covers(c, o) then Stored(Resets(k, Off(c.addr), EndOff(c)), At(k, o), v) else At(k, o)
    ensures SetIn(l0, l1[LineOf(c.addr) := l], addr, end, Front(n, end), v)
  {
    AfterLineFront(c, n);
    var l2 := l1[LineOf(c.addr) := l];
    forall a: nat
      ensures View(l2, a) ==
        if addr <= a < Front(n, end) then Stored(ResetBy(l0, addr, end, a), View(l0, a), v) else View(l0, a)
    {
      CoveredBytes(c, a);
      ReplacedLine(l1, LineOf(c.addr), l, a);
    }
  }

  lemma WrittenIn(l0: Lines, l1: Lines, addr: nat, end: nat, v: Access)
    requires SetIn(l0, l1, addr, end, end, v) && v.Access?
    ensures forall a :: addr <= a < end ==> IsWritten(View(l1, a), View(l0, a), v, ResetBy(l0, addr, end, a))
  {
  }

  // The pages of a region have been allocated, and no others.
  ghost predicate GainsPages(p0: set<nat>, p1: set<nat>, from: nat, end: nat) {
    && p0 <= p1 && AllPages(p1, from, end)
    && forall p :: p in p1 - p0 ==> exists a :: from <= a < end && PageOf(a) == p
  }

  // The next step of a region stays within a line, and so on a page.
  lemma GainsFurther(p0: set<nat>, p1: set<nat>, from: nat, mid: nat, end: nat)
    requires GainsPages(p0, p1, from, mid) && from <= mid < end <= NextLine(mid)
    ensures GainsPages(p0, p1 + {PageOf(mid)}, from, end)
  {
    forall a | mid <= a < end
      ensures PageOf(a) == PageOf(mid)
    {
      LineHasOnePage(a, mid);
    }
    forall p | p in p1 + {PageOf(mid)} - p0
      ensures exists a :: from <= a < end && PageOf(a) == p
    {
      if p in p1 - p0 {
        var a :| from <= a < mid && PageOf(a) == p;
        assert from <= a < end && PageOf(a) == p;
      } else {
        assert from <= mid < end && PageOf(mid) == p;
      }
    }
  }

  class Dictionary {
    var pages: set<nat>
    var lines: Lines

    ghost predicate Valid()
      reads this
    {
      OnPages(pages, lines)
    }

    constructor ()
      ensures Valid() && forall a :: View(lines, a) == Null
    {
      pages, lines := {}, map[];
      new;
      forall a: nat ensures View(lines, a) == Null { NoLineNoAccess(lines, a); }
    }

    // Replace the line of an address on an allocated page.
    method PutLine(a: nat, l: GoodLine)
      requires Valid() && PageOf(a) in pages
      modifies this`lines
      ensures Valid() && lines == old(lines)[LineOf(a) := l]
    {
      LineOnPage(a);
      lines := lines[LineOf(a) := l];
    }

    method AllocatePage(a: nat)
      requires Valid()
      modifies this`pages
      ensures Valid() && pages == old(pages) + {PageOf(a)}
    {
      pages := pages + {PageOf(a)};
    }

    // Skip to the next page that is allocated.
    method SkipNullPages(c0: Chunk) returns (c: Chunk)
      requires Valid() && c0.size > 0
      ensures Rest(c, c0.addr, c0.addr + c0.size) && c.size <= c0.size
      ensures c.size > 0 ==> PageOf(c.addr) in pages && (c == c0 || IsPageStart(c.addr))
      ensures forall a :: c0.addr <= a < Front(c, c0.addr + c0.size) ==> View(lines, a) == Null
    {
      c := c0;
      while PageOf(c.addr) !in pages
        invariant c.size > 0 && Rest(c, c0.addr, c0.addr + c0.size) && c.size <= c0.size
        invariant c == c0 || IsPageStart(c.addr)
        invariant forall a :: c0.addr <= a < c.addr ==> View(lines, a) == Null
        decreases c.size
      {
        forall a | c.addr <= a < NextPage(c.addr)
          ensures View(lines, a) == Null
        {
          NoPageNoAccess(pages, lines, a);
        }
        c := Advance(c, NextPage(c.addr));
        if c.size == 0 {
          return;
        }
      }
    }

    // Skip to the next line that is not empty.
    method SkipEmptyLines(c0: Chunk) returns (c: Chunk)
      requires Valid() && c0.size > 0 && PageOf(c0.addr) in pages
      ensures Rest(c, c0.addr, c0.addr + c0.size) && c.size <= c0.size
      ensures c.size > 0 ==> PageOf(c.addr) in pages && LineAt(lines, LineOf(c.addr)).count > 0
      ensures forall a :: c0.addr <= a < Front(c, c0.addr + c0.size) ==> View(lines, a) == Null
    {
      c := c0;
      while LineAt(lines, LineOf(c.addr)).count == 0
        invariant c.size > 0 && Rest(c, c0.addr, c0.addr + c0.size) && c.size <= c0.size
        invariant PageOf(c.addr) in pages
        invariant forall a :: c0.addr <= a < c.addr ==> View(lines, a) == Null
        decreases c.size
      {
        forall a | c.addr <= a < NextLine(c.addr)
          ensures View(lines, a) == Null
        {
          NoLineNoAccess(lines, a);
        }
        var n := Next(c, 9);
        if n.size == 0 {
          return n;
        }
        if IsPageStart(n.addr) {
          n := SkipNullPages(n);
          if n.size == 0 {
            return n;
          }
        }
        c := n;
      }
    }

    // Set all bytes of a region.
    method Set(addr: nat, size: nat, v: Access)
      requires Valid() && addr > 0 && size > 0 && v.Access?
      modifies this
      ensures Valid() && GainsPages(old(pages), pages, addr, addr + size)
      ensures SetIn(old(lines), lines, addr, addr + size, addr + size, v)
      ensures forall a :: addr <= a < addr + size ==>
        IsWritten(View(lines, a), View(old(lines), a), v, ResetBy(old(lines), addr, addr + size, a))
    {
      SetLines(addr, size, v);
      WrittenIn(old(lines), lines, addr, addr + size, v);
    }

    // Set them line by line.
    method SetLines(addr: nat, size: nat, v: Access)
      requires Valid() && addr > 0 && size > 0 && v.Access?
      modifies this
      ensures Valid() && GainsPages(old(pages), pages, addr, addr + size)
      ensures SetIn(old(lines), lines, addr, addr + size, addr + size, v)
    {
      var c := Chunk(addr, size);
      var end := addr + size;
      while true
        invariant Valid() && c.size > 0 && Rest(c, addr, end)
        invariant c.addr == addr || IsLineStart(c.addr)
        invariant forall k: nat :: k >= LineOf(c.addr) ==> LineAt(lines, k) == LineAt(old(lines), k)
        invariant SetIn(old(lines), lines, addr, end, c.addr, v)
        invariant GainsPages(old(pages), pages, addr, c.addr)
        decreases c.size
      {
        ghost var before, lines0 := pages, lines;
        var n, l := SetHere(c, v);
        SetFurther(old(lines), lines0, addr, end, c, n, l, v);
        AfterLineFront(c, n);
        GainsFurther(old(pages), before, addr, c.addr, Front(n, end));
        c := n;
        if c.size == 0 {
          return;
        }
      }
    }

    // Set the bytes of the current line, on a new page if necessary.
    method SetHere(c: Chunk, v: Access) returns (n: Chunk, ghost l: GoodLine)
      requires Valid() && c.addr > 0 && c.size > 0 && v.Access?
      modifies this
      ensures Valid() && pages == old(pages) + {PageOf(c.addr)}
      ensures AfterLine(c, n) && n.size < c.size && lines == old(lines)[LineOf(c.addr) := l]
      ensures var k := LineAt(old(lines), LineOf(c.addr));
        forall o :: 0 <= o < 512 ==>
          At(l, o) == if Covers(c, o) then Stored(Resets(k, Off(c.addr), EndOff(c)), At(k, o), v) else At(k, o)
    {
      if PageOf(c.addr) !in pages {
        AllocatePage(c.addr);
      }
      var line;
      line, n := SetLine(LineAt(lines, LineOf(c.addr)), c, v);
      PutLine(c.addr, line);
      l := line;
    }

    // Clear all bytes of a region.
    method Clear(addr: nat, size: nat)
      requires Valid() && addr > 0 && size > 0
      modifies this
      ensures Valid() && pages == old(pages)
      ensures forall a :: 0 <= a ==>
        View(lines, a) == if addr <= a < addr + size then Null else View(old(lines), a)
    {
      var c := Chunk(addr, size);
      var end := addr + size;
      while true
        invariant Valid() && pages == old(pages) && c.size > 0 && Rest(c, addr, end)
        invariant forall a :: 0 <= a ==>
          View(lines, a) == if addr <= a < c.addr then Null else View(old(lines), a)
        decreases c.size
      {
        c := SkipNullPages(c);
        if c.size == 0 {
          return;
        }
        c := SkipEmptyLines(c);
        if c.size == 0 {
          return;
        }
        var l, n := ClearLine(LineAt(lines, LineOf(c.addr)), c);
        ghost var before := lines;
        PutLine(c.addr, l);
        forall a: nat
          ensures View(lines, a) == if c.addr <= a < Front(n, end) then Null else View(before, a)
        {
          AfterLineFront(c, n);
          CoveredBytes(c, a);
          ReplacedLine(before, LineOf(c.addr), l, a);
        }
        AfterLineFront(c, n);
        c := n;
        if c.size == 0 {
          return;
        }
      }
    }
  }
}
