// One line of the shadow memory: the accesses remembered for 512 bytes of the
// program, at the coarsest granularity that can tell them apart.

module ShadowLine {
  import opened Alignment

  // A remembered access: a node of the disjoint sets with a version, and the
  // id of the instruction.
  datatype Access = Null | Access(func: nat, version: nat, id: nat)

  // Accesses are compared by node and version only.
  predicate Same(a: Access, b: Access) {
    (a.Null? && b.Null?) || (a.Access? && b.Access? && a.func == b.func && a.version == b.version)
  }

  // What an entry that remembered `prev` holds once `v` is written: the node and
  // the instruction of `v`, and the version of `prev` if the node is the same and
  // the entry has not been reset.
  predicate IsWritten(now: Access, prev: Access, v: Access, reset: bool)
    requires v.Access?
  {
    && now.Access? && now.func == v.func && now.id == v.id
    && now.version == if !reset && prev.Access? && prev.func == v.func then prev.version else v.version
  }

  // Setting an entry keeps its version when the node stays the same.
  function Put(prev: Access, v: Access): (now: Access)
    ensures v.Access? ==> IsWritten(now, prev, v, false)
  {
    if prev.Access? && v.Access? && prev.func == v.func then prev.(id := v.id) else v
  }

  // ------------------------------------------------------------- granularity

  const LG_LINE_SIZE: nat := 9

  function Grain(lg: nat): (g: nat)
    requires lg <= 9
    ensures g > 0
  {
    if lg == 0 then 1 else if lg == 1 then 2 else if lg == 2 then 4 else if lg == 3 then 8
    else if lg == 4 then 16 else if lg == 5 then 32 else if lg == 6 then 64 else if lg == 7 then 128
    else if lg == 8 then 256 else 512
  }

  // Trailing zero bits.
  function Ctz(n: nat): nat
    requires n > 0
  {
    if n % 2 == 1 then 0 else 1 + Ctz(n / 2)
  }

  lemma {:induction false} CtzIsAlignment(n: nat, lg: nat)
    requires n > 0 && lg <= 9
    ensures n % Grain(lg) == 0 <==> lg <= Ctz(n)
    decreases lg
  {
    if lg > 0 {
      HalfAligned(n, Grain(lg - 1), Grain(lg));
      if n % 2 == 0 {
        CtzIsAlignment(n / 2, lg - 1);
      }
    }
  }

  // A finer grain divides a coarser one.
  lemma AlignedFiner(n: nat, lg: nat, lg': nat)
    requires lg' <= lg <= 9 && n % Grain(lg) == 0
    ensures n % Grain(lg') == 0
  {
    if n > 0 {
      CtzIsAlignment(n, lg);
      CtzIsAlignment(n, lg');
    }
  }

  // ------------------------------------------------------------------ chunks

  // A contiguous region of memory.
  datatype Chunk = Chunk(addr: nat, size: nat)

  function Off(addr: nat): (o: nat)
    ensures o < 512
  {
    addr % 512
  }

  function LineOf(addr: nat): nat {
    addr / 512
  }

  function NextLine(addr: nat): nat {
    (LineOf(addr) + 1) * 512
  }

  function NextGrain(addr: nat, lg: nat): nat
    requires lg <= 9
  {
    (addr / Grain(lg) + 1) * Grain(lg)
  }

  lemma LineIsWholeGrains(lg: nat, k: nat)
    requires lg <= 9
    ensures Grain(lg) * Grain(9 - lg) == 512
    ensures k * 512 == (k * Grain(9 - lg)) * Grain(lg) && (k * 512) % Grain(lg) == 0
  {
    assert Grain(lg) * Grain(9 - lg) == 512;
    assert k * 512 == (k * Grain(9 - lg)) * Grain(lg);
    ModAdd(k * Grain(9 - lg), 0, Grain(lg));
  }

  lemma OffAligned(addr: nat, lg: nat)
    requires lg <= 9
    ensures addr % Grain(lg) == 0 <==> Off(addr) % Grain(lg) == 0
  {
    LineIsWholeGrains(lg, LineOf(addr));
    ModAdd(LineOf(addr) * Grain(9 - lg), Off(addr), Grain(lg));
  }

  lemma NextGrainIs(addr: nat, lg: nat)
    requires lg <= 9
    ensures addr < NextGrain(addr, lg) <= addr + Grain(lg)
    ensures NextGrain(addr, lg) % Grain(lg) == 0
    ensures addr % Grain(lg) == 0 ==> NextGrain(addr, lg) == addr + Grain(lg)
    ensures NextGrain(addr, lg) <= NextLine(addr)
  {
    NextMultiple(addr, Grain(lg));
    LineIsWholeGrains(lg, LineOf(addr) + 1);
    NoMultipleBetween(addr, Grain(lg), NextLine(addr));
  }

  // The rest of a chunk from the next aligned address on.
  function Advance(c: Chunk, next: nat): Chunk
    requires c.addr <= next
  {
    if next - c.addr > c.size then Chunk(next, 0) else Chunk(next, c.size - (next - c.addr))
  }

  // It is smaller, so a scan ends.
  function Next(c: Chunk, lg: nat): (n: Chunk)
    requires lg <= 9
    ensures c.size > 0 ==> n.size < c.size
    ensures n.size > 0 ==> n.addr + n.size == c.addr + c.size
  {
    NextGrainIs(c.addr, lg);
    Advance(c, NextGrain(c.addr, lg))
  }

  predicate WithinLine(c: Chunk) {
    c.addr + c.size < NextLine(c.addr)
  }

  predicate IsLineStart(addr: nat) {
    Off(addr) == 0
  }

  // Entries of 2^lg bytes can describe the chunk's part of its line.
  predicate Describes(c: Chunk, lg: nat) {
    lg <= 9 && c.addr % Grain(lg) == 0 && (WithinLine(c) ==> (c.addr + c.size) % Grain(lg) == 0)
  }

  function Min(x: nat, y: nat): (m: nat)
    ensures m <= x && m <= y && (m == x || m == y)
  {
    if y < x then y else x
  }

  // The coarsest granularity that describes the chunk.
  function LgGrainsize(c: Chunk): (lg: nat)
    requires c.addr > 0
    ensures Describes(c, lg)
    ensures forall k :: 0 <= k <= 9 && Describes(c, k) ==> k <= lg
  {
    var lg := Min(Ctz(c.addr), 9);
    CtzIsAlignment(c.addr, lg);
    assert forall k :: 0 <= k <= 9 && Describes(c, k) ==> k <= lg by {
      forall k | 0 <= k <= 9 && Describes(c, k) ensures k <= lg { CtzIsAlignment(c.addr, k); }
    }
    if c.size >= 512 then lg
    else if WithinLine(c) then
      var end := Min(Ctz(c.addr + c.size), lg);
      AlignedFiner(c.addr, lg, end);
      CtzIsAlignment(c.addr + c.size, end);
      assert forall k :: 0 <= k <= 9 && Describes(c, k) ==> k <= end by {
        forall k | 0 <= k <= 9 && Describes(c, k) ensures k <= end { CtzIsAlignment(c.addr + c.size, k); }
      }
      end
    else lg
  }

  lemma DescribesFiner(c: Chunk, lg: nat, lg': nat)
    requires Describes(c, lg) && lg' <= lg
    ensures Describes(c, lg')
  {
    AlignedFiner(c.addr, lg, lg');
    if WithinLine(c) {
      AlignedFiner(c.addr + c.size, lg, lg');
    }
  }

  // The offsets of the chunk in its line run up to here.
  function EndOff(c: Chunk): (o: nat)
    ensures o <= 512
  {
    Min(Off(c.addr) + c.size, 512)
  }

  // What remains of a chunk after its line has been handled.
  predicate AfterLine(c: Chunk, rest: Chunk) {
    if c.addr + c.size <= NextLine(c.addr) then rest.size == 0
    else rest == Chunk(NextLine(c.addr), c.addr + c.size - NextLine(c.addr))
  }

  // One aligned step through a line covers one grain of it, and stops at its
  // end or at the end of the chunk.
  lemma StepStaysInLine(c0: Chunk, c: Chunk, g: nat, n: Chunk)
    requires c0.size > 0 && c.size > 0 && c.addr + c.size == c0.addr + c0.size
    requires LineOf(c.addr) == LineOf(c0.addr) && c.addr >= c0.addr
    requires 0 < g && c.addr + g <= NextLine(c.addr) && (WithinLine(c0) ==> g <= c.size)
    requires n == Advance(c, c.addr + g)
    ensures Off(c.addr) + g <= EndOff(c0)
    ensures n.addr == c.addr + g && n.size == c.size - g
    ensures n.size == 0 || IsLineStart(n.addr) ==> AfterLine(c0, n) && Off(c.addr) + g == EndOff(c0)
    ensures n.size > 0 && !IsLineStart(n.addr) ==>
      LineOf(n.addr) == LineOf(c0.addr) && Off(n.addr) == Off(c.addr) + g
  {
  }

  lemma StepThroughLine(c0: Chunk, c: Chunk, lg: nat)
    requires Describes(c0, lg) && c0.size > 0
    requires LineOf(c.addr) == LineOf(c0.addr) && c.addr % Grain(lg) == 0 && c.addr >= c0.addr
    requires c.size > 0 && c.addr + c.size == c0.addr + c0.size
    ensures Off(c.addr) % Grain(lg) == 0 && Off(c.addr) + Grain(lg) <= EndOff(c0)
    ensures NextGrain(c.addr, lg) == c.addr + Grain(lg) && Next(c, lg) == Advance(c, c.addr + Grain(lg))
    ensures (c.addr + Grain(lg)) % Grain(lg) == 0
    ensures c.addr + Grain(lg) <= NextLine(c.addr) && (WithinLine(c0) ==> Grain(lg) <= c.size)
  {
    NextGrainIs(c.addr, lg);
    OffAligned(c.addr, lg);
    if WithinLine(c0) {
      NoMultipleBetween(c.addr, Grain(lg), c0.addr + c0.size);
    }
    StepStaysInLine(c0, c, Grain(lg), Advance(c, c.addr + Grain(lg)));
  }

  // ------------------------------------------------------------------- lines

  // A line: entries of 2^lg bytes each, allocated lazily, and the count of the
  // entries that hold an access.
  datatype Line = Line(lg: nat, data: seq<Access>, count: nat)

  const EMPTY_LINE: Line := Line(9, [], 0)

  function Valids(data: seq<Access>): nat {
    if |data| == 0 then 0 else Valids(data[..|data| - 1]) + if data[|data| - 1].Access? then 1 else 0
  }

  predicate Shaped(l: Line) {
    l.lg <= 9 && (l.data == [] || |l.data| == Grain(9 - l.lg))
  }

  predicate ValidLine(l: Line) {
    Shaped(l) && l.count == Valids(l.data)
  }

  lemma IdxInRange(o: nat, lg: nat)
    requires lg <= 9 && o < 512
    ensures o / Grain(lg) < Grain(9 - lg)
  {
    LineIsWholeGrains(lg, 1);
    if o / Grain(lg) >= Grain(9 - lg) {
      MulMono(Grain(9 - lg), o / Grain(lg), Grain(lg));
      Euclid(o, Grain(lg));
    }
  }

  // The index of the entry for a byte offset.
  function Idx(lg: nat, o: nat): (i: nat)
    requires lg <= 9 && o < 512
    ensures i < Grain(9 - lg)
  {
    IdxInRange(o, lg);
    o / Grain(lg)
  }

  // The access remembered for a byte.
  function At(l: Line, o: nat): Access
    requires Shaped(l) && o < 512
  {
    if l.data == [] then Null else l.data[Idx(l.lg, o)]
  }

  // The offsets that share the entry of an aligned offset.
  lemma EntryCovers(lg: nat, o: nat, o': nat)
    requires lg <= 9 && o < 512 && o' < 512 && o % Grain(lg) == 0
    ensures Idx(lg, o') == Idx(lg, o) <==> o <= o' < o + Grain(lg)
  {
    var g := Grain(lg);
    Euclid(o, g);
    Euclid(o', g);
    if o <= o' < o + g {
      DivUnique(o', g, o / g);
    }
  }

  // Storing into one entry changes just its bytes.
  lemma UpdateAt(l: Line, o: nat, x: Access, l': Line)
    requires Shaped(l) && l.data != [] && o < 512 && o % Grain(l.lg) == 0
    requires l' == l.(data := l.data[Idx(l.lg, o) := x], count := l'.count)
    ensures Shaped(l')
    ensures forall o' :: 0 <= o' < 512 ==> At(l', o') == if o <= o' < o + Grain(l.lg) then x else At(l, o')
    ensures forall o' :: o <= o' < o + Grain(l.lg) && o' < 512 ==> At(l, o') == l.data[Idx(l.lg, o)]
  {
    forall o' | 0 <= o' < 512
      ensures Idx(l.lg, o') == Idx(l.lg, o) <==> o <= o' < o + Grain(l.lg)
    {
      EntryCovers(l.lg, o, o');
    }
  }

  lemma {:induction false} ValidsAfter(data: seq<Access>, i: nat, x: Access)
    requires i < |data|
    ensures Valids(data[i := x]) + (if data[i].Access? then 1 else 0) == Valids(data) + (if x.Access? then 1 else 0)
  {
    var k := |data| - 1;
    if i < k {
      ValidsAfter(data[..k], i, x);
      assert data[i := x][..k] == data[..k][i := x];
    } else {
      assert data[i := x][..k] == data[..k];
    }
  }

  lemma {:induction false} ValidsOfNull(data: seq<Access>)
    requires forall i :: 0 <= i < |data| ==> data[i] == Null
    ensures Valids(data) == 0
  {
    if |data| > 0 {
      ValidsOfNull(data[..|data| - 1]);
    }
  }

  lemma {:induction false} NoValids(data: seq<Access>, i: nat)
    requires Valids(data) == 0 && i < |data|
    ensures data[i] == Null
    decreases |data|
  {
    if i < |data| - 1 {
      NoValids(data[..|data| - 1], i);
    }
  }

  // A line with a zero count remembers nothing.
  lemma EmptyIsNull(l: Line)
    requires ValidLine(l) && l.count == 0
    ensures forall o :: 0 <= o < 512 ==> At(l, o) == Null
  {
    forall o | 0 <= o < 512
      ensures At(l, o) == Null
    {
      if l.data != [] {
        NoValids(l.data, Idx(l.lg, o));
      }
    }
  }

  function Nulls(n: nat): (data: seq<Access>)
    ensures |data| == n && forall i :: 0 <= i < n ==> data[i] == Null
  {
    seq(n, _ => Null)
  }

  // Allocate the array of a line.
  method Materialize(l0: Line) returns (l: Line)
    requires ValidLine(l0) && l0.data == []
    ensures ValidLine(l) && l.data != [] && l.lg == l0.lg && l.count == l0.count
    ensures forall o :: 0 <= o < 512 ==> At(l, o) == At(l0, o)
  {
    l := l0.(data := Nulls(512 / Grain(l0.lg)));
    LineIsWholeGrains(l0.lg, 1);
    DivUnique(512, Grain(l0.lg), Grain(9 - l0.lg));
    ValidsOfNull(l.data);
  }

  // ---------------------------------------------------------------- refining

  lemma {:induction false} ValidsAppend(a: seq<Access>, b: seq<Access>)
    ensures Valids(a + b) == Valids(a) + Valids(b)
  {
    if |b| == 0 {
      assert a + b == a;
    } else {
      ValidsAppend(a, b[..|b| - 1]);
      assert (a + b)[..|a + b| - 1] == a + b[..|b| - 1];
    }
  }

  lemma {:induction false} ValidsOfCopies(data: seq<Access>, x: Access)
    requires forall i :: 0 <= i < |data| ==> data[i] == x
    ensures Valids(data) == if x.Access? then |data| else 0
  {
    if |data| > 0 {
      ValidsOfCopies(data[..|data| - 1], x);
    }
  }

  function Copies(n: nat, x: Access): (data: seq<Access>)
    ensures |data| == n && forall i :: 0 <= i < n ==> data[i] == x
  {
    seq(n, _ => x)
  }

  // Each entry of the array is replicated.
  function Replicate(data: seq<Access>, factor: nat): (fine: seq<Access>)
    ensures |fine| == |data| * factor
  {
    if |data| == 0 then []
    else
      var k := |data| - 1;
      assert k * factor + factor == |data| * factor;
      Replicate(data[..k], factor) + Copies(factor, data[k])
  }

  lemma {:induction false} ReplicateAt(data: seq<Access>, factor: nat, j: nat)
    requires factor > 0 && j < |data| * factor
    ensures j / factor < |data| && Replicate(data, factor)[j] == data[j / factor]
    decreases |data|
  {
    var k := |data| - 1;
    assert k * factor + factor == |data| * factor;
    if j < k * factor {
      ReplicateAt(data[..k], factor, j);
    } else {
      DivUnique(j, factor, k);
    }
  }

  // Replication scales the count of valid entries.
  lemma {:induction false} ValidsScale(data: seq<Access>, factor: nat)
    ensures Valids(Replicate(data, factor)) == Valids(data) * factor
  {
    if |data| > 0 {
      var k := |data| - 1;
      ValidsScale(data[..k], factor);
      ValidsOfCopies(Copies(factor, data[k]), data[k]);
      ValidsAppend(Replicate(data[..k], factor), Copies(factor, data[k]));
      assert (Valids(data[..k]) + 1) * factor == Valids(data[..k]) * factor + factor;
    }
  }

  // Copy the valid entries into a new array, with replication.
  method CopyReplicated(data: seq<Access>, factor: nat) returns (fine: seq<Access>)
    requires factor > 0
    ensures fine == Replicate(data, factor)
  {
    fine := Nulls(|data| * factor);
    for i := 0 to |data|
      invariant |fine| == |data| * factor && i * factor <= |fine|
      invariant fine[..i * factor] == Replicate(data[..i], factor)
      invariant forall j :: i * factor <= j < |fine| ==> fine[j] == Null
    {
      ghost var before := fine;
      assert (i + 1) * factor == i * factor + factor;
      MulMono(i + 1, |data|, factor);
      if data[i].Access? {
        for j := factor * i to factor * (i + 1)
          invariant |fine| == |data| * factor && fine[..i * factor] == before[..i * factor]
          invariant forall k :: i * factor <= k < |fine| ==> fine[k] == if k < j then data[i] else Null
        {
          fine := fine[j := data[i]];
        }
      }
      assert data[..i + 1][..i] == data[..i];
      assert fine[..(i + 1) * factor] == before[..i * factor] + Copies(factor, data[i]);
    }
    assert data[..|data|] == data;
    assert fine[..|fine|] == fine;
  }

  // A coarse entry covers the same bytes as its replicas.
  lemma ReplicaCovers(lg: nat, lg': nat, o: nat)
    requires lg' <= lg <= 9 && o < 512
    ensures Grain(lg - lg') * Grain(lg') == Grain(lg) && Grain(9 - lg) * Grain(lg - lg') == Grain(9 - lg')
    ensures Idx(lg', o) / Grain(lg - lg') == Idx(lg, o)
  {
    assert Grain(lg') * Grain(lg - lg') == Grain(lg) && Grain(9 - lg) * Grain(lg - lg') == Grain(9 - lg');
    DivDiv(o, Grain(lg'), Grain(lg - lg'), Grain(lg), Idx(lg', o));
  }

  // Refining a line changes none of its bytes.
  method Refine(l0: Line, newLg: nat) returns (l: Line)
    requires ValidLine(l0) && newLg < l0.lg
    ensures ValidLine(l) && l.lg == newLg && (l.data == [] <==> l0.data == []) && (l.count == 0 <==> l0.count == 0)
    ensures forall o :: 0 <= o < 512 ==> At(l, o) == At(l0, o)
  {
    if l0.data == [] {
      return l0.(lg := newLg);
    }
    var factor := Grain(l0.lg) / Grain(newLg);
    ReplicaCovers(l0.lg, newLg, 0);
    DivUnique(Grain(l0.lg), Grain(newLg), Grain(l0.lg - newLg));
    if l0.count == 0 {
      l := Line(newLg, Nulls(|l0.data| * factor), 0);
      ValidsOfNull(l.data);
      EmptyIsNull(l0);
    } else {
      var fine := CopyReplicated(l0.data, factor);
      l := Line(newLg, fine, l0.count * factor);
      ValidsScale(l0.data, factor);
      forall o | 0 <= o < 512
        ensures At(l, o) == At(l0, o)
      {
        ReplicaCovers(l0.lg, newLg, o);
        ReplicateAt(l0.data, factor, Idx(newLg, o));
      }
    }
  }
}
