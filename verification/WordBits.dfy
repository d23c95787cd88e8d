// Words used as bitmaps: the lowest bit that is clear, how it is marked, and how
// a bit is cleared again.

module WordBits {
  type Word = bv64

  const ONES: Word := 0xFFFF_FFFF_FFFF_FFFF

  // Bit `i` of a word is set.
  predicate Bit(x: Word, i: Word)
    requires i < 64
  {
    (x >> i) & 1 == 1
  }

  function Below(c: Word): Word
    requires c <= 64
  {
    (1 << c) - 1
  }

  // `c` is the index of the lowest bit that is set.
  predicate IsCtz(y: Word, c: Word) {
    c < 64 && Bit(y, c) && y & Below(c) == 0
  }

  // Trailing zero bits, by halves.
  function Ctz2(y: Word): (c: Word)
    requires y & 3 != 0
    ensures IsCtz(y, c)
  {
    if y & 1 == 0 then 1 else 0
  }

  function Ctz4(y: Word): (c: Word)
    requires y & 0xf != 0
    ensures IsCtz(y, c)
  {
    if y & 0x3 == 0 then Ctz2(y >> 2) + 2 else Ctz2(y)
  }

  function Ctz8(y: Word): (c: Word)
    requires y & 0xff != 0
    ensures IsCtz(y, c)
  {
    if y & 0xf == 0 then Ctz4(y >> 4) + 4 else Ctz4(y)
  }

  function Ctz16(y: Word): (c: Word)
    requires y & 0xffff != 0
    ensures IsCtz(y, c)
  {
    if y & 0xff == 0 then Ctz8(y >> 8) + 8 else Ctz8(y)
  }

  function Ctz32(y: Word): (c: Word)
    requires y & 0xffffffff != 0
    ensures IsCtz(y, c) && c < 32
  {
    if y & 0xffff == 0 then Ctz16(y >> 16) + 16 else Ctz16(y)
  }

  lemma BitHigh(y: Word, c: Word)
    requires c < 32
    ensures Bit(y >> 32, c) <==> Bit(y, c + 32)
  {
  }

  lemma BelowHigh(c: Word)
    requires c < 32
    ensures Below(c + 32) == (Below(c) << 32) | 0xffffffff
  {
  }

  lemma MaskHigh(y: Word, m: Word)
    requires y & 0xffffffff == 0 && (y >> 32) & m == 0
    ensures y & ((m << 32) | 0xffffffff) == 0
  {
  }

  lemma HighHalf(y: Word, c: Word)
    requires y & 0xffffffff == 0 && c < 32 && IsCtz(y >> 32, c)
    ensures IsCtz(y, c + 32)
  {
    BitHigh(y, c);
    BelowHigh(c);
    MaskHigh(y, Below(c));
  }

  function Ctz(y: Word): (c: Word)
    requires y != 0
    ensures IsCtz(y, c)
  {
    if y & 0xffffffff != 0 then Ctz32(y)
    else
      assert (y >> 32) & 0xffffffff != 0;
      var c := Ctz32(y >> 32);
      HighHalf(y, c);
      c + 32
  }

  // `ctz(x + 1)` is the index of the lowest bit of `x` that is clear ...
  lemma LowestFree(x: Word, c: Word)
    requires x != ONES && IsCtz(x + 1, c)
    ensures !Bit(x, c)
  {
  }

  lemma LowerAreUsed(x: Word, c: Word, i: Word)
    requires x != ONES && IsCtz(x + 1, c) && i < c
    ensures Bit(x, i)
  {
  }

  lemma HigherAreKept(x: Word, c: Word, i: Word)
    requires x != ONES && IsCtz(x + 1, c) && c < i < 64
    ensures Bit(x + 1, i) == Bit(x, i)
  {
  }

  lemma OrBit(x: Word, y: Word, i: Word)
    requires i < 64
    ensures Bit(x | y, i) <==> Bit(x, i) || Bit(y, i)
  {
  }

  // ... and `x | (x + 1)` sets just that bit.
  lemma MarksLowest(x: Word, c: Word, i: Word)
    requires x != ONES && IsCtz(x + 1, c) && i < 64
    ensures Bit(x | (x + 1), i) <==> Bit(x, i) || i == c
  {
    OrBit(x, x + 1, i);
    if i < c {
      LowerAreUsed(x, c, i);
    } else if i > c {
      HigherAreKept(x, c, i);
    }
  }

  lemma Cleared(x: Word, b: Word, i: Word)
    requires b < 64 && i < 64
    ensures Bit(x & !(1 << b), i) <==> Bit(x, i) && i != b
  {
  }

  lemma Initial(n: Word, i: Word)
    requires n < 64 && i < 64
    ensures Bit(!Below(n), i) <==> i >= n
  {
  }

  lemma Full(i: Word)
    requires i < 64
    ensures Bit(ONES, i)
  {
  }

  // ------------------------------------------------------- bits by their index

  // Bit `n` of a word is set, with an integer for its index.
  predicate SetAt(x: Word, n: nat) {
    if n == 0 then x & 1 == 1 else SetAt(x >> 1, n - 1)
  }

  lemma IndicesDiffer(a: Word, b: Word)
    requires a < 64 && b < 64
    ensures a as nat < 64 && b as nat < 64
    ensures a as nat == b as nat <==> a == b
  {
  }

  lemma NextIndex(w: Word)
    requires w < 64
    ensures (w + 1) as nat == w as nat + 1 && w + 1 <= 64 && w < w + 1
  {
  }

  // The word for an index.
  function Index(n: nat): Word {
    if n == 0 then 0 else Index(n - 1) + 1
  }

  lemma AtMost64(w: Word)
    requires w <= 64
    ensures w == 64 <==> w as nat == 64
  {
  }

  lemma {:induction false} IndexBack(n: nat)
    requires n <= 64
    ensures Index(n) <= 64 && Index(n) as nat == n && (n < 64 ==> Index(n) < 64)
  {
    if n > 0 {
      IndexBack(n - 1);
      NextIndex(Index(n - 1));
    }
    AtMost64(Index(n));
  }

  lemma {:induction false} IndexOrder(n: nat, m: nat)
    requires n < m <= 64
    ensures Index(n) < Index(m)
  {
    IndexBack(m - 1);
    NextIndex(Index(m - 1));
    if n < m - 1 {
      IndexOrder(n, m - 1);
    }
  }

  lemma IndexOf(w: Word)
    requires w < 64
    ensures w as nat < 64 && Index(w as nat) == w
  {
    IndicesDiffer(w, w);
    IndexBack(w as nat);
    IndicesDiffer(Index(w as nat), w);
  }

  lemma IndexNext(n: nat)
    requires n < 63
    ensures Index(n) < 63 && Index(n + 1) == Index(n) + 1
  {
    IndexBack(n);
    IndexBack(63);
    IndexOrder(n, 63);
  }

  lemma LowBit(x: Word)
    ensures x & 1 == 1 <==> Bit(x, 0)
  {
  }

  lemma NextBit(x: Word, i: Word)
    requires i < 63
    ensures i + 1 < 64 && (Bit(x >> 1, i) <==> Bit(x, i + 1))
  {
  }

  lemma {:induction false} SetAtIsBit(x: Word, n: nat)
    requires n < 64
    ensures Index(n) < 64 && (SetAt(x, n) <==> Bit(x, Index(n)))
  {
    if n == 0 {
      LowBit(x);
    } else {
      SetAtIsBit(x >> 1, n - 1);
      IndexNext(n - 1);
      NextBit(x, Index(n - 1));
    }
  }

  // The word trick finds the lowest index that is free ...
  lemma FindsLowest(x: Word)
    requires x != ONES
    ensures var c := Ctz(x + 1) as nat; c < 64 && !SetAt(x, c) && forall n :: 0 <= n < c ==> SetAt(x, n)
  {
    var w := Ctz(x + 1);
    var c := w as nat;
    IndexOf(w);
    SetAtIsBit(x, c);
    LowestFree(x, w);
    forall n | 0 <= n < c
      ensures SetAt(x, n)
    {
      IndexBack(n);
      IndexOrder(n, c);
      SetAtIsBit(x, n);
      LowerAreUsed(x, w, Index(n));
    }
  }

  // Word `y` is `x` with bit `c` set, or cleared; and the same by integers.
  ghost predicate WithBit(x: Word, c: Word, y: Word, on: bool) {
    forall b: Word {:trigger Bit(y, b)} :: b < 64 ==> (Bit(y, b) <==> if b == c then on else Bit(x, b))
  }

  ghost predicate WithIndex(x: Word, m: nat, y: Word, on: bool) {
    forall n {:trigger SetAt(y, n)} :: 0 <= n < 64 ==> (SetAt(y, n) <==> if n == m then on else SetAt(x, n))
  }

  lemma WithBitAt(x: Word, c: Word, y: Word, on: bool, n: nat)
    requires c < 64 && n < 64 && WithBit(x, c, y, on)
    ensures SetAt(y, n) <==> if n == c as nat then on else SetAt(x, n)
  {
    IndexBack(n);
    IndicesDiffer(Index(n), c);
    SetAtIsBit(x, n);
    SetAtIsBit(y, n);
    assert Bit(y, Index(n)) <==> if Index(n) == c then on else Bit(x, Index(n));
  }

  lemma WithBitIndex(x: Word, c: Word, y: Word, on: bool)
    requires c < 64 && WithBit(x, c, y, on)
    ensures WithIndex(x, c as nat, y, on)
  {
    forall n | 0 <= n < 64
      ensures SetAt(y, n) <==> if n == c as nat then on else SetAt(x, n)
    {
      WithBitAt(x, c, y, on, n);
    }
  }

  lemma MarkSetsBit(x: Word, c: Word, y: Word)
    requires x != ONES && IsCtz(x + 1, c) && y == x | (x + 1)
    ensures WithBit(x, c, y, true)
  {
    forall b: Word | b < 64
      ensures Bit(y, b) <==> if b == c then true else Bit(x, b)
    {
      MarksLowest(x, c, b);
    }
  }

  lemma ClearClearsBit(x: Word, c: Word, y: Word)
    requires c < 64 && y == x & !(1 << c)
    ensures WithBit(x, c, y, false)
  {
    forall b: Word | b < 64
      ensures Bit(y, b) <==> if b == c then false else Bit(x, b)
    {
      Cleared(x, c, b);
    }
  }

  // ... and marks just that one.
  lemma SetsLowest(x: Word, y: Word)
    requires x != ONES && y == x | (x + 1)
    ensures WithIndex(x, Ctz(x + 1) as nat, y, true)
  {
    MarkSetsBit(x, Ctz(x + 1), y);
    WithBitIndex(x, Ctz(x + 1), y, true);
  }

  // Clearing a bit clears its index and no other.
  lemma ClearsIndex(x: Word, m: nat, y: Word)
    requires m < 64 && Index(m) < 64 && y == x & !(1 << Index(m))
    ensures WithIndex(x, m, y, false)
  {
    IndexBack(m);
    ClearClearsBit(x, Index(m), y);
    WithBitIndex(x, Index(m), y, false);
  }

  // A word is all ones exactly when no index is free.
  lemma AllSet(x: Word)
    ensures x == ONES <==> forall n :: 0 <= n < 64 ==> SetAt(x, n)
  {
    if x == ONES {
      forall n | 0 <= n < 64
        ensures SetAt(x, n)
      {
        SetAtIsBit(x, n);
        Full(Index(n));
      }
    } else {
      FindsLowest(x);
    }
  }

  // The last word of a new slab for 127 nodes.
  lemma LastIsSet(n: nat)
    requires n < 64
    ensures SetAt(!Below(63), n) <==> n == 63
    ensures !SetAt(0, n)
  {
    IndexBack(n);
    IndexBack(63);
    SetAtIsBit(!Below(63), n);
    SetAtIsBit(0, n);
    NoBit(Index(n));
    assert Index(63) == 63;
    Initial(63, Index(n));
    IndicesDiffer(Index(n), 63);
  }

  lemma NoBit(i: Word)
    requires i < 64
    ensures !Bit(0, i)
  {
  }
}
