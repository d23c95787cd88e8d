// Masks of consecutive bits of a word.

module WordMasks {
  import opened WordBits

  predicate ClearAt(x: Word, n: nat)
    requires n < 64
  {
    !SetAt(x, n)
  }

  // A shift by several places is a repeated shift by one.
  lemma ShiftOneMore(x: Word, c: Word)
    requires c < 63
    ensures x << 0 == x && x << (c + 1) == (x << c) << 1
  {
    if c < 31 {
    }
  }

  // `x << s`.
  function Left(x: Word, s: nat): Word {
    if s == 0 then x else Left(x, s - 1) << 1
  }

  lemma BelowBit(c: Word, i: Word)
    requires c < 64 && i < 64
    ensures Bit(Below(c), i) <==> i < c
  {
  }

  lemma ShiftBit(x: Word, i: Word)
    requires i < 63
    ensures i + 1 < 64 && (Bit(x << 1, i + 1) <==> Bit(x, i))
  {
  }

  lemma ShiftZero(x: Word)
    ensures !Bit(x << 1, 0)
  {
  }

  lemma SetAtNext(x: Word, n: nat)
    requires n < 63
    ensures SetAt(x << 1, n + 1) <==> SetAt(x, n)
  {
    IndexNext(n);
    SetAtIsBit(x, n);
    SetAtIsBit(x << 1, n + 1);
    ShiftBit(x, Index(n));
  }

  lemma {:induction false} LeftBit(x: Word, s: nat, n: nat)
    requires s < 64 && n < 64
    ensures SetAt(Left(x, s), n) <==> s <= n && SetAt(x, n - s)
  {
    if s > 0 {
      if n == 0 {
        SetAtIsBit(Left(x, s), 0);
        ShiftZero(Left(x, s - 1));
      } else {
        SetAtNext(Left(x, s - 1), n - 1);
        LeftBit(x, s - 1, n - 1);
      }
    }
  }

  // The low `size` bits, or the whole word.
  function LowBits(size: nat): Word {
    if size >= 64 then ONES
    else
      IndexBack(size);
      Below(Index(size))
  }

  lemma LowAt(size: nat, y: Word, n: nat)
    requires n < 64 && size < 64 && Index(n) < 64 && (Bit(y, Index(n)) <==> Index(n) < Index(size))
    ensures SetAt(y, n) <==> n < size
  {
    SetAtIsBit(y, n);
    if n < size {
      IndexOrder(n, size);
    } else if n > size {
      IndexOrder(size, n);
    }
  }

  lemma LowBitsShow(size: nat, n: nat)
    requires n < 64
    ensures SetAt(LowBits(size), n) <==> n < size
  {
    if size >= 64 {
      AllSet(ONES);
    } else {
      IndexBack(size);
      IndexBack(n);
      BelowBit(Index(size), Index(n));
      LowAt(size, Below(Index(size)), n);
    }
  }

  // `size` bits from bit `start` on, as far as the word goes.
  function MaskOf(start: nat, size: nat): Word
    requires start < 64
  {
    Left(LowBits(size), start)
  }

  ghost predicate IsMask(m: Word, start: nat, size: nat) {
    forall n :: 0 <= n < 64 ==> (SetAt(m, n) <==> start <= n < start + size)
  }

  lemma MaskShows(start: nat, size: nat)
    requires start < 64
    ensures IsMask(MaskOf(start, size), start, size)
  {
    forall n | 0 <= n < 64
      ensures SetAt(MaskOf(start, size), n) <==> start <= n < start + size
    {
      LeftBit(LowBits(size), start, n);
      if start <= n {
        LowBitsShow(size, n - start);
      }
    }
  }

  lemma OrAt(x: Word, m: Word, y: Word, n: nat)
    requires n < 64 && Index(n) < 64
    requires Bit(y, Index(n)) <==> Bit(x, Index(n)) || Bit(m, Index(n))
    ensures SetAt(y, n) <==> SetAt(x, n) || SetAt(m, n)
  {
    SetAtIsBit(x, n);
    SetAtIsBit(m, n);
    SetAtIsBit(y, n);
  }

  lemma OrSet(x: Word, m: Word, n: nat)
    requires n < 64
    ensures SetAt(x | m, n) <==> SetAt(x, n) || SetAt(m, n)
  {
    IndexBack(n);
    OrBit(x, m, Index(n));
    OrAt(x, m, x | m, n);
  }

  // `x | m` sets the bits of the mask and no others.
  lemma MaskSets(x: Word, m: Word, start: nat, size: nat, n: nat)
    requires n < 64 && IsMask(m, start, size)
    ensures SetAt(x | m, n) <==> SetAt(x, n) || start <= n < start + size
  {
    OrSet(x, m, n);
  }

  lemma NoneSet(n: nat)
    requires n < 64
    ensures ClearAt(0, n)
  {
    SetAtIsBit(0, n);
    NoBit(Index(n));
  }

  lemma AnySet(x: Word)
    ensures x != 0 <==> exists n :: 0 <= n < 64 && SetAt(x, n)
  {
    if x != 0 {
      IndexOf(Ctz(x));
      SetAtIsBit(x, Ctz(x) as nat);
      assert SetAt(x, Ctz(x) as nat);
    }
    if n :| 0 <= n < 64 && SetAt(x, n) {
      NoneSet(n);
    }
  }

  lemma FreshBit(x: Word, m: Word, i: Word)
    requires i < 64
    ensures Bit(!x & m, i) <==> !Bit(x, i) && Bit(m, i)
  {
  }

  lemma FreshAt(x: Word, m: Word, y: Word, n: nat)
    requires n < 64 && Index(n) < 64
    requires Bit(y, Index(n)) <==> !Bit(x, Index(n)) && Bit(m, Index(n))
    ensures SetAt(y, n) <==> ClearAt(x, n) && SetAt(m, n)
  {
    SetAtIsBit(x, n);
    SetAtIsBit(m, n);
    SetAtIsBit(y, n);
  }

  lemma FreshSet(x: Word, m: Word, n: nat)
    requires n < 64
    ensures SetAt(!x & m, n) <==> ClearAt(x, n) && SetAt(m, n)
  {
    IndexBack(n);
    FreshBit(x, m, Index(n));
    FreshAt(x, m, !x & m, n);
  }

  ghost predicate IsFresh(x: Word, start: nat, size: nat, y: Word) {
    forall n :: 0 <= n < 64 ==> (SetAt(y, n) <==> ClearAt(x, n) && start <= n < start + size)
  }

  lemma FreshMask(x: Word, m: Word, start: nat, size: nat)
    requires IsMask(m, start, size)
    ensures IsFresh(x, start, size, !x & m)
  {
    forall n | 0 <= n < 64
      ensures SetAt(!x & m, n) <==> ClearAt(x, n) && start <= n < start + size
    {
      FreshSet(x, m, n);
    }
  }

  // The mask reaches a bit that is clear exactly when `y`, which is `~x & m`,
  // is not zero.
  lemma FreshShows(x: Word, start: nat, size: nat, y: Word)
    requires IsFresh(x, start, size, y)
    ensures y != 0 <==> exists n :: 0 <= n < 64 && start <= n < start + size && ClearAt(x, n)
  {
    AnySet(y);
    if n :| 0 <= n < 64 && SetAt(y, n) {
      assert ClearAt(x, n) && start <= n < start + size;
    }
    if n :| 0 <= n < 64 && start <= n < start + size && ClearAt(x, n) {
      NoneSet(n);
      assert SetAt(y, n);
    }
  }
}
