// The occupancy bits of the shadow memory: which bytes the current strand has
// accessed already.

module Occupancy {
  import opened WordBits
  import opened WordMasks
  import opened ShadowLine
  import opened ShadowDictionary

  // The words of the allocated pages, by address divided by 64; a new page
  // consists of zeros.
  type Words = map<nat, Word>

  function WordAt(words: Words, k: nat): Word {
    if k in words then words[k] else 0
  }

  predicate Occupied(words: Words, a: nat) {
    SetAt(WordAt(words, a / 64), a % 64)
  }

  // The bytes from `from` up to `to` have become occupied.
  ghost predicate Marked(w0: Words, w1: Words, from: nat, to: nat) {
    forall a: nat :: Occupied(w1, a) <==> Occupied(w0, a) || from <= a < to
  }

  ghost predicate SomeFree(words: Words, from: nat, to: nat) {
    exists a :: from <= a < to && !Occupied(words, a)
  }

  function NextWord(addr: nat): nat {
    (addr / 64 + 1) * 64
  }

  // Where the region's part of its first word ends.
  function WordEnd(addr: nat, size: nat): nat {
    Min(addr + size, NextWord(addr))
  }

  lemma BytesOfWord(addr: nat, size: nat, a: nat)
    ensures addr <= a < WordEnd(addr, size) <==> a / 64 == addr / 64 && addr % 64 <= a % 64 < addr % 64 + size
  {
  }

  ghost predicate OrsInto(x: Word, start: nat, size: nat, x': Word) {
    forall n :: 0 <= n < 64 ==> (SetAt(x', n) <==> SetAt(x, n) || start <= n < start + size)
  }

  lemma MaskOrsInto(x: Word, m: Word, start: nat, size: nat)
    requires IsMask(m, start, size)
    ensures OrsInto(x, start, size, x | m)
  {
    forall n | 0 <= n < 64
      ensures SetAt(x | m, n) <==> SetAt(x, n) || start <= n < start + size
    {
      MaskSets(x, m, start, size, n);
    }
  }

  // What one word contributes, between `addr` and the end of the word.
  lemma WordMarked(words: Words, addr: nat, size: nat, x': Word)
    requires OrsInto(WordAt(words, addr / 64), addr % 64, size, x')
    ensures Marked(words, words[addr / 64 := x'], addr, WordEnd(addr, size))
  {
    var words' := words[addr / 64 := x'];
    forall a: nat
      ensures Occupied(words', a) <==> Occupied(words, a) || addr <= a < WordEnd(addr, size)
    {
      BytesOfWord(addr, size, a);
      assert WordAt(words', a / 64) == if a / 64 == addr / 64 then x' else WordAt(words, a / 64);
    }
  }

  lemma WordHasFree(words: Words, addr: nat, size: nat, y: Word)
    requires IsFresh(WordAt(words, addr / 64), addr % 64, size, y)
    ensures y != 0 <==> SomeFree(words, addr, WordEnd(addr, size))
  {
    var x, s, end := WordAt(words, addr / 64), addr % 64, WordEnd(addr, size);
    FreshShows(x, s, size, y);
    if n :| 0 <= n < 64 && s <= n < s + size && ClearAt(x, n) {
      var a := addr + (n - s);
      assert a / 64 == addr / 64 && a % 64 == n;
      assert addr <= a < end && !Occupied(words, a);
    }
    if a :| addr <= a < end && !Occupied(words, a) {
      BytesOfWord(addr, size, a);
      assert ClearAt(x, a % 64);
    }
  }

  lemma WordWithinPage(addr: nat)
    ensures PageOf(addr / 64 * 64) == PageOf(addr) && NextWord(addr) <= NextPage(addr)
    ensures PageOf(NextWord(addr)) == PageOf(addr) || IsPageStart(NextWord(addr))
  {
  }

  // The step to the next word of a region.
  lemma WordStep(c: Chunk, start: nat, end: nat)
    requires c.size > 0 && Rest(c, start, end)
    ensures var n := Advance(c, NextWord(c.addr));
      && Rest(n, start, end) && n.size < c.size && Front(n, end) == WordEnd(c.addr, c.size) > c.addr
      && (n.size > 0 && !IsPageStart(n.addr) ==> PageOf(n.addr) == PageOf(c.addr))
      && forall a :: c.addr <= a < Front(n, end) ==> PageOf(a) == PageOf(c.addr)
  {
    WordWithinPage(c.addr);
    forall a | c.addr <= a < NextWord(c.addr)
      ensures PageOf(a) == PageOf(c.addr)
    {
      WordWithinPage(a);
    }
  }

  lemma MarkedFurther(w0: Words, w1: Words, w2: Words, from: nat, mid: nat, to: nat)
    requires from <= mid <= to && Marked(w0, w1, from, mid) && Marked(w1, w2, mid, to)
    ensures Marked(w0, w2, from, to)
    ensures SomeFree(w0, from, to) <==> SomeFree(w0, from, mid) || SomeFree(w1, mid, to)
  {
    forall a: nat
      ensures Occupied(w2, a) <==> Occupied(w0, a) || from <= a < to
    {
      assert Occupied(w1, a) <==> Occupied(w0, a) || from <= a < mid;
    }
    if a :| from <= a < to && !Occupied(w0, a) {
      assert Occupied(w1, a) <==> Occupied(w0, a) || from <= a < mid;
    }
    if a :| mid <= a < to && !Occupied(w1, a) {
      assert !Occupied(w0, a);
    }
  }

  lemma NothingOccupied(words: Words, a: nat)
    requires WordAt(words, a / 64) == 0
    ensures !Occupied(words, a)
  {
    NoneSet(a % 64);
  }

  // Every word with a bit set has been noted, on an allocated page.
  ghost predicate Noted(pages: set<nat>, words: Words, touched: seq<nat>) {
    && (forall k :: k in words ==> words[k] == 0 || NotedAt(touched, k))
    && (forall i :: 0 <= i < |touched| ==> PageOf(touched[i]) in pages)
    && (forall k :: k in words ==> PageOf(k * 64) in pages)
  }

  ghost predicate NotedAt(touched: seq<nat>, k: nat) {
    exists i :: 0 <= i < |touched| && touched[i] / 64 == k
  }

  lemma NotedLonger(touched: seq<nat>, a: nat, k: nat)
    requires NotedAt(touched, k) || k == a / 64
    ensures NotedAt(touched + [a], k)
  {
    if i :| 0 <= i < |touched| && touched[i] / 64 == k {
      assert (touched + [a])[i] / 64 == k;
    } else {
      assert (touched + [a])[|touched|] / 64 == k;
    }
  }

  method MaskFor(start: nat, size: nat, current: Word) returns (mask: Word, unseen: Word)
    requires start < 64
    ensures OrsInto(current, start, size, current | mask) && IsFresh(current, start, size, unseen)
  {
    mask := MaskOf(start, size);
    unseen := !current & mask;
    MaskShows(start, size);
    MaskOrsInto(current, mask, start, size);
    FreshMask(current, mask, start, size);
  }

  class Bits {
    // The pages of the dictionary hold both the lines and these words.
    const dict: Dictionary
    var words: Words
    var touchedWords: seq<nat>

    ghost predicate Valid()
      reads this, dict
    {
      dict.Valid() && Noted(dict.pages, words, touchedWords)
    }

    constructor (dict: Dictionary)
      requires dict.Valid()
      ensures Valid() && this.dict == dict && forall a: nat :: !Occupied(words, a)
    {
      this.dict := dict;
      words, touchedWords := map[], [];
      new;
      forall a: nat ensures !Occupied(words, a) { NothingOccupied(words, a); }
    }

    // Mark the bytes of one word of the region.
    method SetWord(c: Chunk) returns (found: bool)
      requires Valid() && c.size > 0 && PageOf(c.addr) in dict.pages
      modifies this`words, this`touchedWords
      ensures Valid()
      ensures Marked(old(words), words, c.addr, WordEnd(c.addr, c.size))
      ensures found <==> SomeFree(old(words), c.addr, WordEnd(c.addr, c.size))
    {
      var current := WordAt(words, c.addr / 64);
      var mask, unseen := MaskFor(c.addr % 64, c.size, current);
      WordHasFree(words, c.addr, c.size, unseen);
      WordMarked(words, c.addr, c.size, current | mask);
      WordWithinPage(c.addr);
      found := unseen != 0;
      Note(c.addr, current);
      words := words[c.addr / 64 := current | mask];
    }

    method Note(addr: nat, current: Word)
      requires Valid() && PageOf(addr) in dict.pages && current == WordAt(words, addr / 64)
      modifies this`touchedWords
      ensures Valid() && NotedAt(touchedWords, addr / 64)
    {
      if current == 0 {
        forall k | NotedAt(touchedWords, k) || k == addr / 64
          ensures NotedAt(touchedWords + [addr], k)
        {
          NotedLonger(touchedWords, addr, k);
        }
        touchedWords := touchedWords + [addr];
      }
    }

    // Mark the region's bytes of one page.
    method SetOccupiedOnPage(c0: Chunk) returns (found: bool, c: Chunk)
      requires Valid() && c0.size > 0 && PageOf(c0.addr) in dict.pages
      modifies this`words, this`touchedWords
      ensures Valid() && Rest(c, c0.addr, c0.addr + c0.size) && c.size < c0.size
      ensures Marked(old(words), words, c0.addr, Front(c, c0.addr + c0.size))
      ensures found <==> SomeFree(old(words), c0.addr, Front(c, c0.addr + c0.size))
      ensures AllPages(dict.pages, c0.addr, Front(c, c0.addr + c0.size))
    {
      c, found := c0, false;
      ghost var end := c0.addr + c0.size;
      while c.size > 0
        invariant Valid() && Rest(c, c0.addr, end) && c.size <= c0.size
        invariant c.size > 0 ==> PageOf(c.addr) == PageOf(c0.addr)
        invariant AllPages(dict.pages, c0.addr, Front(c, end))
        invariant Front(c, end) == c0.addr ==> c == c0
        invariant Marked(old(words), words, c0.addr, Front(c, end))
        invariant found <==> SomeFree(old(words), c0.addr, Front(c, end))
        decreases c.size
      {
        ghost var before, from := words, c.addr;
        var unoccupied := SetWord(c);
        found := found || unoccupied;
        WordStep(c, c0.addr, end);
        c := Advance(c, NextWord(c.addr));
        MarkedFurther(old(words), before, words, c0.addr, from, Front(c, end));
        if IsPageStart(c.addr) {
          return;
        }
      }
    }

    // The answer is whether the region has a byte that was not occupied.  All its
    // pages exist afterwards.
    method SetOccupied(addr: nat, size: nat) returns (found: bool)
      requires Valid()
      modifies this`words, this`touchedWords, dict`pages
      ensures Valid() && old(dict.pages) <= dict.pages && AllPages(dict.pages, addr, addr + size)
      ensures Marked(old(words), words, addr, addr + size)
      ensures found <==> SomeFree(old(words), addr, addr + size)
    {
      var c := Chunk(addr, size);
      found := false;
      while c.size > 0
        invariant Valid() && old(dict.pages) <= dict.pages && Rest(c, addr, addr + size)
        invariant AllPages(dict.pages, addr, Front(c, addr + size))
        invariant Marked(old(words), words, addr, Front(c, addr + size))
        invariant found <==> SomeFree(old(words), addr, Front(c, addr + size))
        decreases c.size
      {
        ghost var before, from := words, c.addr;
        if PageOf(c.addr) !in dict.pages {
          found := true;
          FreePage(c.addr);
          dict.AllocatePage(c.addr);
        }
        var unoccupied;
        unoccupied, c := SetOccupiedOnPage(c);
        found := found || unoccupied;
        MarkedFurther(old(words), before, words, addr, from, Front(c, addr + size));
      }
    }

    // A small access is always checked; its page exists afterwards.
    method SetOccupiedFast(addr: nat) returns (found: bool)
      requires Valid()
      modifies dict`pages
      ensures Valid() && old(dict.pages) <= dict.pages && PageOf(addr) in dict.pages && found
    {
      if PageOf(addr) !in dict.pages {
        dict.AllocatePage(addr);
      }
      found := true;
    }

    lemma FreePage(a: nat)
      requires Valid() && PageOf(a) !in dict.pages
      ensures !Occupied(words, a)
    {
      WordWithinPage(a);
      NothingOccupied(words, a);
    }

    method ClearWord(a: nat)
      requires PageOf(a) in dict.pages
      modifies this`words
      ensures words == old(words)[a / 64 := 0]
    {
      words := words[a / 64 := 0];
    }

    // Clearing the words that were noted forgets everything.
    method ClearOccupied()
      requires Valid()
      modifies this`words, this`touchedWords
      ensures Valid() && touchedWords == []
      ensures forall a: nat :: !Occupied(words, a)
    {
      for i := 0 to |touchedWords|
        invariant touchedWords == old(touchedWords)
        invariant forall k :: k in words ==> PageOf(k * 64) in dict.pages
        invariant forall k :: k in words && words[k] != 0 ==> k in old(words) && words[k] == old(words[k])
        invariant forall j :: 0 <= j < i ==> WordAt(words, touchedWords[j] / 64) == 0
      {
        WordWithinPage(touchedWords[i]);
        ClearWord(touchedWords[i]);
      }
      forall a: nat
        ensures !Occupied(words, a)
      {
        NothingOccupied(words, a);
      }
      touchedWords := [];
    }
  }
}
