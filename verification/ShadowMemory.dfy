// The shadow memory as the detector uses it: an access is recorded and checked
// on the fast path when it is small and aligned, and otherwise on the slow path
// unless the strand has accessed all its bytes before.

module ShadowMemory {
  import opened Alignment
  import opened ShadowLine
  import opened LineOps
  import opened ShadowDictionary
  import opened ShadowScan
  import opened SafeInsertion
  import opened ShadowUpdate
  import opened ShadowChecks
  import opened Occupancy

  // The static alignment of an access, as a power of two, if it is known.
  datatype StaticAlignment = Unknown | Known(lg: nat)

  predicate AlignedTo(addr: nat, alignment: StaticAlignment) {
    alignment.Known? && alignment.lg <= 9 ==> addr % Grain(alignment.lg) == 0
  }

  predicate TakesFastPath(size: nat, alignment: StaticAlignment) {
    alignment.Known? && alignment.lg <= 9 && size <= Grain(alignment.lg)
  }

  // The access is handled byte by byte according to the rule.
  predicate FollowsRule(lines: Lines, addr: nat, size: nat, alignment: StaticAlignment) {
    TakesFastPath(size, alignment) || SafeRegion(lines, Chunk(addr, size))
  }

  class Memory {
    const readBits: Bits
    const writeBits: Bits

    ghost predicate Valid()
      reads this, readBits, writeBits, readBits.dict, writeBits.dict
    {
      readBits != writeBits && readBits.dict != writeBits.dict && readBits.Valid() && writeBits.Valid()
    }

    constructor ()
      ensures Valid() && fresh(readBits) && fresh(writeBits) && fresh(readBits.dict) && fresh(writeBits.dict)
      ensures forall a: nat :: View(readBits.dict.lines, a) == Null && View(writeBits.dict.lines, a) == Null
      ensures forall a: nat :: !Occupied(readBits.words, a) && !Occupied(writeBits.words, a)
    {
      var rds := new Dictionary();
      var wrs := new Dictionary();
      readBits := new Bits(rds);
      writeBits := new Bits(wrs);
    }

    // A read on the slow path: nothing happens when the strand has accessed all
    // its bytes; otherwise the readers are updated and the writers checked.
    method CheckRacesAndUpdateRead(addr: nat, size: nat, v: Access, par: Oracle)
      returns (checked: bool, reports: seq<nat>)
      requires Valid() && addr > 0 && v.Access?
      modifies readBits, readBits.dict
      ensures Valid() && Marked(old(readBits.words), readBits.words, addr, addr + size)
      ensures checked <==> SomeFree(old(readBits.words), addr, addr + size)
      ensures !checked ==> readBits.dict.lines == old(readBits.dict.lines) && reports == []
      ensures checked && SafeRegion(old(readBits.dict.lines), Chunk(addr, size)) ==>
        UpdatedIn(par, old(readBits.dict.lines), readBits.dict.lines, addr, addr + size, v)
      ensures checked ==> reports == NewsIn(writeBits.dict.lines, par, addr, size)
      ensures checked ==> (reports != [] <==> HasParallel(writeBits.dict.lines, par, addr, addr + size))
    {
      checked := readBits.SetOccupied(addr, size);
      reports := [];
      if checked {
        reports := CheckRead(readBits.dict, writeBits.dict, addr, size, v, par);
      }
    }

    method CheckRacesAndUpdateWrite(addr: nat, size: nat, v: Access, par: Oracle)
      returns (checked: bool, reports: seq<nat>)
      requires Valid() && addr > 0 && v.Access?
      modifies writeBits, writeBits.dict
      ensures Valid() && Marked(old(writeBits.words), writeBits.words, addr, addr + size)
      ensures checked <==> SomeFree(old(writeBits.words), addr, addr + size)
      ensures !checked ==> writeBits.dict.lines == old(writeBits.dict.lines) && reports == []
      ensures checked && SafeRegion(old(writeBits.dict.lines), Chunk(addr, size)) ==>
        && UpdatedIn(par, old(writeBits.dict.lines), writeBits.dict.lines, addr, addr + size, v)
        && reports == RacesOfWrite(old(writeBits.dict.lines), readBits.dict.lines, par, addr, size, false)
    {
      checked := writeBits.SetOccupied(addr, size);
      reports := [];
      if checked {
        reports := CheckWrite(readBits.dict, writeBits.dict, addr, size, v, par);
      }
    }

    // A read of any size and alignment.
    method RecordRead(addr: nat, size: nat, alignment: StaticAlignment, v: Access, par: Oracle)
      returns (checked: bool, reports: seq<nat>)
      requires Valid() && addr > 0 && v.Access? && AlignedTo(addr, alignment)
      modifies readBits, readBits.dict
      ensures Valid()
      ensures checked <==>
        size > 0 && (TakesFastPath(size, alignment) || SomeFree(old(readBits.words), addr, addr + size))
      ensures if size == 0 || TakesFastPath(size, alignment) then readBits.words == old(readBits.words)
              else Marked(old(readBits.words), readBits.words, addr, addr + size)
      ensures !checked ==> readBits.dict.lines == old(readBits.dict.lines) && reports == []
      ensures checked && FollowsRule(old(readBits.dict.lines), addr, size, alignment) ==>
        UpdatedIn(par, old(readBits.dict.lines), readBits.dict.lines, addr, addr + size, v)
      ensures checked ==> reports == NewsIn(writeBits.dict.lines, par, addr, size)
      ensures checked ==> (reports != [] <==> HasParallel(writeBits.dict.lines, par, addr, addr + size))
    {
      if size == 0 {
        return false, [];
      }
      if TakesFastPath(size, alignment) {
        checked := readBits.SetOccupiedFast(addr);
        reports := CheckReadFast(readBits.dict, writeBits.dict, addr, size, v, par, alignment.lg);
      } else {
        checked, reports := CheckRacesAndUpdateRead(addr, size, v, par);
      }
    }

    // A write of any size and alignment.
    method RecordWrite(addr: nat, size: nat, alignment: StaticAlignment, v: Access, par: Oracle)
      returns (checked: bool, reports: seq<nat>)
      requires Valid() && addr > 0 && v.Access? && AlignedTo(addr, alignment)
      modifies writeBits, writeBits.dict
      ensures Valid()
      ensures checked <==>
        size > 0 && (TakesFastPath(size, alignment) || SomeFree(old(writeBits.words), addr, addr + size))
      ensures if size == 0 || TakesFastPath(size, alignment) then writeBits.words == old(writeBits.words)
              else Marked(old(writeBits.words), writeBits.words, addr, addr + size)
      ensures !checked ==> writeBits.dict.lines == old(writeBits.dict.lines) && reports == []
      ensures checked && FollowsRule(old(writeBits.dict.lines), addr, size, alignment) ==>
        && UpdatedIn(par, old(writeBits.dict.lines), writeBits.dict.lines, addr, addr + size, v)
        && reports == RacesOfWrite(old(writeBits.dict.lines), readBits.dict.lines, par, addr, size,
                                   TakesFastPath(size, alignment) && NeedsScan(readBits.dict.lines, addr, size))
        && (reports != [] <==>
              || HasParallel(old(writeBits.dict.lines), par, addr, addr + size)
              || HasParallel(readBits.dict.lines, par, addr, addr + size))
    {
      if size == 0 {
        return false, [];
      }
      if TakesFastPath(size, alignment) {
        checked := writeBits.SetOccupiedFast(addr);
        reports := CheckWriteFast(readBits.dict, writeBits.dict, addr, size, v, par, alignment.lg);
      } else {
        checked, reports := CheckRacesAndUpdateWrite(addr, size, v, par);
      }
      RacesOfWriteAreRight(old(writeBits.dict.lines), readBits.dict.lines, par, addr, size,
                           TakesFastPath(size, alignment) && NeedsScan(readBits.dict.lines, addr, size));
    }

    // A new strand begins.
    method ClearOccupied()
      requires Valid()
      modifies readBits`words, readBits`touchedWords, writeBits`words, writeBits`touchedWords
      ensures Valid()
      ensures forall a: nat :: !Occupied(readBits.words, a) && !Occupied(writeBits.words, a)
    {
      readBits.ClearOccupied();
      writeBits.ClearOccupied();
    }
  }
}
