// The slab allocator for disjoint-set nodes: slabs with a bitmap of used slots,
// on a list of slabs with free slots or on a list of full ones.

module DSAllocator {
  import opened WordBits

  // A slab has room for 127 nodes, so the last bit of its map stands for none.
  datatype Slab = Slab(next: nat, prev: nat, used0: Word, used1: Word)

  const NO_SLAB: nat := 0

  // A slot for a node.
  datatype Slot = Slot(slab: nat, word: nat, bit: nat)

  function WordOf(s: Slab, word: nat): Word {
    if word == 0 then s.used0 else s.used1
  }

  function WithWord(s: Slab, word: nat, x: Word): Slab {
    if word == 0 then s.(used0 := x) else s.(used1 := x)
  }

  predicate IsFull(s: Slab) {
    s.used0 == ONES && s.used1 == ONES
  }

  // The nodes that have been handed out.
  ghost predicate IsLive(slabs: Slabs, p: Slot) {
    && p.slab in slabs && p.word <= 1 && p.bit < (if p.word == 1 then 63 else 64)
    && SetAt(WordOf(slabs[p.slab], p.word), p.bit)
  }

  // ------------------------------------------------------------------- lists

  type Slabs = map<nat, Slab>

  // Element `i` of a doubly linked list.
  ghost predicate LinkedAt(slabs: Slabs, list: seq<nat>, i: nat)
    requires i < |list|
  {
    && list[i] != NO_SLAB && list[i] in slabs
    && slabs[list[i]].next == (if i + 1 < |list| then list[i + 1] else NO_SLAB)
    && slabs[list[i]].prev == (if i > 0 then list[i - 1] else NO_SLAB)
  }

  ghost predicate Linked(slabs: Slabs, head: nat, list: seq<nat>) {
    && head == (if |list| > 0 then list[0] else NO_SLAB)
    && (forall i :: 0 <= i < |list| ==> LinkedAt(slabs, list, i))
    && (forall i, j :: 0 <= i < |list| && 0 <= j < |list| && list[i] == list[j] ==> i == j)
  }

  // Only links have changed, and only those of some slabs.
  ghost predicate LinksChange(slabs: Slabs, slabs': Slabs, changed: set<nat>) {
    && slabs'.Keys == slabs.Keys
    && forall s :: s in slabs ==>
      && slabs'[s].used0 == slabs[s].used0 && slabs'[s].used1 == slabs[s].used1
      && (s !in changed ==> slabs'[s] == slabs[s])
  }

  ghost predicate Apart(a: seq<nat>, b: seq<nat>) {
    forall t :: t in a ==> t !in b
  }

  lemma ElsewhereLinked(slabs: Slabs, slabs': Slabs, changed: set<nat>, head: nat, list: seq<nat>)
    requires LinksChange(slabs, slabs', changed) && Linked(slabs, head, list)
    requires forall t :: t in list ==> t !in changed
    ensures Linked(slabs', head, list)
  {
    forall i | 0 <= i < |list|
      ensures LinkedAt(slabs', list, i)
    {
      assert LinkedAt(slabs, list, i);
    }
  }

  // Put a slab in front of a list.
  lemma PushedInFront(slabs: Slabs, slabs': Slabs, head: nat, list: seq<nat>, s: nat)
    requires Linked(slabs, head, list) && s != NO_SLAB && s in slabs
    requires s !in list
    requires LinksChange(slabs, slabs', {s, head})
    requires slabs'[s].next == head && slabs'[s].prev == NO_SLAB
    requires head != NO_SLAB ==> head in slabs && slabs'[head].prev == s && slabs'[head].next == slabs[head].next
    ensures Linked(slabs', s, [s] + list)
  {
    forall i | 0 <= i < |[s] + list|
      ensures LinkedAt(slabs', [s] + list, i)
    {
      if i > 0 {
        assert LinkedAt(slabs, list, i - 1);
      }
    }
  }

  function Without(list: seq<nat>, k: nat): seq<nat>
    requires k < |list|
  {
    list[..k] + list[k + 1..]
  }

  // The list without a slab.
  ghost function Minus(list: seq<nat>, s: nat): seq<nat> {
    if list == [] then []
    else Minus(list[..|list| - 1], s) + if list[|list| - 1] == s then [] else [list[|list| - 1]]
  }

  lemma {:induction false} MinusNone(list: seq<nat>, s: nat)
    requires s !in list
    ensures Minus(list, s) == list
  {
    if list != [] {
      MinusNone(list[..|list| - 1], s);
    }
  }

  lemma {:induction false} MinusOne(list: seq<nat>, k: nat)
    requires k < |list| && forall i, j :: 0 <= i < |list| && 0 <= j < |list| && list[i] == list[j] ==> i == j
    ensures Minus(list, list[k]) == Without(list, k)
  {
    var below := list[..|list| - 1];
    if k == |below| {
      MinusNone(below, list[k]);
    } else {
      MinusOne(below, k);
      assert Without(list, k) == Without(below, k) + [list[|below|]];
    }
  }

  // The links that take a slab with these neighbours out of its list.
  ghost predicate Bypasses(slabs: Slabs, slabs': Slabs, p: nat, n: nat) {
    && LinksChange(slabs, slabs', {p, n})
    && (p != NO_SLAB ==> p in slabs && slabs'[p].next == n && slabs'[p].prev == slabs[p].prev)
    && (n != NO_SLAB ==> n in slabs && slabs'[n].prev == p && slabs'[n].next == slabs[n].next)
  }

  lemma BypassedAt(slabs: Slabs, slabs': Slabs, head: nat, list: seq<nat>, k: nat, p: nat, n: nat, i: nat)
    requires Linked(slabs, head, list) && k < |list| && i < |list| - 1
    requires p == (if k > 0 then list[k - 1] else NO_SLAB) && n == (if k + 1 < |list| then list[k + 1] else NO_SLAB)
    requires Bypasses(slabs, slabs', p, n)
    ensures LinkedAt(slabs', Without(list, k), i)
  {
    var from := if i < k then i else i + 1;
    assert LinkedAt(slabs, list, from);
    assert Without(list, k)[i] == list[from];
    if list[from] == p {
      assert from == k - 1;
    } else if list[from] == n {
      assert from == k + 1;
    }
  }

  lemma TakenOut(slabs: Slabs, slabs': Slabs, head: nat, list: seq<nat>, k: nat, p: nat, n: nat)
    requires Linked(slabs, head, list) && k < |list|
    requires p == (if k > 0 then list[k - 1] else NO_SLAB) && n == (if k + 1 < |list| then list[k + 1] else NO_SLAB)
    requires Bypasses(slabs, slabs', p, n)
    ensures Linked(slabs', if k > 0 then head else n, Without(list, k))
  {
    forall i | 0 <= i < |list| - 1
      ensures LinkedAt(slabs', Without(list, k), i)
    {
      BypassedAt(slabs, slabs', head, list, k, p, n, i);
    }
  }

  // -------------------------------------------------------------------- maps

  // The bit that stands for no slot is always set.
  ghost predicate MapOk(s: Slab) {
    SetAt(s.used1, 63)
  }

  // Only the map of one slab has changed.
  ghost predicate MapChanges(slabs: Slabs, slabs': Slabs, s: nat) {
    && s in slabs && slabs'.Keys == slabs.Keys
    && slabs'[s].next == slabs[s].next && slabs'[s].prev == slabs[s].prev
    && forall t :: t in slabs && t != s ==> slabs'[t] == slabs[t]
  }

  lemma StillLinked(slabs: Slabs, slabs': Slabs, s: nat, head: nat, list: seq<nat>)
    requires MapChanges(slabs, slabs', s) && Linked(slabs, head, list)
    ensures Linked(slabs', head, list)
  {
    forall i | 0 <= i < |list|
      ensures LinkedAt(slabs', list, i)
    {
      assert LinkedAt(slabs, list, i);
    }
  }

  // Just slot `p` has been handed out, or returned.
  ghost predicate SlotChanges(slabs: Slabs, slabs': Slabs, p: Slot, out: bool) {
    && MapChanges(slabs, slabs', p.slab)
    && IsLive(slabs, p) == !out && IsLive(slabs', p) == out
    && forall q :: q != p ==> (IsLive(slabs', q) <==> IsLive(slabs, q))
  }

  ghost predicate SameLive(slabs: Slabs, slabs': Slabs) {
    forall q :: IsLive(slabs', q) <==> IsLive(slabs, q)
  }

  lemma SlotSwitches(slabs: Slabs, p: Slot, y: Word, on: bool, slabs': Slabs)
    requires p.slab in slabs && MapOk(slabs[p.slab]) && p.word <= 1 && p.bit < (if p.word == 1 then 63 else 64)
    requires SetAt(WordOf(slabs[p.slab], p.word), p.bit) == !on
    requires WithIndex(WordOf(slabs[p.slab], p.word), p.bit, y, on)
    requires slabs' == slabs[p.slab := WithWord(slabs[p.slab], p.word, y)]
    ensures SlotChanges(slabs, slabs', p, on) && MapOk(slabs'[p.slab])
  {
    assert SetAt(y, p.bit) == on;
    forall q | q != p
      ensures IsLive(slabs', q) <==> IsLive(slabs, q)
    {
      if q.slab == p.slab && q.word == p.word && q.bit < 64 {
        assert SetAt(y, q.bit) <==> SetAt(WordOf(slabs[p.slab], p.word), q.bit);
      }
    }
    assert p.word == 1 ==> SetAt(y, 63);
  }

  // The lowest free slot of a word is marked.
  lemma TakesSlot(slabs: Slabs, s: nat, word: nat, x: Word, slabs': Slabs)
    requires s in slabs && MapOk(slabs[s]) && word <= 1 && x == WordOf(slabs[s], word) && x != ONES
    requires slabs' == slabs[s := WithWord(slabs[s], word, x | (x + 1))]
    ensures SlotChanges(slabs, slabs', Slot(s, word, Ctz(x + 1) as nat), true) && MapOk(slabs'[s])
    ensures forall b :: 0 <= b < Ctz(x + 1) as nat ==> SetAt(x, b)
  {
    FindsLowest(x);
    SetsLowest(x, x | (x + 1));
    SlotSwitches(slabs, Slot(s, word, Ctz(x + 1) as nat), x | (x + 1), true, slabs');
  }

  lemma ReturnsSlot(slabs: Slabs, p: Slot, y: Word, slabs': Slabs)
    requires IsLive(slabs, p) && MapOk(slabs[p.slab]) && Index(p.bit) < 64
    requires y == WordOf(slabs[p.slab], p.word) & !(1 << Index(p.bit))
    requires slabs' == slabs[p.slab := WithWord(slabs[p.slab], p.word, y)]
    ensures SlotChanges(slabs, slabs', p, false) && MapOk(slabs'[p.slab]) && !IsFull(slabs'[p.slab])
  {
    ClearsIndex(WordOf(slabs[p.slab], p.word), p.bit, y);
    SlotSwitches(slabs, p, y, false, slabs');
    AllSet(ONES);
  }

  // ---------------------------------------------------------- where slabs are

  // The allocator's variables, with the slabs of its two lists.
  datatype State = State(slabs: Slabs, freeHead: nat, fullHead: nat, next: nat, free: seq<nat>, full: seq<nat>)

  // Slabs of the list are full, or not, but for slab `s`.
  ghost predicate AllFull(slabs: Slabs, list: seq<nat>, s: nat, yes: bool) {
    forall t :: t in list && t != s ==> t in slabs && IsFull(slabs[t]) == yes
  }

  ghost predicate WellLinked(st: State) {
    && Linked(st.slabs, st.freeHead, st.free) && Linked(st.slabs, st.fullHead, st.full) && Apart(st.free, st.full)
    && (forall t :: t in st.slabs ==> NO_SLAB < t < st.next && MapOk(st.slabs[t]))
  }

  // Each slab is on one of the two lists, the free list has a slab, and a slab
  // is on the full list exactly when its map is full, but for slab `moving`.
  ghost predicate Lists(st: State, moving: nat) {
    && WellLinked(st) && |st.free| > 0
    && (forall t :: t in st.slabs ==> t in st.free || t in st.full)
    && AllFull(st.slabs, st.free, moving, false) && AllFull(st.slabs, st.full, moving, true)
  }

  // Slab `s` is on neither list; all others are where they belong.
  ghost predicate Between(st: State, s: nat) {
    && WellLinked(st) && |st.free| > 0
    && s in st.slabs && s !in st.free && s !in st.full
    && (forall t :: t in st.slabs && t != s ==> t in st.free || t in st.full)
    && AllFull(st.slabs, st.free, NO_SLAB, false) && AllFull(st.slabs, st.full, NO_SLAB, true)
  }

  lemma LinksKeepLive(slabs: Slabs, slabs': Slabs, changed: set<nat>)
    requires LinksChange(slabs, slabs', changed)
    ensures SameLive(slabs, slabs')
  {
  }

  lemma LinksKeepFull(slabs: Slabs, slabs': Slabs, changed: set<nat>, list: seq<nat>, s: nat, yes: bool)
    requires LinksChange(slabs, slabs', changed) && AllFull(slabs, list, s, yes)
    ensures AllFull(slabs', list, s, yes)
  {
  }

  lemma MembersOf(slabs: Slabs, head: nat, list: seq<nat>)
    requires Linked(slabs, head, list)
    ensures forall t :: t in list ==> t != NO_SLAB && t in slabs
  {
    forall i | 0 <= i < |list|
      ensures list[i] != NO_SLAB && list[i] in slabs
    {
      assert LinkedAt(slabs, list, i);
    }
  }

  lemma WithoutMembers(slabs: Slabs, head: nat, list: seq<nat>, k: nat)
    requires k < |list| && Linked(slabs, head, list)
    ensures forall t :: t in Without(list, k) <==> t in list && t != list[k]
  {
    var rest := Without(list, k);
    forall t
      ensures t in rest <==> t in list && t != list[k]
    {
      if t in list && t != list[k] {
        var i :| 0 <= i < |list| && list[i] == t;
        assert rest[if i < k then i else i - 1] == t;
      }
      if t in rest {
        var i :| 0 <= i < |rest| && rest[i] == t;
        assert list[if i < k then i else i + 1] == t;
      }
    }
  }

  function PrevOf(list: seq<nat>, k: nat): nat
    requires k < |list|
  {
    if k > 0 then list[k - 1] else NO_SLAB
  }

  function NextOf(list: seq<nat>, k: nat): nat
    requires k < |list|
  {
    if k + 1 < |list| then list[k + 1] else NO_SLAB
  }

  // The links of a slab on a list.
  lemma LinksOf(slabs: Slabs, head: nat, list: seq<nat>, k: nat)
    requires Linked(slabs, head, list) && k < |list|
    ensures list[k] != NO_SLAB && list[k] in slabs
    ensures slabs[list[k]].prev == PrevOf(list, k) && slabs[list[k]].next == NextOf(list, k)
    ensures PrevOf(list, k) != NO_SLAB ==> PrevOf(list, k) in slabs && PrevOf(list, k) != NextOf(list, k)
    ensures NextOf(list, k) != NO_SLAB ==> NextOf(list, k) in slabs
    ensures (k > 0 <==> PrevOf(list, k) != NO_SLAB) && (k + 1 < |list| <==> NextOf(list, k) != NO_SLAB)
    ensures PrevOf(list, k) != list[k] && NextOf(list, k) != list[k]
    ensures k > 0 <==> head != list[k]
  {
    assert LinkedAt(slabs, list, k) && LinkedAt(slabs, list, 0);
    assert k > 0 ==> LinkedAt(slabs, list, k - 1);
    assert k + 1 < |list| ==> LinkedAt(slabs, list, k + 1);
  }

  // Slab `s`, at place `k`, is taken out of the free list, or of the full one.
  lemma TakenOffFree(st: State, k: nat, st': State, moving: nat)
    requires Lists(st, moving) && k < |st.free| && |st.free| > 1 && (moving == NO_SLAB || moving == st.free[k])
    requires Bypasses(st.slabs, st'.slabs, PrevOf(st.free, k), NextOf(st.free, k))
    requires st' == State(st'.slabs, if k > 0 then st.freeHead else NextOf(st.free, k), st.fullHead, st.next,
                          Without(st.free, k), st.full)
    ensures Between(st', st.free[k]) && SameLive(st.slabs, st'.slabs)
  {
    var p, n := PrevOf(st.free, k), NextOf(st.free, k);
    LinksOf(st.slabs, st.freeHead, st.free, k);
    MembersOf(st.slabs, st.freeHead, st.free);
    MembersOf(st.slabs, st.fullHead, st.full);
    WithoutMembers(st.slabs, st.freeHead, st.free, k);
    TakenOut(st.slabs, st'.slabs, st.freeHead, st.free, k, p, n);
    ElsewhereLinked(st.slabs, st'.slabs, {p, n}, st.fullHead, st.full);
    LinksKeepLive(st.slabs, st'.slabs, {p, n});
    LinksKeepFull(st.slabs, st'.slabs, {p, n}, st.free, moving, false);
    LinksKeepFull(st.slabs, st'.slabs, {p, n}, st.full, moving, true);
  }

  lemma TakenOffFull(st: State, k: nat, st': State)
    requires Lists(st, NO_SLAB) && k < |st.full|
    requires Bypasses(st.slabs, st'.slabs, PrevOf(st.full, k), NextOf(st.full, k))
    requires st' == State(st'.slabs, st.freeHead, if k > 0 then st.fullHead else NextOf(st.full, k), st.next,
                          st.free, Without(st.full, k))
    ensures Between(st', st.full[k]) && SameLive(st.slabs, st'.slabs)
  {
    var p, n := PrevOf(st.full, k), NextOf(st.full, k);
    LinksOf(st.slabs, st.fullHead, st.full, k);
    MembersOf(st.slabs, st.freeHead, st.free);
    MembersOf(st.slabs, st.fullHead, st.full);
    WithoutMembers(st.slabs, st.fullHead, st.full, k);
    TakenOut(st.slabs, st'.slabs, st.fullHead, st.full, k, p, n);
    ElsewhereLinked(st.slabs, st'.slabs, {p, n}, st.freeHead, st.free);
    LinksKeepLive(st.slabs, st'.slabs, {p, n});
    LinksKeepFull(st.slabs, st'.slabs, {p, n}, st.free, NO_SLAB, false);
    LinksKeepFull(st.slabs, st'.slabs, {p, n}, st.full, NO_SLAB, true);
  }

  // The links that put slab `s` in front of a list.
  ghost predicate Fronts(slabs: Slabs, slabs': Slabs, head: nat, s: nat) {
    && LinksChange(slabs, slabs', {s, head}) && s in slabs
    && slabs'[s].next == head && slabs'[s].prev == NO_SLAB
    && (head != NO_SLAB ==> head in slabs && slabs'[head].prev == s && slabs'[head].next == slabs[head].next)
  }

  lemma PutOnFree(st: State, s: nat, st': State)
    requires Between(st, s) && Fronts(st.slabs, st'.slabs, st.freeHead, s)
    requires st' == State(st'.slabs, s, st.fullHead, st.next, [s] + st.free, st.full)
    ensures Lists(st', s) && SameLive(st.slabs, st'.slabs)
  {
    MembersOf(st.slabs, st.freeHead, st.free);
    MembersOf(st.slabs, st.fullHead, st.full);
    PushedInFront(st.slabs, st'.slabs, st.freeHead, st.free, s);
    ElsewhereLinked(st.slabs, st'.slabs, {s, st.freeHead}, st.fullHead, st.full);
    LinksKeepLive(st.slabs, st'.slabs, {s, st.freeHead});
    LinksKeepFull(st.slabs, st'.slabs, {s, st.freeHead}, st.free, NO_SLAB, false);
    LinksKeepFull(st.slabs, st'.slabs, {s, st.freeHead}, st.full, NO_SLAB, true);
  }

  lemma PutOnFull(st: State, s: nat, st': State)
    requires Between(st, s) && IsFull(st.slabs[s]) && Fronts(st.slabs, st'.slabs, st.fullHead, s)
    requires st' == State(st'.slabs, st.freeHead, s, st.next, st.free, [s] + st.full)
    ensures Lists(st', NO_SLAB) && SameLive(st.slabs, st'.slabs)
  {
    MembersOf(st.slabs, st.freeHead, st.free);
    MembersOf(st.slabs, st.fullHead, st.full);
    PushedInFront(st.slabs, st'.slabs, st.fullHead, st.full, s);
    ElsewhereLinked(st.slabs, st'.slabs, {s, st.fullHead}, st.freeHead, st.free);
    LinksKeepLive(st.slabs, st'.slabs, {s, st.fullHead});
    LinksKeepFull(st.slabs, st'.slabs, {s, st.fullHead}, st.free, NO_SLAB, false);
    LinksKeepFull(st.slabs, st'.slabs, {s, st.fullHead}, st.full, NO_SLAB, true);
  }

  // The map of a new slab.
  const FRESH_SLAB: Slab := Slab(NO_SLAB, NO_SLAB, 0, !Below(63))

  lemma FreshIsFree()
    ensures MapOk(FRESH_SLAB) && !IsFull(FRESH_SLAB)
    ensures forall slabs, p: Slot :: p.slab in slabs && slabs[p.slab] == FRESH_SLAB ==> !IsLive(slabs, p)
  {
    LastIsSet(63);
    LastIsSet(0);
    AllSet(0);
    forall slabs, p: Slot | p.slab in slabs && slabs[p.slab] == FRESH_SLAB
      ensures !IsLive(slabs, p)
    {
      if p.bit < 64 {
        LastIsSet(p.bit);
      }
    }
  }

  // A new slab takes the place of the only one on the free list.
  lemma OnlySlabReplaced(st: State, s: nat, st': State)
    requires Lists(st, s) && st.free == [s]
    requires st' == State(st.slabs[st.next := FRESH_SLAB], st.next, st.fullHead, st.next + 1, [st.next], st.full)
    ensures Between(st', s) && SameLive(st.slabs, st'.slabs)
  {
    MembersOf(st.slabs, st.freeHead, st.free);
    MembersOf(st.slabs, st.fullHead, st.full);
    forall i | 0 <= i < |st.full|
      ensures LinkedAt(st'.slabs, st.full, i)
    {
      assert LinkedAt(st.slabs, st.full, i);
    }
    assert s in st.free;
    assert LinkedAt(st'.slabs, [st.next], 0);
    FreshIsFree();
  }

  // The map of one slab changes.
  lemma MapChanged(st: State, s: nat, moving: nat, st': State)
    requires Lists(st, moving) && (moving == NO_SLAB || moving == s)
    requires MapChanges(st.slabs, st'.slabs, s) && MapOk(st'.slabs[s])
    requires st' == st.(slabs := st'.slabs)
    ensures Lists(st', s)
  {
    MembersOf(st.slabs, st.freeHead, st.free);
    MembersOf(st.slabs, st.fullHead, st.full);
    StillLinked(st.slabs, st'.slabs, s, st.freeHead, st.free);
    StillLinked(st.slabs, st'.slabs, s, st.fullHead, st.full);
  }

  lemma AnyMayMove(st: State, s: nat)
    requires Lists(st, NO_SLAB)
    ensures Lists(st, s)
  {
    MembersOf(st.slabs, st.freeHead, st.free);
    MembersOf(st.slabs, st.fullHead, st.full);
  }

  lemma Settled(st: State, s: nat)
    requires Lists(st, s)
    requires s in st.slabs && (if IsFull(st.slabs[s]) then s in st.full else s in st.free)
    ensures Lists(st, NO_SLAB)
  {
  }

  // A slab is missing from one of the lists.
  lemma ListsApart(st: State, s: nat)
    requires Lists(st, NO_SLAB)
    ensures s !in st.free ==> Minus(st.free, s) == st.free
    ensures s !in st.full ==> Minus(st.full, s) == st.full
    ensures s in st.free ==> s !in st.full
  {
    if s !in st.free { MinusNone(st.free, s); }
    if s !in st.full { MinusNone(st.full, s); }
  }

  // The slots in front of this one are in use.
  ghost predicate IsLowest(s: Slab, p: Slot) {
    && p.word <= 1 && (p.word == 1 ==> s.used0 == ONES)
    && forall b :: 0 <= b < p.bit ==> SetAt(WordOf(s, p.word), b)
  }

  class Allocator {
    var slabs: Slabs
    var freeSlabs: nat
    var fullSlabs: nat
    var nextSlab: nat
    ghost var free: seq<nat>
    ghost var full: seq<nat>

    ghost function Now(): State
      reads this
    {
      State(slabs, freeSlabs, fullSlabs, nextSlab, free, full)
    }

    ghost predicate Valid()
      reads this
    {
      Lists(Now(), NO_SLAB)
    }

    constructor ()
      ensures Valid() && forall p :: !IsLive(slabs, p)
    {
      slabs := map[1 := FRESH_SLAB];
      freeSlabs, fullSlabs, nextSlab := 1, NO_SLAB, 2;
      free, full := [1], [];
      new;
      FreshIsFree();
      assert LinkedAt(slabs, free, 0);
    }

    method SetNext(s: nat, n: nat)
      requires s in slabs
      modifies this`slabs
      ensures slabs == old(slabs)[s := old(slabs[s]).(next := n)]
    {
      slabs := slabs[s := slabs[s].(next := n)];
    }

    method SetPrev(s: nat, p: nat)
      requires s in slabs
      modifies this`slabs
      ensures slabs == old(slabs)[s := old(slabs[s]).(prev := p)]
    {
      slabs := slabs[s := slabs[s].(prev := p)];
    }

    // Get a free slot from a slab and mark it as used, unless the slab is full.
    method GetFreeDJSet(s: nat) returns (found: bool, p: Slot)
      requires s in slabs && MapOk(slabs[s])
      modifies this`slabs
      ensures found == !IsFull(old(slabs[s])) && (!found ==> slabs == old(slabs))
      ensures found ==> p.slab == s && SlotChanges(old(slabs), slabs, p, true) && MapOk(slabs[s])
      ensures found ==> IsLowest(old(slabs[s]), p)
    {
      for i := 0 to 2
        invariant slabs == old(slabs)
        invariant (i > 0 ==> slabs[s].used0 == ONES) && (i > 1 ==> slabs[s].used1 == ONES)
      {
        if WordOf(slabs[s], i) != ONES {
          p := MarkLowest(s, i);
          return true, p;
        }
      }
      return false, Slot(s, 0, 0);
    }

    method MarkLowest(s: nat, word: nat) returns (p: Slot)
      requires s in slabs && MapOk(slabs[s]) && word <= 1 && WordOf(slabs[s], word) != ONES
      modifies this`slabs
      ensures p.slab == s && p.word == word && SlotChanges(old(slabs), slabs, p, true) && MapOk(slabs[s])
      ensures forall b :: 0 <= b < p.bit ==> SetAt(WordOf(old(slabs[s]), word), b)
    {
      var x := WordOf(slabs[s], word);
      slabs := slabs[s := WithWord(slabs[s], word, x | (x + 1))];
      TakesSlot(old(slabs), s, word, x, slabs);
      p := Slot(s, word, Ctz(x + 1) as nat);
    }

    // Mark a slot as free.
    method ReturnDJSet(p: Slot)
      requires IsLive(slabs, p) && MapOk(slabs[p.slab])
      modifies this`slabs
      ensures SlotChanges(old(slabs), slabs, p, false) && MapOk(slabs[p.slab]) && !IsFull(slabs[p.slab])
    {
      IndexBack(p.bit);
      var y := WordOf(slabs[p.slab], p.word) & !(1 << Index(p.bit));
      slabs := slabs[p.slab := WithWord(slabs[p.slab], p.word, y)];
      ReturnsSlot(old(slabs), p, y, slabs);
    }

    // Make the neighbours of a slab point to each other.
    method Bypass(p: nat, n: nat)
      requires (p != NO_SLAB ==> p in slabs) && (n != NO_SLAB ==> n in slabs) && (p != NO_SLAB ==> p != n)
      modifies this`slabs
      ensures Bypasses(old(slabs), slabs, p, n)
    {
      if p != NO_SLAB {
        SetNext(p, n);
      }
      if n != NO_SLAB {
        SetPrev(n, p);
      }
    }

    // Take the slab at the head of the free list off it; a new slab takes its
    // place when it is the only one.
    method PopFree() returns (s: nat)
      requires Lists(Now(), freeSlabs)
      modifies this
      ensures s == old(freeSlabs) && Between(Now(), s) && SameLive(old(slabs), slabs)
      ensures s in old(slabs) && IsFull(slabs[s]) == IsFull(old(slabs)[s]) && slabs[s].prev == NO_SLAB
      ensures free == (if |old(free)| > 1 then old(free)[1..] else [old(nextSlab)]) && full == old(full)
    {
      ghost var st := Now();
      s := freeSlabs;
      LinksOf(slabs, freeSlabs, free, 0);
      var n := slabs[s].next;
      if n == NO_SLAB {
        // Allocate a new slab.
        assert free == [s];
        slabs := slabs[nextSlab := FRESH_SLAB];
        freeSlabs := nextSlab;
        nextSlab := nextSlab + 1;
        free := [freeSlabs];
        OnlySlabReplaced(st, s, Now());
      } else {
        SetPrev(n, NO_SLAB);
        freeSlabs := n;
        free := Without(free, 0);
        TakenOffFree(st, 0, Now(), s);
      }
    }

    // Put a full slab at the head of the full list.
    method PushFull(s: nat)
      requires Between(Now(), s) && IsFull(slabs[s]) && slabs[s].prev == NO_SLAB
      modifies this
      ensures Valid() && SameLive(old(slabs), slabs)
      ensures free == old(free) && full == [s] + old(full)
      ensures s in slabs && IsFull(slabs[s])
    {
      ghost var st := Now();
      MembersOf(slabs, fullSlabs, full);
      LinkFull(s);
      fullSlabs := s;
      full := [s] + full;
      PutOnFull(st, s, Now());
    }

    method LinkFull(s: nat)
      requires s in slabs && slabs[s].prev == NO_SLAB && fullSlabs != s
      requires fullSlabs != NO_SLAB ==> fullSlabs in slabs
      modifies this`slabs
      ensures Fronts(old(slabs), slabs, fullSlabs, s)
    {
      SetNext(s, fullSlabs);
      if fullSlabs != NO_SLAB {
        SetPrev(fullSlabs, s);
      }
    }

    method LinkInFront(s: nat, head: nat)
      requires s in slabs && head in slabs && s != head && head != NO_SLAB
      modifies this`slabs
      ensures Fronts(old(slabs), slabs, head, s)
    {
      SetPrev(s, NO_SLAB);
      SetNext(s, head);
      SetPrev(head, s);
    }

    // Put a slab at the head of the free list.
    method PushFree(s: nat)
      requires Between(Now(), s)
      modifies this
      ensures Lists(Now(), s) && s in free && SameLive(old(slabs), slabs)
      ensures free == [s] + old(free) && full == old(full)
    {
      ghost var st := Now();
      LinksOf(slabs, freeSlabs, free, 0);
      LinkInFront(s, freeSlabs);
      freeSlabs := s;
      free := [s] + free;
      PutOnFree(st, s, Now());
    }

    // Take a slab out of the full list.
    method UnlinkFull(s: nat, ghost k: nat)
      requires Valid() && k < |full| && full[k] == s
      modifies this
      ensures Between(Now(), s) && SameLive(old(slabs), slabs)
      ensures free == old(free) && full == Minus(old(full), s)
    {
      ghost var st := Now();
      MinusOne(full, k);
      LinksOf(slabs, fullSlabs, full, k);
      var p, n := slabs[s].prev, slabs[s].next;
      Bypass(p, n);
      if p == NO_SLAB {
        fullSlabs := n;
      }
      full := Without(full, k);
      TakenOffFull(st, k, Now());
    }

    // Take a slab that is not the head out of the free list.
    method UnlinkFree(s: nat, ghost k: nat)
      requires Valid() && 0 < k < |free| && free[k] == s
      modifies this
      ensures Between(Now(), s) && SameLive(old(slabs), slabs)
      ensures free == Minus(old(free), s) && full == old(full)
    {
      ghost var st := Now();
      MinusOne(free, k);
      LinksOf(slabs, freeSlabs, free, k);
      var p, n := slabs[s].prev, slabs[s].next;
      Bypass(p, n);
      free := Without(free, k);
      TakenOffFree(st, k, Now(), NO_SLAB);
    }

    // Hand out a slot that is not in use.
    method GetDJSet() returns (p: Slot)
      requires Valid()
      modifies this
      ensures Valid() && !IsLive(old(slabs), p) && IsLive(slabs, p)
      ensures forall q :: q != p ==> (IsLive(slabs, q) <==> IsLive(old(slabs), q))
      ensures p.slab == old(freeSlabs) && p.slab in slabs && p.slab in old(slabs) && IsLowest(old(slabs)[p.slab], p)
      ensures if IsFull(slabs[p.slab])
              then free == (if |old(free)| > 1 then old(free)[1..] else [old(nextSlab)]) && full == [p.slab] + old(full)
              else free == old(free) && full == old(full)
    {
      ghost var st := Now();
      LinksOf(slabs, freeSlabs, free, 0);
      var s := freeSlabs;
      var _, slot := GetFreeDJSet(s);
      p := slot;
      MapChanged(st, s, NO_SLAB, Now());
      // If the slab is now full, move it to the full list.
      if IsFull(slabs[s]) {
        var moved := PopFree();
        PushFull(moved);
      } else {
        Settled(Now(), s);
      }
    }

    // A slab that will no longer be full goes back to the free list.
    method MoveToFree(s: nat)
      requires Valid() && s in full
      modifies this
      ensures Lists(Now(), s) && SameLive(old(slabs), slabs)
      ensures free == [s] + old(free) && full == Minus(old(full), s)
    {
      ghost var k :| 0 <= k < |full| && full[k] == s;
      UnlinkFull(s, k);
      PushFree(s);
    }

    // A slab goes to the head of the free list.
    method MoveToHead(s: nat)
      requires Valid() && s in free && freeSlabs != s
      modifies this
      ensures Lists(Now(), s) && SameLive(old(slabs), slabs)
      ensures free == [s] + Minus(old(free), s) && full == old(full)
    {
      ghost var k :| 0 <= k < |free| && free[k] == s;
      UnlinkFree(s, k);
      PushFree(s);
    }

    // Bring the slab of a slot that is going to be free to the head of the free
    // list.
    method BringToFront(s: nat)
      requires Valid() && s in slabs
      modifies this
      ensures Lists(Now(), s) && s in free && SameLive(old(slabs), slabs)
      ensures free == [s] + Minus(old(free), s) && full == Minus(old(full), s)
    {
      ListsApart(Now(), s);
      if IsFull(slabs[s]) {
        MoveToFree(s);
      } else if freeSlabs != s {
        MoveToHead(s);
      } else {
        LinksOf(slabs, freeSlabs, free, 0);
        MinusOne(free, 0);
        AnyMayMove(Now(), s);
      }
    }

    // Take back a slot that is in use.
    method FreeDJSet(p: Slot)
      requires Valid() && IsLive(slabs, p)
      modifies this
      ensures Valid() && !IsLive(slabs, p)
      ensures forall q :: q != p ==> (IsLive(slabs, q) <==> IsLive(old(slabs), q))
      ensures free == [p.slab] + Minus(old(free), p.slab) && full == Minus(old(full), p.slab)
    {
      var s := p.slab;
      BringToFront(s);
      ghost var st := Now();
      ReturnDJSet(p);
      MapChanged(st, s, s, Now());
      Settled(Now(), s);
    }
  }
}
