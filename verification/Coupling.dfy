// How the detector's data structures represent the abstract bag labels: frames
// on the stack name bags of the forest, and each slot of the shadow memory holds
// a node that resolves to the bag of the strand it remembers.

module Coupling {
  import opened DisjointSet
  import SpBags

  // A frame of the detector's stack, with null pointers as None.
  datatype FrameData = FrameData(detacher: bool, sbag: Option<BagId>, sbagUsed: bool, pbags: seq<Option<BagId>>)

  // The bag object that a label stands for.
  function IdOf(frames: seq<FrameData>, l: SpBags.Bag): Option<BagId> {
    match l
    case InS(i) => if i < |frames| then frames[i].sbag else None
    case InP(i, r) => if i < |frames| && r < |frames[i].pbags| then frames[i].pbags[r] else None
  }

  ghost predicate IdOk(h: Heap, frames: seq<FrameData>, l: SpBags.Bag) {
    IdOf(frames, l).Some? ==>
      && IdOf(frames, l).value in h.bags
      && h.bags[IdOf(frames, l).value].isP == l.InP?
      && (l.InS? ==> h.bags[IdOf(frames, l).value].ds.Some?)
  }

  ghost predicate IdsApart(frames: seq<FrameData>, l: SpBags.Bag, m: SpBags.Bag) {
    IdOf(frames, l).Some? && IdOf(frames, l) == IdOf(frames, m) ==> l == m
  }

  ghost predicate NamesOk(h: Heap, frames: seq<FrameData>) {
    && (forall l {:trigger IdOk(h, frames, l)} :: IdOk(h, frames, l))
    && (forall l, m {:trigger IdsApart(frames, l, m)} :: IdsApart(frames, l, m))
  }

  // A slot holds `n` for strand `u`: the node resolves to the strand's bag, and
  // an S-bag that is recorded anywhere is marked used.
  ghost predicate SlotOk(h: Heap, frames: seq<FrameData>, labels: seq<SpBags.Bag>, n: Node, u: nat) {
    && n in h.nodes
    && n < |h.root| && h.root[n] in h.nodes && h.nodes[h.root[n]].link.Tag?
    && u < |labels|
    && IdOf(frames, labels[u]) == Some(Resolve(h, n))
    && (labels[u].InS? ==> frames[labels[u].frame].sbagUsed)
  }

  ghost predicate SlotAt(h: Heap, frames: seq<FrameData>, labels: seq<SpBags.Bag>,
                         held: map<nat, Node>, strands: map<nat, nat>, write: bool, x: nat) {
    && (AccessAt(write, x) in h.refs <==> x in held)
    && (x in held <==> x in strands)
    && (x in held ==>
          h.refs[AccessAt(write, x)] == held[x] && SlotOk(h, frames, labels, held[x], strands[x]))
  }

  ghost predicate SlotsOk(h: Heap, frames: seq<FrameData>, labels: seq<SpBags.Bag>,
                          held: map<nat, Node>, strands: map<nat, nat>, write: bool) {
    forall x {:trigger SlotAt(h, frames, labels, held, strands, write, x)} ::
      SlotAt(h, frames, labels, held, strands, write, x)
  }

  // The two dictionaries, and the strands they stand for.
  datatype Memory = Memory(readers: map<nat, Node>, writers: map<nat, Node>,
                           readBy: map<nat, nat>, writtenBy: map<nat, nat>)

  ghost predicate Coupled(h: Heap, frames: seq<FrameData>, labels: seq<SpBags.Bag>, m: Memory) {
    && Valid(h, {})
    && NamesOk(h, frames)
    && SlotsOk(h, frames, labels, m.readers, m.readBy, false)
    && SlotsOk(h, frames, labels, m.writers, m.writtenBy, true)
  }

  lemma NewLabelIsFree(h: Heap, frames: seq<FrameData>, labels: seq<SpBags.Bag>, m: Memory, l: SpBags.Bag)
    requires Coupled(h, frames, labels, m)
    ensures Coupled(h, frames, labels + [l], m)
  {
    forall x: nat
      ensures SlotAt(h, frames, labels + [l], m.readers, m.readBy, false, x)
      ensures SlotAt(h, frames, labels + [l], m.writers, m.writtenBy, true, x)
    {
      assert SlotAt(h, frames, labels, m.readers, m.readBy, false, x);
      assert SlotAt(h, frames, labels, m.writers, m.writtenBy, true, x);
    }
  }

  // The forest moved, but bags, resolutions and recorded accesses stayed.
  lemma SlotSurvives(h: Heap, h': Heap, frames: seq<FrameData>, labels: seq<SpBags.Bag>,
                     held: map<nat, Node>, strands: map<nat, nat>, write: bool)
    requires SlotsOk(h, frames, labels, held, strands, write)
    requires Valid(h', {}) && SameBags(h, h') && SameAccesses(h, h')
    ensures SlotsOk(h', frames, labels, held, strands, write)
  {
    forall x: nat
      ensures SlotAt(h', frames, labels, held, strands, write, x)
    {
      assert SlotAt(h, frames, labels, held, strands, write, x);
      if x in held {
        assert h'.refs[AccessAt(write, x)] == held[x] && held[x] in h'.nodes;
        assert NodeOk(h'.nodes, h'.root, held[x]);
        assert Resolve(h', held[x]) == Resolve(h', held[x]);
        assert ResolvesAlike(h, h', held[x]);
      }
    }
  }

  lemma CouplingSurvives(h: Heap, h': Heap, frames: seq<FrameData>, labels: seq<SpBags.Bag>, m: Memory)
    requires Coupled(h, frames, labels, m)
    requires Valid(h', {}) && h'.bags == h.bags && SameBags(h, h') && SameAccesses(h, h')
    ensures Coupled(h', frames, labels, m)
  {
    SlotSurvives(h, h', frames, labels, m.readers, m.readBy, false);
    SlotSurvives(h, h', frames, labels, m.writers, m.writtenBy, true);
    forall l
      ensures IdOk(h', frames, l)
    {
      assert IdOk(h, frames, l);
    }
  }

  // Names that are only added leave the slots alone.
  lemma SlotsWithMoreNames(h: Heap, h': Heap, frames: seq<FrameData>, frames': seq<FrameData>, labels: seq<SpBags.Bag>,
                           held: map<nat, Node>, strands: map<nat, nat>, write: bool)
    requires SlotsOk(h, frames, labels, held, strands, write)
    requires h'.refs.Keys >= h.refs.Keys
    requires forall k :: k in h'.refs && k.AccessAt? ==> k in h.refs && h'.refs[k] == h.refs[k]
    requires forall n :: n in h.nodes ==> n in h'.nodes && ResolvesAlike(h, h', n)
    requires |frames'| >= |frames|
    requires forall l :: IdOf(frames, l).Some? ==> IdOf(frames', l) == IdOf(frames, l)
    requires forall i :: 0 <= i < |frames| ==> frames'[i].sbagUsed == frames[i].sbagUsed
    ensures SlotsOk(h', frames', labels, held, strands, write)
  {
    forall x: nat
      ensures SlotAt(h', frames', labels, held, strands, write, x)
    {
      assert SlotAt(h, frames, labels, held, strands, write, x);
    }
  }

  lemma PushNames(h: Heap, h': Heap, frames: seq<FrameData>, f: FrameData)
    requires NamesOk(h, frames)
    requires h'.bags == h.bags[h.nextBag := Bag(false, Some(h.nextNode))] && h.nextBag !in h.bags
    requires f.sbag == Some(h.nextBag) && forall r :: 0 <= r < |f.pbags| ==> f.pbags[r] == None
    ensures NamesOk(h', frames + [f])
    ensures forall l :: IdOf(frames, l).Some? ==> IdOf(frames + [f], l) == IdOf(frames, l)
  {
    var frames' := frames + [f];
    forall l
      ensures IdOf(frames', l) == if l == SpBags.InS(|frames|) then f.sbag else IdOf(frames, l)
    {
    }
    forall l
      ensures IdOk(h', frames', l)
    {
      assert IdOk(h, frames, l);
    }
    forall l, k
      ensures IdsApart(frames', l, k)
    {
      assert IdsApart(frames, l, k) && IdOk(h, frames, l) && IdOk(h, frames, k);
    }
  }

  // What a heap keeps for the accesses it had.
  ghost predicate KeepsAccesses(h: Heap, h': Heap) {
    && h'.refs.Keys >= h.refs.Keys
    && (forall k :: k in h'.refs && k.AccessAt? ==> k in h.refs && h'.refs[k] == h.refs[k])
    && (forall n :: n in h.nodes ==> n in h'.nodes && ResolvesAlike(h, h', n))
  }

  lemma NewSBagKeepsAccesses(h: Heap)
    requires BagOf(h.nextBag) !in h.refs
    requires forall n :: n in h.nodes ==> ResolvesAlike(h, WithSBag(h), n)
    ensures KeepsAccesses(h, WithSBag(h))
  {
  }

  lemma NewSBagIsSafe(h: Heap)
    requires Valid(h, {})
    ensures Valid(WithSBag(h), {}) && h.nextBag !in h.bags && KeepsAccesses(h, WithSBag(h))
  {
    NewSBagKeepsValid(h, {});
    NewNodeIsFresh(h);
    NewSBagKeepsAccesses(h);
  }

  // A frame is pushed with a fresh S-bag and null P-bags.
  lemma PushCouples(h: Heap, frames: seq<FrameData>, labels: seq<SpBags.Bag>, m: Memory, f: FrameData)
    requires Coupled(h, frames, labels, m)
    requires f.sbag == Some(h.nextBag) && forall r :: 0 <= r < |f.pbags| ==> f.pbags[r] == None
    ensures Coupled(WithSBag(h), frames + [f], labels, m)
  {
    NewSBagIsSafe(h);
    PushNames(h, WithSBag(h), frames, f);
    SlotsPushed(h, WithSBag(h), frames, f, labels, m);
  }

  lemma SlotsPushed(h: Heap, h': Heap, frames: seq<FrameData>, f: FrameData, labels: seq<SpBags.Bag>, m: Memory)
    requires SlotsOk(h, frames, labels, m.readers, m.readBy, false)
    requires SlotsOk(h, frames, labels, m.writers, m.writtenBy, true)
    requires KeepsAccesses(h, h')
    requires forall l :: IdOf(frames, l).Some? ==> IdOf(frames + [f], l) == IdOf(frames, l)
    ensures SlotsOk(h', frames + [f], labels, m.readers, m.readBy, false)
    ensures SlotsOk(h', frames + [f], labels, m.writers, m.writtenBy, true)
  {
    SlotsWithMoreNames(h, h', frames, frames + [f], labels, m.readers, m.readBy, false);
    SlotsWithMoreNames(h, h', frames, frames + [f], labels, m.writers, m.writtenBy, true);
  }

  // A P-bag is created lazily for region `r` of frame `i`.
  lemma LazyPBagCouples(h: Heap, frames: seq<FrameData>, labels: seq<SpBags.Bag>, m: Memory, i: nat, r: nat)
    requires Coupled(h, frames, labels, m)
    requires i < |frames| && r < |frames[i].pbags| && frames[i].pbags[r] == None
    ensures Coupled(WithPBag(h), frames[i := frames[i].(pbags := frames[i].pbags[r := Some(h.nextBag)])], labels, m)
  {
    var h' := WithPBag(h);
    var frames' := frames[i := frames[i].(pbags := frames[i].pbags[r := Some(h.nextBag)])];
    NewPBagKeepsValid(h, {});
    NewNodeIsFresh(h);
    forall l
      ensures IdOf(frames', l) == if l == SpBags.InP(i, r) then Some(h.nextBag) else IdOf(frames, l)
    {
    }
    forall l
      ensures IdOk(h', frames', l)
    {
      assert IdOk(h, frames, l);
    }
    forall l, k
      ensures IdsApart(frames', l, k)
    {
      assert IdsApart(frames, l, k) && IdOk(h, frames, l) && IdOk(h, frames, k);
    }
    SlotsWithMoreNames(h, h', frames, frames', labels, m.readers, m.readBy, false);
    SlotsWithMoreNames(h, h', frames, frames', labels, m.writers, m.writtenBy, true);
  }

  // Labels in which `from` has become `to`.
  ghost predicate Renamed(labels: seq<SpBags.Bag>, labels': seq<SpBags.Bag>, from: SpBags.Bag, to: SpBags.Bag) {
    && |labels'| == |labels|
    && forall u :: 0 <= u < |labels| ==> labels'[u] == if labels[u] == from then to else labels[u]
  }

  // Frames that have forgotten the bag of label `from`, and in which the bag of
  // label `to` is marked used if it is an S-bag.
  ghost predicate Forgot(frames: seq<FrameData>, frames': seq<FrameData>, from: SpBags.Bag, to: SpBags.Bag) {
    && |frames'| == |frames|
    && (forall l :: IdOf(frames', l) == if l == from then None else IdOf(frames, l))
    && (forall i :: 0 <= i < |frames| && frames[i].sbagUsed ==> frames'[i].sbagUsed)
    && (to.InS? ==> to.frame < |frames'| && frames'[to.frame].sbagUsed)
  }

  lemma SlotsMerge(h: Heap, h': Heap, frames: seq<FrameData>, frames': seq<FrameData>,
                   labels: seq<SpBags.Bag>, labels': seq<SpBags.Bag>, to: SpBags.Bag, from: SpBags.Bag,
                   held: map<nat, Node>, strands: map<nat, nat>, write: bool)
    requires SlotsOk(h, frames, labels, held, strands, write) && NamesOk(h, frames) && Structured(h', None)
    requires IdOf(frames, to).Some? && IdOf(frames, from).Some? && to != from
    requires MergedInto(h, h', IdOf(frames, to).value, IdOf(frames, from).value)
    requires Renamed(labels, labels', from, to) && Forgot(frames, frames', from, to)
    ensures SlotsOk(h', frames', labels', held, strands, write)
  {
    var a, b := IdOf(frames, to).value, IdOf(frames, from).value;
    forall x: nat
      ensures SlotAt(h', frames', labels', held, strands, write, x)
    {
      assert SlotAt(h, frames, labels, held, strands, write, x);
      if x in held {
        assert h'.refs[AccessAt(write, x)] == held[x] && held[x] in h'.nodes;
        assert NodeCombined(h, h', a, b, held[x]) && NodeOk(h'.nodes, h'.root, held[x]);
        assert IdsApart(frames, labels[strands[x]], from);
      }
    }
  }

  // The bag of label `from` has been merged into the bag of label `to`.
  lemma MergeCouples(h: Heap, h': Heap, frames: seq<FrameData>, frames': seq<FrameData>,
                     labels: seq<SpBags.Bag>, labels': seq<SpBags.Bag>, m: Memory, to: SpBags.Bag, from: SpBags.Bag)
    requires Coupled(h, frames, labels, m) && Valid(h', {})
    requires IdOf(frames, to).Some? && IdOf(frames, from).Some? && to != from
    requires MergedInto(h, h', IdOf(frames, to).value, IdOf(frames, from).value)
    requires Renamed(labels, labels', from, to) && Forgot(frames, frames', from, to)
    ensures Coupled(h', frames', labels', m)
  {
    SlotsMerge(h, h', frames, frames', labels, labels', to, from, m.readers, m.readBy, false);
    SlotsMerge(h, h', frames, frames', labels, labels', to, from, m.writers, m.writtenBy, true);
    assert IdOk(h, frames, to) && IdOk(h, frames, from);
    forall l
      ensures IdOk(h', frames', l)
    {
      assert IdOk(h, frames, l) && IdsApart(frames, l, from) && IdsApart(frames, l, to);
    }
    forall l, k
      ensures IdsApart(frames', l, k)
    {
      assert IdsApart(frames, l, k);
    }
  }

  // An S-bag that was never used is not the bag of any recorded access.
  lemma UnusedIsUnheld(h: Heap, frames: seq<FrameData>, labels: seq<SpBags.Bag>, m: Memory, i: nat)
    requires Coupled(h, frames, labels, m)
    requires i < |frames| && frames[i].sbag.Some? && !frames[i].sbagUsed
    ensures frames[i].sbag.value in h.bags && h.bags[frames[i].sbag.value].ds.Some?
    ensures HoldersOf(h.refs, h.bags[frames[i].sbag.value].ds.value) == {BagOf(frames[i].sbag.value)}
  {
    var l := SpBags.InS(i);
    var b := frames[i].sbag.value;
    assert IdOk(h, frames, l);
    forall k | k in h.refs && k.AccessAt?
      ensures h.refs[k] < |h.root| && h.root[h.refs[k]] in h.nodes && h.nodes[h.root[h.refs[k]]].link.Tag?
      ensures Resolve(h, h.refs[k]) != b
    {
      assert SlotAt(h, frames, labels, m.readers, m.readBy, false, k.loc);
      assert SlotAt(h, frames, labels, m.writers, m.writtenBy, true, k.loc);
      var u := if k.write then m.writtenBy[k.loc] else m.readBy[k.loc];
      assert IdsApart(frames, labels[u], l);
    }
    UnusedBagHoldsAlone(h, b);
  }

  lemma SlotsDiscard(h: Heap, h': Heap, frames: seq<FrameData>, frames': seq<FrameData>,
                     labels: seq<SpBags.Bag>, labels': seq<SpBags.Bag>, i: nat, to: SpBags.Bag,
                     held: map<nat, Node>, strands: map<nat, nat>, write: bool)
    requires SlotsOk(h, frames, labels, held, strands, write) && Structured(h', None)
    requires i < |frames| && !frames[i].sbagUsed
    requires SameBags(h, h') && SameAccesses(h, h')
    requires Renamed(labels, labels', SpBags.InS(i), to)
    requires frames' == frames[i := frames[i].(sbag := None)]
    ensures SlotsOk(h', frames', labels', held, strands, write)
  {
    forall x: nat
      ensures SlotAt(h', frames', labels', held, strands, write, x)
    {
      assert SlotAt(h, frames, labels, held, strands, write, x);
      if x in held {
        assert h'.refs[AccessAt(write, x)] == held[x] && held[x] in h'.nodes;
        assert NodeOk(h'.nodes, h'.root, held[x]);
        assert Resolve(h', held[x]) == Resolve(h', held[x]);
        assert ResolvesAlike(h, h', held[x]);
      }
    }
  }

  // Dropping an unused S-bag is as good as merging it.
  lemma DiscardCouples(h: Heap, h': Heap, frames: seq<FrameData>, frames': seq<FrameData>,
                       labels: seq<SpBags.Bag>, labels': seq<SpBags.Bag>, m: Memory, i: nat, to: SpBags.Bag)
    requires Coupled(h, frames, labels, m) && Valid(h', {})
    requires i < |frames| && frames[i].sbag.Some? && !frames[i].sbagUsed
    requires h'.bags == h.bags - {frames[i].sbag.value}
    requires SameBags(h, h') && SameAccesses(h, h')
    requires Renamed(labels, labels', SpBags.InS(i), to)
    requires frames' == frames[i := frames[i].(sbag := None)]
    ensures Coupled(h', frames', labels', m)
  {
    SlotsDiscard(h, h', frames, frames', labels, labels', i, to, m.readers, m.readBy, false);
    SlotsDiscard(h, h', frames, frames', labels, labels', i, to, m.writers, m.writtenBy, true);
    forall l
      ensures IdOf(frames', l) == if l == SpBags.InS(i) then None else IdOf(frames, l)
    {
    }
    forall l
      ensures IdOk(h', frames', l)
    {
      assert IdOk(h, frames, l) && IdsApart(frames, l, SpBags.InS(i));
    }
    forall l, k
      ensures IdsApart(frames', l, k)
    {
      assert IdsApart(frames, l, k);
    }
  }

  // A frame whose bags are all gone can be popped.
  lemma PopCouples(h: Heap, frames: seq<FrameData>, top: FrameData, labels: seq<SpBags.Bag>, m: Memory)
    requires Coupled(h, frames + [top], labels, m)
    requires top.sbag == None && forall r :: 0 <= r < |top.pbags| ==> top.pbags[r] == None
    ensures Coupled(h, frames, labels, m)
  {
    var frames' := frames + [top];
    forall l
      ensures IdOf(frames', l) == IdOf(frames, l)
    {
    }
    forall l
      ensures IdOk(h, frames, l)
    {
      assert IdOk(h, frames', l);
    }
    forall l, k
      ensures IdsApart(frames, l, k)
    {
      assert IdsApart(frames', l, k);
    }
    forall x: nat
      ensures SlotAt(h, frames, labels, m.readers, m.readBy, false, x)
      ensures SlotAt(h, frames, labels, m.writers, m.writtenBy, true, x)
    {
      assert SlotAt(h, frames', labels, m.readers, m.readBy, false, x);
      assert SlotAt(h, frames', labels, m.writers, m.writtenBy, true, x);
    }
  }

  // A label whose bag is null stands for no recorded access, so renaming it
  // changes nothing.
  lemma NullBagRenames(h: Heap, frames: seq<FrameData>, labels: seq<SpBags.Bag>, labels': seq<SpBags.Bag>, m: Memory,
                       to: SpBags.Bag, from: SpBags.Bag)
    requires Coupled(h, frames, labels, m)
    requires IdOf(frames, from) == None && Renamed(labels, labels', from, to)
    ensures Coupled(h, frames, labels', m)
  {
    forall x: nat
      ensures SlotAt(h, frames, labels', m.readers, m.readBy, false, x)
      ensures SlotAt(h, frames, labels', m.writers, m.writtenBy, true, x)
    {
      assert SlotAt(h, frames, labels, m.readers, m.readBy, false, x);
      assert SlotAt(h, frames, labels, m.writers, m.writtenBy, true, x);
    }
  }

  function Rename(labels: seq<SpBags.Bag>, from: SpBags.Bag, to: SpBags.Bag): (labels': seq<SpBags.Bag>)
    ensures Renamed(labels, labels', from, to)
  {
    seq(|labels|, u requires 0 <= u < |labels| => if labels[u] == from then to else labels[u])
  }

  // Marking a frame's S-bag used is always safe.
  lemma MarkingCouples(h: Heap, frames: seq<FrameData>, labels: seq<SpBags.Bag>, m: Memory, i: nat)
    requires Coupled(h, frames, labels, m) && i < |frames|
    ensures Coupled(h, frames[i := frames[i].(sbagUsed := true)], labels, m)
  {
    var frames' := frames[i := frames[i].(sbagUsed := true)];
    forall l
      ensures IdOf(frames', l) == IdOf(frames, l)
    {
    }
    forall l
      ensures IdOk(h, frames', l)
    {
      assert IdOk(h, frames, l);
    }
    forall l, k
      ensures IdsApart(frames', l, k)
    {
      assert IdsApart(frames, l, k);
    }
    forall x: nat
      ensures SlotAt(h, frames', labels, m.readers, m.readBy, false, x)
      ensures SlotAt(h, frames', labels, m.writers, m.writtenBy, true, x)
    {
      assert SlotAt(h, frames, labels, m.readers, m.readBy, false, x);
      assert SlotAt(h, frames, labels, m.writers, m.writtenBy, true, x);
    }
  }

  function WithSlot(m: Memory, write: bool, x: nat, n: Node, u: nat): Memory {
    if write then m.(writers := m.writers[x := n], writtenBy := m.writtenBy[x := u])
    else m.(readers := m.readers[x := n], readBy := m.readBy[x := u])
  }

  lemma SlotsRecord(h: Heap, h': Heap, frames: seq<FrameData>, labels: seq<SpBags.Bag>,
                    held: map<nat, Node>, strands: map<nat, nat>, write: bool,
                    slot: Holder, n: Node, u: nat)
    requires SlotsOk(h, frames, labels, held, strands, write)
    requires slot.AccessAt? && Valid(h', {}) && SameBags(h, h')
    requires slot in h'.refs && h'.refs[slot] == n && SlotOk(h', frames, labels, n, u)
    requires forall k: Holder :: k.AccessAt? && k != slot ==>
      (k in h'.refs <==> k in h.refs) && (k in h'.refs ==> h'.refs[k] == h.refs[k])
    ensures slot.write == write ==> SlotsOk(h', frames, labels, held[slot.loc := n], strands[slot.loc := u], write)
    ensures slot.write != write ==> SlotsOk(h', frames, labels, held, strands, write)
  {
    var held' := if slot.write == write then held[slot.loc := n] else held;
    var strands' := if slot.write == write then strands[slot.loc := u] else strands;
    forall x: nat
      ensures SlotAt(h', frames, labels, held', strands', write, x)
    {
      assert SlotAt(h, frames, labels, held, strands, write, x);
      if AccessAt(write, x) != slot && x in held {
        assert h'.refs[AccessAt(write, x)] == held[x] && held[x] in h'.nodes;
        assert NodeOk(h'.nodes, h'.root, held[x]);
        assert Resolve(h', held[x]) == Resolve(h', held[x]);
        assert ResolvesAlike(h, h', held[x]);
      }
    }
  }

  // A slot now remembers strand `u`, by a node that resolves to its bag.
  lemma RecordCouples(h: Heap, h': Heap, frames: seq<FrameData>, labels: seq<SpBags.Bag>, m: Memory,
                      write: bool, x: nat, n: Node, u: nat)
    requires Coupled(h, frames, labels, m)
    requires Valid(h', {}) && SameBags(h, h') && h'.bags == h.bags
    requires AccessAt(write, x) in h'.refs && h'.refs[AccessAt(write, x)] == n
    requires SlotOk(h', frames, labels, n, u)
    requires forall k: Holder :: k.AccessAt? && k != AccessAt(write, x) ==>
      (k in h'.refs <==> k in h.refs) && (k in h'.refs ==> h'.refs[k] == h.refs[k])
    ensures Coupled(h', frames, labels, WithSlot(m, write, x, n, u))
  {
    SlotsRecord(h, h', frames, labels, m.readers, m.readBy, false, AccessAt(write, x), n, u);
    SlotsRecord(h, h', frames, labels, m.writers, m.writtenBy, true, AccessAt(write, x), n, u);
    forall l
      ensures IdOk(h', frames, l)
    {
      assert IdOk(h, frames, l);
    }
  }
}
