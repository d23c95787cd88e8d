// The SP-bags algorithm as a state machine on bag labels.  Every strand of the
// run carries the bag it currently belongs to; merging two bags relabels the
// strands of one of them.  The main result, BagsDecideParallelism, is that the
// labels agree with reachability in the computation dag after every run.

module SpBags {
  import opened StrandDag

  // The bag of a strand: the S-bag of a frame on the stack, or the P-bag of
  // one of its sync regions.
  datatype Bag = InS(frame: nat) | InP(frame: nat, reg: nat)

  // `pbags[r]` says whether the P-bag of region `r` exists: it is created
  // lazily and deleted by a sync.  `entryPe` and `pe` are the two copies of
  // the parallel-execution flag that are pushed when the frame is entered.
  datatype Frame = Frame(spawned: bool, pbags: seq<bool>, entryPe: bool, pe: bool, inlined: nat)

  datatype State = State(bag: seq<Bag>, frames: seq<Frame>)

  const START := State([InS(0)], [Frame(false, [], false, false, 0)])

  function Top(s: State): Frame
    requires |s.frames| > 0
  {
    s.frames[|s.frames| - 1]
  }

  predicate LocallySynced(f: Frame) {
    forall r :: 0 <= r < |f.pbags| ==> !f.pbags[r]
  }

  function NoBags(regs: nat): seq<bool> {
    seq(regs, _ => false)
  }

  function Relabel(bag: seq<Bag>, f: Bag -> Bag): (moved: seq<Bag>)
    ensures |moved| == |bag|
    ensures forall u :: 0 <= u < |bag| ==> moved[u] == f(bag[u])
  {
    seq(|bag|, u requires 0 <= u < |bag| => f(bag[u]))
  }

  // A called child returns: its S-bag is merged into its caller's S-bag.
  function ReturnFromCall(k: nat): Bag -> Bag
    requires k > 0
  {
    (b: Bag) => if b == InS(k) then InS(k - 1) else b
  }

  // A spawned child returns: all its bags go to one P-bag of its spawner.
  function ReturnFromSpawn(k: nat, reg: nat): Bag -> Bag
    requires k > 0
  {
    (b: Bag) => if b.frame == k then InP(k - 1, reg) else b
  }

  // A sync merges the region's P-bag into the frame's S-bag.
  function SyncRegion(k: nat, reg: nat): Bag -> Bag {
    (b: Bag) => if b == InP(k, reg) then InS(k) else b
  }

  predicate Enabled(s: State, e: Event) {
    && |s.frames| > 0
    && match e
       case FuncEntry(_, _) => true
       case FuncExit =>
         Top(s).inlined > 0 || (|s.frames| > 1 && !Top(s).spawned && LocallySynced(Top(s)))
       case Spawn(_) => Top(s).inlined == 0
       case TaskExit(reg) =>
         && |s.frames| > 1
         && Top(s).spawned
         && Top(s).inlined == 0
         && reg < |s.frames[|s.frames| - 2].pbags|
       case Sync(reg) => Top(s).inlined == 0 && reg < |Top(s).pbags|
  }

  // A called function starts with a fresh S-bag and inherits the caller's flag.
  function Call(s: State, regs: nat): State
    requires |s.frames| > 0
  {
    State(s.bag + [InS(|s.frames|)], s.frames + [Frame(false, NoBags(regs), Top(s).pe, Top(s).pe, 0)])
  }

  // A detach raises the spawner's flag before the task inherits it.
  function Detach(s: State, regs: nat): State
    requires |s.frames| > 0
  {
    var k := |s.frames| - 1;
    State(s.bag + [InS(k + 1)],
          s.frames[..k] + [Top(s).(pe := true), Frame(true, NoBags(regs), true, true, 0)])
  }

  function Return(s: State): State
    requires |s.frames| > 1
  {
    var k := |s.frames| - 1;
    State(Relabel(s.bag, ReturnFromCall(k)) + [InS(k - 1)], s.frames[..k])
  }

  function EndTask(s: State, reg: nat): State
    requires |s.frames| > 1 && reg < |s.frames[|s.frames| - 2].pbags|
  {
    var k := |s.frames| - 1;
    var parent := s.frames[k - 1];
    State(Relabel(s.bag, ReturnFromSpawn(k, reg)) + [InS(k - 1)],
          s.frames[..k - 1] + [parent.(pbags := parent.pbags[reg := true])])
  }

  // A sync restores the flag of the frame's entry once no P-bag is left.
  function Join(s: State, reg: nat): State
    requires |s.frames| > 0 && reg < |Top(s).pbags|
  {
    var k := |s.frames| - 1;
    var synced := Top(s).(pbags := Top(s).pbags[reg := false]);
    State(Relabel(s.bag, SyncRegion(k, reg)) + [InS(k)],
          s.frames[..k] + [if LocallySynced(synced) then synced.(pe := synced.entryPe) else synced])
  }

  function Inline(s: State, count: nat): State
    requires |s.frames| > 0
  {
    s.(frames := s.frames[..|s.frames| - 1] + [Top(s).(inlined := count)])
  }

  function Step(s: State, e: Event): State
    requires Enabled(s, e)
  {
    match e
    case FuncEntry(maySpawn, regs) =>
      if !maySpawn && LocallySynced(Top(s)) then Inline(s, Top(s).inlined + 1) else Call(s, regs)
    case FuncExit =>
      if Top(s).inlined > 0 then Inline(s, Top(s).inlined - 1) else Return(s)
    case Spawn(regs) => Detach(s, regs)
    case TaskExit(reg) => EndTask(s, reg)
    case Sync(reg) => Join(s, reg)
  }

  // ---------------------------------------------------------------- the dag

  // `past[v]` is the set of strands that reach strand `v`.
  type History = seq<set<nat>>

  predicate InSeriesUpTo(b: Bag, i: nat) {
    b.InS? && b.frame <= i
  }

  ghost predicate SameShape(n: nat, frames: seq<DFrame>, s: State) {
    && |s.bag| == n
    && |s.frames| == |frames| > 0
    && (forall i :: 0 <= i < |frames| ==>
          && s.frames[i].spawned == frames[i].spawned
          && s.frames[i].inlined == frames[i].inlined
          && |s.frames[i].pbags| == |frames[i].leaves|
          && frames[i].strand < n)
    && (forall i, r :: 0 <= i < |frames| && 0 <= r < |frames[i].leaves| ==>
          (s.frames[i].pbags[r] <==> frames[i].leaves[r] != {}))
    && (forall i, r, l :: 0 <= i < |frames| && 0 <= r < |frames[i].leaves| && l in frames[i].leaves[r] ==> l < n)
    && (forall u :: 0 <= u < n ==>
          && s.bag[u].frame < |frames|
          && (s.bag[u].InP? ==> s.bag[u].reg < |frames[s.bag[u].frame].leaves|))
  }

  // The strands that reach the strand of frame `i` are exactly those in the
  // S-bags of the frames up to `i`.
  ghost predicate SeriesAgrees(past: History, frames: seq<DFrame>, s: State)
    requires SameShape(|past|, frames, s)
  {
    forall i, u: nat :: 0 <= i < |frames| && u < |past| ==>
      (u in past[frames[i].strand] <==> InSeriesUpTo(s.bag[u], i))
  }

  // What reaches a final strand of an unsynced task precedes the spawn or is
  // in the P-bag of the task's region ...
  ghost predicate LeavesCovered(past: History, frames: seq<DFrame>, s: State)
    requires SameShape(|past|, frames, s)
  {
    forall i, r, l, u: nat ::
      0 <= i < |frames| && 0 <= r < |frames[i].leaves| && l in frames[i].leaves[r]
      && u < |past| && u in past[l] ==>
        InSeriesUpTo(s.bag[u], i) || s.bag[u] == InP(i, r)
  }

  // ... and everything in a P-bag reaches one of those final strands.
  ghost predicate PBagReachesLeaf(past: History, frames: seq<DFrame>, s: State)
    requires SameShape(|past|, frames, s)
  {
    forall u: nat :: u < |past| && s.bag[u].InP? ==>
      exists l :: l in frames[s.bag[u].frame].leaves[s.bag[u].reg] && u in past[l]
  }

  ghost predicate OnlyEarlier(past: History) {
    forall v, u :: 0 <= v < |past| && u in past[v] ==> u < |past|
  }

  ghost predicate Agrees(past: History, frames: seq<DFrame>, s: State) {
    && OnlyEarlier(past)
    && SameShape(|past|, frames, s)
    && SeriesAgrees(past, frames, s)
    && LeavesCovered(past, frames, s)
    && PBagReachesLeaf(past, frames, s)
  }

  lemma SyncedIffNoLeaves(n: nat, frames: seq<DFrame>, s: State)
    requires SameShape(n, frames, s)
    ensures forall i :: 0 <= i < |frames| ==> (LocallySynced(s.frames[i]) <==> NoLeaves(frames[i]))
  {
  }

  // The history of a step that starts a strand whose predecessors are `from`.
  function NextPast(past: History, from: set<nat>): (next: set<nat>)
    requires forall w :: w in from ==> w < |past|
    ensures forall u :: u in next <==> u == |past| || exists w :: w in from && u in past[w]
  {
    {|past|} + set w, u | w in from && u in past[w] :: u
  }

  // A frame is opened by a call or a spawn: a new strand in a new S-bag.
  ghost predicate Opens(past: History, frames: seq<DFrame>, s: State, f: DFrame, s': State) {
    && Agrees(past, frames, s)
    && f.strand == |past| && f.inlined == 0 && (forall r :: 0 <= r < |f.leaves| ==> f.leaves[r] == {})
    && s'.bag == s.bag + [InS(|frames|)]
    && SameShape(|past| + 1, frames + [f], s')
  }

  lemma OpenSeries(past: History, frames: seq<DFrame>, s: State, f: DFrame, s': State)
    requires Opens(past, frames, s, f, s')
    ensures SeriesAgrees(past + [NextPast(past, {frames[|frames| - 1].strand})], frames + [f], s')
  {
    var n, k := |past|, |frames| - 1;
    var past' := past + [NextPast(past, {frames[k].strand})];
    var frames' := frames + [f];
    forall i, u: nat | 0 <= i < k + 2 && u < n + 1
      ensures u in past'[frames'[i].strand] <==> InSeriesUpTo(s'.bag[u], i)
    {
      if i <= k && u < n {
        assert u in past[frames[i].strand] <==> InSeriesUpTo(s.bag[u], i);
      } else if u < n {
        assert u in past[frames[k].strand] <==> InSeriesUpTo(s.bag[u], k);
      }
    }
  }

  lemma OpenPBags(past: History, frames: seq<DFrame>, s: State, f: DFrame, s': State)
    requires Opens(past, frames, s, f, s')
    ensures PBagReachesLeaf(past + [NextPast(past, {frames[|frames| - 1].strand})], frames + [f], s')
  {
    var past' := past + [NextPast(past, {frames[|frames| - 1].strand})];
    var frames' := frames + [f];
    forall u: nat | u < |past'| && s'.bag[u].InP?
      ensures exists l :: l in frames'[s'.bag[u].frame].leaves[s'.bag[u].reg] && u in past'[l]
    {
      var l :| l in frames[s.bag[u].frame].leaves[s.bag[u].reg] && u in past[l];
      assert u in past'[l];
    }
  }

  lemma OpenAgrees(past: History, frames: seq<DFrame>, s: State, f: DFrame, s': State)
    requires Opens(past, frames, s, f, s')
    ensures Agrees(past + [NextPast(past, {frames[|frames| - 1].strand})], frames + [f], s')
  {
    OpenSeries(past, frames, s, f, s');
    OpenPBags(past, frames, s, f, s');
    assert LeavesCovered(past + [NextPast(past, {frames[|frames| - 1].strand})], frames + [f], s');
  }

  // A called frame without leaves returns.
  ghost predicate CallReturns(past: History, frames: seq<DFrame>, s: State, s': State) {
    && Agrees(past, frames, s)
    && |frames| > 1 && NoLeaves(frames[|frames| - 1])
    && s'.bag == Relabel(s.bag, ReturnFromCall(|frames| - 1)) + [InS(|frames| - 2)]
    && SameShape(|past| + 1, frames[..|frames| - 2] + [frames[|frames| - 2].(strand := |past|)], s')
  }

  lemma ReturnSeries(past: History, frames: seq<DFrame>, s: State, s': State)
    requires CallReturns(past, frames, s, s')
    ensures SeriesAgrees(past + [NextPast(past, {frames[|frames| - 1].strand})],
                         frames[..|frames| - 2] + [frames[|frames| - 2].(strand := |past|)], s')
  {
    var n, k := |past|, |frames| - 1;
    var past' := past + [NextPast(past, {frames[k].strand})];
    var frames' := frames[..k - 1] + [frames[k - 1].(strand := n)];
    forall i, u: nat | 0 <= i < k && u < n + 1
      ensures u in past'[frames'[i].strand] <==> InSeriesUpTo(s'.bag[u], i)
    {
      if i < k - 1 && u < n {
        assert u in past[frames[i].strand] <==> InSeriesUpTo(s.bag[u], i);
      } else if u < n {
        assert u in past[frames[k].strand] <==> InSeriesUpTo(s.bag[u], k);
      }
    }
  }

  lemma ReturnCovered(past: History, frames: seq<DFrame>, s: State, s': State)
    requires CallReturns(past, frames, s, s')
    ensures LeavesCovered(past + [NextPast(past, {frames[|frames| - 1].strand})],
                          frames[..|frames| - 2] + [frames[|frames| - 2].(strand := |past|)], s')
  {
  }

  lemma ReturnPBags(past: History, frames: seq<DFrame>, s: State, s': State)
    requires CallReturns(past, frames, s, s')
    ensures PBagReachesLeaf(past + [NextPast(past, {frames[|frames| - 1].strand})],
                            frames[..|frames| - 2] + [frames[|frames| - 2].(strand := |past|)], s')
  {
    var n, k := |past|, |frames| - 1;
    var past' := past + [NextPast(past, {frames[k].strand})];
    var frames' := frames[..k - 1] + [frames[k - 1].(strand := n)];
    forall u: nat | u < n + 1 && s'.bag[u].InP?
      ensures exists l :: l in frames'[s'.bag[u].frame].leaves[s'.bag[u].reg] && u in past'[l]
    {
      var l :| l in frames[s.bag[u].frame].leaves[s.bag[u].reg] && u in past[l];
      assert u in past'[l];
    }
  }

  lemma ReturnAgrees(past: History, frames: seq<DFrame>, s: State, s': State)
    requires CallReturns(past, frames, s, s')
    ensures Agrees(past + [NextPast(past, {frames[|frames| - 1].strand})],
                   frames[..|frames| - 2] + [frames[|frames| - 2].(strand := |past|)], s')
  {
    ReturnSeries(past, frames, s, s');
    ReturnCovered(past, frames, s, s');
    ReturnPBags(past, frames, s, s');
  }

  // What a returning task adds to its spawner's region.
  ghost predicate TaskEnds(past: History, frames: seq<DFrame>, s: State, reg: nat, parent: DFrame, s': State) {
    && Agrees(past, frames, s)
    && |frames| > 1
    && reg < |frames[|frames| - 2].leaves|
    && parent.strand == |past|
    && parent.leaves ==
         frames[|frames| - 2].leaves[reg := frames[|frames| - 2].leaves[reg]
           + ({frames[|frames| - 1].strand} + AllLeaves(frames[|frames| - 1].leaves))]
    && s'.bag == Relabel(s.bag, ReturnFromSpawn(|frames| - 1, reg)) + [InS(|frames| - 2)]
    && SameShape(|past| + 1, frames[..|frames| - 2] + [parent], s')
  }

  lemma EndTaskSeries(past: History, frames: seq<DFrame>, s: State, reg: nat, parent: DFrame, s': State)
    requires TaskEnds(past, frames, s, reg, parent, s')
    ensures SeriesAgrees(past + [NextPast(past, {frames[|frames| - 2].strand})],
                         frames[..|frames| - 2] + [parent], s')
  {
    var n, k := |past|, |frames| - 1;
    var past' := past + [NextPast(past, {frames[k - 1].strand})];
    var frames' := frames[..k - 1] + [parent];
    forall i, u: nat | 0 <= i < k && u < n + 1
      ensures u in past'[frames'[i].strand] <==> InSeriesUpTo(s'.bag[u], i)
    {
      if u < n {
        assert u in past[frames[i].strand] <==> InSeriesUpTo(s.bag[u], i);
      }
    }
  }

  lemma EndTaskCovered(past: History, frames: seq<DFrame>, s: State, reg: nat, parent: DFrame, s': State)
    requires TaskEnds(past, frames, s, reg, parent, s')
    ensures LeavesCovered(past + [NextPast(past, {frames[|frames| - 2].strand})],
                          frames[..|frames| - 2] + [parent], s')
  {
    var n, k := |past|, |frames| - 1;
    var past' := past + [NextPast(past, {frames[k - 1].strand})];
    var frames' := frames[..k - 1] + [parent];
    forall i, r, l, u: nat | 0 <= i < k && 0 <= r < |frames'[i].leaves| && l in frames'[i].leaves[r]
                             && u < n + 1 && u in past'[l]
      ensures InSeriesUpTo(s'.bag[u], i) || s'.bag[u] == InP(i, r)
    {
      if i < k - 1 || l in frames[k - 1].leaves[r] {
        assert l in frames[i].leaves[r] && u in past[l];
      } else if l == frames[k].strand {
        assert u in past[l] <==> InSeriesUpTo(s.bag[u], k);
      } else {
        var q :| 0 <= q < |frames[k].leaves| && l in frames[k].leaves[q];
        assert u in past[l];
      }
    }
  }

  lemma EndTaskPBags(past: History, frames: seq<DFrame>, s: State, reg: nat, parent: DFrame, s': State)
    requires TaskEnds(past, frames, s, reg, parent, s')
    ensures PBagReachesLeaf(past + [NextPast(past, {frames[|frames| - 2].strand})],
                            frames[..|frames| - 2] + [parent], s')
  {
    var n, k := |past|, |frames| - 1;
    var past' := past + [NextPast(past, {frames[k - 1].strand})];
    var frames' := frames[..k - 1] + [parent];
    forall u: nat | u < n + 1 && s'.bag[u].InP?
      ensures exists l :: l in frames'[s'.bag[u].frame].leaves[s'.bag[u].reg] && u in past'[l]
    {
      if s.bag[u] == InS(k) {
        assert u in past[frames[k].strand] <==> InSeriesUpTo(s.bag[u], k);
        assert frames[k].strand in parent.leaves[reg] && u in past'[frames[k].strand];
      } else {
        var l :| l in frames[s.bag[u].frame].leaves[s.bag[u].reg] && u in past[l];
        assert l in frames'[s'.bag[u].frame].leaves[s'.bag[u].reg] && u in past'[l];
      }
    }
  }

  lemma EndTaskAgrees(past: History, frames: seq<DFrame>, s: State, reg: nat, parent: DFrame, s': State)
    requires TaskEnds(past, frames, s, reg, parent, s')
    ensures Agrees(past + [NextPast(past, {frames[|frames| - 2].strand})], frames[..|frames| - 2] + [parent], s')
  {
    EndTaskSeries(past, frames, s, reg, parent, s');
    EndTaskCovered(past, frames, s, reg, parent, s');
    EndTaskPBags(past, frames, s, reg, parent, s');
  }

  // A region of the frame on top is synced.
  ghost predicate RegionJoins(past: History, frames: seq<DFrame>, s: State, reg: nat, top: DFrame, s': State) {
    && Agrees(past, frames, s)
    && |frames| > 0 && reg < |frames[|frames| - 1].leaves|
    && top.strand == |past| && top.leaves == frames[|frames| - 1].leaves[reg := {}]
    && s'.bag == Relabel(s.bag, SyncRegion(|frames| - 1, reg)) + [InS(|frames| - 1)]
    && SameShape(|past| + 1, frames[..|frames| - 1] + [top], s')
  }

  lemma JoinSeries(past: History, frames: seq<DFrame>, s: State, reg: nat, top: DFrame, s': State)
    requires RegionJoins(past, frames, s, reg, top, s')
    ensures var from := {frames[|frames| - 1].strand} + frames[|frames| - 1].leaves[reg];
      SeriesAgrees(past + [NextPast(past, from)], frames[..|frames| - 1] + [top], s')
  {
    var n, k := |past|, |frames| - 1;
    var from := {frames[k].strand} + frames[k].leaves[reg];
    var past' := past + [NextPast(past, from)];
    var frames' := frames[..k] + [top];
    forall i, u: nat | 0 <= i <= k && u < n + 1
      ensures u in past'[frames'[i].strand] <==> InSeriesUpTo(s'.bag[u], i)
    {
      if u < n {
        assert u in past[frames[i].strand] <==> InSeriesUpTo(s.bag[u], i);
        if i == k && s.bag[u] == InP(k, reg) {
          var l :| l in frames[k].leaves[reg] && u in past[l];
          assert l in from;
        }
      }
    }
  }

  lemma JoinCovered(past: History, frames: seq<DFrame>, s: State, reg: nat, top: DFrame, s': State)
    requires RegionJoins(past, frames, s, reg, top, s')
    ensures var from := {frames[|frames| - 1].strand} + frames[|frames| - 1].leaves[reg];
      LeavesCovered(past + [NextPast(past, from)], frames[..|frames| - 1] + [top], s')
  {
    var n, k := |past|, |frames| - 1;
    var past' := past + [NextPast(past, {frames[k].strand} + frames[k].leaves[reg])];
    var frames' := frames[..k] + [top];
    forall i, r, l, u: nat | 0 <= i <= k && 0 <= r < |frames'[i].leaves| && l in frames'[i].leaves[r]
                             && u < n + 1 && u in past'[l]
      ensures InSeriesUpTo(s'.bag[u], i) || s'.bag[u] == InP(i, r)
    {
      assert l in frames[i].leaves[r] && u in past[l];
    }
  }

  lemma JoinPBags(past: History, frames: seq<DFrame>, s: State, reg: nat, top: DFrame, s': State)
    requires RegionJoins(past, frames, s, reg, top, s')
    ensures var from := {frames[|frames| - 1].strand} + frames[|frames| - 1].leaves[reg];
      PBagReachesLeaf(past + [NextPast(past, from)], frames[..|frames| - 1] + [top], s')
  {
    var n, k := |past|, |frames| - 1;
    var past' := past + [NextPast(past, {frames[k].strand} + frames[k].leaves[reg])];
    var frames' := frames[..k] + [top];
    forall u: nat | u < n + 1 && s'.bag[u].InP?
      ensures exists l :: l in frames'[s'.bag[u].frame].leaves[s'.bag[u].reg] && u in past'[l]
    {
      var l :| l in frames[s.bag[u].frame].leaves[s.bag[u].reg] && u in past[l];
      assert l in frames'[s'.bag[u].frame].leaves[s'.bag[u].reg] && u in past'[l];
    }
  }

  lemma JoinAgrees(past: History, frames: seq<DFrame>, s: State, reg: nat, top: DFrame, s': State)
    requires RegionJoins(past, frames, s, reg, top, s')
    ensures var from := {frames[|frames| - 1].strand} + frames[|frames| - 1].leaves[reg];
      Agrees(past + [NextPast(past, from)], frames[..|frames| - 1] + [top], s')
  {
    JoinSeries(past, frames, s, reg, top, s');
    JoinCovered(past, frames, s, reg, top, s');
    JoinPBags(past, frames, s, reg, top, s');
  }

  // ------------------------------------------------------------- whole runs

  // The strands that reach each strand of the dag, computed strand by strand.
  ghost function Past(preds: seq<set<nat>>): (past: History)
    requires Topological(preds)
    ensures |past| == |preds|
  {
    if |preds| == 0 then []
    else
      var n := |preds| - 1;
      assert Topological(preds[..n]);
      Past(preds[..n]) + [NextPast(Past(preds[..n]), preds[n])]
  }

  lemma ReachesOnlyEarlier(preds: seq<set<nat>>)
    requires Topological(preds)
    ensures forall u: nat, v: nat :: v < |preds| && Reaches(preds, u, v) ==> u <= v
  {
    forall u: nat, v: nat | v < |preds| && Reaches(preds, u, v)
      ensures u <= v
    {
      ReachesIsForward(preds, u, v);
    }
  }

  lemma PastOfStep(preds: seq<set<nat>>, from: set<nat>)
    requires Topological(preds)
    requires forall w :: w in from ==> w < |preds|
    ensures Topological(preds + [from])
    ensures Past(preds + [from]) == Past(preds) + [NextPast(Past(preds), from)]
  {
    assert Topological(preds + [from]);
    assert (preds + [from])[..|preds|] == preds;
  }

  lemma {:induction false} PastIsReachability(preds: seq<set<nat>>)
    requires Topological(preds)
    ensures forall u: nat, v: nat :: v < |preds| ==> (u in Past(preds)[v] <==> Reaches(preds, u, v))
  {
    if |preds| > 0 {
      var n := |preds| - 1;
      var front := preds[..n];
      PastIsReachability(front);
      ReachesStableAll(front, preds);
      forall u: nat
        ensures u in Past(preds)[n] <==> Reaches(preds, u, n)
      {
        assert u in Past(preds)[n] <==> u == n || exists w :: w in preds[n] && u in Past(front)[w];
        assert forall w :: w in preds[n] ==> (u in Past(front)[w] <==> Reaches(preds, u, w));
      }
      assert forall v: nat :: v < n ==> Past(preds)[v] == Past(front)[v];
    }
  }

  // The machines agree and the frame on top runs the newest strand.
  ghost predicate Good(d: Dag, s: State) {
    && WellFormed(d)
    && StrandDag.Top(d).strand == |d.preds| - 1
    && Agrees(Past(d.preds), d.frames, s)
  }

  lemma CallShape(d: Dag, s: State, regs: nat)
    requires SameShape(|d.preds|, d.frames, s)
    ensures SameShape(|d.preds| + 1, StrandDag.Open(d, false, regs).frames, Call(s, regs))
  {
  }

  lemma DetachShape(d: Dag, s: State, regs: nat)
    requires SameShape(|d.preds|, d.frames, s)
    ensures SameShape(|d.preds| + 1, StrandDag.Open(d, true, regs).frames, Detach(s, regs))
  {
  }

  lemma ReturnShape(d: Dag, s: State)
    requires SameShape(|d.preds|, d.frames, s)
    requires |d.frames| > 1
    requires forall u :: 0 <= u < |s.bag| && s.bag[u].InP? ==> s.bag[u].frame < |d.frames| - 1
    ensures SameShape(|d.preds| + 1, StrandDag.Return(d).frames, Return(s))
  {
  }

  lemma EndTaskShape(d: Dag, s: State, reg: nat)
    requires SameShape(|d.preds|, d.frames, s)
    requires |d.frames| > 1 && reg < |d.frames[|d.frames| - 2].leaves|
    ensures SameShape(|d.preds| + 1, StrandDag.EndTask(d, reg).frames, EndTask(s, reg))
  {
    var k := |d.frames| - 1;
    assert d.frames[k].strand in StrandDag.EndTask(d, reg).frames[k - 1].leaves[reg];
  }

  lemma JoinShape(d: Dag, s: State, reg: nat)
    requires SameShape(|d.preds|, d.frames, s)
    requires |d.frames| > 0 && reg < |StrandDag.Top(d).leaves|
    ensures SameShape(|d.preds| + 1, StrandDag.Join(d, reg).frames, Join(s, reg))
  {
  }

  lemma SameStrandsAgree(past: History, frames: seq<DFrame>, frames': seq<DFrame>, s: State, s': State)
    requires Agrees(past, frames, s)
    requires SameShape(|past|, frames', s')
    requires s'.bag == s.bag && |frames'| == |frames|
    requires forall i :: 0 <= i < |frames| ==>
      frames'[i].strand == frames[i].strand && frames'[i].leaves == frames[i].leaves
    ensures Agrees(past, frames', s')
  {
  }

  lemma GoodAfter(d: Dag, s: State, past: History, frames: seq<DFrame>)
    requires WellFormed(d) && StrandDag.Top(d).strand == |d.preds| - 1
    requires past == Past(d.preds) && frames == d.frames && Agrees(past, frames, s)
    ensures Good(d, s)
  {
  }

  // A frame is opened: the same for calls and spawns.
  lemma OpenIsGood(d: Dag, s: State, spawned: bool, regs: nat, s': State)
    requires Good(d, s)
    requires s'.bag == s.bag + [InS(|d.frames|)]
    requires SameShape(|d.preds| + 1, StrandDag.Open(d, spawned, regs).frames, s')
    ensures Good(StrandDag.Open(d, spawned, regs), s')
  {
    var d' := StrandDag.Open(d, spawned, regs);
    var past, from, f := Past(d.preds), {StrandDag.Top(d).strand}, StrandDag.Top(d');
    OpenWellFormed(d, spawned, regs);
    PastOfStep(d.preds, from);
    OpenAgrees(past, d.frames, s, f, s');
    GoodAfter(d', s', past + [NextPast(past, from)], d.frames + [f]);
  }

  lemma CallIsGood(d: Dag, s: State, regs: nat)
    requires Good(d, s)
    ensures Good(StrandDag.Open(d, false, regs), Call(s, regs))
  {
    CallShape(d, s, regs);
    OpenIsGood(d, s, false, regs, Call(s, regs));
  }

  lemma DetachIsGood(d: Dag, s: State, regs: nat)
    requires Good(d, s)
    ensures Good(StrandDag.Open(d, true, regs), Detach(s, regs))
  {
    DetachShape(d, s, regs);
    OpenIsGood(d, s, true, regs, Detach(s, regs));
  }

  lemma ReturnIsCall(d: Dag, s: State, past: History)
    requires Good(d, s) && past == Past(d.preds)
    requires |d.frames| > 1 && NoLeaves(StrandDag.Top(d))
    ensures CallReturns(past, d.frames, s, Return(s))
  {
    assert PBagReachesLeaf(past, d.frames, s);
    ReturnShape(d, s);
  }

  lemma ReturnIsGood(d: Dag, s: State)
    requires Good(d, s)
    requires |d.frames| > 1 && NoLeaves(StrandDag.Top(d))
    ensures Good(StrandDag.Return(d), Return(s))
  {
    var d', k := StrandDag.Return(d), |d.frames| - 1;
    var past, from := Past(d.preds), {StrandDag.Top(d).strand};
    ReturnIsCall(d, s, past);
    PastOfStep(d.preds, from);
    ReturnAgrees(past, d.frames, s, Return(s));
    GoodAfter(d', Return(s), past + [NextPast(past, from)], d.frames[..k - 1] + [d.frames[k - 1].(strand := |past|)]);
  }

  lemma EndTaskEnds(d: Dag, s: State, reg: nat, past: History)
    requires Good(d, s) && past == Past(d.preds)
    requires |d.frames| > 1 && reg < |d.frames[|d.frames| - 2].leaves|
    ensures TaskEnds(past, d.frames, s, reg, StrandDag.Top(StrandDag.EndTask(d, reg)), EndTask(s, reg))
  {
    EndTaskShape(d, s, reg);
  }

  lemma EndTaskIsGood(d: Dag, s: State, reg: nat)
    requires Good(d, s)
    requires |d.frames| > 1 && reg < |d.frames[|d.frames| - 2].leaves|
    ensures Good(StrandDag.EndTask(d, reg), EndTask(s, reg))
  {
    var d', k := StrandDag.EndTask(d, reg), |d.frames| - 1;
    var past, from, parent := Past(d.preds), {d.frames[k - 1].strand}, StrandDag.Top(StrandDag.EndTask(d, reg));
    EndTaskEnds(d, s, reg, past);
    EndTaskAgrees(past, d.frames, s, reg, parent, EndTask(s, reg));
    PastOfStep(d.preds, from);
    GoodAfter(d', EndTask(s, reg), past + [NextPast(past, from)], d.frames[..k - 1] + [parent]);
  }

  lemma JoinIsGood(d: Dag, s: State, reg: nat)
    requires Good(d, s)
    requires reg < |StrandDag.Top(d).leaves|
    ensures Good(StrandDag.Join(d, reg), Join(s, reg))
  {
    var d', k := StrandDag.Join(d, reg), |d.frames| - 1;
    var past, from := Past(d.preds), {StrandDag.Top(d).strand} + StrandDag.Top(d).leaves[reg];
    JoinShape(d, s, reg);
    PastOfStep(d.preds, from);
    JoinAgrees(past, d.frames, s, reg, StrandDag.Top(d'), Join(s, reg));
    GoodAfter(d', Join(s, reg), past + [NextPast(past, from)], d.frames[..k] + [StrandDag.Top(d')]);
  }

  lemma InlineIsGood(d: Dag, s: State, count: nat)
    requires Good(d, s)
    ensures Good(StrandDag.Inline(d, count), Inline(s, count))
  {
    SameStrandsAgree(Past(d.preds), d.frames, StrandDag.Inline(d, count).frames, s, Inline(s, count));
  }

  lemma EnabledTogether(d: Dag, s: State, e: Event)
    requires SameShape(|d.preds|, d.frames, s)
    ensures Enabled(s, e) <==> StrandDag.Enabled(d, e)
    ensures StrandDag.RunsInline(d, false) <==> LocallySynced(Top(s))
  {
    SyncedIffNoLeaves(|d.preds|, d.frames, s);
  }

  lemma FuncEntryIsGood(d: Dag, s: State, e: Event, d': Dag, s': State)
    requires Good(d, s)
    requires e.FuncEntry? && d' == StrandDag.Step(d, e) && s' == Step(s, e)
    ensures Good(d', s')
  {
    EnabledTogether(d, s, e);
    if StrandDag.RunsInline(d, e.maySpawn) {
      InlineIsGood(d, s, Top(s).inlined + 1);
      assert d' == StrandDag.Inline(d, Top(s).inlined + 1);
      assert s' == Inline(s, Top(s).inlined + 1);
    } else {
      CallIsGood(d, s, e.regs);
      assert d' == StrandDag.Open(d, false, e.regs);
      assert s' == Call(s, e.regs);
    }
  }

  lemma InlinedExitIsGood(d: Dag, s: State, d': Dag, s': State)
    requires Good(d, s) && Enabled(s, FuncExit) && Top(s).inlined > 0 && StrandDag.Enabled(d, FuncExit)
    requires d' == StrandDag.Step(d, FuncExit) && s' == Step(s, FuncExit)
    ensures Good(d', s')
  {
    var count := Top(s).inlined - 1;
    InlineIsGood(d, s, count);
    InlinedAlike(d, s);
    assert d' == StrandDag.Inline(d, count) && s' == Inline(s, count);
  }

  lemma InlinedAlike(d: Dag, s: State)
    requires Good(d, s)
    ensures StrandDag.Top(d).inlined == Top(s).inlined
  {
  }

  lemma FrameExitIsGood(d: Dag, s: State)
    requires Good(d, s) && Enabled(s, FuncExit) && Top(s).inlined == 0
    ensures StrandDag.Enabled(d, FuncExit) && Good(StrandDag.Step(d, FuncExit), Step(s, FuncExit))
  {
    EnabledTogether(d, s, FuncExit);
    ReturnIsGood(d, s);
  }

  // Each step that the bags can make, the dag can make, and it keeps the two
  // in agreement.
  lemma StepIsGood(d: Dag, s: State, e: Event)
    requires Good(d, s) && Enabled(s, e)
    ensures StrandDag.Enabled(d, e)
    ensures Good(StrandDag.Step(d, e), Step(s, e))
  {
    EnabledTogether(d, s, e);
    match e
    case FuncEntry(_, _) => FuncEntryIsGood(d, s, e, StrandDag.Step(d, e), Step(s, e));
    case FuncExit =>
      if Top(s).inlined > 0 {
        InlinedExitIsGood(d, s, StrandDag.Step(d, e), Step(s, e));
      } else {
        FrameExitIsGood(d, s);
      }
    case Spawn(regs) => DetachIsGood(d, s, regs);
    case TaskExit(reg) => EndTaskIsGood(d, s, reg);
    case Sync(reg) => JoinIsGood(d, s, reg);
  }

  // The SP-bags theorem: a strand of the run is in a P-bag exactly when it is
  // logically parallel to the running strand, and in an S-bag exactly when it
  // precedes it or is it.
  lemma BagsDecideParallelism(d: Dag, s: State, u: nat)
    requires Good(d, s)
    requires u < |d.preds|
    ensures s.bag[u].InP? <==> Parallel(d.preds, u, |d.preds| - 1)
    ensures s.bag[u].InS? <==> Reaches(d.preds, u, |d.preds| - 1)
  {
    var k := |d.frames| - 1;
    PastIsReachability(d.preds);
    assert u in Past(d.preds)[d.frames[k].strand] <==> InSeriesUpTo(s.bag[u], k);
    ReachesOnlyEarlier(d.preds);
  }

  // ------------------------------------------------- the parallel-execution flag

  // No frame above `i`, up to `j`, is a task.
  ghost predicate NoSpawnBetween(frames: seq<Frame>, i: nat, j: nat)
    requires j < |frames|
  {
    forall m :: i < m <= j ==> !frames[m].spawned
  }

  ghost predicate FlagInvariant(s: State) {
    && |s.frames| > 0
    && !s.frames[0].entryPe
    && (forall i :: 0 <= i < |s.frames| && s.frames[i].entryPe ==> s.frames[i].pe)
    && (forall i :: 0 < i < |s.frames| ==> s.frames[i].entryPe == s.frames[i - 1].pe)
    && (forall i :: 0 <= i < |s.frames| && s.frames[i].spawned ==> s.frames[i].entryPe)
    && (forall i :: 0 <= i < |s.frames| && !s.frames[i].pe ==> LocallySynced(s.frames[i]))
  }

  lemma FlagInvariantInitially()
    ensures FlagInvariant(START)
  {
  }

  lemma OpeningKeepsFlagInvariant(s: State, regs: nat)
    requires FlagInvariant(s)
    ensures FlagInvariant(Call(s, regs)) && FlagInvariant(Detach(s, regs))
  {
  }

  lemma ClosingKeepsFlagInvariant(s: State, reg: nat)
    requires FlagInvariant(s) && |s.frames| > 1
    ensures FlagInvariant(Return(s))
    ensures Top(s).spawned && reg < |s.frames[|s.frames| - 2].pbags| ==> FlagInvariant(EndTask(s, reg))
  {
  }

  lemma JoinKeepsFlagInvariant(s: State, reg: nat)
    requires FlagInvariant(s) && reg < |Top(s).pbags|
    ensures FlagInvariant(Join(s, reg))
  {
  }

  lemma InlineKeepsFlagInvariant(s: State, count: nat)
    requires FlagInvariant(s)
    ensures FlagInvariant(Inline(s, count))
  {
  }

  lemma StepKeepsFlagInvariant(s: State, e: Event)
    requires FlagInvariant(s) && Enabled(s, e)
    ensures FlagInvariant(Step(s, e))
  {
    match e
    case FuncEntry(_, regs) =>
      OpeningKeepsFlagInvariant(s, regs);
      InlineKeepsFlagInvariant(s, Top(s).inlined + 1);
    case FuncExit =>
      if Top(s).inlined > 0 {
        InlineKeepsFlagInvariant(s, Top(s).inlined - 1);
      } else {
        ClosingKeepsFlagInvariant(s, 0);
      }
    case Spawn(regs) => OpeningKeepsFlagInvariant(s, regs);
    case TaskExit(reg) => ClosingKeepsFlagInvariant(s, reg);
    case Sync(reg) => JoinKeepsFlagInvariant(s, reg);
  }

  // While the flag is down, no frame on the stack holds a P-bag and no frame
  // is a task.
  lemma {:induction false} FlagDownEverywhere(s: State, i: nat)
    requires FlagInvariant(s) && !Top(s).pe
    requires i < |s.frames|
    ensures !s.frames[i].pe && !s.frames[i].spawned && LocallySynced(s.frames[i])
    decreases |s.frames| - i
  {
    if i + 1 < |s.frames| {
      FlagDownEverywhere(s, i + 1);
      assert s.frames[i + 1].entryPe == s.frames[i].pe;
    }
  }

  // Exactly when the flag of a frame is up: it was up on entry, a P-bag of the
  // frame exists, or one of its tasks is running above it.
  predicate FlagExactAt(frames: seq<Frame>, i: int) {
    0 <= i < |frames| ==>
      && frames[i].entryPe == (i > 0 && frames[i - 1].pe)
      && frames[i].pe == (frames[i].entryPe || !LocallySynced(frames[i]) || TaskAbove(frames, i))
      && (i == 0 ==> !frames[i].spawned)
  }

  predicate TaskAbove(frames: seq<Frame>, i: int) {
    0 <= i < |frames| - 1 && frames[i + 1].spawned
  }

  ghost predicate FlagsExact(frames: seq<Frame>) {
    |frames| > 0 && forall i {:trigger FlagExactAt(frames, i)} :: FlagExactAt(frames, i)
  }

  // A task is open, or a P-bag waits for a sync.
  ghost predicate Outstanding(frames: seq<Frame>) {
    exists i :: 0 <= i < |frames| && (frames[i].spawned || !LocallySynced(frames[i]))
  }

  lemma OpeningKeepsFlagsExact(s: State, regs: nat)
    requires FlagsExact(s.frames)
    ensures FlagsExact(Call(s, regs).frames) && FlagsExact(Detach(s, regs).frames)
  {
    var k, called, detached := |s.frames| - 1, Call(s, regs).frames, Detach(s, regs).frames;
    forall i
      ensures FlagExactAt(called, i) && FlagExactAt(detached, i)
    {
      assert FlagExactAt(s.frames, i) && FlagExactAt(s.frames, k);
    }
  }

  lemma ReturningKeepsFlagsExact(s: State)
    requires FlagsExact(s.frames) && |s.frames| > 1 && !Top(s).spawned
    ensures FlagsExact(Return(s).frames)
  {
    var frames := Return(s).frames;
    forall i
      ensures FlagExactAt(frames, i)
    {
      assert FlagExactAt(s.frames, i);
    }
  }

  lemma EndingKeepsFlagsExact(s: State, reg: nat)
    requires FlagsExact(s.frames) && |s.frames| > 1 && Top(s).spawned && reg < |s.frames[|s.frames| - 2].pbags|
    ensures FlagsExact(EndTask(s, reg).frames)
  {
    var frames := EndTask(s, reg).frames;
    assert frames[|frames| - 1].pbags[reg];
    forall i
      ensures FlagExactAt(frames, i)
    {
      assert FlagExactAt(s.frames, i);
    }
  }

  lemma JoiningKeepsFlagsExact(s: State, reg: nat)
    requires FlagsExact(s.frames) && reg < |Top(s).pbags|
    ensures FlagsExact(Join(s, reg).frames)
  {
    var frames := Join(s, reg).frames;
    forall i
      ensures FlagExactAt(frames, i)
    {
      assert FlagExactAt(s.frames, i);
    }
  }

  lemma InliningKeepsFlagsExact(s: State, count: nat)
    requires FlagsExact(s.frames)
    ensures FlagsExact(Inline(s, count).frames)
  {
    var frames := Inline(s, count).frames;
    forall i
      ensures FlagExactAt(frames, i)
    {
      assert FlagExactAt(s.frames, i);
    }
  }

  lemma StepKeepsFlagsExact(s: State, e: Event)
    requires FlagsExact(s.frames) && Enabled(s, e)
    ensures FlagsExact(Step(s, e).frames)
  {
    match e
    case FuncEntry(_, regs) =>
      OpeningKeepsFlagsExact(s, regs);
      InliningKeepsFlagsExact(s, Top(s).inlined + 1);
    case FuncExit =>
      if Top(s).inlined > 0 {
        InliningKeepsFlagsExact(s, Top(s).inlined - 1);
      } else {
        ReturningKeepsFlagsExact(s);
      }
    case Spawn(regs) => OpeningKeepsFlagsExact(s, regs);
    case TaskExit(reg) => EndingKeepsFlagsExact(s, reg);
    case Sync(reg) => JoiningKeepsFlagsExact(s, reg);
  }

  // The P-bag that a task leaves is outstanding.
  lemma EndedIsOutstanding(s: State, reg: nat)
    requires |s.frames| > 1 && reg < |s.frames[|s.frames| - 2].pbags|
    ensures Outstanding(EndTask(s, reg).frames)
  {
    var frames := EndTask(s, reg).frames;
    assert frames[|frames| - 1].pbags[reg];
  }

  // A raised flag has a reason in its frame or in one below.
  lemma {:induction false} RaisedForAReason(frames: seq<Frame>, i: nat)
    requires FlagsExact(frames) && i < |frames| && frames[i].pe && !TaskAbove(frames, i)
    ensures exists j :: 0 <= j <= i && (frames[j].spawned || !LocallySynced(frames[j]))
  {
    assert FlagExactAt(frames, i);
    if LocallySynced(frames[i]) && !frames[i].spawned {
      RaisedForAReason(frames, i - 1);
    }
  }

  // A reason below keeps the flags up.
  lemma {:induction false} StaysRaised(frames: seq<Frame>, j: nat, i: nat)
    requires FlagsExact(frames) && j <= i < |frames| && (frames[j].spawned || !LocallySynced(frames[j]))
    ensures frames[i].pe
  {
    assert FlagExactAt(frames, i);
    if j < i {
      StaysRaised(frames, j, i - 1);
    } else if frames[j].spawned {
      assert FlagExactAt(frames, j - 1);
    }
  }

  // The flag on top is up exactly while a task is open or waits for a sync.
  lemma FlagTellsOutstanding(frames: seq<Frame>)
    requires FlagsExact(frames)
    ensures frames[|frames| - 1].pe <==> Outstanding(frames)
  {
    var k := |frames| - 1;
    if frames[k].pe {
      RaisedForAReason(frames, k);
    }
    if j: nat :| j < |frames| && (frames[j].spawned || !LocallySynced(frames[j])) {
      StaysRaised(frames, j, k);
    }
  }

  // A strand is settled when every frame below its S-bag is a call: its bag
  // can never become a P-bag again.
  ghost predicate Settled(s: State, u: nat) {
    && u < |s.bag|
    && s.bag[u].InS?
    && s.bag[u].frame < |s.frames|
    && NoSpawnBetween(s.frames, 0, s.bag[u].frame)
  }

  lemma StepKeepsSettled(s: State, e: Event, u: nat)
    requires Enabled(s, e) && Settled(s, u)
    ensures Settled(Step(s, e), u)
  {
  }

  // A strand that runs while the flag is down is settled, and so is every
  // strand before it.
  lemma FlagDownSettles(d: Dag, s: State, u: nat)
    requires Good(d, s) && FlagInvariant(s) && !Top(s).pe
    requires u < |s.bag|
    ensures Settled(s, u)
  {
    forall i | 0 <= i < |s.frames|
      ensures !s.frames[i].spawned && LocallySynced(s.frames[i])
    {
      FlagDownEverywhere(s, i);
    }
    SyncedIffNoLeaves(|d.preds|, d.frames, s);
    assert PBagReachesLeaf(Past(d.preds), d.frames, s);
  }

  // ------------------------------------------------------------- whole runs

  // A run of both machines from the start: `dags[i]` and `states[i]` are
  // reached after the first `i` events.
  ghost predicate IsRun(dags: seq<Dag>, states: seq<State>, es: seq<Event>) {
    && |dags| == |states| == |es| + 1
    && dags[0] == INITIAL
    && states[0] == START
    && forall i :: 0 <= i < |es| ==> StepsTo(dags[i], states[i], es[i], dags[i + 1], states[i + 1])
  }

  ghost predicate StepsTo(d: Dag, s: State, e: Event, d': Dag, s': State) {
    StrandDag.Enabled(d, e) && Enabled(s, e) && d' == StrandDag.Step(d, e) && s' == Step(s, e)
  }

  lemma InitiallyGood()
    ensures Good(INITIAL, START)
  {
    assert Past(INITIAL.preds)[0] == {0};
  }

  lemma {:induction false} RunsAreGood(dags: seq<Dag>, states: seq<State>, es: seq<Event>, i: nat)
    requires IsRun(dags, states, es) && i <= |es|
    ensures Good(dags[i], states[i]) && FlagInvariant(states[i])
  {
    if i == 0 {
      InitiallyGood();
      FlagInvariantInitially();
    } else {
      RunsAreGood(dags, states, es, i - 1);
      assert StepsTo(dags[i - 1], states[i - 1], es[i - 1], dags[i], states[i]);
      StepIsGood(dags[i - 1], states[i - 1], es[i - 1]);
      StepKeepsFlagInvariant(states[i - 1], es[i - 1]);
    }
  }

  lemma {:induction false} DagsGrow(dags: seq<Dag>, states: seq<State>, es: seq<Event>, i: nat, j: nat)
    requires IsRun(dags, states, es) && i <= j <= |es|
    ensures dags[i].preds <= dags[j].preds
    ensures WellFormed(dags[i]) && WellFormed(dags[j])
  {
    RunsAreGood(dags, states, es, j);
    RunsAreGood(dags, states, es, i);
    if i < j {
      DagsGrow(dags, states, es, i, j - 1);
      assert StepsTo(dags[j - 1], states[j - 1], es[j - 1], dags[j], states[j]);
      StepWellFormed(dags[j - 1], es[j - 1]);
    }
  }

  lemma {:induction false} StaysSettled(dags: seq<Dag>, states: seq<State>, es: seq<Event>, i: nat, j: nat, u: nat)
    requires IsRun(dags, states, es) && i <= j <= |es|
    requires Settled(states[i], u)
    ensures Settled(states[j], u)
  {
    if i < j {
      StaysSettled(dags, states, es, i, j - 1, u);
      assert StepsTo(dags[j - 1], states[j - 1], es[j - 1], dags[j], states[j]);
      StepKeepsSettled(states[j - 1], es[j - 1], u);
    }
  }

  // The strand `v` that is running after `j` events is still in place at the end.
  lemma SettledReachesCurrent(d: Dag, s: State, u: nat, more: seq<set<nat>>)
    requires Good(d, s) && Settled(s, u)
    requires Topological(more) && d.preds <= more
    ensures Reaches(more, u, |d.preds| - 1)
  {
    BagsDecideParallelism(d, s, u);
    ReachesStable(d.preds, more, u, |d.preds| - 1);
  }

  lemma StillReaches(dags: seq<Dag>, states: seq<State>, es: seq<Event>, j: nat, u: nat, v: nat)
    requires IsRun(dags, states, es) && j < |es|
    requires WellFormed(dags[j]) && v < |dags[j].preds| && Reaches(dags[j].preds, u, v)
    ensures WellFormed(dags[j + 1]) && v < |dags[j + 1].preds| && Reaches(dags[j + 1].preds, u, v)
  {
    DagsGrow(dags, states, es, j, j + 1);
    ReachesStable(dags[j].preds, dags[j + 1].preds, u, v);
  }

  lemma OneStrandAStep(dags: seq<Dag>, states: seq<State>, es: seq<Event>, j: nat)
    requires IsRun(dags, states, es) && j < |es|
    ensures |dags[j + 1].preds| <= |dags[j].preds| + 1
  {
    assert StepsTo(dags[j], states[j], es[j], dags[j + 1], states[j + 1]);
  }

  lemma {:induction false} SettledReachesTheRest(
      dags: seq<Dag>, states: seq<State>, es: seq<Event>, i: nat, j: nat, u: nat, v: nat)
    requires IsRun(dags, states, es) && i <= j <= |es|
    requires Settled(states[i], u)
    requires |dags[i].preds| - 1 <= v < |dags[j].preds|
    ensures WellFormed(dags[j]) && Reaches(dags[j].preds, u, v)
  {
    if v == |dags[j].preds| - 1 {
      RunsAreGood(dags, states, es, j);
      StaysSettled(dags, states, es, i, j, u);
      SettledReachesCurrent(dags[j], states[j], u, dags[j].preds);
    } else {
      OneStrandAStep(dags, states, es, j - 1);
      SettledReachesTheRest(dags, states, es, i, j - 1, u, v);
      StillReaches(dags, states, es, j - 1, u, v);
    }
  }

  // A strand that runs while the flag is down is ordered with every strand of
  // the whole run, earlier or later, and no frame then holds a P-bag; so
  // leaving its accesses unchecked hides no race.
  lemma SerialStrandIsOrdered(dags: seq<Dag>, states: seq<State>, es: seq<Event>, i: nat, v: nat)
    requires IsRun(dags, states, es) && i <= |es|
    requires |states[i].frames| > 0 && !Top(states[i]).pe
    requires v < |dags[|es|].preds|
    ensures WellFormed(dags[i]) && WellFormed(dags[|es|]) && dags[i].preds <= dags[|es|].preds
    ensures !Parallel(dags[|es|].preds, |dags[i].preds| - 1, v)
    ensures forall f :: 0 <= f < |states[i].frames| ==> LocallySynced(states[i].frames[f])
  {
    RunsAreGood(dags, states, es, i);
    forall f | 0 <= f < |states[i].frames|
      ensures LocallySynced(states[i].frames[f])
    {
      FlagDownEverywhere(states[i], f);
    }
    DagsGrow(dags, states, es, i, |es|);
    var u := |dags[i].preds| - 1;
    if v >= u {
      FlagDownSettles(dags[i], states[i], u);
      SettledReachesTheRest(dags, states, es, i, |es|, u, v);
    } else {
      FlagDownSettles(dags[i], states[i], v);
      SettledReachesCurrent(dags[i], states[i], v, dags[|es|].preds);
    }
  }

  // At every moment of every run the flag on top is up exactly while a task is open
  // or waits for a sync.
  lemma {:induction false} FlagIsExact(dags: seq<Dag>, states: seq<State>, es: seq<Event>, i: nat)
    requires IsRun(dags, states, es) && i <= |es|
    ensures FlagsExact(states[i].frames)
    ensures Top(states[i]).pe <==> Outstanding(states[i].frames)
  {
    if i > 0 {
      FlagIsExact(dags, states, es, i - 1);
      assert StepsTo(dags[i - 1], states[i - 1], es[i - 1], dags[i], states[i]);
      StepKeepsFlagsExact(states[i - 1], es[i - 1]);
    }
    FlagTellsOutstanding(states[i].frames);
  }

  // The headline: over every run, bags and dag agree at every moment.
  lemma SpBagsTheorem(dags: seq<Dag>, states: seq<State>, es: seq<Event>, i: nat, u: nat)
    requires IsRun(dags, states, es) && i <= |es|
    requires u < |dags[i].preds|
    ensures WellFormed(dags[i]) && |states[i].bag| == |dags[i].preds|
    ensures states[i].bag[u].InP? <==> Parallel(dags[i].preds, u, |dags[i].preds| - 1)
    ensures states[i].bag[u].InS? <==> Reaches(dags[i].preds, u, |dags[i].preds| - 1)
  {
    RunsAreGood(dags, states, es, i);
    BagsDecideParallelism(dags[i], states[i], u);
  }
}
