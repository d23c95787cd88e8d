// The detector itself: the frame stack, the forest of bags and the shadow
// memory, updated in place by the hooks that the compiler inserts.  Every hook
// is proved to make exactly the step of the abstract machines, and Execute ties
// the whole tool to the computation dag.

module Cilksan {
  import opened StrandDag
  import opened DisjointSet
  import opened BagForest
  import opened Coupling
  import opened RaceDetector
  import SyncRegions
  import SpBags

  // The detector's stack has the shape of the abstract one.
  ghost predicate StackOk(stack: seq<FrameData>, frames: seq<SpBags.Frame>) {
    && |stack| == |frames| > 0
    && forall i :: 0 <= i < |stack| ==>
         && stack[i].detacher == frames[i].spawned
         && stack[i].sbag.Some?
         && |stack[i].pbags| == |frames[i].pbags|
         && forall r :: 0 <= r < |frames[i].pbags| ==> (stack[i].pbags[r].Some? <==> frames[i].pbags[r])
  }

  ghost predicate NoPBags(f: FrameData) {
    forall r :: 0 <= r < |f.pbags| ==> f.pbags[r] == None
  }

  // The parallel-execution stack: one flag for the program, then two for every
  // function or task that is open, inlined calls included.
  function Copies(flag: bool, n: nat): (flags: seq<bool>)
    ensures |flags| == 2 * n && forall i :: 0 <= i < 2 * n ==> flags[i] == flag
  {
    if n == 0 then [] else Copies(flag, n - 1) + [flag, flag]
  }

  function Flags(frames: seq<SpBags.Frame>): seq<bool> {
    if frames == [] then []
    else
      var f := frames[|frames| - 1];
      Flags(frames[..|frames| - 1])
      + (if |frames| == 1 then [f.pe] else [f.entryPe, f.pe])
      + Copies(f.pe, f.inlined)
  }

  // The stack of skipped frames: false for a function that has a frame, true
  // for one that was inlined; tasks push nothing.
  function Skips(frames: seq<SpBags.Frame>): seq<bool> {
    if frames == [] then []
    else
      var f := frames[|frames| - 1];
      Skips(frames[..|frames| - 1])
      + (if |frames| == 1 || f.spawned then [] else [false])
      + seq(f.inlined, _ => true)
  }

  lemma FlagsOfPush(frames: seq<SpBags.Frame>, f: SpBags.Frame)
    ensures Flags(frames + [f]) ==
            Flags(frames) + (if frames == [] then [f.pe] else [f.entryPe, f.pe]) + Copies(f.pe, f.inlined)
    ensures Skips(frames + [f]) ==
            Skips(frames) + (if frames == [] || f.spawned then [] else [false]) + seq(f.inlined, _ => true)
  {
    assert (frames + [f])[..|frames|] == frames;
  }

  lemma FlagsOnTop(frames: seq<SpBags.Frame>)
    requires |frames| > 0
    ensures |Flags(frames)| > 0 && Flags(frames)[|Flags(frames)| - 1] == frames[|frames| - 1].pe
  {
    assert frames == frames[..|frames| - 1] + [frames[|frames| - 1]];
    FlagsOfPush(frames[..|frames| - 1], frames[|frames| - 1]);
  }

  // One more inlined call adds two flags and a skip entry.
  lemma OneMoreInlined(frames: seq<SpBags.Frame>, f: SpBags.Frame)
    ensures Flags(frames + [f.(inlined := f.inlined + 1)]) == Flags(frames + [f]) + [f.pe, f.pe]
    ensures Skips(frames + [f.(inlined := f.inlined + 1)]) == Skips(frames + [f]) + [true]
  {
    var g := f.(inlined := f.inlined + 1);
    FlagsOfPush(frames, f);
    FlagsOfPush(frames, g);
    var entry := if frames == [] then [f.pe] else [f.entryPe, f.pe];
    AppendLast(Flags(frames) + entry, Copies(f.pe, f.inlined), [f.pe, f.pe]);
    assert seq(f.inlined + 1, _ => true) == seq(f.inlined, _ => true) + [true];
    AppendLast(Skips(frames) + if frames == [] || f.spawned then [] else [false], seq(f.inlined, _ => true), [true]);
  }

  lemma AppendLast(a: seq<bool>, b: seq<bool>, c: seq<bool>)
    ensures a + (b + c) == (a + b) + c
    ensures (a + c)[..|a + c| - |c|] == a
  {
  }

  // What each step does to the two stacks of flags.
  lemma InlineFlags(s: SpBags.State, s': SpBags.State)
    requires |s.frames| > 0 && s' == SpBags.Inline(s, SpBags.Top(s).inlined + 1)
    ensures Flags(s'.frames) == Flags(s.frames) + [SpBags.Top(s).pe, SpBags.Top(s).pe]
    ensures Skips(s'.frames) == Skips(s.frames) + [true]
  {
    var k, top := |s.frames| - 1, SpBags.Top(s);
    assert s.frames == s.frames[..k] + [top];
    OneMoreInlined(s.frames[..k], top);
  }

  lemma InlineReturnFlags(s: SpBags.State, s': SpBags.State)
    requires |s.frames| > 0 && SpBags.Top(s).inlined > 0 && s' == SpBags.Inline(s, SpBags.Top(s).inlined - 1)
    ensures |Flags(s.frames)| >= 2 && |Skips(s.frames)| >= 1
    ensures Flags(s'.frames) == Flags(s.frames)[..|Flags(s.frames)| - 2]
    ensures Skips(s'.frames) == Skips(s.frames)[..|Skips(s.frames)| - 1]
    ensures Skips(s.frames)[|Skips(s.frames)| - 1]
  {
    var below, top := s.frames[..|s.frames| - 1], SpBags.Top(s);
    var f := top.(inlined := top.inlined - 1);
    OneMoreInlined(below, f);
    assert s.frames == below + [f.(inlined := f.inlined + 1)];
    AppendLast(Flags(below + [f]), [], [f.pe, f.pe]);
    AppendLast(Skips(below + [f]), [], [true]);
  }

  lemma CallFlags(s: SpBags.State, regs: nat)
    requires |s.frames| > 0
    ensures Flags(SpBags.Call(s, regs).frames) == Flags(s.frames) + [SpBags.Top(s).pe, SpBags.Top(s).pe]
    ensures Skips(SpBags.Call(s, regs).frames) == Skips(s.frames) + [false]
  {
    FlagsOfPush(s.frames, SpBags.Top(SpBags.Call(s, regs)));
  }

  lemma SkipsOnTop(s: SpBags.State)
    requires SpBags.Enabled(s, FuncExit)
    ensures |Skips(s.frames)| > 0
    ensures Skips(s.frames)[|Skips(s.frames)| - 1] <==> SpBags.Top(s).inlined > 0
  {
    var k := |s.frames| - 1;
    assert s.frames == s.frames[..k] + [s.frames[k]];
    FlagsOfPush(s.frames[..k], s.frames[k]);
  }

  lemma EndTaskFlags(s: SpBags.State, reg: nat)
    requires SpBags.Enabled(s, TaskExit(reg))
    ensures |Flags(s.frames)| >= 2
    ensures Flags(SpBags.EndTask(s, reg).frames) == Flags(s.frames)[..|Flags(s.frames)| - 2]
    ensures Skips(SpBags.EndTask(s, reg).frames) == Skips(s.frames)
  {
    var k := |s.frames| - 1;
    PopFlags(s);
    var below := s.frames[..k];
    FlagsIgnorePBags(below, below[k - 1].(pbags := below[k - 1].pbags[reg := true]));
    assert below[..k - 1] == s.frames[..k - 1];
  }

  // A frame without inlined calls leaves: its two flags go, and its skip entry
  // if it was called.
  lemma PopFlags(s: SpBags.State)
    requires |s.frames| > 1 && SpBags.Top(s).inlined == 0
    ensures |Flags(s.frames)| >= 2
    ensures Flags(s.frames[..|s.frames| - 1]) == Flags(s.frames)[..|Flags(s.frames)| - 2]
    ensures SpBags.Top(s).spawned ==> Skips(s.frames[..|s.frames| - 1]) == Skips(s.frames)
    ensures !SpBags.Top(s).spawned ==>
      && |Skips(s.frames)| > 0 && !Skips(s.frames)[|Skips(s.frames)| - 1]
      && Skips(s.frames[..|s.frames| - 1]) == Skips(s.frames)[..|Skips(s.frames)| - 1]
  {
    var k := |s.frames| - 1;
    assert s.frames == s.frames[..k] + [s.frames[k]];
    FlagsOfPush(s.frames[..k], s.frames[k]);
  }

  // Neither stack depends on which P-bags exist.
  lemma FlagsIgnorePBags(frames: seq<SpBags.Frame>, f: SpBags.Frame)
    requires |frames| > 0
    requires f == frames[|frames| - 1].(pbags := f.pbags)
    ensures Flags(frames[..|frames| - 1] + [f]) == Flags(frames)
    ensures Skips(frames[..|frames| - 1] + [f]) == Skips(frames)
  {
    var below, g := frames[..|frames| - 1], frames[|frames| - 1];
    assert f.pe == g.pe && f.entryPe == g.entryPe && f.inlined == g.inlined && f.spawned == g.spawned;
    assert frames == below + [g];
    FlagsOfPush(below, g);
    FlagsOfPush(below, f);
  }

  lemma RaisedFlags(below: seq<SpBags.Frame>, top: SpBags.Frame, frames: seq<SpBags.Frame>, raised: seq<SpBags.Frame>)
    requires top.inlined == 0 && frames == below + [top] && raised == below + [top.(pe := true)]
    ensures |Flags(frames)| > 0
    ensures Flags(raised) == Flags(frames)[|Flags(frames)| - 1 := true]
    ensures Skips(raised) == Skips(frames)
  {
    var lower := if below == [] then [] else [top.entryPe];
    FlagsOfSpawner(below, top, frames, lower);
    FlagsOfSpawner(below, top.(pe := true), raised, lower);
    LastReplaced(Flags(frames), Flags(raised), Flags(below) + lower, top.pe, true);
  }

  lemma FlagsOfSpawner(below: seq<SpBags.Frame>, top: SpBags.Frame, frames: seq<SpBags.Frame>, lower: seq<bool>)
    requires top.inlined == 0 && frames == below + [top] && lower == if below == [] then [] else [top.entryPe]
    ensures Flags(frames) == (Flags(below) + lower) + [top.pe]
    ensures Skips(frames) == Skips(below) + if below == [] || top.spawned then [] else [false]
  {
    FlagsOfPush(below, top);
  }

  lemma LastReplaced(flags: seq<bool>, flags': seq<bool>, lower: seq<bool>, was: bool, now: bool)
    requires flags == lower + [was] && flags' == lower + [now]
    ensures |flags| > 0 && flags' == flags[|flags| - 1 := now]
  {
  }

  lemma DetachFlags(s: SpBags.State, regs: nat)
    requires |s.frames| > 0 && SpBags.Top(s).inlined == 0
    ensures |Flags(s.frames)| > 0
    ensures Flags(SpBags.Detach(s, regs).frames) == Flags(s.frames)[|Flags(s.frames)| - 1 := true] + [true, true]
    ensures Skips(SpBags.Detach(s, regs).frames) == Skips(s.frames)
  {
    var k, top := |s.frames| - 1, SpBags.Top(s);
    var raised, task := s.frames[..k] + [top.(pe := true)], SpBags.Frame(true, SpBags.NoBags(regs), true, true, 0);
    assert s.frames == s.frames[..k] + [top];
    RaisedFlags(s.frames[..k], top, s.frames, raised);
    FlagsOfPush(raised, task);
    assert SpBags.Detach(s, regs).frames == raised + [task];
  }

  function Restored(flags: seq<bool>, synced: bool): seq<bool>
    requires |flags| >= 2
  {
    if synced then flags[|flags| - 1 := flags[|flags| - 2]] else flags
  }

  lemma JoinFlags(s: SpBags.State, reg: nat, s': SpBags.State)
    requires |s.frames| > 1 && SpBags.Top(s).inlined == 0 && reg < |SpBags.Top(s).pbags| && s' == SpBags.Join(s, reg)
    ensures |Flags(s.frames)| >= 2
    ensures Flags(s'.frames) == Restored(Flags(s.frames), SpBags.LocallySynced(SpBags.Top(s')))
    ensures Skips(s'.frames) == Skips(s.frames)
  {
    var k, top := |s.frames| - 1, SpBags.Top(s);
    assert s.frames == s.frames[..k] + [top];
    FlagsOfPush(s.frames[..k], top);
    FlagsOfPush(s.frames[..k], SpBags.Top(s'));
    assert s'.frames == s.frames[..k] + [SpBags.Top(s')];
  }

  // Labels name existing regions, and the running strand is in the S-bag on top.
  ghost predicate LabelsOk(s: SpBags.State) {
    && RunningOnTop(s)
    && s.frames[0].pbags == []
    && forall u :: 0 <= u < |s.bag| ==>
         && s.bag[u].frame < |s.frames|
         && (s.bag[u].InP? ==> s.bag[u].reg < |s.frames[s.bag[u].frame].pbags|)
         && (s.bag[u].InP? ==> s.frames[s.bag[u].frame].pbags[s.bag[u].reg])
  }

  lemma StepKeepsLabelsOk(s: SpBags.State, e: Event)
    requires LabelsOk(s) && SpBags.Enabled(s, e)
    ensures LabelsOk(SpBags.Step(s, e))
  {
    StepKeepsRunningOnTop(s, e);
    StepKeepsFirstFrame(s, e);
    var s' := SpBags.Step(s, e);
    forall u | 0 <= u < |s'.bag|
      ensures IsPlaced(s', u)
    {
      StepKeepsPlacing(s, e, u);
    }
  }

  lemma StepKeepsFirstFrame(s: SpBags.State, e: Event)
    requires LabelsOk(s) && SpBags.Enabled(s, e)
    ensures |SpBags.Step(s, e).frames| > 0 && SpBags.Step(s, e).frames[0].pbags == []
  {
  }

  lemma StepKeepsPlacing(s: SpBags.State, e: Event, u: nat)
    requires LabelsOk(s) && SpBags.Enabled(s, e) && u < |SpBags.Step(s, e).bag|
    ensures IsPlaced(SpBags.Step(s, e), u)
  {
    if u < |s.bag| {
      assert s.bag[u].frame < |s.frames|;
    }
  }

  // The concrete stack, forest and slots stand for an abstract state.
  ghost predicate Stands(h: Heap, stack: seq<FrameData>, s: SpBags.State, m: Memory) {
    Coupled(h, stack, s.bag, m) && StackOk(stack, s.frames) && LabelsOk(s)
  }

  lemma EmptyCouples(h: Heap)
    requires Valid(h, {}) && h.refs == map[]
    ensures Coupled(h, [], [], Memory(map[], map[], map[], map[]))
  {
  }

  lemma InlineStands(h: Heap, stack: seq<FrameData>, s: SpBags.State, m: Memory, count: nat)
    requires Stands(h, stack, s, m)
    ensures Stands(h, stack, SpBags.Inline(s, count), m)
  {
  }

  lemma CallStands(h: Heap, stack: seq<FrameData>, s: SpBags.State, m: Memory, regs: nat, stack': seq<FrameData>)
    requires StackOk(stack, s.frames) && LabelsOk(s)
    requires Coupled(h, stack', s.bag, m)
    requires |stack'| == |stack| + 1 && stack'[..|stack|] == stack && NewFrame(stack'[|stack|], false, regs)
    ensures Stands(h, stack', SpBags.Call(s, regs), m)
  {
    NewLabelIsFree(h, stack', s.bag, m, SpBags.InS(|stack|));
  }

  lemma DetachStands(h: Heap, stack: seq<FrameData>, s: SpBags.State, m: Memory, regs: nat, stack': seq<FrameData>)
    requires StackOk(stack, s.frames) && LabelsOk(s)
    requires Coupled(h, stack', s.bag, m)
    requires |stack'| == |stack| + 1 && stack'[..|stack|] == stack && NewFrame(stack'[|stack|], true, regs)
    ensures Stands(h, stack', SpBags.Detach(s, regs), m)
  {
    NewLabelIsFree(h, stack', s.bag, m, SpBags.InS(|stack|));
  }

  lemma StartFlags()
    ensures Flags(SpBags.START.frames) == [false] && Skips(SpBags.START.frames) == []
  {
    FlagsOfPush([], SpBags.START.frames[0]);
    assert [] + SpBags.START.frames == SpBags.START.frames;
  }

  lemma StartStands(h: Heap, stack: seq<FrameData>, m: Memory)
    requires Coupled(h, stack, [], m)
    requires |stack| == 1 && NewFrame(stack[0], false, 0)
    ensures Stands(h, stack, SpBags.START, m)
    ensures Flags(SpBags.START.frames) == [false] && Skips(SpBags.START.frames) == []
  {
    NewLabelIsFree(h, stack, [], m, SpBags.InS(0));
    assert [] + [SpBags.InS(0)] == SpBags.START.bag;
    StartFlags();
  }

  ghost predicate NewFrame(f: FrameData, detacher: bool, regs: nat) {
    && f.detacher == detacher && f.sbag.Some? && !f.sbagUsed
    && |f.pbags| == regs && NoPBags(f)
  }

  lemma ReturnStands(h: Heap, stack: seq<FrameData>, s: SpBags.State, m: Memory,
                     labels: seq<SpBags.Bag>, stack': seq<FrameData>)
    requires StackOk(stack, s.frames) && LabelsOk(s) && SpBags.Enabled(s, FuncExit) && SpBags.Top(s).inlined == 0
    requires labels == SpBags.Relabel(s.bag, SpBags.ReturnFromCall(|stack| - 1))
    requires Coupled(h, stack', labels, m)
    requires |stack'| == |stack| - 1 && stack'[..|stack| - 2] == stack[..|stack| - 2]
    requires stack'[|stack| - 2] == stack[|stack| - 2].(sbagUsed := stack'[|stack| - 2].sbagUsed)
    ensures Stands(h, stack', SpBags.Return(s), m)
  {
    NewLabelIsFree(h, stack', labels, m, SpBags.InS(|stack| - 2));
    StepKeepsLabelsOk(s, FuncExit);
  }

  lemma EndTaskStands(h: Heap, stack: seq<FrameData>, s: SpBags.State, m: Memory, reg: nat,
                      labels: seq<SpBags.Bag>, stack': seq<FrameData>)
    requires StackOk(stack, s.frames) && LabelsOk(s) && SpBags.Enabled(s, TaskExit(reg))
    requires labels == SpBags.Relabel(s.bag, SpBags.ReturnFromSpawn(|stack| - 1, reg))
    requires Coupled(h, stack', labels, m)
    requires |stack'| == |stack| - 1 && stack'[..|stack| - 2] == stack[..|stack| - 2]
    requires reg < |stack'[|stack| - 2].pbags| && stack'[|stack| - 2].pbags[reg].Some?
    requires stack'[|stack| - 2] == stack[|stack| - 2].(sbagUsed := stack'[|stack| - 2].sbagUsed,
               pbags := stack[|stack| - 2].pbags[reg := stack'[|stack| - 2].pbags[reg]])
    ensures Stands(h, stack', SpBags.EndTask(s, reg), m)
  {
    NewLabelIsFree(h, stack', labels, m, SpBags.InS(|stack| - 2));
    StepKeepsLabelsOk(s, TaskExit(reg));
  }

  lemma JoinStands(h: Heap, stack: seq<FrameData>, s: SpBags.State, m: Memory, reg: nat,
                   labels: seq<SpBags.Bag>, stack': seq<FrameData>)
    requires StackOk(stack, s.frames) && LabelsOk(s) && SpBags.Enabled(s, Sync(reg))
    requires labels == SpBags.Relabel(s.bag, SpBags.SyncRegion(|stack| - 1, reg))
    requires Coupled(h, stack', labels, m)
    requires |stack'| == |stack| && stack'[..|stack| - 1] == stack[..|stack| - 1]
    requires stack'[|stack| - 1] == stack[|stack| - 1].(sbagUsed := stack'[|stack| - 1].sbagUsed,
               pbags := stack[|stack| - 1].pbags[reg := None])
    ensures Stands(h, stack', SpBags.Join(s, reg), m)
  {
    NewLabelIsFree(h, stack', labels, m, SpBags.InS(|stack| - 1));
    StepKeepsLabelsOk(s, Sync(reg));
  }

  class Tool {
    const forest: Forest
    var frameStack: seq<FrameData>
    var readers: map<nat, Node>
    var writers: map<nat, Node>

    ghost var bags: SpBags.State
    ghost var shadow: Shadow

    // The tool starts with one frame for the program itself.
    constructor ()
      ensures Represents() && fresh(forest)
      ensures bags == SpBags.START && shadow == NO_SHADOW
    {
      forest := new Forest();
      bags, shadow := SpBags.State([], []), NO_SHADOW;
      frameStack, readers, writers := [], map[], map[];
      parallelExecution, framesSkipped := [false], [];
      occupied, reported := {}, {};
      new;
      EmptyCouples(forest.Snapshot());
      StartNewFunction(0, false, [], Mem());
      StartStands(forest.Snapshot(), frameStack, Mem());
      bags := SpBags.START;
    }

    // A function or task starts: a frame with a fresh S-bag and null P-bags.
    method StartNewFunction(regs: nat, detacher: bool, ghost labels: seq<SpBags.Bag>, ghost m: Memory)
      requires Coupled(forest.Snapshot(), frameStack, labels, m)
      modifies this`frameStack, forest
      ensures Coupled(forest.Snapshot(), frameStack, labels, m)
      ensures |frameStack| == |old(frameStack)| + 1 && frameStack[..|old(frameStack)|] == old(frameStack)
      ensures NewFrame(frameStack[|old(frameStack)|], detacher, regs)
    {
      ghost var before := forest.Snapshot();
      var b := forest.NewSBag({});
      var f := FrameData(detacher, Some(b), false, seq(regs, _ => None));
      PushCouples(before, frameStack, labels, m, f);
      frameStack := frameStack + [f];
    }

    // A sync merges the region's P-bag, if there is one, into the S-bag.
    method CompleteSync(reg: nat, ghost labels: seq<SpBags.Bag>, ghost m: Memory)
      returns (ghost labels': seq<SpBags.Bag>)
      requires Coupled(forest.Snapshot(), frameStack, labels, m)
      requires |frameStack| > 0 && frameStack[|frameStack| - 1].sbag.Some?
      requires reg < |frameStack[|frameStack| - 1].pbags|
      modifies this`frameStack, forest
      ensures Coupled(forest.Snapshot(), frameStack, labels', m)
      ensures labels' == SpBags.Relabel(labels, SpBags.SyncRegion(|old(frameStack)| - 1, reg))
      ensures |frameStack| == |old(frameStack)|
      ensures frameStack[..|frameStack| - 1] == old(frameStack)[..|frameStack| - 1]
      ensures var f, f' := old(frameStack)[|frameStack| - 1], frameStack[|frameStack| - 1];
        f' == f.(sbagUsed := f.sbagUsed || f.pbags[reg].Some?, pbags := f.pbags[reg := None])
    {
      var k := |frameStack| - 1;
      var f := frameStack[k];
      ghost var to, from := SpBags.InS(k), SpBags.InP(k, reg);
      labels' := Rename(labels, from, to);
      assert labels' == SpBags.Relabel(labels, SpBags.SyncRegion(k, reg));
      if f.pbags[reg].Some? {
        ghost var before := forest.Snapshot();
        assert IdOk(before, frameStack, to) && IdOk(before, frameStack, from) && IdsApart(frameStack, to, from);
        forest.MergeInto(f.sbag.value, f.pbags[reg].value);
        ghost var stack := frameStack;
        frameStack := frameStack[k := f.(sbagUsed := true, pbags := f.pbags[reg := None])];
        MergeCouples(before, forest.Snapshot(), stack, frameStack, labels, labels', m, to, from);
      } else {
        NullBagRenames(forest.Snapshot(), frameStack, labels, labels', m, to, from);
        assert f.pbags[reg := None] == f.pbags;
      }
    }

    // Get the P-bag of a region of the frame below the top, creating it when
    // it is needed for the first time.
    method EnsurePBag(i: nat, reg: nat, ghost labels: seq<SpBags.Bag>, ghost m: Memory)
      requires Coupled(forest.Snapshot(), frameStack, labels, m)
      requires i < |frameStack| && reg < |frameStack[i].pbags|
      modifies this`frameStack, forest
      ensures Coupled(forest.Snapshot(), frameStack, labels, m)
      ensures |frameStack| == |old(frameStack)| && |frameStack[i].pbags| == |old(frameStack)[i].pbags|
      ensures frameStack[i].pbags[reg].Some?
      ensures frameStack == old(frameStack)[i := old(frameStack)[i].(pbags :=
                old(frameStack)[i].pbags[reg := frameStack[i].pbags[reg]])]
    {
      if frameStack[i].pbags[reg].None? {
        ghost var before := forest.Snapshot();
        LazyPBagCouples(before, frameStack, labels, m, i, reg);
        var b := forest.NewPBag({});
        frameStack := frameStack[i := frameStack[i].(pbags := frameStack[i].pbags[reg := Some(b)])];
      } else {
        assert frameStack[i].pbags[reg := frameStack[i].pbags[reg]] == frameStack[i].pbags;
      }
    }

    // Merge the S-bag of the frame on top into the bag of label `to`, or drop
    // it when no access was ever recorded in it.
    method MergeSBag(to: SpBags.Bag, into: BagId, ghost labels: seq<SpBags.Bag>, ghost m: Memory)
        returns (ghost labels': seq<SpBags.Bag>)
      requires Coupled(forest.Snapshot(), frameStack, labels, m)
      requires |frameStack| > 1 && frameStack[|frameStack| - 1].sbag.Some?
      requires IdOf(frameStack, to) == Some(into) && to.frame == |frameStack| - 2
      modifies this`frameStack, forest
      ensures Coupled(forest.Snapshot(), frameStack, labels', m)
      ensures |frameStack| == |old(frameStack)|
      ensures Renamed(labels, labels', SpBags.InS(|frameStack| - 1), to)
      ensures var k, stack := |frameStack| - 1, old(frameStack);
        var marked := stack[k - 1].sbagUsed || (to.InS? && stack[k].sbagUsed);
        frameStack == stack[k - 1 := stack[k - 1].(sbagUsed := marked)][k := stack[k].(sbag := None)]
      ensures var child := old(frameStack)[|frameStack| - 1];
        if child.sbagUsed then MergedInto(old(forest.Snapshot()), forest.Snapshot(), into, child.sbag.value)
        else forest.bags == old(forest.bags) - {child.sbag.value}
             && SameBags(old(forest.Snapshot()), forest.Snapshot())
    {
      var k := |frameStack| - 1;
      var child := frameStack[k];
      ghost var stack := frameStack;
      ghost var from := SpBags.InS(k);
      ghost var before := forest.Snapshot();
      labels' := Rename(labels, from, to);
      assert IdOk(before, frameStack, to) && IdOk(before, frameStack, from) && IdsApart(frameStack, to, from);
      if child.sbagUsed {
        forest.MergeInto(into, child.sbag.value);
        if to.InS? {
          frameStack := frameStack[k - 1 := frameStack[k - 1].(sbagUsed := true)];
        }
        frameStack := frameStack[k := child.(sbag := None)];
        MergeCouples(before, forest.Snapshot(), stack, frameStack, labels, labels', m, to, from);
      } else {
        UnusedIsUnheld(before, frameStack, labels, m, k);
        ghost var none: set<BagId> := {};
        assert none - {child.sbag.value} == none;
        forest.DeleteBag(child.sbag.value, none);
        frameStack := frameStack[k := child.(sbag := None)];
        DiscardCouples(before, forest.Snapshot(), stack, frameStack, labels, labels', m, k, to);
      }
    }

    // Merge one P-bag of the frame on top into a P-bag of the frame below.
    method MergePBag(j: nat, reg: nat, ghost labels: seq<SpBags.Bag>, ghost m: Memory)
        returns (ghost labels': seq<SpBags.Bag>)
      requires Coupled(forest.Snapshot(), frameStack, labels, m)
      requires |frameStack| > 1 && j < |frameStack[|frameStack| - 1].pbags|
      requires reg < |frameStack[|frameStack| - 2].pbags| && frameStack[|frameStack| - 2].pbags[reg].Some?
      modifies this`frameStack, forest
      ensures Coupled(forest.Snapshot(), frameStack, labels', m)
      ensures |frameStack| == |old(frameStack)|
      ensures Renamed(labels, labels', SpBags.InP(|frameStack| - 1, j), SpBags.InP(|frameStack| - 2, reg))
      ensures var k := |frameStack| - 1; var child := old(frameStack)[k];
        frameStack == old(frameStack)[k := child.(pbags := child.pbags[j := None])]
    {
      var k := |frameStack| - 1;
      var child := frameStack[k];
      ghost var stack := frameStack;
      ghost var from, to := SpBags.InP(k, j), SpBags.InP(k - 1, reg);
      ghost var before := forest.Snapshot();
      labels' := Rename(labels, from, to);
      if child.pbags[j].Some? {
        assert IdOk(before, frameStack, to) && IdOk(before, frameStack, from) && IdsApart(frameStack, to, from);
        forest.MergeInto(frameStack[k - 1].pbags[reg].value, child.pbags[j].value);
        frameStack := frameStack[k := child.(pbags := child.pbags[j := None])];
        MergeCouples(before, forest.Snapshot(), stack, frameStack, labels, labels', m, to, from);
      } else {
        NullBagRenames(before, frameStack, labels, labels', m, to, from);
        assert child.pbags[j := None] == child.pbags;
        assert stack[k := child] == stack;
      }
    }

    // The frame on top, whose bags are gone, leaves the stack.
    method ExitFunction(ghost labels: seq<SpBags.Bag>, ghost m: Memory)
      requires Coupled(forest.Snapshot(), frameStack, labels, m)
      requires |frameStack| > 0 && frameStack[|frameStack| - 1].sbag == None
      requires NoPBags(frameStack[|frameStack| - 1])
      modifies this`frameStack
      ensures Coupled(forest.Snapshot(), frameStack, labels, m)
      ensures frameStack == old(frameStack)[..|old(frameStack)| - 1]
    {
      var k := |frameStack| - 1;
      assert frameStack == frameStack[..k] + [frameStack[k]];
      PopCouples(forest.Snapshot(), frameStack[..k], frameStack[k], labels, m);
      frameStack := frameStack[..k];
    }

    // A task returns: its S-bag and all its P-bags go to one P-bag of the
    // frame that spawned it.
    method ReturnFromDetach(reg: nat, ghost labels: seq<SpBags.Bag>, ghost m: Memory)
        returns (ghost labels': seq<SpBags.Bag>)
      requires Coupled(forest.Snapshot(), frameStack, labels, m)
      requires |frameStack| > 1 && frameStack[|frameStack| - 1].sbag.Some?
      requires reg < |frameStack[|frameStack| - 2].pbags|
      requires forall u :: 0 <= u < |labels| && labels[u].InP? && labels[u].frame == |frameStack| - 1 ==>
        labels[u].reg < |frameStack[|frameStack| - 1].pbags|
      modifies this`frameStack, forest
      ensures Coupled(forest.Snapshot(), frameStack, labels', m)
      ensures labels' == SpBags.Relabel(labels, SpBags.ReturnFromSpawn(|old(frameStack)| - 1, reg))
      ensures var k := |old(frameStack)| - 1;
        && |frameStack| == k
        && frameStack[..k - 1] == old(frameStack)[..k - 1]
        && |frameStack[k - 1].pbags| == |old(frameStack)[k - 1].pbags|
        && frameStack[k - 1].pbags[reg].Some?
        && frameStack[k - 1] == old(frameStack)[k - 1].(
             pbags := old(frameStack)[k - 1].pbags[reg := frameStack[k - 1].pbags[reg]])
    {
      var k := |frameStack| - 1;
      EnsurePBag(k - 1, reg, labels, m);
      ghost var withP := frameStack;
      labels' := MergeSBag(SpBags.InP(k - 1, reg), frameStack[k - 1].pbags[reg].value, labels, m);
      ghost var parent := frameStack[k - 1];
      var j := 0;
      while j < |frameStack[k].pbags|
        invariant |frameStack| == k + 1 && frameStack[..k - 1] == withP[..k - 1] && frameStack[k - 1] == parent
        invariant frameStack[k].sbag == None && |frameStack[k].pbags| == |withP[k].pbags|
        invariant 0 <= j <= |frameStack[k].pbags|
        invariant forall r :: 0 <= r < j ==> frameStack[k].pbags[r] == None
        invariant Coupled(forest.Snapshot(), frameStack, labels', m)
        invariant |labels'| == |labels|
        invariant forall u :: 0 <= u < |labels| ==>
          labels'[u] == if labels[u] == SpBags.InS(k) || (labels[u].InP? && labels[u].frame == k && labels[u].reg < j)
                        then SpBags.InP(k - 1, reg) else labels[u]
      {
        labels' := MergePBag(j, reg, labels', m);
        j := j + 1;
      }
      assert labels' == SpBags.Relabel(labels, SpBags.ReturnFromSpawn(k, reg));
      ExitFunction(labels', m);
    }

    // A called function that has synced returns: its S-bag goes to its
    // caller's S-bag.
    method LeaveCilkFunction(ghost labels: seq<SpBags.Bag>, ghost m: Memory)
        returns (ghost labels': seq<SpBags.Bag>)
      requires Coupled(forest.Snapshot(), frameStack, labels, m)
      requires |frameStack| > 1 && frameStack[|frameStack| - 1].sbag.Some? && frameStack[|frameStack| - 2].sbag.Some?
      requires NoPBags(frameStack[|frameStack| - 1])
      modifies this`frameStack, forest
      ensures Coupled(forest.Snapshot(), frameStack, labels', m)
      ensures labels' == SpBags.Relabel(labels, SpBags.ReturnFromCall(|old(frameStack)| - 1))
      ensures var k := |old(frameStack)| - 1;
        && |frameStack| == k
        && frameStack[..k - 1] == old(frameStack)[..k - 1]
        && frameStack[k - 1] == old(frameStack)[k - 1].(
             sbagUsed := old(frameStack)[k - 1].sbagUsed || old(frameStack)[k].sbagUsed)
    {
      var k := |frameStack| - 1;
      labels' := MergeSBag(SpBags.InS(k - 1), frameStack[k - 1].sbag.value, labels, m);
      assert labels' == SpBags.Relabel(labels, SpBags.ReturnFromCall(k));
      ExitFunction(labels', m);
    }

    // ------------------------------------------------------- shadow memory

    // Whether the recorded access is in a P-bag; asking compresses paths.
    method PreviousAccessInParallel(n: Node, ghost labels: seq<SpBags.Bag>, ghost m: Memory, ghost u: nat)
        returns (inParallel: bool)
      requires Coupled(forest.Snapshot(), frameStack, labels, m)
      requires SlotOk(forest.Snapshot(), frameStack, labels, n, u)
      modifies forest
      ensures Coupled(forest.Snapshot(), frameStack, labels, m)
      ensures inParallel == labels[u].InP?
    {
      ghost var before := forest.Snapshot();
      var b, isP := forest.ResolveBag(n, {});
      CouplingSurvives(before, forest.Snapshot(), frameStack, labels, m);
      assert IdOk(before, frameStack, labels[u]);
      inParallel := isP;
    }

    // Remember the running strand in a slot, under the S-bag of the frame on top.
    method RecordAccess(write: bool, x: nat, ghost labels: seq<SpBags.Bag>, ghost m: Memory, ghost u: nat)
        returns (ghost m': Memory)
      requires Coupled(forest.Snapshot(), frameStack, labels, m)
      requires m.readers == readers && m.writers == writers
      requires |frameStack| > 0 && frameStack[|frameStack| - 1].sbag.Some?
      requires u < |labels| && labels[u] == SpBags.InS(|frameStack| - 1)
      modifies this`frameStack, this`readers, this`writers, forest
      ensures Coupled(forest.Snapshot(), frameStack, labels, m')
      ensures m'.readers == readers && m'.writers == writers
      ensures m'.readBy == if write then m.readBy else m.readBy[x := u]
      ensures m'.writtenBy == if write then m.writtenBy[x := u] else m.writtenBy
      ensures |frameStack| == |old(frameStack)|
      ensures frameStack == old(frameStack)[|frameStack| - 1 := old(frameStack)[|frameStack| - 1].(sbagUsed := true)]
    {
      var k := |frameStack| - 1;
      MarkingCouples(forest.Snapshot(), frameStack, labels, m, k);
      frameStack := frameStack[k := frameStack[k].(sbagUsed := true)];
      m' := RecordIn(write, x, k, labels, m, u);
    }

    // Record the node of a frame's S-bag, which has been used, for a location.
    method RecordIn(write: bool, x: nat, k: nat, ghost labels: seq<SpBags.Bag>, ghost m: Memory, ghost u: nat)
        returns (ghost m': Memory)
      requires Coupled(forest.Snapshot(), frameStack, labels, m)
      requires m.readers == readers && m.writers == writers
      requires k < |frameStack| && frameStack[k].sbag.Some? && frameStack[k].sbagUsed
      requires u < |labels| && labels[u] == SpBags.InS(k)
      modifies this`readers, this`writers, forest
      ensures Coupled(forest.Snapshot(), frameStack, labels, m')
      ensures m'.readers == readers && m'.writers == writers
      ensures m'.readBy == if write then m.readBy else m.readBy[x := u]
      ensures m'.writtenBy == if write then m.writtenBy[x := u] else m.writtenBy
    {
      ghost var before := forest.Snapshot();
      assert IdOk(before, frameStack, SpBags.InS(k));
      assert SlotAt(before, frameStack, labels, m.readers, m.readBy, false, x);
      assert SlotAt(before, frameStack, labels, m.writers, m.writtenBy, true, x);
      var held := if write then (if x in writers then Some(writers[x]) else None)
                  else (if x in readers then Some(readers[x]) else None);
      var n := forest.Record(write, x, held, frameStack[k].sbag.value, {});
      m' := WithSlot(m, write, x, n, u);
      RecordCouples(before, forest.Snapshot(), frameStack, labels, m, write, x, n, u);
      if write {
        writers := writers[x := n];
      } else {
        readers := readers[x := n];
      }
    }

    // ------------------------------------------------------------------ hooks

    var parallelExecution: seq<bool>
    var framesSkipped: seq<bool>
    var occupied: set<(bool, nat)>
    var reported: set<nat>

    ghost function Mem(): Memory
      reads this
    {
      Memory(readers, writers, shadow.readers, shadow.writers)
    }

    // The concrete state stands for the abstract one.
    ghost predicate Represents()
      reads this, forest
    {
      && Stands(forest.Snapshot(), frameStack, bags, Mem())
      && parallelExecution == Flags(bags.frames)
      && framesSkipped == Skips(bags.frames)
      && SpBags.FlagsExact(bags.frames)
      && occupied == shadow.occupied
      && reported == shadow.reported
    }

    // The flag that decides whether accesses are checked.
    predicate FlagOnTop()
      reads this
    {
      |parallelExecution| > 0 && parallelExecution[|parallelExecution| - 1]
    }

    lemma FlagIsOutstanding()
      requires Represents()
      ensures |parallelExecution| > 0 && (FlagOnTop() <==> SpBags.Outstanding(bags.frames))
    {
      FlagsOnTop(bags.frames);
      SpBags.FlagTellsOutstanding(bags.frames);
    }

    method IsLocalSynced() returns (synced: bool)
      requires |frameStack| > 0
      ensures synced <==> NoPBags(frameStack[|frameStack| - 1])
    {
      var f := frameStack[|frameStack| - 1];
      for i := 0 to |f.pbags|
        invariant forall r :: 0 <= r < i ==> f.pbags[r] == None
      {
        if f.pbags[i].Some? {
          return false;
        }
      }
      return true;
    }

    // The flags of a function that runs inside its caller's frame.
    method PushInlined(ghost next: SpBags.State)
      requires |bags.frames| > 0 && next == SpBags.Inline(bags, SpBags.Top(bags).inlined + 1)
      requires parallelExecution == Flags(bags.frames) && framesSkipped == Skips(bags.frames)
      modifies this`parallelExecution, this`framesSkipped
      ensures parallelExecution == Flags(next.frames) && framesSkipped == Skips(next.frames)
    {
      FlagsOnTop(bags.frames);
      InlineFlags(bags, next);
      var currentPe := parallelExecution[|parallelExecution| - 1];
      parallelExecution := parallelExecution + [currentPe, currentPe];
      framesSkipped := framesSkipped + [true];
    }

    method PopInlined(ghost next: SpBags.State)
      requires |bags.frames| > 0 && SpBags.Top(bags).inlined > 0
      requires next == SpBags.Inline(bags, SpBags.Top(bags).inlined - 1)
      requires parallelExecution == Flags(bags.frames) && framesSkipped == Skips(bags.frames)
      modifies this`parallelExecution, this`framesSkipped
      ensures parallelExecution == Flags(next.frames) && framesSkipped == Skips(next.frames)
    {
      InlineReturnFlags(bags, next);
      framesSkipped := framesSkipped[..|framesSkipped| - 1];
      parallelExecution := parallelExecution[..|parallelExecution| - 2];
    }

    // The flags of a function that leaves its frame.
    method PopFrameFlags()
      requires SpBags.Enabled(bags, Event.FuncExit) && SpBags.Top(bags).inlined == 0
      requires parallelExecution == Flags(bags.frames) && framesSkipped == Skips(bags.frames)
      modifies this`parallelExecution, this`framesSkipped
      ensures var below := bags.frames[..|bags.frames| - 1];
        parallelExecution == Flags(below) && framesSkipped == Skips(below)
    {
      PopFlags(bags);
      framesSkipped := framesSkipped[..|framesSkipped| - 1];
      parallelExecution := parallelExecution[..|parallelExecution| - 2];
    }

    ghost method CountInlined(count: nat)
      requires Stands(forest.Snapshot(), frameStack, bags, Mem())
      requires occupied == shadow.occupied && reported == shadow.reported && SpBags.FlagsExact(bags.frames)
      requires var next := SpBags.Inline(bags, count);
        parallelExecution == Flags(next.frames) && framesSkipped == Skips(next.frames)
      modifies this`bags
      ensures Represents() && bags == SpBags.Inline(old(bags), count)
    {
      InlineStands(forest.Snapshot(), frameStack, bags, Mem(), count);
      SpBags.InliningKeepsFlagsExact(bags, count);
      bags := SpBags.Inline(bags, count);
    }

    // A function runs inside its caller's frame.
    method EnterInlined()
      requires Represents()
      modifies this`parallelExecution, this`framesSkipped, this`bags
      ensures Represents()
      ensures bags == SpBags.Inline(old(bags), SpBags.Top(old(bags)).inlined + 1)
    {
      PushInlined(SpBags.Inline(bags, SpBags.Top(bags).inlined + 1));
      CountInlined(SpBags.Top(bags).inlined + 1);
    }

    // A function gets a frame of its own.
    method EnterFrame(regs: nat)
      requires Represents()
      modifies this, forest
      ensures Represents()
      ensures bags == SpBags.Call(old(bags), regs) && shadow == old(shadow)
    {
      FlagsOnTop(bags.frames);
      CallFlags(bags, regs);
      SpBags.OpeningKeepsFlagsExact(bags, regs);
      var currentPe := parallelExecution[|parallelExecution| - 1];
      parallelExecution := parallelExecution + [currentPe, currentPe];
      framesSkipped := framesSkipped + [false];
      ghost var stack := frameStack;
      StartNewFunction(regs, false, bags.bag, Mem());
      CallStands(forest.Snapshot(), stack, bags, Mem(), regs, frameStack);
      bags := SpBags.Call(bags, regs);
    }

    method FuncEntry(maySpawn: bool, regs: nat)
      requires Represents()
      modifies this, forest
      ensures Represents()
      ensures bags == SpBags.Step(old(bags), Event.FuncEntry(maySpawn, regs)) && shadow == old(shadow)
    {
      var synced := IsLocalSynced();
      assert synced <==> SpBags.LocallySynced(SpBags.Top(bags));
      if !maySpawn && synced {
        EnterInlined();
      } else {
        EnterFrame(regs);
      }
    }

    // An inlined function returns.
    method LeaveInlined()
      requires Represents() && SpBags.Top(bags).inlined > 0
      modifies this`parallelExecution, this`framesSkipped, this`bags
      ensures Represents()
      ensures bags == SpBags.Inline(old(bags), SpBags.Top(old(bags)).inlined - 1)
    {
      PopInlined(SpBags.Inline(bags, SpBags.Top(bags).inlined - 1));
      CountInlined(SpBags.Top(bags).inlined - 1);
    }

    // A called function leaves its frame.
    method LeaveFrame()
      requires Represents() && SpBags.Enabled(bags, Event.FuncExit) && SpBags.Top(bags).inlined == 0
      modifies this, forest
      ensures Represents()
      ensures bags == SpBags.Return(old(bags)) && shadow == old(shadow)
    {
      SpBags.ReturningKeepsFlagsExact(bags);
      PopFrameFlags();
      ReturnBags();
    }

    method ReturnBags()
      requires Stands(forest.Snapshot(), frameStack, bags, Mem())
      requires SpBags.Enabled(bags, Event.FuncExit) && SpBags.Top(bags).inlined == 0
      modifies this`frameStack, this`bags, forest
      ensures Stands(forest.Snapshot(), frameStack, bags, Mem())
      ensures bags == SpBags.Return(old(bags))
    {
      ghost var stack := frameStack;
      ghost var labels := LeaveCilkFunction(bags.bag, Mem());
      ReturnStands(forest.Snapshot(), stack, bags, Mem(), labels, frameStack);
      bags := SpBags.Return(bags);
    }

    method FuncExit()
      requires Represents() && SpBags.Enabled(bags, Event.FuncExit)
      modifies this, forest
      ensures Represents()
      ensures bags == SpBags.Step(old(bags), Event.FuncExit) && shadow == old(shadow)
    {
      SkipsOnTop(bags);
      if framesSkipped[|framesSkipped| - 1] {
        LeaveInlined();
      } else {
        LeaveFrame();
      }
    }

    method ClearOccupied()
      modifies this`occupied, this`shadow
      ensures occupied == {} && shadow == old(shadow).(occupied := {})
    {
      occupied := {};
      shadow := shadow.(occupied := {});
    }

    // A detach, and the start of the task it spawns.
    method Spawn(regs: nat)
      requires Represents() && SpBags.Enabled(bags, Event.Spawn(regs))
      modifies this, forest
      ensures Represents()
      ensures bags == SpBags.Step(old(bags), Event.Spawn(regs))
      ensures shadow == ControlShadow(old(shadow), Event.Spawn(regs)) && occupied == {}
      ensures FlagOnTop()
    {
      DetachFlags(bags, regs);
      SpBags.OpeningKeepsFlagsExact(bags, regs);
      parallelExecution := parallelExecution[|parallelExecution| - 1 := true];
      var currentPe := parallelExecution[|parallelExecution| - 1];
      parallelExecution := parallelExecution + [currentPe, currentPe];
      DetachBags(regs);
      ClearOccupied();
    }

    method DetachBags(regs: nat)
      requires Stands(forest.Snapshot(), frameStack, bags, Mem())
      modifies this`frameStack, this`bags, forest
      ensures Stands(forest.Snapshot(), frameStack, bags, Mem())
      ensures bags == SpBags.Detach(old(bags), regs)
    {
      ghost var stack := frameStack;
      StartNewFunction(regs, true, bags.bag, Mem());
      DetachStands(forest.Snapshot(), stack, bags, Mem(), regs, frameStack);
      bags := SpBags.Detach(bags, regs);
    }

    // A task ends, and its spawner resumes in the continuation.
    method TaskExit(reg: nat)
      requires Represents() && SpBags.Enabled(bags, Event.TaskExit(reg))
      modifies this, forest
      ensures Represents()
      ensures bags == SpBags.Step(old(bags), Event.TaskExit(reg))
      ensures shadow == ControlShadow(old(shadow), Event.TaskExit(reg)) && occupied == {}
      ensures FlagOnTop()
    {
      EndTaskFlags(bags, reg);
      SpBags.EndingKeepsFlagsExact(bags, reg);
      SpBags.EndedIsOutstanding(bags, reg);
      EndTaskBags(reg);
      parallelExecution := parallelExecution[..|parallelExecution| - 2];
      ClearOccupied();
      FlagIsOutstanding();
    }

    method EndTaskBags(reg: nat)
      requires Stands(forest.Snapshot(), frameStack, bags, Mem()) && SpBags.Enabled(bags, Event.TaskExit(reg))
      modifies this`frameStack, this`bags, forest
      ensures Stands(forest.Snapshot(), frameStack, bags, Mem())
      ensures bags == SpBags.EndTask(old(bags), reg)
    {
      ghost var stack := frameStack;
      ghost var labels := ReturnFromDetach(reg, bags.bag, Mem());
      EndTaskStands(forest.Snapshot(), stack, bags, Mem(), reg, labels, frameStack);
      bags := SpBags.EndTask(bags, reg);
    }

    method SyncBags(reg: nat)
      requires Stands(forest.Snapshot(), frameStack, bags, Mem()) && SpBags.Enabled(bags, Event.Sync(reg))
      modifies this`frameStack, this`bags, forest
      ensures Stands(forest.Snapshot(), frameStack, bags, Mem())
      ensures bags == SpBags.Join(old(bags), reg)
    {
      ghost var stack := frameStack;
      ghost var labels := CompleteSync(reg, bags.bag, Mem());
      JoinStands(forest.Snapshot(), stack, bags, Mem(), reg, labels, frameStack);
      bags := SpBags.Join(bags, reg);
    }

    // Once the frame has synced everything, its flag goes back to what it was
    // on entry.
    method RestoreFlag(ghost next: SpBags.State)
      requires StackOk(frameStack, next.frames) && |parallelExecution| >= 2
      modifies this`parallelExecution
      ensures parallelExecution == Restored(old(parallelExecution), SpBags.LocallySynced(SpBags.Top(next)))
    {
      var synced := IsLocalSynced();
      assert synced <==> SpBags.LocallySynced(SpBags.Top(next));
      if synced {
        parallelExecution := parallelExecution[|parallelExecution| - 1 := parallelExecution[|parallelExecution| - 2]];
      }
    }

    method CompleteRegion(reg: nat)
      requires Represents() && SpBags.Enabled(bags, Event.Sync(reg))
      modifies this`frameStack, this`bags, this`parallelExecution, forest
      ensures Represents()
      ensures bags == SpBags.Join(old(bags), reg)
    {
      ghost var next := SpBags.Join(bags, reg);
      JoinFlags(bags, reg, next);
      SpBags.JoiningKeepsFlagsExact(bags, reg);
      SyncBags(reg);
      RestoreFlag(next);
    }

    method Sync(reg: nat)
      requires Represents() && SpBags.Enabled(bags, Event.Sync(reg))
      modifies this, forest
      ensures Represents()
      ensures bags == SpBags.Step(old(bags), Event.Sync(reg))
      ensures shadow == ControlShadow(old(shadow), Event.Sync(reg)) && occupied == {}
      ensures FlagOnTop() <==> SpBags.Outstanding(bags.frames)
    {
      CompleteRegion(reg);
      ClearOccupied();
      FlagIsOutstanding();
    }

    // Replace the remembered access of a kind unless it is parallel to the
    // running strand; say whether it was.
    method CheckAndUpdate(write: bool, x: nat) returns (wasParallel: bool)
      requires Stands(forest.Snapshot(), frameStack, bags, Mem())
      modifies this`frameStack, this`readers, this`writers, this`shadow, forest
      ensures Stands(forest.Snapshot(), frameStack, bags, Mem())
      ensures wasParallel == PreviousInParallel(bags, if write then old(shadow).writers else old(shadow).readers, x)
      ensures shadow == if write then old(shadow).(writers := Remember(bags, old(shadow).writers, x))
                        else old(shadow).(readers := Remember(bags, old(shadow).readers, x))
    {
      ghost var m, h := Mem(), forest.Snapshot();
      assert SlotAt(h, frameStack, bags.bag, m.readers, m.readBy, false, x);
      assert SlotAt(h, frameStack, bags.bag, m.writers, m.writtenBy, true, x);
      wasParallel := false;
      if write {
        if x in writers {
          wasParallel := PreviousAccessInParallel(writers[x], bags.bag, m, shadow.writers[x]);
        }
      } else {
        if x in readers {
          wasParallel := PreviousAccessInParallel(readers[x], bags.bag, m, shadow.readers[x]);
        }
      }
      if !wasParallel {
        ghost var m' := RecordAccess(write, x, bags.bag, m, |bags.bag| - 1);
        shadow := shadow.(readers := m'.readBy, writers := m'.writtenBy);
      }
    }

    // Whether the remembered access of a kind is parallel to the running strand.
    method CheckRace(write: bool, x: nat) returns (parallel: bool)
      requires Stands(forest.Snapshot(), frameStack, bags, Mem())
      modifies forest
      ensures Stands(forest.Snapshot(), frameStack, bags, Mem())
      ensures parallel == PreviousInParallel(bags, if write then shadow.writers else shadow.readers, x)
    {
      ghost var m, h := Mem(), forest.Snapshot();
      assert SlotAt(h, frameStack, bags.bag, m.readers, m.readBy, false, x);
      assert SlotAt(h, frameStack, bags.bag, m.writers, m.writtenBy, true, x);
      parallel := false;
      if write {
        if x in writers {
          parallel := PreviousAccessInParallel(writers[x], bags.bag, m, shadow.writers[x]);
        }
      } else {
        if x in readers {
          parallel := PreviousAccessInParallel(readers[x], bags.bag, m, shadow.readers[x]);
        }
      }
    }

    // Nothing is checked while the execution is serial, and on the slow path
    // nothing is checked twice within a strand.
    method ShouldCheck(x: nat, write: bool, fast: bool) returns (check: bool)
      requires Represents()
      modifies this`occupied, this`shadow
      ensures Represents()
      ensures check == !Skipped(bags, old(shadow), x, write, fast)
      ensures check <==> SpBags.Outstanding(bags.frames) && (fast || (write, x) !in old(occupied))
      ensures shadow == old(shadow).(occupied := if check && !fast then old(shadow).occupied + {(write, x)}
                                                 else old(shadow).occupied)
    {
      FlagsOnTop(bags.frames);
      FlagIsOutstanding();
      if !FlagOnTop() {
        return false;
      }
      if !fast {
        if (write, x) in occupied {
          return false;
        }
        occupied := occupied + {(write, x)};
        shadow := shadow.(occupied := occupied);
      }
      return true;
    }

    // Report a race on a location if one was found.
    method Report(found: bool, x: nat)
      requires Represents()
      modifies this`reported, this`shadow
      ensures Represents()
      ensures shadow == old(shadow).(reported := if found then old(shadow).reported + {x} else old(shadow).reported)
    {
      if found {
        reported := reported + {x};
        shadow := shadow.(reported := reported);
      }
    }

    // A read is remembered first and checked against the last write then.
    method CheckRacesWithRead(x: nat)
      requires Represents()
      modifies this, forest
      ensures Represents() && bags == old(bags)
      ensures shadow == Check(bags, old(shadow), x, false)
    {
      var _ := CheckAndUpdate(false, x);
      var parallelWrite := CheckRace(true, x);
      Report(parallelWrite, x);
    }

    // A write is checked against the last write and remembered, and checked
    // against the last read then.
    method CheckRacesWithWrite(x: nat)
      requires Represents()
      modifies this, forest
      ensures Represents() && bags == old(bags)
      ensures shadow == Check(bags, old(shadow), x, true)
    {
      var parallelWrite := CheckAndUpdate(true, x);
      Report(parallelWrite, x);
      var parallelRead := CheckRace(false, x);
      Report(parallelRead, x);
    }

    method Load(x: nat, fast: bool)
      requires Represents()
      modifies this, forest
      ensures Represents() && bags == old(bags)
      ensures shadow == TouchShadow(bags, old(shadow), x, false, fast)
    {
      var check := ShouldCheck(x, false, fast);
      if check {
        CheckRacesWithRead(x);
      }
    }

    method Store(x: nat, fast: bool)
      requires Represents()
      modifies this, forest
      ensures Represents() && bags == old(bags)
      ensures shadow == TouchShadow(bags, old(shadow), x, true, fast)
    {
      var check := ShouldCheck(x, true, fast);
      if check {
        CheckRacesWithWrite(x);
      }
    }
  }

  // ------------------------------------------------------------ end to end

  // One hook, chosen by the action.
  method Dispatch(tool: Tool, a: Action)
    requires tool.Represents()
    requires a.Control? ==> SpBags.Enabled(tool.bags, a.e)
    modifies tool, tool.forest
    ensures tool.Represents()
    ensures a.Control? ==> tool.bags == SpBags.Step(old(tool.bags), a.e)
    ensures a.Control? ==> tool.shadow == ControlShadow(old(tool.shadow), a.e)
    ensures a.Touch? ==> tool.bags == old(tool.bags)
    ensures a.Touch? ==> tool.shadow == TouchShadow(tool.bags, old(tool.shadow), a.loc, a.write, a.fast)
  {
    match a
    case Control(FuncEntry(maySpawn, regs)) => tool.FuncEntry(maySpawn, regs);
    case Control(FuncExit) => tool.FuncExit();
    case Control(Spawn(regs)) => tool.Spawn(regs);
    case Control(TaskExit(reg)) => tool.TaskExit(reg);
    case Control(Sync(reg)) => tool.Sync(reg);
    case Touch(x, write, fast) =>
      if write {
        tool.Store(x, fast);
      } else {
        tool.Load(x, fast);
      }
  }

  lemma {:induction false} PrefixRuns(actions: seq<Action>, i: nat)
    requires Runs(actions) && i <= |actions|
    ensures Runs(actions[..i])
    decreases |actions|
  {
    if i == |actions| {
      assert actions[..i] == actions;
    } else {
      PrefixRuns(Front(actions), i);
      assert Front(actions)[..i] == actions[..i];
    }
  }

  lemma NextOfRun(actions: seq<Action>, i: nat)
    requires i < |actions| && Runs(actions[..i + 1])
    ensures Runs(actions[..i]) && CanMove(Outcome(actions[..i]), actions[i])
    ensures Outcome(actions[..i + 1]) == Act(Outcome(actions[..i]), actions[i])
  {
    assert Front(actions[..i + 1]) == actions[..i] && Last(actions[..i + 1]) == actions[i];
  }

  // The whole tool, on any well-nested program: every location it reports has
  // two logically parallel accesses in the computation dag, one of them a
  // write; and if the program syncs in nested order, it reports all of these.
  method Execute(actions: seq<Action>) returns (reported: set<nat>)
    requires Runs(actions)
    ensures reported == Outcome(actions).shadow.reported
    ensures forall x :: x in reported ==> HasRace(Outcome(actions), x)
    ensures NestedRun(actions) ==> forall x :: x in reported <==> HasRace(Outcome(actions), x)
  {
    var tool := new Tool();
    assert actions[..0] == [];
    for i := 0 to |actions|
      invariant fresh(tool) && fresh(tool.forest) && tool.Represents()
      invariant Runs(actions[..i])
      invariant tool.bags == Outcome(actions[..i]).bags && tool.shadow == Outcome(actions[..i]).shadow
    {
      PrefixRuns(actions, i + 1);
      NextOfRun(actions, i);
      Dispatch(tool, actions[i]);
    }
    assert actions[..|actions|] == actions;
    reported := tool.reported;
    SyncRegions.ReportsOnlyRaces(actions);
    if NestedRun(actions) {
      ReportsExactlyTheRaces(actions);
    }
  }
}
