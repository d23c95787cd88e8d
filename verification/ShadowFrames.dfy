// What the Cilkscale hooks do to the frames of the shadow stack, and the
// theorem that they measure work, span and burdened span.

module ShadowFrames {
  import opened StrandDag
  import opened WeightedDag
  import opened SpanTracking

  datatype Kind = MAIN | SPAWNER | HELPER

  datatype Frame = Frame(kind: Kind,
                         achildWork: int, continWork: int,
                         lchildSpan: nat, continSpan: nat,
                         lchildBspan: nat, continBspan: nat)

  function Init(kind: Kind): Frame {
    Frame(kind, 0, 0, 0, 0, 0, 0)
  }

  // The hooks of the tool, with the running time of the strand that ends.
  datatype Hook =
    | FuncEntryHook(t: nat)
    | FuncExitHook(t: nat)
    | DetachHook(t: nat)
    | TaskHook
    | TaskExitHook(t: nat)
    | DetachContinueHook
    | BeforeSyncHook(t: nat)
    | AfterSyncHook

  function Charge(f: Frame, t: nat): Frame {
    f.(continWork := f.continWork + t, continSpan := f.continSpan + t, continBspan := f.continBspan + t)
  }

  // A new frame goes on from the frame that opens it.
  function Inherit(kind: Kind, p: Frame): Frame {
    Frame(kind, 0, p.continWork, 0, p.continSpan, 0, p.continBspan)
  }

  // A called function has returned.
  function Resume(p: Frame, c: Frame): Frame {
    p.(continWork := c.continWork, continSpan := c.continSpan, continBspan := c.continBspan)
  }

  // A spawned task has ended.
  function Absorb(burden: nat, p: Frame, c: Frame): Frame {
    p.(achildWork := p.achildWork + (c.continWork - p.continWork),
       lchildSpan := Max(p.lchildSpan, c.continSpan),
       lchildBspan := Max(p.lchildBspan, c.continBspan + burden))
  }

  // The spawned children have joined.
  function Joined(f: Frame): Frame {
    f.(continWork := f.continWork + f.achildWork, achildWork := 0,
       continSpan := Max(f.continSpan, f.lchildSpan), lchildSpan := 0,
       continBspan := Max(f.continBspan, f.lchildBspan), lchildBspan := 0)
  }

  predicate Applies(depth: nat, h: Hook) {
    depth > 0 && (h.FuncExitHook? || h.TaskExitHook? ==> depth > 1)
  }

  function Apply(burden: nat, s: seq<Frame>, h: Hook): (s': seq<Frame>)
    requires Applies(|s|, h)
    ensures |s'| > 0
  {
    var k := |s| - 1;
    match h
    case FuncEntryHook(t) => s[..k] + [Charge(s[k], t), Inherit(SPAWNER, Charge(s[k], t))]
    case FuncExitHook(t) => s[..k - 1] + [Resume(s[k - 1], Charge(s[k], t))]
    case DetachHook(t) => s[..k] + [Charge(s[k], t)]
    case TaskHook => s + [Inherit(HELPER, s[k])]
    case TaskExitHook(t) => s[..k - 1] + [Absorb(burden, s[k - 1], Charge(s[k], t))]
    case DetachContinueHook => s[..k] + [s[k].(continBspan := s[k].continBspan + burden)]
    case BeforeSyncHook(t) => s[..k] + [Charge(s[k], t)]
    case AfterSyncHook => s[..k] + [Joined(s[k])]
  }

  // The hooks that run at a control event.
  function HooksOf(t: nat, e: Event): seq<Hook> {
    match e
    case FuncEntry(_, _) => [FuncEntryHook(t)]
    case FuncExit => [FuncExitHook(t)]
    case Spawn(_) => [DetachHook(t), TaskHook]
    case TaskExit(_) => [TaskExitHook(t), DetachContinueHook]
    case Sync(_) => [BeforeSyncHook(t), AfterSyncHook]
  }

  predicate AllApply(burden: nat, s: seq<Frame>, hs: seq<Hook>)
    decreases |hs|
  {
    |hs| == 0 || (Applies(|s|, hs[0]) && AllApply(burden, Apply(burden, s, hs[0]), hs[1..]))
  }

  function ApplyAll(burden: nat, s: seq<Frame>, hs: seq<Hook>): seq<Frame>
    requires AllApply(burden, s, hs)
    decreases |hs|
  {
    if |hs| == 0 then s else ApplyAll(burden, Apply(burden, s, hs[0]), hs[1..])
  }

  // Both hooks of an event in one step.
  function StepFrames(burden: nat, s: seq<Frame>, t: nat, e: Event): seq<Frame>
    requires Fits(|s|, e)
  {
    var k := |s| - 1;
    match e
    case FuncEntry(_, _) => s[..k] + [Charge(s[k], t), Inherit(SPAWNER, Charge(s[k], t))]
    case FuncExit => s[..k - 1] + [Resume(s[k - 1], Charge(s[k], t))]
    case Spawn(_) => s[..k] + [Charge(s[k], t), Inherit(HELPER, Charge(s[k], t))]
    case TaskExit(_) =>
      var p := Absorb(burden, s[k - 1], Charge(s[k], t));
      s[..k - 1] + [p.(continBspan := p.continBspan + burden)]
    case Sync(_) => s[..k] + [Joined(Charge(s[k], t))]
  }

  lemma HooksMakeTheStep(burden: nat, s: seq<Frame>, t: nat, e: Event)
    requires Fits(|s|, e)
    ensures AllApply(burden, s, HooksOf(t, e))
    ensures ApplyAll(burden, s, HooksOf(t, e)) == StepFrames(burden, s, t, e)
  {
    var hs := HooksOf(t, e);
    var s1 := Apply(burden, s, hs[0]);
    if |hs| == 2 {
      assert hs[1..] == [hs[1]];
      assert ApplyAll(burden, s1, [hs[1]]) == Apply(burden, s1, hs[1]);
    } else {
      assert hs[1..] == [];
    }
  }

  // ------------------------------------------------------- the span of a run

  function Spans(s: seq<Frame>): (cells: seq<Cell>)
    ensures |cells| == |s|
  {
    seq(|s|, i requires 0 <= i < |s| => Cell(s[i].continSpan, s[i].lchildSpan))
  }

  function Bspans(s: seq<Frame>): (cells: seq<Cell>)
    ensures |cells| == |s|
  {
    seq(|s|, i requires 0 <= i < |s| => Cell(s[i].continBspan, s[i].lchildBspan))
  }

  lemma SpansStep(burden: nat, s: seq<Frame>, t: nat, e: Event)
    requires Fits(|s|, e)
    ensures Spans(StepFrames(burden, s, t, e)) == StepCells(0, Spans(s), t, e)
  {
  }

  lemma BspansStep(burden: nat, s: seq<Frame>, t: nat, e: Event)
    requires Fits(|s|, e)
    ensures Bspans(StepFrames(burden, s, t, e)) == StepCells(burden, Bspans(s), t, e)
  {
  }

  // ------------------------------------------------------- the work of a run

  function AchildWork(s: seq<Frame>): int {
    if |s| == 0 then 0 else AchildWork(s[..|s| - 1]) + s[|s| - 1].achildWork
  }

  // All running time so far is in the current frame or with an outstanding
  // child of some frame, and frames without outstanding tasks have none.
  ghost predicate WorkTracked(g: Timed, s: seq<Frame>) {
    && |s| == |g.dag.frames| > 0
    && s[|s| - 1].continWork + AchildWork(s) == Sum(g.time)
    && forall i :: 0 <= i < |s| && NoLeaves(g.dag.frames[i]) ==> s[i].achildWork == 0
  }

  lemma SumAppend(s: seq<nat>, x: nat)
    ensures Sum(s + [x]) == Sum(s) + x
  {
    assert (s + [x])[..|s|] == s;
  }

  lemma ElapsedWork(g: Timed, t: nat)
    requires |g.time| > 0
    ensures Sum(Elapse(g, t).time) == Sum(g.time) + t
  {
    var k := |g.time| - 1;
    assert Elapse(g, t).time[..k] == g.time[..k];
  }

  lemma AchildSplit(s: seq<Frame>, f: Frame)
    ensures AchildWork(s + [f]) == AchildWork(s) + f.achildWork
  {
    assert (s + [f])[..|s|] == s;
  }

  lemma StepKeepsAchild(burden: nat, s: seq<Frame>, t: nat, e: Event)
    requires Fits(|s|, e)
    requires e.FuncExit? || e.TaskExit? ==> s[|s| - 1].achildWork == 0
    ensures var s' := StepFrames(burden, s, t, e);
      s'[|s'| - 1].continWork + AchildWork(s') == s[|s| - 1].continWork + AchildWork(s) + t
  {
    var k := |s| - 1;
    var s' := StepFrames(burden, s, t, e);
    assert s == s[..k] + [s[k]];
    AchildSplit(s[..k], s[k]);
    if e.FuncExit? || e.TaskExit? {
      assert s[..k] == s[..k - 1] + [s[k - 1]];
      AchildSplit(s[..k - 1], s[k - 1]);
      AchildSplit(s[..k - 1], s'[k - 1]);
    } else if e.Sync? {
      AchildSplit(s[..k], s'[k]);
    } else {
      assert s' == (s[..k] + [s'[k]]) + [s'[k + 1]];
      AchildSplit(s[..k] + [s'[k]], s'[k + 1]);
      AchildSplit(s[..k], s'[k]);
    }
  }

  // After a task has ended its spawner has a leaf to wait for.
  lemma SpawnerIsBusy(d: Dag, e: Event)
    requires Enabled(d, e) && e.TaskExit?
    ensures var d' := Step(d, e); |d'.frames| == |d.frames| - 1 > 0 && !NoLeaves(Top(d'))
  {
    assert Top(d).strand in Top(Step(d, e)).leaves[e.reg];
  }

  lemma LeavingFrameIsIdle(g: Timed, s: seq<Frame>, e: Event)
    requires WellTimed(g) && Measured(g.dag, e) && WorkTracked(g, s)
    ensures Fits(|s|, e)
    ensures e.FuncExit? || e.TaskExit? ==> s[|s| - 1].achildWork == 0
  {
    WellTimedLeaves(g, |s| - 1);
  }

  lemma StepKeepsIdleFrames(g: Timed, burden: nat, s: seq<Frame>, t: nat, e: Event)
    requires WellTimed(g) && Measured(g.dag, e) && WorkTracked(g, s) && Fits(|s|, e)
    ensures var d' := Step(g.dag, e); var s' := StepFrames(burden, s, t, e);
      |s'| == |d'.frames|
      && forall i :: 0 <= i < |s'| && NoLeaves(d'.frames[i]) ==> s'[i].achildWork == 0
  {
    var k := |s| - 1;
    WellTimedLeaves(g, k);
    var d', s' := Step(g.dag, e), StepFrames(burden, s, t, e);
    if e.TaskExit? {
      SpawnerIsBusy(g.dag, e);
    }
    forall i | 0 <= i < |s'| && NoLeaves(d'.frames[i])
      ensures s'[i].achildWork == 0
    {
      if i < |s| - 1 && (e.FuncExit? || e.TaskExit? ==> i < k - 1) {
        assert d'.frames[i] == g.dag.frames[i] && s'[i] == s[i];
      }
    }
  }

  lemma WorkStep(g: Timed, burden: nat, s: seq<Frame>, t: nat, e: Event)
    requires WellTimed(g) && Measured(g.dag, e) && WorkTracked(g, s)
    ensures Fits(|s|, e)
    ensures WorkTracked(Advance(g, t, e), StepFrames(burden, s, t, e))
  {
    LeavingFrameIsIdle(g, s, e);
    StepKeepsIdleFrames(g, burden, s, t, e);
    StepKeepsAchild(burden, s, t, e);
    ElapsedWork(g, t);
    SumAppend(Elapse(g, t).time, 0);
  }

  // ------------------------------------------------------ the cost of burdens

  // The burdened span exceeds the span by at most `extra`.
  predicate FrameBurdened(f: Frame, extra: nat) {
    && f.continSpan <= f.continBspan <= f.continSpan + extra
    && f.lchildSpan <= f.lchildBspan <= f.lchildSpan + extra
  }

  ghost predicate BurdenBounded(s: seq<Frame>, extra: nat) {
    forall i :: 0 <= i < |s| ==> FrameBurdened(s[i], extra)
  }

  lemma BurdenStep(burden: nat, s: seq<Frame>, t: nat, e: Event, extra: nat)
    requires Fits(|s|, e) && BurdenBounded(s, extra)
    ensures BurdenBounded(StepFrames(burden, s, t, e), if e.TaskExit? then extra + burden else extra)
  {
    var s' := StepFrames(burden, s, t, e);
    var k := |s| - 1;
    assert FrameBurdened(s[k], extra);
    if k > 0 {
      assert FrameBurdened(s[k - 1], extra);
    }
    forall i | 0 <= i < |s'|
      ensures FrameBurdened(s'[i], if e.TaskExit? then extra + burden else extra)
    {
      if i < |s| {
        assert FrameBurdened(s[i], extra);
      }
    }
  }

  // -------------------------------------------------------------- whole runs

  datatype TimedEvent = TimedEvent(t: nat, e: Event)

  // A well-nested run from `g` on.
  ghost predicate IsRun(g: Timed, es: seq<TimedEvent>)
    decreases |es|
  {
    WellTimed(g) && (|es| > 0 ==> Measured(g.dag, es[0].e) && IsRun(Advance(g, es[0].t, es[0].e), es[1..]))
  }

  ghost function Outcome(g: Timed, es: seq<TimedEvent>): Timed
    requires IsRun(g, es)
    decreases |es|
  {
    if |es| == 0 then g else Outcome(Advance(g, es[0].t, es[0].e), es[1..])
  }

  predicate FramesFit(burden: nat, s: seq<Frame>, es: seq<TimedEvent>)
    decreases |es|
  {
    |es| > 0 ==> Fits(|s|, es[0].e) && FramesFit(burden, StepFrames(burden, s, es[0].t, es[0].e), es[1..])
  }

  function FramesAfter(burden: nat, s: seq<Frame>, es: seq<TimedEvent>): seq<Frame>
    requires FramesFit(burden, s, es)
    decreases |es|
  {
    if |es| == 0 then s else FramesAfter(burden, StepFrames(burden, s, es[0].t, es[0].e), es[1..])
  }

  // How many tasks end in a run.
  function TasksEnded(es: seq<TimedEvent>): nat {
    if |es| == 0 then 0 else (if es[0].e.TaskExit? then 1 else 0) + TasksEnded(es[1..])
  }

  // The burdens of the tasks that end in a run.
  function BurdenOf(burden: nat, es: seq<TimedEvent>): nat {
    if |es| == 0 then 0 else (if es[0].e.TaskExit? then burden else 0) + BurdenOf(burden, es[1..])
  }

  lemma {:induction false} BurdenPerTask(burden: nat, es: seq<TimedEvent>)
    ensures BurdenOf(burden, es) == burden * TasksEnded(es)
  {
    if |es| > 0 {
      BurdenPerTask(burden, es[1..]);
      assert burden * (1 + TasksEnded(es[1..])) == burden + burden * TasksEnded(es[1..]);
    }
  }

  // The frames account for all that has run.
  ghost predicate Accounts(g: Timed, burden: nat, s: seq<Frame>, extra: nat) {
    && WellTimed(g) && |s| == |g.dag.frames|
    && Tracked(g, 0, Spans(s)) && Covered(g, 0, Spans(s))
    && Tracked(g, burden, Bspans(s)) && Covered(g, burden, Bspans(s))
    && WorkTracked(g, s)
    && BurdenBounded(s, extra)
  }

  lemma InitiallyAccounts(burden: nat)
    ensures Accounts(START, burden, [Init(MAIN)], 0)
  {
    var s := [Init(MAIN)];
    assert FrameTimed(START, 0);
    assert FrameTracked(START, 0, START.dag.frames[0], Spans(s)[0]);
    assert FrameTracked(START, burden, START.dag.frames[0], Bspans(s)[0]);
    assert StrandWithin(START, 0, Spans(s), 0) && StrandWithin(START, burden, Bspans(s), 0);
    assert START.time[..0] == [] && s[..0] == [];
  }

  lemma StepAccounts(g: Timed, burden: nat, s: seq<Frame>, extra: nat, t: nat, e: Event)
    requires Accounts(g, burden, s, extra) && Measured(g.dag, e)
    ensures Fits(|s|, e)
    ensures Accounts(Advance(g, t, e), burden, StepFrames(burden, s, t, e),
                     if e.TaskExit? then extra + burden else extra)
  {
    StepIsTracked(g, 0, Spans(s), t, e);
    StepIsTracked(g, burden, Bspans(s), t, e);
    SpansStep(burden, s, t, e);
    BspansStep(burden, s, t, e);
    WorkStep(g, burden, s, t, e);
    BurdenStep(burden, s, t, e, extra);
  }

  lemma {:induction false} RunAccounts(g: Timed, burden: nat, s: seq<Frame>, extra: nat, es: seq<TimedEvent>)
    returns (s': seq<Frame>, extra': nat)
    requires Accounts(g, burden, s, extra) && IsRun(g, es)
    ensures Accounts(Outcome(g, es), burden, s', extra') && extra' == extra + BurdenOf(burden, es)
    ensures FramesFit(burden, s, es) && s' == FramesAfter(burden, s, es)
    decreases |es|
  {
    if |es| == 0 {
      s', extra' := s, extra;
    } else {
      StepAccounts(g, burden, s, extra, es[0].t, es[0].e);
      var n := if es[0].e.TaskExit? then extra + burden else extra;
      s', extra' := RunAccounts(Advance(g, es[0].t, es[0].e), burden,
                                StepFrames(burden, s, es[0].t, es[0].e), n, es[1..]);
    }
  }

  // `x` is the length of the longest of all paths through the dag.
  ghost predicate LongestPath(g: Timed, b: nat, x: nat)
    requires Sized(g)
  {
    && (forall p :: IsPath(g, p) ==> Length(g, b, p) <= x)
    && (exists p :: IsPath(g, p) && Length(g, b, p) == x)
  }

  predicate AllSynced(d: Dag) {
    forall i :: 0 <= i < |d.frames| ==> NoLeaves(d.frames[i])
  }

  lemma PeakIsLongestPath(g: Timed, b: nat, cells: seq<Cell>)
    requires WellTimed(g) && Tracked(g, b, cells) && Covered(g, b, cells) && AllSynced(g.dag)
    ensures LongestPath(g, b, cells[|cells| - 1].contin)
  {
    var k := |cells| - 1;
    var x := cells[k].contin;
    forall i | 0 <= i < |cells|
      ensures cells[i].lchild == 0
    {
      WellTimedLeaves(g, i);
      assert FrameTracked(g, b, g.dag.frames[i], cells[i]);
    }
    forall p | IsPath(g, p)
      ensures Length(g, b, p) <= x
    {
      NoPathIsLonger(g, b, p);
      assert StrandWithin(g, b, cells, End(p));
    }
    assert FrameTracked(g, b, g.dag.frames[k], cells[k]);
    var p := SomePathIsAsLong(g, b, g.dag.frames[k].strand);
  }

  lemma {:induction false} NoChildWork(s: seq<Frame>)
    requires forall i :: 0 <= i < |s| ==> s[i].achildWork == 0
    ensures AchildWork(s) == 0
  {
    if |s| > 0 {
      NoChildWork(s[..|s| - 1]);
    }
  }

  // At every moment the current frame holds the longest path to the current
  // strand, without and with the burdens, and its work and that of outstanding
  // tasks is the work so far.
  lemma MeasuresTheCurrentStrand(g: Timed, burden: nat, s: seq<Frame>, extra: nat)
    requires Accounts(g, burden, s, extra)
    ensures var f := s[|s| - 1];
      && f.continWork + AchildWork(s) == Sum(g.time)
      && f.continSpan == Longest(g, 0, |g.time| - 1)
      && f.continBspan == Longest(g, burden, |g.time| - 1)
      && f.continSpan <= f.continBspan <= f.continSpan + extra
  {
    var k := |s| - 1;
    assert FrameTracked(g, 0, g.dag.frames[k], Spans(s)[k]);
    assert FrameTracked(g, burden, g.dag.frames[k], Bspans(s)[k]);
    assert FrameBurdened(s[k], extra);
  }

  lemma SpanWithinWork(g: Timed)
    requires WellTimed(g)
    ensures Longest(g, 0, |g.time| - 1) <= Sum(g.time)
  {
    var p := SomePathIsAsLong(g, 0, |g.time| - 1);
    PathWithinWork(g, p);
    assert g.time[..|g.time|] == g.time;
  }

  // The frame holds the total work, the longest path of the whole dag and the
  // longest path of the burdened dag.
  ghost predicate Measures(f: Frame, g: Timed, burden: nat, extra: nat)
    requires Sized(g)
  {
    && f.continWork == Sum(g.time)
    && LongestPath(g, 0, f.continSpan)
    && LongestPath(g, burden, f.continBspan)
    && f.continSpan <= f.continWork
    && f.continSpan <= f.continBspan <= f.continSpan + extra
  }

  lemma MeasuresTheWholeRun(g: Timed, burden: nat, s: seq<Frame>, extra: nat)
    requires Accounts(g, burden, s, extra) && AllSynced(g.dag)
    ensures Measures(s[|s| - 1], g, burden, extra)
  {
    MeasuresTheCurrentStrand(g, burden, s, extra);
    SpanWithinWork(g);
    PeakIsLongestPath(g, 0, Spans(s));
    PeakIsLongestPath(g, burden, Bspans(s));
    NoChildWork(s);
  }

  lemma RunMeasures(g: Timed, burden: nat, s: seq<Frame>, es: seq<TimedEvent>)
    requires Accounts(g, burden, s, 0) && IsRun(g, es) && AllSynced(Outcome(g, es).dag)
    ensures FramesFit(burden, s, es) && Sized(Outcome(g, es))
    ensures var s' := FramesAfter(burden, s, es);
      |s'| > 0 && Measures(s'[|s'| - 1], Outcome(g, es), burden, BurdenOf(burden, es))
  {
    var s', extra := RunAccounts(g, burden, s, 0, es);
    MeasuresTheWholeRun(Outcome(g, es), burden, s', extra);
  }

  // What Cilkscale reports for any well-nested run that ends with all tasks
  // synced, from a single frame for the main program on.
  lemma CilkscaleMeasures(burden: nat, es: seq<TimedEvent>)
    requires IsRun(START, es) && AllSynced(Outcome(START, es).dag)
    ensures FramesFit(burden, [Init(MAIN)], es) && Sized(Outcome(START, es))
    ensures var s := FramesAfter(burden, [Init(MAIN)], es);
      |s| > 0 && Measures(s[|s| - 1], Outcome(START, es), burden, burden * TasksEnded(es))
  {
    InitiallyAccounts(burden);
    RunMeasures(START, burden, [Init(MAIN)], es);
    BurdenPerTask(burden, es);
  }
}
