// Longest paths computed online: one cell per frame, updated at each control
// event, holds the longest path to the frame's strand and the longest path to
// the tasks that wait for its sync.  With a burden of zero this is the span,
// with the scheduling burden the burdened span.

module SpanTracking {
  import opened StrandDag
  import opened WeightedDag

  datatype Cell = Cell(contin: nat, lchild: nat)

  predicate Fits(depth: nat, e: Event) {
    depth > 0 && (e.FuncExit? || e.TaskExit? ==> depth > 1)
  }

  function AfterTime(cells: seq<Cell>, t: nat): seq<Cell>
    requires |cells| > 0
  {
    var k := |cells| - 1;
    cells[..k] + [cells[k].(contin := cells[k].contin + t)]
  }

  // The current strand has run for its time; what the event does to the cells
  // when an edge that is burdened costs `b`.
  function AfterEvent(b: nat, cells: seq<Cell>, e: Event): seq<Cell>
    requires Fits(|cells|, e)
  {
    var k := |cells| - 1;
    match e
    case FuncEntry(_, _) => cells + [Cell(cells[k].contin, 0)]
    case Spawn(_) => cells + [Cell(cells[k].contin, 0)]
    case FuncExit => cells[..k - 1] + [cells[k - 1].(contin := cells[k].contin)]
    case TaskExit(_) =>
      cells[..k - 1] + [Cell(cells[k - 1].contin + b, Max(cells[k - 1].lchild, cells[k].contin + b))]
    case Sync(_) => cells[..k] + [Cell(Max(cells[k].contin, cells[k].lchild), 0)]
  }

  function StepCells(b: nat, cells: seq<Cell>, t: nat, e: Event): seq<Cell>
    requires Fits(|cells|, e)
  {
    AfterEvent(b, AfterTime(cells, t), e)
  }

  // `m` is the longest path to a waiting task, the burden of its return
  // included; with no task waiting it is zero.
  ghost predicate LongestLeaf(g: Timed, b: nat, leaves: set<nat>, m: nat) {
    && Sized(g) && (forall l :: l in leaves ==> l < |g.time|)
    && (leaves == {} ==> m == 0)
    && (forall l :: l in leaves ==> Longest(g, b, l) + b <= m)
    && (leaves != {} ==> exists l :: l in leaves && Longest(g, b, l) + b == m)
  }

  ghost predicate FrameTracked(g: Timed, b: nat, f: DFrame, c: Cell) {
    && Sized(g) && f.strand < |g.time| && Longest(g, b, f.strand) == c.contin
    && LongestLeaf(g, b, AllLeaves(f.leaves), c.lchild)
  }

  ghost predicate Tracked(g: Timed, b: nat, cells: seq<Cell>) {
    && |cells| == |g.dag.frames|
    && forall i :: 0 <= i < |cells| ==> FrameTracked(g, b, g.dag.frames[i], cells[i])
  }

  ghost predicate Within(cells: seq<Cell>, x: nat)
    requires |cells| > 0
  {
    x <= cells[|cells| - 1].contin || exists i :: 0 <= i < |cells| && x <= cells[i].lchild
  }

  // No strand of the whole dag has a longer path to it than the cells say.
  ghost predicate Covered(g: Timed, b: nat, cells: seq<Cell>) {
    && Sized(g) && |cells| > 0
    && forall v: nat :: v < |g.time| ==> StrandWithin(g, b, cells, v)
  }

  ghost predicate StrandWithin(g: Timed, b: nat, cells: seq<Cell>, v: nat)
    requires Sized(g) && |cells| > 0 && v < |g.time|
  {
    Within(cells, Longest(g, b, v))
  }

  // ------------------------------------------------------------- time passes

  lemma TimeKeepsLeaf(g: Timed, b: nat, t: nat, leaves: set<nat>, m: nat)
    requires WellTimed(g) && LongestLeaf(g, b, leaves, m)
    requires forall l :: l in leaves ==> l < |g.time| - 1
    ensures LongestLeaf(Elapse(g, t), b, leaves, m)
  {
    forall l | l in leaves
      ensures Longest(Elapse(g, t), b, l) == Longest(g, b, l)
    {
      ElapseElsewhere(g, b, t, l);
    }
  }

  lemma TimeKeepsTracked(g: Timed, b: nat, t: nat, cells: seq<Cell>)
    requires WellTimed(g) && Tracked(g, b, cells)
    ensures Tracked(Elapse(g, t), b, AfterTime(cells, t))
  {
    var g', cells' := Elapse(g, t), AfterTime(cells, t);
    forall i | 0 <= i < |cells|
      ensures FrameTracked(g', b, g'.dag.frames[i], cells'[i])
    {
      var f := g.dag.frames[i];
      WellTimedLeaves(g, i);
      assert FrameTracked(g, b, f, cells[i]);
      if i < |cells| - 1 { ElapseElsewhere(g, b, t, f.strand); } else { ElapseHere(g, b, t); }
      TimeKeepsLeaf(g, b, t, AllLeaves(f.leaves), cells[i].lchild);
    }
  }

  lemma TimeKeepsWithin(cells: seq<Cell>, t: nat, x: nat)
    requires |cells| > 0 && Within(cells, x)
    ensures Within(AfterTime(cells, t), x)
  {
    var k := |cells| - 1;
    if x > cells[k].contin {
      var i :| 0 <= i < |cells| && x <= cells[i].lchild;
      assert x <= AfterTime(cells, t)[i].lchild;
    }
  }

  lemma TimeKeepsCovered(g: Timed, b: nat, t: nat, cells: seq<Cell>)
    requires WellTimed(g) && Tracked(g, b, cells) && Covered(g, b, cells)
    ensures Covered(Elapse(g, t), b, AfterTime(cells, t))
  {
    var g', cells' := Elapse(g, t), AfterTime(cells, t);
    var k := |cells| - 1;
    forall v: nat | v < |g.time|
      ensures StrandWithin(g', b, cells', v)
    {
      assert StrandWithin(g, b, cells, v);
      if v == |g.time| - 1 {
        assert FrameTracked(g, b, g.dag.frames[k], cells[k]);
        ElapseHere(g, b, t);
      } else {
        ElapseElsewhere(g, b, t, v);
        TimeKeepsWithin(cells, t, Longest(g, b, v));
      }
    }
  }

  // ------------------------------------------------------------ a new strand

  lemma ExtendingKeepsLeaf(g: Timed, g': Timed, b: nat, leaves: set<nat>, m: nat)
    requires Extends(g, g') && LongestLeaf(g, b, leaves, m)
    ensures LongestLeaf(g', b, leaves, m)
  {
    forall l | l in leaves
      ensures Longest(g', b, l) == Longest(g, b, l)
    {
      ExtendKeepsLongest(g, g', b, l);
    }
  }

  lemma ExtendingKeepsFrame(g: Timed, g': Timed, b: nat, f: DFrame, c: Cell)
    requires Extends(g, g') && FrameTracked(g, b, f, c)
    ensures FrameTracked(g', b, f, c)
  {
    ExtendKeepsLongest(g, g', b, f.strand);
    ExtendingKeepsLeaf(g, g', b, AllLeaves(f.leaves), c.lchild);
  }

  // The longest path to a strand with one predecessor.
  lemma AfterOne(g: Timed, g': Timed, b: nat, u: nat)
    requires Extends(g, g') && |g'.time| == |g.time| + 1 && u < |g.time|
    requires var v := |g.time|; g'.time[v] == 0 && g'.dag.preds[v] == {u}
    ensures Longest(g', b, |g.time|) == Longest(g, b, u) + EdgeCost(g', b, u, |g.time|)
  {
    var v := |g.time|;
    ExtendKeepsLongest(g, g', b, u);
    assert u in g'.dag.preds[v];
    AfterPredecessors(g', b, v, Longest(g, b, u) + EdgeCost(g', b, u, v));
  }

  // The longest path to the strand after a sync.
  lemma AfterSync(g: Timed, g': Timed, b: nat, u: nat, leaves: set<nat>, m: nat)
    requires Extends(g, g') && |g'.time| == |g.time| + 1 && u < |g.time|
    requires LongestLeaf(g, b, leaves, m)
    requires u !in leaves
    requires var v := |g.time|; g'.time[v] == 0 && g'.dag.preds[v] == {u} + leaves && g'.burdened[v] == leaves
    ensures Longest(g', b, |g.time|) == Max(Longest(g, b, u), m)
  {
    var v := |g.time|;
    var y := Max(Longest(g, b, u), m);
    ExtendKeepsLongest(g, g', b, u);
    ExtendingKeepsLeaf(g, g', b, leaves, m);
    assert u in g'.dag.preds[v];
    if y != Longest(g, b, u) {
      var l :| l in leaves && Longest(g', b, l) + b == m;
      assert l in g'.dag.preds[v] && Longest(g', b, l) + EdgeCost(g', b, l, v) == y;
    }
    AfterPredecessors(g', b, v, y);
  }

  // A task that ends becomes one more waiting leaf.
  lemma OneMoreLeaf(g: Timed, b: nat, leaves: set<nat>, m: nat, u: nat)
    requires LongestLeaf(g, b, leaves, m) && u < |g.time|
    ensures LongestLeaf(g, b, leaves + {u}, Max(m, Longest(g, b, u) + b))
  {
    var m' := Max(m, Longest(g, b, u) + b);
    if m' != Longest(g, b, u) + b {
      var l :| l in leaves && Longest(g, b, l) + b == m;
      assert l in leaves + {u} && Longest(g, b, l) + b == m';
    } else {
      assert u in leaves + {u};
    }
  }

  // `g` has its current strand's time; the event opens a new strand.
  ghost predicate Opens(g: Timed, e: Event, g': Timed) {
    && WellTimed(g) && Measured(g.dag, e)
    && g' == Append(g, Step(g.dag, e), BurdenedPreds(g.dag, e))
    && WellTimed(g') && Extends(g, g') && |g'.time| == |g.time| + 1
  }

  lemma AdvanceOpens(g: Timed, t: nat, e: Event)
    requires WellTimed(g) && Measured(g.dag, e)
    ensures Opens(Elapse(g, t), e, Advance(g, t, e))
  {
    AdvanceWellTimed(g, t, e);
    StepWellFormed(g.dag, e);
    forall i | 0 <= i < |g.dag.frames|
      ensures FrameTimed(Elapse(g, t), i)
    {
      assert FrameTimed(g, i);
    }
  }

  lemma OpeningIsTracked(g: Timed, e: Event, g': Timed, b: nat, cells: seq<Cell>)
    requires Opens(g, e, g') && Tracked(g, b, cells) && (e.FuncEntry? || e.Spawn?)
    ensures Tracked(g', b, AfterEvent(b, cells, e))
  {
    var cells' := AfterEvent(b, cells, e);
    var k := |cells| - 1;
    forall i | 0 <= i < |cells'|
      ensures FrameTracked(g', b, g'.dag.frames[i], cells'[i])
    {
      if i <= k {
        ExtendingKeepsFrame(g, g', b, g.dag.frames[i], cells[i]);
      } else {
        assert FrameTracked(g, b, g.dag.frames[k], cells[k]);
        AfterOne(g, g', b, Top(g.dag).strand);
        WellTimedLeaves(g, k);
        FramesNotInlined(g);
        StepLeaves(g.dag, e);
      }
    }
  }

  lemma ReturningIsTracked(g: Timed, e: Event, g': Timed, b: nat, cells: seq<Cell>)
    requires Opens(g, e, g') && Tracked(g, b, cells) && e.FuncExit?
    ensures |cells| > 1
    ensures Tracked(g', b, AfterEvent(b, cells, e))
  {
    var k := |cells| - 1;
    FramesNotInlined(g);
    var cells' := AfterEvent(b, cells, e);
    forall i | 0 <= i < |cells'|
      ensures FrameTracked(g', b, g'.dag.frames[i], cells'[i])
    {
      assert FrameTracked(g, b, g.dag.frames[i], cells[i]);
      assert FrameTracked(g, b, g.dag.frames[k], cells[k]);
      if i == k - 1 {
        CallerContinues(g, g', b, g.dag.frames[i], cells[i], Top(g.dag).strand, cells[k].contin);
      } else {
        ExtendingKeepsFrame(g, g', b, g.dag.frames[i], cells[i]);
      }
    }
  }

  lemma CallerContinues(g: Timed, g': Timed, b: nat, f: DFrame, c: Cell, last: nat, contin: nat)
    requires Extends(g, g') && FrameTracked(g, b, f, c) && last < |g.time| && Longest(g, b, last) == contin
    requires |g'.time| == |g.time| + 1 && g'.time[|g.time|] == 0
    requires g'.dag.preds[|g.time|] == {last} && g'.burdened[|g.time|] == {}
    ensures FrameTracked(g', b, f.(strand := |g.time|), c.(contin := contin))
  {
    ExtendingKeepsFrame(g, g', b, f, c);
    AfterOne(g, g', b, last);
  }

  // Frame `f'` is the spawner's frame `f` after a task with that last strand.
  ghost predicate Continues(g: Timed, g': Timed, f: DFrame, last: nat, f': DFrame) {
    var v := |g.time|;
    && |g'.dag.preds| == |g'.time| == |g'.burdened| == v + 1
    && g'.time[v] == 0 && g'.dag.preds[v] == {f.strand} && g'.burdened[v] == {f.strand}
    && f'.strand == v && AllLeaves(f'.leaves) == AllLeaves(f.leaves) + {last}
  }

  lemma SpawnerContinues(g: Timed, e: Event, g': Timed)
    requires Opens(g, e, g') && e.TaskExit?
    ensures |g.dag.frames| > 1 && |g'.dag.frames| == |g.dag.frames| - 1
    ensures Continues(g, g', g.dag.frames[|g.dag.frames| - 2], Top(g.dag).strand, Top(g'.dag))
  {
    var k := |g.dag.frames| - 1;
    WellTimedLeaves(g, k);
    WellTimedLeaves(g, k - 1);
    FramesNotInlined(g);
    StepLeaves(g.dag, e);
  }

  lemma SpawnerIsTracked(g: Timed, g': Timed, b: nat, f: DFrame, c: Cell, last: nat, f': DFrame)
    requires Extends(g, g') && Continues(g, g', f, last, f')
    requires FrameTracked(g, b, f, c) && last < |g.time|
    ensures FrameTracked(g', b, f', Cell(c.contin + b, Max(c.lchild, Longest(g, b, last) + b)))
  {
    ExtendingKeepsFrame(g, g', b, f, c);
    ExtendKeepsLongest(g, g', b, last);
    AfterOne(g, g', b, f.strand);
    OneMoreLeaf(g', b, AllLeaves(f.leaves), c.lchild, last);
  }

  lemma TaskEndIsTracked(g: Timed, e: Event, g': Timed, b: nat, cells: seq<Cell>)
    requires Opens(g, e, g') && Tracked(g, b, cells) && e.TaskExit?
    ensures |cells| > 1
    ensures Tracked(g', b, AfterEvent(b, cells, e))
  {
    var k := |cells| - 1;
    var cells' := AfterEvent(b, cells, e);
    SpawnerContinues(g, e, g');
    forall i | 0 <= i < |cells'|
      ensures FrameTracked(g', b, g'.dag.frames[i], cells'[i])
    {
      assert FrameTracked(g, b, g.dag.frames[i], cells[i]);
      if i < k - 1 {
        ExtendingKeepsFrame(g, g', b, g.dag.frames[i], cells[i]);
      } else {
        assert FrameTracked(g, b, g.dag.frames[k], cells[k]);
        SpawnerIsTracked(g, g', b, g.dag.frames[i], cells[i], Top(g.dag).strand, Top(g'.dag));
      }
    }
  }

  lemma SyncIsTracked(g: Timed, e: Event, g': Timed, b: nat, cells: seq<Cell>)
    requires Opens(g, e, g') && Tracked(g, b, cells) && e.Sync?
    ensures Tracked(g', b, AfterEvent(b, cells, e))
  {
    var k := |cells| - 1;
    WellTimedLeaves(g, k);
    var cells' := AfterEvent(b, cells, e);
    forall i | 0 <= i < |cells'|
      ensures FrameTracked(g', b, g'.dag.frames[i], cells'[i])
    {
      assert FrameTracked(g, b, g.dag.frames[i], cells[i]);
      if i < k {
        ExtendingKeepsFrame(g, g', b, g.dag.frames[i], cells[i]);
      } else {
        AfterSync(g, g', b, Top(g.dag).strand, AllLeaves(Top(g.dag).leaves), cells[k].lchild);
        FramesNotInlined(g);
        StepLeaves(g.dag, e);
      }
    }
  }

  lemma EventIsTracked(g: Timed, e: Event, g': Timed, b: nat, cells: seq<Cell>)
    requires Opens(g, e, g') && Tracked(g, b, cells)
    ensures Fits(|cells|, e)
    ensures Tracked(g', b, AfterEvent(b, cells, e))
  {
    match e
    case FuncEntry(_, _) => OpeningIsTracked(g, e, g', b, cells);
    case Spawn(_) => OpeningIsTracked(g, e, g', b, cells);
    case FuncExit => ReturningIsTracked(g, e, g', b, cells);
    case TaskExit(_) => TaskEndIsTracked(g, e, g', b, cells);
    case Sync(_) => SyncIsTracked(g, e, g', b, cells);
  }

  // What the cells covered before the event they cover after it.
  lemma EventKeepsWithin(b: nat, cells: seq<Cell>, e: Event, x: nat)
    requires Fits(|cells|, e) && Within(cells, x)
    requires e.TaskExit? || e.FuncExit? ==> cells[|cells| - 1].lchild == 0
    ensures Within(AfterEvent(b, cells, e), x)
  {
    var k := |cells| - 1;
    var cells' := AfterEvent(b, cells, e);
    if x <= cells[k].contin {
      if e.TaskExit? {
        assert x <= cells'[k - 1].lchild;
      }
    } else {
      var i :| 0 <= i < |cells| && x <= cells[i].lchild;
      if i < k {
        assert x <= cells'[i].lchild;
      } else if e.FuncEntry? || e.Spawn? {
        assert x <= cells'[k].lchild;
      }
    }
  }

  lemma SyncedBeforeLeaving(g: Timed, e: Event, b: nat, cells: seq<Cell>)
    requires WellTimed(g) && Measured(g.dag, e) && Tracked(g, b, cells) && (e.TaskExit? || e.FuncExit?)
    ensures cells[|cells| - 1].lchild == 0
  {
    var k := |cells| - 1;
    WellTimedLeaves(g, k);
    assert FrameTracked(g, b, g.dag.frames[k], cells[k]);
  }

  lemma EventIsCovered(g: Timed, e: Event, g': Timed, b: nat, cells: seq<Cell>)
    requires Opens(g, e, g') && Tracked(g, b, cells) && Fits(|cells|, e) && Covered(g, b, cells)
    ensures Covered(g', b, AfterEvent(b, cells, e))
  {
    EventIsTracked(g, e, g', b, cells);
    var cells' := AfterEvent(b, cells, e);
    var k' := |cells'| - 1;
    if e.TaskExit? || e.FuncExit? {
      SyncedBeforeLeaving(g, e, b, cells);
    }
    forall v: nat | v < |g'.time|
      ensures StrandWithin(g', b, cells', v)
    {
      if v < |g.time| {
        assert StrandWithin(g, b, cells, v);
        ExtendKeepsLongest(g, g', b, v);
        EventKeepsWithin(b, cells, e, Longest(g, b, v));
      } else {
        assert FrameTracked(g', b, g'.dag.frames[k'], cells'[k']);
      }
    }
  }

  // Every step keeps the cells exact.
  lemma StepIsTracked(g: Timed, b: nat, cells: seq<Cell>, t: nat, e: Event)
    requires WellTimed(g) && Measured(g.dag, e)
    requires Tracked(g, b, cells) && Covered(g, b, cells)
    ensures Fits(|cells|, e) && WellTimed(Advance(g, t, e))
    ensures Tracked(Advance(g, t, e), b, StepCells(b, cells, t, e))
    ensures Covered(Advance(g, t, e), b, StepCells(b, cells, t, e))
  {
    AdvanceOpens(g, t, e);
    TimeKeepsTracked(g, b, t, cells);
    TimeKeepsCovered(g, b, t, cells);
    EventIsTracked(Elapse(g, t), e, Advance(g, t, e), b, AfterTime(cells, t));
    EventIsCovered(Elapse(g, t), e, Advance(g, t, e), b, AfterTime(cells, t));
  }
}
