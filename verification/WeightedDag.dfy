// The computation dag of a run with the running times of its strands, the
// paths through it, and an online computation of its longest paths.

module WeightedDag {
  import opened StrandDag

  // `time[v]` is the running time of strand `v`; `burdened[v]` are the direct
  // predecessors of `v` whose edge to `v` carries a scheduling burden.
  datatype Timed = Timed(dag: Dag, time: seq<nat>, burdened: seq<set<nat>>)

  const START := Timed(INITIAL, [0], [{}])

  ghost predicate Sized(g: Timed) {
    |g.dag.preds| == |g.time| == |g.burdened| && Topological(g.dag.preds)
  }

  // What the edge from `u` to `v` costs when a burden is `b`.
  function EdgeCost(g: Timed, b: nat, u: nat, v: nat): nat
    requires v < |g.burdened|
  {
    if u in g.burdened[v] then b else 0
  }

  function Max(x: nat, y: nat): (m: nat)
    ensures m >= x && m >= y && (m == x || m == y)
  {
    if y > x then y else x
  }

  // ------------------------------------------------------------------- paths

  function End(p: seq<nat>): nat
    requires |p| > 0
  {
    p[|p| - 1]
  }

  function Front(p: seq<nat>): seq<nat>
    requires |p| > 0
  {
    p[..|p| - 1]
  }

  // Each strand on a path is a direct predecessor of the next.
  ghost predicate IsPath(g: Timed, p: seq<nat>) {
    && |p| > 0 && End(p) < |g.dag.preds|
    && (|p| > 1 ==> IsPath(g, Front(p)) && End(Front(p)) in g.dag.preds[End(p)])
  }

  // The times of the strands on a path and the burdens of its edges.
  ghost function Length(g: Timed, b: nat, p: seq<nat>): nat
    requires Sized(g) && IsPath(g, p)
  {
    if |p| == 1 then g.time[p[0]]
    else Length(g, b, Front(p)) + EdgeCost(g, b, End(Front(p)), End(p)) + g.time[End(p)]
  }

  // The length of the longest path to `v`, by recursion over the dag: the
  // strand's own time after the latest of its predecessors.
  ghost function Longest(g: Timed, b: nat, v: nat): nat
    requires Sized(g) && v < |g.time|
    decreases v, 1, 0
  {
    g.time[v] + LongestBefore(g, b, v, v)
  }

  // ... of those below `n`.
  ghost function LongestBefore(g: Timed, b: nat, v: nat, n: nat): nat
    requires Sized(g) && n <= v < |g.time|
    decreases v, 0, n
  {
    if n == 0 then 0
    else if n - 1 in g.dag.preds[v] then
      Max(LongestBefore(g, b, v, n - 1), Longest(g, b, n - 1) + EdgeCost(g, b, n - 1, v))
    else LongestBefore(g, b, v, n - 1)
  }

  lemma {:induction false} LongestBeforeIsMax(g: Timed, b: nat, v: nat, n: nat)
    requires Sized(g) && n <= v < |g.time|
    ensures forall u :: u in g.dag.preds[v] && u < n ==>
      Longest(g, b, u) + EdgeCost(g, b, u, v) <= LongestBefore(g, b, v, n)
    ensures LongestBefore(g, b, v, n) == 0
      || exists u :: u in g.dag.preds[v] && u < n
           && Longest(g, b, u) + EdgeCost(g, b, u, v) == LongestBefore(g, b, v, n)
  {
    if n > 0 {
      LongestBeforeIsMax(g, b, v, n - 1);
    }
  }

  // No path to a strand is longer than that ...
  lemma {:induction false} NoPathIsLonger(g: Timed, b: nat, p: seq<nat>)
    requires Sized(g) && IsPath(g, p)
    ensures Length(g, b, p) <= Longest(g, b, End(p))
  {
    LongestBeforeIsMax(g, b, End(p), End(p));
    if |p| > 1 {
      NoPathIsLonger(g, b, Front(p));
    }
  }

  // ... and there is a path of that length.
  lemma {:induction false} SomePathIsAsLong(g: Timed, b: nat, v: nat) returns (p: seq<nat>)
    requires Sized(g) && v < |g.time|
    ensures IsPath(g, p) && End(p) == v && Length(g, b, p) == Longest(g, b, v)
    decreases v
  {
    LongestBeforeIsMax(g, b, v, v);
    if LongestBefore(g, b, v, v) == 0 {
      p := [v];
    } else {
      var u :| u in g.dag.preds[v] && Longest(g, b, u) + EdgeCost(g, b, u, v) == LongestBefore(g, b, v, v);
      var q := SomePathIsAsLong(g, b, u);
      p := q + [v];
      assert Front(p) == q;
    }
  }

  // -------------------------------------------------------------- timed runs

  // The current strand runs for `t`.
  function Elapse(g: Timed, t: nat): Timed
    requires |g.time| > 0
  {
    g.(time := g.time[|g.time| - 1 := g.time[|g.time| - 1] + t])
  }

  predicate OnlyRegion(leaves: seq<set<nat>>, reg: nat) {
    forall r :: 0 <= r < |leaves| && r != reg ==> leaves[r] == {}
  }

  // The events that are measured: calls of functions that may spawn, a sync waits
  // for all tasks of its frame, and a task syncs before it ends.
  predicate Measured(d: Dag, e: Event) {
    && Enabled(d, e)
    && match e
       case FuncEntry(maySpawn, regs) => maySpawn
       case FuncExit => true
       case Spawn(regs) => true
       case TaskExit(_) => NoLeaves(Top(d))
       case Sync(reg) => OnlyRegion(Top(d).leaves, reg)
  }

  // The burdened edges: into the continuation of a spawn, and from a task into
  // the sync.
  function BurdenedPreds(d: Dag, e: Event): set<nat>
    requires Enabled(d, e)
  {
    match e
    case TaskExit(_) => {d.frames[|d.frames| - 2].strand}
    case Sync(reg) => Top(d).leaves[reg]
    case _ => {}
  }

  function Append(g: Timed, d: Dag, burdened: set<nat>): Timed {
    Timed(d, g.time + [0], g.burdened + [burdened])
  }

  function Advance(g: Timed, t: nat, e: Event): Timed
    requires |g.time| > 0 && Measured(g.dag, e)
  {
    Append(Elapse(g, t), Step(g.dag, e), BurdenedPreds(g.dag, e))
  }

  ghost predicate WellTimed(g: Timed) {
    && WellFormed(g.dag) && Sized(g)
    && Top(g.dag).strand == |g.dag.preds| - 1
    && forall i :: 0 <= i < |g.dag.frames| ==> FrameTimed(g, i)
  }

  ghost predicate FrameTimed(g: Timed, i: nat)
    requires i < |g.dag.frames|
  {
    var f := g.dag.frames[i];
    && f.inlined == 0
    && (forall l :: l in AllLeaves(f.leaves) ==> l < f.strand)
    && (i < |g.dag.frames| - 1 ==> f.strand < |g.dag.preds| - 1)
  }

  lemma WellTimedLeaves(g: Timed, i: nat)
    requires WellTimed(g) && i < |g.dag.frames|
    ensures FrameTimed(g, i)
    ensures NoLeaves(g.dag.frames[i]) <==> AllLeaves(g.dag.frames[i].leaves) == {}
  {
    assert FrameTimed(g, i);
    NoneOutstanding(g.dag.frames[i]);
  }

  lemma NoneOutstanding(f: DFrame)
    ensures NoLeaves(f) <==> AllLeaves(f.leaves) == {}
  {
    forall r | 0 <= r < |f.leaves|
      ensures f.leaves[r] <= AllLeaves(f.leaves)
    {
    }
  }

  // What an event makes of the outstanding tasks of a frame.
  lemma LeavesAfter(leaves: seq<set<nat>>, reg: nat, ends: set<nat>)
    requires reg < |leaves|
    ensures AllLeaves(leaves[reg := leaves[reg] + ends]) == AllLeaves(leaves) + ends
    ensures OnlyRegion(leaves, reg) ==> AllLeaves(leaves) == leaves[reg] && AllLeaves(leaves[reg := {}]) == {}
  {
    var more := leaves[reg := leaves[reg] + ends];
    forall l
      ensures l in AllLeaves(more) <==> l in AllLeaves(leaves) + ends
    {
      if l in AllLeaves(leaves) {
        var r :| 0 <= r < |leaves| && l in leaves[r];
        assert l in more[r];
      } else if l in ends {
        assert l in more[reg];
      }
    }
  }

  lemma NoLeavesYet(regs: nat)
    ensures AllLeaves(EmptyLeaves(regs)) == {}
  {
  }

  lemma FramesNotInlined(g: Timed)
    requires WellTimed(g)
    ensures forall i :: 0 <= i < |g.dag.frames| ==> g.dag.frames[i].inlined == 0
  {
    forall i | 0 <= i < |g.dag.frames|
      ensures g.dag.frames[i].inlined == 0
    {
      assert FrameTimed(g, i);
    }
  }

  lemma StepLeaves(d: Dag, e: Event)
    requires Measured(d, e) && forall i :: 0 <= i < |d.frames| ==> d.frames[i].inlined == 0
    ensures |Step(d, e).frames| > 0
    ensures e.FuncEntry? || e.Spawn? || e.Sync? ==> AllLeaves(Top(Step(d, e)).leaves) == {}
    ensures e.TaskExit? ==>
      AllLeaves(Top(Step(d, e)).leaves) == AllLeaves(d.frames[|d.frames| - 2].leaves) + {Top(d).strand}
  {
    match e
    case FuncEntry(_, regs) => NoLeavesYet(regs);
    case FuncExit =>
    case Spawn(regs) => NoLeavesYet(regs);
    case TaskExit(reg) =>
      NoneOutstanding(Top(d));
      LeavesAfter(d.frames[|d.frames| - 2].leaves, reg, {Top(d).strand} + AllLeaves(Top(d).leaves));
    case Sync(reg) => LeavesAfter(Top(d).leaves, reg, {});
  }

  lemma AdvanceWellTimed(g: Timed, t: nat, e: Event)
    requires WellTimed(g) && Measured(g.dag, e)
    ensures WellTimed(Advance(g, t, e))
    ensures |Step(g.dag, e).preds| == |g.dag.preds| + 1
  {
    StepWellFormed(g.dag, e);
    WellTimedLeaves(g, |g.dag.frames| - 1);
    forall i | 0 <= i < |Advance(g, t, e).dag.frames|
      ensures FrameTimed(Advance(g, t, e), i)
    {
      AdvanceFrameTimed(g, t, e, i);
    }
  }

  lemma AdvanceFrameTimed(g: Timed, t: nat, e: Event, i: nat)
    requires WellTimed(g) && Measured(g.dag, e)
    requires i < |Advance(g, t, e).dag.frames|
    ensures FrameTimed(Advance(g, t, e), i)
  {
    var d := g.dag;
    var k := |d.frames| - 1;
    WellTimedLeaves(g, k);
    if k > 0 {
      WellTimedLeaves(g, k - 1);
    }
    if i < |d.frames| {
      WellTimedLeaves(g, i);
    }
    FramesNotInlined(g);
    StepLeaves(d, e);
  }

  // ------------------------------------------------- what running time changes

  // Strands other than the last do not notice that it runs longer ...
  lemma {:induction false} ElapseElsewhere(g: Timed, b: nat, t: nat, v: nat)
    requires |g.time| > 0 && Sized(g) && v < |g.time| - 1
    ensures Longest(Elapse(g, t), b, v) == Longest(g, b, v)
    decreases v, v + 1
  {
    ElapseBefore(g, b, t, v, v);
  }

  lemma {:induction false} ElapseBefore(g: Timed, b: nat, t: nat, v: nat, n: nat)
    requires |g.time| > 0 && Sized(g) && n <= v < |g.time|
    ensures LongestBefore(Elapse(g, t), b, v, n) == LongestBefore(g, b, v, n)
    decreases v, n
  {
    if n > 0 {
      ElapseElsewhere(g, b, t, n - 1);
      ElapseBefore(g, b, t, v, n - 1);
    }
  }

  // ... and the longest path to the last gets longer by just that.
  lemma ElapseHere(g: Timed, b: nat, t: nat)
    requires |g.time| > 0 && Sized(g)
    ensures Longest(Elapse(g, t), b, |g.time| - 1) == Longest(g, b, |g.time| - 1) + t
  {
    ElapseBefore(g, b, t, |g.time| - 1, |g.time| - 1);
  }

  // A new strand changes no path to an old one.
  ghost predicate Extends(g: Timed, g': Timed) {
    && Sized(g) && Sized(g')
    && g.dag.preds <= g'.dag.preds && g.time <= g'.time && g.burdened <= g'.burdened
  }

  lemma {:induction false} ExtendKeepsLongest(g: Timed, g': Timed, b: nat, v: nat)
    requires Extends(g, g') && v < |g.time|
    ensures Longest(g', b, v) == Longest(g, b, v)
    decreases v, v + 1
  {
    ExtendKeepsBefore(g, g', b, v, v);
  }

  lemma {:induction false} ExtendKeepsBefore(g: Timed, g': Timed, b: nat, v: nat, n: nat)
    requires Extends(g, g') && n <= v < |g.time|
    ensures LongestBefore(g', b, v, n) == LongestBefore(g, b, v, n)
    decreases v, n
  {
    if n > 0 {
      ExtendKeepsLongest(g, g', b, n - 1);
      ExtendKeepsBefore(g, g', b, v, n - 1);
    }
  }

  // A strand that has not run yet comes right after the latest of its
  // predecessors.
  lemma AfterPredecessors(g: Timed, b: nat, v: nat, x: nat)
    requires Sized(g) && v < |g.time| && g.time[v] == 0
    requires forall u :: u in g.dag.preds[v] ==> Longest(g, b, u) + EdgeCost(g, b, u, v) <= x
    requires exists u :: u in g.dag.preds[v] && Longest(g, b, u) + EdgeCost(g, b, u, v) == x
    ensures Longest(g, b, v) == x
  {
    LongestBeforeIsMax(g, b, v, v);
  }

  // Total running time.
  function Sum(s: seq<nat>): nat {
    if |s| == 0 then 0 else Sum(s[..|s| - 1]) + s[|s| - 1]
  }

  // Without burdens no path is longer than all strands together.
  lemma {:induction false} PathWithinWork(g: Timed, p: seq<nat>)
    requires Sized(g) && IsPath(g, p)
    ensures Length(g, 0, p) <= Sum(g.time[..End(p) + 1])
  {
    assert g.time[..End(p) + 1][..End(p)] == g.time[..End(p)];
    if |p| > 1 {
      PathWithinWork(g, Front(p));
      SumGrows(g.time, End(Front(p)) + 1, End(p));
    }
  }

  lemma {:induction false} SumGrows(s: seq<nat>, m: nat, n: nat)
    requires m <= n <= |s|
    ensures Sum(s[..m]) <= Sum(s[..n])
    decreases n
  {
    if m < n {
      assert s[..n][..n - 1] == s[..n - 1];
      SumGrows(s, m, n - 1);
    }
  }
}
