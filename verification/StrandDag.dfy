// The computation dag that a serial, depth-first execution of a Cilk program
// unfolds, built edge by edge from the control events of the run.  Nothing in
// this module knows about bags, union-find or shadow memory: it is the
// yardstick against which the detector is measured.

module StrandDag {

  // A control event of the instrumented program.
  datatype Event =
    | FuncEntry(maySpawn: bool, regs: nat)  // a function with `regs` sync regions is called
    | FuncExit                              // ... and returns
    | Spawn(regs: nat)                      // detach, and the start of the spawned task
    | TaskExit(reg: nat)                    // the task ends, its spawner resumes in the continuation
    | Sync(reg: nat)                        // a sync on one sync region of the running frame

  // A frame of the running program.  `strand` is the strand the frame is
  // executing, or was executing when it called or spawned the frame above it.
  // `leaves[r]` are the final strands of the tasks that were spawned into
  // region `r` and have not been synced.  `inlined` counts the open calls to
  // functions that are executed as part of the frame's own strand.
  datatype DFrame = DFrame(spawned: bool, strand: nat, leaves: seq<set<nat>>, inlined: nat)

  // `preds[v]` are the direct predecessors of strand `v`; strands are numbered
  // in serial execution order.
  datatype Dag = Dag(preds: seq<set<nat>>, frames: seq<DFrame>)

  const INITIAL := Dag([{}], [DFrame(false, 0, [], 0)])

  ghost predicate Topological(preds: seq<set<nat>>) {
    forall v, u :: 0 <= v < |preds| && u in preds[v] ==> u < v
  }

  // There is a (possibly empty) path from `u` to `v`.
  ghost predicate Reaches(preds: seq<set<nat>>, u: nat, v: nat)
    requires Topological(preds)
    requires v < |preds|
    decreases v
  {
    u == v || exists w :: w in preds[v] && Reaches(preds, u, w)
  }

  ghost predicate Precedes(preds: seq<set<nat>>, u: nat, v: nat)
    requires Topological(preds)
    requires v < |preds|
  {
    u != v && Reaches(preds, u, v)
  }

  // Two strands are logically parallel when neither precedes the other.
  ghost predicate Parallel(preds: seq<set<nat>>, u: nat, v: nat)
    requires Topological(preds)
    requires u < |preds| && v < |preds|
  {
    !Reaches(preds, u, v) && !Reaches(preds, v, u)
  }

  function Top(d: Dag): DFrame
    requires |d.frames| > 0
  {
    d.frames[|d.frames| - 1]
  }

  predicate NoLeaves(f: DFrame) {
    forall r :: 0 <= r < |f.leaves| ==> f.leaves[r] == {}
  }

  function AllLeaves(leaves: seq<set<nat>>): (all: set<nat>)
    ensures forall l :: l in all <==> exists r :: 0 <= r < |leaves| && l in leaves[r]
  {
    set r, l | 0 <= r < |leaves| && l in leaves[r] :: l
  }

  function EmptyLeaves(regs: nat): seq<set<nat>> {
    seq(regs, _ => {})
  }

  // A call to a function that cannot spawn, made while the caller has no
  // outstanding task, runs inside the caller's strand.
  predicate RunsInline(d: Dag, maySpawn: bool)
    requires |d.frames| > 0
  {
    !maySpawn && NoLeaves(Top(d))
  }

  // Well-nested runs in which a called function syncs before it returns and
  // only functions that may spawn do spawn or sync.
  predicate Enabled(d: Dag, e: Event) {
    && |d.frames| > 0
    && match e
       case FuncEntry(_, _) => true
       case FuncExit =>
         Top(d).inlined > 0 || (|d.frames| > 1 && !Top(d).spawned && NoLeaves(Top(d)))
       case Spawn(_) => Top(d).inlined == 0
       case TaskExit(reg) =>
         && |d.frames| > 1
         && Top(d).spawned
         && Top(d).inlined == 0
         && reg < |d.frames[|d.frames| - 2].leaves|
       case Sync(reg) => Top(d).inlined == 0 && reg < |Top(d).leaves|
  }

  // A call or a spawn: the first strand of a new frame.
  function Open(d: Dag, spawned: bool, regs: nat): Dag
    requires |d.frames| > 0
  {
    Dag(d.preds + [{Top(d).strand}], d.frames + [DFrame(spawned, |d.preds|, EmptyLeaves(regs), 0)])
  }

  // A called function returns: its last strand is continued by its caller.
  function Return(d: Dag): Dag
    requires |d.frames| > 1
  {
    var k := |d.frames| - 1;
    Dag(d.preds + [{Top(d).strand}],
        d.frames[..k - 1] + [d.frames[k - 1].(strand := |d.preds|)])
  }

  // A task ends: its spawner goes on from the strand that spawned it, and the
  // task's final strands wait for a sync of the region.
  function EndTask(d: Dag, reg: nat): Dag
    requires |d.frames| > 1 && reg < |d.frames[|d.frames| - 2].leaves|
  {
    var k := |d.frames| - 1;
    var parent := d.frames[k - 1];
    var ends := {Top(d).strand} + AllLeaves(Top(d).leaves);
    Dag(d.preds + [{parent.strand}],
        d.frames[..k - 1]
        + [parent.(strand := |d.preds|, leaves := parent.leaves[reg := parent.leaves[reg] + ends])])
  }

  // A sync: the new strand follows the frame's strand and every final strand
  // that waits in the region.
  function Join(d: Dag, reg: nat): Dag
    requires |d.frames| > 0 && reg < |Top(d).leaves|
  {
    var k := |d.frames| - 1;
    Dag(d.preds + [{Top(d).strand} + Top(d).leaves[reg]],
        d.frames[..k] + [Top(d).(strand := |d.preds|, leaves := Top(d).leaves[reg := {}])])
  }

  function Inline(d: Dag, count: nat): Dag
    requires |d.frames| > 0
  {
    d.(frames := d.frames[..|d.frames| - 1] + [Top(d).(inlined := count)])
  }

  function Step(d: Dag, e: Event): Dag
    requires Enabled(d, e)
  {
    match e
    case FuncEntry(maySpawn, regs) =>
      if RunsInline(d, maySpawn) then Inline(d, Top(d).inlined + 1) else Open(d, false, regs)
    case FuncExit =>
      if Top(d).inlined > 0 then Inline(d, Top(d).inlined - 1) else Return(d)
    case Spawn(regs) => Open(d, true, regs)
    case TaskExit(reg) => EndTask(d, reg)
    case Sync(reg) => Join(d, reg)
  }

  // Strand numbers in the frames are strands of the dag.
  ghost predicate WellFormed(d: Dag) {
    && Topological(d.preds)
    && |d.preds| > 0
    && |d.frames| > 0
    && (forall i :: 0 <= i < |d.frames| ==> d.frames[i].strand < |d.preds|)
    && (forall i, r, l :: 0 <= i < |d.frames| && 0 <= r < |d.frames[i].leaves| && l in d.frames[i].leaves[r]
          ==> l < |d.preds|)
  }

  lemma OpenWellFormed(d: Dag, spawned: bool, regs: nat)
    requires WellFormed(d)
    ensures WellFormed(Open(d, spawned, regs))
  {
  }

  lemma StepWellFormed(d: Dag, e: Event)
    requires WellFormed(d) && Enabled(d, e)
    ensures WellFormed(Step(d, e))
    ensures d.preds <= Step(d, e).preds
  {
  }

  lemma {:induction false} ReachesIsForward(preds: seq<set<nat>>, u: nat, v: nat)
    requires Topological(preds)
    requires v < |preds|
    requires Reaches(preds, u, v)
    ensures u <= v
    decreases v
  {
    if u != v {
      var w :| w in preds[v] && Reaches(preds, u, w);
      ReachesIsForward(preds, u, w);
    }
  }

  lemma {:induction false} ReachesTransitive(preds: seq<set<nat>>, u: nat, v: nat, w: nat)
    requires Topological(preds)
    requires v < |preds| && w < |preds|
    requires Reaches(preds, u, v) && Reaches(preds, v, w)
    ensures Reaches(preds, u, w)
    decreases w
  {
    if v != w {
      var x :| x in preds[w] && Reaches(preds, v, x);
      ReachesTransitive(preds, u, v, x);
    }
  }

  // The past of a strand never changes: later strands only add edges into
  // themselves.
  lemma {:induction false} ReachesStable(preds: seq<set<nat>>, more: seq<set<nat>>, u: nat, v: nat)
    requires Topological(preds) && Topological(more)
    requires preds <= more
    requires v < |preds|
    ensures Reaches(preds, u, v) == Reaches(more, u, v)
    decreases v
  {
    forall w | w in preds[v]
      ensures Reaches(preds, u, w) == Reaches(more, u, w)
    {
      ReachesStable(preds, more, u, w);
    }
  }

  lemma ReachesStableAll(preds: seq<set<nat>>, more: seq<set<nat>>)
    requires Topological(preds) && Topological(more)
    requires preds <= more
    ensures forall u: nat, v: nat :: v < |preds| ==> Reaches(preds, u, v) == Reaches(more, u, v)
  {
    forall u: nat, v: nat | v < |preds|
      ensures Reaches(preds, u, v) == Reaches(more, u, v)
    {
      ReachesStable(preds, more, u, v);
    }
  }
}
