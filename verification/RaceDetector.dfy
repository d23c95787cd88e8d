// Race detection on top of the bags: one remembered reader and one remembered
// writer per location, accesses skipped while the execution is serial, and
// slow-path accesses deduplicated within a strand.  The main result,
// ReportsExactlyTheRaces, says that over every run that syncs the regions of a
// frame in nested order a location is reported exactly when two logically
// parallel accesses to it exist, one of them a write.

module RaceDetector {
  import opened StrandDag
  import opened SpBags

  // An access of the run; `checked` says that the execution was parallel, so
  // that the tool looked at it.
  datatype Access = Access(strand: nat, loc: nat, write: bool, checked: bool)

  // Shadow memory, per location: the remembered reader and writer, the
  // accesses already seen since the strand began, and the races reported.
  datatype Shadow = Shadow(readers: map<nat, nat>, writers: map<nat, nat>,
                           occupied: set<(bool, nat)>, reported: set<nat>)

  const NO_SHADOW := Shadow(map[], map[], {}, {})

  datatype Action =
    | Control(e: Event)
    | Touch(loc: nat, write: bool, fast: bool)

  // ---------------------------------------------------------------- the tool

  predicate PreviousInParallel(s: SpBags.State, previous: map<nat, nat>, x: nat) {
    x in previous && previous[x] < |s.bag| && s.bag[previous[x]].InP?
  }

  // A new access replaces the remembered one unless that one is parallel.
  function Remember(s: SpBags.State, previous: map<nat, nat>, x: nat): map<nat, nat>
    requires |s.bag| > 0
  {
    if PreviousInParallel(s, previous, x) then previous else previous[x := |s.bag| - 1]
  }

  function CheckRead(s: SpBags.State, sh: Shadow, x: nat): Shadow
    requires |s.bag| > 0
  {
    sh.(readers := Remember(s, sh.readers, x),
        reported := if PreviousInParallel(s, sh.writers, x) then sh.reported + {x} else sh.reported)
  }

  function CheckWrite(s: SpBags.State, sh: Shadow, x: nat): Shadow
    requires |s.bag| > 0
  {
    sh.(writers := Remember(s, sh.writers, x),
        reported := if PreviousInParallel(s, sh.writers, x) || PreviousInParallel(s, sh.readers, x)
                    then sh.reported + {x} else sh.reported)
  }

  function Check(s: SpBags.State, sh: Shadow, x: nat, write: bool): Shadow
    requires |s.bag| > 0
  {
    if write then CheckWrite(s, sh, x) else CheckRead(s, sh, x)
  }

  predicate Skipped(s: SpBags.State, sh: Shadow, x: nat, write: bool, fast: bool)
    requires |s.frames| > 0
  {
    !SpBags.Top(s).pe || (!fast && (write, x) in sh.occupied)
  }

  function TouchShadow(s: SpBags.State, sh: Shadow, x: nat, write: bool, fast: bool): Shadow
    requires |s.bag| > 0 && |s.frames| > 0
  {
    if Skipped(s, sh, x, write, fast) then sh
    else Check(s, sh.(occupied := if fast then sh.occupied else sh.occupied + {(write, x)}), x, write)
  }

  // Detaches, their continuations and syncs start a new strand of accesses.
  predicate ClearsOccupied(e: Event) {
    e.Spawn? || e.TaskExit? || e.Sync?
  }

  function ControlShadow(sh: Shadow, e: Event): Shadow {
    if ClearsOccupied(e) then sh.(occupied := {}) else sh
  }

  // ------------------------------------------------------------- ground truth

  ghost predicate Conflicting(a: Access, b: Access) {
    a.loc == b.loc && (a.write || b.write)
  }

  ghost predicate Racy(preds: seq<set<nat>>, history: seq<Access>, x: nat)
    requires Topological(preds)
    requires forall i :: 0 <= i < |history| ==> history[i].strand < |preds|
  {
    exists i, j :: 0 <= i < j < |history|
      && history[i].loc == x
      && Conflicting(history[i], history[j])
      && Parallel(preds, history[i].strand, history[j].strand)
  }

  // --------------------------------------------------- who answers for whom

  // As long as strand `u` could still be found parallel, strand `r` will be
  // found parallel too: `r` is in the same P-bag, in one of an older frame or,
  // being older, in one of the same frame; or it will enter one no later than
  // `u` does.
  ghost predicate AnswersFor(s: SpBags.State, r: nat, u: nat)
    requires r < |s.bag| && u < |s.bag|
    requires s.bag[u].frame < |s.frames|
  {
    match s.bag[u]
    case InP(j, reg) =>
      s.bag[r].InP? && (s.bag[r].frame < j || (s.bag[r].frame == j && (s.bag[r].reg == reg || r < u)))
    case InS(j) => s.bag[r].InP? || s.bag[r].frame >= j || NoSpawnBetween(s.frames, s.bag[r].frame, j)
  }

  // Strands in P-bags are older than those of the frames above.
  ghost predicate InOrder(s: SpBags.State, r: nat, u: nat)
    requires r < |s.bag| && u < |s.bag|
  {
    s.bag[r].InP? && s.bag[u].frame > s.bag[r].frame ==> r < u
  }

  // The frame of the strand's bag is open, and the P-bag exists.
  predicate IsPlaced(s: SpBags.State, u: nat)
    requires u < |s.bag|
  {
    && s.bag[u].frame < |s.frames|
    && (s.bag[u].InP? ==>
          s.bag[u].reg < |s.frames[s.bag[u].frame].pbags| && s.frames[s.bag[u].frame].pbags[s.bag[u].reg])
  }

  ghost predicate Placed(s: SpBags.State) {
    && |s.frames| > 0
    && (forall u {:trigger s.bag[u]} :: 0 <= u < |s.bag| ==> IsPlaced(s, u))
    && (forall r, u :: 0 <= r < |s.bag| && 0 <= u < |s.bag| ==> InOrder(s, r, u))
  }

  // A sync of the region leaves no younger strand behind in another P-bag of
  // the frame: the regions of a frame are synced in nested order.
  ghost predicate SyncsYoungest(s: SpBags.State, reg: nat) {
    forall u, v :: WaitsIn(s, u, reg) && WaitsElsewhere(s, v, reg) ==> v < u
  }

  // The strand is in the P-bag of the region, in the running frame ...
  predicate WaitsIn(s: SpBags.State, u: int, reg: nat) {
    0 <= u < |s.bag| && s.bag[u].InP? && s.bag[u].frame + 1 == |s.frames| && s.bag[u].reg == reg
  }

  // ... or in that of another region.
  predicate WaitsElsewhere(s: SpBags.State, v: int, reg: nat) {
    0 <= v < |s.bag| && s.bag[v].InP? && s.bag[v].frame + 1 == |s.frames| && s.bag[v].reg != reg
  }

  ghost predicate Nested(s: SpBags.State, e: Event) {
    e.Sync? ==> SyncsYoungest(s, e.reg)
  }

  lemma StepKeepsPlaced(s: SpBags.State, e: Event)
    requires Placed(s) && SpBags.Enabled(s, e)
    ensures Placed(SpBags.Step(s, e))
  {
    var s' := SpBags.Step(s, e);
    forall r, u | 0 <= r < |s'.bag| && 0 <= u < |s'.bag|
      ensures InOrder(s', r, u)
    {
      StepInOrder(s, e, r, u);
    }
    forall u | 0 <= u < |s'.bag|
      ensures IsPlaced(s', u)
    {
      StepPlaces(s, e, u);
    }
  }

  lemma StepInOrder(s: SpBags.State, e: Event, r: nat, u: nat)
    requires Placed(s) && SpBags.Enabled(s, e)
    requires r < |SpBags.Step(s, e).bag| && u < |SpBags.Step(s, e).bag|
    ensures InOrder(SpBags.Step(s, e), r, u)
  {
    if r < |s.bag| && u < |s.bag| {
      assert InOrder(s, r, u);
    }
  }

  lemma StepPlaces(s: SpBags.State, e: Event, u: nat)
    requires Placed(s) && SpBags.Enabled(s, e) && u < |SpBags.Step(s, e).bag|
    ensures IsPlaced(SpBags.Step(s, e), u)
  {
    if u < |s.bag| {
      assert s.bag[u].frame < |s.frames|;
    }
  }

  lemma ReturnKeepsAnswers(s: SpBags.State, r: nat, u: nat)
    requires Placed(s) && |s.frames| > 1 && LocallySynced(SpBags.Top(s)) && !SpBags.Top(s).spawned
    requires r < |s.bag| && u < |s.bag| && AnswersFor(s, r, u)
    ensures AnswersFor(SpBags.Return(s), r, u)
  {
  }

  lemma EndTaskKeepsAnswers(s: SpBags.State, reg: nat, r: nat, u: nat)
    requires Placed(s) && SpBags.Enabled(s, TaskExit(reg))
    requires r < |s.bag| && u < |s.bag| && AnswersFor(s, r, u)
    ensures AnswersFor(SpBags.EndTask(s, reg), r, u)
  {
    assert InOrder(s, r, u);
  }

  lemma JoinKeepsAnswers(s: SpBags.State, reg: nat, r: nat, u: nat)
    requires Placed(s) && SpBags.Enabled(s, Sync(reg)) && SyncsYoungest(s, reg)
    requires r < |s.bag| && u < |s.bag| && AnswersFor(s, r, u)
    ensures AnswersFor(SpBags.Join(s, reg), r, u)
  {
    assert WaitsIn(s, r, reg) && WaitsElsewhere(s, u, reg) ==> u < r;
  }

  lemma OpenKeepsAnswers(s: SpBags.State, s': SpBags.State, r: nat, u: nat)
    requires Placed(s)
    requires |s'.frames| >= |s.frames|
    requires forall i :: 0 <= i < |s.frames| ==> s'.frames[i].spawned == s.frames[i].spawned
    requires s.bag <= s'.bag
    requires r < |s.bag| && u < |s.bag| && AnswersFor(s, r, u)
    ensures AnswersFor(s', r, u)
  {
  }

  lemma StepKeepsAnswers(s: SpBags.State, e: Event, r: nat, u: nat)
    requires Placed(s) && SpBags.Enabled(s, e) && Nested(s, e)
    requires r < |s.bag| && u < |s.bag| && AnswersFor(s, r, u)
    requires Placed(SpBags.Step(s, e))
    ensures AnswersFor(SpBags.Step(s, e), r, u)
  {
    match e
    case FuncEntry(_, _) => OpenKeepsAnswers(s, SpBags.Step(s, e), r, u);
    case FuncExit =>
      if SpBags.Top(s).inlined > 0 {
        OpenKeepsAnswers(s, SpBags.Step(s, e), r, u);
      } else {
        ReturnKeepsAnswers(s, r, u);
      }
    case Spawn(_) => OpenKeepsAnswers(s, SpBags.Step(s, e), r, u);
    case TaskExit(reg) => EndTaskKeepsAnswers(s, reg, r, u);
    case Sync(reg) => JoinKeepsAnswers(s, reg, r, u);
  }

  // -------------------------------------------------------------- invariants

  ghost predicate StrandsExist(s: SpBags.State, history: seq<Access>) {
    forall i :: 0 <= i < |history| ==> history[i].strand < |s.bag|
  }

  // Every checked access of the kind has an answerable representative, which
  // is itself one of the checked accesses.
  ghost predicate Remembers(s: SpBags.State, history: seq<Access>, previous: map<nat, nat>, write: bool)
    requires Placed(s) && StrandsExist(s, history)
  {
    && (forall i :: 0 <= i < |history| && history[i].checked && history[i].write == write ==>
          && history[i].loc in previous
          && previous[history[i].loc] < |s.bag|
          && AnswersFor(s, previous[history[i].loc], history[i].strand))
    && (forall x :: x in previous ==>
          exists i :: 0 <= i < |history| && history[i] == Access(previous[x], x, write, true))
  }

  // Unchecked accesses belong to strands that nothing is parallel to.
  ghost predicate UncheckedSettled(s: SpBags.State, history: seq<Access>) {
    forall i :: 0 <= i < |history| && !history[i].checked ==> Settled(s, history[i].strand)
  }

  // Some access of the kind to `x` is in series with the running strand
  // within the running task.
  ghost predicate SeenInTask(s: SpBags.State, history: seq<Access>, x: nat, write: bool)
    requires Placed(s) && StrandsExist(s, history)
  {
    exists i :: 0 <= i < |history| && history[i].checked && history[i].write == write && history[i].loc == x
      && s.bag[history[i].strand].InS?
      && NoSpawnBetween(s.frames, s.bag[history[i].strand].frame, |s.frames| - 1)
  }

  ghost predicate ParallelConflict(s: SpBags.State, history: seq<Access>, x: nat, write: bool)
    requires StrandsExist(s, history)
  {
    exists i :: 0 <= i < |history| && history[i].loc == x && (write || history[i].write)
      && s.bag[history[i].strand].InP?
  }

  // An occupied entry stands for an access of the running task whose
  // conflicts have been reported.
  ghost predicate OccupiedJustified(s: SpBags.State, history: seq<Access>, sh: Shadow)
    requires Placed(s) && StrandsExist(s, history)
  {
    forall x, write :: (write, x) in sh.occupied ==>
      && SeenInTask(s, history, x, write)
      && (ParallelConflict(s, history, x, write) ==> x in sh.reported)
  }

  ghost predicate Sound(s: SpBags.State, history: seq<Access>, sh: Shadow) {
    && Placed(s)
    && StrandsExist(s, history)
    && Remembers(s, history, sh.readers, false)
    && Remembers(s, history, sh.writers, true)
    && UncheckedSettled(s, history)
    && OccupiedJustified(s, history, sh)
  }

  // One remembered access of a kind decides for all of them.
  lemma OneSuffices(s: SpBags.State, history: seq<Access>, previous: map<nat, nat>, write: bool, x: nat)
    requires Placed(s) && StrandsExist(s, history)
    requires Remembers(s, history, previous, write) && UncheckedSettled(s, history)
    ensures PreviousInParallel(s, previous, x) <==>
      exists i :: 0 <= i < |history| && history[i].loc == x && history[i].write == write
        && s.bag[history[i].strand].InP?
  {
    if PreviousInParallel(s, previous, x) {
      var i :| 0 <= i < |history| && history[i] == Access(previous[x], x, write, true);
      assert history[i].loc == x && s.bag[history[i].strand].InP?;
    }
    if i :| 0 <= i < |history| && history[i].loc == x && history[i].write == write
            && s.bag[history[i].strand].InP? {
      assert history[i].checked;
      assert AnswersFor(s, previous[x], history[i].strand);
    }
  }

  // The verdict on an access: it is reported exactly when an earlier
  // conflicting access is parallel to the running strand.
  lemma VerdictIsExact(s: SpBags.State, history: seq<Access>, sh: Shadow, x: nat, write: bool)
    requires Sound(s, history, sh) && |s.bag| > 0
    ensures Check(s, sh, x, write).reported ==
      if ParallelConflict(s, history, x, write) then sh.reported + {x} else sh.reported
  {
    OneSuffices(s, history, sh.readers, false, x);
    OneSuffices(s, history, sh.writers, true, x);
    if ParallelConflict(s, history, x, write) {
      var i :| 0 <= i < |history| && history[i].loc == x && (write || history[i].write)
            && s.bag[history[i].strand].InP?;
      if history[i].write {
        assert PreviousInParallel(s, sh.writers, x);
      } else {
        assert PreviousInParallel(s, sh.readers, x);
      }
    }
  }

  // ------------------------------------------------------- control events

  lemma ControlKeepsRemembers(s: SpBags.State, e: Event, history: seq<Access>, previous: map<nat, nat>, write: bool)
    requires Placed(s) && StrandsExist(s, history) && Remembers(s, history, previous, write)
    requires SpBags.Enabled(s, e) && Nested(s, e) && Placed(SpBags.Step(s, e))
    ensures StrandsExist(SpBags.Step(s, e), history)
    ensures Remembers(SpBags.Step(s, e), history, previous, write)
  {
    var s' := SpBags.Step(s, e);
    assert |s.bag| <= |s'.bag|;
    forall i | 0 <= i < |history| && history[i].checked && history[i].write == write
      ensures AnswersFor(s', previous[history[i].loc], history[i].strand)
    {
      StepKeepsAnswers(s, e, previous[history[i].loc], history[i].strand);
    }
  }

  lemma ControlKeepsUnchecked(s: SpBags.State, e: Event, history: seq<Access>)
    requires SpBags.Enabled(s, e) && UncheckedSettled(s, history)
    ensures UncheckedSettled(SpBags.Step(s, e), history)
  {
    forall i | 0 <= i < |history| && !history[i].checked
      ensures Settled(SpBags.Step(s, e), history[i].strand)
    {
      StepKeepsSettled(s, e, history[i].strand);
    }
  }

  // Calls and returns leave the running task and its P-bags as they are.
  lemma CallKeepsOccupied(s: SpBags.State, e: Event, history: seq<Access>, sh: Shadow)
    requires Placed(s) && StrandsExist(s, history) && OccupiedJustified(s, history, sh)
    requires SpBags.Enabled(s, e) && Placed(SpBags.Step(s, e))
    requires !ClearsOccupied(e)
    requires StrandsExist(SpBags.Step(s, e), history)
    ensures OccupiedJustified(SpBags.Step(s, e), history, sh)
  {
    var s' := SpBags.Step(s, e);
    assert forall u :: 0 <= u < |s.bag| ==> (s'.bag[u].InP? <==> s.bag[u].InP?);
    forall x, write | (write, x) in sh.occupied
      ensures SeenInTask(s', history, x, write)
      ensures ParallelConflict(s', history, x, write) ==> x in sh.reported
    {
      var i :| 0 <= i < |history| && history[i].checked && history[i].write == write && history[i].loc == x
        && s.bag[history[i].strand].InS?
        && NoSpawnBetween(s.frames, s.bag[history[i].strand].frame, |s.frames| - 1);
      assert NoSpawnBetween(s'.frames, s'.bag[history[i].strand].frame, |s'.frames| - 1);
    }
  }

  lemma ControlKeepsSound(s: SpBags.State, e: Event, history: seq<Access>, sh: Shadow)
    requires Sound(s, history, sh)
    requires SpBags.Enabled(s, e) && Nested(s, e) && Placed(SpBags.Step(s, e))
    ensures Sound(SpBags.Step(s, e), history, ControlShadow(sh, e))
  {
    ControlKeepsRemembers(s, e, history, sh.readers, false);
    ControlKeepsRemembers(s, e, history, sh.writers, true);
    ControlKeepsUnchecked(s, e, history);
    if !ClearsOccupied(e) {
      CallKeepsOccupied(s, e, history, sh);
    }
  }

  // ---------------------------------------------------------------- accesses

  ghost predicate RunningOnTop(s: SpBags.State) {
    |s.bag| > 0 && |s.frames| > 0 && s.bag[|s.bag| - 1] == InS(|s.frames| - 1)
  }

  lemma StepKeepsRunningOnTop(s: SpBags.State, e: Event)
    requires RunningOnTop(s) && SpBags.Enabled(s, e)
    ensures RunningOnTop(SpBags.Step(s, e))
  {
  }

  lemma CurrentAnswersForAll(s: SpBags.State, history: seq<Access>, previous: map<nat, nat>, write: bool, i: nat)
    requires Placed(s) && StrandsExist(s, history) && Remembers(s, history, previous, write)
    requires RunningOnTop(s)
    requires i < |history| && history[i].checked && history[i].write == write
    requires !PreviousInParallel(s, previous, history[i].loc)
    ensures AnswersFor(s, |s.bag| - 1, history[i].strand)
  {
  }

  lemma RememberKeepsRemembers(s: SpBags.State, history: seq<Access>, previous: map<nat, nat>, write: bool, x: nat)
    requires Placed(s) && StrandsExist(s, history) && Remembers(s, history, previous, write)
    requires RunningOnTop(s)
    ensures Remembers(s, history + [Access(|s.bag| - 1, x, write, true)], Remember(s, previous, x), write)
    ensures StrandsExist(s, history + [Access(|s.bag| - 1, x, write, true)])
  {
    var c := |s.bag| - 1;
    var history', previous' := history + [Access(c, x, write, true)], Remember(s, previous, x);
    forall i | 0 <= i < |history'| && history'[i].checked && history'[i].write == write
      ensures history'[i].loc in previous' && previous'[history'[i].loc] < |s.bag|
      ensures AnswersFor(s, previous'[history'[i].loc], history'[i].strand)
    {
      if i < |history| && history[i].loc == x && !PreviousInParallel(s, previous, x) {
        CurrentAnswersForAll(s, history, previous, write, i);
      }
    }
    forall y | y in previous'
      ensures exists i :: 0 <= i < |history'| && history'[i] == Access(previous'[y], y, write, true)
    {
      if y == x && !PreviousInParallel(s, previous, x) {
        assert history'[|history|] == Access(previous'[y], y, write, true);
      } else {
        var i :| 0 <= i < |history| && history[i] == Access(previous[y], y, write, true);
        assert history'[i] == Access(previous'[y], y, write, true);
      }
    }
  }

  // An access that is not recorded keeps the other kind's representatives, and
  // those of its own kind when it was unchecked or seen before.
  lemma UnrecordedKeepsRemembers(s: SpBags.State, history: seq<Access>, previous: map<nat, nat>, write: bool, a: Access)
    requires Placed(s) && StrandsExist(s, history) && Remembers(s, history, previous, write)
    requires RunningOnTop(s) && a.strand == |s.bag| - 1
    requires a.checked && a.write == write ==> SeenInTask(s, history, a.loc, write)
    ensures StrandsExist(s, history + [a])
    ensures Remembers(s, history + [a], previous, write)
  {
    var history' := history + [a];
    if a.checked && a.write == write {
      var i :| 0 <= i < |history| && history[i].checked && history[i].write == write && history[i].loc == a.loc
        && s.bag[history[i].strand].InS?
        && NoSpawnBetween(s.frames, s.bag[history[i].strand].frame, |s.frames| - 1);
      assert AnswersFor(s, previous[a.loc], history[i].strand);
      assert AnswersFor(s, previous[a.loc], a.strand);
    }
    forall x | x in previous
      ensures exists i :: 0 <= i < |history'| && history'[i] == Access(previous[x], x, write, true)
    {
      var i :| 0 <= i < |history| && history[i] == Access(previous[x], x, write, true);
      assert history'[i] == Access(previous[x], x, write, true);
    }
  }

  // The running strand is in an S-bag, so its own accesses never count as
  // parallel conflicts now.
  lemma OwnAccessIsNoConflict(s: SpBags.State, history: seq<Access>, a: Access, x: nat, write: bool)
    requires StrandsExist(s, history) && RunningOnTop(s) && a.strand == |s.bag| - 1
    ensures StrandsExist(s, history + [a])
    ensures ParallelConflict(s, history + [a], x, write) <==> ParallelConflict(s, history, x, write)
  {
    var history' := history + [a];
    if ParallelConflict(s, history, x, write) {
      var i :| 0 <= i < |history| && history[i].loc == x && (write || history[i].write)
        && s.bag[history[i].strand].InP?;
      assert history'[i] == history[i];
    }
    if ParallelConflict(s, history', x, write) {
      var i :| 0 <= i < |history'| && history'[i].loc == x && (write || history'[i].write)
        && s.bag[history'[i].strand].InP?;
      assert history'[i] == history[i];
    }
  }

  lemma SeenStaysSeen(s: SpBags.State, history: seq<Access>, a: Access, x: nat, write: bool)
    requires Placed(s) && StrandsExist(s, history) && RunningOnTop(s) && a.strand == |s.bag| - 1
    requires SeenInTask(s, history, x, write) || a == Access(|s.bag| - 1, x, write, true)
    ensures StrandsExist(s, history + [a])
    ensures SeenInTask(s, history + [a], x, write)
  {
    var history' := history + [a];
    if SeenInTask(s, history, x, write) {
      var i :| 0 <= i < |history| && history[i].checked && history[i].write == write && history[i].loc == x
        && s.bag[history[i].strand].InS?
        && NoSpawnBetween(s.frames, s.bag[history[i].strand].frame, |s.frames| - 1);
      assert history'[i] == history[i];
    } else {
      assert history'[|history|] == a;
    }
  }

  lemma TouchKeepsOccupied(s: SpBags.State, history: seq<Access>, sh: Shadow, a: Access, sh': Shadow,
                           added: set<(bool, nat)>)
    requires Placed(s) && StrandsExist(s, history) && OccupiedJustified(s, history, sh)
    requires RunningOnTop(s) && a.strand == |s.bag| - 1
    requires sh'.occupied == sh.occupied + added && sh.reported <= sh'.reported
    requires added != {} ==>
      && added == {(a.write, a.loc)} && a.checked
      && (ParallelConflict(s, history, a.loc, a.write) ==> a.loc in sh'.reported)
    ensures StrandsExist(s, history + [a])
    ensures OccupiedJustified(s, history + [a], sh')
  {
    forall x, write | (write, x) in sh'.occupied
      ensures SeenInTask(s, history + [a], x, write)
      ensures ParallelConflict(s, history + [a], x, write) ==> x in sh'.reported
    {
      OwnAccessIsNoConflict(s, history, a, x, write);
      SeenStaysSeen(s, history, a, x, write);
    }
  }

  lemma CheckedTouchKeepsSound(s: SpBags.State, history: seq<Access>, sh: Shadow, x: nat, write: bool, fast: bool)
    requires Sound(s, history, sh) && RunningOnTop(s)
    requires !Skipped(s, sh, x, write, fast)
    ensures Sound(s, history + [Access(|s.bag| - 1, x, write, true)], TouchShadow(s, sh, x, write, fast))
  {
    var a := Access(|s.bag| - 1, x, write, true);
    var sh' := TouchShadow(s, sh, x, write, fast);
    if write {
      RememberKeepsRemembers(s, history, sh.writers, true, x);
      UnrecordedKeepsRemembers(s, history, sh.readers, false, a);
    } else {
      RememberKeepsRemembers(s, history, sh.readers, false, x);
      UnrecordedKeepsRemembers(s, history, sh.writers, true, a);
    }
    VerdictIsExact(s, history, sh, x, write);
    TouchKeepsOccupied(s, history, sh, a, sh', if fast then {} else {(write, x)});
  }

  lemma SkippedTouchKeepsSound(d: Dag, s: SpBags.State, history: seq<Access>, sh: Shadow,
                               x: nat, write: bool, fast: bool)
    requires Good(d, s) && FlagInvariant(s)
    requires Sound(s, history, sh) && RunningOnTop(s)
    requires Skipped(s, sh, x, write, fast)
    ensures Sound(s, history + [Access(|s.bag| - 1, x, write, SpBags.Top(s).pe)], sh)
  {
    var a := Access(|s.bag| - 1, x, write, SpBags.Top(s).pe);
    if !SpBags.Top(s).pe {
      FlagDownSettles(d, s, a.strand);
    }
    UnrecordedKeepsRemembers(s, history, sh.readers, false, a);
    UnrecordedKeepsRemembers(s, history, sh.writers, true, a);
    TouchKeepsOccupied(s, history, sh, a, sh, {});
  }

  // ------------------------------------------------------------- whole runs

  // The program and the tool side by side.
  datatype Config = Config(dag: Dag, bags: SpBags.State, history: seq<Access>, shadow: Shadow)

  const BEGIN := Config(INITIAL, START, [], NO_SHADOW)

  // The run can go on with this action ...
  predicate CanMove(c: Config, a: Action) {
    && |c.bags.frames| > 0
    && |c.bags.bag| > 0
    && |c.dag.preds| > 0
    && (a.Control? ==> StrandDag.Enabled(c.dag, a.e) && SpBags.Enabled(c.bags, a.e))
  }

  // ... and syncs in nested order.
  ghost predicate CanAct(c: Config, a: Action) {
    CanMove(c, a) && (a.Control? ==> Nested(c.bags, a.e))
  }

  function Act(c: Config, a: Action): Config
    requires CanMove(c, a)
  {
    match a
    case Control(e) =>
      Config(StrandDag.Step(c.dag, e), SpBags.Step(c.bags, e), c.history, ControlShadow(c.shadow, e))
    case Touch(x, write, fast) =>
      Config(c.dag, c.bags,
             c.history + [Access(|c.dag.preds| - 1, x, write, SpBags.Top(c.bags).pe)],
             TouchShadow(c.bags, c.shadow, x, write, fast))
  }

  ghost predicate Exact(d: Dag, history: seq<Access>, reported: set<nat>)
    requires WellFormed(d)
    requires forall i :: 0 <= i < |history| ==> history[i].strand < |d.preds|
  {
    forall x :: x in reported <==> Racy(d.preds, history, x)
  }

  ghost predicate Invariant(c: Config) {
    && Good(c.dag, c.bags)
    && FlagInvariant(c.bags)
    && RunningOnTop(c.bags)
    && Sound(c.bags, c.history, c.shadow)
    && Exact(c.dag, c.history, c.shadow.reported)
  }

  lemma RacesAreStable(preds: seq<set<nat>>, more: seq<set<nat>>, history: seq<Access>, x: nat)
    requires Topological(preds) && Topological(more) && preds <= more
    requires forall i :: 0 <= i < |history| ==> history[i].strand < |preds|
    ensures Racy(preds, history, x) <==> Racy(more, history, x)
  {
    forall u: nat, v: nat | u < |preds| && v < |preds|
      ensures Parallel(preds, u, v) <==> Parallel(more, u, v)
    {
      ReachesStable(preds, more, u, v);
      ReachesStable(preds, more, v, u);
    }
  }

  ghost predicate RacesWith(preds: seq<set<nat>>, history: seq<Access>, a: Access, x: nat)
    requires Topological(preds) && a.strand < |preds|
    requires forall i :: 0 <= i < |history| ==> history[i].strand < |preds|
  {
    exists i :: 0 <= i < |history| && history[i].loc == x && Conflicting(history[i], a)
      && Parallel(preds, history[i].strand, a.strand)
  }

  lemma RacesOfLonger(preds: seq<set<nat>>, history: seq<Access>, a: Access, x: nat)
    requires Topological(preds) && a.strand < |preds|
    requires forall i :: 0 <= i < |history| ==> history[i].strand < |preds|
    ensures Racy(preds, history + [a], x) <==> Racy(preds, history, x) || RacesWith(preds, history, a, x)
  {
    var history' := history + [a];
    if Racy(preds, history', x) {
      var i, j :| 0 <= i < j < |history'| && history'[i].loc == x
        && Conflicting(history'[i], history'[j]) && Parallel(preds, history'[i].strand, history'[j].strand);
      assert history[i] == history'[i];
      if j < |history| {
        assert history[j] == history'[j];
        assert Racy(preds, history, x);
      } else {
        assert RacesWith(preds, history, a, x);
      }
    }
    if Racy(preds, history, x) {
      var i, j :| 0 <= i < j < |history| && history[i].loc == x
        && Conflicting(history[i], history[j]) && Parallel(preds, history[i].strand, history[j].strand);
      assert history[i] == history'[i] && history[j] == history'[j];
      assert Racy(preds, history', x);
    }
    if RacesWith(preds, history, a, x) {
      var i :| 0 <= i < |history| && history[i].loc == x && Conflicting(history[i], a)
        && Parallel(preds, history[i].strand, a.strand);
      assert history'[i] == history[i] && history'[|history|] == a;
      assert Racy(preds, history', x);
    }
  }

  // Races with the running strand are the conflicts found in P-bags.
  lemma RacesAreInPBags(d: Dag, s: SpBags.State, history: seq<Access>, a: Access, x: nat)
    requires Good(d, s) && StrandsExist(s, history) && a.strand == |d.preds| - 1
    ensures RacesWith(d.preds, history, a, x) <==> x == a.loc && ParallelConflict(s, history, x, a.write)
  {
    forall i | 0 <= i < |history|
      ensures s.bag[history[i].strand].InP? <==> Parallel(d.preds, history[i].strand, a.strand)
    {
      BagsDecideParallelism(d, s, history[i].strand);
    }
  }

  // What a touch adds to the report, whichever way it is handled.
  lemma TouchReports(d: Dag, s: SpBags.State, history: seq<Access>, sh: Shadow, x: nat, write: bool, fast: bool)
    requires Good(d, s) && FlagInvariant(s)
    requires Sound(s, history, sh) && |s.bag| > 0
    ensures TouchShadow(s, sh, x, write, fast).reported ==
      if ParallelConflict(s, history, x, write) then sh.reported + {x} else sh.reported
  {
    if !SpBags.Top(s).pe {
      forall u | 0 <= u < |s.bag|
        ensures s.bag[u].InS?
      {
        FlagDownSettles(d, s, u);
      }
    } else if !Skipped(s, sh, x, write, fast) {
      VerdictIsExact(s, history, sh, x, write);
    }
  }

  lemma NewRacesAreReported(d: Dag, s: SpBags.State, history: seq<Access>, sh: Shadow, a: Access, fast: bool, y: nat)
    requires Good(d, s) && FlagInvariant(s) && Sound(s, history, sh)
    requires a.strand == |d.preds| - 1
    requires y in sh.reported <==> Racy(d.preds, history, y)
    ensures y in TouchShadow(s, sh, a.loc, a.write, fast).reported <==> Racy(d.preds, history + [a], y)
  {
    RacesOfLonger(d.preds, history, a, y);
    RacesAreInPBags(d, s, history, a, y);
    TouchReports(d, s, history, sh, a.loc, a.write, fast);
  }

  lemma TouchKeepsExact(d: Dag, s: SpBags.State, history: seq<Access>, sh: Shadow, a: Access, fast: bool)
    requires Good(d, s) && FlagInvariant(s) && Sound(s, history, sh)
    requires a.strand == |d.preds| - 1
    requires Exact(d, history, sh.reported)
    ensures Exact(d, history + [a], TouchShadow(s, sh, a.loc, a.write, fast).reported)
  {
    forall y
      ensures y in TouchShadow(s, sh, a.loc, a.write, fast).reported <==> Racy(d.preds, history + [a], y)
    {
      NewRacesAreReported(d, s, history, sh, a, fast, y);
    }
  }

  lemma TouchKeepsSound(d: Dag, s: SpBags.State, history: seq<Access>, sh: Shadow, a: Access, fast: bool)
    requires Good(d, s) && FlagInvariant(s)
    requires Sound(s, history, sh) && RunningOnTop(s)
    requires a == Access(|d.preds| - 1, a.loc, a.write, SpBags.Top(s).pe)
    ensures Sound(s, history + [a], TouchShadow(s, sh, a.loc, a.write, fast))
  {
    if Skipped(s, sh, a.loc, a.write, fast) {
      SkippedTouchKeepsSound(d, s, history, sh, a.loc, a.write, fast);
    } else {
      CheckedTouchKeepsSound(s, history, sh, a.loc, a.write, fast);
    }
  }

  lemma TouchKeepsInvariant(c: Config, x: nat, write: bool, fast: bool, c': Config)
    requires Invariant(c)
    requires c' == Act(c, Touch(x, write, fast))
    ensures Invariant(c')
  {
    var a := Access(|c.dag.preds| - 1, x, write, SpBags.Top(c.bags).pe);
    TouchKeepsSound(c.dag, c.bags, c.history, c.shadow, a, fast);
    TouchKeepsExact(c.dag, c.bags, c.history, c.shadow, a, fast);
    assert c'.dag == c.dag && c'.bags == c.bags && c'.history == c.history + [a];
  }

  lemma ControlKeepsExact(d: Dag, d': Dag, history: seq<Access>, reported: set<nat>)
    requires WellFormed(d) && WellFormed(d') && d.preds <= d'.preds
    requires forall i :: 0 <= i < |history| ==> history[i].strand < |d.preds|
    requires Exact(d, history, reported)
    ensures Exact(d', history, reported)
  {
    forall x
      ensures x in reported <==> Racy(d'.preds, history, x)
    {
      RacesAreStable(d.preds, d'.preds, history, x);
    }
  }

  lemma ControlKeepsInvariant(c: Config, e: Event)
    requires Invariant(c) && CanAct(c, Control(e))
    ensures Invariant(Act(c, Control(e)))
  {
    var d', s' := StrandDag.Step(c.dag, e), SpBags.Step(c.bags, e);
    StepIsGood(c.dag, c.bags, e);
    StepKeepsFlagInvariant(c.bags, e);
    StepKeepsRunningOnTop(c.bags, e);
    StepKeepsPlaced(c.bags, e);
    ControlKeepsSound(c.bags, e, c.history, c.shadow);
    StepWellFormed(c.dag, e);
    ControlKeepsExact(c.dag, d', c.history, c.shadow.reported);
  }

  // ---------------------------------------------------------------- whole runs

  // The actions can be carried out one after the other, from the beginning.
  ghost predicate Runs(actions: seq<Action>)
    decreases |actions|, 0
  {
    |actions| == 0 ||
    (Runs(Front(actions)) && CanMove(Outcome(Front(actions)), Last(actions)))
  }

  ghost function Outcome(actions: seq<Action>): Config
    requires Runs(actions)
    decreases |actions|, 1
  {
    if |actions| == 0 then BEGIN else Act(Outcome(Front(actions)), Last(actions))
  }

  function Front(actions: seq<Action>): seq<Action>
    requires |actions| > 0
  {
    actions[..|actions| - 1]
  }

  function Last(actions: seq<Action>): Action
    requires |actions| > 0
  {
    actions[|actions| - 1]
  }

  lemma OneMore(actions: seq<Action>, a: Action)
    requires Runs(actions) && CanMove(Outcome(actions), a)
    ensures Runs(actions + [a]) && Outcome(actions + [a]) == Act(Outcome(actions), a)
    ensures Front(actions + [a]) == actions && Last(actions + [a]) == a
  {
    assert Front(actions + [a]) == actions;
  }

  // Every sync of the run is in nested order.
  ghost predicate NestedRun(actions: seq<Action>)
    requires Runs(actions)
    decreases |actions|
  {
    |actions| == 0 ||
    (NestedRun(Front(actions)) && CanAct(Outcome(Front(actions)), Last(actions)))
  }

  lemma InvariantInitially()
    ensures Invariant(BEGIN)
  {
    InitiallyGood();
    FlagInvariantInitially();
  }

  lemma ActKeepsInvariant(c: Config, a: Action, c': Config)
    requires Invariant(c) && CanAct(c, a) && c' == Act(c, a)
    ensures Invariant(c')
  {
    match a
    case Control(e) => ControlKeepsInvariant(c, e);
    case Touch(x, write, fast) => TouchKeepsInvariant(c, x, write, fast, c');
  }

  lemma {:induction false} InvariantAlways(actions: seq<Action>)
    requires Runs(actions) && NestedRun(actions)
    ensures Invariant(Outcome(actions))
    decreases |actions|
  {
    if |actions| == 0 {
      InvariantInitially();
    } else {
      InvariantAlways(Front(actions));
      ActKeepsInvariant(Outcome(Front(actions)), Last(actions), Outcome(actions));
    }
  }

  // Location `x` has a determinacy race in the run so far.
  ghost predicate HasRace(c: Config, x: nat) {
    && WellFormed(c.dag)
    && (forall i :: 0 <= i < |c.history| ==> c.history[i].strand < |c.dag.preds|)
    && Racy(c.dag.preds, c.history, x)
  }

  lemma InvariantReports(c: Config)
    requires Invariant(c)
    ensures forall x :: x in c.shadow.reported <==> HasRace(c, x)
  {
  }

  // With at most one sync region per frame every run is nested.
  predicate SingleRegion(a: Action) {
    a.Control? && (a.e.FuncEntry? || a.e.Spawn?) ==> a.e.regs <= 1
  }

  ghost predicate OneRegion(s: SpBags.State) {
    Placed(s) && forall i :: 0 <= i < |s.frames| ==> |s.frames[i].pbags| <= 1
  }

  lemma StepKeepsOneRegion(s: SpBags.State, e: Event)
    requires OneRegion(s) && SpBags.Enabled(s, e) && SingleRegion(Control(e))
    ensures OneRegion(SpBags.Step(s, e))
  {
    StepKeepsPlaced(s, e);
  }

  lemma OneRegionSyncs(s: SpBags.State, e: Event)
    requires OneRegion(s) && SpBags.Enabled(s, e)
    ensures Nested(s, e)
  {
  }

  lemma {:induction false} OneRegionIsNested(actions: seq<Action>)
    requires Runs(actions) && forall i :: 0 <= i < |actions| ==> SingleRegion(actions[i])
    ensures NestedRun(actions) && OneRegion(Outcome(actions).bags)
    decreases |actions|
  {
    if |actions| > 0 {
      OneRegionIsNested(Front(actions));
      var s, a := Outcome(Front(actions)).bags, Last(actions);
      if a.Control? {
        OneRegionSyncs(s, a.e);
        StepKeepsOneRegion(s, a.e);
      }
    }
  }

  ghost predicate ReportsExactly(c: Config) {
    forall x :: x in c.shadow.reported <==> HasRace(c, x)
  }

  // The race theorem: after every run that syncs in nested order, in particular
  // every run with at most one sync region per frame, the locations reported
  // are exactly those with two logically parallel accesses of which one is a
  // write.
  lemma ReportsExactlyTheRaces(actions: seq<Action>)
    requires Runs(actions) && NestedRun(actions)
    ensures ReportsExactly(Outcome(actions))
  {
    InvariantAlways(actions);
    InvariantReports(Outcome(actions));
  }
}
