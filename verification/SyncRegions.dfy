// Several sync regions in a frame: the detector still reports races only, but
// it can miss one, because the accesses that a remembered one answers for need
// not become ordered with it at the same sync.

module SyncRegions {
  import opened StrandDag
  import opened SpBags
  import opened RaceDetector

  // What is remembered for a location is an access of the run to it.
  ghost predicate FromHistory(history: seq<Access>, previous: map<nat, nat>, write: bool) {
    forall x :: x in previous ==> Remembered(history, x, previous[x], write)
  }

  ghost predicate Remembered(history: seq<Access>, x: nat, u: nat, write: bool) {
    exists i :: 0 <= i < |history| && history[i].loc == x && history[i].write == write && history[i].strand == u
  }

  ghost predicate Consistent(c: Config) {
    && Good(c.dag, c.bags)
    && StrandsExist(c.bags, c.history)
    && FromHistory(c.history, c.shadow.readers, false)
    && FromHistory(c.history, c.shadow.writers, true)
    && forall x :: x in c.shadow.reported ==> HasRace(c, x)
  }

  lemma LongerHistory(history: seq<Access>, a: Access, previous: map<nat, nat>, write: bool)
    requires FromHistory(history, previous, write)
    ensures FromHistory(history + [a], previous, write)
  {
    forall x | x in previous
      ensures Remembered(history + [a], x, previous[x], write)
    {
      var i :| 0 <= i < |history| && history[i].loc == x && history[i].write == write
        && history[i].strand == previous[x];
      assert (history + [a])[i] == history[i];
    }
  }

  lemma RememberingKeepsHistory(s: SpBags.State, history: seq<Access>, a: Access, previous: map<nat, nat>, write: bool)
    requires FromHistory(history, previous, write) && |s.bag| > 0 && a.strand == |s.bag| - 1 && a.write == write
    ensures FromHistory(history + [a], Remember(s, previous, a.loc), write)
  {
    LongerHistory(history, a, previous, write);
    assert (history + [a])[|history|] == a;
  }

  // A remembered access in a P-bag makes a race with the new one.
  lemma ParallelMeansRace(d: Dag, s: SpBags.State, history: seq<Access>, a: Access,
                          previous: map<nat, nat>, write: bool)
    requires Good(d, s) && StrandsExist(s, history) && FromHistory(history, previous, write)
    requires a.strand == |d.preds| - 1 && (write || a.write) && PreviousInParallel(s, previous, a.loc)
    ensures Racy(d.preds, history + [a], a.loc)
  {
    assert Remembered(history, a.loc, previous[a.loc], write);
    var i :| 0 <= i < |history| && history[i].loc == a.loc && history[i].write == write
      && history[i].strand == previous[a.loc];
    BagsDecideParallelism(d, s, previous[a.loc]);
    RacesOfLonger(d.preds, history, a, a.loc);
    assert RacesWith(d.preds, history, a, a.loc);
  }

  lemma TouchRemembersHistory(s: SpBags.State, history: seq<Access>, sh: Shadow, a: Access, fast: bool)
    requires FromHistory(history, sh.readers, false) && FromHistory(history, sh.writers, true)
    requires |s.bag| > 0 && |s.frames| > 0 && a.strand == |s.bag| - 1
    ensures var sh' := TouchShadow(s, sh, a.loc, a.write, fast);
      FromHistory(history + [a], sh'.readers, false) && FromHistory(history + [a], sh'.writers, true)
  {
    LongerHistory(history, a, sh.readers, false);
    LongerHistory(history, a, sh.writers, true);
    RememberingKeepsHistory(s, history, a, if a.write then sh.writers else sh.readers, a.write);
  }

  lemma TouchReportsOnlyRaces(d: Dag, s: SpBags.State, history: seq<Access>, sh: Shadow, a: Access, fast: bool, y: nat)
    requires Good(d, s) && StrandsExist(s, history)
    requires FromHistory(history, sh.readers, false) && FromHistory(history, sh.writers, true)
    requires |s.frames| > 0 && a.strand == |d.preds| - 1
    requires y in TouchShadow(s, sh, a.loc, a.write, fast).reported
    ensures y in sh.reported || (y == a.loc && Racy(d.preds, history + [a], y))
  {
    if y !in sh.reported {
      if PreviousInParallel(s, sh.writers, a.loc) {
        ParallelMeansRace(d, s, history, a, sh.writers, true);
      } else {
        ParallelMeansRace(d, s, history, a, sh.readers, false);
      }
    }
  }

  lemma TouchStaysConsistent(c: Config, x: nat, write: bool, fast: bool, c': Config)
    requires Consistent(c) && CanMove(c, Touch(x, write, fast)) && c' == Act(c, Touch(x, write, fast))
    ensures Consistent(c')
  {
    var a := Access(|c.dag.preds| - 1, x, write, SpBags.Top(c.bags).pe);
    assert c' == Config(c.dag, c.bags, c.history + [a], TouchShadow(c.bags, c.shadow, x, write, fast));
    TouchRemembersHistory(c.bags, c.history, c.shadow, a, fast);
    forall y | y in c'.shadow.reported
      ensures Racy(c.dag.preds, c.history + [a], y)
    {
      TouchReportsOnlyRaces(c.dag, c.bags, c.history, c.shadow, a, fast, y);
      if y in c.shadow.reported {
        assert HasRace(c, y);
        RacesOfLonger(c.dag.preds, c.history, a, y);
      }
    }
  }

  lemma ControlStaysConsistent(c: Config, e: Event, c': Config)
    requires Consistent(c) && CanMove(c, Control(e)) && c' == Act(c, Control(e))
    ensures Consistent(c')
  {
    StepIsGood(c.dag, c.bags, e);
    StepWellFormed(c.dag, e);
    forall y | y in c'.shadow.reported
      ensures HasRace(c', y)
    {
      RacesAreStable(c.dag.preds, c'.dag.preds, c.history, y);
    }
  }

  // No false reports, whatever the sync regions.
  lemma {:induction false} ReportsOnlyRaces(actions: seq<Action>)
    requires Runs(actions)
    ensures Consistent(Outcome(actions))
    ensures forall x :: x in Outcome(actions).shadow.reported ==> HasRace(Outcome(actions), x)
    decreases |actions|
  {
    if |actions| == 0 {
      InitiallyGood();
    } else {
      ReportsOnlyRaces(Front(actions));
      match Last(actions)
      case Control(e) => ControlStaysConsistent(Outcome(Front(actions)), e, Outcome(actions));
      case Touch(x, write, fast) =>
        TouchStaysConsistent(Outcome(Front(actions)), x, write, fast, Outcome(actions));
    }
  }

  // ------------------------------------------------------------ a missed race

  // A function spawns two tasks that read the same location, into two regions.
  // The detector remembers the first reader only.  A sync of the first region
  // orders the function with that reader, and so the write that follows is not
  // found to race, although it is parallel to the second reader.

  const X: nat := 7

  function Frames2(pe: bool, p0: bool, p1: bool): seq<SpBags.Frame> {
    [SpBags.Frame(false, [], false, false, 0), SpBags.Frame(false, [p0, p1], false, pe, 0)]
  }

  const TASK_FRAME := SpBags.Frame(true, [], true, true, 0)

  function Dags2(strand: nat, l0: set<nat>, l1: set<nat>): seq<DFrame> {
    [DFrame(false, 0, [], 0), DFrame(false, strand, [l0, l1], 0)]
  }

  const FIRST: Access := Access(2, X, false, true)
  const SECOND: Access := Access(4, X, false, true)
  const WRITE: Access := Access(6, X, true, true)

  const ENTERED := Config(Dag([{}, {0}], Dags2(1, {}, {})),
                          SpBags.State([InS(0), InS(1)], Frames2(false, false, false)), [], NO_SHADOW)

  const SPAWNED1 := Config(Dag([{}, {0}, {1}], Dags2(1, {}, {}) + [DFrame(true, 2, [], 0)]),
                           SpBags.State([InS(0), InS(1), InS(2)], Frames2(true, false, false) + [TASK_FRAME]),
                           [], NO_SHADOW)

  const READERS := NO_SHADOW.(readers := map[X := 2])

  const ENDED1 := Config(Dag([{}, {0}, {1}, {1}], Dags2(3, {2}, {})),
                         SpBags.State([InS(0), InS(1), InP(1, 0), InS(1)], Frames2(true, true, false)),
                         [FIRST], READERS)

  const SPAWNED2 := Config(Dag([{}, {0}, {1}, {1}, {3}], Dags2(3, {2}, {}) + [DFrame(true, 4, [], 0)]),
                           SpBags.State([InS(0), InS(1), InP(1, 0), InS(1), InS(2)],
                                        Frames2(true, true, false) + [TASK_FRAME]), [FIRST], READERS)

  const ENDED2 := Config(Dag([{}, {0}, {1}, {1}, {3}, {3}], Dags2(5, {2}, {4})),
                         SpBags.State([InS(0), InS(1), InP(1, 0), InS(1), InP(1, 1), InS(1)],
                                      Frames2(true, true, true)),
                         [FIRST, SECOND], READERS)

  const SYNCED := Config(Dag([{}, {0}, {1}, {1}, {3}, {3}, {5, 2}], Dags2(6, {}, {4})),
                         SpBags.State([InS(0), InS(1), InS(1), InS(1), InP(1, 1), InS(1), InS(1)],
                                      Frames2(true, false, true)), [FIRST, SECOND], READERS)

  const WRITTEN := Config(SYNCED.dag, SYNCED.bags, [FIRST, SECOND, WRITE], READERS.(writers := map[X := 6]))

  ghost predicate MovesTo(c: Config, a: Action, c': Config) {
    CanMove(c, a) && c' == Act(c, a)
  }

  lemma SameConfig(c: Config, e: Config)
    requires c.dag.preds == e.dag.preds && c.dag.frames == e.dag.frames
    requires c.bags.bag == e.bags.bag && c.bags.frames == e.bags.frames
    requires c.history == e.history && c.shadow == e.shadow
    ensures c == e
  {
  }

  lemma NoRegions()
    ensures EmptyLeaves(0) == [] && NoBags(0) == [] && AllLeaves([]) == {}
    ensures EmptyLeaves(2) == [{}, {}] && NoBags(2) == [false, false]
  {
  }

  lemma EnterTwoRegions()
    ensures MovesTo(BEGIN, Control(FuncEntry(true, 2)), ENTERED)
  {
    NoRegions();
    SameConfig(Act(BEGIN, Control(FuncEntry(true, 2))), ENTERED);
  }

  lemma SpawnFirst()
    ensures MovesTo(ENTERED, Control(Spawn(0)), SPAWNED1)
  {
    NoRegions();
    SameConfig(Act(ENTERED, Control(Spawn(0))), SPAWNED1);
  }

  const READ1 := SPAWNED1.(history := [FIRST], shadow := READERS)

  lemma EndFirst()
    ensures MovesTo(SPAWNED1, Touch(X, false, true), READ1)
    ensures MovesTo(READ1, Control(TaskExit(0)), ENDED1)
  {
    NoRegions();
    var two: set<nat> := {} + ({2} + {});
    assert two == {2};
    assert [{}, {}][0 := two] == [{2}, {}] && [false, false][0 := true] == [true, false];
    SameConfig(Act(READ1, Control(TaskExit(0))), ENDED1);
  }

  lemma SpawnSecond()
    ensures MovesTo(ENDED1, Control(Spawn(0)), SPAWNED2)
  {
    NoRegions();
    SameConfig(Act(ENDED1, Control(Spawn(0))), SPAWNED2);
  }

  const READ2 := SPAWNED2.(history := [FIRST, SECOND])

  lemma EndSecond()
    ensures MovesTo(SPAWNED2, Touch(X, false, true), READ2)
    ensures MovesTo(READ2, Control(TaskExit(1)), ENDED2)
  {
    NoRegions();
    var four: set<nat> := {} + ({4} + {});
    assert four == {4};
    assert [{2}, {}][1 := four] == [{2}, {4}] && [true, false][1 := true] == [true, true];
    SameConfig(Act(READ2, Control(TaskExit(1))), ENDED2);
  }

  lemma SyncFirst()
    ensures MovesTo(ENDED2, Control(Sync(0)), SYNCED)
  {
    assert {5} + {2} == {5, 2};
    assert [{2}, {4}][0 := {}] == [{}, {4}] && [true, true][0 := false] == [false, true];
    SameConfig(Act(ENDED2, Control(Sync(0))), SYNCED);
  }

  lemma WriteUnnoticed()
    ensures MovesTo(SYNCED, Touch(X, true, true), WRITTEN)
  {
    SameConfig(Act(SYNCED, Touch(X, true, true)), WRITTEN);
  }

  lemma WriteRaces(preds: seq<set<nat>>)
    requires preds == [{}, {0}, {1}, {1}, {3}, {3}, {5, 2}]
    ensures Topological(preds) && Parallel(preds, 4, 6)
  {
    if Reaches(preds, 6, 4) {
      ReachesIsForward(preds, 6, 4);
    }
    if Reaches(preds, 4, 2) {
      ReachesIsForward(preds, 4, 2);
    }
    if Reaches(preds, 4, 3) {
      ReachesIsForward(preds, 4, 3);
    }
    assert preds[6] == {5, 2} && preds[5] == {3};
    assert !Reaches(preds, 4, 5);
  }

  lemma WriteIsARace()
    ensures HasRace(WRITTEN, X) && X !in WRITTEN.shadow.reported
  {
    WriteRaces(WRITTEN.dag.preds);
    assert WRITTEN.history[1] == SECOND && WRITTEN.history[2] == WRITE;
  }

  function ConfigAt(i: nat): Config {
    if i == 0 then BEGIN else if i == 1 then ENTERED else if i == 2 then SPAWNED1 else if i == 3 then READ1
    else if i == 4 then ENDED1 else if i == 5 then SPAWNED2 else if i == 6 then READ2 else if i == 7 then ENDED2
    else if i == 8 then SYNCED else WRITTEN
  }

  function ActionAt(i: nat): Action {
    if i == 0 then Control(FuncEntry(true, 2)) else if i == 1 || i == 4 then Control(Spawn(0))
    else if i == 2 || i == 5 then Touch(X, false, true) else if i == 3 then Control(TaskExit(0))
    else if i == 6 then Control(TaskExit(1)) else if i == 7 then Control(Sync(0)) else Touch(X, true, true)
  }

  lemma StepOfRun(i: nat)
    requires i < 9
    ensures MovesTo(ConfigAt(i), ActionAt(i), ConfigAt(i + 1))
  {
    if i == 0 {
      EnterTwoRegions();
    } else if i == 1 {
      SpawnFirst();
    } else if i <= 3 {
      EndFirst();
    } else if i == 4 {
      SpawnSecond();
    } else if i <= 6 {
      EndSecond();
    } else if i == 7 {
      SyncFirst();
    } else {
      WriteUnnoticed();
    }
  }

  function Run(n: nat): (actions: seq<Action>)
    ensures |actions| == n
  {
    if n == 0 then [] else Run(n - 1) + [ActionAt(n - 1)]
  }

  lemma {:induction false} RunReaches(n: nat)
    requires n <= 9
    ensures Runs(Run(n)) && Outcome(Run(n)) == ConfigAt(n)
  {
    if n > 0 {
      RunReaches(n - 1);
      StepOfRun(n - 1);
      OneMore(Run(n - 1), ActionAt(n - 1));
    }
  }

  // The run, and the race that it does not report.
  lemma TwoRegionsMissARace()
    ensures Runs(Run(9)) && HasRace(Outcome(Run(9)), X) && X !in Outcome(Run(9)).shadow.reported
  {
    RunReaches(9);
    WriteIsARace();
  }
}
