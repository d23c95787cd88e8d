// When the detector is exact, for every program: what it reports is exact for
// every placement of accesses if and only if the run syncs the regions of each
// frame in nested order.

module NestedSyncs {
  import opened StrandDag
  import opened SpBags
  import opened RaceDetector

  // The control events alone.
  function Quiet(es: seq<Event>): (actions: seq<Action>)
    ensures |actions| == |es|
  {
    seq(|es|, i requires 0 <= i < |es| => Control(es[i]))
  }

  // The control events of a run with accesses.
  function Controls(actions: seq<Action>): seq<Event> {
    if |actions| == 0 then []
    else Controls(Front(actions)) + if Last(actions).Control? then [Last(actions).e] else []
  }

  lemma QuietFront(es: seq<Event>, e: Event)
    ensures Front(Quiet(es + [e])) == Quiet(es) && Last(Quiet(es + [e])) == Control(e)
  {
  }

  // Accesses change neither the dag nor the bags.
  lemma {:induction false} SameControls(actions: seq<Action>)
    requires Runs(actions)
    ensures Runs(Quiet(Controls(actions)))
    ensures var (c, q) := (Outcome(actions), Outcome(Quiet(Controls(actions)))); c.dag == q.dag && c.bags == q.bags
    ensures NestedRun(actions) <==> NestedRun(Quiet(Controls(actions)))
    decreases |actions|
  {
    if |actions| > 0 {
      SameControls(Front(actions));
      if Last(actions).Control? {
        QuietFront(Controls(Front(actions)), Last(actions).e);
      } else {
        assert Controls(actions) == Controls(Front(actions));
      }
    }
  }

  ghost predicate Steady(c: Config) {
    Good(c.dag, c.bags) && FlagInvariant(c.bags)
  }

  lemma SteadyShape(c: Config)
    requires Steady(c)
    ensures |c.bags.bag| == |c.dag.preds| > 0 && |c.bags.frames| == |c.dag.frames| > 0
  {
  }

  lemma {:induction false} RunIsSteady(actions: seq<Action>)
    requires Runs(actions)
    ensures Steady(Outcome(actions))
    decreases |actions|
  {
    if |actions| == 0 {
      InitiallyGood();
      FlagInvariantInitially();
    } else {
      RunIsSteady(Front(actions));
      var c, a := Outcome(Front(actions)), Last(actions);
      if a.Control? {
        StepIsGood(c.dag, c.bags, a.e);
        StepKeepsFlagInvariant(c.bags, a.e);
      }
    }
  }

  // What the beginning of a run has in common with its end.
  ghost predicate Continues(c: Config, c': Config) {
    Steady(c) && Steady(c') && Extends(c, c')
  }

  ghost predicate Extends(c: Config, c': Config) {
    && c.dag.preds <= c'.dag.preds
    && forall u :: 0 <= u < |c.bags.bag| && Settled(c.bags, u) ==> Settled(c'.bags, u)
  }

  lemma StepExtends(c: Config, e: Event)
    requires CanMove(c, Control(e))
    ensures Extends(c, Act(c, Control(e)))
  {
    var c' := Act(c, Control(e));
    forall u | 0 <= u < |c.bags.bag| && Settled(c.bags, u)
      ensures Settled(c'.bags, u)
    {
      StepKeepsSettled(c.bags, e, u);
    }
  }

  lemma LastStep(front: seq<Event>, e: Event)
    requires Runs(Quiet(front + [e]))
    ensures Runs(Quiet(front)) && Extends(Outcome(Quiet(front)), Outcome(Quiet(front + [e])))
    ensures NestedRun(Quiet(front + [e])) ==> NestedRun(Quiet(front))
  {
    QuietFront(front, e);
    StepExtends(Outcome(Quiet(front)), e);
  }

  lemma {:induction false} BeginningExtends(es: seq<Event>, m: nat)
    requires Runs(Quiet(es)) && m <= |es|
    ensures Runs(Quiet(es[..m])) && Extends(Outcome(Quiet(es[..m])), Outcome(Quiet(es)))
    ensures NestedRun(Quiet(es)) ==> NestedRun(Quiet(es[..m]))
    decreases |es|
  {
    if m < |es| {
      var front, e := es[..|es| - 1], es[|es| - 1];
      assert es == front + [e] && front[..m] == es[..m];
      LastStep(front, e);
      BeginningExtends(front, m);
    } else {
      assert es[..m] == es;
    }
  }

  lemma BeginningOfRun(es: seq<Event>, m: nat)
    requires Runs(Quiet(es)) && m <= |es|
    ensures Runs(Quiet(es[..m])) && Continues(Outcome(Quiet(es[..m])), Outcome(Quiet(es)))
    ensures NestedRun(Quiet(es)) ==> NestedRun(Quiet(es[..m]))
  {
    BeginningExtends(es, m);
    RunIsSteady(Quiet(es));
    RunIsSteady(Quiet(es[..m]));
  }

  // ------------------------------------------------------------ nested is enough

  // All placements of accesses in the run, at every moment of it.
  ghost predicate ExactOn(es: seq<Event>, actions: seq<Action>) {
    Runs(actions) && Controls(actions) <= es ==> ReportsExactly(Outcome(actions))
  }

  lemma NestedIsExact(es: seq<Event>, actions: seq<Action>)
    requires Runs(Quiet(es)) && NestedRun(Quiet(es))
    ensures ExactOn(es, actions)
  {
    if Runs(actions) && Controls(actions) <= es {
      var m := |Controls(actions)|;
      assert es[..m] == Controls(actions);
      BeginningOfRun(es, m);
      SameControls(actions);
      ReportsExactlyTheRaces(actions);
    }
  }

  // ---------------------------------------------------------- nested is necessary

  const X: nat := 7

  // Strands that will be left apart by the next sync of the region: `u` is
  // synced although the younger `v` waits in another region of the frame.
  ghost predicate LeftApart(c: Config, reg: nat, u: nat, v: nat) {
    Steady(c) && u < v && WaitsIn(c.bags, u, reg) && WaitsElsewhere(c.bags, v, reg)
  }

  // What precedes a strand in a P-bag precedes the spawn or is in that bag, too.
  lemma BehindPBag(d: Dag, s: State, u: nat, v: nat)
    requires Good(d, s) && v < |d.preds| && u < |d.preds| && s.bag[v].InP? && Reaches(d.preds, u, v)
    ensures InSeriesUpTo(s.bag[u], s.bag[v].frame) || s.bag[u] == s.bag[v]
  {
    var past, k, r := Past(d.preds), s.bag[v].frame, s.bag[v].reg;
    PastIsReachability(d.preds);
    assert PBagReachesLeaf(past, d.frames, s);
    var l :| l in d.frames[k].leaves[r] && v in past[l];
    ReachesTransitive(d.preds, u, v, l);
    assert u in past[l];
    assert LeavesCovered(past, d.frames, s);
  }

  lemma ApartMeansParallel(c: Config, reg: nat, u: nat, v: nat)
    requires LeftApart(c, reg, u, v)
    ensures v < |c.dag.preds| && !Reaches(c.dag.preds, u, v)
  {
    if Reaches(c.dag.preds, u, v) {
      BehindPBag(c.dag, c.bags, u, v);
    }
  }

  lemma SerialStaysInSeries(c: Config, c': Config)
    requires Continues(c, c') && !SpBags.Top(c.bags).pe
    ensures |c.bags.bag| == |c.dag.preds| <= |c'.bags.bag| && c'.bags.bag[|c.dag.preds| - 1].InS?
  {
    FlagDownSettles(c.dag, c.bags, |c.dag.preds| - 1);
    assert Settled(c'.bags, |c.dag.preds| - 1);
  }

  lemma ParallelWhenRunning(c: Config, c': Config, reg: nat, u: nat, v: nat)
    requires Continues(c, c') && LeftApart(c', reg, u, v) && |c.dag.preds| == v + 1
    ensures |c.bags.bag| == v + 1 && c.bags.bag[u].InP?
  {
    ApartMeansParallel(c', reg, u, v);
    ReachesStable(c.dag.preds, c'.dag.preds, u, v);
    if Reaches(c.dag.preds, v, u) {
      ReachesIsForward(c.dag.preds, v, u);
    }
    BagsDecideParallelism(c.dag, c.bags, u);
  }

  // While either strand ran the tool was checking accesses, and while the
  // second one ran the first one was parallel.
  ghost predicate Running(c: Config, u: nat, v: nat) {
    var w := |c.dag.preds| - 1;
    && |c.bags.bag| == w + 1 > 0 && |c.bags.frames| > 0 && u < v
    && (w == u || w == v ==> SpBags.Top(c.bags).pe)
    && (w == v ==> c.bags.bag[u].InP?)
  }

  lemma WhileRunning(es: seq<Event>, reg: nat, u: nat, v: nat, m: nat)
    requires Runs(Quiet(es)) && LeftApart(Outcome(Quiet(es)), reg, u, v) && m <= |es|
    ensures Runs(Quiet(es[..m])) && Running(Outcome(Quiet(es[..m])), u, v)
  {
    BeginningOfRun(es, m);
    RunsOn(Outcome(Quiet(es[..m])), Outcome(Quiet(es)), reg, u, v);
  }

  lemma RunsOn(c: Config, c': Config, reg: nat, u: nat, v: nat)
    requires Continues(c, c') && LeftApart(c', reg, u, v)
    ensures Running(c, u, v)
  {
    SteadyShape(c);
    var w := |c.dag.preds| - 1;
    if !SpBags.Top(c.bags).pe {
      SerialStaysInSeries(c, c');
    }
    if w == v {
      ParallelWhenRunning(c, c', reg, u, v);
    }
  }

  // Both strands read the location, as far as the run has come.
  ghost predicate ReadBy(c: Config, u: nat, v: nat) {
    var n := |c.dag.preds|;
    && c.shadow.reported == {} && c.shadow.writers == map[]
    && c.shadow.readers == (if u < n then map[X := u] else map[])
    && c.history == (if u < n then [Access(u, X, false, true)] else [])
                    + (if v < n then [Access(v, X, false, true)] else [])
  }

  // The actions are the run `es` with reads placed in it.
  ghost predicate PlacedIn(es: seq<Event>, actions: seq<Action>) {
    && Runs(actions) && Controls(actions) == es && Runs(Quiet(es))
    && Outcome(actions).dag == Outcome(Quiet(es)).dag && Outcome(actions).bags == Outcome(Quiet(es)).bags
  }

  lemma PlaceControl(es: seq<Event>, actions: seq<Action>, e: Event)
    requires PlacedIn(es, actions) && Runs(Quiet(es + [e]))
    ensures PlacedIn(es + [e], actions + [Control(e)])
    ensures var (c, c') := (Outcome(actions), Outcome(actions + [Control(e)]));
      && c'.history == c.history && c'.shadow == ControlShadow(c.shadow, e)
      && |c.dag.preds| <= |c'.dag.preds| <= |c.dag.preds| + 1
  {
    QuietFront(es, e);
    OneMore(actions, Control(e));
  }

  lemma PlaceTouch(es: seq<Event>, actions: seq<Action>, x: nat, write: bool)
    requires PlacedIn(es, actions) && CanMove(Outcome(actions), Touch(x, write, true))
    ensures PlacedIn(es, actions + [Touch(x, write, true)])
    ensures Outcome(actions + [Touch(x, write, true)]) == Act(Outcome(actions), Touch(x, write, true))
  {
    OneMore(actions, Touch(x, write, true));
  }

  // The first read is remembered, the second one is not.
  lemma ReadIsPlaced(c: Config, u: nat, v: nat)
    requires Running(c, u, v) && CanMove(c, Touch(X, false, true))
    requires var w := |c.dag.preds| - 1;
      && (w == u || w == v)
      && c.shadow.reported == {} && c.shadow.writers == map[]
      && c.shadow.readers == (if w == v then map[X := u] else map[])
      && c.history == (if w == v then [Access(u, X, false, true)] else [])
    ensures ReadBy(Act(c, Touch(X, false, true)), u, v)
  {
  }

  // Nothing changes for the reads unless one of the two strands starts.
  lemma NoNewReads(c: Config, c': Config, e: Event, u: nat, v: nat)
    requires ReadBy(c, u, v) && u < v
    requires c'.history == c.history && c'.shadow == ControlShadow(c.shadow, e)
    requires |c.dag.preds| <= |c'.dag.preds| <= |c.dag.preds| + 1
    ensures var w := |c'.dag.preds| - 1;
      if |c.dag.preds| == w && (w == u || w == v) then
        && c'.shadow.reported == {} && c'.shadow.writers == map[]
        && c'.shadow.readers == (if w == v then map[X := u] else map[])
        && c'.history == (if w == v then [Access(u, X, false, true)] else [])
      else ReadBy(c', u, v)
  {
  }

  lemma PlaceNext(es: seq<Event>, e: Event, u: nat, v: nat, before: seq<Action>) returns (actions: seq<Action>)
    requires PlacedIn(es, before) && ReadBy(Outcome(before), u, v)
    requires Runs(Quiet(es + [e])) && Running(Outcome(Quiet(es + [e])), u, v)
    ensures PlacedIn(es + [e], actions) && ReadBy(Outcome(actions), u, v)
  {
    PlaceControl(es, before, e);
    actions := before + [Control(e)];
    var c, c' := Outcome(before), Outcome(actions);
    NoNewReads(c, c', e, u, v);
    if |c.dag.preds| < |c'.dag.preds| && (|c.dag.preds| == u || |c.dag.preds| == v) {
      ReadIsPlaced(c', u, v);
      PlaceTouch(es + [e], actions, X, false);
      actions := actions + [Touch(X, false, true)];
    }
  }

  ghost predicate RunsAlong(es: seq<Event>, u: nat, v: nat, m: nat)
    requires m <= |es|
  {
    forall i {:trigger es[..i]} :: 0 <= i <= m ==> Runs(Quiet(es[..i])) && Running(Outcome(Quiet(es[..i])), u, v)
  }

  lemma NoneYet(es: seq<Event>, u: nat, v: nat)
    requires |es| == 0 && Runs(Quiet(es)) && Running(Outcome(Quiet(es)), u, v)
    ensures PlacedIn(es, []) && ReadBy(Outcome([]), u, v)
  {
  }

  lemma {:induction false} PlaceReads(es: seq<Event>, u: nat, v: nat, m: nat) returns (actions: seq<Action>)
    requires m <= |es| && RunsAlong(es, u, v, m)
    ensures PlacedIn(es[..m], actions) && ReadBy(Outcome(actions), u, v)
    decreases m
  {
    var now := es[..m];
    if m == 0 {
      NoneYet(now, u, v);
      actions := [];
    } else {
      assert now == es[..m - 1] + [es[m - 1]];
      var before := PlaceReads(es, u, v, m - 1);
      actions := PlaceNext(es[..m - 1], es[m - 1], u, v, before);
    }
  }

  // After the sync the first reader is in series and the second one is not.
  lemma SyncSeparates(c: Config, reg: nat, u: nat, v: nat, c': Config)
    requires LeftApart(c, reg, u, v) && CanMove(c, Control(Sync(reg))) && c' == Act(c, Control(Sync(reg)))
    ensures Good(c'.dag, c'.bags) && v < |c'.bags.bag| == |c'.dag.preds|
    ensures c'.bags.bag[u].InS? && c'.bags.bag[v].InP?
  {
    SteadyShape(c);
    StepIsGood(c.dag, c.bags, Sync(reg));
  }

  // A write now is not reported although it races with the second read.
  lemma WriteMisses(c: Config, u: nat, v: nat)
    requires Good(c.dag, c.bags) && u < v < |c.bags.bag| == |c.dag.preds|
    requires c.bags.bag[u].InS? && c.bags.bag[v].InP?
    requires ReadBy(c, u, v) && CanMove(c, Touch(X, true, true))
    ensures var c' := Act(c, Touch(X, true, true)); HasRace(c', X) && X !in c'.shadow.reported
  {
    var c' := Act(c, Touch(X, true, true));
    BagsDecideParallelism(c.dag, c.bags, v);
    assert c'.history[1].strand == v && c'.history[2].strand == |c.dag.preds| - 1;
    assert Conflicting(c'.history[1], c'.history[2]);
  }

  lemma FindApart(es: seq<Event>, reg: nat) returns (u: nat, v: nat)
    requires Runs(Quiet(es)) && !SyncsYoungest(Outcome(Quiet(es)).bags, reg)
    ensures LeftApart(Outcome(Quiet(es)), reg, u, v)
  {
    RunIsSteady(Quiet(es));
    var s := Outcome(Quiet(es)).bags;
    u, v :| WaitsIn(s, u, reg) && WaitsElsewhere(s, v, reg) && v >= u;
  }

  lemma MissedAfter(placed: seq<Action>, reg: nat, u: nat, v: nat) returns (actions: seq<Action>)
    requires Runs(placed) && LeftApart(Outcome(placed), reg, u, v) && ReadBy(Outcome(placed), u, v)
    requires CanMove(Outcome(placed), Control(Sync(reg)))
    ensures Runs(actions) && Controls(actions) == Controls(placed) + [Sync(reg)]
    ensures !ReportsExactly(Outcome(actions))
  {
    OneMore(placed, Control(Sync(reg)));
    var synced := placed + [Control(Sync(reg))];
    SyncSeparates(Outcome(placed), reg, u, v, Outcome(synced));
    WriteMisses(Outcome(synced), u, v);
    OneMore(synced, Touch(X, true, true));
    actions := synced + [Touch(X, true, true)];
    assert !(X in Outcome(actions).shadow.reported <==> HasRace(Outcome(actions), X));
  }

  lemma UnnestedMisses(es: seq<Event>, reg: nat) returns (actions: seq<Action>)
    requires Runs(Quiet(es)) && CanMove(Outcome(Quiet(es)), Control(Sync(reg)))
    requires !SyncsYoungest(Outcome(Quiet(es)).bags, reg)
    ensures Controls(actions) == es + [Sync(reg)] && Runs(actions) && !ReportsExactly(Outcome(actions))
  {
    var u, v := FindApart(es, reg);
    assert es[..|es|] == es;
    forall i | 0 <= i <= |es|
      ensures Runs(Quiet(es[..i])) && Running(Outcome(Quiet(es[..i])), u, v)
    {
      WhileRunning(es, reg, u, v, i);
    }
    var placed := PlaceReads(es, u, v, |es|);
    actions := MissedAfter(placed, reg, u, v);
  }

  // The first sync that is not in nested order.
  lemma {:induction false} FirstUnnested(es: seq<Event>) returns (m: nat)
    requires Runs(Quiet(es)) && !NestedRun(Quiet(es))
    ensures m < |es| && es[m].Sync? && Runs(Quiet(es[..m]))
    ensures CanMove(Outcome(Quiet(es[..m])), Control(es[m]))
    ensures !SyncsYoungest(Outcome(Quiet(es[..m])).bags, es[m].reg)
    decreases |es|
  {
    var front, e := es[..|es| - 1], es[|es| - 1];
    assert es == front + [e];
    QuietFront(front, e);
    if NestedRun(Quiet(front)) {
      m := |es| - 1;
    } else {
      m := FirstUnnested(front);
      assert front[..m] == es[..m];
    }
  }

  lemma UnnestedIsInexact(es: seq<Event>) returns (actions: seq<Action>)
    requires Runs(Quiet(es)) && !NestedRun(Quiet(es))
    ensures !ExactOn(es, actions)
  {
    var m := FirstUnnested(es);
    actions := UnnestedMisses(es[..m], es[m].reg);
    assert es[..m] + [es[m]] <= es;
  }

  // The detector reports exactly the races, wherever the accesses are placed in
  // the run, if and only if every sync of the run is in nested order.
  lemma ExactIffNested(es: seq<Event>)
    requires Runs(Quiet(es))
    ensures NestedRun(Quiet(es)) <==> forall actions :: ExactOn(es, actions)
  {
    if NestedRun(Quiet(es)) {
      forall actions
        ensures ExactOn(es, actions)
      {
        NestedIsExact(es, actions);
      }
    } else {
      var actions := UnnestedIsInexact(es);
    }
  }
}
