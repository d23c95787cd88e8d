// Races between accesses to regions of memory.  The shadow memory, asked about
// the bags of the strands it remembers, makes the steps of the detector for all
// bytes of a region at once: an access that is checked is reported exactly when
// one of its bytes races with an earlier access.

module ByteRaces {
  import opened StrandDag
  import opened RaceDetector
  import opened ShadowDictionary
  import opened ShadowScan
  import opened ShadowUpdate
  import opened ShadowMemory
  import opened Occupancy
  import SpBags
  import ShadowLine

  // ------------------------------------------------ one dictionary, one strand

  // What the shadow memory remembers for a byte is the node of the strand that the
  // detector remembers.
  ghost predicate StandsAt(lines: Lines, previous: map<nat, nat>, nodeOf: nat -> nat, a: nat) {
    && (View(lines, a).Access? <==> a in previous)
    && (a in previous ==> View(lines, a).func == nodeOf(previous[a]))
  }

  ghost predicate Stands(lines: Lines, previous: map<nat, nat>, nodeOf: nat -> nat) {
    forall a: nat {:trigger StandsAt(lines, previous, nodeOf, a)} :: StandsAt(lines, previous, nodeOf, a)
  }

  // The test for parallel accesses finds the node of a remembered strand in a P-bag
  // exactly when the strand is in one.
  ghost predicate OracleAgrees(par: Oracle, s: SpBags.State, previous: map<nat, nat>, nodeOf: nat -> nat) {
    forall a, version: nat :: a in previous ==>
      (par(nodeOf(previous[a]), version) <==> previous[a] < |s.bag| && s.bag[previous[a]].InP?)
  }

  lemma ParallelAlike(lines: Lines, previous: map<nat, nat>, nodeOf: nat -> nat, par: Oracle, s: SpBags.State, a: nat)
    requires Stands(lines, previous, nodeOf) && OracleAgrees(par, s, previous, nodeOf)
    ensures InParallel(par, View(lines, a)) <==> PreviousInParallel(s, previous, a)
  {
    assert StandsAt(lines, previous, nodeOf, a);
  }

  // The remembered strands after an access to the bytes from `from` up to `to`.
  ghost predicate RememberedIn(s: SpBags.State, p0: map<nat, nat>, p1: map<nat, nat>, from: nat, end: nat) {
    forall a: nat {:trigger RememberedAt(s, p0, p1, from, end, a)} :: RememberedAt(s, p0, p1, from, end, a)
  }

  predicate RememberedAt(s: SpBags.State, p0: map<nat, nat>, p1: map<nat, nat>, from: nat, end: nat, a: nat) {
    if from <= a < end && !PreviousInParallel(s, p0, a) then a in p1 && p1[a] == |s.bag| - 1
    else (a in p1 <==> a in p0) && (a in p0 ==> p1[a] == p0[a])
  }

  // The rule for bytes and the rule for locations keep in step.
  lemma UpdateStands(l0: Lines, l1: Lines, p0: map<nat, nat>, p1: map<nat, nat>, nodeOf: nat -> nat,
                     par: Oracle, s: SpBags.State, from: nat, end: nat, v: ShadowLine.Access)
    requires Stands(l0, p0, nodeOf) && OracleAgrees(par, s, p0, nodeOf) && |s.bag| > 0
    requires UpdatedIn(par, l0, l1, from, end, v) && RememberedIn(s, p0, p1, from, end)
    requires v.Access? && v.func == nodeOf(|s.bag| - 1)
    ensures Stands(l1, p1, nodeOf)
  {
    forall a: nat
      ensures StandsAt(l1, p1, nodeOf, a)
    {
      assert StandsAt(l0, p0, nodeOf, a) && RememberedAt(s, p0, p1, from, end, a);
      ParallelAlike(l0, p0, nodeOf, par, s, a);
    }
  }

  // A region has a parallel access in the shadow memory exactly when a location in
  // it has one.
  lemma FoundAlike(lines: Lines, previous: map<nat, nat>, nodeOf: nat -> nat, par: Oracle, s: SpBags.State,
                   from: nat, end: nat)
    requires Stands(lines, previous, nodeOf) && OracleAgrees(par, s, previous, nodeOf)
    ensures HasParallel(lines, par, from, end) <==>
      exists a: nat :: from <= a < end && PreviousInParallel(s, previous, a)
  {
    if a: nat :| from <= a < end && InParallel(par, View(lines, a)) {
      ParallelAlike(lines, previous, nodeOf, par, s, a);
    }
    if a: nat :| from <= a < end && PreviousInParallel(s, previous, a) {
      ParallelAlike(lines, previous, nodeOf, par, s, a);
    }
  }

  // ------------------------------------------------------- a region, byte by byte

  function Kind(sh: Shadow, write: bool): map<nat, nat> {
    if write then sh.writers else sh.readers
  }

  // An access to a region as accesses to its bytes.  When the region is checked,
  // bytes that are occupied already are checked again.
  function Touches(sh: Shadow, write: bool, checked: bool, fast: bool, from: nat, end: nat): seq<Action>
    decreases end
  {
    if from >= end then [] else
      Touches(sh, write, checked, fast, from, end - 1)
      + [Touch(end - 1, write, checked && (fast || (write, end - 1) in sh.occupied))]
  }

  // A strand's accesses to the bytes of a region.
  function Accesses(strand: nat, write: bool, checked: bool, from: nat, end: nat): (accesses: seq<Access>)
    decreases end
    ensures forall i :: 0 <= i < |accesses| ==> accesses[i].strand == strand
  {
    if from >= end then []
    else Accesses(strand, write, checked, from, end - 1) + [Access(strand, end - 1, write, checked)]
  }

  // The bytes are occupied, or all of them are checked.
  predicate Decided(sh: Shadow, write: bool, checked: bool, from: nat, end: nat) {
    !checked ==> forall a: nat :: from <= a < end ==> (write, a) in sh.occupied
  }

  // What the touches do to the shadow memory.
  ghost predicate Recorded(s: SpBags.State, sh: Shadow, sh': Shadow, write: bool, checked: bool, from: nat, end: nat)
  {
    && Kind(sh', !write) == Kind(sh, !write)
    && if checked then RememberedIn(s, Kind(sh, write), Kind(sh', write), from, end)
       else Kind(sh', write) == Kind(sh, write)
  }

  predicate OccupiedAt(sh: Shadow, sh': Shadow, write: bool, fast: bool, from: nat, end: nat, w: bool, a: nat) {
    (w, a) in sh'.occupied <==> (w, a) in sh.occupied || (!fast && w == write && from <= a < end)
  }

  ghost predicate OccupiedIn(sh: Shadow, sh': Shadow, write: bool, fast: bool, from: nat, end: nat) {
    forall w, a: nat {:trigger OccupiedAt(sh, sh', write, fast, from, end, w, a)} ::
      OccupiedAt(sh, sh', write, fast, from, end, w, a)
  }

  lemma TouchRecords(s: SpBags.State, sh: Shadow, m: Shadow, sh': Shadow, write: bool, checked: bool, fast: bool,
                     from: nat, a: nat)
    requires |s.frames| > 0 && |s.bag| > 0 && SpBags.Top(s).pe && from <= a && (fast ==> checked)
    requires Decided(sh, write, checked, from, a + 1)
    requires Recorded(s, sh, m, write, checked, from, a) && OccupiedIn(sh, m, write, fast, from, a)
    requires sh' == TouchShadow(s, m, a, write, checked && (fast || (write, a) in sh.occupied))
    ensures Recorded(s, sh, sh', write, checked, from, a + 1)
  {
    assert OccupiedAt(sh, m, write, fast, from, a, write, a);
    if checked {
      var p0, p1, p2, end := Kind(sh, write), Kind(m, write), Kind(sh', write), a + 1;
      forall b: nat
        ensures RememberedAt(s, p0, p2, from, end, b)
      {
        assert RememberedAt(s, p0, p1, from, a, b) && RememberedAt(s, p0, p1, from, a, a);
      }
    }
  }

  lemma TouchOccupies(s: SpBags.State, sh: Shadow, m: Shadow, sh': Shadow, write: bool, checked: bool, fast: bool,
                      from: nat, a: nat)
    requires |s.frames| > 0 && |s.bag| > 0 && SpBags.Top(s).pe && from <= a && (fast ==> checked)
    requires Decided(sh, write, checked, from, a + 1)
    requires OccupiedIn(sh, m, write, fast, from, a)
    requires sh' == TouchShadow(s, m, a, write, checked && (fast || (write, a) in sh.occupied))
    ensures OccupiedIn(sh, sh', write, fast, from, a + 1)
  {
    assert OccupiedAt(sh, m, write, fast, from, a, write, a);
    var end := a + 1;
    forall w, b: nat
      ensures OccupiedAt(sh, sh', write, fast, from, end, w, b)
    {
      assert OccupiedAt(sh, m, write, fast, from, a, w, b);
    }
  }

  // One strand has accessed all bytes of a region.
  ghost predicate TouchedTo(c: Config, c': Config, write: bool, checked: bool, fast: bool, from: nat, end: nat)
    requires |c.bags.frames| > 0 && |c.dag.preds| > 0
  {
    var pe := SpBags.Top(c.bags).pe;
    && c'.dag == c.dag && c'.bags == c.bags
    && c'.history == c.history + Accesses(|c.dag.preds| - 1, write, pe, from, end)
    && if pe then
         && Recorded(c.bags, c.shadow, c'.shadow, write, checked, from, end)
         && OccupiedIn(c.shadow, c'.shadow, write, fast, from, end)
       else c'.shadow == c.shadow
  }

  lemma OneByteMore(c: Config, m: Config, write: bool, checked: bool, fast: bool, from: nat, a: nat)
    requires |c.bags.frames| > 0 && |c.dag.preds| > 0 && |c.bags.bag| > 0 && from <= a && (fast ==> checked)
    requires SpBags.Top(c.bags).pe ==> Decided(c.shadow, write, checked, from, a + 1)
    requires TouchedTo(c, m, write, checked, fast, from, a)
    ensures CanMove(m, Touch(a, write, checked && (fast || (write, a) in c.shadow.occupied)))
    ensures var m' := Act(m, Touch(a, write, checked && (fast || (write, a) in c.shadow.occupied)));
      TouchedTo(c, m', write, checked, fast, from, a + 1)
  {
    var m' := Act(m, Touch(a, write, checked && (fast || (write, a) in c.shadow.occupied)));
    if SpBags.Top(c.bags).pe {
      TouchRecords(c.bags, c.shadow, m.shadow, m'.shadow, write, checked, fast, from, a);
      TouchOccupies(c.bags, c.shadow, m.shadow, m'.shadow, write, checked, fast, from, a);
    }
    assert c.history + Accesses(|c.dag.preds| - 1, write, SpBags.Top(c.bags).pe, from, a + 1) == m'.history;
  }

  // The actions, and the state after them as seen from the state before the region.
  ghost predicate RegionRun(c: Config, actions: seq<Action>, write: bool, checked: bool, fast: bool,
                            from: nat, end: nat, nested: bool)
    requires |c.bags.frames| > 0 && |c.dag.preds| > 0
  {
    Runs(actions) && TouchedTo(c, Outcome(actions), write, checked, fast, from, end) && (nested ==> NestedRun(actions))
  }

  lemma OneTouchMore(c: Config, before: seq<Action>, write: bool, checked: bool, fast: bool, from: nat, a: nat,
                     nested: bool, all: seq<Action>)
    requires |c.bags.frames| > 0 && |c.dag.preds| > 0 && |c.bags.bag| > 0 && from <= a && (fast ==> checked)
    requires SpBags.Top(c.bags).pe ==> Decided(c.shadow, write, checked, from, a + 1)
    requires RegionRun(c, before, write, checked, fast, from, a, nested)
    requires all == before + [Touch(a, write, checked && (fast || (write, a) in c.shadow.occupied))]
    ensures RegionRun(c, all, write, checked, fast, from, a + 1, nested)
  {
    OneByteMore(c, Outcome(before), write, checked, fast, from, a);
    OneMore(before, Touch(a, write, checked && (fast || (write, a) in c.shadow.occupied)));
  }

  lemma NothingTouched(c: Config, write: bool, checked: bool, fast: bool, from: nat, end: nat)
    requires |c.bags.frames| > 0 && |c.dag.preds| > 0 && from >= end
    ensures TouchedTo(c, c, write, checked, fast, from, end)
  {
    assert c.history + [] == c.history;
  }

  // The region's touches can be carried out, and do what they should.
  lemma {:induction false} RegionRuns(c: Config, actions: seq<Action>, write: bool, checked: bool, fast: bool,
                                      from: nat, end: nat, nested: bool, all: seq<Action>)
    requires |c.bags.frames| > 0 && |c.dag.preds| > 0 && |c.bags.bag| > 0 && from <= end && (fast ==> checked)
    requires RegionRun(c, actions, write, checked, fast, from, from, nested)
    requires SpBags.Top(c.bags).pe ==> Decided(c.shadow, write, checked, from, end)
    requires all == actions + Touches(c.shadow, write, checked, fast, from, end)
    ensures RegionRun(c, all, write, checked, fast, from, end, nested)
    decreases end
  {
    if from == end {
      assert all == actions;
    } else {
      var a := end - 1;
      var before := actions + Touches(c.shadow, write, checked, fast, from, a);
      RegionRuns(c, actions, write, checked, fast, from, a, nested, before);
      assert all == before + [Touch(a, write, checked && (fast || (write, a) in c.shadow.occupied))];
      OneTouchMore(c, before, write, checked, fast, from, a, nested, all);
    }
  }

  // ------------------------------------------------------------ races on regions

  // A strand's own accesses do not race with it.
  lemma OwnAccesses(preds: seq<set<nat>>, history: seq<Access>, more: seq<Access>, a: Access, x: nat)
    requires Topological(preds) && a.strand < |preds|
    requires forall i :: 0 <= i < |history| ==> history[i].strand < |preds|
    requires forall i :: 0 <= i < |more| ==> more[i].strand == a.strand
    ensures RacesWith(preds, history + more, a, x) <==> RacesWith(preds, history, a, x)
  {
    var all := history + more;
    if i :| 0 <= i < |all| && all[i].loc == x && Conflicting(all[i], a) && Parallel(preds, all[i].strand, a.strand) {
      assert all[i] == history[i];
    }
    if i :| 0 <= i < |history| && history[i].loc == x && Conflicting(history[i], a)
            && Parallel(preds, history[i].strand, a.strand) {
      assert all[i] == history[i];
    }
  }

  // The races of a run that ends with accesses to a region.
  lemma {:induction false} RacesOfRegion(preds: seq<set<nat>>, history: seq<Access>, strand: nat, write: bool,
                                         checked: bool, from: nat, end: nat, x: nat)
    requires Topological(preds) && strand < |preds|
    requires forall i :: 0 <= i < |history| ==> history[i].strand < |preds|
    ensures Racy(preds, history + Accesses(strand, write, checked, from, end), x) <==>
      || Racy(preds, history, x)
      || (from <= x < end && RacesWith(preds, history, Access(strand, x, write, checked), x))
    decreases end
  {
    if from >= end {
      assert history + [] == history;
    } else {
      var own, a := Accesses(strand, write, checked, from, end - 1), Access(strand, end - 1, write, checked);
      RacesOfRegion(preds, history, strand, write, checked, from, end - 1, x);
      RacesOfLonger(preds, history + own, a, x);
      OwnAccesses(preds, history, own, a, x);
      assert history + Accesses(strand, write, checked, from, end) == (history + own) + [a];
    }
  }

  predicate IsOpen(c: Config) {
    |c.bags.frames| > 0 && |c.bags.bag| > 0 && |c.dag.preds| > 0
  }

  // The dag and the history fit together.
  ghost predicate Sane(c: Config) {
    && IsOpen(c) && WellFormed(c.dag)
    && forall i :: 0 <= i < |c.history| ==> c.history[i].strand < |c.dag.preds|
  }

  // An access of the running strand to the byte races with an earlier access.
  ghost predicate ByteRaces(c: Config, write: bool, a: nat) {
    Sane(c) && RacesWith(c.dag.preds, c.history, Access(|c.dag.preds| - 1, a, write, SpBags.Top(c.bags).pe), a)
  }

  ghost predicate RegionRaces(c: Config, write: bool, from: nat, end: nat) {
    exists a: nat :: from <= a < end && ByteRaces(c, write, a)
  }

  ghost predicate KindInParallel(s: SpBags.State, history: seq<Access>, x: nat, write: bool)
    requires StrandsExist(s, history)
  {
    exists i :: 0 <= i < |history| && history[i].loc == x && history[i].write == write
      && s.bag[history[i].strand].InP?
  }

  lemma ConflictIsOfAKind(s: SpBags.State, history: seq<Access>, x: nat, write: bool)
    requires StrandsExist(s, history)
    ensures ParallelConflict(s, history, x, write) <==>
      KindInParallel(s, history, x, true) || (write && KindInParallel(s, history, x, false))
  {
    if i :| 0 <= i < |history| && history[i].loc == x && (write || history[i].write)
            && s.bag[history[i].strand].InP? {
      assert KindInParallel(s, history, x, history[i].write);
    }
  }

  lemma ConflictIsFound(s: SpBags.State, history: seq<Access>, sh: Shadow, write: bool, a: nat)
    requires Sound(s, history, sh)
    ensures ParallelConflict(s, history, a, write) <==> ByteFound(s, sh, write, a)
  {
    OneSuffices(s, history, sh.readers, false, a);
    OneSuffices(s, history, sh.writers, true, a);
    ConflictIsOfAKind(s, history, a, write);
  }

  lemma ByteVerdict(c: Config, write: bool, a: nat)
    requires Invariant(c)
    ensures ByteRaces(c, write, a) <==> ByteFound(c.bags, c.shadow, write, a)
  {
    RacesAreInPBags(c.dag, c.bags, c.history, Access(|c.dag.preds| - 1, a, write, SpBags.Top(c.bags).pe), a);
    ConflictIsFound(c.bags, c.history, c.shadow, write, a);
  }

  // Some byte of the region has a remembered access in a P-bag that conflicts.
  predicate ByteFound(s: SpBags.State, sh: Shadow, write: bool, a: nat) {
    PreviousInParallel(s, sh.writers, a) || (write && PreviousInParallel(s, sh.readers, a))
  }

  ghost predicate FoundIn(s: SpBags.State, sh: Shadow, write: bool, from: nat, end: nat) {
    exists a: nat :: from <= a < end && ByteFound(s, sh, write, a)
  }

  // The shadow memory finds a parallel access in the region if there is one ...
  lemma MemoryFinds(s: SpBags.State, sh: Shadow, rl: Lines, wl: Lines, nodeOf: nat -> nat, par: Oracle, write: bool,
                    from: nat, end: nat)
    requires Stands(rl, sh.readers, nodeOf) && Stands(wl, sh.writers, nodeOf)
    requires OracleAgrees(par, s, sh.readers, nodeOf) && OracleAgrees(par, s, sh.writers, nodeOf)
    ensures HasParallel(wl, par, from, end) || (write && HasParallel(rl, par, from, end)) <==>
      FoundIn(s, sh, write, from, end)
  {
    FoundAlike(rl, sh.readers, nodeOf, par, s, from, end);
    FoundAlike(wl, sh.writers, nodeOf, par, s, from, end);
    if a: nat :| from <= a < end && PreviousInParallel(s, sh.writers, a) {
      assert ByteFound(s, sh, write, a);
    }
    if a: nat :| from <= a < end && PreviousInParallel(s, sh.readers, a) {
      assert ByteFound(s, sh, true, a);
    }
  }

  // What is not checked has no race that was not reported before.
  lemma UncheckedIsReported(c: Config, write: bool, a: nat)
    requires Invariant(c) && (SpBags.Top(c.bags).pe ==> (write, a) in c.shadow.occupied)
    requires ByteRaces(c, write, a)
    ensures HasRace(c, a)
  {
    RacesAreInPBags(c.dag, c.bags, c.history, Access(|c.dag.preds| - 1, a, write, SpBags.Top(c.bags).pe), a);
    if !SpBags.Top(c.bags).pe {
      TouchReports(c.dag, c.bags, c.history, c.shadow, a, write, true);
    }
  }

  // What the invariant says about the bytes that an access of the running strand
  // touches: a race is found, or it was reported before.
  ghost predicate JudgedAt(c: Config, write: bool, a: nat) {
    && (ByteRaces(c, write, a) <==> ByteFound(c.bags, c.shadow, write, a))
    && (ByteRaces(c, write, a) && (SpBags.Top(c.bags).pe ==> (write, a) in c.shadow.occupied)
        ==> HasRace(c, a))
  }

  ghost predicate Judged(c: Config) {
    Sane(c) && forall write, a: nat {:trigger JudgedAt(c, write, a)} :: JudgedAt(c, write, a)
  }

  lemma RunsAreJudged(run: seq<Action>, c: Config)
    requires Runs(run) && NestedRun(run) && c == Outcome(run)
    ensures Judged(c)
  {
    InvariantAlways(run);
    forall write, a: nat
      ensures JudgedAt(c, write, a)
    {
      ByteVerdict(c, write, a);
      if ByteRaces(c, write, a) && (SpBags.Top(c.bags).pe ==> (write, a) in c.shadow.occupied) {
        UncheckedIsReported(c, write, a);
      }
    }
  }

  // The shadow memory's finding in a region is the race of an access to the region.
  lemma RegionVerdict(c: Config, write: bool, from: nat, end: nat)
    requires Judged(c)
    ensures FoundIn(c.bags, c.shadow, write, from, end) <==> RegionRaces(c, write, from, end)
  {
    if a: nat :| from <= a < end && ByteFound(c.bags, c.shadow, write, a) {
      assert JudgedAt(c, write, a);
    }
    if a: nat :| from <= a < end && ByteRaces(c, write, a) {
      assert JudgedAt(c, write, a);
    }
  }

  ghost function Races(c: Config): iset<nat> {
    iset x | HasRace(c, x)
  }

  // The regions reported have a byte with a race each, and cover all such bytes.
  ghost predicate RegionsExact(races: iset<nat>, reported: seq<ShadowLine.Chunk>) {
    && (forall x {:trigger CoveredIn(races, reported, x)} :: CoveredIn(races, reported, x))
    && (forall k {:trigger RacingIn(races, reported, k)} :: RacingIn(races, reported, k))
  }

  ghost predicate CoveredIn(races: iset<nat>, reported: seq<ShadowLine.Chunk>, x: nat) {
    x in races ==> Covered(reported, x)
  }

  ghost predicate RacingIn(races: iset<nat>, reported: seq<ShadowLine.Chunk>, k: int) {
    0 <= k < |reported| ==> Racing(races, reported[k])
  }

  predicate Within(r: ShadowLine.Chunk, x: nat) {
    r.addr <= x < r.addr + r.size
  }

  predicate Covered(reported: seq<ShadowLine.Chunk>, x: nat) {
    exists k :: 0 <= k < |reported| && Within(reported[k], x)
  }

  ghost predicate Racing(races: iset<nat>, r: ShadowLine.Chunk) {
    exists x :: x in races && Within(r, x)
  }

  // --------------------------------------------------------------- what is kept

  predicate BitShows(words: Words, occupied: set<(bool, nat)>, write: bool, a: nat) {
    Occupied(words, a) <==> (write, a) in occupied
  }

  ghost predicate BitsShow(words: Words, occupied: set<(bool, nat)>, write: bool) {
    forall a: nat {:trigger BitShows(words, occupied, write, a)} :: BitShows(words, occupied, write, a)
  }

  lemma BitsKeep(w0: Words, w1: Words, other: Words, sh: Shadow, sh': Shadow, write: bool, fast: bool,
                 from: nat, end: nat)
    requires BitsShow(w0, sh.occupied, write) && BitsShow(other, sh.occupied, !write)
    requires OccupiedIn(sh, sh', write, fast, from, end)
    requires if fast then w1 == w0 else Marked(w0, w1, from, end)
    ensures BitsShow(w1, sh'.occupied, write) && BitsShow(other, sh'.occupied, !write)
  {
    var kind, otherKind := write, !write;
    forall a: nat
      ensures BitShows(w1, sh'.occupied, kind, a)
      ensures BitShows(other, sh'.occupied, otherKind, a)
    {
      assert BitShows(w0, sh.occupied, kind, a) && BitShows(other, sh.occupied, otherKind, a);
      assert OccupiedAt(sh, sh', write, fast, from, end, write, a);
      assert OccupiedAt(sh, sh', write, fast, from, end, !write, a);
    }
  }

  lemma LinesKeep(s: SpBags.State, sh: Shadow, sh': Shadow, l0: Lines, l1: Lines, other: Lines, nodeOf: nat -> nat,
                  par: Oracle, v: ShadowLine.Access, write: bool, checked: bool, from: nat, end: nat)
    requires Recorded(s, sh, sh', write, checked, from, end) && |s.bag| > 0
    requires Stands(l0, Kind(sh, write), nodeOf) && Stands(other, Kind(sh, !write), nodeOf)
    requires OracleAgrees(par, s, Kind(sh, write), nodeOf) && v.Access? && v.func == nodeOf(|s.bag| - 1)
    requires if checked then UpdatedIn(par, l0, l1, from, end, v) else l1 == l0
    ensures Stands(l1, Kind(sh', write), nodeOf) && Stands(other, Kind(sh', !write), nodeOf)
  {
    if checked {
      UpdateStands(l0, l1, Kind(sh, write), Kind(sh', write), nodeOf, par, s, from, end, v);
    }
  }

  // The contents of the shadow memory.
  datatype Image = Image(readLines: Lines, writeLines: Lines, readWords: Words, writeWords: Words)

  function LinesOf(m: Image, write: bool): Lines {
    if write then m.writeLines else m.readLines
  }

  function WordsOf(m: Image, write: bool): Words {
    if write then m.writeWords else m.readWords
  }

  // The memory stands for the detector's shadow.
  ghost predicate Represents(sh: Shadow, m: Image, nodeOf: nat -> nat) {
    && Stands(m.readLines, sh.readers, nodeOf) && Stands(m.writeLines, sh.writers, nodeOf)
    && BitsShow(m.readWords, sh.occupied, false) && BitsShow(m.writeWords, sh.occupied, true)
  }

  lemma RacesAfterRegion(c: Config, c': Config, write: bool, checked: bool, fast: bool, from: nat, end: nat, x: nat)
    requires Sane(c) && TouchedTo(c, c', write, checked, fast, from, end)
    ensures HasRace(c', x) <==> HasRace(c, x) || (from <= x < end && ByteRaces(c, write, x))
  {
    RacesOfRegion(c.dag.preds, c.history, |c.dag.preds| - 1, write, SpBags.Top(c.bags).pe, from, end, x);
  }

  // No race is added ...
  lemma RegionsStayExact(c: Config, c': Config, write: bool, checked: bool, fast: bool, from: nat, end: nat)
    requires Judged(c) && TouchedTo(c, c', write, checked, fast, from, end)
    requires forall x: nat :: from <= x < end && ByteRaces(c, write, x) ==> HasRace(c, x)
    ensures Races(c') == Races(c)
  {
    forall x: nat
      ensures HasRace(c', x) <==> HasRace(c, x)
    {
      RacesAfterRegion(c, c', write, checked, fast, from, end, x);
    }
  }

  // ... or those of the region are.
  lemma RegionsGrow(c: Config, c': Config, write: bool, checked: bool, fast: bool, r: ShadowLine.Chunk)
    requires Judged(c) && TouchedTo(c, c', write, checked, fast, r.addr, r.addr + r.size)
    requires RegionRaces(c, write, r.addr, r.addr + r.size)
    ensures Races(c) <= Races(c') && forall x :: x in Races(c') - Races(c) ==> Within(r, x)
    ensures exists x :: x in Races(c') && Within(r, x)
  {
    forall x: nat
      ensures HasRace(c', x) <==> HasRace(c, x) || (Within(r, x) && ByteRaces(c, write, x))
    {
      RacesAfterRegion(c, c', write, checked, fast, r.addr, r.addr + r.size, x);
    }
    var x: nat :| Within(r, x) && ByteRaces(c, write, x);
    assert x in Races(c');
  }

  lemma RegionAdded(races: iset<nat>, races': iset<nat>, reported: seq<ShadowLine.Chunk>, r: ShadowLine.Chunk)
    requires RegionsExact(races, reported) && races <= races' && forall x :: x in races' - races ==> Within(r, x)
    requires exists x :: x in races' && Within(r, x)
    ensures RegionsExact(races', reported + [r])
  {
    var reported' := reported + [r];
    forall x
      ensures CoveredIn(races', reported', x)
    {
      assert CoveredIn(races, reported, x);
      if x in races {
        var k :| 0 <= k < |reported| && Within(reported[k], x);
        assert Within(reported'[k], x);
      } else if x in races' {
        assert Within(reported'[|reported|], x);
      }
    }
    forall k
      ensures RacingIn(races', reported', k)
    {
      assert RacingIn(races, reported, k);
    }
  }

  // What the checks report stays exact.
  lemma RegionReported(c: Config, c': Config, reported: seq<ShadowLine.Chunk>, write: bool, checked: bool, fast: bool,
                       r: ShadowLine.Chunk, found: bool)
    requires Judged(c) && TouchedTo(c, c', write, checked, fast, r.addr, r.addr + r.size)
    requires RegionsExact(Races(c), reported)
    requires SpBags.Top(c.bags).pe ==> Decided(c.shadow, write, checked, r.addr, r.addr + r.size)
    requires !SpBags.Top(c.bags).pe ==> !checked
    requires found <==> checked && RegionRaces(c, write, r.addr, r.addr + r.size)
    ensures RegionsExact(Races(c'), if found then reported + [r] else reported)
  {
    if found {
      RegionsGrow(c, c', write, checked, fast, r);
      RegionAdded(Races(c), Races(c'), reported, r);
    } else {
      forall x: nat | Within(r, x) && ByteRaces(c, write, x)
        ensures HasRace(c, x)
      {
        assert JudgedAt(c, write, x);
      }
      RegionsStayExact(c, c', write, checked, fast, r.addr, r.addr + r.size);
    }
  }

  // A control event keeps it too.
  lemma ControlKeepsRaces(c: Config, e: Event)
    requires Invariant(c) && CanAct(c, Control(e))
    ensures Races(Act(c, Control(e))) == Races(c)
  {
    var c' := Act(c, Control(e));
    StepWellFormed(c.dag, e);
    forall x: nat
      ensures HasRace(c', x) <==> HasRace(c, x)
    {
      RacesAreStable(c.dag.preds, c'.dag.preds, c.history, x);
    }
  }

  // What is known of a run: unless it is exact, only that it is one.
  ghost predicate Detects(run: seq<Action>, exact: bool, reported: seq<ShadowLine.Chunk>, m: Image, nodeOf: nat -> nat)
  {
    && Runs(run)
    && (exact ==> NestedRun(run) && Known(Outcome(run), reported, m, nodeOf))
  }

  ghost predicate Known(c: Config, reported: seq<ShadowLine.Chunk>, m: Image, nodeOf: nat -> nat) {
    RegionsExact(Races(c), reported) && Represents(c.shadow, m, nodeOf)
  }

  ghost predicate Clears(e: Event, m: Image, m': Image) {
    && LinesOf(m', false) == LinesOf(m, false) && LinesOf(m', true) == LinesOf(m, true)
    && if ClearsOccupied(e) then forall a: nat :: !Occupied(m'.readWords, a) && !Occupied(m'.writeWords, a)
       else m' == m
  }

  lemma ControlKeepsDetecting(run: seq<Action>, exact: bool, e: Event, reported: seq<ShadowLine.Chunk>,
                              m: Image, m': Image, nodeOf: nat -> nat)
    requires Detects(run, exact, reported, m, nodeOf) && CanMove(Outcome(run), Control(e))
    requires Clears(e, m, m')
    ensures Detects(run + [Control(e)], exact && Nested(Outcome(run).bags, e), reported, m', nodeOf)
  {
    OneMore(run, Control(e));
    if exact && Nested(Outcome(run).bags, e) {
      InvariantAlways(run);
      ControlKeepsRaces(Outcome(run), e);
    }
  }

  lemma {:induction false} RunsAreOpen(actions: seq<Action>)
    requires Runs(actions)
    ensures IsOpen(Outcome(actions))
    decreases |actions|
  {
    if |actions| > 0 {
      RunsAreOpen(RaceDetector.Front(actions));
    }
  }

  // Touches can always be carried out.
  lemma {:induction false} TouchesCanRun(run: seq<Action>, sh: Shadow, write: bool, checked: bool, fast: bool,
                                         from: nat, end: nat, all: seq<Action>)
    requires Runs(run) && all == run + Touches(sh, write, checked, fast, from, end)
    ensures Runs(all)
    decreases end
  {
    if from >= end {
      assert all == run;
    } else {
      var before := run + Touches(sh, write, checked, fast, from, end - 1);
      TouchesCanRun(run, sh, write, checked, fast, from, end - 1, before);
      assert all == before + [Touch(end - 1, write, checked && (fast || (write, end - 1) in sh.occupied))];
      OneTouchRuns(before, end - 1, write, checked && (fast || (write, end - 1) in sh.occupied), all);
    }
  }

  lemma OneTouchRuns(before: seq<Action>, a: nat, write: bool, fast: bool, all: seq<Action>)
    requires Runs(before) && all == before + [Touch(a, write, fast)]
    ensures Runs(all)
  {
    RunsAreOpen(before);
    OneMore(before, Touch(a, write, fast));
  }

  // What the shadow memory does with an access, to the lines and words of its kind;
  // `wl` and `rl` are the lines of both kinds before.
  ghost predicate Looked(par: Oracle, wl: Lines, rl: Lines, l0: Lines, l1: Lines, w0: Words, w1: Words,
                         r: ShadowLine.Chunk, alignment: StaticAlignment, v: ShadowLine.Access, write: bool,
                         checked: bool, found: bool)
  {
    && (checked <==> r.size > 0 && (TakesFastPath(r.size, alignment) || SomeFree(w0, r.addr, r.addr + r.size)))
    && (!checked ==> l1 == l0 && !found)
    && (if r.size == 0 || TakesFastPath(r.size, alignment) then w1 == w0 else Marked(w0, w1, r.addr, r.addr + r.size))
    && (checked && FollowsRule(l0, r.addr, r.size, alignment) ==>
          && UpdatedIn(par, l0, l1, r.addr, r.addr + r.size, v)
          && (found <==> || HasParallel(wl, par, r.addr, r.addr + r.size)
                         || (write && HasParallel(rl, par, r.addr, r.addr + r.size))))
  }

  ghost predicate Handled(par: Oracle, m: Image, m': Image, r: ShadowLine.Chunk, alignment: StaticAlignment,
                          v: ShadowLine.Access, write: bool, checked: bool, found: bool)
  {
    && LinesOf(m', !write) == LinesOf(m, !write) && WordsOf(m', !write) == WordsOf(m, !write)
    && Looked(par, m.writeLines, m.readLines, LinesOf(m, write), LinesOf(m', write), WordsOf(m, write),
              WordsOf(m', write), r, alignment, v, write, checked, found)
  }

  // What is not checked, is occupied.
  lemma HandledIsDecided(par: Oracle, m: Image, m': Image, r: ShadowLine.Chunk, alignment: StaticAlignment,
                         v: ShadowLine.Access, write: bool, checked: bool, found: bool, sh: Shadow)
    requires Handled(par, m, m', r, alignment, v, write, checked, found)
    requires BitsShow(WordsOf(m, write), sh.occupied, write)
    ensures Decided(sh, write, checked, r.addr, r.addr + r.size)
  {
    if !checked {
      forall a: nat | r.addr <= a < r.addr + r.size
        ensures (write, a) in sh.occupied
      {
        assert BitShows(WordsOf(m, write), sh.occupied, write, a) && Occupied(WordsOf(m, write), a);
      }
    }
  }

  // The memory still stands for the detector's shadow after an access.
  lemma HandledKeeps(c: Config, c': Config, nodeOf: nat -> nat, par: Oracle, m: Image, m': Image,
                     r: ShadowLine.Chunk, alignment: StaticAlignment, v: ShadowLine.Access, write: bool,
                     checked: bool, found: bool)
    requires Handled(par, m, m', r, alignment, v, write, checked, found)
    requires checked ==> FollowsRule(LinesOf(m, write), r.addr, r.size, alignment)
    requires IsOpen(c) && SpBags.Top(c.bags).pe
    requires TouchedTo(c, c', write, checked, checked && TakesFastPath(r.size, alignment), r.addr, r.addr + r.size)
    requires OracleAgrees(par, c.bags, Kind(c.shadow, write), nodeOf)
    requires v.Access? && v.func == nodeOf(|c.bags.bag| - 1)
    requires Represents(c.shadow, m, nodeOf)
    ensures Represents(c'.shadow, m', nodeOf)
  {
    LinesKeep(c.bags, c.shadow, c'.shadow, LinesOf(m, write), LinesOf(m', write), LinesOf(m, !write), nodeOf, par, v,
              write, checked, r.addr, r.addr + r.size);
    BitsKeep(WordsOf(m, write), WordsOf(m', write), WordsOf(m, !write), c.shadow, c'.shadow,
             write, checked && TakesFastPath(r.size, alignment), r.addr, r.addr + r.size);
  }

  // The verdict on a region.
  lemma HandledFinds(c: Config, nodeOf: nat -> nat, par: Oracle, m: Image, m': Image,
                     r: ShadowLine.Chunk, alignment: StaticAlignment, v: ShadowLine.Access, write: bool,
                     checked: bool, found: bool)
    requires Represents(c.shadow, m, nodeOf) && Agrees(par, c, nodeOf)
    requires Handled(par, m, m', r, alignment, v, write, checked, found)
    requires checked ==> FollowsRule(LinesOf(m, write), r.addr, r.size, alignment)
    ensures found <==> checked && FoundIn(c.bags, c.shadow, write, r.addr, r.addr + r.size)
  {
    MemoryFinds(c.bags, c.shadow, m.readLines, m.writeLines, nodeOf, par, write, r.addr, r.addr + r.size);
  }

  // The run with the touches of a region.
  lemma TouchesRun(run: seq<Action>, c: Config, run': seq<Action>, write: bool, checked: bool, fast: bool,
                   from: nat, end: nat) returns (c': Config)
    requires Runs(run) && NestedRun(run) && c == Outcome(run) && IsOpen(c) && from <= end && (fast ==> checked)
    requires SpBags.Top(c.bags).pe ==> Decided(c.shadow, write, checked, from, end)
    requires run' == run + Touches(c.shadow, write, checked, fast, from, end)
    ensures Runs(run') && NestedRun(run') && c' == Outcome(run')
    ensures TouchedTo(c, c', write, checked, fast, from, end)
  {
    NothingTouched(c, write, checked, fast, from, from);
    RegionRuns(c, run, write, checked, fast, from, end, true, run');
    c' := Outcome(run');
  }

  // What the run needs to know of an access that was handled.
  ghost predicate Settles(c: Config, m': Image, nodeOf: nat -> nat, r: ShadowLine.Chunk, write: bool,
                          checked: bool, fast: bool, found: bool)
    requires IsOpen(c)
  {
    && Decided(c.shadow, write, checked, r.addr, r.addr + r.size) && (fast ==> checked)
    && (found <==> checked && FoundIn(c.bags, c.shadow, write, r.addr, r.addr + r.size))
    && forall c' {:trigger TouchedTo(c, c', write, checked, fast, r.addr, r.addr + r.size)} ::
         TouchedTo(c, c', write, checked, fast, r.addr, r.addr + r.size) ==> Represents(c'.shadow, m', nodeOf)
  }

  // The memory stands for the shadow, and the access is handled byte by byte.
  ghost predicate Follows(c: Config, m: Image, nodeOf: nat -> nat, par: Oracle, r: ShadowLine.Chunk,
                          alignment: StaticAlignment, v: ShadowLine.Access, write: bool, checked: bool)
    requires v.Access?
  {
    && IsOpen(c) && SpBags.Top(c.bags).pe && Represents(c.shadow, m, nodeOf)
    && Agrees(par, c, nodeOf) && v.func == nodeOf(|c.bags.bag| - 1)
    && (checked ==> FollowsRule(LinesOf(m, write), r.addr, r.size, alignment))
  }

  lemma HandledSettles(c: Config, nodeOf: nat -> nat, par: Oracle, m: Image, m': Image,
                       r: ShadowLine.Chunk, alignment: StaticAlignment, v: ShadowLine.Access, write: bool,
                       checked: bool, found: bool)
    requires Handled(par, m, m', r, alignment, v, write, checked, found)
    requires v.Access? && Follows(c, m, nodeOf, par, r, alignment, v, write, checked)
    ensures Settles(c, m', nodeOf, r, write, checked, checked && TakesFastPath(r.size, alignment), found)
  {
    var fast := checked && TakesFastPath(r.size, alignment);
    HandledIsDecided(par, m, m', r, alignment, v, write, checked, found, c.shadow);
    HandledFinds(c, nodeOf, par, m, m', r, alignment, v, write, checked, found);
    forall c' | TouchedTo(c, c', write, checked, fast, r.addr, r.addr + r.size)
      ensures Represents(c'.shadow, m', nodeOf)
    {
      HandledKeeps(c, c', nodeOf, par, m, m', r, alignment, v, write, checked, found);
    }
  }

  lemma RegionIsKnown(c: Config, c': Config, reported: seq<ShadowLine.Chunk>, m: Image, m': Image, nodeOf: nat -> nat,
                      r: ShadowLine.Chunk, write: bool, checked: bool, fast: bool, found: bool)
    requires Judged(c) && SpBags.Top(c.bags).pe && Known(c, reported, m, nodeOf)
    requires Settles(c, m', nodeOf, r, write, checked, fast, found)
    requires TouchedTo(c, c', write, checked, fast, r.addr, r.addr + r.size)
    ensures Known(c', if found then reported + [r] else reported, m', nodeOf)
    ensures found <==> checked && RegionRaces(c, write, r.addr, r.addr + r.size)
  {
    RegionVerdict(c, write, r.addr, r.addr + r.size);
    RegionReported(c, c', reported, write, checked, fast, r, found);
  }

  // While the execution is serial an access changes nothing, and races with none.
  lemma SerialIsKnown(c: Config, c': Config, reported: seq<ShadowLine.Chunk>, m: Image, nodeOf: nat -> nat,
                      r: ShadowLine.Chunk, write: bool)
    requires Judged(c) && !SpBags.Top(c.bags).pe && Known(c, reported, m, nodeOf)
    requires TouchedTo(c, c', write, false, false, r.addr, r.addr + r.size)
    ensures Known(c', reported, m, nodeOf)
  {
    RegionReported(c, c', reported, write, false, false, r, false);
  }

  // An access, in both cases.
  ghost predicate AccessDone(c: Config, m: Image, m': Image, nodeOf: nat -> nat, r: ShadowLine.Chunk, write: bool,
                             checked: bool, fast: bool, found: bool)
    requires IsOpen(c)
  {
    if SpBags.Top(c.bags).pe then Settles(c, m', nodeOf, r, write, checked, fast, found)
    else m' == m && !checked && !fast && !found
  }

  lemma AccessIsKnown(c: Config, c': Config, reported: seq<ShadowLine.Chunk>, m: Image, m': Image, nodeOf: nat -> nat,
                      r: ShadowLine.Chunk, write: bool, checked: bool, fast: bool, found: bool)
    requires Judged(c) && Known(c, reported, m, nodeOf)
    requires AccessDone(c, m, m', nodeOf, r, write, checked, fast, found)
    requires TouchedTo(c, c', write, checked, fast, r.addr, r.addr + r.size)
    ensures Known(c', if found then reported + [r] else reported, m', nodeOf)
  {
    if SpBags.Top(c.bags).pe {
      RegionIsKnown(c, c', reported, m, m', nodeOf, r, write, checked, fast, found);
    } else {
      SerialIsKnown(c, c', reported, m, nodeOf, r, write);
    }
  }

  lemma AccessIsSettled(c: Config, m: Image, m': Image, nodeOf: nat -> nat, r: ShadowLine.Chunk, write: bool,
                        checked: bool, fast: bool, found: bool)
    requires Judged(c) && AccessDone(c, m, m', nodeOf, r, write, checked, fast, found)
    ensures found <==> checked && RegionRaces(c, write, r.addr, r.addr + r.size)
  {
    RegionVerdict(c, write, r.addr, r.addr + r.size);
  }

  lemma ExactAccess(run: seq<Action>, c: Config, run': seq<Action>, reported: seq<ShadowLine.Chunk>,
                    m: Image, m': Image, nodeOf: nat -> nat, r: ShadowLine.Chunk, write: bool,
                    checked: bool, fast: bool, found: bool)
    requires Runs(run) && NestedRun(run) && c == Outcome(run) && IsOpen(c) && Known(c, reported, m, nodeOf)
    requires AccessDone(c, m, m', nodeOf, r, write, checked, fast, found)
    requires run' == run + Touches(c.shadow, write, checked, fast, r.addr, r.addr + r.size)
    ensures Detects(run', true, if found then reported + [r] else reported, m', nodeOf)
    ensures found <==> checked && RegionRaces(c, write, r.addr, r.addr + r.size)
  {
    RunsAreJudged(run, c);
    DoneIsDecided(c, m, m', nodeOf, r, write, checked, fast, found);
    AccessIsSettled(c, m, m', nodeOf, r, write, checked, fast, found);
    var c' := TouchesRun(run, c, run', write, checked, fast, r.addr, r.addr + r.size);
    AccessIsKnown(c, c', reported, m, m', nodeOf, r, write, checked, fast, found);
  }

  // The access, whether or not the run is exact.
  lemma AccessDetects(run: seq<Action>, exact: bool, exact': bool, c: Config, run': seq<Action>,
                      reported: seq<ShadowLine.Chunk>, m: Image, m': Image, nodeOf: nat -> nat,
                      r: ShadowLine.Chunk, write: bool, checked: bool, fast: bool, found: bool)
    requires Detects(run, exact, reported, m, nodeOf) && (exact' ==> exact) && c == Outcome(run) && IsOpen(c)
    requires exact' ==> AccessDone(c, m, m', nodeOf, r, write, checked, fast, found)
    requires run' == run + Touches(c.shadow, write, checked, fast, r.addr, r.addr + r.size)
    ensures Detects(run', exact', if found then reported + [r] else reported, m', nodeOf)
    ensures exact' ==> (found <==> checked && RegionRaces(c, write, r.addr, r.addr + r.size))
  {
    if exact' {
      ExactAccess(run, c, run', reported, m, m', nodeOf, r, write, checked, fast, found);
    } else {
      TouchesCanRun(run, c.shadow, write, checked, fast, r.addr, r.addr + r.size, run');
    }
  }

  lemma DoneIsDecided(c: Config, m: Image, m': Image, nodeOf: nat -> nat, r: ShadowLine.Chunk, write: bool,
                      checked: bool, fast: bool, found: bool)
    requires IsOpen(c) && AccessDone(c, m, m', nodeOf, r, write, checked, fast, found)
    ensures SpBags.Top(c.bags).pe ==> Decided(c.shadow, write, checked, r.addr, r.addr + r.size)
    ensures fast ==> checked
  {
  }

  ghost predicate Agrees(par: Oracle, c: Config, nodeOf: nat -> nat) {
    OracleAgrees(par, c.bags, c.shadow.readers, nodeOf) && OracleAgrees(par, c.bags, c.shadow.writers, nodeOf)
  }

  // ------------------------------------------------------------------ the detector

  // The detector with its shadow memory; the test for parallel accesses is given.
  class Detector {
    const memory: Memory
    // The nodes that the strands of the run are recorded with.
    ghost const nodeOf: nat -> nat
    var reported: seq<ShadowLine.Chunk>
    ghost var run: seq<Action>
    // All syncs so far were in nested order, and all regions safe.
    ghost var exact: bool

    ghost function Contents(): Image
      reads this, memory, memory.readBits, memory.writeBits, memory.readBits.dict, memory.writeBits.dict
    {
      Image(memory.readBits.dict.lines, memory.writeBits.dict.lines, memory.readBits.words, memory.writeBits.words)
    }

    ghost predicate Valid()
      reads this, memory, memory.readBits, memory.writeBits, memory.readBits.dict, memory.writeBits.dict
    {
      memory.Valid() && Detects(run, exact, reported, Contents(), nodeOf)
    }

    constructor (nodeOf: nat -> nat)
      ensures Valid() && run == [] && reported == [] && exact
      ensures fresh(memory.readBits) && fresh(memory.writeBits)
      ensures fresh(memory.readBits.dict) && fresh(memory.writeBits.dict)
    {
      memory := new Memory();
      this.nodeOf := nodeOf;
      reported, run, exact := [], [], true;
    }

    method ClearAt(e: Event)
      requires memory.Valid()
      modifies memory.readBits`words, memory.readBits`touchedWords,
               memory.writeBits`words, memory.writeBits`touchedWords
      ensures memory.Valid() && Clears(e, old(Contents()), Contents())
    {
      if ClearsOccupied(e) {
        memory.ClearOccupied();
      }
    }

    method Control(e: Event)
      requires Valid() && CanMove(Outcome(run), RaceDetector.Control(e))
      modifies this`run, this`exact, memory.readBits`words, memory.readBits`touchedWords,
               memory.writeBits`words, memory.writeBits`touchedWords
      ensures Valid() && run == old(run) + [RaceDetector.Control(e)]
      ensures exact <==> old(exact) && Nested(Outcome(old(run)).bags, e)
    {
      ghost var m := Contents();
      ClearAt(e);
      ControlKeepsDetecting(run, exact, e, reported, m, Contents(), nodeOf);
      exact := exact && Nested(Outcome(run).bags, e);
      run := run + [RaceDetector.Control(e)];
    }

    method HandleRead(r: ShadowLine.Chunk, alignment: StaticAlignment, v: ShadowLine.Access, par: Oracle)
      returns (checked: bool, found: bool)
      requires memory.Valid() && r.addr > 0 && AlignedTo(r.addr, alignment) && v.Access?
      modifies memory.readBits, memory.readBits.dict
      ensures memory.Valid()
      ensures Looked(par, old(memory.writeBits.dict.lines), old(memory.readBits.dict.lines),
                     old(memory.readBits.dict.lines), memory.readBits.dict.lines,
                     old(memory.readBits.words), memory.readBits.words, r, alignment, v, false, checked, found)
    {
      var reports;
      checked, reports := memory.RecordRead(r.addr, r.size, alignment, v, par);
      found := reports != [];
    }

    method HandleWrite(r: ShadowLine.Chunk, alignment: StaticAlignment, v: ShadowLine.Access, par: Oracle)
      returns (checked: bool, found: bool)
      requires memory.Valid() && r.addr > 0 && AlignedTo(r.addr, alignment) && v.Access?
      modifies memory.writeBits, memory.writeBits.dict
      ensures memory.Valid()
      ensures Looked(par, old(memory.writeBits.dict.lines), old(memory.readBits.dict.lines),
                     old(memory.writeBits.dict.lines), memory.writeBits.dict.lines,
                     old(memory.writeBits.words), memory.writeBits.words, r, alignment, v, true, checked, found)
    {
      var reports;
      checked, reports := memory.RecordWrite(r.addr, r.size, alignment, v, par);
      found := reports != [];
    }

    // Record an access in the shadow memory and check it, in a state `c`.
    method Handle(r: ShadowLine.Chunk, alignment: StaticAlignment, v: ShadowLine.Access, write: bool, par: Oracle,
                  ghost c: Config)
      returns (checked: bool, found: bool)
      requires memory.Valid() && r.addr > 0 && AlignedTo(r.addr, alignment) && v.Access?
      modifies memory.readBits, memory.writeBits, memory.readBits.dict, memory.writeBits.dict
      ensures memory.Valid()
      ensures Follows(c, old(Contents()), nodeOf, par, r, alignment, v, write, checked) ==>
        Settles(c, Contents(), nodeOf, r, write, checked, checked && TakesFastPath(r.size, alignment), found)
    {
      ghost var m := Contents();
      if write {
        checked, found := HandleWrite(r, alignment, v, par);
      } else {
        checked, found := HandleRead(r, alignment, v, par);
      }
      if Follows(c, m, nodeOf, par, r, alignment, v, write, checked) {
        HandledSettles(c, nodeOf, par, m, Contents(), r, alignment, v, write, checked, found);
      }
    }
  
    // The memory's part of an access.
    method Look(r: ShadowLine.Chunk, alignment: StaticAlignment, v: ShadowLine.Access, write: bool, pe: bool,
                par: Oracle, ghost c: Config)
      returns (checked: bool, found: bool)
      requires Valid() && r.addr > 0 && AlignedTo(r.addr, alignment) && v.Access?
      requires c == Outcome(run) && IsOpen(c) && pe == SpBags.Top(c.bags).pe
      requires exact ==> Agrees(par, c, nodeOf) && v.func == nodeOf(|c.bags.bag| - 1)
      modifies memory.readBits, memory.writeBits, memory.readBits.dict, memory.writeBits.dict
      ensures memory.Valid()
      ensures exact && (checked ==> FollowsRule(LinesOf(old(Contents()), write), r.addr, r.size, alignment)) ==>
        AccessDone(c, old(Contents()), Contents(), nodeOf, r, write, checked,
                   checked && TakesFastPath(r.size, alignment), found)
    {
      ghost var m := Contents();
      assert exact ==> Represents(c.shadow, m, nodeOf);
      checked, found := false, false;
      if pe {
        checked, found := Handle(r, alignment, v, write, par, c);
      }
    }

    // A memory access of the running strand; `pe` is the flag on top of the stack.
    method Access(r: ShadowLine.Chunk, alignment: StaticAlignment, v: ShadowLine.Access, write: bool, pe: bool,
                  par: Oracle)
      returns (checked: bool, found: bool)
      requires Valid() && r.addr > 0 && AlignedTo(r.addr, alignment) && v.Access?
      requires IsOpen(Outcome(run)) && pe == SpBags.Top(Outcome(run).bags).pe
      requires exact ==> Agrees(par, Outcome(run), nodeOf) && v.func == nodeOf(|Outcome(run).bags.bag| - 1)
      modifies this`reported, this`run, this`exact,
               memory.readBits, memory.writeBits, memory.readBits.dict, memory.writeBits.dict
      ensures Valid()
      ensures run == old(run) + Touches(Outcome(old(run)).shadow, write, checked,
                                        checked && TakesFastPath(r.size, alignment), r.addr, r.addr + r.size)
      ensures reported == if found then old(reported) + [r] else old(reported)
      ensures exact <==>
        old(exact) && (checked ==> FollowsRule(LinesOf(old(Contents()), write), r.addr, r.size, alignment))
      ensures exact ==> (found <==> checked && RegionRaces(Outcome(old(run)), write, r.addr, r.addr + r.size))
    {
      ghost var c, m := Outcome(run), Contents();
      checked, found := Look(r, alignment, v, write, pe, par, c);
      Report(r, alignment, write, checked, found, c, m,
             checked ==> FollowsRule(LinesOf(m, write), r.addr, r.size, alignment));
    }

    // Note the outcome of an access that the memory has looked at.
    method Report(r: ShadowLine.Chunk, ghost alignment: StaticAlignment, ghost write: bool, ghost checked: bool,
                  found: bool, ghost c: Config, ghost m: Image, ghost follows: bool)
      requires memory.Valid() && Detects(run, exact, reported, m, nodeOf) && c == Outcome(run) && IsOpen(c)
      requires exact && follows ==>
        AccessDone(c, m, Contents(), nodeOf, r, write, checked, checked && TakesFastPath(r.size, alignment), found)
      modifies this`reported, this`run, this`exact
      ensures Valid()
      ensures run == old(run) + Touches(c.shadow, write, checked, checked && TakesFastPath(r.size, alignment),
                                        r.addr, r.addr + r.size)
      ensures reported == if found then old(reported) + [r] else old(reported)
      ensures exact <==> old(exact) && follows
      ensures exact ==> (found <==> checked && RegionRaces(c, write, r.addr, r.addr + r.size))
    {
      ghost var fast := checked && TakesFastPath(r.size, alignment);
      ghost var run' := run + Touches(c.shadow, write, checked, fast, r.addr, r.addr + r.size);
      AccessDetects(run, exact, exact && follows, c, run', reported, m, Contents(), nodeOf,
                    r, write, checked, fast, found);
      if found {
        reported := reported + [r];
      }
      run, exact := run', exact && follows;
    }
  }
}
