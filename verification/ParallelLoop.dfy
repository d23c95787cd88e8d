// One frame serves all iterations of a parallel loop.  Accesses of the body
// itself go to an iteration bag, with a 16-bit version that counts iterations;
// accesses of the functions it calls come back in the frame's S-bag, which moves
// to the P-bag when the iteration ends.

module ParallelLoop {

  // version_t is an unsigned 16-bit integer.
  const VERSIONS: nat := 0x1_0000

  // A bag is the set of the accesses whose nodes resolve to it; combining bags
  // is union, as the disjoint sets guarantee.
  type Bag = set<nat>

  function NextVersion(v: nat): nat {
    (v + 1) % 0x1_0000
  }

  // All accesses that a stack of called functions has made.
  function InCallees(callees: seq<Bag>): Bag {
    if |callees| == 0 then {} else InCallees(callees[..|callees| - 1]) + callees[|callees| - 1]
  }

  lemma {:induction false} CalleesMerge(callees: seq<Bag>, a: Bag, b: Bag)
    ensures InCallees(callees + [a] + [b]) == InCallees(callees) + a + b
    ensures InCallees(callees + [a]) == InCallees(callees) + a
  {
    assert (callees + [a])[..|callees|] == callees;
    assert (callees + [a] + [b])[..|callees| + 1] == callees + [a];
  }

  // The bags of a loop frame, with all open calls in one, and the iteration each
  // access was made in.
  datatype Loop = Loop(sbag: Bag, pbag: Bag, iterbag: Bag, open: Bag, version: nat, recorded: seq<nat>,
                       iteration: nat, madeIn: seq<nat>)

  // Each access is in one bag: in the S-bag or with a function that is still
  // open if it was made in this iteration by a called function; in the
  // iteration bag, with its version, if the body made it since the version
  // last wrapped; in the P-bag only if its iteration is over.
  ghost predicate Placed(l: Loop, a: nat) {
    && (a in l.sbag || a in l.pbag || a in l.iterbag || a in l.open <==> a < |l.recorded|)
    && (a in l.pbag && a < |l.madeIn| ==> l.madeIn[a] < l.iteration && a !in l.iterbag)
    && ((a in l.sbag || a in l.open) && a < |l.madeIn| ==>
          l.madeIn[a] == l.iteration && a !in l.iterbag && a !in l.pbag)
    && (a in l.iterbag && a < |l.recorded| && a < |l.madeIn| ==>
          l.recorded[a] <= l.version && l.madeIn[a] == l.iteration - l.version + l.recorded[a])
  }

  ghost predicate Good(l: Loop) {
    && l.version < 0x1_0000 && l.version <= l.iteration && |l.recorded| == |l.madeIn|
    && forall a: nat :: Placed(l, a)
  }

  lemma BodyAccessIsGood(l: Loop, l': Loop)
    requires Good(l)
    requires l' == l.(iterbag := l.iterbag + {|l.recorded|}, recorded := l.recorded + [l.version],
                      madeIn := l.madeIn + [l.iteration])
    ensures Good(l')
  {
    forall a: nat
      ensures Placed(l', a)
    {
      assert Placed(l, a);
    }
  }

  lemma CalleeAccessIsGood(l: Loop, v: nat, l': Loop)
    requires Good(l)
    requires l' == l.(open := l.open + {|l.recorded|}, recorded := l.recorded + [v], madeIn := l.madeIn + [l.iteration])
    ensures Good(l')
  {
    forall a: nat
      ensures Placed(l', a)
    {
      assert Placed(l, a);
    }
  }

  // The outermost called function returns.
  lemma ReturnIsGood(l: Loop, l': Loop)
    requires Good(l) && l' == l.(sbag := l.sbag + l.open, open := {})
    ensures Good(l')
  {
    forall a: nat
      ensures Placed(l', a)
    {
      assert Placed(l, a);
    }
  }

  // An iteration ends.
  lemma EndIsGood(l: Loop, l': Loop)
    requires Good(l) && l.open == {}
    requires var v := NextVersion(l.version);
      l' == l.(sbag := {}, pbag := l.pbag + l.sbag + (if v == 0 then l.iterbag else {}),
               iterbag := if v == 0 then {} else l.iterbag, version := v, iteration := l.iteration + 1)
    ensures Good(l')
  {
    forall a: nat
      ensures Placed(l', a)
    {
      assert Placed(l, a);
    }
  }

  class LoopFrame {
    var sbag: Bag
    var sbagUsed: bool
    var pbag: Bag
    var hasPbag: bool
    var iterbag: Bag
    var iterbagUsed: bool
    var version: nat
    // The S-bags of the open calls of the body, outermost first.
    var callees: seq<Bag>
    // The version recorded with each access.
    var recorded: seq<nat>
    // The iteration, and the one each access was made in.
    ghost var iteration: nat
    ghost var madeIn: seq<nat>

    ghost function Now(): Loop
      reads this
    {
      Loop(sbag, pbag, iterbag, InCallees(callees), version, recorded, iteration, madeIn)
    }

    ghost predicate Valid()
      reads this
    {
      && Good(Now())
      && (sbag != {} ==> sbagUsed) && (iterbag != {} ==> iterbagUsed) && (pbag != {} ==> hasPbag)
    }

    // The first iteration of a loop creates the frame.
    constructor ()
      ensures Valid() && iteration == 0 && version == 0 && madeIn == [] && callees == []
      ensures sbag == pbag == iterbag == {}
    {
      sbag, sbagUsed, pbag, hasPbag, iterbag, iterbagUsed := {}, false, {}, false, {}, false;
      version, callees, recorded := 0, [], [];
      iteration, madeIn := 0, [];
    }

    // An access of the body goes to the iteration bag, with the version; one of
    // the innermost open call to that function's S-bag.
    method Access() returns (a: nat)
      requires Valid()
      modifies this`madeIn, this`recorded, this`iterbag, this`iterbagUsed, this`callees
      ensures Valid() && a == |old(madeIn)| == |old(recorded)| && madeIn == old(madeIn) + [iteration]
      ensures old(callees) == [] ==>
        iterbag == old(iterbag) + {a} && recorded == old(recorded) + [version] && callees == []
      ensures old(callees) != [] ==>
        var k := |old(callees)| - 1;
        && iterbag == old(iterbag) && recorded == old(recorded) + [0]
        && callees == old(callees)[..k] + [old(callees)[k] + {a}]
    {
      ghost var l := Now();
      a := |recorded|;
      madeIn := madeIn + [iteration];
      if |callees| == 0 {
        // getSbagForAccess: a loop frame records in its iteration bag.
        iterbagUsed := true;
        iterbag := iterbag + {a};
        recorded := recorded + [version];
        BodyAccessIsGood(l, Now());
      } else {
        var k := |callees| - 1;
        ghost var below, top := callees[..k], callees[k];
        assert callees == below + [top];
        CalleesMerge(below, top, {});
        CalleesMerge(below, top + {a}, {});
        callees := callees[..k] + [callees[k] + {a}];
        recorded := recorded + [0];
        assert InCallees(callees) == l.open + {a};
        CalleeAccessIsGood(l, 0, Now());
      }
    }

    // The body, or a function it has called, calls a function.
    method Enter()
      requires Valid()
      modifies this`callees
      ensures Valid() && |callees| == |old(callees)| + 1
    {
      CalleesMerge(callees, {}, {});
      callees := callees + [{}];
    }

    // The outermost called function returns: its S-bag is combined with the
    // loop frame's when it has been used.
    method LeaveToBody()
      requires Valid() && |callees| == 1
      modifies this`callees, this`sbag, this`sbagUsed
      ensures Valid() && callees == [] && sbag == old(sbag) + old(callees)[0]
    {
      ghost var l := Now();
      var child := callees[0];
      CalleesMerge([], child, {});
      assert callees == [] + [child];
      callees := [];
      if child != {} {
        sbag := sbag + child;
        sbagUsed := true;
      }
      assert Now() == l.(sbag := l.sbag + l.open, open := {});
      ReturnIsGood(l, Now());
    }

    // A function called by another returns: its S-bag is combined with its
    // caller's.
    method LeaveToCaller()
      requires Valid() && |callees| > 1
      modifies this`callees
      ensures Valid()
      ensures var k := |old(callees)| - 1; callees == old(callees)[..k - 1] + [old(callees)[k - 1] + old(callees)[k]]
    {
      ghost var l := Now();
      var k := |callees| - 1;
      var child := callees[k];
      ghost var below, top := callees[..k - 1], callees[k - 1];
      assert callees == below + [top] + [child];
      CalleesMerge(below, top, child);
      CalleesMerge(below, top + child, {});
      callees := callees[..k - 1] + [callees[k - 1] + child];
      assert Now() == l;
    }

    method Leave()
      requires Valid() && |callees| > 0
      modifies this`callees, this`sbag, this`sbagUsed
      ensures Valid() && |callees| == |old(callees)| - 1
      ensures |old(callees)| == 1 ==> sbag == old(sbag) + old(callees)[0]
      ensures |old(callees)| > 1 ==>
        var k := |old(callees)| - 1;
        sbag == old(sbag) && callees == old(callees)[..k - 1] + [old(callees)[k - 1] + old(callees)[k]]
    {
      if |callees| == 1 {
        LeaveToBody();
      } else {
        LeaveToCaller();
      }
    }

    // The end of an iteration: the S-bag moves to the P-bag, and so does the
    // iteration bag when the version wraps.
    method IterationEnd()
      requires Valid() && callees == []
      modifies this
      ensures Valid() && iteration == old(iteration) + 1 && madeIn == old(madeIn) && callees == []
      ensures recorded == old(recorded) && version == NextVersion(old(version))
      ensures sbag == {} && iterbag == if version == 0 then {} else old(iterbag)
      ensures pbag == old(pbag) + old(sbag) + if version == 0 then old(iterbag) else {}
    {
      ghost var l := Now();
      MergeSbag();
      version := NextVersion(version);
      if version == 0 {
        MergeIterbag();
      }
      iteration := iteration + 1;
      EndIsGood(l, Now());
    }

    // Create the P-bag, if necessary, and combine the S-bag into it.
    method MergeSbag()
      requires sbag != {} ==> sbagUsed
      requires pbag != {} ==> hasPbag
      modifies this`sbag, this`sbagUsed, this`pbag, this`hasPbag
      ensures hasPbag && sbag == {} && pbag == old(pbag) + old(sbag)
    {
      if !hasPbag {
        pbag, hasPbag := {}, true;
      }
      if sbagUsed {
        pbag := pbag + sbag;
        sbag, sbagUsed := {}, false;
      }
    }

    // Combine the iteration bag into the P-bag.
    method MergeIterbag()
      requires iterbag != {} ==> iterbagUsed
      modifies this`iterbag, this`iterbagUsed, this`pbag
      ensures iterbag == {} && pbag == old(pbag) + old(iterbag)
    {
      if iterbagUsed {
        pbag := pbag + iterbag;
        iterbag, iterbagUsed := {}, false;
      }
    }

    // Is an earlier access parallel to the current strand of the loop frame?
    // The frame's test sees the bag that the access resolves to.
    predicate TestsParallel(a: nat)
      requires a < |recorded|
      reads this
    {
      // get_sbag_or_null finds no S-bag: the access is in a P-bag.
      a in pbag
      // check_parallel_iter: the bag is the iteration bag, with an older version.
      || (a in iterbag && recorded[a] < version)
    }

    // When the loop frame itself makes an access, an earlier access tests
    // parallel exactly when it belongs to another iteration, for any number of
    // iterations.
    lemma ParallelIffOtherIteration(a: nat)
      requires Valid() && callees == [] && a < |recorded|
      ensures a < |madeIn| && (TestsParallel(a) <==> madeIn[a] != iteration)
    {
      assert Placed(Now(), a);
    }

    // The test of a function that the body has called: its frame is not a loop
    // frame, so only P-bags count.
    predicate CalleeTestsParallel(a: nat)
      reads this
    {
      a in pbag
    }

    // That test is right except for the accesses that the body itself has made
    // in earlier iterations since the version last wrapped, which it misses.
    lemma CalleeTestExactly(a: nat)
      requires Valid() && a < |recorded|
      ensures a < |madeIn|
      ensures (CalleeTestsParallel(a) <==> madeIn[a] != iteration) <==> !(a in iterbag && recorded[a] < version)
    {
      assert Placed(Now(), a);
    }

    // The tests of all earlier accesses.
    method Verdicts() returns (verdicts: seq<bool>)
      requires Valid() && callees == []
      ensures |verdicts| == |madeIn|
      ensures forall a :: 0 <= a < |madeIn| ==> (verdicts[a] <==> madeIn[a] != iteration)
    {
      verdicts := [];
      for a := 0 to |recorded|
        invariant |verdicts| == a <= |madeIn|
        invariant forall b :: 0 <= b < a ==> (verdicts[b] <==> madeIn[b] != iteration)
      {
        ParallelIffOtherIteration(a);
        verdicts := verdicts + [TestsParallel(a)];
      }
    }

    // The end of the loop: the P-bag of the frame's spawner gets every access.
    method LoopEnd() returns (forSpawner: Bag)
      requires Valid() && callees == []
      modifies this
      ensures madeIn == old(madeIn) && forall a: nat :: a in forSpawner <==> a < |madeIn|
    {
      ghost var l := Now();
      if !hasPbag {
        pbag, hasPbag := {}, true;
      }
      if iterbagUsed {
        pbag := pbag + iterbag;
      }
      iterbag, iterbagUsed := {}, false;
      // Return from the frame: its S-bag, if used, and its P-bag.
      forSpawner := {};
      if sbagUsed {
        forSpawner := forSpawner + sbag;
      }
      forSpawner := forSpawner + pbag;
      assert forSpawner == l.sbag + l.pbag + l.iterbag;
      forall a: nat
        ensures a in forSpawner <==> a < |madeIn|
      {
        assert Placed(l, a);
      }
    }
  }

  // Such an access: the body makes it, the iteration ends, and in the next one
  // the body calls a function.  The function's test does not find it parallel.
  method CalleeMissesAnIteration() returns (frame: LoopFrame)
    ensures frame.Valid() && |frame.callees| == 1 && |frame.madeIn| == 1
    ensures frame.madeIn[0] != frame.iteration && !frame.CalleeTestsParallel(0)
  {
    frame := new LoopFrame();
    var a := frame.Access();
    frame.IterationEnd();
    frame.Enter();
  }

  datatype Event = BodyAccess | Call | Return | EndOfIteration

  // The calls that are open after some events; the events fit together when no
  // iteration ends inside a call.
  predicate FitsTogether(es: seq<Event>, depth: nat)
    decreases |es|
  {
    |es| == 0 || match es[0]
    case BodyAccess => FitsTogether(es[1..], depth)
    case Call => FitsTogether(es[1..], depth + 1)
    case Return => depth > 0 && FitsTogether(es[1..], depth - 1)
    case EndOfIteration => depth == 0 && FitsTogether(es[1..], depth)
  }

  // The iterations of the accesses, in order.
  function Iterations(es: seq<Event>, iteration: nat): seq<nat>
    decreases |es|
  {
    if |es| == 0 then []
    else if es[0].BodyAccess? then [iteration] + Iterations(es[1..], iteration)
    else Iterations(es[1..], if es[0].EndOfIteration? then iteration + 1 else iteration)
  }

  function Open(es: seq<Event>): int {
    if |es| == 0 then 0
    else (if es[0].Call? then 1 else if es[0].Return? then -1 else 0) + Open(es[1..])
  }

  function Ended(es: seq<Event>): nat {
    if |es| == 0 then 0 else (if es[0].EndOfIteration? then 1 else 0) + Ended(es[1..])
  }

  // Any run of a loop up to an access of the loop frame: the verdicts on all
  // earlier accesses are right.
  method RunLoop(es: seq<Event>) returns (verdicts: seq<bool>)
    requires FitsTogether(es, 0) && Open(es) == 0
    ensures |verdicts| == |Iterations(es, 0)|
    ensures forall a :: 0 <= a < |verdicts| ==> (verdicts[a] <==> Iterations(es, 0)[a] != Ended(es))
  {
    var frame := new LoopFrame();
    for i := 0 to |es|
      invariant frame.Valid() && fresh(frame)
      invariant FitsTogether(es[i..], |frame.callees|) && |frame.callees| + Open(es[i..]) == 0
      invariant Iterations(es, 0) == frame.madeIn + Iterations(es[i..], frame.iteration)
      invariant frame.iteration + Ended(es[i..]) == Ended(es)
    {
      assert es[i..][0] == es[i] && es[i..][1..] == es[i + 1..];
      match es[i] {
        case BodyAccess =>
          ghost var made := frame.madeIn;
          var _ := frame.Access();
          assert frame.madeIn + Iterations(es[i + 1..], frame.iteration)
              == made + ([frame.iteration] + Iterations(es[i + 1..], frame.iteration));
        case Call => frame.Enter();
        case Return => frame.Leave();
        case EndOfIteration => frame.IterationEnd();
      }
    }
    assert es[|es|..] == [] && frame.callees == [];
    assert frame.madeIn == Iterations(es, 0);
    verdicts := frame.Verdicts();
  }
}
