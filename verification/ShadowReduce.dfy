// Parallel runs of Cilkscale: a stolen continuation works on a shadow stack of
// its own, and the stacks are reduced from left to right before the next sync.

module ShadowReduce {
  import opened WeightedDag
  import opened ShadowFrames

  const IDENTITY: Frame := Init(SPAWNER)

  // The left frame after the right one has been reduced into it.
  function Reduce(l: Frame, r: Frame): Frame {
    Frame(l.kind,
          l.achildWork + r.achildWork, l.continWork + r.continWork,
          Max(l.lchildSpan, l.continSpan + r.lchildSpan), l.continSpan + r.continSpan,
          Max(l.lchildBspan, l.continBspan + r.lchildBspan), l.continBspan + r.continBspan)
  }

  lemma ReduceIsAssociative(a: Frame, b: Frame, c: Frame)
    ensures Reduce(Reduce(a, b), c) == Reduce(a, Reduce(b, c))
  {
  }

  // The identity is a left identity for the frames of stolen continuations; on
  // the right it changes a frame exactly when the frame's own continuation is
  // longer than its longest child.
  lemma IdentityExactly(f: Frame)
    ensures Reduce(IDENTITY, f) == f <==> f.kind == SPAWNER
    ensures Reduce(f, IDENTITY) == f <==> f.continSpan <= f.lchildSpan && f.continBspan <= f.lchildBspan
  {
  }

  // Frames that a sync cannot tell apart: the longest child may differ where
  // the continuation is longer.
  function Settle(f: Frame): Frame {
    f.(lchildSpan := Max(f.lchildSpan, f.continSpan), lchildBspan := Max(f.lchildBspan, f.continBspan))
  }

  predicate SameAtSync(f: Frame, g: Frame) {
    Settle(f) == Settle(g)
  }

  lemma SameAtSyncMeans(f: Frame, g: Frame)
    requires SameAtSync(f, g)
    ensures forall t: nat :: Joined(Charge(f, t)) == Joined(Charge(g, t))
  {
  }

  // Reducing keeps frames the same at a sync, on either side.
  lemma ReduceKeepsSame(f: Frame, f': Frame, r: Frame, r': Frame)
    requires SameAtSync(f, f') && SameAtSync(r, r')
    ensures SameAtSync(Reduce(f, r), Reduce(f', r'))
  {
  }

  // A frame above the bottom of the stack: in the uncut run `u` all its times
  // are later by what `l` had when the run was cut.
  predicate Later(l: Frame, u: Frame, r: Frame) {
    && u.kind == r.kind
    && u.achildWork == r.achildWork && u.continWork == l.continWork + r.continWork
    && u.continSpan == l.continSpan + r.continSpan && u.continBspan == l.continBspan + r.continBspan
    && Max(u.lchildSpan, u.continSpan) == l.continSpan + Max(r.lchildSpan, r.continSpan)
    && Max(u.lchildBspan, u.continBspan) == l.continBspan + Max(r.lchildBspan, r.continBspan)
  }

  // Each frame has at least the times of the frame that opened it.
  ghost predicate Rising(s: seq<Frame>) {
    forall i :: 0 <= i < |s| - 1 ==> Precedes(s, i)
  }

  predicate Precedes(s: seq<Frame>, i: nat)
    requires i < |s| - 1
  {
    s[i].continSpan <= s[i + 1].continSpan && s[i].continBspan <= s[i + 1].continBspan
  }

  lemma HookKeepsRising(burden: nat, s: seq<Frame>, h: Hook)
    requires Rising(s) && Applies(|s|, h)
    ensures Rising(Apply(burden, s, h))
  {
    var k := |s| - 1;
    var s' := Apply(burden, s, h);
    assert k > 0 ==> Precedes(s, k - 1);
    assert k > 1 ==> Precedes(s, k - 2);
    forall i | 0 <= i < |s'| - 1
      ensures Precedes(s', i)
    {
      if i < k {
        assert Precedes(s, i);
      }
    }
  }

  // The uncut run from `l` and the run from the identity.
  ghost predicate InStep(l: Frame, us: seq<Frame>, rs: seq<Frame>) {
    && |us| == |rs| > 0 && Rising(rs)
    && SameAtSync(us[0], Reduce(l, rs[0]))
    && forall i :: 1 <= i < |us| ==> Later(l, us[i], rs[i])
  }

  // A hook that does not sync the bottom frame of the stack.
  predicate BelowSync(depth: nat, h: Hook) {
    Applies(depth, h) && (h.AfterSyncHook? ==> depth > 1)
  }

  // What the hooks do to one frame above the bottom ...
  lemma LaterAlone(burden: nat, l: Frame, u: Frame, r: Frame, t: nat, kind: Kind)
    requires Later(l, u, r)
    ensures Later(l, Charge(u, t), Charge(r, t))
    ensures Later(l, Joined(u), Joined(r))
    ensures Later(l, Inherit(kind, u), Inherit(kind, r))
    ensures Later(l, u.(continBspan := u.continBspan + burden), r.(continBspan := r.continBspan + burden))
  {
  }

  // ... and to a frame and the one it opened.
  lemma LaterTogether(burden: nat, l: Frame, pu: Frame, pr: Frame, cu: Frame, cr: Frame)
    requires Later(l, pu, pr) && Later(l, cu, cr)
    requires pr.continSpan <= cr.continSpan && pr.continBspan <= cr.continBspan
    ensures Later(l, Resume(pu, cu), Resume(pr, cr))
    ensures Later(l, Absorb(burden, pu, cu), Absorb(burden, pr, cr))
  {
  }

  // The same for the bottom frame.
  lemma BottomAlone(burden: nat, l: Frame, u: Frame, r: Frame, t: nat, kind: Kind)
    requires SameAtSync(u, Reduce(l, r))
    ensures SameAtSync(Charge(u, t), Reduce(l, Charge(r, t)))
    ensures Later(l, Inherit(kind, u), Inherit(kind, r))
    ensures SameAtSync(u.(continBspan := u.continBspan + burden), Reduce(l, r.(continBspan := r.continBspan + burden)))
  {
  }

  lemma BottomTogether(burden: nat, l: Frame, pu: Frame, pr: Frame, cu: Frame, cr: Frame)
    requires SameAtSync(pu, Reduce(l, pr)) && Later(l, cu, cr)
    requires pr.continSpan <= cr.continSpan && pr.continBspan <= cr.continBspan
    ensures SameAtSync(Resume(pu, cu), Reduce(l, Resume(pr, cr)))
    ensures SameAtSync(Absorb(burden, pu, cu), Reduce(l, Absorb(burden, pr, cr)))
  {
  }

  function TimeOf(h: Hook): nat {
    match h
    case FuncEntryHook(t) => t
    case FuncExitHook(t) => t
    case DetachHook(t) => t
    case TaskExitHook(t) => t
    case BeforeSyncHook(t) => t
    case _ => 0
  }

  lemma HookAtBottom(burden: nat, l: Frame, us: seq<Frame>, rs: seq<Frame>, h: Hook)
    requires InStep(l, us, rs) && BelowSync(|us|, h) && |us| == 1
    ensures InStep(l, Apply(burden, us, h), Apply(burden, rs, h))
  {
    var t := TimeOf(h);
    HookKeepsRising(burden, rs, h);
    BottomAlone(burden, l, us[0], rs[0], t, HELPER);
    BottomAlone(burden, l, Charge(us[0], t), Charge(rs[0], t), t, SPAWNER);
  }

  lemma HookKeepsTopLater(burden: nat, l: Frame, us: seq<Frame>, rs: seq<Frame>, h: Hook)
    requires InStep(l, us, rs) && Applies(|us|, h) && |us| > 1 && !h.FuncExitHook? && !h.TaskExitHook?
    ensures InStep(l, Apply(burden, us, h), Apply(burden, rs, h))
  {
    var t, k := TimeOf(h), |us| - 1;
    HookKeepsRising(burden, rs, h);
    LaterAlone(burden, l, us[k], rs[k], t, HELPER);
    LaterAlone(burden, l, Charge(us[k], t), Charge(rs[k], t), t, SPAWNER);
  }

  lemma PopKeepsInStep(burden: nat, l: Frame, us: seq<Frame>, rs: seq<Frame>, h: Hook)
    requires InStep(l, us, rs) && |us| > 1 && (h.FuncExitHook? || h.TaskExitHook?)
    ensures InStep(l, Apply(burden, us, h), Apply(burden, rs, h))
  {
    var t, k := TimeOf(h), |us| - 1;
    HookKeepsRising(burden, rs, h);
    LaterAlone(burden, l, us[k], rs[k], t, HELPER);
    assert Precedes(rs, k - 1);
    if k == 1 {
      BottomTogether(burden, l, us[0], rs[0], Charge(us[k], t), Charge(rs[k], t));
    } else {
      LaterTogether(burden, l, us[k - 1], rs[k - 1], Charge(us[k], t), Charge(rs[k], t));
    }
  }

  lemma HookKeepsInStep(burden: nat, l: Frame, us: seq<Frame>, rs: seq<Frame>, h: Hook)
    requires InStep(l, us, rs) && BelowSync(|us|, h)
    ensures InStep(l, Apply(burden, us, h), Apply(burden, rs, h))
  {
    if |us| == 1 {
      HookAtBottom(burden, l, us, rs, h);
    } else if h.FuncExitHook? || h.TaskExitHook? {
      PopKeepsInStep(burden, l, us, rs, h);
    } else {
      HookKeepsTopLater(burden, l, us, rs, h);
    }
  }

  // Hooks that leave the bottom frame open and do not sync it.
  predicate OneStretch(burden: nat, s: seq<Frame>, hs: seq<Hook>)
    decreases |hs|
  {
    |hs| == 0 || (BelowSync(|s|, hs[0]) && OneStretch(burden, Apply(burden, s, hs[0]), hs[1..]))
  }

  function Run(burden: nat, s: seq<Frame>, hs: seq<Hook>): seq<Frame>
    requires OneStretch(burden, s, hs)
    decreases |hs|
  {
    if |hs| == 0 then s else Run(burden, Apply(burden, s, hs[0]), hs[1..])
  }

  lemma {:induction false} StretchKeepsInStep(burden: nat, l: Frame, us: seq<Frame>, rs: seq<Frame>, hs: seq<Hook>)
    requires InStep(l, us, rs) && OneStretch(burden, us, hs)
    ensures OneStretch(burden, rs, hs)
    ensures InStep(l, Run(burden, us, hs), Run(burden, rs, hs))
    decreases |hs|
  {
    if |hs| > 0 {
      HookKeepsInStep(burden, l, us, rs, hs[0]);
      StretchKeepsInStep(burden, l, Apply(burden, us, hs[0]), Apply(burden, rs, hs[0]), hs[1..]);
    }
  }

  // Frames below the one a stretch starts in are not touched by it.
  lemma {:induction false} FramesBelowStay(burden: nat, below: seq<Frame>, s: seq<Frame>, hs: seq<Hook>)
    requires |s| > 0 && OneStretch(burden, s, hs)
    ensures AllApply(burden, below + s, hs)
    ensures ApplyAll(burden, below + s, hs) == below + Run(burden, s, hs)
    decreases |hs|
  {
    if |hs| > 0 {
      assert Apply(burden, below + s, hs[0]) == below + Apply(burden, s, hs[0]);
      FramesBelowStay(burden, below, Apply(burden, s, hs[0]), hs[1..]);
    }
  }

  // The bottom frame after a stretch that has closed all frames above it.
  predicate Closes(burden: nat, f: Frame, hs: seq<Hook>) {
    OneStretch(burden, [f], hs) && |Run(burden, [f], hs)| == 1
  }

  function After(burden: nat, f: Frame, hs: seq<Hook>): Frame
    requires Closes(burden, f, hs)
  {
    Run(burden, [f], hs)[0]
  }

  // A cut: the rest of the run done from the identity and reduced into the
  // frame is the same at the next sync.
  lemma OneCut(burden: nat, f: Frame, l: Frame, hs: seq<Hook>)
    requires SameAtSync(f, l) && Closes(burden, f, hs)
    ensures Closes(burden, IDENTITY, hs)
    ensures SameAtSync(After(burden, f, hs), Reduce(l, After(burden, IDENTITY, hs)))
  {
    assert InStep(l, [f], [IDENTITY]);
    StretchKeepsInStep(burden, l, [f], [IDENTITY], hs);
  }

  // The pieces between the cuts run one after the other.
  predicate AllClose(burden: nat, f: Frame, pieces: seq<seq<Hook>>)
    decreases |pieces|
  {
    |pieces| == 0 || (Closes(burden, f, pieces[0]) && AllClose(burden, After(burden, f, pieces[0]), pieces[1..]))
  }

  function Uncut(burden: nat, f: Frame, pieces: seq<seq<Hook>>): Frame
    requires AllClose(burden, f, pieces)
    decreases |pieces|
  {
    if |pieces| == 0 then f else Uncut(burden, After(burden, f, pieces[0]), pieces[1..])
  }

  // Each piece runs from the identity.
  predicate EachCloses(burden: nat, pieces: seq<seq<Hook>>) {
    forall i :: 0 <= i < |pieces| ==> Closes(burden, IDENTITY, pieces[i])
  }

  // The pieces' frames are reduced into `f` from left to right.
  function ReduceAll(burden: nat, f: Frame, pieces: seq<seq<Hook>>): Frame
    requires EachCloses(burden, pieces)
    decreases |pieces|
  {
    if |pieces| == 0 then f else ReduceAll(burden, Reduce(f, After(burden, IDENTITY, pieces[0])), pieces[1..])
  }

  // Cutting a frame's run at any places, running each piece from the identity
  // and reducing from left to right gives the same work, span and burdened
  // span after the next sync.
  lemma {:induction false} CutsDoNotMatter(burden: nat, f: Frame, l: Frame, pieces: seq<seq<Hook>>)
    requires SameAtSync(f, l) && AllClose(burden, f, pieces)
    ensures EachCloses(burden, pieces)
    ensures SameAtSync(Uncut(burden, f, pieces), ReduceAll(burden, l, pieces))
    ensures forall t: nat ::
      Joined(Charge(Uncut(burden, f, pieces), t)) == Joined(Charge(ReduceAll(burden, l, pieces), t))
    decreases |pieces|
  {
    if |pieces| > 0 {
      var hs, rest := pieces[0], pieces[1..];
      OneCut(burden, f, l, hs);
      CutsDoNotMatter(burden, After(burden, f, hs), Reduce(l, After(burden, IDENTITY, hs)), rest);
      forall i | 0 <= i < |pieces|
        ensures Closes(burden, IDENTITY, pieces[i])
      {
        assert i > 0 ==> pieces[i] == rest[i - 1];
      }
    }
    SameAtSyncMeans(Uncut(burden, f, pieces), ReduceAll(burden, l, pieces));
  }

  // The order in which the views are reduced: a piece alone, or the views of two
  // adjacent parts reduced with each other first.
  datatype Reduction = Piece(hooks: seq<Hook>) | Join(left: Reduction, right: Reduction)

  function Pieces(t: Reduction): (pieces: seq<seq<Hook>>)
    ensures |pieces| > 0
  {
    match t
    case Piece(hs) => [hs]
    case Join(left, right) => Pieces(left) + Pieces(right)
  }

  predicate TreeCloses(burden: nat, t: Reduction) {
    match t
    case Piece(hs) => Closes(burden, IDENTITY, hs)
    case Join(left, right) => TreeCloses(burden, left) && TreeCloses(burden, right)
  }

  // The view that the reductions leave.
  function ViewOf(burden: nat, t: Reduction): Frame
    requires TreeCloses(burden, t)
  {
    match t
    case Piece(hs) => After(burden, IDENTITY, hs)
    case Join(left, right) => Reduce(ViewOf(burden, left), ViewOf(burden, right))
  }

  lemma {:induction false} TreeOfClosing(burden: nat, t: Reduction)
    requires EachCloses(burden, Pieces(t))
    ensures TreeCloses(burden, t)
  {
    match t
    case Piece(hs) => assert Pieces(t)[0] == hs;
    case Join(left, right) =>
      forall i | 0 <= i < |Pieces(left)|
        ensures Closes(burden, IDENTITY, Pieces(left)[i])
      {
        assert Pieces(t)[i] == Pieces(left)[i];
      }
      forall i | 0 <= i < |Pieces(right)|
        ensures Closes(burden, IDENTITY, Pieces(right)[i])
      {
        assert Pieces(t)[|Pieces(left)| + i] == Pieces(right)[i];
      }
      TreeOfClosing(burden, left);
      TreeOfClosing(burden, right);
  }

  lemma {:induction false} ReduceAppended(burden: nat, f: Frame, a: seq<seq<Hook>>, b: seq<seq<Hook>>)
    requires EachCloses(burden, a + b)
    ensures EachCloses(burden, a) && EachCloses(burden, b)
    ensures ReduceAll(burden, f, a + b) == ReduceAll(burden, ReduceAll(burden, f, a), b)
    decreases |a|
  {
    forall i | 0 <= i < |b|
      ensures Closes(burden, IDENTITY, b[i])
    {
      assert (a + b)[|a| + i] == b[i];
    }
    forall i | 0 <= i < |a|
      ensures Closes(burden, IDENTITY, a[i])
    {
      assert (a + b)[i] == a[i];
    }
    if |a| == 0 {
      assert a + b == b;
    } else {
      assert (a + b)[1..] == a[1..] + b;
      ReduceAppended(burden, Reduce(f, After(burden, IDENTITY, a[0])), a[1..], b);
    }
  }

  // Any order of reductions leaves the frame that reducing the pieces one by one
  // from the left leaves.
  lemma {:induction false} AnyOrderIsLeftToRight(burden: nat, f: Frame, t: Reduction)
    requires EachCloses(burden, Pieces(t))
    ensures TreeCloses(burden, t)
    ensures Reduce(f, ViewOf(burden, t)) == ReduceAll(burden, f, Pieces(t))
    decreases t
  {
    TreeOfClosing(burden, t);
    match t
    case Piece(hs) =>
      assert Pieces(t) == [hs];
    case Join(left, right) =>
      ReduceAppended(burden, f, Pieces(left), Pieces(right));
      AnyOrderIsLeftToRight(burden, f, left);
      AnyOrderIsLeftToRight(burden, Reduce(f, ViewOf(burden, left)), right);
      ReduceIsAssociative(f, ViewOf(burden, left), ViewOf(burden, right));
  }

  // So the order of the reductions does not matter either, and neither does a
  // frame that a sync cannot tell apart from the reduced view.
  lemma AnyOrderMeasures(burden: nat, f: Frame, l: Frame, t: Reduction, view: Frame)
    requires SameAtSync(f, l) && AllClose(burden, f, Pieces(t))
    ensures TreeCloses(burden, t)
    ensures SameAtSync(ViewOf(burden, t), view) ==>
      forall time: nat :: Joined(Charge(Uncut(burden, f, Pieces(t)), time)) == Joined(Charge(Reduce(l, view), time))
  {
    CutsDoNotMatter(burden, f, l, Pieces(t));
    AnyOrderIsLeftToRight(burden, l, t);
    if SameAtSync(ViewOf(burden, t), view) {
      ReduceKeepsSame(l, l, ViewOf(burden, t), view);
      SameAtSyncMeans(Uncut(burden, f, Pieces(t)), Reduce(l, view));
    }
  }
}
