// The Cilkscale tool: a growable shadow stack and the hooks that update it.

module Cilkscale {
  import opened StrandDag
  import opened WeightedDag
  import opened SpanTracking
  import opened ShadowFrames
  import ShadowReduce

  const DEFAULT_STACK_SIZE: nat := 64

  class ShadowStack {
    var frames: array<Frame>
    var capacity: nat
    var bot: nat

    ghost predicate Valid()
      reads this
    {
      frames.Length == capacity && bot < capacity
    }

    ghost function Contents(): (s: seq<Frame>)
      requires Valid()
      reads this, frames
      ensures |s| == bot + 1
    {
      frames[..bot + 1]
    }

    constructor (kind: Kind)
      ensures Valid() && fresh(frames) && Contents() == [Init(kind)]
    {
      frames := new Frame[DEFAULT_STACK_SIZE](_ => Init(kind));
      capacity := DEFAULT_STACK_SIZE;
      bot := 0;
    }

    method PeekBot() returns (f: Frame)
      requires Valid()
      ensures f == Contents()[bot]
    {
      f := frames[bot];
    }

    // Update the bottom frame in place.
    method SetBot(f: Frame)
      requires Valid()
      modifies frames
      ensures Valid() && Contents() == old(Contents())[..bot] + [f]
    {
      ghost var s := Contents();
      frames[bot] := f;
      assert frames[..bot] == s[..bot];
      assert frames[..bot + 1] == frames[..bot] + [f];
    }

    // Double the array.
    method Grow()
      requires frames.Length == capacity > 0
      modifies this`frames, this`capacity
      ensures fresh(frames) && frames.Length == capacity == 2 * old(capacity)
      ensures forall i :: 0 <= i < old(capacity) ==> frames[i] == old(frames[i])
    {
      var oldCapacity, oldFrames := capacity, frames;
      capacity := capacity * 2;
      frames := new Frame[capacity](_ => Init(MAIN));
      for i := 0 to oldCapacity
        invariant capacity == 2 * oldCapacity && frames.Length == capacity && fresh(frames)
        invariant frames != oldFrames && forall j :: 0 <= j < oldCapacity ==> oldFrames[j] == old(frames[j])
        invariant forall j :: 0 <= j < i ==> frames[j] == oldFrames[j]
      {
        frames[i] := oldFrames[i];
      }
    }

    method Push(kind: Kind)
      requires Valid()
      modifies this, frames
      ensures Valid() && (frames == old(frames) || fresh(frames))
      ensures Contents() == old(Contents()) + [Init(kind)]
      ensures capacity == if old(bot) + 1 >= old(capacity) then 2 * old(capacity) else old(capacity)
    {
      ghost var s := Contents();
      bot := bot + 1;
      if bot >= capacity {
        Grow();
      }
      frames[bot] := Init(kind);
      assert frames[..bot] == s;
      assert frames[..bot + 1] == frames[..bot] + [Init(kind)];
    }

    method Pop() returns (oldBottom: Frame)
      requires Valid() && bot > 0
      modifies this`bot
      ensures Valid() && oldBottom == old(Contents())[old(bot)]
      ensures Contents() == old(Contents())[..old(bot)]
    {
      oldBottom := frames[bot];
      bot := bot - 1;
    }
  }

  // Reduce the stack of a stolen continuation into the stack on its left.
  method ReduceStacks(left: ShadowStack, right: ShadowStack)
    requires left != right && left.Valid() && right.Valid() && right.bot == 0
    modifies left.frames
    ensures left.Valid()
    ensures left.Contents() ==
            old(left.Contents())[..left.bot] +
            [ShadowReduce.Reduce(old(left.Contents()[left.bot]), old(right.Contents()[0]))]
  {
    var l := left.PeekBot();
    var r := right.PeekBot();
    l := l.(continWork := l.continWork + r.continWork, achildWork := l.achildWork + r.achildWork);
    if l.continSpan + r.lchildSpan > l.lchildSpan {
      l := l.(lchildSpan := l.continSpan + r.lchildSpan);
    }
    l := l.(continSpan := l.continSpan + r.continSpan);
    if l.continBspan + r.lchildBspan > l.lchildBspan {
      l := l.(lchildBspan := l.continBspan + r.lchildBspan);
    }
    l := l.(continBspan := l.continBspan + r.continBspan);
    left.SetBot(l);
  }

  class Tool {
    const stack: ShadowStack
    const burden: nat

    ghost predicate Valid()
      reads this, stack
    {
      stack.Valid()
    }

    ghost function Contents(): seq<Frame>
      requires Valid()
      reads this, stack, stack.frames
    {
      stack.Contents()
    }

    constructor (burden: nat)
      ensures Valid() && fresh(stack) && fresh(stack.frames)
      ensures Contents() == [Init(MAIN)] && this.burden == burden
    {
      this.burden := burden;
      stack := new ShadowStack(MAIN);
    }

    // The strand that has run for `t` is charged to the bottom frame.
    method ChargeBottom(t: nat)
      requires Valid()
      modifies stack.frames
      ensures Valid() && Contents() == old(Contents())[..stack.bot] + [Charge(old(Contents()[stack.bot]), t)]
    {
      var bottom := stack.PeekBot();
      bottom := bottom.(continWork := bottom.continWork + t);
      bottom := bottom.(continSpan := bottom.continSpan + t);
      bottom := bottom.(continBspan := bottom.continBspan + t);
      stack.SetBot(bottom);
    }

    // A new frame starts from the values of the bottom frame.
    method PushInheriting(kind: Kind)
      requires Valid()
      modifies stack, stack.frames
      ensures Valid() && (stack.frames == old(stack.frames) || fresh(stack.frames))
      ensures Contents() == old(Contents()) + [Inherit(kind, old(Contents()[stack.bot]))]
    {
      var p := stack.PeekBot();
      stack.Push(kind);
      var c := stack.PeekBot();
      stack.SetBot(c.(continWork := p.continWork, continSpan := p.continSpan, continBspan := p.continBspan));
    }

    // Functions that may not spawn are not measured.
    method FuncEntry(t: nat, maySpawn: bool)
      requires Valid()
      modifies stack, stack.frames
      ensures Valid() && (stack.frames == old(stack.frames) || fresh(stack.frames))
      ensures Contents() == if maySpawn then Apply(burden, old(Contents()), FuncEntryHook(t)) else old(Contents())
    {
      if !maySpawn {
        return;
      }
      ChargeBottom(t);
      PushInheriting(SPAWNER);
    }

    method FuncExit(t: nat, maySpawn: bool)
      requires Valid() && (maySpawn ==> stack.bot > 0)
      modifies stack, stack.frames
      ensures Valid() && stack.frames == old(stack.frames)
      ensures Contents() == if maySpawn then Apply(burden, old(Contents()), FuncExitHook(t)) else old(Contents())
    {
      if !maySpawn {
        return;
      }
      var c := stack.Pop();
      var p := stack.PeekBot();
      stack.SetBot(p.(continWork := c.continWork + t,
                      continSpan := c.continSpan + t, continBspan := c.continBspan + t));
    }

    method Detach(t: nat)
      requires Valid()
      modifies stack.frames
      ensures Valid() && Contents() == Apply(burden, old(Contents()), DetachHook(t))
    {
      ChargeBottom(t);
    }

    method Task()
      requires Valid()
      modifies stack, stack.frames
      ensures Valid() && (stack.frames == old(stack.frames) || fresh(stack.frames))
      ensures Contents() == Apply(burden, old(Contents()), TaskHook)
    {
      PushInheriting(HELPER);
    }

    method TaskExit(t: nat)
      requires Valid() && stack.bot > 0
      modifies stack, stack.frames
      ensures Valid() && stack.frames == old(stack.frames)
      ensures Contents() == Apply(burden, old(Contents()), TaskExitHook(t))
    {
      ChargeBottom(t);
      var c := stack.Pop();
      var p := stack.PeekBot();
      p := p.(achildWork := p.achildWork + (c.continWork - p.continWork));
      // Check if the child's span exceeds that of the longest child so far.
      if c.continSpan > p.lchildSpan {
        p := p.(lchildSpan := c.continSpan);
      }
      if c.continBspan + burden > p.lchildBspan {
        p := p.(lchildBspan := c.continBspan + burden);
      }
      stack.SetBot(p);
    }

    // The spawned children have joined: add up work, take the longer span.
    method JoinChildren()
      requires Valid()
      modifies stack.frames
      ensures Valid() && Contents() == Apply(burden, old(Contents()), AfterSyncHook)
    {
      var f := stack.PeekBot();
      f := f.(continWork := f.continWork + f.achildWork, achildWork := 0);
      if f.lchildSpan > f.continSpan {
        f := f.(continSpan := f.lchildSpan);
      }
      f := f.(lchildSpan := 0);
      if f.lchildBspan > f.continBspan {
        f := f.(continBspan := f.lchildBspan);
      }
      f := f.(lchildBspan := 0);
      stack.SetBot(f);
    }

    // In the continuation of a spawn; or, when an exception unwinds, after the
    // spawned children have been synced.
    method DetachContinue(isUnwind: bool)
      requires Valid()
      modifies stack.frames
      ensures Valid()
      ensures Contents() == Apply(burden, old(Contents()), if isUnwind then AfterSyncHook else DetachContinueHook)
    {
      if isUnwind {
        JoinChildren();
      } else {
        var f := stack.PeekBot();
        stack.SetBot(f.(continBspan := f.continBspan + burden));
      }
    }

    method BeforeSync(t: nat)
      requires Valid()
      modifies stack.frames
      ensures Valid() && Contents() == Apply(burden, old(Contents()), BeforeSyncHook(t))
    {
      ChargeBottom(t);
    }

    method AfterSync()
      requires Valid()
      modifies stack.frames
      ensures Valid() && Contents() == Apply(burden, old(Contents()), AfterSyncHook)
    {
      JoinChildren();
    }

    method SpawnHooks(t: nat, e: Event)
      requires Valid() && e.Spawn?
      modifies stack, stack.frames
      ensures Valid() && (stack.frames == old(stack.frames) || fresh(stack.frames))
      ensures Contents() == StepFrames(burden, old(Contents()), t, e)
    {
      Detach(t);
      Task();
    }

    method TaskEndHooks(t: nat, e: Event)
      requires Valid() && stack.bot > 0 && e.TaskExit?
      modifies stack, stack.frames
      ensures Valid() && stack.frames == old(stack.frames)
      ensures Contents() == StepFrames(burden, old(Contents()), t, e)
    {
      TaskExit(t);
      DetachContinue(false);
    }

    method SyncHooks(t: nat, e: Event)
      requires Valid() && e.Sync?
      modifies stack.frames
      ensures Valid() && Contents() == StepFrames(burden, old(Contents()), t, e)
    {
      BeforeSync(t);
      AfterSync();
    }

    // Call the hooks of a control event.
    method Dispatch(t: nat, e: Event)
      requires Valid() && Fits(stack.bot + 1, e) && (e.FuncEntry? ==> e.maySpawn)
      modifies stack, stack.frames
      ensures Valid() && (stack.frames == old(stack.frames) || fresh(stack.frames))
      ensures Contents() == StepFrames(burden, old(Contents()), t, e)
    {
      match e {
        case FuncEntry(maySpawn, _) => FuncEntry(t, maySpawn);
        case FuncExit => FuncExit(t, true);
        case Spawn(_) => SpawnHooks(t, e);
        case TaskExit(_) => TaskEndHooks(t, e);
        case Sync(_) => SyncHooks(t, e);
      }
    }
  }

  // Run the tool over a whole execution: it measures work, span and burdened
  // span of the computation dag.
  method Measure(burden: nat, es: seq<TimedEvent>) returns (work: int, span: nat, bspan: nat)
    requires IsRun(START, es) && AllSynced(Outcome(START, es).dag)
    ensures Sized(Outcome(START, es))
    ensures work == Sum(Outcome(START, es).time)
    ensures LongestPath(Outcome(START, es), 0, span)
    ensures LongestPath(Outcome(START, es), burden, bspan)
    ensures span <= work && span <= bspan <= span + burden * TasksEnded(es)
  {
    InitiallyAccounts(burden);
    var tool := new Tool(burden);
    ghost var g := START;
    ghost var extra: nat := 0;
    ghost var n := Outcome(START, es);
    for i := 0 to |es|
      invariant tool.Valid() && tool.burden == burden && fresh(tool.stack) && fresh(tool.stack.frames)
      invariant IsRun(g, es[i..]) && Outcome(g, es[i..]) == n
      invariant Accounts(g, burden, tool.Contents(), extra)
      invariant extra + BurdenOf(burden, es[i..]) == BurdenOf(burden, es)
    {
      assert es[i..][0] == es[i] && es[i..][1..] == es[i + 1..];
      StepAccounts(g, burden, tool.Contents(), extra, es[i].t, es[i].e);
      tool.Dispatch(es[i].t, es[i].e);
      extra := if es[i].e.TaskExit? then extra + burden else extra;
      g := Advance(g, es[i].t, es[i].e);
    }
    BurdenPerTask(burden, es);
    MeasuresTheWholeRun(g, burden, tool.Contents(), extra);
    var f := tool.stack.PeekBot();
    return f.continWork, f.continSpan, f.continBspan;
  }
}
