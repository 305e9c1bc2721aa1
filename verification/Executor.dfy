/** Callbacks run one at a time, in the order in which they were asked for. */
module Executor {
  /** `running` is the callback awaited now; `done` the ones that ended well;
      `lost` those that were rejected. */
  datatype State<T> = State(queue: seq<T>, isExecuting: bool, running: seq<T>, done: seq<T>, lost: seq<T>)

  /** The wrapper is called, or the callback awaited now is fulfilled or rejected. */
  datatype Step<T> = Push(arg: T) | Fulfil | Reject

  function Fresh<T>(): State<T> { State([], false, [], [], []) }

  /** Take the next callback of the queue, or stop executing. */
  function Continue<T>(s: State<T>): State<T> {
    if s.queue == [] then s.(isExecuting := false, running := [])
    else s.(queue := s.queue[1..], running := [s.queue[0]])
  }

  /** A callback that is not awaited cannot end. */
  function Next<T>(s: State<T>, step: Step<T>): State<T> {
    match step
    case Push(arg) =>
      var pushed := s.(queue := s.queue + [arg]);
      if s.isExecuting then pushed else Continue(pushed.(isExecuting := true))
    case Fulfil =>
      if s.running == [] then s else Continue(s.(done := s.done + s.running))
    case Reject =>
      if s.running == [] then s else s.(running := [], lost := s.lost + s.running)
  }

  function Run<T>(s: State<T>, steps: seq<Step<T>>): State<T>
    decreases steps
  {
    if steps == [] then s else Run(Next(s, steps[0]), steps[1..])
  }

  function Pushed<T>(steps: seq<Step<T>>): seq<T>
    decreases steps
  {
    if steps == [] then []
    else PushedBy(steps[0]) + Pushed(steps[1..])
  }

  /** A rejected callback leaves `isExecuting` set for good. */
  predicate Stuck<T(==)>(s: State<T>) { s.isExecuting && s.running == [] }

  ghost predicate Valid<T>(s: State<T>) {
    && |s.running| <= 1 && |s.lost| <= 1
    && (!s.isExecuting ==> s.running == [] && s.queue == [])
    && (Stuck(s) <==> s.lost != [])
  }

  function All<T>(s: State<T>): seq<T> { s.done + s.running + s.lost + s.queue }

  lemma PushKeeps<T>(s: State<T>, arg: T)
    requires Valid(s)
    ensures Valid(Next(s, Push(arg))) && All(Next(s, Push(arg))) == All(s) + [arg]
  {
    var n := Next(s, Push(arg));
    if s.isExecuting {
      assert n.queue == s.queue + [arg];
    } else {
      assert ([] + [arg])[1..] == [];
      assert n.running == [arg] && n.queue == [];
    }
  }

  lemma FulfilKeeps<T>(s: State<T>)
    requires Valid(s)
    ensures Valid(Next(s, Fulfil)) && All(Next(s, Fulfil)) == All(s)
  {
    if s.running != [] && s.queue != [] {
      assert s.queue == [s.queue[0]] + s.queue[1..];
    }
  }

  lemma RejectKeeps<T>(s: State<T>)
    requires Valid(s)
    ensures Valid(Next(s, Reject)) && All(Next(s, Reject)) == All(s)
  {
  }

  /** What a step adds. */
  function PushedBy<T>(step: Step<T>): seq<T> { if step.Push? then [step.arg] else [] }

  lemma NextKeeps<T>(s: State<T>, step: Step<T>)
    requires Valid(s)
    ensures Valid(Next(s, step)) && All(Next(s, step)) == All(s) + PushedBy(step)
  {
    hide Valid, All, Next;
    match step
    case Push(arg) => PushKeeps(s, arg);
    case Fulfil => FulfilKeeps(s);
    case Reject => RejectKeeps(s);
  }

  lemma Regroup<T>(a: seq<T>, b: seq<T>, c: seq<T>)
    ensures a + b + c == a + (b + c)
  {
  }

  /** Nothing is lost, repeated or reordered, and at most one callback runs. */
  lemma {:induction false} RunKeeps<T>(s: State<T>, steps: seq<Step<T>>)
    requires Valid(s)
    ensures Valid(Run(s, steps)) && All(Run(s, steps)) == All(s) + Pushed(steps)
    decreases steps
  {
    hide All, Next, Valid;
    if steps == [] {
      assert All(s) + [] == All(s);
    } else {
      NextKeeps(s, steps[0]);
      RunKeeps(Next(s, steps[0]), steps[1..]);
      Regroup(All(s), PushedBy(steps[0]), Pushed(steps[1..]));
    }
  }

  lemma {:induction false} NoRejectKeepsGoing<T>(s: State<T>, steps: seq<Step<T>>)
    requires Valid(s) && !Stuck(s) && Reject !in steps
    ensures !Stuck(Run(s, steps))
    decreases steps
  {
    if steps != [] {
      assert steps[0] in steps;
      NextKeeps(s, steps[0]);
      NoRejectKeepsGoing(Next(s, steps[0]), steps[1..]);
    }
  }

  /** Callbacks that are not rejected: done, running and queued are what was pushed,
      in order, and when nothing executes everything is done. */
  lemma Lossless<T>(steps: seq<Step<T>>)
    requires Reject !in steps
    ensures var s := Run(Fresh(), steps);
            && s.done + s.running + s.queue == Pushed(steps)
            && |s.running| == (if s.isExecuting then 1 else 0)
            && (!s.isExecuting ==> s.done == Pushed(steps))
  {
    hide Run, Pushed;
    RunKeeps(Fresh(), steps);
    NoRejectKeepsGoing(Fresh(), steps);
    assert [] + Pushed(steps) == Pushed(steps);
    NothingLost(Run(Fresh(), steps), Pushed(steps));
  }

  lemma NothingLost<T>(s: State<T>, pushed: seq<T>)
    requires Valid(s) && !Stuck(s) && All(s) == pushed
    ensures s.done + s.running + s.queue == pushed && |s.running| == if s.isExecuting then 1 else 0
    ensures !s.isExecuting ==> s.done == pushed
  {
    assert All(s) == s.done + s.running + s.queue;
  }

  function Fulfils<T>(n: nat): seq<Step<T>> { seq(n, _ => Fulfil) }

  /** Everything pushed is done after as many fulfilments as callbacks are left. */
  lemma {:induction false} Drains<T>(s: State<T>)
    requires Valid(s) && !Stuck(s)
    ensures var last := Run(s, Fulfils(|s.running| + |s.queue|));
            last == State([], false, [], s.done + s.running + s.queue, [])
    decreases |s.queue|
  {
    if s.running == [] {
      assert Fulfils<T>(0) == [];
      assert s.done + [] + [] == s.done;
    } else {
      var n := Next(s, Fulfil);
      NextKeeps(s, Fulfil);
      FulfilMoves(s);
      FirstFulfil(s, |s.running| + |s.queue|);
      hide Next, Valid, Fulfils, Run;
      if s.queue == [] {
        NoFulfils(n);
      } else {
        Drains(n);
      }
    }
  }

  lemma FirstFulfil<T>(s: State<T>, left: nat)
    requires left > 0
    ensures Run(s, Fulfils(left)) == Run(Next(s, Fulfil), Fulfils(left - 1))
  {
    assert Fulfils<T>(left)[1..] == Fulfils<T>(left - 1);
  }

  lemma NoFulfils<T>(s: State<T>)
    ensures Run(s, Fulfils(0)) == s
  {
    assert Fulfils<T>(0) == [];
  }

  lemma FulfilMoves<T>(s: State<T>)
    requires Valid(s) && s.running != []
    ensures var n := Next(s, Fulfil);
            && !Stuck(n) && n.lost == s.lost
            && |n.running| + |n.queue| == |s.queue| && (s.queue != [] ==> |n.queue| < |s.queue|)
            && n.done + n.running + n.queue == s.done + s.running + s.queue
            && (s.queue == [] ==> n == State([], false, [], s.done + s.running + s.queue, s.lost))
  {
    var n := Next(s, Fulfil);
    assert n.running + n.queue == s.queue;
    Regroup(n.done, n.running, n.queue);
  }

  /** After a rejection nothing ever runs again, whatever is pushed. */
  lemma {:induction false} StuckForever<T>(s: State<T>, steps: seq<Step<T>>)
    requires Valid(s) && Stuck(s)
    ensures Run(s, steps) == s.(queue := s.queue + Pushed(steps))
    decreases steps
  {
    if steps == [] {
      assert s.queue + [] == s.queue;
    } else {
      var n := Next(s, steps[0]);
      StuckStep(s, steps[0]);
      NextKeeps(s, steps[0]);
      hide Next, Valid, All;
      StuckForever(n, steps[1..]);
      Regroup(s.queue, PushedBy(steps[0]), Pushed(steps[1..]));
    }
  }

  lemma StuckStep<T>(s: State<T>, step: Step<T>)
    requires Stuck(s)
    ensures Next(s, step) == s.(queue := s.queue + PushedBy(step))
  {
    assert s.queue + [] == s.queue;
  }

  ghost predicate Finishes<T>(s: State<T>, pushed: seq<T>, more: seq<Step<T>>) {
    Run(s, more).done == pushed + Pushed(more)
  }

  lemma FinishesUnlost<T>(s: State<T>, pushed: seq<T>)
    requires Valid(s) && All(s) == pushed && s.lost == []
    ensures Finishes(s, pushed, Fulfils(|s.running| + |s.queue|))
  {
    NothingLost(s, pushed);
    Drains(s);
    hide Run, Pushed, Fulfils, All, Valid;
    NoPushes<T>(|s.running| + |s.queue|);
    assert pushed + [] == pushed;
  }

  lemma NeverFinishes<T>(s: State<T>, pushed: seq<T>, more: seq<Step<T>>)
    requires Valid(s) && All(s) == pushed && s.lost != []
    ensures !Finishes(s, pushed, more)
  {
    assert |pushed| > |s.done|;
    hide All;
    StuckForever(s, more);
  }

  /** A run can still finish what was pushed exactly when no running callback was rejected. */
  lemma FinishesIff<T>(steps: seq<Step<T>>)
    ensures (exists more :: Finishes(Run(Fresh(), steps), Pushed(steps), more)) <==> Run(Fresh(), steps).lost == []
  {
    var s := Run(Fresh(), steps);
    RunKeeps(Fresh(), steps);
    assert All(Fresh<T>()) == [] && [] + Pushed(steps) == Pushed(steps);
    hide Run, Pushed, All, Fulfils, Valid, Finishes;
    if s.lost == [] {
      FinishesUnlost(s, Pushed(steps));
    } else {
      forall more ensures !Finishes(s, Pushed(steps), more) {
        NeverFinishes(s, Pushed(steps), more);
      }
    }
  }

  lemma {:induction false} NoPushes<T>(n: nat)
    ensures Pushed(Fulfils<T>(n)) == []
  {
    if n > 0 {
      NoPushes<T>(n - 1);
      assert Fulfils<T>(n)[1..] == Fulfils<T>(n - 1);
    }
  }

  /** The closure around the callback. `Start` stands for calling it; its end comes
      back through `Fulfilled` or `Rejected`. */
  class Queue<T(==)> {
    var queue: seq<T>
    var isExecuting: bool
    ghost var running: seq<T>
    ghost var done: seq<T>
    ghost var lost: seq<T>

    ghost function Abs(): State<T>
      reads this
    {
      State(queue, isExecuting, running, done, lost)
    }

    constructor ()
      ensures Abs() == Fresh()
    {
      queue, isExecuting, running, done, lost := [], false, [], [], [];
    }

    method Push(arg: T)
      modifies this
      ensures Abs() == Next(old(Abs()), Step.Push(arg))
    {
      queue := queue + [arg];
      if isExecuting {
        return;
      }
      isExecuting := true;
      Loop();
    }

    /** The head of the loop, up to the next await. */
    method Loop()
      requires isExecuting
      modifies this
      ensures Abs() == Continue(old(Abs()))
    {
      if |queue| > 0 {
        running := [queue[0]];
        queue := queue[1..];
      } else {
        running := [];
        isExecuting := false;
      }
    }

    method Fulfilled()
      requires isExecuting && running != []
      modifies this
      ensures Abs() == Next(old(Abs()), Fulfil)
    {
      done := done + running;
      Loop();
    }

    /** The exception leaves the loop, and `isExecuting` with it. */
    method Rejected()
      requires running != []
      modifies this
      ensures Abs() == Next(old(Abs()), Reject)
    {
      lost := lost + running;
      running := [];
    }
  }
}
