/** Limiting concurrent builds. */
module BuildPermits {
  // A semaphore admits requests, and each admitted request owns a slot id. Requests
  // interleave step by step.

  import opened Basics
  import opened Wrappers

  type Request = nat

  /** How far a request that holds the semaphore has come. The destructor clears the
      id before the semaphore permit, a field, is released. */
  datatype Phase = HasSemaphore | HasId(id: nat, started: bool) | IdCleared

  /** `running` holds the blocking build tasks, which outlive a request that is dropped. */
  datatype State = State(free: nat, ids: seq<bool>, holders: map<Request, Phase>, running: map<Request, nat>)

  function Start(concurrency: nat): State {
    State(concurrency, seq(concurrency, _ => false), map[], map[])
  }

  datatype Step =
    | Acquire(r: Request)
    | AssignId(r: Request)
    | Spawn(r: Request)
    | Finish(r: Request)
    | Clear(r: Request)
    | Cancel(r: Request)
    | Release(r: Request)

  function FirstFree(ids: seq<bool>): (r: Option<nat>)
    ensures r.Some? ==> r.value < |ids| && !ids[r.value] && forall k | 0 <= k < r.value :: ids[k]
    ensures r.None? ==> forall k | 0 <= k < |ids| :: ids[k]
  {
    FirstFreeFrom(ids, 0)
  }

  function FirstFreeFrom(ids: seq<bool>, i: nat): (r: Option<nat>)
    requires i <= |ids|
    ensures r.Some? ==> i <= r.value < |ids| && !ids[r.value] && forall k | i <= k < r.value :: ids[k]
    ensures r.None? ==> forall k | i <= k < |ids| :: ids[k]
    decreases |ids| - i
  {
    if i == |ids| then None else if !ids[i] then Some(i) else FirstFreeFrom(ids, i + 1)
  }

  predicate OwnsId(s: State, r: Request) {
    r in s.holders && s.holders[r].HasId? && s.holders[r].id < |s.ids|
  }

  predicate Enabled(s: State, step: Step) {
    var r := step.r;
    match step
    case Acquire(_) => r !in s.holders && r !in s.running && s.free > 0
    case AssignId(_) => r in s.holders && s.holders[r].HasSemaphore?
    case Spawn(_) => OwnsId(s, r) && !s.holders[r].started
    case Finish(_) => r in s.running
    case Clear(_) => OwnsId(s, r) && r !in s.running
    case Cancel(_) => OwnsId(s, r) && r in s.running
    case Release(_) => r in s.holders && s.holders[r].IdCleared?
  }

  function Next(s: State, step: Step): State
    requires Enabled(s, step)
  {
    var r := step.r;
    match step
    case Acquire(_) => s.(free := s.free - 1, holders := s.holders[r := HasSemaphore])
    case AssignId(_) =>
      (match FirstFree(s.ids)
       case Some(k) => s.(ids := s.ids[k := true], holders := s.holders[r := HasId(k, false)])
       case None => s.(free := s.free + 1, holders := s.holders - {r}))
    case Spawn(_) =>
      var k := s.holders[r].id;
      s.(holders := s.holders[r := HasId(k, true)], running := s.running[r := k])
    case Finish(_) => s.(running := s.running - {r})
    case Clear(_) => DropBody(s, r)
    case Cancel(_) => DropBody(s, r)
    case Release(_) => s.(free := s.free + 1, holders := s.holders - {r})
  }

  function DropBody(s: State, r: Request): State
    requires OwnsId(s, r)
  {
    s.(ids := s.ids[s.holders[r].id := false], holders := s.holders[r := IdCleared])
  }

  /** `steps` leads from `s` to `t`. */
  predicate Leads(s: State, steps: seq<Step>, t: State)
    decreases steps
  {
    if steps == [] then s == t
    else Enabled(s, steps[0]) && Leads(Next(s, steps[0]), steps[1..], t)
  }

  predicate NoCancel(steps: seq<Step>) {
    forall i | 0 <= i < |steps| :: !steps[i].Cancel?
  }

  // ----- What every interleaving keeps -----

  ghost predicate IdsOwned(s: State) {
    && (forall r | r in s.holders && s.holders[r].HasId? :: s.holders[r].id < |s.ids| && s.ids[s.holders[r].id])
    && (forall r, q | OwnsId(s, r) && OwnsId(s, q) && s.holders[r].id == s.holders[q].id :: r == q)
    && (forall k | 0 <= k < |s.ids| && s.ids[k] :: Owned(s, k))
  }

  ghost predicate Owned(s: State, k: nat) {
    exists r :: OwnsId(s, r) && s.holders[r].id == k
  }

  /** Free permits and holders make up the concurrency, and a slot is marked exactly
      when one live permit owns it. */
  ghost predicate Inv(s: State, concurrency: nat) {
    && |s.ids| == concurrency
    && s.free + |s.holders| == concurrency
    && IdsOwned(s)
    && RunningKnown(s)
  }

  /** A build runs under an id of its request, which owns it or has given it up. */
  ghost predicate RunningKnown(s: State) {
    forall r | r in s.running ::
      s.running[r] < |s.ids| && (r in s.holders ==> Building(s, r) || s.holders[r].IdCleared?)
  }

  /** The request still holds the id its build runs under. */
  predicate Building(s: State, r: Request)
    requires r in s.running
  {
    OwnsId(s, r) && s.holders[r] == HasId(s.running[r], true)
  }

  /** The holders of the first `n` ids. */
  ghost function OwnersBelow(s: State, n: nat): set<Request> {
    set r | r in s.holders && OwnsId(s, r) && s.holders[r].id < n
  }

  /** How many of the first `n` ids are not marked. */
  ghost function FreeBelow(ids: seq<bool>, n: nat): nat
    requires n <= |ids|
  {
    if n == 0 then 0 else FreeBelow(ids, n - 1) + if ids[n - 1] then 0 else 1
  }

  lemma OneMore(a: set<Request>, r: Request)
    requires r !in a
    ensures |a + {r}| == |a| + 1
  {
  }

  lemma OwnerAdded(s: State, n: nat) returns (r: Request)
    requires IdsOwned(s) && 0 < n <= |s.ids| && s.ids[n - 1]
    ensures r !in OwnersBelow(s, n - 1) && OwnersBelow(s, n) == OwnersBelow(s, n - 1) + {r}
  {
    assert Owned(s, n - 1);
    r :| OwnsId(s, r) && s.holders[r].id == n - 1;
  }

  lemma NoOwnerAdded(s: State, n: nat)
    requires IdsOwned(s) && 0 < n <= |s.ids| && !s.ids[n - 1]
    ensures OwnersBelow(s, n) == OwnersBelow(s, n - 1)
  {
  }

  lemma {:induction false} OwnersCounted(s: State, n: nat)
    requires IdsOwned(s) && n <= |s.ids|
    ensures |OwnersBelow(s, n)| + FreeBelow(s.ids, n) == n
  {
    hide OwnersBelow, IdsOwned, FreeBelow;
    FreeStep(s.ids, n);
    if n == 0 {
      NoOwners(s);
    } else {
      OwnersCounted(s, n - 1);
      if s.ids[n - 1] {
        var r := OwnerAdded(s, n);
        OneMore(OwnersBelow(s, n - 1), r);
      } else {
        NoOwnerAdded(s, n);
      }
    }
  }

  lemma NoOwners(s: State)
    ensures OwnersBelow(s, 0) == {}
  {
  }

  lemma FreeStep(ids: seq<bool>, n: nat)
    requires n <= |ids|
    ensures FreeBelow(ids, n) == if n == 0 then 0 else FreeBelow(ids, n - 1) + if ids[n - 1] then 0 else 1
  {
  }

  lemma {:induction false} FreeBelowPositive(ids: seq<bool>, n: nat)
    requires n <= |ids|
    ensures FreeBelow(ids, n) > 0 <==> exists k :: 0 <= k < n && !ids[k]
  {
    if n > 0 {
      FreeBelowPositive(ids, n - 1);
    }
  }

  /** A request that got past the semaphore always finds an id. */
  lemma IdAlwaysFound(s: State, concurrency: nat, r: Request)
    requires Inv(s, concurrency) && Enabled(s, AssignId(r))
    ensures FirstFree(s.ids).Some?
  {
    OwnersCounted(s, concurrency);
    SubsetSize(OwnersBelow(s, concurrency), s.holders.Keys - {r});
    FreeBelowPositive(s.ids, concurrency);
  }

  lemma SizeWith(m: map<Request, Phase>, r: Request, p: Phase)
    ensures |m[r := p]| == if r in m then |m| else |m| + 1
    ensures r in m ==> |m - {r}| == |m| - 1
  {
    assert m[r := p].Keys == m.Keys + {r};
    assert |m[r := p]| == |m[r := p].Keys|;
    if r in m {
      assert m.Keys + {r} == m.Keys;
      assert (m - {r}).Keys == m.Keys - {r};
      assert |m - {r}| == |(m - {r}).Keys|;
    }
  }

  lemma StartInv(concurrency: nat)
    ensures Inv(Start(concurrency), concurrency)
  {
  }

  lemma CountKept(s: State, concurrency: nat, step: Step)
    requires Inv(s, concurrency) && Enabled(s, step)
    ensures |Next(s, step).ids| == concurrency && Next(s, step).free + |Next(s, step).holders| == concurrency
  {
    if step.AssignId? {
      IdAlwaysFound(s, concurrency, step.r);
    }
    var t := Next(s, step);
    hide IdsOwned, RunningKnown;
    if step.r in t.holders {
      SizeWith(s.holders, step.r, t.holders[step.r]);
    } else {
      SizeWith(s.holders, step.r, IdCleared);
    }
  }

  /** An owner other than `r` stays an owner when only `r` changes. */
  lemma OwnerStays(s: State, t: State, r: Request, k: nat)
    requires |t.ids| == |s.ids| && Owned(s, k) && !(OwnsId(s, r) && s.holders[r].id == k)
    requires forall q | q in s.holders && q != r :: q in t.holders && t.holders[q] == s.holders[q]
    ensures Owned(t, k)
  {
    var q :| OwnsId(s, q) && s.holders[q].id == k;
    assert OwnsId(t, q);
  }

  /** Marking a free id for a request that has none keeps ids and owners in step. */
  lemma AssignKeepsIds(s: State, r: Request, k: nat)
    requires IdsOwned(s) && !OwnsId(s, r) && k < |s.ids| && !s.ids[k]
    ensures IdsOwned(s.(ids := s.ids[k := true], holders := s.holders[r := HasId(k, false)]))
  {
    var t := s.(ids := s.ids[k := true], holders := s.holders[r := HasId(k, false)]);
    assert OwnsId(t, r);
    forall j | 0 <= j < |t.ids| && t.ids[j] ensures Owned(t, j) {
      if j != k {
        OwnerStays(s, t, r, j);
      }
    }
    hide Owned;
    forall q | OwnsId(t, q) && q != r ensures OwnsId(s, q) && s.holders[q].id != k {
    }
  }

  lemma DropKeepsIds(s: State, r: Request)
    requires IdsOwned(s) && OwnsId(s, r)
    ensures IdsOwned(DropBody(s, r))
  {
    hide Owned;
    var t, k := DropBody(s, r), s.holders[r].id;
    forall j | 0 <= j < |t.ids| && t.ids[j] ensures Owned(t, j) {
      OwnerStays(s, t, r, j);
    }
    forall q | q in t.holders && t.holders[q].HasId? ensures t.ids[t.holders[q].id] {
      assert OwnsId(s, q) && q != r;
    }
  }

  /** Requests without an id may come and go. */
  lemma SameIds(s: State, t: State)
    requires IdsOwned(s) && t.ids == s.ids
    requires forall r :: (r in t.holders && t.holders[r].HasId?) <==> (r in s.holders && s.holders[r].HasId?)
    requires forall r | r in t.holders && t.holders[r].HasId? :: t.holders[r].id == s.holders[r].id
    ensures IdsOwned(t)
  {
    forall k | 0 <= k < |t.ids| && t.ids[k] ensures Owned(t, k) {
      assert Owned(s, k);
      var q :| OwnsId(s, q) && s.holders[q].id == k;
      assert OwnsId(t, q);
    }
    forall r | OwnsId(t, r) ensures OwnsId(s, r) {
    }
  }

  lemma IdsKept(s: State, concurrency: nat, step: Step)
    requires Inv(s, concurrency) && Enabled(s, step)
    ensures IdsOwned(Next(s, step))
  {
    hide IdsOwned, RunningKnown;
    match step
    case AssignId(r) =>
      IdAlwaysFound(s, concurrency, r);
      AssignKeepsIds(s, r, FirstFree(s.ids).value);
    case Clear(r) => DropKeepsIds(s, r);
    case Cancel(r) => DropKeepsIds(s, r);
    case _ => SameIds(s, Next(s, step));
  }

  lemma RunningKept(s: State, concurrency: nat, step: Step)
    requires Inv(s, concurrency) && Enabled(s, step)
    ensures RunningKnown(Next(s, step))
  {
    if step.AssignId? {
      IdAlwaysFound(s, concurrency, step.r);
    }
    hide IdsOwned;
  }

  /** Every step of every interleaving keeps the invariant. */
  lemma StepKeeps(s: State, concurrency: nat, step: Step)
    requires Inv(s, concurrency) && Enabled(s, step)
    ensures Inv(Next(s, step), concurrency)
  {
    CountKept(s, concurrency, step);
    IdsKept(s, concurrency, step);
    RunningKept(s, concurrency, step);
  }

  lemma {:induction false} RunKeeps(s: State, concurrency: nat, steps: seq<Step>, t: State)
    requires Inv(s, concurrency) && Leads(s, steps, t)
    ensures Inv(t, concurrency)
    decreases steps
  {
    if steps != [] {
      StepKeeps(s, concurrency, steps[0]);
      RunKeeps(Next(s, steps[0]), concurrency, steps[1..], t);
    }
  }

  /** So from the start no run ever fails to find an id, and every slot has at most one owner. */
  lemma RunsSafe(concurrency: nat, steps: seq<Step>, t: State)
    requires Leads(Start(concurrency), steps, t)
    ensures Inv(t, concurrency)
    ensures forall r | Enabled(t, AssignId(r)) :: FirstFree(t.ids).Some?
  {
    StartInv(concurrency);
    RunKeeps(Start(concurrency), concurrency, steps, t);
    forall r | Enabled(t, AssignId(r)) ensures FirstFree(t.ids).Some? {
      IdAlwaysFound(t, concurrency, r);
    }
  }

  // ----- Nothing is kept for ever -----

  /** A step is one request's own: what the others hold and run stays theirs, and of
      their own builds only `Spawn` starts one and only `Finish` ends one. */
  lemma StepsApart(s: State, concurrency: nat, step: Step)
    requires Inv(s, concurrency) && Enabled(s, step)
    ensures var t := Next(s, step);
            && (forall q | q != step.r :: (q in t.holders <==> q in s.holders)
                  && (q in s.holders ==> t.holders[q] == s.holders[q]))
            && (forall q | q != step.r :: (q in t.running <==> q in s.running)
                  && (q in s.running ==> t.running[q] == s.running[q]))
            && (step.r in t.running <==> step.Spawn? || (step.r in s.running && !step.Finish?))
            && (step.Spawn? ==> s.holders[step.r].id == t.running[step.r])
            && (step.r in s.running && step.r in t.running && !step.Spawn? ==>
                  t.running[step.r] == s.running[step.r])
  {
    if step.AssignId? {
      IdAlwaysFound(s, concurrency, step.r);
    }
    hide IdsOwned, RunningKnown;
  }

  /** Some cancel-free run leads from `s` to `t`. */
  ghost predicate CanReach(s: State, t: State) {
    exists steps :: NoCancel(steps) && Leads(s, steps, t)
  }

  lemma ReachNow(s: State)
    ensures CanReach(s, s)
  {
    assert NoCancel([]) && Leads(s, [], s);
  }

  lemma ReachAfter(s: State, step: Step, t: State)
    requires Enabled(s, step) && !step.Cancel? && CanReach(Next(s, step), t)
    ensures CanReach(s, t)
  {
    var steps :| NoCancel(steps) && Leads(Next(s, step), steps, t);
    var all := [step] + steps;
    assert all[1..] == steps;
    assert NoCancel(all) && Leads(s, all, t);
  }

  lemma {:induction false} ReachOn(s: State, steps: seq<Step>, u: State, t: State)
    requires NoCancel(steps) && Leads(s, steps, u) && CanReach(u, t)
    ensures CanReach(s, t)
    decreases steps
  {
    if steps != [] {
      assert !steps[0].Cancel? && NoCancel(steps[1..]);
      hide CanReach, NoCancel;
      ReachOn(Next(s, steps[0]), steps[1..], u, t);
      ReachAfter(s, steps[0], t);
    }
  }

  lemma IdleIsStart(s: State, concurrency: nat)
    requires Inv(s, concurrency) && s.holders == map[] && s.running == map[]
    ensures s == Start(concurrency)
  {
    forall k | 0 <= k < |s.ids| ensures !s.ids[k] {
      assert s.ids[k] ==> Owned(s, k);
    }
    assert s.ids == Start(concurrency).ids;
  }

  function StepsLeft(p: Phase): nat {
    match p
    case HasSemaphore => 2
    case HasId(_, _) => 1
    case IdCleared => 0
  }

  /** From every reachable state the builds can end and every id and every permit come
      back, without any cancellation. */
  lemma {:induction false} ComesBack(s: State, concurrency: nat)
    requires Inv(s, concurrency)
    ensures CanReach(s, Start(concurrency))
    decreases |s.running|, |s.holders|, 3
  {
    if s.running != map[] {
      var r :| r in s.running;
      StepKeeps(s, concurrency, Finish(r));
      assert (s.running - {r}).Keys == s.running.Keys - {r};
      assert |s.running - {r}| == |(s.running - {r}).Keys| && |s.running| == |s.running.Keys|;
      hide IdsOwned, RunningKnown, CanReach;
      ComesBack(Next(s, Finish(r)), concurrency);
      ReachAfter(s, Finish(r), Start(concurrency));
    } else if s.holders != map[] {
      var r :| r in s.holders;
      GivesBack(s, concurrency, r);
    } else {
      IdleIsStart(s, concurrency);
      ReachNow(s);
    }
  }

  /** One request goes on until it holds nothing. */
  lemma {:induction false} GivesBack(s: State, concurrency: nat, r: Request)
    requires Inv(s, concurrency) && s.running == map[] && r in s.holders
    ensures CanReach(s, Start(concurrency))
    decreases |s.running|, |s.holders|, StepsLeft(s.holders[r])
  {
    var step := match s.holders[r]
      case HasSemaphore => AssignId(r)
      case HasId(_, _) => Clear(r)
      case IdCleared => Release(r);
    if step.AssignId? {
      IdAlwaysFound(s, concurrency, r);
    }
    StepKeeps(s, concurrency, step);
    SizeWith(s.holders, r, IdCleared);
    SizeWith(s.holders, r, HasSemaphore);
    hide IdsOwned, RunningKnown, CanReach;
    if step.Release? {
      ComesBack(Next(s, step), concurrency);
    } else {
      SizeWith(s.holders, r, Next(s, step).holders[r]);
      GivesBack(Next(s, step), concurrency, r);
    }
    ReachAfter(s, step, Start(concurrency));
  }

  /** So every request can still get in, and then it has an id. */
  lemma GetsIn(s: State, concurrency: nat, r: Request)
    requires Inv(s, concurrency) && concurrency > 0
    ensures exists t :: CanReach(s, t) && OwnsId(t, r)
  {
    ComesBack(s, concurrency);
    var start := Start(concurrency);
    var steps :| NoCancel(steps) && Leads(s, steps, start);
    StartInv(concurrency);
    StepKeeps(start, concurrency, Acquire(r));
    var one := Next(start, Acquire(r));
    IdAlwaysFound(one, concurrency, r);
    var two := Next(one, AssignId(r));
    assert OwnsId(two, r);
    ReachNow(two);
    ReachAfter(one, AssignId(r), two);
    ReachAfter(start, Acquire(r), two);
    ReachOn(s, steps, start, two);
  }

  // ----- Builds and ids -----

  /** Two builds run under the same id. */
  ghost predicate Collision(s: State) {
    exists r, q :: r in s.running && q in s.running && r != q && s.running[r] == s.running[q]
  }

  /** A build still runs although its request has given up the id. */
  ghost predicate Orphan(s: State, r: Request) {
    r in s.running && !Building(s, r)
  }

  lemma NoOrphanNoCollision(s: State, concurrency: nat)
    requires Inv(s, concurrency) && forall r :: !Orphan(s, r)
    ensures !Collision(s)
  {
    forall r, q | r in s.running && q in s.running && s.running[r] == s.running[q] ensures r == q {
      assert !Orphan(s, r) && !Orphan(s, q);
    }
  }

  lemma NoNewOrphan(s: State, concurrency: nat, step: Step)
    requires Inv(s, concurrency) && Enabled(s, step) && !step.Cancel?
    requires forall r :: !Orphan(s, r)
    ensures forall r :: !Orphan(Next(s, step), r)
  {
    if step.AssignId? {
      IdAlwaysFound(s, concurrency, step.r);
    }
    var t := Next(s, step);
    hide IdsOwned, RunningKnown;
    forall r ensures !Orphan(t, r) {
      assert !Orphan(s, r);
    }
  }

  lemma {:induction false} SafeWithoutCancel(s: State, concurrency: nat, steps: seq<Step>, t: State)
    requires Inv(s, concurrency) && (forall r :: !Orphan(s, r))
    requires Leads(s, steps, t) && NoCancel(steps)
    ensures !Collision(t)
    decreases steps
  {
    if steps == [] {
      NoOrphanNoCollision(s, concurrency);
    } else {
      assert !steps[0].Cancel?;
      StepKeeps(s, concurrency, steps[0]);
      NoNewOrphan(s, concurrency, steps[0]);
      hide Orphan, Inv, Enabled, Next;
      SafeWithoutCancel(Next(s, steps[0]), concurrency, steps[1..], t);
    }
  }

  /** Some cancel-free continuation makes two builds share an id. */
  ghost predicate CollisionAhead(s: State) {
    exists t :: CanReach(s, t) && Collision(t)
  }

  lemma Ahead(s: State, step: Step)
    requires Enabled(s, step) && !step.Cancel? && CollisionAhead(Next(s, step))
    ensures CollisionAhead(s)
  {
    var t :| CanReach(Next(s, step), t) && Collision(t);
    ReachAfter(s, step, t);
  }

  lemma AlreadyAhead(s: State)
    requires Collision(s)
    ensures CollisionAhead(s)
  {
    ReachNow(s);
  }

  lemma {:induction false} MarkedBelow(ids: seq<bool>, n: nat, j: nat)
    requires n <= |ids| && j < |ids| && !ids[j]
    ensures FreeBelow(ids[j := true], n) == FreeBelow(ids, n) - if j < n then 1 else 0
  {
    if n > 0 {
      MarkedBelow(ids, n - 1, j);
    }
  }

  lemma FreshRequest(used: set<Request>) returns (r: Request)
    ensures r !in used
  {
    r := 0;
    var rest := used;
    while r in used
      invariant rest == set x | x in used && x >= r
      decreases rest
    {
      assert r in rest;
      rest := rest - {r};
      r := r + 1;
    }
  }

  lemma SomeCleared(s: State, concurrency: nat, k: nat)
    requires Inv(s, concurrency) && s.free == 0 && k < concurrency && !s.ids[k]
    requires forall r | r in s.holders :: !s.holders[r].HasSemaphore?
    ensures exists r :: Enabled(s, Release(r))
  {
    OwnersCounted(s, concurrency);
    FreeBelowPositive(s.ids, concurrency);
    if s.holders.Keys <= OwnersBelow(s, concurrency) {
      SubsetSize(s.holders.Keys, OwnersBelow(s, concurrency));
    } else {
      var r :| r in s.holders.Keys && r !in OwnersBelow(s, concurrency);
      assert Enabled(s, Release(r));
    }
  }

  lemma OrphanStays(s: State, concurrency: nat, step: Step, o: Request)
    requires Inv(s, concurrency) && Enabled(s, step) && Orphan(s, o) && !step.Finish?
    ensures Orphan(Next(s, step), o) && Next(s, step).running[o] == s.running[o]
  {
    if step.AssignId? {
      IdAlwaysFound(s, concurrency, step.r);
    }
    hide IdsOwned;
  }

  /** When the orphan's id is owned, its owner starts a build, or gives the id up again. */
  lemma OwnedIdCollides(s: State, concurrency: nat, o: Request)
    requires Inv(s, concurrency) && Orphan(s, o) && s.ids[s.running[o]]
    ensures CollisionAhead(s)
    decreases 1, 0, 0
  {
    var k := s.running[o];
    assert Owned(s, k);
    var r :| OwnsId(s, r) && s.holders[r].id == k;
    assert r != o;
    if r in s.running {
      assert Building(s, r);
      assert Collision(s);
      AlreadyAhead(s);
    } else if !s.holders[r].started {
      var t := Next(s, Spawn(r));
      assert t.running[r] == t.running[o];
      AlreadyAhead(t);
      Ahead(s, Spawn(r));
    } else {
      var t := Next(s, Clear(r));
      StepKeeps(s, concurrency, Clear(r));
      OrphanStays(s, concurrency, Clear(r), o);
      FreeIdCollides(t, concurrency, o);
      Ahead(s, Clear(r));
    }
  }

  /** When it is free, waiting requests take the ids below it and then this one. */
  lemma {:induction false} FreeIdCollides(s: State, concurrency: nat, o: Request)
    requires Inv(s, concurrency) && Orphan(s, o) && !s.ids[s.running[o]]
    ensures CollisionAhead(s)
    decreases 0, FreeBelow(s.ids, s.running[o]), 3
  {
    if r :| Enabled(s, AssignId(r)) {
      CollidesByAssign(s, concurrency, r, o);
    } else if s.free > 0 {
      CollidesByAcquire(s, concurrency, o);
    } else {
      CollidesByRelease(s, concurrency, o);
    }
  }

  lemma {:induction false} CollidesByAssign(s: State, concurrency: nat, r: Request, o: Request)
    requires Inv(s, concurrency) && Orphan(s, o) && !s.ids[s.running[o]] && Enabled(s, AssignId(r))
    ensures CollisionAhead(s)
    decreases 0, FreeBelow(s.ids, s.running[o]), 0
  {
    IdAlwaysFound(s, concurrency, r);
    var j := FirstFree(s.ids).value;
    if j == s.running[o] {
      TakenByFresh(s, concurrency, r, o);
    } else {
      StepKeeps(s, concurrency, AssignId(r));
      OrphanStays(s, concurrency, AssignId(r), o);
      MarkedBelow(s.ids, s.running[o], j);
      hide IdsOwned, RunningKnown, CollisionAhead;
      FreeIdCollides(Next(s, AssignId(r)), concurrency, o);
      Ahead(s, AssignId(r));
    }
  }

  lemma {:induction false} CollidesByAcquire(s: State, concurrency: nat, o: Request)
    requires Inv(s, concurrency) && Orphan(s, o) && !s.ids[s.running[o]] && s.free > 0
    ensures CollisionAhead(s)
    decreases 0, FreeBelow(s.ids, s.running[o]), 1
  {
    var r := FreshRequest(s.holders.Keys + s.running.Keys);
    StepKeeps(s, concurrency, Acquire(r));
    OrphanStays(s, concurrency, Acquire(r), o);
    hide IdsOwned, RunningKnown, CollisionAhead;
    CollidesByAssign(Next(s, Acquire(r)), concurrency, r, o);
    Ahead(s, Acquire(r));
  }

  lemma {:induction false} CollidesByRelease(s: State, concurrency: nat, o: Request)
    requires Inv(s, concurrency) && Orphan(s, o) && !s.ids[s.running[o]] && s.free == 0
    requires forall r :: !Enabled(s, AssignId(r))
    ensures CollisionAhead(s)
    decreases 0, FreeBelow(s.ids, s.running[o]), 2
  {
    assert forall r | r in s.holders :: Enabled(s, AssignId(r)) || !s.holders[r].HasSemaphore?;
    SomeCleared(s, concurrency, s.running[o]);
    var r :| Enabled(s, Release(r));
    StepKeeps(s, concurrency, Release(r));
    OrphanStays(s, concurrency, Release(r), o);
    hide IdsOwned, RunningKnown, CollisionAhead;
    CollidesByAcquire(Next(s, Release(r)), concurrency, o);
    Ahead(s, Release(r));
  }

  lemma TakenByFresh(s: State, concurrency: nat, r: Request, o: Request)
    requires Inv(s, concurrency) && Orphan(s, o) && Enabled(s, AssignId(r))
    requires FirstFree(s.ids) == Some(s.running[o])
    ensures CollisionAhead(s)
  {
    var t := Next(s, AssignId(r));
    assert r != o && r !in s.running;
    var u := Next(t, Spawn(r));
    assert u.running[r] == u.running[o];
    AlreadyAhead(u);
    Ahead(t, Spawn(r));
    Ahead(s, AssignId(r));
  }

  /** Because the permit stays with the request and not with the blocking task, two
      builds can come to share an id without any further cancellation exactly when
      some build has been orphaned. */
  lemma CollisionIffOrphan(s: State, concurrency: nat)
    requires Inv(s, concurrency)
    ensures CollisionAhead(s) <==> exists o :: Orphan(s, o)
  {
    if o :| Orphan(s, o) {
      if s.ids[s.running[o]] {
        OwnedIdCollides(s, concurrency, o);
      } else {
        FreeIdCollides(s, concurrency, o);
      }
    } else {
      forall t | CanReach(s, t) ensures !Collision(t) {
        var steps :| NoCancel(steps) && Leads(s, steps, t);
        SafeWithoutCancel(s, concurrency, steps, t);
      }
    }
  }

  /** Cancelling is what orphans a build. */
  lemma CancelOrphans(s: State, concurrency: nat, r: Request)
    requires Inv(s, concurrency) && Enabled(s, Cancel(r))
    ensures Orphan(Next(s, Cancel(r)), r) && CollisionAhead(Next(s, Cancel(r)))
  {
    StepKeeps(s, concurrency, Cancel(r));
    assert Orphan(Next(s, Cancel(r)), r);
    CollisionIffOrphan(Next(s, Cancel(r)), concurrency);
  }

  // ----- The shared state -----

  class BuildState {
    /** The free permits of the semaphore. */
    var sem: nat
    var ids: array<bool>
    /** The live requests and the build tasks that run. */
    ghost var holders: map<Request, Phase>
    ghost var running: map<Request, nat>

    ghost function Current(): State
      reads this, ids
    {
      State(sem, ids[..], holders, running)
    }

    constructor (concurrency: nat)
      ensures fresh(ids) && Current() == Start(concurrency)
    {
      sem := concurrency;
      ids := new bool[concurrency](_ => false);
      holders, running := map[], map[];
      new;
      assert ids[..] == Start(concurrency).ids;
    }

    /** The semaphore lets a request through. */
    method AcquireOwned(r: Request)
      requires Enabled(Current(), Step.Acquire(r))
      modifies this`sem, this`holders
      ensures Current() == Next(old(Current()), Step.Acquire(r))
    {
      sem := sem - 1;
      holders := holders[r := HasSemaphore];
    }

    /** The request takes its id; without one it fails and gives its permit back. */
    method TakeId(r: Request) returns (id: Option<nat>)
      requires Enabled(Current(), AssignId(r))
      modifies this, ids
      ensures ids == old(ids) && Current() == Next(old(Current()), AssignId(r))
      ensures id == FirstFree(old(Current()).ids)
      ensures id.Some? ==> r in holders && holders[r] == HasId(id.value, false)
    {
      id := AssignSlot();
      if id.None? {
        holders := holders - {r};
        sem := sem + 1;
      } else {
        holders := holders[r := HasId(id.value, false)];
      }
    }

    /** The permit is dropped, at the end of the request or when it is cancelled; its
        semaphore permit goes only after this. */
    method DropPermit(r: Request, id: nat)
      requires OwnsId(Current(), r) && holders[r].id == id
      modifies this`holders, ids
      ensures ids == old(ids) && Current() == DropBody(old(Current()), r)
    {
      ClearSlot(id);
      holders := holders[r := IdCleared];
    }

    method ReleasePermit(r: Request)
      requires Enabled(Current(), Release(r))
      modifies this`sem, this`holders
      ensures Current() == Next(old(Current()), Release(r))
    {
      sem := sem + 1;
      holders := holders - {r};
    }

    /** A request on its own, up to its build: it always finds an id. */
    method Acquire(r: Request, ghost concurrency: nat) returns (id: nat)
      requires Inv(Current(), concurrency) && Enabled(Current(), Step.Acquire(r))
      modifies this, ids
      ensures ids == old(ids) && Inv(Current(), concurrency)
      ensures r in holders && holders[r] == HasId(id, false)
    {
      hide Inv, FirstFree;
      StepKeeps(Current(), concurrency, Step.Acquire(r));
      AcquireOwned(r);
      StepKeeps(Current(), concurrency, AssignId(r));
      IdAlwaysFound(Current(), concurrency, r);
      var found := TakeId(r);
      id := found.value;
    }

    /** Find the first free id and mark it; `None` stands for the error. */
    method AssignSlot() returns (id: Option<nat>)
      modifies ids
      ensures id == FirstFree(old(ids[..]))
      ensures ids[..] == if id.Some? then old(ids[..])[id.value := true] else old(ids[..])
    {
      var i := 0;
      while i < ids.Length && ids[i]
        invariant 0 <= i <= ids.Length
        invariant FirstFree(ids[..]) == FirstFreeFrom(ids[..], i)
      {
        i := i + 1;
      }
      if i == ids.Length {
        return None;
      }
      id := Some(i);
      ids[i] := true;
    }

    /** The destructor's body. */
    method ClearSlot(id: nat)
      requires id < ids.Length
      modifies ids
      ensures ids[..] == old(ids[..])[id := false]
    {
      ids[id] := false;
    }
  }
}
