/** The object table of the wasm glue. */
module SlabHeap {
  // One growable array holds both the live JavaScript values and, threaded through its
  // free cells, the list of indices that can be handed out again.

  import opened Basics

  /** A JavaScript value. A free cell holds an ordinary number: nothing marks it as a link. */
  datatype Value =
    | Undefined
    | Null
    | Boolean(b: bool)
    | Number(n: nat)
    | Foreign(id: nat)

  /** Indices below this one hold constants and are never recycled. */
  const RESERVED: nat := 36

  datatype State = State(cells: seq<Value>, next: nat)

  /** Thirty-two times `undefined`, then the four constants. */
  const CONSTANTS := Grown([], 32) + [Undefined, Null, Boolean(true), Boolean(false)]

  lemma ConstantsExact()
    ensures |CONSTANTS| == 36 && (forall i | 0 <= i <= 32 :: CONSTANTS[i] == Undefined)
    ensures CONSTANTS[33] == Null && CONSTANTS[34] == Boolean(true) && CONSTANTS[35] == Boolean(false)
  {
    hide Grown;
    var few := Grown([], 32);
    var last := [Undefined, Null, Boolean(true), Boolean(false)];
    assert forall i | 0 <= i < 4 :: CONSTANTS[32 + i] == last[i];
  }

  const INIT := State(CONSTANTS, RESERVED)

  /** The head of the free list can be followed. */
  predicate Linked(s: State) {
    s.next <= |s.cells| && (s.next < |s.cells| ==> s.cells[s.next].Number?)
  }

  /** Store `v` in the first free cell, growing the array when there is none. */
  function Add(s: State, v: Value): (r: (State, nat))
    requires Linked(s)
  {
    var cells := if s.next == |s.cells| then s.cells + [Number(|s.cells| + 1)] else s.cells;
    (State(cells[s.next := v], cells[s.next].n), s.next)
  }

  /** Assigning past the end of a JavaScript array fills the gap with `undefined`. */
  function Grown(cells: seq<Value>, length: nat): (r: seq<Value>)
    ensures |r| == if |cells| < length then length else |cells|
    ensures forall i | 0 <= i < |cells| :: r[i] == cells[i]
    ensures forall i | |cells| <= i < |r| :: r[i] == Undefined
  {
    if |cells| < length then cells + seq(length - |cells|, _ => Undefined) else cells
  }

  function Drop(s: State, idx: nat): State {
    if idx < RESERVED then s
    else State(Grown(s.cells, idx + 1)[idx := Number(s.next)], idx)
  }

  // ----- The free list -----

  /** The index at position `i` of the free list, or the end marker. */
  ghost function Following(s: State, free: seq<nat>, i: nat): nat {
    if i < |free| then free[i] else |s.cells|
  }

  /** The free cell at position `i` of the list points at the next one. */
  ghost predicate Link(s: State, free: seq<nat>, i: nat)
    requires i < |free|
  {
    free[i] < |s.cells| && s.cells[free[i]] == Number(Following(s, free, i + 1))
  }

  ghost predicate Chain(s: State, free: seq<nat>) {
    && s.next == Following(s, free, 0)
    && (forall i | 0 <= i < |free| :: RESERVED <= free[i] < |s.cells|)
    && (forall i | 0 <= i < |free| :: Link(s, free, i))
  }

  /** `free` lists the recyclable cells in the order in which `Add` will hand them
      out: the links run through it, never revisit a cell, and end exactly at the
      length of the array. */
  ghost predicate Inv(s: State, free: seq<nat>) {
    && |s.cells| >= RESERVED
    && s.cells[..RESERVED] == CONSTANTS
    && Chain(s, free)
    && Distinct(free)
  }

  /** What the table means to its clients: the live handles and their objects. */
  ghost function Live(s: State, free: seq<nat>): map<nat, Value> {
    map i: nat | RESERVED <= i < |s.cells| && i !in free :: s.cells[i]
  }

  /** The state determines its free list, so `Inv` leaves no freedom. */
  lemma FreeListUnique(s: State, f: seq<nat>, g: seq<nat>)
    requires Inv(s, f) && Inv(s, g)
    ensures f == g
  {
    if |f| <= |g| {
      SamePrefix(s, f, g, |f|);
    } else {
      SamePrefix(s, f, g, |g|);
    }
  }

  lemma {:induction false} SamePrefix(s: State, f: seq<nat>, g: seq<nat>, n: nat)
    requires Chain(s, f) && Chain(s, g) && n <= |f| && n <= |g|
    ensures f[..n] == g[..n] && Following(s, f, n) == Following(s, g, n)
  {
    if n > 0 {
      SamePrefix(s, f, g, n - 1);
      assert Link(s, f, n - 1) && Link(s, g, n - 1);
      assert f[..n] == f[..n - 1] + [f[n - 1]] && g[..n] == g[..n - 1] + [g[n - 1]];
    }
  }

  /** The free list once its first cell has been handed out. */
  ghost function Popped(free: seq<nat>): seq<nat> {
    if free == [] then [] else free[1..]
  }

  /** `Add` returns a handle that was not live, keeps the table in order, and grows
      the array exactly when no cell was free. */
  lemma AddKeeps(s: State, free: seq<nat>, v: Value)
    requires Inv(s, free)
    ensures Linked(s)
    ensures var (s', idx) := Add(s, v);
            && Inv(s', Popped(free))
            && RESERVED <= idx < |s'.cells| && idx !in Live(s, free)
            && |s'.cells| == if free == [] then |s.cells| + 1 else |s.cells|
  {
    assert free != [] ==> Link(s, free, 0);
    var s' := Add(s, v).0;
    var free' := Popped(free);
    forall i | 0 <= i < |free'| ensures Link(s', free', i) {
      assert free'[i] == free[i + 1] != free[0] && Link(s, free, i + 1);
    }
    assert s'.cells[..RESERVED] == s.cells[..RESERVED];
  }

  /** `Add` binds the new handle and disturbs no other. */
  lemma AddBinds(s: State, free: seq<nat>, v: Value)
    requires Inv(s, free) && Linked(s)
    ensures var (s', idx) := Add(s, v); Live(s', Popped(free)) == Live(s, free)[idx := v]
  {
    var (s', idx) := Add(s, v);
    assert idx == Following(s, free, 0);
    hide Chain;
    assert free != [] ==> free == [free[0]] + Popped(free);
  }

  /** Dropping a live handle removes it and nothing else. */
  lemma DropKeeps(s: State, free: seq<nat>, idx: nat)
    requires Inv(s, free) && idx in Live(s, free)
    ensures Inv(Drop(s, idx), [idx] + free)
    ensures Live(Drop(s, idx), [idx] + free) == Live(s, free) - {idx}
    ensures |Drop(s, idx).cells| == |s.cells|
  {
    var s' := Drop(s, idx);
    var free' := [idx] + free;
    assert s'.cells[..RESERVED] == s.cells[..RESERVED];
    forall i | 0 <= i < |free'| ensures Link(s', free', i) {
      if i > 0 {
        assert free'[i] == free[i - 1] && Link(s, free, i - 1);
      }
    }
  }

  /** Dropping is harmless exactly for reserved and for live handles: dropping a
      handle twice, or one never handed out, breaks the free list for good. */
  lemma DropSafeIff(s: State, free: seq<nat>, idx: nat)
    requires Inv(s, free)
    ensures (exists free' :: Inv(Drop(s, idx), free')) <==> idx < RESERVED || idx in Live(s, free)
  {
    if idx < RESERVED {
      assert Inv(Drop(s, idx), free);
    } else if idx in Live(s, free) {
      DropKeeps(s, free, idx);
    } else {
      forall free' ensures !Inv(Drop(s, idx), free') {
        UnsafeDrop(s, free, idx, free');
      }
    }
  }

  lemma UnsafeDrop(s: State, free: seq<nat>, idx: nat, free': seq<nat>)
    requires Inv(s, free) && idx >= RESERVED && idx !in Live(s, free)
    ensures !(Chain(Drop(s, idx), free') && Distinct(free'))
  {
    var s' := Drop(s, idx);
    assert |s.cells| < idx ==> s'.cells[|s.cells|] == Undefined;
    if Chain(s', free') {
      if idx in free {
        var k :| 0 <= k < |free| && free[k] == idx;
        assert idx !in free[..k];
        ShiftedPrefix(s, free, idx, free', k);
        assert Following(s', free', k + 1) == idx == free'[0];
      } else {
        ShiftedPrefix(s, free, idx, free', |free|);
        assert Following(s', free', |free| + 1) == |s.cells|;
        LinksAreNumbers(s', free', |free| + 1);
      }
    }
  }

  lemma LinksAreNumbers(s: State, free: seq<nat>, i: nat)
    requires Chain(s, free) && i < |free|
    ensures s.cells[free[i]].Number?
  {
    assert Link(s, free, i);
  }

  /** After a drop the new list follows the old one, one position later. */
  lemma {:induction false} ShiftedPrefix(s: State, free: seq<nat>, idx: nat, free': seq<nat>, k: nat)
    requires Chain(s, free) && idx >= RESERVED && Chain(Drop(s, idx), free') && k <= |free|
    requires idx !in free[..k]
    ensures |free'| > k && free'[0] == idx
    ensures Following(Drop(s, idx), free', k + 1) == Following(s, free, k)
  {
    var s' := Drop(s, idx);
    if k == 0 {
      assert Link(s', free', 0);
    } else {
      assert free[..k] == free[..k - 1] + [free[k - 1]];
      ShiftedPrefix(s, free, idx, free', k - 1);
      assert Link(s, free, k - 1);
      assert free'[k] == free[k - 1] != idx;
      assert Link(s', free', k);
    }
  }

  // ----- Whole runs -----

  datatype Op = AddOp(v: Value) | TakeOp(idx: nat)

  /** A run seen by its clients: which handles they own, and the most they ever owned at once. */
  datatype Run = Run(s: State, live: map<nat, Value>, peak: nat)

  ghost predicate Allowed(r: Run, op: Op) {
    op.TakeOp? ==> op.idx < RESERVED || op.idx in r.live
  }

  ghost function Step(r: Run, op: Op): Run
    requires Linked(r.s)
  {
    match op
    case AddOp(v) =>
      var (s', idx) := Add(r.s, v);
      var live' := r.live[idx := v];
      Run(s', live', Max(r.peak, |live'|))
    case TakeOp(idx) => Run(Drop(r.s, idx), r.live - {idx}, r.peak)
  }

  /** `ops` runs from the initial table, taking only reserved or live handles, and ends in `r`. */
  ghost predicate Reaches(ops: seq<Op>, r: Run) {
    if ops == [] then r == Run(INIT, map[], 0)
    else
      var last := |ops| - 1;
      exists q :: Reaches(ops[..last], q) && Allowed(q, ops[last]) && Linked(q.s) && Step(q, ops[last]) == r
  }

  ghost predicate RunInv(r: Run, free: seq<nat>) {
    && Inv(r.s, free)
    && r.live == Live(r.s, free)
    && |r.s.cells| == RESERVED + r.peak
    && |r.live| + |free| == r.peak
  }

  /** Every run keeps an acyclic free list, agrees with the clients' view of their
      handles, and has grown the array to exactly the peak number of live handles. */
  lemma {:induction false} RunsSafe(ops: seq<Op>, r: Run)
    requires Reaches(ops, r)
    ensures exists free :: RunInv(r, free)
  {
    if ops == [] {
      assert RunInv(r, []);
    } else {
      var last := |ops| - 1;
      var q :| Reaches(ops[..last], q) && Allowed(q, ops[last]) && Linked(q.s) && Step(q, ops[last]) == r;
      RunsSafe(ops[..last], q);
      var before :| RunInv(q, before);
      var free := StepSafe(q, ops[last], before);
    }
  }

  lemma BindingAdded(m: map<nat, Value>, k: nat, v: Value)
    requires k !in m
    ensures |m[k := v]| == |m| + 1
  {
    assert m[k := v].Keys == m.Keys + {k};
    assert |m[k := v].Keys| == |m.Keys| + 1;
  }

  lemma BindingDropped(m: map<nat, Value>, k: nat)
    requires k in m
    ensures |m - {k}| == |m| - 1
  {
    assert (m - {k}).Keys == m.Keys - {k};
    assert |(m - {k}).Keys| == |m.Keys| - 1;
  }

  lemma StepSafe(q: Run, op: Op, before: seq<nat>) returns (free: seq<nat>)
    requires RunInv(q, before) && Allowed(q, op) && Linked(q.s)
    ensures RunInv(Step(q, op), free)
  {
    match op
    case AddOp(v) => AddStep(q, v, before); free := Popped(before);
    case TakeOp(idx) => free := TakeStep(q, idx, before);
  }

  lemma AddStep(q: Run, v: Value, before: seq<nat>)
    requires RunInv(q, before) && Linked(q.s)
    ensures RunInv(Step(q, AddOp(v)), Popped(before))
  {
    AddKeeps(q.s, before, v);
    AddBinds(q.s, before, v);
    hide Inv, Live, Add;
    BindingAdded(q.live, Add(q.s, v).1, v);
  }

  lemma TakeStep(q: Run, idx: nat, before: seq<nat>) returns (free: seq<nat>)
    requires RunInv(q, before) && Allowed(q, TakeOp(idx)) && Linked(q.s)
    ensures RunInv(Step(q, TakeOp(idx)), free)
  {
    if idx < RESERVED {
      free := before;
      assert q.live - {idx} == q.live;
    } else {
      free := [idx] + before;
      DropKeeps(q.s, before, idx);
      hide Inv, Live, Drop;
      BindingDropped(q.live, idx);
    }
  }

  /** A second drop of the same handle is not merely untidy: the next two stores share it. */
  lemma DoubleDropAliases(u: Value, v: Value, w: Value)
    ensures var (s1, h) := Add(INIT, u);
            var s2 := Drop(Drop(s1, h), h);
            && Linked(s2)
            && var (s3, h3) := Add(s2, v);
            && s3.next == h == h3
  {
  }

  // ----- The table itself -----

  class Slab {
    var heap: seq<Value>
    var heapNext: nat
    ghost var free: seq<nat>

    ghost predicate Valid()
      reads this
    {
      Inv(State(heap, heapNext), free)
    }

    ghost function Handles(): map<nat, Value>
      reads this
    {
      Live(State(heap, heapNext), free)
    }

    constructor ()
      ensures Valid() && Handles() == map[] && |heap| == RESERVED
    {
      heap, heapNext, free := CONSTANTS, RESERVED, [];
    }

    method GetObject(idx: nat) returns (v: Value)
      requires Valid()
      ensures idx in Handles() ==> v == Handles()[idx]
      ensures idx < RESERVED ==> v == CONSTANTS[idx]
      ensures idx >= |heap| ==> v == Undefined
    {
      v := if idx < |heap| then heap[idx] else Undefined;
      assert heap[..RESERVED] == CONSTANTS;
    }

    method AddHeapObject(obj: Value) returns (idx: nat)
      requires Valid()
      modifies this
      ensures Valid()
      ensures RESERVED <= idx < |heap| && idx !in old(Handles()) && Handles() == old(Handles())[idx := obj]
      ensures |heap| == |old(heap)| + (if old(free) == [] then 1 else 0)
      ensures |free| == if old(free) == [] then 0 else |old(free)| - 1
    {
      AddKeeps(State(heap, heapNext), free, obj);
      AddBinds(State(heap, heapNext), free, obj);
      hide Inv, Live;
      if heapNext == |heap| {
        heap := heap + [Number(|heap| + 1)];
      }
      idx := heapNext;
      heapNext := heap[idx].n;
      heap := heap[idx := obj];
      free := Popped(free);
    }

    method DropObject(idx: nat)
      requires Valid() && (idx < RESERVED || idx in Handles())
      modifies this
      ensures Valid() && |heap| == |old(heap)|
      ensures Handles() == old(Handles()) - {idx}
      ensures free == if idx < RESERVED then old(free) else [idx] + old(free)
    {
      if idx < RESERVED {
        return;
      }
      DropKeeps(State(heap, heapNext), free, idx);
      heap := heap[idx := Number(heapNext)];
      heapNext := idx;
      free := [idx] + free;
    }

    method TakeObject(idx: nat) returns (ret: Value)
      requires Valid() && (idx < RESERVED || idx in Handles())
      modifies this
      ensures Valid() && |heap| == |old(heap)|
      ensures ret == if idx < RESERVED then CONSTANTS[idx] else old(Handles())[idx]
      ensures Handles() == old(Handles()) - {idx}
      ensures free == if idx < RESERVED then old(free) else [idx] + old(free)
    {
      ret := GetObject(idx);
      DropObject(idx);
    }
  }
}
