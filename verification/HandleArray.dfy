/** Passing arrays of JavaScript values through linear memory as arrays of handles. */
module HandleArray {
  import opened Basics
  import opened SlabHeap
  import opened LinearMemory

  const WORD_LIMIT: nat := 0x1_0000_0000

  type Word = w: nat | w < WORD_LIMIT

  /** What a store into a `Uint32Array` keeps of a number. */
  function ToUint32(n: nat): (w: Word)
    ensures n < WORD_LIMIT ==> w == n
  {
    n % WORD_LIMIT
  }

  ghost function Elements(hs: seq<nat>): set<nat> {
    set h | h in hs
  }

  /** Everything the block of handles owes its reader. */
  ghost predicate Bound(before: map<nat, Value>, hs: seq<nat>, vs: seq<Value>, now: map<nat, Value>) {
    && Distinct(hs) && Elements(hs) !! before.Keys
    && (forall h | h in hs :: h >= RESERVED)
    && |hs| == |vs| && now == Bind(before, hs, vs)
  }

  /** Bind each handle to the value at its position. */
  ghost function Bind(m: map<nat, Value>, hs: seq<nat>, vs: seq<Value>): map<nat, Value>
    requires |hs| == |vs|
  {
    if hs == [] then m
    else var last := |hs| - 1; Bind(m, hs[..last], vs[..last])[hs[last] := vs[last]]
  }

  /** Fresh distinct handles can be looked up one by one, and releasing them all
      gives back the original bindings. */
  lemma {:induction false} BindUndone(m: map<nat, Value>, hs: seq<nat>, vs: seq<Value>)
    requires |hs| == |vs| && Distinct(hs) && Elements(hs) !! m.Keys
    ensures Bind(m, hs, vs).Keys == m.Keys + Elements(hs)
    ensures forall i | 0 <= i < |hs| :: Bind(m, hs, vs)[hs[i]] == vs[i]
    ensures Bind(m, hs, vs) - Elements(hs) == m
  {
    if hs != [] {
      var last := |hs| - 1;
      assert Elements(hs) == Elements(hs[..last]) + {hs[last]};
      BindUndone(m, hs[..last], vs[..last]);
      forall i | 0 <= i < |hs| ensures Bind(m, hs, vs)[hs[i]] == vs[i] {
        if i < last { assert hs[..last][i] == hs[i]; }
      }
      forall k | k in m
        ensures (Bind(m, hs, vs) - Elements(hs))[k] == m[k]
      {
        assert (Bind(m, hs[..last], vs[..last]) - Elements(hs[..last]))[k] == m[k];
      }
    }
  }

  lemma BindNext(m: map<nat, Value>, hs: seq<nat>, vs: seq<Value>, h: nat, v: Value)
    requires |hs| == |vs| && Distinct(hs) && Elements(hs) !! m.Keys
    requires h !in Bind(m, hs, vs)
    ensures Distinct(hs + [h]) && Elements(hs + [h]) !! m.Keys
    ensures Bind(m, hs + [h], vs + [v]) == Bind(m, hs, vs)[h := v]
  {
    BindUndone(m, hs, vs);
    assert (hs + [h])[..|hs|] == hs && (vs + [v])[..|hs|] == vs;
    assert forall x | x in hs :: x in Elements(hs);
  }

  lemma SliceExtended(data: seq<Word>, ptr: nat, i: nat, w: Word)
    requires ptr + i < |data|
    ensures data[ptr + i := w][ptr..ptr + i + 1] == data[ptr..ptr + i] + [w]
  {
  }

  /** One turn of the loop below: `handles` already fill the block from `ptr`. */
  method PassOne(slab: Slab, mem: Memory<Word>, ptr: nat, ghost before: map<nat, Value>,
                 ghost handles: seq<nat>, ghost passed: seq<Value>, at: nat, value: Value)
    returns (handle: nat)
    requires slab.Valid() && mem.Valid() && |slab.heap| < WORD_LIMIT
    requires at == ptr + |handles| < |mem.data| && mem.data[ptr..at] == handles
    requires Bound(before, handles, passed, slab.Handles())
    modifies slab, mem`data
    ensures slab.Valid() && mem.Valid()
    ensures |slab.heap| <= |old(slab.heap)| + 1
    ensures mem.data == old(mem.data)[at := ToUint32(handle)]
    ensures mem.data[ptr..at + 1] == handles + [handle]
    ensures Bound(before, handles + [handle], passed + [value], slab.Handles())
  {
    hide Inv, Live, Distinct, Bind, Elements;
    handle := slab.AddHeapObject(value);
    BindNext(before, handles, passed, handle, value);
    mem.Store(at, ToUint32(handle));
    SliceExtended(old(mem.data), ptr, |handles|, handle);
  }

  lemma NothingBound(before: map<nat, Value>)
    ensures Bound(before, [], [], before)
  {
  }

  lemma BlockApart(ptr: nat, length: nat, used: set<nat>)
    requires Block(ptr, length) !! used
    ensures forall a | ptr <= a < ptr + length :: a !in used
  {
    forall a | ptr <= a < ptr + length ensures a !in used {
      assert a in Block(ptr, length);
    }
  }

  /** Write a handle for each value into a new block of words. */
  method PassArrayJsValueToWasm0(slab: Slab, mem: Memory<Word>, values: seq<Value>)
    returns (ptr: nat, vectorLen: nat)
    requires slab.Valid() && mem.Valid()
    requires |slab.heap| + |values| <= WORD_LIMIT
    modifies slab, mem
    ensures slab.Valid() && mem.Valid()
    ensures vectorLen == |values| && ptr + vectorLen <= |mem.data|
    ensures mem.used == old(mem.used) + Block(ptr, vectorLen) && Block(ptr, vectorLen) !! old(mem.used)
    ensures mem.Preserved(old(mem.used))
    ensures Bound(old(slab.Handles()), mem.data[ptr..ptr + vectorLen], values, slab.Handles())
  {
    ghost var before := slab.Handles();
    NothingBound(before);
    hide Inv, Live, Bound;
    ptr := mem.Malloc(|values|);
    BlockApart(ptr, |values|, old(mem.used));
    hide Block, Same;
    ghost var hs: seq<nat> := [];
    var i := 0;
    while i < |values|
      invariant 0 <= i <= |values| && |hs| == i
      invariant slab.Valid() && mem.Valid()
      invariant |slab.heap| <= old(|slab.heap|) + i
      invariant ptr + |values| <= |mem.data|
      invariant mem.used == old(mem.used) + Block(ptr, |values|)
      invariant mem.Preserved(old(mem.used))
      invariant mem.data[ptr..ptr + i] == hs
      invariant Bound(before, hs, values[..i], slab.Handles())
    {
      ghost var was := mem.data;
      var handle := PassOne(slab, mem, ptr, before, hs, values[..i], ptr + i, values[i]);
      SameStored(old(mem.used), old(mem.data), was, ptr + i, ToUint32(handle));
      assert values[..i + 1] == values[..i] + [values[i]];
      hs := hs + [handle];
      i := i + 1;
    }
    vectorLen := |values|;
    assert values[..i] == values;
  }

  lemma NextElement(hs: seq<nat>, i: nat)
    requires Distinct(hs) && i < |hs|
    ensures hs[i] !in Elements(hs[..i])
    ensures Elements(hs[..i + 1]) == Elements(hs[..i]) + {hs[i]}
  {
  }

  /** Read the handles of a block and give up each of them. */
  method GetArrayJsValueFromWasm0(slab: Slab, mem: Memory<Word>, ptr: nat, len: nat)
    returns (result: seq<Value>)
    requires slab.Valid() && mem.Valid() && ptr + len <= |mem.data|
    requires Distinct(mem.data[ptr..ptr + len])
    requires forall h | h in mem.data[ptr..ptr + len] :: h in slab.Handles()
    modifies slab
    ensures slab.Valid() && |result| == len
    ensures forall i | 0 <= i < len :: result[i] == old(slab.Handles())[mem.data[ptr + i]]
    ensures slab.Handles() == old(slab.Handles()) - Elements(mem.data[ptr..ptr + len])
  {
    var slice: seq<nat> := mem.data[ptr..ptr + len];
    assert Distinct(slice);
    NothingTaken(slab.Handles(), slice);
    hide Taken, Distinct, Elements, Inv, Live;
    result := [];
    var i := 0;
    while i < |slice|
      invariant 0 <= i <= |slice| == len
      invariant slab.Valid() && |result| == i
      invariant Taken(old(slab.Handles()), slice, i, slab.Handles(), result)
    {
      var value := TakeOne(slab, old(slab.Handles()), slice, i, result);
      result := result + [value];
      i := i + 1;
    }
    AllTaken(old(slab.Handles()), slice, slab.Handles(), result);
  }

  /** The first `i` handles have been given up for their values. */
  ghost predicate Taken(before: map<nat, Value>, slice: seq<nat>, i: nat, now: map<nat, Value>, result: seq<Value>) {
    && i <= |slice| && |result| == i && (forall h | h in slice :: h in before)
    && (forall k | 0 <= k < i :: result[k] == before[slice[k]])
    && now == before - Elements(slice[..i])
  }

  lemma NothingTaken(before: map<nat, Value>, slice: seq<nat>)
    requires forall h | h in slice :: h in before
    ensures Taken(before, slice, 0, before, [])
  {
    assert before - Elements([]) == before;
  }

  lemma AllTaken(before: map<nat, Value>, slice: seq<nat>, now: map<nat, Value>, result: seq<Value>)
    requires Taken(before, slice, |slice|, now, result)
    ensures now == before - Elements(slice) && forall k | 0 <= k < |slice| :: result[k] == before[slice[k]]
  {
    assert slice[..|slice|] == slice;
  }

  lemma TakenHandle(before: map<nat, Value>, slice: seq<nat>, i: nat, now: map<nat, Value>, result: seq<Value>)
    requires Distinct(slice) && i < |slice| && Taken(before, slice, i, now, result)
    ensures slice[i] in now && now[slice[i]] == before[slice[i]]
    ensures Taken(before, slice, i + 1, now - {slice[i]}, result + [before[slice[i]]])
  {
    NextElement(slice, i);
    assert slice[i] in slice;
  }

  /** One turn of the loop. */
  method TakeOne(slab: Slab, ghost before: map<nat, Value>, slice: seq<nat>, i: nat, ghost result: seq<Value>)
    returns (value: Value)
    requires slab.Valid() && Distinct(slice) && i < |slice| && Taken(before, slice, i, slab.Handles(), result)
    modifies slab
    ensures slab.Valid() && Taken(before, slice, i + 1, slab.Handles(), result + [value])
  {
    TakenHandle(before, slice, i, slab.Handles(), result);
    HandlesAbove(slab);
    hide Taken, Distinct, Elements, Inv, Live;
    value := slab.TakeObject(slice[i]);
  }

  lemma HandlesAbove(slab: Slab)
    requires slab.Valid()
    ensures forall h | h in slab.Handles() :: h >= RESERVED
  {
  }

  /** What goes out comes back: the same values in order, and every other handle as before. */
  method PassAndTakeBack(slab: Slab, mem: Memory<Word>, values: seq<Value>) returns (back: seq<Value>)
    requires slab.Valid() && mem.Valid()
    requires |slab.heap| + |values| <= WORD_LIMIT
    modifies slab, mem
    ensures slab.Valid() && mem.Valid()
    ensures back == values
    ensures slab.Handles() == old(slab.Handles())
  {
    var ptr, len := PassArrayJsValueToWasm0(slab, mem, values);
    BindUndone(old(slab.Handles()), mem.data[ptr..ptr + len], values);
    back := GetArrayJsValueFromWasm0(slab, mem, ptr, len);
  }
}
