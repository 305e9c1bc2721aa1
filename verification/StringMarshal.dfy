/** Copying a JavaScript string into linear memory. */
module StringMarshal {
  import opened Wrappers
  import opened Utf8
  import opened LinearMemory

  /** Leaves exactly the UTF-8 bytes of `arg` at `ptr`, whichever of the three ways
      is taken: encoding at once when no `realloc` is given, or the ASCII loop with
      either encoder for the remainder. `capacity` is the size of the block. */
  method PassStringToWasm0(arg: seq<Unit>, mem: Memory<Byte>, canRealloc: bool, hasEncodeInto: bool)
    returns (ptr: nat, vectorLen: nat, ghost capacity: nat)
    requires mem.Valid()
    modifies mem
    ensures mem.Valid() && ptr + capacity <= |mem.data|
    ensures mem.used == old(mem.used) + Block(ptr, capacity) && Block(ptr, capacity) !! old(mem.used)
    ensures mem.Preserved(old(mem.used))
    ensures vectorLen == |Bytes(arg)| <= capacity
    ensures mem.data[ptr..ptr + vectorLen] == Bytes(arg)
  {
    assert Bytes([]) == [];
    hide Scalars, Encode;
    if !canRealloc {
      var buf := Bytes(arg);
      ptr := mem.Malloc(|buf|);
      mem.StoreAll(ptr, buf);
      return ptr, |buf|, |buf|;
    }

    ptr := mem.Malloc(|arg|);
    var offset := CopyAscii(arg, mem, ptr);
    capacity := |arg|;
    AsciiPrefix(arg[..offset], arg[offset..]);
    assert arg == arg[..offset] + arg[offset..];
    if offset != |arg| {
      ptr, offset, capacity := EncodeRest(arg, mem, ptr, offset, hasEncodeInto);
    } else {
      assert arg[offset..] == [];
    }
    vectorLen := offset;
  }

  /** The slow path: make room for the worst case and encode what follows the prefix. */
  method EncodeRest(arg: seq<Unit>, mem: Memory<Byte>, ptr: nat, offset: nat, hasEncodeInto: bool)
    returns (newPtr: nat, end: nat, ghost len: nat)
    requires mem.Valid() && offset <= |arg|
    requires Block(ptr, |arg|) <= mem.used && ptr + |arg| <= |mem.data|
    modifies mem
    ensures mem.Valid() && end <= len && newPtr + len <= |mem.data|
    ensures mem.used == old(mem.used) - Block(ptr, |arg|) + Block(newPtr, len)
    ensures Block(newPtr, len) !! old(mem.used) - Block(ptr, |arg|)
    ensures mem.Preserved(old(mem.used) - Block(ptr, |arg|))
    ensures end == offset + |Bytes(arg[offset..])|
    ensures mem.data[newPtr..newPtr + end] == old(mem.data)[ptr..ptr + offset] + Bytes(arg[offset..])
  {
    hide Scalars, Encode;
    var rest := arg[offset..];
    AtMostThreeBytesAUnit(rest);
    ghost var prefix := mem.data[ptr..ptr + offset];
    len := offset + |rest| * 3;
    newPtr := MakeRoom(mem, ptr, |arg|, offset, offset + |rest| * 3);
    var written := EncodeString(rest, |rest| * 3, hasEncodeInto);
    end := offset + |written|;
    ghost var before := mem.data;
    mem.StoreAll(newPtr + offset, written);
    SliceKept(before, mem.data, newPtr, offset);
    TwoSlices(mem.data, newPtr, prefix, written);
  }

  /** Move the block to a larger one; the prefix goes with it. */
  method MakeRoom(mem: Memory<Byte>, ptr: nat, length: nat, offset: nat, newLength: nat) returns (newPtr: nat)
    requires mem.Valid() && Block(ptr, length) <= mem.used && ptr + length <= |mem.data|
    requires offset <= length && offset <= newLength
    modifies mem
    ensures mem.Valid() && Block(newPtr, newLength) !! old(mem.used) - Block(ptr, length)
    ensures mem.used == old(mem.used) - Block(ptr, length) + Block(newPtr, newLength)
    ensures newPtr + newLength <= |mem.data|
    ensures mem.Preserved(old(mem.used) - Block(ptr, length))
    ensures mem.data[newPtr..newPtr + offset] == old(mem.data)[ptr..ptr + offset]
  {
    newPtr := mem.Realloc(ptr, length, newLength);
    var kept := Min(length, newLength);
    SlicePrefix(mem.data, newPtr, kept, offset);
    SlicePrefix(old(mem.data), ptr, kept, offset);
  }

  lemma SlicePrefix(data: seq<Byte>, at: nat, length: nat, n: nat)
    requires n <= length && at + length <= |data|
    ensures data[at..at + length][..n] == data[at..at + n]
  {
  }

  lemma SliceKept(before: seq<Byte>, after: seq<Byte>, at: nat, n: nat)
    requires at + n <= |before| == |after| && forall a | at <= a < at + n :: after[a] == before[a]
    ensures after[at..at + n] == before[at..at + n]
  {
  }

  lemma TwoSlices(data: seq<Byte>, at: nat, a: seq<Byte>, b: seq<Byte>)
    requires at + |a| + |b| <= |data| && data[at..at + |a|] == a && data[at + |a|..at + |a| + |b|] == b
    ensures data[at..at + |a| + |b|] == a + b
  {
    assert data[at..at + |a| + |b|] == data[at..at + |a|] + data[at + |a|..at + |a| + |b|];
  }

  /** The fast path: copy code units until one is not ASCII. */
  method CopyAscii(arg: seq<Unit>, mem: Memory<Byte>, ptr: nat) returns (offset: nat)
    requires mem.Valid() && ptr + |arg| <= |mem.data|
    modifies mem`data
    ensures mem.Valid() && |mem.data| == old(|mem.data|)
    ensures forall a | 0 <= a < |mem.data| && !Within(a, ptr, |arg|) :: mem.data[a] == old(mem.data)[a]
    ensures offset <= |arg| && Ascii(arg[..offset])
    ensures offset < |arg| ==> arg[offset] >= 0x80
    ensures mem.data[ptr..ptr + offset] == arg[..offset]
  {
    offset := 0;
    while offset < |arg| && arg[offset] <= 0x7F
      invariant 0 <= offset <= |arg|
      invariant mem.Valid() && |mem.data| == old(|mem.data|)
      invariant forall a | 0 <= a < |mem.data| && !Within(a, ptr, |arg|) :: mem.data[a] == old(mem.data)[a]
      invariant Ascii(arg[..offset])
      invariant forall i | 0 <= i < offset :: mem.data[ptr + i] == arg[i]
    {
      mem.Store(ptr + offset, arg[offset]);
      offset := offset + 1;
    }
  }

  /** The bytes that either encoder writes into a view of `room` bytes. */
  method EncodeString(rest: seq<Unit>, room: nat, hasEncodeInto: bool) returns (written: seq<Byte>)
    requires |Bytes(rest)| <= room
    ensures written == Bytes(rest)
  {
    if hasEncodeInto {
      EncodeIntoComplete(rest, room);
      written := EncodeInto(rest, room).1;
    } else {
      written := Bytes(rest);
    }
  }

  /** Read a string; `None` stands for the error a fatal decoder throws. */
  method GetStringFromWasm0(mem: Memory<Byte>, ptr: nat, len: nat) returns (text: Option<seq<Unit>>)
    requires ptr + len <= |mem.data|
    ensures text == None <==> forall cs :: Encode(cs) != mem.data[ptr..ptr + len]
    ensures forall cs | Encode(cs) == mem.data[ptr..ptr + len] :: text == Some(ToUnits(cs))
  {
    var block := mem.data[ptr..ptr + len];
    text := DecodeText(block);
    if Decode(block).Some? {
      EncodeDecode(block);
    }
    forall cs | Encode(cs) == block ensures Decode(block) == Some(cs) {
      DecodeEncode(cs);
    }
  }

  /** A string passed to the wasm side and read back: the same one, unless it has a
      surrogate without its partner. */
  method PassAndReadBack(arg: seq<Unit>, mem: Memory<Byte>, canRealloc: bool, hasEncodeInto: bool)
    returns (text: Option<seq<Unit>>)
    requires mem.Valid()
    modifies mem
    ensures mem.Valid() && mem.Preserved(old(mem.used))
    ensures text.Some? && |text.value| == |arg|
    ensures text == Some(arg) <==> WellFormed(arg)
    ensures forall i | 0 <= i < |arg| :: text.value[i] == if Lone(arg, i) then 0xFFFD else arg[i]
  {
    var ptr, vectorLen, _ := PassStringToWasm0(arg, mem, canRealloc, hasEncodeInto);
    text := GetStringFromWasm0(mem, ptr, vectorLen);
    assert Encode(Scalars(arg)) == mem.data[ptr..ptr + vectorLen];
    UnitsRestored(arg);
    forall i | 0 <= i < |arg| ensures text.value[i] == if Lone(arg, i) then 0xFFFD else arg[i] {
      RestoredAt(arg, i);
    }
  }
}
