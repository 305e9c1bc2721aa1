/** Linear memory seen through one typed view, with the allocator behind it.
    Addresses count elements of the view. */
module LinearMemory {

  ghost function Block(ptr: nat, length: nat): (b: set<nat>)
    ensures forall a: nat :: a in b <==> Within(a, ptr, length)
  {
    set a: nat | a < ptr + length && Within(a, ptr, length)
  }

  ghost predicate Within(a: nat, ptr: nat, length: nat) {
    ptr <= a < ptr + length
  }

  ghost predicate Same<T>(addresses: set<nat>, was: seq<T>, now: seq<T>) {
    forall a | a in addresses :: a < |now| && a < |was| && now[a] == was[a]
  }

  lemma SameStored<T>(addresses: set<nat>, was: seq<T>, now: seq<T>, at: nat, value: T)
    requires Same(addresses, was, now) && at !in addresses && at < |now|
    ensures Same(addresses, was, now[at := value])
  {
  }

  function Min(a: nat, b: nat): nat {
    if a < b then a else b
  }

  /** The contracts say all that callers know of the allocator: blocks do not
      overlap and a moved block keeps its prefix. The bodies are one allocator of
      that kind. */
  class Memory<T(0)> {
    var data: seq<T>
    /** The addresses that belong to blocks handed out and not released. */
    ghost var used: set<nat>

    ghost predicate Valid()
      reads this
    {
      forall a | a in used :: a < |data|
    }

    /** Every address owned before still holds what it held. */
    twostate predicate Preserved(addresses: set<nat>)
      reads this
    {
      Same(addresses, old(data), data)
    }

    constructor ()
      ensures Valid() && data == [] && used == {}
    {
      data, used := [], {};
    }

    method Malloc(length: nat) returns (ptr: nat)
      requires Valid()
      modifies this
      ensures Valid() && Block(ptr, length) !! old(used)
      ensures used == old(used) + Block(ptr, length)
      ensures ptr + length <= |data|
      ensures Preserved(old(used))
    {
      ptr := |data|;
      var zero: T := *;
      data := data + seq(length, _ => zero);
      used := used + Block(ptr, length);
    }

    method Realloc(ptr: nat, length: nat, newLength: nat) returns (newPtr: nat)
      requires Valid() && Block(ptr, length) <= used && ptr + length <= |data|
      modifies this
      ensures Valid() && Block(newPtr, newLength) !! old(used) - Block(ptr, length)
      ensures used == old(used) - Block(ptr, length) + Block(newPtr, newLength)
      ensures newPtr + newLength <= |data|
      ensures Preserved(old(used) - Block(ptr, length))
      ensures data[newPtr..newPtr + Min(length, newLength)] == old(data)[ptr..ptr + Min(length, newLength)]
    {
      newPtr := |data|;
      var zero: T := *;
      var kept := Min(length, newLength);
      data := data + data[ptr..ptr + kept] + seq(newLength - kept, _ => zero);
      used := used - Block(ptr, length) + Block(newPtr, newLength);
    }

    /** A store through a typed array: out of range it has no effect. */
    method Store(at: nat, value: T)
      requires Valid()
      modifies `data
      ensures Valid() && |data| == |old(data)|
      ensures data == if at < |old(data)| then old(data)[at := value] else old(data)
    {
      if at < |data| {
        data := data[at := value];
      }
    }

    /** `set` on a view: the values must fit. */
    method StoreAll(at: nat, values: seq<T>)
      requires Valid() && at + |values| <= |data|
      modifies `data
      ensures Valid() && |data| == |old(data)|
      ensures data[at..at + |values|] == values
      ensures forall a | 0 <= a < |data| && !Within(a, at, |values|) :: data[a] == old(data)[a]
    {
      data := data[..at] + values + data[at + |values|..];
    }
  }
}
