/** Small notions used all over. */
module Basics {
  function Max(a: nat, b: nat): nat { if a < b then b else a }

  /** No element occurs twice. */
  ghost predicate Distinct<T>(s: seq<T>) {
    forall i, j | 0 <= i < j < |s| :: s[i] != s[j]
  }

  lemma {:induction false} SubsetSize<T>(a: set<T>, b: set<T>)
    requires a <= b
    ensures |a| <= |b|
    decreases |a|
  {
    if a != {} {
      var x :| x in a;
      SubsetSize(a - {x}, b - {x});
    }
  }

  /** The elements that are to stay, in their order. */
  function Filter<T>(all: seq<T>, stays: T -> bool): seq<T> {
    if all == [] then [] else (if stays(all[0]) then [all[0]] else []) + Filter(all[1..], stays)
  }

  /** Each element stays or goes on its own, and those that stay keep their order. */
  lemma {:induction false} FilterAppend<T>(a: seq<T>, b: seq<T>, stays: T -> bool)
    ensures Filter(a + b, stays) == Filter(a, stays) + Filter(b, stays)
    decreases a
  {
    if a == [] {
      assert a + b == b;
    } else {
      assert (a + b)[1..] == a[1..] + b && (a + b)[0] == a[0];
      FilterAppend(a[1..], b, stays);
      var head, x, y := if stays(a[0]) then [a[0]] else [], Filter(a[1..], stays), Filter(b, stays);
      assert head + (x + y) == head + x + y;
    }
  }

  lemma FilterOne<T>(x: T, stays: T -> bool)
    ensures Filter([x], stays) == if stays(x) then [x] else []
  {
    assert [x][1..] == [];
  }

  lemma FilterFirst<T>(first: T, rest: seq<T>, stays: T -> bool)
    ensures Filter([first] + rest, stays) == (if stays(first) then [first] else []) + Filter(rest, stays)
  {
    FilterAppend([first], rest, stays);
    FilterOne(first, stays);
  }

  lemma {:induction false} FilterAll<T>(all: seq<T>, stays: T -> bool)
    requires forall x | x in all :: stays(x)
    ensures Filter(all, stays) == all
  {
    if all != [] {
      assert all == [all[0]] + all[1..];
      FilterAll(all[1..], stays);
    }
  }
}
