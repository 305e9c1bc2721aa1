/** Directed graphs that refuse an edge closing a cycle. */
module DepGraph {

  type Edges<T(==)> = set<(T, T)>

  ghost predicate IsPath<T>(e: Edges<T>, p: seq<T>) {
    p != [] && forall i | 0 <= i < |p| - 1 :: Step(e, p, i)
  }

  ghost predicate Step<T>(e: Edges<T>, p: seq<T>, i: nat)
    requires i + 1 < |p|
  {
    (p[i], p[i + 1]) in e
  }

  /** `p` leads from `a` to `b`; it may be a single node. */
  ghost predicate Leads<T>(e: Edges<T>, p: seq<T>, a: T, b: T) {
    IsPath(e, p) && p[0] == a && p[|p| - 1] == b
  }

  ghost predicate Reaches<T(!new)>(e: Edges<T>, a: T, b: T) {
    exists p :: Leads(e, p, a, b)
  }

  ghost predicate Acyclic<T(!new)>(e: Edges<T>) {
    forall a, b | (a, b) in e :: !Reaches(e, b, a)
  }

  lemma ReachesSelf<T(!new)>(e: Edges<T>, a: T)
    ensures Reaches(e, a, a)
  {
    assert Leads(e, [a], a, a);
  }

  lemma Prepend<T(!new)>(e: Edges<T>, a: T, b: T, c: T)
    requires (a, b) in e && Reaches(e, b, c)
    ensures Reaches(e, a, c)
  {
    var p :| Leads(e, p, b, c);
    var q := [a] + p;
    forall i | 0 <= i < |q| - 1 ensures Step(e, q, i) {
      assert i > 0 ==> Step(e, p, i - 1);
    }
    assert Leads(e, q, a, c);
  }

  lemma {:induction false} Joined<T(!new)>(e: Edges<T>, p: seq<T>, a: T, b: T, c: T)
    requires Leads(e, p, a, b) && Reaches(e, b, c)
    ensures Reaches(e, a, c)
    decreases p
  {
    if |p| > 1 {
      Tail(e, p, a, b);
      Joined(e, p[1..], p[1], b, c);
      Prepend(e, a, p[1], c);
    }
  }

  lemma Tail<T(!new)>(e: Edges<T>, p: seq<T>, a: T, b: T)
    requires Leads(e, p, a, b) && |p| > 1
    ensures (a, p[1]) in e && Leads(e, p[1..], p[1], b)
  {
    assert Step(e, p, 0);
    forall i | 0 <= i < |p[1..]| - 1 ensures Step(e, p[1..], i) {
      assert Step(e, p, i + 1);
    }
  }

  lemma Transitive<T(!new)>(e: Edges<T>, a: T, b: T, c: T)
    requires Reaches(e, a, b) && Reaches(e, b, c)
    ensures Reaches(e, a, c)
  {
    var p :| Leads(e, p, a, b);
    Joined(e, p, a, b, c);
  }

  lemma Monotone<T(!new)>(e: Edges<T>, f: Edges<T>, a: T, b: T)
    requires e <= f && Reaches(e, a, b)
    ensures Reaches(f, a, b)
  {
    var p :| Leads(e, p, a, b);
    forall i | 0 <= i < |p| - 1 ensures Step(f, p, i) {
      assert Step(e, p, i);
    }
    assert Leads(f, p, a, b);
  }

  lemma SmallerAcyclic<T(!new)>(e: Edges<T>, f: Edges<T>)
    requires e <= f && Acyclic(f)
    ensures Acyclic(e)
  {
    forall a, b | (a, b) in e ensures !Reaches(e, b, a) {
      if Reaches(e, b, a) { Monotone(e, f, b, a); }
    }
  }

  /** A path through one more edge either avoids it or runs up to it and away from it. */
  lemma {:induction false} Through<T(!new)>(e: Edges<T>, from: T, to: T, p: seq<T>, a: T, b: T)
    requires Leads(e + {(from, to)}, p, a, b)
    ensures Reaches(e, a, b) || (Reaches(e, a, from) && Reaches(e, to, b))
    decreases p
  {
    if |p| == 1 {
      ReachesSelf(e, a);
    } else {
      Tail(e + {(from, to)}, p, a, b);
      Through(e, from, to, p[1..], p[1], b);
      if (a, p[1]) in e {
        if Reaches(e, p[1], b) { Prepend(e, a, p[1], b); } else { Prepend(e, a, p[1], from); }
      } else {
        ReachesSelf(e, a);
      }
    }
  }

  /** Adding an edge keeps a graph acyclic exactly when its end does not reach its start. */
  lemma EdgeKeepsAcyclic<T(!new)>(e: Edges<T>, from: T, to: T)
    requires Acyclic(e)
    ensures Acyclic(e + {(from, to)}) <==> !Reaches(e, to, from)
  {
    var f := e + {(from, to)};
    if Reaches(e, to, from) {
      Monotone(e, f, to, from);
      assert (from, to) in f;
    } else {
      forall a, b | (a, b) in f ensures !Reaches(f, b, a) {
        if Reaches(f, b, a) {
          var p :| Leads(f, p, b, a);
          Through(e, from, to, p, b, a);
          if (a, b) in e {
            Prepend(e, a, b, from);
            Transitive(e, to, a, from);
          }
        }
      }
    }
  }

  /** Edges that go down in a strict order form no cycle. */
  lemma {:induction false} DownhillPath<T(!new)>(e: Edges<T>, lower: (T, T) -> bool, p: seq<T>, a: T, b: T)
    requires forall x, y | (x, y) in e :: lower(y, x)
    requires forall x, y, z :: lower(x, y) && lower(y, z) ==> lower(x, z)
    requires Leads(e, p, a, b)
    ensures a == b || lower(b, a)
    decreases p
  {
    if |p| > 1 {
      Tail(e, p, a, b);
      DownhillPath(e, lower, p[1..], p[1], b);
    }
  }

  lemma DownhillAcyclic<T(!new)>(e: Edges<T>, lower: (T, T) -> bool)
    requires forall x, y | (x, y) in e :: lower(y, x)
    requires forall x, y, z :: lower(x, y) && lower(y, z) ==> lower(x, z)
    requires forall x :: !lower(x, x)
    ensures Acyclic(e)
  {
    forall a, b | (a, b) in e ensures !Reaches(e, b, a) {
      if Reaches(e, b, a) {
        var p :| Leads(e, p, b, a);
        DownhillPath(e, lower, p, b, a);
      }
    }
  }

  /** Everything reachable from `start`, by closing a set under the edges. */
  method Reachable<T(==,!new)>(e: Edges<T>, start: T) returns (seen: set<T>)
    ensures forall x :: x in seen <==> Reaches(e, start, x)
  {
    seen := {start};
    ReachesSelf(e, start);
    ghost var left := set edge | edge in e :: edge.1;
    while exists edge :: edge in e && edge.0 in seen && edge.1 !in seen
      invariant start in seen
      invariant forall x | x in seen :: Reaches(e, start, x)
      invariant forall edge | edge in e && edge.1 !in seen :: edge.1 in left
      decreases left
    {
      var edge :| edge in e && edge.0 in seen && edge.1 !in seen;
      ReachesSelf(e, edge.1);
      Prepend(e, edge.0, edge.1, edge.1);
      Transitive(e, start, edge.0, edge.1);
      seen := seen + {edge.1};
      left := left - {edge.1};
    }
    forall x | Reaches(e, start, x) ensures x in seen {
      var p :| Leads(e, p, start, x);
      ClosedUnder(e, seen, p, start, x);
    }
  }

  lemma {:induction false} ClosedUnder<T(!new)>(e: Edges<T>, seen: set<T>, p: seq<T>, a: T, b: T)
    requires forall edge | edge in e && edge.0 in seen :: edge.1 in seen
    requires a in seen && Leads(e, p, a, b)
    ensures b in seen
    decreases p
  {
    if |p| > 1 {
      Tail(e, p, a, b);
      assert (a, p[1]).0 in seen;
      ClosedUnder(e, seen, p[1..], p[1], b);
    }
  }
}
