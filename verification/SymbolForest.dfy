/** Turning a flat list of symbols into a tree. */
module SymbolForest {
  // Each of a file's symbols names its parent's position; the list is drained from its end.

  import opened Wrappers

  datatype Symbol<T> = Symbol(name: T, parent: Option<nat>)

  /** A leaf has no list of children at all. */
  datatype DocSymbol<T> = DocSymbol(name: T, children: Children<T>)

  datatype Children<T> = Absent | Present(list: seq<DocSymbol<T>>)

  /** Every parent stands before its children. */
  predicate ParentsFirst<T>(symbols: seq<Symbol<T>>) {
    forall i | 0 <= i < |symbols| && symbols[i].parent.Some? :: symbols[i].parent.value < i
  }

  // ----- The tree, without the loop -----

  /** The tree of symbol `k`. */
  function Tree<T>(symbols: seq<Symbol<T>>, k: nat): DocSymbol<T>
    requires k < |symbols|
    decreases |symbols| - k, 0
  {
    WithChildren(symbols[k].name, Trees(symbols, Some(k), k + 1))
  }

  function WithChildren<T>(name: T, children: seq<DocSymbol<T>>): DocSymbol<T> {
    DocSymbol(name, if children == [] then Absent else Present(children))
  }

  /** The trees of the symbols from `lo` on that have the given parent, last symbol first. */
  function Trees<T>(symbols: seq<Symbol<T>>, parent: Option<nat>, lo: nat): seq<DocSymbol<T>>
    requires lo <= |symbols|
    decreases |symbols| - lo, 1
  {
    if lo == |symbols| then []
    else Trees(symbols, parent, lo + 1) + (if symbols[lo].parent == parent then [Tree(symbols, lo)] else [])
  }

  // ----- What the tree is -----

  function NameOf<T>(symbols: seq<Symbol<T>>, parent: Option<nat>): Option<T> {
    if parent.Some? && parent.value < |symbols| then Some(symbols[parent.value].name) else None
  }

  function One(b: bool): nat { if b then 1 else 0 }

  /** How often a forest has a node named `x.1` below one named `x.0`; `parent` is above the roots. */
  ghost function Count<T>(parent: Option<T>, forest: seq<DocSymbol<T>>, x: (Option<T>, T)): nat
    decreases forest
  {
    if forest == [] then 0
    else
      var last := |forest| - 1;
      Count(parent, forest[..last], x) + One((parent, forest[last].name) == x) + CountBelow(forest[last], x)
  }

  ghost function CountBelow<T>(tree: DocSymbol<T>, x: (Option<T>, T)): nat {
    match tree.children
    case Absent => 0
    case Present(list) => Count(Some(tree.name), list, x)
  }

  /** How often a symbol from `lo` on is named `x.1` and declares a parent named `x.0`. */
  ghost function Declared<T>(symbols: seq<Symbol<T>>, lo: nat, x: (Option<T>, T)): nat
    requires lo <= |symbols|
    decreases |symbols| - lo
  {
    if lo == |symbols| then 0
    else Declared(symbols, lo + 1, x) + One((NameOf(symbols, symbols[lo].parent), symbols[lo].name) == x)
  }

  lemma CountMore<T>(
      parent: Option<T>, forest: seq<DocSymbol<T>>, name: T, children: seq<DocSymbol<T>>, x: (Option<T>, T))
    ensures Count(parent, forest + [WithChildren(name, children)], x)
         == Count(parent, forest, x) + One((parent, name) == x) + Count(Some(name), children, x)
  {
    var all := forest + [WithChildren(name, children)];
    assert all[..|all| - 1] == forest;
  }

  /** The nodes already hung below the first `n` symbols when those from `lo` on are in place. */
  ghost function Hung<T>(symbols: seq<Symbol<T>>, lo: nat, n: nat, x: (Option<T>, T)): nat
    requires n <= lo <= |symbols|
  {
    if n == 0 then 0
    else Hung(symbols, lo, n - 1, x) + Count(Some(symbols[n - 1].name), Trees(symbols, Some(n - 1), lo), x)
  }

  /** The node of symbol `k` together with those below it. */
  ghost function CountOf<T>(symbols: seq<Symbol<T>>, k: nat, x: (Option<T>, T)): nat
    requires k < |symbols|
  {
    One((NameOf(symbols, symbols[k].parent), symbols[k].name) == x)
    + Count(Some(symbols[k].name), Trees(symbols, Some(k), k + 1), x)
  }

  lemma TreesStep<T>(symbols: seq<Symbol<T>>, parent: Option<nat>, k: nat)
    requires k < |symbols|
    ensures Trees(symbols, parent, k) ==
              if symbols[k].parent == parent
              then Trees(symbols, parent, k + 1) + [WithChildren(symbols[k].name, Trees(symbols, Some(k), k + 1))]
              else Trees(symbols, parent, k + 1)
  {
    assert symbols[k].parent != parent ==> Trees(symbols, parent, k) == Trees(symbols, parent, k + 1) + [];
  }

  /** Putting symbol `k` in place adds its node to the list of its parent and to no other. */
  lemma CountStep<T>(symbols: seq<Symbol<T>>, parent: Option<nat>, k: nat, x: (Option<T>, T))
    requires k < |symbols|
    ensures Count(NameOf(symbols, parent), Trees(symbols, parent, k), x)
         == Count(NameOf(symbols, parent), Trees(symbols, parent, k + 1), x)
              + (if symbols[k].parent == parent then CountOf(symbols, k, x) else 0)
  {
    TreesStep(symbols, parent, k);
    hide Trees;
    if symbols[k].parent == parent {
      CountMore(NameOf(symbols, parent), Trees(symbols, parent, k + 1), symbols[k].name,
                Trees(symbols, Some(k), k + 1), x);
    }
  }

  lemma {:induction false} HangOne<T>(symbols: seq<Symbol<T>>, k: nat, n: nat, x: (Option<T>, T))
    requires n <= k < |symbols| && (symbols[k].parent.Some? ==> symbols[k].parent.value < k)
    ensures Hung(symbols, k, n, x) == Hung(symbols, k + 1, n, x)
              + (if symbols[k].parent.Some? && symbols[k].parent.value < n then CountOf(symbols, k, x) else 0)
  {
    hide Trees, Count, CountOf;
    if n > 0 {
      HangOne(symbols, k, n - 1, x);
      CountStep(symbols, Some(n - 1), k, x);
    }
  }

  lemma {:induction false} AllInPlace<T>(symbols: seq<Symbol<T>>, lo: nat, x: (Option<T>, T))
    requires ParentsFirst(symbols) && lo <= |symbols|
    ensures Count(None, Trees(symbols, None, lo), x) + Hung(symbols, lo, lo, x) == Declared(symbols, lo, x)
    decreases |symbols| - lo
  {
    if lo == |symbols| {
      NothingHung(symbols, lo, x);
    } else {
      AllInPlace(symbols, lo + 1, x);
      assert symbols[lo].parent.Some? ==> symbols[lo].parent.value < lo;
      hide Trees, Count, ParentsFirst;
      assert Hung(symbols, lo + 1, lo + 1, x) == Hung(symbols, lo + 1, lo, x)
          + Count(Some(symbols[lo].name), Trees(symbols, Some(lo), lo + 1), x);
      HangOne(symbols, lo, lo, x);
      CountStep(symbols, None, lo, x);
    }
  }

  lemma {:induction false} NothingHung<T>(symbols: seq<Symbol<T>>, n: nat, x: (Option<T>, T))
    requires n <= |symbols|
    ensures Hung(symbols, |symbols|, n, x) == 0
  {
    if n > 0 {
      NothingHung(symbols, n - 1, x);
    }
  }

  /** Every symbol is in the forest exactly once, below its declared parent. */
  lemma EachOnceBelowItsParent<T>(symbols: seq<Symbol<T>>)
    requires ParentsFirst(symbols)
    ensures forall x :: Count(None, Trees(symbols, None, 0), x) == Declared(symbols, 0, x)
  {
    forall x ensures Count(None, Trees(symbols, None, 0), x) == Declared(symbols, 0, x) {
      AllInPlace(symbols, 0, x);
    }
  }

  // ----- Order and leaves -----

  /** The names of the symbols from `lo` on with the given parent, in the order of the file. */
  function InFile<T>(symbols: seq<Symbol<T>>, parent: Option<nat>, lo: nat): seq<T>
    requires lo <= |symbols|
    decreases |symbols| - lo
  {
    if lo == |symbols| then []
    else (if symbols[lo].parent == parent then [symbols[lo].name] else []) + InFile(symbols, parent, lo + 1)
  }

  /** Siblings, and the roots, come in the reverse of the order of the file. */
  lemma {:induction false} SiblingsReversed<T>(symbols: seq<Symbol<T>>, parent: Option<nat>, lo: nat)
    requires lo <= |symbols|
    ensures var trees, names := Trees(symbols, parent, lo), InFile(symbols, parent, lo);
            |trees| == |names| && forall i | 0 <= i < |names| :: trees[i].name == names[|names| - 1 - i]
    decreases |symbols| - lo
  {
    hide Trees, Tree, InFile;
    InFileStep(symbols, parent, lo);
    if lo < |symbols| {
      SiblingsReversed(symbols, parent, lo + 1);
      TreesStep(symbols, parent, lo);
      var trees, names := Trees(symbols, parent, lo + 1), InFile(symbols, parent, lo + 1);
      if symbols[lo].parent == parent {
        OneMoreReversed(trees, names, Trees(symbols, parent, lo)[|trees|], symbols[lo].name);
      }
    } else {
      NothingLeft(symbols, parent);
    }
  }

  lemma InFileStep<T>(symbols: seq<Symbol<T>>, parent: Option<nat>, lo: nat)
    requires lo <= |symbols|
    ensures InFile(symbols, parent, lo)
         == if lo == |symbols| then []
            else if symbols[lo].parent == parent then [symbols[lo].name] + InFile(symbols, parent, lo + 1)
            else InFile(symbols, parent, lo + 1)
  {
  }

  lemma NothingLeft<T>(symbols: seq<Symbol<T>>, parent: Option<nat>)
    ensures Trees(symbols, parent, |symbols|) == []
  {
  }

  lemma OneMoreReversed<T>(trees: seq<DocSymbol<T>>, names: seq<T>, tree: DocSymbol<T>, name: T)
    requires |trees| == |names| && (forall i | 0 <= i < |names| :: trees[i].name == names[|names| - 1 - i])
    requires tree.name == name
    ensures var more, all := trees + [tree], [name] + names;
            forall i | 0 <= i < |all| :: more[i].name == all[|all| - 1 - i]
  {
  }

  /** A symbol has no list of children exactly when no symbol names it as its parent. */
  lemma LeafIff<T>(symbols: seq<Symbol<T>>, k: nat)
    requires ParentsFirst(symbols) && k < |symbols|
    ensures Tree(symbols, k).children == Absent <==> forall j | 0 <= j < |symbols| :: symbols[j].parent != Some(k)
  {
    NoTreesIff(symbols, Some(k), k + 1);
  }

  lemma {:induction false} NoTreesIff<T>(symbols: seq<Symbol<T>>, parent: Option<nat>, lo: nat)
    requires lo <= |symbols|
    ensures Trees(symbols, parent, lo) == [] <==> forall j | lo <= j < |symbols| :: symbols[j].parent != parent
    decreases |symbols| - lo
  {
    if lo < |symbols| {
      NoTreesIff(symbols, parent, lo + 1);
    }
  }

  // ----- The loop -----

  /** The list as it is before the loop: no symbol has children yet. */
  method Listed<T>(symbols: seq<Symbol<T>>) returns (parents: seq<(DocSymbol<T>, Option<nat>)>)
    ensures |parents| == |symbols| && Drained(symbols, parents)
  {
    parents := [];
    for i := 0 to |symbols|
      invariant |parents| == i
      invariant forall j | 0 <= j < i :: parents[j] == (DocSymbol(symbols[j].name, Absent), symbols[j].parent)
    {
      parents := parents + [(DocSymbol(symbols[i].name, Absent), symbols[i].parent)];
    }
    assert forall j | 0 <= j < |symbols| :: Trees(symbols, Some(j), |symbols|) == [];
  }

  method HangBelow<T>(parents: seq<(DocSymbol<T>, Option<nat>)>, i: nat, node: DocSymbol<T>)
    returns (r: seq<(DocSymbol<T>, Option<nat>)>)
    requires i < |parents|
    ensures r == parents[i := (WithChild(parents[i].0, node), parents[i].1)]
  {
    var (target, up) := parents[i];
    if target.children == Absent {
      target := target.(children := Present([]));
    }
    r := parents[i := (target.(children := Present(target.children.list + [node])), up)];
  }

  /** Drain the list into a forest. An index that is out of bounds, `None` here,
      happens exactly when some symbol does not come after its parent. */
  method DocumentSymbols<T>(symbols: seq<Symbol<T>>) returns (r: Option<seq<DocSymbol<T>>>)
    ensures r.Some? <==> ParentsFirst(symbols)
    ensures r.Some? ==> r.value == Trees(symbols, None, 0)
  {
    var parents := Listed(symbols);
    r := Some([]);
    assert Popped(symbols, parents, []);
    hide Trees, Tree, Drained;
    while parents != []
      invariant r.Some? && Popped(symbols, parents, r.value)
      decreases |parents|
    {
      r, parents := PopOne(symbols, parents, r.value);
      if r.None? {
        return;
      }
    }
  }

  /** What holds between two turns of the loop. */
  ghost predicate Popped<T>(
    symbols: seq<Symbol<T>>, parents: seq<(DocSymbol<T>, Option<nat>)>, res: seq<DocSymbol<T>>)
  {
    && |parents| <= |symbols| && Drained(symbols, parents)
    && (forall k | |parents| <= k < |symbols| && symbols[k].parent.Some? :: symbols[k].parent.value < k)
    && res == Trees(symbols, None, |parents|)
  }

  /** One turn: the last symbol goes to the result or below its parent. */
  method PopOne<T>(symbols: seq<Symbol<T>>, parents: seq<(DocSymbol<T>, Option<nat>)>, res: seq<DocSymbol<T>>)
    returns (r: Option<seq<DocSymbol<T>>>, left: seq<(DocSymbol<T>, Option<nat>)>)
    requires parents != [] && Popped(symbols, parents, res)
    ensures r.None? ==> !ParentsFirst(symbols)
    ensures r.Some? ==> |left| == |parents| - 1 && Popped(symbols, left, r.value)
  {
    hide Trees, Tree, Drained, WithChild;
    var k := |parents| - 1;
    var (node, parent) := parents[k];
    DrainOne(symbols, parents);
    left := parents[..k];
    match parent
    case None =>
      DrainStep(symbols, parents, left);
      r := Some(res + [node]);
    case Some(i) =>
      if i >= |left| {
        return None, left;
      }
      left := HangBelow(left, i, node);
      DrainStep(symbols, parents, left);
      r := Some(res);
  }

  /** The list holds each of its symbols with the children that have been popped so far. */
  ghost predicate Drained<T>(symbols: seq<Symbol<T>>, parents: seq<(DocSymbol<T>, Option<nat>)>)
    requires |parents| <= |symbols|
  {
    forall i | 0 <= i < |parents| ::
      parents[i] == (WithChildren(symbols[i].name, Trees(symbols, Some(i), |parents|)), symbols[i].parent)
  }

  function WithChild<T>(tree: DocSymbol<T>, child: DocSymbol<T>): DocSymbol<T> {
    tree.(children := Present((if tree.children == Absent then [] else tree.children.list) + [child]))
  }

  lemma ChildAdded<T>(name: T, children: seq<DocSymbol<T>>, child: DocSymbol<T>)
    ensures WithChild(WithChildren(name, children), child) == WithChildren(name, children + [child])
  {
    assert [] + [child] == [child];
  }

  lemma DrainOne<T>(symbols: seq<Symbol<T>>, parents: seq<(DocSymbol<T>, Option<nat>)>)
    requires 0 < |parents| <= |symbols| && Drained(symbols, parents)
    ensures var k := |parents| - 1;
            && parents[k].1 == symbols[k].parent
            && Trees(symbols, None, k)
               == (if symbols[k].parent == None then Trees(symbols, None, k + 1) + [parents[k].0]
                   else Trees(symbols, None, k + 1))
  {
    TreesStep(symbols, None, |parents| - 1);
  }

  /** Popping the last symbol and hanging it below its parent keeps the list drained. */
  lemma DrainStep<T>(
      symbols: seq<Symbol<T>>, parents: seq<(DocSymbol<T>, Option<nat>)>, rest: seq<(DocSymbol<T>, Option<nat>)>)
    requires 0 < |parents| <= |symbols| && Drained(symbols, parents)
    requires var k := |parents| - 1;
             |rest| == k && forall i | 0 <= i < k ::
               rest[i] == if symbols[k].parent == Some(i) then (WithChild(parents[i].0, parents[k].0), parents[i].1)
                          else parents[i]
    ensures Drained(symbols, rest)
  {
    var k := |parents| - 1;
    forall i | 0 <= i < k
      ensures rest[i] == (WithChildren(symbols[i].name, Trees(symbols, Some(i), k)), symbols[i].parent)
    {
      assert parents[i] == (WithChildren(symbols[i].name, Trees(symbols, Some(i), k + 1)), symbols[i].parent);
      assert parents[k].0 == WithChildren(symbols[k].name, Trees(symbols, Some(k), k + 1));
      TreesStep(symbols, Some(i), k);
      hide Trees;
      ChildAdded(symbols[i].name, Trees(symbols, Some(i), k + 1), parents[k].0);
    }
  }
}
