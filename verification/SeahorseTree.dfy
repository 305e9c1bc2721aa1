/** Flattening the tree of compiled sources to pairs of a path and its content: the names on
    the way to a leaf are joined to a path, its extension is replaced, and the pairs come in
    the order of the walk. Joining and replacing do what the paths of Rust do, absolute names
    and separators at the end included. */
module SeahorseTree {
  import opened Basics
  import opened Wrappers

  datatype Tree = Leaf(source: string) | Node(children: Forest)

  /** The children of a node, in the order in which they are walked. */
  datatype Forest = Nil | Cons(name: string, tree: Tree, rest: Forest)

  // ----- Paths -----

  function Join(path: string, sub: string): string {
    if sub != "" && sub[0] == '/' then sub
    else if path == "" || path[|path| - 1] == '/' then path + sub
    else path + "/" + sub
  }

  /** Without the separators, and the dots between them, at the end. */
  function Trimmed(path: string): (r: string)
    ensures r <= path
    decreases |path|
  {
    var n := |path|;
    if n >= 1 && path[n - 1] == '/' then Trimmed(path[..n - 1])
    else if n >= 2 && path[n - 1] == '.' && path[n - 2] == '/' then Trimmed(path[..n - 1])
    else path
  }

  /** Where the last component starts. */
  function LastStart(path: string): (r: nat)
    ensures r <= |path|
    decreases |path|
  {
    var n := |path|;
    if n == 0 || path[n - 1] == '/' then n else LastStart(path[..n - 1])
  }

  /** The place of the last dot, or the length. */
  function LastDot(name: string): (r: nat)
    ensures r <= |name| && (r < |name| ==> name[r] == '.')
    ensures forall i | r < i < |name| :: name[i] != '.'
    ensures r == |name| ==> '.' !in name
    decreases |name|
  {
    var n := |name|;
    if n == 0 then 0
    else if name[n - 1] == '.' then n - 1
    else var r := LastDot(name[..n - 1]); if r == n - 1 then n else r
  }

  /** The name without its extension; a dot in front starts none. */
  function Stem(name: string): (r: string)
    ensures r <= name && (name != "" ==> r != "")
    ensures '.' !in name ==> r == name
  {
    if LastDot(name) == 0 then name else name[..LastDot(name)]
  }

  predicate IsFileName(name: string) { name != "" && name != "." && name != ".." }

  function WithExtension(path: string): string {
    var trimmed := Trimmed(path);
    var start := LastStart(trimmed);
    var name := trimmed[start..];
    if IsFileName(name) then trimmed[..start] + Stem(name) + ".rs" else path
  }

  // ----- Flattening -----

  function Build(tree: Tree, path: string): seq<string>
    decreases tree
  {
    match tree
    case Leaf(source) => [WithExtension(path), source]
    case Node(children) => BuildAll(children, path)
  }

  function BuildAll(children: Forest, path: string): seq<string>
    decreases children
  {
    match children
    case Nil => []
    case Cons(name, tree, rest) => Build(tree, Join(path, name)) + BuildAll(rest, path)
  }

  /** A leaf by the names that lead to it. */
  datatype Found = Found(route: seq<string>, source: string)

  function Leaves(tree: Tree, route: seq<string>): seq<Found>
    decreases tree
  {
    match tree
    case Leaf(source) => [Found(route, source)]
    case Node(children) => LeavesAll(children, route)
  }

  function LeavesAll(children: Forest, route: seq<string>): seq<Found>
    decreases children
  {
    match children
    case Nil => []
    case Cons(name, tree, rest) => Leaves(tree, route + [name]) + LeavesAll(rest, route)
  }

  function Place(base: string, route: seq<string>): string
    decreases route
  {
    if route == [] then base else Join(Place(base, route[..|route| - 1]), route[|route| - 1])
  }

  /** `out` lists the leaves in order, each as its path and its content. */
  ghost predicate Lists(out: seq<string>, leaves: seq<Found>, base: string) {
    && |out| == 2 * |leaves|
    && forall k | 0 <= k < |leaves| ::
         out[2 * k] == WithExtension(Place(base, leaves[k].route)) && out[2 * k + 1] == leaves[k].source
  }

  lemma ListsAppend(a: seq<string>, b: seq<string>, x: seq<Found>, y: seq<Found>, base: string)
    requires Lists(a, x, base) && Lists(b, y, base)
    ensures Lists(a + b, x + y, base)
  {
    hide WithExtension, Place;
    forall k | 0 <= k < |x + y|
      ensures (a + b)[2 * k] == WithExtension(Place(base, (x + y)[k].route)) && (a + b)[2 * k + 1] == (x + y)[k].source
    {
      if k >= |x| {
        var j := k - |x|;
        assert (a + b)[2 * k] == b[2 * j] && (a + b)[2 * k + 1] == b[2 * j + 1];
      }
    }
  }

  lemma {:induction false} BuildLists(tree: Tree, base: string, route: seq<string>)
    ensures Lists(Build(tree, Place(base, route)), Leaves(tree, route), base)
    decreases tree
  {
    if tree.Node? {
      BuildAllLists(tree.children, base, route);
    }
  }

  lemma {:induction false} BuildAllLists(children: Forest, base: string, route: seq<string>)
    ensures Lists(BuildAll(children, Place(base, route)), LeavesAll(children, route), base)
    decreases children
  {
    hide Join, WithExtension;
    if children.Cons? {
      var down := route + [children.name];
      assert down[..|down| - 1] == route;
      assert Place(base, down) == Join(Place(base, route), children.name);
      BuildLists(children.tree, base, down);
      BuildAllLists(children.rest, base, route);
      hide Lists, Place;
      ListsAppend(Build(children.tree, Place(base, down)), BuildAll(children.rest, Place(base, route)),
                  Leaves(children.tree, down), LeavesAll(children.rest, route), base);
    }
  }

  /** Every leaf is in the output once, in the order of the walk: its path, then its content. */
  lemma OnePairALeaf(tree: Tree, base: string)
    ensures Lists(Build(tree, base), Leaves(tree, []), base)
  {
    BuildLists(tree, base, []);
  }

  // ----- Trees of plain names -----

  predicate IsPlain(name: string) { IsFileName(name) && '/' !in name }

  function Names(children: Forest): set<string>
    decreases children
  {
    if children.Nil? then {} else {children.name} + Names(children.rest)
  }

  /** Names are single components, and differ between siblings. */
  predicate Plain(tree: Tree)
    decreases tree
  {
    tree.Node? ==> PlainAll(tree.children)
  }

  predicate PlainAll(children: Forest)
    decreases children
  {
    children.Cons? ==>
      && IsPlain(children.name) && children.name !in Names(children.rest)
      && Plain(children.tree) && PlainAll(children.rest)
  }

  function LeafStems(children: Forest): set<string>
    decreases children
  {
    if children.Nil? then {}
    else (if children.tree.Leaf? then {Stem(children.name)} else {}) + LeafStems(children.rest)
  }

  /** No two leaves of a node differ in their extension alone. */
  predicate DistinctStems(tree: Tree)
    decreases tree
  {
    tree.Node? ==> DistinctStemsAll(tree.children)
  }

  predicate DistinctStemsAll(children: Forest)
    decreases children
  {
    children.Cons? ==>
      && (children.tree.Leaf? ==> Stem(children.name) !in LeafStems(children.rest))
      && DistinctStems(children.tree) && DistinctStemsAll(children.rest)
  }

  // ----- Paths of plain names -----

  predicate IsDirectory(path: string) { path != "" && path[|path| - 1] != '/' }

  lemma {:induction false} LastStartAfter(dir: string, name: string)
    requires '/' !in name
    ensures LastStart(dir + "/" + name) == |dir| + 1
    decreases |name|
  {
    var whole := dir + "/" + name;
    if name == "" {
      assert whole[|whole| - 1] == '/';
    } else {
      var less := name[..|name| - 1];
      assert whole[|whole| - 1] == name[|name| - 1];
      assert whole[..|whole| - 1] == dir + "/" + less;
      LastStartAfter(dir, less);
    }
  }

  lemma TrimmedPlain(dir: string, name: string)
    requires IsPlain(name)
    ensures Trimmed(dir + "/" + name) == dir + "/" + name
  {
    var path := dir + "/" + name;
    assert path[|path| - 1] == name[|name| - 1];
    if |name| == 1 {
      assert name[0] != '.' by {
        assert name == [name[0]];
      }
    } else {
      assert path[|path| - 2] == name[|name| - 2];
    }
  }

  lemma ExtensionOfPlain(dir: string, name: string)
    requires IsPlain(name)
    ensures WithExtension(dir + "/" + name) == dir + "/" + Stem(name) + ".rs"
  {
    var path := dir + "/" + name;
    hide Stem;
    TrimmedPlain(dir, name);
    LastStartAfter(dir, name);
    assert path[|dir| + 1..] == name;
    assert path[..|dir| + 1] == dir + "/";
  }

  /** Separators at the end are passed over, with a dot between them. */
  lemma ExtensionPast(dir: string, name: string)
    requires IsPlain(name)
    ensures WithExtension(dir + "/" + name + "/") == dir + "/" + Stem(name) + ".rs"
    ensures WithExtension(dir + "/" + name + "/.") == dir + "/" + Stem(name) + ".rs"
  {
    var path := dir + "/" + name;
    TrimmedPlain(dir, name);
    ExtensionOfPlain(dir, name);
    TrimmedPast(path);
    hide Stem, LastStart, Trimmed;
    assert WithExtension(path + "/") == WithExtension(path) && WithExtension(path + "/.") == WithExtension(path);
  }

  lemma TrimmedPast(path: string)
    ensures Trimmed(path + "/") == Trimmed(path) && Trimmed(path + "/.") == Trimmed(path)
  {
    var one, two := path + "/", path + "/.";
    assert one[..|one| - 1] == path && two[..|two| - 1] == one;
    assert two[|two| - 1] == '.' && two[|two| - 2] == '/';
  }

  /** An absolute name replaces the path it is joined to. */
  lemma JoinAbsolute(path: string, name: string)
    ensures Join(path, "/" + name) == "/" + name
    ensures Join("", name) == name && Join(path + "/", name) == if "/" <= name then name else path + "/" + name
  {
  }

  lemma JoinPlain(path: string, name: string)
    requires IsDirectory(path) && IsPlain(name)
    ensures Join(path, name) == path + "/" + name && IsDirectory(Join(path, name))
  {
    assert name[0] in name && name[|name| - 1] in name;
  }

  // ----- Whose path it is -----

  function Under(path: string, name: string): string { path + "/" + name }

  /** Where the files of a child lie. */
  predicate Owns(path: string, name: string, tree: Tree, file: string) {
    match tree
    case Leaf(_) => file == Under(path, Stem(name) + ".rs")
    case Node(_) => Under(path, name + "/") <= file
  }

  ghost predicate OwnsAll(path: string, children: Forest, file: string)
    decreases children
  {
    children.Cons? && (Owns(path, children.name, children.tree, file) || OwnsAll(path, children.rest, file))
  }

  /** The paths of the output. */
  function Paths(tree: Tree, path: string): seq<string>
    decreases tree
  {
    match tree
    case Leaf(_) => [WithExtension(path)]
    case Node(children) => PathsAll(children, path)
  }

  function PathsAll(children: Forest, path: string): seq<string>
    decreases children
  {
    match children
    case Nil => []
    case Cons(name, tree, rest) => Paths(tree, Join(path, name)) + PathsAll(rest, path)
  }

  lemma OwnsDeeper(path: string, name: string, child: string, tree: Tree, file: string)
    requires Owns(Under(path, name), child, tree, file)
    ensures Under(path, name + "/") <= file
  {
    var rest := if tree.Leaf? then Stem(child) + ".rs" else child + "/";
    assert Under(Under(path, name), rest) == Under(path, name + "/") + rest;
  }

  lemma {:induction false} OwnsAllDeeper(path: string, name: string, children: Forest, file: string)
    requires OwnsAll(Under(path, name), children, file)
    ensures Under(path, name + "/") <= file
    decreases children
  {
    hide Owns, Under;
    if Owns(Under(path, name), children.name, children.tree, file) {
      OwnsDeeper(path, name, children.name, children.tree, file);
    } else {
      OwnsAllDeeper(path, name, children.rest, file);
    }
  }

  lemma NodeOwns(path: string, name: string, children: Forest, file: string)
    requires OwnsAll(Under(path, name), children, file)
    ensures Owns(path, name, Node(children), file)
  {
    OwnsAllDeeper(path, name, children, file);
  }

  lemma LeafOwned(path: string, name: string, tree: Tree)
    requires IsDirectory(path) && IsPlain(name) && tree.Leaf?
    ensures forall file | file in Paths(tree, Join(path, name)) :: Owns(path, name, tree, file)
  {
    hide WithExtension, Stem;
    JoinPlain(path, name);
    ExtensionOfPlain(path, name);
    assert path + "/" + Stem(name) + ".rs" == Under(path, Stem(name) + ".rs");
  }

  lemma {:induction false} PathsOwned(path: string, name: string, tree: Tree)
    requires IsDirectory(path) && IsPlain(name) && Plain(tree)
    ensures forall file | file in Paths(tree, Join(path, name)) :: Owns(path, name, tree, file)
    decreases tree
  {
    JoinPlain(path, name);
    assert Join(path, name) == Under(path, name);
    hide Join, WithExtension, Stem, IsDirectory, IsPlain, Owns, Under;
    match tree
    case Leaf(_) =>
      LeafOwned(path, name, tree);
    case Node(children) =>
      var files := Paths(tree, Join(path, name));
      assert files == PathsAll(children, Join(path, name));
      PathsAllOwned(Join(path, name), children);
      hide Paths, PathsAll, OwnsAll;
      forall file | file in files ensures Owns(path, name, tree, file) {
        NodeOwns(path, name, children, file);
      }
  }

  lemma {:induction false} PathsAllOwned(path: string, children: Forest)
    requires IsDirectory(path) && PlainAll(children)
    ensures forall file | file in PathsAll(children, path) :: OwnsAll(path, children, file)
    decreases children
  {
    if children.Cons? {
      PathsOwned(path, children.name, children.tree);
      PathsAllOwned(path, children.rest);
    }
  }

  // ----- One owner -----

  lemma FirstSlash(a: string, file: string)
    requires '/' !in a && a + "/" <= file
    ensures |a| < |file| && a == file[..|a|] && file[|a|] == '/' && forall i | 0 <= i < |a| :: file[i] != '/'
  {
    assert (a + "/")[|a|] == '/';
    forall i | 0 <= i < |a| ensures file[i] == a[i] && file[i] != '/' {
      assert (a + "/")[i] == a[i] && a[i] in a;
    }
  }

  lemma SameBeforeSlash(a: string, b: string, file: string)
    requires '/' !in a && '/' !in b && a + "/" <= file && b + "/" <= file
    ensures a == b
  {
    FirstSlash(a, file);
    FirstSlash(b, file);
  }

  lemma NoSlashInFile(stem: string, name: string)
    requires '/' !in stem
    ensures !(name + "/" <= stem + ".rs")
  {
    var file := stem + ".rs";
    forall i | 0 <= i < |file| ensures file[i] != '/' {
      assert i < |stem| ==> file[i] == stem[i] && stem[i] in stem;
      assert i >= |stem| ==> file[i] == ".rs"[i - |stem|];
    }
    assert (name + "/")[|name|] == '/';
  }

  lemma UnderCancels(path: string, a: string, file: string)
    requires Under(path, a) <= file
    ensures |path| + 1 <= |file| && a <= file[|path| + 1..]
  {
    assert a == Under(path, a)[|path| + 1..];
  }

  /** Two children with different names own one file only as leaves with one stem. */
  lemma OneOwner(path: string, a: string, s: Tree, b: string, t: Tree, file: string)
    requires IsPlain(a) && IsPlain(b) && a != b && Owns(path, a, s, file) && Owns(path, b, t, file)
    ensures s.Leaf? && t.Leaf? && Stem(a) == Stem(b)
  {
    var left := if s.Leaf? then Stem(a) + ".rs" else a + "/";
    var right := if t.Leaf? then Stem(b) + ".rs" else b + "/";
    UnderCancels(path, left, file);
    UnderCancels(path, right, file);
    var tail := file[|path| + 1..];
    assert s.Leaf? ==> tail == left;
    assert t.Leaf? ==> tail == right;
    PlainNoSlash(a);
    PlainNoSlash(b);
    NoSlashInFile(Stem(a), b);
    NoSlashInFile(Stem(b), a);
    hide Under, IsPlain, Stem;
    if s.Leaf? && t.Leaf? {
      assert Stem(a) == left[..|left| - 3] && Stem(b) == right[..|right| - 3];
    } else if !s.Leaf? && !t.Leaf? {
      SameBeforeSlash(a, b, tail);
    }
  }

  lemma PlainNoSlash(name: string)
    requires IsPlain(name)
    ensures '/' !in name && '/' !in Stem(name)
  {
  }

  lemma {:induction false} OwnerAmong(path: string, name: string, tree: Tree, others: Forest, file: string)
    requires IsPlain(name) && name !in Names(others) && PlainAll(others)
    requires Owns(path, name, tree, file) && OwnsAll(path, others, file)
    ensures tree.Leaf? && Stem(name) in LeafStems(others)
    decreases others
  {
    hide Owns, Stem, IsPlain;
    if Owns(path, others.name, others.tree, file) {
      OneOwner(path, name, tree, others.name, others.tree, file);
    } else {
      OwnerAmong(path, name, tree, others.rest, file);
    }
  }

  lemma {:induction false} StemHasPath(path: string, children: Forest, stem: string)
    requires IsDirectory(path) && PlainAll(children) && stem in LeafStems(children)
    ensures path + "/" + stem + ".rs" in PathsAll(children, path)
    decreases children
  {
    hide Stem, WithExtension;
    if children.tree.Leaf? && stem == Stem(children.name) {
      JoinPlain(path, children.name);
      ExtensionOfPlain(path, children.name);
      assert Paths(children.tree, Join(path, children.name)) == [path + "/" + stem + ".rs"];
    } else {
      StemHasPath(path, children.rest, stem);
    }
  }

  // ----- Distinct paths -----

  ghost predicate Apart(a: seq<string>, b: seq<string>) { forall x | x in a :: x !in b }

  lemma DistinctAppend(a: seq<string>, b: seq<string>)
    ensures Distinct(a + b) <==> Distinct(a) && Distinct(b) && Apart(a, b)
  {
    var c := a + b;
    if Distinct(c) {
      forall i, j | 0 <= i < j < |a| ensures a[i] != a[j] {
        assert c[i] != c[j];
      }
      forall i, j | 0 <= i < j < |b| ensures b[i] != b[j] {
        assert c[|a| + i] != c[|a| + j];
      }
      forall x | x in a ensures x !in b {
        var i :| 0 <= i < |a| && a[i] == x;
        forall j | 0 <= j < |b| ensures b[j] != x {
          assert c[i] != c[|a| + j];
        }
      }
    }
    if Distinct(a) && Distinct(b) && Apart(a, b) {
      forall i, j | 0 <= i < j < |c| ensures c[i] != c[j] {
        if i < |a| && j >= |a| {
          assert a[i] in a && b[j - |a|] in b;
        }
      }
    }
  }

  lemma ApartIff(path: string, name: string, tree: Tree, rest: Forest)
    requires IsDirectory(path) && IsPlain(name) && Plain(tree) && PlainAll(rest) && name !in Names(rest)
    ensures Apart(Paths(tree, Join(path, name)), PathsAll(rest, path))
       <==> (tree.Leaf? ==> Stem(name) !in LeafStems(rest))
  {
    var mine := Paths(tree, Join(path, name));
    PathsOwned(path, name, tree);
    PathsAllOwned(path, rest);
    if tree.Leaf? && Stem(name) in LeafStems(rest) {
      JoinPlain(path, name);
      ExtensionOfPlain(path, name);
      StemHasPath(path, rest, Stem(name));
      assert mine[0] == path + "/" + Stem(name) + ".rs";
      assert mine[0] in mine;
    } else {
      forall file | file in mine ensures file !in PathsAll(rest, path) {
        if file in PathsAll(rest, path) {
          OwnerAmong(path, name, tree, rest, file);
        }
      }
    }
  }

  lemma {:induction false} DistinctIff(tree: Tree, path: string)
    requires IsDirectory(path) && Plain(tree)
    ensures Distinct(Paths(tree, path)) <==> DistinctStems(tree)
    decreases tree
  {
    if tree.Node? {
      DistinctAllIff(tree.children, path);
    }
  }

  lemma {:induction false} DistinctAllIff(children: Forest, path: string)
    requires IsDirectory(path) && PlainAll(children)
    ensures Distinct(PathsAll(children, path)) <==> DistinctStemsAll(children)
    decreases children
  {
    if children.Cons? {
      JoinPlain(path, children.name);
      hide Join, IsDirectory, IsPlain, Distinct, Apart, Stem;
      DistinctIff(children.tree, Join(path, children.name));
      DistinctAllIff(children.rest, path);
      ApartIff(path, children.name, children.tree, children.rest);
      DistinctAppend(Paths(children.tree, Join(path, children.name)), PathsAll(children.rest, path));
    }
  }

  // ----- The output -----

  /** The content after the first occurrence of a path among the paths. */
  function Lookup(out: seq<string>, path: string): Option<string>
    requires |out| % 2 == 0
    decreases out
  {
    if out == [] then None else if out[0] == path then Some(out[1]) else Lookup(out[2..], path)
  }

  ghost predicate DistinctKeys(out: seq<string>) {
    forall i, j | 0 <= 2 * i < 2 * j < |out| :: out[2 * i] != out[2 * j]
  }

  ghost predicate Keys(out: seq<string>, paths: seq<string>) {
    |out| == 2 * |paths| && forall k | 0 <= k < |paths| :: out[2 * k] == paths[k]
  }

  lemma KeysAppend(a: seq<string>, b: seq<string>, x: seq<string>, y: seq<string>)
    requires Keys(a, x) && Keys(b, y)
    ensures Keys(a + b, x + y)
  {
    forall k | 0 <= k < |x + y| ensures (a + b)[2 * k] == (x + y)[k] {
      if k >= |x| {
        assert (a + b)[2 * k] == b[2 * (k - |x|)];
      }
    }
  }

  lemma {:induction false} BuildKeys(tree: Tree, path: string)
    ensures Keys(Build(tree, path), Paths(tree, path))
    decreases tree
  {
    if tree.Node? {
      BuildAllKeys(tree.children, path);
    }
  }

  lemma {:induction false} BuildAllKeys(children: Forest, path: string)
    ensures Keys(BuildAll(children, path), PathsAll(children, path))
    decreases children
  {
    if children.Cons? {
      var down := Join(path, children.name);
      hide Join, Keys;
      BuildKeys(children.tree, down);
      BuildAllKeys(children.rest, path);
      KeysAppend(Build(children.tree, down), BuildAll(children.rest, path),
                 Paths(children.tree, down), PathsAll(children.rest, path));
    } else {
      assert Keys([], []);
    }
  }

  lemma {:induction false} LookupFinds(out: seq<string>, k: nat)
    requires |out| % 2 == 0 && 2 * k < |out| && DistinctKeys(out)
    ensures Lookup(out, out[2 * k]) == Some(out[2 * k + 1])
    decreases out
  {
    if k > 0 {
      assert out[2 * 0] != out[2 * k];
      var rest := out[2..];
      forall i, j | 0 <= 2 * i < 2 * j < |rest| ensures rest[2 * i] != rest[2 * j] {
        assert out[2 * (i + 1)] != out[2 * (j + 1)];
      }
      LookupFinds(rest, k - 1);
      assert rest[2 * (k - 1)] == out[2 * k] && rest[2 * (k - 1) + 1] == out[2 * k + 1];
    }
  }

  ghost predicate FindsAll(out: seq<string>, leaves: seq<Found>, base: string)
    requires |out| % 2 == 0
  {
    forall k | 0 <= k < |leaves| :: Lookup(out, WithExtension(Place(base, leaves[k].route))) == Some(leaves[k].source)
  }

  lemma ListedIsFound(out: seq<string>, leaves: seq<Found>, base: string)
    requires Lists(out, leaves, base) && DistinctKeys(out)
    ensures FindsAll(out, leaves, base)
  {
    hide WithExtension, Place, Lookup, DistinctKeys;
    forall k | 0 <= k < |leaves|
      ensures Lookup(out, WithExtension(Place(base, leaves[k].route))) == Some(leaves[k].source)
    {
      LookupFinds(out, k);
    }
  }

  /** The paths of the output differ exactly when no two leaves of a node have one
      stem; then every leaf is found by its path. */
  lemma InvertibleIff(tree: Tree, base: string)
    requires IsDirectory(base) && Plain(tree)
    ensures var out := Build(tree, base);
            && |out| % 2 == 0
            && (DistinctKeys(out) <==> DistinctStems(tree))
            && (DistinctStems(tree) ==> FindsAll(out, Leaves(tree, []), base))
  {
    hide Build, Paths, Leaves, Plain, IsDirectory, Distinct, DistinctStems, DistinctKeys, FindsAll, Keys, Lists;
    BuildKeys(tree, base);
    DistinctIff(tree, base);
    OnePairALeaf(tree, base);
    KeysDistinct(Build(tree, base), Paths(tree, base));
    if DistinctStems(tree) {
      ListedIsFound(Build(tree, base), Leaves(tree, []), base);
    }
  }

  lemma KeysDistinct(out: seq<string>, paths: seq<string>)
    requires Keys(out, paths)
    ensures |out| % 2 == 0
    ensures DistinctKeys(out) <==> Distinct(paths)
  {
    if Distinct(paths) {
      forall i, j | 0 <= 2 * i < 2 * j < |out| ensures out[2 * i] != out[2 * j] {
        assert paths[i] != paths[j];
      }
    }
    if DistinctKeys(out) {
      forall i, j | 0 <= i < j < |paths| ensures paths[i] != paths[j] {
        assert out[2 * i] != out[2 * j];
      }
    }
  }

  // ----- Names without dots -----

  predicate Dotless(tree: Tree)
    decreases tree
  {
    tree.Node? ==> DotlessAll(tree.children)
  }

  predicate DotlessAll(children: Forest)
    decreases children
  {
    children.Cons? ==> '.' !in children.name && Dotless(children.tree) && DotlessAll(children.rest)
  }

  lemma {:induction false} StemsAreNames(children: Forest)
    requires DotlessAll(children)
    ensures LeafStems(children) <= Names(children)
    decreases children
  {
    if children.Cons? {
      StemsAreNames(children.rest);
    }
  }

  lemma {:induction false} DotlessDistinct(tree: Tree)
    requires Plain(tree) && Dotless(tree)
    ensures DistinctStems(tree)
    decreases tree
  {
    if tree.Node? {
      DotlessAllDistinct(tree.children);
    }
  }

  lemma {:induction false} DotlessAllDistinct(children: Forest)
    requires PlainAll(children) && DotlessAll(children)
    ensures DistinctStemsAll(children)
    decreases children
  {
    if children.Cons? {
      StemsAreNames(children.rest);
      DotlessDistinct(children.tree);
      DotlessAllDistinct(children.rest);
    }
  }

  lemma SiblingsCollide(base: string, a: string, b: string, one: string, two: string)
    requires IsDirectory(base) && IsPlain(a) && IsPlain(b) && Stem(a) == Stem(b)
    ensures var path := base + "/" + Stem(a) + ".rs";
            Build(Node(Cons(a, Leaf(one), Cons(b, Leaf(two), Nil))), base) == [path, one, path, two]
  {
    hide Stem, WithExtension, Join, IsPlain;
    ExtensionOfPlain(base, a);
    ExtensionOfPlain(base, b);
    JoinPlain(base, a);
    JoinPlain(base, b);
    var path := base + "/" + Stem(a) + ".rs";
    var rest := Cons(b, Leaf(two), Nil);
    var all := Cons(a, Leaf(one), rest);
    assert BuildAll(Nil, base) == [];
    assert BuildAll(rest, base) == [path, two];
    assert BuildAll(all, base) == [path, one] + BuildAll(rest, base);
    assert Build(Node(all), base) == BuildAll(all, base);
  }

  function Twins(one: string, two: string): Tree { Node(Cons("a.b", Leaf(one), Cons("a.c", Leaf(two), Nil))) }

  /** Two leaves that differ after the dot get one path, and the second is not found. */
  lemma DotsCollide(base: string, one: string, two: string)
    requires IsDirectory(base)
    ensures var out := Build(Twins(one, two), base);
            |out| == 4 && out[0] == out[2] && Lookup(out, out[2]) == Some(one)
  {
    var b, c := "a.b", "a.c";
    assert b[..1] == c[..1];
    DotAt(b, 1);
    DotAt(c, 1);
    SiblingsCollide(base, b, c, one, two);
    var out := Build(Node(Cons(b, Leaf(one), Cons(c, Leaf(two), Nil))), base);
    assert out == Build(Twins(one, two), base);
    hide Build, Stem, Twins;
    assert Lookup(out, out[2]) == Some(one);
  }

  lemma DotAt(name: string, k: nat)
    requires 0 < k < |name| && name[k] == '.' && forall i | k < i < |name| :: name[i] != '.'
    ensures Stem(name) == name[..k]
  {
    assert name[k] in name;
  }
}
