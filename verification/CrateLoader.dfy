/** The loader itself, between numbers. */
module CrateLoader {
  // Crates and files are numbered, names are found through paths, and the graph is kept
  // between numbers. It refines `CrateWorld.Load`, which speaks of names only.

  import opened Basics
  import opened Wrappers
  import opened DepGraph
  import opened CrateWorld

  /** The files of one source root, as path and file id. */
  type Root = seq<(string, nat)>

  function CratePath(name: string): string {
    "/" + name + "/src/lib.rs"
  }

  function FileForPath(root: Root, path: string): Option<nat> {
    if root == [] then None
    else if root[0].0 == path then Some(root[0].1)
    else FileForPath(root[1..], path)
  }

  /** The file of the named crate, in the first root that has it. */
  function GetFileId(name: string, roots: seq<Root>): Option<nat> {
    if roots == [] then None
    else match FileForPath(roots[0], CratePath(name))
      case Some(id) => Some(id)
      case None => GetFileId(name, roots[1..])
  }

  /** The crate whose root is the given file; crates are numbered in order. */
  function CrateForRoot(fileId: nat, crateRoots: seq<nat>): Option<nat> {
    if crateRoots == [] then None
    else
      var last := |crateRoots| - 1;
      match CrateForRoot(fileId, crateRoots[..last])
      case Some(id) => Some(id)
      case None => if crateRoots[last] == fileId then Some(last) else None
  }

  function GetCrateId(name: string, roots: seq<Root>, crateRoots: seq<nat>): Option<nat> {
    match GetFileId(name, roots)
    case None => None
    case Some(fileId) => CrateForRoot(fileId, crateRoots)
  }

  function LastInRoot(root: Root): nat {
    if root == [] then 0 else Max(root[0].1, LastInRoot(root[1..]))
  }

  /** The greatest file id in use, 0 if there is none. */
  function LastFileId(roots: seq<Root>): nat {
    if roots == [] then 0
    else var last := |roots| - 1; Max(LastFileId(roots[..last]), LastInRoot(roots[last]))
  }

  // ----- Names and numbers -----

  /** Crate, file and root number `i` all belong to the `i`-th name. */
  ghost predicate Numbered(names: seq<string>, roots: seq<Root>, crateRoots: seq<nat>) {
    && Distinct(names) && |roots| == |crateRoots| == |names|
    && (forall i | 0 <= i < |names| :: roots[i] == [(CratePath(names[i]), i)])
    && (forall i | 0 <= i < |names| :: crateRoots[i] == i)
  }

  lemma PathsDiffer(a: string, b: string)
    requires CratePath(a) == CratePath(b)
    ensures a == b
  {
    assert CratePath(a)[1..|CratePath(a)| - 11] == a;
    assert CratePath(b)[1..|CratePath(b)| - 11] == b;
  }

  lemma OneFile(path: string, id: nat, wanted: string)
    ensures FileForPath([(path, id)], wanted) == if path == wanted then Some(id) else None
  {
    assert [(path, id)][1..] == [];
  }

  lemma {:induction false} FileIdFrom(names: seq<string>, roots: seq<Root>, crateRoots: seq<nat>, k: nat, name: string)
    requires Numbered(names, roots, crateRoots) && k <= |names|
    ensures name !in names[k..] ==> GetFileId(name, roots[k..]) == None
    ensures forall i | k <= i < |names| && names[i] == name :: GetFileId(name, roots[k..]) == Some(i)
    decreases |names| - k
  {
    if k < |names| {
      FileIdFrom(names, roots, crateRoots, k + 1, name);
      assert roots[k..][0] == roots[k] && roots[k..][1..] == roots[k + 1..];
      assert names[k..] == [names[k]] + names[k + 1..];
      OneFile(CratePath(names[k]), k, CratePath(name));
      if CratePath(names[k]) == CratePath(name) { PathsDiffer(names[k], name); }
    }
  }

  lemma {:induction false} CrateIdUpTo(crateRoots: seq<nat>, k: nat, i: nat)
    requires k <= |crateRoots| && forall j | 0 <= j < |crateRoots| :: crateRoots[j] == j
    ensures CrateForRoot(i, crateRoots[..k]) == if i < k then Some(i) else None
  {
    if k > 0 {
      CrateIdUpTo(crateRoots, k - 1, i);
      assert crateRoots[..k][..k - 1] == crateRoots[..k - 1];
    }
  }

  lemma {:induction false} LastFileIdUpTo(names: seq<string>, roots: seq<Root>, crateRoots: seq<nat>, k: nat)
    requires Numbered(names, roots, crateRoots) && k <= |names|
    ensures LastFileId(roots[..k]) == if k == 0 then 0 else k - 1
  {
    if k > 0 {
      LastFileIdUpTo(names, roots, crateRoots, k - 1);
      assert roots[..k][..k - 1] == roots[..k - 1];
      assert LastInRoot(roots[k - 1]) == k - 1 by { assert roots[k - 1][1..] == []; }
    }
  }

  /** Looking up a name gives its number, as file and as crate, or nothing; the
      next file id is the next number. */
  lemma Lookups(names: seq<string>, roots: seq<Root>, crateRoots: seq<nat>, name: string)
    requires Numbered(names, roots, crateRoots)
    ensures name !in names ==> GetFileId(name, roots) == None && GetCrateId(name, roots, crateRoots) == None
    ensures forall i | 0 <= i < |names| && names[i] == name ::
              GetFileId(name, roots) == GetCrateId(name, roots, crateRoots) == Some(i)
    ensures names != [] ==> LastFileId(roots) + 1 == |names|
  {
    FileIdFrom(names, roots, crateRoots, 0, name);
    assert roots[0..] == roots && names[0..] == names && crateRoots[..|crateRoots|] == crateRoots;
    forall i | 0 <= i < |names| ensures CrateForRoot(i, crateRoots) == Some(i) {
      CrateIdUpTo(crateRoots, |crateRoots|, i);
    }
    LastFileIdUpTo(names, roots, crateRoots, |names|);
    assert roots[..|names|] == roots;
  }

  lemma NumberedMore(names: seq<string>, roots: seq<Root>, crateRoots: seq<nat>, name: string)
    requires Numbered(names, roots, crateRoots) && name !in names
    ensures Numbered(names + [name], roots + [[(CratePath(name), |names|)]], crateRoots + [|names|])
  {
  }

  ghost predicate InRange(e: Edges<nat>, n: nat) {
    forall edge | edge in e :: edge.0 < n && edge.1 < n
  }

  /** The graph between names. */
  ghost function Named(e: Edges<nat>, names: seq<string>): Edges<string>
    requires InRange(e, |names|)
  {
    set edge | edge in e :: (names[edge.0], names[edge.1])
  }

  lemma {:induction false} PathNamed(e: Edges<nat>, names: seq<string>, p: seq<nat>, i: nat, j: nat)
    requires InRange(e, |names|) && i < |names| && j < |names| && Leads(e, p, i, j)
    ensures Reaches(Named(e, names), names[i], names[j])
    decreases p
  {
    if |p| == 1 {
      ReachesSelf(Named(e, names), names[i]);
    } else {
      Tail(e, p, i, j);
      PathNamed(e, names, p[1..], p[1], j);
      assert (i, p[1]) in e && (names[(i, p[1]).0], names[(i, p[1]).1]) in Named(e, names);
      Prepend(Named(e, names), names[i], names[p[1]], names[j]);
    }
  }

  lemma {:induction false} PathNumbered(e: Edges<nat>, names: seq<string>, q: seq<string>, i: nat, j: nat)
    requires InRange(e, |names|) && Distinct(names) && i < |names| && j < |names|
    requires Leads(Named(e, names), q, names[i], names[j])
    ensures Reaches(e, i, j)
    decreases q
  {
    if |q| == 1 {
      assert i == j;
      ReachesSelf(e, i);
    } else {
      Tail(Named(e, names), q, names[i], names[j]);
      var edge :| edge in e && (names[edge.0], names[edge.1]) == (names[i], q[1]);
      assert edge == (i, edge.1);
      PathNumbered(e, names, q[1..], edge.1, j);
      Prepend(e, i, edge.1, j);
    }
  }

  lemma ReachesNamed(e: Edges<nat>, names: seq<string>, i: nat, j: nat)
    requires InRange(e, |names|) && Distinct(names) && i < |names| && j < |names|
    ensures Reaches(e, i, j) <==> Reaches(Named(e, names), names[i], names[j])
  {
    if Reaches(e, i, j) {
      var p :| Leads(e, p, i, j);
      PathNamed(e, names, p, i, j);
    }
    if Reaches(Named(e, names), names[i], names[j]) {
      var q :| Leads(Named(e, names), q, names[i], names[j]);
      PathNumbered(e, names, q, i, j);
    }
  }

  ghost function WithText(names: seq<string>, texts: map<nat, string>): set<string> {
    set i | 0 <= i < |names| && HasText(texts, i) :: names[i]
  }

  ghost predicate HasText(texts: map<nat, string>, i: nat) {
    i in texts && texts[i] != ""
  }

  lemma TextSet(names: seq<string>, texts: map<nat, string>, i: nat, text: string)
    requires Distinct(names) && i < |names|
    ensures WithText(names, texts[i := text])
         == if text != "" then WithText(names, texts) + {names[i]} else WithText(names, texts) - {names[i]}
  {
    var after := texts[i := text];
    assert forall j: nat :: HasText(after, j) <==> if j == i then text != "" else HasText(texts, j);
    assert text != "" ==> HasText(after, i);
  }

  lemma RefusedIsCyclic(plan: Plan, rs: seq<Request>, n: nat)
    requires Closed(plan) && n <= |rs| && Proper(plan, rs[..n]) && !Acyclic(LoadAll(START, rs[..n]).edges)
    ensures !Acyclic(ManifestGraph(plan))
  {
    if Acyclic(ManifestGraph(plan)) {
      NeverCyclic(plan, rs[..n]);
    }
  }

  lemma NamesStay(plan: Plan, rs: seq<Request>)
    requires Closed(plan) && Proper(plan, rs)
    ensures DEFAULT_NAMES <= LoadAll(START, rs).names
  {
    RunKeeps(plan, rs);
  }

  lemma NothingLoaded(rs: seq<Request>)
    ensures LoadAll(START, rs[..0]) == START
  {
  }

  /** The next load of a proper sequence is refused for no name. */
  lemma NextAdmitted(plan: Plan, rs: seq<Request>, i: nat)
    requires Closed(plan) && Proper(plan, rs) && i < |rs|
    ensures var w := LoadAll(START, rs[..i]);
            && DEFAULT_NAMES <= w.names && LoadAll(START, rs[..i + 1]) == Load(w, rs[i])
            && (rs[i].name in w.names ||
                ((rs[i].transitive || '-' !in rs[i].name) && !Declares(rs[i].deps, rs[i].name)))
    ensures Proper(plan, rs[..i + 1])
  {
    assert rs[..i + 1][..i] == rs[..i];
    assert Proper(plan, rs[..i]) && Proper(plan, rs[..i + 1]);
    hide Load, Declares, Admitted, Closed;
    NamesStay(plan, rs[..i]);
    FitsAdmitted(plan, LoadAll(START, rs[..i]), rs[i]);
    AdmittedIff(LoadAll(START, rs[..i]), rs[i]);
  }

  const DEFAULT_ROOTS: seq<Root> :=
    [[(CratePath(LOCAL), 0)], [(CratePath(CORE), 1)], [(CratePath(ALLOC), 2)], [(CratePath(STD), 3)]]

  lemma DefaultsNumbered()
    ensures Numbered(DEFAULT_NAMES, DEFAULT_ROOTS, [0, 1, 2, 3])
  {
    DefaultsDiffer();
    hide CratePath;
  }

  lemma NothingNamed(names: seq<string>)
    ensures InRange({}, |names|) && Named({}, names) == {} && Acyclic(Named({}, names))
  {
    assert Named({}, names) == {};
  }

  lemma FourTexts(texts: map<nat, string>)
    ensures !HasText(texts, 0) && HasText(texts, 1) && HasText(texts, 2) && HasText(texts, 3)
            ==> WithText(DEFAULT_NAMES, texts) == LIBS
  {
    var names := DEFAULT_NAMES;
    assert names[0] == LOCAL && names[1] == CORE && names[2] == ALLOC && names[3] == STD;
  }

  lemma DefaultsAcyclic()
    ensures Acyclic(DEFAULT_EDGES)
  {
    DefaultsDiffer();
    var none: Edges<string> := {};
    LowerTransitive(none);
    assert forall x, y | (x, y) in DEFAULT_EDGES :: Lower(none, y, x);
    hide Lower;
    DownhillAcyclic(DEFAULT_EDGES, (x: string, y: string) => Lower(none, x, y));
  }

  lemma NoText(names: seq<string>, texts: map<nat, string>, name: string)
    requires forall i | 0 <= i < |names| && names[i] == name :: !HasText(texts, i)
    ensures name !in WithText(names, texts)
  {
  }

  lemma HasItsText(names: seq<string>, texts: map<nat, string>, i: nat, name: string)
    requires i < |names| && names[i] == name && HasText(texts, i)
    ensures name in WithText(names, texts)
  {
  }

  lemma NoDeps(deps: seq<string>, name: string, full: set<string>)
    ensures Missing(SnakeAll(deps)[..0], full) == [] && From(name, Present(SnakeAll(deps)[..0], full)) == {}
  {
  }

  lemma OneMoreDep(deps: seq<string>, i: nat, name: string, full: set<string>)
    requires i < |deps|
    ensures deps[..i + 1] == deps[..i] + [deps[i]]
    ensures Missing(deps[..i + 1], full) == Missing(deps[..i], full) + (if deps[i] in full then [] else [deps[i]])
    ensures From(name, Present(deps[..i + 1], full))
         == From(name, Present(deps[..i], full)) + (if deps[i] in full then {(name, deps[i])} else {})
    ensures deps[i] in full ==> (name, deps[i]) in From(name, Present(deps, full))
    ensures From(name, Present(deps[..i], full)) <= From(name, Present(deps, full))
  {
    assert deps[..i + 1] == deps[..i] + [deps[i]];
    MissingMore(deps[..i], deps[i], full);
    assert Present(deps[..i + 1], full) == Present(deps[..i], full) + (if deps[i] in full then {deps[i]} else {});
  }

  lemma NameAdded(names: seq<string>, texts: map<nat, string>, name: string)
    ensures WithText(names + [name], texts[|names| := ""]) == WithText(names, texts)
  {
    var after := texts[|names| := ""];
    assert forall j: nat :: HasText(after, j) <==> j != |names| && HasText(texts, j);
  }

  lemma OneNumber(names: seq<string>, roots: seq<Root>, crateRoots: seq<nat>, a: string, b: string)
    requires Numbered(names, roots, crateRoots)
    requires GetFileId(a, roots).Some? && GetFileId(a, roots) == GetFileId(b, roots)
    ensures a == b
  {
    Lookups(names, roots, crateRoots, a);
    Lookups(names, roots, crateRoots, b);
    hide GetFileId, GetCrateId, Numbered;
    var i :| 0 <= i < |names| && names[i] == a;
    var j :| 0 <= j < |names| && names[j] == b;
  }

  lemma RefusedEdgeIsCycle(e: Edges<string>, final: Edges<string>, a: string, b: string)
    requires e <= final && (a, b) in final && Reaches(e, b, a)
    ensures !Acyclic(final)
  {
    Monotone(e, final, b, a);
  }

  // ----- The loader -----

  class WorldState {
    var sourceRoots: seq<Root>
    var crateRoots: seq<nat>
    var edges: Edges<nat>
    var texts: map<nat, string>
    var neededDeps: map<string, seq<string>>
    ghost var names: seq<string>

    ghost predicate Valid()
      reads this
    {
      && Numbered(names, sourceRoots, crateRoots)
      && InRange(edges, |names|)
      && Acyclic(Named(edges, names))
      && (forall i: nat :: i in texts <==> i < |names|)
      && (forall k | k in neededDeps :: k in names)
    }

    /** The graph between names. */
    ghost function Graph(): Edges<string>
      reads this
      requires Valid()
    {
      Named(edges, names)
    }

    ghost function Full(): set<string>
      reads this
      requires Valid()
    {
      WithText(names, texts)
    }

    ghost function Abstract(): World
      reads this
      requires Valid()
    {
      World(names, Full(), Graph(), neededDeps)
    }

    constructor ()
      ensures Valid() && names == [] && neededDeps == map[] && Graph() == {}
    {
      sourceRoots, crateRoots, edges, texts, neededDeps, names := [], [], {}, map[], map[], [];
    }

    /** Number the local crate and the libraries and link them; no edge is refused. */
    method LoadDefaultCrates(coreLib: string, allocLib: string, stdLib: string)
      requires Valid() && names == [] && neededDeps == map[] && Graph() == {}
      modifies this
      ensures Valid() && names == DEFAULT_NAMES == ["solpg", "core", "alloc", "std"] && neededDeps == map[]
      ensures Graph() == DEFAULT_EDGES == {
                ("alloc", "core"), ("std", "core"), ("std", "alloc"),
                ("solpg", "core"), ("solpg", "alloc"), ("solpg", "std")
              }
      ensures coreLib != "" && allocLib != "" && stdLib != "" ==> Abstract() == START
    {
      hide WithText, Numbered, Acyclic, Named;
      NothingNamed(DEFAULT_NAMES);
      DefaultsNumbered();
      sourceRoots, crateRoots, edges := DEFAULT_ROOTS, [0, 1, 2, 3], {};
      names := DEFAULT_NAMES;
      texts := map[0 := "", 1 := coreLib, 2 := allocLib, 3 := stdLib];
      FourTexts(texts);
      LinkDefaults();
    }

    method LinkDefaults()
      requires Valid() && names == DEFAULT_NAMES && Graph() == {}
      modifies `edges
      ensures Valid() && Graph() == DEFAULT_EDGES
    {
      hide Numbered, Acyclic, Named;
      AddDefaultDep(2, 1);
      AddDefaultDep(3, 1);
      AddDefaultDep(3, 2);
      AddDefaultDep(0, 1);
      AddDefaultDep(0, 2);
      AddDefaultDep(0, 3);
    }

    method AddDefaultDep(from: nat, to: nat)
      requires Valid() && from < |names| && to < |names| && Graph() <= DEFAULT_EDGES
      requires (names[from], names[to]) in DEFAULT_EDGES
      modifies `edges
      ensures Valid() && Graph() == old(Graph()) + {(names[from], names[to])}
    {
      DefaultsAcyclic();
      hide Numbered, Acyclic, Named;
      var ok := AddDep(from, to);
      if !ok {
        RefusedEdgeIsCycle(Graph(), DEFAULT_EDGES, names[from], names[to]);
      }
    }

    /** Add an edge unless it closes a cycle. */
    method AddDep(from: nat, to: nat) returns (ok: bool)
      requires Valid() && from < |names| && to < |names|
      modifies `edges
      ensures Valid()
      ensures ok <==> !Reaches(old(Graph()), names[to], names[from])
      ensures Graph() == if ok then old(Graph()) + {(names[from], names[to])} else old(Graph())
    {
      var seen := Reachable(edges, to);
      ReachesNamed(edges, names, to, from);
      ok := from !in seen;
      if ok {
        EdgeKeepsAcyclic(Graph(), names[from], names[to]);
        OneMoreEdge(edges, names, from, to);
        edges := edges + {(from, to)};
      }
    }

    /** Add an edge to the named crate. `final` is a graph that is to contain it:
        a refusal shows that `final` has a cycle. */
    method AddNamedDep(from: nat, name: string, ghost final: Edges<string>) returns (ok: bool)
      requires Valid() && from < |names| && name in names
      requires Graph() <= final && (names[from], name) in final
      modifies `edges
      ensures Valid()
      ensures if ok then Graph() == old(Graph()) + {(names[from], name)} else !Acyclic(final)
    {
      Lookups(names, sourceRoots, crateRoots, name);
      ghost var i :| 0 <= i < |names| && names[i] == name;
      var to := GetCrateId(name, sourceRoots, crateRoots).value;
      assert to == i;
      ok := AddDep(from, to);
      if !ok {
        RefusedEdgeIsCycle(Graph(), final, names[from], name);
      }
    }

    /** The dependencies every full crate has. */
    method AddLibs(crate: nat, ghost final: Edges<string>) returns (ok: bool)
      requires Valid() && crate < |names| && DEFAULT_NAMES <= names
      requires Graph() <= final && From(names[crate], LIBS) <= final
      modifies `edges
      ensures Valid()
      ensures if ok then Graph() == old(Graph()) + From(names[crate], LIBS) else !Acyclic(final)
    {
      hide Numbered;
      assert forall i | 0 <= i < 4 :: names[i] == DEFAULT_NAMES[i];
      assert CORE == names[1] && ALLOC == names[2] && STD == names[3];
      ok := AddNamedDep(crate, CORE, final);
      if ok {
        ok := AddNamedDep(crate, ALLOC, final);
        if ok {
          ok := AddNamedDep(crate, STD, final);
        }
      }
    }

    /** Add the manifest's dependencies that have text; return the others. The text of a
        crate that is new in this call has not been set, and asking for it fails. */
    method AddManifestDeps(crate: nat, deps: seq<string>, isNew: bool, ghost final: Edges<string>)
      returns (ok: bool, missing: seq<string>)
      requires Valid() && crate < |names|
      requires Graph() <= final && From(names[crate], Present(SnakeAll(deps), Full())) <= final
      modifies `edges
      ensures Valid()
      ensures missing == Missing(SnakeAll(deps), Full()) || !ok
      ensures if ok then Graph() == old(Graph()) + From(names[crate], Present(SnakeAll(deps), Full()))
              else (isNew && names[crate] in SnakeAll(deps)) || !Acyclic(final)
      ensures ok && isNew ==> names[crate] !in SnakeAll(deps)
      ensures ok ==> forall d, s | d in deps && Spelling(d, s) ::
                if s in Full() then (names[crate], s) in Graph() && s !in missing else s in missing
    {
      hide Spelling;
      hide Numbered, Snake, Acyclic, Named, SnakeAll, Missing, From, Present;
      ok, missing := true, [];
      var i := 0;
      ghost var full := Full();
      ghost var name := names[crate];
      NoDeps(deps, name, full);
      while i < |deps|
        invariant 0 <= i <= |deps| && ok && Valid() && Full() == full
        invariant missing == Missing(SnakeAll(deps)[..i], full)
        invariant Graph() == old(Graph()) + From(name, Present(SnakeAll(deps)[..i], full))
        invariant isNew ==> name !in SnakeAll(deps)[..i]
      {
        var dep := Snake(deps[i]);
        SnakeAt(deps, i);
        OneMoreDep(SnakeAll(deps), i, name, full);
        ghost var graph := Graph();
        var present;
        ok, present := TakeDep(crate, dep, isNew, final);
        if !ok {
          assert SnakeAll(deps)[i] == dep;
          return;
        }
        assert graph + (if dep in full then {(name, dep)} else {}) == Graph();
        if !present {
          missing := missing + [dep];
        }
        i := i + 1;
      }
      assert SnakeAll(deps)[..i] == SnakeAll(deps);
      ManifestDeclared(name, deps, full);
    }

    /** One dependency: an edge to it when it has text. */
    method TakeDep(crate: nat, dep: string, isNew: bool, ghost final: Edges<string>) returns (ok: bool, present: bool)
      requires Valid() && crate < |names|
      requires Graph() <= final && (dep in Full() ==> (names[crate], dep) in final)
      modifies `edges
      ensures Valid()
      ensures ok ==> present == (dep in Full()) && !(isNew && dep == names[crate])
      ensures ok ==> Graph() == old(Graph()) + (if present then {(names[crate], dep)} else {})
      ensures !ok ==> (isNew && dep == names[crate]) || !Acyclic(final)
    {
      hide Numbered, Acyclic, Named, WithText;
      ok, present := true, false;
      Lookups(names, sourceRoots, crateRoots, dep);
      Lookups(names, sourceRoots, crateRoots, names[crate]);
      var found := GetFileId(dep, sourceRoots);
      if found == Some(crate) && isNew {
        OneNumber(names, sourceRoots, crateRoots, dep, names[crate]);
        return false, false;
      }
      if found.Some? && texts[found.value] != "" {
        HasItsText(names, texts, found.value, dep);
        present := true;
        ok := AddNamedDep(crate, dep, final);
      } else {
        NoText(names, texts, dep);
      }
    }

    /** Give the named crate to the earlier crates that were waiting for it. */
    method Repair(crate: nat, name: string, ghost final: Edges<string>) returns (ok: bool)
      requires Valid() && crate < |names| && names[crate] == name
      requires Graph() <= final && Into(Waiting(neededDeps, name), name) <= final
      modifies `edges, `neededDeps
      ensures Valid()
      ensures neededDeps == Repaired(old(neededDeps), name) || !ok
      ensures if ok
              then Graph() == old(Graph()) + Into(Waiting(old(neededDeps), name), name)
              else !Acyclic(final)
    {
      hide Numbered, Acyclic, Named;
      ok := true;
      var todo := neededDeps.Keys;
      ghost var done: set<string> := {};
      while todo != {}
        invariant ok && Valid() && todo !! done && todo + done == old(neededDeps).Keys == neededDeps.Keys
        invariant forall k | k in todo :: neededDeps[k] == old(neededDeps)[k]
        invariant forall k | k in done :: neededDeps[k] == RemoveFirst(old(neededDeps)[k], name)
        invariant Graph() == old(Graph()) + Into(done * Waiting(old(neededDeps), name), name)
      {
        var k :| k in todo;
        ok := RepairOne(crate, name, k, final);
        if !ok {
          return;
        }
        todo, done := todo - {k}, done + {k};
      }
      assert done * Waiting(old(neededDeps), name) == Waiting(old(neededDeps), name);
    }

    /** One turn of `Repair`. */
    method RepairOne(crate: nat, name: string, k: string, ghost final: Edges<string>) returns (ok: bool)
      requires Valid() && crate < |names| && names[crate] == name && k in neededDeps
      requires Graph() <= final && (name in neededDeps[k] ==> (k, name) in final)
      modifies `edges, `neededDeps
      ensures Valid()
      ensures ok ==> neededDeps == old(neededDeps)[k := RemoveFirst(old(neededDeps)[k], name)]
      ensures ok ==> Graph() == old(Graph()) + (if name in old(neededDeps)[k] then {(k, name)} else {})
      ensures !ok ==> !Acyclic(final)
    {
      hide Numbered, Acyclic, Named;
      ok := true;
      if name in neededDeps[k] {
        Lookups(names, sourceRoots, crateRoots, k);
        ghost var i :| 0 <= i < |names| && names[i] == k;
        var from := GetCrateId(k, sourceRoots, crateRoots).value;
        assert from == i;
        ok := AddDep(from, crate);
        if !ok {
          RefusedEdgeIsCycle(Graph(), final, k, name);
          return;
        }
        neededDeps := neededDeps[k := RemoveFirst(neededDeps[k], name)];
      } else {
        NotThere(neededDeps[k], name);
      }
    }

    /** Load a crate. The call goes through exactly when the resulting graph has no
        cycle, a new crate does not name itself, and one that the local crate is to
        depend on has no dash; and then it does what `Load` says: a dependency is looked
        up with underscores for its dashes, and becomes an edge or is missing. */
    method LoadDependency(name: string, code: Option<string>, deps: seq<string>, transitive: bool)
      returns (ok: bool, missing: seq<string>)
      requires Valid() && DEFAULT_NAMES <= names
      modifies this
      ensures ok <==>
                && (name in old(names) || ((transitive || '-' !in name) && !Declares(deps, name)))
                && Acyclic(Load(old(Abstract()), Request(name, code, deps, transitive)).edges)
      ensures ok ==> Valid() && Abstract() == Load(old(Abstract()), Request(name, code, deps, transitive))
      ensures ok ==> missing == Missing(SnakeAll(deps), old(Full()))
      ensures ok ==> forall d, s | d in deps && Spelling(d, s) ::
                if s in old(Full()) then (name, s) in Graph() && s !in missing else s in missing
      ensures ok ==> forall s | s in missing :: Declares(deps, s) && s !in old(Full())
    {
      hide Numbered, WithText, SnakeAll, Missing, LocalEdges, LibEdges, ManifestEdges, RepairEdges;
      hide Spelling, Declares, NameAccepted, NamesItself;
      AdmittedIff(Abstract(), Request(name, code, deps, transitive));
      hide Repaired, Acyclic, Named;
      ghost var r, w := Request(name, code, deps, transitive), Abstract();
      ghost var final := Load(w, r).edges;
      missing := [];
      var crate, isNew;
      ok, crate, isNew := FindOrAdd(name, transitive, w, r);
      if ok {
        ok, missing := Connect(crate, name, code, deps, isNew, w, r);
        if ok {
          assert Graph() == final;
          SetText(crate, if code.Some? then code.value else "");
          Declared(w, r);
        }
      }
    }

    method SetText(crate: nat, text: string)
      requires Valid() && crate < |names|
      modifies `texts
      ensures Valid()
      ensures Full() == if text != "" then old(Full()) + {names[crate]} else old(Full()) - {names[crate]}
    {
      hide Numbered, Acyclic, Named;
      TextSet(names, texts, crate, text) by { KnownOnce(); }
      texts := texts[crate := text];
    }

    lemma KnownOnce()
      requires Valid()
      ensures Distinct(names)
    {
    }

    /** The number of the crate, new or not; file and crate numbers agree. */
    method FindOrAdd(name: string, transitive: bool, ghost w: World, ghost r: Request)
      returns (ok: bool, crate: nat, isNew: bool)
      requires Valid() && DEFAULT_NAMES <= names
      requires w == Abstract() && r.name == name && r.transitive == transitive
      modifies this
      ensures isNew == (name !in w.names)
      ensures ok ==> Valid() && crate < |names| && names[crate] == name && names == Load(w, r).names
      ensures ok ==> neededDeps == w.needed && Full() == w.full && DEFAULT_NAMES <= names
      ensures ok ==> Graph() == w.edges + LocalEdges(w, r) && NameAccepted(w, r)
      ensures !ok ==> !NameAccepted(w, r) || !Acyclic(Load(w, r).edges)
    {
      ok := true;
      Lookups(names, sourceRoots, crateRoots, name);
      hide Numbered, WithText, LibEdges, ManifestEdges, RepairEdges, SnakeAll, Missing, Acyclic, Named;
      var found := GetFileId(name, sourceRoots);
      isNew := found.None?;
      if found.Some? {
        crate := GetCrateId(name, sourceRoots, crateRoots).value;
        ghost var i :| 0 <= i < |names| && names[i] == name;
        assert crate == i;
      } else {
        crate := LastFileId(sourceRoots) + 1;
        assert names[0] == DEFAULT_NAMES[0];
        ok := AddCrate(name, crate, transitive, Load(w, r).edges);
      }
    }

    /** Everything that follows once the crate has its number. */
    method Connect(crate: nat, name: string, code: Option<string>, deps: seq<string>, isNew: bool,
                   ghost w: World, ghost r: Request)
      returns (ok: bool, missing: seq<string>)
      requires Valid() && DEFAULT_NAMES <= names && crate < |names| && names[crate] == name
      requires r.name == name && r.code == code && r.deps == deps && isNew == (name !in w.names)
      requires neededDeps == w.needed && Full() == w.full && Graph() == w.edges + LocalEdges(w, r)
      modifies `edges, `neededDeps
      ensures ok ==> Valid() && Graph() == Load(w, r).edges && !NamesItself(w, r)
      ensures ok ==> neededDeps == Load(w, r).needed && missing == Missing(SnakeAll(deps), w.full)
      ensures !ok ==> NamesItself(w, r) || !Acyclic(Load(w, r).edges)
    {
      hide Numbered, WithText, SnakeAll, Missing, LocalEdges, From, Present, Into, Waiting, Repaired, Acyclic, Named;
      ghost var final := Load(w, r).edges;
      missing := [];
      ok := true;
      if code.Some? {
        ok := AddLibs(crate, final);
        if !ok {
          return;
        }
      }
      assert Graph() == w.edges + LocalEdges(w, r) + LibEdges(r);
      ok, missing := AddManifestDeps(crate, deps, isNew, final);
      if !ok {
        return;
      }
      assert Graph() == w.edges + LocalEdges(w, r) + LibEdges(r) + ManifestEdges(w, r);
      ok := Repair(crate, name, final);
      if !ok {
        return;
      }
      assert Graph() == w.edges + LocalEdges(w, r) + LibEdges(r) + ManifestEdges(w, r) + RepairEdges(w, r);
      neededDeps := neededDeps[name := missing];
    }

    /** Any proper sequence of loads with manifests that form no circle goes through; one
        that loads every crate goes through only then. */
    method LoadEach(rs: seq<Request>, ghost plan: Plan) returns (ok: bool)
      requires Valid() && Abstract() == START
      requires Closed(plan) && Proper(plan, rs)
      modifies this
      ensures Acyclic(ManifestGraph(plan)) ==> ok
      ensures Complete(plan, rs) && ok ==> Acyclic(ManifestGraph(plan))
      ensures ok ==> Valid() && Abstract() == LoadAll(START, rs)
    {
      hide Numbered, WithText, Named, Acyclic, Closed, ManifestGraph, Load, Complete, Admitted;
      hide Declares, Spelling, SnakeAll, Missing, Proper, LoadAll;
      assert LoadAll(START, rs[..0]) == START by { NothingLoaded(rs); }
      ok := true;
      var i := 0;
      while i < |rs|
        invariant 0 <= i <= |rs| && ok && Valid() && Abstract() == LoadAll(START, rs[..i])
      {
        NextAdmitted(plan, rs, i);
        var loaded, _ := LoadDependency(rs[i].name, rs[i].code, rs[i].deps, rs[i].transitive);
        if !loaded {
          RefusedIsCyclic(plan, rs, i + 1);
          return false;
        }
        i := i + 1;
      }
      assert rs[..i] == rs;
      if Complete(plan, rs) {
        AcyclicGraph();
        AcyclicIff(plan, rs);
      }
    }

    lemma AcyclicGraph()
      requires Valid()
      ensures Acyclic(Graph())
    {
    }

    /** Number a new crate; unless it is transitive the local crate depends on it, under a
        name that may hold no dash. */
    method AddCrate(name: string, fileId: nat, transitive: bool, ghost final: Edges<string>) returns (ok: bool)
      requires Valid() && name !in names && names != [] && names[0] == LOCAL && fileId == |names|
      requires Graph() <= final && (!transitive ==> (LOCAL, name) in final)
      modifies this
      ensures ok ==> Valid() && names == old(names) + [name] && neededDeps == old(neededDeps)
      ensures ok ==> Full() == old(Full())
      ensures ok ==> Graph() == old(Graph()) + (if transitive then {} else {(LOCAL, name)})
      ensures ok ==> transitive || IsCrateName(name)
      ensures !ok ==> (!transitive && !IsCrateName(name)) || !Acyclic(final)
    {
      NumberedMore(names, sourceRoots, crateRoots, name);
      NameAdded(names, texts, name);
      hide WithText, Numbered;
      assert Named(edges, names + [name]) == Named(edges, names);
      sourceRoots := sourceRoots + [[(CratePath(name), fileId)]];
      crateRoots := crateRoots + [fileId];
      texts := texts[fileId := ""];
      names := names + [name];
      ok := true;
      if !transitive {
        if !IsCrateName(name) {
          return false;
        }
        ok := AddDep(0, fileId);
        if !ok {
          RefusedEdgeIsCycle(Graph(), final, LOCAL, name);
        }
      }
    }
  }

  /** What becomes of a dependency, by its name as the manifest has it. */
  lemma ManifestDeclared(from: string, deps: seq<string>, full: set<string>)
    ensures forall d, s | d in deps && Spelling(d, s) ::
              if s in full then
                (from, s) in From(from, Present(SnakeAll(deps), full)) && s !in Missing(SnakeAll(deps), full)
              else s in Missing(SnakeAll(deps), full)
  {
    hide Spelling, SnakeAll, Missing;
    MissingOk(SnakeAll(deps), full);
    forall d, s | d in deps && Spelling(d, s) ensures s in SnakeAll(deps) {
      SnakeAllIff(deps, s);
      assert Declares(deps, s);
    }
  }

  lemma Declared(w: World, r: Request)
    ensures forall d, s | d in r.deps && Spelling(d, s) ::
              if s in w.full then (r.name, s) in Load(w, r).edges && s !in Missing(SnakeAll(r.deps), w.full)
              else s in Missing(SnakeAll(r.deps), w.full)
    ensures forall s | s in Missing(SnakeAll(r.deps), w.full) :: Declares(r.deps, s) && s !in w.full
  {
    ManifestDeclared(r.name, r.deps, w.full);
    hide Spelling, Declares, SnakeAll, Missing, LocalEdges, LibEdges, RepairEdges;
    forall s | s in Missing(SnakeAll(r.deps), w.full) ensures Declares(r.deps, s) && s !in w.full {
      MissingDeclared(r.deps, w.full, s);
    }
  }

  lemma {:induction false} NotThere(xs: seq<string>, x: string)
    requires x !in xs
    ensures RemoveFirst(xs, x) == xs
  {
    if xs != [] {
      NotThere(xs[1..], x);
    }
  }

  lemma {:induction false} SnakeAt(names: seq<string>, i: nat)
    requires i < |names|
    ensures SnakeAll(names)[i] == Snake(names[i])
  {
    if i > 0 {
      SnakeAt(names[1..], i - 1);
    }
  }

  lemma {:induction false} MissingMore(deps: seq<string>, d: string, full: set<string>)
    ensures Missing(deps + [d], full) == Missing(deps, full) + (if d in full then [] else [d])
  {
    if deps == [] {
      assert deps + [d] == [d] && [d][1..] == [];
    } else {
      assert (deps + [d])[1..] == deps[1..] + [d];
      MissingMore(deps[1..], d, full);
    }
  }

  lemma OneMoreEdge(e: Edges<nat>, names: seq<string>, from: nat, to: nat)
    requires InRange(e, |names|) && from < |names| && to < |names|
    ensures InRange(e + {(from, to)}, |names|)
    ensures Named(e + {(from, to)}, names) == Named(e, names) + {(names[from], names[to])}
  {
    var edge := (from, to);
    var more := e + {edge};
    forall x | x in Named(e, names) + {(names[from], names[to])} ensures x in Named(more, names) {
      if x == (names[from], names[to]) {
        assert edge in more && (names[edge.0], names[edge.1]) == x;
      } else {
        var y :| y in e && (names[y.0], names[y.1]) == x;
        assert y in more;
      }
    }
  }
}
