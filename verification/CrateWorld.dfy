/** Lazy loading of crates, by name. */
module CrateWorld {
  // A crate may arrive before or after the crates it depends on, and edges that cannot
  // be added yet are remembered and repaired.

  import opened Basics
  import opened Wrappers
  import opened DepGraph

  const LOCAL := "solpg"

  const CORE := "core"

  const ALLOC := "alloc"

  const STD := "std"

  lemma DefaultsDiffer()
    ensures LOCAL != CORE && LOCAL != ALLOC && LOCAL != STD
    ensures CORE != ALLOC && CORE != STD && ALLOC != STD
  {
    assert |LOCAL| == 5 && LOCAL[0] == 's' && |CORE| == 4 && ALLOC[0] == 'a' && |ALLOC| == 5 && |STD| == 3;
  }

  /** The libraries every full crate depends on. */
  const LIBS: set<string> := {CORE, ALLOC, STD}

  const DEFAULT_NAMES: seq<string> := [LOCAL, CORE, ALLOC, STD]

  const DEFAULT_EDGES: Edges<string> := {
    (ALLOC, CORE), (STD, CORE), (STD, ALLOC),
    (LOCAL, CORE), (LOCAL, ALLOC), (LOCAL, STD)
  }

  /** One call: without code it loads a stub; `deps` are the manifest's dependency names. */
  datatype Request = Request(name: string, code: Option<string>, deps: seq<string>, transitive: bool)

  /** `full` holds the crates whose file has text. `needed` remembers, crate by crate,
      the dependencies for which there is no edge yet. */
  datatype World = World(names: seq<string>, full: set<string>, edges: Edges<string>, needed: map<string, seq<string>>)

  const START := World(DEFAULT_NAMES, LIBS, DEFAULT_EDGES, map[])

  /** Only snake case names are used. */
  function Snake(name: string): string {
    if name == "" then "" else [if name[0] == '-' then '_' else name[0]] + Snake(name[1..])
  }

  function SnakeAll(names: seq<string>): (r: seq<string>)
    ensures |r| == |names|
  {
    if names == [] then [] else [Snake(names[0])] + SnakeAll(names[1..])
  }

  /** `name` is the declared name with an underscore for every dash. */
  predicate Spelling(declared: string, name: string) {
    && |name| == |declared|
    && forall i | 0 <= i < |name| :: name[i] == if declared[i] == '-' then '_' else declared[i]
  }

  /** One of the declared names is spelled so. */
  ghost predicate Declares(deps: seq<string>, name: string) { exists d :: d in deps && Spelling(d, name) }

  lemma {:induction false} SnakeIff(declared: string, name: string)
    ensures Spelling(declared, name) <==> name == Snake(declared)
    decreases declared
  {
    if declared != "" && name != "" {
      SnakeIff(declared[1..], name[1..]);
      assert name == [name[0]] + name[1..] && declared == [declared[0]] + declared[1..];
      assert forall i | 0 <= i < |name| - 1 :: name[1..][i] == name[i + 1];
      assert forall i | 0 <= i < |declared| - 1 :: declared[1..][i] == declared[i + 1];
    }
  }

  lemma {:induction false} SnakeAllIff(deps: seq<string>, name: string)
    ensures name in SnakeAll(deps) <==> Declares(deps, name)
    decreases deps
  {
    hide Snake, Spelling;
    if deps != [] {
      assert deps == [deps[0]] + deps[1..];
      SnakeIff(deps[0], name);
      SnakeAllIff(deps[1..], name);
    }
  }

  /** Those of `deps` that have no text yet. */
  function Missing(deps: seq<string>, full: set<string>): seq<string> {
    if deps == [] then []
    else (if deps[0] in full then [] else [deps[0]]) + Missing(deps[1..], full)
  }

  /** The list without the first `x`. */
  function RemoveFirst(xs: seq<string>, x: string): seq<string> {
    if xs == [] then [] else if xs[0] == x then xs[1..] else [xs[0]] + RemoveFirst(xs[1..], x)
  }

  /** One occurrence goes, the first. */
  lemma {:induction false} RemoveFirstExact(xs: seq<string>, x: string, i: nat)
    requires i < |xs| && xs[i] == x && x !in xs[..i]
    ensures RemoveFirst(xs, x) == xs[..i] + xs[i + 1..]
    decreases xs
  {
    if i > 0 {
      var rest := xs[1..];
      assert xs[..i] == [xs[0]] + rest[..i - 1];
      RemoveFirstExact(rest, x, i - 1);
      assert rest[i..] == xs[i + 1..];
      assert [xs[0]] + (rest[..i - 1] + rest[i..]) == xs[..i] + xs[i + 1..];
    }
  }

  function LocalEdges(w: World, r: Request): Edges<string> {
    if r.name !in w.names && !r.transitive then {(LOCAL, r.name)} else {}
  }

  function From(a: string, targets: set<string>): Edges<string> {
    set b | b in targets :: (a, b)
  }

  function Into(sources: set<string>, b: string): Edges<string> {
    set a | a in sources :: (a, b)
  }

  function LibEdges(r: Request): Edges<string> {
    if r.code.Some? then From(r.name, LIBS) else {}
  }

  function Present(deps: seq<string>, full: set<string>): set<string> {
    set d | d in deps && d in full
  }

  function ManifestEdges(w: World, r: Request): Edges<string> {
    From(r.name, Present(SnakeAll(r.deps), w.full))
  }

  /** The crates that still need `name`. */
  function Waiting(needed: map<string, seq<string>>, name: string): set<string> {
    set k | k in needed && name in needed[k]
  }

  function RepairEdges(w: World, r: Request): Edges<string> {
    Into(Waiting(w.needed, r.name), r.name)
  }

  /** What a call adds to the graph. */
  function NewEdges(w: World, r: Request): Edges<string> {
    LocalEdges(w, r) + LibEdges(r) + ManifestEdges(w, r) + RepairEdges(w, r)
  }

  /** What is needed once `name` has been given to all who wait for it. */
  function Repaired(needed: map<string, seq<string>>, name: string): map<string, seq<string>> {
    map k | k in needed :: RemoveFirst(needed[k], name)
  }

  predicate Substantial(r: Request) { r.code.Some? && r.code.value != "" }

  function Load(w: World, r: Request): World {
    World(
      if r.name in w.names then w.names else w.names + [r.name],
      if Substantial(r) then w.full + {r.name} else w.full - {r.name},
      w.edges + NewEdges(w, r),
      Repaired(w.needed, r.name)[r.name := Missing(SnakeAll(r.deps), w.full)])
  }

  /** A name under which another crate can depend on this one. */
  predicate IsCrateName(name: string) { '-' !in name }

  /** A new crate that the local crate is to depend on needs such a name. */
  predicate NameAccepted(w: World, r: Request) { r.name in w.names || r.transitive || IsCrateName(r.name) }

  /** A new crate is among its own dependencies. */
  predicate NamesItself(w: World, r: Request) { r.name !in w.names && r.name in SnakeAll(r.deps) }

  predicate Admitted(w: World, r: Request) { NameAccepted(w, r) && !NamesItself(w, r) }

  lemma AdmittedIff(w: World, r: Request)
    ensures Admitted(w, r) <==>
              r.name in w.names || ((r.transitive || '-' !in r.name) && !Declares(r.deps, r.name))
  {
    SnakeAllIff(r.deps, r.name);
    hide SnakeAll, Declares;
  }

  lemma MissingDeclared(deps: seq<string>, full: set<string>, name: string)
    requires name in Missing(SnakeAll(deps), full)
    ensures Declares(deps, name) && name !in full
  {
    MissingOk(SnakeAll(deps), full);
    SnakeAllIff(deps, name);
  }

  function LoadAll(w: World, rs: seq<Request>): World {
    if rs == [] then w else Load(LoadAll(w, rs[..|rs| - 1]), rs[|rs| - 1])
  }

  // ----- Loading a fixed set of crates -----

  /** The crates, their manifests, and which of them are only ever transitive. */
  datatype Plan = Plan(manifests: map<string, seq<string>>, transitive: set<string>)

  ghost function Deps(plan: Plan, c: string): seq<string>
    requires c in plan.manifests
  {
    SnakeAll(plan.manifests[c])
  }

  /** Manifests are closed, name a dependency once, and no default crate is among the
      crates; those the local crate depends on have names without a dash. */
  ghost predicate Closed(plan: Plan) {
    && (forall c | c in plan.manifests && c !in plan.transitive :: IsCrateName(c))
    && (forall n | n in DEFAULT_NAMES :: n !in plan.manifests)
    && (forall c, d | c in plan.manifests && d in Deps(plan, c) :: d != c && (d in plan.manifests || d in LIBS))
    && (forall c | c in plan.manifests :: Distinct(Deps(plan, c)))
  }

  ghost predicate Fits(plan: Plan, r: Request) {
    && r.name in plan.manifests
    && r.transitive == (r.name in plan.transitive)
    && (if r.code.Some? then r.code.value != "" && r.deps == plan.manifests[r.name] else r.deps == [])
  }

  /** Stubs of a crate come before its full load, which happens at most once. */
  ghost predicate Proper(plan: Plan, rs: seq<Request>) {
    && (forall i | 0 <= i < |rs| :: Fits(plan, rs[i]))
    && (forall i, j | 0 <= i < j < |rs| && rs[i].code.Some? :: rs[i].name != rs[j].name)
  }

  /** The graph the manifests describe; nothing in it depends on an order. */
  ghost predicate Described(plan: Plan, a: string, b: string) {
    || (a, b) in DEFAULT_EDGES
    || (a == LOCAL && b in plan.manifests && b !in plan.transitive)
    || (a in plan.manifests && b in {CORE, ALLOC, STD})
    || (a in plan.manifests && Declares(plan.manifests[a], b))
  }

  ghost predicate NamesKnown(plan: Plan, names: seq<string>) {
    && Distinct(names) && DEFAULT_NAMES <= names
    && (forall n | n in names :: n in DEFAULT_NAMES || n in plan.manifests)
  }

  ghost predicate NamesOk(plan: Plan, w: World) {
    && NamesKnown(plan, w.names)
    && LIBS <= w.full && (forall n | n in w.full :: n in w.names && n != LOCAL)
  }

  ghost predicate EdgesOk(plan: Plan, w: World) {
    && DEFAULT_EDGES <= w.edges
    && (forall a, b | (a, b) in w.edges :: Described(plan, a, b))
    && (forall c | c in w.names && c in plan.manifests && c !in plan.transitive :: (LOCAL, c) in w.edges)
    && (forall c, lib | c in w.full && c in plan.manifests && lib in LIBS :: (c, lib) in w.edges)
  }

  /** What every step keeps. */
  ghost predicate Inv(plan: Plan, w: World) {
    && NamesOk(plan, w)
    && EdgesOk(plan, w)
    && (forall c | c in w.needed :: c in w.names && c in plan.manifests && NeededOk(plan, w, c))
    && (forall c | c in w.full && c in plan.manifests :: c in w.needed && Kept(plan, w, c))
  }

  /** Nothing is needed that has arrived in full, and nothing but manifest dependencies of full crates. */
  ghost predicate NeededOk(plan: Plan, w: World, c: string)
    requires c in w.needed && c in plan.manifests
  {
    && Distinct(w.needed[c])
    && (forall d | d in w.needed[c] :: d !in w.full && d in Deps(plan, c))
    && (c !in w.full ==> w.needed[c] == [])
  }

  /** Each manifest dependency is an edge or still needed. */
  ghost predicate Kept(plan: Plan, w: World, c: string)
    requires c in plan.manifests && c in w.needed
  {
    forall d | d in Deps(plan, c) :: (c, d) in w.edges || d in w.needed[c]
  }

  lemma {:induction false} MissingOk(deps: seq<string>, full: set<string>)
    ensures forall d :: d in Missing(deps, full) <==> d in deps && d !in full
    ensures Distinct(deps) ==> Distinct(Missing(deps, full))
  {
    if deps != [] {
      MissingOk(deps[1..], full);
      assert deps == [deps[0]] + deps[1..];
    }
  }

  lemma {:induction false} RemoveFirstOk(xs: seq<string>, x: string)
    ensures forall y | y != x :: y in RemoveFirst(xs, x) <==> y in xs
    ensures forall y | y in RemoveFirst(xs, x) :: y in xs
    ensures Distinct(xs) ==> x !in RemoveFirst(xs, x) && Distinct(RemoveFirst(xs, x))
  {
    if xs != [] {
      assert xs == [xs[0]] + xs[1..];
      RemoveFirstOk(xs[1..], x);
      if Distinct(xs) {
        assert xs[0] !in xs[1..];
        var rest := RemoveFirst(xs[1..], x);
        assert xs[0] !in rest;
      }
    }
  }

  lemma NotADefault(plan: Plan, c: string)
    requires Closed(plan) && c in plan.manifests
    ensures c !in LIBS && c != LOCAL
  {
    assert LOCAL in DEFAULT_NAMES && CORE in DEFAULT_NAMES && ALLOC in DEFAULT_NAMES && STD in DEFAULT_NAMES;
  }

  lemma OnceMore(xs: seq<string>, x: string)
    requires Distinct(xs) && x !in xs
    ensures Distinct(xs + [x])
  {
  }

  lemma OneMoreName(plan: Plan, names: seq<string>, x: string)
    requires NamesKnown(plan, names) && x in plan.manifests && x !in names
    ensures NamesKnown(plan, names + [x])
  {
    OnceMore(names, x);
    hide Distinct;
  }

  lemma LoadKeepsNames(plan: Plan, w: World, r: Request)
    requires NamesOk(plan, w) && Closed(plan) && Fits(plan, r)
    ensures NamesOk(plan, Load(w, r))
  {
    NotADefault(plan, r.name);
    if r.name !in w.names { OneMoreName(plan, w.names, r.name); }
    var w' := Load(w, r);
    assert w'.names == if r.name in w.names then w.names else w.names + [r.name];
    assert w'.full == w.full + {r.name} || w'.full == w.full - {r.name};
    hide NamesKnown, Closed, Load, Fits;
  }

  ghost predicate IsNew(w: World, r: Request, a: string, b: string) {
    || (a == LOCAL && b == r.name && r.name !in w.names && !r.transitive)
    || (a == r.name && b in LIBS && r.code.Some?)
    || (a == r.name && b in SnakeAll(r.deps) && b in w.full)
    || (b == r.name && a in w.needed && b in w.needed[a])
  }

  lemma NewEdgesAre(w: World, r: Request)
    ensures forall a, b :: (a, b) in Load(w, r).edges <==> (a, b) in w.edges || IsNew(w, r, a, b)
  {
    hide SnakeAll, Missing, RemoveFirst;
    assert forall a, b :: (a, b) in NewEdges(w, r) <==> IsNew(w, r, a, b);
  }

  lemma NoNames()
    ensures SnakeAll([]) == []
  {
  }

  lemma LoadKeepsEdges(plan: Plan, w: World, r: Request)
    requires Inv(plan, w) && Closed(plan) && Fits(plan, r)
    ensures EdgesOk(plan, Load(w, r))
  {
    hide SnakeAll, Missing, RemoveFirst, Distinct, NewEdges, Declares;
    NewEdgesAre(w, r);
    var w' := Load(w, r);
    forall a, b | (a, b) in w'.edges ensures Described(plan, a, b) {
      if b == r.name && a in w.needed && b in w.needed[a] {
        assert NeededOk(plan, w, a);
        SnakeAllIff(plan.manifests[a], b);
      } else if a == r.name && b in SnakeAll(r.deps) {
        NoNames();
        SnakeAllIff(plan.manifests[a], b);
      }
    }
    forall c | c in w'.names && c in plan.manifests && c !in plan.transitive ensures (LOCAL, c) in w'.edges {
      if c !in w.names { assert IsNew(w, r, LOCAL, c); }
    }
    forall c, lib | c in w'.full && c in plan.manifests && lib in LIBS ensures (c, lib) in w'.edges {
      if c !in w.full { assert IsNew(w, r, c, lib); }
    }
  }

  /** What the loaded crate still needs. */
  lemma LoadedNeeds(plan: Plan, w: World, r: Request)
    requires Inv(plan, w) && Closed(plan) && Fits(plan, r)
    ensures NeededOk(plan, Load(w, r), r.name)
  {
    assert r.deps == [] ==> Missing(SnakeAll(r.deps), w.full) == [];
    MissingOk(SnakeAll(r.deps), w.full);
    hide SnakeAll, Missing, Distinct, NewEdges, Inv;
  }

  /** What another crate still needs. */
  lemma OtherNeeds(plan: Plan, w: World, r: Request, c: string)
    requires c in w.needed && c in plan.manifests && c != r.name && NeededOk(plan, w, c)
    ensures NeededOk(plan, Load(w, r), c)
  {
    RemoveFirstOk(w.needed[c], r.name);
    hide SnakeAll, Missing, Distinct, NewEdges;
  }

  lemma LoadKeepsNeeded(plan: Plan, w: World, r: Request, c: string)
    requires Inv(plan, w) && Closed(plan) && Fits(plan, r)
    requires c in Load(w, r).needed
    ensures c in Load(w, r).names && c in plan.manifests && NeededOk(plan, Load(w, r), c)
  {
    hide NewEdges, NeededOk;
    if c == r.name {
      LoadedNeeds(plan, w, r);
    } else {
      OtherNeeds(plan, w, r, c);
    }
  }

  lemma LoadKeepsDeps(plan: Plan, w: World, r: Request, c: string)
    requires Inv(plan, w) && Closed(plan) && Fits(plan, r) && r.name !in w.full
    requires c in Load(w, r).full && c in plan.manifests
    ensures c in Load(w, r).needed && Kept(plan, Load(w, r), c)
  {
    hide SnakeAll, Missing, RemoveFirst, Distinct, NewEdges;
    NewEdgesAre(w, r);
    var w' := Load(w, r);
    if c == r.name {
      MissingOk(SnakeAll(r.deps), w.full);
      forall d | d in Deps(plan, c) ensures (c, d) in w'.edges || d in w'.needed[c] {
        if d in w.full { assert IsNew(w, r, c, d); }
      }
    } else {
      assert Kept(plan, w, c);
      RemoveFirstOk(w.needed[c], r.name);
      forall d | d in Deps(plan, c) ensures (c, d) in w'.edges || d in w'.needed[c] {
        if d == r.name && d in w.needed[c] { assert IsNew(w, r, c, d); }
      }
    }
  }

  /** Every load of a crate that is not yet full keeps the invariant. */
  lemma LoadKeeps(plan: Plan, w: World, r: Request)
    requires Inv(plan, w) && Closed(plan) && Fits(plan, r) && r.name !in w.full
    ensures Inv(plan, Load(w, r))
  {
    LoadKeepsNames(plan, w, r);
    LoadKeepsEdges(plan, w, r);
    var w' := Load(w, r);
    forall c | c in w'.needed
      ensures c in w'.names && c in plan.manifests && NeededOk(plan, w', c)
    {
      LoadKeepsNeeded(plan, w, r, c);
    }
    forall c | c in w'.full && c in plan.manifests ensures c in w'.needed && Kept(plan, w', c) {
      LoadKeepsDeps(plan, w, r, c);
    }
  }

  /** No call of a plan is refused for its names. */
  lemma FitsAdmitted(plan: Plan, w: World, r: Request)
    requires Closed(plan) && Fits(plan, r)
    ensures Admitted(w, r)
  {
    if r.deps == [] {
      assert SnakeAll(r.deps) == [];
    } else {
      assert r.deps == plan.manifests[r.name];
    }
    hide SnakeAll, IsCrateName;
  }

  ghost predicate LoadedIn(rs: seq<Request>, c: string) {
    exists i :: 0 <= i < |rs| && rs[i].name == c && rs[i].code.Some?
  }

  lemma StartOk(plan: Plan)
    requires Closed(plan)
    ensures Inv(plan, START) && START.full == LIBS
  {
    DefaultsDiffer();
  }

  lemma LoadFull(w: World, r: Request)
    requires r.name !in w.full && (r.code.Some? ==> r.code.value != "")
    ensures Load(w, r).full == if r.code.Some? then w.full + {r.name} else w.full
  {
  }

  /** After any proper sequence of loads, in any order, the invariant holds. */
  lemma {:induction false} RunKeeps(plan: Plan, rs: seq<Request>)
    requires Closed(plan) && Proper(plan, rs)
    ensures Inv(plan, LoadAll(START, rs))
    ensures forall c :: c in LoadAll(START, rs).full <==> c in LIBS || LoadedIn(rs, c)
  {
    hide Inv, Closed, Load, Proper;
    if rs == [] {
      StartOk(plan);
    } else {
      RunKeeps(plan, rs[..|rs| - 1]) by { ProperBefore(plan, rs); }
      Extend(plan, rs, LoadAll(START, rs[..|rs| - 1]));
    }
  }

  lemma Extend(plan: Plan, rs: seq<Request>, w: World)
    requires Closed(plan) && Proper(plan, rs) && rs != [] && Inv(plan, w)
    requires forall c :: c in w.full <==> c in LIBS || LoadedIn(rs[..|rs| - 1], c)
    ensures Inv(plan, Load(w, rs[|rs| - 1]))
    ensures forall c :: c in Load(w, rs[|rs| - 1]).full <==> c in LIBS || LoadedIn(rs, c)
  {
    var r := rs[|rs| - 1];
    ProperBefore(plan, rs);
    NotADefault(plan, r.name);
    LoadFull(w, r) by { assert Fits(plan, r); }
    LoadKeeps(plan, w, r);
    hide Inv, Closed, Load, Proper, LoadedIn;
  }

  lemma ProperBefore(plan: Plan, rs: seq<Request>)
    requires Proper(plan, rs) && rs != []
    ensures var last := |rs| - 1;
            && Proper(plan, rs[..last]) && Fits(plan, rs[last]) && !LoadedIn(rs[..last], rs[last].name)
            && (forall c :: LoadedIn(rs, c) <==> LoadedIn(rs[..last], c) || (c == rs[last].name && rs[last].code.Some?))
  {
    var last := |rs| - 1;
    forall c ensures LoadedIn(rs, c) <==> LoadedIn(rs[..last], c) || (c == rs[last].name && rs[last].code.Some?) {
      if LoadedIn(rs[..last], c) {
        var i :| 0 <= i < last && rs[..last][i].name == c && rs[..last][i].code.Some?;
        assert rs[i] == rs[..last][i];
      }
      if LoadedIn(rs, c) {
        var i :| 0 <= i < |rs| && rs[i].name == c && rs[i].code.Some?;
        if i < last { assert rs[i] == rs[..last][i]; }
      }
    }
  }

  lemma DepsKnown(plan: Plan, c: string, d: string)
    requires Closed(plan) && c in plan.manifests && d in Deps(plan, c)
    ensures d in LIBS || d in plan.manifests
  {
  }

  lemma SomeMember(xs: seq<string>)
    requires xs != []
    ensures exists x :: x in xs
  {
    assert xs[0] in xs;
  }

  lemma NothingLeft(xs: seq<string>, deps: seq<string>, full: set<string>)
    requires forall d | d in xs :: d in deps && d !in full
    requires forall d | d in deps :: d in full
    ensures xs == []
  {
    if xs != [] {
      SomeMember(xs);
    }
  }

  lemma NothingNeeded(plan: Plan, w: World, c: string)
    requires Closed(plan) && Inv(plan, w) && c in w.needed
    requires forall d | d in LIBS || d in plan.manifests :: d in w.full
    ensures w.needed[c] == []
  {
    assert NeededOk(plan, w, c);
    forall d | d in Deps(plan, c) ensures d in w.full {
      DepsKnown(plan, c, d);
    }
    NothingLeft(w.needed[c], Deps(plan, c), w.full);
  }

  lemma DescribedLoaded(plan: Plan, w: World, a: string, b: string)
    requires Closed(plan) && Inv(plan, w) && Described(plan, a, b)
    requires forall d | d in LIBS || d in plan.manifests :: d in w.full
    requires forall c | c in w.needed :: w.needed[c] == []
    ensures (a, b) in w.edges
  {
    hide Declares, Distinct;
    if a in plan.manifests && Declares(plan.manifests[a], b) {
      SnakeAllIff(plan.manifests[a], b);
      assert Kept(plan, w, a);
    }
  }

  /** Once every crate has been loaded in full, the graph is the described one and
      nothing is needed any more. */
  lemma FinalWorld(plan: Plan, rs: seq<Request>)
    requires Closed(plan) && Proper(plan, rs) && Complete(plan, rs)
    ensures var w := LoadAll(START, rs);
            && (forall a, b :: (a, b) in w.edges <==> Described(plan, a, b))
            && (forall c | c in w.needed :: w.needed[c] == [])
  {
    RunKeeps(plan, rs);
    var w := LoadAll(START, rs);
    hide LoadAll, Proper, LoadedIn;
    forall c | c in w.needed ensures w.needed[c] == [] {
      NothingNeeded(plan, w, c);
    }
    forall a, b | Described(plan, a, b) ensures (a, b) in w.edges {
      DescribedLoaded(plan, w, a, b);
    }
  }

  /** So the order of loading does not show in the result. */
  lemma OrderIndependent(plan: Plan, rs: seq<Request>, qs: seq<Request>)
    requires Closed(plan) && Proper(plan, rs) && Proper(plan, qs)
    requires Complete(plan, rs) && Complete(plan, qs)
    ensures LoadAll(START, rs).edges == LoadAll(START, qs).edges
  {
    hide Described, LoadAll, Closed;
    FinalWorld(plan, rs);
    FinalWorld(plan, qs);
    var e, f := LoadAll(START, rs).edges, LoadAll(START, qs).edges;
    forall x ensures x in e <==> x in f {
      assert x == (x.0, x.1);
    }
  }

  // ----- No load ever closes a cycle -----

  /** The dependencies among the crates of the plan. */
  ghost function ManifestGraph(plan: Plan): Edges<string> {
    set c, d | c in plan.manifests && d in plan.manifests && Declares(plan.manifests[c], d) :: (c, d)
  }

  ghost function Level(n: string): nat {
    if n == LOCAL then 2 else if n in LIBS then 0 else 1
  }

  ghost function LibDepth(n: string): nat {
    if n == CORE then 0 else if n == ALLOC then 1 else 2
  }

  /** There is a path of at least one edge. */
  ghost predicate DependsOn(m: Edges<string>, a: string, b: string) {
    exists c :: (a, c) in m && Reaches(m, c, b)
  }

  ghost predicate Lower(m: Edges<string>, x: string, y: string) {
    || Level(x) < Level(y)
    || (Level(x) == Level(y) && if Level(x) == 0 then LibDepth(x) < LibDepth(y) else DependsOn(m, y, x))
  }

  lemma DependsOnTransitive(m: Edges<string>, a: string, b: string, c: string)
    requires DependsOn(m, a, b) && DependsOn(m, b, c)
    ensures DependsOn(m, a, c)
  {
    var x :| (a, x) in m && Reaches(m, x, b);
    var y :| (b, y) in m && Reaches(m, y, c);
    Prepend(m, b, y, c);
    Transitive(m, x, b, c);
  }

  lemma LowerTransitive(m: Edges<string>)
    requires Acyclic(m)
    ensures forall x, y, z :: Lower(m, x, y) && Lower(m, y, z) ==> Lower(m, x, z)
    ensures forall x :: !Lower(m, x, x)
  {
    assert forall x :: !DependsOn(m, x, x);
    hide Level, LibDepth, DependsOn, Acyclic;
    forall x, y, z | Lower(m, x, y) && Lower(m, y, z) ensures Lower(m, x, z) {
      if DependsOn(m, y, x) && DependsOn(m, z, y) {
        DependsOnTransitive(m, z, y, x);
      }
    }
  }

  lemma DescribedDescends(plan: Plan, a: string, b: string)
    requires Closed(plan) && Described(plan, a, b)
    ensures Lower(ManifestGraph(plan), b, a)
  {
    DefaultsDiffer();
    if a in plan.manifests { NotADefault(plan, a); }
    if b in plan.manifests { NotADefault(plan, b); }
    hide Declares;
    if a in plan.manifests {
      SnakeAllIff(plan.manifests[a], b);
    }
    if a in plan.manifests && b in plan.manifests {
      ReachesSelf(ManifestGraph(plan), b);
      assert (a, b) in ManifestGraph(plan);
    }
  }

  /** With manifests that do not depend on each other in a circle, the graph stays
      acyclic after every step, so no edge is ever refused. */
  lemma NeverCyclic(plan: Plan, rs: seq<Request>)
    requires Closed(plan) && Acyclic(ManifestGraph(plan)) && Proper(plan, rs)
    ensures Acyclic(LoadAll(START, rs).edges)
  {
    RunKeeps(plan, rs);
    var e, m := LoadAll(START, rs).edges, ManifestGraph(plan);
    forall x, y | (x, y) in e ensures Lower(m, y, x) {
      DescribedDescends(plan, x, y);
    }
    hide LoadAll, Lower, Closed, ManifestGraph, Acyclic;
    LowerTransitive(m);
    DownhillAcyclic(e, (x: string, y: string) => Lower(m, x, y));
  }

  ghost predicate Complete(plan: Plan, rs: seq<Request>) { forall c | c in plan.manifests :: LoadedIn(rs, c) }

  /** And when every crate has been loaded the graph is acyclic only then. */
  lemma AcyclicIff(plan: Plan, rs: seq<Request>)
    requires Closed(plan) && Proper(plan, rs) && Complete(plan, rs)
    ensures Acyclic(LoadAll(START, rs).edges) <==> Acyclic(ManifestGraph(plan))
  {
    var e, m := LoadAll(START, rs).edges, ManifestGraph(plan);
    if Acyclic(m) {
      NeverCyclic(plan, rs);
    }
    if Acyclic(e) {
      FinalWorld(plan, rs);
      assert forall x | x in m :: Described(plan, x.0, x.1) && x == (x.0, x.1);
      hide LoadAll, Described, ManifestGraph, Acyclic;
      SmallerAcyclic(m, e);
    }
  }
}
