/** Applying, rolling back and undoing a patch. */
module PatchApply {
  // A proposed patch is written to the workspace files; it is rolled back when a save
  // fails, and can be undone later.

  import opened Wrappers

  type Path = string

  /** The files in memory and their saved copies; a temporary project saves nothing. */
  datatype Store = Store(files: map<Path, string>, disk: map<Path, string>, temporary: bool)

  datatype File = File(path: Path, content: string)

  datatype Snapshot = Snapshot(path: Path, content: Option<string>)

  /** What can happen to one save: it works; it throws before it took effect, when only
      the disk has it, or after; or something else ends up on disk than was written. */
  datatype Outcome = Done | FailsBefore | FailsHalfway | FailsAfter | Corrupts(content: string)

  function Written(s: Store, path: Path, content: string, saved: string): Store {
    s.(files := s.files[path := content], disk := if s.temporary then s.disk else s.disk[path := saved])
  }

  /** The save reached the disk alone. */
  function OnDisk(s: Store, path: Path, content: string): Store {
    if s.temporary then s else s.(disk := s.disk[path := content])
  }

  /** One file of the patch: save it and read it back. */
  function WriteOne(s: Store, f: File, outcome: Outcome): (Store, bool) {
    match outcome
    case Done => (Written(s, f.path, f.content, f.content), true)
    case FailsBefore => (s, false)
    case FailsHalfway => (OnDisk(s, f.path, f.content), false)
    case FailsAfter => (Written(s, f.path, f.content, f.content), false)
    case Corrupts(c) => (Written(s, f.path, f.content, c), s.temporary || c == f.content)
  }

  function WriteAll(s: Store, patch: seq<File>, outcomes: seq<Outcome>): (Store, bool)
    requires |outcomes| == |patch|
    decreases patch
  {
    if patch == [] then (s, true)
    else
      var (t, ok) := WriteOne(s, patch[0], outcomes[0]);
      if ok then WriteAll(t, patch[1..], outcomes[1..]) else (t, false)
  }

  function ContentOf(files: map<Path, string>, path: Path): Option<string> {
    if path in files then Some(files[path]) else None
  }

  function Previous(files: map<Path, string>, patch: seq<File>): (r: seq<Snapshot>)
    ensures |r| == |patch|
    ensures forall i | 0 <= i < |patch| :: r[i] == Snapshot(patch[i].path, ContentOf(files, patch[i].path))
  {
    seq(|patch|, i requires 0 <= i < |patch| => Snapshot(patch[i].path, ContentOf(files, patch[i].path)))
  }

  /** Deleting an item also forgets every path that starts with its path. */
  function WithoutPrefix(files: map<Path, string>, path: Path): map<Path, string> {
    map p | p in files && !(path <= p) :: files[p]
  }

  /** Deleting fails, and changes nothing, when there is no such file on disk. */
  function Delete(s: Store, path: Path): Option<Store> {
    if !s.temporary && path !in s.disk then None
    else Some(s.(files := WithoutPrefix(s.files, path), disk := if s.temporary then s.disk else s.disk - {path}))
  }

  /** One step of the rollback; what fails is passed over. */
  function Restore(s: Store, was: Snapshot): Store {
    match was.content
    case Some(c) => Written(s, was.path, c, c)
    case None =>
      if was.path !in s.files then s
      else match Delete(s, was.path)
        case Some(t) => t
        case None => s
  }

  /** The rollback, last file first. */
  function RestoreAll(s: Store, previous: seq<Snapshot>): Store
    decreases previous
  {
    if previous == [] then s
    else var last := |previous| - 1; RestoreAll(Restore(s, previous[last]), previous[..last])
  }

  function Apply(s: Store, patch: seq<File>, outcomes: seq<Outcome>): (Store, bool)
    requires |outcomes| == |patch|
  {
    var (t, ok) := WriteAll(s, patch, outcomes);
    if ok then (t, true) else (RestoreAll(t, Previous(s.files, patch)), false)
  }

  /** Undoing, first file first; a failing deletion ends it. */
  function Undo(s: Store, previous: seq<Snapshot>): Option<Store>
    decreases previous
  {
    if previous == [] then Some(s)
    else match previous[0].content
      case Some(c) => Undo(Written(s, previous[0].path, c, c), previous[1..])
      case None =>
        match Delete(s, previous[0].path)
        case Some(t) => Undo(t, previous[1..])
        case None => None
  }

  // ----- Success -----

  /** The content proposed last for each path. */
  function Proposed(patch: seq<File>): map<Path, string> {
    if patch == [] then map[]
    else map[patch[0].path := patch[0].content] + Proposed(patch[1..])
  }

  lemma Overlay(m: map<Path, string>, p: Path, content: string, rest: map<Path, string>)
    ensures m[p := content] + rest == m + (map[p := content] + rest)
  {
  }

  lemma {:induction false} WritesAdd(s: Store, patch: seq<File>, outcomes: seq<Outcome>)
    requires |outcomes| == |patch| && WriteAll(s, patch, outcomes).1
    ensures var t := WriteAll(s, patch, outcomes).0;
            && t.files == s.files + Proposed(patch)
            && t.disk == (if s.temporary then s.disk else s.disk + Proposed(patch))
            && t.temporary == s.temporary
    decreases patch
  {
    if patch != [] {
      var f := patch[0];
      var t := WriteOne(s, f, outcomes[0]).0;
      assert t == Written(s, f.path, f.content, f.content);
      WritesAdd(t, patch[1..], outcomes[1..]);
      assert WriteAll(s, patch, outcomes).0 == WriteAll(t, patch[1..], outcomes[1..]).0;
      var rest := Proposed(patch[1..]);
      assert Proposed(patch) == map[f.path := f.content] + rest;
      hide WriteAll, WriteOne, Proposed;
      Overlay(s.files, f.path, f.content, rest);
      Overlay(s.disk, f.path, f.content, rest);
    }
  }

  /** A patch that is reported as applied has put its last content at each of its
      paths, in memory and on disk, and touched nothing else. */
  lemma AppliedMeansWritten(s: Store, patch: seq<File>, outcomes: seq<Outcome>)
    requires |outcomes| == |patch| && Apply(s, patch, outcomes).1
    ensures var t := Apply(s, patch, outcomes).0;
            && t.files == s.files + Proposed(patch)
            && t.disk == (if s.temporary then s.disk else s.disk + Proposed(patch))
            && t.temporary == s.temporary
  {
    hide WriteAll, RestoreAll, Proposed;
    WritesAdd(s, patch, outcomes);
  }

  // ----- Failure -----

  ghost predicate Saved(s: Store) {
    !s.temporary ==> s.disk == s.files
  }

  /** Some file of the patch before position `k` has this path. */
  predicate TouchedBelow(patch: seq<File>, k: nat, p: Path) {
    exists i :: 0 <= i < k && i < |patch| && patch[i].path == p
  }

  /** A file of the patch that is new and was written. */
  predicate Created(was: map<Path, string>, t: Store, patch: seq<File>, i: nat)
    requires i < |patch|
  {
    patch[i].path !in was && patch[i].path in t.files
  }

  /** A created file from position `k` on has a path that begins `p`. */
  predicate Shadowed(was: map<Path, string>, t: Store, patch: seq<File>, k: nat, p: Path) {
    exists m :: k <= m < |patch| && Created(was, t, patch, m) && patch[m].path <= p
  }

  /** The rollback, coming from the end, still finds the created file and deletes it. */
  predicate Deletes(was: map<Path, string>, t: Store, patch: seq<File>, i: nat)
    requires i < |patch|
  {
    Created(was, t, patch, i) && !Shadowed(was, t, patch, i + 1, patch[i].path)
  }

  ghost predicate RestoredBefore(was: map<Path, string>, t: Store, patch: seq<File>, k: nat, q: Path)
    requires k <= |patch|
  {
    forall i | 0 <= i < k && Deletes(was, t, patch, i) && patch[i].path <= q :: TouchedBelow(patch, i, q)
  }

  predicate DeletedBelow(was: map<Path, string>, t: Store, patch: seq<File>, k: nat, q: Path)
    requires k <= |patch|
  {
    exists i :: 0 <= i < k && patch[i].path == q && Deletes(was, t, patch, i)
  }

  /** After the saves left `t`: every deletion forgets only files that are restored after
      it, and every new file on disk is deleted. */
  ghost predicate CleanRollback(was: Store, t: Store, patch: seq<File>) {
    && (forall q | q in was.files :: RestoredBefore(was.files, t, patch, |patch|, q))
    && (!was.temporary ==> forall q | q in t.disk && q !in was.files :: DeletedBelow(was.files, t, patch, |patch|, q))
  }

  /** Midway through the rollback, with the files from position `k` on done. */
  ghost predicate RollingBack(u: Store, t: Store, was: Store, patch: seq<File>, k: nat) {
    && u.temporary == was.temporary
    && (forall p | p !in was.files :: p in u.files <==> p in t.files && !Shadowed(was.files, t, patch, k, p))
    && (forall p | p in was.files && p in u.files && !TouchedBelow(patch, k, p) :: u.files[p] == was.files[p])
    && (if u.temporary then u.disk == was.disk else
          && (forall p | p !in was.files && p in u.files :: p in u.disk)
          && (forall p | p in was.files && !TouchedBelow(patch, k, p) :: p in u.disk && u.disk[p] == was.files[p]))
  }

  // What the saves leave.

  lemma {:induction false} WritesOnly(s: Store, patch: seq<File>, outcomes: seq<Outcome>)
    requires |outcomes| == |patch|
    ensures var t := WriteAll(s, patch, outcomes).0;
            && t.temporary == s.temporary && (s.temporary ==> t.disk == s.disk)
            && s.files.Keys <= t.files.Keys && s.disk.Keys <= t.disk.Keys
            && (!s.temporary ==> forall p | p in t.files && p !in s.files :: p in t.disk)
    decreases patch
  {
    if patch != [] {
      var (t, ok) := WriteOne(s, patch[0], outcomes[0]);
      if ok {
        WritesOnly(t, patch[1..], outcomes[1..]);
      }
    }
  }

  lemma {:induction false} WritesElsewhere(s: Store, patch: seq<File>, outcomes: seq<Outcome>, p: Path)
    requires |outcomes| == |patch| && !TouchedBelow(patch, |patch|, p)
    ensures var t := WriteAll(s, patch, outcomes).0;
            ContentOf(t.files, p) == ContentOf(s.files, p) && ContentOf(t.disk, p) == ContentOf(s.disk, p)
    decreases patch
  {
    if patch != [] {
      var (t, ok) := WriteOne(s, patch[0], outcomes[0]);
      assert patch[0].path != p;
      if ok {
        forall i | 0 <= i < |patch[1..]| ensures patch[1..][i].path != p {
          assert patch[1..][i] == patch[i + 1];
        }
        WritesElsewhere(t, patch[1..], outcomes[1..], p);
      }
    }
  }

  lemma RollbackStarts(s: Store, patch: seq<File>, outcomes: seq<Outcome>)
    requires |outcomes| == |patch| && Saved(s)
    ensures var t := WriteAll(s, patch, outcomes).0; RollingBack(t, t, s, patch, |patch|)
  {
    WritesOnly(s, patch, outcomes);
    var t := WriteAll(s, patch, outcomes).0;
    forall p | !TouchedBelow(patch, |patch|, p)
      ensures ContentOf(t.files, p) == ContentOf(s.files, p) && ContentOf(t.disk, p) == ContentOf(s.disk, p)
    {
      WritesElsewhere(s, patch, outcomes, p);
    }
    hide WriteAll;
    forall p | p in s.files && !TouchedBelow(patch, |patch|, p)
      ensures p in t.files && t.files[p] == s.files[p] && (!s.temporary ==> p in t.disk && t.disk[p] == s.files[p])
    {
      assert ContentOf(t.files, p) == Some(s.files[p]);
    }
  }

  // One step back.

  lemma TouchedBelowStep(patch: seq<File>, k: nat, p: Path)
    requires 0 < k <= |patch|
    ensures TouchedBelow(patch, k, p) <==> patch[k - 1].path == p || TouchedBelow(patch, k - 1, p)
  {
    if TouchedBelow(patch, k, p) {
      var i :| 0 <= i < k && i < |patch| && patch[i].path == p;
      assert i == k - 1 || i < k - 1;
    }
  }

  lemma ShadowedStep(was: map<Path, string>, t: Store, patch: seq<File>, k: nat, p: Path)
    requires 0 < k <= |patch|
    ensures Shadowed(was, t, patch, k - 1, p)
       <==> (Created(was, t, patch, k - 1) && patch[k - 1].path <= p) || Shadowed(was, t, patch, k, p)
  {
    hide Created;
    if Shadowed(was, t, patch, k - 1, p) {
      var m :| k - 1 <= m < |patch| && Created(was, t, patch, m) && patch[m].path <= p;
      assert m == k - 1 || k <= m;
    }
  }

  /** What shadows a path shadows what it begins. */
  lemma ShadowedLonger(was: map<Path, string>, t: Store, patch: seq<File>, k: nat, p: Path, q: Path)
    requires Shadowed(was, t, patch, k, p) && p <= q
    ensures Shadowed(was, t, patch, k, q)
  {
    hide Created;
    var m :| k <= m < |patch| && Created(was, t, patch, m) && patch[m].path <= p;
    assert patch[m].path <= q;
  }

  function Back(u: Store, was: map<Path, string>, patch: seq<File>, k: nat): Store
    requires 0 < k <= |patch|
  {
    Restore(u, Snapshot(patch[k - 1].path, ContentOf(was, patch[k - 1].path)))
  }

  /** A created file is deleted, with all that its path begins, exactly when it deletes. */
  lemma BackDeletes(u: Store, t: Store, was: Store, patch: seq<File>, k: nat)
    requires 0 < k <= |patch| && RollingBack(u, t, was, patch, k) && patch[k - 1].path !in was.files
    ensures var p := patch[k - 1].path;
            Back(u, was.files, patch, k)
              == if Deletes(was.files, t, patch, k - 1)
                 then u.(files := WithoutPrefix(u.files, p), disk := if u.temporary then u.disk else u.disk - {p})
                 else u
  {
    hide Shadowed;
    assert patch[k - 1].path in u.files <==> Deletes(was.files, t, patch, k - 1);
  }

  /** Files that were there keep what they held, and created ones their copies. */
  lemma BackRestored(u: Store, t: Store, was: Store, patch: seq<File>, k: nat, p: Path)
    requires 0 < k <= |patch| && RollingBack(u, t, was, patch, k)
    requires p in was.files && !TouchedBelow(patch, k - 1, p)
    ensures var v := Back(u, was.files, patch, k);
            && (p in v.files ==> v.files[p] == was.files[p])
            && (!v.temporary ==> p in v.disk && v.disk[p] == was.files[p])
  {
    TouchedBelowStep(patch, k, p);
    hide TouchedBelow, Shadowed;
  }

  lemma BackCopies(u: Store, t: Store, was: Store, patch: seq<File>, k: nat, p: Path)
    requires 0 < k <= |patch| && RollingBack(u, t, was, patch, k) && !was.temporary
    requires p !in was.files && p in Back(u, was.files, patch, k).files
    ensures p in Back(u, was.files, patch, k).disk
  {
    hide TouchedBelow, Shadowed;
  }

  lemma BackKeeps(u: Store, t: Store, was: Store, patch: seq<File>, k: nat)
    requires 0 < k <= |patch| && RollingBack(u, t, was, patch, k)
    ensures RollingBack(Back(u, was.files, patch, k), t, was, patch, k - 1)
  {
    hide TouchedBelow, Shadowed, Back;
    var v := Back(u, was.files, patch, k);
    BackTemporary(u, t, was, patch, k);
    forall p | p !in was.files ensures p in v.files <==> p in t.files && !Shadowed(was.files, t, patch, k - 1, p) {
      BackCreated(u, t, was, patch, k, p);
    }
    forall p | p in was.files && !TouchedBelow(patch, k - 1, p)
      ensures p in v.files ==> v.files[p] == was.files[p]
      ensures !v.temporary ==> p in v.disk && v.disk[p] == was.files[p]
    {
      BackRestored(u, t, was, patch, k, p);
    }
    forall p | !was.temporary && p !in was.files && p in v.files ensures p in v.disk {
      BackCopies(u, t, was, patch, k, p);
    }
  }

  lemma BackTemporary(u: Store, t: Store, was: Store, patch: seq<File>, k: nat)
    requires 0 < k <= |patch| && RollingBack(u, t, was, patch, k)
    ensures var v := Back(u, was.files, patch, k);
            v.temporary == was.temporary && (v.temporary ==> v.disk == was.disk)
  {
    hide TouchedBelow, Shadowed, WithoutPrefix;
  }

  lemma BackCreated(u: Store, t: Store, was: Store, patch: seq<File>, k: nat, p: Path)
    requires 0 < k <= |patch| && RollingBack(u, t, was, patch, k) && p !in was.files
    ensures p in Back(u, was.files, patch, k).files <==> p in t.files && !Shadowed(was.files, t, patch, k - 1, p)
  {
    var path := patch[k - 1].path;
    ShadowedStep(was.files, t, patch, k, p);
    if path !in was.files {
      BackDeletes(u, t, was, patch, k);
      if path <= p && Shadowed(was.files, t, patch, k, path) {
        ShadowedLonger(was.files, t, patch, k, path, p);
      }
    }
    hide Shadowed;
  }

  lemma BackAll(u: Store, was: map<Path, string>, patch: seq<File>, k: nat)
    requires 0 < k <= |patch|
    ensures RestoreAll(u, Previous(was, patch)[..k])
         == RestoreAll(Back(u, was, patch, k), Previous(was, patch)[..k - 1])
  {
    var previous := Previous(was, patch);
    assert previous[..k][..k - 1] == previous[..k - 1];
    assert previous[..k][k - 1] == previous[k - 1];
  }

  // All the way back.

  lemma {:induction false} RollbackEnds(u: Store, t: Store, was: Store, patch: seq<File>, k: nat)
    requires k <= |patch| && RollingBack(u, t, was, patch, k)
    ensures RollingBack(RestoreAll(u, Previous(was.files, patch)[..k]), t, was, patch, 0)
    decreases k
  {
    hide RollingBack, Back;
    if k > 0 {
      BackKeeps(u, t, was, patch, k);
      BackAll(u, was.files, patch, k);
      RollbackEnds(Back(u, was.files, patch, k), t, was, patch, k - 1);
    }
  }

  /** A file that was there is in memory at the end exactly when each deletion that
      forgets it is followed by a restoring. */
  lemma {:induction false} RestoredIff(u: Store, t: Store, was: Store, patch: seq<File>, k: nat, q: Path)
    requires k <= |patch| && RollingBack(u, t, was, patch, k) && q in was.files
    ensures q in RestoreAll(u, Previous(was.files, patch)[..k]).files
       <==> RestoredBefore(was.files, t, patch, k, q) && (q in u.files || TouchedBelow(patch, k, q))
    decreases k
  {
    if k > 0 {
      hide RollingBack, Deletes, TouchedBelow, RestoredBefore, Back;
      BackKeeps(u, t, was, patch, k);
      BackAll(u, was.files, patch, k);
      BackMember(u, t, was, patch, k, q);
      RestoredIff(Back(u, was.files, patch, k), t, was, patch, k - 1, q);
      TouchedBelowStep(patch, k, q);
      RestoredBeforeStep(was.files, t, patch, k, q);
    } else {
      NothingBefore(was.files, t, patch, q);
    }
  }

  lemma NothingBefore(was: map<Path, string>, t: Store, patch: seq<File>, q: Path)
    ensures RestoredBefore(was, t, patch, 0, q) && !TouchedBelow(patch, 0, q) && !DeletedBelow(was, t, patch, 0, q)
  {
  }

  /** What one step back does to one path. */
  lemma BackMember(u: Store, t: Store, was: Store, patch: seq<File>, k: nat, q: Path)
    requires 0 < k <= |patch| && RollingBack(u, t, was, patch, k)
    ensures var v, p, deletes := Back(u, was.files, patch, k), patch[k - 1].path, Deletes(was.files, t, patch, k - 1);
            && (q in was.files ==> (q in v.files <==> p == q || (q in u.files && !(deletes && p <= q))))
            && (q !in was.files && !was.temporary ==> (q in v.disk <==> q in u.disk && !(p == q && deletes)))
  {
    if patch[k - 1].path !in was.files {
      BackDeletes(u, t, was, patch, k);
      hide Back, Shadowed;
    } else {
      assert !Deletes(was.files, t, patch, k - 1);
      hide Deletes, Shadowed, TouchedBelow;
    }
  }

  lemma RestoredBeforeStep(was: map<Path, string>, t: Store, patch: seq<File>, k: nat, q: Path)
    requires 0 < k <= |patch|
    ensures RestoredBefore(was, t, patch, k, q)
       <==> (Deletes(was, t, patch, k - 1) && patch[k - 1].path <= q ==> TouchedBelow(patch, k - 1, q))
            && RestoredBefore(was, t, patch, k - 1, q)
    ensures patch[k - 1].path in was ==> !Deletes(was, t, patch, k - 1)
  {
    assert patch[k - 1].path in was ==> !Deletes(was, t, patch, k - 1);
    hide Deletes, TouchedBelow;
  }

  /** A new path is on disk at the end exactly when it was and nothing deletes it. */
  lemma {:induction false} OnDiskIff(u: Store, t: Store, was: Store, patch: seq<File>, k: nat, q: Path)
    requires k <= |patch| && RollingBack(u, t, was, patch, k) && q !in was.files && !was.temporary
    ensures q in RestoreAll(u, Previous(was.files, patch)[..k]).disk
       <==> q in u.disk && !DeletedBelow(was.files, t, patch, k, q)
    decreases k
  {
    if k > 0 {
      hide RollingBack, Deletes, DeletedBelow, Back;
      BackKeeps(u, t, was, patch, k);
      BackAll(u, was.files, patch, k);
      BackMember(u, t, was, patch, k, q);
      OnDiskIff(Back(u, was.files, patch, k), t, was, patch, k - 1, q);
      DeletedBelowStep(was.files, t, patch, k, q);
    } else {
      NothingBefore(was.files, t, patch, q);
    }
  }

  lemma DeletedBelowStep(was: map<Path, string>, t: Store, patch: seq<File>, k: nat, q: Path)
    requires 0 < k <= |patch|
    ensures DeletedBelow(was, t, patch, k, q)
       <==> (patch[k - 1].path == q && Deletes(was, t, patch, k - 1)) || DeletedBelow(was, t, patch, k - 1, q)
  {
    hide Deletes;
    if DeletedBelow(was, t, patch, k, q) {
      var i :| 0 <= i < k && patch[i].path == q && Deletes(was, t, patch, i);
      assert i == k - 1 || i < k - 1;
    }
  }

  lemma RolledBackIsSame(u: Store, t: Store, was: Store, patch: seq<File>)
    requires RollingBack(u, t, was, patch, 0) && Saved(was)
    requires forall p | p in t.files && p !in was.files :: Shadowed(was.files, t, patch, 0, p)
    ensures u == was <==>
            && (forall q | q in was.files :: q in u.files)
            && (!was.temporary ==> forall q | q in u.disk :: q in was.files)
  {
    assert forall p :: !TouchedBelow(patch, 0, p);
    hide TouchedBelow, Shadowed;
    assert forall p | p in u.files :: p in was.files && u.files[p] == was.files[p];
    if forall q | q in was.files :: q in u.files {
      assert u.files == was.files;
    }
    if !was.temporary && forall q | q in u.disk :: q in was.files {
      assert u.disk == was.files;
    }
  }

  lemma CreatedIsShadowed(s: Store, patch: seq<File>, outcomes: seq<Outcome>, p: Path)
    requires |outcomes| == |patch| && p !in s.files && p in WriteAll(s, patch, outcomes).0.files
    ensures Shadowed(s.files, WriteAll(s, patch, outcomes).0, patch, 0, p)
  {
    if !TouchedBelow(patch, |patch|, p) {
      WritesElsewhere(s, patch, outcomes, p);
    }
    var i :| 0 <= i < |patch| && patch[i].path == p;
    assert Created(s.files, WriteAll(s, patch, outcomes).0, patch, i);
  }

  /** The end of the rollback, path by path. */
  lemma RolledBackPaths(t: Store, was: Store, patch: seq<File>)
    requires RollingBack(t, t, was, patch, |patch|)
    requires forall q | q in was.files :: q in t.files
    ensures var last := RestoreAll(t, Previous(was.files, patch));
            && RollingBack(last, t, was, patch, 0)
            && (forall q | q in was.files :: q in last.files <==> RestoredBefore(was.files, t, patch, |patch|, q))
            && (!was.temporary ==> forall q | q !in was.files ::
                  q in last.disk <==> q in t.disk && !DeletedBelow(was.files, t, patch, |patch|, q))
  {
    var previous := Previous(was.files, patch);
    assert previous[..|patch|] == previous;
    RollbackEnds(t, t, was, patch, |patch|);
    var last := RestoreAll(t, previous);
    hide RollingBack, RestoreAll, Previous, RestoredBefore, DeletedBelow, TouchedBelow;
    forall q | q in was.files ensures q in last.files <==> RestoredBefore(was.files, t, patch, |patch|, q) {
      RestoredIff(t, t, was, patch, |patch|, q);
    }
    if !was.temporary {
      forall q | q !in was.files
        ensures q in last.disk <==> q in t.disk && !DeletedBelow(was.files, t, patch, |patch|, q)
      {
        OnDiskIff(t, t, was, patch, |patch|, q);
      }
    }
  }

  lemma AllShadowed(s: Store, patch: seq<File>, outcomes: seq<Outcome>)
    requires |outcomes| == |patch|
    ensures var t := WriteAll(s, patch, outcomes).0;
            forall p | p in t.files && p !in s.files :: Shadowed(s.files, t, patch, 0, p)
  {
    var t := WriteAll(s, patch, outcomes).0;
    forall p | p in t.files && p !in s.files ensures Shadowed(s.files, t, patch, 0, p) {
      CreatedIsShadowed(s, patch, outcomes, p);
    }
  }

  /** The paths decide whether all is as it was. */
  lemma CleanIff(last: Store, t: Store, was: Store, patch: seq<File>)
    requires RollingBack(last, t, was, patch, 0) && Saved(was)
    requires forall p | p in t.files && p !in was.files :: Shadowed(was.files, t, patch, 0, p)
    requires forall q | q in was.files :: q in last.files <==> RestoredBefore(was.files, t, patch, |patch|, q)
    requires !was.temporary ==> forall q | q !in was.files ::
               q in last.disk <==> q in t.disk && !DeletedBelow(was.files, t, patch, |patch|, q)
    ensures last == was <==> CleanRollback(was, t, patch)
  {
    RolledBackIsSame(last, t, was, patch);
    hide RollingBack, Shadowed, RestoredBefore, DeletedBelow, Saved;
  }

  /** A patch that fails leaves the workspace as it was exactly when the rollback from
      where its saves stopped is clean. */
  lemma FailureRestoresIff(s: Store, patch: seq<File>, outcomes: seq<Outcome>)
    requires |outcomes| == |patch| && Saved(s) && !Apply(s, patch, outcomes).1
    ensures Apply(s, patch, outcomes).0 == s <==> CleanRollback(s, WriteAll(s, patch, outcomes).0, patch)
  {
    var t := WriteAll(s, patch, outcomes).0;
    assert Apply(s, patch, outcomes).0 == RestoreAll(t, Previous(s.files, patch));
    hide Apply, WriteAll, RestoreAll, Previous, RollingBack, Shadowed;
    hide RestoredBefore, DeletedBelow, CleanRollback, Saved;
    RollbackStarts(s, patch, outcomes);
    WritesOnly(s, patch, outcomes);
    RolledBackPaths(t, s, patch);
    AllShadowed(s, patch, outcomes);
    CleanIff(RestoreAll(t, Previous(s.files, patch)), t, s, patch);
  }

  // Paths that do not begin one another.

  /** No path the patch creates begins another path of the workspace or of the patch. */
  ghost predicate PrefixFree(files: map<Path, string>, patch: seq<File>) {
    forall i, q | 0 <= i < |patch| && patch[i].path !in files && (q in files || TouchedBelow(patch, |patch|, q))
               && patch[i].path <= q :: q == patch[i].path
  }

  /** The save of a new file that the disk has but the memory has not. */
  predicate IsStray(s: Store, f: File, outcome: Outcome) {
    outcome.FailsHalfway? && !s.temporary && f.path !in s.files
  }

  /** The save that fails leaves such a file. */
  predicate EndsStray(s: Store, patch: seq<File>, outcomes: seq<Outcome>)
    requires |outcomes| == |patch|
    decreases patch
  {
    patch != [] &&
    (IsStray(s, patch[0], outcomes[0]) ||
     var (t, ok) := WriteOne(s, patch[0], outcomes[0]);
     ok && EndsStray(t, patch[1..], outcomes[1..]))
  }

  lemma {:induction false} WritesStray(s: Store, patch: seq<File>, outcomes: seq<Outcome>) returns (p: Path)
    requires |outcomes| == |patch| && EndsStray(s, patch, outcomes)
    ensures var t := WriteAll(s, patch, outcomes).0; !s.temporary && p !in t.files && p in t.disk && p !in s.files
    decreases patch
  {
    if IsStray(s, patch[0], outcomes[0]) {
      p := patch[0].path;
    } else {
      p := WritesStray(WriteOne(s, patch[0], outcomes[0]).0, patch[1..], outcomes[1..]);
    }
  }

  lemma {:induction false} WritesNoStray(s: Store, patch: seq<File>, outcomes: seq<Outcome>)
    requires |outcomes| == |patch| && !EndsStray(s, patch, outcomes) && !s.temporary && s.disk.Keys <= s.files.Keys
    ensures var t := WriteAll(s, patch, outcomes).0; t.disk.Keys <= t.files.Keys
    decreases patch
  {
    if patch != [] {
      var (t, ok) := WriteOne(s, patch[0], outcomes[0]);
      if ok {
        WritesNoStray(t, patch[1..], outcomes[1..]);
      }
    }
  }

  lemma {:induction false} LastOfPath(patch: seq<File>, k: nat, p: Path) returns (i: nat)
    requires k <= |patch| && TouchedBelow(patch, k, p) && forall m | k <= m < |patch| :: patch[m].path != p
    ensures i < |patch| && patch[i].path == p && forall m | i < m < |patch| :: patch[m].path != p
    decreases k
  {
    TouchedBelowStep(patch, k, p);
    if patch[k - 1].path == p {
      i := k - 1;
    } else {
      i := LastOfPath(patch, k - 1, p);
    }
  }

  /** Without such paths, a failing patch leaves the workspace as it was unless its last
      save put a new file on disk and no further. */
  lemma PrefixFreeRestoresIff(s: Store, patch: seq<File>, outcomes: seq<Outcome>)
    requires |outcomes| == |patch| && Saved(s) && PrefixFree(s.files, patch) && !Apply(s, patch, outcomes).1
    ensures Apply(s, patch, outcomes).0 == s <==> !EndsStray(s, patch, outcomes)
  {
    var t := WriteAll(s, patch, outcomes).0;
    FailureRestoresIff(s, patch, outcomes);
    WritesOnly(s, patch, outcomes);
    hide WriteAll, RestoreAll, PrefixFree, Apply;
    if EndsStray(s, patch, outcomes) {
      var p := WritesStray(s, patch, outcomes);
      NotWritten(s.files, t, patch, p);
    } else {
      if !s.temporary {
        WritesNoStray(s, patch, outcomes);
      }
      forall q | q in t.files && q !in s.files ensures DeletedBelow(s.files, t, patch, |patch|, q) {
        if !TouchedBelow(patch, |patch|, q) {
          WritesElsewhere(s, patch, outcomes, q);
        }
        CreatedIsDeleted(s.files, t, patch, q);
      }
      forall q | q in s.files ensures RestoredBefore(s.files, t, patch, |patch|, q) {
        NothingForgotten(s.files, t, patch, q);
      }
    }
  }

  lemma NotWritten(was: map<Path, string>, t: Store, patch: seq<File>, p: Path)
    requires p !in t.files
    ensures !DeletedBelow(was, t, patch, |patch|, p)
  {
  }

  lemma NothingForgotten(was: map<Path, string>, t: Store, patch: seq<File>, q: Path)
    requires PrefixFree(was, patch) && q in was
    ensures RestoredBefore(was, t, patch, |patch|, q)
  {
    hide Shadowed, TouchedBelow;
  }

  lemma CreatedIsDeleted(was: map<Path, string>, t: Store, patch: seq<File>, q: Path)
    requires PrefixFree(was, patch) && q in t.files && q !in was && TouchedBelow(patch, |patch|, q)
    ensures DeletedBelow(was, t, patch, |patch|, q)
  {
    var i := LastOfPath(patch, |patch|, q);
    forall m | i < m < |patch| && Created(was, t, patch, m) ensures !(patch[m].path <= q) {
    }
    assert Deletes(was, t, patch, i);
  }

  // Whatever goes wrong.

  /** The file is new, and when the saves stop after `m` files the rollback deletes it. */
  predicate DeletedAfter(files: map<Path, string>, patch: seq<File>, m: nat, i: nat)
    requires i < |patch|
  {
    && IsNewBelow(files, patch, m, i)
    && forall j | i < j < |patch| && IsNewBelow(files, patch, m, j) :: !(patch[j].path <= patch[i].path)
  }

  predicate IsNewBelow(files: map<Path, string>, patch: seq<File>, m: nat, i: nat)
    requires i < |patch|
  {
    patch[i].path !in files && TouchedBelow(patch, m, patch[i].path)
  }

  /** Wherever the saves stop, a deletion forgets no file but those that an earlier part
      of the patch restores after it. */
  ghost predicate NeverForgets(files: map<Path, string>, patch: seq<File>) {
    forall m, i, q | 0 <= m <= |patch| && 0 <= i < |patch| && DeletedAfter(files, patch, m, i)
                  && q in files && patch[i].path <= q :: TouchedBelow(patch, i, q)
  }

  /** The saves wrote just the first `m` files of the patch. */
  ghost predicate WrittenBelow(s: Store, t: Store, patch: seq<File>, m: nat) {
    forall p :: p in t.files <==> p in s.files || TouchedBelow(patch, m, p)
  }

  lemma TouchedFirst(patch: seq<File>, m: nat, p: Path)
    requires patch != []
    ensures TouchedBelow(patch, m + 1, p) <==> patch[0].path == p || TouchedBelow(patch[1..], m, p)
    ensures !TouchedBelow(patch, 0, p)
  {
    if TouchedBelow(patch[1..], m, p) {
      var i :| 0 <= i < m && i < |patch[1..]| && patch[1..][i].path == p;
      assert patch[i + 1].path == p;
    }
    if TouchedBelow(patch, m + 1, p) {
      var i :| 0 <= i < m + 1 && i < |patch| && patch[i].path == p;
      assert i > 0 ==> patch[1..][i - 1].path == p;
    }
  }

  lemma WrittenFirst(s: Store, s1: Store, t: Store, patch: seq<File>, m: nat)
    requires patch != [] && s1.files.Keys == s.files.Keys + {patch[0].path} && WrittenBelow(s1, t, patch[1..], m)
    ensures WrittenBelow(s, t, patch, m + 1)
  {
    hide TouchedBelow;
    forall p ensures p in t.files <==> p in s.files || TouchedBelow(patch, m + 1, p) {
      TouchedFirst(patch, m, p);
    }
  }

  lemma NothingBelow(s: Store, patch: seq<File>)
    ensures WrittenBelow(s, s, patch, 0)
  {
    assert forall p :: !TouchedBelow(patch, 0, p);
  }

  lemma OneBelow(s: Store, t: Store, patch: seq<File>)
    requires patch != [] && t.files.Keys == s.files.Keys + {patch[0].path}
    ensures WrittenBelow(s, t, patch, 1)
  {
    NothingBelow(t, patch[1..]);
    WrittenFirst(s, t, t, patch, 0);
  }

  lemma {:induction false} WritesStop(s: Store, patch: seq<File>, outcomes: seq<Outcome>) returns (m: nat)
    requires |outcomes| == |patch| && !WriteAll(s, patch, outcomes).1
    ensures m <= |patch| && WrittenBelow(s, WriteAll(s, patch, outcomes).0, patch, m)
    decreases patch
  {
    var (t, ok) := WriteOne(s, patch[0], outcomes[0]);
    if ok {
      m := WritesStop(t, patch[1..], outcomes[1..]);
      WrittenFirst(s, t, WriteAll(s, patch, outcomes).0, patch, m);
      m := m + 1;
    } else if t.files == s.files {
      m := 0;
      NothingBelow(s, patch);
    } else {
      m := 1;
      OneBelow(s, t, patch);
    }
  }

  /** A way to go wrong after exactly `m` files. */
  function StopAfter(n: nat, m: nat): (r: seq<Outcome>)
    requires m <= n && n > 0
    ensures |r| == n
  {
    if m == 0 then [FailsBefore] + seq(n - 1, _ => Done)
    else if n == 1 then [FailsAfter]
    else [Done] + StopAfter(n - 1, m - 1)
  }

  lemma {:induction false} StopAfterStops(s: Store, patch: seq<File>, m: nat)
    requires m <= |patch| && patch != []
    ensures var (t, ok) := WriteAll(s, patch, StopAfter(|patch|, m)); !ok && WrittenBelow(s, t, patch, m)
    decreases patch
  {
    var outcomes := StopAfter(|patch|, m);
    if m == 0 {
      assert WriteAll(s, patch, outcomes) == (s, false);
      NothingBelow(s, patch);
    } else {
      var t := WriteOne(s, patch[0], outcomes[0]).0;
      assert t.files.Keys == s.files.Keys + {patch[0].path};
      if |patch| == 1 {
        assert WriteAll(s, patch, outcomes) == (t, false);
        OneBelow(s, t, patch);
      } else {
        assert outcomes[1..] == StopAfter(|patch| - 1, m - 1);
        StopAfterStops(t, patch[1..], m - 1);
        WrittenFirst(s, t, WriteAll(t, patch[1..], outcomes[1..]).0, patch, m - 1);
      }
    }
  }

  lemma DeletesAfter(s: Store, t: Store, patch: seq<File>, m: nat, i: nat)
    requires WrittenBelow(s, t, patch, m) && i < |patch|
    ensures Deletes(s.files, t, patch, i) <==> DeletedAfter(s.files, patch, m, i)
  {
    hide TouchedBelow;
    forall j | 0 <= j < |patch| ensures Created(s.files, t, patch, j) <==> IsNewBelow(s.files, patch, m, j) {
    }
    hide WrittenBelow, Created, IsNewBelow;
  }

  lemma TemporaryClean(s: Store, t: Store, patch: seq<File>, m: nat)
    requires WrittenBelow(s, t, patch, m) && s.temporary
    ensures CleanRollback(s, t, patch) <==>
              forall i, q | 0 <= i < |patch| && DeletedAfter(s.files, patch, m, i) && q in s.files
                            && patch[i].path <= q :: TouchedBelow(patch, i, q)
  {
    forall i | 0 <= i < |patch| ensures Deletes(s.files, t, patch, i) <==> DeletedAfter(s.files, patch, m, i) {
      DeletesAfter(s, t, patch, m, i);
    }
    hide Deletes, DeletedAfter, TouchedBelow, WrittenBelow;
    if CleanRollback(s, t, patch) {
      forall i, q | 0 <= i < |patch| && DeletedAfter(s.files, patch, m, i) && q in s.files && patch[i].path <= q
        ensures TouchedBelow(patch, i, q)
      {
        assert RestoredBefore(s.files, t, patch, |patch|, q);
      }
    }
  }

  /** Every way of going wrong is rolled back. */
  ghost predicate AlwaysRestores(s: Store, patch: seq<File>) {
    forall outcomes | |outcomes| == |patch| && !Apply(s, patch, outcomes).1 :: Apply(s, patch, outcomes).0 == s
  }

  lemma TemporaryRestoresIff(s: Store, patch: seq<File>)
    requires s.temporary
    ensures AlwaysRestores(s, patch) <==> NeverForgets(s.files, patch)
  {
    hide DeletedAfter, TouchedBelow, CleanRollback, WrittenBelow, WriteAll, RestoreAll, StopAfter;
    if NeverForgets(s.files, patch) {
      forall outcomes | |outcomes| == |patch| && !Apply(s, patch, outcomes).1 ensures Apply(s, patch, outcomes).0 == s {
        var m := WritesStop(s, patch, outcomes);
        TemporaryClean(s, WriteAll(s, patch, outcomes).0, patch, m);
        FailureRestoresIff(s, patch, outcomes);
      }
    }
    if AlwaysRestores(s, patch) {
      forall m, i, q | 0 <= m <= |patch| && 0 <= i < |patch| && DeletedAfter(s.files, patch, m, i)
                    && q in s.files && patch[i].path <= q
        ensures TouchedBelow(patch, i, q)
      {
        var outcomes := StopAfter(|patch|, m);
        StopAfterStops(s, patch, m);
        assert !Apply(s, patch, outcomes).1;
        FailureRestoresIff(s, patch, outcomes);
        TemporaryClean(s, WriteAll(s, patch, outcomes).0, patch, m);
      }
    }
  }

  /** A way for the save at `i` to reach the disk and no further. */
  function Halfway(n: nat, i: nat): (r: seq<Outcome>)
    requires i < n
    ensures |r| == n
  {
    if i == 0 then [FailsHalfway] + seq(n - 1, _ => Done) else [Done] + Halfway(n - 1, i - 1)
  }

  lemma {:induction false} HalfwayStray(s: Store, patch: seq<File>, i: nat)
    requires !s.temporary && i < |patch| && patch[i].path !in s.files
    requires forall j | 0 <= j < i :: patch[j].path != patch[i].path
    ensures EndsStray(s, patch, Halfway(|patch|, i))
    decreases patch
  {
    var outcomes := Halfway(|patch|, i);
    if i > 0 {
      var t := WriteOne(s, patch[0], outcomes[0]).0;
      assert outcomes[1..] == Halfway(|patch| - 1, i - 1);
      assert patch[1..][i - 1] == patch[i];
      forall j | 0 <= j < i - 1 ensures patch[1..][j].path != patch[i].path {
        assert patch[1..][j] == patch[j + 1];
      }
      HalfwayStray(t, patch[1..], i - 1);
    }
  }

  lemma StrayNotRestored(s: Store, patch: seq<File>, outcomes: seq<Outcome>)
    requires |outcomes| == |patch| && Saved(s) && EndsStray(s, patch, outcomes) && !Apply(s, patch, outcomes).1
    ensures Apply(s, patch, outcomes).0 != s
  {
    var t := WriteAll(s, patch, outcomes).0;
    FailureRestoresIff(s, patch, outcomes);
    hide WriteAll, RestoreAll, Apply;
    var p := WritesStray(s, patch, outcomes);
    NotWritten(s.files, t, patch, p);
  }

  lemma {:induction false} StrayFails(s: Store, patch: seq<File>, outcomes: seq<Outcome>)
    requires |outcomes| == |patch| && EndsStray(s, patch, outcomes)
    ensures !WriteAll(s, patch, outcomes).1
    decreases patch
  {
    if !IsStray(s, patch[0], outcomes[0]) {
      StrayFails(WriteOne(s, patch[0], outcomes[0]).0, patch[1..], outcomes[1..]);
    }
  }

  lemma AllThereClean(s: Store, patch: seq<File>, outcomes: seq<Outcome>)
    requires |outcomes| == |patch| && Saved(s) && !s.temporary && !Apply(s, patch, outcomes).1
    requires forall i | 0 <= i < |patch| :: patch[i].path in s.files
    ensures Apply(s, patch, outcomes).0 == s
  {
    var t := WriteAll(s, patch, outcomes).0;
    FailureRestoresIff(s, patch, outcomes);
    forall q | q in t.disk ensures q in s.files {
      if !TouchedBelow(patch, |patch|, q) {
        WritesElsewhere(s, patch, outcomes, q);
      }
    }
    hide WriteAll, RestoreAll, Apply, Shadowed, TouchedBelow;
  }

  lemma SavedRestoresIff(s: Store, patch: seq<File>)
    requires Saved(s) && !s.temporary
    ensures AlwaysRestores(s, patch) <==> forall i | 0 <= i < |patch| :: patch[i].path in s.files
  {
    if forall i | 0 <= i < |patch| :: patch[i].path in s.files {
      forall outcomes | |outcomes| == |patch| && !Apply(s, patch, outcomes).1 ensures Apply(s, patch, outcomes).0 == s {
        AllThereClean(s, patch, outcomes);
      }
    } else {
      var i := FirstNew(s.files, patch);
      var outcomes := Halfway(|patch|, i);
      HalfwayStray(s, patch, i);
      StrayFails(s, patch, outcomes);
      assert !Apply(s, patch, outcomes).1;
      StrayNotRestored(s, patch, outcomes);
    }
  }

  lemma FirstNew(files: map<Path, string>, patch: seq<File>) returns (i: nat)
    requires exists i :: 0 <= i < |patch| && patch[i].path !in files
    ensures i < |patch| && patch[i].path !in files && forall j | 0 <= j < i :: patch[j].path in files
  {
    i := 0;
    while patch[i].path in files
      invariant 0 <= i < |patch|
      invariant forall j | 0 <= j < i :: patch[j].path in files
      invariant exists j :: i <= j < |patch| && patch[j].path !in files
      decreases |patch| - i
    {
      i := i + 1;
    }
  }

  /** Known before the patch is applied: whatever goes wrong will be rolled back exactly
      when the patch creates no file, or, in a temporary project, when no deletion of a
      created file can forget one for good. */
  lemma AlwaysRestoresIff(s: Store, patch: seq<File>)
    requires Saved(s)
    ensures AlwaysRestores(s, patch)
       <==> if s.temporary then NeverForgets(s.files, patch)
            else forall i | 0 <= i < |patch| :: patch[i].path in s.files
  {
    if s.temporary {
      TemporaryRestoresIff(s, patch);
    } else {
      SavedRestoresIff(s, patch);
    }
  }

  lemma SameContents(m: map<Path, string>, n: map<Path, string>)
    requires forall p :: ContentOf(m, p) == ContentOf(n, p)
    ensures m == n
  {
    forall p ensures p in m <==> p in n {
      assert ContentOf(m, p) == ContentOf(n, p);
    }
    forall p | p in m ensures m[p] == n[p] {
      assert ContentOf(m, p) == ContentOf(n, p);
    }
  }

  // ----- Undo -----

  /** No path is created twice. */
  ghost predicate CreatedOnce(files: map<Path, string>, patch: seq<File>) {
    forall i, j | 0 <= i < j < |patch| && patch[i].path !in files :: patch[i].path != patch[j].path
  }

  /** A path that is created begins the path of a file: deleting it forgets that file. */
  predicate Forgets(files: map<Path, string>, f: File, q: Path) { f.path !in files && f.path <= q }

  /** Each forgotten file is restored later. */
  ghost predicate RestoredAfter(files: map<Path, string>, patch: seq<File>, k: nat, q: Path) {
    forall i | k <= i < |patch| && Forgets(files, patch[i], q) :: RestoredPast(patch, i, q)
  }

  predicate RestoredPast(patch: seq<File>, i: int, q: Path) {
    exists j :: 0 <= j < |patch| && i < j && patch[j].path == q
  }

  ghost predicate ForgetsNothing(files: map<Path, string>, patch: seq<File>) {
    forall q | q in files :: RestoredAfter(files, patch, 0, q)
  }

  /** Midway through an undo: nothing is in memory but files that were there, with what
      they held, and created files still to be deleted. */
  ghost predicate Undoing(s: Store, was: Store, patch: seq<File>, k: nat) {
    && s.temporary == was.temporary
    && (forall p | p in s.files && !TouchedFrom(patch, k, p) :: p in was.files && s.files[p] == was.files[p])
    && (if s.temporary then s.disk == was.disk else
          && (forall p | !TouchedFrom(patch, k, p) :: ContentOf(s.disk, p) == ContentOf(was.files, p))
          && (forall i | k <= i < |patch| && patch[i].path !in was.files :: patch[i].path in s.disk))
  }

  predicate TouchedFrom(patch: seq<File>, k: nat, p: Path) {
    exists i :: k <= i < |patch| && patch[i].path == p
  }

  lemma TouchedStep(patch: seq<File>, k: nat, p: Path)
    requires k < |patch|
    ensures TouchedFrom(patch, k, p) <==> p == patch[k].path || TouchedFrom(patch, k + 1, p)
  {
    if p == patch[k].path {
      assert TouchedFrom(patch, k, p);
    } else if TouchedFrom(patch, k, p) {
      var i :| k <= i < |patch| && patch[i].path == p;
      assert k + 1 <= i;
    }
  }

  /** One step of the undo. */
  function UndoStep(s: Store, was: Snapshot): Option<Store> {
    match was.content
    case Some(c) => Some(Written(s, was.path, c, c))
    case None => Delete(s, was.path)
  }

  lemma UndoFrom(s: Store, was: map<Path, string>, patch: seq<File>, k: nat)
    requires k < |patch|
    ensures var step := UndoStep(s, Snapshot(patch[k].path, ContentOf(was, patch[k].path)));
            Undo(s, Previous(was, patch)[k..])
              == if step.Some? then Undo(step.value, Previous(was, patch)[k + 1..]) else None
  {
    var previous := Previous(was, patch);
    assert previous[k..][1..] == previous[k + 1..];
    assert previous[k..][0] == previous[k];
  }

  lemma TouchedSteps(patch: seq<File>, k: nat)
    requires k < |patch|
    ensures forall p :: TouchedFrom(patch, k, p) <==> p == patch[k].path || TouchedFrom(patch, k + 1, p)
  {
    forall p ensures TouchedFrom(patch, k, p) <==> p == patch[k].path || TouchedFrom(patch, k + 1, p) {
      TouchedStep(patch, k, p);
    }
  }

  /** A file that was there is written back. */
  lemma WriteBackKeeps(s: Store, was: Store, patch: seq<File>, k: nat)
    requires k < |patch| && Undoing(s, was, patch, k) && patch[k].path in was.files
    ensures var c := was.files[patch[k].path]; Undoing(Written(s, patch[k].path, c, c), was, patch, k + 1)
  {
    TouchedSteps(patch, k);
    hide TouchedFrom;
  }

  /** A created file is deleted. */
  lemma DeleteBackKeeps(s: Store, was: Store, patch: seq<File>, k: nat)
    requires k < |patch| && Undoing(s, was, patch, k) && patch[k].path !in was.files
    requires s.temporary || CreatedOnce(was.files, patch)
    ensures Delete(s, patch[k].path).Some? && Undoing(Delete(s, patch[k].path).value, was, patch, k + 1)
  {
    TouchedSteps(patch, k);
    hide TouchedFrom;
    if !s.temporary {
      assert patch[k].path in s.disk;
      var t := Delete(s, patch[k].path).value;
      forall i | k + 1 <= i < |patch| && patch[i].path !in was.files ensures patch[i].path in t.disk {
        assert patch[i].path in s.disk;
      }
    }
  }

  lemma UndoStepKeeps(s: Store, was: Store, patch: seq<File>, k: nat)
    requires k < |patch| && Undoing(s, was, patch, k) && (s.temporary || CreatedOnce(was.files, patch))
    ensures var step := UndoStep(s, Snapshot(patch[k].path, ContentOf(was.files, patch[k].path)));
            step.Some? && Undoing(step.value, was, patch, k + 1)
  {
    hide Undoing, Delete, Written, CreatedOnce;
    if patch[k].path in was.files {
      WriteBackKeeps(s, was, patch, k);
    } else {
      DeleteBackKeeps(s, was, patch, k);
    }
  }

  /** The undo goes through, and brings back nothing that was not there. */
  lemma {:induction false} UndoEnds(s: Store, was: Store, patch: seq<File>, k: nat)
    requires k <= |patch| && Undoing(s, was, patch, k) && (s.temporary || CreatedOnce(was.files, patch))
    ensures Undo(s, Previous(was.files, patch)[k..]).Some?
    ensures Undoing(Undo(s, Previous(was.files, patch)[k..]).value, was, patch, |patch|)
    decreases |patch| - k
  {
    hide Undoing;
    if k < |patch| {
      UndoStepKeeps(s, was, patch, k);
      UndoFrom(s, was.files, patch, k);
      UndoEnds(UndoStep(s, Snapshot(patch[k].path, ContentOf(was.files, patch[k].path))).value, was, patch, k + 1);
    }
  }

  /** A file that was there is in memory at the end exactly when its last deletion, if
      any, comes before its last restoring. */
  lemma {:induction false} KeptIff(s: Store, was: Store, patch: seq<File>, k: nat, q: Path)
    requires k <= |patch| && q in was.files && Undo(s, Previous(was.files, patch)[k..]).Some?
    ensures q in Undo(s, Previous(was.files, patch)[k..]).value.files
       <==> RestoredAfter(was.files, patch, k, q) && (q in s.files || RestoredPast(patch, k - 1, q))
    decreases |patch| - k
  {
    if k < |patch| {
      var f := patch[k];
      var t := UndoStep(s, Snapshot(f.path, ContentOf(was.files, f.path)));
      UndoFrom(s, was.files, patch, k);
      KeptIff(t.value, was, patch, k + 1, q);
      RestoredStep(was.files, patch, k, q);
    }
  }

  lemma RestoredStep(files: map<Path, string>, patch: seq<File>, k: nat, q: Path)
    requires k < |patch|
    ensures RestoredPast(patch, k - 1, q) <==> patch[k].path == q || RestoredPast(patch, k, q)
    ensures RestoredAfter(files, patch, k, q)
       <==> (Forgets(files, patch[k], q) ==> RestoredPast(patch, k, q)) && RestoredAfter(files, patch, k + 1, q)
  {
    if RestoredPast(patch, k - 1, q) {
      var j :| k - 1 < j < |patch| && patch[j].path == q;
      assert j == k || k < j;
    }
    if patch[k].path == q {
      assert k - 1 < k;
    }
  }

  /** A created path that is already gone ends the undo. */
  lemma {:induction false} UndoStuck(s: Store, was: Store, patch: seq<File>, k: nat, j: nat)
    requires !s.temporary && k <= j < |patch| && patch[j].path !in was.files && patch[j].path !in s.disk
    ensures Undo(s, Previous(was.files, patch)[k..]) == None
    decreases |patch| - k
  {
    UndoFrom(s, was.files, patch, k);
    var t := UndoStep(s, Snapshot(patch[k].path, ContentOf(was.files, patch[k].path)));
    if k < j && t.Some? {
      UndoStuck(t.value, was, patch, k + 1, j);
    }
  }

  lemma {:induction false} UndoPast(s: Store, was: Store, patch: seq<File>, k: nat, i: nat, j: nat)
    requires !s.temporary && k <= i < j < |patch| && patch[i].path == patch[j].path && patch[i].path !in was.files
    ensures Undo(s, Previous(was.files, patch)[k..]) == None
    decreases |patch| - k
  {
    UndoFrom(s, was.files, patch, k);
    var t := UndoStep(s, Snapshot(patch[k].path, ContentOf(was.files, patch[k].path)));
    if t.Some? {
      if k == i {
        UndoStuck(t.value, was, patch, k + 1, j);
      } else {
        UndoPast(t.value, was, patch, k + 1, i, j);
      }
    }
  }

  lemma AppliedIsUndoing(s: Store, patch: seq<File>, t: Store)
    requires Saved(s) && t.temporary == s.temporary && t.files == s.files + Proposed(patch)
    requires t.disk == if s.temporary then s.disk else s.disk + Proposed(patch)
    ensures Undoing(t, s, patch, 0)
  {
    forall i | 0 <= i < |patch| ensures patch[i].path in t.files {
      InProposed(patch, i);
    }
    forall p | p in Proposed(patch) ensures TouchedFrom(patch, 0, p) {
      ProposedTouched(patch, p);
    }
  }

  lemma UndoneIsSame(t: Store, was: Store, patch: seq<File>)
    requires Undoing(t, was, patch, |patch|) && Saved(was)
    ensures t == was <==> forall q | q in was.files :: q in t.files
  {
    if forall q | q in was.files :: q in t.files {
      assert forall p :: !TouchedFrom(patch, |patch|, p);
      assert t.files == was.files;
      if !t.temporary {
        forall p ensures ContentOf(t.disk, p) == ContentOf(was.files, p) {
        }
        SameContents(t.disk, was.files);
      }
    }
  }

  /** Undoing an applied patch gives back the original workspace exactly when the patch
      creates no path twice (a temporary project does not mind even that) and every file
      whose path begins with a created path is itself patched, later than that path. */
  lemma UndoRestoresIff(s: Store, patch: seq<File>, outcomes: seq<Outcome>)
    requires |outcomes| == |patch| && Saved(s) && Apply(s, patch, outcomes).1
    ensures Undo(Apply(s, patch, outcomes).0, Previous(s.files, patch)) == Some(s)
       <==> (s.temporary || CreatedOnce(s.files, patch)) && ForgetsNothing(s.files, patch)
  {
    AppliedMeansWritten(s, patch, outcomes);
    var t := Apply(s, patch, outcomes).0;
    AppliedIsUndoing(s, patch, t);
    assert Previous(s.files, patch)[0..] == Previous(s.files, patch);
    if s.temporary || CreatedOnce(s.files, patch) {
      UndoEnds(t, s, patch, 0);
      var last := Undo(t, Previous(s.files, patch)).value;
      UndoneIsSame(last, s, patch);
      forall q | q in s.files ensures q in last.files <==> RestoredAfter(s.files, patch, 0, q) {
        KeptIff(t, s, patch, 0, q);
      }
    } else {
      var i, j :| 0 <= i < j < |patch| && patch[i].path !in s.files && patch[i].path == patch[j].path;
      UndoPast(t, s, patch, 0, i, j);
    }
  }

  lemma {:induction false} ProposedTouched(patch: seq<File>, p: Path)
    requires p in Proposed(patch)
    ensures exists i :: 0 <= i < |patch| && patch[i].path == p
  {
    if p != patch[0].path {
      ProposedTouched(patch[1..], p);
      var i :| 0 <= i < |patch[1..]| && patch[1..][i].path == p;
      assert patch[i + 1].path == p;
    }
  }

  lemma {:induction false} InProposed(patch: seq<File>, i: nat)
    requires i < |patch|
    ensures patch[i].path in Proposed(patch)
  {
    if i > 0 {
      InProposed(patch[1..], i - 1);
      assert patch[1..][i - 1] == patch[i];
    }
  }

  // ----- Why prefixes matter -----

  /** Deleting what was just created is only clean when the new path begins no other. */
  lemma CreateDeleteCleanIff(files: map<Path, string>, path: Path, content: string)
    requires path !in files
    ensures WithoutPrefix(files[path := content], path) == files <==> forall q | q in files :: !(path <= q)
  {
    var after := WithoutPrefix(files[path := content], path);
    if q :| q in files && path <= q {
      assert q !in after;
    } else {
      forall q ensures q in after <==> q in files {
      }
    }
  }

  /** So undoing a patch that creates a path forgets an untouched file whose path it begins. */
  lemma UndoForgetsNeighbour(p: Path, q: Path, kept: string, content: string)
    requires p < q
    ensures var files, patch := map[q := kept], [File(p, content)];
            var t := Apply(Store(files, files, false), patch, [Done]).0;
            Undo(t, Previous(files, patch)) == Some(Store(map[], files, false))
  {
    var files, patch := map[q := kept], [File(p, content)];
    var s := Store(files, files, false);
    var t := Written(s, p, content, content);
    assert patch[1..] == [] && [Done][1..] == [];
    assert WriteAll(t, patch[1..], [Done][1..]) == (t, true);
    assert Apply(s, patch, [Done]) == (t, true);
    assert WithoutPrefix(t.files, p) == map[];
    assert t.disk - {p} == files;
    var previous := Previous(files, patch);
    assert previous == [Snapshot(p, None)];
    assert previous[1..] == [];
  }

  /** And rolling back two new files, the longer path first in the patch, can leave
      the longer one on disk. */
  lemma RollbackLeavesCopy(p: Path, q: Path, first: string, second: string)
    requires p < q
    ensures Apply(Store(map[], map[], false), [File(q, first), File(p, second)], [Done, FailsAfter])
         == (Store(map[], map[q := first], false), false)
  {
    var s, patch := Store(map[], map[], false), [File(q, first), File(p, second)];
    var one := Written(s, q, first, first);
    var two := Written(one, p, second, second);
    assert patch[1..] == [File(p, second)] && [Done, FailsAfter][1..] == [FailsAfter];
    assert WriteAll(one, patch[1..], [Done, FailsAfter][1..]) == (two, false);
    var previous := Previous(map[], patch);
    assert previous == [Snapshot(q, None), Snapshot(p, None)];
    assert previous[..1] == [Snapshot(q, None)] && [Snapshot(q, None)][..0] == [];
    var three := Store(map[], map[q := first], false);
    assert WithoutPrefix(two.files, p) == map[];
    assert two.disk - {p} == map[q := first];
    assert Restore(two, previous[1]) == three && Restore(three, previous[0]) == three;
    assert RestoreAll(three, previous[..1]) == three;
  }

  lemma {:induction false} UndoNext(s: Store, done: seq<Snapshot>, next: Snapshot)
    requires Undo(s, done).Some?
    ensures Undo(s, done + [next]) == Undo(Undo(s, done).value, [next])
    decreases done
  {
    if done == [] {
      assert done + [next] == [next];
    } else {
      assert (done + [next])[1..] == done[1..] + [next];
      match done[0].content
      case Some(c) => UndoNext(Written(s, done[0].path, c, c), done[1..], next);
      case None => UndoNext(Delete(s, done[0].path).value, done[1..], next);
    }
  }

  lemma UndoOne(s: Store, file: Snapshot)
    ensures Undo(s, [file]) == match file.content
                               case Some(c) => Some(Written(s, file.path, c, c))
                               case None => Delete(s, file.path)
  {
    assert [file][1..] == [];
  }

  // ----- The explorer and the two commands -----

  class Explorer {
    var files: map<Path, string>
    var disk: map<Path, string>
    const temporary: bool

    ghost function Current(): Store
      reads this
    {
      Store(files, disk, temporary)
    }

    /** Save a file; `ok` is false when the save throws. */
    method CreateItem(path: Path, content: string, outcome: Outcome) returns (ok: bool)
      modifies this
      ensures ok == (outcome.Done? || outcome.Corrupts?)
      ensures Current() == match outcome
                           case FailsBefore => old(Current())
                           case FailsHalfway => OnDisk(old(Current()), path, content)
                           case Corrupts(c) => Written(old(Current()), path, content, c)
                           case _ => Written(old(Current()), path, content, content)
    {
      if outcome.FailsBefore? {
        return false;
      }
      if !temporary {
        disk := disk[path := if outcome.Corrupts? then outcome.content else content];
      }
      if outcome.FailsHalfway? {
        return false;
      }
      files := files[path := content];
      ok := !outcome.FailsAfter?;
    }

    method DeleteItem(path: Path) returns (ok: bool)
      modifies this
      ensures ok == Delete(old(Current()), path).Some?
      ensures Current() == if ok then Delete(old(Current()), path).value else old(Current())
    {
      if !temporary {
        if path !in disk {
          return false;
        }
        disk := disk - {path};
      }
      ok := true;
      var todo := files.Keys;
      while todo != {}
        invariant todo <= old(files).Keys
        invariant files == map p | p in old(files) && (p in todo || !(path <= p)) :: old(files)[p]
        invariant disk == if temporary then old(disk) else old(disk) - {path}
        decreases todo
      {
        var p :| p in todo;
        if path <= p {
          files := files - {p};
        }
        todo := todo - {p};
      }
    }

    method ApplyPatch(patch: seq<File>, outcomes: seq<Outcome>) returns (ok: bool)
      requires |outcomes| == |patch|
      modifies this
      ensures (Current(), ok) == Apply(old(Current()), patch, outcomes)
    {
      var previous := Previous(files, patch);
      ok := true;
      var i := 0;
      while i < |patch| && ok
        invariant 0 <= i <= |patch|
        invariant WriteAll(old(Current()), patch, outcomes)
               == if ok then WriteAll(Current(), patch[i..], outcomes[i..]) else (Current(), false)
      {
        var f := patch[i];
        ghost var before := Current();
        ok := CreateItem(f.path, f.content, outcomes[i]);
        if ok {
          var saved := files[f.path];
          var persisted := if temporary then saved else disk[f.path];
          ok := saved == f.content && persisted == f.content;
        }
        assert (Current(), ok) == WriteOne(before, f, outcomes[i]);
        i := i + 1;
      }
      if !ok {
        Rollback(previous);
      }
    }

    method Rollback(previous: seq<Snapshot>)
      modifies this
      ensures Current() == RestoreAll(old(Current()), previous)
    {
      var i := |previous|;
      assert previous[..i] == previous;
      while i > 0
        invariant 0 <= i <= |previous|
        invariant RestoreAll(old(Current()), previous) == RestoreAll(Current(), previous[..i])
      {
        i := i - 1;
        var file := previous[i];
        assert previous[..i + 1][..i] == previous[..i];
        match file.content
        case None =>
          if file.path in files {
            var _ := DeleteItem(file.path);
          }
        case Some(c) =>
          var _ := CreateItem(file.path, c, Done);
      }
      assert previous[..0] == [];
    }

    /** `ok` is false when a deletion throws and the undo ends early, with the files before
        it undone and the others as they were. */
    method UndoPatch(previous: seq<Snapshot>) returns (ok: bool)
      modifies this
      ensures ok == Undo(old(Current()), previous).Some?
      ensures ok ==> Current() == Undo(old(Current()), previous).value
      ensures !ok ==> exists k | 0 <= k < |previous| ::
                && Undo(old(Current()), previous[..k]) == Some(Current())
                && previous[k].content == None && !temporary && previous[k].path !in disk
    {
      ok := true;
      var i := 0;
      while i < |previous|
        invariant 0 <= i <= |previous| && ok
        invariant Undo(old(Current()), previous) == Undo(Current(), previous[i..])
        invariant Undo(old(Current()), previous[..i]) == Some(Current())
      {
        var file := previous[i];
        assert previous[..i + 1] == previous[..i] + [file];
        UndoNext(old(Current()), previous[..i], file);
        UndoOne(Current(), file);
        match file.content {
          case None =>
            ok := DeleteItem(file.path);
            if !ok {
              return;
            }
          case Some(c) =>
            var _ := CreateItem(file.path, c, Done);
        }
        i := i + 1;
      }
    }
  }
}
