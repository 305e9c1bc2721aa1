/** The learner's own programs: fresh names for them, and the saved list. */
module ProgramLibrary {
  import opened Basics
  import opened Text
  import opened Wrappers

  // ----- Numbered names -----

  function Digit(d: nat): char
    requires d < 10
  {
    (48 + d) as char
  }

  function Decimal(n: nat): (r: string)
    ensures r != ""
  {
    if n < 10 then [Digit(n)] else Decimal(n / 10) + [Digit(n % 10)]
  }

  function Read(text: string): int
    decreases text
  {
    if text == "" then 0 else 10 * Read(text[..|text| - 1]) + (text[|text| - 1] as int - 48)
  }

  /** The decimal digits of the number, without leading zeros. */
  lemma {:induction false} ReadDecimal(n: nat)
    ensures Read(Decimal(n)) == n && (n > 0 ==> Decimal(n)[0] != '0')
    ensures forall i | 0 <= i < |Decimal(n)| :: '0' <= Decimal(n)[i] <= '9'
  {
    if n >= 10 {
      ReadDecimal(n / 10);
      assert Decimal(n)[..|Decimal(n)| - 1] == Decimal(n / 10);
    } else {
      assert Decimal(n)[..0] == "";
    }
  }

  const PREFIX := "learn-my-program-"

  function Numbered(index: nat): string { PREFIX + Decimal(index) }

  lemma NumberedInjective(a: nat, b: nat)
    requires Numbered(a) == Numbered(b)
    ensures a == b
  {
    assert Decimal(a) == Numbered(a)[|PREFIX|..] == Numbered(b)[|PREFIX|..] == Decimal(b);
    ReadDecimal(a);
    ReadDecimal(b);
  }

  /** The first `n` numbered names. */
  function FirstNames(n: nat): set<string> {
    if n == 0 then {} else FirstNames(n - 1) + {Numbered(n)}
  }

  lemma {:induction false} FirstNamesOf(n: nat, name: string)
    ensures name in FirstNames(n) <==> exists k :: 1 <= k <= n && name == Numbered(k)
  {
    if n > 0 {
      FirstNamesOf(n - 1, name);
    }
  }

  lemma {:induction false} FirstNamesCount(n: nat)
    ensures |FirstNames(n)| == n
  {
    if n > 0 {
      FirstNamesCount(n - 1);
      FirstNamesOf(n - 1, Numbered(n));
      forall k | 1 <= k <= n - 1 ensures Numbered(k) != Numbered(n) {
        if Numbered(k) == Numbered(n) {
          NumberedInjective(k, n);
        }
      }
    }
  }

  lemma TakenBound(existing: set<string>, n: nat)
    requires forall k | 1 <= k <= n :: Numbered(k) in existing
    ensures n <= |existing|
  {
    FirstNamesCount(n);
    forall name | name in FirstNames(n) ensures name in existing {
      FirstNamesOf(n, name);
    }
    SubsetSize(FirstNames(n), existing);
  }

  /** The smallest index that is not used, within one try more than there are names. */
  method FreshIndex(existing: set<string>) returns (index: nat)
    ensures 1 <= index <= |existing| + 1
    ensures Numbered(index) !in existing
    ensures forall k | 1 <= k < index :: Numbered(k) in existing
  {
    index := 1;
    TakenBound(existing, 0);
    while Numbered(index) in existing
      invariant 1 <= index <= |existing| + 1
      invariant forall k | 1 <= k < index :: Numbered(k) in existing
      decreases |existing| + 1 - index
    {
      TakenBound(existing, index);
      index := index + 1;
    }
  }

  // ----- The saved list -----

  datatype Entry = Entry(workspaceName: string, createdAt: int, programName: Option<string>)

  /** A parsed item: the fields that have the expected type, or no object at all. */
  datatype Saved = Junk | Item(workspaceName: Option<string>, createdAt: Option<int>, programName: Option<string>)

  predicate IsLetter(c: char) { 'A' <= c <= 'Z' || 'a' <= c <= 'z' || c == '_' }

  predicate IsIdentifier(name: string) {
    && name != "" && IsLetter(name[0])
    && forall i | 0 <= i < |name| :: IsLetter(name[i]) || '0' <= name[i] <= '9'
  }

  lemma Identifiers()
    ensures IsIdentifier("my_Prog2") && IsIdentifier("_") && !IsIdentifier("2x") && !IsIdentifier("a-b")
    ensures !IsIdentifier("")
  {
    assert "a-b"[1] == '-';
  }

  predicate Acceptable(item: Saved) {
    && item.Item? && item.workspaceName.Some? && Trim(item.workspaceName.value) != ""
    && item.createdAt.Some?
  }

  function EntryOf(item: Saved): Entry
    requires Acceptable(item)
  {
    Entry(item.workspaceName.value, item.createdAt.value,
          if item.programName.Some? && IsIdentifier(item.programName.value) then item.programName else None)
  }

  function Load(items: seq<Saved>, seen: set<string>): seq<Entry>
    decreases items
  {
    if items == [] then []
    else if Acceptable(items[0]) && items[0].workspaceName.value !in seen then
      [EntryOf(items[0])] + Load(items[1..], seen + {items[0].workspaceName.value})
    else Load(items[1..], seen)
  }

  method ReadCustomPrograms(items: seq<Saved>) returns (programs: seq<Entry>)
    ensures programs == Load(items, {})
  {
    var seen: set<string> := {};
    programs := [];
    var i := 0;
    assert items[0..] == items && [] + Load(items, {}) == Load(items, {});
    while i < |items|
      invariant 0 <= i <= |items|
      invariant Load(items, {}) == programs + Load(items[i..], seen)
    {
      var item := items[i];
      assert items[i..][1..] == items[i + 1..];
      if Acceptable(item) && item.workspaceName.value !in seen {
        seen := seen + {item.workspaceName.value};
        var rest := Load(items[i + 1..], seen);
        assert programs + ([EntryOf(item)] + rest) == (programs + [EntryOf(item)]) + rest;
        programs := programs + [EntryOf(item)];
      }
      i := i + 1;
    }
    assert programs + [] == programs;
  }

  function Write(programs: seq<Entry>): (r: seq<Saved>)
    ensures |r| == |programs|
  {
    seq(|programs|, i requires 0 <= i < |programs| =>
      Item(Some(programs[i].workspaceName), Some(programs[i].createdAt), programs[i].programName))
  }

  predicate Storable(e: Entry) {
    Trim(e.workspaceName) != "" && (e.programName.Some? ==> IsIdentifier(e.programName.value))
  }

  ghost predicate DistinctNames(programs: seq<Entry>) {
    forall i, j | 0 <= i < j < |programs| :: programs[i].workspaceName != programs[j].workspaceName
  }

  ghost predicate Valid(programs: seq<Entry>) {
    DistinctNames(programs) && forall e | e in programs :: Storable(e)
  }

  ghost predicate HasName(programs: seq<Entry>, name: string) {
    exists e :: e in programs && e.workspaceName == name
  }

  /** A list headed by a name that the rest has not. */
  lemma ValidCons(e: Entry, rest: seq<Entry>)
    ensures Valid([e] + rest) <==> Storable(e) && Valid(rest) && !HasName(rest, e.workspaceName)
  {
    var all := [e] + rest;
    hide Storable;
    if Valid(all) {
      forall i, j | 0 <= i < j < |rest| ensures rest[i].workspaceName != rest[j].workspaceName {
        assert all[i + 1].workspaceName != all[j + 1].workspaceName;
      }
      forall x | x in rest ensures Storable(x) && x.workspaceName != e.workspaceName {
        var j :| 0 <= j < |rest| && rest[j] == x;
        assert x == all[j + 1] && x in all;
        assert all[0].workspaceName != all[j + 1].workspaceName;
      }
      assert e in all;
    }
    if Storable(e) && Valid(rest) && !HasName(rest, e.workspaceName) {
      forall i, j | 0 <= i < j < |all| ensures all[i].workspaceName != all[j].workspaceName {
        assert all[j] == rest[j - 1] && rest[j - 1] in rest;
      }
    }
  }

  /** What is loaded is valid, and takes no name seen before. */
  lemma {:induction false} LoadValid(items: seq<Saved>, seen: set<string>)
    ensures Valid(Load(items, seen))
    ensures forall e | e in Load(items, seen) :: e.workspaceName !in seen
    decreases items
  {
    hide Trim, IsIdentifier;
    if items != [] {
      if Acceptable(items[0]) && items[0].workspaceName.value !in seen {
        var e := EntryOf(items[0]);
        LoadValid(items[1..], seen + {e.workspaceName});
        hide Valid;
        ValidCons(e, Load(items[1..], seen + {e.workspaceName}));
      } else {
        LoadValid(items[1..], seen);
      }
    }
  }

  /** The first acceptable item of its name makes this entry. */
  ghost predicate IsFirst(items: seq<Saved>, i: int, e: Entry) {
    && 0 <= i < |items| && Acceptable(items[i]) && EntryOf(items[i]) == e
    && forall j | 0 <= j < i && Acceptable(items[j]) :: EntryOf(items[j]).workspaceName != e.workspaceName
  }

  ghost predicate First(items: seq<Saved>, e: Entry) { exists i :: IsFirst(items, i, e) }

  lemma FirstShift(items: seq<Saved>, e: Entry)
    requires items != [] && !(Acceptable(items[0]) && EntryOf(items[0]).workspaceName == e.workspaceName)
    ensures First(items, e) <==> First(items[1..], e)
  {
    hide Acceptable, EntryOf;
    var rest := items[1..];
    if First(items, e) {
      var i :| IsFirst(items, i, e);
      assert forall j | 0 <= j < i - 1 :: rest[j] == items[j + 1];
      assert IsFirst(rest, i - 1, e);
    }
    if First(rest, e) {
      var i :| IsFirst(rest, i, e);
      assert forall j | 1 <= j < i + 1 :: items[j] == rest[j - 1];
      assert IsFirst(items, i + 1, e);
    }
  }

  lemma FirstHead(items: seq<Saved>, e: Entry)
    requires items != [] && Acceptable(items[0]) && EntryOf(items[0]).workspaceName == e.workspaceName
    ensures First(items, e) <==> e == EntryOf(items[0])
  {
    hide Acceptable, EntryOf;
    if e == EntryOf(items[0]) {
      assert IsFirst(items, 0, e);
    }
  }

  /** An entry is loaded exactly when it is the first acceptable one of its name. */
  lemma {:induction false} LoadsFirst(items: seq<Saved>, seen: set<string>, e: Entry)
    ensures e in Load(items, seen) <==> e.workspaceName !in seen && First(items, e)
    decreases items
  {
    if items != [] {
      var item, rest := items[0], items[1..];
      if Acceptable(item) && EntryOf(item).workspaceName == e.workspaceName {
        FirstHead(items, e);
        LoadValid(rest, seen + {e.workspaceName});
        LoadValid(rest, seen);
      } else {
        FirstShift(items, e);
        LoadsFirst(rest, seen, e);
        if Acceptable(item) {
          LoadsFirst(rest, seen + {item.workspaceName.value}, e);
        }
      }
    }
  }

  lemma {:induction false} LoadWritten(programs: seq<Entry>, seen: set<string>)
    requires Valid(programs) && forall e | e in programs :: e.workspaceName !in seen
    ensures Load(Write(programs), seen) == programs
    decreases programs
  {
    hide Trim, IsIdentifier;
    if programs != [] {
      var e, rest := programs[0], programs[1..];
      assert programs == [e] + rest;
      ValidCons(e, rest);
      assert Write(programs)[1..] == Write(rest);
      assert e in programs;
      assert forall x | x in rest :: x in programs && x.workspaceName != e.workspaceName;
      LoadWritten(rest, seen + {e.workspaceName});
    }
  }

  /** Reading what was written gives the list back exactly when it is valid. */
  lemma ReloadSameIff(programs: seq<Entry>)
    ensures Load(Write(programs), {}) == programs <==> Valid(programs)
  {
    LoadValid(Write(programs), {});
    if Valid(programs) {
      LoadWritten(programs, {});
    }
  }

  // ----- Changes of the list -----

  function Keep(programs: seq<Entry>, names: set<string>): seq<Entry>
    decreases programs
  {
    if programs == [] then []
    else (if programs[0].workspaceName in names then [programs[0]] else []) + Keep(programs[1..], names)
  }

  function Without(programs: seq<Entry>, name: string): seq<Entry>
    decreases programs
  {
    if programs == [] then []
    else (if programs[0].workspaceName != name then [programs[0]] else []) + Without(programs[1..], name)
  }

  lemma {:induction false} KeepExact(programs: seq<Entry>, names: set<string>)
    ensures Keep(programs, names) == Filter(programs, (e: Entry) => e.workspaceName in names)
    decreases programs
  {
    if programs != [] {
      KeepExact(programs[1..], names);
    }
  }

  lemma {:induction false} WithoutExact(programs: seq<Entry>, name: string)
    ensures Without(programs, name) == Filter(programs, (e: Entry) => e.workspaceName != name)
    decreases programs
  {
    if programs != [] {
      WithoutExact(programs[1..], name);
    }
  }

  function Renamed(e: Entry, previous: string, name: string): Entry {
    if e.workspaceName == previous then e.(workspaceName := name) else e
  }

  function RenameCustomProgram(programs: seq<Entry>, previous: string, name: string): seq<Entry> {
    var others := Without(programs, name);
    seq(|others|, i requires 0 <= i < |others| => Renamed(others[i], previous, name))
  }

  function WithProgramName(e: Entry, name: string, programName: Option<string>): Entry {
    if e.workspaceName == name then e.(programName := programName) else e
  }

  datatype Step =
    | Initialize(available: set<string>, saved: Option<string>, now: int)
    | Start(index: nat, now: int, programName: Option<string>)
    | Sync(previous: string, name: string, previousExists: bool)
    | DropUnavailable(available: set<string>)
    | DropOne(name: string)
    | AdoptProgramName(name: string, programName: Option<string>)

  ghost predicate Enabled(step: Step) {
    match step
    case Start(_, _, programName) =>
      programName.Some? ==> IsIdentifier(programName.value)
    case Sync(previous, name, _) => previous != name && Trim(name) != ""
    case AdoptProgramName(_, programName) => programName.Some? ==> IsIdentifier(programName.value)
    case _ => true
  }

  predicate Has(programs: seq<Entry>, name: string)
    ensures Has(programs, name) <==> HasName(programs, name)
    decreases programs
  {
    if programs == [] then false
    else
      assert forall e :: e in programs <==> e == programs[0] || e in programs[1..];
      programs[0].workspaceName == name || Has(programs[1..], name)
  }

  function Next(programs: seq<Entry>, step: Step): seq<Entry> {
    match step
    case Initialize(available, saved, now) =>
      var kept := Keep(programs, available);
      if saved.Some? && PREFIX <= saved.value && saved.value in available && !Has(kept, saved.value) then
        kept + [Entry(saved.value, now, None)]
      else kept
    case Start(index, now, programName) =>
      Without(programs, Numbered(index)) + [Entry(Numbered(index), now, programName)]
    case Sync(previous, name, previousExists) =>
      if Has(programs, previous) && !previousExists then RenameCustomProgram(programs, previous, name) else programs
    case DropUnavailable(available) => Keep(programs, available)
    case DropOne(name) => Without(programs, name)
    case AdoptProgramName(name, programName) =>
      seq(|programs|, i requires 0 <= i < |programs| => WithProgramName(programs[i], name, programName))
  }

  lemma {:induction false} KeepMembers(programs: seq<Entry>, names: set<string>)
    ensures forall e :: e in Keep(programs, names) <==> e in programs && e.workspaceName in names
    decreases programs
  {
    if programs != [] {
      KeepMembers(programs[1..], names);
      assert forall e :: e in programs <==> e == programs[0] || e in programs[1..];
    }
  }

  lemma {:induction false} KeepOf(programs: seq<Entry>, names: set<string>)
    requires Valid(programs)
    ensures Valid(Keep(programs, names))
    decreases programs
  {
    hide Storable;
    if programs != [] {
      KeepMembers(programs[1..], names);
      var e, rest := programs[0], programs[1..];
      assert programs == [e] + rest;
      ValidCons(e, rest);
      KeepOf(rest, names);
      ValidCons(e, Keep(rest, names));
    }
  }

  lemma {:induction false} WithoutOf(programs: seq<Entry>, name: string)
    requires Valid(programs)
    ensures Valid(Without(programs, name))
    ensures forall e :: e in Without(programs, name) <==> e in programs && e.workspaceName != name
    decreases programs
  {
    hide Storable;
    if programs != [] {
      var e, rest := programs[0], programs[1..];
      assert programs == [e] + rest;
      ValidCons(e, rest);
      WithoutOf(rest, name);
      ValidCons(e, Without(rest, name));
    }
  }

  lemma ValidSnoc(programs: seq<Entry>, e: Entry)
    requires Valid(programs) && Storable(e) && !HasName(programs, e.workspaceName)
    ensures Valid(programs + [e])
  {
    hide Storable;
    var all := programs + [e];
    forall i, j | 0 <= i < j < |all| ensures all[i].workspaceName != all[j].workspaceName {
      assert all[i] == programs[i] && programs[i] in programs;
    }
  }

  /** A new program comes last, after all others in their order. */
  lemma StartExact(programs: seq<Entry>, index: nat, now: int, programName: Option<string>)
    ensures var r, name := Next(programs, Start(index, now, programName)), Numbered(index);
            && r == Filter(programs, (e: Entry) => e.workspaceName != name) + [Entry(name, now, programName)]
            && (!HasName(programs, name) ==> r == programs + [Entry(name, now, programName)])
  {
    WithoutExact(programs, Numbered(index));
    var name := Numbered(index);
    if !HasName(programs, name) {
      FilterAll(programs, (e: Entry) => e.workspaceName != name);
    }
  }

  /** At first the programs whose workspaces are there stay, in their order; a custom one
      that was open and is not listed comes after them. */
  lemma InitializeExact(programs: seq<Entry>, available: set<string>, saved: Option<string>, now: int)
    ensures var kept := Filter(programs, (e: Entry) => e.workspaceName in available);
            Next(programs, Initialize(available, saved, now))
              == if saved.Some? && PREFIX <= saved.value && saved.value in available && !HasName(programs, saved.value)
                 then kept + [Entry(saved.value, now, None)] else kept
  {
    KeepExact(programs, available);
    KeepMembers(programs, available);
    hide Keep, Filter;
    if saved.Some? && saved.value in available {
      assert HasName(Keep(programs, available), saved.value) <==> HasName(programs, saved.value);
    }
  }

  /** Dropping takes the named entries alone; a program name goes to the entry of its
      workspace alone, and nothing else of the list changes. */
  lemma OthersStay(programs: seq<Entry>, available: set<string>, name: string, programName: Option<string>)
    ensures Next(programs, DropUnavailable(available)) == Filter(programs, (e: Entry) => e.workspaceName in available)
    ensures Next(programs, DropOne(name)) == Filter(programs, (e: Entry) => e.workspaceName != name)
    ensures var r := Next(programs, AdoptProgramName(name, programName));
            && |r| == |programs|
            && forall i | 0 <= i < |r| ::
                 r[i] == Entry(programs[i].workspaceName, programs[i].createdAt,
                               if programs[i].workspaceName == name then programName else programs[i].programName)
  {
    KeepExact(programs, available);
    WithoutExact(programs, name);
  }

  /** A rename moves the entry of `previous` to the new name in its place, and takes
      the entry that had the name out. */
  lemma RenameExact(programs: seq<Entry>, previous: string, name: string)
    requires Valid(programs) && previous != name && Trim(name) != ""
    ensures var r := RenameCustomProgram(programs, previous, name);
            && Valid(r) && !HasName(r, previous)
            && (var others := Filter(programs, (e: Entry) => e.workspaceName != name);
                && |r| == |others|
                && forall i | 0 <= i < |r| ::
                     r[i] == Entry(if others[i].workspaceName == previous then name else others[i].workspaceName,
                                   others[i].createdAt, others[i].programName))
            && (HasName(r, name) <==> HasName(programs, previous))
            && (forall e: Entry | e.workspaceName != previous && e.workspaceName != name :: e in r <==> e in programs)
            && (forall e | e in programs && e.workspaceName == previous :: e.(workspaceName := name) in r)
  {
    var others := Without(programs, name);
    var r := RenameCustomProgram(programs, previous, name);
    WithoutOf(programs, name);
    WithoutExact(programs, name);
    RenamedList(others, r, previous, name);
    RenamedDistinct(others, r, previous, name);
    hide Without, Trim, IsIdentifier, RenameCustomProgram, DistinctNames;
    RenamedMembers(programs, others, r, previous, name);
  }

  /** Who is in the list after the rename, by who was in it before. */
  lemma RenamedMembers(programs: seq<Entry>, others: seq<Entry>, r: seq<Entry>, previous: string, name: string)
    requires previous != name && forall e :: e in others <==> e in programs && e.workspaceName != name
    requires forall e | e in r :: exists x :: x in others && e == Renamed(x, previous, name)
    requires forall x | x in others :: Renamed(x, previous, name) in r
    ensures !HasName(r, previous)
    ensures HasName(r, name) <==> HasName(programs, previous)
    ensures forall e: Entry | e.workspaceName != previous && e.workspaceName != name :: e in r <==> e in programs
    ensures forall e | e in programs && e.workspaceName == previous :: e.(workspaceName := name) in r
  {
    forall e | e in programs && e.workspaceName == previous ensures e.(workspaceName := name) in r {
      assert Renamed(e, previous, name) in r;
    }
    forall e: Entry | e.workspaceName != previous && e.workspaceName != name && e in programs ensures e in r {
      assert Renamed(e, previous, name) == e;
    }
    if HasName(r, name) {
      var e :| e in r && e.workspaceName == name;
      var x :| x in others && e == Renamed(x, previous, name);
      assert x in programs && x.workspaceName == previous;
    }
    if HasName(programs, previous) {
      var x :| x in programs && x.workspaceName == previous;
      assert x.(workspaceName := name) in r;
    }
  }

  lemma RenamedList(others: seq<Entry>, r: seq<Entry>, previous: string, name: string)
    requires |r| == |others| && forall i | 0 <= i < |others| :: r[i] == Renamed(others[i], previous, name)
    ensures forall e | e in r :: exists x :: x in others && e == Renamed(x, previous, name)
    ensures forall x | x in others :: Renamed(x, previous, name) in r
  {
    forall e | e in r ensures exists x :: x in others && e == Renamed(x, previous, name) {
      var i :| 0 <= i < |r| && r[i] == e;
      assert others[i] in others;
    }
    forall x | x in others ensures Renamed(x, previous, name) in r {
      var i :| 0 <= i < |others| && others[i] == x;
      assert r[i] == Renamed(x, previous, name);
    }
  }

  lemma RenamedDistinct(others: seq<Entry>, r: seq<Entry>, previous: string, name: string)
    requires DistinctNames(others) && forall e | e in others :: e.workspaceName != name
    requires |r| == |others| && forall i | 0 <= i < |others| :: r[i] == Renamed(others[i], previous, name)
    ensures DistinctNames(r)
  {
    forall i, j | 0 <= i < j < |r| ensures r[i].workspaceName != r[j].workspaceName {
      assert others[i] in others && others[j] in others;
    }
  }

  lemma AdoptKeeps(programs: seq<Entry>, name: string, programName: Option<string>)
    requires Valid(programs) && (programName.Some? ==> IsIdentifier(programName.value))
    ensures Valid(Next(programs, AdoptProgramName(name, programName)))
  {
    hide Trim, IsIdentifier;
    var r := Next(programs, AdoptProgramName(name, programName));
    forall e | e in r ensures Storable(e) {
      var i :| 0 <= i < |r| && r[i] == e;
      assert programs[i] in programs;
    }
    assert DistinctNames(r);
  }

  lemma NumberedStorable(index: nat)
    ensures Trim(Numbered(index)) != ""
  {
    NotBlank(Numbered(index));
  }

  lemma NotBlank(name: string)
    requires name != "" && !IsSpace(name[0])
    ensures Trim(name) != ""
  {
    EndKeeps(name);
  }

  lemma {:induction false} EndKeeps(name: string)
    requires name != "" && !IsSpace(name[0])
    ensures TrimEnd(name) != ""
    decreases name
  {
    if IsSpace(name[|name| - 1]) {
      EndKeeps(name[..|name| - 1]);
    }
  }

  lemma NextKeeps(programs: seq<Entry>, step: Step)
    requires Valid(programs) && Enabled(step)
    ensures Valid(Next(programs, step))
  {
    hide Trim, IsIdentifier, Numbered;
    match step
    case Initialize(available, saved, now) =>
      KeepOf(programs, available);
      if saved.Some? && PREFIX <= saved.value {
        NotBlank(saved.value);
        if !Has(Keep(programs, available), saved.value) {
          ValidSnoc(Keep(programs, available), Entry(saved.value, now, None));
        }
      }
    case Start(index, now, programName) =>
      WithoutOf(programs, Numbered(index));
      NumberedStorable(index);
      ValidSnoc(Without(programs, Numbered(index)), Entry(Numbered(index), now, programName));
    case Sync(previous, name, _) =>
      RenameExact(programs, previous, name);
    case DropUnavailable(available) =>
      KeepOf(programs, available);
    case DropOne(name) =>
      WithoutOf(programs, name);
    case AdoptProgramName(name, programName) =>
      AdoptKeeps(programs, name, programName);
  }

  function Run(programs: seq<Entry>, steps: seq<Step>): seq<Entry>
    decreases steps
  {
    if steps == [] then programs else Run(Next(programs, steps[0]), steps[1..])
  }

  lemma {:induction false} RunKeeps(programs: seq<Entry>, steps: seq<Step>)
    requires Valid(programs) && forall step | step in steps :: Enabled(step)
    ensures Valid(Run(programs, steps))
    decreases steps
  {
    if steps != [] {
      assert steps[0] in steps;
      NextKeeps(programs, steps[0]);
      RunKeeps(Next(programs, steps[0]), steps[1..]);
    }
  }

  /** From whatever was saved, after any changes, no name is twice in the list, and
      saving it and loading it gives the same list. */
  lemma RunReloads(items: seq<Saved>, steps: seq<Step>)
    requires forall step | step in steps :: Enabled(step)
    ensures var programs := Run(Load(items, {}), steps);
            DistinctNames(programs) && Load(Write(programs), {}) == programs
  {
    LoadValid(items, {});
    RunKeeps(Load(items, {}), steps);
    ReloadSameIff(Run(Load(items, {}), steps));
  }

  // ----- The hook -----

  class Library {
    var programs: seq<Entry>

    constructor (items: seq<Saved>)
      ensures programs == Load(items, {})
    {
      new;
      programs := ReadCustomPrograms(items);
    }

    method StartNewProgram(existing: set<string>, now: int, programName: Option<string>) returns (workspaceName: string)
      modifies this
      ensures workspaceName !in existing
      ensures exists index: nat :: programs == Next(old(programs), Start(index, now, programName))
                           && workspaceName == "learn-my-program-" + Decimal(index) && 1 <= index <= |existing| + 1
                           && forall k | 1 <= k < index :: Numbered(k) in existing
      ensures programs == Filter(old(programs), (e: Entry) => e.workspaceName != workspaceName)
                          + [Entry(workspaceName, now, programName)]
      ensures !HasName(old(programs), workspaceName) ==>
                programs == old(programs) + [Entry(workspaceName, now, programName)]
    {
      var index := FreshIndex(existing);
      workspaceName := Numbered(index);
      programs := Without(programs, workspaceName) + [Entry(workspaceName, now, programName)];
      assert programs == Next(old(programs), Start(index, now, programName));
      StartExact(old(programs), index, now, programName);
    }

    method SyncWorkspace(previous: string, name: string, previousExists: bool)
      modifies this
      ensures name != previous ==> programs == Next(old(programs), Sync(previous, name, previousExists))
      ensures name == previous || previousExists || !HasName(old(programs), previous) ==> programs == old(programs)
      ensures name != previous && !previousExists && HasName(old(programs), previous) ==>
                programs == RenameCustomProgram(old(programs), previous, name)
    {
      if name == previous {
        return;
      }
      var previousWasCustom := Has(programs, previous);
      if previousWasCustom && !previousExists {
        programs := RenameCustomProgram(programs, previous, name);
      }
    }
  }
}
