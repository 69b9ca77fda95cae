/** internal/manifest/manifest.go: reading the dependency table of a manifest, which arrives
    as a map and so in no particular order. */
module Manifests {
  import opened Wrappers
  import opened Requirements
  import opened PackageNames
  import opened Sorting
  import opened Index

  const MAX_DEPENDENCIES: nat := 256

  /** What a decoded TOML table may hold under a key, as far as this reader looks. */
  datatype Value = TextValue(text: string) | BoolValue(flag: bool) | OtherValue

  datatype Entry = Statement(text: string) | Table(fields: map<string, Value>) | OtherEntry

  function ReadDependency(name: Name, entry: Entry): Option<Dependency> {
    match entry
    case Statement(text) =>
      (match RequirementOf(text)
       case Err(_) => None
       case Ok(requirement) => Some(Dependency(name, requirement, false)))
    case Table(fields) =>
      if "version" !in fields || !fields["version"].TextValue? then None
      else
        (match RequirementOf(fields["version"].text)
         case Err(_) => None
         case Ok(requirement) =>
           if "dev" !in fields then Some(Dependency(name, requirement, false))
           else if !fields["dev"].BoolValue? then None
           else Some(Dependency(name, requirement, fields["dev"].flag)))
    case OtherEntry => None
  }

  /** What one entry of the table declares. */
  function Declared(specifier: string, entry: Entry): Option<Dependency> {
    match Parse(specifier)
    case None => None
    case Some(name) => ReadDependency(name, entry)
  }

  /** A statement declares a dependency for use, under its requirement. */
  lemma StatementDeclares(specifier: string, text: string, d: Dependency)
    ensures Declared(specifier, Statement(text)) == Some(d) <==>
            Parse(specifier) == Some(d.name) && RequirementOf(text) == Ok(d.requirement) && !d.dev
  {
  }

  /** A table declares one under the requirement its version states, for development exactly
      when its flag says so; a table without either part in its proper form declares none. */
  lemma TableDeclares(specifier: string, fields: map<string, Value>, d: Dependency)
    ensures Declared(specifier, Table(fields)) == Some(d) <==>
            && Parse(specifier) == Some(d.name)
            && (exists text ::
                  "version" in fields && fields["version"] == TextValue(text) &&
                  RequirementOf(text) == Ok(d.requirement))
            && (if "dev" in fields then fields["dev"] == BoolValue(d.dev) else !d.dev)
  {
    if Declared(specifier, Table(fields)) == Some(d) {
      assert fields["version"] == TextValue(fields["version"].text);
    }
  }

  lemma OthersDeclareNothing(specifier: string)
    ensures Declared(specifier, OtherEntry).None?
  {
  }

  type Declarations = map<string, Option<Dependency>>

  /** What every entry of the table declares. */
  function DeclarationsOf(entries: map<string, Entry>): (ds: Declarations)
    ensures ds.Keys == entries.Keys && |ds| == |entries|
  {
    var ds := map s | s in entries :: Declared(s, entries[s]);
    assert ds.Keys == entries.Keys;
    assert |ds| == |ds.Keys| == |entries.Keys|;
    ds
  }

  /** Every entry reads under its own name, and no two name one package. */
  ghost predicate Readable(ds: Declarations, specifiers: set<string>)
    requires specifiers <= ds.Keys
  {
    && (forall s | s in specifiers :: ds[s].Some?)
    && (forall s, t | s in specifiers && t in specifiers && s != t ::
          ds[s].value.name.Normalized() != ds[t].value.name.Normalized())
  }

  /** The list holds what the entries declare and nothing else. */
  ghost predicate Holds(ds: Declarations, specifiers: set<string>, list: seq<Dependency>)
    requires specifiers <= ds.Keys
  {
    forall d :: d in list <==> exists s :: s in specifiers && ds[s] == Some(d)
  }

  /** Declarations come from a table: each carries the name its specifier parses to. */
  ghost predicate Named(ds: Declarations) {
    forall s | s in ds && ds[s].Some? :: ds[s].value.name.WellFormed() && Parse(s) == Some(ds[s].value.name)
  }

  lemma DeclarationsAreNamed(entries: map<string, Entry>)
    ensures Named(DeclarationsOf(entries))
  {
    forall s | s in entries && Declared(s, entries[s]).Some?
      ensures Declared(s, entries[s]).value.name.WellFormed()
      ensures Parse(s) == Some(Declared(s, entries[s]).value.name)
    {
      DeclaredName(s, entries[s]);
    }
  }

  lemma DeclaredName(specifier: string, entry: Entry)
    requires Declared(specifier, entry).Some?
    ensures Declared(specifier, entry).value.name.WellFormed()
    ensures Parse(specifier) == Some(Declared(specifier, entry).value.name)
  {
    StringParse(specifier);
  }

  lemma AppendHolds(ds: Declarations, specifiers: set<string>, list: seq<Dependency>, s: string)
    requires specifiers <= ds.Keys && Holds(ds, specifiers, list)
    requires s in ds && ds[s].Some?
    ensures Holds(ds, specifiers + {s}, list + [ds[s].value])
  {
  }

  /** The table's names are distinct in the list too, whatever order it was gathered in. */
  ghost predicate DistinctNames(list: seq<Dependency>, seen: map<string, string>) {
    && (forall d | d in list :: d.name.WellFormed() && d.name.Normalized() in seen)
    && Distinct(CompareDependencies, list)
  }

  lemma AppendDistinct(list: seq<Dependency>, seen: map<string, string>, d: Dependency, specifier: string)
    requires DistinctNames(list, seen)
    requires d.name.WellFormed() && d.name.Normalized() !in seen
    ensures DistinctNames(list + [d], seen[d.name.Normalized() := specifier])
  {
    forall i | 0 <= i < |list| ensures CompareDependencies(list[i], d) != 0 {
      assert list[i] in list;
      EqualIsSameKey(list[i].name, d.name);
    }
  }

  /** seen takes each name's key to the one specifier in done that named it. */
  ghost predicate Indexed(ds: Declarations, done: set<string>, seen: map<string, string>)
    requires done <= ds.Keys
  {
    && (forall s | s in done ::
          ds[s].Some? && ds[s].value.name.Normalized() in seen && seen[ds[s].value.name.Normalized()] == s)
    && (forall k | k in seen :: seen[k] in done && ds[seen[k]].value.name.Normalized() == k)
  }

  lemma IndexOne(ds: Declarations, done: set<string>, seen: map<string, string>, s: string, d: Dependency)
    requires done <= ds.Keys && Indexed(ds, done, seen)
    requires s in ds && s !in done && ds[s] == Some(d)
    requires d.name.Normalized() !in seen
    ensures Indexed(ds, done + {s}, seen[d.name.Normalized() := s])
  {
  }

  lemma IndexedIsReadable(ds: Declarations, done: set<string>, seen: map<string, string>)
    requires done <= ds.Keys && Indexed(ds, done, seen)
    ensures Readable(ds, done)
  {
  }

  /** What the reader knows after visiting the specifiers in done. */
  ghost predicate Gathered(ds: Declarations, done: set<string>, list: seq<Dependency>, seen: map<string, string>) {
    && done <= ds.Keys
    && Indexed(ds, done, seen) && Holds(ds, done, list) && |list| == |done|
    && DistinctNames(list, seen)
  }

  lemma GatherOne(ds: Declarations, done: set<string>, list: seq<Dependency>, seen: map<string, string>,
      s: string, d: Dependency)
    requires Named(ds) && Gathered(ds, done, list, seen)
    requires s in ds && s !in done && ds[s] == Some(d)
    requires d.name.Normalized() !in seen
    ensures Gathered(ds, done + {s}, list + [d], seen[d.name.Normalized() := s])
  {
    IndexOne(ds, done, seen, s, d);
    AppendHolds(ds, done, list, s);
    AppendDistinct(list, seen, d, s);
  }

  lemma Refused(ds: Declarations, done: set<string>, list: seq<Dependency>, seen: map<string, string>, s: string)
    requires Gathered(ds, done, list, seen)
    requires s in ds && s !in done
    requires ds[s].None? || ds[s].value.name.Normalized() in seen
    ensures !Readable(ds, ds.Keys)
  {
    if ds[s].Some? {
      assert seen[ds[s].value.name.Normalized()] in ds.Keys;
    }
  }

  lemma SortedHolds(ds: Declarations, list: seq<Dependency>, sorted: seq<Dependency>)
    requires Holds(ds, ds.Keys, list) && multiset(sorted) == multiset(list)
    ensures Holds(ds, ds.Keys, sorted) && |sorted| == |list|
  {
    SameLength(list, sorted);
  }

  /** One turn of the reader's loop: the entry's dependency, unless its name or its value
      does not read or the name was seen before. */
  method ReadEntry(specifier: string, entry: Entry, seen: map<string, string>) returns (r: Option<Dependency>)
    ensures r.Some? <==>
              Declared(specifier, entry).Some? && Declared(specifier, entry).value.name.Normalized() !in seen
    ensures r.Some? ==> r == Declared(specifier, entry)
  {
    var name := Parse(specifier);
    if name.None? {
      return None;
    }
    if name.value.Normalized() in seen {
      return None;
    }
    return ReadDependency(name.value, entry);
  }

  lemma NothingGathered(ds: Declarations)
    ensures Gathered(ds, {}, [], map[])
  {
  }

  ghost predicate DeclaredBy(ds: Declarations, entries: map<string, Entry>) {
    ds.Keys == entries.Keys && forall s | s in entries :: ds[s] == Declared(s, entries[s])
  }

  /** What the loop knows while the specifiers in remaining are still to be visited. */
  ghost predicate Reading(ds: Declarations, remaining: set<string>, list: seq<Dependency>, seen: map<string, string>) {
    Gathered(ds, ds.Keys - remaining, list, seen)
  }

  lemma ReadingStarts(ds: Declarations)
    ensures Reading(ds, ds.Keys, [], map[])
  {
    NothingGathered(ds);
    assert {} == ds.Keys - ds.Keys;
  }

  lemma ReadingEnds(ds: Declarations, list: seq<Dependency>, seen: map<string, string>)
    requires Reading(ds, {}, list, seen)
    ensures Readable(ds, ds.Keys)
    ensures Holds(ds, ds.Keys, list) && |list| == |ds.Keys| && Distinct(CompareDependencies, list)
  {
    var done := ds.Keys - {};
    assert done == ds.Keys;
    IndexedIsReadable(ds, done, seen);
  }

  lemma ReadingContinues(ds: Declarations, remaining: set<string>, list: seq<Dependency>,
      seen: map<string, string>, s: string, d: Dependency)
    requires Named(ds) && Reading(ds, remaining, list, seen) && s in remaining
    requires s in ds && ds[s] == Some(d) && d.name.Normalized() !in seen
    ensures Reading(ds, remaining - {s}, list + [d], seen[d.name.Normalized() := s])
  {
    var done := ds.Keys - remaining;
    GatherOne(ds, done, list, seen, s, d);
    assert done + {s} == ds.Keys - (remaining - {s});
  }

  lemma ReadingRefused(ds: Declarations, remaining: set<string>, list: seq<Dependency>,
      seen: map<string, string>, s: string)
    requires Reading(ds, remaining, list, seen) && s in remaining
    requires s in ds && (ds[s].None? || ds[s].value.name.Normalized() in seen)
    ensures !Readable(ds, ds.Keys)
  {
    var done := ds.Keys - remaining;
    Refused(ds, done, list, seen, s);
  }

  /** One turn of the loop, in terms of what the table declares. */
  method ReadNext(entries: map<string, Entry>, ghost ds: Declarations, ghost remaining: set<string>,
                  ghost list: seq<Dependency>, specifier: string, seen: map<string, string>)
    returns (r: Option<Dependency>)
    requires Named(ds) && DeclaredBy(ds, entries) && Reading(ds, remaining, list, seen)
    requires specifier in remaining && specifier in entries
    ensures match r
            case None => !Readable(ds, ds.Keys)
            case Some(d) => Reading(ds, remaining - {specifier}, list + [d], seen[d.name.Normalized() := specifier])
  {
    r := ReadEntry(specifier, entries[specifier], seen);
    if r.None? {
      ReadingRefused(ds, remaining, list, seen, specifier);
    } else {
      ReadingContinues(ds, remaining, list, seen, specifier, r.value);
    }
  }

  /** Visits the table in whatever order the map gives, and fails in every order or in none. */
  method GatherDependencies(entries: map<string, Entry>, ghost ds: Declarations) returns (r: Option<seq<Dependency>>)
    requires Named(ds) && DeclaredBy(ds, entries)
    ensures r.Some? <==> Readable(ds, ds.Keys)
    ensures r.Some? ==> Holds(ds, ds.Keys, r.value) && |r.value| == |ds.Keys| && Distinct(CompareDependencies, r.value)
  {
    ReadingStarts(ds);
    var dependencies: seq<Dependency> := [];
    var seen: map<string, string> := map[];
    var remaining := entries.Keys;
    while remaining != {}
      invariant remaining <= entries.Keys && Reading(ds, remaining, dependencies, seen)
      decreases remaining
    {
      var specifier :| specifier in remaining;
      var dependency := ReadNext(entries, ds, remaining, dependencies, specifier, seen);
      if dependency.None? {
        return None;
      }
      remaining := remaining - {specifier};
      seen := seen[dependency.value.name.Normalized() := specifier];
      dependencies := dependencies + [dependency.value];
    }
    ReadingEnds(ds, dependencies, seen);
    r := Some(dependencies);
  }

  method ReadDependencies(entries: map<string, Entry>) returns (r: Option<seq<Dependency>>)
    ensures r.Some? <==> |entries| <= MAX_DEPENDENCIES && Readable(DeclarationsOf(entries), entries.Keys)
    ensures r.Some? ==> Holds(DeclarationsOf(entries), entries.Keys, r.value) && Strictly(CompareDependencies, r.value)
    ensures r.Some? ==> |r.value| == |entries|
  {
    if |entries| > MAX_DEPENDENCIES {
      return None;
    }
    DeclarationsAreNamed(entries);
    var dependencies := GatherDependencies(entries, DeclarationsOf(entries));
    if dependencies.None? {
      return None;
    }
    var sorted := SortDependencies(dependencies.value);
    SortedHolds(DeclarationsOf(entries), dependencies.value, sorted);
    assert |entries| == |entries.Keys|;
    return Some(sorted);
  }

  method SortDependencies(list: seq<Dependency>) returns (r: seq<Dependency>)
    requires Distinct(CompareDependencies, list)
    ensures multiset(r) == multiset(list) && Strictly(CompareDependencies, r)
  {
    DependencyOrder();
    r := SortFunc(CompareDependencies, list);
    DistinctIsStrict(CompareDependencies, list, r);
  }

  /** One table has one list: two strictly ascending lists of what it declares are equal, so
      the map's iteration order cannot show in the result. */
  lemma OneTableOneList(entries: map<string, Entry>, a: seq<Dependency>, b: seq<Dependency>)
    requires Holds(DeclarationsOf(entries), entries.Keys, a) && Strictly(CompareDependencies, a)
    requires Holds(DeclarationsOf(entries), entries.Keys, b) && Strictly(CompareDependencies, b)
    ensures a == b
  {
    DependencyOrder();
    var ds := DeclarationsOf(entries);
    assert forall d :: d in a <==> exists s :: s in entries.Keys && ds[s] == Some(d);
    StrictOrderIsUnique(CompareDependencies, a, b);
  }

  /** A list that was read names no package twice. */
  lemma NoNameTwice(entries: map<string, Entry>, list: seq<Dependency>, i: nat, j: nat)
    requires Holds(DeclarationsOf(entries), entries.Keys, list) && Strictly(CompareDependencies, list)
    requires i < j < |list|
    ensures list[i].name.Normalized() != list[j].name.Normalized()
  {
    DeclarationsAreNamed(entries);
    assert list[i] in list && list[j] in list;
    EqualIsSameKey(list[i].name, list[j].name);
    assert CompareDependencies(list[i], list[j]) < 0;
  }
}
