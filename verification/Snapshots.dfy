/** What a read of the tables shows: one moment of them, whatever commits fell between its
    queries, and each version as it was published. */
module Snapshots {
  import opened Wrappers
  import opened Versions
  import opened Requirements
  import opened RequirementText
  import opened PackageNames
  import opened Sorting
  import opened Index
  import opened Tables
  import opened Registry
  import opened RegistryRuns
  import opened RegistryLaws
  import opened StoreReading

  // --- one moment ---

  /** versions are the package's selected rows of t, with their dependencies, in some order. */
  ghost predicate ShowsVersions(t: Tables, package: PackageId, only: Option<Version>, versions: seq<PublishedVersion>) {
    exists entries: seq<VersionEntry>, rows: seq<DependencyEntry> ::
      && ListsVersions(entries, t.versions, package, only)
      && ListsDependencies(rows, t.dependencies, IdsIn(entries))
      && Assembled(versions, entries, rows)
  }

  ghost predicate ShowsPackage(t: Tables, id: PackageId, pkg: Package)
    requires id in t.packages
  {
    pkg.name == StoredName(t.scopes, t.packages[id]) && ShowsVersions(t, id, None, pkg.versions)
  }

  /** Rows of versions recorded by t are the same when read at u. */
  lemma DependenciesUnmoved(t: Tables, u: Tables, entries: seq<VersionEntry>, rows: seq<DependencyEntry>,
      package: PackageId, only: Option<Version>)
    requires Consistent(t) && Extends(t, u) && ListsVersions(entries, t.versions, package, only)
    requires ListsDependencies(rows, u.dependencies, IdsIn(entries))
    ensures ListsDependencies(rows, t.dependencies, IdsIn(entries))
  {
    assert IdsIn(entries) <= t.versions.Keys;
  }

  lemma StoredNameParses(t: Tables, id: PackageId)
    requires Consistent(t) && id in t.packages
    ensures Parse(StoredName(t.scopes, t.packages[id]).String()) == Some(StoredName(t.scopes, t.packages[id]))
    ensures StoredName(t.scopes, t.packages[id]).Normalized() == t.packages[id].normalized
  {
    assert Rebuilds(t.scopes, t.packages[id]);
    ParseString(StoredName(t.scopes, t.packages[id]));
  }

  lemma NameUnmoved(t: Tables, u: Tables, id: PackageId)
    requires Consistent(t) && Consistent(u) && Extends(t, u) && id in t.packages
    ensures StoredName(u.scopes, u.packages[id]) == StoredName(t.scopes, t.packages[id])
    ensures PackageNamed(u.packages, t.packages[id].normalized) == Some(id)
  {
    assert Rebuilds(t.scopes, t.packages[id]);
    PackageFound(u, id);
  }

  lemma EntriesHoldVersions(t: Tables, entries: seq<VersionEntry>, package: PackageId, only: Option<Version>)
    requires Consistent(t) && ListsVersions(entries, t.versions, package, only)
    ensures forall e | e in entries :: HoldsAVersion(e.row)
  {
  }

  lemma EntriesHoldDependencies(t: Tables, rows: seq<DependencyEntry>, ids: set<VersionId>)
    requires Consistent(t) && ListsDependencies(rows, t.dependencies, ids)
    ensures forall e | e in rows :: HoldsADependency(e.row) && ReadDependencyRow(e.row).Some?
  {
  }

  // --- the reading ---

  datatype ReadFailure = Missing | Unreadable

  /** The row of a lookup key, and the name its columns rebuild. */
  method Locate(name: Name, t: Tables) returns (r: Result<(PackageId, Name), ReadFailure>)
    requires Consistent(t)
    ensures match PackageNamed(t.packages, name.Normalized())
            case None => r == Err(Missing)
            case Some(id) => r == Ok((id, StoredName(t.scopes, t.packages[id])))
  {
    if id: PackageId :| id in t.packages && t.packages[id].normalized == name.Normalized() {
      PackageFound(t, id);
      StoredNameParses(t, id);
      var row := t.packages[id];
      assert Rebuilds(t.scopes, row);
      var text := row.name;
      if row.scope.Some? {
        text := t.scopes[row.scope.value].name + "/" + row.name;
      }
      assert text == StoredName(t.scopes, row).String();
      var published := Parse(text);
      if published.None? {
        return Err(Unreadable);
      }
      return Ok((id, published.value));
    }
    return Err(Missing);
  }

  /** entries and rows are what the second and third queries answer, at their own moments. */
  method ReadVersions(ghost t: Tables, ghost u: Tables, ghost package: PackageId, ghost only: Option<Version>,
                      entries: seq<VersionEntry>, rows: seq<DependencyEntry>)
    returns (versions: Option<seq<PublishedVersion>>)
    requires Consistent(t) && Consistent(u) && Extends(t, u)
    requires ListsVersions(entries, t.versions, package, only)
    requires ListsDependencies(rows, u.dependencies, IdsIn(entries))
    ensures versions.Some? && |versions.value| == |entries|
    ensures ShowsVersions(t, package, only, versions.value)
  {
    EntriesHoldVersions(t, entries, package, only);
    EntriesHoldDependencies(u, rows, IdsIn(entries));
    DependenciesUnmoved(t, u, entries, rows, package, only);
    var bare, byID := GatherVersions(entries);
    if |bare| == 0 {
      return Some(bare);
    }
    versions := AttachDependencies(byID, bare, entries, rows);
  }

  /** Commits may fall between the three queries; what is returned is the package as it stood
      at the second, and every stored row reads. */
  method ReadPackage(name: Name, t: Tables, ghost u: Tables, ghost w: Tables,
                     entries: seq<VersionEntry>, rows: seq<DependencyEntry>) returns (r: Result<Package, ReadFailure>)
    requires Consistent(t) && Consistent(u) && Consistent(w) && Extends(t, u) && Extends(u, w)
    requires var found := PackageNamed(t.packages, name.Normalized());
             found.Some? ==>
               ListsVersions(entries, u.versions, found.value, None) &&
               ListsDependencies(rows, w.dependencies, IdsIn(entries))
    ensures match PackageNamed(t.packages, name.Normalized())
            case None => r == Err(Missing)
            case Some(id) =>
              PackageNamed(u.packages, name.Normalized()) == Some(id) && r.Ok? && ShowsPackage(u, id, r.value)
  {
    var located := Locate(name, t);
    if located.Err? {
      return Err(located.error);
    }
    var (id, published) := located.value;
    NameUnmoved(t, u, id);
    var versions := ReadVersions(u, w, id, None, entries, rows);
    if versions.None? {
      return Err(Unreadable);
    }
    return Ok(Package(published, versions.value));
  }

  lemma OneIdentityOneEntry(t: Tables, package: PackageId, version: Version, entries: seq<VersionEntry>, i: nat, j: nat)
    requires Consistent(t) && ListsVersions(entries, t.versions, package, Some(version))
    requires i < |entries| && j < |entries|
    ensures i == j
  {
    assert entries[i] in entries && entries[j] in entries;
    assert SameIdentityRows(entries[i].row, entries[j].row);
  }

  lemma OneEntryAtMost(t: Tables, package: PackageId, version: Version, entries: seq<VersionEntry>)
    requires Consistent(t) && ListsVersions(entries, t.versions, package, Some(version))
    ensures |entries| <= 1
  {
    if |entries| > 1 {
      OneIdentityOneEntry(t, package, version, entries, 0, 1);
    }
  }

  lemma AnEntryIfTaken(t: Tables, package: PackageId, version: Version, entries: seq<VersionEntry>)
    requires ListsVersions(entries, t.versions, package, Some(version))
    ensures entries != [] <==> VersionIsTaken(t.versions, package, version)
  {
    if entries != [] {
      assert entries[0] in entries;
    }
  }

  ghost predicate ShowsVersion(t: Tables, package: PackageId, version: Version, v: PublishedVersion) {
    ShowsVersions(t, package, Some(version), [v])
  }

  lemma ShownAlone(t: Tables, package: PackageId, version: Version, versions: seq<PublishedVersion>)
    requires ShowsVersions(t, package, Some(version), versions) && |versions| == 1
    ensures ShowsVersion(t, package, version, versions[0])
  {
    assert versions == [versions[0]];
  }

  method ReadOne(ghost t: Tables, ghost u: Tables, ghost package: PackageId, ghost version: Version,
                 entries: seq<VersionEntry>, rows: seq<DependencyEntry>)
    returns (r: Result<PublishedVersion, ReadFailure>)
    requires Consistent(t) && Consistent(u) && Extends(t, u)
    requires ListsVersions(entries, t.versions, package, Some(version))
    requires ListsDependencies(rows, u.dependencies, IdsIn(entries)) && |entries| <= 1
    ensures if entries != [] then r.Ok? && ShowsVersion(t, package, version, r.value) else r == Err(Missing)
  {
    var versions := ReadVersions(t, u, package, Some(version), entries, rows);
    if versions.None? {
      return Err(Unreadable);
    }
    if |versions.value| == 0 {
      return Err(Missing);
    }
    ShownAlone(t, package, version, versions.value);
    return Ok(versions.value[0]);
  }

  /** One version of a package, as it stood at the second query. */
  method ReadVersion(name: Name, version: Version, t: Tables, ghost u: Tables, ghost w: Tables,
                     entries: seq<VersionEntry>, rows: seq<DependencyEntry>)
    returns (r: Result<PublishedVersion, ReadFailure>)
    requires Consistent(t) && Consistent(u) && Consistent(w) && Extends(t, u) && Extends(u, w)
    requires var found := PackageNamed(t.packages, name.Normalized());
             found.Some? ==>
               ListsVersions(entries, u.versions, found.value, Some(version)) &&
               ListsDependencies(rows, w.dependencies, IdsIn(entries))
    ensures match PackageNamed(t.packages, name.Normalized())
            case None => r == Err(Missing)
            case Some(id) =>
              if VersionIsTaken(u.versions, id, version) then r.Ok? && ShowsVersion(u, id, version, r.value)
              else r == Err(Missing)
  {
    var located := Locate(name, t);
    if located.Err? {
      return Err(located.error);
    }
    var (id, _) := located.value;
    AnEntryIfTaken(u, id, version, entries);
    OneEntryAtMost(u, id, version, entries);
    r := ReadOne(u, w, id, version, entries, rows);
  }

  // --- reads of one moment agree ---

  /** What was read for a version is one dependency for each of its rows. */
  lemma {:induction false} DependenciesReadAre(id: VersionId, rows: seq<DependencyEntry>, d: Dependency)
    ensures d in DependenciesRead(id, rows) <==>
              exists e | e in rows :: e.version == id && ReadDependencyRow(e.row) == Some(d)
  {
    if rows != [] {
      var before, last := rows[..|rows| - 1], rows[|rows| - 1];
      assert rows == before + [last];
      LastRead(id, before, last, d);
      DependenciesReadAre(id, before, d);
      assert last in rows;
    }
  }

  lemma LastRead(id: VersionId, before: seq<DependencyEntry>, last: DependencyEntry, d: Dependency)
    ensures d in DependenciesRead(id, before + [last]) <==>
            d in DependenciesRead(id, before) || (last.version == id && ReadDependencyRow(last.row) == Some(d))
  {
    assert (before + [last])[..|before|] == before;
    var read := DependenciesRead(id, before);
    var row := ReadDependencyRow(last.row);
    assert row.Some? ==> (d in read + [row.value] <==> d in read || row == Some(d));
  }

  lemma ReadNameHasKey(row: DependencyRow)
    requires HoldsADependency(row)
    ensures ReadDependencyRow(row).Some?
    ensures ReadDependencyRow(row).value.name.WellFormed()
    ensures ReadDependencyRow(row).value.name.Normalized() == row.normalized
  {
    StringParse(row.name);
  }

  /** Distinct rows under distinct keys, each of which reads. */
  ghost predicate Keyed(rows: seq<DependencyEntry>) {
    && (forall e | e in rows :: HoldsADependency(e.row))
    && (forall i, j | 0 <= i < j < |rows| && rows[i].version == rows[j].version ::
          rows[i].row.normalized != rows[j].row.normalized)
  }

  lemma ListedAreKeyed(t: Tables, rows: seq<DependencyEntry>, ids: set<VersionId>)
    requires Consistent(t) && ListsDependencies(rows, t.dependencies, ids)
    ensures Keyed(rows)
  {
    forall i, j | 0 <= i < j < |rows| && rows[i].version == rows[j].version
      ensures rows[i].row.normalized != rows[j].row.normalized
    {
      assert rows[i] in rows && rows[j] in rows && rows[i] != rows[j];
    }
  }

  lemma AppendDistinctName(list: seq<Dependency>, d: Dependency)
    requires Distinct(CompareDependencies, list) && d.name.WellFormed()
    requires forall c | c in list :: c.name.WellFormed() && c.name.Normalized() != d.name.Normalized()
    ensures Distinct(CompareDependencies, list + [d])
  {
    forall i | 0 <= i < |list| ensures CompareDependencies(list[i], d) != 0 {
      assert list[i] in list;
      EqualIsSameKey(list[i].name, d.name);
    }
  }

  lemma {:induction false} DependenciesReadAreDistinct(id: VersionId, rows: seq<DependencyEntry>)
    requires Keyed(rows)
    ensures Distinct(CompareDependencies, DependenciesRead(id, rows))
  {
    if rows != [] {
      var before, last := rows[..|rows| - 1], rows[|rows| - 1];
      DependenciesReadAreDistinct(id, before);
      var read := DependenciesRead(id, before);
      ReadNameHasKey(last.row);
      if last.version == id {
        forall c | c in read ensures c.name.WellFormed() && c.name.Normalized() != last.row.normalized {
          DependenciesReadAre(id, before, c);
          var e :| e in before && e.version == id && ReadDependencyRow(e.row) == Some(c);
          ReadNameHasKey(e.row);
        }
        AppendDistinctName(read, ReadDependencyRow(last.row).value);
      }
    }
  }

  lemma DependenciesReadAgree(t: Tables, ids: set<VersionId>, some: seq<DependencyEntry>,
      other: seq<DependencyEntry>, id: VersionId)
    requires Consistent(t) && id in ids
    requires ListsDependencies(some, t.dependencies, ids) && ListsDependencies(other, t.dependencies, ids)
    ensures multiset(DependenciesRead(id, some)) == multiset(DependenciesRead(id, other))
  {
    ListedAreKeyed(t, some, ids);
    ListedAreKeyed(t, other, ids);
    DependenciesReadAreDistinct(id, some);
    DependenciesReadAreDistinct(id, other);
    forall d ensures d in DependenciesRead(id, some) <==> d in DependenciesRead(id, other) {
      DependenciesReadAre(id, some, d);
      DependenciesReadAre(id, other, d);
      SameEntries(t, ids, some, other);
    }
    DependencyOrder();
    DistinctSameElements(CompareDependencies, DependenciesRead(id, some), DependenciesRead(id, other));
  }

  lemma SameEntries(t: Tables, ids: set<VersionId>, some: seq<DependencyEntry>, other: seq<DependencyEntry>)
    requires ListsDependencies(some, t.dependencies, ids) && ListsDependencies(other, t.dependencies, ids)
    ensures forall e :: e in some <==> e in other
  {
  }

  lemma ShownVersionsAgree(t: Tables, package: PackageId, only: Option<Version>, some: seq<PublishedVersion>,
      other: seq<PublishedVersion>)
    requires Consistent(t) && ShowsVersions(t, package, only, some) && ShowsVersions(t, package, only, other)
    ensures Matched(some, other)
  {
    var entries: seq<VersionEntry>, rows: seq<DependencyEntry> :|
      ListsVersions(entries, t.versions, package, only) &&
      ListsDependencies(rows, t.dependencies, IdsIn(entries)) && Assembled(some, entries, rows);
    var entries', rows' :|
      ListsVersions(entries', t.versions, package, only) &&
      ListsDependencies(rows', t.dependencies, IdsIn(entries')) && Assembled(other, entries', rows');
    SameVersionEntries(t, package, only, entries, entries');
    forall v | v in some ensures exists w | w in other :: SameRow(v, w) {
      var k :| 0 <= k < |some| && some[k] == v;
      assert entries[k] in entries;
      var j :| 0 <= j < |entries'| && entries'[j] == entries[k];
      DependenciesReadAgree(t, IdsIn(entries), rows, rows', entries[k].id);
      assert other[j] in other && SameRow(v, other[j]);
    }
  }

  lemma SameVersionEntries(t: Tables, package: PackageId, only: Option<Version>, some: seq<VersionEntry>,
      other: seq<VersionEntry>)
    requires ListsVersions(some, t.versions, package, only) && ListsVersions(other, t.versions, package, only)
    ensures forall e :: e in some <==> e in other
    ensures IdsIn(some) == IdsIn(other)
  {
  }

  lemma EntriesAreDistinct(t: Tables, package: PackageId, only: Option<Version>, entries: seq<VersionEntry>,
      i: nat, j: nat)
    requires Consistent(t) && ListsVersions(entries, t.versions, package, only) && i < j < |entries|
    ensures HoldsAVersion(entries[i].row) && HoldsAVersion(entries[j].row)
    ensures VersionIn(entries[i].row).Compare(VersionIn(entries[j].row)) != 0
  {
    assert entries[i] in entries && entries[j] in entries;
    CompareIsIdentity(VersionIn(entries[i].row), VersionIn(entries[j].row));
    assert !SameIdentityRows(entries[i].row, entries[j].row);
  }

  lemma ShownVersionsAreDistinct(t: Tables, package: PackageId, only: Option<Version>, versions: seq<PublishedVersion>)
    requires Consistent(t) && ShowsVersions(t, package, only, versions)
    ensures Distinct(CompareVersions, versions)
    ensures forall v | v in versions :: v.version.WellFormed() && Distinct(CompareDependencies, v.dependencies)
  {
    var entries: seq<VersionEntry>, rows: seq<DependencyEntry> :|
      ListsVersions(entries, t.versions, package, only) &&
      ListsDependencies(rows, t.dependencies, IdsIn(entries)) && Assembled(versions, entries, rows);
    forall i, j | 0 <= i < j < |versions| ensures CompareVersions(versions[i], versions[j]) != 0 {
      EntriesAreDistinct(t, package, only, entries, i, j);
    }
    ListedAreKeyed(t, rows, IdsIn(entries));
    forall v | v in versions ensures v.version.WellFormed() && Distinct(CompareDependencies, v.dependencies) {
      var k :| 0 <= k < |versions| && versions[k] == v;
      DependenciesReadAreDistinct(entries[k].id, rows);
    }
  }

  /** Two reads of one moment render one document, whatever order their rows came in. */
  lemma OneMomentOneDocument(t: Tables, id: PackageId, p: Package, q: Package, d: Document, e: Document)
    requires Consistent(t) && id in t.packages && ShowsPackage(t, id, p) && ShowsPackage(t, id, q)
    requires Renders(d, p) && Renders(e, q)
    ensures d == e
  {
    ShownVersionsAgree(t, id, None, p.versions, q.versions);
    ShownVersionsAgree(t, id, None, q.versions, p.versions);
    ShownVersionsAreDistinct(t, id, None, p.versions);
    ShownVersionsAreDistinct(t, id, None, q.versions);
    MatchedMirrors(q.versions, p.versions);
    DocumentIsCanonical(p, q, d, e);
  }

  lemma MatchedMirrors(p: seq<PublishedVersion>, q: seq<PublishedVersion>)
    requires Matched(p, q)
    ensures forall v | v in p :: exists w | w in q :: SameRow(w, v)
  {
    forall v | v in p ensures exists w | w in q :: SameRow(w, v) {
      var w :| w in q && SameRow(v, w);
      assert SameRow(w, v);
    }
  }

  /** Every version row of a package is shown, with its own columns and its own dependencies. */
  lemma ShowsEveryVersion(t: Tables, package: PackageId, versions: seq<PublishedVersion>, id: VersionId)
    returns (shown: PublishedVersion, ids: set<VersionId>, rows: seq<DependencyEntry>)
    requires Consistent(t) && ShowsVersions(t, package, None, versions)
    requires id in t.versions && t.versions[id].package == package
    ensures shown in versions && HoldsAVersion(t.versions[id])
    ensures id in ids && ListsDependencies(rows, t.dependencies, ids)
    ensures shown == VersionRead(t.versions[id], DependenciesRead(id, rows))
  {
    var entries: seq<VersionEntry>;
    entries, rows :|
      && ListsVersions(entries, t.versions, package, None)
      && ListsDependencies(rows, t.dependencies, IdsIn(entries)) && Assembled(versions, entries, rows);
    var k :| 0 <= k < |entries| && entries[k] == VersionEntry(id, t.versions[id]);
    shown, ids := versions[k], IdsIn(entries);
  }

  /** From the tables to the client: the last entry of the served document that a requirement
      accepts is at least every recorded version it accepts. */
  lemma ClientChoosesGreatest(t: Tables, package: PackageId, pkg: Package, doc: Document, r: Requirement,
      k: nat, id: VersionId)
    requires Consistent(t) && package in t.packages && ShowsPackage(t, package, pkg) && Renders(doc, pkg)
    requires k < |doc.versions| && Accepted(doc.versions[k], r)
    requires forall j | k < j < |doc.versions| :: !Accepted(doc.versions[j], r)
    requires id in t.versions && t.versions[id].package == package && HoldsAVersion(t.versions[id])
    requires r.Satisfies(VersionIn(t.versions[id]))
    ensures VersionIn(t.versions[id]).Compare(VersionOf(doc.versions[k].version).value) <= 0
  {
    var shown, _, _ := ShowsEveryVersion(t, package, pkg.versions, id);
    ShownVersionsAreDistinct(t, package, None, pkg.versions);
    LastAcceptedIsGreatest(doc, pkg, r, k, shown);
  }

  // --- as published ---

  /** t holds what a record wrote, but for the yanked mark. */
  ghost predicate HoldsRecord(t: Tables, package: PackageId, id: VersionId, record: Record, now: int)
    requires record.package.Some? && InRange(record.package.value.version)
  {
    && id in t.versions
    && t.versions[id] == VersionRowFor(package, record.package.value, record, now).(yanked := t.versions[id].yanked)
    && DependsOn(t.dependencies, id, record.dependencies)
  }

  lemma RecordStaysHeld(t: Tables, u: Tables, package: PackageId, id: VersionId, record: Record, now: int)
    requires record.package.Some? && InRange(record.package.value.version)
    requires HoldsRecord(t, package, id, record, now) && Extends(t, u)
    ensures HoldsRecord(u, package, id, record, now)
  {
  }

  lemma WrittenRowReads(d: Dependency)
    requires d.name.WellFormed() && Faithful(d.requirement)
    ensures ReadDependencyRow(DependencyRowFor(d)) == Some(d)
  {
    WrittenDependencyReads(d);
  }

  lemma DeclaredIsListed(dependencies: map<(VersionId, string), DependencyRow>, ids: set<VersionId>,
      rows: seq<DependencyEntry>, id: VersionId, declared: seq<Dependency>, d: Dependency)
    requires id in ids && ListsDependencies(rows, dependencies, ids) &&
             DependsOn(dependencies, id, declared) && d in declared
    ensures DependencyEntry(id, DependencyRowFor(d)) in rows
  {
    assert (id, d.name.Normalized()) in dependencies;
  }

  lemma ListedIsDeclared(dependencies: map<(VersionId, string), DependencyRow>, ids: set<VersionId>,
      rows: seq<DependencyEntry>, id: VersionId, declared: seq<Dependency>, e: DependencyEntry)
      returns (c: Dependency)
    requires ListsDependencies(rows, dependencies, ids) && DependsOn(dependencies, id, declared)
    requires e in rows && e.version == id
    ensures c in declared && e.row == DependencyRowFor(c)
  {
    assert (id, e.row.normalized) in dependencies;
    c :| c in declared && c.name.Normalized() == e.row.normalized;
  }

  lemma DeclaredAreRead(t: Tables, ids: set<VersionId>, rows: seq<DependencyEntry>, id: VersionId,
      declared: seq<Dependency>, d: Dependency)
    requires id in ids && ListsDependencies(rows, t.dependencies, ids) && DependsOn(t.dependencies, id, declared)
    requires forall c | c in declared :: c.name.WellFormed() && Faithful(c.requirement)
    ensures d in DependenciesRead(id, rows) <==> d in declared
  {
    DependenciesReadAre(id, rows, d);
    if d in declared {
      WrittenRowReads(d);
      DeclaredIsListed(t.dependencies, ids, rows, id, declared, d);
    }
    if d in DependenciesRead(id, rows) {
      var e :| e in rows && e.version == id && ReadDependencyRow(e.row) == Some(d);
      var c := ListedIsDeclared(t.dependencies, ids, rows, id, declared, e);
      WrittenRowReads(c);
    }
  }

  lemma DeclaredAreDistinct(declared: seq<Dependency>)
    requires forall i, j | 0 <= i < j < |declared| :: declared[i].name.Normalized() != declared[j].name.Normalized()
    requires forall c | c in declared :: c.name.WellFormed()
    ensures Distinct(CompareDependencies, declared)
  {
    forall i, j | 0 <= i < j < |declared| ensures CompareDependencies(declared[i], declared[j]) != 0 {
      EqualIsSameKey(declared[i].name, declared[j].name);
    }
  }

  lemma DependenciesReadBack(t: Tables, ids: set<VersionId>, rows: seq<DependencyEntry>, id: VersionId,
      declared: seq<Dependency>)
    requires Consistent(t) && id in ids && ListsDependencies(rows, t.dependencies, ids) &&
             DependsOn(t.dependencies, id, declared)
    requires forall c | c in declared :: c.name.WellFormed() && Faithful(c.requirement)
    ensures multiset(DependenciesRead(id, rows)) == multiset(declared)
  {
    DeclaredAreDistinct(declared);
    ListedAreKeyed(t, rows, ids);
    DependenciesReadAreDistinct(id, rows);
    forall d ensures d in DependenciesRead(id, rows) <==> d in declared {
      DeclaredAreRead(t, ids, rows, id, declared, d);
    }
    DependencyOrder();
    DistinctSameElements(CompareDependencies, DependenciesRead(id, rows), declared);
  }

  /** v is what the record published: its version to the last field, its checksum and realm,
      and each dependency with its name's casing and its requirement's own text and bounds. */
  ghost predicate AsPublished(v: PublishedVersion, record: Record, now: int)
    requires record.package.Some?
  {
    && v.version == record.package.value.version && v.checksum == record.checksum
    && v.realm == record.package.value.realm && v.publishedAt == now
    && multiset(v.dependencies) == multiset(record.dependencies)
  }

  lemma SoleEntry(t: Tables, package: PackageId, version: Version, entries: seq<VersionEntry>, id: VersionId)
    requires ListsVersions(entries, t.versions, package, Some(version)) && |entries| == 1
    requires id in t.versions && HasIdentity(t.versions[id], package, version)
    ensures entries == [VersionEntry(id, t.versions[id])] && id in IdsIn(entries)
  {
    assert VersionEntry(id, t.versions[id]) in entries;
  }

  lemma HeldRowsReadAsPublished(t: Tables, package: PackageId, id: VersionId, record: Record, now: int,
                                v: PublishedVersion, entries: seq<VersionEntry>, rows: seq<DependencyEntry>)
    requires Consistent(t) && Sound(record) && record.package.Some? && InRange(record.package.value.version)
    requires HoldsRecord(t, package, id, record, now)
    requires entries == [VersionEntry(id, t.versions[id])]
    requires ListsDependencies(rows, t.dependencies, {id}) && Assembled([v], entries, rows)
    ensures AsPublished(v, record, now)
  {
    DependenciesReadBack(t, {id}, rows, id, record.dependencies);
    assert [v][0] == VersionRead(entries[0].row, DependenciesRead(entries[0].id, rows));
    RowReadsAsPublished(t.versions[id], DependenciesRead(id, rows), package, record, now);
  }

  lemma HeldReadsAsPublished(t: Tables, package: PackageId, id: VersionId, record: Record, now: int,
      v: PublishedVersion)
    requires Consistent(t) && Sound(record) && record.package.Some? && InRange(record.package.value.version)
    requires HoldsRecord(t, package, id, record, now)
    requires ShowsVersion(t, package, record.package.value.version, v)
    ensures AsPublished(v, record, now)
  {
    HeldIdentity(t, package, id, record, now);
    var rows := ShownFrom(t, package, record.package.value.version, id, v);
    HeldRowsReadAsPublished(t, package, id, record, now, v, [VersionEntry(id, t.versions[id])], rows);
  }

  lemma HeldIdentity(t: Tables, package: PackageId, id: VersionId, record: Record, now: int)
    requires record.package.Some? && InRange(record.package.value.version)
    requires HoldsRecord(t, package, id, record, now)
    ensures id in t.versions && HasIdentity(t.versions[id], package, record.package.value.version)
  {
  }

  lemma ShownFrom(t: Tables, package: PackageId, version: Version, id: VersionId, v: PublishedVersion)
      returns (rows: seq<DependencyEntry>)
    requires ShowsVersion(t, package, version, v) && id in t.versions && HasIdentity(t.versions[id], package, version)
    ensures ListsDependencies(rows, t.dependencies, {id}) && Assembled([v], [VersionEntry(id, t.versions[id])], rows)
  {
    var entries: seq<VersionEntry>;
    entries, rows :|
      ListsVersions(entries, t.versions, package, Some(version)) &&
      ListsDependencies(rows, t.dependencies, IdsIn(entries)) && Assembled([v], entries, rows);
    SoleEntry(t, package, version, entries, id);
    assert IdsIn(entries) == {id};
  }

  lemma RowReadsAsPublished(row: VersionRow, dependencies: seq<Dependency>, package: PackageId,
      record: Record, now: int)
    requires record.package.Some? && record.package.value.version.WellFormed()
    requires row == VersionRowFor(package, record.package.value, record, now).(yanked := row.yanked)
    requires multiset(dependencies) == multiset(record.dependencies)
    ensures HoldsAVersion(row) && AsPublished(VersionRead(row, dependencies), record, now)
  {
    WrittenVersionReads(package, record.package.value, record, now);
  }

  lemma HeldIsShownAsPublished(t: Tables, package: PackageId, id: VersionId, record: Record, now: int,
      versions: seq<PublishedVersion>)
    returns (v: PublishedVersion)
    requires Consistent(t) && Sound(record) && record.package.Some? && InRange(record.package.value.version)
    requires HoldsRecord(t, package, id, record, now) && ShowsVersions(t, package, None, versions)
    ensures v in versions && AsPublished(v, record, now)
  {
    HeldIdentity(t, package, id, record, now);
    var shown, ids, rows := ShowsEveryVersion(t, package, versions, id);
    DependenciesReadBack(t, ids, rows, id, record.dependencies);
    RowReadsAsPublished(t.versions[id], DependenciesRead(id, rows), package, record, now);
    v := shown;
  }

  /** Whatever ran since, the package read shows a recorded version as it was published, and
      shows no other version of that identity. */
  lemma PublishedReadsBack(t: Tables, record: Record, now: int, ops: seq<Operation>, pkg: Package)
      returns (v: PublishedVersion)
    requires Consistent(t) && Sound(record) && Recorded(t, record, now).Ok? && forall op | op in ops :: Admissible(op)
    requires var u := Run(Recorded(t, record, now).value, ops);
             var id := PackageNamed(u.packages, record.package.value.name.Normalized());
             id.Some? && ShowsPackage(u, id.value, pkg)
    ensures v in pkg.versions && AsPublished(v, record, now)
    ensures forall w | w in pkg.versions && w.version.SameIdentity(record.package.value.version) :: w == v
  {
    var u := Run(Recorded(t, record, now).value, ops);
    var package, id := RecordedStaysHeld(t, record, now, ops);
    v := HeldIsShownAsPublished(u, package, id, record, now, pkg.versions);
    ShownVersionsAreDistinct(u, package, None, pkg.versions);
    forall w | w in pkg.versions && w.version.SameIdentity(v.version) ensures w == v {
      OneOfAnIdentity(pkg.versions, v, w);
    }
  }

  lemma OneOfAnIdentity(versions: seq<PublishedVersion>, v: PublishedVersion, w: PublishedVersion)
    requires Distinct(CompareVersions, versions) && v in versions && w in versions
    requires w.version.SameIdentity(v.version)
    ensures v == w
  {
    var i :| 0 <= i < |versions| && versions[i] == v;
    var j :| 0 <= j < |versions| && versions[j] == w;
    CompareIsIdentity(v.version, w.version);
    assert CompareVersions(versions[i], versions[j]) == 0 && CompareVersions(versions[j], versions[i]) == 0;
  }

  /** The read of that one version shows it as published too. */
  lemma PublishedVersionReadsBack(t: Tables, record: Record, now: int, ops: seq<Operation>, v: PublishedVersion)
    requires Consistent(t) && Sound(record) && Recorded(t, record, now).Ok? && forall op | op in ops :: Admissible(op)
    requires var u := Run(Recorded(t, record, now).value, ops);
             var id := PackageNamed(u.packages, record.package.value.name.Normalized());
             id.Some? && ShowsVersion(u, id.value, record.package.value.version, v)
    ensures AsPublished(v, record, now)
  {
    var package, id := RecordedStaysHeld(t, record, now, ops);
    HeldReadsAsPublished(Run(Recorded(t, record, now).value, ops), package, id, record, now, v);
  }

  lemma RecordedIsHeld(t: Tables, record: Record, now: int) returns (package: PackageId, id: VersionId)
    requires Consistent(t) && Sound(record) && Recorded(t, record, now).Ok?
    ensures var u := Recorded(t, record, now).value;
            && Consistent(u) && HoldsRecord(u, package, id, record, now)
            && package in u.packages && u.packages[package].normalized == record.package.value.name.Normalized()
  {
    package, id := RecordedMeans(t, record, now);
    RecordedKeeps(t, record, now);
  }

  lemma RecordedStaysHeld(t: Tables, record: Record, now: int, ops: seq<Operation>)
      returns (package: PackageId, id: VersionId)
    requires Consistent(t) && Sound(record) && Recorded(t, record, now).Ok? && forall op | op in ops :: Admissible(op)
    ensures var u := Run(Recorded(t, record, now).value, ops);
            && Consistent(u) && HoldsRecord(u, package, id, record, now)
            && PackageNamed(u.packages, record.package.value.name.Normalized()) == Some(package)
  {
    var first := Recorded(t, record, now).value;
    package, id := RecordedIsHeld(t, record, now);
    EveryRunKeeps(first, ops);
    RecordStaysHeld(first, Run(first, ops), package, id, record, now);
    NameUnmoved(first, Run(first, ops), package);
  }

  // --- nothing else is shown ---

  /** The ith transaction recorded this version, under its package's name. */
  ghost predicate WroteVersion(ops: seq<Operation>, i: nat, t: Tables, id: VersionId)
    requires i < |ops|
  {
    && ops[i].Publishing? && Sound(ops[i].record) && Outcome(Run(EMPTY, ops[..i]), ops[i]).Ok?
    && ops[i].record.package.Some? && InRange(ops[i].record.package.value.version)
    && id in t.versions && t.versions[id].package in t.packages
    && t.packages[t.versions[id].package].normalized == ops[i].record.package.value.name.Normalized()
    && HoldsRecord(t, t.versions[id].package, id, ops[i].record, ops[i].now)
  }

  lemma WroteVersionLater(ops: seq<Operation>, i: nat, t: Tables, u: Tables, id: VersionId)
    requires i < |ops| - 1 && WroteVersion(ops[..|ops| - 1], i, t, id) && Extends(t, u)
    ensures WroteVersion(ops, i, u, id)
  {
    var before := ops[..|ops| - 1];
    assert before[..i] == ops[..i];
    RecordStaysHeld(t, u, t.versions[id].package, id, before[i].record, before[i].now);
  }

  lemma YankAddsNoVersion(t: Tables, name: Name, version: Version, yanked: bool, user: UserId, now: int)
    requires Yanked(t, name, version, yanked, user, now).Ok?
    ensures Yanked(t, name, version, yanked, user, now).value.versions.Keys == t.versions.Keys
  {
    var id := PackageNamed(t.packages, name.Normalized()).value;
    YankedIs(t, id, name, version, yanked, user, now);
    MarkingKeepsIds(t.versions, id, version, yanked);
  }

  lemma MarkingKeepsIds(versions: map<VersionId, VersionRow>, package: PackageId, version: Version, yanked: bool)
    ensures MarkedRows(versions, package, version, yanked).Keys == versions.Keys
  {
  }

  lemma NoNewVersions(t: Tables, op: Operation)
    requires !(op.Publishing? && Outcome(t, op).Ok?)
    ensures Next(t, op).versions.Keys == t.versions.Keys
  {
    if Outcome(t, op).Ok? {
      if op.Yanking? {
        YankAddsNoVersion(t, op.name, op.version, op.yanked, op.user, op.now);
      } else {
        OwnersAndScopesTouchNone(t, op);
      }
    }
  }

  lemma NewVersionIsWritten(ops: seq<Operation>, id: VersionId)
    requires ops != [] && Consistent(Run(EMPTY, ops[..|ops| - 1])) && Admissible(ops[|ops| - 1])
    requires id in Run(EMPTY, ops).versions && id !in Run(EMPTY, ops[..|ops| - 1]).versions
    ensures WroteVersion(ops, |ops| - 1, Run(EMPTY, ops), id)
  {
    var t, op := Run(EMPTY, ops[..|ops| - 1]), ops[|ops| - 1];
    if op.Publishing? && Outcome(t, op).Ok? {
      var package, added := RecordedMeans(t, op.record, op.now);
    } else {
      NoNewVersions(t, op);
    }
  }

  /** Every version row of a reachable state was written by a record of the run. */
  lemma {:induction false} EveryVersionWasWritten(ops: seq<Operation>, id: VersionId) returns (i: nat)
    requires (forall op | op in ops :: Admissible(op)) && id in Run(EMPTY, ops).versions
    ensures i < |ops| && WroteVersion(ops, i, Run(EMPTY, ops), id)
  {
    var before := ops[..|ops| - 1];
    EveryReachableStateIsConsistent(before);
    if id in Run(EMPTY, before).versions {
      i := EveryVersionWasWritten(before, id);
      StepKeeps(Run(EMPTY, before), ops[|ops| - 1]);
      WroteVersionLater(ops, i, Run(EMPTY, before), Run(EMPTY, ops), id);
    } else {
      i := |ops| - 1;
      NewVersionIsWritten(ops, id);
    }
  }

  /** Every version shown is a row's. */
  lemma ShownIsARow(t: Tables, package: PackageId, versions: seq<PublishedVersion>, v: PublishedVersion)
    returns (id: VersionId, ids: set<VersionId>, rows: seq<DependencyEntry>)
    requires Consistent(t) && ShowsVersions(t, package, None, versions) && v in versions
    ensures id in t.versions && t.versions[id].package == package && HoldsAVersion(t.versions[id])
    ensures id in ids && ListsDependencies(rows, t.dependencies, ids)
    ensures v == VersionRead(t.versions[id], DependenciesRead(id, rows))
  {
    var entries: seq<VersionEntry>;
    entries, rows :|
      && ListsVersions(entries, t.versions, package, None)
      && ListsDependencies(rows, t.dependencies, IdsIn(entries)) && Assembled(versions, entries, rows);
    var k :| 0 <= k < |versions| && versions[k] == v;
    assert entries[k] in entries;
    id, ids := entries[k].id, IdsIn(entries);
  }

  lemma WrittenReadsAsPublished(t: Tables, package: PackageId, id: VersionId, record: Record, now: int,
                                ids: set<VersionId>, rows: seq<DependencyEntry>)
    requires Consistent(t) && Sound(record) && record.package.Some? && InRange(record.package.value.version)
    requires HoldsRecord(t, package, id, record, now) && HoldsAVersion(t.versions[id])
    requires id in ids && ListsDependencies(rows, t.dependencies, ids)
    ensures AsPublished(VersionRead(t.versions[id], DependenciesRead(id, rows)), record, now)
  {
    DependenciesReadBack(t, ids, rows, id, record.dependencies);
    RowReadsAsPublished(t.versions[id], DependenciesRead(id, rows), package, record, now);
  }

  /** After any run, every version the package read shows was published under that name by a
      record of the run, and is shown as it was published. */
  lemma ShownWasPublished(ops: seq<Operation>, package: PackageId, pkg: Package, v: PublishedVersion) returns (i: nat)
    requires forall op | op in ops :: Admissible(op)
    requires package in Run(EMPTY, ops).packages && ShowsPackage(Run(EMPTY, ops), package, pkg) && v in pkg.versions
    ensures i < |ops| && ops[i].Publishing? && Outcome(Run(EMPTY, ops[..i]), ops[i]).Ok?
    ensures ops[i].record.package.Some? && AsPublished(v, ops[i].record, ops[i].now)
    ensures ops[i].record.package.value.name.Normalized() == Run(EMPTY, ops).packages[package].normalized
  {
    var t := Run(EMPTY, ops);
    EveryReachableStateIsConsistent(ops);
    var id, ids, rows := ShownIsARow(t, package, pkg.versions, v);
    i := EveryVersionWasWritten(ops, id);
    WrittenReadsAsPublished(t, package, id, ops[i].record, ops[i].now, ids, rows);
  }
}
