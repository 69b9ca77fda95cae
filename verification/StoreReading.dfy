/** internal/db/store.go: a package is read with three queries, and commits may fall between
    them; each query answers its rows in no particular order. */
module StoreReading {
  import opened Wrappers
  import opened Versions
  import opened Requirements
  import opened PackageNames
  import opened Index
  import opened Tables

  datatype VersionEntry = VersionEntry(id: VersionId, row: VersionRow)

  datatype DependencyEntry = DependencyEntry(version: VersionId, row: DependencyRow)

  // --- what a query answers ---

  /** The rows versionsOf asks for: the package's, narrowed to one identity when only is set. */
  predicate Selected(row: VersionRow, package: PackageId, only: Option<Version>) {
    row.package == package && (only.Some? ==> HasIdentity(row, package, only.value))
  }

  ghost predicate ListsVersions(entries: seq<VersionEntry>, versions: map<VersionId, VersionRow>,
      package: PackageId, only: Option<Version>) {
    && (forall e | e in entries :: e.id in versions && versions[e.id] == e.row && Selected(e.row, package, only))
    && (forall v | v in versions && Selected(versions[v], package, only) :: VersionEntry(v, versions[v]) in entries)
    && (forall i, j | 0 <= i < j < |entries| :: entries[i].id != entries[j].id)
  }

  function IdsIn(entries: seq<VersionEntry>): set<VersionId> { set e | e in entries :: e.id }

  ghost predicate ListsDependencies(entries: seq<DependencyEntry>,
      dependencies: map<(VersionId, string), DependencyRow>, ids: set<VersionId>) {
    && (forall e | e in entries ::
          && e.version in ids && (e.version, e.row.normalized) in dependencies
          && dependencies[(e.version, e.row.normalized)] == e.row)
    && (forall k | k in dependencies && k.0 in ids :: DependencyEntry(k.0, dependencies[k]) in entries)
    && (forall i, j | 0 <= i < j < |entries| :: entries[i] != entries[j])
  }

  // --- what the rows are read as ---

  function ReadDependencyRow(row: DependencyRow): Option<Dependency> {
    match Parse(row.name)
    case None => None
    case Some(name) =>
      match RequirementOf(row.requirement)
      case Err(_) => None
      case Ok(requirement) => Some(Dependency(name, requirement, row.dev))
  }

  /** The dependencies of one version, in the order their rows came. */
  function DependenciesRead(id: VersionId, entries: seq<DependencyEntry>): seq<Dependency> {
    if entries == [] then []
    else
      var last := entries[|entries| - 1];
      var before := DependenciesRead(id, entries[..|entries| - 1]);
      if last.version == id && ReadDependencyRow(last.row).Some? then before + [ReadDependencyRow(last.row).value]
      else before
  }

  function VersionRead(row: VersionRow, dependencies: seq<Dependency>): PublishedVersion
    requires HoldsAVersion(row)
  {
    PublishedVersion(VersionIn(row), row.checksum, row.yanked, row.realm, row.publishedAt, dependencies)
  }

  // --- reading, row by row ---

  /** versions[k] is the k-th row, with the dependencies read so far. */
  ghost predicate Assembled(versions: seq<PublishedVersion>, entries: seq<VersionEntry>,
      attached: seq<DependencyEntry>) {
    && |versions| == |entries|
    && forall k | 0 <= k < |entries| ::
         HoldsAVersion(entries[k].row)
         && versions[k] == VersionRead(entries[k].row, DependenciesRead(entries[k].id, attached))
  }

  ghost predicate Located(byID: map<VersionId, nat>, entries: seq<VersionEntry>) {
    && (forall k | 0 <= k < |entries| :: entries[k].id in byID && byID[entries[k].id] == k)
    && (forall id | id in byID :: byID[id] < |entries| && entries[byID[id]].id == id)
  }

  method GatherVersions(entries: seq<VersionEntry>) returns (versions: seq<PublishedVersion>, byID: map<VersionId, nat>)
    requires forall e | e in entries :: HoldsAVersion(e.row)
    requires forall i, j | 0 <= i < j < |entries| :: entries[i].id != entries[j].id
    ensures Assembled(versions, entries, []) && Located(byID, entries)
  {
    versions, byID := [], map[];
    for k := 0 to |entries|
      invariant Assembled(versions, entries[..k], []) && Located(byID, entries[..k])
    {
      var e := entries[k];
      assert e in entries;
      var version := Version(e.row.major as int, e.row.minor as int, e.row.patch as int,
                             TextOr(e.row.prerelease), TextOr(e.row.buildMetadata));
      byID := byID[e.id := |versions|];
      var published :=
        PublishedVersion(version, e.row.checksum, e.row.yanked, e.row.realm, e.row.publishedAt, []);
      versions := versions + [published];
    }
    assert entries[..|entries|] == entries;
  }

  /** Answers None at the first row that is stored but does not read. */
  method AttachDependencies(byID: map<VersionId, nat>, bare: seq<PublishedVersion>,
      ghost entries: seq<VersionEntry>, rows: seq<DependencyEntry>)
    returns (versions: Option<seq<PublishedVersion>>)
    requires Assembled(bare, entries, []) && Located(byID, entries)
    requires forall e | e in rows :: e.version in byID
    ensures versions.Some? <==> forall e | e in rows :: ReadDependencyRow(e.row).Some?
    ensures versions.Some? ==> Assembled(versions.value, entries, rows)
  {
    var filled := bare;
    for k := 0 to |rows|
      invariant forall e | e in rows[..k] :: ReadDependencyRow(e.row).Some?
      invariant Assembled(filled, entries, rows[..k])
    {
      var e := rows[k];
      assert e in rows;
      var name := Parse(e.row.name);
      if name.None? {
        return None;
      }
      var requirement := RequirementOf(e.row.requirement);
      if requirement.Err? {
        return None;
      }
      var at := byID[e.version];
      var dependency := Dependency(name.value, requirement.value, e.row.dev);
      AttachOne(filled, entries, rows, k, at, dependency);
      filled := filled[at := filled[at].(dependencies := filled[at].dependencies + [dependency])];
    }
    assert rows[..|rows|] == rows;
    versions := Some(filled);
  }

  lemma AttachOne(filled: seq<PublishedVersion>, entries: seq<VersionEntry>, rows: seq<DependencyEntry>,
      k: nat, at: nat, dependency: Dependency)
    requires k < |rows| && Assembled(filled, entries, rows[..k]) && at < |entries| && entries[at].id == rows[k].version
    requires forall i | 0 <= i < |entries| && entries[i].id == rows[k].version :: i == at
    requires ReadDependencyRow(rows[k].row) == Some(dependency)
    ensures Assembled(filled[at := filled[at].(dependencies := filled[at].dependencies + [dependency])],
                      entries, rows[..k + 1])
  {
    assert rows[..k + 1][..k] == rows[..k];
  }
}
