/** internal/db: the transactions that write the registry's tables, each one serial step that
    commits whole or leaves the tables as they were. */
module Registry {
  import opened Wrappers
  import opened Text
  import opened Versions
  import opened RequirementText
  import opened PackageNames
  import opened Index
  import opened Tables

  datatype Failure =
    | NoPackage | NotFound | NotOwned | NotScopeMember | Squatted | AlreadyPublished
    | LastOwner | NoSuchUser | InvalidScope | ScopeExists | Rejected

  /** What a manifest says about its package beyond its identity; empty text says nothing. */
  datatype About = About(
    edition: string, license: string, description: string, repository: string, authors: seq<string>)

  datatype Published = Published(name: Name, version: Version, realm: Realm, about: About)

  datatype Record = Record(
    package: Option<Published>, dependencies: seq<Dependency>, checksum: Digest, size: nat, publisher: UserId)

  /** What a payload that was read holds: content, parsed names, parsed versions and parsed
      requirements. */
  ghost predicate Sound(record: Record) {
    && record.size > 0
    && (record.package.Some? ==> record.package.value.name.WellFormed() && record.package.value.version.WellFormed())
    && forall d | d in record.dependencies :: d.name.WellFormed() && Faithful(d.requirement)
  }

  // --- queries ---

  ghost function PackageNamed(packages: map<PackageId, PackageRow>, key: string): (id: Option<PackageId>)
    ensures id.Some? ==> id.value in packages && packages[id.value].normalized == key
    ensures id.None? ==> forall p | p in packages :: packages[p].normalized != key
  {
    if p :| p in packages && packages[p].normalized == key then Some(p) else None
  }

  ghost function ScopeNamed(scopes: map<ScopeId, ScopeRow>, key: string): (id: Option<ScopeId>)
    ensures id.Some? ==> id.value in scopes && scopes[id.value].normalized == key
    ensures id.None? ==> forall s | s in scopes :: scopes[s].normalized != key
  {
    if s :| s in scopes && scopes[s].normalized == key then Some(s) else None
  }

  lemma PackageFound(t: Tables, id: PackageId)
    requires Consistent(t) && id in t.packages
    ensures PackageNamed(t.packages, t.packages[id].normalized) == Some(id)
  {
  }

  lemma ScopeFound(t: Tables, id: ScopeId)
    requires Consistent(t) && id in t.scopes
    ensures ScopeNamed(t.scopes, t.scopes[id].normalized) == Some(id)
  {
  }

  predicate IsMember(t: Tables, key: string, user: UserId) {
    exists s | s in t.scopes :: t.scopes[s].normalized == key && (s, user) in t.members
  }

  predicate NameIsTaken(packages: map<PackageId, PackageRow>, row: PackageRow) {
    exists p | p in packages :: packages[p].normalized == row.normalized || packages[p].squatKey == row.squatKey
  }

  predicate VersionIsTaken(versions: map<VersionId, VersionRow>, package: PackageId, version: Version) {
    exists v | v in versions :: HasIdentity(versions[v], package, version)
  }

  function NilIfEmpty(text: string): Option<string> { if text == "" then None else Some(text) }

  // --- rows a record writes ---

  function PackageRowFor(scope: Option<ScopeId>, name: Name, now: int): PackageRow {
    PackageRow(scope, name.name, name.Normalized(), name.SquatKey(), now, None)
  }

  function DetailsFor(about: About, size: nat): Details {
    Details(size, NilIfEmpty(about.edition), NilIfEmpty(about.license), NilIfEmpty(about.description),
            NilIfEmpty(about.repository), about.authors)
  }

  function VersionRowFor(package: PackageId, published: Published, record: Record, now: int): VersionRow
    requires InRange(published.version)
  {
    var v := published.version;
    VersionRow(package, v.major as int32, v.minor as int32, v.patch as int32,
               NilIfEmpty(v.prerelease), NilIfEmpty(v.buildMetadata),
               record.checksum, published.realm, DetailsFor(published.about, record.size), false, record.publisher, now)
  }

  function DependencyRowFor(d: Dependency): DependencyRow {
    DependencyRow(d.name.String(), d.name.Normalized(), d.requirement.String(), d.dev)
  }

  // --- what each transaction does to the tables ---

  datatype Claim = Claim(id: nat, tables: Tables)

  ghost function Created(t: Tables, name: Name, publisher: UserId, now: int): (r: Result<Claim, Failure>)
    ensures r.Ok? ==> r.value.id in r.value.tables.packages
  {
    var scope := if name.IsScoped() then ScopeNamed(t.scopes, name.NormalizedScope()) else None;
    var row := PackageRowFor(scope, name, now);
    if name.IsScoped() && scope.None? then Err(Rejected)
    else if NameIsTaken(t.packages, row) then Err(Squatted)
    else Ok(Claim(t.nextId, WithPackage(t, row, publisher)))
  }

  ghost function Claimed(t: Tables, name: Name, publisher: UserId, now: int): (r: Result<Claim, Failure>)
    ensures r.Ok? ==> r.value.id in r.value.tables.packages
  {
    var found := PackageNamed(t.packages, name.Normalized());
    if found.Some? then
      if (found.value, publisher) in t.owners then Ok(Claim(found.value, t)) else Err(NotOwned)
    else if name.IsScoped() && !IsMember(t, name.NormalizedScope(), publisher) then Err(NotScopeMember)
    else Created(t, name, publisher, now)
  }

  function Inserted(t: Tables, package: PackageId, published: Published, record: Record, now: int)
    : (r: Result<Claim, Failure>)
    ensures r.Ok? ==> r.value.tables.packages == t.packages
  {
    if !InRange(published.version) || record.size == 0 then Err(Rejected)
    else if VersionIsTaken(t.versions, package, published.version) then Err(AlreadyPublished)
    else Ok(Claim(t.nextId, WithVersion(t, VersionRowFor(package, published, record, now))))
  }

  function Depending(t: Tables, version: VersionId, dependencies: seq<Dependency>): (r: Result<Tables, Failure>)
    ensures r.Ok? ==> r.value == t.(dependencies := r.value.dependencies)
    decreases |dependencies|
  {
    if dependencies == [] then Ok(t)
    else
      var row := DependencyRowFor(dependencies[0]);
      if (version, row.normalized) in t.dependencies then Err(Rejected)
      else Depending(WithDependency(t, version, row), version, dependencies[1..])
  }

  ghost function Recorded(t: Tables, record: Record, now: int): Result<Tables, Failure> {
    match record.package
    case None => Err(NoPackage)
    case Some(published) =>
      match Claimed(t, published.name, record.publisher, now)
      case Err(e) => Err(e)
      case Ok(package) =>
        match Inserted(package.tables, package.id, published, record, now)
        case Err(e) => Err(e)
        case Ok(version) =>
          match Depending(version.tables, version.id, record.dependencies)
          case Err(e) => Err(e)
          case Ok(u) => Ok(Touched(u, package.id, now, NilIfEmpty(published.about.description)))
  }

  ghost function Yanked(t: Tables, name: Name, version: Version, yanked: bool, user: UserId, now: int)
    : Result<Tables, Failure>
  {
    var found := PackageNamed(t.packages, name.Normalized());
    if found.None? then Err(NotFound)
    else if (found.value, user) !in t.owners then Err(NotOwned)
    else if !InRange(version) then Err(Rejected)
    else if !VersionIsTaken(t.versions, found.value, version) then Err(NotFound)
    else Ok(Touched(Marked(t, found.value, version, yanked), found.value, now, t.packages[found.value].description))
  }

  /** The package a change of owners names, when the actor may change them and the login it
      gives was found. */
  ghost function Owned(t: Tables, name: Name, target: Option<UserId>, actor: UserId): (r: Result<PackageId, Failure>)
    ensures r.Ok? ==> target.Some? && (r.value, actor) in t.owners
  {
    var found := PackageNamed(t.packages, name.Normalized());
    if found.None? then Err(NotFound)
    else if (found.value, actor) !in t.owners then Err(NotOwned)
    else if target.None? then Err(NoSuchUser)
    else Ok(found.value)
  }

  ghost function OwnerAdded(t: Tables, name: Name, target: Option<UserId>, actor: UserId): Result<Tables, Failure> {
    match Owned(t, name, target, actor)
    case Err(e) => Err(e)
    case Ok(id) => Ok(t.(owners := t.owners + {(id, target.value)}))
  }

  ghost function OwnerRemoved(t: Tables, name: Name, target: Option<UserId>, actor: UserId): Result<Tables, Failure> {
    match Owned(t, name, target, actor)
    case Err(e) => Err(e)
    case Ok(id) =>
      if (id, target.value) !in t.owners then Ok(t)
      else if |OwnersOf(t.owners, id)| == 1 then Err(LastOwner)
      else Ok(t.(owners := t.owners - {(id, target.value)}))
  }

  ghost function ScopeCreated(t: Tables, scope: string, user: Option<UserId>): Result<Tables, Failure> {
    var name := TrimSpace(scope);
    if !ValidSegment(name) then Err(InvalidScope)
    else if user.None? then Err(NoSuchUser)
    else if ScopeNamed(t.scopes, Fold(name)).Some? then Err(ScopeExists)
    else Ok(WithScope(t, ScopeRow(name, Fold(name)), user.value))
  }

  // --- the transactions, statement by statement ---

  /** A transaction that fails is rolled back. */
  ghost predicate Settles(before: Tables, outcome: Result<Tables, Failure>, after: Tables, failure: Option<Failure>) {
    match outcome
    case Err(e) => failure == Some(e) && after == before
    case Ok(u) => failure == None && after == u
  }

  /** A statement that fails leaves the rolling back to its transaction. */
  ghost predicate Claims(outcome: Result<Claim, Failure>, after: Tables, id: nat, failure: Option<Failure>) {
    match outcome
    case Err(e) => failure == Some(e)
    case Ok(claim) => failure == None && after == claim.tables && id == claim.id
  }

  class Store {
    var tables: Tables

    ghost predicate Valid()
      reads this
    {
      Consistent(tables)
    }

    constructor ()
      ensures Valid() && tables == EMPTY
    {
      tables := EMPTY;
    }

    method Record(record: Record, now: int) returns (failure: Option<Failure>)
      requires Valid() && Sound(record)
      modifies this
      ensures Settles(old(tables), Recorded(old(tables), record, now), tables, failure)
    {
      if record.package.None? {
        return Some(NoPackage);
      }
      var published := record.package.value;
      var begun := tables;
      var packageId, refused := OwnedPackage(published.name, record.publisher, now);
      if refused.Some? {
        tables := begun;
        return refused;
      }
      var versionId;
      versionId, refused := InsertVersion(packageId, published, record, now);
      if refused.Some? {
        tables := begun;
        return refused;
      }
      refused := InsertDependencies(versionId, record.dependencies);
      if refused.Some? {
        tables := begun;
        return refused;
      }
      var description := NilIfEmpty(published.about.description);
      var row := tables.packages[packageId].(updatedAt := now, description := description);
      tables := tables.(packages := tables.packages[packageId := row]);
      failure := None;
    }

    method InsertDependencies(versionId: VersionId, dependencies: seq<Dependency>) returns (failure: Option<Failure>)
      modifies this
      ensures match Depending(old(tables), versionId, dependencies)
              case Err(e) => failure == Some(e)
              case Ok(u) => failure == None && tables == u
    {
      for k := 0 to |dependencies|
        invariant Depending(old(tables), versionId, dependencies) == Depending(tables, versionId, dependencies[k..])
      {
        var row := DependencyRowFor(dependencies[k]);
        if (versionId, row.normalized) in tables.dependencies {
          return Some(Rejected);
        }
        tables := tables.(dependencies := tables.dependencies[(versionId, row.normalized) := row]);
      }
      failure := None;
    }

    method FindPackage(key: string) returns (found: Option<PackageId>)
      requires Valid()
      ensures found == PackageNamed(tables.packages, key)
    {
      if id: PackageId :| id in tables.packages && tables.packages[id].normalized == key {
        PackageFound(tables, id);
        return Some(id);
      }
      return None;
    }

    method OwnedPackage(name: Name, publisher: UserId, now: int)
        returns (packageId: PackageId, failure: Option<Failure>)
      requires Valid()
      modifies this
      ensures Claims(Claimed(old(tables), name, publisher, now), tables, packageId, failure)
    {
      packageId := 0;
      var found := FindPackage(name.Normalized());
      if found.Some? {
        if (found.value, publisher) in tables.owners {
          return found.value, None;
        }
        return 0, Some(NotOwned);
      }
      if name.IsScoped() && !IsMember(tables, name.NormalizedScope(), publisher) {
        return 0, Some(NotScopeMember);
      }
      packageId, failure := CreatePackage(name, publisher, now);
    }

    method CreatePackage(name: Name, publisher: UserId, now: int)
        returns (packageId: PackageId, failure: Option<Failure>)
      requires Valid()
      modifies this
      ensures Claims(Created(old(tables), name, publisher, now), tables, packageId, failure)
    {
      packageId := 0;
      var scopeId: Option<ScopeId> := None;
      if name.IsScoped() {
        if id: ScopeId :| id in tables.scopes && tables.scopes[id].normalized == name.NormalizedScope() {
          ScopeFound(tables, id);
          scopeId := Some(id);
        } else {
          return 0, Some(Rejected);
        }
      }
      var row := PackageRow(scopeId, name.name, name.Normalized(), name.SquatKey(), now, None);
      if NameIsTaken(tables.packages, row) {
        return 0, Some(Squatted);
      }
      packageId := tables.nextId;
      tables := tables.(packages := tables.packages[packageId := row], nextId := packageId + 1);
      tables := tables.(owners := tables.owners + {(packageId, publisher)});
      failure := None;
    }

    method InsertVersion(packageId: PackageId, published: Published, record: Record, now: int)
        returns (versionId: VersionId, failure: Option<Failure>)
      modifies this
      ensures Claims(Inserted(old(tables), packageId, published, record, now), tables, versionId, failure)
    {
      versionId := tables.nextId;
      if !InRange(published.version) || record.size == 0 {
        return versionId, Some(Rejected);
      }
      if VersionIsTaken(tables.versions, packageId, published.version) {
        return versionId, Some(AlreadyPublished);
      }
      var row := VersionRowFor(packageId, published, record, now);
      tables := tables.(versions := tables.versions[versionId := row], nextId := versionId + 1);
      failure := None;
    }

    method Yank(name: Name, version: Version, yanked: bool, user: UserId, now: int) returns (failure: Option<Failure>)
      requires Valid()
      modifies this
      ensures Settles(old(tables), Yanked(old(tables), name, version, yanked, user, now), tables, failure)
    {
      var found := FindPackage(name.Normalized());
      if found.None? {
        return Some(NotFound);
      }
      var id := found.value;
      if (id, user) !in tables.owners {
        return Some(NotOwned);
      }
      if !InRange(version) {
        return Some(Rejected);
      }
      if !VersionIsTaken(tables.versions, id, version) {
        return Some(NotFound);
      }
      tables := tables.(versions := MarkedRows(tables.versions, id, version, yanked));
      tables := tables.(packages := tables.packages[id := tables.packages[id].(updatedAt := now)]);
      failure := None;
    }

    method FindOwned(name: Name, target: Option<UserId>, actor: UserId) returns (r: Result<PackageId, Failure>)
      requires Valid()
      ensures r == Owned(tables, name, target, actor)
    {
      var found := FindPackage(name.Normalized());
      if found.None? {
        return Err(NotFound);
      }
      if (found.value, actor) !in tables.owners {
        return Err(NotOwned);
      }
      if target.None? {
        return Err(NoSuchUser);
      }
      return Ok(found.value);
    }

    method AddOwner(name: Name, target: Option<UserId>, actor: UserId) returns (failure: Option<Failure>)
      requires Valid()
      modifies this
      ensures Settles(old(tables), OwnerAdded(old(tables), name, target, actor), tables, failure)
    {
      var owned := FindOwned(name, target, actor);
      if owned.Err? {
        return Some(owned.error);
      }
      tables := tables.(owners := tables.owners + {(owned.value, target.value)});
      failure := None;
    }

    method RemoveOwner(name: Name, target: Option<UserId>, actor: UserId) returns (failure: Option<Failure>)
      requires Valid()
      modifies this
      ensures Settles(old(tables), OwnerRemoved(old(tables), name, target, actor), tables, failure)
    {
      var owned := FindOwned(name, target, actor);
      if owned.Err? {
        return Some(owned.error);
      }
      var id := owned.value;
      var owners := OwnersOf(tables.owners, id);
      if target.value !in owners {
        return None;
      }
      if |owners| == 1 {
        return Some(LastOwner);
      }
      tables := tables.(owners := tables.owners - {(id, target.value)});
      failure := None;
    }

    method CreateScope(scope: string, user: Option<UserId>) returns (failure: Option<Failure>)
      requires Valid()
      modifies this
      ensures Settles(old(tables), ScopeCreated(old(tables), scope, user), tables, failure)
    {
      var name := TrimSpace(scope);
      if !ValidSegment(name) {
        return Some(InvalidScope);
      }
      if user.None? {
        return Some(NoSuchUser);
      }
      if exists s | s in tables.scopes :: tables.scopes[s].normalized == Fold(name) {
        return Some(ScopeExists);
      }
      var scopeId := tables.nextId;
      tables := tables.(scopes := tables.scopes[scopeId := ScopeRow(name, Fold(name))], nextId := scopeId + 1);
      tables := tables.(members := tables.members + {(scopeId, user.value)});
      failure := None;
    }
  }
}
