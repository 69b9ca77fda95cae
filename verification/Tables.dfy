/** The registry's tables as values, the keys its schema enforces, and the changes that
    transactions are made of. */
module Tables {
  import opened Wrappers
  import opened Text
  import opened Versions
  import opened Requirements
  import opened PackageNames
  import opened Index

  type UserId = nat
  type ScopeId = nat
  type PackageId = nat
  type VersionId = nat

  newtype int32 = x: int | -0x8000_0000 <= x < 0x8000_0000

  datatype ScopeRow = ScopeRow(name: string, normalized: string)

  datatype PackageRow = PackageRow(
    scope: Option<ScopeId>, name: string, normalized: string, squatKey: string,
    updatedAt: int, description: Option<string>)

  /** The columns a version keeps for its package's page. */
  datatype Details = Details(
    size: nat, edition: Option<string>, license: Option<string>, description: Option<string>,
    repository: Option<string>, authors: seq<string>)

  datatype VersionRow = VersionRow(
    package: PackageId, major: int32, minor: int32, patch: int32,
    prerelease: Option<string>, buildMetadata: Option<string>,
    checksum: Digest, realm: Realm, details: Details, yanked: bool, publishedBy: UserId, publishedAt: int)

  datatype DependencyRow = DependencyRow(name: string, normalized: string, requirement: string, dev: bool)

  /** Row ids come from one counter that never runs backwards. */
  datatype Tables = Tables(
    scopes: map<ScopeId, ScopeRow>,
    members: set<(ScopeId, UserId)>,
    packages: map<PackageId, PackageRow>,
    owners: set<(PackageId, UserId)>,
    versions: map<VersionId, VersionRow>,
    dependencies: map<(VersionId, string), DependencyRow>,
    nextId: nat)

  const EMPTY: Tables := Tables(map[], {}, map[], {}, map[], map[], 0)

  // --- rows and the values they hold ---

  /** The columns of versions_identity, as a row holds them. */
  predicate HasIdentity(row: VersionRow, package: PackageId, v: Version) {
    && row.package == package
    && row.major as int == v.major && row.minor as int == v.minor && row.patch as int == v.patch
    && TextOr(row.prerelease) == v.prerelease
  }

  /** The version a row's columns hold, when none is negative. */
  function VersionIn(row: VersionRow): Version
    requires row.major >= 0 && row.minor >= 0 && row.patch >= 0
  {
    Version(row.major as int, row.minor as int, row.patch as int, TextOr(row.prerelease), TextOr(row.buildMetadata))
  }

  predicate HoldsAVersion(row: VersionRow) {
    row.major >= 0 && row.minor >= 0 && row.patch >= 0 && VersionIn(row).WellFormed()
  }

  /** A dependency row that reads back, under the key it is stored by. */
  predicate HoldsADependency(row: DependencyRow) {
    && Parse(row.name).Some? && Parse(row.name).value.Normalized() == row.normalized
    && RequirementOf(row.requirement).Ok?
  }

  predicate InRange(v: Version) {
    v.major <= MAX_COMPONENT && v.minor <= MAX_COMPONENT && v.patch <= MAX_COMPONENT
  }

  /** The name a package's rows rebuild: its scope's casing, then its own. */
  function StoredName(scopes: map<ScopeId, ScopeRow>, row: PackageRow): Name {
    Name(if row.scope.Some? && row.scope.value in scopes then scopes[row.scope.value].name else "", row.name)
  }

  function OwnersOf(owners: set<(PackageId, UserId)>, id: PackageId): set<UserId> {
    set o | o in owners && o.0 == id :: o.1
  }

  // --- what the schema and the transactions keep ---

  ghost predicate ScopesKept(scopes: map<ScopeId, ScopeRow>) {
    && (forall s | s in scopes :: ValidSegment(scopes[s].name) && scopes[s].normalized == Fold(scopes[s].name))
    && (forall r, s | r in scopes && s in scopes && scopes[r].normalized == scopes[s].normalized :: r == s)
  }

  /** The stored columns rebuild a name, and that name has the stored keys. */
  ghost predicate Rebuilds(scopes: map<ScopeId, ScopeRow>, row: PackageRow) {
    && (row.scope.Some? ==> row.scope.value in scopes)
    && NameHasKeys(StoredName(scopes, row), row.normalized, row.squatKey)
  }

  ghost predicate NameHasKeys(name: Name, normalized: string, squatKey: string) {
    name.WellFormed() && name.Normalized() == normalized && name.SquatKey() == squatKey
  }

  ghost predicate PackagesKept(packages: map<PackageId, PackageRow>, scopes: map<ScopeId, ScopeRow>) {
    && (forall id | id in packages :: Rebuilds(scopes, packages[id]))
    && (forall p, q | p in packages && q in packages && packages[p].normalized == packages[q].normalized :: p == q)
    && (forall p, q | p in packages && q in packages && packages[p].squatKey == packages[q].squatKey :: p == q)
  }

  ghost predicate OwnersKept(packages: set<PackageId>, owners: set<(PackageId, UserId)>) {
    && (forall id | id in packages :: exists user :: (id, user) in owners)
    && (forall o | o in owners :: o.0 in packages)
  }

  predicate SameIdentityRows(r: VersionRow, s: VersionRow) {
    && r.package == s.package && r.major == s.major && r.minor == s.minor && r.patch == s.patch
    && TextOr(r.prerelease) == TextOr(s.prerelease)
  }

  ghost predicate VersionsKept(versions: map<VersionId, VersionRow>, packages: set<PackageId>) {
    && (forall v | v in versions :: versions[v].package in packages)
    && (forall v | v in versions :: HoldsAVersion(versions[v]))
    && (forall v, w | v in versions && w in versions && SameIdentityRows(versions[v], versions[w]) :: v == w)
  }

  ghost predicate DependenciesKept(dependencies: map<(VersionId, string), DependencyRow>, versions: set<VersionId>) {
    forall k | k in dependencies ::
      k.0 in versions && dependencies[k].normalized == k.1 && HoldsADependency(dependencies[k])
  }

  ghost predicate IdsIssued(scopes: set<ScopeId>, packages: set<PackageId>, versions: set<VersionId>, nextId: nat) {
    && (forall s | s in scopes :: s < nextId)
    && (forall p | p in packages :: p < nextId)
    && (forall v | v in versions :: v < nextId)
  }

  ghost predicate MembersKept(members: set<(ScopeId, UserId)>, scopes: set<ScopeId>) {
    forall m | m in members :: m.0 in scopes
  }

  ghost predicate Consistent(t: Tables) {
    && ScopesKept(t.scopes)
    && MembersKept(t.members, t.scopes.Keys)
    && PackagesKept(t.packages, t.scopes)
    && OwnersKept(t.packages.Keys, t.owners)
    && VersionsKept(t.versions, t.packages.Keys)
    && DependenciesKept(t.dependencies, t.versions.Keys)
    && IdsIssued(t.scopes.Keys, t.packages.Keys, t.versions.Keys, t.nextId)
  }

  // --- what only ever grows ---

  /** Nothing recorded in t is lost or changed in u: packages may be touched and described
      anew, versions marked yanked or not, and dependencies of a recorded version are exactly
      what they were. */
  ghost predicate Extends(t: Tables, u: Tables) {
    && (forall s | s in t.scopes :: s in u.scopes && u.scopes[s] == t.scopes[s])
    && PackagesGrow(t.packages, u.packages)
    && VersionsGrow(t.versions, u.versions)
    && DependenciesGrow(t.dependencies, u.dependencies, t.versions.Keys)
  }

  ghost predicate PackagesGrow(before: map<PackageId, PackageRow>, after: map<PackageId, PackageRow>) {
    forall p | p in before :: p in after && Retouched(before[p], after[p])
  }

  predicate Retouched(before: PackageRow, after: PackageRow) {
    after == before.(updatedAt := after.updatedAt, description := after.description)
  }

  ghost predicate VersionsGrow(before: map<VersionId, VersionRow>, after: map<VersionId, VersionRow>) {
    forall v | v in before :: v in after && after[v] == before[v].(yanked := after[v].yanked)
  }

  ghost predicate DependenciesGrow(before: map<(VersionId, string), DependencyRow>,
      after: map<(VersionId, string), DependencyRow>, recorded: set<VersionId>) {
    && (forall k | k in before :: k in after && after[k] == before[k])
    && (forall k | k in after && k.0 in recorded :: k in before)
  }

  lemma ExtendsTransitive(t: Tables, u: Tables, w: Tables)
    requires Extends(t, u) && Extends(u, w)
    ensures Extends(t, w)
  {
  }

  // --- the changes transactions are made of ---

  function Touched(t: Tables, id: PackageId, now: int, description: Option<string>): Tables
    requires id in t.packages
  {
    t.(packages := t.packages[id := t.packages[id].(updatedAt := now, description := description)])
  }

  function WithPackage(t: Tables, row: PackageRow, owner: UserId): Tables {
    t.(packages := t.packages[t.nextId := row], owners := t.owners + {(t.nextId, owner)}, nextId := t.nextId + 1)
  }

  function WithVersion(t: Tables, row: VersionRow): Tables {
    t.(versions := t.versions[t.nextId := row], nextId := t.nextId + 1)
  }

  function WithScope(t: Tables, row: ScopeRow, owner: UserId): Tables {
    t.(scopes := t.scopes[t.nextId := row], members := t.members + {(t.nextId, owner)}, nextId := t.nextId + 1)
  }

  function WithDependency(t: Tables, version: VersionId, row: DependencyRow): Tables {
    t.(dependencies := t.dependencies[(version, row.normalized) := row])
  }

  /** The mark goes on every row of that identity. */
  function MarkedRows(versions: map<VersionId, VersionRow>, package: PackageId, version: Version,
      yanked: bool): map<VersionId, VersionRow> {
    map v | v in versions ::
      if HasIdentity(versions[v], package, version) then versions[v].(yanked := yanked) else versions[v]
  }

  function Marked(t: Tables, package: PackageId, version: Version, yanked: bool): Tables {
    t.(versions := MarkedRows(t.versions, package, version, yanked))
  }

  lemma TouchedKeeps(t: Tables, id: PackageId, now: int, description: Option<string>)
    requires Consistent(t) && id in t.packages
    ensures var u := Touched(t, id, now, description);
            Consistent(u) && Extends(t, u) && u.packages.Keys == t.packages.Keys
  {
    TouchedRows(t.packages, id, t.packages[id].(updatedAt := now, description := description));
    RetouchedKeeps(t.packages, Touched(t, id, now, description).packages, t.scopes);
  }

  lemma TouchedRows(packages: map<PackageId, PackageRow>, id: PackageId, row: PackageRow)
    requires id in packages && Retouched(packages[id], row)
    ensures PackagesGrow(packages, packages[id := row])
    ensures packages[id := row].Keys == packages.Keys
  {
  }

  /** Only updated_at and descriptions differ. */
  lemma RetouchedKeeps(packages: map<PackageId, PackageRow>, after: map<PackageId, PackageRow>,
      scopes: map<ScopeId, ScopeRow>)
    requires PackagesKept(packages, scopes) && after.Keys == packages.Keys
    requires forall p | p in packages :: Retouched(packages[p], after[p])
    ensures PackagesKept(after, scopes)
  {
    forall p | p in after ensures Rebuilds(scopes, after[p]) {
      assert Rebuilds(scopes, packages[p]);
    }
  }

  lemma AddedPackageKept(packages: map<PackageId, PackageRow>, scopes: map<ScopeId, ScopeRow>, id: PackageId,
      row: PackageRow)
    requires PackagesKept(packages, scopes) && id !in packages && Rebuilds(scopes, row)
    requires NameIsFree(packages, row)
    ensures PackagesKept(packages[id := row], scopes)
  {
  }

  lemma AddedOwnerKept(packages: set<PackageId>, owners: set<(PackageId, UserId)>, id: PackageId, owner: UserId)
    requires OwnersKept(packages, owners)
    ensures OwnersKept(packages + {id}, owners + {(id, owner)})
  {
    assert (id, owner) in owners + {(id, owner)};
    forall p | p in packages ensures exists user :: (p, user) in owners + {(id, owner)} {
      var user :| (p, user) in owners;
      assert (p, user) in owners + {(id, owner)};
    }
  }

  lemma MorePackagesKept(versions: map<VersionId, VersionRow>, packages: set<PackageId>, more: set<PackageId>)
    requires VersionsKept(versions, packages)
    ensures VersionsKept(versions, packages + more)
  {
  }

  lemma IdsStayIssued(t: Tables)
    requires Consistent(t)
    ensures IdsIssued(t.scopes.Keys + {t.nextId}, t.packages.Keys, t.versions.Keys, t.nextId + 1)
    ensures IdsIssued(t.scopes.Keys, t.packages.Keys + {t.nextId}, t.versions.Keys, t.nextId + 1)
    ensures IdsIssued(t.scopes.Keys, t.packages.Keys, t.versions.Keys + {t.nextId}, t.nextId + 1)
    ensures t.nextId !in t.scopes && t.nextId !in t.packages && t.nextId !in t.versions
  {
    NextIsFresh(t.scopes.Keys, t.packages.Keys, t.versions.Keys, t.nextId);
  }

  lemma NextIsFresh(scopes: set<ScopeId>, packages: set<PackageId>, versions: set<VersionId>, next: nat)
    requires IdsIssued(scopes, packages, versions, next)
    ensures IdsIssued(scopes + {next}, packages, versions, next + 1)
    ensures IdsIssued(scopes, packages + {next}, versions, next + 1)
    ensures IdsIssued(scopes, packages, versions + {next}, next + 1)
    ensures next !in scopes && next !in packages && next !in versions
  {
  }

  ghost predicate NameIsFree(packages: map<PackageId, PackageRow>, row: PackageRow) {
    forall p | p in packages :: packages[p].normalized != row.normalized && packages[p].squatKey != row.squatKey
  }

  lemma WithPackageRows(t: Tables, row: PackageRow, owner: UserId)
    requires PackagesKept(t.packages, t.scopes) && OwnersKept(t.packages.Keys, t.owners) && t.nextId !in t.packages
    requires Rebuilds(t.scopes, row) && NameIsFree(t.packages, row)
    ensures PackagesKept(t.packages[t.nextId := row], t.scopes)
    ensures OwnersKept(t.packages.Keys + {t.nextId}, t.owners + {(t.nextId, owner)})
    ensures t.packages[t.nextId := row].Keys == t.packages.Keys + {t.nextId}
  {
    AddedPackageKept(t.packages, t.scopes, t.nextId, row);
    AddedOwnerKept(t.packages.Keys, t.owners, t.nextId, owner);
  }

  lemma WithPackageKeeps(t: Tables, row: PackageRow, owner: UserId)
    requires Consistent(t) && Rebuilds(t.scopes, row) && NameIsFree(t.packages, row)
    ensures Consistent(WithPackage(t, row, owner))
  {
    IdsStayIssued(t);
    WithPackageRows(t, row, owner);
    MorePackagesKept(t.versions, t.packages.Keys, {t.nextId});
  }

  lemma WithPackageExtends(t: Tables, row: PackageRow, owner: UserId)
    requires t.nextId !in t.packages
    ensures Extends(t, WithPackage(t, row, owner))
  {
  }

  lemma WithPackageOwners(t: Tables, row: PackageRow, owner: UserId, id: PackageId)
    requires forall o | o in t.owners :: o.0 != t.nextId
    ensures OwnersOf(WithPackage(t, row, owner).owners, id) ==
            if id == t.nextId then {owner} else OwnersOf(t.owners, id)
  {
    assert (t.nextId, owner) in t.owners + {(t.nextId, owner)};
  }

  lemma AddedVersionKept(versions: map<VersionId, VersionRow>, packages: set<PackageId>, id: VersionId, row: VersionRow)
    requires VersionsKept(versions, packages) && id !in versions
    requires row.package in packages && HoldsAVersion(row)
    requires forall v | v in versions :: !SameIdentityRows(versions[v], row)
    ensures VersionsKept(versions[id := row], packages)
  {
    assert forall v | v in versions :: !SameIdentityRows(row, versions[v]);
  }

  lemma MoreVersionsKept(dependencies: map<(VersionId, string), DependencyRow>, versions: set<VersionId>,
      more: set<VersionId>)
    requires DependenciesKept(dependencies, versions)
    ensures DependenciesKept(dependencies, versions + more)
  {
  }

  ghost predicate VersionIsFree(versions: map<VersionId, VersionRow>, row: VersionRow) {
    forall v | v in versions :: !SameIdentityRows(versions[v], row)
  }

  lemma WithVersionRows(t: Tables, row: VersionRow)
    requires VersionsKept(t.versions, t.packages.Keys) && t.nextId !in t.versions
    requires row.package in t.packages && HoldsAVersion(row) && VersionIsFree(t.versions, row)
    ensures VersionsKept(t.versions[t.nextId := row], t.packages.Keys)
    ensures t.versions[t.nextId := row].Keys == t.versions.Keys + {t.nextId}
  {
    AddedVersionKept(t.versions, t.packages.Keys, t.nextId, row);
  }

  lemma WithVersionParts(t: Tables, row: VersionRow)
    requires Consistent(t) && row.package in t.packages && HoldsAVersion(row)
    requires VersionIsFree(t.versions, row)
    ensures VersionsKept(t.versions[t.nextId := row], t.packages.Keys)
    ensures DependenciesKept(t.dependencies, t.versions[t.nextId := row].Keys)
    ensures IdsIssued(t.scopes.Keys, t.packages.Keys, t.versions[t.nextId := row].Keys, t.nextId + 1)
  {
    IdsStayIssued(t);
    WithVersionRows(t, row);
    MoreVersionsKept(t.dependencies, t.versions.Keys, {t.nextId});
  }

  lemma WithVersionKeeps(t: Tables, row: VersionRow)
    requires Consistent(t) && row.package in t.packages && HoldsAVersion(row)
    requires VersionIsFree(t.versions, row)
    ensures Consistent(WithVersion(t, row))
  {
    WithVersionParts(t, row);
  }

  lemma WithVersionExtends(t: Tables, row: VersionRow)
    requires t.nextId !in t.versions
    ensures Extends(t, WithVersion(t, row))
  {
  }

  lemma AddedScopeKept(packages: map<PackageId, PackageRow>, scopes: map<ScopeId, ScopeRow>, id: ScopeId, row: ScopeRow)
    requires PackagesKept(packages, scopes) && id !in scopes
    ensures PackagesKept(packages, scopes[id := row])
  {
    forall p | p in packages ensures Rebuilds(scopes[id := row], packages[p]) {
      assert Rebuilds(scopes, packages[p]);
      assert StoredName(scopes[id := row], packages[p]) == StoredName(scopes, packages[p]);
    }
  }

  lemma WithScopeKeeps(t: Tables, row: ScopeRow, owner: UserId)
    requires Consistent(t) && ValidSegment(row.name) && row.normalized == Fold(row.name)
    requires forall s | s in t.scopes :: t.scopes[s].normalized != row.normalized
    ensures Consistent(WithScope(t, row, owner))
  {
    IdsStayIssued(t);
    WithScopeRows(t, row, owner);
    AddedScopeKept(t.packages, t.scopes, t.nextId, row);
  }

  lemma WithScopeRows(t: Tables, row: ScopeRow, owner: UserId)
    requires ScopesKept(t.scopes) && MembersKept(t.members, t.scopes.Keys) && t.nextId !in t.scopes
    requires ValidSegment(row.name) && row.normalized == Fold(row.name)
    requires forall s | s in t.scopes :: t.scopes[s].normalized != row.normalized
    ensures ScopesKept(t.scopes[t.nextId := row])
    ensures MembersKept(t.members + {(t.nextId, owner)}, t.scopes.Keys + {t.nextId})
    ensures t.scopes[t.nextId := row].Keys == t.scopes.Keys + {t.nextId}
  {
  }

  lemma WithScopeExtends(t: Tables, row: ScopeRow, owner: UserId)
    requires t.nextId !in t.scopes
    ensures Extends(t, WithScope(t, row, owner))
  {
  }

  lemma WithDependencyKeeps(t: Tables, version: VersionId, row: DependencyRow)
    requires Consistent(t) && version in t.versions && HoldsADependency(row)
    ensures Consistent(WithDependency(t, version, row))
  {
  }

  lemma MarkedRowsKept(versions: map<VersionId, VersionRow>, packages: set<PackageId>, package: PackageId,
      version: Version, yanked: bool)
    requires VersionsKept(versions, packages)
    ensures VersionsKept(MarkedRows(versions, package, version, yanked), packages)
    ensures VersionsGrow(versions, MarkedRows(versions, package, version, yanked))
    ensures MarkedRows(versions, package, version, yanked).Keys == versions.Keys
  {
    RemarkedKeeps(versions, MarkedRows(versions, package, version, yanked), packages);
  }

  lemma MarkedKeeps(t: Tables, package: PackageId, version: Version, yanked: bool)
    requires Consistent(t)
    ensures Consistent(Marked(t, package, version, yanked)) && Extends(t, Marked(t, package, version, yanked))
    ensures Marked(t, package, version, yanked).versions.Keys == t.versions.Keys
  {
    MarkedRowsKept(t.versions, t.packages.Keys, package, version, yanked);
  }

  /** Only yanked marks differ. */
  lemma RemarkedKeeps(versions: map<VersionId, VersionRow>, after: map<VersionId, VersionRow>, packages: set<PackageId>)
    requires VersionsKept(versions, packages) && after.Keys == versions.Keys
    requires forall v | v in versions :: after[v] == versions[v].(yanked := after[v].yanked)
    ensures VersionsKept(after, packages)
  {
    forall v, w | v in after && w in after && SameIdentityRows(after[v], after[w]) ensures v == w {
      assert SameIdentityRows(versions[v], versions[w]);
    }
  }

  lemma OwnersChangedKeeps(t: Tables, owners: set<(PackageId, UserId)>)
    requires Consistent(t) && OwnersKept(t.packages.Keys, owners)
    ensures Consistent(t.(owners := owners)) && Extends(t, t.(owners := owners))
  {
  }
}
