/** When each of the registry's transactions commits, and what a refused one answers. */
module Outcomes {
  import opened Wrappers
  import opened Text
  import opened Versions
  import opened PackageNames
  import opened Index
  import opened Tables
  import opened Registry
  import opened RegistryRuns
  import opened RegistryLaws

  // --- records ---

  /** Why a record fails, in the order its transaction finds out. */
  ghost function RecordRefusal(t: Tables, record: Record): Failure
    requires record.package.Some?
  {
    var name := record.package.value.name;
    var found := PackageNamed(t.packages, name.Normalized());
    if found.Some? && record.publisher !in OwnersOf(t.owners, found.value) then NotOwned
    else if found.Some? && HoldsVersion(t, name, record.package.value.version) then AlreadyPublished
    else if found.None? && name.IsScoped() && !IsMember(t, name.NormalizedScope(), record.publisher) then NotScopeMember
    else if found.None? && exists p | p in t.packages :: t.packages[p].squatKey == name.SquatKey() then Squatted
    else Rejected
  }

  lemma ClaimRefusal(t: Tables, record: Record, now: int)
    requires Consistent(t) && Sound(record) && record.package.Some?
    requires Claimed(t, record.package.value.name, record.publisher, now).Err?
    ensures Recorded(t, record, now) == Err(RecordRefusal(t, record))
  {
    var name := record.package.value.name;
    var found := PackageNamed(t.packages, name.Normalized());
    if found.Some? {
      assert record.publisher in OwnersOf(t.owners, found.value) <==> (found.value, record.publisher) in t.owners;
    } else {
      var scope := if name.IsScoped() then ScopeNamed(t.scopes, name.NormalizedScope()) else None;
      FreeExactlyWhen(t, PackageRowFor(scope, name, now));
    }
  }

  /** A record whose package is claimed fails where its version or a dependency does. */
  lemma WriteFails(t: Tables, record: Record, now: int)
    requires record.package.Some? && Recorded(t, record, now).Err?
    requires Claimed(t, record.package.value.name, record.publisher, now).Ok?
    ensures var claim := Claimed(t, record.package.value.name, record.publisher, now).value;
            var inserted := Inserted(claim.tables, claim.id, record.package.value, record, now);
            if inserted.Err? then Recorded(t, record, now) == Err(inserted.error)
            else
              var written := Depending(inserted.value.tables, inserted.value.id, record.dependencies);
              written.Err? && Recorded(t, record, now) == Err(written.error)
  {
  }

  lemma InsertionRefusal(t: Tables, package: PackageId, published: Published, record: Record, now: int)
    requires published.version.WellFormed() && record.size > 0
    ensures Inserted(t, package, published, record, now).Err? ==>
              Inserted(t, package, published, record, now) == Err(AlreadyPublished)
    ensures Inserted(t, package, published, record, now).Err? <==>
              VersionIsTaken(t.versions, package, published.version)
  {
  }

  lemma WriteRefusal(t: Tables, record: Record, now: int)
    requires Consistent(t) && Sound(record) && record.package.Some? && Recorded(t, record, now).Err?
    requires Claimed(t, record.package.value.name, record.publisher, now).Ok?
    ensures Recorded(t, record, now) ==
            Err(if HoldsVersion(t, record.package.value.name, record.package.value.version) then AlreadyPublished
                else Rejected)
  {
    var published := record.package.value;
    var claim := Claimed(t, published.name, record.publisher, now).value;
    ClaimHoldsVersion(t, published.name, published.version, record.publisher, now);
    InsertionRefusal(claim.tables, claim.id, published, record, now);
    DependingRefusal(Inserted(claim.tables, claim.id, published, record, now), record.dependencies);
    WriteFails(t, record, now);
  }

  lemma {:induction false} DependingFails(t: Tables, version: VersionId, dependencies: seq<Dependency>)
    requires Depending(t, version, dependencies).Err?
    ensures Depending(t, version, dependencies) == Err(Rejected)
    decreases |dependencies|
  {
    var row := DependencyRowFor(dependencies[0]);
    if (version, row.normalized) !in t.dependencies {
      DependingFails(WithDependency(t, version, row), version, dependencies[1..]);
    }
  }

  lemma DependingRefusal(inserted: Result<Claim, Failure>, dependencies: seq<Dependency>)
    ensures inserted.Ok? && Depending(inserted.value.tables, inserted.value.id, dependencies).Err? ==>
              Depending(inserted.value.tables, inserted.value.id, dependencies) == Err(Rejected)
  {
    if inserted.Ok? && Depending(inserted.value.tables, inserted.value.id, dependencies).Err? {
      DependingFails(inserted.value.tables, inserted.value.id, dependencies);
    }
  }

  /** What a record that fails is refused for; the failure without a name is left for a
      dependency named twice. */
  lemma RecordRefusals(t: Tables, record: Record, now: int)
    requires Consistent(t) && Sound(record) && Recorded(t, record, now).Err?
    ensures Recorded(t, record, now) == Err(if record.package.None? then NoPackage else RecordRefusal(t, record))
    ensures Recorded(t, record, now) == Err(Rejected) ==> !NamesDiffer(record.dependencies)
  {
    RecordCommitsExactlyWhen(t, record, now);
    if record.package.Some? {
      var name := record.package.value.name;
      ClaimedExactlyWhen(t, name, record.publisher, now);
      if Claimed(t, name, record.publisher, now).Err? {
        ClaimRefusal(t, record, now);
      } else {
        WriteRefusal(t, record, now);
      }
    }
  }

  // --- what a record writes ---

  /** Every column of the version row, read against the record. */
  ghost predicate WritesRow(row: VersionRow, package: PackageId, record: Record, now: int)
    requires record.package.Some?
  {
    var published, about := record.package.value, record.package.value.about;
    && row.package == package && HoldsAVersion(row) && VersionIn(row) == published.version
    && row.checksum == record.checksum && row.realm == published.realm && !row.yanked
    && row.publishedBy == record.publisher && row.publishedAt == now
    && row.details.size == record.size && row.details.authors == about.authors
    && TextOr(row.details.edition) == about.edition && TextOr(row.details.license) == about.license
    && TextOr(row.details.description) == about.description && TextOr(row.details.repository) == about.repository
  }

  lemma RowIsWritten(package: PackageId, record: Record, now: int)
    requires record.package.Some? && record.package.value.version.WellFormed()
    ensures WritesRow(VersionRowFor(package, record.package.value, record, now), package, record, now)
  {
    WrittenVersionReads(package, record.package.value, record, now);
  }

  /** What a committing record leaves: one version more, unyanked, with every column as the
      record gives it, its dependencies, and its package stamped, described and owned. */
  ghost predicate Leaves(t: Tables, u: Tables, record: Record, now: int, package: PackageId, id: VersionId)
    requires record.package.Some?
  {
    && package in u.packages && u.packages[package].normalized == record.package.value.name.Normalized()
    && u.packages[package].updatedAt == now
    && TextOr(u.packages[package].description) == record.package.value.about.description
    && record.publisher in OwnersOf(u.owners, package)
    && u.packages == t.packages[package := u.packages[package]]
    && id !in t.versions && id in u.versions && u.versions == t.versions[id := u.versions[id]]
    && WritesRow(u.versions[id], package, record, now)
    && DependsOn(u.dependencies, id, record.dependencies)
  }

  lemma RecordLeaves(t: Tables, record: Record, now: int) returns (package: PackageId, id: VersionId)
    requires Consistent(t) && Sound(record) && Recorded(t, record, now).Ok?
    ensures Leaves(t, Recorded(t, record, now).value, record, now, package, id)
  {
    package, id := RecordedMeans(t, record, now);
    RowIsWritten(package, record, now);
  }

  /** A package that is new keeps the casing of its own name, takes its scope's from the scope,
      and has its publisher for only owner. */
  lemma NewPackageMeans(t: Tables, record: Record, now: int)
    requires Consistent(t) && Sound(record) && Recorded(t, record, now).Ok?
    requires PackageNamed(t.packages, record.package.value.name.Normalized()).None?
    ensures var u, name := Recorded(t, record, now).value, record.package.value.name;
            var found := PackageNamed(u.packages, name.Normalized());
            && found.Some? && found.value !in t.packages
            && var stored := StoredName(u.scopes, u.packages[found.value]);
               && stored.name == name.name && SameButForCase(stored.scope, name.scope)
               && (name.IsScoped() ==> exists s | s in t.scopes :: stored.scope == t.scopes[s].name)
               && OwnersOf(u.owners, found.value) == {record.publisher}
  {
    var u, name := Recorded(t, record, now).value, record.package.value.name;
    var claim := Claimed(t, name, record.publisher, now).value;
    ClaimedKeeps(t, name, record.publisher, now);
    CreatedRow(t, name, record.publisher, now);
    RecordedTouchesOne(t, record, now);
    RecordedKeeps(t, record, now);
    WrittenLeavesNames(t, record, now);
    PackageFound(u, claim.id);
  }

  lemma CreatedRow(t: Tables, name: Name, publisher: UserId, now: int)
    requires Consistent(t) && name.WellFormed() && Created(t, name, publisher, now).Ok?
    ensures var c := Created(t, name, publisher, now).value;
            var stored := StoredName(c.tables.scopes, c.tables.packages[c.id]);
            && c.id !in t.packages && c.tables.scopes == t.scopes && OwnersOf(c.tables.owners, c.id) == {publisher}
            && stored.name == name.name && SameButForCase(stored.scope, name.scope)
            && (name.IsScoped() ==> exists s | s in t.scopes :: stored.scope == t.scopes[s].name)
  {
    var scope := if name.IsScoped() then ScopeNamed(t.scopes, name.NormalizedScope()) else None;
    var row := PackageRowFor(scope, name, now);
    IdsStayIssued(t);
    WithPackageOwners(t, row, publisher, t.nextId);
    if scope.Some? {
      FoldJoinsCases(t.scopes[scope.value].name, name.scope);
    }
  }

  lemma WrittenLeavesNames(t: Tables, record: Record, now: int)
    requires Consistent(t) && Sound(record) && Recorded(t, record, now).Ok?
    ensures var u := Recorded(t, record, now).value;
            var c := Claimed(t, record.package.value.name, record.publisher, now).value;
            && u.scopes == c.tables.scopes && u.owners == c.tables.owners
            && c.id in u.packages && u.packages[c.id].name == c.tables.packages[c.id].name
            && u.packages[c.id].scope == c.tables.packages[c.id].scope
  {
  }

  // --- yanks ---

  /** A yank commits exactly when an owner of the package names a version it holds; a missing
      package comes before a stranger, and a stranger before a missing version. */
  lemma YankOutcome(t: Tables, name: Name, version: Version, yanked: bool, user: UserId, now: int)
    requires Consistent(t)
    ensures var found := PackageNamed(t.packages, name.Normalized());
            var outcome := Yanked(t, name, version, yanked, user, now);
            && (outcome.Ok? <==>
                found.Some? && user in OwnersOf(t.owners, found.value) && InRange(version) &&
                HoldsVersion(t, name, version))
            && (outcome.Err? ==>
                  outcome.error == if found.None? then NotFound
                                   else if user !in OwnersOf(t.owners, found.value) then NotOwned
                                   else if !InRange(version) then Rejected else NotFound)
  {
    var found := PackageNamed(t.packages, name.Normalized());
    if found.Some? {
      assert user in OwnersOf(t.owners, found.value) <==> (found.value, user) in t.owners;
    }
  }

  // --- owners ---

  /** What refuses a change of owners before it looks at the owners themselves. */
  ghost function ChangeRefusal(t: Tables, name: Name, target: Option<UserId>, actor: UserId): Option<Failure> {
    var found := PackageNamed(t.packages, name.Normalized());
    if found.None? then Some(NotFound)
    else if actor !in OwnersOf(t.owners, found.value) then Some(NotOwned)
    else if target.None? then Some(NoSuchUser)
    else None
  }

  lemma OwnedOutcome(t: Tables, name: Name, target: Option<UserId>, actor: UserId)
    ensures match ChangeRefusal(t, name, target, actor)
            case Some(e) => Owned(t, name, target, actor) == Err(e)
            case None => Owned(t, name, target, actor) == Ok(PackageNamed(t.packages, name.Normalized()).value)
  {
    var found := PackageNamed(t.packages, name.Normalized());
    if found.Some? {
      assert actor in OwnersOf(t.owners, found.value) <==> (found.value, actor) in t.owners;
    }
  }

  /** Adding an owner is refused for nothing else: adding one who is an owner already commits. */
  lemma OwnerAddedOutcome(t: Tables, name: Name, target: Option<UserId>, actor: UserId)
    ensures match ChangeRefusal(t, name, target, actor)
            case Some(e) => OwnerAdded(t, name, target, actor) == Err(e)
            case None => OwnerAdded(t, name, target, actor).Ok?
  {
    OwnedOutcome(t, name, target, actor);
  }

  /** Removing one is refused only for leaving nobody besides. */
  lemma OwnerRemovedOutcome(t: Tables, name: Name, target: Option<UserId>, actor: UserId)
    requires Consistent(t)
    ensures match ChangeRefusal(t, name, target, actor)
            case Some(e) => OwnerRemoved(t, name, target, actor) == Err(e)
            case None =>
              var owners := OwnersOf(t.owners, PackageNamed(t.packages, name.Normalized()).value);
              if owners == {target.value} then OwnerRemoved(t, name, target, actor) == Err(LastOwner)
              else OwnerRemoved(t, name, target, actor).Ok?
  {
    OwnedOutcome(t, name, target, actor);
    LastOwnerIsTheActor(t, name, target, actor);
    if ChangeRefusal(t, name, target, actor).None? {
      assert actor in OwnersOf(t.owners, PackageNamed(t.packages, name.Normalized()).value);
    }
  }

  // --- scopes ---

  /** A scope is created exactly when its trimmed name is a segment, its owner is known and no
      scope has the name in any case. */
  lemma ScopeCreatedOutcome(t: Tables, scope: string, user: Option<UserId>)
    requires Consistent(t)
    ensures var name, outcome := TrimSpace(scope), ScopeCreated(t, scope, user);
            var taken := exists s | s in t.scopes :: SameButForCase(t.scopes[s].name, name);
            && (outcome.Ok? <==> ValidSegment(name) && user.Some? && !taken)
            && (outcome.Err? ==>
                  outcome.error == if !ValidSegment(name) then InvalidScope
                                   else if user.None? then NoSuchUser else ScopeExists)
  {
    forall s | s in t.scopes
      ensures t.scopes[s].normalized == Fold(TrimSpace(scope)) <==> SameButForCase(t.scopes[s].name, TrimSpace(scope))
    {
      FoldJoinsCases(t.scopes[s].name, TrimSpace(scope));
    }
  }

  /** A created scope is stored in the casing it was given. */
  lemma ScopeCreatedRow(t: Tables, scope: string, user: Option<UserId>) returns (id: ScopeId)
    requires Consistent(t) && ScopeCreated(t, scope, user).Ok?
    ensures var u := ScopeCreated(t, scope, user).value;
            && id !in t.scopes && id in u.scopes && u.scopes[id].name == TrimSpace(scope)
            && u == t.(scopes := t.scopes[id := u.scopes[id]], members := t.members + {(id, user.value)},
                       nextId := u.nextId)
  {
    IdsStayIssued(t);
    id := t.nextId;
  }
}
