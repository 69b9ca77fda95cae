/** What one of the registry's transactions means for the ones after it. */
module RegistryLaws {
  import opened Wrappers
  import opened Orders
  import opened Text
  import opened Versions
  import opened PackageNames
  import opened Index
  import opened Tables
  import opened Registry
  import opened RegistryRuns

  // --- publishing ---

  /** The dependency rows of a version are exactly those its manifest declared. */
  ghost predicate DependsOn(dependencies: map<(VersionId, string), DependencyRow>, version: VersionId,
      declared: seq<Dependency>) {
    && (forall i, j | 0 <= i < j < |declared| :: declared[i].name.Normalized() != declared[j].name.Normalized())
    && (forall d | d in declared ::
          (version, d.name.Normalized()) in dependencies
          && dependencies[(version, d.name.Normalized())] == DependencyRowFor(d))
    && (forall k | k in dependencies && k.0 == version :: exists d | d in declared :: d.name.Normalized() == k.1)
  }

  lemma ConsDependsOn(dependencies: map<(VersionId, string), DependencyRow>, version: VersionId,
      declared: seq<Dependency>)
    requires declared != []
    requires forall d | d in declared[1..] ::
               && d.name.Normalized() != declared[0].name.Normalized()
               && (version, d.name.Normalized()) in dependencies
               && dependencies[(version, d.name.Normalized())] == DependencyRowFor(d)
    requires (version, declared[0].name.Normalized()) in dependencies
    requires dependencies[(version, declared[0].name.Normalized())] == DependencyRowFor(declared[0])
    requires forall i, j | 0 <= i < j < |declared[1..]| ::
               declared[1..][i].name.Normalized() != declared[1..][j].name.Normalized()
    ensures forall i, j | 0 <= i < j < |declared| :: declared[i].name.Normalized() != declared[j].name.Normalized()
    ensures forall d | d in declared ::
              (version, d.name.Normalized()) in dependencies
              && dependencies[(version, d.name.Normalized())] == DependencyRowFor(d)
  {
    forall i, j | 0 <= i < j < |declared| ensures declared[i].name.Normalized() != declared[j].name.Normalized() {
      assert declared[1..][j - 1] in declared[1..];
      if i > 0 {
        assert declared[1..][i - 1].name.Normalized() != declared[1..][j - 1].name.Normalized();
      }
    }
  }

  /** Writing dependencies adds one row for each, under keys nothing held before. */
  lemma {:induction false} DependingWrites(t: Tables, version: VersionId, declared: seq<Dependency>)
    requires Depending(t, version, declared).Ok?
    ensures var rows := Depending(t, version, declared).value.dependencies;
            && (forall i, j | 0 <= i < j < |declared| :: declared[i].name.Normalized() != declared[j].name.Normalized())
            && (forall d | d in declared ::
                  && (version, d.name.Normalized()) !in t.dependencies
                  && (version, d.name.Normalized()) in rows
                  && rows[(version, d.name.Normalized())] == DependencyRowFor(d))
            && (forall k | k in rows && k !in t.dependencies ::
                  k.0 == version && exists d | d in declared :: d.name.Normalized() == k.1)
    decreases |declared|
  {
    if declared != [] {
      var row := DependencyRowFor(declared[0]);
      var u := WithDependency(t, version, row);
      var rows := Depending(t, version, declared).value.dependencies;
      DependingWrites(u, version, declared[1..]);
      DependingOnlyAdds(u, version, declared[1..]);
      assert (version, row.normalized) in u.dependencies;
      ConsDependsOn(rows, version, declared);
      forall d | d in declared ensures (version, d.name.Normalized()) !in t.dependencies {
        assert d == declared[0] || d in declared[1..];
      }
      forall k | k in rows && k !in t.dependencies
        ensures k.0 == version && exists d | d in declared :: d.name.Normalized() == k.1
      {
        if k in u.dependencies {
          assert declared[0] in declared && declared[0].name.Normalized() == k.1;
        }
      }
    }
  }

  lemma WrittenMeans(t: Tables, package: PackageId, published: Published, record: Record, now: int)
    requires Consistent(t) && package in t.packages && published.version.WellFormed()
    requires Inserted(t, package, published, record, now).Ok?
    requires var c := Inserted(t, package, published, record, now).value;
             Depending(c.tables, c.id, record.dependencies).Ok?
    ensures var c := Inserted(t, package, published, record, now).value;
            var u := Depending(c.tables, c.id, record.dependencies).value;
            && c.id !in t.versions
            && u.versions == t.versions[c.id := VersionRowFor(package, published, record, now)]
            && DependsOn(u.dependencies, c.id, record.dependencies)
  {
    var c := Inserted(t, package, published, record, now).value;
    InsertedLeaves(t, package, published, record, now);
    IdsStayIssued(t);
    assert forall k | k in t.dependencies :: k.0 in t.versions;
    DependingWrites(c.tables, c.id, record.dependencies);
  }

  /** A record that commits adds one version, holding what was published, to a package of that
      name which the publisher owns; its dependency rows are those of the manifest. */
  lemma RecordedMeans(t: Tables, record: Record, now: int) returns (package: PackageId, version: VersionId)
    requires Consistent(t) && Sound(record) && Recorded(t, record, now).Ok?
    ensures var u, published := Recorded(t, record, now).value, record.package.value;
            && package in u.packages && u.packages[package].normalized == published.name.Normalized()
            && u.packages[package].updatedAt == now
            && u.packages[package].description == NilIfEmpty(published.about.description)
            && record.publisher in OwnersOf(u.owners, package)
            && u.packages == t.packages[package := u.packages[package]]
            && version !in t.versions
            && u.versions == t.versions[version := VersionRowFor(package, published, record, now)]
            && DependsOn(u.dependencies, version, record.dependencies)
  {
    var published := record.package.value;
    var claim := Claimed(t, published.name, record.publisher, now).value;
    ClaimedKeeps(t, published.name, record.publisher, now);
    WrittenExtends(claim.tables, claim.id, published, record, now);
    WrittenMeans(claim.tables, claim.id, published, record, now);
    ClaimLeavesVersions(t, published.name, record.publisher, now);
    RecordedTouchesOne(t, record, now);
    package := claim.id;
    version := Inserted(claim.tables, claim.id, published, record, now).value.id;
  }

  lemma ClaimLeavesVersions(t: Tables, name: Name, publisher: UserId, now: int)
    requires Claimed(t, name, publisher, now).Ok?
    ensures Claimed(t, name, publisher, now).value.tables.versions == t.versions
  {
  }

  lemma ClaimAddsOne(t: Tables, name: Name, publisher: UserId, now: int)
    requires Claimed(t, name, publisher, now).Ok?
    ensures var c := Claimed(t, name, publisher, now).value;
            c.tables.packages == t.packages[c.id := c.tables.packages[c.id]]
  {
  }

  lemma RecordedTouchesOne(t: Tables, record: Record, now: int)
    requires Recorded(t, record, now).Ok?
    ensures var u, published := Recorded(t, record, now).value, record.package.value;
            var id := Claimed(t, published.name, record.publisher, now).value.id;
            && id in u.packages && u.packages == t.packages[id := u.packages[id]]
            && u.packages[id].updatedAt == now && u.packages[id].description == NilIfEmpty(published.about.description)
  {
    ClaimAddsOne(t, record.package.value.name, record.publisher, now);
  }

  // --- when a record commits ---

  ghost predicate NamesDiffer(declared: seq<Dependency>) {
    forall i, j | 0 <= i < j < |declared| :: declared[i].name.Normalized() != declared[j].name.Normalized()
  }

  lemma {:induction false} DependingSucceeds(t: Tables, version: VersionId, declared: seq<Dependency>)
    requires forall d | d in declared :: (version, d.name.Normalized()) !in t.dependencies
    requires NamesDiffer(declared)
    ensures Depending(t, version, declared).Ok?
    decreases |declared|
  {
    if declared != [] {
      forall d | d in declared[1..] ensures d.name.Normalized() != declared[0].name.Normalized() {
        var j :| 0 <= j < |declared[1..]| && declared[1..][j] == d;
        assert declared[1..][j] == declared[j + 1];
      }
      forall i, j | 0 <= i < j < |declared[1..]|
        ensures declared[1..][i].name.Normalized() != declared[1..][j].name.Normalized()
      {
        assert declared[i + 1].name.Normalized() != declared[j + 1].name.Normalized();
      }
      DependingSucceeds(WithDependency(t, version, DependencyRowFor(declared[0])), version, declared[1..]);
    }
  }

  lemma DependingExactlyWhen(t: Tables, version: VersionId, declared: seq<Dependency>)
    requires forall k | k in t.dependencies :: k.0 != version
    ensures Depending(t, version, declared).Ok? <==> NamesDiffer(declared)
  {
    if Depending(t, version, declared).Ok? {
      DependingWrites(t, version, declared);
    }
    if NamesDiffer(declared) {
      DependingSucceeds(t, version, declared);
    }
  }

  /** The name is the publisher's already, or free, unlike any taken name, and in a scope that
      counts the publisher among its members. */
  ghost predicate MayClaim(t: Tables, name: Name, publisher: UserId) {
    var found := PackageNamed(t.packages, name.Normalized());
    if found.Some? then publisher in OwnersOf(t.owners, found.value)
    else
      && (forall p | p in t.packages :: t.packages[p].squatKey != name.SquatKey())
      && (name.IsScoped() ==> IsMember(t, name.NormalizedScope(), publisher))
  }

  lemma ClaimedExactlyWhen(t: Tables, name: Name, publisher: UserId, now: int)
    ensures Claimed(t, name, publisher, now).Ok? <==> MayClaim(t, name, publisher)
  {
    var found := PackageNamed(t.packages, name.Normalized());
    if found.Some? {
      assert publisher in OwnersOf(t.owners, found.value) <==> (found.value, publisher) in t.owners;
    } else if name.IsScoped() && IsMember(t, name.NormalizedScope(), publisher) {
      FreeExactlyWhen(t, PackageRowFor(ScopeNamed(t.scopes, name.NormalizedScope()), name, now));
    } else if !name.IsScoped() {
      FreeExactlyWhen(t, PackageRowFor(None, name, now));
    }
  }

  lemma FreeExactlyWhen(t: Tables, row: PackageRow)
    requires forall p | p in t.packages :: t.packages[p].normalized != row.normalized
    ensures NameIsTaken(t.packages, row) <==> exists p | p in t.packages :: t.packages[p].squatKey == row.squatKey
  {
  }

  lemma ClaimHoldsVersion(t: Tables, name: Name, version: Version, publisher: UserId, now: int)
    requires Consistent(t) && name.WellFormed() && Claimed(t, name, publisher, now).Ok?
    ensures var c := Claimed(t, name, publisher, now).value;
            VersionIsTaken(c.tables.versions, c.id, version) <==> HoldsVersion(t, name, version)
  {
    if PackageNamed(t.packages, name.Normalized()).None? {
      ClaimLeavesVersions(t, name, publisher, now);
      CreatedKeeps(t, name, publisher, now);
    }
  }

  /** A record commits exactly when it describes a package the publisher may claim, in a
      version the package does not hold, with no dependency named twice. */
  lemma RecordCommitsExactlyWhen(t: Tables, record: Record, now: int)
    requires Consistent(t) && Sound(record)
    ensures Recorded(t, record, now).Ok? <==>
            && record.package.Some?
            && MayClaim(t, record.package.value.name, record.publisher)
            && !HoldsVersion(t, record.package.value.name, record.package.value.version)
            && NamesDiffer(record.dependencies)
  {
    if record.package.Some? {
      var published := record.package.value;
      ClaimedExactlyWhen(t, published.name, record.publisher, now);
      if Claimed(t, published.name, record.publisher, now).Ok? {
        var claim := Claimed(t, published.name, record.publisher, now).value;
        ClaimedKeeps(t, published.name, record.publisher, now);
        ClaimHoldsVersion(t, published.name, published.version, record.publisher, now);
        WritesExactlyWhen(claim.tables, claim.id, published, record, now);
      }
    }
  }

  lemma WritesExactlyWhen(t: Tables, package: PackageId, published: Published, record: Record, now: int)
    requires Consistent(t) && published.version.WellFormed() && record.size > 0
    ensures Inserted(t, package, published, record, now).Ok? <==>
              !VersionIsTaken(t.versions, package, published.version)
    ensures Inserted(t, package, published, record, now).Ok? ==>
              var c := Inserted(t, package, published, record, now).value;
              Depending(c.tables, c.id, record.dependencies).Ok? <==> NamesDiffer(record.dependencies)
  {
    if Inserted(t, package, published, record, now).Ok? {
      var c := Inserted(t, package, published, record, now).value;
      IdsStayIssued(t);
      assert forall k | k in c.tables.dependencies :: k.0 in t.versions;
      DependingExactlyWhen(c.tables, c.id, record.dependencies);
    }
  }

  ghost predicate HoldsVersion(t: Tables, name: Name, version: Version) {
    var package := PackageNamed(t.packages, name.Normalized());
    package.Some? && VersionIsTaken(t.versions, package.value, version)
  }

  lemma HeldStaysHeld(t: Tables, u: Tables, name: Name, version: Version)
    requires Consistent(t) && Consistent(u) && Extends(t, u) && HoldsVersion(t, name, version)
    ensures HoldsVersion(u, name, version)
  {
    var package := PackageNamed(t.packages, name.Normalized()).value;
    PackageFound(u, package);
    var v :| v in t.versions && HasIdentity(t.versions[v], package, version);
    assert HasIdentity(u.versions[v], package, version);
  }

  lemma RecordedHolds(t: Tables, record: Record, now: int)
    requires Consistent(t) && Sound(record) && Recorded(t, record, now).Ok?
    ensures HoldsVersion(Recorded(t, record, now).value, record.package.value.name, record.package.value.version)
  {
    var package, version := RecordedMeans(t, record, now);
    RecordedKeeps(t, record, now);
    var u := Recorded(t, record, now).value;
    PackageFound(u, package);
    assert HasIdentity(u.versions[version], package, record.package.value.version);
  }

  /** An identity is taken whatever the casing of the name or the build metadata. */
  lemma HeldByIdentity(t: Tables, name: Name, version: Version, other: Name, again: Version)
    requires name.WellFormed() && other.WellFormed() && name.Equal(other) && version.SameIdentity(again)
    ensures HoldsVersion(t, name, version) <==> HoldsVersion(t, other, again)
  {
    EqualIsSameKey(name, other);
    forall row: VersionRow, package ensures HasIdentity(row, package, version) <==> HasIdentity(row, package, again) {
    }
  }

  lemma HeldIsRefused(t: Tables, record: Record, now: int)
    requires Consistent(t) && Sound(record) && record.package.Some?
    requires HoldsVersion(t, record.package.value.name, record.package.value.version)
    ensures var id := PackageNamed(t.packages, record.package.value.name.Normalized()).value;
            Recorded(t, record, now) ==
            Err(if record.publisher in OwnersOf(t.owners, id) then AlreadyPublished else NotOwned)
  {
    var id := PackageNamed(t.packages, record.package.value.name.Normalized()).value;
    assert record.publisher in OwnersOf(t.owners, id) <==> (id, record.publisher) in t.owners;
  }

  /** Once a version is recorded, no later record of that identity commits, whatever ran in
      between: an owner is told it is published, anyone else that it is not theirs. */
  lemma PublishedOnce(t: Tables, record: Record, now: int, ops: seq<Operation>, again: Record, later: int)
    requires Consistent(t) && Sound(record) && Recorded(t, record, now).Ok?
    requires Sound(again) && again.package.Some? && forall op | op in ops :: Admissible(op)
    requires record.package.value.name.Equal(again.package.value.name)
    requires record.package.value.version.SameIdentity(again.package.value.version)
    ensures var u := Run(Recorded(t, record, now).value, ops);
            var id := PackageNamed(u.packages, again.package.value.name.Normalized());
            && id.Some?
            && Recorded(u, again, later) ==
               Err(if again.publisher in OwnersOf(u.owners, id.value) then AlreadyPublished else NotOwned)
  {
    var first := Recorded(t, record, now).value;
    var u := Run(first, ops);
    RecordedKeeps(t, record, now);
    RecordedHolds(t, record, now);
    EveryRunKeeps(first, ops);
    HeldStaysHeld(first, u, record.package.value.name, record.package.value.version);
    HeldByIdentity(u, record.package.value.name, record.package.value.version,
                   again.package.value.name, again.package.value.version);
    HeldIsRefused(u, again, later);
  }

  /** A name differing from a stored one only in '-' against '_' is never created, by anyone. */
  lemma SquattersNeverSucceed(t: Tables, id: PackageId, ops: seq<Operation>, record: Record, now: int)
    requires Consistent(t) && id in t.packages && Sound(record) && record.package.Some?
    requires forall op | op in ops :: Admissible(op)
    requires record.package.value.name.SquatKey() == t.packages[id].squatKey
    requires record.package.value.name.Normalized() != t.packages[id].normalized
    ensures Recorded(Run(t, ops), record, now).Err?
  {
    var u := Run(t, ops);
    EveryRunKeeps(t, ops);
    var name := record.package.value.name;
    SquatKeysFollowNames(u);
    assert u.packages[id].squatKey == t.packages[id].squatKey && u.packages[id].normalized == t.packages[id].normalized;
    SquattedIsNotClaimed(u, id, name, record.publisher, now);
  }

  lemma SquattedIsNotClaimed(t: Tables, id: PackageId, name: Name, publisher: UserId, now: int)
    requires forall p | p in t.packages :: t.packages[p].squatKey == Dashes(t.packages[p].normalized)
    requires forall p | p in t.packages && t.packages[p].squatKey == name.SquatKey() :: p == id
    requires id in t.packages && name.SquatKey() == t.packages[id].squatKey &&
             name.Normalized() != t.packages[id].normalized
    ensures Claimed(t, name, publisher, now).Err?
  {
    assert NameIsTaken(t.packages, PackageRowFor(None, name, now));
  }

  lemma SquatKeysFollowNames(t: Tables)
    requires Consistent(t)
    ensures forall p | p in t.packages :: t.packages[p].squatKey == Dashes(t.packages[p].normalized)
  {
    forall p | p in t.packages ensures t.packages[p].squatKey == Dashes(t.packages[p].normalized) {
      assert Rebuilds(t.scopes, t.packages[p]);
    }
  }

  // --- owners ---

  /** Adding an owner and removing them again changes nothing. */
  lemma RemovingUndoesAdding(t: Tables, name: Name, target: Option<UserId>, actor: UserId)
    requires Consistent(t) && OwnerAdded(t, name, target, actor).Ok?
    requires target.value !in OwnersOf(t.owners, Owned(t, name, target, actor).value)
    ensures OwnerRemoved(OwnerAdded(t, name, target, actor).value, name, target, actor) == Ok(t)
  {
    var id := Owned(t, name, target, actor).value;
    var u := OwnerAdded(t, name, target, actor).value;
    assert (id, target.value) !in t.owners && (id, target.value) in u.owners && (id, actor) in u.owners;
    assert u.owners - {(id, target.value)} == t.owners;
    TwoOwners(u.owners, id, actor, target.value);
  }

  lemma TwoOwners(owners: set<(PackageId, UserId)>, id: PackageId, one: UserId, other: UserId)
    requires (id, one) in owners && (id, other) in owners && one != other
    ensures |OwnersOf(owners, id)| != 1
  {
    var both := {one, other};
    assert both <= OwnersOf(owners, id);
    assert |OwnersOf(owners, id)| == |OwnersOf(owners, id) - both| + |both|;
  }

  /** Removing another owner and adding them back changes nothing. */
  lemma AddingUndoesRemoving(t: Tables, name: Name, target: Option<UserId>, actor: UserId)
    requires Consistent(t) && OwnerRemoved(t, name, target, actor).Ok? && target != Some(actor)
    requires target.value in OwnersOf(t.owners, Owned(t, name, target, actor).value)
    ensures OwnerAdded(OwnerRemoved(t, name, target, actor).value, name, target, actor) == Ok(t)
  {
    var id := Owned(t, name, target, actor).value;
    assert t.owners - {(id, target.value)} + {(id, target.value)} == t.owners;
  }

  /** The only removal refused for leaving nobody is a sole owner's of themselves. */
  lemma LastOwnerIsTheActor(t: Tables, name: Name, target: Option<UserId>, actor: UserId)
    requires Consistent(t)
    ensures OwnerRemoved(t, name, target, actor) == Err(LastOwner) <==>
            && Owned(t, name, target, actor).Ok? && target == Some(actor)
            && OwnersOf(t.owners, Owned(t, name, target, actor).value) == {actor}
  {
    if Owned(t, name, target, actor).Ok? {
      var owners := OwnersOf(t.owners, Owned(t, name, target, actor).value);
      assert actor in owners;
      assert target.value in owners <==> (Owned(t, name, target, actor).value, target.value) in t.owners;
      if |owners| == 1 {
        SoleElement(owners, actor);
      }
    }
  }

  lemma SoleElement(s: set<UserId>, x: UserId)
    requires |s| == 1 && x in s
    ensures s == {x}
  {
    assert |s - {x}| == 0;
  }

  // --- scopes ---

  /** A new scope has the trimmed name's key and one member; nothing else gains or loses one. */
  lemma ScopeCreatedMeans(t: Tables, scope: string, user: Option<UserId>, key: string, member: UserId)
    requires Consistent(t) && ScopeCreated(t, scope, user).Ok?
    ensures IsMember(ScopeCreated(t, scope, user).value, key, member) <==>
            IsMember(t, key, member) || (key == Fold(TrimSpace(scope)) && Some(member) == user)
  {
    var u := ScopeCreated(t, scope, user).value;
    IdsStayIssued(t);
    NewScopeMembers(t, u, t.nextId, Fold(TrimSpace(scope)), user.value, key, member);
  }

  lemma NewScopeMembers(t: Tables, u: Tables, id: ScopeId, created: string, user: UserId, key: string, member: UserId)
    requires id !in t.scopes && id in u.scopes && u.scopes[id].normalized == created
    requires u.scopes == t.scopes[id := u.scopes[id]] && u.members == t.members + {(id, user)}
    requires forall m | m in t.members :: m.0 in t.scopes
    ensures IsMember(u, key, member) <==> IsMember(t, key, member) || (key == created && member == user)
  {
    if s :| s in t.scopes && t.scopes[s].normalized == key && (s, member) in t.members {
      assert (s, member) in u.members && s in u.scopes;
    }
    if key == created && member == user {
      assert (id, user) in u.members;
    }
    if s :| s in u.scopes && u.scopes[s].normalized == key && (s, member) in u.members && s != id {
      assert (s, member) in t.members;
    }
  }

  /** A fresh registry takes any unscoped name and refuses every scoped one. */
  lemma FreshRegistry(record: Record, now: int)
    requires Sound(record) && record.package.Some?
    ensures Recorded(EMPTY, record, now).Ok? <==>
              !record.package.value.name.IsScoped() && NamesDiffer(record.dependencies)
  {
    RecordCommitsExactlyWhen(EMPTY, record, now);
  }

  /** No package can have been published into a scope that is yet to be created. */
  lemma NothingInANewScope(t: Tables, name: Name, p: PackageId)
    requires Consistent(t) && name.WellFormed() && name.IsScoped() && p in t.packages
    requires forall s | s in t.scopes :: t.scopes[s].normalized != name.NormalizedScope()
    ensures t.packages[p].normalized != name.Normalized()
  {
    var row := t.packages[p];
    assert Rebuilds(t.scopes, row);
    StoredScopeIsKnown(t.scopes, row);
    EqualIsSameKey(StoredName(t.scopes, row), name);
    TextOrder();
  }

  lemma StoredScopeIsKnown(scopes: map<ScopeId, ScopeRow>, row: PackageRow)
    requires ScopesKept(scopes) && Rebuilds(scopes, row)
    ensures var stored := StoredName(scopes, row);
            stored.scope == "" || exists s | s in scopes :: scopes[s].normalized == stored.NormalizedScope()
  {
  }

  lemma ScopeCreatedLeaves(t: Tables, scope: string, user: Option<UserId>)
    requires ScopeCreated(t, scope, user).Ok?
    ensures ScopeCreated(t, scope, user).value.packages == t.packages
    ensures forall s | s in t.scopes :: t.scopes[s].normalized != Fold(TrimSpace(scope))
  {
  }

  /** Once a scope is created, its member may publish any name in it that no taken name reads
      like. */
  lemma ScopeAdmitsItsMember(t: Tables, scope: string, user: Option<UserId>, record: Record, now: int)
    requires Consistent(t) && ScopeCreated(t, scope, user).Ok? && user == Some(record.publisher)
    requires Sound(record) && record.package.Some? && record.package.value.name.IsScoped()
    requires record.package.value.name.NormalizedScope() == Fold(TrimSpace(scope))
    ensures Recorded(ScopeCreated(t, scope, user).value, record, now).Ok? <==>
            && NamesDiffer(record.dependencies)
            && forall p | p in t.packages :: t.packages[p].squatKey != record.package.value.name.SquatKey()
  {
    var u, name := ScopeCreated(t, scope, user).value, record.package.value.name;
    ScopeCreatedLeaves(t, scope, user);
    ScopeCreatedKeeps(t, scope, user);
    ScopeCreatedMeans(t, scope, user, name.NormalizedScope(), record.publisher);
    forall p | p in t.packages ensures t.packages[p].normalized != name.Normalized() {
      NothingInANewScope(t, name, p);
    }
    NewNameCommitsExactlyWhen(u, record, now);
  }

  lemma NewNameCommitsExactlyWhen(t: Tables, record: Record, now: int)
    requires Consistent(t) && Sound(record) && record.package.Some?
    requires forall p | p in t.packages :: t.packages[p].normalized != record.package.value.name.Normalized()
    ensures Recorded(t, record, now).Ok? <==>
            && NamesDiffer(record.dependencies)
            && (forall p | p in t.packages :: t.packages[p].squatKey != record.package.value.name.SquatKey())
            && (record.package.value.name.IsScoped() ==>
                 IsMember(t, record.package.value.name.NormalizedScope(), record.publisher))
  {
    RecordCommitsExactlyWhen(t, record, now);
    assert PackageNamed(t.packages, record.package.value.name.Normalized()).None?;
  }

  // --- yanking ---

  /** A yank that commits marks the one version of that identity and nothing else. */
  lemma YankMarksOne(t: Tables, name: Name, version: Version, yanked: bool, user: UserId, now: int)
      returns (v: VersionId)
    requires Consistent(t) && Yanked(t, name, version, yanked, user, now).Ok?
    ensures var u := Yanked(t, name, version, yanked, user, now).value;
            && v in t.versions && HasIdentity(t.versions[v], t.versions[v].package, version)
            && PackageNamed(t.packages, name.Normalized()) == Some(t.versions[v].package)
            && u == t.(versions := t.versions[v := t.versions[v].(yanked := yanked)], packages := u.packages)
            && u.packages == t.packages[t.versions[v].package := t.packages[t.versions[v].package].(updatedAt := now)]
  {
    var package := PackageNamed(t.packages, name.Normalized()).value;
    v :| v in t.versions && HasIdentity(t.versions[v], package, version);
    MarksOne(t.versions, t.packages.Keys, v, package, version, yanked);
  }

  lemma MarksOne(versions: map<VersionId, VersionRow>, packages: set<PackageId>, v: VersionId,
      package: PackageId, version: Version, yanked: bool)
    requires VersionsKept(versions, packages) && v in versions && HasIdentity(versions[v], package, version)
    ensures MarkedRows(versions, package, version, yanked) == versions[v := versions[v].(yanked := yanked)]
  {
    forall w | w in versions && w != v ensures !HasIdentity(versions[w], package, version) {
      assert !SameIdentityRows(versions[v], versions[w]);
    }
  }

  lemma YankCommits(t: Tables, package: PackageId, name: Name, version: Version, yanked: bool, user: UserId, now: int)
    requires PackageNamed(t.packages, name.Normalized()) == Some(package) && (package, user) in t.owners
    requires InRange(version) && VersionIsTaken(t.versions, package, version)
    ensures Yanked(t, name, version, yanked, user, now).Ok?
    ensures Yanked(t, name, version, yanked, user, now).value.versions ==
            MarkedRows(t.versions, package, version, yanked)
  {
  }

  /** Unyanking undoes the yank of an unyanked version, but for the time of the last update. */
  lemma UnyankUndoesYank(t: Tables, name: Name, version: Version, user: UserId, now: int, later: int)
    requires Consistent(t) && Yanked(t, name, version, true, user, now).Ok?
    requires var package := PackageNamed(t.packages, name.Normalized()).value;
             forall v | v in t.versions && HasIdentity(t.versions[v], package, version) :: !t.versions[v].yanked
    ensures var u := Yanked(t, name, version, true, user, now).value;
            && Yanked(u, name, version, false, user, later).Ok?
            && Yanked(u, name, version, false, user, later).value.versions == t.versions
  {
    var u := Yanked(t, name, version, true, user, now).value;
    var package := PackageNamed(t.packages, name.Normalized()).value;
    var v := YankMarksOne(t, name, version, true, user, now);
    assert VersionsKept(u.versions, t.packages.Keys) by {
      MarkedRowsKept(t.versions, t.packages.Keys, package, version, true);
    }
    UnmarkingRestores(t.versions, u.versions, t.packages.Keys, v, package, version);
    NamedAfterYank(t, name, version, user, now);
    YankCommits(u, package, name, version, false, user, later);
  }

  lemma NamedAfterYank(t: Tables, name: Name, version: Version, user: UserId, now: int)
    requires Consistent(t) && Yanked(t, name, version, true, user, now).Ok?
    ensures var u := Yanked(t, name, version, true, user, now).value;
            PackageNamed(u.packages, name.Normalized()) == PackageNamed(t.packages, name.Normalized()) &&
            u.owners == t.owners
  {
    YankedKeeps(t, name, version, true, user, now);
    YankedOwners(t, name, version, true, user, now);
    PackageFound(Yanked(t, name, version, true, user, now).value, PackageNamed(t.packages, name.Normalized()).value);
  }

  lemma UnmarkingRestores(versions: map<VersionId, VersionRow>, after: map<VersionId, VersionRow>,
      packages: set<PackageId>, v: VersionId, package: PackageId, version: Version)
    requires v in versions && HasIdentity(versions[v], package, version) && !versions[v].yanked
    requires after == versions[v := versions[v].(yanked := true)] && VersionsKept(after, packages)
    ensures VersionIsTaken(after, package, version)
    ensures MarkedRows(after, package, version, false) == versions
  {
    assert HasIdentity(after[v], package, version);
    MarksOne(after, packages, v, package, version, false);
  }
}
