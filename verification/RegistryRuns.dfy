/** What every run of the registry's transactions keeps. */
module RegistryRuns {
  import opened Wrappers
  import opened Text
  import opened Versions
  import opened Requirements
  import opened RequirementText
  import opened PackageNames
  import opened Index
  import opened Tables
  import opened Registry

  datatype Operation =
    | Publishing(record: Record, now: int)
    | Yanking(name: Name, version: Version, yanked: bool, user: UserId, now: int)
    | AddingOwner(name: Name, target: Option<UserId>, actor: UserId)
    | RemovingOwner(name: Name, target: Option<UserId>, actor: UserId)
    | CreatingScope(scope: string, member: Option<UserId>)

  ghost predicate Admissible(op: Operation) { op.Publishing? ==> Sound(op.record) }

  ghost function Outcome(t: Tables, op: Operation): Result<Tables, Failure> {
    match op
    case Publishing(record, now) => Recorded(t, record, now)
    case Yanking(name, version, yanked, user, now) => Yanked(t, name, version, yanked, user, now)
    case AddingOwner(name, target, actor) => OwnerAdded(t, name, target, actor)
    case RemovingOwner(name, target, actor) => OwnerRemoved(t, name, target, actor)
    case CreatingScope(scope, member) => ScopeCreated(t, scope, member)
  }

  ghost function Next(t: Tables, op: Operation): Tables {
    match Outcome(t, op)
    case Ok(u) => u
    case Err(_) => t
  }

  ghost function Run(t: Tables, ops: seq<Operation>): Tables {
    if ops == [] then t else Next(Run(t, ops[..|ops| - 1]), ops[|ops| - 1])
  }

  /** Changes of owners and scopes are no part of what a package shows. */
  lemma OwnersAndScopesTouchNone(t: Tables, op: Operation)
    requires Outcome(t, op).Ok? && !op.Publishing? && !op.Yanking?
    ensures Next(t, op).packages == t.packages && Next(t, op).versions == t.versions
  {
  }

  /** Who owns what was already there has not moved. */
  ghost predicate OwnersUnmoved(t: Tables, u: Tables) {
    forall id | id in t.packages :: OwnersOf(u.owners, id) == OwnersOf(t.owners, id)
  }

  // --- publishing ---

  lemma CreatedRebuilds(t: Tables, scope: Option<ScopeId>, name: Name, now: int)
    requires Consistent(t) && name.WellFormed()
    requires scope == if name.IsScoped() then ScopeNamed(t.scopes, name.NormalizedScope()) else None
    requires name.IsScoped() ==> scope.Some?
    ensures Rebuilds(t.scopes, PackageRowFor(scope, name, now))
  {
    var stored := StoredName(t.scopes, PackageRowFor(scope, name, now));
    FoldedString(stored);
    FoldedString(name);
  }

  lemma CreatedKeeps(t: Tables, name: Name, publisher: UserId, now: int)
    requires Consistent(t) && name.WellFormed() && Created(t, name, publisher, now).Ok?
    ensures var c := Created(t, name, publisher, now).value;
            && Consistent(c.tables) && Extends(t, c.tables) && OwnersUnmoved(t, c.tables)
            && (c.id, publisher) in c.tables.owners && c.id !in t.packages
            && c.tables.packages[c.id].normalized == name.Normalized()
  {
    var scope := if name.IsScoped() then ScopeNamed(t.scopes, name.NormalizedScope()) else None;
    var row := PackageRowFor(scope, name, now);
    CreatedRebuilds(t, scope, name, now);
    WithPackageKeeps(t, row, publisher);
    WithPackageExtends(t, row, publisher);
    IdsStayIssued(t);
    forall id | id in t.packages ensures OwnersOf(WithPackage(t, row, publisher).owners, id) == OwnersOf(t.owners, id) {
      WithPackageOwners(t, row, publisher, id);
    }
  }

  lemma ClaimedKeeps(t: Tables, name: Name, publisher: UserId, now: int)
    requires Consistent(t) && name.WellFormed() && Claimed(t, name, publisher, now).Ok?
    ensures var c := Claimed(t, name, publisher, now).value;
            && Consistent(c.tables) && Extends(t, c.tables) && OwnersUnmoved(t, c.tables)
            && (c.id, publisher) in c.tables.owners
            && c.tables.packages[c.id].normalized == name.Normalized()
  {
    if PackageNamed(t.packages, name.Normalized()).None? {
      CreatedKeeps(t, name, publisher, now);
    }
  }

  lemma WrittenVersionReads(package: PackageId, published: Published, record: Record, now: int)
    requires published.version.WellFormed()
    ensures var row := VersionRowFor(package, published, record, now);
            HoldsAVersion(row) && VersionIn(row) == published.version
  {
  }

  /** A dependency's row reads back as the dependency, its name in its own casing. */
  lemma WrittenDependencyReads(d: Dependency)
    requires d.name.WellFormed() && Faithful(d.requirement)
    ensures HoldsADependency(DependencyRowFor(d))
    ensures Parse(DependencyRowFor(d).name) == Some(d.name)
    ensures RequirementOf(DependencyRowFor(d).requirement) == Ok(d.requirement)
  {
    ParseString(d.name);
    EmptyTextIsRefused();
  }

  lemma EmptyTextIsRefused()
    ensures RequirementOf("").Err?
  {
  }

  lemma InsertedKeeps(t: Tables, package: PackageId, published: Published, record: Record, now: int)
    requires Consistent(t) && package in t.packages && published.version.WellFormed()
    requires Inserted(t, package, published, record, now).Ok?
    ensures var c := Inserted(t, package, published, record, now).value;
            Consistent(c.tables) && Extends(t, c.tables) && c.id !in t.versions && c.id in c.tables.versions
  {
    var row := VersionRowFor(package, published, record, now);
    IdsStayIssued(t);
    InsertedIs(t, package, published, record, now);
    WrittenVersionReads(package, published, record, now);
    WithVersionKeeps(t, row);
    WithVersionExtends(t, row);
  }

  lemma InsertedIs(t: Tables, package: PackageId, published: Published, record: Record, now: int)
    requires InRange(published.version) && Inserted(t, package, published, record, now).Ok?
    ensures var row := VersionRowFor(package, published, record, now);
            Inserted(t, package, published, record, now).value == Claim(t.nextId, WithVersion(t, row)) &&
            VersionIsFree(t.versions, row)
  {
    var row := VersionRowFor(package, published, record, now);
    forall v | v in t.versions ensures !SameIdentityRows(t.versions[v], row) {
      assert !HasIdentity(t.versions[v], package, published.version);
    }
  }

  lemma InsertedLeaves(t: Tables, package: PackageId, published: Published, record: Record, now: int)
    requires InRange(published.version) && Inserted(t, package, published, record, now).Ok?
    ensures var c := Inserted(t, package, published, record, now).value;
            && c.id == t.nextId
            && c.tables.versions == t.versions[c.id := VersionRowFor(package, published, record, now)]
            && c.tables.owners == t.owners && c.tables.dependencies == t.dependencies
  {
  }

  lemma {:induction false} DependingKeeps(t: Tables, version: VersionId, dependencies: seq<Dependency>)
    requires Consistent(t) && version in t.versions && Depending(t, version, dependencies).Ok?
    requires forall d | d in dependencies :: d.name.WellFormed() && Faithful(d.requirement)
    ensures Consistent(Depending(t, version, dependencies).value)
    decreases |dependencies|
  {
    if dependencies != [] {
      var row := DependencyRowFor(dependencies[0]);
      WrittenDependencyReads(dependencies[0]);
      WithDependencyKeeps(t, version, row);
      DependingKeeps(WithDependency(t, version, row), version, dependencies[1..]);
    }
  }

  lemma {:induction false} DependingOnlyAdds(t: Tables, version: VersionId, dependencies: seq<Dependency>)
    requires Depending(t, version, dependencies).Ok?
    ensures var u := Depending(t, version, dependencies).value;
            && (forall k | k in t.dependencies :: k in u.dependencies && u.dependencies[k] == t.dependencies[k])
            && (forall k | k in u.dependencies && k.0 != version :: k in t.dependencies)
    decreases |dependencies|
  {
    if dependencies != [] {
      DependingOnlyAdds(WithDependency(t, version, DependencyRowFor(dependencies[0])), version, dependencies[1..]);
    }
  }

  /** The version and its dependencies together: dependencies of versions already recorded are
      left alone. */
  lemma WrittenExtends(t: Tables, package: PackageId, published: Published, record: Record, now: int)
    requires Consistent(t) && package in t.packages && published.version.WellFormed()
    requires Inserted(t, package, published, record, now).Ok?
    requires var c := Inserted(t, package, published, record, now).value;
             Depending(c.tables, c.id, record.dependencies).Ok?
    requires forall d | d in record.dependencies :: d.name.WellFormed() && Faithful(d.requirement)
    ensures var c := Inserted(t, package, published, record, now).value;
            var u := Depending(c.tables, c.id, record.dependencies).value;
            Consistent(u) && Extends(t, u) && u.owners == t.owners && u.packages == t.packages
  {
    var c := Inserted(t, package, published, record, now).value;
    InsertedKeeps(t, package, published, record, now);
    DependingKeeps(c.tables, c.id, record.dependencies);
    InsertedLeaves(t, package, published, record, now);
    DependingExtends(t, c.tables, c.id, record.dependencies);
  }

  lemma DependingExtends(t: Tables, u: Tables, version: VersionId, dependencies: seq<Dependency>)
    requires Extends(t, u) && version !in t.versions && u.dependencies == t.dependencies
    requires Depending(u, version, dependencies).Ok?
    ensures Extends(t, Depending(u, version, dependencies).value)
  {
    DependingOnlyAdds(u, version, dependencies);
  }

  lemma RecordedKeeps(t: Tables, record: Record, now: int)
    requires Consistent(t) && Sound(record) && Recorded(t, record, now).Ok?
    ensures var u := Recorded(t, record, now).value; Consistent(u) && Extends(t, u) && OwnersUnmoved(t, u)
  {
    var published := record.package.value;
    var claim := Claimed(t, published.name, record.publisher, now).value;
    ClaimedKeeps(t, published.name, record.publisher, now);
    WrittenExtends(claim.tables, claim.id, published, record, now);
    var c := Inserted(claim.tables, claim.id, published, record, now).value;
    var u := Depending(c.tables, c.id, record.dependencies).value;
    var description := NilIfEmpty(published.about.description);
    TouchedKeeps(u, claim.id, now, description);
    ExtendsTransitive(t, claim.tables, u);
    ExtendsTransitive(t, u, Touched(u, claim.id, now, description));
  }

  // --- owners ---

  lemma AddedOwnersKept(t: Tables, id: PackageId, user: UserId)
    requires Consistent(t) && id in t.packages
    ensures OwnersKept(t.packages.Keys, t.owners + {(id, user)})
  {
    AddedOwnerKept(t.packages.Keys, t.owners, id, user);
    assert t.packages.Keys + {id} == t.packages.Keys;
  }

  lemma RemovedOwnersKept(t: Tables, id: PackageId, user: UserId)
    requires Consistent(t) && id in t.packages
    requires (id, user) in t.owners && |OwnersOf(t.owners, id)| != 1
    ensures OwnersKept(t.packages.Keys, t.owners - {(id, user)})
  {
    assert OwnersOf(t.owners, id) != {user};
    var other :| other in OwnersOf(t.owners, id) && other != user;
    forall p | p in t.packages ensures exists o :: (p, o) in t.owners - {(id, user)} {
      var o :| (p, o) in t.owners;
      assert (if p == id then (p, other) else (p, o)) in t.owners - {(id, user)};
    }
  }

  lemma OwnerAddedKeeps(t: Tables, name: Name, target: Option<UserId>, actor: UserId)
    requires Consistent(t) && OwnerAdded(t, name, target, actor).Ok?
    ensures var u := OwnerAdded(t, name, target, actor).value; Consistent(u) && Extends(t, u)
  {
    var id := Owned(t, name, target, actor).value;
    AddedOwnersKept(t, id, target.value);
    OwnersChangedKeeps(t, t.owners + {(id, target.value)});
  }

  lemma OwnerRemovedKeeps(t: Tables, name: Name, target: Option<UserId>, actor: UserId)
    requires Consistent(t) && OwnerRemoved(t, name, target, actor).Ok?
    ensures var u := OwnerRemoved(t, name, target, actor).value; Consistent(u) && Extends(t, u)
  {
    var id := Owned(t, name, target, actor).value;
    if (id, target.value) in t.owners {
      RemovedOwnersKept(t, id, target.value);
      OwnersChangedKeeps(t, t.owners - {(id, target.value)});
    }
  }

  // --- every run ---

  lemma YankedKeeps(t: Tables, name: Name, version: Version, yanked: bool, user: UserId, now: int)
    requires Consistent(t) && Yanked(t, name, version, yanked, user, now).Ok?
    ensures var u := Yanked(t, name, version, yanked, user, now).value;
            Consistent(u) && Extends(t, u)
  {
    var id := PackageNamed(t.packages, name.Normalized()).value;
    YankedIs(t, id, name, version, yanked, user, now);
    MarkedThenTouchedKeeps(t, id, version, yanked, now);
  }

  lemma YankedIs(t: Tables, id: PackageId, name: Name, version: Version, yanked: bool, user: UserId, now: int)
    requires PackageNamed(t.packages, name.Normalized()) == Some(id)
    requires Yanked(t, name, version, yanked, user, now).Ok?
    ensures Yanked(t, name, version, yanked, user, now).value ==
            Touched(Marked(t, id, version, yanked), id, now, t.packages[id].description)
  {
  }

  lemma MarkedThenTouchedKeeps(t: Tables, id: PackageId, version: Version, yanked: bool, now: int)
    requires Consistent(t) && id in t.packages
    ensures var u := Touched(Marked(t, id, version, yanked), id, now, t.packages[id].description);
            Consistent(u) && Extends(t, u)
  {
    var marked := Marked(t, id, version, yanked);
    MarkedKeeps(t, id, version, yanked);
    TouchedKeeps(marked, id, now, t.packages[id].description);
    ExtendsTransitive(t, marked, Touched(marked, id, now, t.packages[id].description));
  }

  lemma ScopeCreatedKeeps(t: Tables, scope: string, member: Option<UserId>)
    requires Consistent(t) && ScopeCreated(t, scope, member).Ok?
    ensures var u := ScopeCreated(t, scope, member).value; Consistent(u) && Extends(t, u)
  {
    var name := TrimSpace(scope);
    IdsStayIssued(t);
    WithScopeKeeps(t, ScopeRow(name, Fold(name)), member.value);
    WithScopeExtends(t, ScopeRow(name, Fold(name)), member.value);
  }

  lemma StepKeeps(t: Tables, op: Operation)
    requires Consistent(t) && Admissible(op)
    ensures Consistent(Next(t, op)) && Extends(t, Next(t, op))
  {
    if Outcome(t, op).Ok? {
      match op {
        case Publishing(record, now) => RecordedKeeps(t, record, now);
        case Yanking(name, version, yanked, user, now) => YankedKeeps(t, name, version, yanked, user, now);
        case AddingOwner(name, target, actor) => OwnerAddedKeeps(t, name, target, actor);
        case RemovingOwner(name, target, actor) => OwnerRemovedKeeps(t, name, target, actor);
        case CreatingScope(scope, member) => ScopeCreatedKeeps(t, scope, member);
      }
    }
  }

  /** Every package keeps an owner, every key stays unique, stored names rebuild, and nothing
      recorded is lost or altered except for update times, descriptions and yanked marks. */
  lemma {:induction false} EveryRunKeeps(t: Tables, ops: seq<Operation>)
    requires Consistent(t) && forall op | op in ops :: Admissible(op)
    ensures Consistent(Run(t, ops)) && Extends(t, Run(t, ops))
  {
    if ops != [] {
      var before := ops[..|ops| - 1];
      EveryRunKeeps(t, before);
      StepKeeps(Run(t, before), ops[|ops| - 1]);
      ExtendsTransitive(t, Run(t, before), Run(t, ops));
    }
  }

  /** A fresh registry is consistent, and so is all that follows. */
  lemma EveryReachableStateIsConsistent(ops: seq<Operation>)
    requires forall op | op in ops :: Admissible(op)
    ensures Consistent(Run(EMPTY, ops))
  {
    EveryRunKeeps(EMPTY, ops);
  }

  // --- who may change owners ---

  /** An owner of the package changes its owners by the one user the operation names. */
  ghost predicate MovesOwners(t: Tables, op: Operation, id: PackageId)
    requires id in t.packages
  {
    var owners := OwnersOf(t.owners, id);
    && (op.AddingOwner? || op.RemovingOwner?)
    && op.name.Normalized() == t.packages[id].normalized
    && op.actor in owners && op.target.Some?
    && OwnersOf(Next(t, op).owners, id) ==
       if op.AddingOwner? then owners + {op.target.value} else owners - {op.target.value}
  }

  lemma OwnersOfChanged(t: Tables, changed: PackageId, user: UserId, id: PackageId)
    ensures OwnersOf(t.owners + {(changed, user)}, id) ==
            if id == changed then OwnersOf(t.owners, id) + {user} else OwnersOf(t.owners, id)
    ensures OwnersOf(t.owners - {(changed, user)}, id) ==
            if id == changed then OwnersOf(t.owners, id) - {user} else OwnersOf(t.owners, id)
  {
    var added, removed := t.owners + {(changed, user)}, t.owners - {(changed, user)};
    forall o ensures o in OwnersOf(added, id) <==> o in OwnersOf(t.owners, id) || (id == changed && o == user) {
      assert (id, o) in added <==> (id, o) in t.owners || (id == changed && o == user);
    }
    forall o ensures o in OwnersOf(removed, id) <==> o in OwnersOf(t.owners, id) && !(id == changed && o == user) {
      assert (id, o) in removed <==> (id, o) in t.owners && !(id == changed && o == user);
    }
  }

  /** A change of owners that commits does change the package it names, and only as asked. */
  lemma OwnersMoveAsAsked(t: Tables, op: Operation)
    requires (op.AddingOwner? || op.RemovingOwner?) && Outcome(t, op).Ok?
    ensures Owned(t, op.name, op.target, op.actor).Ok?
    ensures var changed := Owned(t, op.name, op.target, op.actor).value;
            && changed in t.packages && MovesOwners(t, op, changed)
            && forall id | id != changed :: OwnersOf(Next(t, op).owners, id) == OwnersOf(t.owners, id)
  {
    var changed := Owned(t, op.name, op.target, op.actor).value;
    assert op.actor in OwnersOf(t.owners, changed);
    forall id ensures OwnersOf(Next(t, op).owners, id) ==
                      if id != changed then OwnersOf(t.owners, id)
                      else if op.AddingOwner? then OwnersOf(t.owners, id) + {op.target.value}
                      else OwnersOf(t.owners, id) - {op.target.value}
    {
      OwnersOfChanged(t, changed, op.target.value, id);
    }
  }

  /** A step either leaves a package's owners alone or is one of their number changing them. */
  lemma StepMovesOwners(t: Tables, op: Operation, id: PackageId)
    requires Consistent(t) && Admissible(op) && id in t.packages
    ensures OwnersOf(Next(t, op).owners, id) == OwnersOf(t.owners, id) || MovesOwners(t, op, id)
  {
    if Outcome(t, op).Ok? {
      if op.AddingOwner? || op.RemovingOwner? {
        OwnersMoveAsAsked(t, op);
      } else {
        OthersLeaveOwners(t, op);
      }
    }
  }

  lemma OthersLeaveOwners(t: Tables, op: Operation)
    requires Consistent(t) && Admissible(op) && Outcome(t, op).Ok?
    requires !op.AddingOwner? && !op.RemovingOwner?
    ensures OwnersUnmoved(t, Next(t, op))
  {
    match op {
      case Publishing(record, now) => RecordedKeeps(t, record, now);
      case Yanking(name, version, yanked, user, now) => YankedOwners(t, name, version, yanked, user, now);
      case CreatingScope(scope, member) => ScopeCreatedOwners(t, scope, member);
    }
  }

  lemma ScopeCreatedOwners(t: Tables, scope: string, member: Option<UserId>)
    requires ScopeCreated(t, scope, member).Ok?
    ensures ScopeCreated(t, scope, member).value.owners == t.owners
  {
  }

  lemma YankedOwners(t: Tables, name: Name, version: Version, yanked: bool, user: UserId, now: int)
    requires Yanked(t, name, version, yanked, user, now).Ok?
    ensures Yanked(t, name, version, yanked, user, now).value.owners == t.owners
  {
  }

  /** A user came to own a package by being made an owner by someone who was one. */
  ghost predicate MadeOwner(t: Tables, ops: seq<Operation>, id: PackageId, user: UserId, i: nat)
    requires i < |ops|
  {
    && ops[i].AddingOwner? && ops[i].target == Some(user)
    && ops[i].actor in OwnersOf(Run(t, ops[..i]).owners, id)
  }

  lemma MadeOwnerEarlier(t: Tables, ops: seq<Operation>, id: PackageId, user: UserId, i: nat)
    requires i < |ops| - 1 && MadeOwner(t, ops[..|ops| - 1], id, user, i)
    ensures MadeOwner(t, ops, id, user, i)
  {
    assert ops[..|ops| - 1][..i] == ops[..i];
  }

  lemma StepMadeOwner(t: Tables, op: Operation, id: PackageId, user: UserId)
    requires Consistent(t) && Admissible(op) && id in t.packages
    requires user in OwnersOf(Next(t, op).owners, id) && user !in OwnersOf(t.owners, id)
    ensures op.AddingOwner? && op.target == Some(user) && op.actor in OwnersOf(t.owners, id)
  {
    StepMovesOwners(t, op, id);
  }

  /** Over any run, whoever owns a package owned it at the start or was added by a then owner. */
  lemma {:induction false} OwnershipComesFromOwners(t: Tables, ops: seq<Operation>, id: PackageId, user: UserId)
    requires Consistent(t) && (forall op | op in ops :: Admissible(op)) && id in t.packages
    requires user in OwnersOf(Run(t, ops).owners, id)
    ensures user in OwnersOf(t.owners, id) || exists i: nat :: i < |ops| && MadeOwner(t, ops, id, user, i)
  {
    if ops != [] {
      var before, last := ops[..|ops| - 1], ops[|ops| - 1];
      EveryRunKeeps(t, before);
      if user in OwnersOf(Run(t, before).owners, id) {
        OwnershipComesFromOwners(t, before, id, user);
        if user !in OwnersOf(t.owners, id) {
          var i: nat :| i < |before| && MadeOwner(t, before, id, user, i);
          MadeOwnerEarlier(t, ops, id, user, i);
        }
      } else {
        StepMadeOwner(Run(t, before), last, id, user);
        assert MadeOwner(t, ops, id, user, |ops| - 1);
      }
    }
  }
}
