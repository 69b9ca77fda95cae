/** Who moves a version's yanked mark, and what the reads show of it. */
module Marks {
  import opened Wrappers
  import opened Versions
  import opened PackageNames
  import opened Index
  import opened Tables
  import opened Registry
  import opened RegistryRuns
  import opened RegistryLaws
  import opened StoreReading
  import opened Snapshots

  // --- one step ---

  /** The yank of this version, by an owner of its package. */
  ghost predicate YanksRow(t: Tables, op: Operation, v: VersionId)
    requires v in t.versions
  {
    && op.Yanking? && Outcome(t, op).Ok?
    && t.versions[v].package in t.packages && t.packages[t.versions[v].package].normalized == op.name.Normalized()
    && HasIdentity(t.versions[v], t.versions[v].package, op.version)
    && op.user in OwnersOf(t.owners, t.versions[v].package)
  }

  lemma YankIsAnOwners(t: Tables, name: Name, version: Version, yanked: bool, user: UserId, now: int)
    requires Consistent(t) && Yanked(t, name, version, yanked, user, now).Ok?
    ensures user in OwnersOf(t.owners, PackageNamed(t.packages, name.Normalized()).value)
  {
    var found := PackageNamed(t.packages, name.Normalized());
    assert (found.value, user) in t.owners;
  }

  lemma YankStepMarks(t: Tables, op: Operation, v: VersionId)
    requires Consistent(t) && op.Yanking? && Outcome(t, op).Ok? && v in t.versions
    ensures var u := Next(t, op);
            && v in u.versions
            && u.versions[v].yanked == if YanksRow(t, op, v) then op.yanked else t.versions[v].yanked
  {
    var marked := YankMarks(t, op.name, op.version, op.yanked, op.user, op.now);
    OneIsMarked(t, op, v, marked);
    MarkedValue(t.versions, Next(t, op).versions, marked, v, op.yanked);
  }

  lemma MarkedValue(versions: map<VersionId, VersionRow>, after: map<VersionId, VersionRow>, marked: VersionId,
                    v: VersionId, yanked: bool)
    requires marked in versions && v in versions && after == versions[marked := versions[marked].(yanked := yanked)]
    ensures v in after && after[v].yanked == if v == marked then yanked else versions[v].yanked
  {
  }

  lemma YankMarks(t: Tables, name: Name, version: Version, yanked: bool, user: UserId, now: int)
      returns (marked: VersionId)
    requires Consistent(t) && Yanked(t, name, version, yanked, user, now).Ok?
    ensures marked in t.versions && HasIdentity(t.versions[marked], t.versions[marked].package, version)
    ensures PackageNamed(t.packages, name.Normalized()) == Some(t.versions[marked].package)
    ensures user in OwnersOf(t.owners, t.versions[marked].package)
    ensures Yanked(t, name, version, yanked, user, now).value.versions ==
            t.versions[marked := t.versions[marked].(yanked := yanked)]
  {
    marked := YankMarksOne(t, name, version, yanked, user, now);
    YankIsAnOwners(t, name, version, yanked, user, now);
  }

  lemma OneIsMarked(t: Tables, op: Operation, v: VersionId, marked: VersionId)
    requires VersionsKept(t.versions, t.packages.Keys) && PackagesKept(t.packages, t.scopes) &&
             op.Yanking? && Outcome(t, op).Ok? && v in t.versions && marked in t.versions
    requires HasIdentity(t.versions[marked], t.versions[marked].package, op.version)
    requires PackageNamed(t.packages, op.name.Normalized()) == Some(t.versions[marked].package)
    requires op.user in OwnersOf(t.owners, t.versions[marked].package)
    ensures YanksRow(t, op, v) <==> v == marked
  {
    if YanksRow(t, op, v) {
      assert SameIdentityRows(t.versions[v], t.versions[marked]);
    }
  }

  lemma RecordKeepsMarks(t: Tables, record: Record, now: int, v: VersionId)
    requires Consistent(t) && Sound(record) && Recorded(t, record, now).Ok? && v in t.versions
    ensures var u := Recorded(t, record, now).value; v in u.versions && u.versions[v] == t.versions[v]
  {
    var package, version := RecordedMeans(t, record, now);
  }

  /** A mark moves only by a yank of that version whose actor owns its package, and then to
      what the yank says. */
  lemma StepMarks(t: Tables, op: Operation, v: VersionId)
    requires Consistent(t) && Admissible(op) && v in t.versions
    ensures var u := Next(t, op);
            && v in u.versions
            && u.versions[v].yanked == if YanksRow(t, op, v) then op.yanked else t.versions[v].yanked
  {
    if Outcome(t, op).Ok? {
      if op.Yanking? {
        YankStepMarks(t, op, v);
      } else if op.Publishing? {
        RecordKeepsMarks(t, op.record, op.now, v);
      } else {
        OwnersAndScopesTouchNone(t, op);
      }
    }
  }

  // --- every run ---

  /** The committing yank of a version, by the package's key and the version's identity. */
  ghost predicate YanksAt(t: Tables, op: Operation, key: string, version: Version) {
    op.Yanking? && Outcome(t, op).Ok? && op.name.Normalized() == key && op.version.SameIdentity(version)
  }

  /** What the last committing yank of the version said. */
  ghost function LastYank(ops: seq<Operation>, key: string, version: Version): Option<bool> {
    if ops == [] then None
    else
      var before, last := ops[..|ops| - 1], ops[|ops| - 1];
      if YanksAt(Run(EMPTY, before), last, key, version) then Some(last.yanked) else LastYank(before, key, version)
  }

  function MarkOf(last: Option<bool>): bool { last == Some(true) }

  ghost predicate Held(t: Tables, key: string, version: Version) {
    exists v | v in t.versions :: IsHeldAs(t, v, key, version)
  }

  ghost predicate IsHeldAs(t: Tables, v: VersionId, key: string, version: Version) {
    && v in t.versions && t.versions[v].package in t.packages
    && t.packages[t.versions[v].package].normalized == key
    && HasIdentity(t.versions[v], t.versions[v].package, version)
  }

  lemma HeldOnce(t: Tables, v: VersionId, w: VersionId, key: string, version: Version)
    requires Consistent(t) && IsHeldAs(t, v, key, version) && IsHeldAs(t, w, key, version)
    ensures v == w
  {
    assert SameIdentityRows(t.versions[v], t.versions[w]);
  }

  lemma HeldLater(t: Tables, u: Tables, v: VersionId, key: string, version: Version)
    requires Extends(t, u) && IsHeldAs(t, v, key, version)
    ensures IsHeldAs(u, v, key, version)
  {
  }

  lemma YankedIsHeld(t: Tables, op: Operation, key: string, version: Version)
    requires Consistent(t) && YanksAt(t, op, key, version)
    ensures Held(t, key, version)
  {
    var v := YankMarksOne(t, op.name, op.version, op.yanked, op.user, op.now);
    assert IsHeldAs(t, v, key, version);
  }

  /** A version that was yanked is held ever after. */
  lemma {:induction false} YankedStaysHeld(ops: seq<Operation>, key: string, version: Version)
    requires (forall op | op in ops :: Admissible(op)) && LastYank(ops, key, version).Some?
    ensures Held(Run(EMPTY, ops), key, version)
  {
    var before, last := ops[..|ops| - 1], ops[|ops| - 1];
    var t := Run(EMPTY, before);
    EveryReachableStateIsConsistent(before);
    StepKeeps(t, last);
    if YanksAt(t, last, key, version) {
      YankedIsHeld(t, last, key, version);
    } else {
      YankedStaysHeld(before, key, version);
    }
    var v :| v in t.versions && IsHeldAs(t, v, key, version);
    HeldLater(t, Run(EMPTY, ops), v, key, version);
  }

  lemma NewRowIsUnyanked(t: Tables, op: Operation, v: VersionId)
    requires Consistent(t) && Admissible(op) && v !in t.versions && v in Next(t, op).versions
    ensures !Next(t, op).versions[v].yanked && op.Publishing?
  {
    if op.Publishing? && Outcome(t, op).Ok? {
      var package, version := RecordedMeans(t, op.record, op.now);
    } else {
      NoNewVersions(t, op);
    }
  }

  lemma YanksRowIsYanksAt(t: Tables, u: Tables, op: Operation, v: VersionId, key: string, version: Version)
    requires Consistent(t) && Extends(t, u) && v in t.versions && IsHeldAs(u, v, key, version)
    ensures YanksRow(t, op, v) <==> YanksAt(t, op, key, version)
  {
    assert IsHeldAs(t, v, key, version) by { assert t.versions[v].package in t.packages; }
    if YanksAt(t, op, key, version) {
      YankIsAnOwners(t, op.name, op.version, op.yanked, op.user, op.now);
      PackageFound(t, t.versions[v].package);
    }
  }

  lemma LastYankStep(ops: seq<Operation>, key: string, version: Version)
    requires ops != []
    ensures var before, last := ops[..|ops| - 1], ops[|ops| - 1];
            LastYank(ops, key, version) ==
            if YanksAt(Run(EMPTY, before), last, key, version) then Some(last.yanked)
            else LastYank(before, key, version)
  {
  }

  lemma StepFollowsYank(t: Tables, op: Operation, v: VersionId, key: string, version: Version, last: Option<bool>)
    requires Consistent(t) && Admissible(op) && v in t.versions && IsHeldAs(Next(t, op), v, key, version)
    requires t.versions[v].yanked == MarkOf(last)
    ensures Next(t, op).versions[v].yanked == MarkOf(if YanksAt(t, op, key, version) then Some(op.yanked) else last)
  {
    StepKeeps(t, op);
    StepMarks(t, op, v);
    YanksRowIsYanksAt(t, Next(t, op), op, v, key, version);
  }

  lemma HeldEarlier(t: Tables, u: Tables, v: VersionId, key: string, version: Version)
    requires Consistent(t) && Extends(t, u) && v in t.versions && IsHeldAs(u, v, key, version)
    ensures IsHeldAs(t, v, key, version)
  {
    assert t.versions[v].package in t.packages;
  }

  /** After any run a version is unyanked from its record on, until a committing yank of it;
      from then on it has the mark of the last one. */
  lemma {:induction false} MarkIsTheLastYanks(ops: seq<Operation>, v: VersionId, key: string, version: Version)
    requires forall op | op in ops :: Admissible(op)
    requires IsHeldAs(Run(EMPTY, ops), v, key, version)
    ensures Run(EMPTY, ops).versions[v].yanked == MarkOf(LastYank(ops, key, version))
  {
    var before, last := ops[..|ops| - 1], ops[|ops| - 1];
    var t := Run(EMPTY, before);
    EveryReachableStateIsConsistent(before);
    LastYankStep(ops, key, version);
    if v in t.versions {
      StepKeeps(t, last);
      HeldEarlier(t, Run(EMPTY, ops), v, key, version);
      MarkIsTheLastYanks(before, v, key, version);
      StepFollowsYank(t, last, v, key, version, LastYank(before, key, version));
    } else {
      NewRowIsUnyanked(t, last, v);
      NewIsNeverYanked(ops, v, key, version);
    }
  }

  lemma NewIsNotHeldBefore(t: Tables, op: Operation, v: VersionId, key: string, version: Version)
    requires Consistent(t) && Admissible(op) && v !in t.versions && IsHeldAs(Next(t, op), v, key, version)
    ensures !Held(t, key, version)
  {
    var u := Next(t, op);
    StepKeeps(t, op);
    if w :| w in t.versions && IsHeldAs(t, w, key, version) {
      HeldLater(t, u, w, key, version);
      HeldOnce(u, v, w, key, version);
    }
  }

  lemma NewIsNeverYanked(ops: seq<Operation>, v: VersionId, key: string, version: Version)
    requires ops != [] && forall op | op in ops :: Admissible(op)
    requires IsHeldAs(Run(EMPTY, ops), v, key, version)
    requires v !in Run(EMPTY, ops[..|ops| - 1]).versions && ops[|ops| - 1].Publishing?
    ensures LastYank(ops, key, version).None?
  {
    var before := ops[..|ops| - 1];
    EveryReachableStateIsConsistent(before);
    NewIsNotHeldBefore(Run(EMPTY, before), ops[|ops| - 1], v, key, version);
    LastYankStep(ops, key, version);
    if LastYank(before, key, version).Some? { YankedStaysHeld(before, key, version); }
  }

  // --- what the reads show ---

  /** After any run the package read shows each version with the mark of its last yank. */
  lemma MarksAreShown(ops: seq<Operation>, package: PackageId, pkg: Package, v: PublishedVersion)
    requires forall op | op in ops :: Admissible(op)
    requires package in Run(EMPTY, ops).packages && ShowsPackage(Run(EMPTY, ops), package, pkg) && v in pkg.versions
    ensures v.yanked == MarkOf(LastYank(ops, Run(EMPTY, ops).packages[package].normalized, v.version))
  {
    var t := Run(EMPTY, ops);
    EveryReachableStateIsConsistent(ops);
    var id := ShownRow(t, package, pkg.versions, v);
    MarkIsTheLastYanks(ops, id, t.packages[package].normalized, v.version);
  }

  lemma ShownRow(t: Tables, package: PackageId, versions: seq<PublishedVersion>, v: PublishedVersion)
      returns (id: VersionId)
    requires Consistent(t) && ShowsVersions(t, package, None, versions) && v in versions && package in t.packages
    ensures IsHeldAs(t, id, t.packages[package].normalized, v.version) && t.versions[id].package == package
    ensures v.yanked == t.versions[id].yanked && v.version == VersionIn(t.versions[id])
  {
    var ids, rows;
    id, ids, rows := ShownIsARow(t, package, versions, v);
  }

  /** So does the read of one version. */
  lemma MarkIsShown(ops: seq<Operation>, package: PackageId, version: Version, v: PublishedVersion)
    requires forall op | op in ops :: Admissible(op)
    requires package in Run(EMPTY, ops).packages && ShowsVersion(Run(EMPTY, ops), package, version, v)
    ensures v.yanked == MarkOf(LastYank(ops, Run(EMPTY, ops).packages[package].normalized, version))
  {
    var t := Run(EMPTY, ops);
    EveryReachableStateIsConsistent(ops);
    var id := ShownAloneRow(t, package, version, v);
    MarkIsTheLastYanks(ops, id, t.packages[package].normalized, version);
  }

  lemma ShownAloneRow(t: Tables, package: PackageId, version: Version, v: PublishedVersion) returns (id: VersionId)
    requires Consistent(t) && package in t.packages && ShowsVersion(t, package, version, v)
    ensures IsHeldAs(t, id, t.packages[package].normalized, version) && v.yanked == t.versions[id].yanked
  {
    var entries: seq<VersionEntry>, rows: seq<DependencyEntry> :|
      && ListsVersions(entries, t.versions, package, Some(version))
      && ListsDependencies(rows, t.dependencies, IdsIn(entries)) && Assembled([v], entries, rows);
    assert entries[0] in entries && [v][0] == VersionRead(entries[0].row, DependenciesRead(entries[0].id, rows));
    id := entries[0].id;
  }

  /** A yank is shown at once, on that version alone. */
  lemma YankIsShown(t: Tables, name: Name, version: Version, yanked: bool, user: UserId, now: int, id: PackageId,
                    before: Package, after: Package, v: PublishedVersion)
    requires Consistent(t) && Yanked(t, name, version, yanked, user, now).Ok?
    requires PackageNamed(t.packages, name.Normalized()) == Some(id) &&
             id in Yanked(t, name, version, yanked, user, now).value.packages
    requires ShowsPackage(t, id, before) && ShowsPackage(Yanked(t, name, version, yanked, user, now).value, id, after)
    requires v in after.versions
    ensures v.version.SameIdentity(version) ==> v.yanked == yanked
    ensures !v.version.SameIdentity(version) ==>
              exists w | w in before.versions :: w.version == v.version && w.yanked == v.yanked
  {
    var u := Yanked(t, name, version, yanked, user, now).value;
    var marked := YankMarks(t, name, version, yanked, user, now);
    YankedKeeps(t, name, version, yanked, user, now);
    var row := ShownRow(u, id, after.versions, v);
    if v.version.SameIdentity(version) {
      IdentityIsOne(t, marked, row, version);
    } else {
      var w, _, _ := ShowsEveryVersion(t, id, before.versions, row);
      assert w in before.versions && w.version == v.version && w.yanked == v.yanked;
    }
  }

  lemma IdentityIsOne(t: Tables, v: VersionId, w: VersionId, version: Version)
    requires Consistent(t) && v in t.versions && w in t.versions && t.versions[v].package == t.versions[w].package
    requires HasIdentity(t.versions[v], t.versions[v].package, version) &&
             HasIdentity(t.versions[w], t.versions[w].package, version)
    ensures v == w
  {
    assert SameIdentityRows(t.versions[v], t.versions[w]);
  }
}
