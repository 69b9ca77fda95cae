/** The document a client is served, against the records and yanks that were run: from the
    transactions of internal/db to what internal/index renders of them. */
module ServedDocuments {
  import opened Wrappers
  import opened Versions
  import opened Sorting
  import opened Index
  import opened Tables
  import opened Registry
  import opened RegistryRuns
  import opened Snapshots
  import opened Marks
  import opened Histories
  import opened Publishing

  // --- entries and versions ---

  /** Every entry renders a version of the package that was read. */
  lemma EntryIsAVersion(doc: Document, pkg: Package, k: nat) returns (v: PublishedVersion)
    requires Renders(doc, pkg) && k < |doc.versions|
    ensures v in pkg.versions && RendersVersion(doc.versions[k], v)
  {
    var sorted: seq<PublishedVersion> :|
      Arranges(CompareVersions, sorted, pkg.versions) && RendersVersions(doc.versions, sorted);
    SameLength(sorted, pkg.versions);
    v := sorted[k];
    assert v in sorted;
  }

  lemma VersionHasAnEntry(doc: Document, pkg: Package, v: PublishedVersion) returns (k: nat)
    requires Renders(doc, pkg) && v in pkg.versions
    ensures k < |doc.versions| && RendersVersion(doc.versions[k], v)
  {
    var sorted: seq<PublishedVersion> :|
      Arranges(CompareVersions, sorted, pkg.versions) && RendersVersions(doc.versions, sorted);
    SameLength(sorted, pkg.versions);
    k :| 0 <= k < |sorted| && sorted[k] == v;
  }

  /** The entry's dependencies are these, each by its name, its requirement and its flag. */
  ghost predicate ListsDeclared(listed: seq<DependencyDocument>, declared: seq<Dependency>) {
    && |listed| == |declared|
    && (forall d | d in declared :: DependencyDocument(d.name.String(), d.requirement.String(), d.dev) in listed)
    && (forall x | x in listed ::
          exists d | d in declared :: x == DependencyDocument(d.name.String(), d.requirement.String(), d.dev))
  }

  lemma EntryListsDeclared(d: VersionDocument, v: PublishedVersion, declared: seq<Dependency>)
    requires RendersVersion(d, v) && multiset(v.dependencies) == multiset(declared)
    ensures ListsDeclared(d.dependencies, declared)
  {
    var sorted: seq<Dependency> :|
      Arranges(CompareDependencies, sorted, v.dependencies) && RendersDependencies(d.dependencies, sorted);
    SameLength(sorted, declared);
    forall x | x in declared
      ensures DependencyDocument(x.name.String(), x.requirement.String(), x.dev) in d.dependencies
    {
      var i :| 0 <= i < |sorted| && sorted[i] == x;
      assert d.dependencies[i] == DependencyDocument(x.name.String(), x.requirement.String(), x.dev);
    }
    forall x | x in d.dependencies
      ensures exists y | y in declared :: x == DependencyDocument(y.name.String(), y.requirement.String(), y.dev)
    {
      var i :| 0 <= i < |d.dependencies| && d.dependencies[i] == x;
      assert sorted[i] in declared;
    }
  }

  // --- what is served ---

  /** The entry says what the record published. */
  ghost predicate EntryOf(d: VersionDocument, record: Record, now: int)
    requires record.package.Some?
  {
    && d.version == record.package.value.version.String() && d.checksum == record.checksum
    && d.realm == record.package.value.realm && d.publishedAt == now
    && ListsDeclared(d.dependencies, record.dependencies)
  }

  lemma EntryOfPublished(d: VersionDocument, v: PublishedVersion, record: Record, now: int)
    requires RendersVersion(d, v) && record.package.Some? && AsPublished(v, record, now)
    ensures EntryOf(d, record, now)
  {
    EntryListsDeclared(d, v, record.dependencies);
  }

  /** After any run, every entry of a package's document says what some record of the run
      published under that name, and carries the mark of the last yank of it. */
  lemma EntriesAreRecords(ops: seq<Operation>, id: PackageId, doc: Document, k: nat) returns (i: nat)
    requires AllAdmissible(ops) && id in Run(EMPTY, ops).packages && ShowsDocument(Run(EMPTY, ops), id, doc)
    requires k < |doc.versions|
    ensures i < |ops| && ops[i].Publishing? && Outcome(Run(EMPTY, ops[..i]), ops[i]).Ok?
    ensures ops[i].record.package.Some? && EntryOf(doc.versions[k], ops[i].record, ops[i].now)
    ensures var key := Run(EMPTY, ops).packages[id].normalized;
            && ops[i].record.package.value.name.Normalized() == key
            && doc.versions[k].yanked == MarkOf(LastYank(ops, key, ops[i].record.package.value.version))
  {
    var pkg: Package :| ShowsPackage(Run(EMPTY, ops), id, pkg) && Renders(doc, pkg);
    var v := EntryIsAVersion(doc, pkg, k);
    i := ShownWasPublished(ops, id, pkg, v);
    EntryOfPublished(doc.versions[k], v, ops[i].record, ops[i].now);
    MarksAreShown(ops, id, pkg, v);
  }

  /** And every record that committed has its entry. */
  lemma RecordsHaveEntries(ops: seq<Operation>, later: seq<Operation>, record: Record, now: int,
      id: PackageId, doc: Document)
    returns (k: nat)
    requires Consistent(Run(EMPTY, ops)) && Sound(record) && Recorded(Run(EMPTY, ops), record, now).Ok?
    requires AllAdmissible(later)
    requires var u := Run(Recorded(Run(EMPTY, ops), record, now).value, later);
             && PackageNamed(u.packages, record.package.value.name.Normalized()) == Some(id)
             && ShowsDocument(u, id, doc)
    ensures k < |doc.versions| && EntryOf(doc.versions[k], record, now)
  {
    var u := Run(Recorded(Run(EMPTY, ops), record, now).value, later);
    var pkg: Package :| ShowsPackage(u, id, pkg) && Renders(doc, pkg);
    var v := PublishedReadsBack(Run(EMPTY, ops), record, now, later, pkg);
    k := VersionHasAnEntry(doc, pkg, v);
    EntryOfPublished(doc.versions[k], v, record, now);
  }

  /** A document is headed by the package's name as it is stored, and its entries ascend. */
  lemma DocumentAscends(t: Tables, id: PackageId, doc: Document, j: nat, k: nat)
    requires Consistent(t) && id in t.packages && ShowsDocument(t, id, doc) && j < k < |doc.versions|
    ensures doc.name == StoredName(t.scopes, t.packages[id]).String()
    ensures VersionOf(doc.versions[j].version).Some? && VersionOf(doc.versions[k].version).Some?
    ensures VersionOf(doc.versions[j].version).value.Compare(VersionOf(doc.versions[k].version).value) == -1
  {
    var pkg: Package :| ShowsPackage(t, id, pkg) && Renders(doc, pkg);
    ShownVersionsAreDistinct(t, id, None, pkg.versions);
    RenderedAscends(doc, pkg, j, k);
  }

  lemma RenderedAscends(doc: Document, pkg: Package, j: nat, k: nat)
    requires Renders(doc, pkg) && j < k < |doc.versions| && Distinct(CompareVersions, pkg.versions)
    requires forall v | v in pkg.versions :: v.version.WellFormed()
    ensures VersionOf(doc.versions[j].version).Some? && VersionOf(doc.versions[k].version).Some?
    ensures VersionOf(doc.versions[j].version).value.Compare(VersionOf(doc.versions[k].version).value) == -1
  {
    var sorted: seq<PublishedVersion> :|
      Arranges(CompareVersions, sorted, pkg.versions) && RendersVersions(doc.versions, sorted);
    VersionOrder();
    SameLength(sorted, pkg.versions);
    DistinctIsStrict(CompareVersions, pkg.versions, sorted);
    assert sorted[j] in sorted && sorted[k] in sorted;
    RenderedVersion(doc.versions[j], sorted[j]);
    RenderedVersion(doc.versions[k], sorted[k]);
    assert CompareVersions(sorted[j], sorted[k]) < 0;
    CompareIsIdentity(sorted[j].version, sorted[k].version);
  }

  // --- what may be depended on ---

  /** After any run a dependency can be published against exactly when some version held under
      its name satisfies it and the last yank of that version, if any, put it back. */
  lemma OfferedAfterARun(ops: seq<Operation>, d: Dependency)
    requires AllAdmissible(ops)
    ensures Consistent(Run(EMPTY, ops))
    ensures Offered(Run(EMPTY, ops), d) <==> exists v | v in Run(EMPTY, ops).versions :: Standing(ops, v, d)
  {
    var t := Run(EMPTY, ops);
    EveryReachableStateIsConsistent(ops);
    forall v | v in t.versions ensures Standing(ops, v, d) <==> !t.versions[v].yanked && Accepts(t, v, d) {
      StandsWhenAccepted(ops, v, d);
    }
  }

  ghost predicate Standing(ops: seq<Operation>, v: VersionId, d: Dependency) {
    var t := Run(EMPTY, ops);
    && v in t.versions && HoldsAVersion(t.versions[v])
    && IsHeldAs(t, v, d.name.Normalized(), VersionIn(t.versions[v]))
    && d.requirement.Satisfies(VersionIn(t.versions[v]))
    && !MarkOf(LastYank(ops, d.name.Normalized(), VersionIn(t.versions[v])))
  }

  lemma StandsWhenAccepted(ops: seq<Operation>, v: VersionId, d: Dependency)
    requires AllAdmissible(ops) && Consistent(Run(EMPTY, ops)) && v in Run(EMPTY, ops).versions
    ensures Standing(ops, v, d) <==> !Run(EMPTY, ops).versions[v].yanked && Accepts(Run(EMPTY, ops), v, d)
  {
    var row := Run(EMPTY, ops).versions[v];
    if HoldsAVersion(row) && IsHeldAs(Run(EMPTY, ops), v, d.name.Normalized(), VersionIn(row)) {
      MarkIsTheLastYanks(ops, v, d.name.Normalized(), VersionIn(row));
    }
  }
}
