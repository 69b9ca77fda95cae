/** internal/index/index.go: the document a client resolves from, in an order that does not
    depend on the order the store returned its rows in, and the cache that holds it. */
module Index {
  import opened Wrappers
  import opened Versions
  import opened Requirements
  import opened PackageNames
  import opened Sorting

  type Digest = string

  datatype Realm = Shared | Client | Server

  datatype Dependency = Dependency(name: Name, requirement: Requirement, dev: bool)

  datatype PublishedVersion = PublishedVersion(
    version: Version, checksum: Digest, yanked: bool, realm: Realm, publishedAt: int, dependencies: seq<Dependency>)

  datatype Package = Package(name: Name, versions: seq<PublishedVersion>)

  // --- the rendered document ---

  datatype DependencyDocument = DependencyDocument(name: string, requirement: string, dev: bool)

  datatype VersionDocument = VersionDocument(
    version: string, checksum: Digest, yanked: bool, realm: Realm, publishedAt: int,
    dependencies: seq<DependencyDocument>)

  datatype Document = Document(name: string, versions: seq<VersionDocument>)

  function CompareVersions(left: PublishedVersion, right: PublishedVersion): int {
    left.version.Compare(right.version)
  }

  function CompareDependencies(left: Dependency, right: Dependency): int {
    left.name.Compare(right.name)
  }

  lemma VersionOrder()
    ensures Preorder(CompareVersions)
  {
    forall x, y, z
      ensures CompareVersions(x, y) == -CompareVersions(y, x)
      ensures CompareVersions(x, y) <= 0 && CompareVersions(y, z) <= 0 ==> CompareVersions(x, z) <= 0
    {
      CompareIsIdentity(x.version, y.version);
      if CompareVersions(x, y) <= 0 && CompareVersions(y, z) <= 0 {
        CompareTransitive(x.version, y.version, z.version);
      }
    }
  }

  lemma DependencyOrder()
    ensures Preorder(CompareDependencies)
  {
    forall x, y, z
      ensures CompareDependencies(x, y) == -CompareDependencies(y, x)
      ensures CompareDependencies(x, y) <= 0 && CompareDependencies(y, z) <= 0 ==> CompareDependencies(x, z) <= 0
    {
      CompareIsPreorder(x.name, y.name, z.name);
    }
  }

  ghost predicate RendersDependencies(ds: seq<DependencyDocument>, dependencies: seq<Dependency>) {
    && |ds| == |dependencies|
    && forall k | 0 <= k < |ds| ::
         ds[k] == DependencyDocument(
                    dependencies[k].name.String(), dependencies[k].requirement.String(), dependencies[k].dev)
  }

  /** d shows v's own fields, and its dependencies in some ascending order. */
  ghost predicate RendersVersion(d: VersionDocument, v: PublishedVersion) {
    && d.version == v.version.String() && d.checksum == v.checksum && d.yanked == v.yanked
    && d.realm == v.realm && d.publishedAt == v.publishedAt
    && exists sorted: seq<Dependency> ::
         Arranges(CompareDependencies, sorted, v.dependencies) && RendersDependencies(d.dependencies, sorted)
  }

  ghost predicate RendersVersions(ds: seq<VersionDocument>, versions: seq<PublishedVersion>) {
    |ds| == |versions| && forall k | 0 <= k < |ds| :: RendersVersion(ds[k], versions[k])
  }

  /** doc shows every version of pkg, in some ascending order. */
  ghost predicate Renders(doc: Document, pkg: Package) {
    && doc.name == pkg.name.String()
    && exists sorted: seq<PublishedVersion> ::
         Arranges(CompareVersions, sorted, pkg.versions) && RendersVersions(doc.versions, sorted)
  }

  method BuildVersion(v: PublishedVersion) returns (built: VersionDocument)
    ensures RendersVersion(built, v)
  {
    DependencyOrder();
    var dependencies := SortFunc(CompareDependencies, v.dependencies);
    var rendered: seq<DependencyDocument> := [];
    for k := 0 to |dependencies|
      invariant RendersDependencies(rendered, dependencies[..k])
    {
      var d := dependencies[k];
      rendered := rendered + [DependencyDocument(d.name.String(), d.requirement.String(), d.dev)];
    }
    assert dependencies[..|dependencies|] == dependencies;
    built := VersionDocument(v.version.String(), v.checksum, v.yanked, v.realm, v.publishedAt, rendered);
  }

  method RenderVersions(versions: seq<PublishedVersion>) returns (rendered: seq<VersionDocument>)
    ensures RendersVersions(rendered, versions)
  {
    rendered := [];
    for k := 0 to |versions|
      invariant RendersVersions(rendered, versions[..k])
    {
      var built := BuildVersion(versions[k]);
      rendered := rendered + [built];
    }
    assert versions[..|versions|] == versions;
  }

  method Build(pkg: Package) returns (doc: Document)
    ensures Renders(doc, pkg)
  {
    VersionOrder();
    var versions := SortFunc(CompareVersions, pkg.versions);
    var rendered := RenderVersions(versions);
    doc := Document(pkg.name.String(), rendered);
  }

  // --- one package, one document ---

  /** No two versions share an identity, and no version names a dependency twice. */
  ghost predicate DistinctRows(pkg: Package) {
    && Distinct(CompareVersions, pkg.versions)
    && forall v | v in pkg.versions :: Distinct(CompareDependencies, v.dependencies)
  }

  /** The same version, its dependency rows in any order. */
  ghost predicate SameRow(v: PublishedVersion, w: PublishedVersion) {
    w.(dependencies := v.dependencies) == v && multiset(v.dependencies) == multiset(w.dependencies)
  }

  /** The same package, its version rows in any order. */
  ghost predicate SameRows(p: Package, q: Package) {
    && p.name == q.name
    && (forall v | v in p.versions :: exists w | w in q.versions :: SameRow(v, w))
    && (forall w | w in q.versions :: exists v | v in p.versions :: SameRow(v, w))
  }

  lemma DependenciesRenderedOnce(v: PublishedVersion, w: PublishedVersion, d: VersionDocument, e: VersionDocument)
    requires SameRow(v, w) && Distinct(CompareDependencies, v.dependencies) &&
             Distinct(CompareDependencies, w.dependencies)
    requires RendersVersion(d, v) && RendersVersion(e, w)
    ensures d == e
  {
    var a: seq<Dependency> :| Arranges(CompareDependencies, a, v.dependencies) &&
      RendersDependencies(d.dependencies, a);
    var b: seq<Dependency> :| Arranges(CompareDependencies, b, w.dependencies) &&
      RendersDependencies(e.dependencies, b);
    DependencyOrder();
    ArrangementIsUnique(CompareDependencies, v.dependencies, w.dependencies, a, b);
    assert d.dependencies == e.dependencies;
  }

  /** Versions alone, for comparing two strictly ascending lists of rows. */
  function VersionsOf(rows: seq<PublishedVersion>): (vs: seq<Version>)
    ensures |vs| == |rows| && forall k | 0 <= k < |rows| :: vs[k] == rows[k].version
  {
    if rows == [] then [] else [rows[0].version] + VersionsOf(rows[1..])
  }

  function ComparePlain(v: Version, w: Version): int { v.Compare(w) }

  lemma PlainOrder()
    ensures Preorder(ComparePlain)
  {
    forall x, y, z
      ensures ComparePlain(x, y) == -ComparePlain(y, x)
      ensures ComparePlain(x, y) <= 0 && ComparePlain(y, z) <= 0 ==> ComparePlain(x, z) <= 0
    {
      CompareIsIdentity(x, y);
      if ComparePlain(x, y) <= 0 && ComparePlain(y, z) <= 0 {
        CompareTransitive(x, y, z);
      }
    }
  }

  /** Every row of a has its counterpart in b. */
  ghost predicate Matched(a: seq<PublishedVersion>, b: seq<PublishedVersion>) {
    forall v | v in a :: exists w | w in b :: SameRow(v, w)
  }

  lemma MatchedVersions(a: seq<PublishedVersion>, b: seq<PublishedVersion>, x: Version)
    requires Matched(a, b) && x in VersionsOf(a)
    ensures x in VersionsOf(b)
  {
    var i :| 0 <= i < |a| && a[i].version == x;
    assert a[i] in a;
    var w :| w in b && SameRow(a[i], w);
    var j :| 0 <= j < |b| && b[j] == w;
    assert VersionsOf(b)[j] == x;
  }

  /** Rows of the same package in strictly ascending order line up one with one. */
  lemma RowsLineUp(a: seq<PublishedVersion>, b: seq<PublishedVersion>)
    requires Strictly(CompareVersions, a) && Strictly(CompareVersions, b)
    requires Matched(a, b) && Matched(b, a)
    ensures |a| == |b| && forall k | 0 <= k < |a| :: SameRow(a[k], b[k])
  {
    PlainOrder();
    forall x ensures x in VersionsOf(a) <==> x in VersionsOf(b) {
      if x in VersionsOf(a) { MatchedVersions(a, b, x); }
      if x in VersionsOf(b) { MatchedVersions(b, a, x); }
    }
    AscendingPlain(a);
    AscendingPlain(b);
    StrictOrderIsUnique(ComparePlain, VersionsOf(a), VersionsOf(b));
    forall k | 0 <= k < |a| ensures SameRow(a[k], b[k]) {
      PartnerIsAligned(a, b, k);
    }
  }

  lemma AscendingPlain(a: seq<PublishedVersion>)
    requires Strictly(CompareVersions, a)
    ensures Strictly(ComparePlain, VersionsOf(a))
  {
    forall i, j | 0 <= i < j < |a| ensures ComparePlain(VersionsOf(a)[i], VersionsOf(a)[j]) < 0 {
      assert CompareVersions(a[i], a[j]) < 0;
    }
  }

  lemma PartnerIsAligned(a: seq<PublishedVersion>, b: seq<PublishedVersion>, k: nat)
    requires VersionsOf(a) == VersionsOf(b) && Strictly(CompareVersions, b)
    requires Matched(a, b) && k < |a|
    ensures |a| == |b| && SameRow(a[k], b[k])
  {
    assert a[k] in a;
    var w :| w in b && SameRow(a[k], w);
    var j :| 0 <= j < |b| && b[j] == w;
    assert VersionsOf(a)[k] == VersionsOf(b)[j] == VersionsOf(b)[k];
    CompareIsIdentity(w.version, w.version);
    assert CompareVersions(b[j], b[k]) == 0 && CompareVersions(b[k], b[j]) == 0;
  }

  lemma MatchedUnderPermutation(p: seq<PublishedVersion>, q: seq<PublishedVersion>, a: seq<PublishedVersion>,
      b: seq<PublishedVersion>)
    requires multiset(a) == multiset(p) && multiset(b) == multiset(q) && Matched(p, q)
    ensures Matched(a, b)
  {
    SameLength(a, p);
    SameLength(b, q);
  }

  lemma ArrangedRowsLineUp(p: Package, q: Package, a: seq<PublishedVersion>, b: seq<PublishedVersion>)
    requires DistinctRows(p) && DistinctRows(q) && SameRows(p, q)
    requires Arranges(CompareVersions, a, p.versions) && Arranges(CompareVersions, b, q.versions)
    ensures |a| == |b| && forall k | 0 <= k < |a| :: SameRow(a[k], b[k])
  {
    VersionOrder();
    DistinctIsStrict(CompareVersions, p.versions, a);
    DistinctIsStrict(CompareVersions, q.versions, b);
    MatchedUnderPermutation(p.versions, q.versions, a, b);
    SameRowMirrors(p.versions, q.versions);
    MatchedUnderPermutation(q.versions, p.versions, b, a);
    RowsLineUp(a, b);
  }

  lemma ArrangedRowsAreDistinct(p: Package, a: seq<PublishedVersion>, k: nat)
    requires DistinctRows(p) && Arranges(CompareVersions, a, p.versions) && k < |a|
    ensures Distinct(CompareDependencies, a[k].dependencies)
  {
    SameLength(a, p.versions);
    assert a[k] in p.versions;
  }

  /** Build answers one document for a package, whatever order its rows came back in. */
  lemma DocumentIsCanonical(p: Package, q: Package, d: Document, e: Document)
    requires DistinctRows(p) && DistinctRows(q) && SameRows(p, q)
    requires Renders(d, p) && Renders(e, q)
    ensures d == e
  {
    var a: seq<PublishedVersion> :| Arranges(CompareVersions, a, p.versions) && RendersVersions(d.versions, a);
    var b: seq<PublishedVersion> :| Arranges(CompareVersions, b, q.versions) && RendersVersions(e.versions, b);
    ArrangedRowsLineUp(p, q, a, b);
    forall k | 0 <= k < |a| ensures d.versions[k] == e.versions[k] {
      ArrangedRowsAreDistinct(p, a, k);
      ArrangedRowsAreDistinct(q, b, k);
      DependenciesRenderedOnce(a[k], b[k], d.versions[k], e.versions[k]);
    }
    assert d.versions == e.versions;
  }

  lemma SameRowMirrors(p: seq<PublishedVersion>, q: seq<PublishedVersion>)
    requires forall w | w in q :: exists v | v in p :: SameRow(v, w)
    ensures Matched(q, p)
  {
    forall w | w in q ensures exists v | v in p :: SameRow(w, v) {
      var v :| v in p && SameRow(v, w);
      assert SameRow(w, v);
    }
  }

  // --- choosing the last entry ---

  /** The document's entry is a version the requirement accepts. */
  ghost predicate Accepted(d: VersionDocument, r: Requirement) {
    VersionOf(d.version).Some? && r.Satisfies(VersionOf(d.version).value)
  }

  /** The last entry of the document a requirement accepts is the greatest version of the
      package it accepts, so choosing the last is choosing the maximum. */
  lemma LastAcceptedIsGreatest(doc: Document, pkg: Package, r: Requirement, k: nat, v: PublishedVersion)
    requires Renders(doc, pkg) && forall w | w in pkg.versions :: w.version.WellFormed()
    requires k < |doc.versions| && Accepted(doc.versions[k], r)
    requires forall j | k < j < |doc.versions| :: !Accepted(doc.versions[j], r)
    requires v in pkg.versions && r.Satisfies(v.version)
    ensures v.version.Compare(VersionOf(doc.versions[k].version).value) <= 0
  {
    var a: seq<PublishedVersion> :| Arranges(CompareVersions, a, pkg.versions) && RendersVersions(doc.versions, a);
    SameLength(a, pkg.versions);
    var j :| 0 <= j < |a| && a[j] == v;
    assert a[k] in pkg.versions;
    RenderedVersion(doc.versions[j], a[j]);
    RenderedVersion(doc.versions[k], a[k]);
    assert j <= k;
    CompareIsIdentity(v.version, v.version);
    assert j < k ==> CompareVersions(a[j], a[k]) <= 0;
  }

  lemma RenderedVersion(d: VersionDocument, v: PublishedVersion)
    requires RendersVersion(d, v) && v.version.WellFormed()
    ensures VersionOf(d.version) == Some(v.version)
  {
    VersionOfString(v.version);
  }
}
