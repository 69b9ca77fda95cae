/** internal/publish/service.go with Unsatisfiable of internal/db/publish.go: an upload is
    checked, then its blob written, then its row. */
module Publishing {
  import opened Wrappers
  import opened Versions
  import opened Requirements
  import opened PackageNames
  import opened RequirementText
  import opened Sorting
  import opened Index
  import opened Storage
  import opened Tables
  import opened Registry
  import opened RegistryRuns
  import opened RegistryLaws
  import opened Outcomes
  import opened Snapshots
  import Manifests

  // --- dependencies nothing satisfies ---

  /** One row of the query for candidates; build metadata is not read. */
  datatype Candidate = Candidate(key: string, version: Version)

  ghost predicate Names(t: Tables, v: VersionId, key: string) {
    v in t.versions && t.versions[v].package in t.packages && t.packages[t.versions[v].package].normalized == key
  }

  ghost predicate Accepts(t: Tables, v: VersionId, d: Dependency) {
    Names(t, v, d.name.Normalized()) && HoldsAVersion(t.versions[v]) &&
    d.requirement.Satisfies(VersionIn(t.versions[v]))
  }

  /** Some unyanked version of the package satisfies the requirement. */
  ghost predicate Offered(t: Tables, d: Dependency) {
    exists v | v in t.versions && !t.versions[v].yanked :: Accepts(t, v, d)
  }

  /** Some version does, yanked or not. */
  ghost predicate Met(t: Tables, d: Dependency) {
    exists v | v in t.versions :: Accepts(t, v, d)
  }

  ghost function Unmet(t: Tables, dependencies: seq<Dependency>): seq<Dependency> {
    if dependencies == [] then []
    else
      var before, last := Unmet(t, dependencies[..|dependencies| - 1]), dependencies[|dependencies| - 1];
      if Offered(t, last) then before else before + [last]
  }

  lemma {:induction false} UnmetAreThoseNotOffered(t: Tables, dependencies: seq<Dependency>, d: Dependency)
    ensures d in Unmet(t, dependencies) <==> d in dependencies && !Offered(t, d)
  {
    if dependencies != [] {
      UnmetAreThoseNotOffered(t, dependencies[..|dependencies| - 1], d);
      assert dependencies == dependencies[..|dependencies| - 1] + [dependencies[|dependencies| - 1]];
    }
  }

  function Plain(v: Version): Version { v.(buildMetadata := "") }

  lemma BuildMetadataIsIgnored(r: Requirement, v: Version)
    ensures r.Satisfies(Plain(v)) <==> r.Satisfies(v)
  {
  }

  ghost predicate IsCandidate(t: Tables, v: VersionId, keys: set<string>, c: Candidate) {
    && Names(t, v, c.key) && c.key in keys && !t.versions[v].yanked
    && HoldsAVersion(t.versions[v]) && c.version == Plain(VersionIn(t.versions[v]))
  }

  /** What the query answers, in any order. */
  ghost predicate ListsCandidates(candidates: seq<Candidate>, t: Tables, keys: set<string>) {
    forall c :: c in candidates <==> exists v :: IsCandidate(t, v, keys, c)
  }

  function KeysOf(dependencies: seq<Dependency>): set<string> { set d | d in dependencies :: d.name.Normalized() }

  lemma OfferedIsListed(candidates: seq<Candidate>, t: Tables, keys: set<string>, v: VersionId, d: Dependency)
    requires ListsCandidates(candidates, t, keys) && d.name.Normalized() in keys
    requires Accepts(t, v, d) && !t.versions[v].yanked
    ensures exists c | c in candidates :: c.key == d.name.Normalized() && d.requirement.Satisfies(c.version)
  {
    var c := Candidate(d.name.Normalized(), Plain(VersionIn(t.versions[v])));
    BuildMetadataIsIgnored(d.requirement, VersionIn(t.versions[v]));
    assert IsCandidate(t, v, keys, c);
    assert c in candidates;
  }

  lemma ListedIsOffered(candidates: seq<Candidate>, t: Tables, keys: set<string>, c: Candidate, d: Dependency)
    requires ListsCandidates(candidates, t, keys)
    requires c in candidates && c.key == d.name.Normalized() && d.requirement.Satisfies(c.version)
    ensures Offered(t, d)
  {
    var v :| IsCandidate(t, v, keys, c);
    BuildMetadataIsIgnored(d.requirement, VersionIn(t.versions[v]));
    assert Accepts(t, v, d);
  }

  lemma OfferedIsACandidate(candidates: seq<Candidate>, t: Tables, keys: set<string>, d: Dependency)
    requires ListsCandidates(candidates, t, keys) && d.name.Normalized() in keys
    ensures Offered(t, d) <==>
              exists c | c in candidates :: c.key == d.name.Normalized() && d.requirement.Satisfies(c.version)
  {
    if Offered(t, d) {
      var v :| v in t.versions && !t.versions[v].yanked && Accepts(t, v, d);
      OfferedIsListed(candidates, t, keys, v, d);
    }
    if c :| c in candidates && c.key == d.name.Normalized() && d.requirement.Satisfies(c.version) {
      ListedIsOffered(candidates, t, keys, c, d);
    }
  }

  /** published groups the candidates by the package they are versions of. */
  ghost predicate Groups(published: map<string, seq<Version>>, candidates: seq<Candidate>) {
    forall key, version :: (key in published && version in published[key]) <==> Candidate(key, version) in candidates
  }

  method GroupCandidates(candidates: seq<Candidate>) returns (published: map<string, seq<Version>>)
    ensures Groups(published, candidates)
  {
    published := map[];
    for k := 0 to |candidates|
      invariant Groups(published, candidates[..k])
    {
      var c := candidates[k];
      var before := if c.key in published then published[c.key] else [];
      published := published[c.key := before + [c.version]];
      assert candidates[..k + 1] == candidates[..k] + [c];
    }
    assert candidates[..|candidates|] == candidates;
  }

  /** The dependencies no unyanked version satisfies, in the order they were given. */
  method FindUnsatisfiable(ghost t: Tables, candidates: seq<Candidate>, dependencies: seq<Dependency>)
      returns (missing: seq<Dependency>)
    requires ListsCandidates(candidates, t, KeysOf(dependencies))
    ensures missing == Unmet(t, dependencies)
  {
    var published := GroupCandidates(candidates);
    missing := [];
    for k := 0 to |dependencies|
      invariant missing == Unmet(t, dependencies[..k])
    {
      var d := dependencies[k];
      assert d in dependencies;
      OfferedIsACandidate(candidates, t, KeysOf(dependencies), d);
      var versions := if d.name.Normalized() in published then published[d.name.Normalized()] else [];
      GroupOffers(published, candidates, d);
      if !(exists version | version in versions :: d.requirement.Satisfies(version)) {
        missing := missing + [d];
      }
      assert dependencies[..k + 1][..k] == dependencies[..k];
    }
    assert dependencies[..|dependencies|] == dependencies;
  }

  lemma GroupOffers(published: map<string, seq<Version>>, candidates: seq<Candidate>, d: Dependency)
    requires Groups(published, candidates)
    ensures (exists c | c in candidates :: c.key == d.name.Normalized() && d.requirement.Satisfies(c.version)) <==>
            (d.name.Normalized() in published
             && exists version | version in published[d.name.Normalized()] :: d.requirement.Satisfies(version))
  {
    if c :| c in candidates && c.key == d.name.Normalized() && d.requirement.Satisfies(c.version) {
      assert Candidate(c.key, c.version) in candidates;
      assert c.version in published[c.key];
    }
    if d.name.Normalized() in published {
      forall version | version in published[d.name.Normalized()]
        ensures Candidate(d.name.Normalized(), version) in candidates
      {
      }
    }
  }

  ghost predicate ListedBelow(candidates: seq<Candidate>, t: Tables, keys: set<string>, limit: nat) {
    forall c :: c in candidates <==> exists v: VersionId :: v < limit && IsCandidate(t, v, keys, c)
  }

  lemma ListedOneMore(candidates: seq<Candidate>, t: Tables, keys: set<string>, v: VersionId, c: Candidate)
    requires ListedBelow(candidates, t, keys, v) && IsCandidate(t, v, keys, c)
    ensures ListedBelow(candidates + [c], t, keys, v + 1)
  {
    forall b ensures b in candidates + [c] <==> exists w: VersionId :: w < v + 1 && IsCandidate(t, w, keys, b) {
      if w: VersionId :| w < v + 1 && IsCandidate(t, w, keys, b) && w == v {
        assert b == c;
      }
    }
  }

  lemma ListedNoMore(candidates: seq<Candidate>, t: Tables, keys: set<string>, v: VersionId)
    requires ListedBelow(candidates, t, keys, v) && forall c :: !IsCandidate(t, v, keys, c)
    ensures ListedBelow(candidates, t, keys, v + 1)
  {
  }

  lemma ListedAll(candidates: seq<Candidate>, t: Tables, keys: set<string>)
    requires Consistent(t) && ListedBelow(candidates, t, keys, t.nextId)
    ensures ListsCandidates(candidates, t, keys)
  {
    forall c ensures c in candidates <==> exists v :: IsCandidate(t, v, keys, c) {
      if v :| IsCandidate(t, v, keys, c) {
        assert v in t.versions.Keys;
      }
    }
  }

  method QueryCandidates(t: Tables, keys: set<string>) returns (candidates: seq<Candidate>)
    requires Consistent(t)
    ensures ListsCandidates(candidates, t, keys)
  {
    candidates := [];
    for v := 0 to t.nextId
      invariant ListedBelow(candidates, t, keys, v)
    {
      var c := CandidateAt(t, v, keys);
      if c.Some? {
        ListedOneMore(candidates, t, keys, v, c.value);
        candidates := candidates + [c.value];
      } else {
        ListedNoMore(candidates, t, keys, v);
      }
    }
    ListedAll(candidates, t, keys);
  }

  function CandidateAt(t: Tables, v: VersionId, keys: set<string>): (c: Option<Candidate>)
    requires Consistent(t)
    ensures c.Some? ==> IsCandidate(t, v, keys, c.value)
    ensures c.None? ==> forall b :: !IsCandidate(t, v, keys, b)
  {
    if v !in t.versions || t.versions[v].yanked then None
    else
      var row := t.versions[v];
      assert row.package in t.packages.Keys && HoldsAVersion(row);
      var key := t.packages[row.package].normalized;
      if key in keys then Some(Candidate(key, Plain(VersionIn(row)))) else None
  }

  // --- dependencies once met ---

  /** What a version was published against may be yanked later but is never withdrawn. */
  lemma OfferedStaysMet(t: Tables, d: Dependency, ops: seq<Operation>)
    requires Consistent(t) && Offered(t, d) && forall op | op in ops :: Admissible(op)
    ensures Met(Run(t, ops), d)
  {
    var u := Run(t, ops);
    EveryRunKeeps(t, ops);
    var v :| v in t.versions && !t.versions[v].yanked && Accepts(t, v, d);
    StillAccepts(t, u, v, d);
  }

  lemma StillAccepts(t: Tables, u: Tables, v: VersionId, d: Dependency)
    requires Extends(t, u) && Accepts(t, v, d)
    ensures Accepts(u, v, d)
  {
    assert VersionIn(u.versions[v]) == VersionIn(t.versions[v]);
  }

  // --- publishing ---

  datatype Manifest = Manifest(package: Option<Published>, dependencies: seq<Dependency>)

  datatype Refusal = Invalid | Unresolvable(missing: seq<Dependency>) | NotRecorded(failure: Failure)

  /** Development dependencies are no part of compiling a package for anyone else. */
  function Required(dependencies: seq<Dependency>): (r: seq<Dependency>)
    ensures forall d :: d in r <==> d in dependencies && !d.dev
  {
    if dependencies == [] then []
    else
      var before, last := Required(dependencies[..|dependencies| - 1]), dependencies[|dependencies| - 1];
      assert dependencies == dependencies[..|dependencies| - 1] + [last];
      if last.dev then before else before + [last]
  }

  /** Something is unmet exactly when a dependency for use is not offered. */
  lemma UnmetExactlyWhen(t: Tables, dependencies: seq<Dependency>)
    ensures Unmet(t, Required(dependencies)) != [] <==> exists d | d in dependencies :: !d.dev && !Offered(t, d)
  {
    var unmet := Unmet(t, Required(dependencies));
    forall d ensures d in unmet <==> d in dependencies && !d.dev && !Offered(t, d) {
      UnmetAreThoseNotOffered(t, Required(dependencies), d);
    }
    assert unmet != [] ==> unmet[0] in unmet;
  }

  function RecordOf(manifest: Manifest, checksum: Digest, size: nat, publisher: UserId): Record {
    Registry.Record(manifest.package, manifest.dependencies, checksum, size, publisher)
  }

  /** Every recorded version has its content. */
  ghost predicate Installable(versions: map<VersionId, VersionRow>, blobs: map<Digest, Blob>) {
    forall v | v in versions :: versions[v].checksum in blobs
  }

  /** after holds one version more than before: what the manifest names and says, for this
      content, by this publisher, who owns its package, with the manifest's dependencies. */
  ghost predicate Publishes(before: Tables, after: Tables, manifest: Manifest, checksum: Digest, size: nat,
                            publisher: UserId, now: int) {
    manifest.package.Some? &&
    exists package, id :: PublishesAt(before, after, manifest, checksum, size, publisher, now, package, id)
  }

  ghost predicate PublishesAt(before: Tables, after: Tables, manifest: Manifest, checksum: Digest, size: nat,
                              publisher: UserId, now: int, package: PackageId, id: VersionId)
    requires manifest.package.Some?
  {
    var published := manifest.package.value;
    && package in after.packages && after.packages[package].normalized == published.name.Normalized()
    && publisher in OwnersOf(after.owners, package)
    && id !in before.versions && after.versions.Keys == before.versions.Keys + {id}
    && RowPublishes(after.versions[id], package, published, checksum, size, publisher, now)
    && DependsOn(after.dependencies, id, manifest.dependencies)
  }

  ghost predicate RowPublishes(row: VersionRow, package: PackageId, published: Published, checksum: Digest, size: nat,
                               publisher: UserId, now: int) {
    && row.package == package && HoldsAVersion(row) && VersionIn(row) == published.version
    && row.realm == published.realm && row.checksum == checksum && row.details.size == size
    && row.publishedBy == publisher && row.publishedAt == now && !row.yanked
  }

  lemma RecordPublishes(t: Tables, manifest: Manifest, checksum: Digest, size: nat, publisher: UserId, now: int)
    requires Consistent(t) && Sound(RecordOf(manifest, checksum, size, publisher))
    requires Recorded(t, RecordOf(manifest, checksum, size, publisher), now).Ok?
    ensures Publishes(t, Recorded(t, RecordOf(manifest, checksum, size, publisher), now).value, manifest,
                      checksum, size, publisher, now)
  {
    var record := RecordOf(manifest, checksum, size, publisher);
    var package, id := RecordLeaves(t, record, now);
    LeavesPublishes(t, Recorded(t, record, now).value, record, manifest, now, package, id);
  }

  lemma LeavesPublishes(t: Tables, u: Tables, record: Record, manifest: Manifest, now: int,
      package: PackageId, id: VersionId)
    requires record.package.Some? && Leaves(t, u, record, now, package, id)
    requires record.package == manifest.package && record.dependencies == manifest.dependencies
    ensures PublishesAt(t, u, manifest, record.checksum, record.size, record.publisher, now, package, id)
  {
    assert u.versions.Keys == t.versions.Keys + {id};
  }

  /** What was published is what the package read shows. */
  lemma PublishedIsShown(before: Tables, after: Tables, manifest: Manifest, checksum: Digest, size: nat,
                         publisher: UserId, now: int, package: PackageId, id: VersionId, pkg: Package)
    returns (v: PublishedVersion)
    requires Consistent(after) && manifest.package.Some?
    requires forall d | d in manifest.dependencies :: d.name.WellFormed() && Faithful(d.requirement)
    requires PublishesAt(before, after, manifest, checksum, size, publisher, now, package, id)
    requires ShowsPackage(after, package, pkg)
    ensures v in pkg.versions && v.version == manifest.package.value.version && v.checksum == checksum
    ensures v.realm == manifest.package.value.realm && v.publishedAt == now && !v.yanked
    ensures multiset(v.dependencies) == multiset(manifest.dependencies)
  {
    var shown, ids, rows := ShowsEveryVersion(after, package, pkg.versions, id);
    DependenciesReadBack(after, ids, rows, id, manifest.dependencies);
    v := shown;
  }

  class Service {
    const store: Store
    const blobs: Filesystem

    /** Unpacking and parsing an upload, of which only what it promises matters here. */
    const read: Content -> Option<Manifest>

    constructor (store: Store, blobs: Filesystem, read: Content -> Option<Manifest>)
      ensures this.store == store && this.blobs == blobs && this.read == read
    {
      this.store := store;
      this.blobs := blobs;
      this.read := read;
    }

    ghost predicate Valid()
      reads this, store, blobs
    {
      && store.Valid() && blobs.Valid()
      && forall content, publisher :: read(content).Some? ==>
           Sound(RecordOf(read(content).value, blobs.digestOf(content), |content|, publisher))
    }

    method Resolvable(dependencies: seq<Dependency>) returns (missing: seq<Dependency>)
      requires Valid()
      ensures missing == Unmet(store.tables, Required(dependencies))
    {
      var required: seq<Dependency> := [];
      for k := 0 to |dependencies|
        invariant required == Required(dependencies[..k])
      {
        assert dependencies[..k + 1][..k] == dependencies[..k];
        if !dependencies[k].dev {
          required := required + [dependencies[k]];
        }
      }
      assert dependencies[..|dependencies|] == dependencies;
      if |required| == 0 {
        return [];
      }
      var candidates := QueryCandidates(store.tables, KeysOf(required));
      missing := FindUnsatisfiable(store.tables, candidates, required);
    }

    /** An upload that is refused leaves the tables as they were; one that was checked leaves
        its blob even when its row is refused. */
    method Publish(content: Content, publisher: UserId, now: int) returns (refused: Option<Refusal>)
      requires Valid()
      modifies store, blobs
      ensures store.Valid() && blobs.Valid()
      ensures old(Installable(store.tables.versions, blobs.blobs)) ==> Installable(store.tables.versions, blobs.blobs)
      ensures match read(content)
              case None =>
                refused == Some(Invalid) && store.tables == old(store.tables) && blobs.blobs == old(blobs.blobs)
              case Some(manifest) =>
                var missing := Unmet(old(store.tables), Required(manifest.dependencies));
                if missing != [] then
                  refused == Some(Unresolvable(missing)) && store.tables == old(store.tables) &&
                  blobs.blobs == old(blobs.blobs)
                else
                  var digest := blobs.digestOf(content);
                  && blobs.blobs == (if digest in old(blobs.blobs) then old(blobs.blobs)
                                     else old(blobs.blobs)[digest := Blob(content, now)])
                  && match Recorded(old(store.tables), RecordOf(manifest, digest, |content|, publisher), now)
                     case Err(e) => refused == Some(NotRecorded(e)) && store.tables == old(store.tables)
                     case Ok(u) => refused == None && store.tables == u
      ensures read(content).Some? ==>
                (refused.Some? && refused.value.Unresolvable? <==>
                 exists d | d in read(content).value.dependencies :: !d.dev && !Offered(old(store.tables), d))
      ensures refused == None ==>
                && read(content).Some?
                && Publishes(old(store.tables), store.tables, read(content).value,
                             blobs.digestOf(content), |content|, publisher, now)
    {
      var payload := read(content);
      if payload.None? {
        return Some(Invalid);
      }
      var manifest := payload.value;
      var missing := Resolvable(manifest.dependencies);
      UnmetExactlyWhen(store.tables, manifest.dependencies);
      if |missing| != 0 {
        return Some(Unresolvable(missing));
      }
      var digest := blobs.Put(content, now);
      var record := RecordOf(manifest, digest, |content|, publisher);
      ghost var before := store.tables;
      var failure := store.Record(record, now);
      RecordingKeepsInstallable(before, record, now, blobs.blobs);
      if failure.None? { RecordPublishes(before, manifest, digest, |content|, publisher, now); }
      if failure.Some? {
        return Some(NotRecorded(failure.value));
      }
      refused := None;
    }
  }

  /** The blob is there before the row that names it. */
  lemma RecordingKeepsInstallable(t: Tables, record: Record, now: int, blobs: map<Digest, Blob>)
    requires Consistent(t) && Sound(record) && record.checksum in blobs
    ensures Recorded(t, record, now).Ok? ==> Consistent(Recorded(t, record, now).value)
    ensures Recorded(t, record, now).Ok? && Installable(t.versions, blobs) ==>
              Installable(Recorded(t, record, now).value.versions, blobs)
  {
    if Recorded(t, record, now).Ok? {
      RecordedKeeps(t, record, now);
      var _, _ := RecordedMeans(t, record, now);
    }
  }

  // --- from a dependency table to a record ---

  lemma DeclaredIsFaithful(specifier: string, entry: Manifests.Entry)
    requires Manifests.Declared(specifier, entry).Some?
    ensures var d := Manifests.Declared(specifier, entry).value; d.name.WellFormed() && Faithful(d.requirement)
  {
    Manifests.DeclaredName(specifier, entry);
    match entry
    case Statement(text) => ParsedIsFaithful(text);
    case Table(fields) => ParsedIsFaithful(fields["version"].text);
  }

  /** What is read from a dependency table is what a record needs: names and requirements that
      read back, and no package twice. */
  lemma ReadListIsRecordable(entries: map<string, Manifests.Entry>, list: seq<Dependency>)
    requires Manifests.Holds(Manifests.DeclarationsOf(entries), entries.Keys, list)
    requires Strictly(CompareDependencies, list)
    ensures NamesDiffer(list)
    ensures forall d | d in list :: d.name.WellFormed() && Faithful(d.requirement)
  {
    forall i, j | 0 <= i < j < |list| ensures list[i].name.Normalized() != list[j].name.Normalized() {
      Manifests.NoNameTwice(entries, list, i, j);
    }
    forall d | d in list ensures d.name.WellFormed() && Faithful(d.requirement) {
      var s :| s in entries.Keys && Manifests.DeclarationsOf(entries)[s] == Some(d);
      DeclaredIsFaithful(s, entries[s]);
    }
  }

  lemma CreationFindsItsScope(t: Tables, name: Name, publisher: UserId, now: int)
    ensures Claimed(t, name, publisher, now) != Err(Rejected)
  {
  }

  lemma RejectedSomewhere(t: Tables, record: Record, now: int)
    requires record.package.Some? && Recorded(t, record, now) == Err(Rejected)
    requires Claimed(t, record.package.value.name, record.publisher, now).Ok?
    ensures var claim := Claimed(t, record.package.value.name, record.publisher, now).value;
            var inserted := Inserted(claim.tables, claim.id, record.package.value, record, now);
            || inserted == Err(Rejected)
            || (inserted.Ok? && Depending(inserted.value.tables, inserted.value.id, record.dependencies).Err?)
  {
  }

  lemma InsertionIsNotRejected(t: Tables, package: PackageId, published: Published, record: Record, now: int)
    requires published.version.WellFormed() && record.size > 0
    ensures Inserted(t, package, published, record, now) != Err(Rejected)
  {
  }

  /** A record of dependencies read from a table is never refused but for a reason the
      publisher is told: none is a failure of the schema. */
  lemma ReadRecordIsNeverRejected(t: Tables, entries: map<string, Manifests.Entry>, record: Record, now: int)
    requires Consistent(t) && record.size > 0
    requires Manifests.Holds(Manifests.DeclarationsOf(entries), entries.Keys, record.dependencies)
    requires Strictly(CompareDependencies, record.dependencies)
    requires record.package.Some? ==>
               record.package.value.name.WellFormed() && record.package.value.version.WellFormed()
    ensures Sound(record) && Recorded(t, record, now) != Err(Rejected)
  {
    ReadListIsRecordable(entries, record.dependencies);
    if record.package.Some? {
      var published := record.package.value;
      CreationFindsItsScope(t, published.name, record.publisher, now);
      if Recorded(t, record, now) == Err(Rejected) && Claimed(t, published.name, record.publisher, now).Ok? {
        RejectionIsRefuted(t, published, record, now);
      }
    }
  }

  lemma RejectionIsRefuted(t: Tables, published: Published, record: Record, now: int)
    requires Consistent(t) && Sound(record) && record.package == Some(published) && NamesDiffer(record.dependencies)
    requires Claimed(t, published.name, record.publisher, now).Ok?
    ensures Recorded(t, record, now) != Err(Rejected)
  {
    var claim := Claimed(t, published.name, record.publisher, now).value;
    ClaimedKeeps(t, published.name, record.publisher, now);
    WritesExactlyWhen(claim.tables, claim.id, published, record, now);
    InsertionIsNotRejected(claim.tables, claim.id, published, record, now);
    if Recorded(t, record, now) == Err(Rejected) { RejectedSomewhere(t, record, now); }
  }
}
