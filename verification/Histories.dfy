/** The states a package goes through in a run of the registry's transactions, as the index
    serves them: what internal/db commits is what internal/api interleaves its requests with. */
module Histories {
  import opened Wrappers
  import opened Versions
  import opened PackageNames
  import opened Sorting
  import opened Index
  import opened Tables
  import opened Registry
  import opened RegistryRuns
  import opened RegistryLaws
  import opened StoreReading
  import opened Snapshots
  import Serving

  // --- which transactions change a package ---

  /** A record or a yank that names the package. */
  predicate Aims(op: Operation, key: string) {
    match op
    case Publishing(record, _) => record.package.Some? && record.package.value.name.Normalized() == key
    case Yanking(name, _, _, _, _) => name.Normalized() == key
    case _ => false
  }

  ghost predicate Changes(t: Tables, op: Operation, key: string) {
    Outcome(t, op).Ok? && Aims(op, key)
  }

  /** What is new or different in u belongs to packages of other names. */
  ghost predicate TouchesOthers(t: Tables, u: Tables, key: string) {
    && (forall p | p in u.packages && (p !in t.packages || u.packages[p] != t.packages[p]) ::
          u.packages[p].normalized != key)
    && (forall v | v in u.versions && (v !in t.versions || u.versions[v] != t.versions[v]) ::
          u.versions[v].package in u.packages && u.packages[u.versions[v].package].normalized != key)
  }

  lemma OneTouched(t: Tables, u: Tables, p: PackageId, v: VersionId, key: string)
    requires p in u.packages && u.packages == t.packages[p := u.packages[p]] && u.packages[p].normalized != key
    requires v in u.versions && u.versions == t.versions[v := u.versions[v]] && u.versions[v].package == p
    ensures TouchesOthers(t, u, key)
  {
  }

  lemma NoneTouched(t: Tables, u: Tables, key: string)
    requires u.packages == t.packages && u.versions == t.versions
    ensures TouchesOthers(t, u, key)
  {
  }

  lemma RecordTouchesOthers(t: Tables, record: Record, now: int, key: string)
    requires Consistent(t) && Sound(record) && Recorded(t, record, now).Ok?
    requires record.package.value.name.Normalized() != key
    ensures TouchesOthers(t, Recorded(t, record, now).value, key)
  {
    var package, version := RecordedMeans(t, record, now);
    OneTouched(t, Recorded(t, record, now).value, package, version, key);
  }

  lemma YankTouchesOthers(t: Tables, name: Name, version: Version, yanked: bool, user: UserId, now: int, key: string)
    requires Consistent(t) && Yanked(t, name, version, yanked, user, now).Ok? && name.Normalized() != key
    ensures TouchesOthers(t, Yanked(t, name, version, yanked, user, now).value, key)
  {
    var v := YankMarksOne(t, name, version, yanked, user, now);
    OneTouched(t, Yanked(t, name, version, yanked, user, now).value, t.versions[v].package, v, key);
  }

  lemma OthersTouchOthers(t: Tables, op: Operation, key: string)
    requires Consistent(t) && Admissible(op) && !Changes(t, op, key)
    ensures TouchesOthers(t, Next(t, op), key)
  {
    if Outcome(t, op).Err? {
      NoneTouched(t, t, key);
    } else if op.Publishing? {
      RecordTouchesOthers(t, op.record, op.now, key);
    } else if op.Yanking? {
      YankTouchesOthers(t, op.name, op.version, op.yanked, op.user, op.now, key);
    } else {
      OwnersAndScopesTouchNone(t, op);
      NoneTouched(t, Next(t, op), key);
    }
  }

  // --- a package left alone shows what it showed ---

  ghost predicate SameRowsOf(t: Tables, u: Tables, id: PackageId) {
    && (forall v :: (v in u.versions && u.versions[v].package == id) <==>
         (v in t.versions && t.versions[v].package == id))
    && (forall v | v in t.versions && t.versions[v].package == id :: v in u.versions && u.versions[v] == t.versions[v])
    && (forall k | k in t.dependencies && k.0 in t.versions && t.versions[k.0].package == id ::
          k in u.dependencies && u.dependencies[k] == t.dependencies[k])
    && (forall k | k in u.dependencies && k.0 in t.versions && t.versions[k.0].package == id :: k in t.dependencies)
  }

  lemma LeftAlone(t: Tables, u: Tables, key: string)
    requires Consistent(t) && Consistent(u) && Extends(t, u) && TouchesOthers(t, u, key)
    ensures PackageNamed(u.packages, key) == PackageNamed(t.packages, key)
    ensures var found := PackageNamed(t.packages, key);
            found.Some? ==> u.packages[found.value] == t.packages[found.value] && SameRowsOf(t, u, found.value)
  {
    var found := PackageNamed(t.packages, key);
    if found.Some? {
      PackageFound(u, found.value);
      RowsLeftAlone(t, u, found.value);
    }
  }

  lemma RowsLeftAlone(t: Tables, u: Tables, id: PackageId)
    requires id in t.packages && Extends(t, u) && id in u.packages
    requires TouchesOthers(t, u, u.packages[id].normalized)
    ensures SameRowsOf(t, u, id)
  {
  }

  lemma VersionsStillListed(t: Tables, u: Tables, id: PackageId, entries: seq<VersionEntry>, rows: seq<DependencyEntry>)
    requires SameRowsOf(t, u, id) && ListsVersions(entries, t.versions, id, None)
    requires ListsDependencies(rows, t.dependencies, IdsIn(entries))
    ensures ListsVersions(entries, u.versions, id, None)
    ensures ListsDependencies(rows, u.dependencies, IdsIn(entries))
  {
    assert forall v | v in IdsIn(entries) :: v in t.versions && t.versions[v].package == id;
  }

  lemma StillShown(t: Tables, u: Tables, id: PackageId, pkg: Package)
    requires Consistent(t) && Extends(t, u) && id in t.packages && SameRowsOf(t, u, id) && ShowsPackage(t, id, pkg)
    ensures id in u.packages && ShowsPackage(u, id, pkg)
  {
    var entries: seq<VersionEntry>, rows: seq<DependencyEntry> :|
      && ListsVersions(entries, t.versions, id, None)
      && ListsDependencies(rows, t.dependencies, IdsIn(entries)) && Assembled(pkg.versions, entries, rows);
    VersionsStillListed(t, u, id, entries, rows);
    assert Rebuilds(t.scopes, t.packages[id]);
  }

  // --- every package shows a document ---

  lemma {:induction false} Enumerated<T>(s: set<T>) returns (order: seq<T>)
    ensures forall x :: x in order <==> x in s
    ensures forall i, j | 0 <= i < j < |order| :: order[i] != order[j]
  {
    if s == {} {
      order := [];
    } else {
      var x :| x in s;
      var rest := Enumerated(s - {x});
      order := [x] + rest;
      assert forall i | 0 < i < |order| :: order[i] == rest[i - 1] && order[i] in rest;
    }
  }

  lemma VersionsCanBeListed(versions: map<VersionId, VersionRow>, id: PackageId) returns (entries: seq<VersionEntry>)
    ensures ListsVersions(entries, versions, id, None)
  {
    var ids := set v | v in versions && versions[v].package == id;
    var order := Enumerated(ids);
    entries := seq(|order|, i requires 0 <= i < |order| =>
                     assert order[i] in order; VersionEntry(order[i], versions[order[i]]));
    forall e | e in entries ensures e.id in versions && versions[e.id] == e.row && Selected(e.row, id, None) {
      assert e.id in order;
    }
    forall v | v in versions && Selected(versions[v], id, None) ensures VersionEntry(v, versions[v]) in entries {
      assert v in order;
      var i :| 0 <= i < |order| && order[i] == v;
      assert entries[i] == VersionEntry(v, versions[v]);
    }
  }

  lemma DependenciesCanBeListed(dependencies: map<(VersionId, string), DependencyRow>, ids: set<VersionId>)
    returns (rows: seq<DependencyEntry>)
    requires forall k | k in dependencies :: dependencies[k].normalized == k.1
    ensures ListsDependencies(rows, dependencies, ids)
  {
    var keys := set k | k in dependencies && k.0 in ids;
    var order := Enumerated(keys);
    rows := seq(|order|, i requires 0 <= i < |order| =>
                  assert order[i] in order; DependencyEntry(order[i].0, dependencies[order[i]]));
    forall i | 0 <= i < |rows|
      ensures rows[i].version in ids && (rows[i].version, rows[i].row.normalized) == order[i] &&
              order[i] in dependencies
    {
      assert order[i] in order;
    }
    forall k | k in dependencies && k.0 in ids ensures DependencyEntry(k.0, dependencies[k]) in rows {
      assert k in order;
      var i :| 0 <= i < |order| && order[i] == k;
      assert rows[i] == DependencyEntry(k.0, dependencies[k]);
    }
  }

  lemma CanBeShown(t: Tables, id: PackageId) returns (pkg: Package)
    requires Consistent(t) && id in t.packages
    ensures ShowsPackage(t, id, pkg)
  {
    var entries := VersionsCanBeListed(t.versions, id);
    var rows := DependenciesCanBeListed(t.dependencies, IdsIn(entries));
    EntriesHoldVersions(t, entries, id, None);
    var versions := seq(|entries|, i requires 0 <= i < |entries| =>
                          assert entries[i] in entries;
                          VersionRead(entries[i].row, DependenciesRead(entries[i].id, rows)));
    assert Assembled(versions, entries, rows) by {
      assert forall k | 0 <= k < |entries| :: entries[k] in entries;
    }
    pkg := Package(StoredName(t.scopes, t.packages[id]), versions);
  }

  lemma VersionCanBeRendered(v: PublishedVersion) returns (d: VersionDocument)
    ensures RendersVersion(d, v)
  {
    DependencyOrder();
    var sorted := Sorted(CompareDependencies, v.dependencies);
    SortedAscending(CompareDependencies, v.dependencies);
    var rendered := seq(|sorted|, i requires 0 <= i < |sorted| =>
                          DependencyDocument(sorted[i].name.String(), sorted[i].requirement.String(), sorted[i].dev));
    d := VersionDocument(v.version.String(), v.checksum, v.yanked, v.realm, v.publishedAt, rendered);
    assert RendersDependencies(d.dependencies, sorted);
  }

  lemma {:induction false} VersionsCanBeRendered(versions: seq<PublishedVersion>) returns (ds: seq<VersionDocument>)
    ensures RendersVersions(ds, versions)
  {
    if versions == [] {
      ds := [];
    } else {
      var rest := VersionsCanBeRendered(versions[..|versions| - 1]);
      var last := VersionCanBeRendered(versions[|versions| - 1]);
      ds := rest + [last];
    }
  }

  lemma CanBeRendered(pkg: Package) returns (doc: Document)
    ensures Renders(doc, pkg)
  {
    VersionOrder();
    var sorted := Sorted(CompareVersions, pkg.versions);
    SortedAscending(CompareVersions, pkg.versions);
    var ds := VersionsCanBeRendered(sorted);
    doc := Document(pkg.name.String(), ds);
  }

  /** doc is Build of a read of the package at this moment. */
  ghost predicate ShowsDocument(t: Tables, id: PackageId, doc: Document)
    requires id in t.packages
  {
    exists pkg :: ShowsPackage(t, id, pkg) && Renders(doc, pkg)
  }

  lemma SomeDocument(t: Tables, id: PackageId)
    requires Consistent(t) && id in t.packages
    ensures exists doc :: ShowsDocument(t, id, doc)
  {
    var pkg := CanBeShown(t, id);
    var doc := CanBeRendered(pkg);
    assert ShowsDocument(t, id, doc);
  }

  lemma OneDocument(t: Tables, id: PackageId, d: Document, e: Document)
    requires Consistent(t) && id in t.packages && ShowsDocument(t, id, d) && ShowsDocument(t, id, e)
    ensures d == e
  {
    var p: Package :| ShowsPackage(t, id, p) && Renders(d, p);
    var q: Package :| ShowsPackage(t, id, q) && Renders(e, q);
    OneMomentOneDocument(t, id, p, q, d, e);
  }

  /** The document a moment of the tables shows. */
  ghost function DocumentOf(t: Tables, id: PackageId): (doc: Document)
    requires Consistent(t) && id in t.packages
    ensures ShowsDocument(t, id, doc)
  {
    SomeDocument(t, id);
    var doc :| ShowsDocument(t, id, doc);
    doc
  }

  lemma StillShowsDocument(t: Tables, u: Tables, id: PackageId, doc: Document)
    requires Consistent(t) && Extends(t, u) && id in t.packages && id in u.packages && SameRowsOf(t, u, id)
    requires ShowsDocument(t, id, doc)
    ensures ShowsDocument(u, id, doc)
  {
    var pkg: Package :| ShowsPackage(t, id, pkg) && Renders(doc, pkg);
    StillShown(t, u, id, pkg);
  }

  lemma SameDocument(t: Tables, u: Tables, id: PackageId)
    requires Consistent(t) && Consistent(u) && Extends(t, u) && id in t.packages && id in u.packages &&
             SameRowsOf(t, u, id)
    ensures DocumentOf(u, id) == DocumentOf(t, id)
  {
    var was, now := DocumentOf(t, id), DocumentOf(u, id);
    StillShowsDocument(t, u, id, was);
    OneDocument(u, id, now, was);
  }

  // --- the history a run leaves ---

  /** What Modified and Package answer for the key at this moment. */
  ghost function CommitAt(t: Tables, key: string): Option<Serving.Commit<Document>>
    requires Consistent(t)
  {
    match PackageNamed(t.packages, key)
    case None => None
    case Some(id) => Some(Serving.Commit(t.packages[id].updatedAt, DocumentOf(t, id)))
  }

  ghost predicate AllAdmissible(ops: seq<Operation>) { forall op | op in ops :: Admissible(op) }

  /** A commit for each record or yank of the package. */
  ghost function History(ops: seq<Operation>, key: string): seq<Serving.Commit<Document>>
    requires AllAdmissible(ops)
  {
    if ops == [] then []
    else
      var before, last := ops[..|ops| - 1], ops[|ops| - 1];
      EveryReachableStateIsConsistent(ops);
      if Changes(Run(EMPTY, before), last, key) && CommitAt(Run(EMPTY, ops), key).Some?
      then History(before, key) + [CommitAt(Run(EMPTY, ops), key).value]
      else History(before, key)
  }

  lemma RecordStamps(t: Tables, record: Record, now: int)
    requires Consistent(t) && Sound(record) && Recorded(t, record, now).Ok? &&
             Consistent(Recorded(t, record, now).value)
    ensures var u, key := Recorded(t, record, now).value, record.package.value.name.Normalized();
            PackageNamed(u.packages, key).Some? && u.packages[PackageNamed(u.packages, key).value].updatedAt == now
  {
    var package, version := RecordedMeans(t, record, now);
    PackageFound(Recorded(t, record, now).value, package);
  }

  lemma YankStamps(t: Tables, name: Name, version: Version, yanked: bool, user: UserId, now: int)
    requires Consistent(t) && Yanked(t, name, version, yanked, user, now).Ok?
    requires Consistent(Yanked(t, name, version, yanked, user, now).value)
    ensures var u, key := Yanked(t, name, version, yanked, user, now).value, name.Normalized();
            PackageNamed(u.packages, key).Some? && u.packages[PackageNamed(u.packages, key).value].updatedAt == now
  {
    var v := YankMarksOne(t, name, version, yanked, user, now);
    PackageFound(Yanked(t, name, version, yanked, user, now).value, t.versions[v].package);
  }

  /** A record or yank that commits stamps its package with its own moment. */
  lemma ChangeStamps(t: Tables, op: Operation, key: string)
    requires Consistent(t) && Admissible(op) && Changes(t, op, key)
    ensures var u := Next(t, op);
            && Consistent(u) && PackageNamed(u.packages, key).Some?
            && u.packages[PackageNamed(u.packages, key).value].updatedAt == op.now
  {
    StepKeeps(t, op);
    if op.Publishing? {
      RecordStamps(t, op.record, op.now);
    } else {
      YankStamps(t, op.name, op.version, op.yanked, op.user, op.now);
    }
  }

  /** A step that is no record or yank of the package leaves its update time and all it shows
      as they were. */
  lemma OthersLeaveCommit(t: Tables, op: Operation, key: string)
    requires Consistent(t) && Admissible(op) && !Changes(t, op, key)
    ensures Consistent(Next(t, op)) && CommitAt(Next(t, op), key) == CommitAt(t, key)
  {
    var u := Next(t, op);
    StepKeeps(t, op);
    OthersTouchOthers(t, op, key);
    LeftAlone(t, u, key);
    if PackageNamed(t.packages, key).Some? {
      SameDocument(t, u, PackageNamed(t.packages, key).value);
    }
  }

  /** The moment of a transaction that changes the package. */
  ghost function StampOf(t: Tables, op: Operation, key: string): Option<int> {
    if Changes(t, op, key) then Some(op.now) else None
  }

  /** A history before and after a transaction that may have stamped it. */
  ghost predicate Grows<D>(before: seq<Serving.Commit<D>>, after: seq<Serving.Commit<D>>, stamp: Option<int>) {
    && |after| == |before| + (if stamp.Some? then 1 else 0)
    && (forall k | 0 <= k < |before| :: after[k] == before[k])
    && (stamp.Some? ==> after[|before|].modified == stamp.value)
  }

  /** The last transaction adds a commit, stamped with its moment, exactly when it is a record
      or yank of the package that committed; and what it adds is what the tables then answer. */
  lemma LastCommit(ops: seq<Operation>, key: string)
    requires AllAdmissible(ops) && ops != []
    ensures Consistent(Run(EMPTY, ops)) && Consistent(Run(EMPTY, ops[..|ops| - 1]))
    ensures var before, stamp := ops[..|ops| - 1], StampOf(Run(EMPTY, ops[..|ops| - 1]), ops[|ops| - 1], key);
            && Grows(History(before, key), History(ops, key), stamp)
            && CommitAt(Run(EMPTY, ops), key) ==
               if stamp.Some? then Last(History(ops, key)) else CommitAt(Run(EMPTY, before), key)
  {
    var before, last := ops[..|ops| - 1], ops[|ops| - 1];
    EveryReachableStateIsConsistent(ops);
    EveryReachableStateIsConsistent(before);
    if Changes(Run(EMPTY, before), last, key) {
      ChangeStamps(Run(EMPTY, before), last, key);
    } else {
      OthersLeaveCommit(Run(EMPTY, before), last, key);
    }
  }

  function Last<T>(h: seq<T>): Option<T> { if h == [] then None else Some(h[|h| - 1]) }

  /** At every moment, what Modified and Package answer is the last commit of the history. */
  lemma {:induction false} HistoryTracksTables(ops: seq<Operation>, key: string)
    requires AllAdmissible(ops)
    ensures Consistent(Run(EMPTY, ops)) && CommitAt(Run(EMPTY, ops), key) == Last(History(ops, key))
  {
    if ops == [] {
      NothingServed(key);
    } else {
      LastCommit(ops, key);
      HistoryTracksTables(ops[..|ops| - 1], key);
    }
  }

  lemma NothingServed(key: string)
    ensures Consistent(EMPTY) && CommitAt(EMPTY, key) == None
  {
  }

  // --- and the cache in front of it ---

  ghost function StampAt(ops: seq<Operation>, key: string, i: nat): Option<int>
    requires i < |ops|
  {
    StampOf(Run(EMPTY, ops[..i]), ops[i], key)
  }

  /** No two commits to the package were made at one moment. */
  ghost predicate MomentsDiffer(ops: seq<Operation>, key: string) {
    forall i, j | 0 <= i < j < |ops| && StampAt(ops, key, i).Some? :: StampAt(ops, key, i) != StampAt(ops, key, j)
  }

  ghost predicate StampsDistinct<D>(h: seq<Serving.Commit<D>>) {
    forall j, k | 0 <= j < k < |h| :: h[j].modified != h[k].modified
  }

  lemma {:induction false} CommitsAreStamped<D>(hs: seq<seq<Serving.Commit<D>>>, stamps: seq<Option<int>>,
      n: nat, k: nat)
    returns (i: nat)
    requires |hs| == |stamps| + 1 && hs[0] == [] && forall m | 0 <= m < |stamps| :: Grows(hs[m], hs[m + 1], stamps[m])
    requires n <= |stamps| && k < |hs[n]|
    ensures i < n && stamps[i] == Some(hs[n][k].modified)
  {
    if k < |hs[n - 1]| {
      i := CommitsAreStamped(hs, stamps, n - 1, k);
    } else {
      i := n - 1;
    }
  }

  lemma {:induction false} DifferentStamps<D>(hs: seq<seq<Serving.Commit<D>>>, stamps: seq<Option<int>>, n: nat)
    requires |hs| == |stamps| + 1 && hs[0] == [] && forall m | 0 <= m < |stamps| :: Grows(hs[m], hs[m + 1], stamps[m])
    requires forall i, j | 0 <= i < j < |stamps| && stamps[i].Some? :: stamps[i] != stamps[j]
    requires n <= |stamps|
    ensures StampsDistinct(hs[n])
  {
    if n > 0 {
      DifferentStamps(hs, stamps, n - 1);
      forall j, k | 0 <= j < k < |hs[n]| ensures hs[n][j].modified != hs[n][k].modified {
        var i := CommitsAreStamped(hs, stamps, n - 1, j);
      }
    }
  }

  lemma HistoryGrows(ops: seq<Operation>, key: string, i: nat)
    requires AllAdmissible(ops) && i < |ops|
    ensures Grows(History(ops[..i], key), History(ops[..i + 1], key), StampAt(ops, key, i))
  {
    var upTo := ops[..i + 1];
    assert upTo[..|upTo| - 1] == ops[..i] && upTo[|upTo| - 1] == ops[i];
    LastCommit(upTo, key);
  }

  lemma {:induction false} EachWasLast<D>(hs: seq<seq<Serving.Commit<D>>>, stamps: seq<Option<int>>, n: nat, k: nat)
    returns (m: nat)
    requires |hs| == |stamps| + 1 && hs[0] == [] && forall m | 0 <= m < |stamps| :: Grows(hs[m], hs[m + 1], stamps[m])
    requires n <= |stamps| && k < |hs[n]|
    ensures m <= n && Last(hs[m]) == Some(hs[n][k])
  {
    if k < |hs[n - 1]| {
      m := EachWasLast(hs, stamps, n - 1, k);
    } else {
      m := n;
    }
  }

  /** The histories after each transaction of a run. */
  ghost function Histories(ops: seq<Operation>, key: string): seq<seq<Serving.Commit<Document>>>
    requires AllAdmissible(ops)
  {
    seq(|ops| + 1, i requires 0 <= i <= |ops| => History(ops[..i], key))
  }

  ghost function Stamps(ops: seq<Operation>, key: string): seq<Option<int>> {
    seq(|ops|, i requires 0 <= i < |ops| => StampAt(ops, key, i))
  }

  lemma HistoriesGrow(ops: seq<Operation>, key: string)
    requires AllAdmissible(ops)
    ensures var hs, stamps := Histories(ops, key), Stamps(ops, key);
            && hs[0] == [] && hs[|ops|] == History(ops, key)
            && forall m | 0 <= m < |stamps| :: Grows(hs[m], hs[m + 1], stamps[m])
  {
    var hs, stamps := Histories(ops, key), Stamps(ops, key);
    forall m | 0 <= m < |stamps| ensures Grows(hs[m], hs[m + 1], stamps[m]) {
      HistoryGrows(ops, key, m);
    }
    assert ops[..|ops|] == ops;
  }

  /** Every commit of the history is what the tables answered at some moment of the run. */
  lemma CommitIsAMoment(ops: seq<Operation>, key: string, k: nat) returns (m: nat)
    requires AllAdmissible(ops) && k < |History(ops, key)|
    ensures m <= |ops| && Consistent(Run(EMPTY, ops[..m]))
    ensures CommitAt(Run(EMPTY, ops[..m]), key) == Some(History(ops, key)[k])
  {
    HistoriesGrow(ops, key);
    m := EachWasLast(Histories(ops, key), Stamps(ops, key), |ops|, k);
    HistoryTracksTables(ops[..m], key);
  }

  lemma StampsDiffer(ops: seq<Operation>, key: string)
    requires AllAdmissible(ops) && MomentsDiffer(ops, key)
    ensures StampsDistinct(History(ops, key))
  {
    HistoriesGrow(ops, key);
    DifferentStamps(Histories(ops, key), Stamps(ops, key), |ops|);
  }

  /** In every run of the registry's transactions whose commits to a package were made at
      different moments, interleaved in any way with requests and evictions, each request for
      that package is answered with a document current while it was being served. */
  lemma RegistryServesFresh(ops: seq<Operation>, key: string, limit: nat, actions: seq<Serving.Action<Document>>)
    requires AllAdmissible(ops) && MomentsDiffer(ops, key)
    requires Serving.Run(Serving.Initial(limit), actions).Some?
    requires Serving.History(Serving.Run(Serving.Initial(limit), actions).value, key) == History(ops, key)
    ensures Serving.AnswersFresh(Serving.Run(Serving.Initial(limit), actions).value, key)
  {
    StampsDiffer(ops, key);
    Serving.UniqueStampsSettle(History(ops, key));
    Serving.EveryRunServesFresh(limit, actions, key);
  }

  // --- and only if commits are told apart ---

  /** The version rows of a package. */
  function VersionIds(t: Tables, id: PackageId): set<VersionId> {
    set v | v in t.versions && t.versions[v].package == id
  }

  lemma {:induction false} AsManyIds(entries: seq<VersionEntry>)
    requires forall i, j | 0 <= i < j < |entries| :: entries[i].id != entries[j].id
    ensures |IdsIn(entries)| == |entries|
  {
    if entries != [] {
      var before, last := entries[..|entries| - 1], entries[|entries| - 1];
      AsManyIds(before);
      assert entries == before + [last];
      assert IdsIn(entries) == IdsIn(before) + {last.id};
      assert last.id !in IdsIn(before);
    }
  }

  lemma ShownSize(t: Tables, id: PackageId, versions: seq<PublishedVersion>)
    requires ShowsVersions(t, id, None, versions)
    ensures |versions| == |VersionIds(t, id)|
  {
    var entries: seq<VersionEntry>, rows: seq<DependencyEntry> :|
      && ListsVersions(entries, t.versions, id, None)
      && ListsDependencies(rows, t.dependencies, IdsIn(entries)) && Assembled(versions, entries, rows);
    AsManyIds(entries);
    ListedIds(t, id, entries);
  }

  lemma ListedIds(t: Tables, id: PackageId, entries: seq<VersionEntry>)
    requires ListsVersions(entries, t.versions, id, None)
    ensures IdsIn(entries) == VersionIds(t, id)
  {
    forall v | v in VersionIds(t, id) ensures v in IdsIn(entries) {
      assert VersionEntry(v, t.versions[v]) in entries;
    }
  }

  /** A document has an entry for each version row. */
  lemma DocumentSize(t: Tables, id: PackageId, doc: Document)
    requires id in t.packages && ShowsDocument(t, id, doc)
    ensures |doc.versions| == |VersionIds(t, id)|
  {
    var pkg: Package :| ShowsPackage(t, id, pkg) && Renders(doc, pkg);
    ShownSize(t, id, pkg.versions);
    var sorted: seq<PublishedVersion> :|
      Arranges(CompareVersions, sorted, pkg.versions) && RendersVersions(doc.versions, sorted);
    SameLength(sorted, pkg.versions);
  }

  lemma RecordAddsAnId(t: Tables, record: Record, now: int, id: PackageId)
    requires Consistent(t) && Sound(record) && Recorded(t, record, now).Ok?
    requires PackageNamed(t.packages, record.package.value.name.Normalized()) == Some(id)
    ensures |VersionIds(Recorded(t, record, now).value, id)| == |VersionIds(t, id)| + 1
  {
    var u := Recorded(t, record, now).value;
    var package, version := RecordedMeans(t, record, now);
    RecordedKeeps(t, record, now);
    PackageFound(u, package);
    NameUnmoved(t, u, id);
    AddsAnId(t, u, id, version);
  }

  lemma AddsAnId(t: Tables, u: Tables, id: PackageId, version: VersionId)
    requires version !in t.versions && version in u.versions && u.versions[version].package == id
    requires u.versions == t.versions[version := u.versions[version]]
    ensures |VersionIds(u, id)| == |VersionIds(t, id)| + 1
  {
    assert VersionIds(u, id) == VersionIds(t, id) + {version};
  }

  /** A record of a package there already gives it a document it has not had. */
  lemma RecordChangesDocument(t: Tables, record: Record, now: int, id: PackageId)
    requires Consistent(t) && Sound(record) && Recorded(t, record, now).Ok?
    requires PackageNamed(t.packages, record.package.value.name.Normalized()) == Some(id)
    ensures var u := Recorded(t, record, now).value;
            Consistent(u) && id in u.packages && DocumentOf(u, id) != DocumentOf(t, id)
  {
    var u := Recorded(t, record, now).value;
    RecordedKeeps(t, record, now);
    RecordAddsAnId(t, record, now, id);
    DocumentSize(t, id, DocumentOf(t, id));
    DocumentSize(u, id, DocumentOf(u, id));
  }

  lemma RecordChangesCommit(t: Tables, op: Operation, key: string)
    requires Consistent(t) && Admissible(op) && op.Publishing? && Changes(t, op, key) && CommitAt(t, key).Some?
    ensures Consistent(Next(t, op)) && CommitAt(Next(t, op), key).Some?
    ensures CommitAt(Next(t, op), key).value.document != CommitAt(t, key).value.document
  {
    var id := PackageNamed(t.packages, key).value;
    RecordChangesDocument(t, op.record, op.now, id);
    StepKeeps(t, op);
    NameUnmoved(t, Next(t, op), id);
  }

  lemma {:induction false} Prefixed<D>(hs: seq<seq<Serving.Commit<D>>>, stamps: seq<Option<int>>, m: nat, n: nat)
    requires |hs| == |stamps| + 1 && forall m | 0 <= m < |stamps| :: Grows(hs[m], hs[m + 1], stamps[m])
    requires m <= n <= |stamps|
    ensures |hs[m]| <= |hs[n]| && forall k | 0 <= k < |hs[m]| :: hs[n][k] == hs[m][k]
    decreases n - m
  {
    if m < n { Prefixed(hs, stamps, m + 1, n); }
  }

  /** The last documents before and after differ. */
  ghost predicate Alters<D>(before: seq<Serving.Commit<D>>, after: seq<Serving.Commit<D>>) {
    before != [] && after != [] ==> before[|before| - 1].document != after[|after| - 1].document
  }

  /** Two changes stamped alike, the later of them one that alters the document, unsettle a
      history. */
  lemma ClashUnsettles<D>(hs: seq<seq<Serving.Commit<D>>>, stamps: seq<Option<int>>, i: nat, j: nat)
    requires |hs| == |stamps| + 1 && forall m | 0 <= m < |stamps| :: Grows(hs[m], hs[m + 1], stamps[m])
    requires i < j < |stamps| && stamps[i].Some? && stamps[i] == stamps[j]
    requires Alters(hs[j], hs[j + 1])
    ensures !Serving.Settled(hs[|stamps|])
  {
    var h, p, q := hs[|stamps|], |hs[i]|, |hs[j]|;
    Prefixed(hs, stamps, i + 1, j);
    Prefixed(hs, stamps, i + 1, |stamps|);
    Prefixed(hs, stamps, j, |stamps|);
    Prefixed(hs, stamps, j + 1, |stamps|);
    assert p < q < |h| && h[p].modified == h[q].modified;
    assert h[q - 1] == hs[j][q - 1] && h[q] == hs[j + 1][q];
    assert h[q - 1].document != h[q].document;
  }

  lemma SharedStampsUnsettle(ops: seq<Operation>, key: string, i: nat, j: nat)
    requires AllAdmissible(ops) && i < j < |ops|
    requires Stamps(ops, key)[i].Some? && Stamps(ops, key)[i] == Stamps(ops, key)[j]
    requires Alters(Histories(ops, key)[j], Histories(ops, key)[j + 1])
    ensures !Serving.Settled(History(ops, key))
  {
    HistoriesGrow(ops, key);
    ClashUnsettles(Histories(ops, key), Stamps(ops, key), i, j);
  }

  lemma LastsAlter<D>(before: seq<Serving.Commit<D>>, after: seq<Serving.Commit<D>>)
    requires Last(before).Some? && Last(after).Some? ==> Last(before).value.document != Last(after).value.document
    ensures Alters(before, after)
  {
  }

  /** The tables answer another document, if they answered one before. */
  ghost predicate Reanswers(t: Tables, u: Tables, key: string)
    requires Consistent(t) && Consistent(u)
  {
    CommitAt(t, key).Some? && CommitAt(u, key).Some? ==>
      CommitAt(t, key).value.document != CommitAt(u, key).value.document
  }

  lemma RecordReanswers(t: Tables, op: Operation, key: string)
    requires Consistent(t) && Admissible(op) && op.Publishing? && StampOf(t, op, key).Some?
    ensures Consistent(Next(t, op)) && Reanswers(t, Next(t, op), key)
  {
    StepKeeps(t, op);
    if CommitAt(t, key).Some? { RecordChangesCommit(t, op, key); }
  }

  lemma RunStep(ops: seq<Operation>, j: nat)
    requires j < |ops|
    ensures Run(EMPTY, ops[..j + 1]) == Next(Run(EMPTY, ops[..j]), ops[j])
  {
    var upTo := ops[..j + 1];
    assert upTo[..|upTo| - 1] == ops[..j] && upTo[|upTo| - 1] == ops[j];
  }

  lemma ReanswersAlters(ops: seq<Operation>, key: string, j: nat)
    requires AllAdmissible(ops) && j < |ops|
    requires Consistent(Run(EMPTY, ops[..j])) && Consistent(Run(EMPTY, ops[..j + 1]))
    requires Reanswers(Run(EMPTY, ops[..j]), Run(EMPTY, ops[..j + 1]), key)
    ensures Alters(Histories(ops, key)[j], Histories(ops, key)[j + 1])
  {
    HistoryTracksTables(ops[..j], key);
    HistoryTracksTables(ops[..j + 1], key);
    LastsAlter(History(ops[..j], key), History(ops[..j + 1], key));
  }

  lemma RecordAlters(ops: seq<Operation>, key: string, j: nat)
    requires AllAdmissible(ops) && j < |ops| && ops[j].Publishing? && StampAt(ops, key, j).Some?
    ensures Alters(Histories(ops, key)[j], Histories(ops, key)[j + 1])
  {
    EveryReachableStateIsConsistent(ops[..j]);
    RecordReanswers(Run(EMPTY, ops[..j]), ops[j], key);
    RunStep(ops, j);
    ReanswersAlters(ops, key, j);
  }

  /** The condition is needed: a record stamped like an earlier change of its package leaves a
      history no cache may be trusted with, so some interleaving serves a stale document. */
  lemma SharedMomentsServeStale(ops: seq<Operation>, key: string, i: nat, j: nat)
    requires AllAdmissible(ops) && i < j < |ops| && ops[j].Publishing?
    requires StampAt(ops, key, i).Some? && StampAt(ops, key, i) == StampAt(ops, key, j)
    ensures !Serving.Settled(History(ops, key)) && !Serving.Trustworthy(key, History(ops, key))
  {
    RecordAlters(ops, key, j);
    SharedStampsUnsettle(ops, key, i, j);
    Serving.TrustworthyExactlyWhenSettled(key, History(ops, key));
  }
}
