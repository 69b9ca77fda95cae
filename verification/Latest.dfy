/** internal/db/catalog.go and internal/catalog/catalog.go: the version a listing shows for a
    package, found in one pass over unordered rows, against the sorted list its page shows. */
module Latest {
  import opened Wrappers
  import opened Versions
  import opened Sorting

  type PackageId = nat

  datatype Row = Row(package: PackageId, version: Version, yanked: bool)

  /** v is the greatest unyanked version among the package's rows, or the greatest of all of
      them when every one is yanked. */
  ghost predicate IsLatest(rows: seq<Row>, id: PackageId, v: Version) {
    exists r ::
      && r in rows && r.package == id && r.version == v
      && (forall q | q in rows && q.package == id && (q.yanked ==> r.yanked) :: q.version.Compare(v) <= 0)
      && (r.yanked ==> forall q | q in rows && q.package == id :: q.yanked)
  }

  ghost predicate HasLive(rows: seq<Row>, id: PackageId) {
    exists r :: r in rows && r.package == id && !r.yanked
  }

  function Packages(rows: seq<Row>): set<PackageId> { set r | r in rows :: r.package }

  /** The shown version is the latest, and the mark says whether any row is unyanked. */
  ghost predicate Tracks(rows: seq<Row>, shown: Version, lively: bool, id: PackageId) {
    IsLatest(rows, id, shown) && (lively <==> HasLive(rows, id))
  }

  /** The latest versions after one more row, by the four cases of the fold. */
  function Shown(latest: map<PackageId, Version>, live: map<PackageId, bool>, row: Row): Version
    requires latest.Keys == live.Keys
  {
    if row.package !in latest then row.version
    else if live[row.package] && row.yanked then latest[row.package]
    else if !live[row.package] && !row.yanked then row.version
    else if row.version.Compare(latest[row.package]) > 0 then row.version
    else latest[row.package]
  }

  lemma OthersKeepLatest(rows: seq<Row>, row: Row, id: PackageId, v: Version)
    requires IsLatest(rows, id, v) && id != row.package
    ensures IsLatest(rows + [row], id, v)
  {
    var r :| r in rows && r.package == id && r.version == v
      && (forall q | q in rows && q.package == id && (q.yanked ==> r.yanked) :: q.version.Compare(v) <= 0)
      && (r.yanked ==> forall q | q in rows && q.package == id :: q.yanked);
    assert r in rows + [row];
  }

  lemma FirstIsLatest(rows: seq<Row>, row: Row)
    requires forall r | r in rows :: r.package != row.package
    ensures IsLatest(rows + [row], row.package, row.version)
  {
    CompareIsIdentity(row.version, row.version);
    assert row in rows + [row];
  }

  lemma NewIsLatest(rows: seq<Row>, row: Row, held: Version)
    requires IsLatest(rows, row.package, held)
    requires if HasLive(rows, row.package) then !row.yanked && row.version.Compare(held) > 0
             else row.yanked ==> row.version.Compare(held) > 0
    ensures IsLatest(rows + [row], row.package, row.version)
  {
    var r :| r in rows && r.package == row.package && r.version == held
      && (forall q | q in rows && q.package == row.package && (q.yanked ==> r.yanked) :: q.version.Compare(held) <= 0)
      && (r.yanked ==> forall q | q in rows && q.package == row.package :: q.yanked);
    CompareIsIdentity(row.version, row.version);
    CompareIsIdentity(row.version, held);
    assert row in rows + [row];
    forall q | q in rows + [row] && q.package == row.package && (q.yanked ==> row.yanked)
      ensures q.version.Compare(row.version) <= 0
    {
      if q in rows && (q.yanked ==> r.yanked) && row.version.Compare(held) > 0 {
        CompareTransitive(q.version, held, row.version);
      }
    }
  }

  lemma HeldIsLatest(rows: seq<Row>, row: Row, held: Version)
    requires IsLatest(rows, row.package, held)
    requires if HasLive(rows, row.package) then row.yanked || row.version.Compare(held) <= 0
             else row.yanked && row.version.Compare(held) <= 0
    ensures IsLatest(rows + [row], row.package, held)
  {
    var r :| r in rows && r.package == row.package && r.version == held
      && (forall q | q in rows && q.package == row.package && (q.yanked ==> r.yanked) :: q.version.Compare(held) <= 0)
      && (r.yanked ==> forall q | q in rows && q.package == row.package :: q.yanked);
    assert r in rows + [row];
  }

  function Lively(live: map<PackageId, bool>, row: Row): map<PackageId, bool> {
    live[row.package := !row.yanked || (row.package in live && live[row.package])]
  }

  /** Both maps after all the rows, taken in the order given. */
  function Folded(rows: seq<Row>): (r: (map<PackageId, Version>, map<PackageId, bool>))
    ensures r.0.Keys == r.1.Keys
  {
    if rows == [] then (map[], map[])
    else
      var row := rows[|rows| - 1];
      var (latest, live) := Folded(rows[..|rows| - 1]);
      (latest[row.package := Shown(latest, live, row)], Lively(live, row))
  }

  lemma {:induction false} FoldedPackages(rows: seq<Row>)
    ensures Folded(rows).0.Keys == Packages(rows)
  {
    if rows != [] {
      var front, row := rows[..|rows| - 1], rows[|rows| - 1];
      assert rows == front + [row];
      FoldedPackages(front);
      TrackedIds(front, row);
    }
  }

  lemma ShownIsLatest(rows: seq<Row>, latest: map<PackageId, Version>, live: map<PackageId, bool>, row: Row)
    requires latest.Keys == live.Keys == Packages(rows)
    requires row.package in latest ==> Tracks(rows, latest[row.package], live[row.package], row.package)
    ensures IsLatest(rows + [row], row.package, Shown(latest, live, row))
  {
    var id := row.package;
    if id !in latest {
      forall r | r in rows ensures r.package != id { assert r.package in latest.Keys; }
      FirstIsLatest(rows, row);
    } else if live[id] && row.yanked {
      HeldIsLatest(rows, row, latest[id]);
    } else if (!live[id] && !row.yanked) || row.version.Compare(latest[id]) > 0 {
      NewIsLatest(rows, row, latest[id]);
    } else {
      HeldIsLatest(rows, row, latest[id]);
    }
  }

  lemma UntrackedIsDead(rows: seq<Row>, id: PackageId)
    requires id !in Packages(rows)
    ensures !HasLive(rows, id)
  {
    forall r | r in rows ensures r.package in Packages(rows) {
    }
  }

  /** What the fold says of each package, in whatever order its rows came. */
  lemma {:induction false} FoldedTracks(rows: seq<Row>, id: PackageId)
    requires id in Folded(rows).0
    ensures Tracks(rows, Folded(rows).0[id], Folded(rows).1[id], id)
  {
    if rows != [] {
      var front, row := rows[..|rows| - 1], rows[|rows| - 1];
      var (latest, live) := Folded(front);
      assert rows == front + [row];
      FoldedPackages(front);
      LiveAfter(front, row);
      if id in latest { FoldedTracks(front, id); }
      if id == row.package {
        if id !in latest { UntrackedIsDead(front, id); }
        ShownIsLatest(front, latest, live, row);
      } else {
        OthersKeepLatest(front, row, id, latest[id]);
      }
    }
  }

  lemma LiveAfter(rows: seq<Row>, row: Row)
    ensures forall id :: HasLive(rows + [row], id) <==> HasLive(rows, id) || (id == row.package && !row.yanked)
  {
    assert row in rows + [row];
    forall id | HasLive(rows, id) ensures HasLive(rows + [row], id) {
      var r :| r in rows && r.package == id && !r.yanked;
      assert r in rows + [row];
    }
  }

  lemma TrackedIds(rows: seq<Row>, row: Row)
    ensures Packages(rows + [row]) == Packages(rows) + {row.package}
  {
    assert row in rows + [row];
    forall r | r in rows ensures r in rows + [row] {
    }
  }

  /** One turn of the fold. */
  method Consider(latest: map<PackageId, Version>, live: map<PackageId, bool>, row: Row)
    returns (shown: map<PackageId, Version>, lively: map<PackageId, bool>)
    requires latest.Keys == live.Keys
    ensures shown == latest[row.package := Shown(latest, live, row)] && lively == Lively(live, row)
  {
    var id := row.package;
    shown, lively := latest, live;
    if id !in latest {
      shown, lively := latest[id := row.version], live[id := !row.yanked];
    } else if live[id] && row.yanked {
    } else if !live[id] && !row.yanked {
      shown, lively := latest[id := row.version], live[id := true];
    } else if row.version.Compare(latest[id]) > 0 {
      shown := latest[id := row.version];
    }
  }

  method LatestVersions(rows: seq<Row>) returns (latest: map<PackageId, Version>)
    ensures latest.Keys == Packages(rows)
    ensures forall id | id in latest :: IsLatest(rows, id, latest[id])
  {
    latest := map[];
    var live: map<PackageId, bool> := map[];
    for k := 0 to |rows|
      invariant (latest, live) == Folded(rows[..k])
    {
      assert rows[..k + 1][..k] == rows[..k];
      latest, live := Consider(latest, live, rows[k]);
    }
    assert rows[..|rows|] == rows;
    FoldedPackages(rows);
    forall id | id in latest ensures IsLatest(rows, id, latest[id]) {
      FoldedTracks(rows, id);
    }
  }

  // --- the same answer from the package's page ---

  function Newest(left: Row, right: Row): int { right.version.Compare(left.version) }

  lemma NewestOrder()
    ensures Preorder(Newest)
  {
    forall x, y, z
      ensures Newest(x, y) == -Newest(y, x)
      ensures Newest(x, y) <= 0 && Newest(y, z) <= 0 ==> Newest(x, z) <= 0
    {
      CompareIsIdentity(x.version, y.version);
      if Newest(x, y) <= 0 && Newest(y, z) <= 0 { CompareTransitive(z.version, y.version, x.version); }
    }
  }

  /** A page's rows, in descending order. */
  method FillVersions(rows: seq<Row>) returns (page: seq<Row>)
    ensures Arranges(Newest, page, rows)
  {
    NewestOrder();
    page := SortFunc(Newest, rows);
  }

  /** What a page recommends: its first entry without a yanked mark. */
  function DetailLatest(page: seq<Row>): Option<Version> {
    if page == [] then None
    else if !page[0].yanked then Some(page[0].version)
    else DetailLatest(page[1..])
  }

  lemma {:induction false} DetailLatestIsFirstLive(page: seq<Row>) returns (k: nat)
    ensures DetailLatest(page).None? ==> forall r | r in page :: r.yanked
    ensures DetailLatest(page).Some? ==>
              k < |page| && !page[k].yanked && DetailLatest(page) == Some(page[k].version)
              && forall j | 0 <= j < k :: page[j].yanked
  {
    k := 0;
    if page != [] && page[0].yanked {
      k := DetailLatestIsFirstLive(page[1..]);
      k := k + 1;
      assert page == [page[0]] + page[1..];
    }
  }

  /** No two rows of one package share an identity. */
  ghost predicate DistinctIdentities(rows: seq<Row>) {
    forall r, q | r in rows && q in rows && r.package == q.package && r.version.Compare(q.version) == 0 :: r == q
  }

  lemma LatestIsUnique(rows: seq<Row>, id: PackageId, v: Version, w: Version)
    requires DistinctIdentities(rows)
    requires IsLatest(rows, id, v) && IsLatest(rows, id, w)
    ensures v == w
  {
    CompareIsIdentity(v, w);
  }

  /** own are the rows of one package among the rows of many. */
  ghost predicate OwnRows(rows: seq<Row>, id: PackageId, own: seq<Row>) {
    forall r :: r in own <==> r in rows && r.package == id
  }

  lemma PageLatestIsLatest(rows: seq<Row>, own: seq<Row>, page: seq<Row>, id: PackageId)
    requires own != [] && OwnRows(rows, id, own) && Arranges(Newest, page, own)
    ensures page != []
    ensures IsLatest(rows, id, if DetailLatest(page).Some? then DetailLatest(page).value else page[0].version)
  {
    SameLength(page, own);
    var k := DetailLatestIsFirstLive(page);
    var head := if DetailLatest(page).Some? then k else 0;
    assert page[head] in own;
    forall q | q in rows && q.package == id && (q.yanked ==> page[head].yanked)
      ensures q.version.Compare(page[head].version) <= 0
    {
      assert q in page;
      var j :| 0 <= j < |page| && page[j] == q;
      OlderBehind(page, head, j);
    }
  }

  lemma OlderBehind(page: seq<Row>, i: nat, j: nat)
    requires Ascending(Newest, page) && i <= j < |page|
    ensures page[j].version.Compare(page[i].version) <= 0
  {
    CompareIsIdentity(page[i].version, page[i].version);
    assert i < j ==> Newest(page[i], page[j]) <= 0;
  }

  /** The one-pass fold shows what the sorted page answers: its newest unyanked version, or,
      when every version is yanked, the head of its list. */
  lemma FoldAgreesWithPage(rows: seq<Row>, own: seq<Row>, page: seq<Row>, id: PackageId, shown: Version)
    requires own != [] && OwnRows(rows, id, own) && DistinctIdentities(rows)
    requires IsLatest(rows, id, shown) && Arranges(Newest, page, own)
    ensures page != []
    ensures shown == if DetailLatest(page).Some? then DetailLatest(page).value else page[0].version
  {
    PageLatestIsLatest(rows, own, page, id);
    LatestIsUnique(rows, id, shown, if DetailLatest(page).Some? then DetailLatest(page).value else page[0].version);
  }
}
