/** internal/storage/filesystem.go and the sweep of internal/maintain/maintain.go: blobs
    addressed by the digest of their content, and the removal of those nothing references. */
module Storage {
  import opened Index

  type Content = seq<bv8>

  datatype Blob = Blob(content: Content, modified: int)

  class Filesystem {
    /** sha256, of which only that it is a function of the content matters here. */
    const digestOf: Content -> Digest
    var blobs: map<Digest, Blob>

    /** Every blob sits under the digest of its own content. */
    ghost predicate Valid()
      reads this
    {
      forall d | d in blobs :: digestOf(blobs[d].content) == d
    }

    constructor (digestOf: Content -> Digest)
      ensures Valid() && blobs == map[] && this.digestOf == digestOf
    {
      this.digestOf := digestOf;
      this.blobs := map[];
    }

    /** Storing bytes already held changes nothing, not even their modification time. */
    method Put(content: Content, now: int) returns (digest: Digest)
      requires Valid()
      modifies this
      ensures Valid() && digest == digestOf(content)
      ensures blobs == if digest in old(blobs) then old(blobs) else old(blobs)[digest := Blob(content, now)]
    {
      digest := digestOf(content);
      if digest in blobs {
        return;
      }
      blobs := blobs[digest := Blob(content, now)];
    }

    /** Whether or not the blob was there, afterwards it is not. */
    method Delete(digest: Digest)
      requires Valid()
      modifies this
      ensures Valid() && blobs == old(blobs) - {digest}
    {
      blobs := blobs - {digest};
    }
  }

  datatype SweepReport = SweepReport(scanned: nat, orphaned: nat, spared: nat, removed: nat, bytes: nat)

  /** The blobs no version references. */
  function Orphans(blobs: map<Digest, Blob>, live: set<Digest>): set<Digest> { blobs.Keys - live }

  /** The orphans too young to tell from a publish still in flight. */
  function Young(blobs: map<Digest, Blob>, live: set<Digest>, grace: int, now: int): set<Digest> {
    set d | d in Orphans(blobs, live) && now - blobs[d].modified < grace
  }

  ghost function TotalSize(blobs: map<Digest, Blob>, digests: set<Digest>): nat
    requires digests <= blobs.Keys
  {
    if digests == {} then 0
    else
      var d :| d in digests;
      |blobs[d].content| + TotalSize(blobs, digests - {d})
  }

  lemma {:induction false} TotalSizeAdds(blobs: map<Digest, Blob>, digests: set<Digest>, d: Digest)
    requires digests <= blobs.Keys && d in digests
    ensures TotalSize(blobs, digests) == |blobs[d].content| + TotalSize(blobs, digests - {d})
  {
    var e :| e in digests && TotalSize(blobs, digests) == |blobs[e].content| + TotalSize(blobs, digests - {e});
    if e != d {
      TotalSizeAdds(blobs, digests - {e}, d);
      TotalSizeAdds(blobs, digests - {d}, e);
      assert digests - {e} - {d} == digests - {d} - {e};
    }
  }

  /** What a sweep over the given blobs counts, when exactly the given ones were removed. */
  ghost predicate Counts(report: SweepReport, blobs: map<Digest, Blob>, visited: set<Digest>, live: set<Digest>,
                         grace: int, now: int, removed: set<Digest>)
    requires removed <= blobs.Keys
  {
    report == SweepReport(|visited|, |visited * Orphans(blobs, live)|, |visited * Young(blobs, live, grace, now)|,
                          |removed|, TotalSize(blobs, removed))
  }

  function Removable(blobs: map<Digest, Blob>, live: set<Digest>, grace: int, now: int, remove: bool): set<Digest> {
    if remove then Orphans(blobs, live) - Young(blobs, live, grace, now) else {}
  }

  lemma VisitOne(visited: set<Digest>, kind: set<Digest>, d: Digest)
    requires d !in visited
    ensures |(visited + {d}) * kind| == |visited * kind| + if d in kind then 1 else 0
  {
    if d in kind {
      assert (visited + {d}) * kind == visited * kind + {d};
    } else {
      assert (visited + {d}) * kind == visited * kind;
    }
  }

  lemma RemoveOne(blobs: map<Digest, Blob>, removed: set<Digest>, d: Digest)
    requires removed <= blobs.Keys && d in blobs && d !in removed
    ensures |removed + {d}| == |removed| + 1
    ensures TotalSize(blobs, removed + {d}) == TotalSize(blobs, removed) + |blobs[d].content|
  {
    TotalSizeAdds(blobs, removed + {d}, d);
    assert removed + {d} - {d} == removed;
  }

  predicate Goes(blob: Blob, referenced: bool, grace: int, now: int, remove: bool) {
    remove && !referenced && now - blob.modified >= grace
  }

  function Counted(report: SweepReport, blob: Blob, referenced: bool, grace: int, now: int, remove: bool): SweepReport {
    SweepReport(report.scanned + 1,
                report.orphaned + (if !referenced then 1 else 0),
                report.spared + (if !referenced && now - blob.modified < grace then 1 else 0),
                report.removed + (if Goes(blob, referenced, grace, now, remove) then 1 else 0),
                report.bytes + (if Goes(blob, referenced, grace, now, remove) then |blob.content| else 0))
  }

  lemma Kinds(blobs: map<Digest, Blob>, live: set<Digest>, grace: int, now: int, remove: bool, d: Digest)
    requires d in blobs
    ensures d in Orphans(blobs, live) <==> d !in live
    ensures d in Young(blobs, live, grace, now) <==> d !in live && now - blobs[d].modified < grace
    ensures d in Removable(blobs, live, grace, now, remove) <==> Goes(blobs[d], d in live, grace, now, remove)
    ensures Removable(blobs, live, grace, now, remove) <= blobs.Keys
  {
  }

  /** One blob's share of the report. */
  lemma CountOne(report: SweepReport, blobs: map<Digest, Blob>, visited: set<Digest>, live: set<Digest>,
                 grace: int, now: int, remove: bool, d: Digest)
    requires d in blobs && d !in visited
    requires Counts(report, blobs, visited, live, grace, now, visited * Removable(blobs, live, grace, now, remove))
    ensures Counts(Counted(report, blobs[d], d in live, grace, now, remove), blobs, visited + {d}, live, grace, now,
                   (visited + {d}) * Removable(blobs, live, grace, now, remove))
  {
    Kinds(blobs, live, grace, now, remove, d);
    CountKinds(blobs, visited, Orphans(blobs, live), Young(blobs, live, grace, now),
               Removable(blobs, live, grace, now, remove), d);
  }

  lemma CountKinds(blobs: map<Digest, Blob>, visited: set<Digest>, orphans: set<Digest>, young: set<Digest>,
                   removable: set<Digest>, d: Digest)
    requires d in blobs && d !in visited && removable <= blobs.Keys
    ensures |visited + {d}| == |visited| + 1
    ensures |(visited + {d}) * orphans| == |visited * orphans| + if d in orphans then 1 else 0
    ensures |(visited + {d}) * young| == |visited * young| + if d in young then 1 else 0
    ensures |(visited + {d}) * removable| == |visited * removable| + if d in removable then 1 else 0
    ensures TotalSize(blobs, (visited + {d}) * removable) ==
            TotalSize(blobs, visited * removable) + if d in removable then |blobs[d].content| else 0
  {
    VisitOne(visited, orphans, d);
    VisitOne(visited, young, d);
    CountRemoved(blobs, visited, removable, d);
  }

  lemma CountRemoved(blobs: map<Digest, Blob>, visited: set<Digest>, removable: set<Digest>, d: Digest)
    requires d in blobs && d !in visited && removable <= blobs.Keys
    ensures var before, after := visited * removable, (visited + {d}) * removable;
            && |after| == |before| + (if d in removable then 1 else 0)
            && TotalSize(blobs, after) == TotalSize(blobs, before) + if d in removable then |blobs[d].content| else 0
  {
    if d in removable {
      assert (visited + {d}) * removable == visited * removable + {d};
      RemoveOne(blobs, visited * removable, d);
    } else {
      assert (visited + {d}) * removable == visited * removable;
    }
  }

  /** Where a walk over blobs stands once the visited ones have had their turn. */
  ghost predicate Walked(report: SweepReport, blobs: map<Digest, Blob>, now: int, current: map<Digest, Blob>,
                         remaining: set<Digest>, live: set<Digest>, grace: int, remove: bool) {
    && remaining <= blobs.Keys
    && current == blobs - (blobs.Keys - remaining) * Removable(blobs, live, grace, now, remove)
    && Counts(report, blobs, blobs.Keys - remaining, live, grace, now,
              (blobs.Keys - remaining) * Removable(blobs, live, grace, now, remove))
  }

  lemma OneFewer(all: set<Digest>, remaining: set<Digest>, d: Digest)
    requires d in remaining && remaining <= all
    ensures all - (remaining - {d}) == all - remaining + {d}
    ensures d !in all - remaining
  {
  }

  lemma ShrinkOne(blobs: map<Digest, Blob>, visited: set<Digest>, removable: set<Digest>, d: Digest)
    ensures d in removable ==> blobs - visited * removable - {d} == blobs - (visited + {d}) * removable
    ensures d !in removable ==> blobs - visited * removable == blobs - (visited + {d}) * removable
  {
    assert d in removable ==> (visited + {d}) * removable == visited * removable + {d};
    assert d !in removable ==> (visited + {d}) * removable == visited * removable;
  }

  lemma NothingWalked(blobs: map<Digest, Blob>, live: set<Digest>, grace: int, now: int, remove: bool)
    ensures Walked(SweepReport(0, 0, 0, 0, 0), blobs, now, blobs, blobs.Keys, live, grace, remove)
  {
    assert blobs.Keys - blobs.Keys == {};
    assert blobs - {} * Removable(blobs, live, grace, now, remove) == blobs;
  }

  lemma EverythingWalked(report: SweepReport, blobs: map<Digest, Blob>, now: int, current: map<Digest, Blob>,
                         live: set<Digest>, grace: int, remove: bool)
    requires Walked(report, blobs, now, current, {}, live, grace, remove)
    ensures current == blobs - Removable(blobs, live, grace, now, remove)
    ensures Counts(report, blobs, blobs.Keys, live, grace, now, Removable(blobs, live, grace, now, remove))
  {
    assert blobs.Keys - {} == blobs.Keys;
    assert blobs.Keys * Removable(blobs, live, grace, now, remove) == Removable(blobs, live, grace, now, remove);
  }

  lemma WalkOne(report: SweepReport, blobs: map<Digest, Blob>, now: int, current: map<Digest, Blob>,
                remaining: set<Digest>, live: set<Digest>, grace: int, remove: bool, d: Digest)
    requires Walked(report, blobs, now, current, remaining, live, grace, remove) && d in remaining
    ensures d in current && current[d] == blobs[d]
    ensures Walked(Counted(report, blobs[d], d in live, grace, now, remove), blobs, now,
                   if Goes(blobs[d], d in live, grace, now, remove) then current - {d} else current,
                   remaining - {d}, live, grace, remove)
  {
    var visited := blobs.Keys - remaining;
    var removable := Removable(blobs, live, grace, now, remove);
    CountOne(report, blobs, visited, live, grace, now, remove, d);
    ShrinkOne(blobs, visited, removable, d);
    OneFewer(blobs.Keys, remaining, d);
    assert d in removable <==> Goes(blobs[d], d in live, grace, now, remove);
  }

  /** One call of the walk's callback. */
  method Visit(store: Filesystem, live: set<Digest>, grace: int, now: int, remove: bool, before: SweepReport,
      digest: Digest)
    returns (report: SweepReport)
    requires store.Valid() && digest in store.blobs
    modifies store
    ensures store.Valid()
    ensures report == Counted(before, old(store.blobs)[digest], digest in live, grace, now, remove)
    ensures store.blobs == if Goes(old(store.blobs)[digest], digest in live, grace, now, remove)
                           then old(store.blobs) - {digest} else old(store.blobs)
  {
    var size, modified := |store.blobs[digest].content|, store.blobs[digest].modified;
    report := before.(scanned := before.scanned + 1);
    if digest in live {
      return;
    }
    report := report.(orphaned := report.orphaned + 1);
    if now - modified < grace {
      report := report.(spared := report.spared + 1);
      return;
    }
    if !remove {
      return;
    }
    store.Delete(digest);
    report := report.(removed := report.removed + 1, bytes := report.bytes + size);
  }

  /** Removes the unreferenced blobs older than grace, and only those, counting as it walks
      in whatever order the file system lists them. */
  method Sweep(store: Filesystem, live: set<Digest>, grace: int, now: int, remove: bool) returns (report: SweepReport)
    requires store.Valid()
    modifies store
    ensures store.Valid()
    ensures store.blobs == old(store.blobs) - Removable(old(store.blobs), live, grace, now, remove)
    ensures forall d :: d in store.blobs <==>
              d in old(store.blobs)
              && !(remove && d !in live && now - old(store.blobs)[d].modified >= grace)
    ensures report.scanned == |old(store.blobs)|
    ensures report.orphaned == |set d | d in old(store.blobs) && d !in live|
    ensures report.spared == |set d | d in old(store.blobs) && d !in live && now - old(store.blobs)[d].modified < grace|
    ensures report.removed == |old(store.blobs)| - |store.blobs|
    ensures report.bytes == TotalSize(old(store.blobs), old(store.blobs).Keys - store.blobs.Keys)
    ensures Counts(report, old(store.blobs), old(store.blobs).Keys, live, grace, now,
                   Removable(old(store.blobs), live, grace, now, remove))
  {
    ghost var blobs := store.blobs;
    var remaining := store.blobs.Keys;
    report := SweepReport(0, 0, 0, 0, 0);
    NothingWalked(blobs, live, grace, now, remove);
    while remaining != {}
      invariant store.Valid()
      invariant Walked(report, blobs, now, store.blobs, remaining, live, grace, remove)
      decreases remaining
    {
      var digest :| digest in remaining;
      WalkOne(report, blobs, now, store.blobs, remaining, live, grace, remove, digest);
      report := Visit(store, live, grace, now, remove, report, digest);
      remaining := remaining - {digest};
    }
    EverythingWalked(report, blobs, now, store.blobs, live, grace, remove);
    Reported(report, blobs, store.blobs, live, grace, now, remove);
  }

  /** What the counts mean, blob by blob. */
  lemma Reported(report: SweepReport, blobs: map<Digest, Blob>, left: map<Digest, Blob>, live: set<Digest>,
                 grace: int, now: int, remove: bool)
    requires left == blobs - Removable(blobs, live, grace, now, remove)
    requires Counts(report, blobs, blobs.Keys, live, grace, now, Removable(blobs, live, grace, now, remove))
    ensures forall d :: d in left <==> d in blobs && !(remove && d !in live && now - blobs[d].modified >= grace)
    ensures report.scanned == |blobs|
    ensures report.orphaned == |set d | d in blobs && d !in live|
    ensures report.spared == |set d | d in blobs && d !in live && now - blobs[d].modified < grace|
    ensures report.removed == |blobs| - |left| && report.bytes == TotalSize(blobs, blobs.Keys - left.Keys)
  {
    KindsOfAll(blobs, live, grace, now, remove);
    Difference(blobs, Removable(blobs, live, grace, now, remove));
  }

  lemma KindsOfAll(blobs: map<Digest, Blob>, live: set<Digest>, grace: int, now: int, remove: bool)
    ensures blobs.Keys * Orphans(blobs, live) == set d | d in blobs && d !in live
    ensures blobs.Keys * Young(blobs, live, grace, now) ==
            set d | d in blobs && d !in live && now - blobs[d].modified < grace
    ensures Removable(blobs, live, grace, now, remove) <= blobs.Keys
    ensures forall d :: d in blobs - Removable(blobs, live, grace, now, remove) <==>
              d in blobs && !(remove && d !in live && now - blobs[d].modified >= grace)
  {
    forall d | d in blobs
      ensures d in Removable(blobs, live, grace, now, remove) <==>
                remove && d !in live && now - blobs[d].modified >= grace
    {
      Kinds(blobs, live, grace, now, remove, d);
    }
  }

  lemma Difference(blobs: map<Digest, Blob>, removed: set<Digest>)
    requires removed <= blobs.Keys
    ensures blobs.Keys - (blobs - removed).Keys == removed && |blobs - removed| == |blobs| - |removed|
  {
    assert (blobs - removed).Keys == blobs.Keys - removed;
    assert |blobs - removed| == |(blobs - removed).Keys| && |blobs| == |blobs.Keys|;
  }
}
