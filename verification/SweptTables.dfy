/** The sweep's transition system against what it stands for: the rows of the tables, the
    blobs of the file system, and the sweep of internal/maintain/maintain.go run on its own. */
module SweptTables {
  import opened Wrappers
  import opened Versions
  import opened PackageNames
  import opened Index
  import opened Tables
  import opened Registry
  import opened RegistryRuns
  import opened RegistryLaws
  import Storage
  import Sweeping
  import Publishing

  /** Every checksum a version references. */
  function Live(versions: map<VersionId, VersionRow>): set<Digest> { set v | v in versions :: versions[v].checksum }

  function Times(blobs: map<Digest, Storage.Blob>): map<Digest, int> { map d | d in blobs :: blobs[d].modified }

  /** The state's rows are the tables' and its blobs the file system's. */
  ghost predicate Reflects(s: Sweeping.State, versions: map<VersionId, VersionRow>, blobs: map<Digest, Storage.Blob>) {
    s.rows == Live(versions) && s.blobs == Times(blobs)
  }

  /** So what the one proves of its rows holds of the registry's. */
  lemma InstallableMeansInstallable(s: Sweeping.State, versions: map<VersionId, VersionRow>,
      blobs: map<Digest, Storage.Blob>)
    requires Reflects(s, versions, blobs)
    ensures Sweeping.Installable(s) <==> Publishing.Installable(versions, blobs)
  {
    assert Times(blobs).Keys == blobs.Keys;
    forall v | v in versions ensures versions[v].checksum in s.rows {
    }
  }

  // --- the transactions are its steps ---

  lemma RecordAddsItsChecksum(t: Tables, record: Record, now: int)
    requires Consistent(t) && Sound(record) && Recorded(t, record, now).Ok?
    ensures Live(Recorded(t, record, now).value.versions) == Live(t.versions) + {record.checksum}
  {
    var package, version := RecordedMeans(t, record, now);
    NewRowAddsItsChecksum(t.versions, version, VersionRowFor(package, record.package.value, record, now));
  }

  lemma NewRowAddsItsChecksum(versions: map<VersionId, VersionRow>, id: VersionId, row: VersionRow)
    requires id !in versions
    ensures Live(versions[id := row]) == Live(versions) + {row.checksum}
  {
    var after := versions[id := row];
    forall d | d in Live(versions) + {row.checksum} ensures d in Live(after) {
      if d == row.checksum {
        assert after[id].checksum == d;
      } else {
        var v :| v in versions && versions[v].checksum == d;
        assert after[v].checksum == d;
      }
    }
  }

  lemma MarkingKeepsLive(versions: map<VersionId, VersionRow>, package: PackageId, version: Version, yanked: bool)
    ensures Live(MarkedRows(versions, package, version, yanked)) == Live(versions)
  {
    var after := MarkedRows(versions, package, version, yanked);
    forall d | d in Live(versions) ensures d in Live(after) {
      var v :| v in versions && versions[v].checksum == d;
      assert after[v].checksum == d;
    }
  }

  lemma YankKeepsLive(t: Tables, name: Name, version: Version, yanked: bool, user: UserId, now: int)
    requires Yanked(t, name, version, yanked, user, now).Ok?
    ensures Live(Yanked(t, name, version, yanked, user, now).value.versions) == Live(t.versions)
  {
    var id := PackageNamed(t.packages, name.Normalized()).value;
    YankedIs(t, id, name, version, yanked, user, now);
    MarkingKeepsLive(t.versions, id, version, yanked);
  }

  lemma OthersKeepLive(t: Tables, op: Operation)
    requires Outcome(t, op).Err? || !op.Publishing?
    ensures Live(Next(t, op).versions) == Live(t.versions)
  {
    if Outcome(t, op).Ok? {
      if op.Yanking? {
        YankKeepsLive(t, op.name, op.version, op.yanked, op.user, op.now);
      } else {
        OwnersAndScopesTouchNone(t, op);
      }
    }
  }

  /** A record that commits adds its checksum to the live set, and nothing else changes it. */
  lemma LiveFollowsRecords(t: Tables, op: Operation)
    requires Consistent(t) && Admissible(op)
    ensures Live(Next(t, op).versions) ==
            if op.Publishing? && Outcome(t, op).Ok? then Live(t.versions) + {op.record.checksum} else Live(t.versions)
  {
    if op.Publishing? && Outcome(t, op).Ok? {
      RecordAddsItsChecksum(t, op.record, op.now);
    } else {
      OthersKeepLive(t, op);
    }
  }

  /** A publish that holds its blob takes the Record step when its transaction commits, and is
      abandoned when it does not; every other transaction leaves the state as it was. */
  lemma TransactionsAreSteps(s: Sweeping.State, t: Tables, blobs: map<Digest, Storage.Blob>, op: Operation, id: nat)
    requires Consistent(t) && Admissible(op) && Reflects(s, t.versions, blobs)
    requires op.Publishing? ==>
               id in s.publishes && s.publishes[id].Holding? && s.publishes[id].digest == op.record.checksum
    ensures var action := if Outcome(t, op).Ok? then Sweeping.Record(id) else Sweeping.Abandon(id);
            op.Publishing? ==>
              Sweeping.Step(s, action).Some? && Reflects(Sweeping.Step(s, action).value, Next(t, op).versions, blobs)
    ensures !op.Publishing? ==> Reflects(s, Next(t, op).versions, blobs)
  {
    LiveFollowsRecords(t, op);
    if op.Publishing? {
      if Outcome(t, op).Ok? {
        RecordIsAStep(s, t.versions, Next(t, op).versions, blobs, id);
      } else {
        AbandonIsAStep(s, t.versions, blobs, id);
      }
    }
  }

  lemma RecordIsAStep(s: Sweeping.State, versions: map<VersionId, VersionRow>, after: map<VersionId, VersionRow>,
                      blobs: map<Digest, Storage.Blob>, id: nat)
    requires Reflects(s, versions, blobs) && id in s.publishes && s.publishes[id].Holding?
    requires Live(after) == Live(versions) + {s.publishes[id].digest}
    ensures var step := Sweeping.Step(s, Sweeping.Record(id)); step.Some? && Reflects(step.value, after, blobs)
  {
  }

  lemma AbandonIsAStep(s: Sweeping.State, versions: map<VersionId, VersionRow>,
      blobs: map<Digest, Storage.Blob>, id: nat)
    requires Reflects(s, versions, blobs)
    ensures var step := Sweeping.Step(s, Sweeping.Abandon(id)); step.Some? && Reflects(step.value, versions, blobs)
  {
  }

  /** Put is the PutBlob step: a blob already there keeps its time. */
  lemma PutIsAStep(s: Sweeping.State, versions: map<VersionId, VersionRow>, blobs: map<Digest, Storage.Blob>, id: nat,
                   digest: Digest, content: Storage.Content)
    requires Reflects(s, versions, blobs) && id in s.publishes && s.publishes[id] == Sweeping.Reading(digest)
    ensures var after := if digest in blobs then blobs else blobs[digest := Storage.Blob(content, s.clock)];
            var step := Sweeping.Step(s, Sweeping.PutBlob(id));
            && step.Some? && Reflects(step.value, versions, after)
            && step.value.publishes[id] == Sweeping.Holding(digest, after[digest].modified)
  {
  }

  // --- a sweep with nothing between its steps ---

  predicate Doomed(s: Sweeping.State, now: int, d: Digest)
    requires d in s.blobs
  {
    d !in s.rows && now - s.blobs[d] >= s.grace
  }

  /** Examining each blob in turn, and deleting it when it is doomed. */
  function Examining(s: Sweeping.State, now: int, order: seq<Digest>): seq<Sweeping.Action>
    requires forall d | d in order :: d in s.blobs
  {
    if order == [] then []
    else
      [Sweeping.Examine(order[0])]
      + (if Doomed(s, now, order[0]) then [Sweeping.DeleteDoomed] else [])
      + Examining(s, now, order[1..])
  }

  function SweepAlone(s: Sweeping.State, order: seq<Digest>): seq<Sweeping.Action>
    requires forall d | d in order :: d in s.blobs
  {
    [Sweeping.BeginSweep, Sweeping.ReadLive] + Examining(s, s.clock, order) + [Sweeping.EndSweep]
  }

  lemma RunCons(s: Sweeping.State, a: Sweeping.Action, rest: seq<Sweeping.Action>)
    requires Sweeping.Step(s, a).Some?
    ensures Sweeping.Run(s, [a] + rest) == Sweeping.Run(Sweeping.Step(s, a).value, rest)
  {
    assert ([a] + rest)[1..] == rest;
  }

  /** The state midway through a sweep of s that has left these blobs. */
  function Midway(s: Sweeping.State, left: map<Digest, int>): Sweeping.State {
    s.(blobs := left, sweep := Some(Sweeping.Sweep(s.clock, Some(s.rows), None)))
  }

  lemma ExaminesOne(s: Sweeping.State, left: map<Digest, int>, d: Digest, rest: seq<Sweeping.Action>)
    requires d in s.blobs && d in left && left[d] == s.blobs[d]
    ensures Sweeping.Run(Midway(s, left), [Sweeping.Examine(d)]
              + (if Doomed(s, s.clock, d) then [Sweeping.DeleteDoomed] else []) + rest)
            == Sweeping.Run(Midway(s, if Doomed(s, s.clock, d) then left - {d} else left), rest)
  {
    var u := Midway(s, left);
    if Doomed(s, s.clock, d) {
      var v := Sweeping.Step(u, Sweeping.Examine(d)).value;
      RunCons(u, Sweeping.Examine(d), [Sweeping.DeleteDoomed] + rest);
      RunCons(v, Sweeping.DeleteDoomed, rest);
      assert [Sweeping.Examine(d)] + [Sweeping.DeleteDoomed] + rest
          == [Sweeping.Examine(d)] + ([Sweeping.DeleteDoomed] + rest);
    } else {
      RunCons(u, Sweeping.Examine(d), rest);
      assert [Sweeping.Examine(d)] + [] + rest == [Sweeping.Examine(d)] + rest;
    }
  }

  ghost function Taken(s: Sweeping.State, order: seq<Digest>): set<Digest>
    requires forall d | d in order :: d in s.blobs
  {
    set d | d in order && Doomed(s, s.clock, d)
  }

  lemma {:induction false} ExaminesAll(s: Sweeping.State, left: map<Digest, int>, order: seq<Digest>,
      rest: seq<Sweeping.Action>)
    requires forall d | d in order :: d in s.blobs && d in left && left[d] == s.blobs[d]
    requires forall i, j | 0 <= i < j < |order| :: order[i] != order[j]
    ensures Sweeping.Run(Midway(s, left), Examining(s, s.clock, order) + rest) ==
            Sweeping.Run(Midway(s, left - Taken(s, order)), rest)
    decreases |order|
  {
    if order == [] {
      assert Examining(s, s.clock, order) + rest == rest;
      assert left - Taken(s, order) == left;
    } else {
      var d := order[0];
      var head := if Doomed(s, s.clock, d) then [Sweeping.DeleteDoomed] else [];
      var kept := if Doomed(s, s.clock, d) then left - {d} else left;
      var later := Examining(s, s.clock, order[1..]);
      assert Examining(s, s.clock, order) + rest == [Sweeping.Examine(d)] + head + (later + rest);
      ExaminesOne(s, left, d, later + rest);
      assert d !in order[1..];
      ExaminesAll(s, kept, order[1..], rest);
      TakenFirst(s, left, order);
    }
  }

  lemma TakenFirst(s: Sweeping.State, left: map<Digest, int>, order: seq<Digest>)
    requires order != [] && forall d | d in order :: d in s.blobs
    ensures (if Doomed(s, s.clock, order[0]) then left - {order[0]} else left) - Taken(s, order[1..]) ==
            left - Taken(s, order)
  {
    assert order == [order[0]] + order[1..];
  }

  lemma SweepAloneTakes(s: Sweeping.State, order: seq<Digest>)
    requires s.sweep.None? && forall d | d in order :: d in s.blobs
    requires forall i, j | 0 <= i < j < |order| :: order[i] != order[j]
    ensures Sweeping.Run(s, SweepAlone(s, order)) == Some(s.(blobs := s.blobs - Taken(s, order)))
  {
    var examining := Examining(s, s.clock, order);
    var u := Sweeping.Step(s, Sweeping.BeginSweep).value;
    RunCons(s, Sweeping.BeginSweep, [Sweeping.ReadLive] + (examining + [Sweeping.EndSweep]));
    RunCons(u, Sweeping.ReadLive, examining + [Sweeping.EndSweep]);
    assert SweepAlone(s, order) == [Sweeping.BeginSweep] + ([Sweeping.ReadLive] + (examining + [Sweeping.EndSweep]));
    ExaminesAll(s, s.blobs, order, [Sweeping.EndSweep]);
    RunCons(Midway(s, s.blobs - Taken(s, order)), Sweeping.EndSweep, []);
  }

  /** Run on its own, in any order, the sweep leaves the blobs that the sweep of the file system
      leaves when its live set is what the tables reference and its clock the state's. */
  lemma SweepAloneIsTheSweep(s: Sweeping.State, order: seq<Digest>, versions: map<VersionId, VersionRow>,
                             blobs: map<Digest, Storage.Blob>)
    requires s.sweep.None? && Reflects(s, versions, blobs)
    requires forall d :: d in order <==> d in s.blobs
    requires forall i, j | 0 <= i < j < |order| :: order[i] != order[j]
    ensures var swept := Sweeping.Run(s, SweepAlone(s, order));
            && swept.Some? && swept.value == s.(blobs := swept.value.blobs)
            && Reflects(swept.value, versions, blobs - Storage.Removable(blobs, Live(versions), s.grace, s.clock, true))
  {
    SweepAloneTakes(s, order);
    TakenIsRemovable(s, order, versions, blobs);
  }

  lemma TakenIsRemovable(s: Sweeping.State, order: seq<Digest>, versions: map<VersionId, VersionRow>,
                         blobs: map<Digest, Storage.Blob>)
    requires Reflects(s, versions, blobs) && forall d :: d in order <==> d in s.blobs
    ensures var removable := Storage.Removable(blobs, Live(versions), s.grace, s.clock, true);
            Taken(s, order) == removable && s.blobs - Taken(s, order) == Times(blobs - removable)
  {
  }
}
