/** A sweep running while packages are published: a publish writes its blob, then commits its
    row; a sweep reads the clock, then what is referenced, then examines and deletes blobs one
    by one. Every step of either may fall between any two of the other. */
module Sweeping {
  import opened Wrappers
  import opened Index

  /** A publish before and after Put; stored is the modification time its blob had when Put
      returned, which Put leaves alone on a blob that was already there. */
  datatype Publish = Reading(digest: Digest) | Holding(digest: Digest, stored: int)

  /** A sweep's clock reading, its live set once read, and the blob it has decided to delete. */
  datatype Sweep = Sweep(now: int, live: Option<set<Digest>>, doomed: Option<Digest>)

  datatype State = State(
    grace: int,
    clock: int,
    blobs: map<Digest, int>,
    rows: set<Digest>,
    publishes: map<nat, Publish>,
    sweep: Option<Sweep>)

  datatype Action =
    | Tick(elapsed: nat)
    | BeginPublish(id: nat, digest: Digest)
    | PutBlob(id: nat)
    | Record(id: nat)
    | Abandon(id: nat)
    | BeginSweep
    | ReadLive
    | Examine(digest: Digest)
    | DeleteDoomed
    | EndSweep

  function Initial(grace: int): State { State(grace, 0, map[], {}, map[], None) }

  function Step(s: State, action: Action): Option<State> {
    match action
    case Tick(elapsed) => Some(s.(clock := s.clock + elapsed))
    case BeginPublish(id, digest) =>
      if id in s.publishes then None else Some(s.(publishes := s.publishes[id := Reading(digest)]))
    case PutBlob(id) =>
      if id !in s.publishes || !s.publishes[id].Reading? then None
      else
        var d := s.publishes[id].digest;
        var blobs := if d in s.blobs then s.blobs else s.blobs[d := s.clock];
        Some(s.(blobs := blobs, publishes := s.publishes[id := Holding(d, blobs[d])]))
    case Record(id) =>
      if id !in s.publishes || !s.publishes[id].Holding? then None
      else Some(s.(rows := s.rows + {s.publishes[id].digest}, publishes := s.publishes - {id}))
    case Abandon(id) => Some(s.(publishes := s.publishes - {id}))
    case BeginSweep =>
      if s.sweep.Some? then None else Some(s.(sweep := Some(Sweep(s.clock, None, None))))
    case ReadLive =>
      if s.sweep.None? || s.sweep.value.live.Some? then None
      else Some(s.(sweep := Some(s.sweep.value.(live := Some(s.rows)))))
    case Examine(d) =>
      if s.sweep.None? || s.sweep.value.live.None? || s.sweep.value.doomed.Some? || d !in s.blobs then None
      else
        var w := s.sweep.value;
        if d in w.live.value || w.now - s.blobs[d] < s.grace then Some(s)
        else Some(s.(sweep := Some(w.(doomed := Some(d)))))
    case DeleteDoomed =>
      if s.sweep.None? || s.sweep.value.doomed.None? then None
      else Some(s.(blobs := s.blobs - {s.sweep.value.doomed.value}, sweep := Some(s.sweep.value.(doomed := None))))
    case EndSweep =>
      if s.sweep.None? || s.sweep.value.doomed.Some? then None else Some(s.(sweep := None))
  }

  function Run(s: State, actions: seq<Action>): Option<State>
    decreases |actions|
  {
    if actions == [] then Some(s)
    else
      match Step(s, actions[0])
      case None => None
      case Some(next) => Run(next, actions[1..])
  }

  /** The row commits less than grace after its blob's modification time, or another row
      already references the blob. */
  predicate OnTime(s: State, id: nat) {
    && id in s.publishes && s.publishes[id].Holding?
    && (s.clock < s.publishes[id].stored + s.grace || s.publishes[id].digest in s.rows)
  }

  /** Every row the run commits is committed on time. */
  predicate Timely(s: State, actions: seq<Action>)
    decreases |actions|
  {
    actions == [] ||
    (&& (actions[0].Record? ==> OnTime(s, actions[0].id))
     && (Step(s, actions[0]).Some? ==> Timely(Step(s, actions[0]).value, actions[1..])))
  }

  /** Every committed version can be installed. */
  predicate Installable(s: State) { s.rows <= s.blobs.Keys }

  // --- the invariant ---

  ghost predicate PublishHeld(s: State, p: Publish) {
    p.Holding? ==>
      && p.stored <= s.clock
      && (s.clock < p.stored + s.grace ==> p.digest in s.blobs && p.stored <= s.blobs[p.digest])
  }

  ghost predicate SweepHeld(s: State, w: Sweep) {
    && w.now <= s.clock
    && (w.live.Some? ==> forall d | d in s.rows && d !in w.live.value :: d in s.blobs && w.now - s.blobs[d] < s.grace)
    && (w.doomed.Some? ==>
          && w.live.Some?
          && w.doomed.value in s.blobs && w.doomed.value !in s.rows
          && w.now - s.blobs[w.doomed.value] >= s.grace)
  }

  ghost predicate Sound(s: State) {
    && Installable(s)
    && (forall d | d in s.blobs :: s.blobs[d] <= s.clock)
    && (forall id | id in s.publishes :: PublishHeld(s, s.publishes[id]))
    && (s.sweep.Some? ==> SweepHeld(s, s.sweep.value))
  }

  lemma PutKeepsSound(s: State, id: nat)
    requires Sound(s) && Step(s, PutBlob(id)).Some?
    ensures Sound(Step(s, PutBlob(id)).value)
  {
    var t := Step(s, PutBlob(id)).value;
    assert forall d | d in s.blobs :: d in t.blobs && t.blobs[d] == s.blobs[d];
    forall i | i in t.publishes ensures PublishHeld(t, t.publishes[i]) {
      if i != id { assert PublishHeld(s, s.publishes[i]); }
    }
  }

  lemma RecordKeepsSound(s: State, id: nat)
    requires Sound(s) && OnTime(s, id)
    ensures Sound(Step(s, Record(id)).value)
  {
    assert PublishHeld(s, s.publishes[id]);
  }

  lemma DeleteKeepsSound(s: State)
    requires Sound(s) && Step(s, DeleteDoomed).Some?
    ensures Sound(Step(s, DeleteDoomed).value)
  {
    var t := Step(s, DeleteDoomed).value;
    forall i | i in t.publishes ensures PublishHeld(t, t.publishes[i]) {
      assert PublishHeld(s, s.publishes[i]);
    }
  }

  lemma StepKeepsSound(s: State, action: Action)
    requires Sound(s) && Step(s, action).Some?
    requires action.Record? ==> OnTime(s, action.id)
    ensures Sound(Step(s, action).value)
  {
    match action
    case PutBlob(id) => PutKeepsSound(s, id);
    case Record(id) => RecordKeepsSound(s, id);
    case DeleteDoomed => DeleteKeepsSound(s);
    case _ =>
      var t := Step(s, action).value;
      forall i | i in t.publishes ensures PublishHeld(t, t.publishes[i]) {
        if i in s.publishes { assert PublishHeld(s, s.publishes[i]); }
      }
  }

  lemma {:induction false} RunKeepsSound(s: State, actions: seq<Action>)
    requires Sound(s) && Timely(s, actions) && Run(s, actions).Some?
    ensures Sound(Run(s, actions).value)
    decreases |actions|
  {
    if actions != [] {
      StepKeepsSound(s, actions[0]);
      RunKeepsSound(Step(s, actions[0]).value, actions[1..]);
    }
  }

  /** In every run of publishes interleaved with sweeps, if each row is committed on time then
      every committed version's blob is there. */
  lemma TimelyRunsStayInstallable(grace: int, actions: seq<Action>)
    requires Run(Initial(grace), actions).Some? && Timely(Initial(grace), actions)
    ensures Installable(Run(Initial(grace), actions).value)
  {
    RunKeepsSound(Initial(grace), actions);
  }

  // --- and the bound is exact ---

  /** However a timely run reached this publish, with its blob's time at stored, the clock at
      record and nothing else referencing the blob, committing its row leaves it installable. */
  ghost predicate SafeToRecord(grace: int, stored: int, record: int) {
    forall actions: seq<Action>, id: nat ::
      Run(Initial(grace), actions).Some? && Timely(Initial(grace), actions) ==>
        var s := Run(Initial(grace), actions).value;
        Step(s, Record(id)).Some? && s.clock == record && s.publishes[id].stored == stored
        && s.publishes[id].digest !in s.rows ==>
          Installable(Step(s, Record(id)).value)
  }

  lemma {:induction false} TimelyConcat(s: State, a: seq<Action>, b: seq<Action>)
    requires Run(s, a).Some? && Timely(s, a) && Timely(Run(s, a).value, b)
    ensures Run(s, a + b) == Run(Run(s, a).value, b) && Timely(s, a + b)
    decreases |a|
  {
    if a == [] {
      assert a + b == b;
    } else {
      assert (a + b)[0] == a[0] && (a + b)[1..] == a[1..] + b;
      TimelyConcat(Step(s, a[0]).value, a[1..], b);
    }
  }

  lemma OneMore(s: State, a: seq<Action>, action: Action)
    requires Run(s, a).Some? && Timely(s, a) && !action.Record?
    requires Step(Run(s, a).value, action).Some?
    ensures Run(s, a + [action]) == Step(Run(s, a).value, action) && Timely(s, a + [action])
  {
    var next := Step(Run(s, a).value, action).value;
    assert [action][1..] == [];
    assert Run(next, []) == Some(next);
    TimelyConcat(s, a, [action]);
  }

  /** A first publish leaves its blob behind at stored; much later a second one of the same
      content finds it there, and a sweep takes it before the second can commit. */
  lemma LateRecordLoses(grace: int, stored: nat, record: nat) returns (actions: seq<Action>)
    requires stored <= record && record >= stored + grace
    ensures Run(Initial(grace), actions).Some? && Timely(Initial(grace), actions)
    ensures var s := Run(Initial(grace), actions).value;
            && s.clock == record && 1 in s.publishes && s.publishes[1] == Holding("d", stored)
            && s.rows == {} && !Installable(Step(s, Record(1)).value)
  {
    var i := Initial(grace);
    var left := OrphanLeft(grace, stored, record);
    var s := Run(i, left).value;
    OneMore(i, left, BeginPublish(1, "d"));
    actions := left + [BeginPublish(1, "d")];
    OneMore(i, actions, PutBlob(1));
    actions := actions + [PutBlob(1)];
    OneMore(i, actions, BeginSweep);
    actions := actions + [BeginSweep];
    OneMore(i, actions, ReadLive);
    actions := actions + [ReadLive];
    OneMore(i, actions, Examine("d"));
    actions := actions + [Examine("d")];
    OneMore(i, actions, DeleteDoomed);
    actions := actions + [DeleteDoomed];
  }

  lemma OrphanLeft(grace: int, stored: nat, record: nat) returns (actions: seq<Action>)
    requires stored <= record
    ensures Timely(Initial(grace), actions)
    ensures Run(Initial(grace), actions) == Some(State(grace, record, map["d" := stored], {}, map[], None))
  {
    var i := Initial(grace);
    actions := [];
    OneMore(i, actions, Tick(stored));
    actions := actions + [Tick(stored)];
    OneMore(i, actions, BeginPublish(0, "d"));
    actions := actions + [BeginPublish(0, "d")];
    OneMore(i, actions, PutBlob(0));
    actions := actions + [PutBlob(0)];
    OneMore(i, actions, Abandon(0));
    actions := actions + [Abandon(0)];
    OneMore(i, actions, Tick(record - stored));
    actions := actions + [Tick(record - stored)];
    assert Run(i, actions).value.publishes == map[];
  }

  /** Grace counts from the blob's modification time, not from the Put: a row may be committed
      without a second reference exactly when less than grace has passed since then. */
  lemma GraceIsExact(grace: int, stored: nat, record: nat)
    requires stored <= record
    ensures SafeToRecord(grace, stored, record) <==> record < stored + grace
  {
    if record < stored + grace {
      forall actions: seq<Action>, id: nat | Run(Initial(grace), actions).Some? && Timely(Initial(grace), actions)
        ensures var s := Run(Initial(grace), actions).value;
                Step(s, Record(id)).Some? && s.clock == record && s.publishes[id].stored == stored
                && s.publishes[id].digest !in s.rows ==>
                  Installable(Step(s, Record(id)).value)
      {
        RunKeepsSound(Initial(grace), actions);
        RunKeepsGrace(Initial(grace), actions);
        var s := Run(Initial(grace), actions).value;
        if Step(s, Record(id)).Some? && s.clock == record && s.publishes[id].stored == stored {
          RecordKeepsSound(s, id);
        }
      }
    } else {
      var actions := LateRecordLoses(grace, stored, record);
      var s := Run(Initial(grace), actions).value;
      assert Step(s, Record(1)).Some?;
    }
  }

  lemma {:induction false} RunKeepsGrace(s: State, actions: seq<Action>)
    requires Run(s, actions).Some?
    ensures Run(s, actions).value.grace == s.grace
    decreases |actions|
  {
    if actions != [] { RunKeepsGrace(Step(s, actions[0]).value, actions[1..]); }
  }
}
