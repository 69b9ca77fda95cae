/** internal/api/api.go: serving an index while publishes and yanks commit in between. A
    request asks when the package last changed, looks in the cache, and on a miss reads the
    package, renders it and stores the document under the moment it asked about first. */
module Serving {
  import opened Wrappers
  import opened DocumentCache

  /** A committed state of one package: its updated_at, and the document Build renders of it. */
  datatype Commit<D> = Commit(modified: int, document: D)

  /** How far a request has come. until counts the commits made when it was answered. */
  datatype Phase<D> =
    | Started
    | Stamped(modified: int)
    | Missed(modified: int)
    | Rendered(modified: int, document: D)
    | Answered(document: D, until: nat)
    | NotFound

  /** since counts the commits made to the package when the request began. */
  datatype Request<D> = Request(key: string, since: nat, phase: Phase<D>)

  datatype State<D> = State(
    commits: map<string, seq<Commit<D>>>,
    cache: map<string, Cached<D>>,
    limit: nat,
    requests: map<nat, Request<D>>)

  datatype Action<D> =
    | CommitChange(key: string, commit: Commit<D>)
    | Begin(id: nat, key: string)
    | ReadModified(id: nat)
    | LookUp(id: nat)
    | ReadPackage(id: nat)
    | StoreDocument(id: nat, victims: set<string>)

  function Initial<D>(limit: nat): State<D> { State(map[], map[], limit, map[]) }

  /** Every state a package has been in, oldest first; a package never published has none. */
  function History<D>(s: State<D>, key: string): seq<Commit<D>> {
    if key in s.commits then s.commits[key] else []
  }

  function Moved<D>(s: State<D>, id: nat, phase: Phase<D>): State<D>
    requires id in s.requests
  {
    s.(requests := s.requests[id := s.requests[id].(phase := phase)])
  }

  /** One atomic step, or nothing when the action is not enabled. */
  function Step<D>(s: State<D>, action: Action<D>): Option<State<D>> {
    match action
    case CommitChange(key, commit) => Some(s.(commits := s.commits[key := History(s, key) + [commit]]))
    case Begin(id, key) =>
      if id in s.requests then None
      else Some(s.(requests := s.requests[id := Request(key, |History(s, key)|, Started)]))
    case ReadModified(id) =>
      if id !in s.requests || !s.requests[id].phase.Started? then None
      else
        var h := History(s, s.requests[id].key);
        Some(Moved(s, id, if h == [] then NotFound else Stamped(h[|h| - 1].modified)))
    case LookUp(id) =>
      if id !in s.requests || !s.requests[id].phase.Stamped? then None
      else
        var key, m := s.requests[id].key, s.requests[id].phase.modified;
        if key in s.cache && s.cache[key].modified == m then
          Some(Moved(s, id, Answered(s.cache[key].document, |History(s, key)|)))
        else Some(Moved(s, id, Missed(m)))
    case ReadPackage(id) =>
      if id !in s.requests || !s.requests[id].phase.Missed? then None
      else
        var h := History(s, s.requests[id].key);
        Some(Moved(s, id, if h == [] then NotFound else Rendered(s.requests[id].phase.modified, h[|h| - 1].document)))
    case StoreDocument(id, victims) =>
      if id !in s.requests || !s.requests[id].phase.Rendered? || !Evictable(s.cache, s.limit, victims) then None
      else
        var r := s.requests[id];
        Some(Moved(s, id, Answered(r.phase.document, |History(s, r.key)|))
             .(cache := Stored(s.cache, victims, r.key, Cached(r.phase.modified, r.phase.document))))
  }

  function Run<D>(s: State<D>, actions: seq<Action<D>>): Option<State<D>>
    decreases |actions|
  {
    if actions == [] then Some(s)
    else
      match Step(s, actions[0])
      case None => None
      case Some(next) => Run(next, actions[1..])
  }

  // --- what is promised ---

  /** The document is that of a state current at some moment from the request's start, when
      since commits had been made, to its end, when until had. */
  ghost predicate Fresh<D>(h: seq<Commit<D>>, since: nat, until: nat, document: D) {
    exists j :: since - 1 <= j < until <= |h| && 0 <= j && h[j].document == document
  }

  /** A timestamp that comes back marks the document that every state since its first use
      had. In particular this holds when no two commits share one. */
  ghost predicate Settled<D>(h: seq<Commit<D>>) {
    forall i, k, j | 0 <= i <= k < j < |h| && h[i].modified == h[j].modified :: h[k].document == h[j].document
  }

  /** The document was read at or after a moment the timestamp was current. */
  ghost predicate CameFrom<D>(h: seq<Commit<D>>, from: int, modified: int, document: D) {
    exists i, k :: from <= i <= k < |h| && 0 <= i && h[i].modified == modified && h[k].document == document
  }

  ghost predicate StampedFrom<D>(h: seq<Commit<D>>, from: int, modified: int) {
    exists i :: from <= i < |h| && 0 <= i && h[i].modified == modified
  }

  ghost predicate RequestSound<D>(h: seq<Commit<D>>, r: Request<D>) {
    && r.since <= |h|
    && match r.phase
       case Started => true
       case Stamped(m) => StampedFrom(h, r.since - 1, m)
       case Missed(m) => StampedFrom(h, r.since - 1, m)
       case Rendered(m, d) => CameFrom(h, r.since - 1, m, d)
       case Answered(d, until) => Fresh(h, r.since, until, d)
       case NotFound => r.since == 0
  }

  ghost predicate CacheSound<D>(cache: map<string, Cached<D>>, key: string, h: seq<Commit<D>>) {
    key in cache ==> CameFrom(h, 0, cache[key].modified, cache[key].document)
  }

  /** What holds of one package's cache entry and requests at every moment. */
  ghost predicate Sound<D>(s: State<D>, key: string) {
    && CacheSound(s.cache, key, History(s, key))
    && forall id | id in s.requests && s.requests[id].key == key :: RequestSound(History(s, key), s.requests[id])
  }

  // --- each step ---

  lemma SoundAfterCommit<D>(h: seq<Commit<D>>, c: Commit<D>, r: Request<D>)
    requires RequestSound(h, r)
    ensures RequestSound(h + [c], r)
  {
    var g := h + [c];
    assert forall j | 0 <= j < |h| :: g[j] == h[j];
    match r.phase
    case Started =>
    case Stamped(m) => StampSurvives(h, c, r.since - 1, m);
    case Missed(m) => StampSurvives(h, c, r.since - 1, m);
    case Rendered(m, d) => OriginSurvives(h, c, r.since - 1, m, d);
    case Answered(d, until) =>
      var j :| r.since - 1 <= j < until <= |h| && 0 <= j && h[j].document == d;
      assert g[j].document == d;
    case NotFound =>
  }

  lemma StampSurvives<D>(h: seq<Commit<D>>, c: Commit<D>, from: int, m: int)
    requires StampedFrom(h, from, m)
    ensures StampedFrom(h + [c], from, m)
  {
    var i :| from <= i < |h| && 0 <= i && h[i].modified == m;
    assert (h + [c])[i].modified == m;
  }

  lemma OriginSurvives<D>(h: seq<Commit<D>>, c: Commit<D>, from: int, m: int, d: D)
    requires CameFrom(h, from, m, d)
    ensures CameFrom(h + [c], from, m, d)
  {
    var i, k :| from <= i <= k < |h| && 0 <= i && h[i].modified == m && h[k].document == d;
    assert (h + [c])[i].modified == m && (h + [c])[k].document == d;
  }

  /** A hit serves a fresh document: the heart of why the cache may be trusted. */
  lemma HitIsFresh<D>(h: seq<Commit<D>>, since: nat, m: int, d: D)
    requires Settled(h) && since <= |h|
    requires StampedFrom(h, since - 1, m) && CameFrom(h, 0, m, d)
    ensures Fresh(h, since, |h|, d)
  {
    var now :| since - 1 <= now < |h| && 0 <= now && h[now].modified == m;
    var i, k :| 0 <= i <= k < |h| && h[i].modified == m && h[k].document == d;
    if k < now {
      assert h[now].document == d;
    } else {
      assert since - 1 <= k;
    }
  }

  /** Moving one request on keeps every package sound, when the request stays so. */
  lemma RequestMoves<D>(s: State<D>, key: string, id: nat, phase: Phase<D>)
    requires Sound(s, key) && id in s.requests
    requires s.requests[id].key == key ==> RequestSound(History(s, key), s.requests[id].(phase := phase))
    ensures Sound(Moved(s, id, phase), key)
    ensures History(Moved(s, id, phase), key) == History(s, key)
  {
  }

  lemma CommitKeepsSound<D>(s: State<D>, key: string, k: string, c: Commit<D>)
    requires Sound(s, key)
    ensures Sound(Step(s, CommitChange(k, c)).value, key)
  {
    if k == key {
      var h := History(s, key);
      if key in s.cache { OriginSurvives(h, c, 0, s.cache[key].modified, s.cache[key].document); }
      forall id | id in s.requests && s.requests[id].key == key ensures RequestSound(h + [c], s.requests[id]) {
        SoundAfterCommit(h, c, s.requests[id]);
      }
    }
  }

  lemma StampIsSound<D>(s: State<D>, key: string, id: nat)
    requires Sound(s, key) && Step(s, ReadModified(id)).Some?
    ensures Sound(Step(s, ReadModified(id)).value, key)
  {
    var r := s.requests[id];
    var h := History(s, r.key);
    if h == [] {
      RequestMoves(s, key, id, NotFound);
    } else {
      if r.key == key { assert StampedFrom(h, r.since - 1, h[|h| - 1].modified); }
      RequestMoves(s, key, id, Stamped(h[|h| - 1].modified));
    }
  }

  lemma LookUpIsSound<D>(s: State<D>, key: string, id: nat)
    requires Sound(s, key) && Settled(History(s, key)) && Step(s, LookUp(id)).Some?
    ensures Sound(Step(s, LookUp(id)).value, key)
  {
    var r := s.requests[id];
    var m := r.phase.modified;
    if r.key in s.cache && s.cache[r.key].modified == m {
      if r.key == key { HitIsFresh(History(s, key), r.since, m, s.cache[key].document); }
      RequestMoves(s, key, id, Answered(s.cache[r.key].document, |History(s, r.key)|));
    } else {
      RequestMoves(s, key, id, Missed(m));
    }
  }

  lemma ReadIsLater<D>(h: seq<Commit<D>>, from: int, m: int)
    requires StampedFrom(h, from, m)
    ensures h != [] && CameFrom(h, from, m, h[|h| - 1].document)
  {
    var i :| from <= i < |h| && 0 <= i && h[i].modified == m;
    assert h[|h| - 1].document == h[|h| - 1].document;
  }

  lemma ReadIsSound<D>(s: State<D>, key: string, id: nat)
    requires Sound(s, key) && Step(s, ReadPackage(id)).Some?
    ensures Sound(Step(s, ReadPackage(id)).value, key)
  {
    var r := s.requests[id];
    var h := History(s, r.key);
    if r.key == key { ReadIsLater(h, r.since - 1, r.phase.modified); }
    if h == [] {
      RequestMoves(s, key, id, NotFound);
    } else {
      RequestMoves(s, key, id, Rendered(r.phase.modified, h[|h| - 1].document));
    }
  }

  lemma OriginIsFresh<D>(h: seq<Commit<D>>, since: nat, m: int, d: D)
    requires CameFrom(h, since - 1, m, d)
    ensures Fresh(h, since, |h|, d) && CameFrom(h, 0, m, d)
  {
    var i, k :| since - 1 <= i <= k < |h| && 0 <= i && h[i].modified == m && h[k].document == d;
  }

  lemma StoreIsSound<D>(s: State<D>, key: string, id: nat, victims: set<string>)
    requires Sound(s, key) && Step(s, StoreDocument(id, victims)).Some?
    ensures Sound(Step(s, StoreDocument(id, victims)).value, key)
  {
    var r := s.requests[id];
    var h := History(s, r.key);
    if r.key == key { OriginIsFresh(h, r.since, r.phase.modified, r.phase.document); }
    RequestMoves(s, key, id, Answered(r.phase.document, |h|));
    var stored := Stored(s.cache, victims, r.key, Cached(r.phase.modified, r.phase.document));
    assert CacheSound(stored, key, History(s, key));
  }

  lemma StepKeepsSound<D>(s: State<D>, action: Action<D>, key: string)
    requires Sound(s, key) && Step(s, action).Some?
    requires Settled(History(s, key))
    ensures Sound(Step(s, action).value, key)
  {
    match action
    case CommitChange(k, c) => CommitKeepsSound(s, key, k, c);
    case Begin(_, _) =>
    case ReadModified(id) => StampIsSound(s, key, id);
    case LookUp(id) => LookUpIsSound(s, key, id);
    case ReadPackage(id) => ReadIsSound(s, key, id);
    case StoreDocument(id, victims) => StoreIsSound(s, key, id, victims);
  }

  lemma StepKeepsLimit<D>(s: State<D>, action: Action<D>)
    requires s.limit >= 1 && |s.cache| <= s.limit && Step(s, action).Some?
    ensures Step(s, action).value.limit == s.limit && |Step(s, action).value.cache| <= s.limit
  {
    if action.StoreDocument? {
      var r := s.requests[action.id];
      StoringKeepsLimit(s.cache, s.limit, action.victims, r.key, Cached(r.phase.modified, r.phase.document));
    }
  }

  // --- every run ---

  lemma SettledPrefix<D>(h: seq<Commit<D>>, g: seq<Commit<D>>)
    requires h <= g && Settled(g)
    ensures Settled(h)
  {
    forall i, k, j | 0 <= i <= k < j < |h| && h[i].modified == h[j].modified
      ensures h[k].document == h[j].document
    {
      assert g[i] == h[i] && g[k] == h[k] && g[j] == h[j];
    }
  }

  lemma {:induction false} RunExtends<D>(s: State<D>, actions: seq<Action<D>>, key: string)
    requires Run(s, actions).Some?
    ensures History(s, key) <= History(Run(s, actions).value, key)
    decreases |actions|
  {
    if actions != [] {
      var next := Step(s, actions[0]).value;
      RunExtends(next, actions[1..], key);
      assert History(s, key) <= History(next, key);
    }
  }

  lemma {:induction false} RunKeepsSound<D>(s: State<D>, actions: seq<Action<D>>, key: string)
    requires Sound(s, key) && Run(s, actions).Some?
    requires Settled(History(Run(s, actions).value, key))
    ensures Sound(Run(s, actions).value, key)
    decreases |actions|
  {
    if actions != [] {
      RunExtends(s, actions, key);
      SettledPrefix(History(s, key), History(Run(s, actions).value, key));
      StepKeepsSound(s, actions[0], key);
      RunKeepsSound(Step(s, actions[0]).value, actions[1..], key);
    }
  }

  /** In every interleaving the cache stays within its limit. */
  lemma {:induction false} RunKeepsLimit<D>(s: State<D>, actions: seq<Action<D>>)
    requires s.limit >= 1 && |s.cache| <= s.limit && Run(s, actions).Some?
    ensures |Run(s, actions).value.cache| <= s.limit == Run(s, actions).value.limit
    decreases |actions|
  {
    if actions != [] {
      StepKeepsLimit(s, actions[0]);
      RunKeepsLimit(Step(s, actions[0]).value, actions[1..]);
    }
  }

  /** Every answer to a request for key is fresh, and "not found" is answered only to one
      begun before the first publish. */
  ghost predicate AnswersFresh<D>(s: State<D>, key: string) {
    forall id | id in s.requests && s.requests[id].key == key ::
      var r := s.requests[id];
      && (r.phase.Answered? ==> Fresh(History(s, key), r.since, r.phase.until, r.phase.document))
      && (r.phase.NotFound? ==> r.since == 0)
  }

  /** In every interleaving of commits, requests and evictions, each request is answered with
      the document of a state that was current between its start and its end. */
  lemma EveryRunServesFresh<D>(limit: nat, actions: seq<Action<D>>, key: string)
    requires Run(Initial(limit), actions).Some?
    requires Settled(History(Run(Initial(limit), actions).value, key))
    ensures AnswersFresh(Run(Initial(limit), actions).value, key)
  {
    RunKeepsSound(Initial(limit), actions, key);
  }

  /** Commits that never share a timestamp are settled. */
  lemma UniqueStampsSettle<D>(h: seq<Commit<D>>)
    requires forall i, j | 0 <= i < j < |h| :: h[i].modified != h[j].modified
    ensures Settled(h)
  {
  }

  // --- and only for settled histories ---

  lemma {:induction false} RunConcat<D>(s: State<D>, a: seq<Action<D>>, b: seq<Action<D>>)
    requires Run(s, a).Some?
    ensures Run(s, a + b) == Run(Run(s, a).value, b)
    decreases |a|
  {
    if a == [] {
      assert a + b == b;
    } else {
      assert (a + b)[0] == a[0] && (a + b)[1..] == a[1..] + b;
      RunConcat(Step(s, a[0]).value, a[1..], b);
    }
  }

  function Commits<D>(key: string, cs: seq<Commit<D>>): seq<Action<D>> {
    if cs == [] then [] else [CommitChange(key, cs[0])] + Commits(key, cs[1..])
  }

  lemma RunCons<D>(s: State<D>, a: Action<D>, rest: seq<Action<D>>)
    requires Step(s, a).Some?
    ensures Run(s, [a] + rest) == Run(Step(s, a).value, rest)
  {
    assert ([a] + rest)[1..] == rest;
  }

  lemma CommitStep<D>(s: State<D>, key: string, c: Commit<D>) returns (next: State<D>)
    ensures Step(s, CommitChange(key, c)) == Some(next)
    ensures next.cache == s.cache && next.requests == s.requests && next.limit == s.limit
    ensures History(next, key) == History(s, key) + [c]
  {
    next := Step(s, CommitChange(key, c)).value;
  }

  lemma {:induction false} RunCommits<D>(s: State<D>, key: string, cs: seq<Commit<D>>) returns (t: State<D>)
    ensures Run(s, Commits(key, cs)) == Some(t)
    ensures t.cache == s.cache && t.requests == s.requests && t.limit == s.limit
    ensures History(t, key) == History(s, key) + cs
    decreases |cs|
  {
    if cs == [] {
      t := s;
    } else {
      var next := CommitStep(s, key, cs[0]);
      t := RunCommits(next, key, cs[1..]);
      RunCons(s, CommitChange(key, cs[0]), Commits(key, cs[1..]));
      assert History(s, key) + cs == History(s, key) + [cs[0]] + cs[1..];
    }
  }

  /** On an empty cache, a request that was stamped misses, reads, renders and stores. */
  lemma ReaderStores<D>(s: State<D>, key: string, since: nat, m: int, h: seq<Commit<D>>)
    returns (actions: seq<Action<D>>, t: State<D>)
    requires s.cache == map[] && s.limit == 1 && s.requests == map[0 := Request(key, since, Stamped(m))]
    requires History(s, key) == h != []
    ensures Run(s, actions) == Some(t)
    ensures t.limit == 1 && 1 !in t.requests && History(t, key) == h
    ensures t.cache == map[key := Cached(m, h[|h| - 1].document)]
  {
    var read := TwoSteps(s, LookUp(0), ReadPackage(0));
    assert read.requests[0].phase == Rendered(m, h[|h| - 1].document);
    assert read.cache - {} == map[];
    t := Step(read, StoreDocument(0, {})).value;
    OneStep(read, StoreDocument(0, {}));
    RunConcat(s, [LookUp(0), ReadPackage(0)], [StoreDocument(0, {})]);
    actions := [LookUp(0), ReadPackage(0)] + [StoreDocument(0, {})];
  }

  /** A request stamps state i before anything later commits. */
  lemma ReaderStamps<D>(key: string, h: seq<Commit<D>>, i: nat) returns (actions: seq<Action<D>>, t: State<D>)
    requires i < |h|
    ensures Run(Initial(1), actions) == Some(t)
    ensures t.cache == map[] && t.limit == 1 && t.requests == map[0 := Request(key, i + 1, Stamped(h[i].modified))]
    ensures History(t, key) == h[..i + 1]
  {
    var s := RunCommits(Initial<D>(1), key, h[..i + 1]);
    t := TwoSteps(s, Begin(0, key), ReadModified(0));
    RunConcat(Initial<D>(1), Commits(key, h[..i + 1]), [Begin(0, key), ReadModified(0)]);
    actions := Commits(key, h[..i + 1]) + [Begin(0, key), ReadModified(0)];
  }

  /** A request stamps state i, and reads the package only once state k is current. */
  lemma SlowReader<D>(key: string, h: seq<Commit<D>>, i: nat, k: nat) returns (actions: seq<Action<D>>, t: State<D>)
    requires i <= k < |h|
    ensures Run(Initial(1), actions) == Some(t)
    ensures t.limit == 1 && 1 !in t.requests && History(t, key) == h[..k + 1]
    ensures t.cache == map[key := Cached(h[i].modified, h[k].document)]
  {
    var stamped: State<D>, stores: seq<Action<D>>;
    actions, stamped := ReaderStamps(key, h, i);
    var current := RunCommits(stamped, key, h[i + 1..k + 1]);
    assert h[..i + 1] + h[i + 1..k + 1] == h[..k + 1];
    RunConcat(Initial<D>(1), actions, Commits(key, h[i + 1..k + 1]));
    actions := actions + Commits(key, h[i + 1..k + 1]);
    stores, t := ReaderStores(current, key, i + 1, h[i].modified, h[..k + 1]);
    RunConcat(Initial<D>(1), actions, stores);
    actions := actions + stores;
  }

  lemma OneStep<D>(s: State<D>, a: Action<D>)
    requires Step(s, a).Some?
    ensures Run(s, [a]) == Step(s, a)
  {
    assert [a][1..] == [];
  }

  lemma TwoSteps<D>(s: State<D>, a: Action<D>, b: Action<D>) returns (t: State<D>)
    requires Step(s, a).Some? && Step(Step(s, a).value, b).Some?
    ensures Run(s, [a, b]) == Some(t) && t == Step(Step(s, a).value, b).value
  {
    assert [a, b][1..] == [b];
    OneStep(Step(s, a).value, b);
    t := Step(Step(s, a).value, b).value;
  }

  lemma RunOnward<D>(s: State<D>, actions: seq<Action<D>>, t: State<D>, more: seq<Action<D>>, u: State<D>)
    requires Run(s, actions) == Some(t) && Run(t, more) == Some(u)
    ensures Run(s, actions + more) == Some(u)
  {
    RunConcat(s, actions, more);
  }

  /** A request begun when the cache holds the current timestamp answers from the cache. */
  lemma NextHit<D>(s: State<D>, key: string, m: int, document: D) returns (actions: seq<Action<D>>, t: State<D>)
    requires 1 !in s.requests && s.cache == map[key := Cached(m, document)]
    requires History(s, key) != [] && History(s, key)[|History(s, key)| - 1].modified == m
    ensures Run(s, actions) == Some(t) && History(t, key) == History(s, key)
    ensures 1 in t.requests && t.requests[1] == Request(key, |History(s, key)|, Answered(document, |History(s, key)|))
  {
    var stamped := TwoSteps(s, Begin(1, key), ReadModified(1));
    OneStep(stamped, LookUp(1));
    t := Step(stamped, LookUp(1)).value;
    actions := [Begin(1, key), ReadModified(1)] + [LookUp(1)];
    RunOnward(s, [Begin(1, key), ReadModified(1)], stamped, [LookUp(1)], t);
  }

  /** The slow reader's document is still held once state j is current. */
  lemma SlowReaderThen<D>(key: string, h: seq<Commit<D>>, i: nat, k: nat, j: nat)
      returns (actions: seq<Action<D>>, t: State<D>)
    requires i <= k < j < |h|
    ensures Run(Initial(1), actions) == Some(t)
    ensures 1 !in t.requests && History(t, key) == h[..j + 1]
    ensures t.cache == map[key := Cached(h[i].modified, h[k].document)]
  {
    var s: State<D>;
    actions, s := SlowReader(key, h, i, k);
    t := RunCommits(s, key, h[k + 1..j + 1]);
    RunOnward(Initial<D>(1), actions, s, Commits(key, h[k + 1..j + 1]), t);
    actions := actions + Commits(key, h[k + 1..j + 1]);
    assert h[..k + 1] + h[k + 1..j + 1] == h[..j + 1];
  }

  /** A timestamp used for state i comes back at state j with a different document current: a
      request then hits the document read at k, which no state since its start has had. */
  lemma StaleHit<D>(key: string, h: seq<Commit<D>>, i: nat, k: nat, j: nat) returns (actions: seq<Action<D>>)
    requires i <= k < j < |h| && h[i].modified == h[j].modified && h[k].document != h[j].document
    ensures Run(Initial(1), actions).Some?
    ensures History(Run(Initial(1), actions).value, key) == h
    ensures !AnswersFresh(Run(Initial(1), actions).value, key)
  {
    var s: State<D>, hit: State<D>, more: seq<Action<D>>;
    actions, s := SlowReaderThen(key, h, i, k, j);
    more, hit := NextHit(s, key, h[i].modified, h[k].document);
    RunOnward(Initial<D>(1), actions, s, more, hit);
    actions := actions + more;
    var t := RunCommits(hit, key, h[j + 1..]);
    RunOnward(Initial<D>(1), actions, hit, Commits(key, h[j + 1..]), t);
    actions := actions + Commits(key, h[j + 1..]);
    assert h[..j + 1] + h[j + 1..] == h;
    StaleAnswer(t, key, h, j, h[k].document);
  }

  lemma StaleAnswer<D>(t: State<D>, key: string, h: seq<Commit<D>>, j: nat, document: D)
    requires j < |h| && History(t, key) == h && h[j].document != document
    requires 1 in t.requests && t.requests[1] == Request(key, j + 1, Answered(document, j + 1))
    ensures !AnswersFresh(t, key)
  {
  }

  /** Every run whose commits to key are exactly h answers only fresh documents. */
  ghost predicate Trustworthy<D(!new)>(key: string, h: seq<Commit<D>>) {
    forall limit: nat, actions: seq<Action<D>> ::
      Run(Initial(limit), actions).Some? && History(Run(Initial(limit), actions).value, key) == h ==>
        AnswersFresh(Run(Initial(limit), actions).value, key)
  }

  /** The cache may be trusted with a package exactly when its history is settled. */
  lemma TrustworthyExactlyWhenSettled<D(!new)>(key: string, h: seq<Commit<D>>)
    ensures Trustworthy(key, h) <==> Settled(h)
  {
    if Settled(h) {
      forall limit: nat, actions: seq<Action<D>>
        | Run(Initial(limit), actions).Some? && History(Run(Initial(limit), actions).value, key) == h
        ensures AnswersFresh(Run(Initial(limit), actions).value, key)
      {
        EveryRunServesFresh(limit, actions, key);
      }
    } else {
      var i, k, j :| 0 <= i <= k < j < |h| && h[i].modified == h[j].modified && h[k].document != h[j].document;
      var actions := StaleHit(key, h, i, k, j);
    }
  }
}
