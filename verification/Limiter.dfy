/** internal/api/limiter.go: a token bucket per key, over exact arithmetic. What a key could
    spend at a moment is its level; every answer is decided by levels alone. */
module Limiter {

  /** A user's id, which is what calls are limited by. */
  newtype Key = id: int | -0x8000_0000_0000_0000 <= id < 0x8000_0000_0000_0000

  const IDLE_BUCKETS: nat := 4096

  datatype Bucket = Bucket(tokens: real, filled: real)

  type Buckets = map<Key, Bucket>

  /** How often a token arrives, and how many a bucket holds. */
  datatype Rate = Rate(every: real, burst: real) {
    predicate Valid() { every > 0.0 && burst >= 0.0 }
  }

  datatype Answer = Answer(wait: real, allowed: bool)

  function Min(x: real, y: real): real { if x <= y then x else y }

  function Refilled(rate: Rate, held: Bucket, now: real): real
    requires rate.every > 0.0
  {
    held.tokens + (now - held.filled) / rate.every
  }

  /** What key could spend at now; a bucket that is not there is full. */
  function Level(rate: Rate, buckets: Buckets, key: Key, now: real): real
    requires rate.every > 0.0
  {
    if key in buckets then Min(rate.burst, Refilled(rate, buckets[key], now)) else rate.burst
  }

  function AnswerOf(rate: Rate, level: real): Answer {
    if level < 1.0 then Answer((1.0 - level) * rate.every, false) else Answer(0.0, true)
  }

  /** The buckets that have not refilled. */
  function Swept(rate: Rate, buckets: Buckets, now: real): Buckets
    requires rate.every > 0.0
  {
    map key | key in buckets && Refilled(rate, buckets[key], now) < rate.burst :: buckets[key]
  }

  /** The key's bucket after a call at a level. */
  function Spent(level: real, now: real): Bucket {
    Bucket(if level < 1.0 then level else level - 1.0, now)
  }

  /** The buckets after a call, sweeping first when a new key finds too many of them. */
  function Taken(rate: Rate, buckets: Buckets, key: Key, now: real): Buckets
    requires rate.every > 0.0
  {
    var room := if key !in buckets && |buckets| >= IDLE_BUCKETS then Swept(rate, buckets, now) else buckets;
    room[key := Spent(Level(rate, buckets, key, now), now)]
  }

  /** The same without ever sweeping. */
  function TakenUnswept(rate: Rate, buckets: Buckets, key: Key, now: real): Buckets
    requires rate.every > 0.0
  {
    buckets[key := Spent(Level(rate, buckets, key, now), now)]
  }

  class Limiter {
    const rate: Rate
    var buckets: Buckets

    constructor (every: real, burst: nat)
      requires every > 0.0
      ensures rate == Rate(every, burst as real) && rate.Valid() && buckets == map[]
    {
      rate := Rate(every, burst as real);
      buckets := map[];
    }

    method Allow(key: Key, now: real) returns (wait: real, allowed: bool)
      requires rate.Valid()
      modifies this
      ensures Answer(wait, allowed) == AnswerOf(rate, Level(rate, old(buckets), key, now))
      ensures buckets == Taken(rate, old(buckets), key, now)
    {
      var level := Level(rate, buckets, key, now);
      if key !in buckets {
        if |buckets| >= IDLE_BUCKETS {
          Sweep(now);
        }
        buckets := buckets[key := Bucket(rate.burst, now)];
        assert (now - now) / rate.every == 0.0;
      }
      var held := buckets[key];
      held := Bucket(Min(rate.burst, held.tokens + (now - held.filled) / rate.every), now);
      assert held.tokens == level;
      if held.tokens < 1.0 {
        buckets := buckets[key := held];
        return (1.0 - held.tokens) * rate.every, false;
      }
      buckets := buckets[key := held.(tokens := held.tokens - 1.0)];
      return 0.0, true;
    }

    /** Drops the buckets that have refilled. */
    method Sweep(now: real)
      requires rate.Valid()
      modifies this
      ensures buckets == Swept(rate, old(buckets), now)
    {
      var r := rate;
      DeleteWhere((held: Bucket) => r.every > 0.0 && Refilled(r, held, now) >= r.burst);
    }

    method DeleteWhere(refilled: Bucket -> bool)
      modifies this
      ensures buckets == map key | key in old(buckets) && !refilled(old(buckets)[key]) :: old(buckets)[key]
    {
      var remaining := buckets.Keys;
      while remaining != {}
        invariant remaining <= buckets.Keys && buckets.Keys <= old(buckets).Keys
        invariant forall key | key in buckets :: buckets[key] == old(buckets)[key]
        invariant forall key | key in old(buckets) && key !in remaining ::
                    key in buckets <==> !refilled(old(buckets)[key])
        decreases remaining
      {
        var key :| key in remaining;
        if refilled(buckets[key]) {
          buckets := buckets - {key};
        }
        remaining := remaining - {key};
      }
    }
  }

  // --- arithmetic of refilling ---

  lemma DivideSum(x: real, y: real, every: real)
    requires every > 0.0
    ensures x / every + y / every == (x + y) / every
  {
  }

  lemma DivideMonotone(x: real, every: real)
    requires every > 0.0
    ensures x >= 0.0 <==> x / every >= 0.0
  {
  }

  lemma DivideBound(x: real, y: real, every: real)
    requires every > 0.0
    ensures x / every >= y <==> x >= y * every
  {
    DivideMonotone(x - y * every, every);
    assert (x - y * every) / every == x / every - y by {
      assert y * every / every == y;
      DivideSum(x, -(y * every), every);
    }
  }

  /** Left alone, a level only refills: by the time gone, up to the burst. */
  lemma LevelLater(rate: Rate, buckets: Buckets, key: Key, now: real, later: real)
    requires rate.Valid() && now <= later
    ensures Level(rate, buckets, key, later) ==
            Min(rate.burst, Level(rate, buckets, key, now) + (later - now) / rate.every)
  {
    DivideMonotone(later - now, rate.every);
    if key in buckets {
      DivideSum(now - buckets[key].filled, later - now, rate.every);
      assert now - buckets[key].filled + (later - now) == later - buckets[key].filled;
    }
  }

  // --- one call ---

  /** Sweeping changes no level, now or later. */
  lemma SweepKeepsLevels(rate: Rate, buckets: Buckets, key: Key, now: real, later: real)
    requires rate.Valid() && now <= later
    ensures Level(rate, Swept(rate, buckets, now), key, later) == Level(rate, buckets, key, later)
  {
    LevelLater(rate, buckets, key, now, later);
    DivideMonotone(later - now, rate.every);
  }

  /** A call spends one token when it is granted and none when refused, from its own key only. */
  lemma TakenLevels(rate: Rate, buckets: Buckets, key: Key, now: real, other: Key, later: real)
    requires rate.Valid() && now <= later
    ensures Level(rate, TakenUnswept(rate, buckets, key, now), other, later) ==
            Level(rate, Taken(rate, buckets, key, now), other, later)
    ensures other != key ==>
              Level(rate, Taken(rate, buckets, key, now), other, later) == Level(rate, buckets, other, later)
    ensures Level(rate, Taken(rate, buckets, key, now), key, later) ==
            Min(rate.burst, Spent(Level(rate, buckets, key, now), now).tokens + (later - now) / rate.every)
  {
    SweepKeepsLevels(rate, buckets, other, now, later);
  }

  /** A refused call changes no level of any key at any later moment, so no later answer. */
  lemma RefusalChangesNothing(rate: Rate, buckets: Buckets, key: Key, now: real, other: Key, later: real)
    requires rate.Valid() && now <= later
    requires !AnswerOf(rate, Level(rate, buckets, key, now)).allowed
    ensures Level(rate, Taken(rate, buckets, key, now), other, later) == Level(rate, buckets, other, later)
  {
    TakenLevels(rate, buckets, key, now, other, later);
    LevelLater(rate, buckets, key, now, later);
  }

  /** The wait answered is exact: without another call for the key, a later one is granted
      precisely once the wait has passed, when a bucket can hold a token at all. */
  lemma WaitIsExact(rate: Rate, buckets: Buckets, key: Key, now: real, later: real)
    requires rate.Valid() && now <= later
    requires !AnswerOf(rate, Level(rate, buckets, key, now)).allowed
    ensures AnswerOf(rate, Level(rate, Taken(rate, buckets, key, now), key, later)).allowed
            <==> later - now >= AnswerOf(rate, Level(rate, buckets, key, now)).wait && rate.burst >= 1.0
  {
    RefusalChangesNothing(rate, buckets, key, now, key, later);
    LevelLater(rate, buckets, key, now, later);
    DivideBound(later - now, 1.0 - Level(rate, buckets, key, now), rate.every);
  }

  // --- every run ---

  datatype Call = Call(key: Key, at: real)

  /** Calls whose times never go back, none before start and none after end. */
  predicate Timed(calls: seq<Call>, start: real, end: real) {
    if calls == [] then start <= end
    else start <= calls[0].at && Timed(calls[1..], calls[0].at, end)
  }

  function Run(rate: Rate, buckets: Buckets, calls: seq<Call>): seq<Answer>
    requires rate.every > 0.0
    decreases |calls|
  {
    if calls == [] then []
    else
      [AnswerOf(rate, Level(rate, buckets, calls[0].key, calls[0].at))]
      + Run(rate, Taken(rate, buckets, calls[0].key, calls[0].at), calls[1..])
  }

  function RunUnswept(rate: Rate, buckets: Buckets, calls: seq<Call>): seq<Answer>
    requires rate.every > 0.0
    decreases |calls|
  {
    if calls == [] then []
    else
      [AnswerOf(rate, Level(rate, buckets, calls[0].key, calls[0].at))]
      + RunUnswept(rate, TakenUnswept(rate, buckets, calls[0].key, calls[0].at), calls[1..])
  }

  ghost predicate SameLevels(rate: Rate, a: Buckets, b: Buckets, from: real)
    requires rate.every > 0.0
  {
    forall key: Key, t: real | t >= from :: Level(rate, a, key, t) == Level(rate, b, key, t)
  }

  lemma TakenSameLevels(rate: Rate, a: Buckets, b: Buckets, key: Key, now: real)
    requires rate.Valid() && SameLevels(rate, a, b, now)
    ensures SameLevels(rate, Taken(rate, a, key, now), TakenUnswept(rate, b, key, now), now)
  {
    forall k: Key, t: real | t >= now
      ensures Level(rate, Taken(rate, a, key, now), k, t) == Level(rate, TakenUnswept(rate, b, key, now), k, t)
    {
      TakenLevels(rate, a, key, now, k, t);
      TakenLevels(rate, b, key, now, k, t);
    }
  }

  /** A limiter that sweeps answers every sequence of calls exactly as one that never does. */
  lemma {:induction false} SweepingIsInvisible(rate: Rate, a: Buckets, b: Buckets, calls: seq<Call>,
      start: real, end: real)
    requires rate.Valid() && Timed(calls, start, end) && SameLevels(rate, a, b, start)
    ensures Run(rate, a, calls) == RunUnswept(rate, b, calls)
    decreases |calls|
  {
    if calls != [] {
      var c := calls[0];
      assert SameLevels(rate, a, b, c.at);
      TakenSameLevels(rate, a, b, c.key, c.at);
      SweepingIsInvisible(rate, Taken(rate, a, c.key, c.at), TakenUnswept(rate, b, c.key, c.at), calls[1..], c.at, end);
    }
  }

  // --- refused calls ---

  lemma {:induction false} RunConcat(rate: Rate, buckets: Buckets, a: seq<Call>, b: seq<Call>)
    requires rate.every > 0.0
    ensures Run(rate, buckets, a + b) == Run(rate, buckets, a) + Run(rate, After(rate, buckets, a), b)
    ensures |Run(rate, buckets, a)| == |a|
    decreases |a|
  {
    if a == [] {
      assert a + b == b;
    } else {
      assert (a + b)[0] == a[0] && (a + b)[1..] == a[1..] + b;
      RunConcat(rate, Taken(rate, buckets, a[0].key, a[0].at), a[1..], b);
    }
  }

  lemma {:induction false} TimedSince(before: seq<Call>, c: Call, after: seq<Call>, start: real, end: real)
    requires Timed(before + [c] + after, start, end)
    ensures Timed(after, c.at, end)
    decreases |before|
  {
    var calls := before + [c] + after;
    if before == [] {
      assert calls[1..] == after;
    } else {
      assert calls[0] == before[0] && calls[1..] == before[1..] + [c] + after;
      TimedSince(before[1..], c, after, before[0].at, end);
    }
  }

  /** A refused call might as well not have been made: every other answer of a run is the same
      without it. */
  lemma RefusedCallsCanBeDropped(rate: Rate, buckets: Buckets, before: seq<Call>, c: Call, after: seq<Call>,
                                 start: real, end: real)
    requires rate.Valid() && Timed(before + [c] + after, start, end)
    requires !AnswerOf(rate, Level(rate, After(rate, buckets, before), c.key, c.at)).allowed
    ensures var answers := Run(rate, buckets, before + [c] + after);
            && |answers| == |before| + 1 + |after| && !answers[|before|].allowed
            && Run(rate, buckets, before + after) == answers[..|before|] + answers[|before| + 1..]
  {
    var held := After(rate, buckets, before);
    TimedSince(before, c, after, start, end);
    SameAfterRefusal(rate, held, c, after, end);
    RunConcat(rate, buckets, before, after);
    RunConcat(rate, buckets, before, [c] + after);
    assert before + [c] + after == before + ([c] + after);
    OneMore(rate, held, c, after);
    Without(Run(rate, buckets, before), AnswerOf(rate, Level(rate, held, c.key, c.at)), Run(rate, held, after));
  }

  lemma Without(a: seq<Answer>, x: Answer, b: seq<Answer>)
    ensures var all := a + ([x] + b);
            |all| == |a| + 1 + |b| && all[|a|] == x && all[..|a|] + all[|a| + 1..] == a + b
  {
  }

  lemma OneMore(rate: Rate, buckets: Buckets, c: Call, after: seq<Call>)
    requires rate.every > 0.0
    ensures Run(rate, buckets, [c] + after) ==
            [AnswerOf(rate, Level(rate, buckets, c.key, c.at))] + Run(rate, Taken(rate, buckets, c.key, c.at), after)
    ensures |Run(rate, Taken(rate, buckets, c.key, c.at), after)| == |after|
  {
    assert ([c] + after)[1..] == after;
    RunConcat(rate, Taken(rate, buckets, c.key, c.at), after, []);
  }

  lemma SameAfterRefusal(rate: Rate, held: Buckets, c: Call, after: seq<Call>, end: real)
    requires rate.Valid() && Timed(after, c.at, end)
    requires !AnswerOf(rate, Level(rate, held, c.key, c.at)).allowed
    ensures Run(rate, Taken(rate, held, c.key, c.at), after) == Run(rate, held, after)
  {
    var refused := Taken(rate, held, c.key, c.at);
    forall key: Key, t: real | t >= c.at ensures Level(rate, refused, key, t) == Level(rate, held, key, t) {
      RefusalChangesNothing(rate, held, c.key, c.at, key, t);
    }
    SweepingIsInvisible(rate, refused, held, after, c.at, end);
    SweepingIsInvisible(rate, held, held, after, c.at, end);
  }

  /** How many calls for key a run grants. */
  function Granted(rate: Rate, buckets: Buckets, calls: seq<Call>, key: Key): nat
    requires rate.every > 0.0
    decreases |calls|
  {
    if calls == [] then 0
    else
      var c := calls[0];
      (if c.key == key && AnswerOf(rate, Level(rate, buckets, key, c.at)).allowed then 1 else 0)
      + Granted(rate, Taken(rate, buckets, c.key, c.at), calls[1..], key)
  }

  /** Every key has something between nothing and a full bucket. */
  ghost predicate Solvent(rate: Rate, buckets: Buckets, from: real)
    requires rate.every > 0.0
  {
    forall key: Key, t: real | t >= from :: Level(rate, buckets, key, t) >= 0.0
  }

  lemma TakenSolvent(rate: Rate, buckets: Buckets, key: Key, now: real)
    requires rate.Valid() && Solvent(rate, buckets, now)
    ensures Solvent(rate, Taken(rate, buckets, key, now), now)
  {
    forall k: Key, t: real | t >= now ensures Level(rate, Taken(rate, buckets, key, now), k, t) >= 0.0 {
      TakenLevels(rate, buckets, key, now, k, t);
      DivideMonotone(t - now, rate.every);
      assert Level(rate, buckets, key, now) >= 0.0;
    }
  }

  /** The potential argument: what a run grants a key is paid for by the level it starts with
      and what the time refills. */
  lemma {:induction false} GrantsArePaidFor(rate: Rate, buckets: Buckets, calls: seq<Call>, key: Key,
      start: real, end: real)
    requires rate.Valid() && Timed(calls, start, end) && Solvent(rate, buckets, start)
    ensures Granted(rate, buckets, calls, key) as real <= Level(rate, buckets, key, start) + (end - start) / rate.every
    ensures start <= end
    decreases |calls|
  {
    if calls == [] {
      DivideMonotone(end - start, rate.every);
      assert Level(rate, buckets, key, start) >= 0.0;
    } else {
      var c := calls[0];
      var next := Taken(rate, buckets, c.key, c.at);
      TakenSolvent(rate, buckets, c.key, c.at);
      GrantsArePaidFor(rate, next, calls[1..], key, c.at, end);
      LevelLater(rate, buckets, key, start, c.at);
      TakenNow(rate, buckets, c.key, c.at, key);
      DivideSum(c.at - start, end - c.at, rate.every);
      assert c.at - start + (end - c.at) == end - start;
    }
  }

  /** A call moves the levels at its own moment by what it takes. */
  lemma TakenNow(rate: Rate, buckets: Buckets, key: Key, now: real, other: Key)
    requires rate.Valid()
    ensures other != key ==> Level(rate, Taken(rate, buckets, key, now), other, now) == Level(rate, buckets, other, now)
    ensures Level(rate, Taken(rate, buckets, key, now), key, now) ==
            Min(rate.burst, Spent(Level(rate, buckets, key, now), now).tokens)
  {
    TakenLevels(rate, buckets, key, now, other, now);
    assert (now - now) / rate.every == 0.0;
  }

  lemma {:induction false} RunSolvent(rate: Rate, buckets: Buckets, calls: seq<Call>, start: real, end: real)
    requires rate.Valid() && Timed(calls, start, end) && Solvent(rate, buckets, start)
    ensures Solvent(rate, After(rate, buckets, calls), end)
    decreases |calls|
  {
    if calls != [] {
      var c := calls[0];
      TakenSolvent(rate, buckets, c.key, c.at);
      RunSolvent(rate, Taken(rate, buckets, c.key, c.at), calls[1..], c.at, end);
    }
  }

  function After(rate: Rate, buckets: Buckets, calls: seq<Call>): Buckets
    requires rate.every > 0.0
    decreases |calls|
  {
    if calls == [] then buckets
    else After(rate, Taken(rate, buckets, calls[0].key, calls[0].at), calls[1..])
  }

  /** Over any window of any run from a fresh limiter, one key is granted at most the burst
      plus one call per interval elapsed. */
  lemma WindowIsBounded(rate: Rate, before: seq<Call>, window: seq<Call>, key: Key, origin: real, start: real,
      end: real)
    requires rate.Valid() && Timed(before, origin, start) && Timed(window, start, end)
    ensures Granted(rate, After(rate, map[], before), window, key) as real <= rate.burst + (end - start) / rate.every
  {
    assert Solvent(rate, map[], origin);
    RunSolvent(rate, map[], before, origin, start);
    GrantsArePaidFor(rate, After(rate, map[], before), window, key, start, end);
  }

  // --- and the bound is attained ---

  lemma {:induction false} GrantedConcat(rate: Rate, buckets: Buckets, a: seq<Call>, b: seq<Call>, key: Key)
    requires rate.every > 0.0
    ensures Granted(rate, buckets, a + b, key) ==
            Granted(rate, buckets, a, key) + Granted(rate, After(rate, buckets, a), b, key)
    decreases |a|
  {
    if a == [] {
      assert a + b == b;
    } else {
      assert (a + b)[0] == a[0] && (a + b)[1..] == a[1..] + b;
      GrantedConcat(rate, Taken(rate, buckets, a[0].key, a[0].at), a[1..], b, key);
    }
  }

  /** n calls at one moment. */
  function AtOnce(key: Key, now: real, n: nat): seq<Call> {
    if n == 0 then [] else [Call(key, now)] + AtOnce(key, now, n - 1)
  }

  /** n calls, one each time a token arrives after now. */
  function Paced(key: Key, every: real, now: real, n: nat): seq<Call>
    decreases n
  {
    if n == 0 then [] else [Call(key, now + every)] + Paced(key, every, now + every, n - 1)
  }

  lemma {:induction false} AtOnceEmpties(rate: Rate, buckets: Buckets, key: Key, now: real, n: nat)
    requires rate.Valid() && n as real <= rate.burst && Level(rate, buckets, key, now) == n as real
    ensures Granted(rate, buckets, AtOnce(key, now, n), key) == n
    ensures Level(rate, After(rate, buckets, AtOnce(key, now, n)), key, now) == 0.0
    decreases n
  {
    if n > 0 {
      TakenNow(rate, buckets, key, now, key);
      AtOnceEmpties(rate, Taken(rate, buckets, key, now), key, now, n - 1);
    }
  }

  lemma {:induction false} PacedAreGranted(rate: Rate, buckets: Buckets, key: Key, now: real, n: nat)
    requires rate.Valid() && rate.burst >= 1.0 && Level(rate, buckets, key, now) == 0.0
    ensures Granted(rate, buckets, Paced(key, rate.every, now, n), key) == n
    decreases n
  {
    if n > 0 {
      var next := now + rate.every;
      LevelLater(rate, buckets, key, now, next);
      assert next - now == rate.every && rate.every / rate.every == 1.0;
      TakenNow(rate, buckets, key, next, key);
      PacedAreGranted(rate, Taken(rate, buckets, key, next), key, next, n - 1);
    }
  }

  /** The time n tokens take to arrive. */
  function Span(every: real, n: nat): real { if n == 0 then 0.0 else every + Span(every, n - 1) }

  lemma {:induction false} SpanDivided(every: real, n: nat)
    requires every > 0.0
    ensures Span(every, n) / every == n as real
  {
    if n > 0 {
      SpanDivided(every, n - 1);
      DivideSum(every, Span(every, n - 1), every);
      assert every / every == 1.0;
    }
  }

  lemma {:induction false} PacedIsTimed(key: Key, every: real, now: real, n: nat)
    requires every > 0.0
    ensures Timed(Paced(key, every, now, n), now, now + Span(every, n))
    decreases n
  {
    if n > 0 {
      PacedIsTimed(key, every, now + every, n - 1);
      assert now + every + Span(every, n - 1) == now + Span(every, n);
    }
  }

  lemma {:induction false} AtOnceIsTimed(key: Key, now: real, n: nat, rest: seq<Call>, end: real)
    requires Timed(rest, now, end)
    ensures Timed(AtOnce(key, now, n) + rest, now, end)
    decreases n
  {
    if n == 0 {
      assert AtOnce(key, now, n) + rest == rest;
    } else {
      AtOnceIsTimed(key, now, n - 1, rest, end);
      assert (AtOnce(key, now, n) + rest)[1..] == AtOnce(key, now, n - 1) + rest;
    }
  }

  /** A burst, and then a call whenever a token arrives, is granted in full: over the time
      those tokens take, exactly the bound. */
  lemma WindowIsAttained(rate: Rate, burst: nat, key: Key, start: real, n: nat)
    requires rate.Valid() && rate.burst == burst as real && burst >= 1
    ensures var window := AtOnce(key, start, burst) + Paced(key, rate.every, start, n);
            && Timed(window, start, start + Span(rate.every, n))
            && Granted(rate, map[], window, key) as real == rate.burst + Span(rate.every, n) / rate.every
  {
    PacedIsTimed(key, rate.every, start, n);
    AtOnceIsTimed(key, start, burst, Paced(key, rate.every, start, n), start + Span(rate.every, n));
    BurstThenPace(rate, burst, key, start, n);
    SpanDivided(rate.every, n);
  }

  lemma BurstThenPace(rate: Rate, burst: nat, key: Key, start: real, n: nat)
    requires rate.Valid() && rate.burst == burst as real && burst >= 1
    ensures Granted(rate, map[], AtOnce(key, start, burst) + Paced(key, rate.every, start, n), key) == burst + n
  {
    var first := AtOnce(key, start, burst);
    AtOnceEmpties(rate, map[], key, start, burst);
    PacedAreGranted(rate, After(rate, map[], first), key, start, n);
    GrantedConcat(rate, map[], first, Paced(key, rate.every, start, n), key);
  }
}
