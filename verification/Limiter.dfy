// The request limiter: token buckets for reads and writes.
module Limiter {
  // Times are in minutes and tokens are exact.

  type Key = string

  const MANY := 10000
  const IDLE := 10.0

  datatype Limits = Limits(writeLimit: int, readLimit: int) {
    function Of(write: bool): int {
      if write then writeLimit else readLimit
    }
  }

  datatype Bucket = Bucket(writeTokens: real, readTokens: real, last: real) {
    function Of(write: bool): real {
      if write then writeTokens else readTokens
    }
  }

  type Buckets = map<Key, Bucket>

  datatype Request = Request(key: Key, verb: string, at: real)

  datatype Verdict = Allowed | TryAgainIn(seconds: int)

  predicate IsWrite(verb: string) {
    verb != "GET" && verb != "HEAD" && verb != "OPTIONS"
  }

  function Min(a: real, b: real): real {
    if a < b then a else b
  }

  /** What a budget earns in some minutes: their product, written as a repeated sum. */
  function Earned(minutes: real, limit: int): real
    decreases if limit < 0 then -limit else limit
  {
    if limit == 0 then 0.0
    else if limit > 0 then Earned(minutes, limit - 1) + minutes
    else Earned(minutes, limit + 1) - minutes
  }

  lemma {:induction false} EarnedIsProduct(minutes: real, limit: int)
    ensures Earned(minutes, limit) == minutes * limit as real
    decreases if limit < 0 then -limit else limit
  {
    if limit > 0 {
      EarnedIsProduct(minutes, limit - 1);
      assert (limit - 1) as real == limit as real - 1.0;
    } else if limit < 0 {
      EarnedIsProduct(minutes, limit + 1);
      assert (limit + 1) as real == limit as real + 1.0;
    }
  }

  /** More time earns more, and time adds up. */
  lemma {:induction false} EarnedGrows(a: real, b: real, limit: int)
    requires limit > 0
    ensures Earned(a + b, limit) == Earned(a, limit) + Earned(b, limit)
    ensures a >= 0.0 ==> Earned(a, limit) >= a
  {
    if limit > 1 {
      EarnedGrows(a, b, limit - 1);
    }
  }

  // ----- one request -----

  function Full(limits: Limits, now: real): Bucket {
    Bucket(limits.writeLimit as real, limits.readLimit as real, now)
  }

  function Refilled(limits: Limits, b: Bucket, now: real): Bucket {
    Bucket(
      Min(limits.writeLimit as real, b.writeTokens + Earned(now - b.last, limits.writeLimit)),
      Min(limits.readLimit as real, b.readTokens + Earned(now - b.last, limits.readLimit)),
      now)
  }

  function Taken(b: Bucket, write: bool): Bucket {
    if write then b.(writeTokens := b.writeTokens - 1.0) else b.(readTokens := b.readTokens - 1.0)
  }

  function Wait(tokens: real, limit: int): int
    requires limit > 0
  {
    ((1.0 - tokens) / limit as real * 60.0).Floor + 1
  }

  function Idle(buckets: Buckets, now: real): set<Key> {
    set k | k in buckets && now - buckets[k].last > IDLE
  }

  /** The buckets after a new key has been seen, with or without throwing idle ones away. */
  function WithKey(limits: Limits, buckets: Buckets, key: Key, now: real, evicting: bool): Buckets {
    if key in buckets then buckets
    else
      var more := buckets[key := Full(limits, now)];
      if evicting && |more| > MANY then more - Idle(more, now) else more
  }

  function Decide(limits: Limits, b: Bucket, write: bool): (Bucket, Verdict)
    requires limits.Of(write) > 0
  {
    if b.Of(write) < 1.0 then (b, TryAgainIn(Wait(b.Of(write), limits.Of(write))))
    else (Taken(b, write), Allowed)
  }

  function Step(limits: Limits, buckets: Buckets, r: Request, evicting: bool): (Buckets, Verdict) {
    if limits.Of(IsWrite(r.verb)) <= 0 then (buckets, Allowed)
    else
      var known := WithKey(limits, buckets, r.key, r.at, evicting);
      var b := if r.key in known then known[r.key] else Full(limits, r.at);
      var (after, verdict) := Decide(limits, Refilled(limits, b, r.at), IsWrite(r.verb));
      (known[r.key := after], verdict)
  }

  lemma NewKeyStays(limits: Limits, buckets: Buckets, key: Key, now: real, evicting: bool)
    ensures key in WithKey(limits, buckets, key, now, evicting)
  {
  }

  class RateLimiter {
    var buckets: Buckets
    const limits: Limits

    constructor (writesPerMinute: int, readsPerMinute: int)
      ensures buckets == map[] && limits == Limits(writesPerMinute, readsPerMinute)
    {
      buckets, limits := map[], Limits(writesPerMinute, readsPerMinute);
    }

    method Allow(key: Key, verb: string, now: real) returns (verdict: Verdict)
      modifies this
      ensures (buckets, verdict) == Step(limits, old(buckets), Request(key, verb, now), true)
    {
      var write := IsWrite(verb);
      var limit := limits.readLimit;
      if write {
        limit := limits.writeLimit;
      }
      if limit <= 0 {
        return Allowed;
      }
      EnsureBucket(key, now);
      ghost var known := buckets;
      var b := buckets[key];
      b := Refill(b, now);
      assert b == Refilled(limits, known[key], now);
      var tokens := if write then b.writeTokens else b.readTokens;
      if tokens < 1.0 {
        verdict := TryAgainIn(Wait(tokens, limit));
      } else {
        b := if write then b.(writeTokens := tokens - 1.0) else b.(readTokens := tokens - 1.0);
        verdict := Allowed;
      }
      buckets := buckets[key := b];
    }

    method Refill(b: Bucket, now: real) returns (full: Bucket)
      ensures full == Refilled(limits, b, now)
    {
      var elapsed := now - b.last;
      EarnedIsProduct(elapsed, limits.writeLimit);
      EarnedIsProduct(elapsed, limits.readLimit);
      full := b.(last := now);
      full := full.(writeTokens := Min(limits.writeLimit as real, b.writeTokens + elapsed * limits.writeLimit as real));
      full := full.(readTokens := Min(limits.readLimit as real, b.readTokens + elapsed * limits.readLimit as real));
    }

    method EnsureBucket(key: Key, now: real)
      modifies this
      ensures buckets == WithKey(limits, old(buckets), key, now, true)
      ensures key in buckets
      ensures forall k :: k in old(buckets) && k !in buckets ==>
        key !in old(buckets) && |old(buckets)| >= 10000 && now - old(buckets)[k].last > 10.0
      ensures key !in old(buckets) && |old(buckets)| >= 10000 ==>
        forall k :: k in buckets ==> now - buckets[k].last <= 10.0
    {
      NewKeyStays(limits, buckets, key, now, true);
      if key !in buckets {
        buckets := buckets[key := Bucket(limits.writeLimit as real, limits.readLimit as real, now)];
        if |buckets| > MANY {
          Evict(now);
        }
      }
    }

    method Evict(now: real)
      modifies this
      ensures buckets == old(buckets) - Idle(old(buckets), now)
      ensures forall k :: k in buckets <==> k in old(buckets) && now - old(buckets)[k].last <= 10.0
      ensures forall k :: k in buckets ==> buckets[k] == old(buckets)[k]
    {
      var keys := buckets.Keys;
      var idle := Idle(buckets, now);
      while keys != {}
        invariant keys <= old(buckets).Keys && idle == Idle(old(buckets), now)
        invariant buckets == old(buckets) - (idle - keys)
        decreases keys
      {
        var k :| k in keys;
        if now - buckets[k].last > IDLE {
          buckets := buckets - {k};
        }
        keys := keys - {k};
      }
    }
  }

  // ----- runs -----

  datatype Outcome = Outcome(buckets: Buckets, verdicts: seq<Verdict>)

  function Run(limits: Limits, requests: seq<Request>, evicting: bool): (o: Outcome)
    ensures |o.verdicts| == |requests|
  {
    if requests == [] then Outcome(map[], [])
    else
      var before := Run(limits, requests[..|requests| - 1], evicting);
      var (buckets, verdict) := Step(limits, before.buckets, requests[|requests| - 1], evicting);
      Outcome(buckets, before.verdicts + [verdict])
  }

  /** The clock never runs backwards. */
  ghost predicate InTime(requests: seq<Request>) {
    forall i, j :: 0 <= i <= j < |requests| ==> requests[i].at <= requests[j].at
  }

  ghost predicate Until(requests: seq<Request>, now: real) {
    forall i :: 0 <= i < |requests| ==> requests[i].at <= now
  }

  /** Every budget that limits anything holds between nothing and its limit. */
  ghost predicate Bounded(limits: Limits, b: Bucket) {
    forall write: bool :: limits.Of(write) > 0 ==> 0.0 <= b.Of(write) <= limits.Of(write) as real
  }

  ghost predicate Sound(limits: Limits, buckets: Buckets, now: real) {
    forall k :: k in buckets ==> Bounded(limits, buckets[k]) && buckets[k].last <= now
  }

  lemma RefillOf(limits: Limits, b: Bucket, now: real, write: bool)
    ensures Refilled(limits, b, now).Of(write)
        == Min(limits.Of(write) as real, b.Of(write) + Earned(now - b.last, limits.Of(write)))
  {
  }

  lemma RefillStaysBounded(limits: Limits, b: Bucket, now: real)
    requires Bounded(limits, b) && b.last <= now
    ensures Bounded(limits, Refilled(limits, b, now))
  {
    forall write: bool | limits.Of(write) > 0
      ensures 0.0 <= Refilled(limits, b, now).Of(write) <= limits.Of(write) as real
    {
      RefillOf(limits, b, now, write);
      EarnedGrows(now - b.last, 0.0, limits.Of(write));
    }
  }

  lemma StepStaysSound(limits: Limits, buckets: Buckets, r: Request, evicting: bool)
    requires Sound(limits, buckets, r.at)
    ensures Sound(limits, Step(limits, buckets, r, evicting).0, r.at)
  {
    if limits.Of(IsWrite(r.verb)) > 0 {
      var known := WithKey(limits, buckets, r.key, r.at, evicting);
      WithKeyStaysSound(limits, buckets, r.key, r.at, evicting);
      RefillStaysBounded(limits, known[r.key], r.at);
      DecideStaysBounded(limits, Refilled(limits, known[r.key], r.at), IsWrite(r.verb));
    }
  }

  lemma WithKeyStaysSound(limits: Limits, buckets: Buckets, key: Key, now: real, evicting: bool)
    requires Sound(limits, buckets, now)
    ensures Sound(limits, WithKey(limits, buckets, key, now, evicting), now)
    ensures key in WithKey(limits, buckets, key, now, evicting)
  {
    assert Bounded(limits, Full(limits, now));
  }

  lemma DecideStaysBounded(limits: Limits, b: Bucket, write: bool)
    requires limits.Of(write) > 0 && Bounded(limits, b)
    ensures Bounded(limits, Decide(limits, b, write).0) && Decide(limits, b, write).0.last == b.last
  {
  }

  lemma {:induction false} RunStaysSound(limits: Limits, requests: seq<Request>, evicting: bool, now: real)
    requires InTime(requests) && Until(requests, now)
    ensures Sound(limits, Run(limits, requests, evicting).buckets, now)
  {
    if requests != [] {
      var r := requests[|requests| - 1];
      RunStaysSound(limits, requests[..|requests| - 1], evicting, r.at);
      StepStaysSound(limits, Run(limits, requests[..|requests| - 1], evicting).buckets, r, evicting);
    }
  }

  // ----- throwing idle buckets away cannot be noticed -----

  ghost predicate SameBudgets(limits: Limits, a: Bucket, b: Bucket) {
    a.last == b.last && forall write: bool :: limits.Of(write) > 0 ==> a.Of(write) == b.Of(write)
  }

  /** `some` differs from `all` only by buckets that have been idle long enough to be full again. */
  ghost predicate Alike(limits: Limits, some: Buckets, all: Buckets, now: real) {
    && (forall k :: k in some ==> k in all && SameBudgets(limits, some[k], all[k]))
    && (forall k :: k in all && k !in some ==> now - all[k].last > IDLE)
  }

  lemma IdleBucketIsFull(limits: Limits, b: Bucket, now: real)
    requires Bounded(limits, b) && now - b.last > IDLE
    ensures SameBudgets(limits, Refilled(limits, b, now), Refilled(limits, Full(limits, now), now))
  {
    forall write: bool | limits.Of(write) > 0
      ensures Refilled(limits, b, now).Of(write) == Refilled(limits, Full(limits, now), now).Of(write)
    {
      RefillOf(limits, b, now, write);
      RefillOf(limits, Full(limits, now), now, write);
      EarnedGrows(1.0, now - b.last - 1.0, limits.Of(write));
      EarnedGrows(now - b.last - 1.0, 0.0, limits.Of(write));
      EarnedIsProduct(1.0, limits.Of(write));
      EarnedGrows(0.0, 0.0, limits.Of(write));
    }
  }

  lemma SameBudgetsRefillAlike(limits: Limits, a: Bucket, b: Bucket, now: real)
    requires SameBudgets(limits, a, b)
    ensures SameBudgets(limits, Refilled(limits, a, now), Refilled(limits, b, now))
  {
    forall write: bool | limits.Of(write) > 0
      ensures Refilled(limits, a, now).Of(write) == Refilled(limits, b, now).Of(write)
    {
      RefillOf(limits, a, now, write);
      RefillOf(limits, b, now, write);
    }
  }

  lemma WithKeyStaysAlike(limits: Limits, some: Buckets, all: Buckets, key: Key, now: real)
    requires Alike(limits, some, all, now)
    requires Sound(limits, some, now) && Sound(limits, all, now)
    ensures var (s, a) := (WithKey(limits, some, key, now, true), WithKey(limits, all, key, now, false));
            key in s && key in a
            && SameBudgets(limits, Refilled(limits, s[key], now), Refilled(limits, a[key], now))
            && (forall k :: k in s && k != key ==> k in a && SameBudgets(limits, s[k], a[k]))
            && (forall k :: k in a && k !in s ==> now - a[k].last > IDLE)
  {
    if key in some {
      SameBudgetsRefillAlike(limits, some[key], all[key], now);
    } else if key in all {
      IdleBucketIsFull(limits, all[key], now);
    }
  }

  lemma StepStaysAlike(limits: Limits, some: Buckets, all: Buckets, r: Request)
    requires Alike(limits, some, all, r.at)
    requires Sound(limits, some, r.at) && Sound(limits, all, r.at)
    ensures Step(limits, some, r, true).1 == Step(limits, all, r, false).1
    ensures Alike(limits, Step(limits, some, r, true).0, Step(limits, all, r, false).0, r.at)
  {
    if limits.Of(IsWrite(r.verb)) > 0 {
      WithKeyStaysAlike(limits, some, all, r.key, r.at);
    }
  }

  /** Over any run, the limiter answers every request as one that keeps every bucket for ever. */
  lemma {:induction false} EvictionIsNotObservable(limits: Limits, requests: seq<Request>, now: real)
    requires InTime(requests) && Until(requests, now)
    ensures Run(limits, requests, true).verdicts == Run(limits, requests, false).verdicts
    ensures Alike(limits, Run(limits, requests, true).buckets, Run(limits, requests, false).buckets, now)
  {
    if requests != [] {
      var r := requests[|requests| - 1];
      var before := requests[..|requests| - 1];
      EvictionIsNotObservable(limits, before, r.at);
      RunStaysSound(limits, before, true, r.at);
      RunStaysSound(limits, before, false, r.at);
      StepStaysAlike(limits, Run(limits, before, true).buckets, Run(limits, before, false).buckets, r);
    }
  }

  // ----- how much a window lets through -----

  /** The tokens a key would hold at `now`. */
  function Tokens(limits: Limits, buckets: Buckets, key: Key, write: bool, now: real): real {
    if key in buckets then Refilled(limits, buckets[key], now).Of(write) else limits.Of(write) as real
  }

  predicate Concerns(r: Request, key: Key, write: bool) {
    r.key == key && IsWrite(r.verb) == write
  }

  /** Three verbs read and every other writes, each from its own budget. */
  lemma EachVerbHasItsBudget(limits: Limits, r: Request, key: Key, write: bool)
    ensures var reading := r.verb == "GET" || r.verb == "HEAD" || r.verb == "OPTIONS";
      && (Concerns(r, key, write) <==> r.key == key && write != reading)
      && limits.Of(IsWrite(r.verb)) == (if reading then limits.readLimit else limits.writeLimit)
      && forall b: Bucket :: b.Of(IsWrite(r.verb)) == if reading then b.readTokens else b.writeTokens
  {
  }

  lemma RefillAddsUp(limits: Limits, b: Bucket, now: real, later: real, write: bool)
    requires b.last <= now <= later && limits.Of(write) > 0
    ensures Refilled(limits, Refilled(limits, b, now), later).Of(write) == Refilled(limits, b, later).Of(write)
  {
    RefillOf(limits, b, now, write);
    RefillOf(limits, Refilled(limits, b, now), later, write);
    RefillOf(limits, b, later, write);
    EarnedOver(b.last, now, later, limits.Of(write));
  }

  lemma EarnedOver(from: real, now: real, later: real, limit: int)
    requires limit > 0 && now <= later
    ensures Earned(later - from, limit) == Earned(now - from, limit) + Earned(later - now, limit)
    ensures Earned(later - now, limit) >= 0.0
  {
    EarnedGrows(later - now, now - from, limit);
    assert later - from == (later - now) + (now - from);
  }

  /** Between requests tokens only grow, by the limit for each minute, up to the limit. */
  lemma TokensGrow(limits: Limits, buckets: Buckets, key: Key, write: bool, now: real, later: real)
    requires Sound(limits, buckets, now) && now <= later && limits.Of(write) > 0
    ensures Tokens(limits, buckets, key, write, later)
         == Min(limits.Of(write) as real,
             Tokens(limits, buckets, key, write, now) + Earned(later - now, limits.Of(write)))
  {
    EarnedGrows(later - now, 0.0, limits.Of(write));
    if key in buckets {
      RefillAddsUp(limits, buckets[key], now, later, write);
      RefillOf(limits, Refilled(limits, buckets[key], now), later, write);
    }
  }

  lemma RefilledAtOnce(limits: Limits, b: Bucket, write: bool)
    requires limits.Of(write) > 0 && b.Of(write) <= limits.Of(write) as real
    ensures Refilled(limits, b, b.last).Of(write) == b.Of(write)
  {
    RefillOf(limits, b, b.last, write);
    EarnedGrows(0.0, 0.0, limits.Of(write));
  }

  /** A request takes one token if it is allowed and of this key and kind, and none otherwise; it is
      allowed exactly when there is one to take. */
  lemma StepTakesOneToken(limits: Limits, buckets: Buckets, r: Request, key: Key, write: bool)
    requires Sound(limits, buckets, r.at) && limits.Of(write) > 0
    ensures var (after, verdict) := Step(limits, buckets, r, false);
            var tokens := Tokens(limits, buckets, key, write, r.at);
            (Concerns(r, key, write) ==> (verdict == Allowed <==> tokens >= 1.0))
            && Tokens(limits, after, key, write, r.at)
               == tokens - if Concerns(r, key, write) && verdict == Allowed then 1.0 else 0.0
  {
    if limits.Of(IsWrite(r.verb)) > 0 && r.key == key {
      var known := WithKey(limits, buckets, key, r.at, false);
      var b := Refilled(limits, known[key], r.at);
      RefillOf(limits, known[key], r.at, write);
      var after := Step(limits, buckets, r, false).0[key];
      RefilledAtOnce(limits, after, write);
    }
  }

  // ----- what a key and kind has, seen on its own -----

  /** The tokens of one key and kind after a run, read off its own requests alone. */
  function Account(limits: Limits, requests: seq<Request>, key: Key, write: bool, now: real): real {
    if requests == [] then limits.Of(write) as real
    else
      var r := requests[|requests| - 1];
      var held := Account(limits, requests[..|requests| - 1], key, write, r.at);
      var kept := if Concerns(r, key, write) && held >= 1.0 then held - 1.0 else held;
      Min(limits.Of(write) as real, kept + Earned(now - r.at, limits.Of(write)))
  }

  lemma {:induction false} AccountIsTokens(limits: Limits, requests: seq<Request>, key: Key, write: bool, now: real)
    requires InTime(requests) && Until(requests, now) && limits.Of(write) > 0
    ensures Account(limits, requests, key, write, now)
        == Tokens(limits, Run(limits, requests, false).buckets, key, write, now)
    decreases |requests|
  {
    if requests != [] {
      var r := requests[|requests| - 1];
      var before := requests[..|requests| - 1];
      AccountIsTokens(limits, before, key, write, r.at);
      RunStaysSound(limits, before, false, r.at);
      StepTokens(limits, Run(limits, before, false).buckets, r, key, write, now);
    }
  }

  lemma StepTokens(limits: Limits, buckets: Buckets, r: Request, key: Key, write: bool, now: real)
    requires Sound(limits, buckets, r.at) && r.at <= now && limits.Of(write) > 0
    ensures var held := Tokens(limits, buckets, key, write, r.at);
            Tokens(limits, Step(limits, buckets, r, false).0, key, write, now)
            == Min(limits.Of(write) as real,
                   (if Concerns(r, key, write) && held >= 1.0 then held - 1.0 else held)
                       + Earned(now - r.at, limits.Of(write)))
  {
    StepTakesOneToken(limits, buckets, r, key, write);
    StepStaysSound(limits, buckets, r, false);
    TokensGrow(limits, Step(limits, buckets, r, false).0, key, write, r.at, now);
  }

  lemma VerdictIsTheAccounts(limits: Limits, requests: seq<Request>, r: Request)
    requires InTime(requests + [r])
    ensures Run(limits, requests + [r], true).verdicts
        == Run(limits, requests, true).verdicts + [Answer(limits, requests, r)]
  {
    var all := requests + [r];
    InTimePrefix(requests, [r]);
    assert all[..|all| - 1] == requests && all[|all| - 1] == r;
    EvictionIsNotObservable(limits, requests, r.at);
    RunStaysSound(limits, requests, false, r.at);
    RunStaysSound(limits, requests, true, r.at);
    StepStaysAlike(limits, Run(limits, requests, true).buckets, Run(limits, requests, false).buckets, r);
    if limits.Of(IsWrite(r.verb)) > 0 {
      AccountIsTokens(limits, requests, r.key, IsWrite(r.verb), r.at);
      StepAnswers(limits, Run(limits, requests, false).buckets, r);
    }
  }

  lemma StepAnswers(limits: Limits, buckets: Buckets, r: Request)
    requires Sound(limits, buckets, r.at) && limits.Of(IsWrite(r.verb)) > 0
    ensures var held := Tokens(limits, buckets, r.key, IsWrite(r.verb), r.at);
            Step(limits, buckets, r, false).1
            == if held >= 1.0 then Allowed else TryAgainIn(Wait(held, limits.Of(IsWrite(r.verb))))
  {
    var write := IsWrite(r.verb);
    RefillOf(limits, Full(limits, r.at), r.at, write);
    EarnedGrows(0.0, 0.0, limits.Of(write));
  }

  function Answer(limits: Limits, requests: seq<Request>, r: Request): Verdict {
    var limit := limits.Of(IsWrite(r.verb));
    if limit <= 0 then Allowed
    else
      var held := Account(limits, requests, r.key, IsWrite(r.verb), r.at);
      if held >= 1.0 then Allowed else TryAgainIn(Wait(held, limit))
  }

  ghost predicate Answered(limits: Limits, requests: seq<Request>, verdicts: seq<Verdict>) {
    && |verdicts| == |requests|
    && forall i :: 0 <= i < |requests| ==> verdicts[i] == Answer(limits, requests[..i], requests[i])
  }

  /** Every answer of a run is decided by the account of the request's own key and kind: what other keys
      and the other kind did, and which buckets were thrown away, makes no difference. */
  lemma {:induction false} RunIsAnswered(limits: Limits, requests: seq<Request>)
    requires InTime(requests)
    ensures Answered(limits, requests, Run(limits, requests, true).verdicts)
  {
    if requests != [] {
      var n := |requests| - 1;
      var before := requests[..n];
      assert requests == before + [requests[n]];
      RunIsAnswered(limits, before);
      VerdictIsTheAccounts(limits, before, requests[n]);
      OneMoreAnswer(limits, before, Run(limits, before, true).verdicts, requests[n]);
    }
  }

  lemma OneMoreAnswer(limits: Limits, requests: seq<Request>, verdicts: seq<Verdict>, r: Request)
    requires Answered(limits, requests, verdicts)
    ensures Answered(limits, requests + [r], verdicts + [Answer(limits, requests, r)])
  {
    var all := requests + [r];
    forall i | 0 <= i < |all|
      ensures (verdicts + [Answer(limits, requests, r)])[i] == Answer(limits, all[..i], all[i])
    {
      assert all[..i] == requests[..i];
      assert requests[..|requests|] == requests;
    }
  }

  lemma {:induction false} AccountStaysBounded(limits: Limits, requests: seq<Request>, key: Key, write: bool, now: real)
    requires InTime(requests) && Until(requests, now) && limits.Of(write) > 0
    ensures 0.0 <= Account(limits, requests, key, write, now) <= limits.Of(write) as real
    decreases |requests|
  {
    if requests != [] {
      var r := requests[|requests| - 1];
      AccountStaysBounded(limits, requests[..|requests| - 1], key, write, r.at);
      EarnedGrows(now - r.at, 0.0, limits.Of(write));
    }
  }

  // ----- how much a window lets through -----

  /** How many requests of a key and kind were allowed from position `from` on. */
  function AllowedOf(requests: seq<Request>, verdicts: seq<Verdict>, key: Key, write: bool, from: nat): real
    requires |verdicts| == |requests|
    decreases |requests|
  {
    if |requests| <= from then 0.0
    else
      var n := |requests| - 1;
      AllowedOf(requests[..n], verdicts[..n], key, write, from)
      + if Concerns(requests[n], key, write) && verdicts[n] == Allowed then 1.0 else 0.0
  }

  function AllowedAt(requests: seq<Request>, verdicts: seq<Verdict>, key: Key, write: bool, from: nat): set<nat>
    requires |verdicts| == |requests|
  {
    set i: nat | from <= i < |requests| && Concerns(requests[i], key, write) && verdicts[i] == Allowed
  }

  lemma {:induction false} AllowedAreCounted(requests: seq<Request>, verdicts: seq<Verdict>, key: Key, write: bool,
                                             from: nat)
    requires |verdicts| == |requests|
    ensures AllowedOf(requests, verdicts, key, write, from) == |AllowedAt(requests, verdicts, key, write, from)| as real
    decreases |requests|
  {
    if |requests| <= from {
      assert AllowedAt(requests, verdicts, key, write, from) == {};
    } else {
      var n := |requests| - 1;
      AllowedAreCounted(requests[..n], verdicts[..n], key, write, from);
      OneMoreAllowed(requests, verdicts, key, write, from);
      assert n !in AllowedAt(requests[..n], verdicts[..n], key, write, from);
    }
  }

  lemma OneMoreAllowed(requests: seq<Request>, verdicts: seq<Verdict>, key: Key, write: bool, from: nat)
    requires |verdicts| == |requests| > from
    ensures var n := |requests| - 1;
      AllowedAt(requests, verdicts, key, write, from)
      == AllowedAt(requests[..n], verdicts[..n], key, write, from)
       + if Concerns(requests[n], key, write) && verdicts[n] == Allowed then {n} else {}
  {
  }

  ghost predicate AllowedWhenHeld(limits: Limits, requests: seq<Request>, verdicts: seq<Verdict>) {
    && |verdicts| == |requests|
    && forall i :: 0 <= i < |requests| && verdicts[i] == Allowed && limits.Of(IsWrite(requests[i].verb)) > 0 ==>
         Account(limits, requests[..i], requests[i].key, IsWrite(requests[i].verb), requests[i].at) >= 1.0
  }

  lemma AllowedSoFar(limits: Limits, requests: seq<Request>, verdicts: seq<Verdict>)
    requires AllowedWhenHeld(limits, requests, verdicts) && requests != []
    ensures AllowedWhenHeld(limits, requests[..|requests| - 1], verdicts[..|requests| - 1])
  {
    var n := |requests| - 1;
    forall i | 0 <= i < n
      ensures requests[..n][..i] == requests[..i]
    {
    }
  }

  lemma AnsweredMeansHeld(limits: Limits, requests: seq<Request>, verdicts: seq<Verdict>)
    requires Answered(limits, requests, verdicts)
    ensures AllowedWhenHeld(limits, requests, verdicts)
  {
  }

  /** The last request: what it is granted leaves the account, and the account earns from then on. */
  lemma LastIsTaken(limits: Limits, requests: seq<Request>, verdicts: seq<Verdict>, key: Key, write: bool, from: nat,
                    now: real)
    requires AllowedWhenHeld(limits, requests, verdicts)
    requires Until(requests, now) && from < |requests| && limits.Of(write) > 0
    ensures
      var n := |requests| - 1;
      AllowedOf(requests, verdicts, key, write, from) + Account(limits, requests, key, write, now)
      <= AllowedOf(requests[..n], verdicts[..n], key, write, from)
         + Account(limits, requests[..n], key, write, requests[n].at) + Earned(now - requests[n].at, limits.Of(write))
  {
  }

  lemma {:induction false} AllowedAreTaken(limits: Limits, requests: seq<Request>, verdicts: seq<Verdict>, key: Key,
                                           write: bool, from: nat, now: real)
    requires AllowedWhenHeld(limits, requests, verdicts)
    requires InTime(requests) && Until(requests, now) && from < |requests| && limits.Of(write) > 0
    ensures AllowedOf(requests, verdicts, key, write, from) + Account(limits, requests, key, write, now)
         <= limits.Of(write) as real + Earned(now - requests[from].at, limits.Of(write))
    decreases |requests|
  {
    var n := |requests| - 1;
    var at, before := requests[n].at, requests[..n];
    LastIsTaken(limits, requests, verdicts, key, write, from, now);
    if from < n {
      AllowedSoFar(limits, requests, verdicts);
      AllowedAreTaken(limits, before, verdicts[..n], key, write, from, at);
      EarnedOver(requests[from].at, at, now, limits.Of(write));
    } else {
      AccountStaysBounded(limits, before, key, write, at);
      NothingYet(before, verdicts[..n], key, write, from);
    }
  }

  lemma NothingYet(requests: seq<Request>, verdicts: seq<Verdict>, key: Key, write: bool, from: nat)
    requires |verdicts| == |requests| <= from
    ensures AllowedOf(requests, verdicts, key, write, from) == 0.0
  {
  }

  /** In any stretch of any run, a key is granted at most its limit, plus what its limit earns in the
      time the stretch lasts. */
  lemma WindowIsBounded(limits: Limits, requests: seq<Request>, key: Key, write: bool, from: nat, minutes: real)
    requires InTime(requests) && from < |requests| && limits.Of(write) > 0
    requires requests[|requests| - 1].at - requests[from].at <= minutes
    ensures AllowedOf(requests, Run(limits, requests, true).verdicts, key, write, from)
         <= limits.Of(write) as real + Earned(minutes, limits.Of(write))
  {
    RunIsAnswered(limits, requests);
    AnsweredMeansHeld(limits, requests, Run(limits, requests, true).verdicts);
    AllowedInWindow(limits, requests, Run(limits, requests, true).verdicts, key, write, from, minutes);
  }

  lemma AllowedInWindow(limits: Limits, requests: seq<Request>, verdicts: seq<Verdict>, key: Key, write: bool,
                        from: nat, minutes: real)
    requires AllowedWhenHeld(limits, requests, verdicts)
    requires InTime(requests) && from < |requests| && limits.Of(write) > 0
    requires requests[|requests| - 1].at - requests[from].at <= minutes
    ensures AllowedOf(requests, verdicts, key, write, from)
        <= limits.Of(write) as real + Earned(minutes, limits.Of(write))
  {
    var now := requests[|requests| - 1].at;
    EarnedOver(requests[from].at, now, requests[from].at + minutes, limits.Of(write));
    AllowedAreTaken(limits, requests, verdicts, key, write, from, now);
    AccountStaysBounded(limits, requests, key, write, now);
  }

  // ----- the announced wait -----

  ghost predicate NoneOf(requests: seq<Request>, key: Key, write: bool) {
    forall i :: 0 <= i < |requests| ==> !Concerns(requests[i], key, write)
  }

  lemma {:induction false} AccountWhileWaiting(limits: Limits, requests: seq<Request>, between: seq<Request>, key: Key,
                                               write: bool, from: real, now: real)
    requires InTime(between) && (forall i :: 0 <= i < |between| ==> from <= between[i].at <= now) && from <= now
    requires NoneOf(between, key, write) && limits.Of(write) > 0
    requires forall later :: later >= from ==>
      Account(limits, requests, key, write, later)
          == Min(limits.Of(write) as real,
              Account(limits, requests, key, write, from) + Earned(later - from, limits.Of(write)))
    ensures Account(limits, requests + between, key, write, now)
         == Min(limits.Of(write) as real,
             Account(limits, requests, key, write, from) + Earned(now - from, limits.Of(write)))
    decreases |between|
  {
    if between == [] {
      assert requests + between == requests;
    } else {
      var n := |between| - 1;
      var r := between[n];
      var all := requests + between;
      assert all[..|all| - 1] == requests + between[..n] && all[|all| - 1] == r;
      AccountWhileWaiting(limits, requests, between[..n], key, write, from, r.at);
      EarnedOver(from, r.at, now, limits.Of(write));
    }
  }

  lemma WaitIsLongEnough(tokens: real, limit: int, minutes: real)
    requires limit > 0 && tokens < 1.0
    ensures Wait(tokens, limit) as real / 60.0 <= minutes ==> tokens + Earned(minutes, limit) >= 1.0
    ensures minutes < (Wait(tokens, limit) - 1) as real / 60.0 ==> tokens + Earned(minutes, limit) < 1.0
    ensures Wait(tokens, limit) >= 1
  {
    var need := MinutesNeeded(tokens, limit);
    EarnedGrows(need, minutes - need, limit);
    EarnedGrows(minutes - need, 0.0, limit);
    EarnedGrows(minutes, need - minutes, limit);
    EarnedGrows(need - minutes, 0.0, limit);
  }

  lemma MinutesNeeded(tokens: real, limit: int) returns (need: real)
    requires limit > 0 && tokens < 1.0
    ensures need >= 0.0 && Earned(need, limit) == 1.0 - tokens
    ensures Wait(tokens, limit) == (need * 60.0).Floor + 1
  {
    need := (1.0 - tokens) / limit as real;
    EarnedIsProduct(need, limit);
  }

  /** After a refusal, whatever else is requested meanwhile, the next request of the same key and kind
      is allowed once the announced seconds are over, and refused if it comes more than a second
      before. */
  lemma AnnouncedWaitIsRight(limits: Limits, requests: seq<Request>, last: Request, between: seq<Request>,
                             retry: Request)
    requires InTime(requests + [last] + between + [retry])
    requires Concerns(retry, last.key, IsWrite(last.verb)) && NoneOf(between, last.key, IsWrite(last.verb))
    requires Run(limits, requests + [last], true).verdicts[|requests|].TryAgainIn?
    ensures var seconds := Run(limits, requests + [last], true).verdicts[|requests|].seconds;
            var verdict := Run(limits, requests + [last] + between + [retry],
                true).verdicts[|requests| + 1 + |between|];
            seconds >= 1
            && (retry.at - last.at >= seconds as real / 60.0 ==> verdict == Allowed)
            && (retry.at - last.at < (seconds - 1) as real / 60.0 ==> verdict != Allowed)
  {
    var first := requests + [last];
    var all := first + between;
    InTimePrefix(all, [retry]);
    InTimePrefix(first, between);
    VerdictIsTheAccounts(limits, requests, last);
    VerdictIsTheAccounts(limits, all, retry);
    AnswerAfterRefusal(limits, requests, last, between, retry);
  }

  lemma AnswerAfterRefusal(limits: Limits, requests: seq<Request>, last: Request, between: seq<Request>, retry: Request)
    requires InTime(requests + [last] + between) && Until(requests + [last] + between, retry.at)
    requires Concerns(retry, last.key, IsWrite(last.verb)) && NoneOf(between, last.key, IsWrite(last.verb))
    requires Answer(limits, requests, last).TryAgainIn?
    ensures var seconds := Answer(limits, requests, last).seconds;
            var verdict := Answer(limits, requests + [last] + between, retry);
            seconds >= 1
            && (retry.at - last.at >= seconds as real / 60.0 ==> verdict == Allowed)
            && (retry.at - last.at < (seconds - 1) as real / 60.0 ==> verdict != Allowed)
  {
    var write := IsWrite(last.verb);
    AccountAfterRefusal(limits, requests, last, between, retry.at);
    WaitIsLongEnough(Account(limits, requests, last.key, write, last.at), limits.Of(write), retry.at - last.at);
  }

  lemma AccountAfterRefusal(limits: Limits, requests: seq<Request>, last: Request, between: seq<Request>, now: real)
    requires InTime(requests + [last] + between) && Until(requests + [last] + between, now)
    requires limits.Of(IsWrite(last.verb)) > 0 && NoneOf(between, last.key, IsWrite(last.verb))
    requires Account(limits, requests, last.key, IsWrite(last.verb), last.at) < 1.0
    ensures Account(limits, requests + [last] + between, last.key, IsWrite(last.verb), now)
         == Min(limits.Of(IsWrite(last.verb)) as real,
                Account(limits, requests, last.key, IsWrite(last.verb), last.at)
                    + Earned(now - last.at, limits.Of(IsWrite(last.verb))))
  {
    var write := IsWrite(last.verb);
    var first := requests + [last];
    var all := first + between;
    assert first[..|requests|] == requests && first[|requests|] == last && all[|requests|] == last;
    forall i | 0 <= i < |between|
      ensures last.at <= between[i].at <= now
    {
      assert all[|first| + i] == between[i];
    }
    forall i, j | 0 <= i <= j < |between|
      ensures between[i].at <= between[j].at
    {
      assert all[|first| + i] == between[i] && all[|first| + j] == between[j];
    }
    var held := Account(limits, requests, last.key, write, last.at);
    forall later | later >= last.at
      ensures Account(limits, first, last.key, write, later)
          == Min(limits.Of(write) as real, held + Earned(later - last.at, limits.Of(write)))
    {
    }
    EarnedGrows(0.0, 0.0, limits.Of(write));
    AccountWhileWaiting(limits, first, between, last.key, write, last.at, now);
  }

  lemma InTimePrefix(before: seq<Request>, after: seq<Request>)
    requires InTime(before + after)
    ensures InTime(before)
    ensures forall r :: r in after ==> Until(before, r.at)
  {
    var all := before + after;
    forall r, i | r in after && 0 <= i < |before|
      ensures before[i].at <= r.at
    {
      var j :| 0 <= j < |after| && after[j] == r;
      assert all[|before| + j] == r && all[i] == before[i];
    }
    forall i, j | 0 <= i <= j < |before|
      ensures before[i].at <= before[j].at
    {
      assert all[i] == before[i] && all[j] == before[j];
    }
  }
}
