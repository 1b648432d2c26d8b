/**
 The commands of the rate limiter and of the login counter against the Redis server, and the
 two callers that act on the answers: the rate-limit middleware and the master-key check.
 Every command takes the server's time `at`; an operation runs its commands at one time.
 */
module RateLimiter {
  import opened Wrappers
  import opened SlidingWindow
  import opened AdminLockout

  /** A sorted set of timestamps with the end of its time to live. */
  datatype SortedSet = SortedSet(scores: set<real>, deadline: real)

  /** A cached limit override with the end of its time to live. */
  datatype Limit = Limit(value: int, deadline: real)

  class Redis {
    var zsets: map<string, SortedSet>
    var limits: map<string, Limit>
    var counters: map<string, Counter>

    constructor ()
      ensures zsets == map[] && limits == map[] && counters == map[]
    {
      zsets, limits, counters := map[], map[], map[];
    }
  }

  /** What a sorted set shows at a given time; a key that is not there shows nothing. */
  function ScoresAt(zsets: map<string, SortedSet>, key: string, at: real): set<real> {
    if key in zsets then Live(zsets[key].scores, zsets[key].deadline, at) else {}
  }

  function CounterAt(counters: map<string, Counter>, key: string, at: real): Option<Counter> {
    if key in counters then Present(Some(counters[key]), at) else None
  }

  /** One rate-limit check answers and leaves behind what `Check` says, keeps the key alive for a
      second more than the window, and touches no other identifier. */
  method CheckRateLimit(redis: Redis, identifier: string, limit: int, window: nat, now: real, at: real)
      returns (answer: Answer)
    modifies redis`zsets
    ensures var key := "ratelimit:" + identifier;
            var (left, expected) := Check(ScoresAt(old(redis.zsets), key, at), now, limit, window);
            && answer == expected
            && (forall later :: at <= later ==>
                  ScoresAt(redis.zsets, key, later) == Live(left, at + (window + 1) as real, later))
            && redis.zsets - {key} == old(redis.zsets) - {key}
  {
    var key := "ratelimit:" + identifier;
    var scores := ScoresAt(redis.zsets, key, at);
    scores := Pruned(scores, now - window as real);
    scores := scores + {now};
    var count := |scores|;
    var deadline := at + (window + 1) as real;
    redis.zsets := redis.zsets[key := SortedSet(scores, deadline)];
    if count > limit {
      scores := scores - {now};
      if scores == {} {
        redis.zsets := redis.zsets - {key};
        return Answer(false, 0, 1);
      }
      redis.zsets := redis.zsets[key := SortedSet(scores, deadline)];
      assert exists x :: x in scores && forall y :: y in scores ==> x <= y by {
        assert Oldest(scores) in scores;
      }
      var oldest :| oldest in scores && forall y :: y in scores ==> oldest <= y;
      assert oldest == Oldest(scores);
      return Answer(false, 0, Max(1, Truncate(oldest + window as real - now) + 1));
    }
    return Answer(true, limit - count, 0);
  }

  /// The middleware

  datatype Request = Request(path: string, apiKey: Option<string>, clientIp: string)

  /** The request goes on, perhaps with the remaining quota in a header; or it is refused with 429. */
  datatype Reply = Forwarded(remaining: Option<int>) | TooManyRequests(retryAfter: int)

  predicate AnswersWith(reply: Reply, answer: Answer) {
    reply == if answer.allowed then Forwarded(Some(answer.remaining)) else TooManyRequests(answer.retryAfter)
  }

  predicate Exempt(path: string) {
    path in {"/health", "/docs", "/openapi.json"}
  }

  /** A key that is missing or empty does not identify the caller. */
  predicate HasKey(request: Request) {
    request.apiKey.Some? && request.apiKey.value != ""
  }

  function Identifier(request: Request, hash: string -> string): string {
    if HasKey(request) then
      var h := hash(request.apiKey.value);
      if |h| <= 16 then h else h[..16]
    else
      request.clientIp
  }

  /** The limit in force: a cached override of the caller's key while it lives, zero included. */
  function LimitFor(limits: map<string, Limit>, request: Request, hash: string -> string, at: real, standard: int): int {
    if HasKey(request) then
      var h := hash(request.apiKey.value);
      if h in limits && at < limits[h].deadline then limits[h].value else standard
    else
      standard
  }

  /** A request of an exempt path, or without a Redis server, is forwarded and leaves no trace.
      Any other is counted under its own identifier and no other, and is refused exactly when the
      limiter with its limit says so. */
  method Dispatch(redis: Redis?, request: Request, hash: string -> string, standard: int, now: real, at: real)
      returns (reply: Reply)
    modifies if redis == null then {} else {redis}
    ensures redis != null ==> redis.limits == old(redis.limits) && redis.counters == old(redis.counters)
    ensures request.path in {"/health", "/docs", "/openapi.json"} || redis == null ==>
              reply == Forwarded(None) && (redis != null ==> redis.zsets == old(redis.zsets))
    ensures request.path !in {"/health", "/docs", "/openapi.json"} && redis != null ==>
              var key := "ratelimit:" + Identifier(request, hash);
              var limit := LimitFor(redis.limits, request, hash, at, standard);
              var (left, answer) := Check(ScoresAt(old(redis.zsets), key, at), now, limit, 60);
              && AnswersWith(reply, answer)
              && (forall later :: at <= later ==> ScoresAt(redis.zsets, key, later) == Live(left, at + 61.0, later))
              && redis.zsets - {key} == old(redis.zsets) - {key}
  {
    if Exempt(request.path) || redis == null {
      return Forwarded(None);
    }
    var identifier, limit;
    if HasKey(request) {
      var h := hash(request.apiKey.value);
      identifier := if |h| <= 16 then h else h[..16];
      limit := if h in redis.limits && at < redis.limits[h].deadline then redis.limits[h].value else standard;
    } else {
      identifier, limit := request.clientIp, standard;
    }
    var answer := CheckRateLimit(redis, identifier, limit, 60, now, at);
    if !answer.allowed {
      return TooManyRequests(answer.retryAfter);
    }
    return Forwarded(Some(answer.remaining));
  }

  /** Requests with different identifiers do not share a sorted set. */
  lemma IdentifiersAreSeparate(a: string, b: string)
    ensures "ratelimit:" + a == "ratelimit:" + b <==> a == b
  {
    assert ("ratelimit:" + a)[10..] == a && ("ratelimit:" + b)[10..] == b;
  }

  /** Requests with keys share a sorted set exactly when the hashes of their keys agree in the first
      16 characters. */
  lemma KeyedIdentifiers(a: Request, b: Request, hash: string -> string)
    requires a.apiKey.Some? && a.apiKey.value != "" && 16 <= |hash(a.apiKey.value)|
    requires b.apiKey.Some? && b.apiKey.value != "" && 16 <= |hash(b.apiKey.value)|
    ensures Identifier(a, hash) == Identifier(b, hash) <==>
            forall i :: 0 <= i < 16 ==> hash(a.apiKey.value)[i] == hash(b.apiKey.value)[i]
    ensures |Identifier(a, hash)| == 16
  {
    var x, y := hash(a.apiKey.value), hash(b.apiKey.value);
    assert Identifier(a, hash) == x[..16] && Identifier(b, hash) == y[..16];
    if x[..16] == y[..16] {
      forall i | 0 <= i < 16
        ensures x[i] == y[i]
      {
        assert x[..16][i] == y[..16][i];
      }
    }
  }

  /** And requests without one exactly when they come from the same address. */
  lemma KeylessIdentifiers(a: Request, b: Request, hash: string -> string)
    requires a.apiKey in {None, Some("")} && b.apiKey in {None, Some("")}
    ensures Identifier(a, hash) == Identifier(b, hash) <==> a.clientIp == b.clientIp
  {
  }

  /** An override that is cached is the limit until its 60 seconds are over, and not any more then. */
  lemma CachedOverrideIsLimit(
    limits: map<string, Limit>, request: Request, hash: string -> string, limit: int, at: real, later: real,
    standard: int)
    requires request.apiKey.Some? && request.apiKey.value != ""
    ensures var cached := limits[hash(request.apiKey.value) := Limit(limit, at + 60.0)];
            LimitFor(cached, request, hash, later, standard) == if later < at + 60.0 then limit else standard
  {
  }

  /** Without a cached override of its own key, a request has the standard limit. */
  lemma StandardLimitOtherwise(
    limits: map<string, Limit>, request: Request, hash: string -> string, at: real, standard: int)
    requires request.apiKey in {None, Some("")} || hash(request.apiKey.value) !in limits
    ensures LimitFor(limits, request, hash, at, standard) == standard
  {
  }

  /// The master-key check

  const MAX_ATTEMPTS: nat := 5
  const LOCKOUT_SECONDS := 300.0

  datatype Login = Accepted | TooManyAttempts | InvalidKey

  function CounterKey(ip: string): string {
    "admin_auth_fail:" + ip
  }

  /** The value an increment returns. */
  function NextCount(counter: Option<Counter>): nat {
    if counter.Some? then counter.value.count + 1 else 1
  }

  /** The first attempt on a counter sets its time to live, no later one changes it. */
  function AfterAttempt(counter: Option<Counter>, at: real, window: real): Counter {
    var n := NextCount(counter);
    Counter(n, if n == 1 then Some(at + window) else counter.value.deadline)
  }

  /** What one attempt does to the counter when nothing comes between its commands is what the
      steps of the interleaved protocol do. */
  lemma AttemptIsProtocolSteps(s: State, at: real, window: real)
    requires s.clock <= at && 0.0 < window && (s.key.Some? ==> 1 <= s.key.value.count)
    ensures var s1 := Apply(s, Incr(at), window);
            var n := NextCount(Present(s.key, at));
            && s1.log != [] && s1.log[|s1.log| - 1].count == n
            && (n == 1 ==> Enabled(s1, Expire(|s.log|, at)))
            && Some(AfterAttempt(Present(s.key, at), at, window)) ==
                 (if n == 1 then Apply(s1, Expire(|s.log|, at), window) else s1).key
  {
  }

  /** And a login that succeeds, one more step, leaves no counter. */
  lemma LoginIsProtocolSteps(s: State, at: real, window: real)
    requires s.clock <= at && 0.0 < window && (s.key.Some? ==> 1 <= s.key.value.count)
    ensures var s1 := Apply(s, Incr(at), window);
            var s2 := if NextCount(Present(s.key, at)) == 1 then Apply(s1, Expire(|s.log|, at), window) else s1;
            Enabled(s2, Reset(at)) && Apply(s2, Reset(at), window).key.None?
  {
  }

  method CheckAndRecordAdminAttempt(redis: Redis, ip: string, maxAttempts: nat, window: real, at: real)
      returns (blocked: bool)
    modifies redis`counters
    ensures var before := CounterAt(old(redis.counters), CounterKey(ip), at);
            && blocked == (NextCount(before) > maxAttempts)
            && redis.counters == old(redis.counters)[CounterKey(ip) := AfterAttempt(before, at, window)]
  {
    var key := CounterKey(ip);
    var counter := CounterAt(redis.counters, key, at);
    counter := Some(if counter.Some? then Counter(counter.value.count + 1, counter.value.deadline)
                    else Counter(1, None));
    redis.counters := redis.counters[key := counter.value];
    var count := counter.value.count;
    if count == 1 {
      redis.counters := redis.counters[key := Counter(count, Some(at + window))];
    }
    return count > maxAttempts;
  }

  method ResetAdminAuthCounter(redis: Redis, ip: string)
    modifies redis`counters
    ensures redis.counters == old(redis.counters) - {CounterKey(ip)}
  {
    redis.counters := redis.counters - {CounterKey(ip)};
  }

  /** An attempt is compared with the master key only while the counter allows it; success
      deletes the counter, failure of either kind leaves the attempt counted. */
  method RequireMasterKey(redis: Redis, ip: string, given: string, master: string, at: real) returns (login: Login)
    modifies redis`counters
    ensures var before := CounterAt(old(redis.counters), CounterKey(ip), at);
            && (login == TooManyAttempts <==> NextCount(before) > 5)
            && (login == Accepted <==> NextCount(before) <= 5 && given == master)
            && redis.counters ==
                 if login == Accepted then old(redis.counters) - {CounterKey(ip)}
                 else old(redis.counters)[CounterKey(ip) := AfterAttempt(before, at, 300.0)]
  {
    var blocked := CheckAndRecordAdminAttempt(redis, ip, MAX_ATTEMPTS, LOCKOUT_SECONDS, at);
    if blocked {
      return TooManyAttempts;
    }
    if given != master {
      return InvalidKey;
    }
    ResetAdminAuthCounter(redis, ip);
    return Accepted;
  }
}
