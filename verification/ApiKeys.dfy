/**
 API keys: the rows, the validation of a presented key, and the cached limit override; first the
 service, one operation at a time, then validations and administrators at work at the same time.
 */
module ApiKeys {
  import opened Wrappers
  import opened RateLimiter
  import SlidingWindow

  type Id = nat

  datatype ApiKey = ApiKey(
    keyHash: string, name: Option<string>, comment: Option<string>, active: bool,
    domains: Option<seq<string>>, rateLimit: Option<int>, expiresAt: Option<real>,
    lastUsedAt: Option<real>, totalRequests: nat)

  type Keys = map<Id, ApiKey>

  datatype Update = Update(
    name: FieldUpdate<string>, comment: FieldUpdate<string>, domains: FieldUpdate<seq<string>>,
    rateLimit: FieldUpdate<int>, active: FieldUpdate<bool>)

  datatype NewKey = NewKey(
    name: Option<string>, comment: Option<string>, domains: Option<seq<string>>,
    rateLimit: Option<int>, expiresAt: Option<real>)

  datatype Error = NotFound | IntegrityError

  function Created(hash: string, data: NewKey): (k: ApiKey)
    ensures k.keyHash == hash && k.active && k.lastUsedAt == None && k.totalRequests == 0
    ensures k.name == data.name && k.comment == data.comment && k.domains == data.domains
    ensures k.rateLimit == data.rateLimit && k.expiresAt == data.expiresAt
  {
    ApiKey(hash, data.name, data.comment, true, data.domains, data.rateLimit, data.expiresAt, None, 0)
  }

  /** The row after a partial update; hash, expiry and usage are not among the fields. */
  function Updated(k: ApiKey, u: Update): (r: ApiKey)
    ensures r.keyHash == k.keyHash && r.expiresAt == k.expiresAt
    ensures r.lastUsedAt == k.lastUsedAt && r.totalRequests == k.totalRequests
    ensures (u.name.Unset? ==> r.name == k.name) && (u.comment.Unset? ==> r.comment == k.comment)
    ensures (u.domains.Unset? ==> r.domains == k.domains) && (u.rateLimit.Unset? ==> r.rateLimit == k.rateLimit)
    ensures (u.name.Null? ==> r.name == None) && (u.comment.Null? ==> r.comment == None)
    ensures (u.domains.Null? ==> r.domains == None) && (u.rateLimit.Null? ==> r.rateLimit == None)
    ensures (u.name.Set? ==> r.name == Some(u.name.value)) && (u.comment.Set? ==> r.comment == Some(u.comment.value))
    ensures u.domains.Set? ==> r.domains == Some(u.domains.value)
    ensures u.rateLimit.Set? ==> r.rateLimit == Some(u.rateLimit.value)
    ensures (u.active.Unset? ==> r.active == k.active) && (u.active.Set? ==> r.active == u.active.value)
  {
    k.(name := ChosenOrNull(u.name, k.name), comment := ChosenOrNull(u.comment, k.comment),
       domains := ChosenOrNull(u.domains, k.domains), rateLimit := ChosenOrNull(u.rateLimit, k.rateLimit),
       active := Chosen(u.active, k.active))
  }

  function Used(k: ApiKey, at: real): ApiKey {
    k.(lastUsedAt := Some(at), totalRequests := k.totalRequests + 1)
  }

  /** The key opens the API at a given time. */
  predicate Usable(k: ApiKey, at: real) {
    k.active && (k.expiresAt.Some? ==> at <= k.expiresAt.value)
  }

  ghost predicate UniqueHashes(keys: Keys) {
    forall a, b :: a in keys && b in keys && keys[a].keyHash == keys[b].keyHash ==> a == b
  }

  predicate HasHash(keys: Keys, hash: string) {
    exists id :: id in keys && keys[id].keyHash == hash
  }

  class KeyService {
    var keys: Keys
    /** Stands for the source of fresh identifiers. */
    var nextId: Id

    ghost predicate Valid()
      reads this
    {
      (forall id :: id in keys ==> id < nextId) && UniqueHashes(keys)
    }

    constructor ()
      ensures Valid() && keys == map[]
    {
      keys, nextId := map[], 0;
    }

    method CreateApiKey(hash: string, data: NewKey) returns (r: Result<Id, Error>)
      requires Valid()
      modifies this
      ensures Valid()
      ensures HasHash(old(keys), hash) ==> r == Failure(IntegrityError) && keys == old(keys)
      ensures !HasHash(old(keys), hash) ==>
                r.Success? && r.value !in old(keys) && keys == old(keys)[r.value := Created(hash, data)]
    {
      if HasHash(keys, hash) {
        return Failure(IntegrityError);
      }
      keys := keys[nextId := Created(hash, data)];
      nextId := nextId + 1;
      return Success(nextId - 1);
    }

    method UpdateApiKey(id: Id, u: Update) returns (r: Result<ApiKey, Error>)
      requires Valid()
      modifies this`keys
      ensures Valid()
      ensures id !in old(keys) <==> r == Failure(NotFound)
      ensures r.Success? <==> id in old(keys) && !u.active.Null?
      ensures r.Success? ==> r.value == Updated(old(keys)[id], u) && keys == old(keys)[id := r.value]
      ensures r.Failure? ==> keys == old(keys)
    {
      if id !in keys {
        return Failure(NotFound);
      }
      if u.active.Null? {
        return Failure(IntegrityError);
      }
      keys := keys[id := Updated(keys[id], u)];
      return Success(keys[id]);
    }

    method DeactivateApiKey(id: Id) returns (found: bool)
      requires Valid()
      modifies this`keys
      ensures Valid()
      ensures found <==> id in old(keys)
      ensures keys == if found then old(keys)[id := old(keys)[id].(active := false)] else old(keys)
    {
      if id !in keys {
        return false;
      }
      keys := keys[id := keys[id].(active := false)];
      return true;
    }

    /** A presented key is accepted exactly when a usable row has its hash; then that row alone is
        counted, and its override, if it has one, is cached for 60 seconds. */
    method ValidateApiKey(rawKey: string, hash: string -> string, redis: Redis?, at: real) returns (r: Option<Id>)
      requires Valid()
      modifies this`keys
      modifies if redis == null then {} else {redis}
      ensures Valid()
      ensures r.Some? <==>
              exists id :: id in old(keys) && old(keys)[id].keyHash == hash(rawKey) && old(keys)[id].active
                && (old(keys)[id].expiresAt == None || at <= old(keys)[id].expiresAt.value)
      ensures r.None? ==> keys == old(keys)
      ensures r.Some? ==>
                && r.value in old(keys) && old(keys)[r.value].keyHash == hash(rawKey) && Usable(old(keys)[r.value], at)
                && keys == old(keys)[r.value := Used(old(keys)[r.value], at)]
                && keys[r.value].totalRequests == old(keys)[r.value].totalRequests + 1
                && keys[r.value].lastUsedAt == Some(at)
      ensures redis != null ==>
                && redis.zsets == old(redis.zsets) && redis.counters == old(redis.counters)
                && redis.limits ==
                     if r.Some? && old(keys)[r.value].rateLimit.Some? then
                       old(redis.limits)[hash(rawKey) := Limit(old(keys)[r.value].rateLimit.value, at + 60.0)]
                     else old(redis.limits)
    {
      var h := hash(rawKey);
      if !HasHash(keys, h) {
        return None;
      }
      var id :| id in keys && keys[id].keyHash == h;
      if !keys[id].active {
        return None;
      }
      if keys[id].expiresAt.Some? && keys[id].expiresAt.value < at {
        return None;
      }
      keys := keys[id := Used(keys[id], at)];
      if redis != null && keys[id].rateLimit.Some? {
        redis.limits := redis.limits[h := Limit(keys[id].rateLimit.value, at + 60.0)];
      }
      return Some(id);
    }
  }

  /// One service after the other

  /** A request that authenticates with a key at `at`, and one with the same key that comes to the
      middleware later: if the key has an override, that is its limit for 60 seconds, and otherwise
      the standard one is unless an earlier override is still cached. */
  method AuthenticateThenDispatch(
      service: KeyService, redis: Redis, request: Request, hash: string -> string, standard: int, at: real,
      now: real, later: real)
      returns (id: Option<Id>, reply: Reply)
    requires service.Valid() && at <= later
    requires request.apiKey.Some? && request.apiKey.value != "" && !Exempt(request.path)
    modifies service`keys, redis
    ensures service.Valid()
    ensures id.Some? ==> id.value in old(service.keys)
    ensures var key := "ratelimit:" + Identifier(request, hash);
            var scores := ScoresAt(old(redis.zsets), key, later);
            var limit := if id.Some? then old(service.keys)[id.value].rateLimit else None;
            && (limit.Some? && later < at + 60.0 ==>
                  AnswersWith(reply, SlidingWindow.Check(scores, now, limit.value, 60).1))
            && (limit.Some? && at + 60.0 <= later ==>
                  AnswersWith(reply, SlidingWindow.Check(scores, now, standard, 60).1))
            && (limit.None? && hash(request.apiKey.value) !in old(redis.limits) ==>
                  AnswersWith(reply, SlidingWindow.Check(scores, now, standard, 60).1))
  {
    id := service.ValidateApiKey(request.apiKey.value, hash, redis, at);
    reply := Dispatch(redis, request, hash, standard, now, later);
  }
}

/**
 Validations and administrators at work at the same time.  A validation selects the row of the
 presented hash, then counts the request on it, then caches the override it selected.
 */
module KeyProtocol {
  import opened Wrappers
  import opened ApiKeys
  import opened RateLimiter

  const LIMIT_TTL := 60.0

  /** How far a successful validation has come, with what it selected and when. */
  datatype Validation = Validation(id: Id, hash: string, rateLimit: Option<int>, selectedAt: real, counted: bool)

  datatype CachedLimit = CachedLimit(value: int, selectedAt: real, storedAt: real)

  datatype State = State(
    keys: Keys, limits: map<string, CachedLimit>, clock: real,
    validations: map<nat, Validation>, counted: seq<Id>)

  datatype Step =
    | Create(id: Id, hash: string, data: NewKey, at: real)
    | Change(id: Id, update: Update, at: real)
    | Deactivate(id: Id, at: real)
    | Select(validation: nat, id: Id, at: real)
    | Count(validation: nat, at: real)
    | Cache(validation: nat, at: real)

  const START := State(map[], map[], 0.0, map[], [])

  ghost predicate Enabled(s: State, step: Step) {
    && s.clock <= step.at
    && match step
       case Create(id, hash, data, at) => id !in s.keys && !HasHash(s.keys, hash)
       case Change(id, update, at) => id in s.keys && !update.active.Null?
       case Deactivate(id, at) => id in s.keys
       case Select(v, id, at) => v !in s.validations && id in s.keys && Usable(s.keys[id], at)
       case Count(v, at) => v in s.validations && !s.validations[v].counted
       case Cache(v, at) => v in s.validations && s.validations[v].counted
  }

  function Apply(s: State, step: Step): State {
    var t := s.(clock := step.at);
    match step
    case Create(id, hash, data, at) => t.(keys := s.keys[id := Created(hash, data)])
    case Change(id, update, at) => if id in s.keys then t.(keys := s.keys[id := Updated(s.keys[id], update)]) else t
    case Deactivate(id, at) => if id in s.keys then t.(keys := s.keys[id := s.keys[id].(active := false)]) else t
    case Select(v, id, at) =>
      if id in s.keys then
        t.(validations := s.validations[v := Validation(id, s.keys[id].keyHash, s.keys[id].rateLimit, at, false)])
      else t
    case Count(v, at) =>
      if v in s.validations && s.validations[v].id in s.keys then
        var id := s.validations[v].id;
        t.(keys := s.keys[id := Used(s.keys[id], at)], counted := s.counted + [id],
           validations := s.validations[v := s.validations[v].(counted := true)])
      else t
    case Cache(v, at) =>
      if v in s.validations then
        var val := s.validations[v];
        t.(validations := s.validations - {v},
           limits := if val.rateLimit.Some? then
                       s.limits[val.hash := CachedLimit(val.rateLimit.value, val.selectedAt, at)]
                     else s.limits)
      else t
  }

  function After(steps: seq<Step>): State {
    if steps == [] then START else Apply(After(steps[..|steps| - 1]), steps[|steps| - 1])
  }

  ghost predicate Legal(steps: seq<Step>) {
    steps == [] || (Legal(steps[..|steps| - 1]) && Enabled(After(steps[..|steps| - 1]), steps[|steps| - 1]))
  }

  /// The request counter

  ghost predicate Counted(s: State) {
    && UniqueHashes(s.keys)
    && (forall id :: id in s.keys ==> s.keys[id].totalRequests == multiset(s.counted)[id])
    && (forall id :: id in s.counted ==> id in s.keys)
    && (forall v :: v in s.validations ==>
          s.validations[v].id in s.keys && s.keys[s.validations[v].id].keyHash == s.validations[v].hash)
  }

  lemma CountedStep(s: State, step: Step)
    requires Counted(s) && Enabled(s, step)
    ensures Counted(Apply(s, step))
  {
    if step.Create? {
      CreateKeepsCounted(s, step);
    } else if step.Count? {
      CountKeepsCounted(s, step);
    }
  }

  lemma CreateKeepsCounted(s: State, step: Step)
    requires Counted(s) && Enabled(s, step) && step.Create?
    ensures Counted(Apply(s, step))
  {
    assert multiset(s.counted)[step.id] == 0;
  }

  lemma CountKeepsCounted(s: State, step: Step)
    requires Counted(s) && Enabled(s, step) && step.Count?
    ensures Counted(Apply(s, step))
  {
  }

  /** In every interleaving, the request total of a key is the number of validations that counted
      on it; updates and deactivations between the steps lose none. */
  lemma {:induction false} RequestTotalsAreConserved(steps: seq<Step>)
    requires Legal(steps)
    ensures Counted(After(steps))
  {
    if steps != [] {
      RequestTotalsAreConserved(steps[..|steps| - 1]);
      CountedStep(After(steps[..|steps| - 1]), steps[|steps| - 1]);
    }
  }

  /// The cached override

  /** After k steps the clock showed t, and the usable key with this hash had this override. */
  ghost predicate OverrideAt(steps: seq<Step>, k: nat, hash: string, rateLimit: Option<int>, t: real)
    requires k <= |steps|
  {
    var s := After(steps[..k]);
    && s.clock == t
    && exists id :: id in s.keys && s.keys[id].keyHash == hash && s.keys[id].rateLimit == rateLimit
                    && Usable(s.keys[id], t)
  }

  ghost predicate WasOverride(steps: seq<Step>, hash: string, rateLimit: Option<int>, t: real) {
    exists k :: 0 <= k <= |steps| && OverrideAt(steps, k, hash, rateLimit, t)
  }

  ghost predicate ValidationBacked(steps: seq<Step>, val: Validation, clock: real) {
    val.selectedAt <= clock && WasOverride(steps, val.hash, val.rateLimit, val.selectedAt)
  }

  ghost predicate LimitBacked(steps: seq<Step>, hash: string, cached: CachedLimit, clock: real) {
    cached.selectedAt <= cached.storedAt <= clock && WasOverride(steps, hash, Some(cached.value), cached.selectedAt)
  }

  ghost predicate LimitsBacked(steps: seq<Step>, s: State) {
    && (forall v :: v in s.validations ==> ValidationBacked(steps, s.validations[v], s.clock))
    && (forall hash :: hash in s.limits ==> LimitBacked(steps, hash, s.limits[hash], s.clock))
  }

  lemma HistoryGrows(steps: seq<Step>, step: Step, hash: string, rateLimit: Option<int>, t: real)
    requires WasOverride(steps, hash, rateLimit, t)
    ensures WasOverride(steps + [step], hash, rateLimit, t)
  {
    var k :| 0 <= k <= |steps| && OverrideAt(steps, k, hash, rateLimit, t);
    assert (steps + [step])[..k] == steps[..k];
    assert OverrideAt(steps + [step], k, hash, rateLimit, t);
  }

  lemma SelectionIsOverride(steps: seq<Step>, step: Step)
    requires step.Select? && Enabled(After(steps), step)
    ensures var k := After(steps).keys[step.id];
            WasOverride(steps + [step], k.keyHash, k.rateLimit, step.at)
  {
    var steps', k := steps + [step], After(steps).keys[step.id];
    assert steps'[..|steps|] == steps && steps'[..|steps'|] == steps';
    var s := After(steps'[..|steps'|]);
    assert step.id in s.keys && s.keys[step.id] == k;
    assert OverrideAt(steps', |steps'|, k.keyHash, k.rateLimit, step.at);
  }

  lemma BackedGrows(steps: seq<Step>, step: Step)
    requires LimitsBacked(steps, After(steps)) && After(steps).clock <= step.at
    ensures LimitsBacked(steps + [step], After(steps).(clock := step.at))
  {
    var s := After(steps);
    forall v | v in s.validations
      ensures ValidationBacked(steps + [step], s.validations[v], step.at)
    {
      assert ValidationBacked(steps, s.validations[v], s.clock);
      HistoryGrows(steps, step, s.validations[v].hash, s.validations[v].rateLimit, s.validations[v].selectedAt);
    }
    forall hash | hash in s.limits
      ensures LimitBacked(steps + [step], hash, s.limits[hash], step.at)
    {
      assert LimitBacked(steps, hash, s.limits[hash], s.clock);
      HistoryGrows(steps, step, hash, Some(s.limits[hash].value), s.limits[hash].selectedAt);
    }
  }

  lemma SelectKeepsBacked(steps: seq<Step>, step: Step)
    requires LimitsBacked(steps, After(steps)) && Enabled(After(steps), step) && step.Select?
    ensures LimitsBacked(steps + [step], Apply(After(steps), step))
  {
    BackedGrows(steps, step);
    SelectionIsOverride(steps, step);
  }

  lemma CacheKeepsBacked(steps: seq<Step>, step: Step)
    requires LimitsBacked(steps, After(steps)) && Enabled(After(steps), step) && step.Cache?
    ensures LimitsBacked(steps + [step], Apply(After(steps), step))
  {
    BackedGrows(steps, step);
    var s, s' := After(steps), Apply(After(steps), step);
    var val := s.validations[step.validation];
    assert ValidationBacked(steps + [step], val, step.at);
    if val.rateLimit.Some? {
      assert val.rateLimit == Some(val.rateLimit.value);
      assert LimitBacked(steps + [step], val.hash, s'.limits[val.hash], step.at);
    }
  }

  lemma CountKeepsBacked(steps: seq<Step>, step: Step)
    requires LimitsBacked(steps, After(steps)) && Enabled(After(steps), step) && step.Count?
    ensures LimitsBacked(steps + [step], Apply(After(steps), step))
  {
    BackedGrows(steps, step);
    assert ValidationBacked(steps + [step], After(steps).validations[step.validation], step.at);
  }

  lemma KeyChangesKeepBacked(steps: seq<Step>, step: Step)
    requires LimitsBacked(steps, After(steps)) && Enabled(After(steps), step)
    requires step.Create? || step.Change? || step.Deactivate?
    ensures LimitsBacked(steps + [step], Apply(After(steps), step))
  {
    BackedGrows(steps, step);
    var s, s' := After(steps), Apply(After(steps), step);
    assert s'.validations == s.validations && s'.limits == s.limits && s'.clock == step.at;
  }

  lemma LimitsStep(steps: seq<Step>, step: Step)
    requires LimitsBacked(steps, After(steps)) && Enabled(After(steps), step)
    ensures LimitsBacked(steps + [step], Apply(After(steps), step))
  {
    if step.Select? {
      SelectKeepsBacked(steps, step);
    } else if step.Count? {
      CountKeepsBacked(steps, step);
    } else if step.Cache? {
      CacheKeepsBacked(steps, step);
    } else {
      KeyChangesKeepBacked(steps, step);
    }
  }

  lemma {:induction false} LimitsInvariant(steps: seq<Step>)
    requires Legal(steps)
    ensures LimitsBacked(steps, After(steps))
  {
    if steps != [] {
      LimitsInvariant(steps[..|steps| - 1]);
      LimitsStep(steps[..|steps| - 1], steps[|steps| - 1]);
      assert steps[..|steps| - 1] + [steps[|steps| - 1]] == steps;
    }
  }

  /** The limit the middleware enforces for a hash at a given time. */
  function Enforced(s: State, hash: string, at: real, standard: int): int {
    if hash in s.limits && at < s.limits[hash].storedAt + LIMIT_TTL then s.limits[hash].value else standard
  }

  /** In every interleaving, an enforced limit other than the standard one was the override of the
      usable key with this hash less than 60 seconds plus the time that validation took ago. */
  lemma EnforcedLimitIsRecent(steps: seq<Step>, hash: string, at: real, standard: int)
    requires Legal(steps) && After(steps).clock <= at
    requires Enforced(After(steps), hash, at, standard) != standard
    ensures hash in After(steps).limits
    ensures var cached := After(steps).limits[hash];
            exists k :: 0 <= k <= |steps|
              && OverrideAt(steps, k, hash, Some(Enforced(After(steps), hash, at, standard)), After(steps[..k]).clock)
              && 0.0 <= at - After(steps[..k]).clock < 60.0 + (cached.storedAt - cached.selectedAt)
  {
    LimitsInvariant(steps);
    var cached := After(steps).limits[hash];
    var k :| 0 <= k <= |steps| && OverrideAt(steps, k, hash, Some(cached.value), cached.selectedAt);
    assert After(steps[..k]).clock == cached.selectedAt;
  }

  /** An update of the key's override. */
  predicate SetsLimit(step: Step, id: Id) {
    step.Change? && step.id == id && !step.update.rateLimit.Unset?
  }

  /** What the last of these steps that updates the key's override gives it, and `start` if there is
      none. */
  function LastSet(start: Option<int>, steps: seq<Step>, id: Id): Option<int> {
    if steps == [] then start
    else
      var last := steps[|steps| - 1];
      if !SetsLimit(last, id) then LastSet(start, steps[..|steps| - 1], id)
      else if last.update.rateLimit.Set? then Some(last.update.rateLimit.value)
      else None
  }

  lemma {:induction false} UntouchedLimit(start: Option<int>, steps: seq<Step>, id: Id)
    requires forall n :: 0 <= n < |steps| ==> !SetsLimit(steps[n], id)
    ensures LastSet(start, steps, id) == start
  {
    if steps != [] {
      UntouchedLimit(start, steps[..|steps| - 1], id);
    }
  }

  /** b has the key of a, with its hash, and with the override the steps between gave it. */
  ghost predicate Keeps(a: State, b: State, between: seq<Step>, id: Id) {
    id in a.keys ==>
      && id in b.keys && b.keys[id].keyHash == a.keys[id].keyHash
      && b.keys[id].rateLimit == LastSet(a.keys[id].rateLimit, between, id)
  }

  /** A key once there stays, with its hash, and its override is what the last update gave it. */
  lemma {:induction false} OverrideStays(steps: seq<Step>, i: nat, j: nat, id: Id)
    requires i <= j <= |steps| && Legal(steps[..j])
    ensures Keeps(After(steps[..i]), After(steps[..j]), steps[i..j], id)
    decreases j
  {
    if i < j {
      LastOf(steps, j);
      OverrideStays(steps, i, j - 1, id);
      KeepsOneMore(After(steps[..i]), steps, i, j, id);
    } else {
      assert steps[i..j] == [];
    }
  }

  lemma KeepsOneMore(a: State, steps: seq<Step>, i: nat, j: nat, id: Id)
    requires i < j <= |steps| && Legal(steps[..j])
    requires Keeps(a, After(steps[..j - 1]), steps[i..j - 1], id)
    ensures Keeps(a, After(steps[..j]), steps[i..j], id)
  {
    LastOf(steps, j);
    StepKeepsOverride(a, After(steps[..j - 1]), steps[i..j - 1], steps[j - 1], id);
    assert steps[i..j] == steps[i..j - 1] + [steps[j - 1]];
  }

  lemma LastOf(steps: seq<Step>, j: nat)
    requires 0 < j <= |steps| && Legal(steps[..j])
    ensures Legal(steps[..j - 1]) && Enabled(After(steps[..j - 1]), steps[j - 1])
    ensures After(steps[..j]) == Apply(After(steps[..j - 1]), steps[j - 1])
  {
    assert steps[..j][..j - 1] == steps[..j - 1];
  }

  lemma StepKeepsOverride(a: State, s: State, between: seq<Step>, step: Step, id: Id)
    requires Keeps(a, s, between, id) && Enabled(s, step)
    ensures Keeps(a, Apply(s, step), between + [step], id)
  {
    assert (between + [step])[..|between|] == between;
  }

  /** The limit a key should have: its override if it has one. */
  function Promised(rateLimit: Option<int>, standard: int): int {
    if rateLimit.Some? then rateLimit.value else standard
  }

  ghost predicate LiveLimit(s: State, hash: string, at: real) {
    hash in s.limits && at < s.limits[hash].storedAt + LIMIT_TTL
  }

  /** k is a moment at which the clock showed the time of the cached entry's selection and the key
      had the override that is cached. */
  ghost predicate SelectedAt(steps: seq<Step>, k: nat, id: Id, hash: string)
    requires k <= |steps|
  {
    var s, before := After(steps), After(steps[..k]);
    && hash in s.limits && before.clock == s.limits[hash].selectedAt
    && id in before.keys && before.keys[id].rateLimit == Some(s.limits[hash].value)
  }

  /** When the enforced limit is the one the key should have.  With a live cached override: exactly
      when the updates of the key since the selection of that override end with one to the same
      limit, or there are none.  Without one: exactly when the key has no override, or one to the
      standard limit. */
  lemma EnforcedLimitIsCurrent(steps: seq<Step>, hash: string, id: Id, at: real, standard: int) returns (k: nat)
    requires Legal(steps) && id in After(steps).keys && After(steps).keys[id].keyHash == hash
    ensures var s := After(steps);
            var limit, promised := Enforced(s, hash, at, standard), Promised(s.keys[id].rateLimit, standard);
            && k <= |steps|
            && (LiveLimit(s, hash, at) ==>
                  && SelectedAt(steps, k, id, hash) && limit == s.limits[hash].value
                  && s.keys[id].rateLimit == LastSet(Some(limit), steps[k..], id))
            && (limit == promised <==>
                  if LiveLimit(s, hash, at) then Promised(LastSet(Some(limit), steps[k..], id), standard) == limit
                  else s.keys[id].rateLimit in {None, Some(standard)})
  {
    k := 0;
    if LiveLimit(After(steps), hash, at) {
      k := SelectionOfLimit(steps, hash, id);
      assert steps[..|steps|] == steps && steps[k..|steps|] == steps[k..];
      OverrideStays(steps, k, |steps|, id);
    }
  }

  lemma SelectionOfLimit(steps: seq<Step>, hash: string, id: Id) returns (k: nat)
    requires Legal(steps) && hash in After(steps).limits
    requires id in After(steps).keys && After(steps).keys[id].keyHash == hash
    ensures k <= |steps| && SelectedAt(steps, k, id, hash)
  {
    LimitsInvariant(steps);
    RequestTotalsAreConserved(steps);
    var cached := After(steps).limits[hash];
    k :| 0 <= k <= |steps| && OverrideAt(steps, k, hash, Some(cached.value), cached.selectedAt);
    var before := After(steps[..k]);
    var selected :| selected in before.keys && before.keys[selected].keyHash == hash
                    && before.keys[selected].rateLimit == Some(cached.value)
                    && Usable(before.keys[selected], before.clock);
    assert steps[..|steps|] == steps;
    OverrideStays(steps, k, |steps|, selected);
    assert selected == id;
  }

  /** In particular when no update has touched the override since then. */
  lemma UntouchedLimitIsEnforced(steps: seq<Step>, hash: string, id: Id, at: real, standard: int) returns (k: nat)
    requires Legal(steps) && id in After(steps).keys && After(steps).keys[id].keyHash == hash
    requires LiveLimit(After(steps), hash, at)
    ensures k <= |steps| && SelectedAt(steps, k, id, hash)
    ensures (forall n :: k <= n < |steps| ==> !SetsLimit(steps[n], id)) ==>
            After(steps).keys[id].rateLimit == Some(Enforced(After(steps), hash, at, standard))
  {
    k := SelectionOfLimit(steps, hash, id);
    assert steps[..|steps|] == steps && steps[k..|steps|] == steps[k..];
    OverrideStays(steps, k, |steps|, id);
    if forall n :: k <= n < |steps| ==> !SetsLimit(steps[n], id) {
      UntouchedLimit(After(steps[..k]).keys[id].rateLimit, steps[k..], id);
    }
  }

  ghost predicate HasOverride(s: State, hash: string, limit: int) {
    0 in s.keys && s.keys[0].keyHash == hash && s.keys[0].active && s.keys[0].rateLimit == Some(limit)
  }

  /** And an override is enforced only while it is cached: never before a validation has cached
      it, and no more after 60 seconds without another. */
  lemma OverrideNeedsValidation(hash: string, limit: int, standard: int)
      returns (early: seq<Step>, late: seq<Step>)
    ensures Legal(early) && HasOverride(After(early), hash, limit)
    ensures forall at :: Enforced(After(early), hash, at, standard) == standard
    ensures Legal(late) && HasOverride(After(late), hash, limit)
    ensures forall at :: Enforced(After(late), hash, at, standard) == if at < 60.0 then limit else standard
  {
    var s;
    early, s := Take([], START, Create(0, hash, NewKey(None, None, None, Some(limit), None), 0.0));
    late, s := Take(early, s, Select(0, 0, 0.0));
    late, s := Take(late, s, Count(0, 0.0));
    late, s := Take(late, s, Cache(0, 0.0));
  }

  lemma Take(steps: seq<Step>, s: State, step: Step) returns (steps': seq<Step>, s': State)
    requires Legal(steps) && s == After(steps) && Enabled(s, step)
    ensures Legal(steps') && s' == After(steps') && s' == Apply(s, step)
  {
    steps', s' := steps + [step], Apply(s, step);
    assert steps'[..|steps|] == steps;
  }

  /** The delay is real: an override that is taken back goes on being enforced while it is cached. */
  lemma WithdrawnLimitIsEnforced(hash: string, limit: int, standard: int) returns (steps: seq<Step>)
    requires limit != standard
    ensures Legal(steps)
    ensures var s := After(steps);
            && 0 in s.keys && s.keys[0].keyHash == hash && s.keys[0].rateLimit == None
            && Enforced(s, hash, 59.0, standard) == limit
  {
    var s := START;
    var withdraw := Update(Unset, Unset, Unset, Null, Unset);
    steps, s := Take([], s, Create(0, hash, NewKey(None, None, None, Some(limit), None), 0.0));
    steps, s := Take(steps, s, Select(0, 0, 0.0));
    steps, s := Take(steps, s, Count(0, 0.0));
    steps, s := Take(steps, s, Cache(0, 0.0));
    steps, s := Take(steps, s, Change(0, withdraw, 0.0));
  }

  /// Deactivation

  /** A key that is not active stays so until an update activates it. */
  lemma {:induction false} InactiveStays(steps: seq<Step>, i: nat, j: nat, id: Id)
    requires i <= j <= |steps| && Legal(steps[..j])
    requires id in After(steps[..i]).keys && !After(steps[..i]).keys[id].active
    requires forall n :: i <= n < j ==> !Activates(steps[n], id)
    ensures id in After(steps[..j]).keys && !After(steps[..j]).keys[id].active
    decreases j
  {
    if i < j {
      LastOf(steps, j);
      InactiveStays(steps, i, j - 1, id);
      StepKeepsInactive(After(steps[..j - 1]), steps[j - 1], id);
    }
  }

  predicate Activates(step: Step, id: Id) {
    step.Change? && step.id == id && step.update.active == Set(true)
  }

  lemma StepKeepsInactive(s: State, step: Step, id: Id)
    requires id in s.keys && !s.keys[id].active && Enabled(s, step) && !Activates(step, id)
    ensures id in Apply(s, step).keys && !Apply(s, step).keys[id].active
  {
  }

  lemma {:induction false} LegalPrefix(steps: seq<Step>, n: nat)
    requires n <= |steps| && Legal(steps)
    ensures Legal(steps[..n])
  {
    if n < |steps| {
      LegalPrefix(steps[..|steps| - 1], n);
      assert steps[..|steps| - 1][..n] == steps[..n];
    } else {
      assert steps[..n] == steps;
    }
  }

  /** A deactivated key is shut out: no validation selects it again unless an update has activated
      it in between. */
  lemma DeactivatedIsShutOut(steps: seq<Step>, n: nat, m: nat, id: Id)
    requires Legal(steps) && n < m < |steps|
    requires steps[n].Deactivate? && steps[n].id == id && steps[m].Select? && steps[m].id == id
    ensures exists k :: n < k < m && Activates(steps[k], id)
  {
    DeactivatedIsInactive(steps, n, id);
    SelectedIsActive(steps, m, id);
    LegalPrefix(steps, m);
    if forall k :: n < k < m ==> !Activates(steps[k], id) {
      InactiveStays(steps, n + 1, m, id);
      assert false;
    }
  }

  lemma DeactivatedIsInactive(steps: seq<Step>, n: nat, id: Id)
    requires Legal(steps) && n < |steps| && steps[n].Deactivate? && steps[n].id == id
    ensures id in After(steps[..n + 1]).keys && !After(steps[..n + 1]).keys[id].active
  {
    LegalPrefix(steps, n + 1);
    LastOf(steps, n + 1);
  }

  lemma SelectedIsActive(steps: seq<Step>, m: nat, id: Id)
    requires Legal(steps) && m < |steps| && steps[m].Select? && steps[m].id == id
    ensures id in After(steps[..m]).keys && After(steps[..m]).keys[id].active
  {
    LegalPrefix(steps, m + 1);
    LastOf(steps, m + 1);
  }

  /// The protocol and the service

  /** The cached overrides are the same in the protocol and in Redis. */
  ghost predicate Corresponds(s: State, limits: map<string, Limit>) {
    && s.limits.Keys == limits.Keys
    && forall h :: h in limits ==> limits[h] == Limit(s.limits[h].value, s.limits[h].storedAt + LIMIT_TTL)
  }

  /** The middleware enforces what the theorems on the protocol speak of. */
  lemma LimitForIsEnforced(
    s: State, limits: map<string, Limit>, request: Request, hash: string -> string, at: real, standard: int)
    requires Corresponds(s, limits) && request.apiKey.Some? && request.apiKey.value != ""
    ensures LimitFor(limits, request, hash, at, standard) == Enforced(s, hash(request.apiKey.value), at, standard)
  {
  }

  /** A validation with nothing between its steps counts on the key and caches its override, as the
      service does in one operation. */
  lemma ValidationIsProtocolSteps(s: State, limits: map<string, Limit>, v: nat, id: Id, at: real)
    requires s.clock <= at && v !in s.validations && id in s.keys && Usable(s.keys[id], at) && Corresponds(s, limits)
    ensures var s1 := Apply(s, Select(v, id, at));
            var s2 := Apply(s1, Count(v, at));
            var s3 := Apply(s2, Cache(v, at));
            var k := s.keys[id];
            && Enabled(s, Select(v, id, at)) && Enabled(s1, Count(v, at)) && Enabled(s2, Cache(v, at))
            && s3.keys == s.keys[id := Used(k, at)] && s3.validations == s.validations
            && Corresponds(s3, if k.rateLimit.Some? then limits[k.keyHash := Limit(k.rateLimit.value, at + 60.0)]
                               else limits)
  {
    var s2 := Apply(Apply(s, Select(v, id, at)), Count(v, at));
    assert s2.validations - {v} == s.validations;
  }
}
