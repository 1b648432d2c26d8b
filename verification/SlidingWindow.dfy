/**
 The sliding-window arithmetic of `check_rate_limit`: what one call does to the sorted
 set of one identifier, what whole runs of calls answer, and the reference limiter those
 answers are compared with.  Times are real numbers of seconds.  Member and score of a
 sorted-set entry are the same timestamp, so the set is a set of timestamps.
 */
module SlidingWindow {
  import opened Sets

  /** The tuple `check_rate_limit` returns. */
  datatype Answer = Answer(allowed: bool, remaining: int, retryAfter: int)

  /** One call: the clock reading of the application, the instant at which the server runs
      the pipeline, and the limit in force. */
  datatype Call = Call(now: real, at: real, limit: int)

  /** Conversion of a float to an integer: towards zero. */
  function Truncate(x: real): int {
    if x >= 0.0 then x.Floor else -((-x).Floor)
  }

  function Max(a: int, b: int): int {
    if a < b then b else a
  }

  /** The entries left by removing the scores from 0 to `windowStart`. */
  function Pruned(scores: set<real>, windowStart: real): set<real> {
    set x | x in scores && !(0.0 <= x <= windowStart)
  }

  /** The least entry of a non-empty set. */
  ghost function Oldest(scores: set<real>): (m: real)
    requires scores != {}
    ensures m in scores
    ensures forall x :: x in scores ==> m <= x
  {
    assert exists x :: x in scores by { if forall x :: x !in scores { assert false; } }
    var x :| x in scores;
    if scores == {x} then
      x
    else
      var m := Oldest(scores - {x});
      assert forall y :: y in scores ==> y == x || y in scores - {x};
      if x < m then x else m
  }

  ghost function RetryAfter(scores: set<real>, now: real, window: nat): int {
    if scores == {} then 1 else Max(1, Truncate(Oldest(scores) + window as real - now) + 1)
  }

  /** One call run to completion on the entries it finds: the entries it leaves and its answer. */
  ghost function Check(scores: set<real>, now: real, limit: int, window: nat): (set<real>, Answer) {
    var added := Pruned(scores, now - window as real) + {now};
    if |added| > limit then
      (added - {now}, Answer(false, 0, RetryAfter(added - {now}, now, window)))
    else
      (added, Answer(true, limit - |added|, 0))
  }

  /** What a key with time to live until `deadline` shows at `at`. */
  function Live(scores: set<real>, deadline: real, at: real): set<real> {
    if at < deadline then scores else {}
  }

  /** The answers of a run whose key never expires. */
  ghost function RunPruned(scores: set<real>, calls: seq<Call>, window: nat): (answers: seq<Answer>)
    ensures |answers| == |calls|
    decreases calls
  {
    if calls == [] then [] else
      var (left, answer) := Check(scores, calls[0].now, calls[0].limit, window);
      [answer] + RunPruned(left, calls[1..], window)
  }

  /** The answers of a run in which the key is dropped whenever its time to live has run out. */
  ghost function RunExpiring(scores: set<real>, deadline: real, calls: seq<Call>, window: nat): (answers: seq<Answer>)
    ensures |answers| == |calls|
    decreases calls
  {
    if calls == [] then [] else
      var c := calls[0];
      var (left, answer) := Check(Live(scores, deadline, c.at), c.now, c.limit, window);
      [answer] + RunExpiring(left, c.at + (window + 1) as real, calls[1..], window)
  }

  /** The entries a run leaves behind. */
  ghost function ScoresAfter(scores: set<real>, calls: seq<Call>, window: nat): set<real>
    decreases calls
  {
    if calls == [] then scores else
      ScoresAfter(Check(scores, calls[0].now, calls[0].limit, window).0, calls[1..], window)
  }

  /// The reference limiter: it remembers every allowed request for ever and counts the
  /// ones later than the start of the window.

  function Since(log: set<real>, start: real): set<real> {
    set t | t in log && start < t
  }

  ghost function LogCheck(log: set<real>, now: real, limit: int, window: nat): (set<real>, Answer) {
    var recent := Since(log, now - window as real);
    if |recent| < limit then
      (log + {now}, Answer(true, limit - |recent| - 1, 0))
    else
      (log, Answer(false, 0, RetryAfter(recent, now, window)))
  }

  ghost function RunLog(log: set<real>, calls: seq<Call>, window: nat): (answers: seq<Answer>)
    ensures |answers| == |calls|
    decreases calls
  {
    if calls == [] then [] else
      var (log', answer) := LogCheck(log, calls[0].now, calls[0].limit, window);
      [answer] + RunLog(log', calls[1..], window)
  }

  /** Clock readings strictly increase, starting above `last`. */
  ghost predicate Increasing(last: real, calls: seq<Call>)
    decreases calls
  {
    calls == [] || (last < calls[0].now && Increasing(calls[0].now, calls[1..]))
  }

  /** The time between a call's clock reading and its pipeline, negative if the reading is ahead. */
  function Delay(c: Call): real {
    c.at - c.now
  }

  /** Pipelines run in order, and from no call to a later one does the delay grow by more than a
      second, however long or negative it is. */
  ghost predicate Steady(calls: seq<Call>) {
    forall i, j :: 0 <= i < j < |calls| ==> calls[i].at <= calls[j].at && Delay(calls[j]) <= Delay(calls[i]) + 1.0
  }

  /// Refinement

  /** `scores` holds what `log` holds, less entries that had left the window by `last`. */
  ghost predicate Abridges(scores: set<real>, log: set<real>, last: real, window: nat) {
    && scores <= log
    && (forall t :: t in log ==> 0.0 <= t <= last)
    && (forall t :: t in log && t !in scores ==> t <= last - window as real)
  }

  lemma AddingIsCounted(kept: set<real>, now: real)
    requires now !in kept
    ensures |kept + {now}| == |kept| + 1 && kept + {now} - {now} == kept
  {
  }

  /** One call on an abridged log answers as on the log itself, and leaves an abridged log. */
  lemma CheckAgreesWithLog(scores: set<real>, log: set<real>, last: real, now: real, limit: int, window: nat)
    requires Abridges(scores, log, last, window) && last < now
    ensures Check(scores, now, limit, window).1 == LogCheck(log, now, limit, window).1
    ensures 0.0 <= now ==>
      Abridges(Check(scores, now, limit, window).0, LogCheck(log, now, limit, window).0, now, window)
  {
    var kept := Pruned(scores, now - window as real);
    assert kept == Since(log, now - window as real);
    AddingIsCounted(kept, now);
  }

  /** The limiter that prunes answers exactly as the one that remembers everything, whatever
      the limits of the single calls are. */
  lemma {:induction false} PrunedRefinesLog(scores: set<real>, log: set<real>, last: real, calls: seq<Call>, window: nat)
    requires 0.0 <= last && Increasing(last, calls)
    requires Abridges(scores, log, last, window)
    ensures RunPruned(scores, calls, window) == RunLog(log, calls, window)
    decreases calls
  {
    if calls != [] {
      var now, limit := calls[0].now, calls[0].limit;
      CheckAgreesWithLog(scores, log, last, now, limit, window);
      PrunedRefinesLog(Check(scores, now, limit, window).0, LogCheck(log, now, limit, window).0, now, calls[1..], window);
    }
  }

  /** What an expired key held, the next pipeline would have pruned, if its delay is at most a second
      more than that of every entry. */
  lemma ExpiredIsPrunable(scores: set<real>, last: real, c: Call, window: nat)
    requires forall t :: t in scores ==> 0.0 <= t && Delay(c) <= last - t + 1.0
    ensures var start := c.now - window as real;
            Pruned(Live(scores, last + (window + 1) as real, c.at), start) == Pruned(scores, start)
  {
    if last + (window + 1) as real <= c.at {
      assert Pruned(scores, c.now - window as real) == {};
    }
  }

  lemma CheckAddsNow(scores: set<real>, now: real, limit: int, window: nat)
    ensures Check(scores, now, limit, window).0 <= scores + {now}
  {
  }

  /** The entries were there at `last`, and no later call is delayed by more than a second more than
      the calls that added them. */
  ghost predicate SteadySince(scores: set<real>, last: real, calls: seq<Call>) {
    && (calls != [] ==> last <= calls[0].at)
    && forall t, i :: t in scores && 0 <= i < |calls| ==> 0.0 <= t && Delay(calls[i]) <= last - t + 1.0
  }

  lemma SteadyGoesOn(scores: set<real>, last: real, calls: seq<Call>, left: set<real>)
    requires calls != [] && Steady(calls) && SteadySince(scores, last, calls)
    requires left <= scores + {calls[0].now} && 0.0 <= calls[0].now
    ensures Steady(calls[1..]) && SteadySince(left, calls[0].at, calls[1..])
  {
    var rest := calls[1..];
    assert forall i :: 0 <= i < |rest| ==> rest[i] == calls[i + 1];
    forall t, i | t in left && 0 <= i < |rest|
      ensures 0.0 <= t && Delay(rest[i]) <= calls[0].at - t + 1.0
    {
      assert Delay(calls[i + 1]) <= Delay(calls[0]) + 1.0;
    }
  }

  /** Dropping the key when its time to live of window + 1 seconds has run out removes only
      entries the next pipeline would prune anyway. */
  lemma {:induction false} ExpiryIsInvisible(scores: set<real>, last: real, calls: seq<Call>, window: nat)
    requires Steady(calls) && SteadySince(scores, last, calls)
    requires forall i :: 0 <= i < |calls| ==> 0.0 <= calls[i].now
    ensures RunExpiring(scores, last + (window + 1) as real, calls, window) == RunPruned(scores, calls, window)
    decreases calls
  {
    if calls != [] {
      var c := calls[0];
      ExpiredIsPrunable(scores, last, c, window);
      var left := Check(scores, c.now, c.limit, window).0;
      CheckAddsNow(scores, c.now, c.limit, window);
      SteadyGoesOn(scores, last, calls, left);
      ExpiryIsInvisible(left, c.at, calls[1..], window);
    }
  }

  /** The limiter as deployed, on any run of calls with increasing clock readings and delays that do
      not grow by more than a second, answers as the reference limiter does. */
  lemma DeployedLimiterRefinesLog(calls: seq<Call>, window: nat, deadline: real)
    requires Increasing(0.0, calls) && Steady(calls)
    ensures RunExpiring({}, deadline, calls, window) == RunLog({}, calls, window)
  {
    IncreasingIsPositive(0.0, calls);
    PrunedRefinesLog({}, {}, 0.0, calls, window);
    if calls != [] {
      var last := calls[0].at;
      ExpiryIsInvisible({}, last, calls, window);
      assert Live({}, deadline, last) == Live({}, last + (window + 1) as real, last);
    }
  }

  lemma {:induction false} IncreasingIsPositive(last: real, calls: seq<Call>)
    requires 0.0 <= last && Increasing(last, calls)
    ensures forall i :: 0 <= i < |calls| ==> last < calls[i].now
    decreases calls
  {
    if calls != [] {
      IncreasingIsPositive(calls[0].now, calls[1..]);
      assert forall i :: 0 < i < |calls| ==> calls[i] == calls[1..][i - 1];
    }
  }

  /** The second of slack is exactly what the time to live pays for: with any delay of the first
      call and any greater growth, expiry lets a second call through that the window forbids. */
  lemma ExpiryIsVisibleBeyondASecond(first: real, delay: real, growth: real, window: nat) returns (calls: seq<Call>)
    requires 0.0 < first && 1.0 < growth && 1 <= window
    ensures |calls| == 2 && calls[0] == Call(first, first + delay, 1) && calls[1].limit == 1
    ensures Delay(calls[1]) == delay + growth && calls[0].at <= calls[1].at && Increasing(0.0, calls)
    ensures RunExpiring({}, calls[0].at, calls, window)[1].allowed
    ensures !RunPruned({}, calls, window)[1].allowed
  {
    var w := window as real;
    var now := first + if growth < w + 1.0 then w + 1.0 - growth else w / 2.0;
    var at := first + delay;
    var second := Call(now, now + delay + growth, 1);
    calls := [Call(first, at, 1), second];
    assert calls[1..] == [second];
    OnlyCallIsAllowed({}, first, window);
    assert RunExpiring({}, at, calls, window)[1] == RunExpiring({first}, at + w + 1.0, [second], window)[0];
    OnlyCallIsAllowed(Live({first}, at + w + 1.0, second.at), now, window);
    assert RunPruned({}, calls, window)[1] == RunPruned({first}, [second], window)[0];
    assert Pruned({first}, now - w) == {first};
    AddingIsCounted({first}, now);
  }

  lemma OnlyCallIsAllowed(scores: set<real>, now: real, window: nat)
    requires scores == {}
    ensures Check(scores, now, 1, window) == ({now}, Answer(true, 0, 0))
  {
    assert Pruned(scores, now - window as real) + {now} == {now};
  }

  /// Equal clock readings

  /** A rejected call leaves the window's entries as they were exactly when its own timestamp
      was not among them: the undo removes by timestamp, whoever added it. */
  lemma RejectionRestoresEntries(scores: set<real>, now: real, limit: int, window: nat)
    requires !Check(scores, now, limit, window).1.allowed
    ensures Check(scores, now, limit, window).0 == Pruned(scores, now - window as real) <==>
            now !in Pruned(scores, now - window as real)
  {
    var kept := Pruned(scores, now - window as real);
    if now !in kept {
      AddingIsCounted(kept, now);
    }
  }

  /** Allowed calls use one slot each exactly when their timestamps are new to the window. */
  lemma AllowedCallTakesASlot(scores: set<real>, now: real, limit: int, window: nat)
    requires Check(scores, now, limit, window).1.allowed
    ensures var kept := Pruned(scores, now - window as real);
            (Check(scores, now, limit, window).1.remaining == limit - |kept| - 1 <==> now !in kept)
  {
    var kept := Pruned(scores, now - window as real);
    if now in kept {
      assert kept + {now} == kept;
    } else {
      AddingIsCounted(kept, now);
    }
  }

  /** This is why clock readings have to differ: any number of calls with one and the same
      reading pass a limit of one. */
  lemma {:induction false} EqualReadingsAllPass(now: real, calls: seq<Call>, window: nat)
    requires 0.0 < now && 1 <= window
    requires forall i :: 0 <= i < |calls| ==> calls[i].now == now && calls[i].limit == 1
    ensures forall i :: 0 <= i < |calls| ==> RunPruned({now}, calls, window)[i].allowed
  {
    if calls != [] {
      assert Pruned({now}, now - window as real) + {now} == {now};
      assert Check({now}, now, 1, window) == ({now}, Answer(true, 0, 0));
      EqualReadingsAllPass(now, calls[1..], window);
      var rest := RunPruned({now}, calls[1..], window);
      assert forall i :: 0 < i < |calls| ==> RunPruned({now}, calls, window)[i] == rest[i - 1];
    }
  }

  /// Retry time

  /** Under one constant limit the window never holds more entries than the limit, none if it is
      negative, and all of them are earlier than the next clock reading. */
  lemma {:induction false} ConstantLimitBoundsEntries(
    scores: set<real>, last: real, calls: seq<Call>, limit: int, window: nat)
    requires 0.0 <= last && Increasing(last, calls)
    requires forall i :: 0 <= i < |calls| ==> calls[i].limit == limit
    requires |scores| <= Max(0, limit) && forall t :: t in scores ==> 0.0 <= t <= last
    ensures var after := ScoresAfter(scores, calls, window);
            && |after| <= Max(0, limit)
            && forall t :: t in after ==> 0.0 <= t <= (if calls == [] then last else calls[|calls| - 1].now)
    decreases calls
  {
    if calls != [] {
      var kept := Pruned(scores, calls[0].now - window as real);
      SubsetSize(kept, scores);
      var left := Check(scores, calls[0].now, limit, window).0;
      assert left == kept || |left| <= limit by {
        AddingIsCounted(kept, calls[0].now);
      }
      ConstantLimitBoundsEntries(left, calls[0].now, calls[1..], limit, window);
    }
  }

  /** Whether a call retried at `later` is allowed when `left` is all there is. */
  ghost predicate AllowedAt(left: set<real>, later: real, limit: int, window: nat) {
    Check(left, later, limit, window).1.allowed
  }

  /** What a rejection leaves under a constant limit: a full window, all of it earlier. */
  lemma RejectionFindsFullWindow(scores: set<real>, now: real, limit: int, window: nat)
    requires |scores| <= Max(0, limit) && forall t :: t in scores ==> 0.0 <= t < now
    requires !Check(scores, now, limit, window).1.allowed
    ensures var left := Check(scores, now, limit, window).0;
            |left| == Max(0, limit) && forall t :: t in left ==> 0.0 <= t && now - window as real < t < now
  {
    var kept := Pruned(scores, now - window as real);
    SubsetSize(kept, scores);
    AddingIsCounted(kept, now);
  }

  /** With a full window and no request in between, a retry is allowed exactly when the oldest
      entry has left the window. */
  lemma RetryWaitsForOldest(left: set<real>, later: real, limit: int, window: nat)
    requires left != {} && |left| == limit && forall t :: t in left ==> 0.0 <= t < later
    ensures AllowedAt(left, later, limit, window) <==> Oldest(left) + window as real <= later
  {
    var still := Since(left, later - window as real);
    AllowedExactly(left, later, limit, window);
    if Oldest(left) + window as real <= later {
      SubsetSize(still, left - {Oldest(left)});
    } else {
      assert still == left;
    }
  }

  /** Waiting as long as advised is enough, with no request in between, exactly when the entries
      that will then still be in the window are fewer than the limit that will then be in force. */
  lemma RetryAdviceHoldsExactly(left: set<real>, now: real, limit: int, window: nat)
    requires forall t :: t in left ==> 0.0 <= t < now
    ensures var due := now + RetryAfter(left, now, window) as real;
            (forall later :: due <= later ==> AllowedAt(left, later, limit, window)) <==>
            |Since(left, due - window as real)| < limit
  {
    var due := now + RetryAfter(left, now, window) as real;
    AllowedExactly(left, due, limit, window);
    forall later | due <= later
      ensures AllowedAt(left, due, limit, window) ==> AllowedAt(left, later, limit, window)
    {
      AllowedExactly(left, later, limit, window);
      SubsetSize(Since(left, later - window as real), Since(left, due - window as real));
    }
  }

  /** A retry is allowed exactly when the entries in its window are fewer than its limit. */
  lemma AllowedExactly(left: set<real>, later: real, limit: int, window: nat)
    requires forall t :: t in left ==> 0.0 <= t < later
    ensures AllowedAt(left, later, limit, window) <==> |Since(left, later - window as real)| < limit
  {
    var still := Since(left, later - window as real);
    assert Pruned(left, later - window as real) == still;
    AddingIsCounted(still, later);
  }

  /** By the end of the advised time the oldest entry has left. */
  lemma OldestLeavesByThen(left: set<real>, now: real, window: nat)
    requires left != {} && forall t :: t in left ==> now - window as real < t < now
    ensures var due := now + RetryAfter(left, now, window) as real;
            |Since(left, due - window as real)| < |left|
  {
    var due := now + RetryAfter(left, now, window) as real;
    SubsetSize(Since(left, due - window as real), left - {Oldest(left)});
  }

  /** After any run under a constant limit, a rejection at `now` gives an advice that is enough,
      with no request in between, exactly when the limit is positive. */
  lemma ConstantLimitAdvice(calls: seq<Call>, now: real, limit: int, window: nat)
    requires Increasing(0.0, calls)
    requires forall i :: 0 <= i < |calls| ==> calls[i].limit == limit
    requires if calls == [] then 0.0 < now else calls[|calls| - 1].now < now
    requires !Check(ScoresAfter({}, calls, window), now, limit, window).1.allowed
    ensures var (left, answer) := Check(ScoresAfter({}, calls, window), now, limit, window);
            (forall later :: now + answer.retryAfter as real <= later ==> AllowedAt(left, later, limit, window)) <==>
            1 <= limit
  {
    var scores := ScoresAfter({}, calls, window);
    ConstantLimitBoundsEntries({}, 0.0, calls, limit, window);
    RejectionFindsFullWindow(scores, now, limit, window);
    var left := Check(scores, now, limit, window).0;
    RetryAdviceHoldsExactly(left, now, limit, window);
    if 1 <= limit {
      OldestLeavesByThen(left, now, window);
    }
  }

  /** A limit of zero or less, by contrast, turns every retry away, at any time. */
  lemma NoRetryWithoutLimit(left: set<real>, later: real, limit: int, window: nat)
    requires limit <= 0
    ensures !AllowedAt(left, later, limit, window)
  {
    assert later in Pruned(left, later - window as real) + {later};
  }

  /** After any run under a constant limit of at least one, a rejection at `now` tells the
      caller to wait for a time between 1 second and the window.  With no request in between,
      a retry is allowed exactly when the oldest entry has left the window; the advice comes
      after that moment, by at most a second. */
  lemma RetryAfterIsSoundAndTight(calls: seq<Call>, now: real, limit: int, window: nat)
    requires 1 <= limit && Increasing(0.0, calls)
    requires forall i :: 0 <= i < |calls| ==> calls[i].limit == limit
    requires if calls == [] then 0.0 < now else calls[|calls| - 1].now < now
    requires !Check(ScoresAfter({}, calls, window), now, limit, window).1.allowed
    ensures var (left, answer) := Check(ScoresAfter({}, calls, window), now, limit, window);
            && left != {}
            && var wait := Oldest(left) + window as real - now;
               && 1 <= answer.retryAfter <= window
               && 0.0 < answer.retryAfter as real - wait <= 1.0
               && (forall later :: now < later ==> (AllowedAt(left, later, limit, window) <==> now + wait <= later))
  {
    var scores := ScoresAfter({}, calls, window);
    ConstantLimitBoundsEntries({}, 0.0, calls, limit, window);
    RejectionFindsFullWindow(scores, now, limit, window);
    var left := Check(scores, now, limit, window).0;
    forall later | now < later
      ensures AllowedAt(left, later, limit, window) <==> Oldest(left) + window as real <= later
    {
      RetryWaitsForOldest(left, later, limit, window);
    }
  }

  /** The entries two calls leave in an empty set when both are allowed and neither expires. */
  lemma TwoAllowedCalls(a: real, b: real, window: nat)
    requires 0.0 < a < b < a + window as real
    ensures ScoresAfter({}, [Call(a, a, 2), Call(b, b, 2)], window) == {a, b}
  {
    var first, second := Call(a, a, 2), Call(b, b, 2);
    assert Check({}, a, 2, window).0 == {a} by {
      assert Pruned({}, a - window as real) + {a} == {a};
    }
    assert Check({a}, b, 2, window).0 == {a, b} by {
      assert Pruned({a}, b - window as real) + {b} == {a, b};
      assert |{a, b}| == 2;
    }
    assert [first, second][1..] == [second];
    assert ScoresAfter({a}, [second], window) == ScoresAfter({a, b}, [second][1..], window) == {a, b};
  }

  /** The advice relies on the limit staying as it was.  Two calls more than a second apart
      pass under a limit of two; when the limit is then lowered to one, a caller that is turned
      away and waits as long as it was told is turned away again. */
  lemma LoweredLimitBreaksRetryAdvice(a: real, b: real, now: real, window: nat)
    requires 0.0 < a && a + 1.0 < b < now < a + window as real
    ensures var scores := ScoresAfter({}, [Call(a, a, 2), Call(b, b, 2)], window);
            var (left, answer) := Check(scores, now, 1, window);
            && !answer.allowed
            && !AllowedAt(left, now + answer.retryAfter as real, 1, window)
  {
    TwoAllowedCalls(a, b, window);
    var (left, answer) := Check({a, b}, now, 1, window);
    RejectedUnderOne(a, b, now, window);
    var later := now + answer.retryAfter as real;
    assert Since({a, b}, later - window as real) == {b};
    AllowedExactly({a, b}, later, 1, window);
  }

  lemma RejectedUnderOne(a: real, b: real, now: real, window: nat)
    requires 0.0 < a < b < now < a + window as real
    ensures var (left, answer) := Check({a, b}, now, 1, window);
            left == {a, b} && !answer.allowed && now + answer.retryAfter as real <= a + window as real + 1.0
  {
    assert Pruned({a, b}, now - window as real) == {a, b};
    AddingIsCounted({a, b}, now);
    assert Oldest({a, b}) == a;
  }
}
