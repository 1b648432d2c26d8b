/**
 The rate limiter with requests in flight at the same time.  One request of one identifier
 takes up to three server steps: the pipeline (prune, add, count, refresh the time to live),
 and, when it is rejected, the removal of its own entry and then the reading of the oldest
 one.  Steps of different requests interleave in any way.
 */
module RateLimitProtocol {
  import opened Sets
  import opened SlidingWindow

  /** A request whose pipeline has run: its clock reading, the server's time at its pipeline, its
      limit and the decision.  `pending` are the rejected requests whose entry was still waiting
      to be removed at that moment. */
  datatype Request = Request(now: real, at: real, limit: int, allowed: bool, pending: set<nat>)

  /** `log` lists the requests in the order their pipelines ran; a request is named by its
      index.  `undo` are the rejected ones whose entry has not been removed yet, `advice` the
      retry times handed out. */
  datatype State = State(
    entries: set<real>, deadline: real, clock: real,
    log: seq<Request>, undo: set<nat>, advice: map<nat, int>)

  datatype Step =
    | Pipeline(now: real, limit: int, at: real)
    | Undo(request: nat)
    | Advise(request: nat, at: real)

  const START := State({}, 0.0, 0.0, [], {}, map[])

  /** Clock readings under one identifier are distinct and not negative.  They may be ahead of the
      server's clock or behind it by any amount; the server's own clock does not go back. */
  ghost predicate Enabled(s: State, step: Step) {
    match step
    case Pipeline(now, limit, at) =>
      && s.clock <= at && 0.0 <= now
      && forall i :: 0 <= i < |s.log| ==> s.log[i].now != now
    case Undo(i) => i in s.undo
    case Advise(i, at) =>
      s.clock <= at && i < |s.log| && !s.log[i].allowed && i !in s.undo && i !in s.advice
  }

  ghost function Apply(s: State, step: Step, window: nat): State {
    match step
    case Pipeline(now, limit, at) =>
      var added := Pruned(Live(s.entries, s.deadline, at), now - window as real) + {now};
      var allowed := |added| <= limit;
      State(added, at + (window + 1) as real, at, s.log + [Request(now, at, limit, allowed, s.undo)],
            if allowed then s.undo else s.undo + {|s.log|}, s.advice)
    case Undo(i) =>
      if i < |s.log| then s.(entries := s.entries - {s.log[i].now}, undo := s.undo - {i}) else s
    case Advise(i, at) =>
      if i < |s.log| then
        s.(clock := at,
           advice := s.advice[i := RetryAfter(Live(s.entries, s.deadline, at), s.log[i].now, window)])
      else s
  }

  ghost function After(steps: seq<Step>, window: nat): State {
    if steps == [] then START else Apply(After(steps[..|steps| - 1], window), steps[|steps| - 1], window)
  }

  ghost predicate Legal(steps: seq<Step>, window: nat) {
    steps == [] || (
      && Legal(steps[..|steps| - 1], window)
      && Enabled(After(steps[..|steps| - 1], window), steps[|steps| - 1]))
  }

  lemma Extend(steps: seq<Step>, step: Step, window: nat)
    requires Legal(steps, window) && Enabled(After(steps, window), step)
    ensures Legal(steps + [step], window)
    ensures After(steps + [step], window) == Apply(After(steps, window), step, window)
  {
    assert (steps + [step])[..|steps|] == steps;
  }

  /** A request whose steps run with nothing in between does to the entries what a completed
      call does, and gets its answer. */
  lemma StepsOfOneCall(s: State, now: real, limit: int, at: real, window: nat)
    ensures var (left, answer) := Check(Live(s.entries, s.deadline, at), now, limit, window);
            var r := |s.log|;
            var s1 := Apply(s, Pipeline(now, limit, at), window);
            var s2 := Apply(s1, Undo(r), window);
            var s3 := Apply(s2, Advise(r, at), window);
            && s1.log == s.log + [Request(now, at, limit, answer.allowed, s.undo)]
            && (answer.allowed ==> s1.entries == left && answer.remaining == limit - |s1.entries|)
            && (!answer.allowed ==>
                 && s2.entries == s3.entries == left
                 && s3.advice == s.advice[r := answer.retryAfter])
  {
  }

  /// What the entries mean

  /** Pipeline j takes away the entry of request i: its clock reading prunes it, or the key has
      expired since the pipeline before. */
  ghost predicate Drops(log: seq<Request>, i: nat, j: nat, window: nat)
    requires i < j < |log|
  {
    || log[i].now <= log[j].now - window as real
    || log[j - 1].at + (window + 1) as real <= log[j].at
  }

  /** Some pipeline after request i, up to request r, has taken away the entry of i. */
  ghost predicate Gone(log: seq<Request>, i: nat, r: int, window: nat)
    requires r < |log|
  {
    exists j :: i < j <= r && Drops(log, i, j, window)
  }

  /** The requests whose entries the pipeline of request r counts. */
  ghost function Counted(log: seq<Request>, r: nat, window: nat): set<nat>
    requires r < |log|
  {
    set i: nat | i <= r && !Gone(log, i, r, window) && (i == r || log[i].allowed || i in log[r].pending)
  }

  /** The requests whose entries are in the sorted set now. */
  ghost function Held(s: State, window: nat): set<nat> {
    set i: nat | i < |s.log| && !Gone(s.log, i, |s.log| - 1, window) && (s.log[i].allowed || i in s.undo)
  }

  ghost function Times(log: seq<Request>, requests: set<nat>): set<real>
    requires forall i :: i in requests ==> i < |log|
  {
    set i | i in requests :: log[i].now
  }

  ghost predicate DistinctTimes(log: seq<Request>) {
    forall i, j :: 0 <= i < j < |log| ==> log[i].now != log[j].now
  }

  /** The invariant: the sorted set holds exactly the allowed requests and the rejected ones not
      yet undone, less what later pipelines pruned or found expired; and a request was allowed exactly when its
      pipeline counted no more than its limit. */
  ghost predicate Inv(s: State, window: nat) {
    && Timed(s, window)
    && s.entries == Times(s.log, Held(s, window))
    && AllDecided(s.log, window)
    && AllAdvised(s, window)
  }

  ghost predicate Timed(s: State, window: nat) {
    && DistinctTimes(s.log)
    && (forall i :: 0 <= i < |s.log| ==> 0.0 <= s.log[i].now)
    && InServerOrder(s.log)
    && (s.log != [] ==>
          && s.log[|s.log| - 1].at <= s.clock
          && s.deadline == s.log[|s.log| - 1].at + (window + 1) as real)
    && (forall i :: i in s.undo ==> i < |s.log| && !s.log[i].allowed)
  }

  ghost predicate InServerOrder(log: seq<Request>) {
    forall i, j :: 0 <= i < j < |log| ==> log[i].at <= log[j].at
  }

  ghost predicate AllDecided(log: seq<Request>, window: nat) {
    forall r :: 0 <= r < |log| ==> Decided(log, r, window)
  }

  ghost predicate AllAdvised(s: State, window: nat) {
    forall i :: i in s.advice ==> i < |s.log| && Advised(s, i, window)
  }

  ghost predicate Decided(log: seq<Request>, r: nat, window: nat)
    requires r < |log|
  {
    && (log[r].allowed <==> |Counted(log, r, window)| <= log[r].limit)
    && forall i :: i in log[r].pending ==> i < r && !log[i].allowed
  }

  /** The advice is at least 1, and ends at most a second after some request would leave the window. */
  ghost predicate Advised(s: State, i: nat, window: nat)
    requires i < |s.log| && i in s.advice
  {
    && 1 <= s.advice[i]
    && exists k :: 0 <= k < |s.log| && WaitsFor(s.log, i, k, s.advice[i], window)
  }

  ghost predicate WaitsFor(log: seq<Request>, i: nat, k: nat, advice: int, window: nat)
    requires i < |log| && k < |log|
  {
    advice as real <= log[k].now - log[i].now + (window + 1) as real
  }

  lemma {:induction false} TimesSize(log: seq<Request>, requests: set<nat>)
    requires DistinctTimes(log)
    requires forall i :: i in requests ==> i < |log|
    ensures |Times(log, requests)| == |requests|
  {
    if requests != {} {
      var i :| i in requests;
      var others := requests - {i};
      TimesSize(log, others);
      assert requests == others + {i};
      OneMoreTime(log, others, i);
    }
  }

  lemma OneTimeLess(log: seq<Request>, requests: set<nat>, i: nat)
    requires DistinctTimes(log) && i < |log|
    requires forall i :: i in requests ==> i < |log|
    ensures Times(log, requests - {i}) == Times(log, requests) - {log[i].now}
  {
    assert forall k :: k in requests && k != i ==> log[k].now != log[i].now;
    forall x | x in Times(log, requests) - {log[i].now}
      ensures x in Times(log, requests - {i})
    {
      var k :| k in requests && log[k].now == x;
      assert k in requests - {i};
    }
  }

  lemma OneMoreTime(log: seq<Request>, requests: set<nat>, i: nat)
    requires DistinctTimes(log) && i < |log| && i !in requests
    requires forall i :: i in requests ==> i < |log|
    ensures Times(log, requests + {i}) == Times(log, requests) + {log[i].now}
    ensures log[i].now !in Times(log, requests)
  {
  }

  /** What a pipeline counts does not depend on the requests after it. */
  lemma EarlierDecisionsStand(log: seq<Request>, last: Request, r: nat, window: nat)
    requires r < |log|
    ensures Counted(log + [last], r, window) == Counted(log, r, window)
  {
    forall i: nat | i <= r
      ensures Gone(log + [last], i, r, window) <==> Gone(log, i, r, window)
    {
      GoneStands(log, last, i, r, window);
    }
  }

  lemma GoneStands(log: seq<Request>, last: Request, i: nat, r: int, window: nat)
    requires i <= |log| && r < |log|
    ensures Gone(log + [last], i, r, window) <==> Gone(log, i, r, window)
  {
    assert forall j :: i < j <= r ==> (Drops(log + [last], i, j, window) <==> Drops(log, i, j, window));
  }

  /** Whether the key has expired when a pipeline runs after these. */
  ghost predicate Lapsed(log: seq<Request>, at: real, window: nat) {
    log != [] && log[|log| - 1].at + (window + 1) as real <= at
  }

  lemma GoneAfter(log: seq<Request>, last: Request, i: nat, window: nat)
    requires i < |log|
    ensures Gone(log + [last], i, |log|, window) <==>
            || Gone(log, i, |log| - 1, window)
            || log[i].now <= last.now - window as real
            || Lapsed(log, last.at, window)
  {
    var log' := log + [last];
    GoneStands(log, last, i, |log| - 1, window);
    assert Drops(log', i, |log|, window) <==>
           log[i].now <= last.now - window as real || Lapsed(log, last.at, window);
    if Gone(log', i, |log|, window) {
      var j :| i < j <= |log| && Drops(log', i, j, window);
      assert j < |log| ==> Gone(log', i, |log| - 1, window);
    }
    if Gone(log', i, |log| - 1, window) {
      var j :| i < j <= |log| - 1 && Drops(log', i, j, window);
      assert Gone(log', i, |log|, window);
    }
  }

  /** The requests whose entries a pruning up to `start` leaves. */
  ghost function Unpruned(log: seq<Request>, held: set<nat>, start: real): set<nat>
    requires forall i :: i in held ==> i < |log|
  {
    set i | i in held && start < log[i].now
  }

  /** Of the requests whose entries are there, the new pipeline counts those that have neither
      expired nor are pruned by its own clock reading, and its own. */
  lemma CountedAfter(s: State, last: Request, window: nat)
    requires last.pending == s.undo
    ensures var held := if Lapsed(s.log, last.at, window) then {} else Held(s, window);
            Counted(s.log + [last], |s.log|, window) ==
            Unpruned(s.log, held, last.now - window as real) + {|s.log|}
  {
    var log := s.log + [last];
    forall i: nat | i < |s.log|
      ensures Gone(log, i, |s.log|, window) <==>
              || Gone(s.log, i, |s.log| - 1, window)
              || s.log[i].now <= last.now - window as real
              || Lapsed(s.log, last.at, window)
    {
      GoneAfter(s.log, last, i, window);
    }
    assert !Gone(log, |s.log|, |s.log|, window);
  }

  lemma TimesAfter(log: seq<Request>, last: Request, held: set<nat>, start: real)
    requires forall i :: i in held ==> i < |log| && 0.0 <= log[i].now
    ensures Times(log + [last], Unpruned(log, held, start) + {|log|}) == Pruned(Times(log, held), start) + {last.now}
  {
    var kept := Unpruned(log, held, start);
    var log' := log + [last];
    forall x | x in Pruned(Times(log, held), start)
      ensures x in Times(log', kept + {|log|})
    {
      var i :| i in held && log[i].now == x;
      assert i in kept && log'[i].now == x;
    }
    assert |log| in kept + {|log|} && log'[|log|].now == last.now;
  }

  lemma LiveTimes(s: State, at: real, window: nat)
    requires Timed(s, window) && s.entries == Times(s.log, Held(s, window))
    ensures Live(s.entries, s.deadline, at) ==
            Times(s.log, if Lapsed(s.log, at, window) then {} else Held(s, window))
  {
  }

  /** The entries after pruning and adding are those of the counted requests. */
  lemma EntriesAfter(s: State, last: Request, window: nat)
    requires Timed(s, window) && s.entries == Times(s.log, Held(s, window))
    requires last.pending == s.undo
    ensures Pruned(Live(s.entries, s.deadline, last.at), last.now - window as real) + {last.now} ==
            Times(s.log + [last], Counted(s.log + [last], |s.log|, window))
  {
    var held := if Lapsed(s.log, last.at, window) then {} else Held(s, window);
    LiveTimes(s, last.at, window);
    CountedAfter(s, last, window);
    TimesAfter(s.log, last, held, last.now - window as real);
  }

  lemma HeldAfter(s: State, s': State, window: nat)
    requires |s'.log| == |s.log| + 1 && s'.log[..|s.log|] == s.log
    requires s'.log[|s.log|].pending == s.undo
    requires s'.undo == if s'.log[|s.log|].allowed then s.undo else s.undo + {|s.log|}
    requires forall i :: i in s.undo ==> i < |s.log|
    ensures Held(s', window) == Counted(s'.log, |s.log|, window)
  {
    assert !Gone(s'.log, |s.log|, |s.log|, window);
  }

  lemma PipelineKeepsInv(s: State, now: real, limit: int, at: real, window: nat)
    requires Inv(s, window) && Enabled(s, Pipeline(now, limit, at))
    ensures Inv(Apply(s, Pipeline(now, limit, at), window), window)
  {
    var s' := Apply(s, Pipeline(now, limit, at), window);
    PipelineKeepsTimed(s, now, limit, at, window);
    EntriesAfter(s, s'.log[|s.log|], window);
    HeldAfter(s, s', window);
    PipelineDecides(s, s', window);
    AdviceStays(s, s', window);
  }

  lemma PipelineKeepsTimed(s: State, now: real, limit: int, at: real, window: nat)
    requires Timed(s, window) && Enabled(s, Pipeline(now, limit, at))
    ensures Timed(Apply(s, Pipeline(now, limit, at), window), window)
  {
  }

  lemma PipelineDecides(s: State, s': State, window: nat)
    requires Inv(s, window) && DistinctTimes(s'.log)
    requires |s'.log| == |s.log| + 1 && s'.log[..|s.log|] == s.log
    requires s'.log[|s.log|].pending == s.undo
    requires s'.log[|s.log|].allowed <==> |s'.entries| <= s'.log[|s.log|].limit
    requires s'.entries == Times(s'.log, Counted(s'.log, |s.log|, window))
    ensures AllDecided(s'.log, window)
  {
    TimesSize(s'.log, Counted(s'.log, |s.log|, window));
    assert s'.log == s.log + [s'.log[|s.log|]];
    forall r | 0 <= r < |s.log|
      ensures Decided(s'.log, r, window)
    {
      assert Decided(s.log, r, window);
      EarlierDecisionsStand(s.log, s'.log[|s.log|], r, window);
    }
    assert Decided(s'.log, |s.log|, window);
  }

  lemma AdviceStays(s: State, s': State, window: nat)
    requires s'.advice == s.advice && s.log <= s'.log
    requires AllAdvised(s, window)
    ensures AllAdvised(s', window)
  {
    forall i | i in s'.advice
      ensures i < |s'.log| && Advised(s', i, window)
    {
      assert Advised(s, i, window);
      var k :| 0 <= k < |s.log| && WaitsFor(s.log, i, k, s.advice[i], window);
      assert WaitsFor(s'.log, i, k, s'.advice[i], window);
    }
  }

  lemma UndoKeepsInv(s: State, i: nat, window: nat)
    requires Inv(s, window) && i in s.undo
    ensures Inv(Apply(s, Undo(i), window), window)
  {
    UndoneEntries(s, i, window);
    AdviceStays(s, Apply(s, Undo(i), window), window);
  }

  lemma UndoneEntries(s: State, i: nat, window: nat)
    requires Timed(s, window) && s.entries == Times(s.log, Held(s, window)) && i in s.undo
    ensures var s' := Apply(s, Undo(i), window);
            Timed(s', window) && s'.entries == Times(s'.log, Held(s', window))
  {
    var s' := Apply(s, Undo(i), window);
    assert Held(s', window) == Held(s, window) - {i};
    OneTimeLess(s.log, Held(s, window), i);
  }

  /** Every interleaving keeps the invariant. */
  lemma {:induction false} Invariant(steps: seq<Step>, window: nat)
    requires Legal(steps, window)
    ensures Inv(After(steps, window), window)
  {
    if steps == [] {
      assert Held(START, window) == {};
    } else {
      var s, step := After(steps[..|steps| - 1], window), steps[|steps| - 1];
      Invariant(steps[..|steps| - 1], window);
      match step
      case Pipeline(now, limit, at) => PipelineKeepsInv(s, now, limit, at, window);
      case Undo(i) => UndoKeepsInv(s, i, window);
      case Advise(i, at) => AdviseKeepsInv(s, i, at, window);
    }
  }

  lemma AdviseKeepsInv(s: State, i: nat, at: real, window: nat)
    requires Inv(s, window) && Enabled(s, Advise(i, at))
    ensures Inv(Apply(s, Advise(i, at), window), window)
  {
    var s' := Apply(s, Advise(i, at), window);
    assert s'.entries == Times(s'.log, Held(s', window)) by {
      assert Held(s', window) == Held(s, window);
    }
    forall k | k in s'.advice
      ensures k < |s'.log| && Advised(s', k, window)
    {
      if k == i {
        var seen := Live(s.entries, s.deadline, at);
        assert seen <= Times(s.log, Held(s, window));
        AdviceIsSomeWait(s.log, seen, i, window);
      } else {
        assert Advised(s, k, window);
      }
    }
  }

  lemma AdviceIsSomeWait(log: seq<Request>, seen: set<real>, i: nat, window: nat)
    requires i < |log| && forall x :: x in seen ==> exists k :: 0 <= k < |log| && log[k].now == x
    ensures var advice := RetryAfter(seen, log[i].now, window);
            1 <= advice && exists k :: 0 <= k < |log| && WaitsFor(log, i, k, advice, window)
  {
    var advice := RetryAfter(seen, log[i].now, window);
    if advice == 1 {
      assert WaitsFor(log, i, i, advice, window);
    } else {
      var k :| 0 <= k < |log| && log[k].now == Oldest(seen);
      assert WaitsFor(log, i, k, advice, window);
    }
  }

  /** An advice is at least 1, and exceeds the window and a second by no more than the time by
      which some clock reading of the run is later than the caller's own. */
  lemma AdviceIsBounded(steps: seq<Step>, window: nat, i: nat, latest: real)
    requires Legal(steps, window) && i in After(steps, window).advice
    requires var log := After(steps, window).log; forall k :: 0 <= k < |log| ==> log[k].now <= latest
    ensures var s := After(steps, window);
            && i < |s.log| && 1 <= s.advice[i]
            && s.advice[i] as real <= latest - s.log[i].now + (window + 1) as real
  {
    Invariant(steps, window);
    assert Advised(After(steps, window), i, window);
  }

  /// Safety over whole runs

  /** No pipeline has a clock reading more than d ahead of one that runs later. */
  ghost predicate Skew(log: seq<Request>, d: real) {
    forall i, j :: 0 <= i < j < |log| ==> log[i].now <= log[j].now + d
  }

  /** From no request to a later one does the time between clock reading and pipeline, negative
      where the reading is ahead of the server, grow by more than e. */
  ghost predicate Drift(log: seq<Request>, e: real) {
    forall i, j :: 0 <= i < j < |log| ==> log[j].at - log[j].now <= log[i].at - log[i].now + e
  }

  /** Clock readings are at most `ahead` later and at most `behind` earlier than their pipelines. */
  ghost predicate Offset(log: seq<Request>, ahead: real, behind: real) {
    forall i :: 0 <= i < |log| ==> log[i].at - behind <= log[i].now <= log[i].at + ahead
  }

  /** Offsets bound both. */
  lemma OffsetsBoundSkew(steps: seq<Step>, window: nat, ahead: real, behind: real)
    requires Legal(steps, window) && Offset(After(steps, window).log, ahead, behind)
    ensures var log := After(steps, window).log; Skew(log, ahead + behind) && Drift(log, ahead + behind)
  {
    Invariant(steps, window);
  }

  /** The allowed requests with clock readings in (lo, hi]. */
  ghost function Admitted(log: seq<Request>, lo: real, hi: real): set<nat> {
    set i: nat | i < |log| && log[i].allowed && lo < log[i].now <= hi
  }

  ghost function Last(requests: set<nat>): (m: nat)
    requires requests != {}
    ensures m in requests && forall i :: i in requests ==> i <= m
  {
    var i :| i in requests;
    if requests == {i} then
      i
    else
      var m := Last(requests - {i});
      assert forall k :: k in requests ==> k == i || k in requests - {i};
      if m < i then i else m
  }

  /** No request of an interval that ends in request r and is no longer than the window less the
      skew has been taken away from r's pipeline, by pruning or by expiry. */
  lemma RecentStays(log: seq<Request>, window: nat, d: real, lo: real, i: nat, r: nat)
    requires i <= r < |log| && InServerOrder(log)
    requires 0.0 <= d && Skew(log, d) && Drift(log, d + 1.0)
    requires lo < log[i].now && log[r].now - lo <= window as real - d
    ensures !Gone(log, i, r, window)
  {
    forall j | i < j <= r
      ensures !Drops(log, i, j, window)
    {
      assert log[j].now <= log[r].now + d;
      assert log[i].at <= log[j - 1].at && log[j].at <= log[r].at;
    }
  }

  /** In every interleaving, an interval of clock readings no longer than the window less the
      skew admits no more requests than the limit of the last of them to be admitted. */
  lemma WindowBound(steps: seq<Step>, window: nat, d: real, lo: real, hi: real)
    requires Legal(steps, window)
    requires var log := After(steps, window).log; 0.0 <= d && Skew(log, d) && Drift(log, d + 1.0)
    requires hi - lo <= window as real - d
    ensures var log := After(steps, window).log;
            var admitted := Admitted(log, lo, hi);
            admitted != {} ==> |admitted| <= log[Last(admitted)].limit
  {
    Invariant(steps, window);
    var log := After(steps, window).log;
    var admitted := Admitted(log, lo, hi);
    if admitted != {} {
      var r := Last(admitted);
      assert Decided(log, r, window);
      forall i | i in admitted
        ensures i in Counted(log, r, window)
      {
        RecentStays(log, window, d, lo, i, r);
      }
      SubsetSize(admitted, Counted(log, r, window));
    }
  }

  /** So it is when all that is known is how far the clocks can be off, either way. */
  lemma WindowBoundFromOffsets(steps: seq<Step>, window: nat, ahead: real, behind: real, lo: real, hi: real)
    requires Legal(steps, window) && 0.0 <= ahead + behind
    requires Offset(After(steps, window).log, ahead, behind)
    requires hi - lo <= window as real - (ahead + behind)
    ensures var log := After(steps, window).log;
            var admitted := Admitted(log, lo, hi);
            admitted != {} ==> |admitted| <= log[Last(admitted)].limit
  {
    OffsetsBoundSkew(steps, window, ahead, behind);
    WindowBound(steps, window, ahead + behind, lo, hi);
  }

  /** The allowed requests with pipelines at the server's times in (lo, hi]. */
  ghost function AdmittedAt(log: seq<Request>, lo: real, hi: real): set<nat> {
    set i: nat | i < |log| && log[i].allowed && lo < log[i].at <= hi
  }

  /** And the same holds of intervals of the server's time. */
  lemma ServerWindowBound(steps: seq<Step>, window: nat, ahead: real, behind: real, lo: real, hi: real)
    requires Legal(steps, window) && 0.0 <= ahead + behind
    requires Offset(After(steps, window).log, ahead, behind)
    requires hi - lo <= window as real - (ahead + behind)
    ensures var log := After(steps, window).log;
            var admitted := AdmittedAt(log, lo, hi);
            admitted != {} ==> |admitted| <= log[Last(admitted)].limit
  {
    Invariant(steps, window);
    var log := After(steps, window).log;
    var admitted := AdmittedAt(log, lo, hi);
    if admitted != {} {
      var r := Last(admitted);
      assert Decided(log, r, window);
      forall i | i in admitted
        ensures i in Counted(log, r, window)
      {
        RecentlyServedStays(log, window, ahead, behind, lo, i, r);
      }
      SubsetSize(admitted, Counted(log, r, window));
    }
  }

  lemma RecentlyServedStays(
    log: seq<Request>, window: nat, ahead: real, behind: real, lo: real, i: nat, r: nat)
    requires i <= r < |log| && InServerOrder(log) && Offset(log, ahead, behind) && 0.0 <= ahead + behind
    requires lo < log[i].at && log[r].at - lo <= window as real - (ahead + behind)
    ensures !Gone(log, i, r, window)
  {
    forall j | i < j <= r
      ensures !Drops(log, i, j, window)
    {
      assert log[i].at <= log[j - 1].at && log[j].at <= log[r].at;
      assert log[j].now <= log[j].at + ahead && log[i].at - behind <= log[i].now;
    }
  }

  /** With one limit for all requests and pipelines in the order of their clock readings, every
      window-long interval admits at most the limit. */
  lemma FullWindowBound(steps: seq<Step>, log: seq<Request>, window: nat, limit: nat, t: real)
    requires Legal(steps, window) && log == After(steps, window).log
    requires Skew(log, 0.0) && Drift(log, 1.0)
    requires forall i :: 0 <= i < |log| ==> log[i].limit == limit
    ensures |Admitted(log, t - window as real, t)| <= limit
  {
    var lo := t - window as real;
    WindowBound(steps, window, 0.0, lo, t);
  }

  /** The bound cannot be had for longer intervals: whatever the skew d, for every interval longer
      than the window less d there is a run with a limit of two that admits three requests in it. */
  lemma SkewAdmitsMore(window: nat, d: real, length: real) returns (steps: seq<Step>, lo: real)
    requires 1 <= window && 0.0 < d && 0.0 < length && window as real - d < length
    ensures Legal(steps, window)
    ensures var log := After(steps, window).log;
            && Skew(log, d) && Drift(log, d + 1.0) && (forall i :: 0 <= i < |log| ==> log[i].limit == 2)
            && |Admitted(log, lo, lo + length)| == 3
  {
    var skew, second := SkewAndGap(window, d, length);
    lo := second + window as real - skew - length;
    var s;
    steps, s := LateRun(window, second, skew);
    ThreeInInterval(s.log, window, second, skew, lo, length);
    OneIsBehind(s.log, window, second, skew, d);
  }

  lemma SkewAndGap(window: nat, d: real, length: real) returns (skew: real, second: real)
    requires 1 <= window && 0.0 < d && 0.0 < length && window as real - d < length
    ensures 0.0 < skew <= d && skew < window as real && 1.0 < second <= 1.5
    ensures second + window as real - skew - length < 1.0
  {
    var w := window as real;
    skew := if d < w then d else if length < w then w - length / 2.0 else w / 2.0;
    var spare := length - (w - skew);
    second := if spare < 1.0 then 1.0 + spare / 2.0 else 1.5;
  }

  lemma LateRun(window: nat, second: real, skew: real) returns (steps: seq<Step>, s: State)
    requires 0.0 < skew < window as real && 1.0 < second <= 1.5
    ensures Legal(steps, window) && s == After(steps, window) && s.log == LateLog(window, second, skew)
  {
    var steps2, s2 := TwoTogether(window, second);
    steps, s := OneIsLate(steps2, s2, window, second, skew);
  }

  /** The log of two requests, one a window after the second, and one `skew` behind that. */
  ghost function LateLog(window: nat, second: real, skew: real): seq<Request> {
    var third := second + window as real;
    [Request(1.0, 1.0, 2, true, {}), Request(second, second, 2, true, {})]
    + [Request(third, third, 2, true, {})] + [Request(third - skew, third, 2, true, {})]
  }

  lemma ThreeInInterval(log: seq<Request>, window: nat, second: real, skew: real, lo: real, length: real)
    requires 0.0 < skew < window as real && 1.0 < second <= 1.5 && log == LateLog(window, second, skew)
    requires lo + length == second + window as real - skew && lo < 1.0
    ensures |Admitted(log, lo, lo + length)| == 3
  {
    assert log[0].now == 1.0 && log[1].now == second;
    assert log[2].now == second + window as real && log[3].now == second + window as real - skew;
    assert Admitted(log, lo, lo + length) == {0, 1, 3};
  }

  lemma OneIsBehind(log: seq<Request>, window: nat, second: real, skew: real, d: real)
    requires 0.0 < skew <= d && 1.0 < second <= 1.5 && log == LateLog(window, second, skew)
    requires skew < window as real
    ensures Skew(log, d) && Drift(log, d + 1.0) && (forall i :: 0 <= i < |log| ==> log[i].limit == 2)
  {
    assert log[0].now == log[0].at == 1.0 && log[1].now == log[1].at == second;
    assert log[2].now == log[2].at == log[3].at == second + window as real && log[3].now == log[3].at - skew;
  }

  ghost predicate Together(s: State, window: nat, second: real) {
    && s.entries == {1.0, second} && s.deadline == second + (window + 1) as real && s.clock == second
    && s.log == [Request(1.0, 1.0, 2, true, {}), Request(second, second, 2, true, {})] && s.undo == {}
  }

  /** Two requests in a short time. */
  lemma TwoTogether(window: nat, second: real) returns (steps: seq<Step>, s: State)
    requires 1 <= window && 1.0 < second <= 1.5
    ensures Legal(steps, window) && s == After(steps, window)
    ensures Together(s, window, second)
  {
    var s1 := AllowedStep(START, 1.0, 2, 1.0, {}, window);
    steps := TakeStep([], START, Pipeline(1.0, 2, 1.0), s1, window);
    assert Pruned({1.0}, second - window as real) == {1.0};
    s := AllowedStep(s1, second, 2, second, {1.0}, window);
    steps := TakeStep(steps, s1, Pipeline(second, 2, second), s, window);
  }

  /** After them one that prunes both, and one `skew` behind it. */
  lemma OneIsLate(before: seq<Step>, s2: State, window: nat, second: real, skew: real)
      returns (steps: seq<Step>, s: State)
    requires 0.0 < skew < window as real && 1.0 < second <= 1.5
    requires Legal(before, window) && s2 == After(before, window)
    requires Together(s2, window, second)
    ensures Legal(steps, window) && s == After(steps, window) && s.log == LateLog(window, second, skew)
  {
    var third := second + window as real;
    var s3 := BothPruned(s2, window, second, third);
    steps := TakeStep(before, s2, Pipeline(third, 2, third), s3, window);
    s := NonePruned(s3, window, second, third, skew);
    steps := TakeStep(steps, s3, Pipeline(third - skew, 2, third), s, window);
  }

  lemma NonePruned(s3: State, window: nat, second: real, third: real, skew: real) returns (s: State)
    requires 0.0 < skew < window as real && 1.0 < second <= 1.5 && third == second + window as real
    requires s3.entries == {third} && s3.deadline == third + (window + 1) as real && s3.clock == third
    requires s3.log == [Request(1.0, 1.0, 2, true, {}), Request(second, second, 2, true, {})]
                       + [Request(third, third, 2, true, {})]
    requires s3.undo == {}
    ensures Enabled(s3, Pipeline(third - skew, 2, third)) && s == Apply(s3, Pipeline(third - skew, 2, third), window)
    ensures s.log == LateLog(window, second, skew)
  {
    var late := third - skew;
    assert late < third && second < late;
    assert s3.log[0].now == 1.0 && s3.log[1].now == second && s3.log[2].now == third && |s3.log| == 3;
    assert Pruned(Live(s3.entries, s3.deadline, third), late - window as real) == {third};
    s := AllowedStep(s3, late, 2, third, {third}, window);
    assert s.log == s3.log + [Request(late, third, 2, true, {})];
  }

  lemma BothPruned(s: State, window: nat, second: real, third: real) returns (s3: State)
    requires 1 <= window && 1.0 < second <= 1.5 && third == second + window as real
    requires Together(s, window, second)
    ensures Enabled(s, Pipeline(third, 2, third)) && s3 == Apply(s, Pipeline(third, 2, third), window)
    ensures s3.entries == {third} && s3.deadline == third + (window + 1) as real && s3.clock == third
    ensures s3.log == s.log + [Request(third, third, 2, true, {})] && s3.undo == {}
  {
    assert Pruned({1.0, second}, third - window as real) == {};
    s3 := AllowedStep(s, third, 2, third, {}, window);
  }

  /** A pipeline that finds these entries in its window, and room. */
  lemma AllowedStep(s: State, now: real, limit: nat, at: real, kept: set<real>, window: nat) returns (s': State)
    requires s.clock <= at && 0.0 <= now && forall i :: 0 <= i < |s.log| ==> s.log[i].now != now
    requires kept == Pruned(Live(s.entries, s.deadline, at), now - window as real)
    requires now !in kept && |kept| < limit
    ensures Enabled(s, Pipeline(now, limit, at)) && s' == Apply(s, Pipeline(now, limit, at), window)
    ensures s'.entries == kept + {now} && s'.deadline == at + (window + 1) as real && s'.clock == at
    ensures s'.log == s.log + [Request(now, at, limit, true, s.undo)] && s'.undo == s.undo
  {
    AddingIsCounted(kept, now);
    s' := Apply(s, Pipeline(now, limit, at), window);
  }

  /** Nor can the drift be any larger than a second and the skew: whatever drift e beyond that, there
      is a run in the order of its clock readings, with a limit of one, that admits two requests in
      an interval as long as the window less d, because the second finds an expired key. */
  lemma DriftAdmitsMore(window: nat, d: real, e: real) returns (steps: seq<Step>, lo: real)
    requires 0.0 <= d < window as real && d + 1.0 < e
    ensures Legal(steps, window)
    ensures var log := After(steps, window).log;
            && Skew(log, 0.0) && Drift(log, e) && (forall i :: 0 <= i < |log| ==> log[i].limit == 1)
            && |Admitted(log, lo, lo + (window as real - d))| == 2
  {
    var w := window as real;
    var delay := if e < w + 1.0 then e else (w + d) / 2.0 + 1.0;
    lo := 2.0 + d - delay;
    var s2;
    steps, s2 := LateSecond(window, delay);
    TwoInInterval(s2.log, window, d, delay, e, lo);
  }

  /** The log of a request and one whose pipeline runs when the key has just expired, `delay` after
      its clock reading. */
  ghost function ExpiredLog(window: nat, delay: real): seq<Request> {
    var at := window as real + 2.0;
    [Request(1.0, 1.0, 1, true, {})] + [Request(at - delay, at, 1, true, {})]
  }

  lemma LateSecond(window: nat, delay: real) returns (steps: seq<Step>, s2: State)
    requires 1.0 < delay < window as real + 1.0
    ensures Legal(steps, window) && s2 == After(steps, window) && s2.log == ExpiredLog(window, delay)
  {
    var alone, s1 := OneAlone(window);
    var second;
    second, s2 := SecondFindsNothing(s1, window, delay);
    steps := TakeStep(alone, s1, second, s2, window);
  }

  ghost predicate Alone(s: State, window: nat) {
    && s.entries == {1.0} && s.deadline == window as real + 2.0 && s.clock == 1.0 && s.undo == {}
    && s.log == [Request(1.0, 1.0, 1, true, {})]
  }

  lemma OneAlone(window: nat) returns (steps: seq<Step>, s: State)
    ensures Legal(steps, window) && s == After(steps, window) && Alone(s, window)
  {
    s := AllowedStep(START, 1.0, 1, 1.0, {}, window);
    steps := TakeStep([], START, Pipeline(1.0, 1, 1.0), s, window);
  }

  lemma SecondFindsNothing(s1: State, window: nat, delay: real) returns (step: Step, s2: State)
    requires 1.0 < delay < window as real + 1.0 && Alone(s1, window)
    ensures Enabled(s1, step) && s2 == Apply(s1, step, window) && s2.log == ExpiredLog(window, delay)
  {
    var at := window as real + 2.0;
    var now := at - delay;
    assert 1.0 < now && s1.log[0].now == 1.0;
    assert Pruned(Live(s1.entries, s1.deadline, at), now - window as real) == {};
    step := Pipeline(now, 1, at);
    s2 := AllowedStep(s1, now, 1, at, {}, window);
  }

  lemma TwoInInterval(log: seq<Request>, window: nat, d: real, delay: real, e: real, lo: real)
    requires 0.0 <= d && d + 1.0 < delay <= e && delay < window as real + 1.0 && lo == 2.0 + d - delay
    requires log == ExpiredLog(window, delay)
    ensures Skew(log, 0.0) && Drift(log, e) && (forall i :: 0 <= i < |log| ==> log[i].limit == 1)
    ensures |Admitted(log, lo, lo + (window as real - d))| == 2
  {
    assert Admitted(log, lo, lo + (window as real - d)) == {0, 1};
  }

  /** The earlier allowed requests inside the window of request r. */
  ghost function Recent(log: seq<Request>, r: nat, window: nat): set<nat>
    requires r < |log|
  {
    set i: nat | i < r && log[i].allowed && log[r].now - window as real < log[i].now
  }

  /** The earlier rejected requests inside the window of request r whose removal was pending. */
  ghost function PendingInWindow(log: seq<Request>, r: nat, window: nat): set<nat>
    requires r < |log|
  {
    set i: nat | i < r && i in log[r].pending && log[r].now - window as real < log[i].now
  }

  /** With pipelines in the order of their clock readings, a request is decided by the allowed
      requests in its window and the rejected ones in its window not yet removed.  So it is decided
      as by a limiter that remembers every allowed request exactly when these fill the limit by
      themselves, or do not fill it together with the others. */
  lemma DecisionsMatchLogExactly(steps: seq<Step>, log: seq<Request>, window: nat, r: nat)
    requires Legal(steps, window) && log == After(steps, window).log && r < |log|
    requires Skew(log, 0.0) && Drift(log, 1.0)
    ensures var recent, pending := |Recent(log, r, window)|, |PendingInWindow(log, r, window)|;
            && (log[r].allowed <==> recent + pending < log[r].limit)
            && ((log[r].allowed <==> recent < log[r].limit) <==>
                 log[r].limit <= recent || recent + pending < log[r].limit)
  {
    Invariant(steps, window);
    assert Decided(log, r, window);
    CountedInOrder(log, r, window);
  }

  /** In particular when no removal is pending: rejected requests have used no quota. */
  lemma QuietDecisionsMatchLog(steps: seq<Step>, log: seq<Request>, window: nat, r: nat)
    requires Legal(steps, window) && log == After(steps, window).log && r < |log|
    requires Skew(log, 0.0) && Drift(log, 1.0)
    requires PendingInWindow(log, r, window) == {}
    ensures log[r].allowed <==> |Recent(log, r, window)| < log[r].limit
  {
    DecisionsMatchLogExactly(steps, log, window, r);
  }

  lemma CountedInOrder(log: seq<Request>, r: nat, window: nat)
    requires r < |log| && Skew(log, 0.0) && Drift(log, 1.0) && InServerOrder(log)
    requires forall i :: i in log[r].pending ==> i < r && !log[i].allowed
    ensures |Counted(log, r, window)| == |Recent(log, r, window)| + |PendingInWindow(log, r, window)| + 1
  {
    var recent, pending := Recent(log, r, window), PendingInWindow(log, r, window);
    forall i: nat | i <= r
      ensures Gone(log, i, r, window) <==> i < r && log[i].now <= log[r].now - window as real
    {
      if i < r && log[i].now <= log[r].now - window as real {
        assert Drops(log, i, r, window);
      } else if i < r {
        RecentStays(log, window, 0.0, log[r].now - window as real, i, r);
      }
    }
    assert Counted(log, r, window) == recent + pending + {r};
    assert recent !! pending && r !in recent + pending;
  }

  /// Retry in flight

  /** A rejected request whose removal is pending was pending at every pipeline since its own. */
  ghost predicate StillPending(s: State) {
    forall m, r :: m in s.undo && m < r < |s.log| ==> m in s.log[r].pending
  }

  lemma {:induction false} PendingSinceRejection(steps: seq<Step>, window: nat)
    requires Legal(steps, window)
    ensures StillPending(After(steps, window))
  {
    if steps != [] {
      PendingSinceRejection(steps[..|steps| - 1], window);
    }
  }

  lemma {:induction false} LegalPrefix(steps: seq<Step>, n: nat, window: nat)
    requires n <= |steps| && Legal(steps, window)
    ensures Legal(steps[..n], window)
  {
    if n < |steps| {
      LegalPrefix(steps[..|steps| - 1], n, window);
      assert steps[..|steps| - 1][..n] == steps[..n];
    } else {
      assert steps[..n] == steps;
    }
  }

  /** Removals and readings add no request. */
  lemma {:induction false} NothingRequested(steps: seq<Step>, n: nat, window: nat)
    requires n <= |steps| && Legal(steps, window)
    requires forall k :: n <= k < |steps| ==> !steps[k].Pipeline?
    ensures After(steps, window).log == After(steps[..n], window).log
    ensures After(steps[..n], window).clock <= After(steps, window).clock
  {
    if n < |steps| {
      NothingRequested(steps[..|steps| - 1], n, window);
      assert steps[..|steps| - 1][..n] == steps[..n];
    } else {
      assert steps[..n] == steps;
    }
  }

  /** The last allowed request r in a window that ends after the advised time decided on entries
      of which the oldest one seen at the advice, m, was one: m has left since. */
  lemma OldestWasCounted(s0: State, window: nat, atA: real, log: seq<Request>, i: nat, r: nat) returns (m: nat)
    requires Inv(s0, window) && StillPending(s0) && i < |s0.log| && |log| == |s0.log| + 1 && s0.log == log[..|s0.log|]
    requires Skew(log, 0.0) && Drift(log, 1.0) && InServerOrder(log) && DistinctTimes(log)
    requires atA <= log[|s0.log|].at && r in Recent(log, |s0.log|, window)
    requires var seen := Live(s0.entries, s0.deadline, atA);
             s0.log[i].now + RetryAfter(seen, s0.log[i].now, window) as real <= log[|s0.log|].now
    ensures m < r && m in Counted(log, r, window) && m !in Recent(log, |s0.log|, window)
  {
    var n := |s0.log|;
    RecentIsSeen(s0, window, atA, log, r);
    var seen := Live(s0.entries, s0.deadline, atA);
    var oldest := Oldest(seen);
    m :| m in Held(s0, window) && s0.log[m].now == oldest;
    assert log[m] == s0.log[m] && log[i] == s0.log[i] && log[r] == s0.log[r];
    LeftByThen(seen, log[i].now, log[n].now, window);
    assert m < r by {
      assert log[m].now <= log[r].now;
      assert m != r && log[m].now != log[r].now;
    }
    HeldIsCounted(s0, window, log, m, r);
  }

  lemma LeftByThen(seen: set<real>, now: real, later: real, window: nat)
    requires seen != {} && now + RetryAfter(seen, now, window) as real <= later
    ensures Oldest(seen) <= later - window as real
  {
  }

  /** What is still held, allowed or to be removed, was counted by every pipeline after its own. */
  lemma HeldIsCounted(s0: State, window: nat, log: seq<Request>, m: nat, r: nat)
    requires Inv(s0, window) && StillPending(s0) && |log| == |s0.log| + 1 && s0.log == log[..|s0.log|]
    requires m in Held(s0, window) && m < r < |s0.log|
    ensures m in Counted(log, r, window)
  {
    assert log == s0.log + [log[|s0.log|]];
    GoneStands(s0.log, log[|s0.log|], m, r, window);
    assert forall j :: m < j <= r ==> !Drops(s0.log, m, j, window);
    assert log[r] == s0.log[r] && log[m] == s0.log[m];
  }

  /** An allowed request in the window of the retry is among the entries read for the advice. */
  lemma RecentIsSeen(s0: State, window: nat, atA: real, log: seq<Request>, r: nat)
    requires Inv(s0, window) && |log| == |s0.log| + 1 && s0.log == log[..|s0.log|]
    requires Skew(log, 0.0) && Drift(log, 1.0) && InServerOrder(log)
    requires atA <= log[|s0.log|].at && r in Recent(log, |s0.log|, window)
    ensures s0.log[r].now in Live(s0.entries, s0.deadline, atA)
  {
    var n := |s0.log|;
    RecentStays(log, window, 0.0, log[n].now - window as real, r, n);
    assert log == s0.log + [log[n]] && s0.log[r] == log[r];
    GoneAfter(s0.log, log[n], r, window);
    assert r in Held(s0, window);
  }

  /** When limits have not been lowered and no other request has come between advice and retry, a
      retry at or after the advised time finds fewer allowed requests in its window than its limit. */
  lemma SlotIsFree(s0: State, window: nat, atA: real, log: seq<Request>, i: nat)
    requires Inv(s0, window) && StillPending(s0) && i < |s0.log| && |log| == |s0.log| + 1 && s0.log == log[..|s0.log|]
    requires Skew(log, 0.0) && Drift(log, 1.0) && InServerOrder(log) && DistinctTimes(log)
    requires AllDecided(log, window) && atA <= log[|s0.log|].at
    requires 1 <= log[|s0.log|].limit && forall j :: 0 <= j < |s0.log| ==> log[j].limit <= log[|s0.log|].limit
    requires var seen := Live(s0.entries, s0.deadline, atA);
             s0.log[i].now + RetryAfter(seen, s0.log[i].now, window) as real <= log[|s0.log|].now
    ensures |Recent(log, |s0.log|, window)| < log[|s0.log|].limit
  {
    var n := |s0.log|;
    var recent := Recent(log, n, window);
    if recent != {} {
      var r := Last(recent);
      var m := OldestWasCounted(s0, window, atA, log, i, r);
      assert Decided(log, r, window) && log[r].allowed;
      forall k | k in recent
        ensures k in Counted(log, r, window)
      {
        RecentStays(log, window, 0.0, log[n].now - window as real, k, r);
      }
      SubsetSize(recent, Counted(log, r, window) - {m});
    }
  }

  /** Retry-After is sound with requests in flight.  A request is told to wait; no other pipeline
      runs until its retry, whatever removals and readings do; pipelines are in the order of their
      clock readings, and no limit was above the retry's.  Then a retry at or after the advised time
      finds a free slot in its window: it is allowed if and only if removals still pending do not
      fill it, and certainly if none is pending there. */
  lemma RetryInFlight(steps: seq<Step>, i: nat, atA: real, all: seq<Step>, retry: Step, window: nat)
    requires Legal(all + [retry], window) && retry.Pipeline? && steps + [Advise(i, atA)] <= all
    requires forall k :: |steps| < k < |all| ==> !all[k].Pipeline?
    requires var log := After(all + [retry], window).log; Skew(log, 0.0) && Drift(log, 1.0)
    requires 1 <= retry.limit
    requires var log := After(all, window).log; forall j :: 0 <= j < |log| ==> log[j].limit <= retry.limit
    requires var s := After(steps + [Advise(i, atA)], window);
             i < |s.log| && i in s.advice && s.log[i].now + s.advice[i] as real <= retry.now
    ensures var log, n := After(all + [retry], window).log, |After(all, window).log|;
            && |log| == n + 1
            && |Recent(log, n, window)| < retry.limit
            && (log[n].allowed <==> |Recent(log, n, window)| + |PendingInWindow(log, n, window)| < retry.limit)
            && (PendingInWindow(log, n, window) == {} ==> log[n].allowed)
  {
    var run := all + [retry];
    var s0, log := After(steps, window), After(run, window).log;
    AdviceToRetry(steps, i, atA, all, retry, window);
    RunFacts(steps, run, window);
    SlotIsFree(s0, window, atA, log, i);
    DecisionsMatchLogExactly(run, log, window, |s0.log|);
  }

  lemma RunFacts(steps: seq<Step>, run: seq<Step>, window: nat)
    requires Legal(steps, window) && Legal(run, window)
    ensures Inv(After(steps, window), window) && StillPending(After(steps, window))
    ensures var log := After(run, window).log; InServerOrder(log) && DistinctTimes(log) && AllDecided(log, window)
  {
    Invariant(run, window);
    Invariant(steps, window);
    PendingSinceRejection(steps, window);
  }

  /** What the run looks like from the advice to the retry. */
  lemma AdviceToRetry(steps: seq<Step>, i: nat, atA: real, all: seq<Step>, retry: Step, window: nat)
    requires Legal(all + [retry], window) && retry.Pipeline? && steps + [Advise(i, atA)] <= all
    requires forall k :: |steps| < k < |all| ==> !all[k].Pipeline?
    ensures Legal(steps, window) && Legal(all, window)
    ensures var s0, log := After(steps, window), After(all + [retry], window).log;
            && After(all, window).log == s0.log && |log| == |s0.log| + 1 && log[..|s0.log|] == s0.log
            && log[|s0.log|].now == retry.now && log[|s0.log|].limit == retry.limit && atA <= log[|s0.log|].at
            && i < |s0.log|
            && var advised := After(steps + [Advise(i, atA)], window);
               && advised.log == s0.log
               && advised.advice == s0.advice[i := RetryAfter(Live(s0.entries, s0.deadline, atA), s0.log[i].now, window)]
  {
    var advice := steps + [Advise(i, atA)];
    assert (all + [retry])[..|all|] == all && all[..|advice|] == advice && advice[..|steps|] == steps;
    LegalPrefix(all + [retry], |all|, window);
    LegalPrefix(all, |advice|, window);
    LegalPrefix(advice, |steps|, window);
    NothingRequested(all, |advice|, window);
  }

  /** A removal still pending costs other requests: here one is turned away although the window
      holds no allowed request at all. */
  lemma PendingUndoTurnsOthersAway(window: nat) returns (steps: seq<Step>)
    requires 2 <= window
    ensures Legal(steps, window)
    ensures var log := After(steps, window).log;
            && |log| == 3 && !log[2].allowed && log[2].limit == 1
            && Recent(log, 2, window) == {} && Offset(log, 0.0, 0.0)
  {
    var end := (window + 1) as real;
    var s1 := FirstIsAllowed(window);
    var s2 := SecondIsRejected(s1, window);
    var s3 := ThirdIsRejected(s2, window);
    var steps1 := TakeStep([], START, Pipeline(1.0, 1, 1.0), s1, window);
    var steps2 := TakeStep(steps1, s1, Pipeline(2.0, 1, 2.0), s2, window);
    steps := TakeStep(steps2, s2, Pipeline(end, 1, end), s3, window);
  }

  lemma TakeStep(steps: seq<Step>, s: State, step: Step, s': State, window: nat) returns (steps': seq<Step>)
    requires Legal(steps, window) && After(steps, window) == s
    requires Enabled(s, step) && s' == Apply(s, step, window)
    ensures Legal(steps', window) && After(steps', window) == s'
  {
    Extend(steps, step, window);
    steps' := steps + [step];
  }

  lemma FirstIsAllowed(window: nat) returns (s: State)
    requires 2 <= window
    ensures Enabled(START, Pipeline(1.0, 1, 1.0)) && s == Apply(START, Pipeline(1.0, 1, 1.0), window)
    ensures s == State({1.0}, (window + 2) as real, 1.0, [Request(1.0, 1.0, 1, true, {})], {}, map[])
  {
    s := Apply(START, Pipeline(1.0, 1, 1.0), window);
    assert Pruned(Live({}, 0.0, 1.0), 1.0 - window as real) + {1.0} == {1.0};
    assert |{1.0}| == 1;
  }

  lemma SecondIsRejected(s1: State, window: nat) returns (s: State)
    requires 2 <= window
    requires s1 == State({1.0}, (window + 2) as real, 1.0, [Request(1.0, 1.0, 1, true, {})], {}, map[])
    ensures Enabled(s1, Pipeline(2.0, 1, 2.0)) && s == Apply(s1, Pipeline(2.0, 1, 2.0), window)
    ensures s == State({1.0, 2.0}, (window + 3) as real, 2.0,
                       [Request(1.0, 1.0, 1, true, {}), Request(2.0, 2.0, 1, false, {})], {1}, map[])
  {
    s := Apply(s1, Pipeline(2.0, 1, 2.0), window);
    assert Pruned({1.0}, 2.0 - window as real) + {2.0} == {1.0, 2.0};
    assert |{1.0, 2.0}| == 2;
  }

  lemma ThirdIsRejected(s2: State, window: nat) returns (s: State)
    requires 2 <= window
    requires s2.entries == {1.0, 2.0} && s2.deadline == (window + 3) as real && s2.undo == {1}
    requires s2.log == [Request(1.0, 1.0, 1, true, {}), Request(2.0, 2.0, 1, false, {})] && s2.clock == 2.0
    ensures var end := (window + 1) as real;
            && s == Apply(s2, Pipeline(end, 1, end), window)
            && s.log == [Request(1.0, 1.0, 1, true, {}), Request(2.0, 2.0, 1, false, {}), Request(end, end, 1, false, {1})]
            && Recent(s.log, 2, window) == {} && Offset(s.log, 0.0, 0.0)
            && Enabled(s2, Pipeline(end, 1, end))
  {
    var end := (window + 1) as real;
    s := Apply(s2, Pipeline(end, 1, end), window);
    assert Pruned({1.0, 2.0}, 1.0) == {2.0};
    AddingIsCounted({2.0}, end);
  }
}
