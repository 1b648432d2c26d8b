/**
 The lockout of one client address after failed administrator logins.  An attempt increments a
 counter; the attempt that created the counter then sets its time to live; a successful login
 deletes it.  Attempts interleave in any way, so the time to live may be set late, or by an
 attempt whose own counter has been deleted meanwhile.
 */
module AdminLockout {
  import opened Sets
  import opened Wrappers

  datatype Counter = Counter(count: nat, deadline: Option<real>)

  /** An increment: its time, the life of the counter it fell in, and the value it returned. */
  datatype Attempt = Attempt(at: real, life: nat, count: nat)

  datatype End = Expired(at: real) | Deleted(at: real)

  /** A counter from its creation to its end. */
  datatype Life = Life(born: real, ended: Option<End>)

  /** `pending` are the attempts that created a counter and have not set a time to live yet. */
  datatype State = State(
    key: Option<Counter>, clock: real, log: seq<Attempt>, lives: seq<Life>, pending: set<nat>)

  datatype Step =
    | Incr(at: real)
    | Expire(attempt: nat, at: real)
    | Reset(at: real)

  const START := State(None, 0.0, [], [], {})

  ghost predicate Enabled(s: State, step: Step) {
    s.clock <= step.at && (step.Expire? ==> step.attempt in s.pending)
  }

  /** The counter as a command at `at` finds it. */
  function Present(key: Option<Counter>, at: real): Option<Counter> {
    if key.Some? && key.value.deadline.Some? && key.value.deadline.value <= at then None else key
  }

  function EndLife(lives: seq<Life>, end: End): seq<Life> {
    if lives == [] then lives else lives[|lives| - 1 := lives[|lives| - 1].(ended := Some(end))]
  }

  /** The state in which a command at `at` runs. */
  function Settle(s: State, at: real): State {
    if s.key.Some? && Present(s.key, at).None? then
      s.(key := None, clock := at, lives := EndLife(s.lives, Expired(s.key.value.deadline.value)))
    else
      s.(clock := at)
  }

  function Apply(s: State, step: Step, window: real): State {
    var t := Settle(s, step.at);
    match step
    case Incr(at) =>
      if t.key.None? then
        t.(key := Some(Counter(1, None)), lives := t.lives + [Life(at, None)],
           log := t.log + [Attempt(at, |t.lives|, 1)], pending := t.pending + {|t.log|})
      else
        var count := t.key.value.count + 1;
        t.(key := Some(Counter(count, t.key.value.deadline)),
           log := t.log + [Attempt(at, if t.lives == [] then 0 else |t.lives| - 1, count)])
    case Expire(i, at) =>
      var key := if t.key.Some? then Some(Counter(t.key.value.count, Some(at + window))) else None;
      t.(key := key, pending := t.pending - {i})
    case Reset(at) =>
      if t.key.Some? then t.(key := None, lives := EndLife(t.lives, Deleted(at))) else t
  }

  function Run(s: State, steps: seq<Step>, window: real): State {
    if steps == [] then s else Apply(Run(s, steps[..|steps| - 1], window), steps[|steps| - 1], window)
  }

  ghost predicate Legal(s: State, steps: seq<Step>, window: real) {
    steps == [] || (
      && Legal(s, steps[..|steps| - 1], window)
      && Enabled(Run(s, steps[..|steps| - 1], window), steps[|steps| - 1]))
  }

  /// The invariant

  /** All lives but perhaps the last have ended; the last is open exactly when the counter is there. */
  ghost predicate LivesInv(s: State) {
    && (s.key.Some? ==> s.lives != [])
    && (forall l :: 0 <= l < |s.lives| ==>
          (s.lives[l].ended.None? <==> l == |s.lives| - 1 && s.key.Some?))
  }

  /** An ended life was at least a window long unless it was deleted, and the next one began after it. */
  ghost predicate LifeInv(s: State, l: nat, window: real)
    requires l < |s.lives|
  {
    && s.lives[l].born <= s.clock
    && (s.lives[l].ended.Some? ==>
         var end := s.lives[l].ended.value;
         && s.lives[l].born <= end.at <= s.clock
         && (end.Expired? ==> s.lives[l].born + window <= end.at)
         && (l + 1 < |s.lives| ==> end.at <= s.lives[l + 1].born))
  }

  /** An attempt lies within its life. */
  ghost predicate AttemptInv(s: State, i: nat)
    requires i < |s.log|
  {
    var a := s.log[i];
    && a.life < |s.lives| && 1 <= a.count
    && s.lives[a.life].born <= a.at <= s.clock
    && (s.lives[a.life].ended.Some? ==>
         var end := s.lives[a.life].ended.value;
         a.at <= end.at && (end.Expired? ==> a.at < end.at))
  }

  ghost predicate Ordered(log: seq<Attempt>) {
    forall i, j :: 0 <= i < j < |log| ==>
      log[i].life <= log[j].life && (log[i].life == log[j].life ==> log[i].count < log[j].count)
  }

  /** Every life began with an attempt that was told 1. */
  ghost predicate Births(s: State) {
    forall l :: 0 <= l < |s.lives| ==> Born(s, l)
  }

  ghost predicate Born(s: State, l: nat)
    requires l < |s.lives|
  {
    exists i :: 0 <= i < |s.log| && s.log[i] == Attempt(s.lives[l].born, l, 1)
  }

  /** The counter that is there: it holds the highest value returned in its life, and has a time to
      live of at least a window from its creation, unless its creator has yet to set one. */
  ghost predicate KeyInv(s: State, window: real) {
    s.key.Some? && s.lives != [] ==>
      var last := |s.lives| - 1;
      && (forall i :: 0 <= i < |s.log| && s.log[i].life == last ==> s.log[i].count <= s.key.value.count)
      && match s.key.value.deadline
         case Some(d) =>
           && s.lives[last].born + window <= d
           && forall i :: 0 <= i < |s.log| && s.log[i].life == last ==> s.log[i].at < d
         case None => exists i :: i in s.pending && i < |s.log| && s.log[i] == Attempt(s.lives[last].born, last, 1)
  }

  ghost predicate Inv(s: State, window: real) {
    && LivesInv(s)
    && (forall l :: 0 <= l < |s.lives| ==> LifeInv(s, l, window))
    && (forall i :: 0 <= i < |s.log| ==> AttemptInv(s, i))
    && Ordered(s.log)
    && Births(s)
    && KeyInv(s, window)
  }

  lemma SettleKeepsInv(s: State, at: real, window: real)
    requires Inv(s, window) && s.clock <= at && 0.0 < window
    ensures Inv(Settle(s, at), window)
  {
    var t := Settle(s, at);
    forall l | 0 <= l < |t.lives|
      ensures LifeInv(t, l, window) && Born(t, l)
    {
      assert LifeInv(s, l, window);
      BirthsStay(s, t, l);
    }
    SettleKeepsAttempts(s, at, window);
  }

  lemma SettleKeepsAttempts(s: State, at: real, window: real)
    requires LivesInv(s) && KeyInv(s, window) && s.clock <= at
    requires forall i :: 0 <= i < |s.log| ==> AttemptInv(s, i)
    ensures forall i :: 0 <= i < |s.log| ==> AttemptInv(Settle(s, at), i)
  {
    var t := Settle(s, at);
    forall i | 0 <= i < |t.log|
      ensures AttemptInv(t, i)
    {
      assert AttemptInv(s, i);
    }
  }

  /** Lives may end and attempts be added. */
  lemma BirthsStay(t: State, s': State, l: nat)
    requires l < |t.lives| && l < |s'.lives| && s'.lives[l].born == t.lives[l].born
    requires |t.log| <= |s'.log| && s'.log[..|t.log|] == t.log && Born(t, l)
    ensures Born(s', l)
  {
    var i :| 0 <= i < |t.log| && t.log[i] == Attempt(t.lives[l].born, l, 1);
    assert s'.log[i] == s'.log[..|t.log|][i];
  }

  /** Only the counter and the pending attempts change. */
  lemma FramedInv(t: State, s': State, window: real)
    requires s'.lives == t.lives && s'.log == t.log && s'.clock == t.clock
    requires forall l :: 0 <= l < |t.lives| ==> LifeInv(t, l, window)
    requires forall i :: 0 <= i < |t.log| ==> AttemptInv(t, i)
    requires Births(t)
    ensures forall l :: 0 <= l < |s'.lives| ==> LifeInv(s', l, window)
    ensures forall i :: 0 <= i < |s'.log| ==> AttemptInv(s', i)
    ensures Births(s')
  {
    forall l | 0 <= l < |s'.lives|
      ensures LifeInv(s', l, window) && Born(s', l)
    {
      assert LifeInv(t, l, window);
      BirthsStay(t, s', l);
    }
    forall i | 0 <= i < |s'.log|
      ensures AttemptInv(s', i)
    {
      assert AttemptInv(t, i);
    }
  }

  /** An attempt that creates the counter. */
  lemma BirthKeepsInv(t: State, s': State, at: real, window: real)
    requires Inv(t, window) && at == t.clock && t.key.None?
    requires s' == t.(key := Some(Counter(1, None)), lives := t.lives + [Life(at, None)],
                      log := t.log + [Attempt(at, |t.lives|, 1)], pending := t.pending + {|t.log|})
    ensures Inv(s', window)
  {
    forall l | 0 <= l < |s'.lives|
      ensures LifeInv(s', l, window) && (l < |t.lives| ==> Born(s', l))
    {
      if l < |t.lives| {
        assert LifeInv(t, l, window);
        BirthsStay(t, s', l);
      }
    }
    forall i | 0 <= i < |s'.log|
      ensures AttemptInv(s', i) && (i < |t.log| ==> s'.log[i].life < |t.lives|)
    {
      assert i < |t.log| ==> AttemptInv(t, i);
    }
    assert s'.log[|t.log|] == Attempt(at, |t.lives|, 1) && |t.log| in s'.pending;
    assert Born(s', |t.lives|);
  }

  /** An attempt that finds the counter there. */
  lemma CountKeepsInv(t: State, s': State, at: real, window: real)
    requires Inv(t, window) && at == t.clock && t.key.Some? && Present(t.key, at).Some?
    requires s' == t.(key := Some(Counter(t.key.value.count + 1, t.key.value.deadline)),
                      log := t.log + [Attempt(at, |t.lives| - 1, t.key.value.count + 1)])
    ensures Inv(s', window)
  {
    forall l | 0 <= l < |s'.lives|
      ensures LifeInv(s', l, window) && Born(s', l)
    {
      assert LifeInv(t, l, window);
      BirthsStay(t, s', l);
    }
    assert LifeInv(t, |t.lives| - 1, window);
    forall i | 0 <= i < |s'.log|
      ensures AttemptInv(s', i)
    {
      assert i < |t.log| ==> AttemptInv(t, i);
    }
    WithinLives(t);
    CountKeepsKey(t, s', at, window);
    AppendKeepsOrder(t.log, s'.log[|t.log|]);
  }

  lemma WithinLives(t: State)
    requires forall i :: 0 <= i < |t.log| ==> AttemptInv(t, i)
    ensures forall i :: 0 <= i < |t.log| ==> 1 <= t.log[i].count && t.log[i].life < |t.lives| && t.log[i].at <= t.clock
  {
    forall i | 0 <= i < |t.log|
      ensures 1 <= t.log[i].count && t.log[i].life < |t.lives| && t.log[i].at <= t.clock
    {
      assert AttemptInv(t, i);
    }
  }

  lemma CountKeepsKey(t: State, s': State, at: real, window: real)
    requires KeyInv(t, window) && t.lives != [] && t.key.Some? && Present(t.key, at).Some?
    requires s' == t.(key := Some(Counter(t.key.value.count + 1, t.key.value.deadline)),
                      log := t.log + [Attempt(at, |t.lives| - 1, t.key.value.count + 1)])
    ensures KeyInv(s', window)
  {
    var last := |t.lives| - 1;
    if t.key.value.deadline.None? {
      var i :| i in t.pending && i < |t.log| && t.log[i] == Attempt(t.lives[last].born, last, 1);
      assert i in s'.pending && s'.log[i] == t.log[i];
    }
  }

  lemma AppendKeepsOrder(log: seq<Attempt>, last: Attempt)
    requires Ordered(log)
    requires forall i :: 0 <= i < |log| ==>
               log[i].life <= last.life && (log[i].life == last.life ==> log[i].count < last.count)
    ensures Ordered(log + [last])
  {
  }

  lemma IncrKeepsInv(s: State, at: real, window: real)
    requires Inv(s, window) && s.clock <= at && 0.0 < window
    ensures Inv(Apply(s, Incr(at), window), window)
  {
    SettleKeepsInv(s, at, window);
    var t, s' := Settle(s, at), Apply(s, Incr(at), window);
    if t.key.None? {
      BirthKeepsInv(t, s', at, window);
    } else {
      CountKeepsInv(t, s', at, window);
    }
  }

  lemma ExpireKeepsInv(s: State, i: nat, at: real, window: real)
    requires Inv(s, window) && Enabled(s, Expire(i, at)) && 0.0 < window
    ensures Inv(Apply(s, Expire(i, at), window), window)
  {
    SettleKeepsInv(s, at, window);
    var t, s' := Settle(s, at), Apply(s, Expire(i, at), window);
    FramedInv(t, s', window);
    if t.key.Some? {
      assert LifeInv(t, |t.lives| - 1, window);
      WithinLives(t);
    }
  }

  lemma ResetKeepsInv(s: State, at: real, window: real)
    requires Inv(s, window) && s.clock <= at && 0.0 < window
    ensures Inv(Apply(s, Reset(at), window), window)
  {
    SettleKeepsInv(s, at, window);
    var t, s' := Settle(s, at), Apply(s, Reset(at), window);
    forall l | 0 <= l < |s'.lives|
      ensures LifeInv(s', l, window) && Born(s', l)
    {
      assert LifeInv(t, l, window);
      BirthsStay(t, s', l);
    }
    forall i | 0 <= i < |s'.log|
      ensures AttemptInv(s', i)
    {
      assert AttemptInv(t, i);
    }
  }

  /** Every interleaving keeps the invariant. */
  lemma {:induction false} Invariant(s: State, steps: seq<Step>, window: real)
    requires Inv(s, window) && Legal(s, steps, window) && 0.0 < window
    ensures Inv(Run(s, steps, window), window)
  {
    if steps != [] {
      Invariant(s, steps[..|steps| - 1], window);
      var t := Run(s, steps[..|steps| - 1], window);
      match steps[|steps| - 1]
      case Incr(at) => IncrKeepsInv(t, at, window);
      case Expire(i, at) => ExpireKeepsInv(t, i, at, window);
      case Reset(at) => ResetKeepsInv(t, at, window);
    }
  }

  /** In every run, a counter without a time to live is one whose creator has yet to set it. */
  lemma {:induction false} NoTtlMeansPendingExpire(steps: seq<Step>, window: real)
    requires Legal(START, steps, window) && 0.0 < window
    ensures var s := Run(START, steps, window);
            s.key.Some? && s.key.value.deadline.None? ==>
              exists i :: i in s.pending && i < |s.log| && s.log[i].life == |s.lives| - 1 && s.log[i].count == 1
  {
    Invariant(START, steps, window);
  }

  /// The bound on admitted attempts

  /** The attempts let through to the key comparison at times from x up to x + window. */
  ghost function Admitted(s: State, x: real, window: real, maxAttempts: nat): set<nat> {
    set i: nat | i < |s.log| && x <= s.log[i].at < x + window && s.log[i].count <= maxAttempts
  }

  /** The lives that a successful login ended at such a time. */
  ghost function Resets(s: State, x: real, window: real): set<nat> {
    set l: nat | l < |s.lives| && s.lives[l].ended.Some? && s.lives[l].ended.value.Deleted?
                 && x <= s.lives[l].ended.value.at < x + window
  }

  /** The attempts let through in the lives from lo up to hi. */
  ghost function AdmittedIn(log: seq<Attempt>, lo: nat, hi: nat, maxAttempts: nat): set<nat> {
    set i: nat | i < |log| && lo <= log[i].life < hi && log[i].count <= maxAttempts
  }

  ghost predicate InLife(log: seq<Attempt>, attempts: set<nat>, life: nat, maxAttempts: nat) {
    forall i :: i in attempts ==> i < |log| && log[i].life == life && 1 <= log[i].count <= maxAttempts
  }

  /** One life lets through at most the maximum, as its attempts return different values. */
  lemma {:induction false} OneLife(log: seq<Attempt>, attempts: set<nat>, life: nat, maxAttempts: nat)
    requires Ordered(log) && InLife(log, attempts, life, maxAttempts)
    ensures |attempts| <= maxAttempts
    decreases maxAttempts
  {
    if i :| i in attempts && log[i].count == maxAttempts {
      assert forall j :: j in attempts && j != i ==> log[j].count < maxAttempts;
      OneLife(log, attempts - {i}, life, maxAttempts - 1);
    } else if maxAttempts > 0 {
      OneLife(log, attempts, life, maxAttempts - 1);
    } else {
      assert attempts == {};
    }
  }

  /** The maximum, n times over. */
  function Product(n: nat, maxAttempts: nat): nat {
    if n == 0 then 0 else Product(n - 1, maxAttempts) + maxAttempts
  }

  lemma {:induction false} ProductIsTimes(n: nat, maxAttempts: nat)
    ensures Product(n, maxAttempts) == n * maxAttempts
  {
    if n > 0 {
      ProductIsTimes(n - 1, maxAttempts);
      assert n * maxAttempts == (n - 1) * maxAttempts + maxAttempts;
    }
  }

  lemma {:induction false} ProductGrows(m: nat, n: nat, maxAttempts: nat)
    requires m <= n
    ensures Product(m, maxAttempts) <= Product(n, maxAttempts)
    decreases n
  {
    if m < n {
      ProductGrows(m, n - 1, maxAttempts);
    }
  }

  lemma {:induction false} ManyLives(log: seq<Attempt>, lo: nat, hi: nat, maxAttempts: nat)
    requires Ordered(log) && lo <= hi
    requires forall i :: 0 <= i < |log| ==> 1 <= log[i].count
    ensures |AdmittedIn(log, lo, hi, maxAttempts)| <= Product(hi - lo, maxAttempts)
    decreases hi
  {
    if lo == hi {
      assert AdmittedIn(log, lo, hi, maxAttempts) == {};
    } else {
      var before, last := AdmittedIn(log, lo, hi - 1, maxAttempts), AdmittedIn(log, hi - 1, hi, maxAttempts);
      assert AdmittedIn(log, lo, hi, maxAttempts) == before + last;
      ManyLives(log, lo, hi - 1, maxAttempts);
      OneLife(log, last, hi - 1, maxAttempts);
    }
  }

  lemma {:induction false} LifeOrder(s: State, k: nat, l: nat, window: real)
    requires Inv(s, window) && k < l < |s.lives|
    ensures s.lives[k].ended.Some? && s.lives[k].ended.value.at <= s.lives[l].born
    decreases l
  {
    assert LifeInv(s, k, window);
    if k + 1 < l {
      LifeOrder(s, k, l - 1, window);
      assert LifeInv(s, l - 1, window);
    }
  }

  /** A life between those of two attempts less than a window apart was ended by a login. */
  lemma MiddleLivesAreReset(s: State, i: nat, j: nat, l: nat, x: real, window: real)
    requires Inv(s, window)
    requires i < |s.log| && j < |s.log| && x <= s.log[i].at && s.log[j].at < x + window
    requires s.log[i].life < l < s.log[j].life
    ensures l in Resets(s, x, window)
  {
    assert AttemptInv(s, i) && AttemptInv(s, j);
    LifeOrder(s, s.log[i].life, l, window);
    LifeOrder(s, l, s.log[j].life, window);
    assert LifeInv(s, l, window);
  }

  lemma {:induction false} Extremes(attempts: set<nat>) returns (first: nat, last: nat)
    requires attempts != {}
    ensures first in attempts && last in attempts
    ensures forall i :: i in attempts ==> first <= i <= last
  {
    var i :| i in attempts;
    var rest := attempts - {i};
    assert forall k :: k in attempts ==> k == i || k in rest;
    if rest == {} {
      first, last := i, i;
    } else {
      first, last := Extremes(rest);
      first, last := if i < first then i else first, if last < i then i else last;
    }
  }

  /** In every interleaving and every half-open interval as long as the window, the attempts let
      through are less than the maximum for each of two lives of the counter, and for one more
      life for each successful login in the interval. */
  lemma LockoutBound(steps: seq<Step>, s: State, window: real, x: real, maxAttempts: nat)
    requires Legal(START, steps, window) && 0.0 < window && 1 <= maxAttempts
    requires s == Run(START, steps, window)
    ensures |Admitted(s, x, window, maxAttempts)| < (2 + |Resets(s, x, window)|) * maxAttempts
  {
    Invariant(START, steps, window);
    var admitted, resets := Admitted(s, x, window, maxAttempts), Resets(s, x, window);
    ProductIsTimes(2 + |resets|, maxAttempts);
    if admitted == {} {
      ProductGrows(1, 2 + |resets|, maxAttempts);
    } else {
      var first, last := Extremes(admitted);
      BoundBetween(s, first, last, window, x, maxAttempts);
    }
  }

  /** The attempts let through lie in the lives from that of the first to that of the last. */
  lemma AdmittedWithinLives(s: State, admitted: set<nat>, first: nat, last: nat, maxAttempts: nat)
    requires Ordered(s.log) && first in admitted && last in admitted
    requires forall i :: i in admitted ==> i < |s.log| && s.log[i].count <= maxAttempts && first <= i <= last
    ensures admitted <= AdmittedIn(s.log, s.log[first].life, s.log[last].life + 1, maxAttempts)
  {
    assert forall i :: i in admitted ==> s.log[first].life <= s.log[i].life <= s.log[last].life;
  }

  lemma BoundBetween(s: State, first: nat, last: nat, window: real, x: real, maxAttempts: nat)
    requires Inv(s, window) && 1 <= maxAttempts && 0.0 < window
    requires var admitted := Admitted(s, x, window, maxAttempts);
             first in admitted && last in admitted && forall i :: i in admitted ==> first <= i <= last
    ensures |Admitted(s, x, window, maxAttempts)| < Product(2 + |Resets(s, x, window)|, maxAttempts)
  {
    var admitted, resets := Admitted(s, x, window, maxAttempts), Resets(s, x, window);
    var lo, hi := s.log[first].life, s.log[last].life + 1;
    var all := AdmittedIn(s.log, lo, hi, maxAttempts);
    AdmittedWithinLives(s, admitted, first, last, maxAttempts);
    WithinLives(s);
    ManyLives(s.log, lo, hi, maxAttempts);
    LivesBetween(s, first, last, x, window);
    SubsetSize(admitted, all);
    if hi - lo <= 1 + |resets| {
      ProductGrows(hi - lo, 1 + |resets|, maxAttempts);
    } else {
      var birth := FirstLifeBeganEarlier(s, first, last, x, window);
      assert birth in all - admitted;
      SubsetSize(admitted, all - {birth});
    }
  }

  /** The lives the interval meets: one more than it has logins, and another one if the first of
      them ran out by itself. */
  lemma LivesBetween(s: State, first: nat, last: nat, x: real, window: real)
    requires Inv(s, window) && first < |s.log| && last < |s.log|
    requires x <= s.log[first].at && s.log[last].at < x + window
    requires s.log[first].life <= s.log[last].life
    ensures var between, resets := s.log[last].life - s.log[first].life, Resets(s, x, window);
            && between <= 1 + |resets|
            && (between == 1 + |resets| ==> s.log[first].life < s.log[last].life && s.log[first].life !in resets)
  {
    var lo, hi, resets := s.log[first].life, s.log[last].life, Resets(s, x, window);
    forall l | lo + 1 <= l < hi
      ensures l in resets
    {
      MiddleLivesAreReset(s, first, last, l, x, window);
    }
    if lo < hi {
      if lo in resets {
        RangeFits(lo, hi, resets);
      } else {
        RangeFits(lo + 1, hi, resets);
      }
    }
  }

  /** A life that neither was deleted in the interval nor is the last there was began before it:
      its first attempt is not among those of the interval. */
  lemma FirstLifeBeganEarlier(s: State, first: nat, last: nat, x: real, window: real) returns (birth: nat)
    requires Inv(s, window) && first < |s.log| && last < |s.log|
    requires x <= s.log[first].at && s.log[last].at < x + window
    requires s.log[first].life < s.log[last].life && s.log[first].life !in Resets(s, x, window)
    ensures birth < |s.log| && s.log[birth].life == s.log[first].life && s.log[birth].count == 1
    ensures s.log[birth].at < x
  {
    var l := s.log[first].life;
    assert AttemptInv(s, first) && AttemptInv(s, last);
    LifeOrder(s, l, s.log[last].life, window);
    assert LifeInv(s, l, window);
    assert Born(s, l);
    birth :| 0 <= birth < |s.log| && s.log[birth] == Attempt(s.lives[l].born, l, 1);
  }

  /** With no successful login in the interval: less than twice the maximum. */
  lemma LockoutBoundWithoutLogin(steps: seq<Step>, s: State, window: real, x: real, maxAttempts: nat)
    requires Legal(START, steps, window) && 0.0 < window && 1 <= maxAttempts
    requires s == Run(START, steps, window)
    requires Resets(s, x, window) == {}
    ensures |Admitted(s, x, window, maxAttempts)| <= 2 * maxAttempts - 1
  {
    LockoutBound(steps, s, window, x, maxAttempts);
  }

  lemma {:induction false} RunInParts(s: State, a: seq<Step>, b: seq<Step>, window: real)
    ensures Run(s, a + b, window) == Run(Run(s, a, window), b, window)
    ensures Legal(s, a, window) && Legal(Run(s, a, window), b, window) ==> Legal(s, a + b, window)
    decreases b
  {
    if b == [] {
      assert a + b == a;
    } else {
      RunInParts(s, a, b[..|b| - 1], window);
      assert (a + b)[..|a + b| - 1] == a + b[..|b| - 1];
    }
  }

  /** t is s after n more attempts at one moment in its last life. */
  ghost predicate MoreAttempts(s: State, t: State, at: real, n: nat)
    requires s.key.Some? && s.lives != []
  {
    && t.key == Some(Counter(s.key.value.count + n, s.key.value.deadline))
    && t.clock <= at && t.lives == s.lives && t.pending == s.pending
    && |t.log| == |s.log| + n && t.log[..|s.log|] == s.log
    && forall k :: |s.log| <= k < |t.log| ==> t.log[k].at == at && t.log[k].count <= s.key.value.count + n
  }

  lemma OneMoreAttempt(s: State, t: State, at: real, n: nat, window: real)
    requires s.key.Some? && s.lives != [] && Present(s.key, at).Some? && MoreAttempts(s, t, at, n)
    ensures Enabled(t, Incr(at)) && MoreAttempts(s, Apply(t, Incr(at), window), at, n + 1)
  {
    var t' := Apply(t, Incr(at), window);
    assert Present(t.key, at).Some?;
    assert t'.log[..|s.log|] == t.log[..|s.log|];
  }

  /** n attempts at one moment, on a counter that is there. */
  lemma {:induction false} Burst(s: State, at: real, n: nat, window: real) returns (steps: seq<Step>)
    requires s.clock <= at && s.lives != [] && s.key.Some? && Present(s.key, at).Some?
    ensures Legal(s, steps, window)
    ensures MoreAttempts(s, Run(s, steps, window), at, n)
    decreases n
  {
    if n == 0 {
      steps := [];
    } else {
      var before := Burst(s, at, n - 1, window);
      steps := before + [Incr(at)];
      var t := Run(s, before, window);
      assert steps[..|steps| - 1] == before && steps[|steps| - 1] == Incr(at);
      assert Run(s, steps, window) == Apply(t, Incr(at), window);
      OneMoreAttempt(s, t, at, n - 1, window);
    }
  }

  /** A first attempt, and the others of its life half a window later. */
  lemma FirstLife(window: real, maxAttempts: nat) returns (steps: seq<Step>, s: State)
    requires 0.0 < window && 1 <= maxAttempts
    ensures Legal(START, steps, window) && s == Run(START, steps, window)
    ensures s.key == Some(Counter(maxAttempts, Some(window))) && s.clock <= window && s.lives == [Life(0.0, None)]
    ensures |s.log| == maxAttempts && s.log[0].at == 0.0
    ensures forall i :: 1 <= i < maxAttempts ==> s.log[i].at == window / 2.0 && s.log[i].count <= maxAttempts
  {
    var begun := OpeningState(window);
    var burst := Burst(begun, window / 2.0, maxAttempts - 1, window);
    var opening := [Incr(0.0), Expire(0, 0.0)];
    RunInParts(START, opening, burst, window);
    steps := opening + burst;
    s := Run(START, steps, window);
    assert s.log[0] == s.log[..1][0];
  }

  /** An attempt at the moment the counter runs out opens the next life. */
  lemma ReopenedAt(s: State, window: real, maxAttempts: nat) returns (u: State)
    requires 0.0 < window && 1 <= maxAttempts && s.clock <= window
    requires s.key == Some(Counter(maxAttempts, Some(window))) && s.lives == [Life(0.0, None)]
    ensures Enabled(s, Incr(window)) && u == Apply(s, Incr(window), window)
    ensures u.lives == [Life(0.0, Some(Expired(window))), Life(window, None)]
  {
    u := Apply(s, Incr(window), window);
  }

  /** When the first life has run out, a second one starts afresh. */
  lemma SecondLife(s: State, window: real, maxAttempts: nat) returns (steps: seq<Step>, t: State)
    requires 0.0 < window && 1 <= maxAttempts && s.clock <= window
    requires s.key == Some(Counter(maxAttempts, Some(window))) && s.lives == [Life(0.0, None)]
    ensures Legal(s, steps, window) && t == Run(s, steps, window)
    ensures t.lives == [Life(0.0, Some(Expired(window))), Life(window, None)]
    ensures |t.log| == |s.log| + maxAttempts && t.log[..|s.log|] == s.log
    ensures forall i :: |s.log| <= i < |t.log| ==> t.log[i].at == window && t.log[i].count <= maxAttempts
  {
    var u := ReopenedAt(s, window, maxAttempts);
    assert Run(s, [Incr(window)], window) == u && Legal(s, [Incr(window)], window) by {
      assert [Incr(window)][..0] == [];
    }
    var burst := Burst(u, window, maxAttempts - 1, window);
    RunInParts(s, [Incr(window)], burst, window);
    steps := [Incr(window)] + burst;
    t := Run(u, burst, window);
    assert t.log[..|s.log|] == t.log[..|u.log|][..|s.log|] == s.log;
    assert t.log[|s.log|] == t.log[..|u.log|][|s.log|];
  }

  /** The bound is reached: with the right timing, all but one of twice the maximum get through. */
  lemma LockoutBoundIsReached(window: real, maxAttempts: nat) returns (steps: seq<Step>, s: State, x: real)
    requires 0.0 < window && 1 <= maxAttempts
    ensures Legal(START, steps, window) && s == Run(START, steps, window)
    ensures Resets(s, x, window) == {} && |Admitted(s, x, window, maxAttempts)| == 2 * maxAttempts - 1
  {
    x := window / 2.0;
    var first, mid := FirstLife(window, maxAttempts);
    var second, end := SecondLife(mid, window, maxAttempts);
    RunInParts(START, first, second, window);
    steps, s := first + second, end;
    forall i | 0 <= i < |mid.log|
      ensures s.log[i] == mid.log[i]
    {
      assert s.log[i] == s.log[..|mid.log|][i];
    }
    ReachedCount(s, x, window, maxAttempts);
  }

  lemma OpeningState(window: real) returns (s: State)
    requires 0.0 < window
    ensures s == State(Some(Counter(1, Some(window))), 0.0, [Attempt(0.0, 0, 1)], [Life(0.0, None)], {})
    ensures Legal(START, [Incr(0.0), Expire(0, 0.0)], window)
    ensures s == Run(START, [Incr(0.0), Expire(0, 0.0)], window)
  {
    var steps := [Incr(0.0), Expire(0, 0.0)];
    assert steps[..1] == [Incr(0.0)] && [Incr(0.0)][..0] == [];
    s := Run(START, steps, window);
    assert Run(START, [Incr(0.0)], window) == Apply(START, Incr(0.0), window);
  }

  lemma ReachedCount(s: State, x: real, window: real, maxAttempts: nat)
    requires 1 <= maxAttempts && |s.log| == 2 * maxAttempts
    requires s.log[0].at < x
    requires forall i :: 1 <= i < |s.log| ==> x <= s.log[i].at < x + window && s.log[i].count <= maxAttempts
    ensures |Admitted(s, x, window, maxAttempts)| == 2 * maxAttempts - 1
  {
    var admitted := Admitted(s, x, window, maxAttempts);
    assert forall i :: i in admitted <==> 1 <= i < 2 * maxAttempts;
    RangeSize(1, 2 * maxAttempts, admitted);
  }

  /// The end of a lockout

  /** The deadline a counter has after these steps if it is there all the time: the latest time to
      live sets it, attempts leave it as it is. */
  function DeadlineAfter(deadline: Option<real>, steps: seq<Step>, window: real): Option<real> {
    if steps == [] then deadline
    else
      var last := steps[|steps| - 1];
      if last.Expire? then Some(last.at + window) else DeadlineAfter(deadline, steps[..|steps| - 1], window)
  }

  /** No step deletes the counter or comes when it has run out. */
  ghost predicate Survives(deadline: Option<real>, steps: seq<Step>, window: real) {
    forall k :: 0 <= k < |steps| ==>
      !steps[k].Reset? && OpenAt(DeadlineAfter(deadline, steps[..k], window), steps[k].at)
  }

  predicate OpenAt(deadline: Option<real>, at: real) {
    deadline.Some? ==> at < deadline.value
  }

  function Attempts(steps: seq<Step>): nat {
    if steps == [] then 0
    else Attempts(steps[..|steps| - 1]) + if steps[|steps| - 1].Incr? then 1 else 0
  }

  /** While the counter is there, every attempt adds one to it, and its deadline is the one the
      latest time to live has set. */
  lemma {:induction false} CounterGoesOn(s: State, steps: seq<Step>, window: real)
    requires s.key.Some? && Survives(s.key.value.deadline, steps, window)
    ensures Run(s, steps, window).key ==
            Some(Counter(s.key.value.count + Attempts(steps), DeadlineAfter(s.key.value.deadline, steps, window)))
  {
    if steps != [] {
      var before, last := steps[..|steps| - 1], steps[|steps| - 1];
      forall k | 0 <= k < |before|
        ensures !before[k].Reset? && OpenAt(DeadlineAfter(s.key.value.deadline, before[..k], window), before[k].at)
      {
        assert before[..k] == steps[..k];
      }
      CounterGoesOn(s, before, window);
      assert OpenAt(DeadlineAfter(s.key.value.deadline, before, window), last.at);
    }
  }

  /** The lockout ends exactly with the counter's deadline: after any attempts and any times to live
      still outstanding, the next attempt is counted as the first of a new counter if and only if
      the latest time to live, or the one there was before, has set a deadline and it has come. */
  lemma LockoutEndsExactly(s: State, steps: seq<Step>, window: real, at: real)
    requires s.key.Some? && 1 <= s.key.value.count
    requires Survives(s.key.value.deadline, steps, window)
    ensures var t := Run(s, steps, window);
            var log := Apply(t, Incr(at), window).log;
            var deadline := DeadlineAfter(s.key.value.deadline, steps, window);
            && |log| == |t.log| + 1
            && (log[|t.log|].count == 1 <==> deadline.Some? && deadline.value <= at)
            && (log[|t.log|].count != 1 ==> log[|t.log|].count == s.key.value.count + Attempts(steps) + 1)
  {
    CounterGoesOn(s, steps, window);
  }

  /** Attempts alone, however many, do not move the deadline, whatever is outstanding. */
  lemma {:induction false} AttemptsLeaveDeadline(deadline: Option<real>, steps: seq<Step>, window: real)
    requires forall k :: 0 <= k < |steps| ==> steps[k].Incr?
    ensures DeadlineAfter(deadline, steps, window) == deadline && Attempts(steps) == |steps|
  {
    if steps != [] {
      AttemptsLeaveDeadline(deadline, steps[..|steps| - 1], window);
    }
  }

  lemma AttemptsSurvive(s: State, steps: seq<Step>, window: real)
    requires s.key.Some? && Legal(s, steps, window) && OpenAt(s.key.value.deadline, Run(s, steps, window).clock)
    requires forall k :: 0 <= k < |steps| ==> steps[k].Incr?
    ensures Survives(s.key.value.deadline, steps, window)
  {
    forall k | 0 <= k < |steps|
      ensures OpenAt(DeadlineAfter(s.key.value.deadline, steps[..k], window), steps[k].at)
    {
      AttemptsLeaveDeadline(s.key.value.deadline, steps[..k], window);
      StepsComeBefore(s, steps, k, window);
    }
  }

  lemma {:induction false} StepsComeBefore(s: State, steps: seq<Step>, k: nat, window: real)
    requires k < |steps| && Legal(s, steps, window)
    ensures steps[k].at <= Run(s, steps, window).clock
  {
    if k < |steps| - 1 {
      StepsComeBefore(s, steps[..|steps| - 1], k, window);
    }
  }

  /** So from any state with a counter, and after attempts before its deadline, the first attempt
      that is told 1 again is the first one at or after the deadline the counter had at the start;
      there is none if it had no deadline. */
  lemma LockoutEnds(s: State, steps: seq<Step>, window: real, at: real)
    requires s.key.Some? && 1 <= s.key.value.count && Legal(s, steps, window)
    requires forall k :: 0 <= k < |steps| ==> steps[k].Incr?
    requires OpenAt(s.key.value.deadline, Run(s, steps, window).clock)
    ensures var t := Run(s, steps, window);
            var log := Apply(t, Incr(at), window).log;
            && t.key == Some(Counter(s.key.value.count + |steps|, s.key.value.deadline))
            && |log| == |t.log| + 1
            && (log[|t.log|].count == 1 <==> s.key.value.deadline.Some? && s.key.value.deadline.value <= at)
  {
    AttemptsSurvive(s, steps, window);
    AttemptsLeaveDeadline(s.key.value.deadline, steps, window);
    CounterGoesOn(s, steps, window);
    LockoutEndsExactly(s, steps, window, at);
  }

  /** While the creator's time to live is missing, nothing but a login ends the lockout: if it is
      never set, every attempt is counted on. */
  lemma StuckWithoutExpire(s: State, steps: seq<Step>, window: real)
    requires s.key.Some? && s.key.value.deadline.None?
    requires forall k :: 0 <= k < |steps| ==> steps[k].Incr?
    ensures Run(s, steps, window).key == Some(Counter(s.key.value.count + |steps|, None))
  {
    forall k | 0 <= k < |steps|
      ensures DeadlineAfter(None, steps[..k], window).None?
    {
      AttemptsLeaveDeadline(None, steps[..k], window);
    }
    AttemptsLeaveDeadline(None, steps, window);
    CounterGoesOn(s, steps, window);
  }

  /** Such a run exists: an attempt whose time to live is never set and any number of further ones,
      after which the next attempt, whenever it comes, is counted on. */
  lemma LockoutNeedNotEnd(window: real, n: nat) returns (steps: seq<Step>)
    ensures Legal(START, steps, window)
    ensures var s := Run(START, steps, window);
            && s.key == Some(Counter(n + 1, None))
            && forall at :: s.clock <= at ==>
                 var log := Apply(s, Incr(at), window).log; log != [] && log[|log| - 1].count == n + 2
  {
    var first := [Incr(0.0)];
    assert first[..0] == [] && Legal(START, [], window) && Enabled(START, Incr(0.0));
    assert Legal(START, first, window);
    var s := Run(START, first, window);
    assert s == Apply(START, Incr(0.0), window);
    var rest := Burst(s, 0.0, n, window);
    RunInParts(START, first, rest, window);
    steps := first + rest;
  }

  /** Step k is the setting of a time to live that ends at d, by an attempt that was told 1. */
  ghost predicate SetBy(steps: seq<Step>, log: seq<Attempt>, k: nat, d: real, window: real)
    requires k < |steps|
  {
    && steps[k].Expire? && d == steps[k].at + window
    && steps[k].attempt < |log| && log[steps[k].attempt].count == 1
  }

  /** Only attempts that were told 1 have a time to live to set; and a deadline that is there was
      set by one of them, a window before. */
  ghost predicate DeadlinesOwned(s: State, steps: seq<Step>, window: real) {
    && (forall i :: i in s.pending ==> i < |s.log| && s.log[i].count == 1)
    && (s.key.Some? ==> 1 <= s.key.value.count)
    && (s.key.Some? && s.key.value.deadline.Some? ==>
          exists k :: 0 <= k < |steps| && SetBy(steps, s.log, k, s.key.value.deadline.value, window))
  }

  /** In every interleaving: no attempt that is told more than 1, so none that is blocked, ever sets
      or moves the deadline. */
  lemma {:induction false} BlockedAttemptsSetNoDeadline(steps: seq<Step>, window: real)
    requires Legal(START, steps, window)
    ensures DeadlinesOwned(Run(START, steps, window), steps, window)
  {
    if steps != [] {
      var before, last := steps[..|steps| - 1], steps[|steps| - 1];
      BlockedAttemptsSetNoDeadline(before, window);
      var s, t := Run(START, before, window), Run(START, steps, window);
      if last.Expire? {
        assert SetBy(steps, t.log, |before|, last.at + window, window);
      } else if t.key.Some? && t.key.value.deadline.Some? {
        var k :| 0 <= k < |before| && SetBy(before, s.log, k, s.key.value.deadline.value, window);
        assert SetBy(steps, t.log, k, t.key.value.deadline.value, window);
      }
    }
  }

  /// Logins

  lemma {:induction false} NoCounterToExpire(s: State, steps: seq<Step>, window: real)
    requires s.key.None? && forall k :: 0 <= k < |steps| ==> steps[k].Expire?
    ensures Run(s, steps, window).key.None?
  {
    if steps != [] {
      NoCounterToExpire(s, steps[..|steps| - 1], window);
    }
  }

  /** The first attempt after a successful login is told 1, whatever the counter was and whichever
      outstanding times to live are set in between. */
  lemma FirstAttemptAfterLogin(s: State, login: real, between: seq<Step>, at: real, window: real)
    requires forall k :: 0 <= k < |between| ==> between[k].Expire?
    ensures var t := Run(Apply(s, Reset(login), window), between, window);
            var log := Apply(t, Incr(at), window).log;
            |log| == |t.log| + 1 && log[|t.log|].count == 1
  {
    NoCounterToExpire(Apply(s, Reset(login), window), between, window);
  }
}
