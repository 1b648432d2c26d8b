/**
 The blacklist and its cache with checks and administrators at work at the same time.  A check
 reads the cache, or misses, selects the active rows and stores them with a time to live of 60
 seconds, and then charges the entry it matches.  An administrator commits a change to the table
 and then deletes the cache.  Steps interleave in any way, and the clock may stand still or move
 between any two of them.
 */
module BlacklistProtocol {
  import opened Wrappers
  import opened BlacklistRows

  /** When a cached list was selected and when it was stored, each with the number of changes
      committed by then. */
  datatype Fill = Fill(selectedAt: real, selectedCommits: nat, storedAt: real, storedCommits: nat)

  datatype Cached = Cached(entries: seq<Entry>, fill: Fill)

  /** How far a check has come. */
  datatype Check =
    | Missed
    | Selected(entries: seq<Entry>, at: real, commits: nat)
    | Holding(entries: seq<Entry>, fill: Fill, obtainedAt: real)

  /** `writers` are the administrators between commit and cache delete, each with the number of
      its commit; `used` are the identifiers ever given to a row; `charges` lists the rows charged
      so far. */
  datatype State = State(
    table: Table, used: set<Id>, cache: Option<Cached>, clock: real, commits: nat,
    checks: map<nat, Check>, writers: map<nat, nat>, charges: seq<Id>)

  datatype Step =
    | Hit(check: nat, at: real)
    | Miss(check: nat, at: real)
    | Select(check: nat, at: real, entries: seq<Entry>)
    | Store(check: nat, at: real)
    | Charge(check: nat, at: real, sender: string, glob: Glob)
    | Commit(writer: nat, at: real, change: Change)
    | Invalidate(writer: nat, at: real)

  const START := State(map[], {}, None, 0.0, 0, map[], map[], [])

  /** Whether reading the cache at `at` finds a value. */
  predicate Visible(cache: Option<Cached>, at: real) {
    cache.Some? && at < cache.value.fill.storedAt + CACHE_TTL
  }

  /** Whether the database accepts a change.  Identifiers are never given out twice. */
  predicate Applicable(s: State, change: Change) {
    match change
    case Insert(id, data) => id !in s.used && !HasPattern(s.table, data.pattern)
    case Patch(id, update) => id in s.table && Acceptable(s.table, id, update)
    case Remove(id) => id in s.table
  }

  ghost predicate Enabled(s: State, step: Step) {
    && s.clock <= step.at
    && match step
       case Hit(c, at) => c !in s.checks && Visible(s.cache, at)
       case Miss(c, at) => c !in s.checks && !Visible(s.cache, at)
       case Select(c, at, entries) => c in s.checks && s.checks[c].Missed? && Enumerates(entries, s.table)
       case Store(c, at) => c in s.checks && s.checks[c].Selected?
       case Charge(c, at, sender, glob) => c in s.checks && s.checks[c].Holding?
       case Commit(w, at, change) => w !in s.writers && Applicable(s, change)
       case Invalidate(w, at) => w in s.writers
  }

  function Apply(s: State, step: Step): State {
    var t := s.(clock := step.at);
    match step
    case Hit(c, at) =>
      if s.cache.Some? then t.(checks := s.checks[c := Holding(s.cache.value.entries, s.cache.value.fill, at)]) else t
    case Miss(c, at) => t.(checks := s.checks[c := Missed])
    case Select(c, at, entries) => t.(checks := s.checks[c := Selected(entries, at, s.commits)])
    case Store(c, at) =>
      if c in s.checks && s.checks[c].Selected? then
        var fill := Fill(s.checks[c].at, s.checks[c].commits, at, s.commits);
        t.(cache := Some(Cached(s.checks[c].entries, fill)),
           checks := s.checks[c := Holding(s.checks[c].entries, fill, at)])
      else t
    case Charge(c, at, sender, glob) =>
      if c in s.checks && s.checks[c].Holding? then
        var found := FirstMatch(s.checks[c].entries, sender, glob);
        if found.Some? && found.value.id in s.table then
          t.(table := Charged(s.table, found.value.id), charges := s.charges + [found.value.id], checks := s.checks - {c})
        else
          t.(checks := s.checks - {c})
      else t
    case Commit(w, at, change) =>
      t.(table := Changed(s.table, change),
         used := if change.Insert? then s.used + {change.id} else s.used,
         commits := s.commits + 1, writers := s.writers[w := s.commits + 1])
    case Invalidate(w, at) => t.(cache := None, writers := s.writers - {w})
  }

  function After(steps: seq<Step>): State {
    if steps == [] then START else Apply(After(steps[..|steps| - 1]), steps[|steps| - 1])
  }

  ghost predicate Legal(steps: seq<Step>) {
    steps == [] || (Legal(steps[..|steps| - 1]) && Enabled(After(steps[..|steps| - 1]), steps[|steps| - 1]))
  }

  lemma Extend(steps: seq<Step>, step: Step)
    requires Legal(steps) && Enabled(After(steps), step)
    ensures Legal(steps + [step]) && After(steps + [step]) == Apply(After(steps), step)
  {
    assert (steps + [step])[..|steps|] == steps;
  }

  /// Coherence

  /** A list selected after `commits` changes enumerates the active rows as long as no further
      change is committed. */
  ghost predicate Fresh(s: State, entries: seq<Entry>, commits: nat) {
    commits <= s.commits && (commits == s.commits ==> Enumerates(entries, s.table))
  }

  ghost predicate ChecksFresh(s: State) {
    forall c :: c in s.checks && s.checks[c].Selected? ==> Fresh(s, s.checks[c].entries, s.checks[c].commits)
  }

  /** A list stored with no change between its selection and its storing enumerates the active rows,
      or the administrator of every change since has yet to delete the cache. */
  ghost predicate CacheFresh(s: State) {
    s.cache.Some? ==>
      var fill := s.cache.value.fill;
      && fill.selectedCommits <= fill.storedCommits <= s.commits
      && (fill.selectedCommits == fill.storedCommits ==> Fresh(s, s.cache.value.entries, fill.storedCommits))
      && (forall n :: fill.storedCommits < n <= s.commits ==> Pending(s, n))
  }

  ghost predicate Pending(s: State, n: nat) {
    exists w :: w in s.writers && s.writers[w] == n
  }

  lemma {:induction false} CoherenceInvariant(steps: seq<Step>)
    requires Legal(steps)
    ensures ChecksFresh(After(steps)) && CacheFresh(After(steps))
  {
    if steps != [] {
      var s, step := After(steps[..|steps| - 1]), steps[|steps| - 1];
      CoherenceInvariant(steps[..|steps| - 1]);
      CoherenceStep(s, step);
    }
  }

  lemma CoherenceStep(s: State, step: Step)
    requires ChecksFresh(s) && CacheFresh(s) && Enabled(s, step)
    ensures ChecksFresh(Apply(s, step)) && CacheFresh(Apply(s, step))
  {
    var s' := Apply(s, step);
    match step
    case Hit(c, at) => PendingCarries(s, s');
    case Miss(c, at) => PendingCarries(s, s');
    case Select(c, at, entries) => PendingCarries(s, s');
    case Store(c, at) =>
      assert Fresh(s, s.checks[c].entries, s.checks[c].commits);
    case Charge(c, at, sender, glob) =>
      ChargeKeepsFresh(s, s', FirstMatch(s.checks[c].entries, sender, glob));
      PendingCarries(s, s');
    case Commit(w, at, change) =>
      CommitStaysPending(s, s', w);
      assert forall e, n :: Fresh(s, e, n) ==> Fresh(s', e, n);
    case Invalidate(w, at) =>
  }

  lemma PendingCarries(s: State, s': State)
    requires s'.writers == s.writers
    ensures forall n :: Pending(s, n) ==> Pending(s', n)
  {
  }

  lemma ChargeKeepsFresh(s: State, s': State, found: Option<Entry>)
    requires s'.commits == s.commits
    requires s'.table == s.table || (found.Some? && s'.table == Charged(s.table, found.value.id))
    ensures forall entries, n :: Fresh(s, entries, n) ==> Fresh(s', entries, n)
  {
    forall entries, n | Fresh(s, entries, n)
      ensures Fresh(s', entries, n)
    {
      if found.Some? {
        ChargeKeepsProjection(s.table, found.value.id, entries);
      }
    }
  }

  lemma CommitStaysPending(s: State, s': State, w: nat)
    requires w !in s.writers && s'.writers == s.writers[w := s.commits + 1]
    ensures Pending(s', s.commits + 1)
    ensures forall n :: Pending(s, n) ==> Pending(s', n)
  {
    assert s'.writers[w] == s.commits + 1;
    forall n | Pending(s, n)
      ensures Pending(s', n)
    {
      var v :| v in s.writers && s.writers[v] == n;
      assert v in s'.writers && s'.writers[v] == n;
    }
  }

  /** In every interleaving, the cached list differs from the active rows only while some
      administrator is between commit and cache delete, or when a change was committed between
      the selection and the storing of that list. */
  lemma Coherence(steps: seq<Step>)
    requires Legal(steps)
    ensures var s := After(steps);
            s.cache.Some? && !Enumerates(s.cache.value.entries, s.table) ==>
              s.writers != map[] || s.cache.value.fill.selectedCommits < s.cache.value.fill.storedCommits
  {
    CoherenceInvariant(steps);
    var s := After(steps);
    if s.cache.Some? && s.cache.value.fill.storedCommits < s.commits {
      assert Pending(s, s.commits);
    }
  }

  /** The second case does occur: a list selected before a change and stored after the cache
      delete stays, with no administrator at work. */
  lemma StaleFillSurvives(data: NewEntry) returns (steps: seq<Step>)
    ensures Legal(steps)
    ensures var s := After(steps);
            s.cache.Some? && s.writers == map[] && !Enumerates(s.cache.value.entries, s.table)
  {
    var s := START;
    steps, s := Take([], s, Miss(0, 0.0));
    assert s == START.(checks := map[0 := Missed]);
    steps, s := Take(steps, s, Select(0, 0.0, []));
    assert s == START.(checks := map[0 := Selected([], 0.0, 0)]);
    steps, s := Take(steps, s, Commit(0, 0.0, Insert(0, data)));
    var row := Inserted(data);
    assert s == START.(table := map[0 := row], used := {0}, commits := 1, writers := map[0 := 1],
                       checks := map[0 := Selected([], 0.0, 0)]);
    steps, s := Take(steps, s, Invalidate(0, 0.0));
    assert s == START.(table := map[0 := row], used := {0}, commits := 1, checks := map[0 := Selected([], 0.0, 0)]);
    steps, s := Take(steps, s, Store(0, 0.0));
    assert Listed(s.table, Entry(0, data.pattern, data.blockType));
  }

  lemma Take(steps: seq<Step>, s: State, step: Step) returns (steps': seq<Step>, s': State)
    requires Legal(steps) && s == After(steps) && Enabled(s, step)
    ensures Legal(steps') && s' == After(steps') && s' == Apply(s, step)
  {
    Extend(steps, step);
    steps', s' := steps + [step], Apply(s, step);
  }

  /// Bounded staleness

  /** At some moment of the run, after n changes, the clock showed t and the list enumerated the
      active rows. */
  ghost predicate WasActive(steps: seq<Step>, entries: seq<Entry>, t: real, n: nat) {
    exists k :: 0 <= k <= |steps| && WasActiveAt(steps, k, entries, t, n)
  }

  ghost predicate WasActiveAt(steps: seq<Step>, k: nat, entries: seq<Entry>, t: real, n: nat)
    requires k <= |steps|
  {
    var s := After(steps[..k]);
    s.clock == t && s.commits == n && Enumerates(entries, s.table)
  }

  ghost predicate Backed(steps: seq<Step>, entries: seq<Entry>, fill: Fill) {
    fill.selectedAt <= fill.storedAt && WasActive(steps, entries, fill.selectedAt, fill.selectedCommits)
  }

  ghost predicate CheckBacked(steps: seq<Step>, check: Check, clock: real) {
    match check
    case Missed => true
    case Selected(entries, at, commits) => at <= clock && WasActive(steps, entries, at, commits)
    case Holding(entries, fill, obtainedAt) =>
      Backed(steps, entries, fill) && fill.storedAt <= obtainedAt < fill.storedAt + CACHE_TTL && obtainedAt <= clock
  }

  ghost predicate HistoryInv(steps: seq<Step>, s: State) {
    && (s.cache.Some? ==>
          && Backed(steps, s.cache.value.entries, s.cache.value.fill)
          && s.cache.value.fill.storedAt <= s.clock)
    && (forall c :: c in s.checks ==> CheckBacked(steps, s.checks[c], s.clock))
  }

  lemma HistoryGrows(steps: seq<Step>, step: Step, entries: seq<Entry>, t: real, n: nat)
    requires WasActive(steps, entries, t, n)
    ensures WasActive(steps + [step], entries, t, n)
  {
    var k :| 0 <= k <= |steps| && WasActiveAt(steps, k, entries, t, n);
    assert (steps + [step])[..k] == steps[..k];
    assert WasActiveAt(steps + [step], k, entries, t, n);
  }

  lemma SelectionIsActive(steps: seq<Step>, step: Step)
    requires step.Select? && Enabled(After(steps), step)
    ensures WasActive(steps + [step], step.entries, step.at, After(steps).commits)
  {
    var steps' := steps + [step];
    assert steps'[..|steps|] == steps && steps'[..|steps'|] == steps';
    assert WasActiveAt(steps', |steps'|, step.entries, step.at, After(steps).commits);
  }

  lemma HistoryStep(steps: seq<Step>, step: Step)
    requires HistoryInv(steps, After(steps)) && Enabled(After(steps), step)
    ensures HistoryInv(steps + [step], Apply(After(steps), step))
  {
    var s, s' := After(steps), Apply(After(steps), step);
    if s.cache.Some? {
      var fill := s.cache.value.fill;
      HistoryGrows(steps, step, s.cache.value.entries, fill.selectedAt, fill.selectedCommits);
    }
    forall c | c in s.checks
      ensures CheckBacked(steps + [step], s.checks[c], step.at)
    {
      BackedGrows(steps, step, s.checks[c], s.clock);
    }
    if step.Select? {
      SelectionIsActive(steps, step);
    }
    if step.Store? {
      assert CheckBacked(steps + [step], s.checks[step.check], step.at);
    }
  }

  lemma BackedGrows(steps: seq<Step>, step: Step, check: Check, clock: real)
    requires CheckBacked(steps, check, clock) && clock <= step.at
    ensures CheckBacked(steps + [step], check, step.at)
  {
    match check
    case Missed =>
    case Selected(entries, at, commits) => HistoryGrows(steps, step, entries, at, commits);
    case Holding(entries, fill, obtainedAt) => HistoryGrows(steps, step, entries, fill.selectedAt, fill.selectedCommits);
  }

  lemma {:induction false} HistoryInvariant(steps: seq<Step>)
    requires Legal(steps)
    ensures HistoryInv(steps, After(steps))
  {
    if steps != [] {
      HistoryInvariant(steps[..|steps| - 1]);
      HistoryStep(steps[..|steps| - 1], steps[|steps| - 1]);
      assert steps[..|steps| - 1] + [steps[|steps| - 1]] == steps;
    }
  }

  /** In every interleaving, a list a check has obtained was the active projection of the table at
      some moment of the run, less than 60 seconds plus the time its fill took from select to
      store before it was obtained. */
  lemma BoundedStaleness(steps: seq<Step>, check: nat)
    requires Legal(steps)
    requires check in After(steps).checks && After(steps).checks[check].Holding?
    ensures var Holding(entries, fill, obtainedAt) := After(steps).checks[check];
            exists k :: 0 <= k <= |steps|
              && Enumerates(entries, After(steps[..k]).table)
              && var age := obtainedAt - After(steps[..k]).clock;
                 0.0 <= age < 60.0 + (fill.storedAt - fill.selectedAt)
  {
    HistoryInvariant(steps);
    var Holding(entries, fill, obtainedAt) := After(steps).checks[check];
    assert CheckBacked(steps, After(steps).checks[check], After(steps).clock);
    var k :| 0 <= k <= |steps| && WasActiveAt(steps, k, entries, fill.selectedAt, fill.selectedCommits);
  }

  /** So the verdict of a check is the one the table called for at such a moment, whatever the
      order in which its rows came back, and the type it gives is that of a row active and matching
      at that moment. */
  lemma VerdictWasRight(steps: seq<Step>, check: nat, sender: string, glob: Glob)
    requires Legal(steps)
    requires check in After(steps).checks && After(steps).checks[check].Holding?
    ensures var Holding(entries, fill, obtainedAt) := After(steps).checks[check];
            exists k :: 0 <= k <= |steps|
              && (FirstMatch(entries, sender, glob).Some? <==> Blocks(After(steps[..k]).table, sender, glob))
              && (FirstMatch(entries, sender, glob).Some? ==>
                    Listed(After(steps[..k]).table, FirstMatch(entries, sender, glob).value))
              && var age := obtainedAt - After(steps[..k]).clock;
                 0.0 <= age < 60.0 + (fill.storedAt - fill.selectedAt)
  {
    BoundedStaleness(steps, check);
    var Holding(entries, fill, obtainedAt) := After(steps).checks[check];
    var k :| 0 <= k <= |steps|
      && Enumerates(entries, After(steps[..k]).table)
      && var age := obtainedAt - After(steps[..k]).clock;
         0.0 <= age < CACHE_TTL + (fill.storedAt - fill.selectedAt);
    CheckDecidesBlocks(entries, After(steps[..k]).table, sender, glob);
  }

  /// Coherence, exactly

  /** Only committed changes change the active projection. */
  lemma StepKeepsProjection(s: State, step: Step)
    ensures s.commits <= Apply(s, step).commits
    ensures s.commits == Apply(s, step).commits ==> SameProjection(s.table, Apply(s, step).table)
  {
    if step.Charge? && step.check in s.checks && s.checks[step.check].Holding? {
      var found := FirstMatch(s.checks[step.check].entries, step.sender, step.glob);
      if found.Some? {
        ChargeKeepsProjection(s.table, found.value.id, []);
      }
    }
  }

  lemma {:induction false} CommitsDecideProjection(steps: seq<Step>, i: nat, j: nat)
    requires i <= j <= |steps|
    ensures After(steps[..i]).commits <= After(steps[..j]).commits
    ensures After(steps[..i]).commits == After(steps[..j]).commits ==>
            SameProjection(After(steps[..i]).table, After(steps[..j]).table)
    decreases j
  {
    if i < j {
      CommitsDecideProjection(steps, i, j - 1);
      assert steps[..j][..j - 1] == steps[..j - 1];
      StepKeepsProjection(After(steps[..j - 1]), steps[j - 1]);
    }
  }

  lemma SameCommitsSameProjection(steps: seq<Step>, i: nat, j: nat)
    requires i <= |steps| && j <= |steps| && After(steps[..i]).commits == After(steps[..j]).commits
    ensures SameProjection(After(steps[..i]).table, After(steps[..j]).table)
  {
    if i <= j {
      CommitsDecideProjection(steps, i, j);
    } else {
      CommitsDecideProjection(steps, j, i);
    }
  }

  /** In every interleaving, the cached list enumerates the active rows exactly when the active
      projection at the moment k of its selection is the present one. */
  lemma CoherenceExactly(steps: seq<Step>) returns (k: nat)
    requires Legal(steps) && After(steps).cache.Some?
    ensures var s, fill := After(steps), After(steps).cache.value.fill;
            && k <= |steps|
            && After(steps[..k]).clock == fill.selectedAt && After(steps[..k]).commits == fill.selectedCommits
            && (Enumerates(s.cache.value.entries, s.table) <==> SameProjection(After(steps[..k]).table, s.table))
  {
    HistoryInvariant(steps);
    var s := After(steps);
    var Cached(entries, fill) := s.cache.value;
    k :| 0 <= k <= |steps| && WasActiveAt(steps, k, entries, fill.selectedAt, fill.selectedCommits);
    EnumeratesBoth(entries, After(steps[..k]).table, s.table);
  }

  lemma EnumeratesBoth(entries: seq<Entry>, a: Table, b: Table)
    requires Enumerates(entries, a)
    ensures Enumerates(entries, b) <==> SameProjection(a, b)
  {
  }

  /** With no administrator at work, that is exactly when the changes committed between selection
      and storing left the projection as it was, where j and m are any moments with as many changes
      as there were at the selection and at the storing. */
  lemma QuietCoherenceExactly(steps: seq<Step>, j: nat, m: nat)
    requires Legal(steps) && After(steps).cache.Some? && After(steps).writers == map[]
    requires j <= |steps| && After(steps[..j]).commits == After(steps).cache.value.fill.selectedCommits
    requires m <= |steps| && After(steps[..m]).commits == After(steps).cache.value.fill.storedCommits
    ensures var s := After(steps);
            Enumerates(s.cache.value.entries, s.table) <==>
            SameProjection(After(steps[..j]).table, After(steps[..m]).table)
  {
    var s := After(steps);
    var k := CoherenceExactly(steps);
    SameCommitsSameProjection(steps, j, k);
    CoherenceInvariant(steps);
    assert !Pending(s, s.commits);
    assert steps[..|steps|] == steps;
    SameCommitsSameProjection(steps, m, |steps|);
  }

  /// Conservation of block counts

  ghost predicate Conserved(s: State) {
    && UniquePatterns(s.table)
    && (forall id :: id in s.table ==> id in s.used && s.table[id].blockedCount == multiset(s.charges)[id])
    && (forall id :: id in s.charges ==> id in s.used)
  }

  lemma ConservationStep(s: State, step: Step)
    requires Conserved(s) && Enabled(s, step)
    ensures Conserved(Apply(s, step))
  {
    if step.Charge? {
      var found := FirstMatch(s.checks[step.check].entries, step.sender, step.glob);
      if found.Some? && found.value.id in s.table {
        ChargeConserves(s, Apply(s, step), found.value.id);
      }
    } else if step.Commit? {
      ChangeConserves(s, Apply(s, step), step.change);
    }
  }

  lemma ChargeConserves(s: State, s': State, id: Id)
    requires Conserved(s) && id in s.table
    requires s'.table == Charged(s.table, id) && s'.charges == s.charges + [id] && s'.used == s.used
    ensures Conserved(s')
  {
    ChargeKeepsProjection(s.table, id, []);
  }

  lemma ChangeConserves(s: State, s': State, change: Change)
    requires Conserved(s) && Applicable(s, change)
    requires s'.table == Changed(s.table, change) && s'.charges == s.charges
    requires s'.used == if change.Insert? then s.used + {change.id} else s.used
    ensures Conserved(s')
  {
    match change
    case Insert(id, data) =>
      assert multiset(s.charges)[id] == 0;
    case Patch(id, update) =>
    case Remove(id) =>
  }

  /** In every interleaving, the block count of a row is the number of checks that charged it:
      all of them since it was added, as its identifier was never used before. */
  lemma {:induction false} BlockCountsAreConserved(steps: seq<Step>)
    requires Legal(steps)
    ensures Conserved(After(steps))
  {
    if steps != [] {
      BlockCountsAreConserved(steps[..|steps| - 1]);
      ConservationStep(After(steps[..|steps| - 1]), steps[|steps| - 1]);
    }
  }

  /** A check ends by charging the entry it matched, if that row is still there, and no other;
      no other step charges anything. */
  lemma ChargeStep(s: State, step: Step)
    requires Enabled(s, step)
    ensures step.Charge? ==>
      var found := FirstMatch(s.checks[step.check].entries, step.sender, step.glob);
      && Apply(s, step).charges ==
           s.charges + (if found.Some? && found.value.id in s.table then [found.value.id] else [])
      && step.check !in Apply(s, step).checks
    ensures !step.Charge? ==> Apply(s, step).charges == s.charges
  {
  }

  /** The checks begun, each with one reading of the cache. */
  function Begun(steps: seq<Step>): nat {
    if steps == [] then 0
    else
      var last := steps[|steps| - 1];
      Begun(steps[..|steps| - 1]) + if last.Hit? || last.Miss? then 1 else 0
  }

  /** Of the checks that came to their end, those whose matched row was there to be charged. */
  ghost function Charging(steps: seq<Step>): nat {
    if steps == [] then 0
    else
      var s, last := After(steps[..|steps| - 1]), steps[|steps| - 1];
      Charging(steps[..|steps| - 1]) + if last.Charge? && FindsRow(s, last) then 1 else 0
  }

  ghost function Passing(steps: seq<Step>): nat {
    if steps == [] then 0
    else
      var s, last := After(steps[..|steps| - 1]), steps[|steps| - 1];
      Passing(steps[..|steps| - 1]) + if last.Charge? && !FindsRow(s, last) then 1 else 0
  }

  ghost predicate FindsRow(s: State, step: Step)
    requires step.Charge?
  {
    && step.check in s.checks && s.checks[step.check].Holding?
    && var found := FirstMatch(s.checks[step.check].entries, step.sender, step.glob);
       found.Some? && found.value.id in s.table
  }

  lemma ChecksUnderway(s: State, step: Step)
    requires Enabled(s, step)
    ensures (step.Hit? || step.Miss?) ==>
              step.check !in s.checks && Apply(s, step).checks.Keys == s.checks.Keys + {step.check}
    ensures step.Charge? ==> step.check in s.checks && Apply(s, step).checks.Keys == s.checks.Keys - {step.check}
    ensures !step.Hit? && !step.Miss? && !step.Charge? ==> Apply(s, step).checks.Keys == s.checks.Keys
  {
  }

  lemma ChecksCounted(s: State, step: Step)
    requires Enabled(s, step)
    ensures |Apply(s, step).checks.Keys| ==
            |s.checks.Keys| + (if step.Hit? || step.Miss? then 1 else 0) - (if step.Charge? then 1 else 0)
  {
    ChecksUnderway(s, step);
  }

  /** In every interleaving, each check begun is either still on its way, or has charged one row, or
      has passed without charging any: there are never more charges than checks. */
  lemma {:induction false} ChargesAreOnePerCheck(steps: seq<Step>)
    requires Legal(steps)
    ensures |After(steps).charges| == Charging(steps)
    ensures |After(steps).charges| + Passing(steps) + |After(steps).checks.Keys| == Begun(steps)
  {
    if steps != [] {
      ChargesAreOnePerCheck(steps[..|steps| - 1]);
      ChargeStep(After(steps[..|steps| - 1]), steps[|steps| - 1]);
      ChecksCounted(After(steps[..|steps| - 1]), steps[|steps| - 1]);
    }
  }

  /// What commits do

  /** An insertion adds a row with the given fields, active and never used; an update changes its own
      row; a removal takes its row away; and none of them touches any other row. */
  lemma CommitTakesEffect(s: State, step: Step)
    requires Conserved(s) && Enabled(s, step) && step.Commit?
    ensures var id, after := step.change.id, Apply(s, step).table;
            && (step.change.Insert? ==>
                  var data := step.change.data;
                  && id !in s.table && after.Keys == s.table.Keys + {id}
                  && after[id] == Row(data.pattern, data.blockType, data.reason, 0, true))
            && (step.change.Patch? ==>
                  && id in s.table && after.Keys == s.table.Keys
                  && after[id] == Updated(s.table[id], step.change.update))
            && (step.change.Remove? ==> id in s.table && after.Keys == s.table.Keys - {id})
            && forall other :: other in s.table && other != id ==> after[other] == s.table[other]
  {
  }

  lemma AwayStep(s: State, step: Step, id: Id)
    requires Enabled(s, step) && id in s.used && id !in s.table
    ensures id in Apply(s, step).used && id !in Apply(s, step).table
    ensures multiset(Apply(s, step).charges)[id] == multiset(s.charges)[id]
    ensures step.Select? ==> forall e :: e in step.entries ==> e.id != id
  {
    match step
    case Select(c, at, entries) =>
      assert forall e :: e in entries ==> Listed(s.table, e);
    case Charge(c, at, sender, glob) =>
      var found := FirstMatch(s.checks[c].entries, sender, glob);
      if found.Some? && found.value.id in s.table {
        assert multiset(s.charges + [found.value.id]) == multiset(s.charges) + multiset{found.value.id};
      }
    case _ =>
  }

  lemma LastOf(steps: seq<Step>, m: nat)
    requires 0 < m <= |steps| && Legal(steps[..m])
    ensures Legal(steps[..m - 1]) && Enabled(After(steps[..m - 1]), steps[m - 1])
    ensures After(steps[..m]) == Apply(After(steps[..m - 1]), steps[m - 1])
  {
    assert steps[..m][..m - 1] == steps[..m - 1];
  }

  lemma {:induction false} LegalPrefix(steps: seq<Step>, n: nat)
    requires n <= |steps| && Legal(steps)
    ensures Legal(steps[..n])
  {
    if n < |steps| {
      LegalPrefix(steps[..|steps| - 1], n);
      assert steps[..|steps| - 1][..n] == steps[..n];
    } else {
      assert steps[..n] == steps;
    }
  }

  lemma {:induction false} StaysAway(steps: seq<Step>, n: nat, m: nat, id: Id)
    requires n <= m <= |steps| && Legal(steps[..m])
    requires id in After(steps[..n]).used && id !in After(steps[..n]).table
    ensures id in After(steps[..m]).used && id !in After(steps[..m]).table
    ensures multiset(After(steps[..m]).charges)[id] == multiset(After(steps[..n]).charges)[id]
    decreases m
  {
    if n < m {
      LastOf(steps, m);
      StaysAway(steps, n, m - 1, id);
      AwayStep(After(steps[..m - 1]), steps[m - 1], id);
    }
  }

  /** A row that is removed stays away: from then on it is in no table, and no check is counted on
      it, in whatever list its entry may still be. */
  lemma RemovedStaysAway(steps: seq<Step>, n: nat, m: nat, id: Id)
    requires Legal(steps) && n < m <= |steps| && steps[n].Commit? && steps[n].change == Remove(id)
    ensures id in After(steps[..m]).used && id !in After(steps[..m]).table
    ensures multiset(After(steps[..m]).charges)[id] == multiset(After(steps[..n]).charges)[id]
  {
    RemovedIsAway(steps, n, id);
    LegalPrefix(steps, m);
    StaysAway(steps, n + 1, m, id);
  }

  /** And no list selected later names it. */
  lemma RemovedIsNotListed(steps: seq<Step>, n: nat, m: nat, id: Id)
    requires Legal(steps) && n < m < |steps| && steps[n].Commit? && steps[n].change == Remove(id)
    requires steps[m].Select?
    ensures forall e :: e in steps[m].entries ==> e.id != id
  {
    RemovedStaysAway(steps, n, m, id);
    NextIsEnabled(steps, m);
    AwayStep(After(steps[..m]), steps[m], id);
  }

  lemma NextIsEnabled(steps: seq<Step>, m: nat)
    requires Legal(steps) && m < |steps|
    ensures Enabled(After(steps[..m]), steps[m])
  {
    LegalPrefix(steps, m + 1);
    LastOf(steps, m + 1);
  }

  lemma RemovedIsAway(steps: seq<Step>, n: nat, id: Id)
    requires Legal(steps) && n < |steps| && steps[n].Commit? && steps[n].change == Remove(id)
    ensures var s := After(steps[..n + 1]);
            id in s.used && id !in s.table && s.charges == After(steps[..n]).charges
  {
    LegalPrefix(steps, n + 1);
    LastOf(steps, n + 1);
    BlockCountsAreConserved(steps[..n]);
    CommitTakesEffect(After(steps[..n]), steps[n]);
  }

  /// One check at a time

  /** A check that finds a list cached, with nothing in between its steps. */
  lemma CheckThatHits(s: State, c: nat, at: real, sender: string, glob: Glob)
    requires s.clock <= at && c !in s.checks
    requires s.cache.Some? && at < s.cache.value.fill.storedAt + 60.0
    ensures var found := FirstMatch(s.cache.value.entries, sender, glob);
            var s1 := Apply(s, Hit(c, at));
            var s2 := Apply(s1, Charge(c, at, sender, glob));
            && Enabled(s, Hit(c, at)) && Enabled(s1, Charge(c, at, sender, glob))
            && s2.checks == s.checks && s2.cache == s.cache
            && s2.table == if found.Some? then Charged(s.table, found.value.id) else s.table
  {
    assert s.checks[c := Holding(s.cache.value.entries, s.cache.value.fill, at)] - {c} == s.checks;
  }

  /** And one that finds none, or one whose 60 seconds are over: it stores what it selects. */
  lemma CheckThatMisses(s: State, c: nat, at: real, entries: seq<Entry>, sender: string, glob: Glob)
    requires s.clock <= at && c !in s.checks && Enumerates(entries, s.table)
    requires s.cache.None? || s.cache.value.fill.storedAt + 60.0 <= at
    ensures var found := FirstMatch(entries, sender, glob);
            var s1 := Apply(s, Miss(c, at));
            var s2 := Apply(s1, Select(c, at, entries));
            var s3 := Apply(s2, Store(c, at));
            var s4 := Apply(s3, Charge(c, at, sender, glob));
            && Enabled(s, Miss(c, at)) && Enabled(s1, Select(c, at, entries)) && Enabled(s2, Store(c, at))
            && Enabled(s3, Charge(c, at, sender, glob))
            && s4.checks == s.checks && s4.cache == Some(Cached(entries, Fill(at, s.commits, at, s.commits)))
            && s4.table == if found.Some? then Charged(s.table, found.value.id) else s.table
  {
    var fill := Fill(at, s.commits, at, s.commits);
    var s3 := Apply(Apply(Apply(s, Miss(c, at)), Select(c, at, entries)), Store(c, at));
    assert s3.checks == s.checks[c := Holding(entries, fill, at)];
    assert s3.checks - {c} == s.checks;
  }
}
