/**
 The clean-up of expired messages: a loop that deletes at most a batch of rows at a time, each
 batch with its own cutoff, until a batch comes out short.
 */
module Cleanup {
  import opened Sets

  type Id = nat

  /** The messages, by the time they were received. */
  type Messages = map<Id, real>

  const BATCH_SIZE: nat := 1000

  function Stale(messages: Messages, cutoff: real): set<Id> {
    set id | id in messages && messages[id] < cutoff
  }

  /** The messages that one single delete of everything before the cutoff leaves. */
  function Surviving(messages: Messages, cutoff: real): Messages {
    map id | id in messages && messages[id] >= cutoff :: messages[id]
  }

  /** A choice of rows the limited subquery may make. */
  ghost predicate IsBatch(messages: Messages, cutoff: real, batch: set<Id>) {
    && batch <= Stale(messages, cutoff)
    && |batch| == if |Stale(messages, cutoff)| < BATCH_SIZE then |Stale(messages, cutoff)| else BATCH_SIZE
  }

  /** A short batch takes everything that is stale. */
  lemma ShortBatchTakesAll(messages: Messages, cutoff: real, batch: set<Id>)
    requires IsBatch(messages, cutoff, batch) && |batch| < BATCH_SIZE
    ensures batch == Stale(messages, cutoff)
    ensures Stale(messages - batch, cutoff) == {}
  {
    SubsetOfSameSize(batch, Stale(messages, cutoff));
  }

  lemma SubsetOfSameSize<T>(a: set<T>, b: set<T>)
    requires a <= b && |a| == |b|
    ensures a == b
  {
    if a != b {
      var x :| x in b && x !in a;
      SubsetSize(a, b - {x});
    }
  }

  /** `left` is `all` less some messages from before the cutoff. */
  ghost predicate Abridges(left: Messages, all: Messages, cutoff: real) {
    && left.Keys <= all.Keys
    && (forall id :: id in left ==> left[id] == all[id])
    && (forall id :: id in all && id !in left ==> all[id] < cutoff)
  }

  lemma AbridgedIsSurviving(left: Messages, all: Messages, cutoff: real)
    requires Abridges(left, all, cutoff) && Stale(left, cutoff) == {}
    ensures left == Surviving(all, cutoff)
  {
    assert forall id :: id in left ==> id !in Stale(left, cutoff);
  }

  class MessageStore {
    var messages: Messages

    constructor (messages: Messages)
      ensures this.messages == messages
    {
      this.messages := messages;
    }

    /** An arbitrary batch of stale rows. */
    method SelectBatch(cutoff: real) returns (batch: set<Id>)
      ensures IsBatch(messages, cutoff, batch) && |batch| <= 1000
      ensures |batch| < 1000 ==> batch == Stale(messages, cutoff)
    {
      batch := {};
      var rest := Stale(messages, cutoff);
      while rest != {} && |batch| < BATCH_SIZE
        invariant batch + rest == Stale(messages, cutoff) && batch !! rest
        invariant |batch| <= BATCH_SIZE
        decreases rest
      {
        var id :| id in rest;
        batch, rest := batch + {id}, rest - {id};
      }
      assert |Stale(messages, cutoff)| == |batch| + |rest|;
      assert rest == {} ==> batch == Stale(messages, cutoff);
    }

    /** With cutoffs that do not go back from one batch to the next and no one else writing, the
        loop ends, leaves exactly what one delete with the last cutoff leaves, and returns the
        number of rows removed. */
    method CleanupOldMessages(cutoffs: nat -> real) returns (total: nat, ghost batches: nat)
      requires forall i, j :: 0 <= i <= j ==> cutoffs(i) <= cutoffs(j)
      modifies this
      ensures 1 <= batches
      ensures messages == Surviving(old(messages), cutoffs(batches - 1))
      ensures total + |messages| == |old(messages)|
      ensures total == |Stale(old(messages), cutoffs(batches - 1))|
    {
      total := 0;
      var i := 0;
      while true
        invariant Abridges(messages, old(messages), if i == 0 then cutoffs(0) else cutoffs(i - 1))
        invariant total + |messages| == |old(messages)|
        decreases |messages|
      {
        var cutoff := cutoffs(i);
        var batch := SelectBatch(cutoff);
        ghost var before := messages;
        messages := messages - batch;
        DeleteCounts(before, batch);
        assert Abridges(messages, old(messages), cutoff);
        total := total + |batch|;
        i := i + 1;
        if |batch| < BATCH_SIZE {
          ShortBatchTakesAll(before, cutoff, batch);
          AbridgedIsSurviving(messages, old(messages), cutoff);
          break;
        }
      }
      batches := i;
      SurvivorsAndStale(old(messages), cutoffs(i - 1));
    }
  }

  lemma DeleteCounts(messages: Messages, batch: set<Id>)
    requires batch <= messages.Keys
    ensures |messages - batch| + |batch| == |messages|
  {
    assert (messages - batch).Keys == messages.Keys - batch;
    assert messages.Keys == (messages.Keys - batch) + batch;
  }

  lemma ArrivalCounts(messages: Messages, arrived: Messages)
    requires arrived.Keys !! messages.Keys
    ensures |messages + arrived| == |messages| + |arrived|
  {
    assert (messages + arrived).Keys == messages.Keys + arrived.Keys;
  }

  lemma SurvivorsAndStale(messages: Messages, cutoff: real)
    ensures |Surviving(messages, cutoff)| + |Stale(messages, cutoff)| == |messages|
  {
    assert Surviving(messages, cutoff) == messages - Stale(messages, cutoff);
    DeleteCounts(messages, Stale(messages, cutoff));
  }

  /// Messages arriving while the loop runs

  /** One round of the loop: the messages that arrived since the round before, the cutoff, and
      the rows deleted. */
  datatype Round = Round(arrived: Messages, cutoff: real, batch: set<Id>)

  function AfterRounds(messages: Messages, rounds: seq<Round>): Messages {
    if rounds == [] then messages
    else
      var r := rounds[|rounds| - 1];
      AfterRounds(messages, rounds[..|rounds| - 1]) + r.arrived - r.batch
  }

  /** All messages there were when the rounds are over, had none been deleted. */
  function Everything(messages: Messages, rounds: seq<Round>): Messages {
    if rounds == [] then messages
    else Everything(messages, rounds[..|rounds| - 1]) + rounds[|rounds| - 1].arrived
  }

  /** A run of the loop: fresh identifiers, nondecreasing cutoffs, full batches before the last. */
  ghost predicate IsRun(messages: Messages, rounds: seq<Round>) {
    rounds == [] ||
      var before, r := rounds[..|rounds| - 1], rounds[|rounds| - 1];
      && IsRun(messages, before)
      && r.arrived.Keys !! Everything(messages, before).Keys
      && IsBatch(AfterRounds(messages, before) + r.arrived, r.cutoff, r.batch)
      && (before != [] ==> before[|before| - 1].cutoff <= r.cutoff && |before[|before| - 1].batch| == BATCH_SIZE)
  }

  lemma {:induction false} RoundsDeleteStale(messages: Messages, rounds: seq<Round>)
    requires IsRun(messages, rounds)
    ensures Abridges(AfterRounds(messages, rounds), Everything(messages, rounds),
                     if rounds == [] then 0.0 else rounds[|rounds| - 1].cutoff)
  {
    if rounds != [] {
      RoundsDeleteStale(messages, rounds[..|rounds| - 1]);
    }
  }

  /** When the loop stops at a short batch, exactly the messages at or after the last cutoff are
      left, of those there from the start and of all that arrived meanwhile. */
  lemma ShortBatchEndsClean(messages: Messages, rounds: seq<Round>)
    requires IsRun(messages, rounds) && rounds != [] && |rounds[|rounds| - 1].batch| < BATCH_SIZE
    ensures AfterRounds(messages, rounds) == Surviving(Everything(messages, rounds), rounds[|rounds| - 1].cutoff)
  {
    var before, r := rounds[..|rounds| - 1], rounds[|rounds| - 1];
    RoundsDeleteStale(messages, rounds);
    ShortBatchTakesAll(AfterRounds(messages, before) + r.arrived, r.cutoff, r.batch);
    AbridgedIsSurviving(AfterRounds(messages, rounds), Everything(messages, rounds), r.cutoff);
  }

  function Total(rounds: seq<Round>): nat {
    if rounds == [] then 0 else Total(rounds[..|rounds| - 1]) + |rounds[|rounds| - 1].batch|
  }

  /** The number returned is the number of messages removed, whatever arrived meanwhile. */
  lemma {:induction false} TotalIsWhatIsGone(messages: Messages, rounds: seq<Round>)
    requires IsRun(messages, rounds)
    ensures Total(rounds) + |AfterRounds(messages, rounds)| == |Everything(messages, rounds)|
  {
    if rounds != [] {
      var before, r := rounds[..|rounds| - 1], rounds[|rounds| - 1];
      TotalIsWhatIsGone(messages, before);
      RoundsDeleteStale(messages, before);
      ArrivalCounts(Everything(messages, before), r.arrived);
      ArrivalCounts(AfterRounds(messages, before), r.arrived);
      DeleteCounts(AfterRounds(messages, before) + r.arrived, r.batch);
    }
  }
}
