/**
 The blacklist service, one operation at a time: the table with its cache in front of it.
 */
module Blacklist {
  import opened Wrappers
  import opened BlacklistRows

  datatype Error = NotFound | IntegrityError

  datatype CachedList = CachedList(entries: seq<Entry>, deadline: real)

  datatype Info = Info(id: Id, data: NewEntry)

  /// Bulk import, as a function of the table and the list

  /** The i-th pattern of the list is new: not in the table, and not earlier in the list. */
  ghost predicate IsFirst(table: Table, data: seq<NewEntry>, i: nat)
    requires i < |data|
  {
    && !HasPattern(table, data[i].pattern)
    && forall j :: 0 <= j < i ==> data[j].pattern != data[i].pattern
  }

  /** The new ones among the first n, in order. */
  ghost function FirstNew(table: Table, data: seq<NewEntry>, n: nat): seq<NewEntry>
    requires n <= |data|
  {
    if n == 0 then []
    else FirstNew(table, data, n - 1) + if IsFirst(table, data, n - 1) then [data[n - 1]] else []
  }

  /** The table with rows for `news` added under the identifiers from `start` on. */
  function WithNew(table: Table, start: Id, news: seq<NewEntry>): Table {
    if news == [] then table
    else WithNew(table, start, news[..|news| - 1])[start + |news| - 1 := Inserted(news[|news| - 1])]
  }

  lemma {:induction false} WithNewRows(table: Table, start: Id, news: seq<NewEntry>)
    requires forall id :: id in table ==> id < start
    ensures var t := WithNew(table, start, news);
            && (forall id :: id in t <==> id in table || start <= id < start + |news|)
            && (forall id :: id in table ==> t[id] == table[id])
            && (forall id :: start <= id < start + |news| ==> t[id] == Inserted(news[id - start]))
  {
    if news != [] {
      WithNewRows(table, start, news[..|news| - 1]);
    }
  }

  lemma WithNewPatterns(table: Table, start: Id, news: seq<NewEntry>, pattern: string)
    requires forall id :: id in table ==> id < start
    ensures HasPattern(WithNew(table, start, news), pattern) <==>
            HasPattern(table, pattern) || Mentions(news, pattern)
  {
    WithNewRows(table, start, news);
    var t := WithNew(table, start, news);
    if HasPattern(table, pattern) {
      var id :| id in table && table[id].pattern == pattern;
      assert id in t && t[id].pattern == pattern;
    }
    if k :| 0 <= k < |news| && news[k].pattern == pattern {
      assert start + k in t && t[start + k] == Inserted(news[k]);
    }
    if HasPattern(t, pattern) {
      var id :| id in t && t[id].pattern == pattern;
      if id !in table {
        assert t[id] == Inserted(news[id - start]);
      }
    }
  }

  lemma {:induction false} FirstNewPatterns(table: Table, data: seq<NewEntry>, n: nat, pattern: string)
    requires n <= |data|
    ensures Mentions(FirstNew(table, data, n), pattern) <==>
            !HasPattern(table, pattern) && Mentions(data[..n], pattern)
  {
    if n > 0 {
      FirstNewPatterns(table, data, n - 1, pattern);
      var before, last := FirstNew(table, data, n - 1), data[n - 1];
      assert data[..n] == data[..n - 1] + [last];
      MentionsAppend(data[..n - 1], last, pattern);
      MentionsAppend(before, last, pattern);
      assert IsFirst(table, data, n - 1) <==>
             !HasPattern(table, last.pattern) && !Mentions(data[..n - 1], last.pattern);
      assert FirstNew(table, data, n) == if IsFirst(table, data, n - 1) then before + [last] else before;
    }
  }

  /** The table lacks the pattern of entry i, and no earlier entry has it. */
  ghost predicate FirstOfPattern(table: Table, data: seq<NewEntry>, i: nat)
    requires i < |data|
  {
    && (forall id :: id in table ==> table[id].pattern != data[i].pattern)
    && (forall j :: 0 <= j < i ==> data[j].pattern != data[i].pattern)
  }

  /** These are the places, in order, of the first entries among the first n, and `news` what is there. */
  ghost predicate Places(news: seq<NewEntry>, table: Table, data: seq<NewEntry>, n: nat, places: seq<nat>)
    requires n <= |data|
  {
    && |places| == |news|
    && (forall k :: 0 <= k < |places| ==> places[k] < n && news[k] == data[places[k]])
    && (forall k :: 0 <= k < |places| ==> FirstOfPattern(table, data, places[k]))
    && (forall k, l :: 0 <= k < l < |places| ==> places[k] < places[l])
    && (forall i :: 0 <= i < n && FirstOfPattern(table, data, i) ==> i in places)
  }

  lemma OneMorePlace(news: seq<NewEntry>, table: Table, data: seq<NewEntry>, n: nat, places: seq<nat>)
    requires n < |data| && Places(news, table, data, n, places) && FirstOfPattern(table, data, n)
    ensures Places(news + [data[n]], table, data, n + 1, places + [n])
  {
    var longer := places + [n];
    forall i | 0 <= i < n + 1 && FirstOfPattern(table, data, i)
      ensures i in longer
    {
      if i == n {
        assert longer[|places|] == n;
      }
    }
  }

  /** An import adds the first entry of each pattern that the table lacks, in the order of the list. */
  lemma {:induction false} FirstNewPlaces(table: Table, data: seq<NewEntry>, n: nat) returns (places: seq<nat>)
    requires n <= |data|
    ensures Places(FirstNew(table, data, n), table, data, n, places)
  {
    if n == 0 {
      places := [];
    } else {
      var earlier := FirstNewPlaces(table, data, n - 1);
      places := NextPlaces(FirstNew(table, data, n - 1), table, data, n - 1, earlier);
      FirstNewLast(table, data, n);
    }
  }

  lemma NextPlaces(news: seq<NewEntry>, table: Table, data: seq<NewEntry>, n: nat, places: seq<nat>)
      returns (next: seq<nat>)
    requires n < |data| && Places(news, table, data, n, places)
    ensures FirstOfPattern(table, data, n) ==> Places(news + [data[n]], table, data, n + 1, next)
    ensures !FirstOfPattern(table, data, n) ==> Places(news, table, data, n + 1, next)
  {
    if FirstOfPattern(table, data, n) {
      OneMorePlace(news, table, data, n, places);
      next := places + [n];
    } else {
      NoMorePlace(news, table, data, n, places);
      next := places;
    }
  }

  lemma NoMorePlace(news: seq<NewEntry>, table: Table, data: seq<NewEntry>, n: nat, places: seq<nat>)
    requires n < |data| && Places(news, table, data, n, places) && !FirstOfPattern(table, data, n)
    ensures Places(news, table, data, n + 1, places)
  {
  }

  lemma FirstNewLast(table: Table, data: seq<NewEntry>, n: nat)
    requires 0 < n <= |data|
    ensures FirstNew(table, data, n) ==
            if FirstOfPattern(table, data, n - 1) then FirstNew(table, data, n - 1) + [data[n - 1]]
            else FirstNew(table, data, n - 1)
  {
    assert IsFirst(table, data, n - 1) <==> FirstOfPattern(table, data, n - 1);
  }

  /** Some entry of the list has this pattern. */
  predicate Mentions(data: seq<NewEntry>, pattern: string) {
    exists i :: 0 <= i < |data| && data[i].pattern == pattern
  }

  lemma MentionsAppend(data: seq<NewEntry>, last: NewEntry, pattern: string)
    ensures Mentions(data + [last], pattern) <==> Mentions(data, pattern) || last.pattern == pattern
  {
    if i :| 0 <= i < |data| && data[i].pattern == pattern {
      assert (data + [last])[i].pattern == pattern;
    }
    assert (data + [last])[|data|] == last;
  }

  /** After an import the table has the patterns it had and those of the list, and no others. */
  lemma ImportUnitesPatterns(table: Table, start: Id, data: seq<NewEntry>, pattern: string)
    requires forall id :: id in table ==> id < start
    ensures HasPattern(WithNew(table, start, FirstNew(table, data, |data|)), pattern) <==>
            HasPattern(table, pattern) || Mentions(data, pattern)
  {
    assert data[..|data|] == data;
    FirstNewPatterns(table, data, |data|, pattern);
    WithNewPatterns(table, start, FirstNew(table, data, |data|), pattern);
  }

  lemma {:induction false} NothingNew(table: Table, data: seq<NewEntry>, n: nat)
    requires n <= |data|
    requires forall i :: 0 <= i < n ==> HasPattern(table, data[i].pattern)
    ensures FirstNew(table, data, n) == []
  {
    if n > 0 {
      NothingNew(table, data, n - 1);
    }
  }

  /** Importing the same list again adds nothing. */
  lemma ImportIsIdempotent(table: Table, start: Id, data: seq<NewEntry>)
    requires forall id :: id in table ==> id < start
    ensures FirstNew(WithNew(table, start, FirstNew(table, data, |data|)), data, |data|) == []
  {
    var t := WithNew(table, start, FirstNew(table, data, |data|));
    forall i | 0 <= i < |data|
      ensures HasPattern(t, data[i].pattern)
    {
      assert Mentions(data, data[i].pattern);
      ImportUnitesPatterns(table, start, data, data[i].pattern);
    }
    NothingNew(t, data, |data|);
  }

  /** What the i-th round of an import finds and does. */
  lemma ImportStep(table: Table, start: Id, data: seq<NewEntry>, i: nat)
    requires i < |data| && forall id :: id in table ==> id < start
    ensures var before, after := FirstNew(table, data, i), FirstNew(table, data, i + 1);
            var rows := WithNew(table, start, before);
            && (HasPattern(rows, data[i].pattern) ==> after == before)
            && (!HasPattern(rows, data[i].pattern) ==>
                  && after == before + [data[i]]
                  && WithNew(table, start, after) == rows[start + |before| := Inserted(data[i])])
  {
    var before := FirstNew(table, data, i);
    FirstNewPatterns(table, data, i, data[i].pattern);
    WithNewPatterns(table, start, before, data[i].pattern);
    assert IsFirst(table, data, i) <==> !HasPattern(table, data[i].pattern) && !Mentions(data[..i], data[i].pattern);
    assert HasPattern(WithNew(table, start, before), data[i].pattern) <==> !IsFirst(table, data, i);
    assert (before + [data[i]])[..|before|] == before;
  }

  /** A new row with these fields, active and never used; all others as they were. */
  ghost predicate Adds(before: Table, after: Table, id: Id, data: NewEntry) {
    && id !in before && after.Keys == before.Keys + {id}
    && after[id] == Row(data.pattern, data.blockType, data.reason, 0, true)
    && forall other :: other in before ==> after[other] == before[other]
  }

  /** The rows reported are there with the fields of their entries; all others are as they were. */
  ghost predicate Imports(before: Table, after: Table, results: seq<Info>) {
    && (forall k :: 0 <= k < |results| ==>
          var Info(id, data) := results[k];
          && id !in before && id in after
          && after[id] == Row(data.pattern, data.blockType, data.reason, 0, true))
    && (forall id :: id in after <==> id in before || exists k :: 0 <= k < |results| && results[k].id == id)
    && (forall id :: id in before ==> after[id] == before[id])
  }

  lemma WithNewImports(table: Table, start: Id, news: seq<NewEntry>, results: seq<Info>)
    requires forall id :: id in table ==> id < start
    requires |results| == |news| && forall k :: 0 <= k < |news| ==> results[k] == Info(start + k, news[k])
    ensures Imports(table, WithNew(table, start, news), results)
  {
    WithNewRows(table, start, news);
    var after := WithNew(table, start, news);
    forall k | 0 <= k < |results|
      ensures results[k].id !in table && results[k].id in after
      ensures after[results[k].id] == Inserted(results[k].data)
    {
      var id := start + k;
      assert results[k].id == id && news[id - start] == results[k].data;
    }
    forall id | id in after && id !in table
      ensures exists k :: 0 <= k < |results| && results[k].id == id
    {
      assert results[id - start].id == id;
    }
  }

  /// The service

  class Blacklist {
    var rows: Table
    var cache: Option<CachedList>
    /** Stands for the source of fresh identifiers. */
    var nextId: Id
    /** Whether a cache is used at all. */
    const cached: bool

    /** The cache, whether it has expired or not, never disagrees with the table. */
    ghost predicate Valid()
      reads this
    {
      && (forall id :: id in rows ==> id < nextId)
      && UniquePatterns(rows)
      && (cache.Some? ==> cached && Enumerates(cache.value.entries, rows))
    }

    constructor (cached: bool)
      ensures Valid() && rows == map[] && this.cached == cached
    {
      this.cached := cached;
      rows, cache, nextId := map[], None, 0;
    }

    /** The active rows in any order. */
    method SelectActive() returns (entries: seq<Entry>)
      ensures Enumerates(entries, rows)
    {
      entries := [];
      var todo := rows.Keys;
      while todo != {}
        invariant todo <= rows.Keys
        invariant forall e :: e in entries <==> Listed(rows, e) && e.id !in todo
        invariant forall i, j :: 0 <= i < j < |entries| ==> entries[i].id != entries[j].id
        decreases todo
      {
        var id :| id in todo;
        todo := todo - {id};
        if rows[id].active {
          forall i | 0 <= i < |entries|
            ensures entries[i].id != id
          {
            assert entries[i] in entries;
          }
          entries := entries + [Entry(id, rows[id].pattern, rows[id].blockType)];
        }
      }
    }

    method InvalidateCache()
      modifies this`cache
      ensures cache == if cached then None else old(cache)
    {
      if cached {
        cache := None;
      }
    }

    method GetCachedBlacklist(at: real) returns (entries: seq<Entry>)
      requires Valid()
      modifies this`cache
      ensures Valid()
      ensures Enumerates(entries, rows)
      ensures var hit := cached && old(cache).Some? && at < old(cache).value.deadline;
              && (hit ==> entries == old(cache).value.entries)
              && cache == if cached && !hit then Some(CachedList(entries, at + 60.0)) else old(cache)
    {
      if cached && cache.Some? && at < cache.value.deadline {
        return cache.value.entries;
      }
      entries := SelectActive();
      if cached {
        cache := Some(CachedList(entries, at + CACHE_TTL));
      }
    }

    method AddEntry(data: NewEntry) returns (r: Result<Info, Error>)
      requires Valid()
      modifies this`rows, this`cache, this`nextId
      ensures Valid()
      ensures HasPattern(old(rows), data.pattern) ==>
                r == Failure(IntegrityError) && rows == old(rows) && nextId == old(nextId) && cache == old(cache)
      ensures !HasPattern(old(rows), data.pattern) ==>
                && r == Success(Info(old(nextId), data))
                && rows == Changed(old(rows), Insert(old(nextId), data)) && nextId == old(nextId) + 1
                && (cached ==> cache == None)
                && Adds(old(rows), rows, r.value.id, data)
    {
      if HasPattern(rows, data.pattern) {
        return Failure(IntegrityError);
      }
      rows := rows[nextId := Inserted(data)];
      nextId := nextId + 1;
      InvalidateCache();
      assert Adds(old(rows), rows, nextId - 1, data);
      return Success(Info(nextId - 1, data));
    }

    method DeleteEntry(id: Id) returns (found: bool)
      requires Valid()
      modifies this`rows, this`cache
      ensures Valid()
      ensures found <==> id in old(rows)
      ensures rows == Changed(old(rows), Remove(id))
      ensures rows.Keys == old(rows).Keys - {id} && forall other :: other in rows ==> rows[other] == old(rows)[other]
      ensures cache == if found && cached then None else old(cache)
    {
      if id !in rows {
        assert rows - {id} == rows;
        return false;
      }
      rows := rows - {id};
      InvalidateCache();
      return true;
    }

    method UpdateEntry(id: Id, u: Update) returns (r: Result<Row, Error>)
      requires Valid()
      modifies this`rows, this`cache
      ensures Valid()
      ensures id !in old(rows) <==> r == Failure(NotFound)
      ensures r.Success? <==>
                && id in old(rows) && !u.pattern.Null? && !u.blockType.Null? && !u.active.Null?
                && (u.pattern.Set? ==>
                     forall other :: other in old(rows) && other != id ==> old(rows)[other].pattern != u.pattern.value)
      ensures r.Success? ==> rows == old(rows)[id := r.value]
      ensures r.Success? ==> r.value == Updated(old(rows)[id], u) && rows == Changed(old(rows), Patch(id, u))
      ensures r.Failure? ==> rows == old(rows)
      ensures cache == if r.Success? && cached then None else old(cache)
    {
      if id !in rows {
        return Failure(NotFound);
      }
      if !Acceptable(rows, id, u) {
        return Failure(IntegrityError);
      }
      rows := rows[id := Updated(rows[id], u)];
      InvalidateCache();
      return Success(rows[id]);
    }

    /** Adds the first occurrence of every pattern the table lacks, in the order of the list. */
    method ImportEntries(data: seq<NewEntry>) returns (results: seq<Info>)
      requires Valid()
      modifies this`rows, this`cache, this`nextId
      ensures Valid()
      ensures var news := FirstNew(old(rows), data, |data|);
              && |results| == |news|
              && (forall k :: 0 <= k < |news| ==> results[k] == Info(old(nextId) + k, news[k]))
              && rows == WithNew(old(rows), old(nextId), news)
      ensures Imports(old(rows), rows, results)
    {
      results := [];
      ghost var news: seq<NewEntry> := [];
      for i := 0 to |data|
        invariant Valid()
        invariant news == FirstNew(old(rows), data, i)
        invariant |results| == |news|
        invariant forall k :: 0 <= k < |results| ==> results[k] == Info(old(nextId) + k, news[k])
        invariant rows == WithNew(old(rows), old(nextId), news)
        invariant nextId == old(nextId) + |results|
      {
        ImportStep(old(rows), old(nextId), data, i);
        if HasPattern(rows, data[i].pattern) {
          continue;
        }
        var added := AddEntry(data[i]);
        results := results + [added.value];
        news := news + [data[i]];
      }
      WithNewImports(old(rows), old(nextId), news, results);
    }

    /** With or without a cache, and whether the cached list has expired or not: a sender gets a
        block type exactly when an active row matches it, the type is that of such a row, and this
        row alone is charged. */
    method CheckBlacklist(sender: string, glob: Glob, at: real) returns (blocked: Option<BlockType>)
      requires Valid()
      modifies this`rows, this`cache
      ensures Valid()
      ensures blocked.Some? <==> Blocks(old(rows), sender, glob)
      ensures blocked.None? ==> rows == old(rows)
      ensures blocked.Some? ==> BlockedAs(old(rows), rows, sender, glob, blocked.value)
    {
      var entries := GetCachedBlacklist(at);
      for i := 0 to |entries|
        invariant Valid() && rows == old(rows) && Enumerates(entries, rows)
        invariant forall j :: 0 <= j < i ==> !Matches(entries[j].pattern, sender, glob)
      {
        if Matches(entries[i].pattern, sender, glob) {
          assert Listed(rows, entries[i]);
          ChargeKeepsProjection(rows, entries[i].id, if cache.Some? then cache.value.entries else []);
          rows := Charged(rows, entries[i].id);
          return Some(entries[i].blockType);
        }
      }
      forall id | id in rows && rows[id].active
        ensures !Matches(rows[id].pattern, sender, glob)
      {
        assert Listed(rows, Entry(id, rows[id].pattern, rows[id].blockType));
      }
      return None;
    }
  }
}
