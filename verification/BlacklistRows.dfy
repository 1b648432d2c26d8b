/**
 The blacklist table: its rows, its active projection, the updates administrators make, and
 the matching of a sender.
 */
module BlacklistRows {
  import opened Wrappers
  import opened Text

  /** The time to live of the cached list, in seconds. */
  const CACHE_TTL := 60.0

  type Id = nat

  datatype BlockType = Hard | Soft

  datatype Row = Row(pattern: string, blockType: BlockType, reason: Option<string>, blockedCount: nat, active: bool)

  type Table = map<Id, Row>

  /** What the check sees of an active row. */
  datatype Entry = Entry(id: Id, pattern: string, blockType: BlockType)

  /** `e` is the projection of an active row. */
  predicate Listed(table: Table, e: Entry) {
    e.id in table && table[e.id].active && table[e.id].pattern == e.pattern && table[e.id].blockType == e.blockType
  }

  /** `entries` is the active projection of the table, each row once, in some order. */
  ghost predicate Enumerates(entries: seq<Entry>, table: Table) {
    && (forall e :: e in entries <==> Listed(table, e))
    && (forall i, j :: 0 <= i < j < |entries| ==> entries[i].id != entries[j].id)
  }

  /** The active rows look the same in both tables. */
  ghost predicate SameProjection(a: Table, b: Table) {
    forall e :: Listed(a, e) <==> Listed(b, e)
  }

  /** Patterns are unique in the table. */
  ghost predicate UniquePatterns(table: Table) {
    forall a, b :: a in table && b in table && table[a].pattern == table[b].pattern ==> a == b
  }

  predicate HasPattern(table: Table, pattern: string) {
    exists id :: id in table && table[id].pattern == pattern
  }

  /// Changes

  datatype NewEntry = NewEntry(pattern: string, blockType: BlockType, reason: Option<string>)

  function Inserted(data: NewEntry): (r: Row)
    ensures r.pattern == data.pattern && r.blockType == data.blockType && r.reason == data.reason
    ensures r.active && r.blockedCount == 0
  {
    Row(data.pattern, data.blockType, data.reason, 0, true)
  }

  datatype Update = Update(
    pattern: FieldUpdate<string>, blockType: FieldUpdate<BlockType>,
    reason: FieldUpdate<string>, active: FieldUpdate<bool>)

  /** The row after a partial update.  The block count is not among the fields. */
  function Updated(row: Row, u: Update): (r: Row)
    ensures r.blockedCount == row.blockedCount
    ensures u.pattern.Unset? ==> r.pattern == row.pattern
    ensures u.blockType.Unset? ==> r.blockType == row.blockType
    ensures u.reason.Unset? ==> r.reason == row.reason
    ensures u.active.Unset? ==> r.active == row.active
    ensures (u.pattern.Set? ==> u.pattern.value == r.pattern) && (u.blockType.Set? ==> u.blockType.value == r.blockType)
    ensures (u.reason.Set? ==> Some(u.reason.value) == r.reason) && (u.active.Set? ==> u.active.value == r.active)
    ensures u.reason.Null? ==> r.reason == None
  {
    Row(Chosen(u.pattern, row.pattern),
        Chosen(u.blockType, row.blockType),
        ChosenOrNull(u.reason, row.reason),
        row.blockedCount,
        Chosen(u.active, row.active))
  }

  datatype Change =
    | Insert(id: Id, data: NewEntry)
    | Patch(id: Id, update: Update)
    | Remove(id: Id)

  function Changed(table: Table, change: Change): Table {
    match change
    case Insert(id, data) => table[id := Inserted(data)]
    case Patch(id, update) => if id in table then table[id := Updated(table[id], update)] else table
    case Remove(id) => table - {id}
  }

  /** Whether the columns that must hold a value do, and the pattern stays unique. */
  predicate Acceptable(table: Table, id: Id, u: Update)
    requires id in table
  {
    && !u.pattern.Null? && !u.blockType.Null? && !u.active.Null?
    && forall other :: other in table && other != id ==> table[other].pattern != Updated(table[id], u).pattern
  }

  /** The update that counts one blocked message on a row, if the row is still there. */
  function Charged(table: Table, id: Id): Table {
    if id in table then table[id := table[id].(blockedCount := table[id].blockedCount + 1)] else table
  }

  lemma ChargeKeepsProjection(table: Table, id: Id, entries: seq<Entry>)
    ensures Enumerates(entries, Charged(table, id)) <==> Enumerates(entries, table)
    ensures SameProjection(Charged(table, id), table)
    ensures UniquePatterns(table) ==> UniquePatterns(Charged(table, id))
  {
    assert forall e :: Listed(Charged(table, id), e) <==> Listed(table, e);
  }

  /// Matching

  /** Shell-style matching of a text against a pattern. */
  type Glob = (string, string) -> bool

  function SenderDomain(sender: string): string {
    AfterLastAt(Lower(sender))
  }

  predicate Matches(pattern: string, sender: string, glob: Glob) {
    var p := Lower(pattern);
    glob(Lower(sender), p) || glob(SenderDomain(sender), p) || Lower(sender) == p || SenderDomain(sender) == p
  }

  /** The first entry of a list that matches. */
  function FirstMatch(entries: seq<Entry>, sender: string, glob: Glob): (m: Option<Entry>)
    ensures m.Some? ==> m.value in entries && Matches(m.value.pattern, sender, glob)
    ensures m.None? ==> forall e :: e in entries ==> !Matches(e.pattern, sender, glob)
  {
    if entries == [] then None
    else if Matches(entries[0].pattern, sender, glob) then Some(entries[0])
    else FirstMatch(entries[1..], sender, glob)
  }

  /** Some active row of the table matches the sender. */
  ghost predicate Blocks(table: Table, sender: string, glob: Glob) {
    exists id :: id in table && table[id].active && Matches(table[id].pattern, sender, glob)
  }

  /** An active row of this type matched the sender, and the message was counted on that row and
      no other. */
  ghost predicate BlockedAs(before: Table, after: Table, sender: string, glob: Glob, blockType: BlockType) {
    exists id :: id in before && before[id].active && Matches(before[id].pattern, sender, glob)
                 && before[id].blockType == blockType && after == Charged(before, id)
  }

  /** A check on any enumeration of the active rows finds an entry exactly when some active row
      matches, and what it finds is the projection of such a row. */
  lemma CheckDecidesBlocks(entries: seq<Entry>, table: Table, sender: string, glob: Glob)
    requires Enumerates(entries, table)
    ensures FirstMatch(entries, sender, glob).Some? <==> Blocks(table, sender, glob)
    ensures FirstMatch(entries, sender, glob).Some? ==> Listed(table, FirstMatch(entries, sender, glob).value)
  {
    if Blocks(table, sender, glob) {
      var id :| id in table && table[id].active && Matches(table[id].pattern, sender, glob);
      assert Listed(table, Entry(id, table[id].pattern, table[id].blockType));
    }
  }

  /// What a match is

  /** A pattern matches an address exactly when, in lower case, it is the address or its domain, or
      the glob takes one of these two. */
  lemma MatchesAddress(pattern: string, local: string, domain: string, glob: Glob)
    requires '@' !in domain
    ensures var p, address := Lower(pattern), Lower(local) + "@" + Lower(domain);
            Matches(pattern, local + "@" + domain, glob) <==>
            p == address || p == Lower(domain) || glob(address, p) || glob(Lower(domain), p)
  {
    LowerAddress(local, domain);
  }

  /** A sender without `@` is its own domain. */
  lemma MatchesPlain(pattern: string, sender: string, glob: Glob)
    requires '@' !in sender
    ensures Matches(pattern, sender, glob) <==>
            Lower(pattern) == Lower(sender) || glob(Lower(sender), Lower(pattern))
  {
    LowerKeepsAt(sender);
  }

  /** The case of sender and pattern does not matter. */
  lemma MatchesIgnoresCase(pattern: string, sender: string, glob: Glob)
    ensures Matches(Lower(pattern), Lower(sender), glob) <==> Matches(pattern, sender, glob)
  {
    LowerTwice(pattern);
    LowerTwice(sender);
  }

  /** A sender of a domain is blocked exactly when some active row has as its pattern, in lower case,
      the sender's address or its domain, or one that the glob takes for one of these. */
  lemma BlocksAddress(table: Table, local: string, domain: string, glob: Glob)
    requires '@' !in domain
    ensures Blocks(table, local + "@" + domain, glob) <==>
            exists id :: id in table && table[id].active
              && var p, address := Lower(table[id].pattern), Lower(local) + "@" + Lower(domain);
                 p == address || p == Lower(domain) || glob(address, p) || glob(Lower(domain), p)
  {
    forall id | id in table
      ensures var p, address := Lower(table[id].pattern), Lower(local) + "@" + Lower(domain);
              Matches(table[id].pattern, local + "@" + domain, glob) <==>
              p == address || p == Lower(domain) || glob(address, p) || glob(Lower(domain), p)
    {
      MatchesAddress(table[id].pattern, local, domain, glob);
    }
  }

  /** And a sender without `@` exactly when some active row has the sender as its pattern, in lower
      case, or one that the glob takes for it. */
  lemma BlocksPlain(table: Table, sender: string, glob: Glob)
    requires '@' !in sender
    ensures Blocks(table, sender, glob) <==>
            exists id :: id in table && table[id].active
              && (Lower(table[id].pattern) == Lower(sender) || glob(Lower(sender), Lower(table[id].pattern)))
  {
    forall id | id in table
      ensures Matches(table[id].pattern, sender, glob) <==>
              Lower(table[id].pattern) == Lower(sender) || glob(Lower(sender), Lower(table[id].pattern))
    {
      MatchesPlain(table[id].pattern, sender, glob);
    }
  }

  /** So a pattern that is a domain blocks everyone there, whatever the glob does. */
  lemma DomainPatternBlocks(table: Table, id: Id, local: string, domain: string, glob: Glob)
    requires '@' !in domain && id in table && table[id].active && Lower(table[id].pattern) == Lower(domain)
    ensures Blocks(table, local + "@" + domain, glob)
  {
    BlocksAddress(table, local, domain, glob);
  }

  /** The verdict does not depend on the case of the sender or of the patterns. */
  lemma BlocksIgnoresCase(a: Table, b: Table, sender: string, glob: Glob)
    requires a.Keys == b.Keys
    requires forall id :: id in a ==> a[id].active == b[id].active && Lower(a[id].pattern) == Lower(b[id].pattern)
    ensures Blocks(a, sender, glob) <==> Blocks(b, Lower(sender), glob)
  {
    forall id | id in a
      ensures Matches(a[id].pattern, sender, glob) <==> Matches(b[id].pattern, Lower(sender), glob)
    {
      MatchesIgnoresCase(a[id].pattern, sender, glob);
      MatchesIgnoresCase(b[id].pattern, Lower(sender), glob);
      LowerTwice(sender);
    }
  }
}
