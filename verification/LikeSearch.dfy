/**
 Message search: the escaping of search terms, the LIKE operator the escaped terms are given to
 (section 9.7.1 of the PostgreSQL documentation), and the rows a query selects.
 */
module LikeSearch {
  import opened Wrappers

  const BACKSLASH := '\\'

  predicate Special(c: char) {
    c == BACKSLASH || c == '%' || c == '_'
  }

  /// The LIKE operator

  /** Whether the pattern matches all of the text: `%` any run of characters, `_` any one
      character, a backslash makes the next character stand for itself.  A pattern that ends in
      a lone backslash is an error in the database; here it matches nothing, and no escaped
      pattern is of this kind. */
  predicate Like(text: string, pattern: string)
    decreases |pattern|, |text|
  {
    if pattern == [] then text == []
    else if pattern[0] == '%' then
      Like(text, pattern[1..]) || (text != [] && Like(text[1..], pattern))
    else if pattern[0] == '_' then
      text != [] && Like(text[1..], pattern[1..])
    else if pattern[0] == BACKSLASH then
      |pattern| > 1 && text != [] && text[0] == pattern[1] && Like(text[1..], pattern[2..])
    else
      text != [] && text[0] == pattern[0] && Like(text[1..], pattern[1..])
  }

  /** No backslash is left without a character to escape. */
  predicate WellFormed(pattern: string) {
    if pattern == [] then true
    else if pattern[0] == BACKSLASH then |pattern| > 1 && WellFormed(pattern[2..])
    else WellFormed(pattern[1..])
  }

  /// Escaping

  /** Every occurrence of one character replaced by a string. */
  function Replace(s: string, c: char, sub: string): string {
    if s == [] then [] else (if s[0] == c then sub else [s[0]]) + Replace(s[1..], c, sub)
  }

  /** The three replacements, the backslash first. */
  function EscapeLike(value: string): string {
    Replace(Replace(Replace(value, BACKSLASH, [BACKSLASH, BACKSLASH]), '%', [BACKSLASH, '%']), '_', [BACKSLASH, '_'])
  }

  /** A backslash before every special character, in one pass. */
  function EscapeEach(value: string): string {
    if value == [] then []
    else (if Special(value[0]) then [BACKSLASH, value[0]] else [value[0]]) + EscapeEach(value[1..])
  }

  lemma {:induction false} ReplaceConcat(a: string, b: string, c: char, sub: string)
    ensures Replace(a + b, c, sub) == Replace(a, c, sub) + Replace(b, c, sub)
  {
    if a == [] {
      assert a + b == b;
    } else {
      assert (a + b)[1..] == a[1..] + b;
      ReplaceConcat(a[1..], b, c, sub);
      var head := if a[0] == c then sub else [a[0]];
      assert head + (Replace(a[1..], c, sub) + Replace(b, c, sub)) == head + Replace(a[1..], c, sub) + Replace(b, c, sub);
    }
  }

  lemma ReplaceInOne(a: char, c: char, sub: string)
    ensures Replace([a], c, sub) == if a == c then sub else [a]
  {
    assert [a][1..] == [];
  }

  lemma ReplaceInTwo(a: char, b: char, c: char, sub: string)
    requires a != c && b != c
    ensures Replace([a, b], c, sub) == [a, b]
  {
    assert [a, b][1..] == [b];
    ReplaceInOne(b, c, sub);
  }

  lemma EscapeLikeOne(c: char)
    ensures EscapeLike([c]) == EscapeEach([c])
  {
    ReplaceInOne(c, BACKSLASH, [BACKSLASH, BACKSLASH]);
    ReplaceInOne(c, '%', [BACKSLASH, '%']);
    ReplaceInOne(c, '_', [BACKSLASH, '_']);
    if c == BACKSLASH {
      ReplaceInTwo(BACKSLASH, BACKSLASH, '%', [BACKSLASH, '%']);
      ReplaceInTwo(BACKSLASH, BACKSLASH, '_', [BACKSLASH, '_']);
    } else if c == '%' {
      ReplaceInTwo(BACKSLASH, '%', '_', [BACKSLASH, '_']);
    }
    assert [c][1..] == [];
  }

  /** The chained replacements equal the one-pass escape, for every string. */
  lemma {:induction false} ChainEqualsOnePass(value: string)
    ensures EscapeLike(value) == EscapeEach(value)
  {
    if value != [] {
      var head, tail := [value[0]], value[1..];
      assert value == head + tail;
      var slash, percent, underscore := [BACKSLASH, BACKSLASH], [BACKSLASH, '%'], [BACKSLASH, '_'];
      ReplaceConcat(head, tail, BACKSLASH, slash);
      var h, t := Replace(head, BACKSLASH, slash), Replace(tail, BACKSLASH, slash);
      ReplaceConcat(h, t, '%', percent);
      ReplaceConcat(Replace(h, '%', percent), Replace(t, '%', percent), '_', underscore);
      assert EscapeLike(value) == EscapeLike(head) + EscapeLike(tail);
      EscapeLikeOne(value[0]);
      ChainEqualsOnePass(tail);
      assert head[1..] == [];
    }
  }

  /** The text a pattern without wildcards stands for. */
  function Unescape(pattern: string): string {
    if pattern == [] then []
    else if pattern[0] == BACKSLASH && |pattern| > 1 then [pattern[1]] + Unescape(pattern[2..])
    else [pattern[0]] + Unescape(pattern[1..])
  }

  lemma {:induction false} UnescapeEscapeEach(value: string)
    ensures Unescape(EscapeEach(value)) == value
    ensures WellFormed(EscapeEach(value))
  {
    if value != [] {
      UnescapeEscapeEach(value[1..]);
      var head := if Special(value[0]) then [BACKSLASH, value[0]] else [value[0]];
      assert (head + EscapeEach(value[1..]))[|head|..] == EscapeEach(value[1..]);
    }
  }

  /** Escaping can be undone, and never ends in a lone backslash. */
  lemma EscapeRoundTrip(value: string)
    ensures Unescape(EscapeLike(value)) == value
    ensures WellFormed(EscapeLike(value))
  {
    ChainEqualsOnePass(value);
    UnescapeEscapeEach(value);
  }

  /** Distinct search terms have distinct patterns. */
  lemma EscapeIsInjective(a: string, b: string)
    requires EscapeLike(a) == EscapeLike(b)
    ensures a == b
  {
    EscapeRoundTrip(a);
    EscapeRoundTrip(b);
  }

  /// What the pattern means

  predicate StartsWith(text: string, prefix: string) {
    |prefix| <= |text| && text[..|prefix|] == prefix
  }

  /** `part` occurs somewhere in the text. */
  ghost predicate Contains(text: string, part: string) {
    exists k :: 0 <= k <= |text| && StartsWith(text[k..], part)
  }

  /** A text contains what is written into it, and nothing else. */
  lemma ContainsMeansInfix(text: string, part: string)
    ensures Contains(text, part) <==> exists before, after :: text == before + part + after
  {
    if Contains(text, part) {
      var k :| 0 <= k <= |text| && StartsWith(text[k..], part);
      assert text == text[..k] + part + text[k + |part|..];
    }
    if before, after :| text == before + part + after {
      assert text[|before|..] == part + after;
      assert StartsWith(text[|before|..], part);
    }
  }

  lemma StartsWithHead(text: string, value: string)
    requires value != [] && text != [] && text[0] == value[0]
    ensures StartsWith(text, value) <==> StartsWith(text[1..], value[1..])
    ensures |value| <= |text| ==> text[1..][|value| - 1..] == text[|value|..]
  {
    if |value| <= |text| {
      assert text[..|value|] == [text[0]] + text[1..][..|value| - 1];
      assert value == [value[0]] + value[1..];
    }
  }

  lemma LikeEscaped(text: string, c: char, rest: string)
    ensures Like(text, [BACKSLASH, c] + rest) <==> text != [] && text[0] == c && Like(text[1..], rest)
  {
    assert ([BACKSLASH, c] + rest)[2..] == rest;
  }

  lemma LikePlain(text: string, c: char, rest: string)
    requires !Special(c)
    ensures Like(text, [c] + rest) <==> text != [] && text[0] == c && Like(text[1..], rest)
  {
    assert ([c] + rest)[1..] == rest;
  }

  lemma EscapedHead(text: string, value: string, rest: string)
    requires value != []
    ensures Like(text, EscapeEach(value) + rest) <==>
            text != [] && text[0] == value[0] && Like(text[1..], EscapeEach(value[1..]) + rest)
  {
    var tail := EscapeEach(value[1..]) + rest;
    if Special(value[0]) {
      assert EscapeEach(value) + rest == [BACKSLASH, value[0]] + tail;
      LikeEscaped(text, value[0], tail);
    } else {
      assert EscapeEach(value) + rest == [value[0]] + tail;
      LikePlain(text, value[0], tail);
    }
  }

  /** An escaped term followed by a pattern matches the term itself, followed by the pattern. */
  lemma {:induction false} EscapedIsLiteral(text: string, value: string, rest: string)
    ensures Like(text, EscapeEach(value) + rest) <==> StartsWith(text, value) && Like(text[|value|..], rest)
    decreases value
  {
    if value == [] {
      assert EscapeEach(value) + rest == rest && text[0..] == text;
    } else {
      EscapedHead(text, value, rest);
      if text != [] && text[0] == value[0] {
        EscapedIsLiteral(text[1..], value[1..], rest);
        StartsWithHead(text, value);
      }
    }
  }

  lemma {:induction false} PercentMatchesAll(text: string)
    ensures Like(text, "%")
    decreases text
  {
    if text != [] {
      PercentMatchesAll(text[1..]);
    }
  }

  /** `_` matches exactly one character, whichever it is; an empty pattern only the empty text; a lone
      backslash nothing. */
  lemma UnderscoreMatchesOne(text: string, rest: string)
    ensures Like(text, ['_'] + rest) <==> text != [] && Like(text[1..], rest)
    ensures (Like(text, []) <==> text == []) && !Like(text, [BACKSLASH])
  {
    assert (['_'] + rest)[1..] == rest;
  }

  /** A leading `%` lets the rest of the pattern match any suffix. */
  lemma {:induction false} PercentMatchesSuffix(text: string, rest: string)
    ensures Like(text, ['%'] + rest) <==> exists k :: 0 <= k <= |text| && Like(text[k..], rest)
    decreases text
  {
    var pattern := ['%'] + rest;
    assert pattern[1..] == rest;
    assert text[0..] == text;
    if text != [] {
      PercentMatchesSuffix(text[1..], rest);
      if Like(text[1..], pattern) {
        var k :| 0 <= k <= |text[1..]| && Like(text[1..][k..], rest);
        assert text[1..][k..] == text[k + 1..];
      }
      if k :| 0 <= k <= |text| && Like(text[k..], rest) {
        if k > 0 {
          assert text[1..][k - 1..] == text[k..];
        }
      }
    }
  }

  /** The pattern built for a search term. */
  function ContainsPattern(value: string): string {
    "%" + EscapeLike(value) + "%"
  }

  /** The pattern matches exactly the texts that contain the term, whatever special characters
      the term is made of. */
  lemma PatternMeansContains(text: string, value: string)
    ensures Like(text, ContainsPattern(value)) <==> Contains(text, value)
  {
    ChainEqualsOnePass(value);
    var rest := EscapeEach(value) + "%";
    assert ContainsPattern(value) == ['%'] + rest;
    PercentMatchesSuffix(text, rest);
    forall k | 0 <= k <= |text|
      ensures Like(text[k..], rest) <==> StartsWith(text[k..], value)
    {
      EscapedIsLiteral(text[k..], value, "%");
      if |value| <= |text[k..]| {
        PercentMatchesAll(text[k..][|value|..]);
      }
    }
  }

  /// Case-insensitive matching

  type Fold = char -> char

  /** A case folding that neither moves the special characters nor maps others onto them. */
  ghost predicate KeepsSpecial(fold: Fold) {
    forall c :: (Special(c) ==> fold(c) == c) && (Special(fold(c)) ==> Special(c))
  }

  function Folded(s: string, fold: Fold): (t: string)
    ensures |t| == |s|
  {
    seq(|s|, i requires 0 <= i < |s| => fold(s[i]))
  }

  /** ILIKE folds text and pattern and matches as LIKE. */
  predicate ILike(text: string, pattern: string, fold: Fold) {
    Like(Folded(text, fold), Folded(pattern, fold))
  }

  lemma FoldedConcat(a: string, b: string, fold: Fold)
    ensures Folded(a + b, fold) == Folded(a, fold) + Folded(b, fold)
  {
  }

  lemma {:induction false} FoldedEscape(value: string, fold: Fold)
    requires KeepsSpecial(fold)
    ensures Folded(EscapeEach(value), fold) == EscapeEach(Folded(value, fold))
  {
    if value != [] {
      FoldedEscape(value[1..], fold);
      assert Folded(value, fold)[1..] == Folded(value[1..], fold);
      assert Special(value[0]) <==> Special(fold(value[0]));
      var head := if Special(value[0]) then [BACKSLASH, value[0]] else [value[0]];
      assert EscapeEach(value) == head + EscapeEach(value[1..]);
      FoldedConcat(head, EscapeEach(value[1..]), fold);
      assert Folded(head, fold) == if Special(value[0]) then [BACKSLASH, fold(value[0])] else [fold(value[0])];
    }
  }

  /** Up to case, the pattern matches exactly the texts that contain the term. */
  lemma ILikeMeansContains(text: string, value: string, fold: Fold)
    requires KeepsSpecial(fold)
    ensures ILike(text, ContainsPattern(value), fold) <==> Contains(Folded(text, fold), Folded(value, fold))
  {
    ChainEqualsOnePass(value);
    ChainEqualsOnePass(Folded(value, fold));
    FoldedEscape(value, fold);
    assert Folded(ContainsPattern(value), fold) == ContainsPattern(Folded(value, fold)) by {
      assert fold('%') == '%';
    }
    PatternMeansContains(Folded(text, fold), Folded(value, fold));
  }

  /// Queries

  /** The columns of a message the queries look at; text columns may be null. */
  datatype Message = Message(
    recipient: string, sender: string, subject: Option<string>,
    bodyText: Option<string>, bodyHtml: Option<string>, receivedAt: int)

  /** The truth values of SQL conditions. */
  datatype Truth = True | False | Unknown

  function Of(b: bool): Truth {
    if b then True else False
  }

  function And(a: Truth, b: Truth): Truth {
    if a == False || b == False then False else if a == Unknown || b == Unknown then Unknown else True
  }

  function Or(a: Truth, b: Truth): Truth {
    if a == True || b == True then True else if a == Unknown || b == Unknown then Unknown else False
  }

  function ILikeColumn(column: Option<string>, pattern: string, fold: Fold): Truth {
    if column.None? then Unknown else Of(ILike(column.value, pattern, fold))
  }

  datatype SearchIn = Subject | Body | All

  /** The condition of a search. */
  function SearchCondition(m: Message, address: string, q: string, searchIn: SearchIn, fold: Fold): Truth {
    var pattern := ContainsPattern(q);
    var subject := ILikeColumn(m.subject, pattern, fold);
    var text := ILikeColumn(m.bodyText, pattern, fold);
    var html := ILikeColumn(m.bodyHtml, pattern, fold);
    And(Of(m.recipient == address),
        match searchIn
        case Subject => subject
        case Body => Or(text, html)
        case All => Or(Or(subject, text), html))
  }

  datatype Filters = Filters(sender: Option<string>, subject: Option<string>, from: Option<int>, to: Option<int>)

  /** A text filter that is missing or empty does not restrict. */
  function TextFilter(column: Option<string>, wanted: Option<string>, fold: Fold): Truth {
    if wanted.None? || wanted.value == "" then True else ILikeColumn(column, ContainsPattern(wanted.value), fold)
  }

  /** The condition of a listing. */
  function ListCondition(m: Message, address: string, f: Filters, fold: Fold): Truth {
    And(And(And(And(Of(m.recipient == address),
                    TextFilter(Some(m.sender), f.sender, fold)),
                TextFilter(m.subject, f.subject, fold)),
            if f.from.Some? then Of(f.from.value <= m.receivedAt) else True),
        if f.to.Some? then Of(m.receivedAt <= f.to.value) else True)
  }

  /** A text column is there and contains the term, up to case. */
  ghost predicate Holds(column: Option<string>, term: string, fold: Fold) {
    column.Some? && Contains(Folded(column.value, fold), Folded(term, fold))
  }

  lemma ColumnMeansHolds(column: Option<string>, term: string, fold: Fold)
    requires KeepsSpecial(fold)
    ensures ILikeColumn(column, ContainsPattern(term), fold) == True <==> Holds(column, term, fold)
  {
    if column.Some? {
      ILikeMeansContains(column.value, term, fold);
    }
  }

  /** A search selects exactly the messages of the address that contain the term in one of the
      searched columns; null columns neither match nor hide a match in another column. */
  lemma SearchSelects(m: Message, address: string, q: string, searchIn: SearchIn, fold: Fold)
    requires KeepsSpecial(fold)
    ensures SearchCondition(m, address, q, searchIn, fold) == True <==>
              && m.recipient == address
              && (   (searchIn != Body && Holds(m.subject, q, fold))
                  || (searchIn != Subject && (Holds(m.bodyText, q, fold) || Holds(m.bodyHtml, q, fold))))
  {
    ColumnMeansHolds(m.subject, q, fold);
    ColumnMeansHolds(m.bodyText, q, fold);
    ColumnMeansHolds(m.bodyHtml, q, fold);
  }

  /** A listing selects exactly the messages of the address that pass every given filter; a
      message without a subject passes no subject filter but the empty one. */
  lemma ListSelects(m: Message, address: string, f: Filters, fold: Fold)
    requires KeepsSpecial(fold)
    ensures ListCondition(m, address, f, fold) == True <==>
              && m.recipient == address
              && (f.sender.Some? ==> Holds(Some(m.sender), f.sender.value, fold))
              && (f.subject.Some? && f.subject.value != "" ==> Holds(m.subject, f.subject.value, fold))
              && (f.from.Some? ==> f.from.value <= m.receivedAt)
              && (f.to.Some? ==> m.receivedAt <= f.to.value)
  {
    if f.sender.Some? {
      ColumnMeansHolds(Some(m.sender), f.sender.value, fold);
      assert f.sender.value == "" ==> StartsWith(Folded(m.sender, fold)[0..], []);
    }
    if f.subject.Some? {
      ColumnMeansHolds(m.subject, f.subject.value, fold);
    }
  }
}
