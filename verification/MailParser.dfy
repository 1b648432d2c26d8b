/**
 Parsing of a received mail: the grouping of its headers, the bounded walk over its MIME parts,
 and the fields taken from the SMTP envelope.  Decoding bytes into parts is not modelled; a part
 carries its decoded content, or none if decoding it raises an error.
 */
module MailParser {
  import opened Wrappers
  import opened Text

  /** A part as the walk sees it. */
  datatype Node = Node(contentType: string, disposition: Option<string>, content: Option<string>)

  datatype Part = Part(node: Node, multipart: bool, children: seq<Part>)

  type Header = (string, string)

  datatype Mail = Mail(root: Part, headers: seq<Header>, size: nat)

  datatype ParsedEmail = ParsedEmail(
    sender: string, recipient: string, subject: Option<string>,
    bodyText: Option<string>, bodyHtml: Option<string>,
    rawHeaders: map<string, seq<string>>, sizeBytes: nat, domain: string)

  datatype ParseError = UndecodableContent

  const MAX_MIME_PARTS: nat := 50

  /// Headers

  /** The values of one header name among the first n headers, in order. */
  function ValuesOf(headers: seq<Header>, n: nat, name: string): seq<string>
    requires n <= |headers|
  {
    if n == 0 then []
    else ValuesOf(headers, n - 1, name) + if headers[n - 1].0 == name then [headers[n - 1].1] else []
  }

  /** Every name that occurs, with all its values in their order. */
  ghost predicate Groups(grouped: map<string, seq<string>>, headers: seq<Header>, n: nat)
    requires n <= |headers|
  {
    && (forall name :: name in grouped <==> ValuesOf(headers, n, name) != [])
    && (forall name :: name in grouped ==> grouped[name] == ValuesOf(headers, n, name))
  }

  /** One more value under a name, after those it has. */
  ghost function WithValue(grouped: map<string, seq<string>>, name: string, value: string): map<string, seq<string>> {
    grouped[name := (if name in grouped then grouped[name] else []) + [value]]
  }

  lemma FirstValueAdded(grouped: map<string, seq<string>>, name: string, value: string)
    requires name !in grouped
    ensures grouped[name := []][name := [value]] == WithValue(grouped, name, value)
  {
    assert [] + [value] == [value];
  }

  ghost function Grouped(headers: seq<Header>, n: nat): map<string, seq<string>>
    requires n <= |headers|
  {
    if n == 0 then map[] else WithValue(Grouped(headers, n - 1), headers[n - 1].0, headers[n - 1].1)
  }

  lemma {:induction false} GroupedGroups(headers: seq<Header>, n: nat)
    requires n <= |headers|
    ensures Groups(Grouped(headers, n), headers, n)
  {
    if n > 0 {
      GroupedGroups(headers, n - 1);
    }
  }

  method GroupHeaders(headers: seq<Header>) returns (grouped: map<string, seq<string>>)
    ensures Groups(grouped, headers, |headers|)
  {
    grouped := map[];
    for i := 0 to |headers|
      invariant grouped == Grouped(headers, i)
    {
      var (name, value) := headers[i];
      if name !in grouped {
        FirstValueAdded(grouped, name, value);
        grouped := grouped[name := []];
        assert grouped[name] + [value] == [value];
      }
      grouped := grouped[name := grouped[name] + [value]];
    }
    GroupedGroups(headers, |headers|);
  }

  lemma CountHeaders(headers: seq<Header>, n: nat, x: Header)
    requires 0 < n <= |headers|
    ensures multiset(headers[..n])[x] == multiset(headers[..n - 1])[x] + if headers[n - 1] == x then 1 else 0
  {
    assert headers[..n] == headers[..n - 1] + [headers[n - 1]];
  }

  lemma CountValues(headers: seq<Header>, n: nat, name: string, value: string)
    requires 0 < n <= |headers|
    ensures multiset(ValuesOf(headers, n, name))[value] ==
            multiset(ValuesOf(headers, n - 1, name))[value] + if headers[n - 1] == (name, value) then 1 else 0
  {
    var before, last := ValuesOf(headers, n - 1, name), headers[n - 1];
    if last.0 == name {
      assert ValuesOf(headers, n, name) == before + [last.1];
      assert multiset(before + [last.1]) == multiset(before) + multiset{last.1};
      assert last.1 == value <==> last == (name, value);
    } else {
      assert ValuesOf(headers, n, name) == before;
    }
  }

  /** How often a header occurs among the first n. */
  function Occurrences(headers: seq<Header>, n: nat, x: Header): nat
    requires n <= |headers|
  {
    if n == 0 then 0 else Occurrences(headers, n - 1, x) + if headers[n - 1] == x then 1 else 0
  }

  lemma {:induction false} OccurrencesAreMultiplicity(headers: seq<Header>, n: nat, x: Header)
    requires n <= |headers|
    ensures Occurrences(headers, n, x) == multiset(headers[..n])[x]
  {
    if n == 0 {
      assert headers[..n] == [];
    } else {
      OccurrencesAreMultiplicity(headers, n - 1, x);
      CountHeaders(headers, n, x);
    }
  }

  lemma {:induction false} OccurrencesAreValues(headers: seq<Header>, n: nat, name: string, value: string)
    requires n <= |headers|
    ensures Occurrences(headers, n, (name, value)) == multiset(ValuesOf(headers, n, name))[value]
  {
    if n > 0 {
      OccurrencesAreValues(headers, n - 1, name, value);
      CountValues(headers, n, name, value);
    }
  }

  /** No header is lost or duplicated by the grouping. */
  lemma GroupingKeepsEveryHeader(headers: seq<Header>, grouped: map<string, seq<string>>, x: Header)
    requires Groups(grouped, headers, |headers|)
    ensures multiset(headers)[x] == if x.0 in grouped then multiset(grouped[x.0])[x.1] else 0
  {
    var n := |headers|;
    OccurrencesAreMultiplicity(headers, n, x);
    OccurrencesAreValues(headers, n, x.0, x.1);
    assert headers[..n] == headers;
  }

  /** Two groupings of the same headers are the same. */
  lemma GroupingIsUnique(a: map<string, seq<string>>, b: map<string, seq<string>>, headers: seq<Header>, n: nat)
    requires n <= |headers| && Groups(a, headers, n) && Groups(b, headers, n)
    ensures a == b
  {
    assert a.Keys == b.Keys;
  }

  /** The values of a name are in the order of its headers: the header at i comes after as many
      values as there are headers of its name before it. */
  lemma {:induction false} ValuesInOrder(headers: seq<Header>, n: nat, i: nat)
    requires i < n <= |headers|
    ensures var name := headers[i].0;
            && |ValuesOf(headers, i, name)| < |ValuesOf(headers, n, name)|
            && ValuesOf(headers, n, name)[|ValuesOf(headers, i, name)|] == headers[i].1
    decreases n
  {
    if i < n - 1 {
      ValuesInOrder(headers, n - 1, i);
    }
  }

  ghost function PlacesOf(headers: seq<Header>, n: nat, name: string): set<nat>
    requires n <= |headers|
  {
    set i: nat | i < n && headers[i].0 == name
  }

  lemma PlacesOfLast(headers: seq<Header>, n: nat, name: string)
    requires 0 < n <= |headers|
    ensures var before := PlacesOf(headers, n - 1, name);
            && n - 1 !in before
            && PlacesOf(headers, n, name) == if headers[n - 1].0 == name then before + {n - 1} else before
  {
  }

  /** And there are as many as headers of the name. */
  lemma {:induction false} ValuesCount(headers: seq<Header>, n: nat, name: string)
    requires n <= |headers|
    ensures |ValuesOf(headers, n, name)| == |PlacesOf(headers, n, name)|
  {
    if n > 0 {
      ValuesCount(headers, n - 1, name);
      PlacesOfLast(headers, n, name);
    } else {
      assert PlacesOf(headers, n, name) == {};
    }
  }

  /** The first header of a name, whatever its case. */
  function FirstValue(headers: seq<Header>, name: string): Option<string> {
    if headers == [] then None
    else if Lower(headers[0].0) == Lower(name) then Some(headers[0].1)
    else FirstValue(headers[1..], name)
  }

  /** Header i is the first one of the name. */
  ghost predicate IsFirstOf(headers: seq<Header>, name: string, i: nat)
    requires i < |headers|
  {
    Lower(headers[i].0) == Lower(name) && forall j :: 0 <= j < i ==> Lower(headers[j].0) != Lower(name)
  }

  /** A value is found exactly if the name occurs, and then it is that of the first header with it. */
  lemma {:induction false} FirstValueMeaning(headers: seq<Header>, name: string)
    ensures FirstValue(headers, name).None? ==> forall i :: 0 <= i < |headers| ==> Lower(headers[i].0) != Lower(name)
    ensures FirstValue(headers, name).Some? ==>
              exists i :: 0 <= i < |headers| && IsFirstOf(headers, name, i)
                          && headers[i].1 == FirstValue(headers, name).value
  {
    if headers != [] {
      if Lower(headers[0].0) == Lower(name) {
        assert IsFirstOf(headers, name, 0);
      } else {
        var rest := headers[1..];
        FirstValueMeaning(rest, name);
        assert forall i :: 1 <= i < |headers| ==> headers[i] == rest[i - 1];
        if FirstValue(rest, name).Some? {
          var i :| 0 <= i < |rest| && IsFirstOf(rest, name, i) && rest[i].1 == FirstValue(rest, name).value;
          assert IsFirstOf(headers, name, i + 1);
        }
      }
    }
  }

  /// Parts

  /** A part and all parts below it, in preorder. */
  function Walk(part: Part): seq<Node>
    decreases part, 1
  {
    [part.node] + if part.multipart then WalkAll(part.children) else []
  }

  function WalkAll(parts: seq<Part>): seq<Node>
    decreases parts, 0
  {
    if parts == [] then [] else Walk(parts[0]) + WalkAll(parts[1..])
  }

  /** A part that can be the body of the given type. */
  predicate IsBody(part: Node, contentType: string) {
    part.disposition != Some("attachment") && part.contentType == contentType
  }

  /** The first body of the given type among the first n parts. */
  function FirstBody(parts: seq<Node>, n: nat, contentType: string): (r: Option<Node>)
    requires n <= |parts|
    ensures r.Some? ==> exists i :: 0 <= i < n && parts[i] == r.value && IsBody(parts[i], contentType)
                                    && forall j :: 0 <= j < i ==> !IsBody(parts[j], contentType)
    ensures r.None? ==> forall i :: 0 <= i < n ==> !IsBody(parts[i], contentType)
  {
    if n == 0 then None
    else
      var earlier := FirstBody(parts, n - 1, contentType);
      if earlier.Some? then earlier
      else if IsBody(parts[n - 1], contentType) then Some(parts[n - 1])
      else None
  }

  function Looked(parts: seq<Node>): (n: nat)
    ensures n <= |parts|
  {
    if |parts| < MAX_MIME_PARTS then |parts| else MAX_MIME_PARTS
  }

  /** The content of a chosen part: nothing if none was chosen, an error if it cannot be decoded. */
  function ContentOf(part: Option<Node>): Result<Option<string>, ParseError> {
    if part.None? then Success(None)
    else if part.value.content.None? then Failure(UndecodableContent)
    else Success(part.value.content)
  }

  type Cleaner = string -> string

  function Cleaned(html: Option<string>, clean: Cleaner): Option<string> {
    if html.None? then None else Some(clean(html.value))
  }

  /** Plain-text and HTML body. */
  type Bodies = (Option<string>, Option<string>)

  function Both(text: Result<Option<string>, ParseError>, html: Result<Option<string>, ParseError>, clean: Cleaner)
    : Result<Bodies, ParseError>
  {
    if text.Failure? || html.Failure? then Failure(UndecodableContent)
    else Success((text.value, Cleaned(html.value, clean)))
  }

  /** The bodies of a multipart mail: the first of each type among the first 50 parts. */
  function MultipartBodies(parts: seq<Node>, n: nat, clean: Cleaner): Result<Bodies, ParseError>
    requires n <= |parts|
  {
    Both(ContentOf(FirstBody(parts, n, "text/plain")), ContentOf(FirstBody(parts, n, "text/html")), clean)
  }

  /** The body of a mail without parts, whatever its disposition. */
  function SingleBody(part: Node, clean: Cleaner): Result<Bodies, ParseError> {
    if part.contentType == "text/plain" then Both(ContentOf(Some(part)), Success(None), clean)
    else if part.contentType == "text/html" then Both(Success(None), ContentOf(Some(part)), clean)
    else Success((None, None))
  }

  function BodiesOf(root: Part, clean: Cleaner): Result<Bodies, ParseError> {
    if root.multipart then
      var parts := Walk(root);
      MultipartBodies(parts, Looked(parts), clean)
    else
      SingleBody(root.node, clean)
  }

  /** The walk picks, for each type, the first part that can be its body among the first 50 parts
      in preorder, and fails exactly when a part it picks cannot be decoded. */
  method FindBodies(root: Part, clean: Cleaner) returns (r: Result<Bodies, ParseError>)
    ensures r == BodiesOf(root, clean)
  {
    var bodyText: Option<string>, bodyHtml: Option<string> := None, None;
    if root.multipart {
      var parts := Walk(root);
      var i := 0;
      while i < |parts|
        invariant 0 <= i <= Looked(parts)
        invariant MultipartBodies(parts, i, clean) == Success((bodyText, bodyHtml))
        invariant FirstBody(parts, i, "text/plain").Some? <==> bodyText.Some?
        invariant FirstBody(parts, i, "text/html").Some? <==> bodyHtml.Some?
      {
        if i >= MAX_MIME_PARTS {
          break;
        }
        var part := parts[i];
        i := i + 1;
        if part.disposition == Some("attachment") {
          continue;
        }
        if part.contentType == "text/plain" && bodyText.None? {
          if part.content.None? {
            FirstBodyStays(parts, i, Looked(parts), "text/plain");
            return Failure(UndecodableContent);
          }
          bodyText := part.content;
        } else if part.contentType == "text/html" && bodyHtml.None? {
          if part.content.None? {
            FirstBodyStays(parts, i, Looked(parts), "text/html");
            return Failure(UndecodableContent);
          }
          bodyHtml := Some(clean(part.content.value));
        }
      }
    } else {
      if root.node.contentType == "text/plain" {
        if root.node.content.None? {
          return Failure(UndecodableContent);
        }
        bodyText := root.node.content;
      } else if root.node.contentType == "text/html" {
        if root.node.content.None? {
          return Failure(UndecodableContent);
        }
        bodyHtml := Some(clean(root.node.content.value));
      }
    }
    return Success((bodyText, bodyHtml));
  }

  /** Once found, the first body of a type stays the first. */
  lemma {:induction false} FirstBodyStays(parts: seq<Node>, m: nat, n: nat, contentType: string)
    requires m <= n <= |parts| && FirstBody(parts, m, contentType).Some?
    ensures FirstBody(parts, n, contentType) == FirstBody(parts, m, contentType)
    decreases n
  {
    if m < n {
      FirstBodyStays(parts, m, n - 1, contentType);
    }
  }

  lemma {:induction false} FirstBodyOfPrefix(a: seq<Node>, b: seq<Node>, n: nat, contentType: string)
    requires n <= |a| && n <= |b| && a[..n] == b[..n]
    ensures FirstBody(a, n, contentType) == FirstBody(b, n, contentType)
    decreases n
  {
    if n > 0 {
      assert a[..n][n - 1] == b[..n][n - 1];
      assert a[..n - 1] == a[..n][..n - 1];
      assert b[..n - 1] == b[..n][..n - 1];
      FirstBodyOfPrefix(a, b, n - 1, contentType);
    }
  }

  lemma {:induction false} WalkAllConcat(a: seq<Part>, b: seq<Part>)
    ensures WalkAll(a + b) == WalkAll(a) + WalkAll(b)
    decreases |a|
  {
    if a == [] {
      assert a + b == b;
    } else {
      assert (a + b)[1..] == a[1..] + b;
      WalkAllConcat(a[1..], b);
    }
  }

  /** Two multipart mails with the same first 50 parts have the same bodies. */
  lemma OnlyFirstPartsMatter(a: Part, b: Part, clean: Cleaner)
    requires a.multipart && b.multipart
    requires MAX_MIME_PARTS <= |Walk(a)| && MAX_MIME_PARTS <= |Walk(b)|
    requires Walk(a)[..MAX_MIME_PARTS] == Walk(b)[..MAX_MIME_PARTS]
    ensures BodiesOf(a, clean) == BodiesOf(b, clean)
  {
    assert Looked(Walk(a)) == Looked(Walk(b)) == MAX_MIME_PARTS;
    FirstBodyOfPrefix(Walk(a), Walk(b), MAX_MIME_PARTS, "text/plain");
    FirstBodyOfPrefix(Walk(a), Walk(b), MAX_MIME_PARTS, "text/html");
  }

  /** In particular, further parts at the end of a mail that has 50 already change nothing. */
  lemma AppendedPartsAreIgnored(root: Part, extra: seq<Part>, clean: Cleaner)
    requires root.multipart && MAX_MIME_PARTS <= |Walk(root)|
    ensures BodiesOf(root.(children := root.children + extra), clean) == BodiesOf(root, clean)
  {
    var longer := root.(children := root.children + extra);
    WalkAllConcat(root.children, extra);
    assert Walk(longer) == Walk(root) + WalkAll(extra);
    assert Walk(longer)[..MAX_MIME_PARTS] == Walk(root)[..MAX_MIME_PARTS];
    OnlyFirstPartsMatter(longer, root, clean);
  }

  /// The walk on the tree

  /** A part and all parts below it, counted. */
  function Size(part: Part): nat
    decreases part, 1
  {
    1 + if part.multipart then SizeAll(part.children) else 0
  }

  function SizeAll(parts: seq<Part>): nat
    decreases parts, 0
  {
    if parts == [] then 0 else Size(parts[0]) + SizeAll(parts[1..])
  }

  /** A path goes from a part to one below it by the numbers of the children on the way. */
  predicate IsPath(part: Part, path: seq<nat>)
    decreases path
  {
    path == [] || (part.multipart && path[0] < |part.children| && IsPath(part.children[path[0]], path[1..]))
  }

  function PartAt(part: Part, path: seq<nat>): Part
    requires IsPath(part, path)
    decreases path
  {
    if path == [] then part else PartAt(part.children[path[0]], path[1..])
  }

  /** Preorder on paths: a part before those below it, an earlier child with all below it before a
      later one. */
  predicate Before(a: seq<nat>, b: seq<nat>)
    decreases a
  {
    if b == [] then false
    else if a == [] then true
    else a[0] < b[0] || (a[0] == b[0] && Before(a[1..], b[1..]))
  }

  /** The number of parts before the one at a path: those on the way to it, and everything in
      earlier children. */
  function Position(part: Part, path: seq<nat>): nat
    requires IsPath(part, path)
    decreases path
  {
    if path == [] then 0
    else 1 + SizeAll(part.children[..path[0]]) + Position(part.children[path[0]], path[1..])
  }

  lemma {:induction false} WalkSize(part: Part)
    ensures |Walk(part)| == Size(part)
    decreases part, 1
  {
    if part.multipart {
      WalkAllSize(part.children);
    }
  }

  lemma {:induction false} WalkAllSize(parts: seq<Part>)
    ensures |WalkAll(parts)| == SizeAll(parts)
    decreases parts, 0
  {
    if parts != [] {
      WalkSize(parts[0]);
      WalkAllSize(parts[1..]);
    }
  }

  lemma {:induction false} SizeAllSplit(parts: seq<Part>, k: nat)
    requires k < |parts|
    ensures SizeAll(parts[..k]) + Size(parts[k]) <= SizeAll(parts)
    ensures SizeAll(parts[..k + 1]) == SizeAll(parts[..k]) + Size(parts[k])
    decreases k
  {
    if k > 0 {
      SizeAllSplit(parts[1..], k - 1);
      assert parts[1..][..k - 1] == parts[..k][1..];
      assert parts[1..][..k] == parts[..k + 1][1..];
    } else {
      assert parts[..0] == [] && parts[..1] == [parts[0]] && parts[..1][1..] == [];
    }
  }

  lemma {:induction false} SizeAllGrows(parts: seq<Part>, k: nat, l: nat)
    requires k < l <= |parts|
    ensures SizeAll(parts[..k]) + Size(parts[k]) <= SizeAll(parts[..l])
    decreases l
  {
    SizeAllSplit(parts, l - 1);
    if k < l - 1 {
      SizeAllGrows(parts, k, l - 1);
    }
  }

  lemma Middle<T>(a: seq<T>, b: seq<T>, c: seq<T>)
    ensures (a + (b + c))[|a|..|a| + |b|] == b
  {
  }

  /** The walk over a list of parts has the walk of each of them, after everything before it. */
  lemma WalkAllSlice(parts: seq<Part>, k: nat)
    requires k < |parts|
    ensures var start := SizeAll(parts[..k]);
            start + Size(parts[k]) <= |WalkAll(parts)| && WalkAll(parts)[start..start + Size(parts[k])] == Walk(parts[k])
  {
    var before, from := parts[..k], parts[k..];
    assert parts == before + from && from[0] == parts[k];
    WalkAllConcat(before, from);
    WalkAllSize(before);
    WalkSize(parts[k]);
    Middle(WalkAll(before), Walk(parts[k]), WalkAll(from[1..]));
  }

  /** The walk of a part starts with the part and has the walk of each child as one piece. */
  lemma WalkSlice(part: Part, k: nat)
    requires part.multipart && k < |part.children|
    ensures |Walk(part)| == Size(part) && Walk(part)[..1] == [part.node]
    ensures var start, size := 1 + SizeAll(part.children[..k]), Size(part.children[k]);
            start + size <= Size(part) && Walk(part)[start..start + size] == Walk(part.children[k])
  {
    WalkSize(part);
    WalkAllSlice(part.children, k);
    var start, size := SizeAll(part.children[..k]), Size(part.children[k]);
    Shifted(part.node, WalkAll(part.children), start, start + size, Walk(part.children[k]));
  }

  lemma Shifted<T>(x: T, s: seq<T>, i: nat, j: nat, piece: seq<T>)
    requires i <= j <= |s| && s[i..j] == piece
    ensures ([x] + s)[..1] == [x] && ([x] + s)[1 + i..1 + j] == piece
  {
  }

  /** The part at a path is in the walk, at the path's position. */
  lemma {:induction false} WalkHasEveryPart(part: Part, path: seq<nat>)
    requires IsPath(part, path)
    ensures Position(part, path) < |Walk(part)| == Size(part)
    ensures Walk(part)[Position(part, path)] == PartAt(part, path).node
    decreases path
  {
    WalkSize(part);
    if path != [] {
      var k := path[0];
      WalkHasEveryPart(part.children[k], path[1..]);
      WalkSliceAt(part, k, Position(part.children[k], path[1..]));
    }
  }

  lemma WalkSliceAt(part: Part, k: nat, inside: nat)
    requires part.multipart && k < |part.children| && inside < |Walk(part.children[k])|
    ensures var i := 1 + SizeAll(part.children[..k]) + inside;
            i < |Walk(part)| && Walk(part)[i] == Walk(part.children[k])[inside]
  {
    WalkSlice(part, k);
    WalkSize(part.children[k]);
    var start, size := 1 + SizeAll(part.children[..k]), Size(part.children[k]);
    assert Walk(part)[start + inside] == Walk(part)[start..start + size][inside];
  }

  /** Every place in the walk is the position of a path. */
  lemma {:induction false} WalkHasOnlyParts(part: Part, i: nat) returns (path: seq<nat>)
    requires i < Size(part)
    ensures IsPath(part, path) && Position(part, path) == i
    decreases part
  {
    if i == 0 {
      path := [];
    } else {
      var k := ChildAt(part.children, i - 1);
      var rest := WalkHasOnlyParts(part.children[k], i - 1 - SizeAll(part.children[..k]));
      path := [k] + rest;
      assert path[1..] == rest;
    }
  }

  /** The child whose piece of the walk a place falls in. */
  lemma {:induction false} ChildAt(parts: seq<Part>, i: nat) returns (k: nat)
    requires i < SizeAll(parts)
    ensures k < |parts| && SizeAll(parts[..k]) <= i < SizeAll(parts[..k]) + Size(parts[k])
    decreases parts
  {
    if i < Size(parts[0]) {
      k := 0;
      assert parts[..0] == [];
    } else {
      var l := ChildAt(parts[1..], i - Size(parts[0]));
      k := l + 1;
      assert parts[..k][1..] == parts[1..][..l];
    }
  }

  /** Positions are in preorder. */
  lemma {:induction false} PositionsInPreorder(part: Part, a: seq<nat>, b: seq<nat>)
    requires IsPath(part, a) && IsPath(part, b)
    ensures Before(a, b) <==> Position(part, a) < Position(part, b)
    ensures a == b <==> Position(part, a) == Position(part, b)
    decreases a
  {
    if a != [] && b != [] {
      if a[0] == b[0] {
        PositionsInPreorder(part.children[a[0]], a[1..], b[1..]);
        assert a == [a[0]] + a[1..] && b == [b[0]] + b[1..];
      } else if a[0] < b[0] {
        EarlierChild(part, a, b);
      } else {
        EarlierChild(part, b, a);
      }
    }
  }

  lemma EarlierChild(part: Part, a: seq<nat>, b: seq<nat>)
    requires IsPath(part, a) && IsPath(part, b) && a != [] && b != [] && a[0] < b[0]
    ensures Position(part, a) < Position(part, b)
  {
    WalkHasEveryPart(part.children[a[0]], a[1..]);
    SizeAllGrows(part.children, a[0], b[0]);
  }

  /// What becomes the body

  /** A part that is not an attachment and of this content type. */
  predicate FitsAt(root: Part, path: seq<nat>, contentType: string)
    requires IsPath(root, path)
  {
    var node := PartAt(root, path).node;
    node.disposition != Some("attachment") && node.contentType == contentType
  }

  /** The choice for a type: the first fitting part in preorder, if it is one of the first 50 parts. */
  ghost predicate Chosen50(root: Part, contentType: string, choice: Option<seq<nat>>) {
    match choice
    case None =>
      forall q :: IsPath(root, q) && Position(root, q) < 50 ==> !FitsAt(root, q, contentType)
    case Some(path) =>
      && IsPath(root, path) && Position(root, path) < 50 && FitsAt(root, path, contentType)
      && forall q :: IsPath(root, q) && Before(q, path) ==> !FitsAt(root, q, contentType)
  }

  predicate Undecodable(root: Part, choice: Option<seq<nat>>)
    requires choice.Some? ==> IsPath(root, choice.value)
  {
    choice.Some? && PartAt(root, choice.value).node.content.None?
  }

  lemma ChoiceOnTree(root: Part, contentType: string) returns (choice: Option<seq<nat>>)
    ensures Chosen50(root, contentType, choice)
    ensures FirstBody(Walk(root), Looked(Walk(root)), contentType) ==
            if choice.None? then None else Some(PartAt(root, choice.value).node)
  {
    var parts := Walk(root);
    var first := FirstBody(parts, Looked(parts), contentType);
    WalkSize(root);
    if first.None? {
      choice := None;
      forall q | IsPath(root, q) && Position(root, q) < 50
        ensures !FitsAt(root, q, contentType)
      {
        WalkHasEveryPart(root, q);
        assert !IsBody(parts[Position(root, q)], contentType);
      }
    } else {
      var i :| 0 <= i < Looked(parts) && parts[i] == first.value && IsBody(parts[i], contentType)
               && forall j :: 0 <= j < i ==> !IsBody(parts[j], contentType);
      var path := WalkHasOnlyParts(root, i);
      choice := Some(path);
      WalkHasEveryPart(root, path);
      forall q | IsPath(root, q) && Before(q, path)
        ensures !FitsAt(root, q, contentType)
      {
        PositionsInPreorder(root, q, path);
        WalkHasEveryPart(root, q);
        assert !IsBody(parts[Position(root, q)], contentType);
      }
    }
  }

  /** The bodies of a multipart mail, on its tree of parts: the contents of the two choices, the HTML
      one cleaned; and an error exactly when a choice cannot be decoded. */
  lemma BodiesOnTree(root: Part, clean: Cleaner) returns (text: Option<seq<nat>>, html: Option<seq<nat>>)
    requires root.multipart
    ensures Chosen50(root, "text/plain", text) && Chosen50(root, "text/html", html)
    ensures var r := BodiesOf(root, clean);
            && (r.Failure? <==> Undecodable(root, text) || Undecodable(root, html))
            && (r.Success? ==>
                 && r.value.0 == (if text.None? then None else PartAt(root, text.value).node.content)
                 && r.value.1 == if html.None? then None
                                 else Some(clean(PartAt(root, html.value).node.content.value)))
  {
    text := ChoiceOnTree(root, "text/plain");
    html := ChoiceOnTree(root, "text/html");
  }

  /** A mail that is not multipart is its own body, attachment or not, if it is plain text or HTML. */
  lemma BodiesOfSinglePart(root: Part, clean: Cleaner)
    requires !root.multipart
    ensures var r, node := BodiesOf(root, clean), root.node;
            && (node.contentType == "text/plain" ==>
                  r == if node.content.None? then Failure(UndecodableContent) else Success((node.content, None)))
            && (node.contentType == "text/html" ==>
                  r == if node.content.None? then Failure(UndecodableContent)
                       else Success((None, Some(clean(node.content.value)))))
            && (node.contentType != "text/plain" && node.contentType != "text/html" ==> r == Success((None, None)))
  {
  }

  /// The whole mail

  /** What a mail becomes for one recipient: sender and recipient as the envelope has them, the
      domain from the recipient. */
  ghost function Parsed(mail: Mail, from: string, to: string, clean: Cleaner): Result<ParsedEmail, ParseError> {
    var bodies := BodiesOf(mail.root, clean);
    if bodies.Failure? then Failure(bodies.error)
    else Success(ParsedEmail(from, to, FirstValue(mail.headers, "Subject"), bodies.value.0, bodies.value.1,
                             Grouped(mail.headers, |mail.headers|), mail.size, Domain(to)))
  }

  /** A parsed mail has the envelope's sender and recipient, the recipient's domain, the size, the
      first subject, the headers grouped, and the bodies. */
  ghost predicate IsParsed(mail: Mail, from: string, to: string, clean: Cleaner, m: ParsedEmail) {
    && m.sender == from && m.recipient == to && m.domain == Domain(to) && m.sizeBytes == mail.size
    && m.subject == FirstValue(mail.headers, "Subject")
    && Groups(m.rawHeaders, mail.headers, |mail.headers|)
    && BodiesOf(mail.root, clean) == Success((m.bodyText, m.bodyHtml))
  }

  lemma ParsedMeaning(mail: Mail, from: string, to: string, clean: Cleaner)
    ensures var r := Parsed(mail, from, to, clean);
            && (r.Failure? <==> BodiesOf(mail.root, clean).Failure?)
            && (r.Success? ==> IsParsed(mail, from, to, clean, r.value))
  {
    GroupedGroups(mail.headers, |mail.headers|);
  }

  method ParseEmail(mail: Mail, from: string, to: string, clean: Cleaner) returns (r: Result<ParsedEmail, ParseError>)
    ensures r == Parsed(mail, from, to, clean)
  {
    var subject := FirstValue(mail.headers, "Subject");
    var headers := GroupHeaders(mail.headers);
    GroupedGroups(mail.headers, |mail.headers|);
    GroupingIsUnique(headers, Grouped(mail.headers, |mail.headers|), mail.headers, |mail.headers|);
    var bodies := FindBodies(mail.root, clean);
    if bodies.Failure? {
      return Failure(bodies.error);
    }
    var domain := if '@' in to then AfterLastAt(to) else "";
    return Success(ParsedEmail(from, to, subject, bodies.value.0, bodies.value.1, headers, mail.size, domain));
  }
}
