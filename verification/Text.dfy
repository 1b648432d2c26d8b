/** The string operations the services share.  Lower-casing is per character and covers the
    ASCII letters. */
module Text {

  function LowerChar(c: char): char {
    if 'A' <= c <= 'Z' then c - 'A' + 'a' else c
  }

  function Lower(s: string): (t: string)
    ensures |t| == |s|
  {
    seq(|s|, i requires 0 <= i < |s| => LowerChar(s[i]))
  }

  /** The index of the last `@`. */
  function LastAt(s: string): (i: nat)
    requires '@' in s
    ensures i < |s| && s[i] == '@'
    ensures forall j :: i < j < |s| ==> s[j] != '@'
  {
    if s[|s| - 1] == '@' then
      |s| - 1
    else
      assert s == s[..|s| - 1] + [s[|s| - 1]];
      LastAt(s[..|s| - 1])
  }

  /** Splitting once from the right at `@` and keeping the last piece: what follows the last `@`,
      or all of `s` when there is none. */
  function AfterLastAt(s: string): (t: string)
    ensures '@' !in t
  {
    if '@' in s then s[LastAt(s) + 1..] else s
  }

  /** The domain of an address: empty when there is no `@`. */
  function Domain(address: string): string {
    if '@' in address then AfterLastAt(address) else ""
  }

  /** Taking the domain commutes with lower-casing. */
  lemma DomainOfLower(address: string)
    ensures Domain(Lower(address)) == Lower(Domain(address))
  {
    var s := Lower(address);
    assert forall i :: 0 <= i < |s| ==> (s[i] == '@' <==> address[i] == '@');
    if '@' in address {
      assert s[LastAt(address)] == '@';
      assert LastAt(s) == LastAt(address);
    }
  }

  lemma LowerTwice(s: string)
    ensures Lower(Lower(s)) == Lower(s)
  {
    assert forall i :: 0 <= i < |s| ==> Lower(Lower(s))[i] == Lower(s)[i];
  }

  /** Lower-casing moves the capital letters of ASCII by 32 and leaves every other character. */
  lemma LowerMeaning(s: string)
    ensures forall i :: 0 <= i < |s| ==>
              Lower(s)[i] as int == if 'A' <= s[i] <= 'Z' then s[i] as int + 32 else s[i] as int
    ensures forall i :: 0 <= i < |s| ==> !('A' <= Lower(s)[i] <= 'Z')
  {
  }

  lemma LowerConcat(a: string, b: string)
    ensures Lower(a + b) == Lower(a) + Lower(b)
  {
  }

  /** What follows the last `@` is the domain, however many there are before it. */
  lemma SplitAtLast(local: string, domain: string)
    requires '@' !in domain
    ensures AfterLastAt(local + "@" + domain) == domain && Domain(local + "@" + domain) == domain
  {
    var s := local + "@" + domain;
    assert s[|local|] == '@';
    assert forall j :: |local| < j < |s| ==> s[j] == domain[j - |local| - 1];
    assert LastAt(s) == |local|;
    assert s[|local| + 1..] == domain;
  }

  /** An address of local part and domain in lower case. */
  lemma LowerAddress(local: string, domain: string)
    requires '@' !in domain
    ensures '@' !in Lower(domain)
    ensures Lower(local + "@" + domain) == Lower(local) + "@" + Lower(domain)
    ensures Domain(Lower(local + "@" + domain)) == AfterLastAt(Lower(local + "@" + domain)) == Lower(domain)
  {
    LowerConcat(local + "@", domain);
    LowerConcat(local, "@");
    assert Lower("@") == "@";
    LowerKeepsAt(domain);
    SplitAtLast(Lower(local), Lower(domain));
  }

  lemma LowerKeepsAt(s: string)
    ensures '@' in Lower(s) <==> '@' in s
  {
    assert forall i :: 0 <= i < |s| ==> (Lower(s)[i] == '@' <==> s[i] == '@');
  }

  /** Text without `@` is its own last piece, and has no domain. */
  lemma WithoutAt(s: string)
    requires '@' !in s
    ensures AfterLastAt(s) == s && Domain(s) == ""
  {
  }
}
