/**
  The one-token read of `readFileContentsAsString` (main.cpp:20-27).

  `ifStream >> fileContents` skips leading white space and then reads characters
  up to the next white space or the end of the stream. A `name` file holding
  `package-0\n` therefore yields `package-0`, and one holding `a b` yields only
  `a`. A file that is empty or holds only white space leaves the string empty.
  White space is that of the C locale's `isspace`: blank, tab, newline,
  vertical tab, form feed and carriage return.
*/
module Token {

  predicate IsSpace(c: char)
  {
    c == ' ' || '\t' <= c <= '\r'
  }

  predicate NoSpace(s: string)
  {
    forall i :: 0 <= i < |s| ==> !IsSpace(s[i])
  }

  predicate AllSpace(s: string)
  {
    forall i :: 0 <= i < |s| ==> IsSpace(s[i])
  }

  /** Length of the longest all-white-space prefix of `s`. */
  function LeadingSpaces(s: string): (n: nat)
    ensures n <= |s|
    ensures forall i :: 0 <= i < n ==> IsSpace(s[i])
    ensures n < |s| ==> !IsSpace(s[n])
  {
    if s == [] || !IsSpace(s[0]) then 0 else 1 + LeadingSpaces(s[1..])
  }

  /** Length of the longest prefix of `s` that holds no white space. */
  function TokenLength(s: string): (n: nat)
    ensures n <= |s|
    ensures forall i :: 0 <= i < n ==> !IsSpace(s[i])
    ensures n < |s| ==> IsSpace(s[n])
  {
    if s == [] || IsSpace(s[0]) then 0 else 1 + TokenLength(s[1..])
  }

  /** What `stream >> str` stores: the leading white space skipped, then the longest run
      of characters that are not white space. */
  function FirstToken(s: string): (t: string)
    ensures NoSpace(t)
    ensures t == [] <==> AllSpace(s)
    ensures var n := LeadingSpaces(s);
            n + |t| <= |s| && t == s[n..n + |t|] && (n + |t| == |s| || IsSpace(s[n + |t|]))
  {
    var n := LeadingSpaces(s);
    var rest := s[n..];
    rest[..TokenLength(rest)]
  }

  /** The white-space prefix is determined by where the first other character stands. */
  lemma LeadingSpacesAt(s: string, k: nat)
    requires k <= |s| && (forall i :: 0 <= i < k ==> IsSpace(s[i]))
    requires k == |s| || !IsSpace(s[k])
    ensures LeadingSpaces(s) == k
  {
    var n := LeadingSpaces(s);
    assert forall i :: 0 <= i < n ==> IsSpace(s[i]);
  }

  /** The token's end is determined by where the first white space stands. */
  lemma TokenLengthAt(s: string, k: nat)
    requires k <= |s| && (forall i :: 0 <= i < k ==> !IsSpace(s[i]))
    requires k == |s| || IsSpace(s[k])
    ensures TokenLength(s) == k
  {
    var n := TokenLength(s);
    assert forall i :: 0 <= i < n ==> !IsSpace(s[i]);
  }

  /** A field laid out as white space, a token, then white space or the end reads back
      as exactly that token: sysfs names such as `package-0\n` come through whole. */
  lemma TokenOfField(lead: string, t: string, trail: string)
    requires AllSpace(lead) && NoSpace(t) && t != []
    requires trail == [] || IsSpace(trail[0])
    ensures FirstToken(lead + t + trail) == t
  {
    var s := lead + t + trail;
    assert s[|lead|] == t[0];
    LeadingSpacesAt(s, |lead|);
    var rest := s[|lead|..];
    assert rest == t + trail;
    TokenLengthAt(rest, |t|);
    assert rest[..|t|] == t;
  }

  /** Leading white space never changes the token that is read. */
  lemma LeadingSpaceIgnored(lead: string, s: string)
    requires AllSpace(lead)
    ensures FirstToken(lead + s) == FirstToken(s)
  {
    var n := LeadingSpaces(s);
    var ls := lead + s;
    forall i | 0 <= i < |lead| + n ensures IsSpace(ls[i]) {
      if i >= |lead| { assert ls[i] == s[i - |lead|]; }
    }
    assert |lead| + n < |ls| ==> ls[|lead| + n] == s[n];
    LeadingSpacesAt(ls, |lead| + n);
    assert ls[|lead| + n..] == s[n..];
  }

  /** Reading a token back from itself gives the same token. */
  lemma FirstTokenIdempotent(s: string)
    ensures FirstToken(FirstToken(s)) == FirstToken(s)
  {
    var t := FirstToken(s);
    if t != [] {
      assert [] + t + [] == t;
      TokenOfField([], t, []);
    }
  }
}
