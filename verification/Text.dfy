/** String helpers shared by the style, selector and markup code. */
module Text {

  /** ASCII white space, as `\s` and `trim` treat it. */
  predicate IsSpace(c: char) {
    c == ' ' || c == '\t' || c == '\n' || c == '\r' || c == (12 as char) || c == (11 as char)
  }

  function TrimLeft(s: string): (r: string)
    ensures |r| <= |s| && r == s[|s| - |r|..]
    ensures r == "" || !IsSpace(r[0])
    ensures forall i :: 0 <= i < |s| - |r| ==> IsSpace(s[i])
  {
    if s != "" && IsSpace(s[0]) then TrimLeft(s[1..]) else s
  }

  function TrimRight(s: string): (r: string)
    ensures |r| <= |s| && r == s[..|r|]
    ensures r == "" || !IsSpace(r[|r| - 1])
    ensures forall i :: |r| <= i < |s| ==> IsSpace(s[i])
  {
    if s != "" && IsSpace(s[|s| - 1]) then TrimRight(s[..|s| - 1]) else s
  }

  function Trim(s: string): string {
    TrimRight(TrimLeft(s))
  }

  predicate IsLetter(c: char) {
    'A' <= c <= 'Z' || 'a' <= c <= 'z'
  }

  predicate IsUpper(c: char) {
    'A' <= c <= 'Z'
  }

  function LowerChar(c: char): char {
    if IsUpper(c) then (c - 'A') + 'a' else c
  }

  /** ASCII lower case. */
  function Lower(s: string): string {
    seq(|s|, i requires 0 <= i < |s| => LowerChar(s[i]))
  }

  function UpperChar(c: char): char {
    if 'a' <= c <= 'z' then (c - 'a') + 'A' else c
  }

  /** ASCII upper case. */
  function Upper(s: string): string {
    seq(|s|, i requires 0 <= i < |s| => UpperChar(s[i]))
  }

  lemma LowerOfUpper(s: string)
    ensures Lower(Upper(s)) == Lower(s) && Lower(Lower(s)) == Lower(s)
  {
  }

  lemma TrimFixed(s: string)
    requires forall c :: c in s ==> !IsSpace(c)
    ensures Trim(s) == s
  {
    if s != "" { assert s[0] in s && s[|s| - 1] in s; }
  }

  lemma LowerFixed(s: string)
    requires forall c :: c in s ==> !IsUpper(c)
    ensures Lower(s) == s
  {
    forall i | 0 <= i < |s| ensures Lower(s)[i] == s[i] { assert s[i] in s; }
  }

  predicate StartsWith(s: string, prefix: string) {
    prefix <= s
  }

  /** `indexOf` of one character. */
  function FirstOf(s: string, c: char): (i: int)
    ensures i == -1 <==> c !in s
    ensures i >= 0 ==> i < |s| && s[i] == c && c !in s[..i]
    ensures -1 <= i
  {
    if s == "" then -1
    else if s[0] == c then 0
    else
      var j := FirstOf(s[1..], c);
      assert s == [s[0]] + s[1..];
      assert j >= 0 ==> s[..j + 1] == [s[0]] + s[1..][..j];
      if j < 0 then -1 else j + 1
  }

  lemma {:induction false} FirstIs(s: string, c: char, i: nat)
    requires i < |s| && s[i] == c && c !in s[..i]
    ensures FirstOf(s, c) == i
    decreases i
  {
    if i > 0 {
      assert s[0] in s[..i];
      assert s[1..][..i - 1] == s[..i][1..];
      FirstIs(s[1..], c, i - 1);
    }
  }
}
