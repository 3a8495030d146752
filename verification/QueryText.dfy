/** From selector text to query results. */
module QueryText {
  import opened Text
  import opened DomNodes
  import opened DomForest
  import opened DomLayout
  import opened DomTraversal
  import opened Selectors
  import opened SelectorText
  import opened SelectorGroups
  import opened ChainMatching
  import opened SelectorMatching

  // ---------------------------------------------------------------- whole selector lists

  /** Characters a printed chain is made of. */
  predicate ChainChar(c: char) {
    PlainChar(c) || IsSpace(c) || IsCombinator(c)
  }

  predicate ChainText(s: string) {
    forall i :: 0 <= i < |s| ==> ChainChar(s[i])
  }

  lemma {:induction false} ChainCharsAreNeutral(s: string)
    requires ChainText(s)
    ensures SelfContained(s)
    decreases |s|
  {
    if s != "" { ChainCharsAreNeutral(s[1..]); }
  }

  lemma {:induction false} PrintedChainChars(chain: Chain, gaps: seq<Gap>)
    requires Printable(chain, gaps)
    ensures ChainText(PrintFrom(chain, gaps))
    decreases |chain|
  {
    hide PrintToken;
    if chain != [] {
      PrintedTokenIsPlain(chain[0].token);
      if |chain| > 1 {
        PrintedChainChars(chain[1..], gaps[1..]);
        ConcatChars(PrintToken(chain[0].token), PrintGap(chain[1].combinator, gaps[1]), PrintFrom(chain[1..], gaps[1..]));
      }
    }
  }

  lemma ConcatChars(a: string, b: string, c: string)
    requires ChainText(a) && ChainText(b) && ChainText(c)
    ensures ChainText(a + b + c)
  {
  }

  /** Chains as the group parser returns them: printable and started by an unused
      combinator. */
  predicate PrintableChain(chain: Chain, gaps: seq<Gap>) {
    chain != [] && chain[0].combinator == Descendant && Printable(chain, gaps)
  }

  predicate PrintableList(chains: seq<Chain>, gaps: seq<seq<Gap>>) {
    |gaps| == |chains| && forall k :: 0 <= k < |chains| ==> PrintableChain(chains[k], gaps[k])
  }

  function PrintGroups(chains: seq<Chain>, gaps: seq<seq<Gap>>): (groups: seq<string>)
    requires PrintableList(chains, gaps)
    ensures |groups| == |chains|
  {
    seq(|chains|, k requires 0 <= k < |chains| => PrintFrom(chains[k], gaps[k]))
  }

  lemma PrintedGroupsSplit(chains: seq<Chain>, gaps: seq<seq<Gap>>)
    requires PrintableList(chains, gaps)
    ensures GroupList(PrintGroups(chains, gaps))
  {
    hide TopComma, After, Trimmed, PrintFrom, Printable;
    var groups := PrintGroups(chains, gaps);
    forall k | 0 <= k < |groups| ensures GroupText(groups[k]) && SelfContained(groups[k]) {
      PrintedChainIsTrimmed(chains[k], gaps[k]);
      PrintedChainChars(chains[k], gaps[k]);
      ChainCharsAreNeutral(groups[k]);
    }
  }

  lemma {:induction false} PrintedGroupsParse(special: Special, chains: seq<Chain>, gaps: seq<seq<Gap>>, k: nat)
    requires PrintableList(chains, gaps) && k <= |chains|
    ensures ChainsOf(special, PrintGroups(chains, gaps)[..k]) == chains[..k]
    decreases k
  {
    hide ParseGroup, PrintFrom, Printable;
    if k > 0 {
      PrintedGroupsParse(special, chains, gaps, k - 1);
      var groups := PrintGroups(chains, gaps);
      assert groups[..k][..k - 1] == groups[..k - 1];
      ParseUndoesPrint(special, chains[k - 1], gaps[k - 1]);
      assert chains[..k] == chains[..k - 1] + [chains[k - 1]];
    }
  }

  /** Reading back a printed selector list gives its chains. */
  lemma ParseUndoesPrintList(special: Special, chains: seq<Chain>, gaps: seq<seq<Gap>>)
    requires PrintableList(chains, gaps)
    ensures ParseSelector(special, Join(PrintGroups(chains, gaps))) == chains
  {
    hide Split, Join, ChainsOf, PrintGroups, PrintableChain;
    var groups := PrintGroups(chains, gaps);
    PrintedGroupsSplit(chains, gaps);
    SplitUndoesJoin(groups);
    PrintedGroupsParse(special, chains, gaps, |chains|);
    assert groups[..|chains|] == groups && chains[..|chains|] == chains;
  }

  // ---------------------------------------------------------------- one plain token

  lemma PlainQueryParses(special: Special, token: Token)
    requires Plain(token)
    ensures ParseSelector(special, PrintToken(token)) == [[Step(token, Descendant)]]
  {
    hide ParseSelector, PrintToken, Join;
    var chain, gaps := [Step(token, Descendant)], [Gap("", "")];
    ParseUndoesPrintList(special, [chain], [gaps]);
    assert PrintGroups([chain], [gaps]) == [PrintToken(token)];
    JoinOfOne(PrintToken(token));
  }

  lemma JoinOfOne(s: string)
    ensures Join([s]) == s
  {
  }

  lemma OneTokenMatches(t: Tree, tests: Tests, n: Node, token: Token, scope: Node?)
    requires Forest(t) && n in t
    ensures MatchesSome(t, tests, n, [[Step(token, Descendant)]], scope) <==> MatchesToken(t, tests, n, token, scope)
  {
    hide Forest, MatchesToken;
    var chains := [[Step(token, Descendant)]];
    assert MatchesChain(t, tests, n, chains[0], scope) <==> MatchesToken(t, tests, n, token, scope);
  }

  function IdToken(id: string): Token {
    Token("", Simple(id, [], []), [])
  }

  function TagToken(tag: string): Token {
    Token(tag, Simple("", [], []), [])
  }

  /** `r` is the first of `ns` with the id, or null. */
  ghost predicate FirstWithId(ids: Node -> string, ns: seq<Node>, id: string, r: Node?) {
    && (r == null <==> forall x :: x in ns ==> ids(x) != id)
    && (r != null ==> exists i :: 0 <= i < |ns| && ns[i] == r && ids(r) == id && forall j :: 0 <= j < i ==> ids(ns[j]) != id)
  }

  lemma IdQueryMember(t: Tree, tests: Tests, ids: Node -> string, root: Node, id: string, x: Node)
    requires Forest(t) && root in t && id != "" && forall n :: tests.simple(n, Simple(id, [], [])) <==> ids(n) == id
    ensures x in QueryAll(t, tests, root, [[Step(IdToken(id), Descendant)]], false) <==>
      x in ElementDescendants(t, root, false) && ids(x) == id
  {
    hide Forest, ElementDescendants, QueryAll, MatchesSome, InTreeOrder;
    QueryIsExact(t, tests, root, [[Step(IdToken(id), Descendant)]], false);
    DescendantsAreExact(t, root, false);
    if x in t { OneTokenMatches(t, tests, x, IdToken(id), root); }
  }

  /** `getElementById` and `querySelector` with `#id` find the same element. */
  lemma IdQueryAgrees(t: Tree, tests: Tests, special: Special, ids: Node -> string, root: Node, id: string, r: Node?)
    requires Forest(t) && root in t && IsName(id)
    requires forall n :: tests.simple(n, Simple(id, [], [])) <==> ids(n) == id
    requires FirstWithId(ids, ElementDescendants(t, root, false), id, r)
    ensures ParseSelector(special, PrintToken(IdToken(id))) == [[Step(IdToken(id), Descendant)]]
    ensures var q := QueryAll(t, tests, root, [[Step(IdToken(id), Descendant)]], false);
      r == if q == [] then null else q[0]
  {
    hide Forest, ElementDescendants, QueryAll, ParseSelector, MatchesSome, InTreeOrder;
    var chains := [[Step(IdToken(id), Descendant)]];
    var all, q := ElementDescendants(t, root, false), QueryAll(t, tests, root, chains, false);
    assert Plain(IdToken(id));
    PlainQueryParses(special, IdToken(id));
    QueryIsExact(t, tests, root, chains, false);
    DescendantsAreExact(t, root, false);
    forall x ensures x in q <==> x in all && ids(x) == id { IdQueryMember(t, tests, ids, root, id, x); }
    if q != [] { IdQueryMember(t, tests, ids, root, id, q[0]); }
    DescendantsInTree(t, root, false);
    if r != null {
      assert r in all && r in q;
      FirstIsFirst(t, ids, all, q, id, r);
    }
  }

  lemma FirstIsFirst(t: Tree, ids: Node -> string, all: seq<Node>, q: seq<Node>, id: string, r: Node)
    requires Forest(t) && AllIn(t, all) && InTreeOrder(t, all) && InTreeOrder(t, q)
    requires forall x :: x in q <==> x in all && ids(x) == id
    requires r in q && FirstWithId(ids, all, id, r)
    ensures q[0] == r
  {
    var i :| 0 <= i < |all| && all[i] == r && ids(r) == id && forall j :: 0 <= j < i ==> ids(all[j]) != id;
    var k :| 0 <= k < |q| && q[k] == r;
    assert q[0] in q;
    var j :| 0 <= j < |all| && all[j] == q[0];
    assert j >= i;
    if k > 0 && j > i { PrecedesAsymmetric(t, q[0], r); }
  }

  /** `querySelectorAll` with a tag name finds the descendants of that tag, as
      `getElementsByTagName` does. */
  lemma TagQueryAgrees(t: Tree, tests: Tests, special: Special, root: Node, tag: string, x: Node)
    requires Forest(t) && root in t && x in t && IsTagName(tag) && Lower(tag) == tag
    requires forall n :: tests.simple(n, Simple("", [], []))
    ensures x in QueryAll(t, tests, root, [[Step(TagToken(tag), Descendant)]], false) <==>
      x in ElementDescendants(t, root, false) && Lower(x.tagName) == tag
    ensures ParseSelector(special, tag) == [[Step(TagToken(tag), Descendant)]]
  {
    hide Forest, ElementDescendants, QueryAll, ParseSelector, MatchesSome, InTreeOrder, Lower;
    var chains := [[Step(TagToken(tag), Descendant)]];
    assert Plain(TagToken(tag));
    PlainQueryParses(special, TagToken(tag));
    assert PrintToken(TagToken(tag)) == tag;
    QueryIsExact(t, tests, root, chains, false);
    DescendantsAreExact(t, root, false);
    OneTokenMatches(t, tests, x, TagToken(tag), root);
  }
}
