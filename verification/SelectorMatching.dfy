/** What a selector means on a tree, and what the queries return. */
module SelectorMatching {
  import opened Options
  import opened Text
  import opened DomNodes
  import opened DomForest
  import opened DomLayout
  import opened DomTraversal
  import opened Selectors
  import opened SelectorText
  import opened SelectorGroups
  import opened ChainMatching

  /** The parts of a selector test that depend on attributes or on the `an+b` syntax. */
  datatype Tests = Tests(simple: (Node, Simple) -> bool, nth: (string, int) -> bool)

  // ---------------------------------------------------------------- sibling positions

  function FirstElement(s: seq<Node>): Node? {
    if s == [] then null else if s[0].nodeType == ELEMENT then s[0] else FirstElement(s[1..])
  }

  /** `getNextElementSibling` */
  ghost function NextElement(t: Tree, n: Node): Node?
    requires Forest(t) && n in t
  {
    if t[n].parent == null then null
    else SiblingPlaceFacts(t, n); FirstElement(t[t[n].parent].kids[SiblingPlace(t, n) + 1..])
  }

  predicate CountsFor(x: Node, n: Node, sameTagOnly: bool) {
    x.nodeType == ELEMENT && (sameTagOnly ==> Lower(x.tagName) == Lower(n.tagName))
  }

  function CountFor(s: seq<Node>, n: Node, sameTagOnly: bool): nat {
    if s == [] then 0
    else CountFor(s[..|s| - 1], n, sameTagOnly) + if CountsFor(s[|s| - 1], n, sameTagOnly) then 1 else 0
  }

  /** `getElementIndexInParent` */
  ghost function ElementIndex(t: Tree, n: Node, sameTagOnly: bool): nat
    requires Forest(t) && n in t
  {
    if t[n].parent == null || n.nodeType != ELEMENT then 0
    else CountFor(t[t[n].parent].kids[..SiblingPlace(t, n)], n, sameTagOnly) + 1
  }

  lemma {:induction false} CountForMeans(s: seq<Node>, n: Node, sameTagOnly: bool)
    requires Distinct(s)
    ensures CountFor(s, n, sameTagOnly) == |set x | x in s && CountsFor(x, n, sameTagOnly)|
    decreases |s|
  {
    if s != [] {
      var init, last := s[..|s| - 1], s[|s| - 1];
      CountForMeans(init, n, sameTagOnly);
      var A, B := set x | x in init && CountsFor(x, n, sameTagOnly), set x | x in s && CountsFor(x, n, sameTagOnly);
      assert s == init + [last] && last !in init;
      if CountsFor(last, n, sameTagOnly) { assert B == A + {last}; } else { assert B == A; }
    }
  }

  /** The index is one more than the number of earlier siblings that count. */
  lemma ElementIndexMeans(t: Tree, n: Node, sameTagOnly: bool)
    requires Forest(t) && n in t && t[n].parent != null && n.nodeType == ELEMENT
    ensures ElementIndex(t, n, sameTagOnly) == 1 + |set x | x in t && Before(t, x, n) && CountsFor(x, n, sameTagOnly)|
  {
    var kids, k := t[t[n].parent].kids, SiblingPlace(t, n);
    SiblingPlaceFacts(t, n);
    CountForMeans(kids[..k], n, sameTagOnly);
    hide Before, CountsFor;
    var A, B := set x | x in kids[..k] && CountsFor(x, n, sameTagOnly), set x | x in t && Before(t, x, n) && CountsFor(x, n, sameTagOnly);
    forall x | CountsFor(x, n, sameTagOnly) ensures x in kids[..k] <==> x in t && Before(t, x, n) {
      EarlierIsBefore(t, n, x, sameTagOnly);
    }
    assert A == B;
  }

  lemma EarlierIsBefore(t: Tree, n: Node, x: Node, sameTagOnly: bool)
    requires Forest(t) && n in t && t[n].parent != null && CountsFor(x, n, sameTagOnly)
    ensures SiblingPlace(t, n) <= |t[t[n].parent].kids|
    ensures x in t[t[n].parent].kids[..SiblingPlace(t, n)] <==> x in t && Before(t, x, n)
  {
    var kids, k := t[t[n].parent].kids, SiblingPlace(t, n);
    SiblingPlaceFacts(t, n);
    BeforeMeansPlace(t, x, n);
    if x in kids[..k] {
      var i :| 0 <= i < k && kids[..k][i] == x;
      assert kids[i] == x && x in kids;
      SiblingPlaceFacts(t, x);
    }
    if x in t && Before(t, x, n) {
      SiblingPlaceFacts(t, x);
      assert kids[..k][SiblingPlace(t, x)] == x;
    }
  }

  /** `:first-child` and `:nth-child(1)` agree. */
  lemma FirstChildHasIndexOne(t: Tree, n: Node)
    requires Forest(t) && n in t && t[n].parent != null && n.nodeType == ELEMENT
    ensures PrevElement(t, n) == null <==> ElementIndex(t, n, false) == 1
  {
    PrevFacts(t, n);
    ElementIndexMeans(t, n, false);
    var B := set x | x in t && Before(t, x, n) && CountsFor(x, n, false);
    if PrevElement(t, n) != null { assert PrevElement(t, n) in B; } else { assert B == {}; }
  }

  // ---------------------------------------------------------------- tokens

  /** `matchesSelectorPseudo` */
  ghost predicate MatchesPseudo(t: Tree, tests: Tests, n: Node, p: Pseudo, scope: Node?)
    requires Forest(t) && n in t
    decreases p
  {
    match p
    case FirstChild => PrevElement(t, n) == null
    case LastChild => NextElement(t, n) == null
    case OnlyChild => PrevElement(t, n) == null && NextElement(t, n) == null
    case Empty => forall i :: 0 <= i < |t[n].kids| ==> t[n].kids[i].nodeType != ELEMENT && t[n].kids[i].nodeType != TEXT
    case Scope => n == scope
    case NthChild(arg) => tests.nth(arg, ElementIndex(t, n, false))
    case NthOfType(arg) => tests.nth(arg, ElementIndex(t, n, true))
    case Not(tokens) => forall i :: 0 <= i < |tokens| ==> !MatchesToken(t, tests, n, tokens[i], scope)
  }

  /** `matchesSelectorToken` */
  ghost predicate MatchesToken(t: Tree, tests: Tests, n: Node, token: Token, scope: Node?)
    requires Forest(t) && n in t
    decreases token
  {
    && n.nodeType == ELEMENT
    && (token.tag == "" || token.tag == "*" || token.tag == Lower(n.tagName))
    && tests.simple(n, token.simple)
    && forall i :: 0 <= i < |token.pseudos| ==> MatchesPseudo(t, tests, n, token.pseudos[i], scope)
  }

  ghost function TokenTest(t: Tree, tests: Tests, scope: Node?): Test<Token>
    requires Forest(t)
  {
    (n: Node, token: Token) => n in t && MatchesToken(t, tests, n, token, scope)
  }

  /** `matchesSelectorChain` */
  ghost predicate MatchesChain(t: Tree, tests: Tests, n: Node, chain: Chain, scope: Node?)
    requires Forest(t) && n in t
  {
    && chain != []
    && MatchesToken(t, tests, n, chain[|chain| - 1].token, scope)
    && Greedy(t, TokenTest(t, tests, scope), chain, |chain| - 1, n)
  }

  ghost predicate MatchesSome(t: Tree, tests: Tests, n: Node, chains: seq<Chain>, scope: Node?)
    requires Forest(t) && n in t
  {
    exists k :: 0 <= k < |chains| && MatchesChain(t, tests, n, chains[k], scope)
  }

  /** The chain matches at `n` by the meaning of its combinators. */
  ghost predicate Means(t: Tree, tests: Tests, n: Node, chain: Chain, scope: Node?)
    requires Forest(t) && n in t
  {
    && chain != []
    && MatchesToken(t, tests, n, chain[|chain| - 1].token, scope)
    && CanMatch(t, TokenTest(t, tests, scope), chain, |chain| - 1, n)
  }

  /** Every match found is a match, and for safe chains every match is found. */
  lemma ChainVerdict(t: Tree, tests: Tests, n: Node, chain: Chain, scope: Node?)
    requires Forest(t) && n in t
    ensures MatchesChain(t, tests, n, chain, scope) ==> Means(t, tests, n, chain, scope)
    ensures Safe(chain) ==> (MatchesChain(t, tests, n, chain, scope) <==> Means(t, tests, n, chain, scope))
  {
    hide Forest, Greedy, CanMatch, MatchesToken;
    var m := TokenTest(t, tests, scope);
    if MatchesChain(t, tests, n, chain, scope) { GreedyIsSound(t, m, chain, |chain| - 1, n); }
    if Safe(chain) && Means(t, tests, n, chain, scope) { GreedyIsComplete(t, m, chain, |chain| - 1, n); }
  }

  // ---------------------------------------------------------------- selectors without :scope

  predicate ScopeFreePseudo(p: Pseudo)
    decreases p
  {
    match p
    case Scope => false
    case Not(tokens) => forall i :: 0 <= i < |tokens| ==> ScopeFree(tokens[i])
    case _ => true
  }

  predicate ScopeFree(token: Token)
    decreases token
  {
    forall i :: 0 <= i < |token.pseudos| ==> ScopeFreePseudo(token.pseudos[i])
  }

  predicate ScopeFreeChains(chains: seq<Chain>) {
    forall k, i :: 0 <= k < |chains| && 0 <= i < |chains[k]| ==> ScopeFree(chains[k][i].token)
  }

  lemma {:induction false} PseudoIgnoresScope(t: Tree, tests: Tests, n: Node, p: Pseudo, a: Node?, b: Node?)
    requires Forest(t) && n in t && ScopeFreePseudo(p)
    ensures MatchesPseudo(t, tests, n, p, a) <==> MatchesPseudo(t, tests, n, p, b)
    decreases p
  {
    if p.Not? {
      forall i | 0 <= i < |p.tokens|
        ensures MatchesToken(t, tests, n, p.tokens[i], a) <==> MatchesToken(t, tests, n, p.tokens[i], b)
      {
        TokenIgnoresScope(t, tests, n, p.tokens[i], a, b);
      }
    }
  }

  lemma {:induction false} TokenIgnoresScope(t: Tree, tests: Tests, n: Node, token: Token, a: Node?, b: Node?)
    requires Forest(t) && n in t && ScopeFree(token)
    ensures MatchesToken(t, tests, n, token, a) <==> MatchesToken(t, tests, n, token, b)
    decreases token
  {
    forall i | 0 <= i < |token.pseudos|
      ensures MatchesPseudo(t, tests, n, token.pseudos[i], a) <==> MatchesPseudo(t, tests, n, token.pseudos[i], b)
    {
      PseudoIgnoresScope(t, tests, n, token.pseudos[i], a, b);
    }
  }

  lemma {:induction false} AboveAgrees(t: Tree, f: Node -> bool, g: Node -> bool, n: Node?)
    requires Grounded(t, n) && forall x :: f(x) == g(x)
    ensures NearestAbove(t, f, n) == NearestAbove(t, g, n)
    decreases Depth(t, n)
  {
    if n != null && !f(n) {
      DepthParent(t, n);
      AboveAgrees(t, f, g, Parent(t, n));
    }
  }

  lemma {:induction false} BeforeAgrees(t: Tree, f: Node -> bool, g: Node -> bool, n: Node)
    requires Forest(t) && n in t && forall x :: f(x) == g(x)
    ensures NearestBefore(t, f, n) == NearestBefore(t, g, n)
    decreases SiblingPlace(t, n)
  {
    PrevFacts(t, n);
    var prev := PrevElement(t, n);
    if prev != null && !f(prev) { BeforeAgrees(t, f, g, prev); }
  }

  lemma ChooseAgrees(t: Tree, c: Combinator, f: Node -> bool, g: Node -> bool, n: Node)
    requires Forest(t) && n in t && forall x :: f(x) == g(x)
    ensures Choose(t, c, f, n) == Choose(t, c, g, n)
  {
    DepthParent(t, n);
    AboveAgrees(t, f, g, Parent(t, n));
    BeforeAgrees(t, f, g, n);
  }

  lemma {:induction false} GreedyAgrees<T>(t: Tree, m: Test<T>, m': Test<T>, chain: seq<Step<T>>, i: nat, n: Node)
    requires Forest(t) && n in t && i < |chain|
    requires forall x, k :: 0 <= k < |chain| ==> m(x, chain[k].token) == m'(x, chain[k].token)
    ensures Greedy(t, m, chain, i, n) <==> Greedy(t, m', chain, i, n)
    decreases i
  {
    hide Choose;
    if i > 0 {
      var c, token := chain[i].combinator, chain[i - 1].token;
      ChooseAgrees(t, c, At(m, token), At(m', token), n);
      ChoiceFacts(t, c, At(m, token), n);
      var a := Choose(t, c, At(m, token), n);
      if a != null { GreedyAgrees(t, m, m', chain, i - 1, a); }
    }
  }

  lemma ChainIgnoresScope(t: Tree, tests: Tests, n: Node, chain: Chain, a: Node?, b: Node?)
    requires Forest(t) && n in t && forall i :: 0 <= i < |chain| ==> ScopeFree(chain[i].token)
    ensures MatchesChain(t, tests, n, chain, a) <==> MatchesChain(t, tests, n, chain, b)
  {
    hide Forest, Greedy, MatchesToken, ScopeFree;
    if chain != [] {
      var m, m' := TokenTest(t, tests, a), TokenTest(t, tests, b);
      forall x, k | 0 <= k < |chain| ensures m(x, chain[k].token) == m'(x, chain[k].token) {
        if x in t { TokenIgnoresScope(t, tests, x, chain[k].token, a, b); }
      }
      TokenIgnoresScope(t, tests, n, chain[|chain| - 1].token, a, b);
      GreedyAgrees(t, m, m', chain, |chain| - 1, n);
    }
  }

  lemma SomeIgnoresScope(t: Tree, tests: Tests, n: Node, chains: seq<Chain>, a: Node?, b: Node?)
    requires Forest(t) && n in t && ScopeFreeChains(chains)
    ensures MatchesSome(t, tests, n, chains, a) <==> MatchesSome(t, tests, n, chains, b)
  {
    hide Forest, MatchesChain, ScopeFree;
    forall k | 0 <= k < |chains|
      ensures MatchesChain(t, tests, n, chains[k], a) <==> MatchesChain(t, tests, n, chains[k], b)
    {
      ChainIgnoresScope(t, tests, n, chains[k], a, b);
    }
  }

  // ---------------------------------------------------------------- queries

  /** The groups of a selector list that parse. */
  function ChainsOf(special: Special, groups: seq<string>): (chains: seq<Chain>)
    ensures |chains| <= |groups|
  {
    if groups == [] then []
    else
      var rest := ChainsOf(special, groups[..|groups| - 1]);
      match ParseGroup(special, groups[|groups| - 1])
      case None => rest
      case Some(chain) => if chain == [] then rest else rest + [chain]
  }

  function ParseSelector(special: Special, text: string): seq<Chain> {
    ChainsOf(special, Split(text))
  }

  ghost function Selected(t: Tree, tests: Tests, ns: seq<Node>, chains: seq<Chain>, scope: Node?): seq<Node>
    requires Forest(t) && AllIn(t, ns)
  {
    if ns == [] then []
    else
      var rest := Selected(t, tests, ns[..|ns| - 1], chains, scope);
      if MatchesSome(t, tests, ns[|ns| - 1], chains, scope) then rest + [ns[|ns| - 1]] else rest
  }

  lemma DescendantsInTree(t: Tree, root: Node, includeRoot: bool)
    requires Forest(t) && root in t
    ensures AllIn(t, ElementDescendants(t, root, includeRoot))
  {
    var r := ElementDescendants(t, root, includeRoot);
    forall i | 0 <= i < |r| ensures r[i] in t { DescendantMember(t, root, includeRoot, r[i]); }
  }

  /** `querySelectorAll` */
  ghost function QueryAll(t: Tree, tests: Tests, root: Node, chains: seq<Chain>, includeRoot: bool): seq<Node>
    requires Forest(t) && root in t
  {
    DescendantsInTree(t, root, includeRoot);
    Selected(t, tests, ElementDescendants(t, root, includeRoot), chains, root)
  }

  lemma {:induction false} SelectedFacts(t: Tree, tests: Tests, ns: seq<Node>, chains: seq<Chain>, scope: Node?)
    requires Forest(t) && AllIn(t, ns) && InTreeOrder(t, ns)
    ensures var r := Selected(t, tests, ns, chains, scope);
      && AllIn(t, r) && InTreeOrder(t, r)
      && forall x :: x in r <==> x in ns && x in t && MatchesSome(t, tests, x, chains, scope)
    decreases |ns|
  {
    hide Forest, Precedes, MatchesSome;
    if ns != [] {
      var init, last := ns[..|ns| - 1], ns[|ns| - 1];
      SelectedFacts(t, tests, init, chains, scope);
      var r := Selected(t, tests, init, chains, scope);
      assert ns == init + [last];
      forall x | x in r ensures Precedes(t, x, last) {
        var i :| 0 <= i < |init| && init[i] == x;
        assert ns[i] == x;
      }
      OrderedConcat(t, r, [last]);
    }
  }

  /** `querySelectorAll` returns the matching descendants, each once, in tree order. */
  lemma QueryIsExact(t: Tree, tests: Tests, root: Node, chains: seq<Chain>, includeRoot: bool)
    requires Forest(t) && root in t
    ensures var r := QueryAll(t, tests, root, chains, includeRoot);
      && InTreeOrder(t, r) && Distinct(r)
      && forall x :: x in r <==>
           && x in t && x.nodeType == ELEMENT && Ancestor(t, root, x) && (includeRoot || x != root)
           && MatchesSome(t, tests, x, chains, root)
  {
    hide Forest, Precedes, MatchesSome, ElementDescendants, Ancestor, Selected;
    DescendantsInTree(t, root, includeRoot);
    DescendantsAreExact(t, root, includeRoot);
    SelectedFacts(t, tests, ElementDescendants(t, root, includeRoot), chains, root);
    OrderedIsDistinct(t, QueryAll(t, tests, root, chains, includeRoot));
  }

  /** Without `:scope`, `querySelectorAll` finds exactly the descendants of which
      `matchesSelector` says yes. */
  lemma QueryAgreesWithMatches(t: Tree, tests: Tests, root: Node, chains: seq<Chain>, x: Node)
    requires Forest(t) && root in t && x in t && ScopeFreeChains(chains)
    ensures x in QueryAll(t, tests, root, chains, false) <==>
      x.nodeType == ELEMENT && Ancestor(t, root, x) && x != root && MatchesSome(t, tests, x, chains, x)
  {
    hide Forest, MatchesSome, QueryAll, Ancestor;
    QueryIsExact(t, tests, root, chains, false);
    SomeIgnoresScope(t, tests, x, chains, root, x);
  }

  /** With safe chains only, the result is what the selector means. */
  lemma QueryMeans(t: Tree, tests: Tests, root: Node, chains: seq<Chain>, includeRoot: bool, x: Node)
    requires Forest(t) && root in t && x in t && forall k :: 0 <= k < |chains| ==> Safe(chains[k])
    ensures x in QueryAll(t, tests, root, chains, includeRoot) <==>
      && x.nodeType == ELEMENT && Ancestor(t, root, x) && (includeRoot || x != root)
      && exists k :: 0 <= k < |chains| && Means(t, tests, x, chains[k], root)
  {
    hide Forest, QueryAll, Ancestor, MatchesChain, Means, Safe;
    QueryIsExact(t, tests, root, chains, includeRoot);
    forall k | 0 <= k < |chains|
      ensures MatchesChain(t, tests, x, chains[k], root) <==> Means(t, tests, x, chains[k], root)
    {
      ChainVerdict(t, tests, x, chains[k], root);
    }
  }
}
