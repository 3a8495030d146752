/** The queries as the source runs them on the mutable node records. */
module DomQuery {
  import opened Options
  import opened Text
  import opened DomNodes
  import opened DomForest
  import opened DomModel
  import opened DomShared
  import opened DomLayout
  import opened DomTraversal
  import opened Selectors
  import opened SelectorText
  import opened SelectorGroups
  import opened ChainMatching
  import opened SelectorMatching
  import opened QueryText

  /** What a selector text selects, once it is parsed. */
  ghost function QueryByText(t: Tree, tests: Tests, special: Special, root: Node, text: string, includeRoot: bool): seq<Node>
    requires Forest(t) && root in t
  {
    QueryAll(t, tests, root, ParseSelector(special, text), includeRoot)
  }

  /** Only elements match selectors. */
  ghost predicate MatchesText(t: Tree, tests: Tests, special: Special, n: Node, text: string)
    requires Forest(t) && n in t
  {
    n.nodeType == ELEMENT && MatchesSome(t, tests, n, ParseSelector(special, text), n)
  }

  lemma TextsMean(t: Tree, tests: Tests, special: Special, n: Node, text: string, includeRoot: bool)
    requires Forest(t) && n in t
    ensures var chains := ParseSelector(special, text);
      && QueryByText(t, tests, special, n, text, includeRoot) == QueryAll(t, tests, n, chains, includeRoot)
      && (MatchesText(t, tests, special, n, text) <==> n.nodeType == ELEMENT && MatchesSome(t, tests, n, chains, n))
  {
    hide ParseSelector, QueryAll, MatchesSome, Forest;
  }

  class DomQuery {
    const dom: DomShared
    const tests: Tests
    const special: Special
    /** `getNodeId` */
    const ids: Node -> string

    constructor (dom: DomShared, tests: Tests, special: Special, ids: Node -> string)
      ensures this.dom == dom && this.tests == tests && this.special == special && this.ids == ids
    {
      this.dom := dom;
      this.tests := tests;
      this.special := special;
      this.ids := ids;
    }

    ghost predicate Ready()
      reads dom, dom.nodes
    {
      Forest(dom.TreeView())
    }

    lemma NodesAreKeys()
      requires Ready()
      ensures dom.TreeView().Keys == dom.nodes && Forest(dom.TreeView())
    {
    }

    // ---------------------------------------------------------------- descendants

    /** `collectElementDescendants`: a stack onto which children are pushed last first. */
    method CollectElementDescendants(rootNode: Node, includeRoot: bool) returns (results: seq<Node>)
      requires Ready() && rootNode in dom.nodes
      ensures rootNode in dom.TreeView() && results == ElementDescendants(dom.TreeView(), rootNode, includeRoot)
    {
      hide *;
      ghost var t := dom.TreeView();
      NodesAreKeys();
      dom.AtTree(rootNode);
      results := [];
      var stack := [];
      if includeRoot {
        stack := [rootNode];
      } else {
        stack := PushChildren([], rootNode.childNodes);
      }
      StartOfWalk(t, rootNode, includeRoot);
      while stack != []
        invariant AllIn(t, Reversed(stack))
        invariant ElementDescendants(t, rootNode, includeRoot) == results + Elements(PreorderAll(t, Reversed(stack)))
        decreases |PreorderAll(t, Reversed(stack))|
      {
        StepOfWalk(t, stack);
        var cur := stack[|stack| - 1];
        stack := stack[..|stack| - 1];
        dom.AtTree(cur);
        if cur.nodeType == ELEMENT { results := results + [cur]; }
        stack := PushChildren(stack, cur.childNodes);
      }
      EndOfWalk(t);
    }

    method PushChildren(stack: seq<Node>, children: seq<Node>) returns (out: seq<Node>)
      ensures out == stack + Reversed(children)
    {
      out := stack;
      var j := |children|;
      while j > 0
        invariant 0 <= j <= |children|
        invariant out == stack + Reversed(children[j..])
      {
        j := j - 1;
        assert children[j..][1..] == children[j + 1..];
        out := out + [children[j]];
      }
      assert children[0..] == children;
    }

    // ---------------------------------------------------------------- siblings

    lemma SiblingsAt(node: Node)
      requires Ready() && node in dom.nodes && node.parentNode != null
      ensures var t := dom.TreeView();
        && node in t && node.parentNode in dom.nodes && t[node].parent == node.parentNode
        && t[node.parentNode].kids == node.parentNode.childNodes && node in node.parentNode.childNodes
        && SiblingPlace(t, node) == IndexOf(node.parentNode.childNodes, node)
    {
    }

    /** `getPreviousElementSibling` */
    method GetPreviousElementSibling(node: Node) returns (prev: Node?)
      requires Ready() && node in dom.nodes
      ensures node in dom.TreeView() && prev == PrevElement(dom.TreeView(), node)
    {
      dom.AtTree(node);
      var parent := node.parentNode;
      if parent == null { return null; }
      SiblingsAt(node);
      var siblings := parent.childNodes;
      var idx := IndexOf(siblings, node);
      if idx <= 0 { return null; }
      var i := idx - 1;
      while i >= 0
        invariant -1 <= i < idx
        invariant LastElement(siblings[..i + 1]) == LastElement(siblings[..idx])
        decreases i
      {
        assert siblings[..i + 1][..i] == siblings[..i];
        if siblings[i].nodeType == ELEMENT { return siblings[i]; }
        i := i - 1;
      }
      return null;
    }

    /** `getNextElementSibling` */
    method GetNextElementSibling(node: Node) returns (next: Node?)
      requires Ready() && node in dom.nodes
      ensures node in dom.TreeView() && next == NextElement(dom.TreeView(), node)
    {
      dom.AtTree(node);
      var parent := node.parentNode;
      if parent == null { return null; }
      SiblingsAt(node);
      var siblings := parent.childNodes;
      var idx := IndexOf(siblings, node);
      if idx < 0 || idx >= |siblings| - 1 { return null; }
      for i := idx + 1 to |siblings|
        invariant FirstElement(siblings[i..]) == FirstElement(siblings[idx + 1..])
      {
        assert siblings[i..][1..] == siblings[i + 1..];
        if siblings[i].nodeType == ELEMENT { return siblings[i]; }
      }
      return null;
    }

    /** `getElementIndexInParent` */
    method GetElementIndexInParent(node: Node, sameTagOnly: bool) returns (index: nat)
      requires Ready() && node in dom.nodes
      ensures node in dom.TreeView() && index == ElementIndex(dom.TreeView(), node, sameTagOnly)
    {
      hide Forest, DomShared.TreeView, Lower;
      dom.AtTree(node);
      var parent := node.parentNode;
      if parent == null { return 0; }
      SiblingsAt(node);
      var siblings := parent.childNodes;
      ghost var place := SiblingPlace(dom.TreeView(), node);
      index := 0;
      for i := 0 to |siblings|
        invariant index == CountFor(siblings[..i], node, sameTagOnly)
        invariant node.nodeType == ELEMENT ==> i <= place
      {
        assert siblings[..i + 1][..i] == siblings[..i];
        SiblingPlaceFacts(dom.TreeView(), node);
        if siblings[i].nodeType != ELEMENT { continue; }
        if sameTagOnly && Lower(siblings[i].tagName) != Lower(node.tagName) { continue; }
        index := index + 1;
        if siblings[i] == node { return index; }
      }
      return 0;
    }

    // ---------------------------------------------------------------- matching

    /** `matchesSelectorPseudo` */
    method MatchesSelectorPseudo(node: Node, pseudo: Pseudo, scopeNode: Node?) returns (ok: bool)
      requires Ready() && node in dom.nodes
      ensures node in dom.TreeView() && ok == MatchesPseudo(dom.TreeView(), tests, node, pseudo, scopeNode)
      decreases pseudo
    {
      hide Forest, DomShared.TreeView, PrevElement, SiblingPlace, ElementIndex;
      dom.AtTree(node);
      match pseudo
      case FirstChild =>
        var prev := GetPreviousElementSibling(node);
        return prev == null;
      case LastChild =>
        var next := GetNextElementSibling(node);
        return next == null;
      case OnlyChild =>
        var prev := GetPreviousElementSibling(node);
        var next := GetNextElementSibling(node);
        return prev == null && next == null;
      case Empty =>
        var children := node.childNodes;
        for i := 0 to |children|
          invariant forall j :: 0 <= j < i ==> children[j].nodeType != ELEMENT && children[j].nodeType != TEXT
        {
          if children[i].nodeType == ELEMENT || children[i].nodeType == TEXT { return false; }
        }
        return true;
      case Scope =>
        return scopeNode != null && node == scopeNode;
      case NthChild(arg) =>
        var index := GetElementIndexInParent(node, false);
        return tests.nth(arg, index);
      case NthOfType(arg) =>
        var index := GetElementIndexInParent(node, true);
        return tests.nth(arg, index);
      case Not(tokens) =>
        for j := 0 to |tokens|
          invariant forall i :: 0 <= i < j ==> !MatchesToken(dom.TreeView(), tests, node, tokens[i], scopeNode)
        {
          var hit := MatchesSelectorToken(node, tokens[j], scopeNode);
          if hit { return false; }
        }
        return true;
    }

    /** `matchesSelectorToken` */
    method MatchesSelectorToken(node: Node, token: Token, scopeNode: Node?) returns (ok: bool)
      requires Ready() && node in dom.nodes
      ensures node in dom.TreeView() && ok == MatchesToken(dom.TreeView(), tests, node, token, scopeNode)
      decreases token
    {
      dom.AtTree(node);
      if node.nodeType != ELEMENT { return false; }
      if token.tag != "" && token.tag != "*" && token.tag != Lower(node.tagName) { return false; }
      if !tests.simple(node, token.simple) { return false; }
      for k := 0 to |token.pseudos|
        invariant forall i :: 0 <= i < k ==> MatchesPseudo(dom.TreeView(), tests, node, token.pseudos[i], scopeNode)
      {
        var hit := MatchesSelectorPseudo(node, token.pseudos[k], scopeNode);
        if !hit { return false; }
      }
      return true;
    }

    /** The walk up of a descendant step. */
    method FindAncestor(start: Node?, need: Token, scopeNode: Node?) returns (found: Node?)
      requires Ready() && (start == null || start in dom.nodes) && Grounded(dom.TreeView(), start)
      ensures found == NearestAbove(dom.TreeView(), At(TokenTest(dom.TreeView(), tests, scopeNode), need), start)
    {
      hide MatchesToken;
      ghost var t := dom.TreeView();
      ghost var wanted := At(TokenTest(t, tests, scopeNode), need);
      var ancestor := start;
      while ancestor != null
        invariant ancestor == null || ancestor in dom.nodes
        invariant Grounded(t, ancestor) && NearestAbove(t, wanted, start) == NearestAbove(t, wanted, ancestor)
        decreases Depth(t, ancestor)
      {
        dom.AtTree(ancestor);
        DepthParent(t, ancestor);
        var hit := MatchesSelectorToken(ancestor, need, scopeNode);
        if hit { return ancestor; }
        ancestor := ancestor.parentNode;
      }
      return null;
    }

    /** The walk back of a `~` step. */
    method FindSibling(start: Node, need: Token, scopeNode: Node?) returns (found: Node?)
      requires Ready() && start in dom.nodes
      ensures start in dom.TreeView()
      ensures found == NearestBefore(dom.TreeView(), At(TokenTest(dom.TreeView(), tests, scopeNode), need), start)
    {
      hide MatchesToken, Forest, PrevElement, SiblingPlace, Before, Ancestor, DomShared.TreeView;
      ghost var t := dom.TreeView();
      ghost var wanted := At(TokenTest(t, tests, scopeNode), need);
      ghost var from := start;
      NodesAreKeys();
      PrevFacts(t, start);
      var sibling := GetPreviousElementSibling(start);
      while sibling != null
        invariant from in t && sibling == PrevElement(t, from) && (sibling == null || sibling in t)
        invariant NearestBefore(t, wanted, start) == NearestBefore(t, wanted, from)
        decreases SiblingPlace(t, from)
      {
        PrevFacts(t, from);
        PrevFacts(t, sibling);
        var hit := MatchesSelectorToken(sibling, need, scopeNode);
        if hit { return sibling; }
        from := sibling;
        sibling := GetPreviousElementSibling(sibling);
      }
      return null;
    }

    /** One step of the loop of `matchesSelectorChain`. */
    method MoveTo(current: Node, combinator: Combinator, need: Token, scopeNode: Node?) returns (next: Node?)
      requires Ready() && current in dom.nodes
      ensures current in dom.TreeView()
      ensures next == Choose(dom.TreeView(), combinator, At(TokenTest(dom.TreeView(), tests, scopeNode), need), current)
    {
      hide MatchesToken, PrevElement, NearestBefore, NearestAbove, Before, Ancestor, SiblingPlace, DomShared.TreeView;
      ghost var t := dom.TreeView();
      dom.AtTree(current);
      NodesAreKeys();
      match combinator
      case Descendant =>
        DepthParent(t, current);
        next := FindAncestor(current.parentNode, need, scopeNode);
      case Child =>
        var parent := current.parentNode;
        if parent == null { return null; }
        var hit := MatchesSelectorToken(parent, need, scopeNode);
        return if hit then parent else null;
      case NextSibling =>
        PrevFacts(t, current);
        var prev := GetPreviousElementSibling(current);
        if prev == null { return null; }
        NodesAreKeys();
        var hit := MatchesSelectorToken(prev, need, scopeNode);
        return if hit then prev else null;
      case LaterSibling =>
        next := FindSibling(current, need, scopeNode);
    }

    /** `matchesSelectorChain` */
    method MatchesSelectorChain(node: Node, chainSteps: Chain, scopeNode: Node?) returns (ok: bool)
      requires Ready() && node in dom.nodes
      ensures node in dom.TreeView() && ok == MatchesChain(dom.TreeView(), tests, node, chainSteps, scopeNode)
    {
      hide MatchesToken, Choose, Forest;
      ghost var t := dom.TreeView();
      ghost var m := TokenTest(t, tests, scopeNode);
      NodesAreKeys();
      if chainSteps == [] { return false; }
      ok := MatchesSelectorToken(node, chainSteps[|chainSteps| - 1].token, scopeNode);
      if !ok { return false; }
      var current := node;
      var i := |chainSteps| - 1;
      while i > 0
        invariant 0 <= i < |chainSteps| && current in t
        invariant Greedy(t, m, chainSteps, |chainSteps| - 1, node) == Greedy(t, m, chainSteps, i, current)
      {
        ghost var want := At(m, chainSteps[i - 1].token);
        ChoiceFacts(t, chainSteps[i].combinator, want, current);
        var next := MoveTo(current, chainSteps[i].combinator, chainSteps[i - 1].token, scopeNode);
        if next == null { return false; }
        current := next;
        i := i - 1;
      }
      return true;
    }

    // ---------------------------------------------------------------- queries

    /** The parsing at the head of `querySelectorAll`. */
    method ParseChains(selectorText: string) returns (chains: seq<Chain>)
      ensures chains == ParseSelector(special, selectorText)
    {
      hide Split, ParseGroup;
      var groups := SplitSelectorGroups(selectorText);
      chains := [];
      for i := 0 to |groups|
        invariant chains == ChainsOf(special, groups[..i])
      {
        assert groups[..i + 1][..i] == groups[..i];
        var chain := ParseSelectorGroup(special, groups[i]);
        if chain.Some? && |chain.value| > 0 { chains := chains + [chain.value]; }
      }
      assert groups[..|groups|] == groups;
    }

    method MatchesAnyChain(node: Node, chains: seq<Chain>, scopeNode: Node?) returns (ok: bool)
      requires Ready() && node in dom.nodes
      ensures node in dom.TreeView() && ok == MatchesSome(dom.TreeView(), tests, node, chains, scopeNode)
    {
      hide MatchesChain;
      NodesAreKeys();
      for k := 0 to |chains|
        invariant forall j :: 0 <= j < k ==> !MatchesChain(dom.TreeView(), tests, node, chains[j], scopeNode)
      {
        ok := MatchesSelectorChain(node, chains[k], scopeNode);
        if ok { return true; }
      }
      return false;
    }

    /** `querySelectorAll` */
    method QuerySelectorAll(rootNode: Node, selectorText: string, includeRoot: bool) returns (output: seq<Node>)
      requires Ready() && rootNode in dom.nodes
      ensures rootNode in dom.TreeView()
      ensures output == QueryByText(dom.TreeView(), tests, special, rootNode, selectorText, includeRoot)
    {
      hide *;
      NodesAreKeys();
      var parsed := ParseChains(selectorText);
      output := QueryChains(rootNode, parsed, includeRoot);
      TextsMean(dom.TreeView(), tests, special, rootNode, selectorText, includeRoot);
    }

    /** The part of `querySelectorAll` after parsing. */
    method QueryChains(rootNode: Node, chains: seq<Chain>, includeRoot: bool) returns (output: seq<Node>)
      requires Ready() && rootNode in dom.nodes
      ensures rootNode in dom.TreeView()
      ensures output == QueryAll(dom.TreeView(), tests, rootNode, chains, includeRoot)
    {
      hide *;
      ghost var t := dom.TreeView();
      NodesAreKeys();
      if chains == [] {
        NothingSelected(t, tests, rootNode, includeRoot);
        return [];
      }
      var candidates := CollectElementDescendants(rootNode, includeRoot);
      DescendantsInTree(t, rootNode, includeRoot);
      output := [];
      PrefixesIn(t, candidates);
      SelectedStep(t, tests, candidates, 0, chains, rootNode);
      for j := 0 to |candidates|
        invariant output == Selected(t, tests, candidates[..j], chains, rootNode)
      {
        SelectedStep(t, tests, candidates, j, chains, rootNode);
        var ok := MatchesAnyChain(candidates[j], chains, rootNode);
        if ok { output := output + [candidates[j]]; }
      }
      assert candidates[..|candidates|] == candidates;
      QueryAllIs(t, tests, rootNode, chains, includeRoot);
    }

    /** `querySelector` */
    method QuerySelector(rootNode: Node, selectorText: string, includeRoot: bool) returns (r: Node?)
      requires Ready() && rootNode in dom.nodes
      ensures rootNode in dom.TreeView()
      ensures var all := QueryByText(dom.TreeView(), tests, special, rootNode, selectorText, includeRoot);
        r == if all == [] then null else all[0]
    {
      hide *;
      var list := QuerySelectorAll(rootNode, selectorText, includeRoot);
      r := if |list| > 0 then list[0] else null;
    }

    /** `matchesSelector` */
    method MatchesSelector(node: Node, selector: string) returns (ok: bool)
      requires Ready() && node in dom.nodes
      ensures node in dom.TreeView()
      ensures ok == MatchesText(dom.TreeView(), tests, special, node, selector)
    {
      hide *;
      NodesAreKeys();
      TextsMean(dom.TreeView(), tests, special, node, selector, false);
      var parsed := ParseChains(selector);
      if node.nodeType != ELEMENT { return false; }
      ok := MatchesAnyChain(node, parsed, node);
    }

    /** `getElementById` */
    method GetElementById(rootNode: Node, idValue: string) returns (r: Node?)
      requires Ready() && rootNode in dom.nodes
      ensures rootNode in dom.TreeView()
      ensures idValue == "" ==> r == null
      ensures idValue != "" ==> FirstWithId(ids, ElementDescendants(dom.TreeView(), rootNode, false), idValue, r)
    {
      NodesAreKeys();
      if idValue == "" { return null; }
      var list := CollectElementDescendants(rootNode, false);
      for i := 0 to |list|
        invariant forall j :: 0 <= j < i ==> ids(list[j]) != idValue
      {
        if ids(list[i]) == idValue { return list[i]; }
      }
      return null;
    }
  }

  // ---------------------------------------------------------------- the stack walk

  function Reversed(s: seq<Node>): (r: seq<Node>)
    ensures |r| == |s|
  {
    if s == [] then [] else Reversed(s[1..]) + [s[0]]
  }

  lemma {:induction false} ReversedConcat(a: seq<Node>, b: seq<Node>)
    ensures Reversed(a + b) == Reversed(b) + Reversed(a)
    decreases |a|
  {
    if a == [] {
      assert a + b == b;
    } else {
      ReversedConcat(a[1..], b);
      assert (a + b)[1..] == a[1..] + b;
    }
  }

  lemma {:induction false} ReversedTwice(s: seq<Node>)
    ensures Reversed(Reversed(s)) == s
    decreases |s|
  {
    if s != [] {
      ReversedTwice(s[1..]);
      ReversedConcat(Reversed(s[1..]), [s[0]]);
    }
  }

  lemma StartOfWalk(t: Tree, root: Node, includeRoot: bool)
    requires Forest(t) && root in t
    ensures var stack := if includeRoot then [root] else [] + Reversed(t[root].kids);
      && AllIn(t, Reversed(stack))
      && ElementDescendants(t, root, includeRoot) == [] + Elements(PreorderAll(t, Reversed(stack)))
  {
    hide Elements, Preorder, PreorderKids, Forest;
    KidsAreAll(t, root, 0);
    assert t[root].kids[0..] == t[root].kids;
    ReversedTwice(t[root].kids);
    assert [] + Reversed(t[root].kids) == Reversed(t[root].kids);
    if includeRoot {
      assert [root][1..] == [];
      assert Reversed([root]) == [root];
      assert PreorderAll(t, [root]) == Preorder(t, root) + PreorderAll(t, []);
      assert Preorder(t, root) + [] == Preorder(t, root);
    }
  }

  /** Popping a node and pushing its children keeps the preorder of what is left. */
  lemma StepOfWalk(t: Tree, stack: seq<Node>)
    requires Forest(t) && stack != [] && AllIn(t, Reversed(stack))
    ensures var cur, low := stack[|stack| - 1], stack[..|stack| - 1];
      && cur in t
      && AllIn(t, Reversed(low + Reversed(t[cur].kids)))
      && PreorderAll(t, Reversed(stack)) == [cur] + PreorderAll(t, Reversed(low + Reversed(t[cur].kids)))
      && Elements(PreorderAll(t, Reversed(stack))) ==
           (if cur.nodeType == ELEMENT then [cur] else []) + Elements(PreorderAll(t, Reversed(low + Reversed(t[cur].kids))))
  {
    hide Forest, PreorderAll, Elements;
    var cur, low := stack[|stack| - 1], stack[..|stack| - 1];
    assert stack == low + [cur];
    ReversedConcat(low, [cur]);
    var rest := Reversed(low);
    assert Reversed(stack) == [cur] + rest;
    assert forall i :: 0 <= i < |rest| ==> rest[i] == Reversed(stack)[i + 1];
    assert Reversed(stack)[0] == cur;
    PreorderUnfolds(t, cur, rest);
    ReversedConcat(low, Reversed(t[cur].kids));
    ReversedTwice(t[cur].kids);
    ElementsSplit([cur], PreorderAll(t, t[cur].kids + rest));
    ElementsOfOne(cur);
  }

  lemma ElementsOfOne(n: Node)
    ensures Elements([n]) == if n.nodeType == ELEMENT then [n] else []
  {
  }

  lemma EndOfWalk(t: Tree)
    requires Forest(t)
    ensures Elements(PreorderAll(t, Reversed([]))) == []
  {
  }

  // ---------------------------------------------------------------- steps of the selection loop

  lemma PrefixesIn(t: Tree, ns: seq<Node>)
    requires AllIn(t, ns)
    ensures forall j :: 0 <= j <= |ns| ==> AllIn(t, ns[..j])
  {
  }

  lemma SelectedStep(t: Tree, tests: Tests, ns: seq<Node>, j: nat, chains: seq<Chain>, scope: Node?)
    requires Forest(t) && AllIn(t, ns) && j <= |ns|
    ensures j == 0 ==> Selected(t, tests, ns[..j], chains, scope) == []
    ensures j < |ns| ==>
      && ns[j] in t
      && Selected(t, tests, ns[..j + 1], chains, scope) ==
           Selected(t, tests, ns[..j], chains, scope) + if MatchesSome(t, tests, ns[j], chains, scope) then [ns[j]] else []
  {
    hide MatchesSome, Forest;
    if j < |ns| { assert ns[..j + 1][..j] == ns[..j]; }
  }

  lemma {:induction false} SelectedByNothing(t: Tree, tests: Tests, ns: seq<Node>, scope: Node?)
    requires Forest(t) && AllIn(t, ns)
    ensures Selected(t, tests, ns, [], scope) == []
    decreases |ns|
  {
    if ns != [] { SelectedByNothing(t, tests, ns[..|ns| - 1], scope); }
  }

  lemma NothingSelected(t: Tree, tests: Tests, root: Node, includeRoot: bool)
    requires Forest(t) && root in t
    ensures QueryAll(t, tests, root, [], includeRoot) == []
  {
    DescendantsInTree(t, root, includeRoot);
    SelectedByNothing(t, tests, ElementDescendants(t, root, includeRoot), root);
  }

  lemma QueryAllIs(t: Tree, tests: Tests, root: Node, chains: seq<Chain>, includeRoot: bool)
    requires Forest(t) && root in t
    ensures AllIn(t, ElementDescendants(t, root, includeRoot))
    ensures QueryAll(t, tests, root, chains, includeRoot) == Selected(t, tests, ElementDescendants(t, root, includeRoot), chains, root)
  {
    DescendantsInTree(t, root, includeRoot);
  }
}
