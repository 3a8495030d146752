/** The tree held by the nodes, as a value, and the theory of its parent chains. */
module DomForest {
  import opened DomNodes

  datatype Links = Links(parent: Node?, kids: seq<Node>)

  type Tree = map<Node, Links>

  // ---------------------------------------------------------------- parent chains

  ghost function Parent(t: Tree, n: Node?): Node? {
    if n != null && n in t then t[n].parent else null
  }

  /** The node `k` parent steps above `n`, or null past the root. */
  ghost function Up(t: Tree, n: Node?, k: nat): Node? {
    if n == null || k == 0 then n else Up(t, Parent(t, n), k - 1)
  }

  ghost predicate Grounded(t: Tree, n: Node?) {
    exists k: nat :: Up(t, n, k) == null
  }

  /** Inclusive ancestors: the relation computed by the source's `isAncestor`. */
  ghost predicate Ancestor(t: Tree, a: Node, n: Node?) {
    exists k: nat :: Up(t, n, k) == a
  }

  ghost function Steps(t: Tree, n: Node?, k: nat): nat
    requires Up(t, n, k) == null
    decreases k
  {
    if n == null then 0 else 1 + Steps(t, Parent(t, n), k - 1)
  }

  /** How many nodes lie on the chain from `n` to its root. */
  ghost function Depth(t: Tree, n: Node?): nat
    requires Grounded(t, n)
  {
    var k: nat :| Up(t, n, k) == null;
    Steps(t, n, k)
  }

  lemma {:induction false} StepsUnique(t: Tree, n: Node?, j: nat, k: nat)
    requires Up(t, n, j) == null && Up(t, n, k) == null
    ensures Steps(t, n, j) == Steps(t, n, k)
    decreases j
  {
    if n != null { StepsUnique(t, Parent(t, n), j - 1, k - 1); }
  }

  lemma DepthParent(t: Tree, n: Node)
    requires Grounded(t, n)
    ensures Grounded(t, Parent(t, n))
    ensures Depth(t, n) == 1 + Depth(t, Parent(t, n))
  {
    var k: nat :| Up(t, n, k) == null && Steps(t, n, k) == Depth(t, n);
    assert Up(t, Parent(t, n), k - 1) == null;
    var j: nat :| Up(t, Parent(t, n), j) == null && Steps(t, Parent(t, n), j) == Depth(t, Parent(t, n));
    StepsUnique(t, Parent(t, n), j, k - 1);
    assert Steps(t, n, k) == 1 + Steps(t, Parent(t, n), k - 1);
  }

  lemma {:induction false} UpAdd(t: Tree, n: Node?, j: nat, k: nat)
    ensures Up(t, Up(t, n, j), k) == Up(t, n, j + k)
    decreases j
  {
    if n != null && j > 0 { UpAdd(t, Parent(t, n), j - 1, k); }
  }

  lemma AncestorRefl(t: Tree, n: Node)
    ensures Ancestor(t, n, n)
  {
    assert Up(t, n, 0) == n;
  }

  lemma AncestorStep(t: Tree, a: Node, n: Node)
    ensures Ancestor(t, a, n) <==> n == a || Ancestor(t, a, Parent(t, n))
  {
    if Ancestor(t, a, n) && n != a {
      var k: nat :| Up(t, n, k) == a;
      assert Up(t, Parent(t, n), k - 1) == a;
    }
    if Ancestor(t, a, Parent(t, n)) {
      var k: nat :| Up(t, Parent(t, n), k) == a;
      assert Up(t, n, k + 1) == a;
    }
    if n == a { AncestorRefl(t, a); }
  }

  lemma AncestorTrans(t: Tree, a: Node, b: Node, n: Node?)
    requires Ancestor(t, a, b) && Ancestor(t, b, n)
    ensures Ancestor(t, a, n)
  {
    var j: nat :| Up(t, n, j) == b;
    var k: nat :| Up(t, b, k) == a;
    UpAdd(t, n, j, k);
  }

  lemma AncestorOfNull(t: Tree, a: Node)
    ensures !Ancestor(t, a, null)
  {
    forall k: nat ensures Up(t, null, k) == null {}
  }

  lemma {:induction false} DepthUp(t: Tree, n: Node?, k: nat)
    requires Grounded(t, n) && Up(t, n, k) != null
    ensures Grounded(t, Up(t, n, k)) && Depth(t, n) == k + Depth(t, Up(t, n, k))
    decreases k
  {
    if k > 0 {
      DepthParent(t, n);
      DepthUp(t, Parent(t, n), k - 1);
    }
  }

  lemma AncestorDepth(t: Tree, a: Node, n: Node?)
    requires Grounded(t, n) && Ancestor(t, a, n)
    ensures Grounded(t, a) && Depth(t, a) <= Depth(t, n)
    ensures Depth(t, a) == Depth(t, n) ==> a == n
  {
    var k: nat :| Up(t, n, k) == a;
    DepthUp(t, n, k);
  }

  lemma AncestorAntisym(t: Tree, a: Node, b: Node)
    requires Grounded(t, a) && Grounded(t, b) && Ancestor(t, a, b) && Ancestor(t, b, a)
    ensures a == b
  {
    AncestorDepth(t, a, b);
    AncestorDepth(t, b, a);
  }

  /** Two ancestors of one node lie on one chain. */
  lemma AncestorChain(t: Tree, a: Node, b: Node, n: Node?)
    requires Ancestor(t, a, n) && Ancestor(t, b, n)
    ensures Ancestor(t, a, b) || Ancestor(t, b, a)
  {
    var j: nat :| Up(t, n, j) == a;
    var k: nat :| Up(t, n, k) == b;
    if j <= k { UpAdd(t, n, j, k - j); } else { UpAdd(t, n, k, j - k); }
  }

  lemma SiblingsApart(t: Tree, a: Node, b: Node, n: Node?)
    requires Grounded(t, a) && Grounded(t, b) && Parent(t, a) == Parent(t, b) && a != b
    ensures !(Ancestor(t, a, n) && Ancestor(t, b, n))
  {
    if Ancestor(t, a, n) && Ancestor(t, b, n) {
      AncestorChain(t, a, b, n);
      DepthParent(t, a);
      DepthParent(t, b);
      if Ancestor(t, a, b) { AncestorDepth(t, a, b); } else { AncestorDepth(t, b, a); }
    }
  }

  // ---------------------------------------------------------------- the forest invariant

  ghost predicate Distinct(s: seq<Node>) {
    forall i, j :: 0 <= i < j < |s| ==> s[i] != s[j]
  }

  ghost predicate Closed(t: Tree) {
    && (forall n {:trigger t[n].parent} :: n in t ==> t[n].parent == null || t[n].parent in t)
    && (forall n, c :: n in t && c in t[n].kids ==> c in t)
  }

  /** A node is listed by exactly the node it names as its parent. */
  ghost predicate Linked(t: Tree) {
    && (forall p, c :: p in t && c in t[p].kids ==> c in t && t[c].parent == p)
    && (forall c {:trigger t[c].parent} :: c in t && t[c].parent != null ==> t[c].parent in t && c in t[t[c].parent].kids)
  }

  ghost predicate Acyclic(t: Tree) {
    forall n {:trigger Grounded(t, n)} :: n in t ==> Grounded(t, n)
  }

  predicate InsertableParent(parentType: int) {
    parentType == DOCUMENT || parentType == FRAGMENT || parentType == ELEMENT
  }

  predicate AllowedChild(parentType: int, childType: int) {
    if parentType == DOCUMENT then
      childType == ELEMENT || childType == COMMENT || childType == FRAGMENT
    else if parentType == ELEMENT || parentType == FRAGMENT then
      childType == ELEMENT || childType == TEXT || childType == COMMENT || childType == FRAGMENT
    else false
  }

  /** What a child list may hold: never a document or a fragment. */
  predicate ProperChild(parentType: int, childType: int) {
    AllowedChild(parentType, childType) && childType != FRAGMENT
  }

  ghost predicate AtMostOneHtml(s: seq<Node>) {
    forall i, j :: 0 <= i < j < |s| ==> !(IsHtml(s[i]) && IsHtml(s[j]))
  }

  ghost predicate Shaped(t: Tree) {
    && (forall p, c :: p in t && c in t[p].kids ==> ProperChild(p.nodeType, c.nodeType))
    && (forall d :: d in t && d.nodeType == DOCUMENT ==> AtMostOneHtml(t[d].kids))
  }

  ghost predicate Forest(t: Tree) {
    && Closed(t)
    && Linked(t)
    && (forall n :: n in t ==> Distinct(t[n].kids))
    && Acyclic(t)
    && Shaped(t)
  }

  /** Documents and fragments are always roots. */
  lemma DocumentsAndFragmentsAreRoots(t: Tree, n: Node)
    requires Forest(t) && n in t && (n.nodeType == DOCUMENT || n.nodeType == FRAGMENT)
    ensures t[n].parent == null
  {
    if t[n].parent != null { assert false; }
  }

  lemma AncestorInTree(t: Tree, a: Node, n: Node)
    requires Closed(t) && n in t && Ancestor(t, a, n)
    ensures a in t
  {
    var k: nat :| Up(t, n, k) == a;
    UpInTree(t, n, k);
  }

  lemma {:induction false} UpInTree(t: Tree, n: Node?, k: nat)
    requires Closed(t) && (n == null || n in t)
    ensures Up(t, n, k) == null || Up(t, n, k) in t
    decreases k
  {
    if n != null && k > 0 { UpInTree(t, Parent(t, n), k - 1); }
  }

  // ---------------------------------------------------------------- lists

  function IndexOf(s: seq<Node>, x: Node): (i: int)
    ensures x in s ==> 0 <= i < |s| && s[i] == x && x !in s[..i]
    ensures x !in s ==> i == -1
  {
    if s == [] then -1
    else if s[0] == x then 0
    else
      var j := IndexOf(s[1..], x);
      assert x in s ==> x in s[1..];
      assert j >= 0 ==> s[..j + 1] == [s[0]] + s[1..][..j];
      if j < 0 then -1 else j + 1
  }

  /** `splice(indexOf(x), 1)`, guarded as in the source. */
  function Without(s: seq<Node>, x: Node): seq<Node> {
    var i := IndexOf(s, x);
    if i < 0 then s else s[..i] + s[i + 1..]
  }

  /** `splice(i, 0, x)`. */
  function InsertAt(s: seq<Node>, i: nat, x: Node): seq<Node>
    requires i <= |s|
  {
    s[..i] + [x] + s[i..]
  }

  lemma WithoutFacts(s: seq<Node>, x: Node)
    requires Distinct(s)
    ensures Distinct(Without(s, x)) && x !in Without(s, x)
    ensures forall y :: y != x ==> (y in Without(s, x) <==> y in s)
    ensures AtMostOneHtml(s) ==> AtMostOneHtml(Without(s, x))
    ensures x in s ==> |Without(s, x)| == |s| - 1
  {
    var i := IndexOf(s, x);
    if i >= 0 {
      var w := Without(s, x);
      forall y | y != x && y in s ensures y in w {
        var k :| 0 <= k < |s| && s[k] == y;
        assert w[if k < i then k else k - 1] == y;
      }
    }
  }

  lemma InsertAtElements(s: seq<Node>, i: nat, x: Node)
    requires i <= |s|
    ensures |InsertAt(s, i, x)| == |s| + 1
    ensures InsertAt(s, i, x)[i] == x
    ensures forall k :: 0 <= k < i ==> InsertAt(s, i, x)[k] == s[k]
    ensures forall k :: i < k <= |s| ==> InsertAt(s, i, x)[k] == s[k - 1]
    ensures forall y :: y in InsertAt(s, i, x) <==> y in s || y == x
  {
    var r := InsertAt(s, i, x);
    forall y | y in s ensures y in r {
      var k :| 0 <= k < |s| && s[k] == y;
      assert r[if k < i then k else k + 1] == y;
    }
    assert r[i] == x;
  }

  lemma InsertAtFacts(s: seq<Node>, i: nat, x: Node)
    requires Distinct(s) && i <= |s| && x !in s
    ensures Distinct(InsertAt(s, i, x))
    ensures AtMostOneHtml(s) && (IsHtml(x) ==> forall y :: y in s ==> !IsHtml(y)) ==> AtMostOneHtml(InsertAt(s, i, x))
    ensures forall y :: y in InsertAt(s, i, x) <==> y in s || y == x
  {
    InsertAtElements(s, i, x);
  }

  // ---------------------------------------------------------------- the two primitive moves

  /** `detachFromParent` without its dirty marking. */
  ghost function Detach(t: Tree, c: Node): Tree
    requires c in t && (t[c].parent != null ==> t[c].parent in t)
  {
    var p := t[c].parent;
    if p == null then t
    else
      var t1 := t[p := t[p].(kids := Without(t[p].kids, c))];
      t1[c := t1[c].(parent := null)]
  }

  /** Lists `c` under `p` at position `i`. */
  ghost function Attach(t: Tree, p: Node, c: Node, i: nat): Tree
    requires p in t && c in t && i <= |t[p].kids|
  {
    var t1 := t[p := t[p].(kids := InsertAt(t[p].kids, i, c))];
    t1[c := t1[c].(parent := p)]
  }

  // ---------------------------------------------------------------- moving one node

  /** Only `c` may have another parent in `t'`. */
  ghost predicate OnlyReparents(t: Tree, t': Tree, c: Node) {
    && t.Keys == t'.Keys
    && forall m {:trigger t'[m].parent} :: m in t && m != c ==> t[m].parent == t'[m].parent
  }

  lemma {:induction false} UpAgree(t: Tree, t': Tree, c: Node, n: Node?, k: nat)
    requires OnlyReparents(t, t', c)
    requires !Ancestor(t, c, n)
    ensures Up(t', n, k) == Up(t, n, k)
    decreases k
  {
    if n != null && k > 0 {
      AncestorStep(t, c, n);
      UpAgree(t, t', c, Parent(t, n), k - 1);
    }
  }

  lemma {:induction false} MoveGrounds(t: Tree, t': Tree, c: Node, n: Node?)
    requires Grounded(t, n) && Grounded(t, Parent(t', c)) && OnlyReparents(t, t', c)
    requires !Ancestor(t, c, Parent(t', c))
    ensures Grounded(t', n)
    decreases Depth(t, n)
  {
    if n == c {
      var p := Parent(t', c);
      var k: nat :| Up(t, p, k) == null;
      UpAgree(t, t', c, p, k);
      assert Up(t', c, k + 1) == null;
    } else if n != null {
      DepthParent(t, n);
      MoveGrounds(t, t', c, Parent(t, n));
      var k: nat :| Up(t', Parent(t', n), k) == null;
      assert Up(t', n, k + 1) == null;
    } else {
      assert Up(t', n, 0) == null;
    }
  }

  /** A move carries its whole subtree along. */
  lemma {:induction false} MoveKeepsSubtree(t: Tree, t': Tree, c: Node, n: Node?)
    requires Grounded(t, n) && OnlyReparents(t, t', c)
    ensures Ancestor(t, c, n) <==> Ancestor(t', c, n)
    decreases Depth(t, n)
  {
    if n == null {
      AncestorOfNull(t, c);
      AncestorOfNull(t', c);
    } else if n == c {
      AncestorRefl(t, c);
      AncestorRefl(t', c);
    } else {
      DepthParent(t, n);
      AncestorStep(t, c, n);
      AncestorStep(t', c, n);
      MoveKeepsSubtree(t, t', c, Parent(t, n));
    }
  }

  lemma GroundedNull(t: Tree)
    ensures Grounded(t, null)
  {
    assert Up(t, null, 0) == null;
  }

  lemma DetachFacts(t: Tree, c: Node)
    requires Forest(t) && c in t
    ensures var t' := Detach(t, c);
      && OnlyReparents(t, t', c) && t'[c] == Links(null, t[c].kids)
      && (forall n :: n in t && n != t[c].parent ==> t'[n].kids == t[n].kids)
      && (t[c].parent != null ==> t'[t[c].parent] == Links(t[t[c].parent].parent, Without(t[t[c].parent].kids, c)))
  {
    SelfParentImpossible(t, c);
  }

  lemma DetachGrounds(t: Tree, c: Node)
    requires Forest(t) && c in t
    ensures Acyclic(Detach(t, c))
  {
    DetachFacts(t, c);
    forall n | n in t ensures Grounded(Detach(t, c), n) {
      GroundedNull(t);
      AncestorOfNull(t, c);
      MoveGrounds(t, Detach(t, c), c, n);
    }
  }

  lemma DetachKeepsForest(t: Tree, c: Node)
    requires Forest(t) && c in t
    ensures Forest(Detach(t, c))
  {
    DetachFacts(t, c);
    DetachGrounds(t, c);
    var p, t' := t[c].parent, Detach(t, c);
    if p != null {
      WithoutFacts(t[p].kids, c);
      DetachLinks(t, c);
    }
  }

  lemma DetachLinks(t: Tree, c: Node)
    requires Forest(t) && c in t && t[c].parent != null
    ensures Closed(Detach(t, c)) && Linked(Detach(t, c))
  {
    hide AtMostOneHtml, Grounded, Distinct;
    DetachFacts(t, c);
    WithoutFacts(t[t[c].parent].kids, c);
  }

  lemma SelfParentImpossible(t: Tree, n: Node)
    requires Grounded(t, n)
    ensures Parent(t, n) != n
  {
    DepthParent(t, n);
  }

  lemma AttachFacts(t: Tree, p: Node, c: Node, i: nat)
    requires p in t && c in t && p != c && i <= |t[p].kids|
    ensures var t' := Attach(t, p, c, i);
      && OnlyReparents(t, t', c) && t'[c] == Links(p, t[c].kids)
      && t'[p] == Links(t[p].parent, InsertAt(t[p].kids, i, c))
      && (forall n :: n in t && n != p ==> t'[n].kids == t[n].kids)
  {
  }

  lemma AttachGrounds(t: Tree, p: Node, c: Node, i: nat)
    requires Forest(t) && p in t && c in t && p != c && i <= |t[p].kids| && !Ancestor(t, c, p)
    ensures Acyclic(Attach(t, p, c, i))
  {
    AttachFacts(t, p, c, i);
    forall n | n in t ensures Grounded(Attach(t, p, c, i), n) {
      MoveGrounds(t, Attach(t, p, c, i), c, n);
    }
  }

  lemma AttachLinks(t: Tree, p: Node, c: Node, i: nat)
    requires Forest(t) && p in t && c in t && p != c && i <= |t[p].kids| && t[c].parent == null
    ensures Closed(Attach(t, p, c, i)) && Linked(Attach(t, p, c, i))
  {
    hide AtMostOneHtml, Grounded, Distinct;
    AttachFacts(t, p, c, i);
    assert c !in t[p].kids;
    InsertAtFacts(t[p].kids, i, c);
  }

  lemma AttachKeepsForest(t: Tree, p: Node, c: Node, i: nat)
    requires Forest(t) && p in t && c in t && i <= |t[p].kids|
    requires t[c].parent == null && !Ancestor(t, c, p)
    requires ProperChild(p.nodeType, c.nodeType)
    requires p.nodeType == DOCUMENT && IsHtml(c) ==> forall k :: k in t[p].kids ==> !IsHtml(k)
    ensures Forest(Attach(t, p, c, i))
  {
    AncestorRefl(t, c);
    AttachFacts(t, p, c, i);
    AttachGrounds(t, p, c, i);
    AttachLinks(t, p, c, i);
    assert c !in t[p].kids;
    InsertAtFacts(t[p].kids, i, c);
  }

  // ---------------------------------------------------------------- going down

  ghost function Subtree(t: Tree, c: Node): set<Node> {
    set n | n in t && Ancestor(t, c, n)
  }

  /** Nodes strictly deeper than `n`: the measure of every walk down the tree. */
  ghost function Below(t: Tree, n: Node): set<Node>
    requires Acyclic(t) && n in t
  {
    set x | x in t && Depth(t, x) > Depth(t, n)
  }

  lemma KidBelow(t: Tree, n: Node, k: Node)
    requires Forest(t) && n in t && k in t[n].kids
    ensures k in t && Below(t, k) < Below(t, n)
  {
    DepthParent(t, k);
    assert k in Below(t, n) && k !in Below(t, k);
  }

  /** A proper descendant lies below exactly one child. */
  lemma DescendantViaKid(t: Tree, a: Node, n: Node) returns (k: Node)
    requires Forest(t) && a in t && n in t && Ancestor(t, a, n) && n != a
    ensures k in t[a].kids && k in t && Ancestor(t, k, n)
    decreases Depth(t, n)
  {
    AncestorStep(t, a, n);
    var q := Parent(t, n);
    if q == null { AncestorOfNull(t, a); }
    if q == a {
      k := n;
      AncestorRefl(t, n);
    } else {
      DepthParent(t, n);
      k := DescendantViaKid(t, a, q);
      AncestorStep(t, k, n);
    }
  }

  lemma KidInSubtree(t: Tree, a: Node, n: Node, k: Node)
    requires Forest(t) && n in t && Ancestor(t, a, n) && k in t[n].kids
    ensures k in t && Ancestor(t, a, k)
  {
    AncestorStep(t, a, k);
  }

  // ---------------------------------------------------------------- emptying a stack of subtrees

  /** The nodes still to be reached from a stack of roots. */
  ghost function Pending(t: Tree, stack: seq<Node>): set<Node> {
    set n | n in t && exists i :: 0 <= i < |stack| && Ancestor(t, stack[i], n)
  }

  /** No root on the stack lies below another. */
  ghost predicate Apart(t: Tree, stack: seq<Node>) {
    && (forall i :: 0 <= i < |stack| ==> stack[i] in t)
    && (forall i, j :: 0 <= i < |stack| && 0 <= j < |stack| && i != j ==> !Ancestor(t, stack[i], stack[j]))
  }

  /** Popping the top root and pushing its children reaches exactly that root. */
  lemma PopAndPush(t: Tree, stack: seq<Node>)
    requires Forest(t) && stack != [] && Apart(t, stack)
    ensures var cur, rest := stack[|stack| - 1], stack[..|stack| - 1] + t[stack[|stack| - 1]].kids;
      && cur in Pending(t, stack)
      && Apart(t, rest)
      && Pending(t, rest) == Pending(t, stack) - {cur}
  {
    var cur := stack[|stack| - 1];
    AncestorRefl(t, cur);
    PopAndPushApart(t, stack);
    PopAndPushPending(t, stack);
  }

  lemma PopAndPushApart(t: Tree, stack: seq<Node>)
    requires Forest(t) && stack != [] && Apart(t, stack)
    ensures Apart(t, stack[..|stack| - 1] + t[stack[|stack| - 1]].kids)
  {
    var cur, low := stack[|stack| - 1], |stack| - 1;
    var kids := t[cur].kids;
    var rest := stack[..low] + kids;
    forall i | 0 <= i < |rest| ensures rest[i] in t {
      if i >= low { assert rest[i] in kids; }
    }
    forall i, j | 0 <= i < |rest| && 0 <= j < |rest| && i != j ensures !Ancestor(t, rest[i], rest[j]) {
      if i >= low {
        assert rest[i] in kids;
        AncestorStep(t, cur, rest[i]);
        AncestorRefl(t, cur);
        if j >= low {
          assert rest[j] in kids && rest[j] != rest[i];
          AncestorRefl(t, rest[j]);
          SiblingsApart(t, rest[i], rest[j], rest[j]);
        } else if Ancestor(t, rest[i], rest[j]) {
          AncestorTrans(t, cur, rest[i], rest[j]);
        }
      } else if j >= low && Ancestor(t, rest[i], rest[j]) {
        assert rest[j] in kids && rest[i] == stack[i];
        AncestorStep(t, rest[i], rest[j]);
        if rest[i] == rest[j] {
          AncestorStep(t, cur, rest[j]);
          AncestorRefl(t, cur);
        }
      }
    }
  }

  lemma PopAndPushPending(t: Tree, stack: seq<Node>)
    requires Forest(t) && stack != [] && Apart(t, stack)
    ensures var cur := stack[|stack| - 1];
      Pending(t, stack[..|stack| - 1] + t[cur].kids) == Pending(t, stack) - {cur}
  {
    var cur, low := stack[|stack| - 1], |stack| - 1;
    var kids := t[cur].kids;
    var rest := stack[..low] + kids;
    forall n | n in Pending(t, rest) ensures n in Pending(t, stack) && n != cur {
      var i :| 0 <= i < |rest| && Ancestor(t, rest[i], n);
      if i < low {
        assert rest[i] == stack[i];
      } else {
        assert rest[i] in kids;
        AncestorRefl(t, cur);
        AncestorStep(t, cur, rest[i]);
        AncestorTrans(t, cur, rest[i], n);
        if n == cur { KidNotAbove(t, cur, rest[i]); }
      }
    }
    forall n | n in Pending(t, stack) && n != cur ensures n in Pending(t, rest) {
      var i :| 0 <= i < |stack| && Ancestor(t, stack[i], n);
      if i < low {
        assert rest[i] == stack[i];
      } else {
        var k := DescendantViaKid(t, cur, n);
        var j :| 0 <= j < |kids| && kids[j] == k;
        assert rest[low + j] == k;
      }
    }
  }

  lemma KidNotAbove(t: Tree, n: Node, k: Node)
    requires Forest(t) && n in t && k in t[n].kids
    ensures !Ancestor(t, k, n)
  {
    DepthParent(t, k);
    if Ancestor(t, k, n) { AncestorDepth(t, k, n); }
  }
}
