/** Tree order: recursive preorder and its properties. */
module DomTraversal {
  import opened DomNodes
  import opened DomForest
  import opened DomLayout

  // ---------------------------------------------------------------- preorder

  ghost function Preorder(t: Tree, n: Node): seq<Node>
    requires Forest(t) && n in t
    decreases Below(t, n), |t[n].kids| + 1
  {
    [n] + PreorderKids(t, n, 0)
  }

  /** The subtrees of the children of `n` from position `i` on. */
  ghost function PreorderKids(t: Tree, n: Node, i: nat): seq<Node>
    requires Forest(t) && n in t && i <= |t[n].kids|
    decreases Below(t, n), |t[n].kids| - i
  {
    if i == |t[n].kids| then []
    else
      KidBelow(t, n, t[n].kids[i]);
      Preorder(t, t[n].kids[i]) + PreorderKids(t, n, i + 1)
  }

  ghost predicate AllIn(t: Tree, ns: seq<Node>) {
    forall i :: 0 <= i < |ns| ==> ns[i] in t
  }

  ghost function PreorderAll(t: Tree, ns: seq<Node>): seq<Node>
    requires Forest(t) && AllIn(t, ns)
  {
    if ns == [] then [] else Preorder(t, ns[0]) + PreorderAll(t, ns[1..])
  }

  lemma {:induction false} KidsAreAll(t: Tree, n: Node, i: nat)
    requires Forest(t) && n in t && i <= |t[n].kids|
    ensures AllIn(t, t[n].kids[i..]) && PreorderKids(t, n, i) == PreorderAll(t, t[n].kids[i..])
    decreases |t[n].kids| - i
  {
    hide Forest;
    var kids := t[n].kids;
    if i < |kids| {
      KidBelow(t, n, kids[i]);
      KidsAreAll(t, n, i + 1);
      assert kids[i..][1..] == kids[i + 1..];
    }
  }

  lemma {:induction false} PreorderAllSplits(t: Tree, a: seq<Node>, b: seq<Node>)
    requires Forest(t) && AllIn(t, a) && AllIn(t, b)
    ensures AllIn(t, a + b) && PreorderAll(t, a + b) == PreorderAll(t, a) + PreorderAll(t, b)
    decreases |a|
  {
    hide Forest;
    if a == [] {
      assert a + b == b;
    } else {
      PreorderAllSplits(t, a[1..], b);
      assert (a + b)[1..] == a[1..] + b;
    }
  }

  /** Replacing a root by itself followed by its children's subtrees. */
  lemma PreorderUnfolds(t: Tree, n: Node, rest: seq<Node>)
    requires Forest(t) && n in t && AllIn(t, rest)
    ensures AllIn(t, t[n].kids + rest)
    ensures PreorderAll(t, [n] + rest) == [n] + PreorderAll(t, t[n].kids + rest)
  {
    var kids := t[n].kids;
    KidsAreAll(t, n, 0);
    assert kids[0..] == kids;
    PreorderAllSplits(t, kids, rest);
    assert ([n] + rest)[1..] == rest;
  }

  lemma {:induction false} ElementsSplit(a: seq<Node>, b: seq<Node>)
    ensures Elements(a + b) == Elements(a) + Elements(b)
    decreases |b|
  {
    if b == [] {
      assert a + b == a;
    } else {
      var k := |b| - 1;
      ElementsSplit(a, b[..k]);
      assert (a + b)[..|a + b| - 1] == a + b[..k];
    }
  }

  // ---------------------------------------------------------------- what preorder lists

  /** Preorder lists exactly the subtree. */
  lemma {:induction false} PreorderMembers(t: Tree, n: Node, x: Node)
    requires Forest(t) && n in t
    ensures x in Preorder(t, n) <==> x in t && Ancestor(t, n, x)
    decreases Below(t, n), |t[n].kids| + 1
  {
    AncestorRefl(t, n);
    KidsMembers(t, n, 0, x);
    if x in t && Ancestor(t, n, x) && x != n {
      KidsReach(t, n, x);
    }
  }

  lemma {:induction false} KidsMembers(t: Tree, n: Node, i: nat, x: Node)
    requires Forest(t) && n in t && i <= |t[n].kids|
    ensures x in PreorderKids(t, n, i) ==> x in t && Ancestor(t, n, x) && x != n
    ensures x in PreorderKids(t, n, i) <==> x in t && exists j :: i <= j < |t[n].kids| && Ancestor(t, t[n].kids[j], x)
    decreases Below(t, n), |t[n].kids| - i
  {
    var kids := t[n].kids;
    if i < |kids| {
      KidBelow(t, n, kids[i]);
      PreorderMembers(t, kids[i], x);
      KidsMembers(t, n, i + 1, x);
      if x in t && Ancestor(t, kids[i], x) {
        AncestorRefl(t, n);
        KidInSubtree(t, n, n, kids[i]);
        AncestorTrans(t, n, kids[i], x);
        KidNotAbove(t, n, kids[i]);
      }
    }
  }

  // ---------------------------------------------------------------- tree order

  /** `x` comes before `y` in tree order: it is above it, or below an earlier sibling. */
  ghost predicate Precedes(t: Tree, x: Node, y: Node) {
    (x != y && Ancestor(t, x, y)) || ViaSiblings(t, x, y)
  }

  ghost predicate ViaSiblings(t: Tree, x: Node, y: Node) {
    exists p :: p in t && SplitAt(t, p, x, y)
  }

  ghost predicate SplitAt(t: Tree, p: Node, x: Node, y: Node)
    requires p in t
  {
    exists i, j :: 0 <= i < j < |t[p].kids| && Ancestor(t, t[p].kids[i], x) && Ancestor(t, t[p].kids[j], y)
  }

  ghost predicate InTreeOrder(t: Tree, s: seq<Node>) {
    forall i, j :: 0 <= i < j < |s| ==> Precedes(t, s[i], s[j])
  }

  lemma {:induction false} PreorderIsOrdered(t: Tree, n: Node)
    requires Forest(t) && n in t
    ensures InTreeOrder(t, Preorder(t, n))
    decreases Below(t, n), |t[n].kids| + 1
  {
    KidsAreOrdered(t, n, 0);
    var s, rest := Preorder(t, n), PreorderKids(t, n, 0);
    forall j | 1 <= j < |s| ensures Precedes(t, s[0], s[j]) {
      assert s[j] == rest[j - 1];
      KidsMembers(t, n, 0, s[j]);
    }
    forall i, j | 1 <= i < j < |s| ensures Precedes(t, s[i], s[j]) {
      assert s[i] == rest[i - 1] && s[j] == rest[j - 1];
    }
  }

  lemma {:induction false} KidsAreOrdered(t: Tree, n: Node, i: nat)
    requires Forest(t) && n in t && i <= |t[n].kids|
    ensures InTreeOrder(t, PreorderKids(t, n, i))
    decreases Below(t, n), |t[n].kids| - i
  {
    var kids := t[n].kids;
    if i < |kids| {
      KidBelow(t, n, kids[i]);
      PreorderIsOrdered(t, kids[i]);
      KidsAreOrdered(t, n, i + 1);
      var a, b := Preorder(t, kids[i]), PreorderKids(t, n, i + 1);
      forall x, y | x in a && y in b ensures Precedes(t, x, y) {
        PreorderMembers(t, kids[i], x);
        KidsMembers(t, n, i + 1, y);
        assert SplitAt(t, n, x, y);
      }
      OrderedConcat(t, a, b);
    }
  }

  lemma OrderedConcat(t: Tree, a: seq<Node>, b: seq<Node>)
    requires InTreeOrder(t, a) && InTreeOrder(t, b) && forall x, y :: x in a && y in b ==> Precedes(t, x, y)
    ensures InTreeOrder(t, a + b)
  {
  }

  /** Tree order is asymmetric, so a list in tree order has no duplicates and is the
      only arrangement of its members. */
  lemma PrecedesAsymmetric(t: Tree, x: Node, y: Node)
    requires Forest(t) && x in t && y in t && Precedes(t, x, y)
    ensures x != y && !Precedes(t, y, x)
  {
    if x == y {
      AncestorRefl(t, x);
      SiblingsAreApart(t, x, y);
    } else if Precedes(t, y, x) {
      if Ancestor(t, x, y) && Ancestor(t, y, x) {
        AncestorAntisym(t, x, y);
      } else if ViaSiblings(t, x, y) && ViaSiblings(t, y, x) {
        SplitIsAsymmetric(t, x, y);
      } else if ViaSiblings(t, x, y) {
        SiblingsAreApart(t, x, y);
      } else {
        SiblingsAreApart(t, y, x);
      }
    }
  }

  lemma SplitFacts(t: Tree, x: Node, y: Node) returns (p: Node, i: nat, j: nat)
    requires Forest(t) && ViaSiblings(t, x, y)
    ensures p in t && i < j < |t[p].kids| && t[p].kids[i] in t && t[p].kids[j] in t && t[p].kids[i] != t[p].kids[j]
    ensures Ancestor(t, t[p].kids[i], x) && Ancestor(t, t[p].kids[j], y)
    ensures t[t[p].kids[i]].parent == p && t[t[p].kids[j]].parent == p
  {
    p :| p in t && SplitAt(t, p, x, y);
    i, j :| 0 <= i < j < |t[p].kids| && Ancestor(t, t[p].kids[i], x) && Ancestor(t, t[p].kids[j], y);
    assert t[p].kids[i] in t[p].kids && t[p].kids[j] in t[p].kids;
  }

  lemma SiblingsAreApart(t: Tree, x: Node, y: Node)
    requires Forest(t) && x in t && y in t && ViaSiblings(t, x, y)
    ensures !Ancestor(t, x, y) && !Ancestor(t, y, x)
  {
    var p, i, j := SplitFacts(t, x, y);
    var a, b := t[p].kids[i], t[p].kids[j];
    if Ancestor(t, x, y) {
      AncestorTrans(t, a, x, y);
      SiblingsApart(t, a, b, y);
    }
    if Ancestor(t, y, x) {
      AncestorTrans(t, b, y, x);
      SiblingsApart(t, a, b, x);
    }
  }

  lemma SplitIsAsymmetric(t: Tree, x: Node, y: Node)
    requires Forest(t) && x in t && y in t && ViaSiblings(t, x, y)
    ensures !ViaSiblings(t, y, x)
  {
    if ViaSiblings(t, y, x) {
      var p, i, j := SplitFacts(t, x, y);
      var q, k, l := SplitFacts(t, y, x);
      ForkIsUnique(t, p, t[p].kids[i], t[p].kids[j], q, t[q].kids[l], t[q].kids[k], x, y);
      SamePosition(t, p, i, l, x);
      SamePosition(t, p, j, k, y);
    }
  }

  lemma SamePosition(t: Tree, p: Node, i: nat, j: nat, x: Node)
    requires Forest(t) && p in t && i < |t[p].kids| && j < |t[p].kids|
    requires Ancestor(t, t[p].kids[i], x) && Ancestor(t, t[p].kids[j], x)
    ensures i == j
  {
    var a, b := t[p].kids[i], t[p].kids[j];
    assert a in t[p].kids && b in t[p].kids;
    if i != j { SiblingsApart(t, a, b, x); }
  }

  /** Two nodes part below one node only. */
  lemma ForkIsUnique(t: Tree, p: Node, a: Node, b: Node, q: Node, d: Node, c: Node, x: Node, y: Node)
    requires Forest(t) && p in t && q in t && a in t && b in t && c in t && d in t
    requires t[a].parent == p && t[b].parent == p && t[c].parent == q && t[d].parent == q && a != b && c != d
    requires Ancestor(t, a, x) && Ancestor(t, b, y) && Ancestor(t, d, x) && Ancestor(t, c, y)
    ensures p == q
  {
    AncestorChain(t, a, d, x);
    AncestorChain(t, b, c, y);
    AncestorStep(t, a, d);
    AncestorStep(t, d, a);
    AncestorStep(t, b, c);
    AncestorStep(t, c, b);
    if p != q {
      AncestorRefl(t, p);
      AncestorRefl(t, q);
      if Ancestor(t, a, q) {
        // then a is above y as well
        AncestorStep(t, q, c);
        AncestorTrans(t, a, q, c);
        AncestorTrans(t, a, c, y);
        SiblingsApart(t, a, b, y);
      } else if Ancestor(t, d, p) {
        AncestorStep(t, p, b);
        AncestorTrans(t, d, p, b);
        AncestorTrans(t, d, b, y);
        SiblingsApart(t, c, d, y);
      }
    }
  }

  lemma {:induction false} ElementsMembers(s: seq<Node>, x: Node)
    ensures x in Elements(s) <==> x in s && x.nodeType == ELEMENT
    decreases |s|
  {
    if s != [] {
      var k := |s| - 1;
      ElementsMembers(s[..k], x);
      assert s == s[..k] + [s[k]];
    }
  }

  lemma {:induction false} ElementsKeepOrder(t: Tree, s: seq<Node>)
    requires InTreeOrder(t, s)
    ensures InTreeOrder(t, Elements(s))
    decreases |s|
  {
    if s != [] {
      var k := |s| - 1;
      ElementsKeepOrder(t, s[..k]);
      var r := Elements(s[..k]);
      forall x | x in r ensures Precedes(t, x, s[k]) {
        ElementsMembers(s[..k], x);
        var i :| 0 <= i < k && s[..k][i] == x;
        assert s[i] == x;
      }
      OrderedConcat(t, r, [s[k]]);
    }
  }

  // ---------------------------------------------------------------- element descendants

  /** What `collectElementDescendants` computes, by structural recursion. */
  ghost function ElementDescendants(t: Tree, root: Node, includeRoot: bool): seq<Node>
    requires Forest(t) && root in t
  {
    if includeRoot then Elements(Preorder(t, root)) else Elements(PreorderKids(t, root, 0))
  }

  /** Exactly the elements of the subtree, in tree order, without duplicates. */
  lemma DescendantsAreExact(t: Tree, root: Node, includeRoot: bool)
    requires Forest(t) && root in t
    ensures var r := ElementDescendants(t, root, includeRoot);
      && (forall x :: x in r <==> x in t && x.nodeType == ELEMENT && Ancestor(t, root, x) && (includeRoot || x != root))
      && InTreeOrder(t, r) && Distinct(r)
  {
    var all := if includeRoot then Preorder(t, root) else PreorderKids(t, root, 0);
    var r := ElementDescendants(t, root, includeRoot);
    PreorderIsOrdered(t, root);
    KidsAreOrdered(t, root, 0);
    ElementsKeepOrder(t, all);
    hide Forest, Ancestor, Precedes, Preorder, PreorderKids;
    forall x ensures x in r <==> x in t && x.nodeType == ELEMENT && Ancestor(t, root, x) && (includeRoot || x != root) {
      DescendantMember(t, root, includeRoot, x);
    }
    assert AllIn(t, r) by { forall i | 0 <= i < |r| ensures r[i] in t { DescendantMember(t, root, includeRoot, r[i]); } }
    OrderedIsDistinct(t, r);
  }

  lemma DescendantMember(t: Tree, root: Node, includeRoot: bool, x: Node)
    requires Forest(t) && root in t
    ensures x in ElementDescendants(t, root, includeRoot) <==>
      x in t && x.nodeType == ELEMENT && Ancestor(t, root, x) && (includeRoot || x != root)
  {
    hide Forest, Ancestor;
    ElementsMembers(if includeRoot then Preorder(t, root) else PreorderKids(t, root, 0), x);
    PreorderMembers(t, root, x);
    KidsMembers(t, root, 0, x);
    if x in t && Ancestor(t, root, x) && x != root { KidsReach(t, root, x); }
  }

  lemma KidsReach(t: Tree, n: Node, x: Node)
    requires Forest(t) && n in t && x in t && Ancestor(t, n, x) && x != n
    ensures exists j :: 0 <= j < |t[n].kids| && Ancestor(t, t[n].kids[j], x)
  {
    var k := DescendantViaKid(t, n, x);
    var j :| 0 <= j < |t[n].kids| && t[n].kids[j] == k;
  }

  lemma OrderedIsDistinct(t: Tree, s: seq<Node>)
    requires Forest(t) && AllIn(t, s) && InTreeOrder(t, s)
    ensures Distinct(s)
  {
    forall i, j | 0 <= i < j < |s| ensures s[i] != s[j] {
      PrecedesAsymmetric(t, s[i], s[j]);
    }
  }

  /** There is one way to list given nodes in tree order. */
  lemma {:induction false} TreeOrderIsUnique(t: Tree, a: seq<Node>, b: seq<Node>)
    requires Forest(t) && AllIn(t, a) && AllIn(t, b) && InTreeOrder(t, a) && InTreeOrder(t, b)
    requires forall x :: x in a <==> x in b
    ensures a == b
    decreases |a|
  {
    SameEmptiness(a, b);
    if a != [] {
      SameFirst(t, a, b);
      forall x | x in a[1..] ensures x in b[1..] { TailMember(t, a, b, x); }
      forall x | x in b[1..] ensures x in a[1..] { TailMember(t, b, a, x); }
      TreeOrderIsUnique(t, a[1..], b[1..]);
    }
  }

  lemma SameEmptiness(a: seq<Node>, b: seq<Node>)
    requires forall x :: x in a <==> x in b
    ensures a == [] <==> b == []
  {
    if a != [] { assert a[0] in b; }
    if b != [] { assert b[0] in a; }
  }

  lemma TailMember(t: Tree, a: seq<Node>, b: seq<Node>, x: Node)
    requires Forest(t) && AllIn(t, a) && AllIn(t, b) && InTreeOrder(t, a)
    requires a != [] && b != [] && a[0] == b[0] && x in a[1..] && x in b
    ensures x in b[1..]
  {
    var i :| 0 <= i < |a[1..]| && a[1..][i] == x;
    PrecedesAsymmetric(t, a[0], a[i + 1]);
    var j :| 0 <= j < |b| && b[j] == x;
    assert b[1..][j - 1] == x;
  }

  lemma SameFirst(t: Tree, a: seq<Node>, b: seq<Node>)
    requires Forest(t) && AllIn(t, a) && AllIn(t, b) && InTreeOrder(t, a) && InTreeOrder(t, b)
    requires a != [] && b != [] && forall x :: x in a <==> x in b
    ensures a[0] == b[0]
  {
    assert a[0] in a && b[0] in b;
    var i :| 0 <= i < |b| && b[i] == a[0];
    var j :| 0 <= j < |a| && a[j] == b[0];
    if i != 0 && j != 0 { PrecedesAsymmetric(t, a[0], b[0]); }
  }
}
