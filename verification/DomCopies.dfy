/** What a deep copy is: a one-to-one map from the nodes of a subtree to the nodes of
    its copy that keeps contents and child lists. */
module DomCopies {
  import opened DomNodes
  import opened DomForest
  import opened Markup
  import opened DomMarkup

  /** `y` in `g'` has the own contents of `x` in `g`; `style` holds the inline styles. */
  ghost predicate CopyAt(g: Page, g': Page, style: map<Node, Style>, x: Node, y: Node) {
    && x in g.tree && y in g'.tree && x in g.text && y in g'.text && x in style && y in style
    && y.nodeType == x.nodeType && y.tagName == x.tagName && y.localName == x.localName
    && g'.text[y] == g.text[x] && AttrsAt(g', y) == AttrsAt(g, x) && style[y] == style[x]
  }

  /** The children of the copy of `x` are the copies of its first `i` children. */
  ghost predicate KidsCopied(g: Page, g': Page, twin: map<Node, Node>, x: Node, i: nat) {
    && x in g.tree && i <= |g.tree[x].kids| && x in twin && twin[x] in g'.tree
    && |g'.tree[twin[x]].kids| == i
    && forall j :: 0 <= j < i ==> g.tree[x].kids[j] in twin && g'.tree[twin[x]].kids[j] == twin[g.tree[x].kids[j]]
  }

  /** `twin` maps `n` and its first `i` branches to a copy `c` made of nodes not in `before`. */
  ghost predicate Copied(g: Page, g': Page, style: map<Node, Style>, n: Node, c: Node, twin: map<Node, Node>, i: nat, before: set<Node>) {
    && n in g.tree && n in twin && twin[n] == c && i <= |g.tree[n].kids|
    && (forall x {:trigger twin[x]} :: x in twin ==>
         CopyAt(g, g', style, x, twin[x]) && twin[x] !in before && Ancestor(g.tree, n, x))
    && (forall x {:trigger twin[x]} :: x in twin ==> KidsCopied(g, g', twin, x, Depicted(g, n, x, i)))
    && (forall x, y :: x in twin && y in twin && x != y ==> twin[x] != twin[y])
    && (forall x, j :: x in twin && i <= j < |g.tree[n].kids| ==> !Ancestor(g.tree, g.tree[n].kids[j], x))
  }

  /** How many children of `x` are copied: all, but of `n` itself the first `i`. */
  function Depicted(g: Page, n: Node, x: Node, i: nat): nat
    requires x in g.tree
  {
    if x == n then i else |g.tree[x].kids|
  }

  /** Everything there was in `g` is as it was, except that `c` may have gained children. */
  ghost predicate Beside(g: Page, style: map<Node, Style>, g': Page, style': map<Node, Style>, c: Node) {
    && g.tree.Keys <= g'.tree.Keys && g.text.Keys <= g'.text.Keys && style.Keys <= style'.Keys
    && (forall n :: n in g.tree && n != c ==> g'.tree[n].kids == g.tree[n].kids)
    && (forall n :: n in g.tree ==> AttrsAt(g', n) == AttrsAt(g, n))
    && (forall n :: n in g.text ==> g'.text[n] == g.text[n])
    && (forall n :: n in style ==> style'[n] == style[n])
  }

  lemma CopyStays(g: Page, g1: Page, style1: map<Node, Style>, g3: Page, style3: map<Node, Style>, c: Node, x: Node, y: Node)
    requires CopyAt(g, g1, style1, x, y) && Beside(g1, style1, g3, style3, c)
    ensures CopyAt(g, g3, style3, x, y)
  {
    hide AttrsAt;
  }

  lemma KidsStay(g: Page, g1: Page, style1: map<Node, Style>, g3: Page, style3: map<Node, Style>, c: Node,
                 twin: map<Node, Node>, all: map<Node, Node>, x: Node, i: nat)
    requires KidsCopied(g, g1, twin, x, i) && Beside(g1, style1, g3, style3, c) && twin[x] != c
    requires forall y :: y in twin ==> y in all && all[y] == twin[y]
    ensures KidsCopied(g, g3, all, x, i)
  {
  }

  lemma OneKidMoreCopied(g: Page, g1: Page, g3: Page, c: Node, d: Node, twin: map<Node, Node>, all: map<Node, Node>, n: Node, i: nat)
    requires KidsCopied(g, g1, twin, n, i) && twin[n] == c && i < |g.tree[n].kids| && c in g3.tree
    requires g3.tree[c].kids == g1.tree[c].kids + [d]
    requires forall y :: y in twin ==> y in all && all[y] == twin[y]
    requires g.tree[n].kids[i] in all && all[g.tree[n].kids[i]] == d
    ensures KidsCopied(g, g3, all, n, i + 1)
  {
  }

  lemma CopyStarts(g: Page, g': Page, style: map<Node, Style>, n: Node, c: Node, before: set<Node>)
    requires WellFormed(g) && n in g.tree && CopyAt(g, g', style, n, c) && g'.tree[c].kids == [] && c !in before
    ensures Copied(g, g', style, n, c, map[n := c], 0, before)
  {
    hide Forest;
    hide AttrsAt;
    AncestorRefl(g.tree, n);
    forall j | 0 <= j < |g.tree[n].kids| ensures !Ancestor(g.tree, g.tree[n].kids[j], n) {
      KidNotAbove(g.tree, n, g.tree[n].kids[j]);
    }
  }

  /** The map for a node and one more of its branches. */
  lemma CopyGrows(g: Page, g1: Page, style1: map<Node, Style>, g2: Page, style2: map<Node, Style>, g3: Page, style3: map<Node, Style>,
                  n: Node, c: Node, twin: map<Node, Node>, i: nat, before: set<Node>,
                  k: Node, d: Node, branch: map<Node, Node>, before1: set<Node>)
    requires WellFormed(g) && Copied(g, g1, style1, n, c, twin, i, before) && i < |g.tree[n].kids| && k == g.tree[n].kids[i]
    requires k in g.tree && Copied(g, g2, style2, k, d, branch, |g.tree[k].kids|, before1)
    requires Beside(g1, style1, g3, style3, c) && Beside(g2, style2, g3, style3, c)
    requires g1.tree.Keys <= before1 && before <= before1 && c in g1.tree && c in g3.tree && g3.tree[c].kids == g1.tree[c].kids + [d]
    ensures Copied(g, g3, style3, n, c, twin + branch, i + 1, before)
  {
    hide CopyAt, KidsCopied, Beside, Ancestor, WellFormed;
    var all := twin + branch;
    BranchesApart(g, g1, style1, n, c, twin, i, before, g2, style2, k, d, branch, before1);
    forall x {:trigger all[x]} | x in all
      ensures CopyAt(g, g3, style3, x, all[x]) && all[x] !in before && Ancestor(g.tree, n, x)
      ensures KidsCopied(g, g3, all, x, Depicted(g, n, x, i + 1))
    {
      if x in branch {
        CopyStays(g, g2, style2, g3, style3, c, x, branch[x]);
        KidsStay(g, g2, style2, g3, style3, c, branch, all, x, |g.tree[x].kids|);
      } else {
        CopyStays(g, g1, style1, g3, style3, c, x, twin[x]);
        if x == n {
          OneKidMoreCopied(g, g1, g3, c, d, twin, all, n, i);
        } else {
          KidsStay(g, g1, style1, g3, style3, c, twin, all, x, |g.tree[x].kids|);
        }
      }
    }
    forall x, y | x in all && y in all && x != y ensures all[x] != all[y] {
      assert x in branch || x in twin;
      assert y in branch || y in twin;
    }
    forall x, j | x in all && i + 1 <= j < |g.tree[n].kids| ensures !Ancestor(g.tree, g.tree[n].kids[j], x) {
      assert x in branch || x in twin;
    }
    assert all[n] == c;
  }

  lemma BranchesApart(g: Page, g1: Page, style1: map<Node, Style>, n: Node, c: Node, twin: map<Node, Node>, i: nat, before: set<Node>,
                      g2: Page, style2: map<Node, Style>, k: Node, d: Node, branch: map<Node, Node>, before1: set<Node>)
    requires WellFormed(g) && Copied(g, g1, style1, n, c, twin, i, before) && i < |g.tree[n].kids| && k == g.tree[n].kids[i]
    requires k in g.tree && Copied(g, g2, style2, k, d, branch, |g.tree[k].kids|, before1)
    requires g1.tree.Keys <= before1 && before <= before1 && c in g1.tree
    ensures twin.Keys !! branch.Keys && n !in branch
    ensures forall x :: x in twin ==> twin[x] in g1.tree
    ensures forall x, y :: x in twin && y in branch ==> twin[x] != branch[y]
    ensures forall x :: x in branch ==> branch[x] != c && branch[x] !in before && Ancestor(g.tree, n, x)
    ensures forall x :: x in twin && x != n ==> twin[x] != c
    ensures forall x, j :: x in branch && i < j < |g.tree[n].kids| ==> !Ancestor(g.tree, g.tree[n].kids[j], x)
    ensures forall x :: x in branch ==> x in g.tree && KidsCopied(g, g2, branch, x, |g.tree[x].kids|)
    ensures forall x :: x in twin ==> x in g.tree
  {
    hide KidsCopied, Ancestor;
    forall x | x in branch ensures x !in twin && Ancestor(g.tree, n, x) {
      assert Ancestor(g.tree, k, x);
      AncestorRefl(g.tree, n);
      KidInSubtree(g.tree, n, n, k);
      AncestorTrans(g.tree, n, k, x);
    }
    forall x, j | x in branch && i < j < |g.tree[n].kids| ensures !Ancestor(g.tree, g.tree[n].kids[j], x) {
      LaterBranch(g, n, i, j, x);
    }
  }

  lemma LaterBranch(g: Page, n: Node, i: nat, j: nat, x: Node)
    requires WellFormed(g) && n in g.tree && i < j < |g.tree[n].kids| && Ancestor(g.tree, g.tree[n].kids[i], x)
    ensures !Ancestor(g.tree, g.tree[n].kids[j], x)
  {
    var a, b := g.tree[n].kids[i], g.tree[n].kids[j];
    assert a in g.tree[n].kids && b in g.tree[n].kids && a != b;
    if Ancestor(g.tree, b, x) { SiblingsApart(g.tree, a, b, x); }
  }

  // ---------------------------------------------------------------- what it means

  /** The map covers exactly the subtree. */
  lemma {:induction false} CoversBelow(g: Page, g': Page, style: map<Node, Style>, n: Node, c: Node, twin: map<Node, Node>, before: set<Node>, x: Node)
    requires WellFormed(g) && n in g.tree && Copied(g, g', style, n, c, twin, |g.tree[n].kids|, before) && x in g.tree && Ancestor(g.tree, n, x)
    ensures x in twin
    decreases Depth(g.tree, x)
  {
    hide CopyAt;
    if x != n {
      AncestorStep(g.tree, n, x);
      var q := g.tree[x].parent;
      if q == null { AncestorOfNull(g.tree, n); }
      DepthParent(g.tree, x);
      CoversBelow(g, g', style, n, c, twin, before, q);
      assert x in g.tree[q].kids && KidsCopied(g, g', twin, q, |g.tree[q].kids|);
    }
  }

  /** Nothing else lies below the copy. */
  lemma {:induction false} OnlyCopiesBelow(g: Page, g': Page, style: map<Node, Style>, n: Node, c: Node, twin: map<Node, Node>, before: set<Node>, y: Node)
    returns (x: Node)
    requires WellFormed(g) && WellFormed(g') && n in g.tree && Copied(g, g', style, n, c, twin, |g.tree[n].kids|, before)
    requires y in g'.tree && Ancestor(g'.tree, c, y)
    ensures x in twin && twin[x] == y
    decreases Depth(g'.tree, y)
  {
    hide CopyAt;
    if y == c {
      x := n;
    } else {
      AncestorStep(g'.tree, c, y);
      var q := g'.tree[y].parent;
      if q == null { AncestorOfNull(g'.tree, c); }
      DepthParent(g'.tree, y);
      var above := OnlyCopiesBelow(g, g', style, n, c, twin, before, q);
      assert KidsCopied(g, g', twin, above, |g.tree[above].kids|);
      var j :| 0 <= j < |g'.tree[q].kids| && g'.tree[q].kids[j] == y;
      x := g.tree[above].kids[j];
    }
  }
}
