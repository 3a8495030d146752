/** The markup a tree of nodes stands for, and how it changes when nodes are added. */
module DomMarkup {
  import opened Text
  import opened DomNodes
  import opened DomForest
  import opened DomModel
  import opened Markup

  type AttrTable = map<Node, seq<Attr>>

  /** The part of the state that markup shows. */
  datatype Page = Page(tree: Tree, text: map<Node, string>, attrs: AttrTable)

  ghost predicate WellFormed(g: Page) {
    Forest(g.tree) && g.text.Keys == g.tree.Keys
  }

  ghost function AttrsAt(g: Page, n: Node): seq<Attr> {
    if n in g.attrs then g.attrs[n] else []
  }

  ghost function MarkupOf(g: Page, n: Node): Markup
    requires WellFormed(g) && n in g.tree
    decreases Below(g.tree, n), 1
  {
    if n.nodeType == TEXT then TextNode(g.text[n])
    else if n.nodeType == COMMENT then CommentNode(g.text[n])
    else ElementNode(Lower(n.tagName), AttrsAt(g, n), MarkupKids(g, n, |g.tree[n].kids|))
  }

  /** The markup of the first `i` children. */
  ghost function MarkupKids(g: Page, n: Node, i: nat): (r: seq<Markup>)
    requires WellFormed(g) && n in g.tree && i <= |g.tree[n].kids|
    ensures |r| == i
    decreases Below(g.tree, n), 0, i
  {
    if i == 0 then []
    else
      var k := g.tree[n].kids[i - 1];
      KidBelow(g.tree, n, k);
      MarkupKids(g, n, i - 1) + [MarkupOf(g, k)]
  }

  ghost function AllKids(g: Page, n: Node): seq<Markup>
    requires WellFormed(g) && n in g.tree
  {
    MarkupKids(g, n, |g.tree[n].kids|)
  }

  lemma MarkupSteps(g: Page, n: Node, i: nat)
    requires WellFormed(g) && n in g.tree && i <= |g.tree[n].kids|
    ensures MarkupKids(g, n, 0) == []
    ensures i < |g.tree[n].kids| ==>
      var k := g.tree[n].kids[i];
      && k in g.tree && Below(g.tree, k) < Below(g.tree, n)
      && MarkupKids(g, n, i + 1) == MarkupKids(g, n, i) + [MarkupOf(g, k)]
  {
    if i < |g.tree[n].kids| { KidBelow(g.tree, n, g.tree[n].kids[i]); }
  }

  // ---------------------------------------------------------------- what does not change

  /** From `n` down nothing that shows differs. */
  ghost predicate ShowsSame(g: Page, g': Page, n: Node) {
    && WellFormed(g) && WellFormed(g') && g.tree.Keys <= g'.tree.Keys && n in g.tree
    && forall x :: x in g.tree && Ancestor(g.tree, n, x) ==>
         g'.tree[x].kids == g.tree[x].kids && g'.text[x] == g.text[x] && AttrsAt(g', x) == AttrsAt(g, x)
  }

  lemma SameFromKid(g: Page, g': Page, n: Node, k: Node)
    requires ShowsSame(g, g', n) && k in g.tree[n].kids
    ensures ShowsSame(g, g', k)
  {
    AncestorRefl(g.tree, n);
    KidInSubtree(g.tree, n, n, k);
    forall x | x in g.tree && Ancestor(g.tree, k, x) ensures Ancestor(g.tree, n, x) {
      AncestorTrans(g.tree, n, k, x);
    }
  }

  lemma {:induction false} SameMarkup(g: Page, g': Page, n: Node)
    requires ShowsSame(g, g', n)
    ensures n in g'.tree && MarkupOf(g', n) == MarkupOf(g, n)
    decreases Below(g.tree, n), 1
  {
    AncestorRefl(g.tree, n);
    SameKids(g, g', n, |g.tree[n].kids|);
  }

  lemma {:induction false} SameKids(g: Page, g': Page, n: Node, i: nat)
    requires ShowsSame(g, g', n) && i <= |g.tree[n].kids|
    ensures n in g'.tree && g'.tree[n].kids == g.tree[n].kids && MarkupKids(g', n, i) == MarkupKids(g, n, i)
    decreases Below(g.tree, n), 0, i
  {
    hide Forest, Below;
    AncestorRefl(g.tree, n);
    MarkupSteps(g, n, 0);
    MarkupSteps(g', n, 0);
    if i > 0 {
      var k := g.tree[n].kids[i - 1];
      MarkupSteps(g, n, i - 1);
      MarkupSteps(g', n, i - 1);
      SameFromKid(g, g', n, k);
      SameMarkup(g, g', k);
      SameKids(g, g', n, i - 1);
    }
  }

  // ---------------------------------------------------------------- one more child

  /** `g'` is `g` with the root `c` listed last under `p`, on a tree that may have
      gained nodes. */
  ghost predicate Listed(g: Page, g': Page, p: Node, c: Node) {
    && WellFormed(g) && WellFormed(g') && g.tree.Keys <= g'.tree.Keys && p in g.tree && c in g'.tree && p != c
    && g'.tree[p].kids == g.tree[p].kids + [c]
    && (forall n :: n in g.tree && n != p ==> g'.tree[n].kids == g.tree[n].kids)
    && (forall n :: n in g.tree ==> g'.text[n] == g.text[n] && AttrsAt(g', n) == AttrsAt(g, n))
  }

  lemma ListedKeeps(g: Page, g': Page, p: Node, c: Node, x: Node)
    requires Listed(g, g', p, c) && x in g.tree && !Ancestor(g.tree, x, p)
    ensures x in g'.tree && MarkupOf(g', x) == MarkupOf(g, x)
  {
    forall y | y in g.tree && Ancestor(g.tree, x, y) ensures y != p {}
    SameMarkup(g, g', x);
  }

  /** The children of a node that is not above `p` in their own branches. */
  lemma {:induction false} ListedKeepsKids(g: Page, g': Page, p: Node, c: Node, n: Node, i: nat)
    requires Listed(g, g', p, c) && n in g.tree && i <= |g.tree[n].kids|
    requires forall j :: 0 <= j < i ==> !Ancestor(g.tree, g.tree[n].kids[j], p)
    ensures n in g'.tree && i <= |g'.tree[n].kids| && MarkupKids(g', n, i) == MarkupKids(g, n, i)
    decreases i
  {
    hide MarkupKids, MarkupOf, Forest, Ancestor, Below;
    MarkupSteps(g, n, 0);
    MarkupSteps(g', n, 0);
    if i > 0 {
      var k := g.tree[n].kids[i - 1];
      ListedKeepsKids(g, g', p, c, n, i - 1);
      MarkupSteps(g, n, i - 1);
      ListedKeeps(g, g', p, c, k);
      assert g'.tree[n].kids[i - 1] == k;
      MarkupSteps(g', n, i - 1);
    }
  }

  /** The parent gains the markup of its new child behind what it had. */
  lemma ListedAdds(g: Page, g': Page, p: Node, c: Node)
    requires Listed(g, g', p, c)
    ensures AllKids(g', p) == AllKids(g, p) + [MarkupOf(g', c)]
  {
    hide MarkupKids, MarkupOf, Ancestor, Below;
    var kids := g.tree[p].kids;
    forall j | 0 <= j < |kids| ensures !Ancestor(g.tree, kids[j], p) {
      assert kids[j] in kids;
      KidNotAbove(g.tree, p, kids[j]);
    }
    ListedKeepsKids(g, g', p, c, p, |kids|);
    MarkupSteps(g', p, |kids|);
  }

  // ---------------------------------------------------------------- the open elements of a parse

  /** Each node of `ns` is the last child of the one before. */
  ghost predicate Spine(t: Tree, ns: seq<Node>) {
    && ns != []
    && (forall i :: 0 <= i < |ns| ==> ns[i] in t)
    && (forall j :: 0 < j < |ns| ==> EndsWith(t, ns[j - 1], ns[j]))
  }

  ghost predicate EndsWith(t: Tree, a: Node, b: Node) {
    a in t && t[a].kids != [] && t[a].kids[|t[a].kids| - 1] == b
  }

  /** The children of `ns[i]` that are closed. */
  ghost function ClosedKids(t: Tree, ns: seq<Node>, i: nat): nat
    requires Spine(t, ns) && i < |ns|
  {
    if i == |ns| - 1 then |t[ns[i]].kids|
    else
      assert EndsWith(t, ns[i], ns[i + 1]);
      |t[ns[i]].kids| - 1
  }

  /** The nodes on the spine hold what the frames say, behind the target's old children
      `base`. */
  ghost predicate Represents(g: Page, ns: seq<Node>, frames: seq<Frame>, base: seq<Markup>) {
    && WellFormed(g) && Spine(g.tree, ns) && |frames| == |ns|
    && (forall i {:trigger frames[i]} :: 0 <= i < |ns| ==>
         MarkupKids(g, ns[i], ClosedKids(g.tree, ns, i)) == (if i == 0 then base else []) + frames[i].kids)
    && (forall i {:trigger frames[i]} :: 0 < i < |ns| ==>
         ns[i].nodeType == ELEMENT && Lower(ns[i].tagName) == frames[i].tag && AttrsAt(g, ns[i]) == frames[i].attrs)
  }

  /** Nodes on the spine are above its end. */
  lemma {:induction false} SpineAbove(t: Tree, ns: seq<Node>, i: nat)
    requires Forest(t) && Spine(t, ns) && i < |ns|
    ensures Ancestor(t, ns[i], ns[|ns| - 1])
    decreases |ns| - i
  {
    var top := ns[|ns| - 1];
    if i == |ns| - 1 {
      AncestorRefl(t, top);
    } else {
      SpineAbove(t, ns, i + 1);
      AncestorRefl(t, ns[i]);
      assert EndsWith(t, ns[i], ns[i + 1]);
      KidInSubtree(t, ns[i], ns[i], ns[i + 1]);
      AncestorTrans(t, ns[i], ns[i + 1], top);
    }
  }

  /** ClosedKids children lie apart from the end of the spine. */
  lemma ClosedApart(t: Tree, ns: seq<Node>, i: nat, j: nat)
    requires Forest(t) && Spine(t, ns) && i < |ns| && j < ClosedKids(t, ns, i)
    ensures j < |t[ns[i]].kids| && t[ns[i]].kids[j] in t && !Ancestor(t, t[ns[i]].kids[j], ns[|ns| - 1])
  {
    var kids, top := t[ns[i]].kids, ns[|ns| - 1];
    assert kids[j] in kids;
    if i == |ns| - 1 {
      KidNotAbove(t, top, kids[j]);
    } else {
      var next := ns[i + 1];
      assert EndsWith(t, ns[i], next) && next in kids;
      SpineAbove(t, ns, i + 1);
      if Ancestor(t, kids[j], top) { SiblingsApart(t, kids[j], next, top); }
    }
  }

  /** The spine stays a spine when its end gains a child. */
  lemma ListedSpine(g: Page, g': Page, ns: seq<Node>, c: Node)
    requires Spine(g.tree, ns) && Listed(g, g', ns[|ns| - 1], c)
    ensures Spine(g'.tree, ns) && Spine(g'.tree, ns + [c])
    ensures forall i :: 0 <= i < |ns| - 1 ==> ClosedKids(g'.tree, ns, i) == ClosedKids(g.tree, ns, i) == ClosedKids(g'.tree, ns + [c], i)
    ensures ClosedKids(g'.tree, ns + [c], |ns| - 1) == ClosedKids(g.tree, ns, |ns| - 1) == |g.tree[ns[|ns| - 1]].kids|
  {
    hide Forest, Ancestor, MarkupOf, MarkupKids;
    var top, ms := ns[|ns| - 1], ns + [c];
    forall i | 0 <= i < |ns| - 1 ensures ns[i] != top && g'.tree[ns[i]].kids == g.tree[ns[i]].kids {
      NotTop(g.tree, ns, i);
    }
    forall j | 0 < j < |ns| ensures EndsWith(g'.tree, ns[j - 1], ns[j]) { assert EndsWith(g.tree, ns[j - 1], ns[j]); }
    forall j | 0 < j < |ms| ensures EndsWith(g'.tree, ms[j - 1], ms[j]) {
      if j < |ns| { assert EndsWith(g'.tree, ns[j - 1], ns[j]); }
    }
  }

  lemma NotTop(t: Tree, ns: seq<Node>, i: nat)
    requires Forest(t) && Spine(t, ns) && i < |ns| - 1
    ensures ns[i] != ns[|ns| - 1]
  {
    SpineAbove(t, ns, i + 1);
    assert EndsWith(t, ns[i], ns[i + 1]);
    assert ns[i + 1] in t[ns[i]].kids;
    KidNotAbove(t, ns[i], ns[i + 1]);
  }

  /** Adding a closed child at the end of the spine. */
  lemma AddsKid(g: Page, g': Page, ns: seq<Node>, c: Node, frames: seq<Frame>, base: seq<Markup>)
    requires Represents(g, ns, frames, base) && Listed(g, g', ns[|ns| - 1], c)
    ensures Represents(g', ns, AddKid(frames, MarkupOf(g', c)), base)
  {
    hide MarkupKids, MarkupOf, Forest, Ancestor, Below, ClosedKids, Spine;
    var m := MarkupOf(g', c);
    FramesFit(g, ns, frames, base);
    var frames', top := AddKid(frames, m), |ns| - 1;
    SpineParts(g.tree, ns);
    ListedSpine(g, g', ns, c);
    SpineParts(g'.tree, ns);
    ListedAdds(g, g', ns[top], c);
    forall i {:trigger frames'[i]} | 0 <= i < |ns|
      ensures MarkupKids(g', ns[i], ClosedKids(g'.tree, ns, i)) == (if i == 0 then base else []) + frames'[i].kids
    {
      assert frames[i] == frames[i];
      if i < top {
        KeepsClosed(g, g', ns, c, i);
      } else {
        TopClosed(g, ns);
        TopClosed(g', ns);
        Reassociate(if i == 0 then base else [], frames[i].kids, m);
      }
    }
    forall i {:trigger frames'[i]} | 0 < i < |ns|
      ensures ns[i].nodeType == ELEMENT && Lower(ns[i].tagName) == frames'[i].tag && AttrsAt(g', ns[i]) == frames'[i].attrs
    {
      assert frames[i] == frames[i];
    }
  }

  lemma Reassociate(a: seq<Markup>, b: seq<Markup>, m: Markup)
    ensures a + b + [m] == a + (b + [m])
  {
  }

  lemma SpineParts(t: Tree, ns: seq<Node>)
    requires Spine(t, ns)
    ensures ns != [] && forall i :: 0 <= i < |ns| ==> ns[i] in t && ClosedKids(t, ns, i) <= |t[ns[i]].kids|
  {
  }

  lemma TopClosed(g: Page, ns: seq<Node>)
    requires WellFormed(g) && Spine(g.tree, ns)
    ensures ns[|ns| - 1] in g.tree
    ensures MarkupKids(g, ns[|ns| - 1], ClosedKids(g.tree, ns, |ns| - 1)) == AllKids(g, ns[|ns| - 1])
  {
  }

  lemma KeepsClosed(g: Page, g': Page, ns: seq<Node>, c: Node, i: nat)
    requires Spine(g.tree, ns) && Listed(g, g', ns[|ns| - 1], c) && i < |ns|
    ensures Spine(g'.tree, ns) && ns[i] in g.tree && ns[i] in g'.tree
    ensures ClosedKids(g.tree, ns, i) <= |g.tree[ns[i]].kids| && ClosedKids(g.tree, ns, i) <= |g'.tree[ns[i]].kids|
    ensures MarkupKids(g', ns[i], ClosedKids(g.tree, ns, i)) == MarkupKids(g, ns[i], ClosedKids(g.tree, ns, i))
  {
    hide MarkupKids, MarkupOf, Ancestor, Below, ClosedKids;
    SpineParts(g.tree, ns);
    ListedSpine(g, g', ns, c);
    forall j | 0 <= j < ClosedKids(g.tree, ns, i) ensures !Ancestor(g.tree, g.tree[ns[i]].kids[j], ns[|ns| - 1]) {
      ClosedApart(g.tree, ns, i, j);
    }
    ListedKeepsKids(g, g', ns[|ns| - 1], c, ns[i], ClosedKids(g.tree, ns, i));
  }

  /** Opening an element at the end of the spine. */
  lemma PushesFrame(g: Page, g': Page, ns: seq<Node>, c: Node, f: Frame, frames: seq<Frame>, base: seq<Markup>)
    requires Represents(g, ns, frames, base) && Listed(g, g', ns[|ns| - 1], c)
    requires c.nodeType == ELEMENT && g'.tree[c].kids == [] && f == Frame(Lower(c.tagName), AttrsAt(g', c), [])
    ensures Represents(g', ns + [c], frames + [f], base)
  {
    hide MarkupKids, MarkupOf, Forest, Ancestor, Below, ClosedKids, Spine;
    var ms, frames', top := ns + [c], frames + [f], |ns| - 1;
    SpineParts(g.tree, ns);
    ListedSpine(g, g', ns, c);
    SpineParts(g'.tree, ms);
    forall i {:trigger frames'[i]} | 0 <= i < |ms|
      ensures MarkupKids(g', ms[i], ClosedKids(g'.tree, ms, i)) == (if i == 0 then base else []) + frames'[i].kids
    {
      if i <= top {
        assert frames[i] == frames'[i] && ms[i] == ns[i];
        KeepsClosed(g, g', ns, c, i);
      } else {
        MarkupSteps(g', c, 0);
        TopClosed(g', ms);
      }
    }
    forall i {:trigger frames'[i]} | 0 < i < |ms|
      ensures ms[i].nodeType == ELEMENT && Lower(ms[i].tagName) == frames'[i].tag && AttrsAt(g', ms[i]) == frames'[i].attrs
    {
      if i <= top { assert frames[i] == frames'[i] && ms[i] == ns[i]; }
    }
  }

  /** Closing the innermost element. */
  lemma ClosesOne(g: Page, ns: seq<Node>, frames: seq<Frame>, base: seq<Markup>)
    requires Represents(g, ns, frames, base) && |ns| > 1
    ensures var f := frames[|frames| - 1];
      Represents(g, ns[..|ns| - 1], AddKid(frames[..|frames| - 1], ElementNode(f.tag, f.attrs, f.kids)), base)
  {
    hide MarkupKids, MarkupOf, Forest, Ancestor, Below, ClosedKids, Spine;
    var low, f, c := ns[..|ns| - 1], frames[|frames| - 1], ns[|ns| - 1];
    var rest := frames[..|frames| - 1];
    var m := ElementNode(f.tag, f.attrs, f.kids);
    var frames' := AddKid(rest, m);
    ShorterSpine(g.tree, ns);
    SpineParts(g.tree, ns);
    SpineParts(g.tree, low);
    TopMarkup(g, ns, frames, base);
    forall i {:trigger frames'[i]} | 0 <= i < |low|
      ensures MarkupKids(g, low[i], ClosedKids(g.tree, low, i)) == (if i == 0 then base else []) + frames'[i].kids
    {
      assert frames[i] == rest[i] && low[i] == ns[i];
      if i == |low| - 1 {
        TopClosed(g, low);
        LastKid(g, ns);
        Reassociate(if i == 0 then base else [], frames[i].kids, m);
      }
    }
    forall i {:trigger frames'[i]} | 0 < i < |low|
      ensures low[i].nodeType == ELEMENT && Lower(low[i].tagName) == frames'[i].tag && AttrsAt(g, low[i]) == frames'[i].attrs
    {
      assert frames[i] == rest[i] && low[i] == ns[i];
    }
  }

  lemma ShorterSpine(t: Tree, ns: seq<Node>)
    requires Spine(t, ns) && |ns| > 1
    ensures var low := ns[..|ns| - 1];
      Spine(t, low) && forall i :: 0 <= i < |low| - 1 ==> ClosedKids(t, low, i) == ClosedKids(t, ns, i)
  {
    var low := ns[..|ns| - 1];
    forall j | 0 < j < |low| ensures EndsWith(t, low[j - 1], low[j]) { assert EndsWith(t, ns[j - 1], ns[j]); }
  }

  /** The innermost element's own markup. */
  lemma TopMarkup(g: Page, ns: seq<Node>, frames: seq<Frame>, base: seq<Markup>)
    requires Represents(g, ns, frames, base) && |ns| > 1
    ensures var f, c := frames[|frames| - 1], ns[|ns| - 1];
      c in g.tree && MarkupOf(g, c) == ElementNode(f.tag, f.attrs, f.kids)
  {
    hide MarkupKids, Forest, Ancestor, Below, Spine;
    SpineParts(g.tree, ns);
    var f := frames[|frames| - 1];
    TopClosed(g, ns);
    assert [] + f.kids == f.kids;
  }

  lemma LastKid(g: Page, ns: seq<Node>)
    requires WellFormed(g) && Spine(g.tree, ns) && |ns| > 1
    ensures var p := ns[|ns| - 2];
      && p in g.tree && ns[|ns| - 1] in g.tree && ClosedKids(g.tree, ns, |ns| - 2) <= |g.tree[p].kids|
      && AllKids(g, p) == MarkupKids(g, p, ClosedKids(g.tree, ns, |ns| - 2)) + [MarkupOf(g, ns[|ns| - 1])]
  {
    hide MarkupKids, MarkupOf, Forest, Ancestor, Below;
    var p := ns[|ns| - 2];
    assert EndsWith(g.tree, p, ns[|ns| - 1]);
    MarkupSteps(g, p, |g.tree[p].kids| - 1);
  }

  lemma {:induction false} ClosesDownTo(g: Page, ns: seq<Node>, frames: seq<Frame>, base: seq<Markup>, n: nat)
    requires Represents(g, ns, frames, base) && 0 < n <= |ns|
    ensures Represents(g, ns[..n], CloseTo(frames, n), base)
    decreases |ns|
  {
    hide Represents;
    FramesFit(g, ns, frames, base);
    if n == |ns| {
      assert ns[..n] == ns;
    } else {
      var f := frames[|frames| - 1];
      ClosesOne(g, ns, frames, base);
      ClosesDownTo(g, ns[..|ns| - 1], AddKid(frames[..|frames| - 1], ElementNode(f.tag, f.attrs, f.kids)), base, n);
      assert ns[..|ns| - 1][..n] == ns[..n];
    }
  }

  lemma FramesFit(g: Page, ns: seq<Node>, frames: seq<Frame>, base: seq<Markup>)
    requires Represents(g, ns, frames, base)
    ensures |frames| == |ns| && ns != []
  {
  }

  /** When the parse ends the target holds its old children and the parsed ones. */
  lemma ParseEnds(g: Page, ns: seq<Node>, frames: seq<Frame>, base: seq<Markup>)
    requires Represents(g, ns, frames, base)
    ensures ns != [] && |frames| == |ns| && WellFormed(g) && ns[0] in g.tree
    ensures AllKids(g, ns[0]) == base + CloseTo(frames, 1)[0].kids
  {
    hide MarkupKids, Forest, Spine;
    FramesFit(g, ns, frames, base);
    ClosesDownTo(g, ns, frames, base, 1);
    SpineParts(g.tree, ns);
    TopClosed(g, ns[..1]);
    assert CloseTo(frames, 1)[0] == CloseTo(frames, 1)[0];
  }

  lemma ParseStarts(g: Page, target: Node)
    requires WellFormed(g) && target in g.tree
    ensures Represents(g, [target], [TARGET], AllKids(g, target))
  {
    assert AllKids(g, target) + [] == AllKids(g, target);
  }
}
