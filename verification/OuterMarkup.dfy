/** Replacing a node by parsed markup: what `setOuterHTML` does to the markup of the
    parent. */
module OuterMarkup {
  import opened DomNodes
  import opened DomForest
  import opened DomModel
  import opened DomInsertion
  import opened ElementSplice
  import opened Markup
  import opened DomMarkup
  import opened MarkupRoundTrip
  import opened MarkupDom
  import opened DomRuns
  import DomHistory

  lemma {:induction false} KidsPointwise(g: Page, n: Node, i: nat, j: nat)
    requires WellFormed(g) && n in g.tree && j < i <= |g.tree[n].kids|
    ensures g.tree[n].kids[j] in g.tree && MarkupKids(g, n, i)[j] == MarkupOf(g, g.tree[n].kids[j])
    decreases i
  {
    hide MarkupKids, MarkupOf, Below;
    MarkupSteps(g, n, i - 1);
    if j < i - 1 { KidsPointwise(g, n, i - 1, j); }
  }

  /** A branch that holds none of the changed nodes keeps its markup. */
  ghost predicate ChangedOnly(g: Page, g': Page, a: Node, b: Node) {
    && WellFormed(g) && WellFormed(g') && g'.tree.Keys == g.tree.Keys && g'.text == g.text && g'.attrs == g.attrs
    && forall n :: n in g.tree && n != a && n != b ==> g'.tree[n].kids == g.tree[n].kids
  }

  lemma BranchKept(g: Page, g': Page, a: Node, b: Node, x: Node)
    requires ChangedOnly(g, g', a, b) && x in g.tree && !Ancestor(g.tree, x, a) && !Ancestor(g.tree, x, b)
    ensures x in g'.tree && MarkupOf(g', x) == MarkupOf(g, x)
  {
    hide MarkupOf;
    forall y | y in g.tree && Ancestor(g.tree, x, y) ensures y != a && y != b {}
    SameMarkup(g, g', x);
  }

  // ---------------------------------------------------------------- the insertion of the fragment

  lemma {:induction false} InsertAllText(s: DomState, p: Node, cs: seq<Node>, b: Node)
    requires Inv(s) && p in s.tree && forall c :: c in cs ==> c in s.tree && c.nodeType != FRAGMENT
    ensures InsertAll(s, p, cs, b).0.text == s.text
    decreases |cs|
  {
    hide Inv, InsertOne;
    if cs != [] {
      InsertOneText(s, p, cs[0], b);
      if InsertOne(s, p, cs[0], b).1 == Done { InsertAllText(InsertOne(s, p, cs[0], b).0, p, cs[1..], b); }
    }
  }

  lemma InsertOneText(s: DomState, p: Node, c: Node, b: Node)
    requires Inv(s) && p in s.tree && c in s.tree && c.nodeType != FRAGMENT
    ensures InsertOne(s, p, c, b).0.text == s.text
  {
    hide Inv, Ancestor, ValidInsertion;
  }

  lemma InsertText(s: DomState, p: Node, f: Node, b: Node)
    requires Inv(s) && p in s.tree && f in s.tree && f.nodeType == FRAGMENT
    ensures Insert(s, p, f, b).0.text == s.text
  {
    hide Inv, Insert, Ancestor, ValidInsertion;
    InsertCases(s, p, f, b);
    if b in s.tree[p].kids && p != f && !Ancestor(s.tree, f, p) && ValidInsertion(s.tree, p, f) {
      InsertAllText(s, p, s.tree[f].kids, b);
    }
  }

  /** After a successful `insertBefore` of a fragment the parent's markup has the
      fragment's in front of the reference node. */
  lemma FragmentShows(s: DomState, attrs: AttrTable, p: Node, f: Node, b: Node)
    requires Inv(s) && p in s.tree && f in s.tree && f.nodeType == FRAGMENT && Insert(s, p, f, b).1 == Done
    ensures var s' := Insert(s, p, f, b).0;
      var g, g' := Page(s.tree, s.text, attrs), Page(s'.tree, s'.text, attrs);
      && WellFormed(g) && WellFormed(g') && b in s.tree[p].kids && p in g'.tree
      && var i := IndexOf(s.tree[p].kids, b);
      && 0 <= i < |s.tree[p].kids|
      && s'.tree[p].kids == s.tree[p].kids[..i] + s.tree[f].kids + s.tree[p].kids[i..]
      && AllKids(g', p) == AllKids(g, p)[..i] + AllKids(g, f) + AllKids(g, p)[i..]
  {
    hide Inv, Insert, Ancestor, MarkupOf, MarkupKids, Spliced;
    var s' := Insert(s, p, f, b).0;
    InsertIsAtomic(s, p, f, b);
    InsertFragmentSplices(s, p, f, b);
    InsertText(s, p, f, b);
    PageIsWellFormed(s, attrs);
    PageIsWellFormed(s', attrs);
    SplicedShows(Page(s.tree, s.text, attrs), Page(s'.tree, s'.text, attrs), p, f, IndexOf(s.tree[p].kids, b));
    assert s'.tree[p].kids == s.tree[p].kids[..IndexOf(s.tree[p].kids, b)] + s.tree[f].kids + s.tree[p].kids[IndexOf(s.tree[p].kids, b)..] by {
      SplicedKids(s.tree, s'.tree, p, f, IndexOf(s.tree[p].kids, b));
    }
  }

  lemma SplicedKids(t: Tree, t': Tree, p: Node, f: Node, i: nat)
    requires Spliced(t, t', p, f, i)
    ensures t'.Keys == t.Keys && p in t && i <= |t[p].kids| && t'[p].kids == t[p].kids[..i] + t[f].kids + t[p].kids[i..]
    ensures forall n :: n in t && n != p && n != f ==> t'[n].kids == t[n].kids
  {
  }

  lemma SplicedShows(g: Page, g': Page, p: Node, f: Node, i: nat)
    requires WellFormed(g) && WellFormed(g') && g'.text == g.text && g'.attrs == g.attrs && p != f
    requires f in g.tree && f.nodeType == FRAGMENT && !Ancestor(g.tree, f, p) && Spliced(g.tree, g'.tree, p, f, i)
    ensures p in g.tree && i <= |g.tree[p].kids|
    ensures AllKids(g', p) == AllKids(g, p)[..i] + AllKids(g, f) + AllKids(g, p)[i..]
  {
    hide MarkupOf, MarkupKids, Spliced, Forest, Ancestor;
    SplicedKids(g.tree, g'.tree, p, f, i);
    var kids, fk, all := g.tree[p].kids, g.tree[f].kids, g'.tree[p].kids;
    var l, r := AllKids(g', p), AllKids(g, p)[..i] + AllKids(g, f) + AllKids(g, p)[i..];
    forall j | 0 <= j < |all| ensures l[j] == r[j] {
      KidsPointwise(g', p, |all|, j);
      if j < i {
        KidsPointwise(g, p, |kids|, j);
        KidApart(g.tree, p, f, kids[j]);
        BranchKept(g, g', p, f, kids[j]);
      } else if j < i + |fk| {
        KidsPointwise(g, f, |fk|, j - i);
        FragmentKidApart(g.tree, p, f, fk[j - i]);
        BranchKept(g, g', p, f, fk[j - i]);
      } else {
        KidsPointwise(g, p, |kids|, j - |fk|);
        KidApart(g.tree, p, f, kids[j - |fk|]);
        BranchKept(g, g', p, f, kids[j - |fk|]);
      }
    }
  }

  lemma KidApart(t: Tree, p: Node, f: Node, k: Node)
    requires Forest(t) && p in t && f in t && f.nodeType == FRAGMENT && k in t[p].kids
    ensures k in t && !Ancestor(t, k, p) && !Ancestor(t, k, f)
  {
    hide Ancestor;
    KidNotAbove(t, p, k);
    DocumentsAndFragmentsAreRoots(t, f);
    LooseUnder(t, k, f);
  }

  lemma FragmentKidApart(t: Tree, p: Node, f: Node, k: Node)
    requires Forest(t) && p in t && f in t && f.nodeType == FRAGMENT && k in t[f].kids && !Ancestor(t, f, p)
    ensures k in t && !Ancestor(t, k, p) && !Ancestor(t, k, f)
  {
    hide Ancestor;
    AncestorOfKid(t, f, k, p);
    KidNotAbove(t, f, k);
  }

  // ---------------------------------------------------------------- the removal of the node

  lemma RemovalShows(s: DomState, attrs: AttrTable, p: Node, b: Node)
    requires Inv(s) && p in s.tree && b in s.tree && b in s.tree[p].kids
    ensures var s' := Remove(s, p, b).0;
      var g, g' := Page(s.tree, s.text, attrs), Page(s'.tree, s'.text, attrs);
      && WellFormed(g) && WellFormed(g') && p in g'.tree
      && var i := IndexOf(s.tree[p].kids, b);
      && 0 <= i < |s.tree[p].kids|
      && AllKids(g', p) == AllKids(g, p)[..i] + AllKids(g, p)[i + 1..]
  {
    hide Inv, Remove, Ancestor, MarkupOf, MarkupKids, Forest;
    var s' := Remove(s, p, b).0;
    var g, g' := Page(s.tree, s.text, attrs), Page(s'.tree, s'.text, attrs);
    PageIsWellFormed(s, attrs);
    PageIsWellFormed(s', attrs);
    KidsOfInv(s, p);
    RemoveIs(s, p, b);
    RemoveText(s, p, b);
    DetachedKids(s, p, b);
    var kids, i := s.tree[p].kids, IndexOf(s.tree[p].kids, b);
    var all := g'.tree[p].kids;
    assert all == kids[..i] + kids[i + 1..];
    var l, r := AllKids(g', p), AllKids(g, p)[..i] + AllKids(g, p)[i + 1..];
    forall j | 0 <= j < |all| ensures l[j] == r[j] {
      KidsPointwise(g', p, |all|, j);
      var k := if j < i then j else j + 1;
      KidsPointwise(g, p, |kids|, k);
      assert kids[k] in kids;
      KidNotAbove(g.tree, p, kids[k]);
      BranchKept(g, g', p, p, kids[k]);
    }
  }

  /** Splicing in front of position `i` and then removing what stands behind the
      splice. */
  lemma SpliceThenRemove(a: seq<Markup>, f: seq<Markup>, i: nat, b: seq<Markup>, n: nat, c: seq<Markup>)
    requires i < |a| && b == a[..i] + f + a[i..] && n == i + |f| && n < |b| && c == b[..n] + b[n + 1..]
    ensures c == a[..i] + f + a[i + 1..]
  {
    assert b[..i + |f|] == a[..i] + f;
    assert b[i + |f| + 1..] == a[i + 1..];
  }

  lemma IndexBehind(kids: seq<Node>, f: seq<Node>, b: Node, all: seq<Node>)
    requires b in kids && Distinct(all)
    requires var i := IndexOf(kids, b); 0 <= i < |kids| && all == kids[..i] + f + kids[i..]
    ensures b in all && IndexOf(all, b) == IndexOf(kids, b) + |f|
  {
    var i := IndexOf(kids, b);
    assert all[i + |f|] == b;
    IndexOfUnique(all, i + |f|);
  }

  lemma RemovalBehind(s: DomState, attrs: AttrTable, p: Node, b: Node, a: seq<Markup>, fm: seq<Markup>, i: nat)
    requires Inv(s) && p in s.tree && b in s.tree && b in s.tree[p].kids && i < |a| && IndexOf(s.tree[p].kids, b) == i + |fm|
    requires WellFormed(Page(s.tree, s.text, attrs)) && AllKids(Page(s.tree, s.text, attrs), p) == a[..i] + fm + a[i..]
    ensures var s' := Remove(s, p, b).0;
      var g' := Page(s'.tree, s'.text, attrs);
      WellFormed(g') && p in g'.tree && AllKids(g', p) == a[..i] + fm + a[i + 1..]
  {
    hide Inv, Remove, AllKids, WellFormed, IndexOf;
    RemovalShows(s, attrs, p, b);
    var s' := Remove(s, p, b).0;
    KidCounts(Page(s.tree, s.text, attrs), p);
    SpliceThenRemove(a, fm, i, AllKids(Page(s.tree, s.text, attrs), p), IndexOf(s.tree[p].kids, b), AllKids(Page(s'.tree, s'.text, attrs), p));
  }

  /** Parsed markup takes the place of the node. */
  lemma ReplacementShows(s: DomState, attrs: AttrTable, p: Node, f: Node, b: Node)
    requires Inv(s) && p in s.tree && f in s.tree && f.nodeType == FRAGMENT && b in s.tree && Insert(s, p, f, b).1 == Done
    ensures var s1 := Insert(s, p, f, b).0;
      && p in s1.tree && b in s1.tree && b in s1.tree[p].kids && b in s.tree[p].kids
      && var s2 := Remove(s1, p, b).0;
      var g, g2 := Page(s.tree, s.text, attrs), Page(s2.tree, s2.text, attrs);
      && WellFormed(g) && WellFormed(g2) && p in g2.tree
      && var i := IndexOf(s.tree[p].kids, b);
      && 0 <= i < |s.tree[p].kids|
      && AllKids(g2, p) == AllKids(g, p)[..i] + AllKids(g, f) + AllKids(g, p)[i + 1..]
  {
    hide Inv, Insert, Remove, AllKids, WellFormed, IndexOf, Distinct;
    var s1 := Insert(s, p, f, b).0;
    var g, g1 := Page(s.tree, s.text, attrs), Page(s1.tree, s1.text, attrs);
    FragmentShows(s, attrs, p, f, b);
    var kids, fk, i := s.tree[p].kids, s.tree[f].kids, IndexOf(s.tree[p].kids, b);
    KidsOfInv(s1, p);
    IndexBehind(kids, fk, b, s1.tree[p].kids);
    KidCounts(g, p);
    KidCounts(g, f);
    RemovalBehind(s1, attrs, p, b, AllKids(g, p), AllKids(g, f), i);
  }

  lemma KidCounts(g: Page, n: Node)
    requires WellFormed(g) && n in g.tree
    ensures |AllKids(g, n)| == |g.tree[n].kids|
  {
  }

  /** Only the child lists of the parent and of the fragment have changed. */
  lemma ReplacementKeeps(s: DomState, p: Node, f: Node, b: Node)
    requires Inv(s) && p in s.tree && f in s.tree && f.nodeType == FRAGMENT && b in s.tree && Insert(s, p, f, b).1 == Done
    ensures var s1 := Insert(s, p, f, b).0;
      && p in s1.tree && b in s1.tree && b in s1.tree[p].kids && Remove(s1, p, b).1 == Done
      && var s2 := Remove(s1, p, b).0;
      && s2.tree.Keys == s.tree.Keys && s2.text == s.text
      && forall n :: n in s.tree && n != p && n != f ==> s2.tree[n].kids == s.tree[n].kids
  {
    hide Inv, Insert, Remove, Ancestor, Spliced, Detach;
    var s1 := Insert(s, p, f, b).0;
    InsertIsAtomic(s, p, f, b);
    InsertFragmentSplices(s, p, f, b);
    InsertText(s, p, f, b);
    SplicedKids(s.tree, s1.tree, p, f, IndexOf(s.tree[p].kids, b));
    StillListed(s.tree[p].kids, s.tree[f].kids, b);
    KidsOfInv(s1, p);
    RemoveIs(s1, p, b);
    RemoveText(s1, p, b);
    DetachedKids(s1, p, b);
  }

  lemma StillListed(kids: seq<Node>, f: seq<Node>, b: Node)
    requires b in kids && 0 <= IndexOf(kids, b) < |kids|
    ensures var i := IndexOf(kids, b); b in kids[..i] + f + kids[i..]
  {
    var i := IndexOf(kids, b);
    assert (kids[..i] + f + kids[i..])[i + |f|] == b;
  }

  lemma OthersStay(g: Page, g2: Page, g3: Page, p: Node, f: Node)
    requires Extends(g, g2) && f !in g.tree && g3.tree.Keys == g2.tree.Keys && g3.text == g2.text && g3.attrs == g2.attrs
    requires forall n :: n in g2.tree && n != p && n != f ==> g3.tree[n].kids == g2.tree[n].kids
    ensures KeepsOthers(g, g3, p)
  {
    forall n | n in g.tree && n != p ensures g3.tree[n].kids == g.tree[n].kids {
      assert g2.tree[n] == g.tree[n];
    }
    forall n | n in g.tree ensures g3.text[n] == g.text[n] && AttrsAt(g3, n) == AttrsAt(g, n) {
      assert g2.tree[n] == g.tree[n];
    }
  }

  // ---------------------------------------------------------------- the method

  /** `setOuterHTML` for a node with an owner document; `threw` reports an exception of
      the parser, `r` one of `insertBefore`.  Either leaves every old node as it was. */
  method SetOuterHTML(m: MarkupDom, node: Node, html: string, doc: Node)
    returns (threw: bool, r: Outcome, ghost ops: seq<Op>)
    requires m.dom.Valid() && node in m.dom.nodes && doc in m.dom.nodes && doc.nodeType == DOCUMENT && node.ownerDocument == doc
    modifies m`attributes, m.dom, m.dom.nodes
    ensures m.dom.Valid() && WellFormed(old(m.Shown())) && WellFormed(m.Shown())
    ensures old(node.parentNode) == null ==> m.Shown() == old(m.Shown()) && !threw && r == Done
    ensures old(node.parentNode) != null ==> threw == ParseFrom([TARGET], html).threw
    ensures threw || r != Done ==> Extends(old(m.Shown()), m.Shown())
    ensures old(node.parentNode) != null && !threw && r == Done ==>
      var p := old(node.parentNode);
      && p in old(m.Shown()).tree && p in m.Shown().tree
      && var i := IndexOf(old(m.Shown()).tree[p].kids, node);
      && 0 <= i < |old(m.Shown()).tree[p].kids|
      && AllKids(m.Shown(), p) == AllKids(old(m.Shown()), p)[..i] + ParseFragment(html) + AllKids(old(m.Shown()), p)[i + 1..]
    ensures old(node.parentNode) != null ==> KeepsOthers(old(m.Shown()), m.Shown(), old(node.parentNode))
    ensures DomHistory.History(old(m.dom.View()), m.dom.View(), ops)
  {
    hide *;
    ghost var g := m.Shown();
    m.ShownIs();
    m.ShownAt(node);
    var parent := node.parentNode;
    threw, r, ops := false, Done, [];
    ghost var s0 := m.dom.View();
    DomHistory.NoHistory(s0);
    if parent == null { return; }
    ParentIn(g, node);
    m.Kinds();
    var frag := m.dom.CreateOther(FRAGMENT, null, "");
    TextOfInv(s0);
    FreshParts(s0, frag, null, "");
    FragmentMade(s0, frag);
    m.ShownIs();
    LooseFragment(s0, m.dom.View(), m.attributes, frag);
    m.ShownIs();
    ghost var g1, s1 := m.Shown(), m.dom.View();
    ghost var parsed: seq<Op>;
    threw, parsed := m.ParseHTMLFragment(frag, html, doc);
    DomHistory.InTurn(s0, s1, m.dom.View(), [NewRecord(frag, null, "")], parsed);
    ops := [NewRecord(frag, null, "")] + parsed;
    m.ShownIs();
    ghost var g2 := m.Shown();
    assert [] + ParseFragment(html) == ParseFragment(html);
    GrownFrom(g, g1, g2, frag);
    ExtendsBesides(g, g2, parent);
    if threw { return; }
    ghost var s2 := m.dom.View();
    AtExtended(g, g2, parent);
    AtExtended(g, g2, node);
    DomHistory.Inserted(s2, parent, frag, node);
    RefusalKeeps(s2, parent, frag, node);
    r := m.dom.InsertBefore(parent, frag, node);
    DomHistory.InTurn(s0, s2, m.dom.View(), ops, [DomRuns.InsertBefore(parent, frag, node)]);
    ops := ops + [DomRuns.InsertBefore(parent, frag, node)];
    m.ShownIs();
    if r != Done { return; }
    ReplacementShows(s2, m.attributes, parent, frag, node);
    ReplacementKeeps(s2, parent, frag, node);
    ExtendedKids(g, g2, parent);
    ghost var s3 := m.dom.View();
    DomHistory.Removed(s3, parent, node);
    var gone := m.dom.RemoveChild(parent, node);
    DomHistory.InTurn(s0, s3, m.dom.View(), ops, [DomRuns.RemoveChild(parent, node)]);
    ops := ops + [DomRuns.RemoveChild(parent, node)];
    m.ShownIs();
    OthersStay(g, g2, m.Shown(), parent, frag);
  }

  lemma FragmentMade(s: DomState, f: Node)
    requires Inv(s) && f !in s.tree && f.nodeType == FRAGMENT
    ensures DomHistory.History(s, Fresh(s, f, null, ""), [NewRecord(f, null, "")])
  {
    hide Inv, Fresh, DomHistory.History;
    DomHistory.RecordMade(s, f, null, "");
  }

  lemma RefusalKeeps(s: DomState, p: Node, f: Node, b: Node)
    requires Inv(s) && p in s.tree && f in s.tree
    ensures Insert(s, p, f, b).1 != Done ==> Insert(s, p, f, b).0 == s
  {
    hide Inv, Insert, Ancestor, ValidInsertion;
    InsertIsAtomic(s, p, f, b);
  }

  lemma ExtendsBesides(g: Page, g': Page, p: Node)
    requires Extends(g, g')
    ensures KeepsOthers(g, g', p)
  {
    forall n | n in g.tree ensures g'.tree[n].kids == g.tree[n].kids && g'.text[n] == g.text[n] && AttrsAt(g', n) == AttrsAt(g, n) {
      assert g'.tree[n] == g.tree[n];
    }
  }

  lemma ParentIn(g: Page, n: Node)
    requires WellFormed(g) && n in g.tree && g.tree[n].parent != null
    ensures g.tree[n].parent in g.tree
  {
  }

  lemma LooseFragment(s: DomState, s': DomState, attrs: AttrTable, f: Node)
    requires Inv(s) && f !in s.tree && s'.tree == s.tree[f := Links(null, [])] && Inv(s')
    requires forall x :: x in s.tree ==> s'.text[x] == s.text[x]
    requires s'.text.Keys == s'.tree.Keys && s.text.Keys == s.tree.Keys
    ensures var g, g' := Page(s.tree, s.text, attrs), Page(s'.tree, s'.text, attrs);
      && WellFormed(g') && Extends(g, g') && f in g'.tree && AllKids(g', f) == []
  {
    hide Inv;
    PageIsWellFormed(s', attrs);
    NoKids(Page(s'.tree, s'.text, attrs), f);
  }

  lemma GrownFrom(g: Page, g1: Page, g2: Page, f: Node)
    requires Extends(g, g1) && OnlyGrows(g1, g2, f) && f !in g.tree
    ensures Extends(g, g2)
  {
    hide AttrsAt;
    forall n {:trigger g2.tree[n]} | n in g.tree
      ensures n in g2.tree && g2.tree[n] == g.tree[n] && g2.text[n] == g.text[n] && AttrsAt(g2, n) == AttrsAt(g, n)
    {
      assert g1.tree[n] == g.tree[n];
      assert g2.tree[n].kids == g1.tree[n].kids && g2.tree[n].parent == g1.tree[n].parent;
    }
  }

  // ---------------------------------------------------------------- round trips on the records

  /** Assigning `innerHTML` to itself reads the children's markup back; shaped and
      faithful children survive, with adjacent texts merged and empty ones dropped. */
  method ReassignInnerHTML(m: MarkupDom, node: Node, doc: Node) returns (html: string, threw: bool, ghost ops: seq<Op>)
    requires m.dom.Valid() && node in m.dom.nodes && doc in m.dom.nodes && doc.nodeType == DOCUMENT && node.ownerDocument == doc
    requires (node.nodeType == ELEMENT || node.nodeType == FRAGMENT) && m.NoInlineStyle(node)
    modifies m`attributes, m.dom, m.dom.nodes
    ensures m.dom.Valid() && WellFormed(old(m.Shown())) && WellFormed(m.Shown())
    ensures node in old(m.Shown()).tree && node in m.Shown().tree && html == SerializeAll(AllKids(old(m.Shown()), node))
    ensures var was, now := NormalizeAll(AllKids(old(m.Shown()), node)), AllKids(m.Shown(), node);
      ShapedAll(was) ==> !threw && now == ReadAll(was) && (now == was <==> FaithfulAll(was)) && (now == was ==> SerializeAll(now) == html)
    ensures KeepsOthers(old(m.Shown()), m.Shown(), node)
    ensures DomHistory.History(old(m.dom.View()), m.dom.View(), ops)
  {
    hide *;
    m.ShownIs();
    m.ShownAt(node);
    ghost var was := AllKids(m.Shown(), node);
    html := m.SerializeChildren(node);
    threw, ops := m.SetInnerHTML(node, html, doc);
    if ShapedAll(NormalizeAll(was)) {
      ParseReadsSerialized(was);
      ReadAllIsIdentityIff(NormalizeAll(was));
      NormalizeAllKeepsText(was);
    }
  }
}
