/** Serialising, parsing and cloning on the mutable node records. */
module MarkupDom {
  import opened Options
  import opened Text
  import opened DomNodes
  import opened DomForest
  import opened DomModel
  import opened ElementSplice
  import opened DomShared
  import opened Entities
  import opened Markup
  import opened DomMarkup
  import opened MarkupRoundTrip
  import opened DomCopies
  import opened DomRuns
  import opened StyleText
  import DomHistory

  // ---------------------------------------------------------------- appending a loose node

  /** An element or fragment accepts a loose element, text or comment that it does not
      lie under. */
  lemma AppendsLoose(s: DomState, p: Node, c: Node)
    requires Inv(s) && p in s.tree && c in s.tree && s.tree[c].parent == null && !Ancestor(s.tree, c, p)
    requires p.nodeType == ELEMENT || p.nodeType == FRAGMENT
    requires c.nodeType == ELEMENT || c.nodeType == TEXT || c.nodeType == COMMENT
    ensures var (s', o) := Append(s, p, c);
      o == Done && Hung(s.tree, s'.tree, p, c) && s'.text == s.text && s'.style == s.style
  {
    hide Inv, Append, Ancestor, Hung;
    AncestorSelf(s.tree, p, c);
    LooseIsNoKid(s, p, c);
    AppendCases(s, p, c);
    PlacedLast(s, p, c);
  }

  lemma AncestorSelf(t: Tree, p: Node, c: Node)
    requires !Ancestor(t, c, p)
    ensures p != c
  {
    AncestorRefl(t, p);
  }

  lemma LooseIsNoKid(s: DomState, p: Node, c: Node)
    requires Inv(s) && p in s.tree && c in s.tree && s.tree[c].parent == null
    requires p.nodeType == ELEMENT || p.nodeType == FRAGMENT
    requires c.nodeType == ELEMENT || c.nodeType == TEXT || c.nodeType == COMMENT
    ensures Without(s.tree[p].kids, c) == s.tree[p].kids
    ensures ValidInsertion(s.tree, p, c)
  {
    assert c !in s.tree[p].kids;
  }

  /** `t'` is `t` with the root `c` listed last under `p`. */
  ghost predicate Hung(t: Tree, t': Tree, p: Node, c: Node) {
    && t'.Keys == t.Keys && p in t && c in t
    && t'[p].kids == t[p].kids + [c] && t'[c].parent == p
    && (forall n :: n in t && n != p ==> t'[n].kids == t[n].kids)
    && (forall n {:trigger t'[n].parent} :: n in t && n != c ==> t'[n].parent == t[n].parent)
  }

  lemma MovedLast(t: Tree, p: Node, c: Node)
    requires Forest(t) && Fits(t, p, c) && Without(t[p].kids, c) == t[p].kids && t[c].parent == null
    ensures Hung(t, MoveTree(t, p, c, |t[p].kids|), p, c)
  {
    MoveFacts(t, p, c, |t[p].kids|);
    assert InsertAt(t[p].kids, |t[p].kids|, c) == t[p].kids + [c];
  }

  lemma PlacedLast(s: DomState, p: Node, c: Node)
    requires Inv(s) && Fits(s.tree, p, c) && Without(s.tree[p].kids, c) == s.tree[p].kids && s.tree[c].parent == null
    ensures var s' := Place(s, p, c, |s.tree[p].kids|); Hung(s.tree, s'.tree, p, c) && s'.text == s.text && s'.style == s.style
  {
    hide Hung, MoveTree, MoveBoxes, Fits;
    MovedLast(s.tree, p, c);
  }

  lemma FreshNotAbove(t: Tree, n: Node, p: Node)
    requires Forest(t) && n in t && p in t && t[n].kids == [] && n != p
    ensures !Ancestor(t, n, p)
  {
    if Ancestor(t, n, p) { var k := DescendantViaKid(t, n, p); }
  }

  /** Nothing but `p`'s child list has changed on the nodes there were. */
  ghost predicate OnlyGrows(g: Page, g': Page, p: Node) {
    && g.tree.Keys <= g'.tree.Keys && g.text.Keys == g.tree.Keys && g'.text.Keys == g'.tree.Keys
    && (forall n :: n in g.tree && n != p ==> g'.tree[n].kids == g.tree[n].kids)
    && (forall n {:trigger g'.tree[n].parent} :: n in g.tree ==> g'.tree[n].parent == g.tree[n].parent)
    && (forall n :: n in g.tree ==> g'.text[n] == g.text[n] && AttrsAt(g', n) == AttrsAt(g, n))
  }

  lemma OnlyGrowsTrans(a: Page, b: Page, c: Page, p: Node, q: Node)
    requires OnlyGrows(a, b, p) && OnlyGrows(b, c, q) && (q in a.tree ==> q == p)
    ensures OnlyGrows(a, c, p)
  {
  }

  lemma PageIsWellFormed(s: DomState, attrs: AttrTable)
    requires Inv(s)
    ensures WellFormed(Page(s.tree, s.text, attrs))
  {
  }

  /** A new childless node that is appended becomes the last child. */
  lemma NewNodeListed(s: DomState, s1: DomState, attrs: AttrTable, attrs': AttrTable, p: Node, n: Node)
    requires Inv(s) && Inv(s1) && n !in s.tree && p in s.tree && s1.tree == s.tree[n := Links(null, [])]
    requires s1.text.Keys == s1.tree.Keys && forall x :: x in s.tree ==> s1.text[x] == s.text[x]
    requires p.nodeType == ELEMENT || p.nodeType == FRAGMENT
    requires n.nodeType == ELEMENT || n.nodeType == TEXT || n.nodeType == COMMENT
    requires forall x :: x in s.tree ==> AttrsAt(Page(s.tree, s.text, attrs'), x) == AttrsAt(Page(s.tree, s.text, attrs), x)
    ensures var (s2, o) := Append(s1, p, n);
      var g, g' := Page(s.tree, s.text, attrs), Page(s2.tree, s2.text, attrs');
      && o == Done && Listed(g, g', p, n) && OnlyGrows(g, g', p) && s2.style == s1.style
      && n in g'.tree && g'.tree[n].kids == [] && g'.text[n] == s1.text[n]
  {
    hide Inv, Append, Forest, Ancestor, WellFormed, Listed, OnlyGrows, Hung;
    ForestOfInv(s1);
    FreshNotAbove(s1.tree, n, p);
    AppendsLoose(s1, p, n);
    PageIsWellFormed(s, attrs);
    PageIsWellFormed(Append(s1, p, n).0, attrs');
    ForestOfInv(s);
    NewNodeShows(Page(s.tree, s.text, attrs), s1.tree, Page(Append(s1, p, n).0.tree, Append(s1, p, n).0.text, attrs'), p, n);
  }

  lemma NewNodeShows(g: Page, t1: Tree, g': Page, p: Node, n: Node)
    requires WellFormed(g) && WellFormed(g') && n !in g.tree && p in g.tree && t1 == g.tree[n := Links(null, [])]
    requires Hung(t1, g'.tree, p, n)
    requires forall x :: x in g.tree ==> g'.text[x] == g.text[x] && AttrsAt(g', x) == AttrsAt(g, x)
    ensures Listed(g, g', p, n) && OnlyGrows(g, g', p) && n in g'.tree && g'.tree[n].kids == []
  {
    hide Forest, AttrsAt;
  }

  lemma ForestOfInv(s: DomState)
    requires Inv(s)
    ensures Forest(s.tree) && s.text.Keys == s.tree.Keys
  {
  }

  /** The value of the `style` attribute. */
  function StyleAttr(attrs: seq<Attr>): Option<string> {
    if attrs == [] then None
    else if attrs[0].name == "style" then Some(attrs[0].value)
    else StyleAttr(attrs[1..])
  }

  /** The inline style that a new element takes from its attributes. */
  function StyleFrom(attrs: seq<Attr>): Style {
    match StyleAttr(attrs)
    case Some(text) => Styled(map[], DeclaredIn(SplitDeclarations(text)))
    case None => map[]
  }

  // ---------------------------------------------------------------- the class

  class MarkupDom {
    const dom: DomShared
    /** The attribute stores, by node. */
    var attributes: AttrTable

    constructor (dom: DomShared)
      ensures this.dom == dom && attributes == map[]
    {
      this.dom := dom;
      attributes := map[];
    }

    ghost function Shown(): Page
      reads this`attributes, dom, dom.nodes
    {
      Page(dom.View().tree, dom.View().text, attributes)
    }

    function AttrsOf(n: Node): seq<Attr>
      reads this`attributes
    {
      if n in attributes then attributes[n] else []
    }

    lemma ShownIs()
      requires dom.Valid()
      ensures Shown() == Page(dom.View().tree, dom.View().text, attributes) && Inv(dom.View())
      ensures WellFormed(Shown()) && Shown().tree.Keys == dom.nodes
    {
    }

    lemma ShownAt(n: Node)
      requires n in dom.nodes
      ensures n in Shown().tree && Shown().tree[n].kids == n.childNodes && Shown().text[n] == n.textContent
      ensures AttrsAt(Shown(), n) == AttrsOf(n) && Shown().tree[n].parent == n.parentNode
    {
    }

    // ---------------------------------------------------------------- serialising

    /** No element from `n` down has an inline style that no `style` attribute shows. */
    ghost predicate NoInlineStyle(n: Node)
      reads this`attributes, dom, dom.nodes
    {
      forall x :: x in dom.nodes && Ancestor(dom.TreeView(), n, x) ==> x.styleStore == map[] || StyleAttr(AttrsOf(x)).Some?
    }

    lemma KidsUnstyled(n: Node, k: Node)
      requires dom.Valid() && n in dom.nodes && NoInlineStyle(n) && k in n.childNodes
      ensures k in dom.nodes && NoInlineStyle(k)
    {
      var t := dom.TreeView();
      AncestorRefl(t, n);
      KidInSubtree(t, n, n, k);
      forall x | x in dom.nodes && Ancestor(t, k, x) ensures x.styleStore == map[] || StyleAttr(AttrsOf(x)).Some? {
        AncestorTrans(t, n, k, x);
      }
    }

    method SerializeAttributes(n: Node) returns (out: string)
      ensures out == SerializeAttrs(AttrsOf(n))
    {
      hide EscapeAttr;
      out := "";
      var attrs := if n in attributes then attributes[n] else [];
      for i := 0 to |attrs|
        invariant out + SerializeAttrs(attrs[i..]) == SerializeAttrs(attrs)
      {
        assert attrs[i..][1..] == attrs[i + 1..] && attrs[i..][0] == attrs[i];
        var chunk := " " + attrs[i].name + "=\"" + EscapeAttr(attrs[i].value) + "\"";
        assert out + (chunk + SerializeAttrs(attrs[i + 1..])) == (out + chunk) + SerializeAttrs(attrs[i + 1..]);
        out := out + chunk;
      }
    }

    /** `serializeNode` for an element, text or comment. */
    method SerializeNode(node: Node) returns (out: string)
      requires dom.Valid() && node in dom.nodes && NoInlineStyle(node)
      requires node.nodeType == ELEMENT || node.nodeType == TEXT || node.nodeType == COMMENT
      ensures WellFormed(Shown()) && node in Shown().tree && out == Serialize(MarkupOf(Shown(), node))
      decreases Below(Shown().tree, node), 1
    {
      hide *;
      ShownIs();
      ShownAt(node);
      MarkupCases(Shown(), node);
      if node.nodeType == TEXT { return EscapeHTML(node.textContent); }
      if node.nodeType == COMMENT { return "<!--" + node.textContent + "-->"; }
      var tag := Lower(node.tagName);
      var attrs := SerializeAttributes(node);
      out := "<" + tag + attrs + ">";
      if IsVoid(tag) { return; }
      var inner := SerializeChildren(node);
      out := out + inner + "</" + tag + ">";
    }

    lemma MarkupCases(g: Page, n: Node)
      requires WellFormed(g) && n in g.tree && (n.nodeType == ELEMENT || n.nodeType == TEXT || n.nodeType == COMMENT)
      ensures n.nodeType == TEXT ==> Serialize(MarkupOf(g, n)) == EscapeHTML(g.text[n])
      ensures n.nodeType == COMMENT ==> Serialize(MarkupOf(g, n)) == "<!--" + g.text[n] + "-->"
      ensures n.nodeType == ELEMENT ==>
        var tag, attrs := Lower(n.tagName), AttrsAt(g, n);
        MarkupOf(g, n) == ElementNode(tag, attrs, AllKids(g, n)) &&
        Serialize(MarkupOf(g, n)) ==
          var start := "<" + tag + SerializeAttrs(attrs) + ">";
          if IsVoid(tag) then start else start + SerializeAll(AllKids(g, n)) + "</" + tag + ">"
      ensures ELEMENT != TEXT && ELEMENT != COMMENT && TEXT != COMMENT && ELEMENT != FRAGMENT
    {
      hide SerializeAll, EscapeHTML, IsVoid, SerializeAttrs;
    }

    /** `serializeChildren` */
    method SerializeChildren(node: Node) returns (out: string)
      requires dom.Valid() && node in dom.nodes && NoInlineStyle(node)
      requires node.nodeType == ELEMENT || node.nodeType == FRAGMENT
      ensures WellFormed(Shown()) && node in Shown().tree && out == SerializeAll(AllKids(Shown(), node))
      decreases Below(Shown().tree, node), 0
    {
      hide *;
      ghost var g := Shown();
      ShownIs();
      ShownAt(node);
      var children := node.childNodes;
      out := "";
      NoKidsYet(g, node);
      for i := 0 to |children|
        invariant out == SerializeAll(MarkupKids(g, node, i))
      {
        OneKidMore(g, node, i);
        KidsUnstyled(node, children[i]);
        KidKinds(children[i], node);
        var s := SerializeNode(children[i]);
        out := out + s;
      }
    }

    lemma KidKinds(k: Node, n: Node)
      requires dom.Valid() && n in dom.nodes && k in n.childNodes && (n.nodeType == ELEMENT || n.nodeType == FRAGMENT)
      ensures k.nodeType == ELEMENT || k.nodeType == TEXT || k.nodeType == COMMENT
    {
    }

    lemma NoKidsYet(g: Page, n: Node)
      requires WellFormed(g) && n in g.tree
      ensures SerializeAll(MarkupKids(g, n, 0)) == "" && AllKids(g, n) == MarkupKids(g, n, |g.tree[n].kids|)
    {
    }

    lemma OneKidMore(g: Page, n: Node, i: nat)
      requires WellFormed(g) && n in g.tree && i < |g.tree[n].kids|
      ensures var k := g.tree[n].kids[i];
        && k in g.tree[n].kids && k in g.tree && Below(g.tree, k) < Below(g.tree, n)
        && SerializeAll(MarkupKids(g, n, i + 1)) == SerializeAll(MarkupKids(g, n, i)) + Serialize(MarkupOf(g, k))
    {
      hide SerializeAll, Serialize, MarkupKids, MarkupOf;
      MarkupSteps(g, n, i);
      SerializeSnoc(MarkupKids(g, n, i), MarkupOf(g, g.tree[n].kids[i]));
    }

    // ---------------------------------------------------------------- parsing

    /** A new text or comment at the end of `p`'s children. */
    method AddOther(p: Node, nodeType: int, doc: Node, text: string) returns (n: Node, ghost ops: seq<Op>)
      requires dom.Valid() && p in dom.nodes && doc in dom.nodes && doc.nodeType == DOCUMENT
      requires (p.nodeType == ELEMENT || p.nodeType == FRAGMENT) && (nodeType == TEXT || nodeType == COMMENT)
      modifies dom, dom.nodes
      ensures dom.Valid() && fresh(n) && dom.nodes == old(dom.nodes) + {n} && n.nodeType == nodeType
      ensures Listed(old(Shown()), Shown(), p, n) && OnlyGrows(old(Shown()), Shown(), p)
      ensures n in Shown().text && Shown().text[n] == text
      ensures DomHistory.History(old(dom.View()), dom.View(), ops)
    {
      hide *;
      ghost var s0, attrs := dom.View(), attributes;
      ShownIs();
      dom.ValidParts();
      Kinds();
      TextOfInv(s0);
      n := dom.CreateOther(nodeType, doc, text);
      FreshParts(s0, n, doc, text);
      dom.ValidParts();
      TextOfInv(dom.View());
      NewNodeListed(s0, dom.View(), attrs, attrs, p, n);
      AppendedOnce(dom.View(), p, n);
      ops := [NewRecord(n, doc, text)];
      MadeAndAppended(s0, dom.View(), ops[0], p, n);
      ops := ops + [AppendChild(p, n)];
      var r := dom.AppendChild(p, n);
      dom.ValidParts();
      ShownIs();
    }

    lemma Kinds()
      ensures TEXT != ELEMENT && COMMENT != ELEMENT && TEXT != DOCUMENT && COMMENT != DOCUMENT && FRAGMENT != DOCUMENT
      ensures ELEMENT != DOCUMENT && FRAGMENT != ELEMENT && TEXT != FRAGMENT && COMMENT != FRAGMENT && TEXT != COMMENT
    {
    }

    /** A new element at the end of `p`'s children. */
    method AddElement(p: Node, doc: Node, tag: string, attrs: seq<Attr>) returns (n: Node, ghost ops: seq<Op>)
      requires dom.Valid() && p in dom.nodes && doc in dom.nodes && doc.nodeType == DOCUMENT
      requires p.nodeType == ELEMENT || p.nodeType == FRAGMENT
      modifies this`attributes, dom, dom.nodes
      ensures dom.Valid() && fresh(n) && dom.nodes == old(dom.nodes) + {n} && n.nodeType == ELEMENT
      ensures Listed(old(Shown()), Shown(), p, n) && OnlyGrows(old(Shown()), Shown(), p)
      ensures Lower(n.tagName) == Lower(tag) && n in Shown().tree && Shown().tree[n].kids == [] && AttrsAt(Shown(), n) == attrs
      ensures n in dom.View().style && dom.View().style[n] == StyleFrom(attrs)
      ensures DomHistory.History(old(dom.View()), dom.View(), ops)
    {
      hide *;
      ghost var s0, attrs0 := dom.View(), attributes;
      ShownIs();
      dom.ValidParts();
      LowerOfUpper(tag);
      n := dom.CreateElementFor(doc, tag, Upper(tag));
      CreatedParts(s0, n, doc);
      ElementIsMade(s0, n, doc);
      attributes := attributes[n := attrs];
      dom.ValidParts();
      dom.AtStyle(n);
      ghost var s1 := dom.View();
      ghost var styled := ApplyStyle(n, attrs);
      StyleChange(s1, dom.View(), n, StyleFrom(attrs));
      DomHistory.InTurn(s0, s1, dom.View(), [NewElement(n, doc)], styled);
      ops := [NewElement(n, doc)] + styled;
      dom.ValidParts();
      TextOfInv(dom.View());
      NewAttrs(s0.tree, s0.text, attrs0, n, attrs);
      NewNodeListed(s0, dom.View(), attrs0, attributes, p, n);
      AppendedOnce(dom.View(), p, n);
      DomHistory.Appended(dom.View(), p, n);
      DomHistory.InTurn(s0, dom.View(), DomModel.Append(dom.View(), p, n).0, ops, [AppendChild(p, n)]);
      ops := ops + [AppendChild(p, n)];
      var r := dom.AppendChild(p, n);
      dom.ValidParts();
      ShownIs();
      NewAttrsAt(Shown(), attrs0, n, attrs);
    }

    /** What setting a `style` attribute does to a new element. */
    method ApplyStyle(n: Node, attrs: seq<Attr>) returns (ghost ops: seq<Op>)
      requires dom.Valid() && n in dom.nodes && n.styleStore == map[]
      modifies dom.nodes`styleStore, dom.nodes`layoutDirty, dom.nodes`layoutRect, dom.nodes`dodTree
      ensures dom.Valid() && Changed(old(dom.View()), dom.View(), n, StyleFrom(attrs))
      ensures DomHistory.History(old(dom.View()), dom.View(), ops)
    {
      hide *;
      StyleFromCases(attrs);
      NoStyle();
      match StyleAttr(attrs)
      case Some(text) => ops := SetCssText(dom, n, text);
      case None =>
        dom.AtStyle(n);
        dom.ValidParts();
        Unchanged(dom.View(), n);
        DomHistory.NoHistory(dom.View());
        ops := [];
    }

    lemma StyleFromCases(attrs: seq<Attr>)
      ensures StyleFrom(attrs) == match StyleAttr(attrs)
        case Some(text) => Styled(map[], DeclaredIn(SplitDeclarations(text)))
        case None => map[]
    {
    }

    lemma StyleChange(s: DomState, s': DomState, n: Node, style: Style)
      requires Changed(s, s', n, style)
      ensures s'.tree == s.tree && s'.text == s.text && n in s'.style && s'.style[n] == style
    {
    }

    lemma ElementIsMade(s: DomState, n: Node, d: Node)
      requires Inv(s) && n !in s.tree && n.nodeType == ELEMENT && d in s.tree && d.nodeType == DOCUMENT
      ensures DomHistory.History(s, CreateElement(s, n, d), [NewElement(n, d)])
    {
      hide Inv, CreateElement, DomHistory.History;
      DomHistory.ElementMade(s, n, d);
    }

    lemma NewAttrs(t: Tree, text: map<Node, string>, table: AttrTable, n: Node, attrs: seq<Attr>)
      requires n !in t
      ensures forall x :: x in t ==> AttrsAt(Page(t, text, table[n := attrs]), x) == AttrsAt(Page(t, text, table), x)
    {
    }

    lemma NewAttrsAt(g: Page, table: AttrTable, n: Node, attrs: seq<Attr>)
      requires g.attrs == table[n := attrs]
      ensures AttrsAt(g, n) == attrs
    {
    }

    /** The history of a new node that is appended. */
    lemma MadeAndAppended(s: DomState, s1: DomState, make: Op, p: Node, n: Node)
      requires Inv(s) && p in s.tree && n !in s.tree
      requires make.NewRecord? && make.n == n && (make.owner != null ==> make.owner in s.tree && make.owner.nodeType == DOCUMENT)
      requires n.nodeType != ELEMENT && n.nodeType != DOCUMENT && s1 == Fresh(s, n, make.owner, make.text)
      requires Inv(s1) && p in s1.tree && n in s1.tree
      ensures DomHistory.History(s, Append(s1, p, n).0, [make] + [AppendChild(p, n)])
    {
      hide Inv, Append, Fresh, DomHistory.History;
      DomHistory.RecordMade(s, n, make.owner, make.text);
      DomHistory.Appended(s1, p, n);
      DomHistory.InTurn(s, s1, Append(s1, p, n).0, [make], [AppendChild(p, n)]);
    }

    lemma AppendedOnce(s: DomState, p: Node, n: Node)
      requires Inv(s) && p in s.tree && n in s.tree
      ensures Append(s, p, n) == (Append(s, p, n).0, Append(s, p, n).1)
    {
    }

    /** One turn of the token loop of `parseHTMLFragment`. */
    method HandleOne(stack: seq<Node>, token: string, doc: Node, ghost frames: seq<Frame>, ghost base: seq<Markup>)
      returns (stack': seq<Node>, threw: bool, ghost frames': seq<Frame>, ghost ops: seq<Op>)
      requires dom.Valid() && doc in dom.nodes && doc.nodeType == DOCUMENT && token != "" && ("<!--" <= token ==> |token| >= 7)
      requires Represents(Shown(), stack, frames, base) && frames != []
      requires stack != [] && (stack[0].nodeType == ELEMENT || stack[0].nodeType == FRAGMENT)
      modifies this`attributes, dom, dom.nodes
      ensures dom.Valid() && doc in dom.nodes && fresh(dom.nodes - old(dom.nodes)) && old(dom.nodes) <= dom.nodes
      ensures threw == HandleToken(frames, token).None?
      ensures frames' == (if threw then frames else HandleToken(frames, token).value)
      ensures Represents(Shown(), stack', frames', base) && frames' != []
      ensures stack' != [] && stack'[0] == stack[0]
      ensures forall k :: 0 <= k < |stack'| ==> stack'[k] in old(dom.nodes) ==> k < |stack| && stack'[k] == stack[k]
      ensures OnlyGrows(old(Shown()), Shown(), stack[|stack| - 1])
      ensures DomHistory.History(old(dom.View()), dom.View(), ops)
    {
      hide *;
      ghost var g := Shown();
      ShownIs();
      FramesFit(g, stack, frames, base);
      SpineKinds(g, stack, frames, base);
      var top := stack[|stack| - 1];
      GrowsNot(g, top);
      HandleCases(frames, token);
      stack', threw, frames', ops := stack, false, frames, [];
      DomHistory.NoHistory(dom.View());
      var c: Node;
      if "<!--" <= token {
        c, ops := AddOther(top, COMMENT, doc, token[4..|token| - 3]);
        ShownIs();
        OtherMarkup(Shown(), c);
        AddsKid(g, Shown(), stack, c, frames, base);
        frames' := AddKid(frames, CommentNode(token[4..|token| - 3]));
        return;
      }
      if token[0] != '<' {
        c, ops := AddOther(top, TEXT, doc, Decode(token));
        ShownIs();
        OtherMarkup(Shown(), c);
        AddsKid(g, Shown(), stack, c, frames, base);
        frames' := AddKid(frames, TextNode(Decode(token)));
        return;
      }
      if "</" <= token {
        var n := TagRun(token[2..]);
        if n == 0 { return; }
        var kept := KeptIn(stack, token[2..2 + n], frames, base);
        ClosesDownTo(g, stack, frames, base, kept);
        stack', frames' := stack[..kept], CloseTo(frames, kept);
        return;
      }
      if |token| < 2 { return; }
      stack', threw, frames', ops := HandleStart(stack, token, doc, frames, base);
    }

    /** `parseHTMLFragment` */
    method ParseHTMLFragment(parent: Node, html: string, doc: Node) returns (threw: bool, ghost ops: seq<Op>)
      requires dom.Valid() && parent in dom.nodes && doc in dom.nodes && doc.nodeType == DOCUMENT
      requires parent.nodeType == ELEMENT || parent.nodeType == FRAGMENT
      modifies this`attributes, dom, dom.nodes
      ensures dom.Valid() && fresh(dom.nodes - old(dom.nodes)) && old(dom.nodes) <= dom.nodes
      ensures WellFormed(old(Shown())) && WellFormed(Shown()) && parent in old(Shown()).tree && parent in Shown().tree
      ensures AllKids(Shown(), parent) == AllKids(old(Shown()), parent) + ParseFragment(html)
      ensures threw == ParseFrom([TARGET], html).threw
      ensures OnlyGrows(old(Shown()), Shown(), parent)
      ensures DomHistory.History(old(dom.View()), dom.View(), ops)
    {
      hide *;
      ghost var g := Shown();
      ghost var nodes0, s0 := dom.nodes, dom.View();
      ShownIs();
      ops := [];
      DomHistory.NoHistory(s0);
      ghost var base := AllKids(g, parent);
      ParseStarts(g, parent);
      GrowsNot(g, parent);
      var stack := [parent];
      ghost var frames := [TARGET];
      var i := 0;
      threw := false;
      assert html[0..] == html;
      while i < |html| && !threw
        invariant 0 <= i <= |html| && dom.Valid() && doc in dom.nodes
        invariant fresh(dom.nodes - nodes0) && nodes0 <= dom.nodes
        invariant Represents(Shown(), stack, frames, base) && frames != []
        invariant stack != [] && stack[0] == parent && forall k :: 0 <= k < |stack| ==> stack[k] in nodes0 ==> stack[k] == parent
        invariant OnlyGrows(g, Shown(), parent) && DomHistory.History(s0, dom.View(), ops)
        invariant ParseFrom([TARGET], html) == if threw then Parsed(frames, true) else ParseFrom(frames, html[i..])
        decreases |html| - i, if threw then 0 else 1
      {
        var rest := html[i..];
        ParseStep(frames, rest);
        TokenFits(rest);
        var n := TokenLength(rest);
        if n == 0 {
          i := i + 1;
          assert html[i..] == rest[1..];
          continue;
        }
        ghost var g1, s1 := Shown(), dom.View();
        ghost var top := stack[|stack| - 1];
        var stack': seq<Node>;
        ghost var frames1: seq<Frame>;
        ghost var more: seq<Op>;
        stack', threw, frames1, more := HandleOne(stack, rest[..n], doc, frames, base);
        DomHistory.InTurn(s0, s1, dom.View(), ops, more);
        ops := ops + more;
        OnlyGrowsTrans(g, g1, Shown(), parent, top);
        stack, frames := stack', frames1;
        if !threw {
          i := i + n;
          assert html[i..] == rest[n..];
        }
      }
      ParseEnd(frames);
      assert !threw ==> html[i..] == "";
      ParseEnds(Shown(), stack, frames, base);
      FragmentIs(html, frames);
      ShownIs();
    }

    lemma TokenFits(s: string)
      requires s != ""
      ensures TokenLength(s) <= |s|
      ensures TokenLength(s) > 0 && "<!--" <= s[..TokenLength(s)] ==> TokenLength(s) >= 7
    {
      TokenIsLong(s);
    }

    lemma FragmentIs(html: string, frames: seq<Frame>)
      requires frames != [] && ParseFrom([TARGET], html).stack == frames
      ensures ParseFragment(html) == CloseTo(frames, 1)[0].kids
    {
      hide ParseFrom, CloseTo;
    }

    // ---------------------------------------------------------------- innerHTML

    /** The loop of `setInnerHTML` that removes the old children. */
    method RemoveChildren(node: Node) returns (ghost ops: seq<Op>)
      requires dom.Valid() && node in dom.nodes
      modifies dom.nodes`parentNode, dom.nodes`childNodes, dom.nodes`layoutDirty, dom.nodes`layoutRect, dom.nodes`dodTree
      ensures dom.Valid() && Emptied(old(Shown()), Shown(), node)
      ensures DomHistory.History(old(dom.View()), dom.View(), ops)
    {
      hide *;
      ghost var g := Shown();
      ShownIs();
      ShownAt(node);
      NotYetEmptied(g, node);
      ghost var s0 := dom.View();
      ops := [];
      DomHistory.NoHistory(s0);
      var children := node.childNodes;
      assert children[0..] == children;
      for i := 0 to |children|
        invariant dom.Valid() && EmptiedTo(g, Shown(), node, children[i..])
        invariant DomHistory.History(s0, dom.View(), ops)
      {
        ghost var s := dom.View();
        ShownIs();
        assert children[i..][1..] == children[i + 1..] && children[i..][0] == children[i];
        RemovesFirst(g, s, attributes, node, children[i..]);
        DomHistory.Removed(s, node, children[i]);
        var r := dom.RemoveChild(node, children[i]);
        DomHistory.InTurn(s0, s, dom.View(), ops, [DomRuns.RemoveChild(node, children[i])]);
        ops := ops + [DomRuns.RemoveChild(node, children[i])];
        ShownIs();
      }
      AllEmptied(g, Shown(), node);
    }

    /** `setInnerHTML` for a node with an owner document. */
    method SetInnerHTML(node: Node, html: string, doc: Node) returns (threw: bool, ghost ops: seq<Op>)
      requires dom.Valid() && node in dom.nodes && doc in dom.nodes && doc.nodeType == DOCUMENT && node.ownerDocument == doc
      requires node.nodeType == ELEMENT || node.nodeType == FRAGMENT
      modifies this`attributes, dom, dom.nodes
      ensures dom.Valid() && WellFormed(Shown()) && node in Shown().tree
      ensures AllKids(Shown(), node) == ParseFragment(html)
      ensures threw == ParseFrom([TARGET], html).threw
      ensures KeepsOthers(old(Shown()), Shown(), node)
      ensures DomHistory.History(old(dom.View()), dom.View(), ops)
    {
      hide *;
      ghost var g, s0 := Shown(), dom.View();
      ShownIs();
      ghost var removed := RemoveChildren(node);
      ghost var g1, s1 := Shown(), dom.View();
      ShownIs();
      ghost var parsed: seq<Op>;
      threw, parsed := ParseHTMLFragment(node, html, doc);
      ops := removed + parsed;
      DomHistory.InTurn(s0, s1, dom.View(), removed, parsed);
      ghost var g2 := Shown();
      ShownIs();
      NothingThere(g, g1, node);
      assert [] + ParseFragment(html) == ParseFragment(html);
      OthersKept(g, g1, g2, node);
      if threw { return; }
      ghost var s2 := dom.View();
      dom.ValidParts();
      DirtyKeepsPage(s2, node);
      DomHistory.Marked(s2, node);
      dom.MarkDirtyIn(node);
      DomHistory.InTurn(s0, s2, dom.View(), ops, [Restyle(node, s2.style[node])]);
      ops := ops + [Restyle(node, s2.style[node])];
      dom.BecomesValid();
      ShownIs();
    }

    // ---------------------------------------------------------------- cloning

    /** The record part of `cloneNode`: a loose copy without children. */
    method CopyNode(node: Node) returns (c: Node, ghost ops: seq<Op>)
      requires dom.Valid() && node in dom.nodes
      modifies this`attributes, dom`nodes
      ensures dom.Valid() && fresh(c) && dom.nodes == old(dom.nodes) + {c}
      ensures c.nodeType == node.nodeType && c.tagName == node.tagName && c.localName == node.localName
      ensures WellFormed(Shown()) && Extends(old(Shown()), Shown()) && StyleKept(old(dom.View()).style, dom.View().style)
      ensures c in Shown().tree && Shown().tree[c] == Links(null, [])
      ensures c in Shown().text && Shown().text[c] == node.textContent
      ensures AttrsAt(Shown(), c) == AttrsAt(Shown(), node)
      ensures CopyAt(old(Shown()), Shown(), dom.View().style, node, c)
      ensures DomHistory.History(old(dom.View()), dom.View(), ops)
    {
      hide *;
      ghost var g, s0, attrs0 := Shown(), dom.View(), attributes;
      ShownIs();
      ShownAt(node);
      TextOfInv(s0);
      dom.ValidParts();
      dom.AtStyle(node);
      c := dom.AddRecord(node.nodeType, node.localName, node.tagName);
      dom.SetTextField(c, node.textContent);
      dom.SetStyleStore(c, node.styleStore);
      dom.AtStyle(c);
      CopyIsSound(s0, c, node.textContent, node.styleStore);
      ops := [NewRecord(c, null, node.textContent), Restyle(c, node.styleStore)];
      dom.BecomesValid();
      FreshParts(s0, c, null, "");
      TextOfInv(dom.View());
      var copied := AttrsOf(node);
      attributes := attributes[c := copied];
      CopyShows(s0, dom.View(), attrs0, c, copied, node);
      InvKeys(s0);
      StyleOfCopy(s0.style, dom.View().style, c, node);
      ShownIs();
      OwnContents(g, Shown(), dom.View().style, node, c);
    }

    /** `cloneNode` for elements, fragments, texts and comments: `twin` maps the nodes
        copied to their copies, all of them new. */
    method CloneNode(node: Node, deep: bool, ghost g0: Page)
      returns (c: Node, ghost twin: map<Node, Node>, ghost ops: seq<Op>)
      requires dom.Valid() && node in dom.nodes && node.nodeType != DOCUMENT
      requires WellFormed(g0) && Extends(g0, Shown()) && node in g0.tree
      modifies this`attributes, dom, dom.nodes
      ensures dom.Valid() && fresh(c) && c in dom.nodes && fresh(dom.nodes - old(dom.nodes)) && old(dom.nodes) <= dom.nodes
      ensures c.nodeType == node.nodeType && c.tagName == node.tagName && c.localName == node.localName
      ensures WellFormed(Shown()) && Extends(old(Shown()), Shown()) && StyleKept(old(dom.View()).style, dom.View().style)
      ensures c in Shown().tree && Shown().tree[c].parent == null
      ensures c in Shown().text && node in g0.text && Shown().text[c] == g0.text[node]
      ensures AttrsAt(Shown(), c) == AttrsAt(g0, node)
      ensures AllKids(Shown(), c) == if deep then AllKids(g0, node) else []
      ensures deep ==> MarkupOf(Shown(), c) == MarkupOf(g0, node)
      ensures Copied(g0, Shown(), dom.View().style, node, c, twin, if deep then |g0.tree[node].kids| else 0, old(dom.nodes))
      ensures forall x :: x in old(Shown()).tree ==> !Ancestor(Shown().tree, c, x)
      ensures DomHistory.History(old(dom.View()), dom.View(), ops)
      decreases Below(g0.tree, node), 2
    {
      hide *;
      ghost var g, s0 := Shown(), dom.View();
      ghost var nodes0 := dom.nodes;
      ShownIs();
      ShownAt(node);
      AtExtended(g0, g, node);
      c, ops := CopyNode(node);
      AtExtended(g, Shown(), node);
      ShownIs();
      NoKids(Shown(), c);
      FreshApart(g, Shown(), c);
      twin := map[node := c];
      FirstCopy(g0, g, Shown(), dom.View().style, node, c, nodes0);
      if !deep { return; }
      ghost var s1, g1, more := dom.View(), Shown(), [];
      MarkupSteps(g0, node, 0);
      ExtendsTrans(g0, g, g1);
      twin, more := CloneKids(node, c, g0, g, twin, nodes0);
      DomHistory.InTurn(s0, s1, dom.View(), ops, more);
      ops := ops + more;
      StyleKeptTrans(s0.style, s1.style, dom.View().style);
      KidsAll(g0, node);
      FreshApart(g, Shown(), c);
      CloneMarkup(g0, Shown(), node, c);
    }

    /** The loop of `cloneNode`; `g` is the page the original was taken from. */
    method CloneKids(node: Node, c: Node, ghost g0: Page, ghost g: Page, ghost start: map<Node, Node>, ghost before: set<Node>)
      returns (ghost twin: map<Node, Node>, ghost ops: seq<Op>)
      requires dom.Valid() && node in dom.nodes && c in dom.nodes && c.nodeType == node.nodeType != DOCUMENT
      requires WellFormed(g0) && Extends(g0, g) && Extends(g, Shown()) && node in g0.tree && c !in g.tree
      requires WellFormed(Shown()) && c in Shown().tree && Shown().tree[c].parent == null && Shown().tree[c].kids == []
      requires before <= dom.nodes && Copied(g0, Shown(), dom.View().style, node, c, start, 0, before)
      requires c in Shown().text && node in g0.text && Shown().text[c] == g0.text[node] && AttrsAt(Shown(), c) == AttrsAt(g0, node)
      modifies this`attributes, dom, dom.nodes
      ensures dom.Valid() && c in dom.nodes && fresh(dom.nodes - old(dom.nodes)) && old(dom.nodes) <= dom.nodes
      ensures WellFormed(Shown()) && Extends(g, Shown()) && StyleKept(old(dom.View()).style, dom.View().style)
      ensures c in Shown().tree && Shown().tree[c].parent == null
      ensures c in Shown().text && Shown().text[c] == g0.text[node] && AttrsAt(Shown(), c) == AttrsAt(g0, node)
      ensures AllKids(Shown(), c) == MarkupKids(g0, node, |g0.tree[node].kids|)
      ensures Copied(g0, Shown(), dom.View().style, node, c, twin, |g0.tree[node].kids|, before)
      ensures DomHistory.History(old(dom.View()), dom.View(), ops)
      decreases Below(g0.tree, node), 1
    {
      hide *;
      ghost var s0, nodes0 := dom.View(), dom.nodes;
      ShownIs();
      ShownAt(node);
      NoKids(Shown(), c);
      ExtendsTrans(g0, g, Shown());
      AtExtended(g0, Shown(), node);
      MarkupSteps(g0, node, 0);
      DomHistory.NoHistory(s0);
      StyleKeptSame(s0.style);
      twin, ops := start, [];
      var children := node.childNodes;
      for i := 0 to |children|
        invariant dom.Valid() && c in dom.nodes && nodes0 <= dom.nodes && fresh(dom.nodes - nodes0)
        invariant WellFormed(Shown()) && Extends(g, Shown()) && i <= |g0.tree[node].kids|
        invariant c in Shown().tree && Shown().tree[c].parent == null
        invariant c in Shown().text && Shown().text[c] == g0.text[node]
        invariant AttrsAt(Shown(), c) == AttrsAt(g0, node)
        invariant |Shown().tree[c].kids| == i && AllKids(Shown(), c) == MarkupKids(g0, node, i)
        invariant Copied(g0, Shown(), dom.View().style, node, c, twin, i, before)
        invariant StyleKept(s0.style, dom.View().style) && DomHistory.History(s0, dom.View(), ops)
      {
        ghost var g1, s1 := Shown(), dom.View();
        MarkupSteps(g0, node, i);
        ExtendsTrans(g0, g, g1);
        KidsKnown(g0, node, i);
        AtExtended(g0, g1, children[i]);
        ShownIs();
        ghost var more: seq<Op>;
        twin, more := AppendClone(node, c, i, children[i], g0, twin, before);
        DomHistory.InTurn(s0, s1, dom.View(), ops, more);
        ops := ops + more;
        GrownExtends(g, g1, Shown(), c);
        AtGrown(g1, Shown(), c);
        StyleKeptTrans(s0.style, s1.style, dom.View().style);
      }
    }

    /** One turn of the loop of `cloneNode`: the clone of a child is appended. */
    method AppendClone(node: Node, c: Node, ghost i: nat, child: Node, ghost g0: Page,
                       ghost twin: map<Node, Node>, ghost before: set<Node>)
      returns (ghost all: map<Node, Node>, ghost ops: seq<Op>)
      requires dom.Valid() && c in dom.nodes && child in dom.nodes && c.nodeType == node.nodeType != DOCUMENT
      requires WellFormed(g0) && Extends(g0, Shown()) && node in g0.tree && i < |g0.tree[node].kids| && child == g0.tree[node].kids[i]
      requires WellFormed(Shown()) && c in Shown().tree && Shown().tree[c].parent == null
      requires before <= dom.nodes && Copied(g0, Shown(), dom.View().style, node, c, twin, i, before)
      modifies this`attributes, dom, dom.nodes
      ensures dom.Valid() && fresh(dom.nodes - old(dom.nodes)) && old(dom.nodes) <= dom.nodes
      ensures WellFormed(Shown()) && ExtendsBeside(old(Shown()), Shown(), c) && |Shown().tree[c].kids| == |old(Shown()).tree[c].kids| + 1
      ensures child in g0.tree && AllKids(Shown(), c) == AllKids(old(Shown()), c) + [MarkupOf(g0, child)]
      ensures Copied(g0, Shown(), dom.View().style, node, c, all, i + 1, before)
      ensures StyleKept(old(dom.View()).style, dom.View().style)
      ensures DomHistory.History(old(dom.View()), dom.View(), ops)
      decreases Below(g0.tree, node), 0
    {
      hide *;
      ghost var g1, s1 := Shown(), dom.View();
      ghost var nodes1 := dom.nodes;
      KidsKnown(g0, node, i);
      ShownIs();
      var k: Node;
      ghost var branch: map<Node, Node>;
      k, branch, ops := CloneNode(child, true, g0);
      ghost var g2, s2 := Shown(), dom.View();
      ShownIs();
      ExtendedKids(g1, g2, c);
      AtExtended(g1, g2, c);
      dom.ValidParts();
      LooseUnder(g2.tree, k, c);
      KindsAgree(c, node, k, child, g0);
      AppendsLoose(s2, c, k);
      DomHistory.Appended(s2, c, k);
      var r := dom.AppendChild(c, k);
      DomHistory.InTurn(s1, s2, dom.View(), ops, [DomRuns.AppendChild(c, k)]);
      ops := ops + [DomRuns.AppendChild(c, k)];
      ShownIs();
      HungGrows(g1, g2, Shown(), c, k);
      HungBeside(g1, s1.style, g2, s2.style, Shown(), c, k);
      all := twin + branch;
      CopyGrows(g0, g1, s1.style, g2, s2.style, Shown(), dom.View().style, node, c, twin, i, before, child, k, branch, nodes1);
      ListedAdds(g2, Shown(), c, k);
      ListedKeeps(g2, Shown(), c, k, k);
    }

    /** A copy of an unstyled subtree is unstyled, so it serialises, to the same text. */
    lemma CopySerializes(node: Node, c: Node, twin: map<Node, Node>, g0: Page, before: set<Node>)
      requires dom.Valid() && WellFormed(g0) && node in g0.tree && c in dom.nodes
      requires Copied(g0, Shown(), dom.View().style, node, c, twin, |g0.tree[node].kids|, before)
      requires forall x :: x in dom.nodes && x in g0.tree && Ancestor(g0.tree, node, x) ==>
        x.styleStore == map[] || StyleAttr(AttrsAt(g0, x)).Some?
      requires g0.tree.Keys <= dom.nodes
      ensures NoInlineStyle(c)
    {
      hide Copied, WellFormed, KidsCopied, Inv;
      ShownIs();
      forall y | y in dom.nodes && Ancestor(dom.TreeView(), c, y)
        ensures y.styleStore == map[] || StyleAttr(AttrsOf(y)).Some?
      {
        var x := OnlyCopiesBelow(g0, Shown(), dom.View().style, node, c, twin, before, y);
        CopyOf(g0, Shown(), dom.View().style, node, c, twin, |g0.tree[node].kids|, before, x);
        dom.AtStyle(y);
        dom.AtStyle(x);
      }
    }

    lemma GrowsNot(g: Page, p: Node)
      requires WellFormed(g)
      ensures OnlyGrows(g, g, p)
    {
    }

    lemma OtherMarkup(g: Page, c: Node)
      requires WellFormed(g) && c in g.tree
      ensures c.nodeType == COMMENT ==> MarkupOf(g, c) == CommentNode(g.text[c])
      ensures c.nodeType == TEXT ==> MarkupOf(g, c) == TextNode(g.text[c])
      ensures c.nodeType == ELEMENT && g.tree[c].kids == [] ==> MarkupOf(g, c) == ElementNode(Lower(c.tagName), AttrsAt(g, c), [])
      ensures COMMENT != TEXT
    {
    }

    lemma SpineKinds(g: Page, ns: seq<Node>, frames: seq<Frame>, base: seq<Markup>)
      requires Represents(g, ns, frames, base)
      ensures |frames| == |ns| && ns != [] && forall i :: 0 <= i < |ns| ==> ns[i] in g.tree && (i > 0 ==> ns[i].nodeType == ELEMENT)
      ensures forall i :: 0 < i < |ns| ==> frames[i].tag == Lower(ns[i].tagName)
    {
      forall i | 0 < i < |ns| ensures ns[i].nodeType == ELEMENT && frames[i].tag == Lower(ns[i].tagName) {
        assert frames[i] == frames[i];
      }
    }

    lemma HandleCases(frames: seq<Frame>, token: string)
      requires frames != [] && token != "" && ("<!--" <= token ==> |token| >= 7)
      ensures "<!--" <= token ==> HandleToken(frames, token) == Some(AddKid(frames, CommentNode(token[4..|token| - 3])))
      ensures !("<!--" <= token) && token[0] != '<' ==> HandleToken(frames, token) == Some(AddKid(frames, TextNode(Decode(token))))
      ensures !("<!--" <= token) && token[0] == '<' && "</" <= token ==>
        var n := TagRun(token[2..]);
        HandleToken(frames, token) == if n == 0 then Some(frames) else Some(CloseTo(frames, KeptBy(frames, token[2..2 + n])))
      ensures !("<!--" <= token) && token[0] == '<' && !("</" <= token) ==>
        HandleToken(frames, token) == if |token| < 2 then Some(frames) else HandleStartTag(frames, token)
      ensures forall m :: AddKid(frames, m) != []
    {
      hide Decode, TagRun, CloseTo, KeptBy, HandleStartTag;
    }

    /** The search for the innermost open element with the name of an end tag. */
    method KeptIn(stack: seq<Node>, closing: string, ghost frames: seq<Frame>, ghost base: seq<Markup>) returns (kept: nat)
      requires Represents(Shown(), stack, frames, base) && frames != [] && stack != []
      ensures kept == KeptBy(frames, closing) && 0 < kept <= |stack|
    {
      hide *;
      SpineKinds(Shown(), stack, frames, base);
      var ci := |stack| - 1;
      assert frames[..|frames|] == frames;
      while ci > 0
        invariant 0 <= ci < |stack|
        invariant KeptBy(frames, closing) == (if KeptBy(frames[..ci + 1], closing) == ci + 1 then |frames| else KeptBy(frames[..ci + 1], closing))
        decreases ci
      {
        KeptStep(frames, closing, ci);
        TagTwice(stack[ci].tagName);
        if Lower(stack[ci].tagName) == Lower(closing) { return ci; }
        ci := ci - 1;
      }
      KeptStep(frames, closing, 0);
      return |stack|;
    }

    lemma TagTwice(s: string)
      ensures Lower(Lower(s)) == Lower(s)
    {
    }

    lemma KeptStep(frames: seq<Frame>, closing: string, ci: nat)
      requires ci < |frames|
      ensures ci == 0 ==> KeptBy(frames[..ci + 1], closing) == 1
      ensures ci > 0 ==>
        if Lower(frames[ci].tag) == Lower(closing) then KeptBy(frames[..ci + 1], closing) == ci
        else KeptBy(frames[..ci + 1], closing) == if KeptBy(frames[..ci], closing) == ci then ci + 1 else KeptBy(frames[..ci], closing)
    {
      hide Lower;
      assert frames[..ci + 1][..ci] == frames[..ci];
    }

    /** The start tag case. */
    method HandleStart(stack: seq<Node>, token: string, doc: Node, ghost frames: seq<Frame>, ghost base: seq<Markup>)
      returns (stack': seq<Node>, threw: bool, ghost frames': seq<Frame>, ghost ops: seq<Op>)
      requires dom.Valid() && doc in dom.nodes && doc.nodeType == DOCUMENT && |token| >= 2
      requires Represents(Shown(), stack, frames, base) && frames != []
      requires stack != [] && (stack[0].nodeType == ELEMENT || stack[0].nodeType == FRAGMENT)
      modifies this`attributes, dom, dom.nodes
      ensures dom.Valid() && doc in dom.nodes && fresh(dom.nodes - old(dom.nodes)) && old(dom.nodes) <= dom.nodes
      ensures threw == HandleStartTag(frames, token).None?
      ensures frames' == (if threw then frames else HandleStartTag(frames, token).value)
      ensures Represents(Shown(), stack', frames', base) && frames' != []
      ensures stack' != [] && stack'[0] == stack[0]
      ensures forall k :: 0 <= k < |stack'| ==> stack'[k] in old(dom.nodes) ==> k < |stack| && stack'[k] == stack[k]
      ensures OnlyGrows(old(Shown()), Shown(), stack[|stack| - 1])
      ensures DomHistory.History(old(dom.View()), dom.View(), ops)
    {
      hide *;
      ghost var g := Shown();
      ShownIs();
      FramesFit(g, stack, frames, base);
      SpineKinds(g, stack, frames, base);
      stack', threw, frames', ops := stack, false, frames, [];
      DomHistory.NoHistory(dom.View());
      var top := stack[|stack| - 1];
      GrowsNot(g, top);
      StartCases(frames, token);
      var n := TagRun(token[1..|token| - 1]);
      if n == 0 { return; }
      TagRunFits(token[1..|token| - 1]);
      var tagName := token[1..1 + n];
      var rest := token[1 + n..|token| - 1];
      SpaceRunFits(rest);
      var attrChunk := rest[SpaceRun(rest)..];
      var isSelf := EndsWithSlash(token[..|token| - 1]) || IsVoid(Lower(tagName));
      if isSelf { attrChunk := WithoutSlash(attrChunk); }
      var created := CreatedTag(tagName);
      if created.None? {
        Registering(dom.View(), doc);
        dom.ValidParts();
        DomHistory.Registered(dom.View(), doc, "");
        ops := [Register(doc, "")];
        dom.EnsureRegisteredIn(doc, "");
        ShownIs();
        SamePage(g, Shown(), stack, frames, base, top);
        threw := true;
        return;
      }
      CreatedIsLower(tagName);
      var attrs := ParseAttrs([], attrChunk);
      var el: Node;
      el, ops := AddElement(top, doc, created.value, attrs);
      ShownIs();
      if isSelf {
        OtherMarkup(Shown(), el);
        AddsKid(g, Shown(), stack, el, frames, base);
        frames' := AddKid(frames, ElementNode(created.value, attrs, []));
      } else {
        ghost var f := Frame(created.value, attrs, []);
        PushesFrame(g, Shown(), stack, el, f, frames, base);
        stack', frames' := stack + [el], frames + [f];
      }
    }

    lemma TagRunFits(s: string)
      ensures TagRun(s) <= |s|
    {
    }

    lemma SpaceRunFits(s: string)
      ensures SpaceRun(s) <= |s|
    {
    }

    lemma CreatedIsLower(tagName: string)
      ensures CreatedTag(tagName).Some? ==> Lower(CreatedTag(tagName).value) == CreatedTag(tagName).value
    {
      hide Trim;
    }

    lemma StartCases(frames: seq<Frame>, token: string)
      requires frames != [] && |token| >= 2
      ensures var n := TagRun(token[1..|token| - 1]);
        && n <= |token| - 2
        && (n == 0 ==> HandleStartTag(frames, token) == Some(frames))
        && (n > 0 ==>
             var name, rest := token[1..1 + n], token[1 + n..|token| - 1];
             SpaceRun(rest) <= |rest| &&
             var chunk := rest[SpaceRun(rest)..];
             var self := EndsWithSlash(token[..|token| - 1]) || IsVoid(Lower(name));
             match CreatedTag(name)
             case None => HandleStartTag(frames, token) == None
             case Some(tag) =>
               HandleStartTag(frames, token) ==
                 if self then Some(AddKid(frames, ElementNode(tag, ParseAttrs([], WithoutSlash(chunk)), [])))
                 else Some(frames + [Frame(tag, ParseAttrs([], chunk), [])]))
      ensures forall m :: AddKid(frames, m) != []
    {
      hide TagRun, SpaceRun, EndsWithSlash, WithoutSlash, IsVoid, CreatedTag, ParseAttrs, Lower;
      TagRunFits(token[1..|token| - 1]);
    }

    lemma Registering(s: DomState, d: Node)
      ensures EnsureRegistered(s, d, "").tree == s.tree && EnsureRegistered(s, d, "").text == s.text
    {
      hide Live, RegisterDoc;
    }

    lemma SamePage(g: Page, g': Page, ns: seq<Node>, frames: seq<Frame>, base: seq<Markup>, top: Node)
      requires Represents(g, ns, frames, base) && g' == g
      ensures Represents(g', ns, frames, base) && OnlyGrows(g, g', top)
    {
    }
  }

  lemma {:induction false} SerializeSnoc(ms: seq<Markup>, m: Markup)
    ensures SerializeAll(ms + [m]) == SerializeAll(ms) + Serialize(m)
    decreases |ms|
  {
    hide Serialize;
    if ms == [] {
      assert [] + [m] == [m];
      assert [m][1..] == ms;
      assert SerializeAll([m]) == Serialize(m) + SerializeAll(ms);
      assert SerializeAll(ms) == "";
    } else {
      assert (ms + [m])[1..] == ms[1..] + [m] && (ms + [m])[0] == ms[0];
      SerializeSnoc(ms[1..], m);
    }
  }

  // ---------------------------------------------------------------- removing all children

  /** `node`'s list is what is left, everything else that shows is as before. */
  ghost predicate EmptiedTo(g: Page, g': Page, node: Node, left: seq<Node>) {
    && g'.tree.Keys == g.tree.Keys && g'.text == g.text && g'.attrs == g.attrs && node in g.tree
    && g'.tree[node].kids == left
    && (forall n :: n in g.tree && n != node ==> g'.tree[n].kids == g.tree[n].kids)
  }

  ghost predicate Emptied(g: Page, g': Page, node: Node) {
    EmptiedTo(g, g', node, [])
  }

  /** The nodes there were keep their children, except `node`. */
  ghost predicate KeepsOthers(g: Page, g': Page, node: Node) {
    && g.tree.Keys <= g'.tree.Keys && g.text.Keys == g.tree.Keys && g'.text.Keys == g'.tree.Keys
    && (forall n :: n in g.tree && n != node ==> g'.tree[n].kids == g.tree[n].kids)
    && (forall n :: n in g.tree ==> g'.text[n] == g.text[n] && AttrsAt(g', n) == AttrsAt(g, n))
  }

  lemma NotYetEmptied(g: Page, node: Node)
    requires node in g.tree
    ensures EmptiedTo(g, g, node, g.tree[node].kids)
  {
  }

  lemma AllEmptied(g: Page, g': Page, node: Node)
    requires EmptiedTo(g, g', node, [])
    ensures Emptied(g, g', node)
  {
  }

  lemma RemovesFirst(g: Page, s: DomState, attrs: AttrTable, node: Node, left: seq<Node>)
    requires Inv(s) && EmptiedTo(g, Page(s.tree, s.text, attrs), node, left) && left != []
    ensures node in s.tree && left[0] in s.tree && left[0] in s.tree[node].kids
    ensures var (s', o) := Remove(s, node, left[0]);
      o == Done && EmptiedTo(g, Page(s'.tree, s'.text, attrs), node, left[1..])
  {
    hide Inv, Remove;
    KidsOfInv(s, node);
    assert left[0] in left;
    RemoveIs(s, node, left[0]);
    WithoutFirst(left);
    RemoveText(s, node, left[0]);
    DetachedKids(s, node, left[0]);
  }

  lemma KidsOfInv(s: DomState, n: Node)
    requires Inv(s) && n in s.tree
    ensures Distinct(s.tree[n].kids) && forall k :: k in s.tree[n].kids ==> k in s.tree && s.tree[k].parent == n
  {
  }

  lemma WithoutFirst(s: seq<Node>)
    requires s != []
    ensures Without(s, s[0]) == s[1..]
  {
    assert s[..0] + s[1..] == s[1..];
  }

  lemma RemoveText(s: DomState, p: Node, c: Node)
    requires Inv(s) && p in s.tree && c in s.tree && c in s.tree[p].kids
    ensures Remove(s, p, c).0.text == s.text && Remove(s, p, c).1 == Done
  {
    hide Inv;
    RemoveCases(s, p, c);
  }

  lemma DetachedKids(s: DomState, p: Node, c: Node)
    requires Inv(s) && p in s.tree && c in s.tree && s.tree[c].parent == p
    ensures forall n :: n in s.tree && n != p ==> Detach(s.tree, c)[n].kids == s.tree[n].kids
  {
    DetachFacts(s.tree, c);
  }

  lemma NothingThere(g: Page, g': Page, node: Node)
    requires Emptied(g, g', node) && WellFormed(g')
    ensures node in g'.tree && AllKids(g', node) == []
  {
  }

  lemma OthersKept(g: Page, g1: Page, g2: Page, node: Node)
    requires Emptied(g, g1, node) && OnlyGrows(g1, g2, node) && g.text.Keys == g.tree.Keys
    ensures KeepsOthers(g, g2, node)
  {
  }

  lemma DirtyKeepsPage(s: DomState, n: Node)
    requires Inv(s) && n in s.tree
    ensures Grounded(s.tree, n) && n in s.owner && Inv(MarkDirty(s, n))
    ensures MarkDirty(s, n).tree == s.tree && MarkDirty(s, n).text == s.text
  {
    hide Inv;
    MarkDirtyKeepsInv(s, n);
    OwnerIsDocument(s, n);
  }

  // ---------------------------------------------------------------- copies

  /** The nodes there were look exactly as before. */
  ghost predicate Extends(g: Page, g': Page) {
    && g.tree.Keys <= g'.tree.Keys && g.text.Keys == g.tree.Keys && g'.text.Keys == g'.tree.Keys
    && forall n {:trigger g'.tree[n]} :: n in g.tree ==>
         g'.tree[n] == g.tree[n] && g'.text[n] == g.text[n] && AttrsAt(g', n) == AttrsAt(g, n)
  }

  lemma ExtendsTrans(a: Page, b: Page, c: Page)
    requires Extends(a, b) && Extends(b, c)
    ensures Extends(a, c)
  {
  }

  lemma AtExtended(g: Page, g': Page, n: Node)
    requires Extends(g, g') && n in g.tree
    ensures n in g'.tree && n in g.text && n in g'.text
    ensures g'.tree[n] == g.tree[n] && g'.text[n] == g.text[n] && AttrsAt(g', n) == AttrsAt(g, n)
  {
  }

  ghost predicate StyleKept(style: map<Node, Style>, style': map<Node, Style>) {
    style.Keys <= style'.Keys && forall n :: n in style ==> style'[n] == style[n]
  }

  lemma StyleKeptSame(style: map<Node, Style>)
    ensures StyleKept(style, style)
  {
  }

  lemma StyleKeptTrans(a: map<Node, Style>, b: map<Node, Style>, c: map<Node, Style>)
    requires StyleKept(a, b) && StyleKept(b, c)
    ensures StyleKept(a, c)
  {
  }

  lemma StyleOfCopy(style: map<Node, Style>, style': map<Node, Style>, n: Node, node: Node)
    requires n !in style && node in style && style' == style[n := map[]][n := style[node]]
    ensures StyleKept(style, style') && n in style' && node in style' && style'[n] == style'[node]
  {
  }

  lemma OwnContents(g: Page, g': Page, style: map<Node, Style>, x: Node, y: Node)
    requires Extends(g, g') && x in g.tree && y in g'.tree && y in g'.text && x in style && y in style
    requires y.nodeType == x.nodeType && y.tagName == x.tagName && y.localName == x.localName
    requires x in g.text && g'.text[y] == g.text[x] && AttrsAt(g', y) == AttrsAt(g', x) && style[y] == style[x]
    ensures CopyAt(g, g', style, x, y)
  {
    AtExtended(g, g', x);
  }

  /** The copy of the node itself, seen from the page before any copying. */
  lemma FirstCopy(g0: Page, g: Page, g': Page, style: map<Node, Style>, n: Node, c: Node, before: set<Node>)
    requires WellFormed(g0) && n in g0.tree && Extends(g0, g) && CopyAt(g, g', style, n, c)
    requires g'.tree[c] == Links(null, []) && c !in before
    ensures Copied(g0, g', style, n, c, map[n := c], 0, before)
  {
    AtExtended(g0, g, n);
    CopyStarts(g0, g', style, n, c, before);
  }

  lemma CopyOf(g: Page, g': Page, style: map<Node, Style>, n: Node, c: Node, twin: map<Node, Node>, i: nat, before: set<Node>, x: Node)
    requires Copied(g, g', style, n, c, twin, i, before) && x in twin
    ensures x in g.tree && Ancestor(g.tree, n, x) && x in style && twin[x] in style && style[twin[x]] == style[x]
    ensures AttrsAt(g', twin[x]) == AttrsAt(g, x)
  {
  }

  lemma HungBeside(g1: Page, style1: map<Node, Style>, g2: Page, style2: map<Node, Style>, g3: Page, c: Node, k: Node)
    requires Extends(g1, g2) && StyleKept(style1, style2) && c in g1.tree && Hung(g2.tree, g3.tree, c, k)
    requires g3.text == g2.text && g3.attrs == g2.attrs
    ensures Beside(g1, style1, g3, style2, c) && Beside(g2, style2, g3, style2, c)
    ensures c in g3.tree && g3.tree[c].kids == g1.tree[c].kids + [k]
  {
    forall n | n in g1.tree ensures n in g2.tree && g2.tree[n] == g1.tree[n] && g2.text[n] == g1.text[n] && AttrsAt(g2, n) == AttrsAt(g1, n) {
      assert g2.tree[n] == g1.tree[n];
    }
  }

  lemma CopyIsSound(s: DomState, n: Node, text: string, style: Style)
    requires Inv(s) && n !in s.tree
    ensures var s1 := Fresh(s, n, null, "");
      var s2 := s1.(text := s1.text[n := text]);
      && Inv(s2.(style := s2.style[n := style]))
      && DomHistory.History(s, s2.(style := s2.style[n := style]), [NewRecord(n, null, text), Restyle(n, style)])
  {
    hide Inv, Fresh, DomHistory.History;
    DomHistory.Copied(s, n, text, style);
    FreshKeepsInv(s, n, null, text);
    var s2 := Fresh(s, n, null, text);
    FreshText(s, n, text);
    RestyledKeepsInv(s2, n, style);
  }

  lemma FreshText(s: DomState, n: Node, text: string)
    ensures var s1 := Fresh(s, n, null, "");
      s1.(text := s1.text[n := text]) == Fresh(s, n, null, text) && n in Fresh(s, n, null, text).tree
  {
    assert s.text[n := ""][n := text] == s.text[n := text];
  }

  lemma RestyledKeepsInv(s: DomState, n: Node, style: Style)
    requires Inv(s) && n in s.tree
    ensures Inv(s.(style := s.style[n := style]))
  {
    hide Inv;
    InvKeys(s);
    StyleKeepsInv(s, s.style[n := style]);
  }

  lemma CopyShows(s: DomState, s': DomState, attrs: AttrTable, c: Node, copied: seq<Attr>, node: Node)
    requires s.text.Keys == s.tree.Keys && c !in s.tree && node in s.tree && c != node
    requires s'.tree == s.tree[c := Links(null, [])] && s'.text.Keys == s'.tree.Keys && s'.text[c] == s.text[node]
    requires forall n :: n in s.tree ==> s'.text[n] == s.text[n]
    requires copied == AttrsAt(Page(s.tree, s.text, attrs), node)
    ensures var g, g' := Page(s.tree, s.text, attrs), Page(s'.tree, s'.text, attrs[c := copied]);
      && Extends(g, g') && g'.tree[c] == Links(null, []) && g'.text[c] == s.text[node]
      && AttrsAt(g', c) == AttrsAt(g', node)
  {
  }

  lemma NoKids(g: Page, c: Node)
    requires WellFormed(g) && c in g.tree && g.tree[c].kids == []
    ensures AllKids(g, c) == []
  {
  }

  /** A root that is new has no old node below it. */
  lemma FreshApart(g: Page, g': Page, c: Node)
    requires WellFormed(g) && Extends(g, g') && c !in g.tree
    ensures forall x :: x in g.tree ==> !Ancestor(g'.tree, c, x)
  {
    hide AttrsAt;
    forall x | x in g.tree ensures !Ancestor(g'.tree, c, x) {
      forall k: nat ensures Up(g'.tree, x, k) != c {
        ChainStays(g, g', x, k);
        UpInTree(g.tree, x, k);
      }
    }
  }

  lemma {:induction false} ChainStays(g: Page, g': Page, x: Node?, k: nat)
    requires Extends(g, g') && DomForest.Closed(g.tree) && (x == null || x in g.tree)
    ensures Up(g'.tree, x, k) == Up(g.tree, x, k)
    decreases k
  {
    hide AttrsAt;
    if x != null && k > 0 { ChainStays(g, g', Parent(g.tree, x), k - 1); }
  }

  lemma KidsKnown(g: Page, n: Node, i: nat)
    requires WellFormed(g) && n in g.tree && i < |g.tree[n].kids|
    ensures g.tree[n].kids[i] in g.tree && g.tree[n].kids[i].nodeType != DOCUMENT
    ensures Below(g.tree, g.tree[n].kids[i]) < Below(g.tree, n)
  {
    hide Below;
    KidBelow(g.tree, n, g.tree[n].kids[i]);
    assert g.tree[n].kids[i] in g.tree[n].kids;
  }

  lemma ExtendedKids(g: Page, g': Page, c: Node)
    requires WellFormed(g) && WellFormed(g') && Extends(g, g') && c in g.tree
    ensures c in g'.tree && AllKids(g', c) == AllKids(g, c)
  {
    hide MarkupKids, MarkupOf;
    assert ShowsSame(g, g', c);
    SameKids(g, g', c, |g.tree[c].kids|);
  }

  /** Equal records with equal children's markup show the same markup. */
  lemma CloneMarkup(g: Page, g': Page, n: Node, c: Node)
    requires WellFormed(g) && WellFormed(g') && n in g.tree && c in g'.tree
    requires c.nodeType == n.nodeType && c.tagName == n.tagName
    requires g'.text[c] == g.text[n] && AttrsAt(g', c) == AttrsAt(g, n) && AllKids(g', c) == AllKids(g, n)
    ensures MarkupOf(g', c) == MarkupOf(g, n)
  {
    hide MarkupKids;
  }

  lemma LooseUnder(t: Tree, k: Node, c: Node)
    requires c in t && t[c].parent == null && k != c
    ensures !Ancestor(t, k, c)
  {
    AncestorStep(t, k, c);
    AncestorOfNull(t, k);
  }

  lemma KindsAgree(c: Node, n: Node, k: Node, child: Node, g: Page)
    requires WellFormed(g) && n in g.tree && child in g.tree[n].kids
    requires c.nodeType == n.nodeType && k.nodeType == child.nodeType && n.nodeType != DOCUMENT
    ensures c.nodeType == ELEMENT || c.nodeType == FRAGMENT
    ensures k.nodeType == ELEMENT || k.nodeType == TEXT || k.nodeType == COMMENT
  {
  }

  /** Like `Extends`, but `c` may have gained children. */
  ghost predicate ExtendsBeside(g: Page, g': Page, c: Node) {
    && g.tree.Keys <= g'.tree.Keys && g.text.Keys == g.tree.Keys && g'.text.Keys == g'.tree.Keys && c in g.tree
    && g'.tree[c].parent == g.tree[c].parent
    && (forall n {:trigger g'.tree[n]} :: n in g.tree && n != c ==> g'.tree[n] == g.tree[n])
    && (forall n {:trigger g'.text[n]} :: n in g.tree ==> g'.text[n] == g.text[n] && AttrsAt(g', n) == AttrsAt(g, n))
  }

  lemma AtGrown(g: Page, g': Page, c: Node)
    requires ExtendsBeside(g, g', c)
    ensures c in g'.tree && c in g'.text && c in g.text && g'.tree[c].parent == g.tree[c].parent
    ensures g'.text[c] == g.text[c] && AttrsAt(g', c) == AttrsAt(g, c)
  {
  }

  lemma GrownExtends(g: Page, g1: Page, g2: Page, c: Node)
    requires Extends(g, g1) && ExtendsBeside(g1, g2, c) && c !in g.tree
    ensures Extends(g, g2)
  {
    hide AttrsAt;
    forall n {:trigger g2.tree[n]} | n in g.tree
      ensures n in g2.tree && g2.tree[n] == g.tree[n] && g2.text[n] == g.text[n] && AttrsAt(g2, n) == AttrsAt(g, n)
    {
      assert g1.tree[n] == g.tree[n];
    }
  }

  /** Appending the clone `k`, which was new in `g2`, to `c`. */
  lemma HungGrows(g1: Page, g2: Page, g3: Page, c: Node, k: Node)
    requires WellFormed(g2) && WellFormed(g3) && Extends(g1, g2) && c in g1.tree && k !in g1.tree && c != k
    requires Hung(g2.tree, g3.tree, c, k) && g3.text == g2.text && g3.attrs == g2.attrs
    ensures Listed(g2, g3, c, k) && ExtendsBeside(g1, g3, c) && |g3.tree[c].kids| == |g1.tree[c].kids| + 1
  {
    hide Forest;
    forall n {:trigger g3.tree[n]} | n in g1.tree && n != c ensures g3.tree[n] == g1.tree[n] {
      assert g2.tree[n] == g1.tree[n];
      assert g3.tree[n].kids == g2.tree[n].kids && g3.tree[n].parent == g2.tree[n].parent;
    }
    assert g2.tree[c] == g1.tree[c] && g3.tree[c].parent == g2.tree[c].parent;
    forall n {:trigger g3.text[n]} | n in g1.tree ensures g3.text[n] == g1.text[n] && AttrsAt(g3, n) == AttrsAt(g1, n) {
      assert g2.tree[n] == g1.tree[n];
    }
  }

  lemma KidsAll(g: Page, n: Node)
    requires WellFormed(g) && n in g.tree
    ensures AllKids(g, n) == MarkupKids(g, n, |g.tree[n].kids|)
  {
  }

  // ---------------------------------------------------------------- states after creation

  lemma TextOfInv(s: DomState)
    requires Inv(s)
    ensures s.text.Keys == s.tree.Keys
  {
  }

  lemma FreshParts(s: DomState, n: Node, d: Node?, text: string)
    requires n !in s.tree
    requires s.text.Keys == s.tree.Keys
    ensures var s1 := Fresh(s, n, d, text);
      && s1.tree == s.tree[n := Links(null, [])] && s1.text == s.text[n := text] && s1.style == s.style[n := map[]]
      && forall x :: x in s.tree ==> s1.text[x] == s.text[x]
  {
  }

  lemma CreatedParts(s: DomState, n: Node, d: Node?)
    requires Inv(s) && n !in s.tree && n.nodeType == ELEMENT && (d != null ==> d in s.tree && d.nodeType == DOCUMENT)
    ensures var s1 := CreateElement(s, n, d);
      && s1.tree == s.tree[n := Links(null, [])] && s1.text == s.text[n := ""] && s1.style == s.style[n := map[]]
      && forall x :: x in s.tree ==> s1.text[x] == s.text[x]
  {
    hide Inv, Live, RegisterDoc;
    CreateElementKeepsInv(s, n, d);
    TextOfInv(s);
  }
}
