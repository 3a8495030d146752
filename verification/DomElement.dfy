/** `Element`'s multi-node insertions on the mutable records. */
module DomElement {
  import opened DomNodes
  import opened DomForest
  import opened DomModel
  import opened DomShared
  import opened ElementSplice

  datatype Content = NodeContent(node: Node) | StringContent(text: string)

  /** The items stand for the arguments handled so far. */
  ghost predicate StandFor(items: seq<Item>, nodes: seq<Content>) {
    && |items| <= |nodes|
    && forall i :: 0 <= i < |items| ==>
         match nodes[i]
         case NodeContent(n) => items[i] == Existing(n)
         case StringContent(text) => items[i].NewText? && items[i].text == text
  }

  ghost predicate NodesIn(nodes: seq<Content>, known: set<Node>) {
    forall i :: 0 <= i < |nodes| && nodes[i].NodeContent? ==> nodes[i].node in known
  }

  /** One turn of the loops: make the text node of a string, insert, report. */
  method InsertContent(dom: DomShared, self: Node, parent: Node, content: Content, ref: Node?)
    returns (r: Outcome, ghost item: Item)
    requires dom.Valid() && self in dom.nodes && parent in dom.nodes && NodesIn([content], dom.nodes)
    modifies dom, dom.nodes
    ensures dom.Valid() && fresh(dom.nodes - old(dom.nodes)) && old(dom.nodes) <= dom.nodes
    ensures dom.nodes == old(dom.nodes) + {item.node} && StandFor([item], [content])
    ensures item.NewText? ==> fresh(item.node)
    ensures var s := old(dom.View());
      Inv(s) && self in s.owner && Makeable(s.tree, item) &&
      var s1 := Made(s, self, item);
      Inv(s1) && parent in s1.tree && item.node in s1.tree &&
      (dom.View(), r) == Insert(s1, parent, item.node, ref)
  {
    hide *;
    ghost var s := dom.View();
    ghost var nodes0 := dom.nodes;
    dom.ValidParts();
    ViewOwner(dom);
    match content
    case NodeContent(n) =>
      item := Existing(n);
      OneNode(content, item, dom.nodes, s);
      MadeKeepsInv(s, self, item);
      MadeIs(s, self, item);
      r := dom.InsertBefore(parent, n, ref);
    case StringContent(text) =>
      dom.AtOwner(self);
      TextIsNoRoot();
      OwnerIsDocument(s, self);
      var tn := dom.CreateOther(TEXT, self.ownerDocument, text);
      item := NewText(tn, text);
      OneText(content, item, s);
      MadeKeepsInv(s, self, item);
      MadeIs(s, self, item);
      dom.ValidParts();
      r := dom.InsertBefore(parent, tn, ref);
  }

  lemma TextIsNoRoot()
    ensures TEXT != ELEMENT && TEXT != DOCUMENT
  {
  }

  lemma ViewOwner(dom: DomShared)
    ensures dom.View().owner == dom.OwnerView() && dom.View().tree == dom.TreeView()
  {
  }

  lemma OneNode(content: Content, item: Item, known: set<Node>, s: DomState)
    requires content.NodeContent? && item == Existing(content.node) && NodesIn([content], known) && s.tree.Keys == known
    ensures StandFor([item], [content]) && Makeable(s.tree, item) && item.node in known
  {
    assert [content][0] == content;
  }

  lemma OneText(content: Content, item: Item, s: DomState)
    requires content.StringContent? && item.NewText? && item.text == content.text
    requires item.node !in s.tree && item.node.nodeType == TEXT
    ensures StandFor([item], [content]) && Makeable(s.tree, item)
  {
  }

  lemma MadeIs(s: DomState, self: Node, item: Item)
    requires self in s.owner
    ensures item.Existing? ==> Made(s, self, item) == s
    ensures item.NewText? ==> Made(s, self, item) == Fresh(s, item.node, s.owner[self], item.text)
  {
  }

  // ---------------------------------------------------------------- the loop, one argument more

  lemma {:induction false} SpliceOneMore(s: DomState, self: Node, p: Node, items: seq<Item>, item: Item, b: Node?)
    requires Inv(s) && self in s.tree && p in s.tree && Known(s.tree, items + [item]) && Known(s.tree, items)
    requires SpliceIn(s, self, p, items, b).1 == Done
    ensures var s1 := SpliceIn(s, self, p, items, b).0;
      && self in s1.owner && self in s1.tree && Makeable(s1.tree, item) && Inv(Made(s1, self, item))
      && p in Made(s1, self, item).tree && item.node in Made(s1, self, item).tree
      && SpliceIn(s, self, p, items + [item], b) == Insert(Made(s1, self, item), p, item.node, b)
    decreases |items|
  {
    hide Inv, Insert, Made, Makeable;
    if items == [] {
      assert items + [item] == [item];
      KnownOne(s.tree, item);
      MadeKeepsInv(s, self, item);
      SpliceOne(s, self, p, item, b);
    } else {
      SpliceUnfold(s, self, p, items, b);
      SpliceUnfold(s, self, p, items + [item], b);
      var s2 := Insert(Made(s, self, items[0]), p, items[0].node, b).0;
      assert (items + [item])[1..] == items[1..] + [item];
      InsertKeepsInv(Made(s, self, items[0]), p, items[0].node, b);
      SpliceOneMore(s2, self, p, items[1..], item, b);
    }
  }

  lemma InsertKeepsInv(s: DomState, p: Node, c: Node, b: Node?)
    requires Inv(s) && p in s.tree && c in s.tree
    ensures Inv(Insert(s, p, c, b).0) && Insert(s, p, c, b).0.tree.Keys == s.tree.Keys
  {
    hide Inv;
  }

  lemma SpliceOne(s: DomState, self: Node, p: Node, item: Item, b: Node?)
    requires Inv(s) && self in s.tree && p in s.tree && Known(s.tree, [item])
    ensures Makeable(s.tree, item) && self in s.owner && Inv(Made(s, self, item))
    ensures item.node in Made(s, self, item).tree && p in Made(s, self, item).tree
    ensures SpliceIn(s, self, p, [item], b) == Insert(Made(s, self, item), p, item.node, b)
  {
    hide Inv, Insert, Made;
    KnownOne(s.tree, item);
    MadeKeepsInv(s, self, item);
    assert [item][1..] == [];
  }

  lemma KnownOne(t: Tree, item: Item)
    requires Known(t, [item])
    ensures Makeable(t, item)
  {
    assert [item][0] == item;
  }

  lemma SpliceUnfold(s: DomState, self: Node, p: Node, items: seq<Item>, b: Node?)
    requires Inv(s) && self in s.tree && p in s.tree && Known(s.tree, items) && items != []
    ensures Makeable(s.tree, items[0]) && self in s.owner && Inv(Made(s, self, items[0]))
    ensures items[0].node in Made(s, self, items[0]).tree && p in Made(s, self, items[0]).tree
    ensures var r := Insert(Made(s, self, items[0]), p, items[0].node, b);
      && self in r.0.tree && p in r.0.tree && Known(r.0.tree, items[1..])
      && SpliceIn(s, self, p, items, b) == (if r.1 != Done then r else SpliceIn(r.0, self, p, items[1..], b))
  {
    hide Inv, Insert, Made;
    MadeKeepsInv(s, self, items[0]);
    KnownStep(s.tree, Insert(Made(s, self, items[0]), p, items[0].node, b).0.tree, items);
  }

  lemma KnownGrows(t: Tree, items: seq<Item>, item: Item)
    requires Known(t, items) && Makeable(t, item)
    requires item.NewText? ==> forall i :: 0 <= i < |items| ==> items[i].node != item.node
    ensures Known(t, items + [item])
  {
  }

  lemma StandForGrows(items: seq<Item>, nodes: seq<Content>, item: Item)
    requires StandFor(items, nodes) && |items| < |nodes| && StandFor([item], [nodes[|items|]])
    ensures StandFor(items + [item], nodes)
  {
    assert [item][0] == item && [nodes[|items|]][0] == nodes[|items|];
  }

  /** The loop shared by `after`, `before`, `append`, `prepend` and `replaceWith`. */
  method InsertContents(dom: DomShared, self: Node, parent: Node, nodes: seq<Content>, ref: Node?)
    returns (r: Outcome, ghost items: seq<Item>)
    requires dom.Valid() && self in dom.nodes && parent in dom.nodes && NodesIn(nodes, dom.nodes)
    modifies dom, dom.nodes
    ensures dom.Valid() && fresh(dom.nodes - old(dom.nodes))
    ensures StandFor(items, nodes) && (r == Done ==> |items| == |nodes|)
    ensures var s := old(dom.View());
      Inv(s) && self in s.tree && parent in s.tree && Known(s.tree, items)
      && (dom.View(), r) == SpliceIn(s, self, parent, items, ref)
  {
    hide *;
    ghost var s := dom.View();
    ghost var nodes0 := dom.nodes;
    dom.ValidParts();
    items := [];
    SpliceNothing(s, self, parent, nodes, ref);
    for i := 0 to |nodes|
      invariant dom.Valid() && fresh(dom.nodes - nodes0) && nodes0 <= dom.nodes
      invariant |items| == i && StandFor(items, nodes) && Known(s.tree, items)
      invariant forall k :: 0 <= k < i ==> items[k].node in dom.nodes
      invariant (dom.View(), Done) == SpliceIn(s, self, parent, items, ref)
    {
      ghost var item: Item;
      ghost var known := dom.nodes;
      ghost var s1 := dom.View();
      dom.ValidParts();
      OneOf(nodes, i, nodes0, known);
      r, item := InsertContent(dom, self, parent, nodes[i], ref);
      Narrow(s.tree, s1.tree, nodes, i, item, nodes0);
      KnownGrows(s.tree, items, item);
      SpliceOneMore(s, self, parent, items, item, ref);
      StandForGrows(items, nodes, item);
      items := items + [item];
      if r != Done { return; }
    }
    r := Done;
  }

  lemma SpliceNothing(s: DomState, self: Node, p: Node, nodes: seq<Content>, b: Node?)
    requires Inv(s) && self in s.tree && p in s.tree
    ensures Known(s.tree, []) && StandFor([], nodes) && SpliceIn(s, self, p, [], b) == (s, Done)
  {
    hide Inv;
  }

  lemma OneOf(nodes: seq<Content>, i: nat, nodes0: set<Node>, known: set<Node>)
    requires i < |nodes| && NodesIn(nodes, nodes0) && nodes0 <= known
    ensures NodesIn([nodes[i]], known)
  {
  }

  /** A node made now was unknown at the start as well. */
  lemma Narrow(t: Tree, t1: Tree, nodes: seq<Content>, i: nat, item: Item, nodes0: set<Node>)
    requires i < |nodes| && NodesIn(nodes, nodes0) && t.Keys == nodes0 && nodes0 <= t1.Keys
    requires Makeable(t1, item) && StandFor([item], [nodes[i]])
    ensures Makeable(t, item)
    ensures item.NewText? ==> item.node !in t1
  {
    assert [item][0] == item && [nodes[i]][0] == nodes[i];
  }

  // ---------------------------------------------------------------- the five operations

  /** `after` */
  method After(dom: DomShared, self: Node, nodes: seq<Content>) returns (r: Outcome, ghost items: seq<Item>)
    requires dom.Valid() && self in dom.nodes && NodesIn(nodes, dom.nodes)
    modifies dom, dom.nodes
    ensures dom.Valid() && StandFor(items, nodes)
    ensures Known(old(dom.View()).tree, items) && (dom.View(), r) == ElementSplice.After(old(dom.View()), self, items)
  {
    hide *;
    dom.ValidParts();
    dom.AtTree(self);
    var parent := self.parentNode;
    if parent == null {
      SpliceNothing(dom.View(), self, self, nodes, null);
      NoParent(dom.View(), self);
      return Done, [];
    }
    ParentKnown(dom.View(), self);
    dom.AtTree(parent);
    var idx := IndexOf(parent.childNodes, self);
    var ref := if idx + 1 < |parent.childNodes| then parent.childNodes[idx + 1] else null;
    ghost var s := dom.View();
    NextIs(parent.childNodes, self);
    r, items := InsertContents(dom, self, parent, nodes, ref);
    WithParent(s, self, items);
  }

  lemma NextIs(kids: seq<Node>, n: Node)
    requires n in kids
    ensures 0 <= IndexOf(kids, n) < |kids|
    ensures var i := IndexOf(kids, n); NextChild(kids, n) == if i + 1 < |kids| then kids[i + 1] else null
  {
  }

  lemma NoParent(s: DomState, self: Node)
    requires Inv(s) && self in s.tree && Known(s.tree, []) && s.tree[self].parent == null
    ensures ElementSplice.After(s, self, []) == (s, Done) && ElementSplice.Before(s, self, []) == (s, Done)
    ensures ElementSplice.ReplaceWith(s, self, []) == (s, Done)
  {
    hide Inv;
  }

  lemma WithParent(s: DomState, self: Node, items: seq<Item>)
    requires Inv(s) && self in s.tree && Known(s.tree, items) && s.tree[self].parent != null
    requires s.tree[self].parent in s.tree
    ensures var p := s.tree[self].parent;
      && ElementSplice.After(s, self, items) == SpliceIn(s, self, p, items, NextChild(s.tree[p].kids, self))
      && ElementSplice.Before(s, self, items) == SpliceIn(s, self, p, items, self)
  {
    hide Inv, SpliceIn;
  }

  /** `before` */
  method Before(dom: DomShared, self: Node, nodes: seq<Content>) returns (r: Outcome, ghost items: seq<Item>)
    requires dom.Valid() && self in dom.nodes && NodesIn(nodes, dom.nodes)
    modifies dom, dom.nodes
    ensures dom.Valid() && StandFor(items, nodes)
    ensures Known(old(dom.View()).tree, items) && (dom.View(), r) == ElementSplice.Before(old(dom.View()), self, items)
  {
    hide *;
    dom.ValidParts();
    dom.AtTree(self);
    var parent := self.parentNode;
    if parent == null {
      SpliceNothing(dom.View(), self, self, nodes, null);
      NoParent(dom.View(), self);
      return Done, [];
    }
    ghost var s := dom.View();
    ParentKnown(s, self);
    r, items := InsertContents(dom, self, parent, nodes, self);
    WithParent(s, self, items);
  }

  /** `append`, which calls `appendChild`: `insertBefore` without a reference node. */
  method Append(dom: DomShared, self: Node, nodes: seq<Content>) returns (r: Outcome, ghost items: seq<Item>)
    requires dom.Valid() && self in dom.nodes && NodesIn(nodes, dom.nodes)
    modifies dom, dom.nodes
    ensures dom.Valid() && StandFor(items, nodes)
    ensures var s := old(dom.View());
      Inv(s) && self in s.tree && Known(s.tree, items) && (dom.View(), r) == SpliceIn(s, self, self, items, null)
  {
    hide *;
    r, items := InsertContents(dom, self, self, nodes, null);
  }

  /** `prepend` */
  method Prepend(dom: DomShared, self: Node, nodes: seq<Content>) returns (r: Outcome, ghost items: seq<Item>)
    requires dom.Valid() && self in dom.nodes && NodesIn(nodes, dom.nodes)
    modifies dom, dom.nodes
    ensures dom.Valid() && StandFor(items, nodes)
    ensures Known(old(dom.View()).tree, items) && (dom.View(), r) == ElementSplice.Prepend(old(dom.View()), self, items)
  {
    hide *;
    ghost var s := dom.View();
    dom.ValidParts();
    dom.AtTree(self);
    var firstChild := if self.childNodes == [] then null else self.childNodes[0];
    r, items := InsertContents(dom, self, self, nodes, firstChild);
    PrependIs(s, self, items);
  }

  lemma PrependIs(s: DomState, self: Node, items: seq<Item>)
    requires Inv(s) && self in s.tree && Known(s.tree, items)
    ensures ElementSplice.Prepend(s, self, items) ==
      SpliceIn(s, self, self, items, if s.tree[self].kids == [] then null else s.tree[self].kids[0])
  {
    hide Inv, SpliceIn;
  }

  /** `replaceWith` */
  method ReplaceWith(dom: DomShared, self: Node, nodes: seq<Content>) returns (r: Outcome, ghost items: seq<Item>)
    requires dom.Valid() && self in dom.nodes && NodesIn(nodes, dom.nodes)
    modifies dom, dom.nodes
    ensures dom.Valid() && StandFor(items, nodes)
    ensures Known(old(dom.View()).tree, items)
    ensures (dom.View(), r) == ElementSplice.ReplaceWith(old(dom.View()), self, items)
  {
    hide *;
    ghost var s := dom.View();
    dom.ValidParts();
    dom.AtTree(self);
    var parent := self.parentNode;
    if parent == null {
      SpliceNothing(s, self, self, nodes, null);
      NoParent(s, self);
      return Done, [];
    }
    ParentKnown(s, self);
    dom.AtTree(parent);
    NextIs(parent.childNodes, self);
    var idx := IndexOf(parent.childNodes, self);
    var ref := if idx + 1 < |parent.childNodes| then parent.childNodes[idx + 1] else null;
    var gone := dom.RemoveChild(parent, self);
    dom.ValidParts();
    r, items := InsertContents(dom, self, parent, nodes, ref);
    ReplaceIs(s, self, items);
  }

  lemma ReplaceIs(s: DomState, self: Node, items: seq<Item>)
    requires Inv(s) && self in s.tree && s.tree[self].parent != null && s.tree[self].parent in s.tree
    requires var s1 := Remove(s, s.tree[self].parent, self).0; Inv(s1) && s1.tree.Keys == s.tree.Keys && Known(s1.tree, items)
    ensures Known(s.tree, items)
    ensures var p := s.tree[self].parent;
      ElementSplice.ReplaceWith(s, self, items) == SpliceIn(Remove(s, p, self).0, self, p, items, NextChild(s.tree[p].kids, self))
  {
    hide Inv, SpliceIn, Remove;
    KnownInSameTree(Remove(s, s.tree[self].parent, self).0.tree, s.tree, items);
  }
}
