/** Layout queries on the mutable records: compute once per root, then read the cache. */
module LayoutCache {
  import opened DomNodes
  import opened DomForest
  import opened DomModel
  import opened DomRelease
  import opened DomShared
  import opened DomLayout

  class LayoutCache {
    const dom: DomShared
    /** The layout engine: converter and solver together. */
    const engine: Engine
    /** Reads padding and border widths out of an inline style. */
    const edges: EdgeReader

    constructor (dom: DomShared, engine: Engine, edges: EdgeReader)
      ensures this.dom == dom && this.engine == engine && this.edges == edges
    {
      this.dom := dom;
      this.engine := engine;
      this.edges := edges;
    }

    /** `getDoDChildNodes` */
    method GetDoDChildNodes(n: Node) returns (out: seq<Node>)
      ensures out == Elements(n.childNodes)
    {
      out := [];
      var children := n.childNodes;
      for i := 0 to |children|
        invariant out == Elements(children[..i])
      {
        assert children[..i + 1][..i] == children[..i];
        if children[i].nodeType == ELEMENT { out := out + [children[i]]; }
      }
      assert children[..|children|] == children;
    }

    lemma AtStyle(n: Node)
      requires n in dom.nodes
      ensures n in dom.StyleView() && dom.StyleView()[n] == n.styleStore
    {
    }

    /** `buildDoDInputTree` */
    method BuildDoDInputTree(n: Node) returns (input: StyleTree)
      requires n in dom.nodes && Forest(dom.TreeView()) && dom.StyleView().Keys == dom.TreeView().Keys
      ensures n in dom.TreeView() && input == Input(dom.TreeView(), dom.StyleView(), n)
      decreases Below(dom.TreeView(), n)
    {
      hide *;
      ghost var t, style := dom.TreeView(), dom.StyleView();
      dom.AtTree(n);
      AtStyle(n);
      var children := GetDoDChildNodes(n);
      var outChildren := [];
      InputSteps(t, style, n, 0);
      for i := 0 to |children|
        invariant outChildren == InputKids(t, style, n, i)
      {
        InputSteps(t, style, n, i);
        var child := BuildDoDInputTree(children[i]);
        outChildren := outChildren + [child];
      }
      input := StyleTree(n.styleStore, outChildren);
    }

    /** The two assignments at the head of `mapDOMToDoD`. */
    method SetSlot(n: Node, layout: LayoutTree, path: seq<nat>)
      requires n in dom.nodes
      modifies n`dodTree, n`dodNodeId
      ensures dom.BoxView() == old(dom.BoxView())[n := Cached(layout)]
      ensures dom.SlotView() == old(dom.SlotView())[n := path]
    {
      n.dodNodeId := path;
      n.dodTree := Cached(layout);
    }

    lemma SlotKeys()
      ensures dom.TreeView().Keys == dom.BoxView().Keys == dom.SlotView().Keys == dom.nodes
    {
    }

    /** `mapDOMToDoD`: every element from `n` down gets the layout and its own id. */
    method MapDOMToDoD(n: Node, layout: LayoutTree, path: seq<nat>)
      requires n in dom.nodes && Forest(dom.TreeView())
      modifies dom.nodes`dodTree, dom.nodes`dodNodeId
      ensures Mapped(dom.TreeView(), n, path, layout, old(dom.BoxView()), old(dom.SlotView()), dom.BoxView(), dom.SlotView())
      decreases Below(dom.TreeView(), n)
    {
      hide *;
      ghost var t, box, slot := dom.TreeView(), dom.BoxView(), dom.SlotView();
      dom.AtTree(n);
      SlotKeys();
      SetSlot(n, layout, path);
      NoKidMapped(t, n, path, layout, box, slot);
      var children := GetDoDChildNodes(n);
      for i := 0 to |children|
        invariant dom.TreeView() == t
        invariant MappedKids(t, n, path, layout, i, box, slot, dom.BoxView(), dom.SlotView())
      {
        ghost var box1, slot1 := dom.BoxView(), dom.SlotView();
        KidBelow(t, n, children[i]);
        MapDOMToDoD(children[i], layout, path + [i]);
        OneKidMapped(t, n, path, layout, i, box, slot, box1, slot1, dom.BoxView(), dom.SlotView());
      }
      AllKidsMapped(t, n, path, layout, box, slot, dom.BoxView(), dom.SlotView());
    }

    method MapFrom(root: Node, layout: LayoutTree)
      requires Forest(dom.TreeView()) && root in dom.nodes && dom.StyleView().Keys == dom.TreeView().Keys
      modifies dom.nodes`dodTree, dom.nodes`dodNodeId
      ensures dom.View() == old(dom.View()).(box := dom.BoxView(), slot := dom.SlotView())
      ensures Mapped(dom.TreeView(), root, [], layout, old(dom.BoxView()), old(dom.SlotView()), dom.BoxView(), dom.SlotView())
    {
      hide DomShared.TreeView, DomShared.OwnerView, DomShared.OwnedView, DomShared.RegView, DomShared.TextView;
      hide DomShared.StyleView, DomShared.BoxView, DomShared.SlotView, Forest, Mapped;
      MapDOMToDoD(root, layout, []);
    }

    /** `ensureDoDLayout` */
    method EnsureDoDLayout(node: Node)
      requires dom.Valid() && node in dom.nodes
      requires Inv(dom.View()) && Coherent(dom.View(), engine)
      modifies dom.nodes`dodTree, dom.nodes`dodNodeId
      ensures dom.Valid() && Inv(dom.View()) && Coherent(dom.View(), engine)
      ensures dom.View() == old(dom.View()).(box := dom.View().box, slot := dom.View().slot)
      ensures Inv(old(dom.View())) && node in dom.View().tree
      ensures var root := LayoutRoot(dom.View().tree, dom.View().owner, node);
        root in dom.View().box && dom.View().box[root].Cached?
    {
      hide *;
      ghost var s0 := dom.View();
      dom.ValidParts();
      dom.ViewParts();
      ViewKeys();
      RootIsParentless(dom.TreeView(), dom.OwnerView(), node);
      var root := dom.GetLayoutRoot(node);
      AtBox(root);
      if root.dodTree.NoCache? {
        LayOut(root);
        LaidIsCoherent(s0, dom.View(), engine, root);
        dom.BecomesValid();
        AtBox(root);
      }
    }

    /** Computes the layout of a root and hands it to every element below. */
    method LayOut(root: Node)
      requires dom.Valid() && root in dom.nodes && Domains(dom.View()) && Forest(dom.View().tree) && root in dom.View().tree
      modifies dom.nodes`dodTree, dom.nodes`dodNodeId
      ensures Domains(old(dom.View())) && Forest(old(dom.View()).tree) && root in old(dom.View()).tree
      ensures Laid(old(dom.View()), dom.View(), engine, root)
      ensures dom.View() == old(dom.View()).(box := dom.View().box, slot := dom.View().slot)
    {
      hide *;
      ghost var s0 := dom.View();
      LayoutViews();
      var input := BuildDoDInputTree(root);
      var layout := engine(input);
      MapFrom(root, layout);
      LayoutViews();
      LaidFrom(s0, dom.View(), engine, root);
    }

    lemma LayoutViews()
      ensures dom.View().tree == dom.TreeView() && dom.View().style == dom.StyleView()
      ensures dom.View().box == dom.BoxView() && dom.View().slot == dom.SlotView()
      ensures dom.StyleView().Keys == dom.TreeView().Keys
    {
    }

    lemma ViewKeys()
      requires dom.Valid()
      ensures Inv(dom.View()) && Domains(dom.View()) && dom.StyleView().Keys == dom.TreeView().Keys
    {
    }

    lemma AtBox(n: Node)
      requires n in dom.nodes
      ensures n in dom.View().box && dom.View().box[n] == n.dodTree
      ensures n in dom.View().slot && dom.View().slot[n] == n.dodNodeId
      ensures n in dom.View().style && dom.View().style[n] == n.styleStore
    {
    }

    lemma LaidFrom(s: DomState, s': DomState, engine: Engine, r: Node)
      requires Domains(s) && Forest(s.tree) && r in s.tree
      requires s' == s.(box := s'.box, slot := s'.slot)
      requires Mapped(s.tree, r, [], engine(Input(s.tree, s.style, r)), s.box, s.slot, s'.box, s'.slot)
      ensures Laid(s, s', engine, r)
    {
    }

    /** `getLayoutRect`: for every element below a document, exactly the rectangle a
        layout computed from scratch would give. */
    method GetLayoutRect(node: Node) returns (rect: Rect)
      requires dom.Valid() && node in dom.nodes
      requires Inv(dom.View()) && Coherent(dom.View(), engine)
      modifies dom.nodes`dodTree, dom.nodes`dodNodeId, dom.nodes`layoutRect, dom.nodes`layoutDirty
      ensures dom.Valid() && Inv(dom.View()) && Coherent(dom.View(), engine)
      ensures dom.View() == old(dom.View()).(box := dom.View().box, slot := dom.View().slot)
      ensures Inv(old(dom.View()))
      ensures forall d, path ::
        (d in old(dom.View()).tree && d.nodeType == DOCUMENT && ElementAt(old(dom.View()).tree, d, path) == node) ==>
          && node in old(dom.View()).style
          && rect == FreshRect(old(dom.View()), engine, edges, d, path)
    {
      hide *;
      ghost var s0 := dom.View();
      PartsOfInv(s0);
      EnsureDoDLayout(node);
      ghost var s1 := dom.View();
      AtBox(node);
      rect := RectOf(node.dodTree, node.dodNodeId, edges(node.styleStore));
      forall d, path | d in s0.tree && d.nodeType == DOCUMENT && ElementAt(s0.tree, d, path) == node
        ensures node in s0.style && rect == FreshRect(s0, engine, edges, d, path)
      {
        ReadIsFresh(s0, s1, engine, edges, d, path);
      }
      if node.dodTree.Cached? && node.dodNodeId in node.dodTree.layout.boxes {
        dom.StoreLayoutRect(node, rect);
      }
      dom.BecomesValid();
    }

    lemma PartsOfInv(s: DomState)
      requires Inv(s)
      ensures Domains(s) && Forest(s.tree) && s.style.Keys == s.tree.Keys
    {
    }

    lemma ReadIsFresh(s0: DomState, s1: DomState, engine: Engine, edges: EdgeReader, d: Node, path: seq<nat>)
      requires Inv(s0) && Inv(s1) && Coherent(s1, engine) && s1 == s0.(box := s1.box, slot := s1.slot)
      requires d in s0.tree && d.nodeType == DOCUMENT && ElementAt(s0.tree, d, path) != null
      requires var x := ElementAt(s0.tree, d, path);
        x in s1.tree && var root := LayoutRoot(s1.tree, s1.owner, x); root in s1.box && s1.box[root].Cached?
      ensures var x := ElementAt(s0.tree, d, path);
        && x in s0.style && x in s1.box && x in s1.slot && x in s1.style
        && RectOf(s1.box[x], s1.slot[x], edges(s1.style[x])) == FreshRect(s0, engine, edges, d, path)
    {
      ElementBelow(s0.tree, d, path);
      RootOfConnected(s1, d, ElementAt(s0.tree, d, path));
      assert CoherentAt(s1, engine, d);
      CachedRectIsFresh(s1, engine, edges, d, path);
    }
  }
}
