/** The operations as the source runs them: on mutable node records and mutable
    registries.  Every operation is proved to have the effect its value-level
    counterpart describes. */
module DomShared {
  import opened DomNodes
  import opened DomForest
  import opened DomModel
  import opened DomRelease
  import opened StyleNames
  import opened Text

  class DomShared {
    /** The nodes that have a state record (the keys of the WeakMap). */
    ghost var nodes: set<Node>

    var currentTaskId: string
    var docSeq: nat
    var documentById: map<nat, Node>
    var taskToDocs: map<string, set<nat>>
    var taskPrimaryDocument: map<string, Node>
    var releasedDocs: nat
    var releasedNodes: nat
    ghost var drainedDocs: nat

    // ---------------------------------------------------------------- the state as a value

    ghost function TreeView(): Tree
      reads this`nodes, nodes`parentNode, nodes`childNodes
    {
      map n | n in nodes :: Links(n.parentNode, n.childNodes)
    }

    ghost function OwnerView(): Owners
      reads this`nodes, nodes`ownerDocument
    {
      map n | n in nodes :: n.ownerDocument
    }

    ghost function OwnedView(): OwnedSets
      reads this`nodes, nodes`ownedNodes
    {
      map n | n in nodes :: n.ownedNodes
    }

    ghost function IdView(): map<Node, nat>
      reads this`nodes, nodes`docId
    {
      map n | n in nodes :: n.docId
    }

    ghost function TaskView(): map<Node, string>
      reads this`nodes, nodes`taskId
    {
      map n | n in nodes :: n.taskId
    }

    ghost function ReleasedView(): set<Node>
      reads this`nodes, nodes`isReleased
    {
      set n | n in nodes && n.nodeType == DOCUMENT && n.isReleased
    }

    ghost function RegView(): Registry
      reads this, nodes`docId, nodes`taskId, nodes`isReleased
    {
      Registry(docSeq, currentTaskId, documentById, taskToDocs, taskPrimaryDocument,
               IdView(), TaskView(), ReleasedView(), releasedDocs, releasedNodes, drainedDocs)
    }

    ghost function TextView(): map<Node, string>
      reads this`nodes, nodes`textContent
    {
      map n | n in nodes :: n.textContent
    }

    ghost function StyleView(): map<Node, Style>
      reads this`nodes, nodes`styleStore
    {
      map n | n in nodes :: n.styleStore
    }

    ghost function BoxView(): map<Node, Cache>
      reads this`nodes, nodes`dodTree
    {
      map n | n in nodes :: n.dodTree
    }

    ghost function SlotView(): map<Node, seq<nat>>
      reads this`nodes, nodes`dodNodeId
    {
      map n | n in nodes :: n.dodNodeId
    }

    /** The parts no insertion or removal touches. */
    ghost function RestView(): (map<Node, string>, map<Node, Style>, map<Node, seq<nat>>)
      reads this`nodes, nodes`textContent, nodes`styleStore, nodes`dodNodeId
    {
      (TextView(), StyleView(), SlotView())
    }

    ghost function View(): DomState
      reads this, nodes
    {
      DomState(TreeView(), OwnerView(), OwnedView(), RegView(), TextView(), StyleView(), BoxView(), SlotView())
    }

    ghost predicate Valid()
      reads this, nodes
    {
      Inv(View())
    }

    constructor ()
      ensures Valid() && nodes == {} && docSeq == 0 && currentTaskId == DEFAULT_TASK
    {
      nodes := {};
      currentTaskId := DEFAULT_TASK;
      docSeq := 0;
      documentById := map[];
      taskToDocs := map[];
      taskPrimaryDocument := map[];
      releasedDocs := 0;
      releasedNodes := 0;
      drainedDocs := 0;
      new;
      hide TreeView, OwnerView, OwnedView, IdView, TaskView, ReleasedView, TextView, StyleView, SlotView, BoxView;
      EmptyViews();
      EmptyInv(View());
    }

    lemma EmptyViews()
      requires nodes == {}
      ensures TreeView() == map[] && OwnerView() == map[] && OwnedView() == map[] && IdView() == map[] && TaskView() == map[]
      ensures ReleasedView() == {} && TextView() == map[] && StyleView() == map[] && BoxView() == map[] && SlotView() == map[]
    {
    }

    // The views unfolded at one node, for proofs that keep them folded otherwise.

    lemma AtTree(n: Node)
      requires n in nodes
      ensures TreeView().Keys == nodes && TreeView()[n] == Links(n.parentNode, n.childNodes)
    {
    }

    lemma AtOwner(n: Node)
      requires n in nodes
      ensures OwnerView().Keys == nodes && OwnerView()[n] == n.ownerDocument
    {
    }

    lemma ViewKeys()
      ensures TreeView().Keys == OwnerView().Keys == OwnedView().Keys == BoxView().Keys == nodes
    {
    }

    // ---------------------------------------------------------------- traversal upwards

    /** `isAncestor` */
    method IsAncestor(ancestor: Node, target: Node) returns (found: bool)
      requires target in nodes && Closed(TreeView()) && Acyclic(TreeView())
      ensures found <==> Ancestor(TreeView(), ancestor, target)
    {
      ghost var t := TreeView();
      var cur: Node? := target;
      while cur != null
        invariant cur == null || cur in nodes
        invariant Ancestor(t, ancestor, target) <==> Ancestor(t, ancestor, cur)
        invariant Grounded(t, cur)
        decreases Depth(t, cur)
      {
        AncestorStep(t, ancestor, cur);
        if cur == ancestor { return true; }
        DepthParent(t, cur);
        cur := cur.parentNode;
      }
      AncestorOfNull(t, ancestor);
      return false;
    }

    /** `getLayoutRoot` */
    method GetLayoutRoot(node: Node) returns (root: Node)
      requires node in nodes && Closed(TreeView()) && Acyclic(TreeView())
      ensures root == LayoutRoot(TreeView(), OwnerView(), node)
    {
      if node.nodeType == DOCUMENT { return node; }
      if node.ownerDocument != null { return node.ownerDocument; }
      ghost var t := TreeView();
      root := node;
      var parent := node.parentNode;
      DepthParent(t, node);
      while parent != null
        invariant root in nodes && parent == root.parentNode
        invariant Grounded(t, root) && Top(t, root) == Top(t, node)
        decreases Depth(t, root)
      {
        DepthParent(t, root);
        root := parent;
        parent := root.parentNode;
      }
    }

    /** The upward walk of `markNodeDirty`. */
    method MarkChain(node: Node)
      requires node in nodes && Closed(TreeView()) && Acyclic(TreeView())
      modifies nodes`layoutDirty, nodes`layoutRect
      ensures forall n :: n in nodes && Ancestor(TreeView(), n, node) ==> n.layoutDirty && n.layoutRect == NoRect
    {
      ghost var t := TreeView();
      var cur: Node? := node;
      while cur != null
        invariant cur == null || cur in nodes
        invariant Grounded(t, cur)
        invariant forall n :: n in nodes && Ancestor(t, n, node) ==>
          Ancestor(t, n, cur) || (n.layoutDirty && n.layoutRect == NoRect)
        decreases Depth(t, cur)
      {
        DepthParent(t, cur);
        forall n | n in nodes && Ancestor(t, n, cur) ensures n == cur || Ancestor(t, n, cur.parentNode) {
          AncestorStep(t, n, cur);
        }
        cur.layoutDirty := true;
        cur.layoutRect := NoRect;
        cur := cur.parentNode;
      }
      forall n | n in nodes ensures !Ancestor(t, n, null) { AncestorOfNull(t, n); }
    }

    /** `markNodeDirty` */
    method MarkNodeDirty(node: Node)
      requires node in nodes && Closed(TreeView()) && Acyclic(TreeView()) && OwnersAreDocuments(OwnerView())
      modifies nodes`layoutDirty, nodes`layoutRect, nodes`dodTree
      ensures BoxView() == old(BoxView())[LayoutRoot(TreeView(), OwnerView(), node) := NoCache]
      ensures forall n :: n in nodes && Ancestor(TreeView(), n, node) ==> n.layoutDirty && n.layoutRect == NoRect
      ensures TreeView() == old(TreeView()) && OwnerView() == old(OwnerView()) && OwnedView() == old(OwnedView())
      ensures RegView() == old(RegView()) && RestView() == old(RestView())
    {
      hide TreeView, OwnerView, OwnedView, RegView, RestView, BoxView, Closed, OwnersAreDocuments, LayoutRoot, Ancestor;
      ViewKeys();
      AtTree(node);
      MarkChain(node);
      var root := GetLayoutRoot(node);
      LayoutRootInTree(TreeView(), OwnerView(), node);
      ClearDodTree(root);
    }

    // Single field updates, with their effect on the state as a value.

    method SetChildNodes(n: Node, kids: seq<Node>)
      requires n in nodes
      modifies n`childNodes
      ensures TreeView() == old(TreeView())[n := old(TreeView())[n].(kids := kids)]
    {
      n.childNodes := kids;
    }

    method SetParentNode(n: Node, parent: Node?)
      requires n in nodes
      modifies n`parentNode
      ensures TreeView() == old(TreeView())[n := old(TreeView())[n].(parent := parent)]
    {
      n.parentNode := parent;
    }

    method ClearDodTree(n: Node)
      requires n in nodes
      modifies n`dodTree
      ensures BoxView() == old(BoxView())[n := NoCache]
    {
      n.dodTree := NoCache;
    }

    method Unlink(node: Node)
      requires node in nodes && Closed(TreeView()) && Grounded(TreeView(), node)
      modifies nodes`parentNode, nodes`childNodes
      ensures TreeView() == Detach(old(TreeView()), node)
      ensures OwnerView() == old(OwnerView()) && BoxView() == old(BoxView())
    {
      hide *;
      AtTree(node);
      UnlinkCases(TreeView(), node);
      var parent := node.parentNode;
      if parent == null { return; }
      AtTree(parent);
      var idx := IndexOf(parent.childNodes, node);
      if idx >= 0 {
        SetChildNodes(parent, parent.childNodes[..idx] + parent.childNodes[idx + 1..]);
      }
      SetParentNode(node, null);
    }

    /** `detachFromParent` */
    method DetachFromParent(node: Node)
      requires node in nodes && Forest(TreeView()) && OwnersAreDocuments(OwnerView())
      modifies nodes`parentNode, nodes`childNodes, nodes`layoutDirty, nodes`layoutRect, nodes`dodTree
      ensures TreeView() == Detach(old(TreeView()), node)
      ensures BoxView() == DetachBoxes(old(TreeView()), OwnerView(), old(BoxView()), node)
    {
      hide TreeView, OwnerView, BoxView, OwnersAreDocuments, LayoutRoot, Linked, Distinct, Detach, DetachBoxes;
      ghost var t := TreeView();
      var parent := node.parentNode;
      AtTree(node);
      ViewKeys();
      DetachCases(t, OwnerView(), BoxView(), node);
      Unlink(node);
      if parent != null {
        DetachKeepsForest(t, node);
        OldParentKeepsRoot(t, OwnerView(), node);
        MarkNodeDirty(parent);
      }
    }

    // ---------------------------------------------------------------- registration

    predicate IsLive(d: Node)
      reads this, d
    {
      d.docId != 0 && d.docId in documentById && !d.isReleased
    }

    lemma IsLiveMeansLive(d: Node)
      requires d in nodes && d.nodeType == DOCUMENT
      ensures IsLive(d) <==> Live(RegView(), d)
    {
    }

    method SetDocumentFields(d: Node, id: nat, task: string, released: bool)
      requires d in nodes && d.nodeType == DOCUMENT
      modifies d`docId, d`taskId, d`isReleased
      ensures IdView() == old(IdView())[d := id] && TaskView() == old(TaskView())[d := task]
      ensures ReleasedView() == if released then old(ReleasedView()) + {d} else old(ReleasedView()) - {d}
    {
      d.docId := id;
      d.taskId := task;
      d.isReleased := released;
    }

    /** The registry part of `registerDocumentState`. */
    method IndexDocument(d: Node, id: nat, task: string)
      modifies this`documentById, this`taskToDocs, this`taskPrimaryDocument
      ensures documentById == old(documentById)[id := d]
      ensures taskToDocs == old(taskToDocs)[task := (if task in old(taskToDocs) then old(taskToDocs)[task] else {}) + {id}]
      ensures taskPrimaryDocument == old(taskPrimaryDocument)[task := d]
    {
      documentById := documentById[id := d];
      var docSet := if task in taskToDocs then taskToDocs[task] else {};
      taskToDocs := taskToDocs[task := docSet + {id}];
      taskPrimaryDocument := taskPrimaryDocument[task := d];
    }

    method ClearParent(n: Node)
      requires n in nodes && n.parentNode == null
      modifies n`parentNode
      ensures TreeView() == old(TreeView())
    {
      n.parentNode := null;
    }

    /** The record part of `registerDocumentState`. */
    method ResetDocument(d: Node, id: nat, task: string)
      requires d in nodes && d.nodeType == DOCUMENT && d.parentNode == null
      modifies d`docId, d`taskId, d`ownedNodes, d`isReleased, d`layoutDirty, d`layoutRect, d`parentNode
      ensures IdView() == old(IdView())[d := id] && TaskView() == old(TaskView())[d := task]
      ensures ReleasedView() == old(ReleasedView()) - {d}
      ensures OwnedView() == old(OwnedView())[d := {}] && TreeView() == old(TreeView())
    {
      hide TreeView, OwnedView, IdView, TaskView, ReleasedView;
      SetDocumentFields(d, id, task, false);
      SetOwnedNodes(d, {});
      ClearParent(d);
      d.layoutDirty := true;
      d.layoutRect := NoRect;
    }

    /** `registerDocumentState` for a document that is not live. */
    method RegisterDocumentState(d: Node, taskId: string)
      requires d in nodes && d.nodeType == DOCUMENT && d.parentNode == null
      modifies this`docSeq, this`documentById, this`taskToDocs, this`taskPrimaryDocument
      modifies d`docId, d`taskId, d`ownedNodes, d`isReleased, d`layoutDirty, d`layoutRect, d`parentNode
      ensures RegView() == RegisterDoc(old(RegView()), d, taskId)
      ensures OwnedView() == old(OwnedView())[d := {}] && TreeView() == old(TreeView())
    {
      hide TreeView, OwnedView, IdView, TaskView, ReleasedView;
      docSeq := docSeq + 1;
      var task := NormalizeTaskId(currentTaskId, taskId);
      ResetDocument(d, docSeq, task);
      IndexDocument(d, docSeq, task);
    }

    /** `ensureDocumentRegistration` */
    method EnsureDocumentRegistration(d: Node, taskId: string)
      requires d in nodes && d.nodeType == DOCUMENT && d.parentNode == null
      modifies this`docSeq, this`documentById, this`taskToDocs, this`taskPrimaryDocument
      modifies d`docId, d`taskId, d`ownedNodes, d`isReleased, d`layoutDirty, d`layoutRect, d`parentNode
      ensures Live(old(RegView()), d) ==> unchanged(this) && unchanged(d)
      ensures Live(old(RegView()), d) || RegView() == RegisterDoc(old(RegView()), d, taskId)
      ensures Live(old(RegView()), d) || OwnedView() == old(OwnedView())[d := {}]
      ensures TreeView() == old(TreeView())
    {
      if d.docId == 0 || d.docId !in documentById || d.isReleased {
        RegisterDocumentState(d, taskId);
      }
    }

    /** Registration of the document that a child of `parent` will belong to. */
    method RegisterOwnerOf(parent: Node) returns (nextOwner: Node?)
      requires parent in nodes && Forest(TreeView()) && OwnersAreDocuments(OwnerView())
      modifies this`docSeq, this`documentById, this`taskToDocs, this`taskPrimaryDocument
      modifies nodes`docId, nodes`taskId, nodes`ownedNodes, nodes`isReleased, nodes`layoutDirty, nodes`layoutRect, nodes`parentNode
      ensures nextOwner == NextOwner(OwnerView(), parent)
      ensures TreeView() == old(TreeView())
      ensures RegView() == RegisterOwnerIn(old(RegView()), nextOwner)
      ensures OwnedView() == RegisterOwnerSets(old(RegView()), old(OwnedView()), nextOwner)
      ensures OwnerView() == old(OwnerView()) && BoxView() == old(BoxView()) && RestView() == old(RestView())
    {
      hide TreeView, OwnerView, OwnedView, RegView, BoxView, RestView, Forest, RegisterDoc, OwnersAreDocuments;
      AtOwner(parent);
      OwnersName(OwnerView(), parent);
      nextOwner := if parent.nodeType == DOCUMENT then parent else parent.ownerDocument;
      if nextOwner != null {
        AtTree(nextOwner);
        DocumentsAndFragmentsAreRoots(TreeView(), nextOwner);
        EnsureDocumentRegistration(nextOwner, "");
      }
    }

    // ---------------------------------------------------------------- ownership

    method SetOwnerDocument(n: Node, d: Node?)
      requires n in nodes
      modifies n`ownerDocument
      ensures OwnerView() == old(OwnerView())[n := d]
    {
      n.ownerDocument := d;
    }

    method SetOwnedNodes(d: Node, owned: set<Node>)
      requires d in nodes
      modifies d`ownedNodes
      ensures OwnedView() == old(OwnedView())[d := owned]
    {
      d.ownedNodes := owned;
    }

    /** `ownedNodes.add` */
    method AddOwned(d: Node, n: Node)
      requires d in nodes
      modifies d`ownedNodes
      ensures d in old(OwnedView()) && OwnedView() == old(OwnedView())[d := old(OwnedView())[d] + {n}]
    {
      d.ownedNodes := d.ownedNodes + {n};
    }

    /** `ownedNodes.delete` */
    method DeleteOwned(d: Node, n: Node)
      requires d in nodes
      modifies d`ownedNodes
      ensures d in old(OwnedView()) && OwnedView() == old(OwnedView())[d := old(OwnedView())[d] - {n}]
    {
      d.ownedNodes := d.ownedNodes - {n};
    }

    /** The flags of an adopted node; the release flag counts for documents only. */
    method Revive(n: Node)
      requires n in nodes && n.nodeType != DOCUMENT
      modifies n`isReleased, n`layoutDirty, n`layoutRect
      ensures ReleasedView() == old(ReleasedView())
    {
      n.isReleased := false;
      n.layoutDirty := true;
      n.layoutRect := NoRect;
    }

    /** One iteration of `adoptOwnerDocument`; the children come back to be pushed. */
    method AdoptNode(cur: Node, d: Node?) returns (children: seq<Node>)
      requires cur in nodes && cur.nodeType != DOCUMENT && OwnersAreDocuments(OwnerView())
      requires d != null ==> d in nodes && d.nodeType == DOCUMENT
      modifies nodes`ownerDocument, nodes`ownedNodes, nodes`layoutDirty, nodes`layoutRect, cur`isReleased
      ensures cur in TreeView() && children == TreeView()[cur].kids
      ensures cur in old(OwnerView()) && OwnerView() == old(OwnerView())[cur := d]
      ensures OwnedView() == AdoptOneOwned(old(OwnedView()), cur, old(OwnerView())[cur], d)
      ensures ReleasedView() == old(ReleasedView())
    {
      hide TreeView, OwnerView, OwnedView, ReleasedView, OwnersAreDocuments;
      AtOwner(cur);
      OwnersName(OwnerView(), cur);
      var oldOwner := cur.ownerDocument;
      children := cur.childNodes;
      AtOwner(cur);
      AtTree(cur);
      Revive(cur);
      if oldOwner != null && oldOwner != d { DeleteOwned(oldOwner, cur); }
      SetOwnerDocument(cur, d);
      if d != null { AddOwned(d, cur); }
    }

    /** `adoptOwnerDocument` for an owner that is registered already (or null). */
    method AdoptOwnerDocument(node: Node, ownerDocument: Node?)
      requires node in nodes && Forest(TreeView()) && OwnersAreDocuments(OwnerView())
      requires OwnedIsSound(OwnerView(), OwnedView())
      requires forall n :: n in Subtree(TreeView(), node) ==> n.nodeType != DOCUMENT && n.nodeType != FRAGMENT
      requires ownerDocument != null ==> ownerDocument in nodes && ownerDocument.nodeType == DOCUMENT
      requires ownerDocument != null ==> Live(RegView(), ownerDocument)  // so registering it again does nothing
      modifies nodes`ownerDocument, nodes`ownedNodes, nodes`layoutDirty, nodes`layoutRect, nodes`isReleased
      ensures OwnerView() == AdoptOwner(old(OwnerView()), Subtree(TreeView(), node), ownerDocument)
      ensures OwnedView() == AdoptOwned(old(OwnedView()), Subtree(TreeView(), node), ownerDocument)
      ensures TreeView() == old(TreeView()) && BoxView() == old(BoxView()) && RestView() == old(RestView())
      ensures ReleasedView() == old(ReleasedView())
    {
      hide TreeView, OwnerView, OwnedView, ReleasedView, BoxView, RestView;
      hide AdoptOwner, AdoptOwned, AdoptOneOwned, OwnedIsSound, Forest, Ancestor, Live, RegView;
      ghost var t, owner0, owned0 := TreeView(), OwnerView(), OwnedView();
      ViewKeys();
      ghost var done: set<Node> := {};
      var stack := [node];
      AdoptNone(owner0, owned0, ownerDocument);
      PendingSingle(t, node);
      while stack != []
        invariant TreeView() == t && Apart(t, stack)
        invariant done + Pending(t, stack) == Subtree(t, node) && done !! Pending(t, stack)
        invariant OwnerView() == AdoptOwner(owner0, done, ownerDocument)
        invariant OwnedView() == AdoptOwned(owned0, done, ownerDocument)
        invariant ReleasedView() == old(ReleasedView())
        decreases Pending(t, stack)
      {
        var cur := stack[|stack| - 1];
        PopAndPush(t, stack);
        AdoptKeepsDocuments(owner0, done, ownerDocument);
        AdoptOneMore(owner0, owned0, done, cur, ownerDocument);
        var children := AdoptNode(cur, ownerDocument);
        stack := stack[..|stack| - 1] + children;
        done := done + {cur};
      }
      assert Pending(t, []) == {};
    }

    // ---------------------------------------------------------------- insertion

    lemma ViewParts()
      ensures View() == DomState(TreeView(), OwnerView(), OwnedView(), RegView(), TextView(), StyleView(), BoxView(), SlotView())
      ensures TreeView().Keys == OwnerView().Keys == OwnedView().Keys == BoxView().Keys == nodes
      ensures RestView() == (TextView(), StyleView(), SlotView())
    {
    }

    /** What the moves need to know of the state they start from. */
    lemma MoveStart(parent: Node, child: Node, i: nat)
      requires Valid() && Fits(TreeView(), parent, child) && i <= |Without(TreeView()[parent].kids, child)|
      ensures parent in nodes && child in nodes
      ensures Forest(TreeView()) && OwnersAreDocuments(OwnerView()) && OwnedIsSound(OwnerView(), OwnedView())
      ensures forall n :: n in Subtree(TreeView(), child) ==> n.nodeType != DOCUMENT && n.nodeType != FRAGMENT
      ensures Inv(View()) && Domains(View()) && Forest(View().tree) && Fits(View().tree, parent, child) && parent in View().owner
      ensures var d := NextOwner(OwnerView(), parent);
        && RegisterOwnerSets(RegView(), OwnedView(), d) == OwnedView()
        && (d != null ==> Live(RegisterOwnerIn(RegView(), d), d))
    {
      MoveSubtreeKinds(TreeView(), parent, child);
      RegisterOwnerKeeps(View(), parent);
    }

    lemma MoveSubtreeKinds(t: Tree, parent: Node, child: Node)
      requires Forest(t) && Fits(t, parent, child)
      ensures forall n :: n in Subtree(t, child) ==> n.nodeType != DOCUMENT && n.nodeType != FRAGMENT
    {
      forall n | n in Subtree(t, child) ensures n.nodeType != DOCUMENT && n.nodeType != FRAGMENT {
        MovedNodes(t, parent, child, n);
      }
    }

    /** What they know once the child is listed at its new place. */
    lemma MoveMiddle(t: Tree, owner: Owners, owned: OwnedSets, parent: Node, child: Node, i: nat)
      requires Forest(t) && Fits(t, parent, child) && i <= |Without(t[parent].kids, child)|
      requires t.Keys == owner.Keys == owned.Keys && OwnersAreDocuments(owner) && OwnedIsSound(owner, owned)
      ensures var t1, t', d := Detach(t, child), MoveTree(t, parent, child, i), NextOwner(owner, parent);
        var owner' := AdoptOwner(owner, Subtree(t, child), d);
        && parent in t1 && child in t1 && t1[parent].kids == Without(t[parent].kids, child)
        && t' == Attach(t1, parent, child, i)
        && Forest(t') && Closed(t') && Acyclic(t') && Subtree(t', child) == Subtree(t, child)
        && OwnersAreDocuments(owner')
        && (d != null ==> d in t && d.nodeType == DOCUMENT)
        && Grounded(t', parent) && LayoutRoot(t', owner', parent) == LayoutRoot(t, owner, parent)
    {
      MoveFacts(t, parent, child, i);
      MoveIsDefined(t, parent, child, i);
      MoveSubtreeKinds(t, parent, child);
      NewParentKeepsRoot(t, owner, parent, child, i);
      AdoptIsSound(owner, owned, Subtree(t, child), NextOwner(owner, parent));
    }

    lemma AttachInTwo(t: Tree, parent: Node, child: Node, i: nat)
      requires parent in t && child in t && i <= |t[parent].kids|
      ensures var t1 := t[parent := t[parent].(kids := InsertAt(t[parent].kids, i, child))];
        t1[child := t1[child].(parent := parent)] == Attach(t, parent, child, i)
      ensures i == |t[parent].kids| ==> InsertAt(t[parent].kids, i, child) == t[parent].kids + [child]
      ensures InsertAt(t[parent].kids, i, child) == t[parent].kids[..i] + [child] + t[parent].kids[i..]
    {
    }

    /** Detach, then `childNodes.push`. */
    method MoveLast(parent: Node, child: Node)
      requires parent in nodes && child in nodes && Forest(TreeView()) && OwnersAreDocuments(OwnerView())
      requires Fits(TreeView(), parent, child)
      modifies nodes`parentNode, nodes`childNodes, nodes`layoutDirty, nodes`layoutRect, nodes`dodTree
      ensures parent in old(TreeView())
      ensures TreeView() == MoveTree(old(TreeView()), parent, child, |Without(old(TreeView())[parent].kids, child)|)
      ensures BoxView() == DetachBoxes(old(TreeView()), OwnerView(), old(BoxView()), child)
      ensures OwnerView() == old(OwnerView()) && OwnedView() == old(OwnedView())
      ensures RegView() == old(RegView()) && RestView() == old(RestView())
    {
      hide TreeView, OwnerView, OwnedView, RegView, BoxView, RestView, Forest;
      ghost var t := TreeView();
      AtTree(parent);
      ghost var i := |Without(t[parent].kids, child)|;
      MoveIsDefined(t, parent, child, i);
      DetachFromParent(child);
      AtTree(parent);
      AttachInTwo(TreeView(), parent, child, i);
      SetChildNodes(parent, parent.childNodes + [child]);
      SetParentNode(child, parent);
    }

    /** Detach, then `childNodes.splice(index, 0, child)`. */
    method MoveTo(parent: Node, child: Node, index: nat)
      requires parent in nodes && child in nodes && Forest(TreeView()) && OwnersAreDocuments(OwnerView())
      requires Fits(TreeView(), parent, child) && index <= |Without(TreeView()[parent].kids, child)|
      modifies nodes`parentNode, nodes`childNodes, nodes`layoutDirty, nodes`layoutRect, nodes`dodTree
      ensures parent in old(TreeView())
      ensures TreeView() == MoveTree(old(TreeView()), parent, child, index)
      ensures BoxView() == DetachBoxes(old(TreeView()), OwnerView(), old(BoxView()), child)
      ensures OwnerView() == old(OwnerView()) && OwnedView() == old(OwnedView())
      ensures RegView() == old(RegView()) && RestView() == old(RestView())
    {
      hide TreeView, OwnerView, OwnedView, RegView, BoxView, RestView, Forest;
      ghost var t := TreeView();
      AtTree(parent);
      MoveIsDefined(t, parent, child, index);
      DetachFromParent(child);
      AtTree(parent);
      AttachInTwo(TreeView(), parent, child, index);
      SetChildNodes(parent, parent.childNodes[..index] + [child] + parent.childNodes[index..]);
      SetParentNode(child, parent);
    }

    /** The closing steps of both insertions. */
    method AdoptAndMark(parent: Node, child: Node, d: Node?)
      requires parent in nodes && child in nodes && Forest(TreeView())
      requires OwnersAreDocuments(OwnerView()) && OwnedIsSound(OwnerView(), OwnedView())
      requires forall n :: n in Subtree(TreeView(), child) ==> n.nodeType != DOCUMENT && n.nodeType != FRAGMENT
      requires d != null ==> d in nodes && d.nodeType == DOCUMENT && Live(RegView(), d)
      modifies nodes`ownerDocument, nodes`ownedNodes, nodes`isReleased, nodes`layoutDirty, nodes`layoutRect, nodes`dodTree
      ensures TreeView() == old(TreeView()) && RestView() == old(RestView()) && RegView() == old(RegView())
      ensures OwnerView() == AdoptOwner(old(OwnerView()), Subtree(TreeView(), child), d)
      ensures OwnedView() == AdoptOwned(old(OwnedView()), Subtree(TreeView(), child), d)
      ensures BoxView() == old(BoxView())[LayoutRoot(TreeView(), OwnerView(), parent) := NoCache]
    {
      hide TreeView, OwnerView, OwnedView, IdView, TaskView, ReleasedView, BoxView, RestView;
      hide AdoptOwner, AdoptOwned, OwnersAreDocuments, OwnedIsSound, LayoutRoot, Live, Ancestor, Linked, Distinct, Grounded;
      ViewKeys();
      AdoptKeepsDocuments(OwnerView(), Subtree(TreeView(), child), d);
      AdoptOwnerDocument(child, d);
      MarkNodeDirty(parent);
    }

    lemma PlaceIsValid(s: DomState, parent: Node, child: Node, i: nat)
      requires Inv(s) && Fits(s.tree, parent, child) && i <= |Without(s.tree[parent].kids, child)|
      requires View() == Place(s, parent, child, i)
      ensures Valid()
    {
      PlaceKeepsInv(s, parent, child, i);
    }

    /** `appendChild` past its checks, for a child that is no fragment. */
    method AppendSingle(parent: Node, child: Node)
      requires Valid() && parent in nodes && child in nodes && Fits(TreeView(), parent, child)
      modifies this`docSeq, this`documentById, this`taskToDocs, this`taskPrimaryDocument, nodes
      ensures Valid() && parent in old(TreeView())
      ensures View() == Place(old(View()), parent, child, |Without(old(TreeView())[parent].kids, child)|)
    {
      hide *;
      AtTree(parent);
      ghost var s0, i := View(), |Without(TreeView()[parent].kids, child)|;
      ViewParts();
      MoveStart(parent, child, i);
      MoveMiddle(TreeView(), OwnerView(), OwnedView(), parent, child, i);
      var nextOwner := RegisterOwnerOf(parent);
      MoveLast(parent, child);
      AdoptAndMark(parent, child, nextOwner);
      ViewParts();
      PlaceParts(s0, parent, child, i, View());
      PlaceIsValid(s0, parent, child, i);
    }

    /** `insertBefore` past its checks, for a child that is no fragment. */
    method InsertSingle(parent: Node, child: Node, index: nat)
      requires Valid() && parent in nodes && child in nodes && Fits(TreeView(), parent, child)
      requires index <= |Without(TreeView()[parent].kids, child)|
      modifies this`docSeq, this`documentById, this`taskToDocs, this`taskPrimaryDocument, nodes
      ensures Valid() && View() == Place(old(View()), parent, child, index)
    {
      hide *;
      ghost var s0 := View();
      ViewParts();
      MoveStart(parent, child, index);
      MoveMiddle(TreeView(), OwnerView(), OwnedView(), parent, child, index);
      MoveTo(parent, child, index);
      var nextOwner := RegisterOwnerOf(parent);
      AdoptAndMark(parent, child, nextOwner);
      ViewParts();
      PlaceParts(s0, parent, child, index, View());
      PlaceIsValid(s0, parent, child, index);
    }

    // ---------------------------------------------------------------- validation

    /** `countDocumentHtmlChildrenExcluding` */
    method CountHtmlChildrenExcluding(documentNode: Node, exclude: set<Node>) returns (count: nat)
      ensures count == HtmlCount(documentNode.childNodes, exclude)
    {
      count := 0;
      var kids := documentNode.childNodes;
      for i := 0 to |kids|
        invariant count == HtmlCount(kids[..i], exclude)
      {
        assert kids[..i + 1][..i] == kids[..i];
        if kids[i] !in exclude && IsHtml(kids[i]) { count := count + 1; }
      }
      assert kids[..|kids|] == kids;
    }

    lemma ListedHere(p: Node, f: Node)
      requires p in nodes && f in nodes && Closed(TreeView())
      ensures p in TreeView() && f in TreeView() && forall k :: k in f.childNodes ==> k in nodes
      ensures ListedUnder(TreeView(), p, f) == set k | k in f.childNodes && k in nodes && k.parentNode == p
    {
      AtTree(f);
    }

    /** The checks on a fragment that is to be put into a document. */
    method ValidateFragment(documentNode: Node, fragment: Node) returns (ok: bool)
      requires documentNode in nodes && fragment in nodes && Closed(TreeView())
      ensures ok <==>
        && (forall k :: k in fragment.childNodes ==> AllowedChild(DOCUMENT, k.nodeType))
        && HtmlCount(documentNode.childNodes, ListedUnder(TreeView(), documentNode, fragment))
           + HtmlCount(fragment.childNodes, {}) <= 1
    {
      hide TreeView, Closed, ListedUnder, IsHtml;
      ListedHere(documentNode, fragment);
      var kids, html := fragment.childNodes, 0;
      var moved: set<Node> := {};
      for i := 0 to |kids|
        invariant forall k :: k in kids[..i] ==> AllowedChild(DOCUMENT, k.nodeType)
        invariant html == HtmlCount(kids[..i], {})
        invariant moved == set k | k in kids[..i] && k in nodes && k.parentNode == documentNode
      {
        var child := kids[i];
        assert kids[..i + 1] == kids[..i] + [child] && kids[..i + 1][..i] == kids[..i];
        assert child in kids && child in nodes;
        if !AllowedChild(DOCUMENT, child.nodeType) || child.nodeType == TEXT { return false; }
        if IsHtml(child) { html := html + 1; }
        if child.parentNode == documentNode { moved := moved + {child}; }
      }
      assert kids[..|kids|] == kids;
      assert moved == ListedUnder(TreeView(), documentNode, fragment);
      var existing := CountHtmlChildrenExcluding(documentNode, moved);
      return existing + html <= 1;
    }

    /** `validateInsertion`, including `validateDocumentInsert`. */
    method ValidateInsertion(parent: Node, child: Node, beforeNode: Node?) returns (ok: bool)
      requires parent in nodes && child in nodes && Forest(TreeView())
      requires beforeNode != null ==> beforeNode in parent.childNodes
      ensures ok <==> ValidInsertion(TreeView(), parent, child)
    {
      AtTree(parent);
      AtTree(child);
      if !InsertableParent(parent.nodeType) || !AllowedChild(parent.nodeType, child.nodeType) { return false; }
      if parent.nodeType != DOCUMENT { return true; }
      if child.nodeType == TEXT { return false; }
      if beforeNode != null && beforeNode.nodeType == TEXT { return false; }
      if IsHtml(child) {
        var existing := CountHtmlChildrenExcluding(parent, if child.parentNode == parent then {child} else {});
        if existing >= 1 { return false; }
      }
      if child.nodeType == FRAGMENT {
        ok := ValidateFragment(parent, child);
        return;
      }
      return true;
    }

    // ---------------------------------------------------------------- the public tree operations

    lemma ValidParts()
      requires Valid()
      ensures Inv(View()) && View().tree == TreeView() && View().owner == OwnerView()
      ensures TreeView().Keys == OwnerView().Keys == nodes
      ensures Forest(TreeView()) && Closed(TreeView()) && Acyclic(TreeView()) && OwnersAreDocuments(OwnerView())
    {
    }

    /** `appendChild`; an exception is reported as the outcome. */
    method AppendChild(parent: Node, child: Node?) returns (r: Outcome)
      requires Valid() && parent in nodes && (child != null ==> child in nodes)
      modifies this`docSeq, this`documentById, this`taskToDocs, this`taskPrimaryDocument, nodes
      ensures Valid()
      ensures child == null ==> r == TypeError && View() == old(View())
      ensures child != null ==> (View(), r) == Append(old(View()), parent, child)
      decreases if child != null && child.nodeType == FRAGMENT then 1 else 0, 1
    {
      hide *;
      if child == null { return TypeError; }
      ValidParts();
      AppendCases(View(), parent, child);
      if parent == child { return HierarchyRequestError; }
      var ok := ValidateInsertion(parent, child, null);
      if !ok { return HierarchyRequestError; }
      if child.nodeType == FRAGMENT {
        r := AppendFragment(parent, child);
        return;
      }
      var above := IsAncestor(child, parent);
      if above { return HierarchyRequestError; }
      AppendSingle(parent, child);
      return Done;
    }

    /** The fragment case of `appendChild`. */
    method AppendFragment(parent: Node, fragment: Node) returns (r: Outcome)
      requires Valid() && parent in nodes && fragment in nodes && fragment.nodeType == FRAGMENT && parent != fragment
      requires ValidInsertion(TreeView(), parent, fragment)
      modifies this`docSeq, this`documentById, this`taskToDocs, this`taskPrimaryDocument, nodes
      ensures Valid()
      ensures (View(), r) == Append(old(View()), parent, fragment)
      decreases 1, 0
    {
      hide View, Valid, TreeView, OwnerView, OwnedView, RegView, TextView, StyleView, SlotView, BoxView;
      hide Inv, Forest, Closed, Acyclic, OwnersAreDocuments, ValidInsertion, Ancestor, Place, Append, AppendOne, Insert, InsertOne;
      var fragChildren := fragment.childNodes;
      ghost var s0 := View();
      ValidParts();
      AtTree(fragment);
      FragmentKidsAreNodes(TreeView(), fragment);
      AppendCases(s0, parent, fragment);
      assert fragChildren[0..] == fragChildren;
      for i := 0 to |fragChildren|
        invariant Valid() && s0.tree.Keys == nodes && Inv(View()) && View().tree.Keys == nodes
        invariant Inv(s0) && forall k :: k in fragChildren ==> k in s0.tree && k.nodeType != FRAGMENT
        invariant AppendAll(s0, parent, fragChildren) == AppendAll(View(), parent, fragChildren[i..])
      {
        AppendIsOne(View(), parent, fragChildren[i]);
        assert fragChildren[i..][1..] == fragChildren[i + 1..] && fragChildren[i..][0] == fragChildren[i];
        r := AppendChild(parent, fragChildren[i]);
        if r != Done { return; }
        ValidParts();
      }
      return Done;
    }

    /** `insertBefore` */
    method InsertBefore(parent: Node, child: Node?, beforeNode: Node?) returns (r: Outcome)
      requires Valid() && parent in nodes && (child != null ==> child in nodes)
      modifies this`docSeq, this`documentById, this`taskToDocs, this`taskPrimaryDocument, nodes
      ensures Valid()
      ensures child == null ==> r != Done && View() == old(View())
      ensures child != null ==> (View(), r) == Insert(old(View()), parent, child, beforeNode)
      decreases if child != null && child.nodeType == FRAGMENT then 1 else 0, 1
    {
      hide *;
      if beforeNode == null {
        if child != null { AppendIsInsertAtEnd(parent, child); }
        r := AppendChild(parent, child);
        return;
      }
      ValidParts();
      AtTree(parent);
      var beforeIndex := IndexOf(parent.childNodes, beforeNode);
      if beforeIndex < 0 {
        if child != null { InsertCases(View(), parent, child, beforeNode); }
        return NotFoundError;
      }
      if child == null { return TypeError; }
      InsertCases(View(), parent, child, beforeNode);
      if parent == child { return HierarchyRequestError; }
      var above := IsAncestor(child, parent);
      if above { return HierarchyRequestError; }
      var ok := ValidateInsertion(parent, child, beforeNode);
      if !ok { return HierarchyRequestError; }
      if child.nodeType == FRAGMENT {
        r := InsertFragment(parent, child, beforeNode);
        return;
      }
      InsertSingle(parent, child, beforeIndex);
      return Done;
    }

    lemma AppendIsInsertAtEnd(p: Node, c: Node)
      requires Valid() && p in nodes && c in nodes
      ensures Inv(View()) && p in View().tree && c in View().tree
      ensures Insert(View(), p, c, null) == Append(View(), p, c)
    {
      hide Append;
    }

    /** The fragment case of `insertBefore`. */
    method InsertFragment(parent: Node, fragment: Node, beforeNode: Node) returns (r: Outcome)
      requires Valid() && parent in nodes && fragment in nodes && fragment.nodeType == FRAGMENT && parent != fragment
      requires beforeNode in parent.childNodes
      requires ValidInsertion(TreeView(), parent, fragment) && !Ancestor(TreeView(), fragment, parent)
      modifies this`docSeq, this`documentById, this`taskToDocs, this`taskPrimaryDocument, nodes
      ensures Valid()
      ensures (View(), r) == Insert(old(View()), parent, fragment, beforeNode)
      decreases 1, 0
    {
      hide View, Valid, TreeView, OwnerView, OwnedView, RegView, TextView, StyleView, SlotView, BoxView;
      hide Inv, Forest, Closed, Acyclic, OwnersAreDocuments, ValidInsertion, Ancestor, Place, Append, AppendOne, Insert, InsertOne;
      var fragChildren := fragment.childNodes;
      ghost var s0 := View();
      ValidParts();
      AtTree(fragment);
      AtTree(parent);
      FragmentKidsAreNodes(TreeView(), fragment);
      InsertCases(s0, parent, fragment, beforeNode);
      assert fragChildren[0..] == fragChildren;
      for i := 0 to |fragChildren|
        invariant Valid() && s0.tree.Keys == nodes && Inv(View()) && View().tree.Keys == nodes
        invariant Inv(s0) && forall k :: k in fragChildren ==> k in s0.tree && k.nodeType != FRAGMENT
        invariant InsertAll(s0, parent, fragChildren, beforeNode) == InsertAll(View(), parent, fragChildren[i..], beforeNode)
      {
        InsertIsOne(View(), parent, fragChildren[i], beforeNode);
        assert fragChildren[i..][1..] == fragChildren[i + 1..] && fragChildren[i..][0] == fragChildren[i];
        r := InsertBefore(parent, fragChildren[i], beforeNode);
        if r != Done { return; }
        ValidParts();
      }
      return Done;
    }

    /** `markNodeDirty`, on the whole state. */
    method MarkDirtyIn(node: Node)
      requires node in nodes && Closed(TreeView()) && Acyclic(TreeView()) && OwnersAreDocuments(OwnerView())
      requires Grounded(View().tree, node) && node in View().owner
      modifies nodes`layoutDirty, nodes`layoutRect, nodes`dodTree
      ensures View() == MarkDirty(old(View()), node)
    {
      hide TreeView, OwnerView, OwnedView, RegView, TextView, StyleView, SlotView, BoxView;
      MarkNodeDirty(node);
    }

    /** `childNodes.splice(idx, 1)` and `parentNode = null`. */
    method Delist(parent: Node, child: Node, idx: nat)
      requires parent in nodes && child in nodes && idx < |parent.childNodes|
      modifies nodes`parentNode, nodes`childNodes
      ensures View() == old(View()).(tree := Delisted(old(TreeView()), parent, child, idx))
    {
      hide TreeView, OwnerView, OwnedView, RegView, TextView, StyleView, SlotView, BoxView;
      AtTree(parent);
      SetChildNodes(parent, parent.childNodes[..idx] + parent.childNodes[idx + 1..]);
      SetParentNode(child, null);
      ViewKeys();
    }

    /** `removeChild` */
    method RemoveChild(parent: Node, child: Node) returns (r: Outcome)
      requires Valid() && parent in nodes && child in nodes
      modifies nodes`parentNode, nodes`childNodes, nodes`layoutDirty, nodes`layoutRect, nodes`dodTree
      ensures Valid()
      ensures (View(), r) == Remove(old(View()), parent, child)
    {
      hide *;
      ValidParts();
      AtTree(parent);
      RemoveCases(View(), parent, child);
      var idx := IndexOf(parent.childNodes, child);
      if idx < 0 { return NotFoundError; }
      DelistedIs(TreeView(), parent, child, idx);
      Delist(parent, child, idx);
      ViewParts();
      MarkDirtyIn(parent);
      BecomesValid();
      return Done;
    }

    lemma BecomesValid()
      requires Inv(View())
      ensures Valid()
    {
    }

    method SetTextField(n: Node, value: string)
      requires n in nodes
      modifies n`textContent
      ensures View() == old(View()).(text := old(View()).text[n := value])
    {
      hide TreeView, OwnerView, OwnedView, RegView, StyleView, SlotView, BoxView;
      n.textContent := value;
    }

    /** The loop of `setTextContent` and the clearing of the list. */
    method DropChildren(n: Node)
      requires n in nodes && Forest(TreeView())
      modifies nodes`parentNode, nodes`childNodes
      ensures n in old(TreeView()) && TreeView() == DropKids(old(TreeView()), n)
    {
      hide TreeView, Forest;
      ghost var t := TreeView();
      var children := n.childNodes;
      AtTree(n);
      KidsInTree(t, n);
      OrphanAllKids(t, n);
      assert children[..0] == [] && children[..|children|] == children;
      for i := 0 to |children|
        invariant TreeView() == Orphan(t, children[..i])
      {
        assert children[..i + 1] == children[..i] + [children[i]];
        assert children[i] in children;
        OrphanOneMore(t, children[..i], children[i]);
        SetParentNode(children[i], null);
      }
      SetChildNodes(n, []);
    }

    lemma KidsInTree(t: Tree, n: Node)
      requires Forest(t) && n in t
      ensures forall k :: k in t[n].kids ==> k in t
    {
    }

    method DropChildrenIn(n: Node)
      requires n in nodes && Forest(TreeView())
      modifies nodes`parentNode, nodes`childNodes
      ensures n in old(TreeView()) && View() == old(View()).(tree := DropKids(old(TreeView()), n))
    {
      hide TreeView, OwnerView, OwnedView, RegView, TextView, StyleView, SlotView, BoxView, Forest, DropKids;
      DropChildren(n);
    }

    /** `setTextContent` */
    method SetTextContent(node: Node, value: string)
      requires Valid() && node in nodes
      modifies nodes`textContent, nodes`parentNode, nodes`childNodes, nodes`layoutDirty, nodes`layoutRect, nodes`dodTree
      ensures Valid() && View() == SetText(old(View()), node, value)
    {
      hide *;
      ValidParts();
      SetTextCases(View(), node, value);
      SetTextField(node, value);
      if node.nodeType == ELEMENT || node.nodeType == DOCUMENT {
        ViewParts();
        DropChildrenIn(node);
        ViewParts();
        MarkDirtyIn(node);
      }
      BecomesValid();
    }

    // ---------------------------------------------------------------- inline style

    method SetStyleStore(n: Node, style: Style)
      requires n in nodes
      modifies n`styleStore
      ensures View() == old(View()).(style := old(View()).style[n := style])
    {
      hide TreeView, OwnerView, OwnedView, RegView, TextView, SlotView, BoxView;
      n.styleStore := style;
    }

    lemma AtStyle(n: Node)
      requires n in nodes
      ensures n in View().style && View().style[n] == n.styleStore
    {
    }

    lemma RestyleCases(n: Node, style: Style)
      requires Valid() && n in nodes
      ensures Inv(View()) && n in View().tree && Inv(RestyleAndMark(View(), n, style))
      ensures RestyleAndMark(View(), n, style) == MarkDirty(View().(style := View().style[n := style]), n)
      ensures Closed(TreeView()) && Acyclic(TreeView()) && OwnersAreDocuments(OwnerView()) && Grounded(TreeView(), n)
      ensures View().tree == TreeView() && View().owner == OwnerView() && n in OwnerView()
    {
    }

    lemma SetStyleCases(n: Node, name: string, value: string)
      requires Valid() && n in nodes
      ensures Inv(View()) && n in View().tree && n in View().style
      ensures SetStyle(View(), n, name, value) ==
        if !IsWhitelistedStyle(NormalizeStyleName(name)) then View()
        else RestyleAndMark(View(), n, StyledWith(View().style[n], name, value))
    {
      hide StyledWith, NormalizeStyleName, IsWhitelistedStyle, RestyleAndMark;
    }

    /** `setStyleValue` */
    method SetStyleValue(node: Node, styleName: string, value: string)
      requires Valid() && node in nodes
      modifies nodes`styleStore, nodes`layoutDirty, nodes`layoutRect, nodes`dodTree
      ensures Valid() && View() == SetStyle(old(View()), node, styleName, value)
    {
      hide *;
      SetStyleCases(node, styleName, value);
      var normalized := NormalizeStyleName(styleName);
      if !IsWhitelistedStyle(normalized) { return; }
      AtStyle(node);
      Restyle(node, StyledWith(node.styleStore, styleName, value));
    }

    method Restyle(node: Node, style: Style)
      requires Valid() && node in nodes
      modifies nodes`styleStore, nodes`layoutDirty, nodes`layoutRect, nodes`dodTree
      ensures Inv(old(View())) && Valid() && View() == RestyleAndMark(old(View()), node, style)
    {
      hide *;
      RestyleCases(node, style);
      SetStyleStore(node, style);
      ViewParts();
      MarkDirtyIn(node);
      BecomesValid();
    }

    /** The record of a computed rectangle; no operation reads it back. */
    method StoreLayoutRect(n: Node, rect: Rect)
      requires n in nodes
      modifies n`layoutRect, n`layoutDirty
      ensures View() == old(View())
    {
      hide TreeView, OwnerView, OwnedView, RegView, TextView, StyleView, SlotView, BoxView;
      n.layoutRect := SomeRect(rect);
      n.layoutDirty := false;
    }

    // ---------------------------------------------------------------- creation and registration

    /** `ensureDocumentRegistration` on the whole state. */
    method EnsureRegisteredIn(d: Node, taskId: string)
      requires Valid() && d in nodes && d.nodeType == DOCUMENT
      modifies this`docSeq, this`documentById, this`taskToDocs, this`taskPrimaryDocument
      modifies d`docId, d`taskId, d`ownedNodes, d`isReleased, d`layoutDirty, d`layoutRect, d`parentNode
      ensures Valid() && View() == EnsureRegistered(old(View()), d, taskId)
    {
      hide TreeView, OwnerView, OwnedView, RegView, TextView, StyleView, SlotView, BoxView, Inv, Forest, RegisterDoc, Live;
      ValidParts();
      ViewParts();
      DocumentsAndFragmentsAreRoots(TreeView(), d);
      AtTree(d);
      EnsureRegisteredKeeps(View(), d, taskId);
      EnsureDocumentRegistration(d, taskId);
    }

    /** `createNodeObject`: a fresh record enters the map of states. */
    method AddRecord(nodeType: int, localName: string, tagName: string) returns (n: Node)
      modifies this`nodes
      ensures fresh(n) && nodes == old(nodes) + {n}
      ensures n.nodeType == nodeType && n.localName == localName && n.tagName == tagName
      ensures View() == Fresh(old(View()), n, null, "")
    {
      n := new Node(nodeType, localName, tagName);
      nodes := nodes + {n};
      AddedTree(n);
      AddedContent(n);
      AddedLayout(n);
      AddedRegistry(n);
    }

    twostate lemma AddedTree(new n: Node)
      requires n !in old(nodes) && nodes == old(nodes) + {n} && n.parentNode == null && n.childNodes == []
      requires n.ownerDocument == null && n.ownedNodes == {}
      requires forall m :: m in old(nodes) ==> m.parentNode == old(m.parentNode) && m.childNodes == old(m.childNodes)
      requires forall m :: m in old(nodes) ==> m.ownerDocument == old(m.ownerDocument) && m.ownedNodes == old(m.ownedNodes)
      ensures TreeView() == old(TreeView())[n := Links(null, [])]
      ensures OwnerView() == old(OwnerView())[n := null] && OwnedView() == old(OwnedView())[n := {}]
    {
    }

    twostate lemma AddedContent(new n: Node)
      requires n !in old(nodes) && nodes == old(nodes) + {n} && n.textContent == "" && n.styleStore == map[]
      requires forall m :: m in old(nodes) ==> m.textContent == old(m.textContent) && m.styleStore == old(m.styleStore)
      ensures TextView() == old(TextView())[n := ""] && StyleView() == old(StyleView())[n := map[]]
    {
    }

    twostate lemma AddedLayout(new n: Node)
      requires n !in old(nodes) && nodes == old(nodes) + {n} && n.dodTree == NoCache && n.dodNodeId == []
      requires forall m :: m in old(nodes) ==> m.dodTree == old(m.dodTree) && m.dodNodeId == old(m.dodNodeId)
      ensures BoxView() == old(BoxView())[n := NoCache] && SlotView() == old(SlotView())[n := []]
    {
    }

    twostate lemma AddedRegistry(new n: Node)
      requires n !in old(nodes) && nodes == old(nodes) + {n} && n.docId == 0 && n.taskId == "" && !n.isReleased
      requires forall m :: m in old(nodes) ==>
        m.docId == old(m.docId) && m.taskId == old(m.taskId) && m.isReleased == old(m.isReleased)
      ensures IdView() == old(IdView())[n := 0] && TaskView() == old(TaskView())[n := ""]
      ensures ReleasedView() == old(ReleasedView())
    {
    }

    /** Entering a new element into its owner's set. */
    method EnrolIn(n: Node, d: Node)
      requires n in nodes && d in nodes
      modifies n`ownerDocument, d`ownedNodes
      ensures d in old(View()).owned && View() == Enrol(old(View()), n, d)
    {
      hide TreeView, OwnerView, OwnedView, RegView, TextView, StyleView, SlotView, BoxView;
      SetOwnerDocument(n, d);
      AddOwned(d, n);
    }

    /** `createElementNSForDocument` for an owner document (or none). */
    method CreateElementFor(ownerDocument: Node?, localName: string, tagName: string) returns (n: Node)
      requires Valid()
      requires ownerDocument != null ==> ownerDocument in nodes && ownerDocument.nodeType == DOCUMENT
      modifies this, nodes
      ensures Valid() && fresh(n) && nodes == old(nodes) + {n}
      ensures n.nodeType == ELEMENT && n.localName == localName && n.tagName == tagName
      ensures n !in old(View()).tree && Inv(old(View()))
      ensures ownerDocument != null ==> ownerDocument in old(View()).tree
      ensures View() == CreateElement(old(View()), n, ownerDocument)
    {
      hide *;
      ghost var s0 := View();
      ValidParts();
      n := AddRecord(ELEMENT, localName, tagName);
      CreateElementKeepsInv(s0, n, ownerDocument);
      CreateElementCases(s0, n, ownerDocument);
      BecomesValid();
      if ownerDocument != null {
        EnsureRegisteredIn(ownerDocument, "");
        EnrolIn(n, ownerDocument);
        BecomesValid();
      }
    }

    lemma CreateElementCases(s: DomState, n: Node, d: Node?)
      requires Inv(s) && n !in s.tree && n.nodeType == ELEMENT
      requires d != null ==> d in s.tree && d.nodeType == DOCUMENT
      ensures d == null ==> CreateElement(s, n, d) == Fresh(s, n, null, "")
      ensures d != null ==>
        && d in EnsureRegistered(Fresh(s, n, null, ""), d, "").owned
        && CreateElement(s, n, d) == Enrol(EnsureRegistered(Fresh(s, n, null, ""), d, ""), n, d)
    {
      InvKeys(s);
      hide Inv, Enrol;
    }

    /** A text node, comment, fragment or unregistered document, with the owner
        document its state is given. */
    method CreateOther(nodeType: int, ownerDocument: Node?, text: string) returns (n: Node)
      requires Valid() && nodeType != ELEMENT
      requires ownerDocument != null ==>
        ownerDocument in nodes && ownerDocument.nodeType == DOCUMENT && nodeType != DOCUMENT
      modifies this`nodes
      ensures Valid() && fresh(n) && nodes == old(nodes) + {n} && n.nodeType == nodeType
      ensures n !in old(View()).tree && View() == Fresh(old(View()), n, ownerDocument, text)
    {
      hide *;
      ghost var s0 := View();
      ValidParts();
      n := AddRecord(nodeType, "", "");
      SetTextField(n, text);
      SetOwnerIn(n, ownerDocument);
      FreshKeepsInv(s0, n, ownerDocument, text);
      FreshWith(s0, n, ownerDocument, text);
      BecomesValid();
    }

    method SetOwnerIn(n: Node, d: Node?)
      requires n in nodes
      modifies n`ownerDocument
      ensures View() == old(View()).(owner := old(View()).owner[n := d])
    {
      hide TreeView, OwnerView, OwnedView, RegView, TextView, StyleView, SlotView, BoxView;
      SetOwnerDocument(n, d);
    }

    lemma FreshWith(s: DomState, n: Node, d: Node?, text: string)
      ensures var s1 := Fresh(s, n, null, "");
        var s2 := s1.(text := s1.text[n := text]);
        s2.(owner := s2.owner[n := d]) == Fresh(s, n, d, text)
    {
      assert s.text[n := ""][n := text] == s.text[n := text];
      assert s.owner[n := null][n := d] == s.owner[n := d];
    }

    // ---------------------------------------------------------------- release

    method ClearLinks(n: Node)
      requires n in nodes
      modifies n`parentNode, n`childNodes
      ensures TreeView() == old(TreeView())[n := Links(null, [])]
    {
      n.parentNode := null;
      n.childNodes := [];
    }

    method ClearLinksIn(n: Node)
      requires n in nodes
      modifies n`parentNode, n`childNodes
      ensures View() == old(View()).(tree := old(View()).tree[n := Links(null, [])])
    {
      hide TreeView, OwnerView, OwnedView, RegView, TextView, StyleView, SlotView, BoxView;
      ClearLinks(n);
    }

    method ClearContent(n: Node)
      requires n in nodes
      modifies n`textContent, n`styleStore
      ensures View() == old(View()).(text := old(View()).text[n := ""], style := old(View()).style[n := map[]])
    {
      hide TreeView, OwnerView, OwnedView, RegView, SlotView, BoxView;
      n.textContent := "";
      n.styleStore := map[];
    }

    method MarkReleased(n: Node)
      requires n in nodes && n.nodeType != DOCUMENT
      modifies n`isReleased, n`layoutDirty, n`layoutRect
      ensures View() == old(View())
    {
      hide TreeView, OwnerView, OwnedView, IdView, TaskView, TextView, StyleView, SlotView, BoxView;
      n.layoutDirty := true;
      n.layoutRect := NoRect;
      n.isReleased := true;
    }

    /** `clearNodeState` of a node that is no document. */
    method ClearNodeState(n: Node)
      requires n in nodes && n.nodeType != DOCUMENT
      modifies n`parentNode, n`childNodes, n`ownerDocument, n`textContent, n`styleStore, n`isReleased, n`layoutDirty, n`layoutRect
      ensures View() == ClearNode(old(View()), n)
    {
      hide View;
      ClearLinksIn(n);
      SetOwnerIn(n, null);
      ClearContent(n);
      MarkReleased(n);
    }

    lemma ViewDomains()
      ensures Domains(View()) && View().tree.Keys == nodes
    {
    }

    /** The loop of `releaseDocument` over the owned nodes, in whatever order. */
    method ClearNodeStates(owned: set<Node>)
      requires owned <= nodes && forall n :: n in owned ==> n.nodeType != DOCUMENT
      modifies owned`parentNode, owned`childNodes, owned`ownerDocument, owned`textContent, owned`styleStore
      modifies owned`isReleased, owned`layoutDirty, owned`layoutRect
      ensures View() == ClearNodes(old(View()), owned)
    {
      hide View, ClearNode, ClearNodes;
      ghost var s0 := View();
      var rest := owned;
      ViewDomains();
      ClearNothing(s0);
      assert owned - owned == {};
      while rest != {}
        invariant rest <= owned && View() == ClearNodes(s0, owned - rest)
      {
        var n :| n in rest;
        ClearOneMore(s0, owned - rest, n);
        assert owned - (rest - {n}) == (owned - rest) + {n};
        ClearNodeState(n);
        rest := rest - {n};
      }
      assert owned - {} == owned;
    }

    /** The part of `releaseDocument` that empties the document's own record. */
    method ResetReleasedDocument(d: Node)
      requires d in nodes && d.nodeType == DOCUMENT
      modifies d`ownedNodes, d`childNodes, d`parentNode, d`isReleased, d`layoutDirty, d`layoutRect
      ensures View() == ResetDoc(old(View()), d)
    {
      hide *;
      ghost var s0 := View();
      ResetInSteps(s0, d);
      ClearOwnedIn(d);
      ClearLinksIn(d);
      SetReleasedIn(d);
    }

    method ClearOwnedIn(d: Node)
      requires d in nodes
      modifies d`ownedNodes
      ensures View() == old(View()).(owned := old(View()).owned[d := {}])
    {
      hide TreeView, OwnerView, OwnedView, RegView, TextView, StyleView, SlotView, BoxView;
      SetOwnedNodes(d, {});
    }

    method SetReleasedIn(d: Node)
      requires d in nodes && d.nodeType == DOCUMENT
      modifies d`isReleased, d`layoutDirty, d`layoutRect
      ensures View() == old(View()).(reg := old(View()).reg.(released := old(View()).reg.released + {d}))
    {
      hide TreeView, OwnerView, OwnedView, IdView, TaskView, ReleasedView, TextView, StyleView, SlotView, BoxView;
      d.layoutDirty := true;
      d.layoutRect := NoRect;
      SetReleased(d);
    }

    method SetReleased(d: Node)
      requires d in nodes && d.nodeType == DOCUMENT
      modifies d`isReleased
      ensures ReleasedView() == old(ReleasedView()) + {d}
    {
      d.isReleased := true;
    }

    /** The part of `releaseDocument` that updates the registries. */
    method Deregister(d: Node, docId: nat, taskId: string)
      modifies this`documentById, this`taskToDocs, this`taskPrimaryDocument
      ensures View() == old(View()).(reg := DeregisterFrom(old(View()).reg, d, docId, taskId))
    {
      hide TreeView, OwnerView, OwnedView, IdView, TaskView, ReleasedView, TextView, StyleView, SlotView, BoxView, DeregisterFrom;
      DropFromIndexes(d, docId, taskId);
    }

    method DropFromIndexes(d: Node, docId: nat, taskId: string)
      modifies this`documentById, this`taskToDocs, this`taskPrimaryDocument
      ensures RegView() == DeregisterFrom(old(RegView()), d, docId, taskId)
    {
      hide IdView, TaskView, ReleasedView;
      documentById := documentById - {docId};
      if taskId != "" {
        if taskId in taskToDocs {
          var docSet := taskToDocs[taskId] - {docId};
          if docSet != {} {
            taskToDocs := taskToDocs[taskId := docSet];
          } else {
            taskToDocs := taskToDocs - {taskId};
          }
        }
        if taskId in taskPrimaryDocument && taskPrimaryDocument[taskId] == d {
          taskPrimaryDocument := taskPrimaryDocument - {taskId};
        }
      }
    }

    method CountRelease(owned: set<Node>)
      modifies this`releasedDocs, this`releasedNodes
      ensures View() == CountDoc(old(View()), |owned|)
    {
      hide TreeView, OwnerView, OwnedView, IdView, TaskView, ReleasedView, TextView, StyleView, SlotView, BoxView;
      releasedDocs := releasedDocs + 1;
      releasedNodes := releasedNodes + |owned|;
    }

    lemma AtDocument(d: Node)
      requires d in nodes && d.nodeType == DOCUMENT
      ensures d in View().owned && View().owned[d] == d.ownedNodes
      ensures d in View().reg.ids && View().reg.ids[d] == d.docId
      ensures d in View().reg.tasks && View().reg.tasks[d] == d.taskId
      ensures d in View().reg.released <==> d.isReleased
    {
    }

    /** `releaseDocument`: the released nodes, the document's record and the registries. */
    method ReleaseDocument(d: Node) returns (count: nat)
      requires Valid() && d in nodes && d.nodeType == DOCUMENT
      modifies this`documentById, this`taskToDocs, this`taskPrimaryDocument, this`releasedDocs, this`releasedNodes, nodes
      ensures Domains(old(View()))
      ensures !Live(old(View()).reg, d) ==> count == 0 && View() == old(View())
      ensures Live(old(View()).reg, d) ==> count == 1 && View() == Release(old(View()), {d})
      ensures !Loaded(old(View()), {d}) ==> Valid()
    {
      hide *;
      ghost var s0 := View();
      ValidParts();
      ViewDomains();
      AtDocument(d);
      ReleasableDocument(s0, d);
      if d.docId == 0 || d.isReleased { return 0; }
      ReleaseLive(d);
      if !Loaded(s0, {d}) { BecomesValid(); }
      return 1;
    }

    /** What `releaseDocument` does to a live document. */
    method ReleaseLive(d: Node)
      requires Valid() && d in nodes && d.nodeType == DOCUMENT && Domains(View()) && Live(View().reg, d)
      modifies this`documentById, this`taskToDocs, this`taskPrimaryDocument, this`releasedDocs, this`releasedNodes, nodes
      ensures View() == Release(old(View()), {d})
    {
      hide *;
      ValidParts();
      ViewDomains();
      AtDocument(d);
      ReleaseSteps(View(), d);
      var docId, taskId, owned := d.docId, d.taskId, d.ownedNodes;
      CountRelease(owned);
      ClearNodeStates(owned);
      ResetReleasedDocument(d);
      Deregister(d, docId, taskId);
    }

    // ---------------------------------------------------------------- task scopes

    /** `resolveDocumentNode` of a registered id, then `releaseDocument`. */
    method ReleaseById(id: nat, ghost s0: DomState, ghost released: set<Node>)
      requires Valid() && Inv(s0) && View() == Release(s0, released) && LiveDocs(s0, released)
      requires id in s0.reg.byId && s0.reg.byId[id] !in released && !Loaded(s0, released + {s0.reg.byId[id]})
      modifies this`documentById, this`taskToDocs, this`taskPrimaryDocument, this`releasedDocs, this`releasedNodes, nodes
      ensures Valid() && LiveDocs(s0, released + {s0.reg.byId[id]})
      ensures View() == Release(s0, released + {s0.reg.byId[id]})
    {
      hide *;
      ReleaseByIdStart(id, s0, released);
      var d := documentById[id];
      ghost var D := released + {d};
      var count := ReleaseDocument(d);
      ReleaseKeepsInv(s0, D);
      BecomesValid();
    }

    lemma ReleaseByIdStart(id: nat, s0: DomState, released: set<Node>)
      requires Valid() && Inv(s0) && View() == Release(s0, released) && LiveDocs(s0, released)
      requires id in s0.reg.byId && s0.reg.byId[id] !in released
      ensures var d := s0.reg.byId[id];
        && id in documentById && documentById[id] == d && d in nodes && d.nodeType == DOCUMENT
        && Live(View().reg, d) && LiveDocs(s0, released + {d})
        && Domains(View()) && Release(View(), {d}) == Release(s0, released + {d})
    {
      hide Inv, Release, Domains, LiveDocs, Live, TreeView, OwnerView, OwnedView, TextView, StyleView, SlotView, BoxView;
      assert View().reg.byId == documentById && View().tree.Keys == nodes by { ViewDomains(); }
      NextOfScope(s0, released, id);
    }

    /** The loop of `releaseTaskScope` over a task's document ids, in whatever order. */
    method ReleaseIds(ids: set<nat>, ghost s0: DomState, task: string) returns (released: nat)
      requires Valid() && View() == s0 && ids == TaskDocs(s0.reg, task)
      requires Domains(s0) && !Loaded(s0, DocumentsOf(s0.reg, task))
      modifies this`documentById, this`taskToDocs, this`taskPrimaryDocument, this`releasedDocs, this`releasedNodes, nodes
      ensures Valid() && View() == Release(s0, DocumentsOf(s0.reg, task)) && released == |ids|
    {
      hide *;
      released := 0;
      var rest := ids;
      ghost var D := {};
      ValidParts();
      ReleaseNothingYet(s0, task, ids);
      while rest != {}
        invariant rest <= ids && released == |ids| - |rest|
        invariant Valid() && Inv(s0) && LiveDocs(s0, D)
        invariant DocsLeft(s0.reg, task, D, rest) && View() == Release(s0, D)
      {
        var id :| id in rest;
        OneDocLess(s0, task, D, rest, id);
        ReleaseById(id, s0, D);
        D := D + {s0.reg.byId[id]};
        rest := rest - {id};
        released := released + 1;
      }
      NoDocLeft(s0.reg, task, D);
    }

    /** `releaseTaskScope` */
    method ReleaseTaskScope(taskId: string) returns (released: nat)
      requires Valid() && Domains(View())
      requires !Loaded(View(), DocumentsOf(View().reg, NormalizeTaskId(currentTaskId, taskId)))
      modifies this`documentById, this`taskToDocs, this`taskPrimaryDocument, this`releasedDocs, this`releasedNodes, nodes
      ensures Valid() && Domains(old(View()))
      ensures View() == Release(old(View()), DocumentsOf(old(View()).reg, NormalizeTaskId(old(currentTaskId), taskId)))
      ensures released == |TaskDocs(old(View()).reg, NormalizeTaskId(old(currentTaskId), taskId))|
    {
      hide *;
      ghost var s0 := View();
      var task := NormalizeTaskId(currentTaskId, taskId);
      AtRegistry(task);
      EmptyScope(s0, task);
      if task !in taskToDocs {
        taskPrimaryDocument := taskPrimaryDocument - {task};
        return 0;
      }
      released := ReleaseIds(taskToDocs[task], s0, task);
      AtRegistry(task);
      ScopeIsReleased(s0, task);
      taskToDocs := taskToDocs - {task};
      taskPrimaryDocument := taskPrimaryDocument - {task};
    }

    lemma AtRegistry(task: string)
      requires Valid()
      ensures RegistryExact(View().reg) && Inv(View()) && View().reg.byTask == taskToDocs
      ensures View().reg.primary == taskPrimaryDocument
      ensures TaskDocs(View().reg, task) == if task in taskToDocs then taskToDocs[task] else {}
      ensures View().reg.currentTask == currentTaskId
    {
    }

    /** The loops of `releaseStaleTaskScopes` and `releaseAllScopes`. */
    method ReleaseTasks(taskIds: set<string>) returns (released: nat)
      requires Valid() && "" !in taskIds && Domains(View()) && !Loaded(View(), DocumentsOfAll(View().reg, taskIds))
      modifies this`documentById, this`taskToDocs, this`taskPrimaryDocument, this`releasedDocs, this`releasedNodes, nodes
      ensures Valid() && Domains(old(View()))
      ensures View() == Release(old(View()), DocumentsOfAll(old(View()).reg, taskIds))
      ensures currentTaskId == old(currentTaskId)
    {
      hide *;
      ghost var s0 := View();
      released := 0;
      var rest := taskIds;
      ValidParts();
      NoTaskYet(s0);
      assert taskIds - taskIds == {};
      while rest != {}
        invariant rest <= taskIds && Valid() && Inv(s0) && Domains(s0) && currentTaskId == old(currentTaskId)
        invariant View() == Release(s0, DocumentsOfAll(s0.reg, taskIds - rest))
      {
        var task :| task in rest;
        OneTaskMore(s0, taskIds - rest, taskIds, task);
        assert taskIds - (rest - {task}) == (taskIds - rest) + {task};
        NamedTask(currentTaskId, task);
        AtRegistry(task);
        var n := ReleaseTaskScope(task);
        released := released + n;
        rest := rest - {task};
      }
      assert taskIds - {} == taskIds;
    }

    /** `beginTaskScope` */
    method BeginTaskScope(taskId: string) returns (task: string)
      requires Valid() && Domains(View()) && !Loaded(View(), DocumentsNotOf(View().reg, BegunTask(taskId)))
      modifies this, nodes
      ensures Valid() && nodes == old(nodes) && Domains(old(View())) && task == BegunTask(taskId)
      ensures View() == BeginTask(old(View()), taskId)
    {
      hide *;
      ghost var s0 := View();
      ScopeNames(s0, taskId);
      task := BegunTask(taskId);
      NamedTask(currentTaskId, task);
      task := NormalizeTaskId(currentTaskId, task);
      var taskIds := taskToDocs.Keys - {task};
      AtRegistry(task);
      StaleTasks(s0, task);
      var released := ReleaseTasks(taskIds);
      BeginTaskCases(s0, task);
      SetCurrentTask(task);
      BecomesValid();
    }

    method SetCurrentTask(task: string)
      modifies this`currentTaskId
      ensures View() == old(View()).(reg := old(View()).reg.(currentTask := task))
    {
      hide TreeView, OwnerView, OwnedView, IdView, TaskView, ReleasedView, TextView, StyleView, SlotView, BoxView;
      currentTaskId := task;
    }

    /** `endTaskScope` */
    method EndTaskScope(taskId: string) returns (released: nat)
      requires Valid() && Domains(View()) && !Loaded(View(), DocumentsOf(View().reg, NormalizeTaskId(currentTaskId, taskId)))
      modifies this, nodes
      ensures Valid() && nodes == old(nodes) && Domains(old(View()))
      ensures View() == EndTask(old(View()), taskId)
      ensures released == |TaskDocs(old(View()).reg, NormalizeTaskId(old(currentTaskId), taskId))|
    {
      hide *;
      ghost var s0 := View();
      AtRegistry(taskId);
      ScopeNames(s0, taskId);
      var task := NormalizeTaskId(currentTaskId, taskId);
      NamedTask(currentTaskId, task);
      AtRegistry(task);
      EndTaskCases(s0, task);
      var current := currentTaskId;
      released := ReleaseTaskScope(task);
      SetCurrentTask(if current == task then DEFAULT_TASK else current);
      BecomesValid();
    }

    /** `drainReleaseStats` */
    method DrainReleaseStats() returns (docs: nat, drainedNodes: nat)
      requires Valid()
      modifies this`releasedDocs, this`releasedNodes, this`drainedDocs
      ensures Valid() && docs == old(releasedDocs) && drainedNodes == old(releasedNodes)
      ensures releasedDocs == 0 && releasedNodes == 0
      ensures View() == old(View()).(reg := Drained(old(View()).reg))
    {
      hide TreeView, OwnerView, OwnedView, IdView, TaskView, ReleasedView, TextView, StyleView, SlotView, BoxView, Inv;
      DrainKeepsInv(View());
      docs, drainedNodes := releasedDocs, releasedNodes;
      drainedDocs := drainedDocs + releasedDocs;
      releasedDocs := 0;
      releasedNodes := 0;
    }
  }

  ghost function AdoptOneOwned(owned: OwnedSets, cur: Node, from: Node?, to: Node?): OwnedSets
  {
    var owned1 := if from != null && from != to && from in owned then owned[from := owned[from] - {cur}] else owned;
    if to != null && to in owned1 then owned1[to := owned1[to] + {cur}] else owned1
  }

  // ---------------------------------------------------------------- release, one node at a time

  ghost function ClearNode(s: DomState, n: Node): DomState {
    s.(tree := s.tree[n := Links(null, [])], owner := s.owner[n := null],
       text := s.text[n := ""], style := s.style[n := map[]])
  }

  ghost function ClearNodes(s: DomState, gone: set<Node>): DomState {
    s.(tree := ReleaseTree(s.tree, gone), owner := ReleaseOwner(s.owner, gone),
       text := ClearText(s.text, gone), style := ClearStyle(s.style, gone))
  }

  lemma ClearNothing(s: DomState)
    ensures ClearNodes(s, {}) == s
  {
    ReleaseNoMaps(s.tree, s.owner, s.owned, s.text, s.style);
    assert ReleaseTree(s.tree, {}) == s.tree;
  }

  lemma ClearOneMore(s: DomState, gone: set<Node>, n: Node)
    requires n in s.tree && n in s.owner && n in s.text && n in s.style
    ensures ClearNodes(s, gone + {n}) == ClearNode(ClearNodes(s, gone), n)
  {
    ClearOneRecord(s, gone, n);
    var a, b := ClearNodes(s, gone + {n}), ClearNode(ClearNodes(s, gone), n);
    assert a.text == b.text && a.style == b.style;
  }

  lemma ClearOneRecord(s: DomState, gone: set<Node>, n: Node)
    requires n in s.tree && n in s.owner
    ensures ClearNodes(s, gone + {n}).tree == ClearNode(ClearNodes(s, gone), n).tree
    ensures ClearNodes(s, gone + {n}).owner == ClearNode(ClearNodes(s, gone), n).owner
  {
  }

  ghost function CountDoc(s: DomState, owned: nat): DomState {
    s.(reg := s.reg.(releasedDocs := s.reg.releasedDocs + 1, releasedNodes := s.reg.releasedNodes + owned))
  }

  lemma ResetInSteps(s: DomState, d: Node)
    ensures var s1 := s.(owned := s.owned[d := {}]);
      var s2 := s1.(tree := s1.tree[d := Links(null, [])]);
      s2.(reg := s2.reg.(released := s2.reg.released + {d})) == ResetDoc(s, d)
  {
  }

  ghost function ResetDoc(s: DomState, d: Node): DomState {
    s.(tree := s.tree[d := Links(null, [])], owned := s.owned[d := {}],
       reg := s.reg.(released := s.reg.released + {d}))
  }

  /** The steps of `releaseDocument` add up to the release of one document. */
  lemma ReleaseSteps(s: DomState, d: Node)
    requires Inv(s) && d in s.tree && d.nodeType == DOCUMENT
    ensures d in s.owned && d in s.reg.ids && d in s.reg.tasks && Domains(s)
    ensures Live(s.reg, d) <==> s.reg.ids[d] != 0 && d !in s.reg.released
    ensures s.owned[d] <= s.tree.Keys && forall n :: n in s.owned[d] ==> n.nodeType != DOCUMENT
    ensures Live(s.reg, d) ==>
      var owned := s.owned[d];
      var s1 := ResetDoc(ClearNodes(CountDoc(s, |owned|), owned), d);
      s1.(reg := DeregisterFrom(s1.reg, d, s.reg.ids[d], s.reg.tasks[d])) == Release(s, {d})
  {
    ReleaseFacts(s, d);
    hide Inv, Live, Domains, Release, ReleaseDocs, DeregisterFrom, ReleaseTree, ReleaseOwned;
    if Live(s.reg, d) { ReleaseAddsUp(s, d); }
  }

  lemma ReleasableDocument(s: DomState, d: Node)
    requires Inv(s) && d in s.tree && d.nodeType == DOCUMENT
    ensures d in s.reg.ids && Domains(s) && (Live(s.reg, d) <==> s.reg.ids[d] != 0 && d !in s.reg.released)
    ensures Live(s.reg, d) && !Loaded(s, {d}) ==> Inv(Release(s, {d}))
  {
    ReleaseFacts(s, d);
    hide Inv, Loaded, Live, Domains, Release;
    if Live(s.reg, d) && !Loaded(s, {d}) { ReleaseKeepsInv(s, {d}); }
  }

  lemma ReleaseFacts(s: DomState, d: Node)
    requires Inv(s) && d in s.tree && d.nodeType == DOCUMENT
    ensures d in s.owned && d in s.reg.ids && d in s.reg.tasks && Domains(s)
    ensures Live(s.reg, d) <==> s.reg.ids[d] != 0 && d !in s.reg.released
    ensures Gone(s, {d}) == s.owned[d] && RegistryExact(s.reg)
    ensures s.owned[d] <= s.tree.Keys && forall n :: n in s.owned[d] ==> n.nodeType != DOCUMENT
    ensures Live(s.reg, d) ==> LiveDocs(s, {d})
  {
    hide Forest, OwnedIsComplete, OwnerFollowsParent, TasksAgree, PrimariesAgree, OwnersAreLive;
    GoneIsOwned(s, d);
  }

  lemma ReleaseAddsUp(s: DomState, d: Node)
    requires Domains(s) && d in s.tree && d in s.owned && d in s.reg.ids && d in s.reg.tasks
    requires Gone(s, {d}) == s.owned[d] && RegistryExact(s.reg) && Live(s.reg, d)
    ensures var owned := s.owned[d];
      var s1 := ResetDoc(ClearNodes(CountDoc(s, |owned|), owned), d);
      s1.(reg := DeregisterFrom(s1.reg, d, s.reg.ids[d], s.reg.tasks[d])) == Release(s, {d})
  {
    hide Domains, Live, RegistryExact, Gone, ReleaseDocs, ReleaseTree, ReleaseOwned, ReleaseOwner, ClearText, ClearStyle;
    ReleaseOneDoc(s.reg, d, |s.owned[d]|);
    ReleaseMapsOne(s.tree, s.owned, s.owned[d], d);
  }

  lemma ReleaseMapsOne(t: Tree, owned: OwnedSets, gone: set<Node>, d: Node)
    requires d in t && d in owned
    ensures ReleaseTree(t, gone + {d}) == ReleaseTree(t, gone)[d := Links(null, [])]
    ensures ReleaseOwned(owned, {d}) == owned[d := {}]
  {
  }

  // ---------------------------------------------------------------- releasing a task's ids one by one

  /** `D` holds the documents of `task` whose ids are not in `rest` any more. */
  ghost predicate DocsLeft(r: Registry, task: string, D: set<Node>, rest: set<nat>) {
    && rest <= TaskDocs(r, task)
    && D == set d | d in DocumentsOf(r, task) && d in r.ids && r.ids[d] !in rest
  }

  lemma ReleaseNothingYet(s: DomState, task: string, ids: set<nat>)
    requires Inv(s) && ids == TaskDocs(s.reg, task)
    ensures LiveDocs(s, {}) && DocsLeft(s.reg, task, {}, ids) && Domains(s) && s == Release(s, {})
  {
    ReleaseNothing(s);
    TaskIdsNameDocuments(s.reg, task);
  }

  lemma OneDocLess(s: DomState, task: string, D: set<Node>, rest: set<nat>, id: nat)
    requires Inv(s) && DocsLeft(s.reg, task, D, rest) && id in rest && !Loaded(s, DocumentsOf(s.reg, task))
    ensures id in s.reg.byId && s.reg.byId[id] !in D
    ensures DocsLeft(s.reg, task, D + {s.reg.byId[id]}, rest - {id})
    ensures !Loaded(s, D + {s.reg.byId[id]})
  {
    TaskIdsNameDocuments(s.reg, task);
    DocLess(s.reg, task, D, rest, id);
    LoadedGrows(s, D + {s.reg.byId[id]}, DocumentsOf(s.reg, task));
  }

  lemma DocLess(r: Registry, task: string, D: set<Node>, rest: set<nat>, id: nat)
    requires RegistryExact(r) && DocsLeft(r, task, D, rest) && id in rest
    ensures id in r.byId && r.byId[id] !in D
    ensures DocsLeft(r, task, D + {r.byId[id]}, rest - {id}) && D + {r.byId[id]} <= DocumentsOf(r, task)
  {
    TaskIdsNameDocuments(r, task);
    assert r.ids[r.byId[id]] == id;
  }

  lemma NoDocLeft(r: Registry, task: string, D: set<Node>)
    requires DocsLeft(r, task, D, {})
    ensures D == DocumentsOf(r, task)
  {
  }

  /** Dropping the entries of an unindexed task changes nothing. */
  lemma EmptyScope(s: DomState, task: string)
    requires Inv(s)
    ensures task !in s.reg.byTask ==>
      && s.reg.primary - {task} == s.reg.primary
      && Domains(s) && Release(s, DocumentsOf(s.reg, task)) == s
  {
    hide Inv, Domains, Release, DocumentsOf, IdsAgree, TasksAgree, PrimariesAgree;
    RegistryOfInv(s);
    DomainsOfInv(s);
    if task !in s.reg.byTask {
      UnindexedTask(s.reg, task);
      ReleaseNothing(s);
    }
  }

  lemma UnindexedTask(r: Registry, task: string)
    requires RegistryExact(r) && task !in r.byTask
    ensures DocumentsOf(r, task) == {} && task !in r.primary
  {
    TaskIdsNameDocuments(r, task);
    assert DocumentsOf(r, task) == {};
    IndexedTaskHasDocuments(r, task);
  }

  lemma ScopeIsReleased(s: DomState, task: string)
    requires Inv(s) && Domains(s) && !Loaded(s, DocumentsOf(s.reg, task))
    ensures var r := Release(s, DocumentsOf(s.reg, task)).reg;
      r.byTask - {task} == r.byTask && r.primary - {task} == r.primary
  {
    hide Inv, Loaded, LiveDocs, Domains, DocumentsOf, DocumentsNotOf, RegistryExact, ReleaseDocs;
    var D := DocumentsOf(s.reg, task);
    ScopesAreLive(s, task);
    ReleaseKeepsInv(s, D);
    RegistryOfInv(Release(s, D));
    ReleaseKeepsDocuments(s.reg, D, |Gone(s, D)|, task);
    IndexedTaskHasDocuments(Release(s, D).reg, task);
  }

  lemma RegistryOfInv(s: DomState)
    requires Inv(s)
    ensures RegistryExact(s.reg)
  {
  }

  // ---------------------------------------------------------------- releasing several tasks

  lemma NamedTask(current: string, task: string)
    requires task != ""
    ensures NormalizeTaskId(current, task) == task
  {
  }

  lemma NoTaskYet(s: DomState)
    requires Inv(s)
    ensures Domains(s) && s == Release(s, DocumentsOfAll(s.reg, {}))
  {
    assert DocumentsOfAll(s.reg, {}) == {};
    ReleaseNothing(s);
  }

  lemma TaskSets(r: Registry, done: set<string>, all: set<string>, task: string)
    requires task !in done && done + {task} <= all
    ensures DocumentsOfAll(r, done + {task}) == DocumentsOfAll(r, done) + DocumentsOf(r, task)
    ensures DocumentsOfAll(r, done) !! DocumentsOf(r, task)
    ensures DocumentsOf(r, task) - DocumentsOfAll(r, done) == DocumentsOf(r, task)
    ensures DocumentsOfAll(r, done) <= DocumentsOfAll(r, all) && DocumentsOf(r, task) <= DocumentsOfAll(r, all)
    ensures forall d :: d in DocumentsOfAll(r, done) ==> Live(r, d)
  {
  }

  lemma OneTaskMore(s: DomState, done: set<string>, all: set<string>, task: string)
    requires Inv(s) && Domains(s) && !Loaded(s, DocumentsOfAll(s.reg, all)) && task !in done && done + {task} <= all
    ensures var s1 := Release(s, DocumentsOfAll(s.reg, done));
      && Domains(s1) && DocumentsOf(s1.reg, task) == DocumentsOf(s.reg, task)
      && !Loaded(s1, DocumentsOf(s.reg, task))
      && Release(s1, DocumentsOf(s.reg, task)) == Release(s, DocumentsOfAll(s.reg, done + {task}))
  {
    hide Inv, Loaded, Domains, DocumentsOf, DocumentsOfAll, RegistryExact, ReleaseDocs, Live;
    var D, E := DocumentsOfAll(s.reg, done), DocumentsOf(s.reg, task);
    TaskSets(s.reg, done, all, task);
    RegistryOfInv(s);
    OwnersOfInv(s);
    ReleaseGrows(s, D, E);
    ReleaseKeepsDocuments(s.reg, D, |Gone(s, D)|, task);
    LoadedGrows(s, E, DocumentsOfAll(s.reg, all));
    ReleaseLoadsNothing(s, D, E);
  }

  lemma OwnersOfInv(s: DomState)
    requires Inv(s)
    ensures OwnersAreDocuments(s.owner)
  {
  }

  /** A live document outside the released ones can be released next. */
  lemma NextOfScope(s: DomState, D: set<Node>, id: nat)
    requires Inv(s) && LiveDocs(s, D) && id in s.reg.byId && s.reg.byId[id] !in D
    ensures var d, s' := s.reg.byId[id], Release(s, D);
      && d in s'.tree && d.nodeType == DOCUMENT && id in s'.reg.byId && s'.reg.byId[id] == d
      && Live(s'.reg, d) && LiveDocs(s, D + {d})
      && Domains(s') && Release(s', {d}) == Release(s, D + {d})
  {
    hide Inv, Domains, IdsAgree, LiveDocs, Live, OwnersAreDocuments;
    var d := s.reg.byId[id];
    ScopeParts(s, D);
    NextIsLive(s, D, id);
    ReleaseDocsLive(s.reg, D, |Gone(s, D)|, d);
    ReleaseGrows(s, D, {d});
  }

  lemma NextIsLive(s: DomState, D: set<Node>, id: nat)
    requires Inv(s) && LiveDocs(s, D) && id in s.reg.byId && s.reg.byId[id] !in D
    ensures var d := s.reg.byId[id];
      d in s.tree && d.nodeType == DOCUMENT && d in s.reg.ids && Live(s.reg, d) && LiveDocs(s, D + {d})
  {
    hide Forest, OwnershipExact, OwnersAreLive, TasksAgree, PrimariesAgree;
  }

  lemma ScopeParts(s: DomState, D: set<Node>)
    requires Inv(s) && LiveDocs(s, D)
    ensures Domains(s) && OwnersAreDocuments(s.owner) && IdsAgree(s.reg) && forall e :: e in D ==> Live(s.reg, e)
  {
    hide Forest, Live, IdsAgree, OwnersAreDocuments;
  }

  lemma StaleTasks(s: DomState, task: string)
    requires Inv(s)
    ensures DocumentsOfAll(s.reg, s.reg.byTask.Keys - {task}) == DocumentsNotOf(s.reg, task)
    ensures "" !in s.reg.byTask.Keys
  {
    hide Inv, Live, RegistryExact;
    RegistryOfInv(s);
    NoUnnamedTask(s.reg);
    LiveTasksAreIndexed(s.reg);
  }

  lemma LiveTasksAreIndexed(r: Registry)
    requires RegistryExact(r)
    ensures forall d :: d in r.ids && Live(r, d) && d in r.tasks ==> r.tasks[d] in r.byTask
  {
    forall d | d in r.ids && Live(r, d) && d in r.tasks ensures r.tasks[d] in r.byTask {
      assert r.byId[r.ids[d]] == d;
    }
  }

  lemma NoUnnamedTask(r: Registry)
    requires RegistryExact(r)
    ensures "" !in r.byTask
  {
    TaskIdsNameDocuments(r, "");
    IndexedTaskHasDocuments(r, "");
  }

  lemma BeginTaskCases(s: DomState, task: string)
    requires Inv(s) && Domains(s) && task != "" && !Loaded(s, DocumentsNotOf(s.reg, task))
    ensures var s1 := Release(s, DocumentsNotOf(s.reg, task));
      && BeginTask(s, task) == s1.(reg := s1.reg.(currentTask := task))
      && Inv(s1.(reg := s1.reg.(currentTask := task)))
  {
    hide Inv, Loaded, Domains, DocumentsOf, DocumentsNotOf, RegistryExact, ReleaseDocs, Live, Release;
    ScopesAreLive(s, task);
    ReleaseScopeKeepsInv(s, DocumentsNotOf(s.reg, task), task);
  }

  lemma EndTaskCases(s: DomState, task: string)
    requires Inv(s) && Domains(s) && task != "" && !Loaded(s, DocumentsOf(s.reg, task))
    ensures var s1, current := Release(s, DocumentsOf(s.reg, task)),
        if s.reg.currentTask == task then DEFAULT_TASK else s.reg.currentTask;
      && EndTask(s, task) == s1.(reg := s1.reg.(currentTask := current))
      && Inv(s1.(reg := s1.reg.(currentTask := current)))
  {
    hide Inv, Loaded, Domains, DocumentsOf, DocumentsNotOf, RegistryExact, ReleaseDocs, Live, Release;
    ScopesAreLive(s, task);
    ReleaseScopeKeepsInv(s, DocumentsOf(s.reg, task), if s.reg.currentTask == task then DEFAULT_TASK else s.reg.currentTask);
  }

  lemma OwnersName(owner: Owners, n: Node)
    requires OwnersAreDocuments(owner) && n in owner
    ensures owner[n] != null ==> owner[n] in owner && owner[n].nodeType == DOCUMENT
  {
  }

  ghost function Delisted(t: Tree, p: Node, c: Node, i: nat): Tree {
    if p in t && c in t && i < |t[p].kids| then
      var t1 := t[p := t[p].(kids := t[p].kids[..i] + t[p].kids[i + 1..])];
      t1[c := t1[c].(parent := null)]
    else t
  }

  lemma DelistedIs(t: Tree, p: Node, c: Node, i: nat)
    requires p in t && c in t && i < |t[p].kids|
    ensures var t1 := t[p := t[p].(kids := t[p].kids[..i] + t[p].kids[i + 1..])];
      Delisted(t, p, c, i) == t1[c := t1[c].(parent := null)]
  {
  }

  lemma UnlinkCases(t: Tree, n: Node)
    requires Closed(t) && n in t
    ensures t[n].parent == null ==> Detach(t, n) == t
    ensures t[n].parent != null ==>
      var p := t[n].parent;
      var i := IndexOf(t[p].kids, n);
      && p in t && -1 <= i < |t[p].kids|
      && var t1 := if i >= 0 then t[p := t[p].(kids := t[p].kids[..i] + t[p].kids[i + 1..])] else t;
      && Detach(t, n) == t1[n := t1[n].(parent := null)]
  {
  }

  lemma DetachCases(t: Tree, owner: Owners, box: map<Node, Cache>, n: Node)
    requires Closed(t) && Acyclic(t) && owner.Keys == t.Keys && n in t
    ensures t[n].parent == null ==> Detach(t, n) == t && DetachBoxes(t, owner, box, n) == box
    ensures t[n].parent != null ==> DetachBoxes(t, owner, box, n) == box[LayoutRoot(t, owner, t[n].parent) := NoCache]
  {
  }

  lemma PlaceParts(s: DomState, parent: Node, child: Node, i: nat, s': DomState)
    requires Domains(s) && Forest(s.tree) && Fits(s.tree, parent, child) && i <= |Without(s.tree[parent].kids, child)|
    requires s'.tree == MoveTree(s.tree, parent, child, i)
    requires s'.owner == AdoptOwner(s.owner, Subtree(s.tree, child), NextOwner(s.owner, parent))
    requires s'.owned == AdoptOwned(s.owned, Subtree(s.tree, child), NextOwner(s.owner, parent))
    requires RegisterOwnerSets(s.reg, s.owned, NextOwner(s.owner, parent)) == s.owned
    requires s'.reg == RegisterOwnerIn(s.reg, NextOwner(s.owner, parent))
    requires s'.text == s.text && s'.style == s.style && s'.slot == s.slot
    requires s'.box == DetachBoxes(s.tree, s.owner, s.box, child)[LayoutRoot(s.tree, s.owner, parent) := NoCache]
    ensures s' == Place(s, parent, child, i)
  {
  }

  lemma PendingSingle(t: Tree, n: Node)
    requires n in t
    ensures Pending(t, [n]) == Subtree(t, n) && Apart(t, [n])
  {
    assert [n][0] == n;
  }

  lemma AdoptNone(owner: Owners, owned: OwnedSets, d: Node?)
    ensures AdoptOwner(owner, {}, d) == owner && AdoptOwned(owned, {}, d) == owned
  {
    assert forall n :: n in owned ==> owned[n] + {} == owned[n] && owned[n] - {} == owned[n];
  }

  lemma AdoptKeepsDocuments(owner: Owners, done: set<Node>, d: Node?)
    requires OwnersAreDocuments(owner) && (d != null ==> d in owner && d.nodeType == DOCUMENT)
    requires forall n :: n in done ==> n.nodeType != DOCUMENT
    ensures OwnersAreDocuments(AdoptOwner(owner, done, d))
  {
  }

  /** Adopting one more node extends the adopted set by that node. */
  lemma AdoptOneMore(owner: Owners, owned: OwnedSets, done: set<Node>, cur: Node, d: Node?)
    requires OwnersAreDocuments(owner) && OwnedIsSound(owner, owned) && owner.Keys == owned.Keys
    requires cur in owner && cur !in done && (d != null ==> d in owned)
    ensures AdoptOwner(owner, done, d)[cur] == owner[cur]
    ensures AdoptOwner(owner, done + {cur}, d) == AdoptOwner(owner, done, d)[cur := d]
    ensures AdoptOwned(owned, done + {cur}, d) == AdoptOneOwned(AdoptOwned(owned, done, d), cur, owner[cur], d)
  {
    AdoptOwnerOneMore(owner, done, cur, d);
    hide AdoptOwner;
    var a, b := AdoptOwned(owned, done + {cur}, d), AdoptOneOwned(AdoptOwned(owned, done, d), cur, owner[cur], d);
    assert a.Keys == owned.Keys && b.Keys == owned.Keys;
    forall n | n in owned ensures a[n] == b[n] {
      AdoptOneMoreAt(owner, owned, done, cur, d, n);
    }
    hide AdoptOwned, AdoptOneOwned;
  }

  lemma AdoptOwnerOneMore(owner: Owners, done: set<Node>, cur: Node, d: Node?)
    requires cur in owner && cur !in done
    ensures AdoptOwner(owner, done, d)[cur] == owner[cur]
    ensures AdoptOwner(owner, done + {cur}, d) == AdoptOwner(owner, done, d)[cur := d]
  {
  }

  lemma AdoptOneMoreAt(owner: Owners, owned: OwnedSets, done: set<Node>, cur: Node, d: Node?, n: Node)
    requires OwnersAreDocuments(owner) && OwnedIsSound(owner, owned) && owner.Keys == owned.Keys
    requires cur in owner && cur !in done && (d != null ==> d in owned) && n in owned
    ensures AdoptOwned(owned, done + {cur}, d)[n] == AdoptOneOwned(AdoptOwned(owned, done, d), cur, owner[cur], d)[n]
  {
    if n != d && n != owner[cur] { assert cur !in owned[n]; }
    assert n != d ==> owned[n] - (done + {cur}) == owned[n] - done - {cur};
    assert owned[n] + (done + {cur}) == owned[n] + done + {cur};
  }
}
