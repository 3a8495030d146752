/** Releasing documents and task scopes. */
module DomRelease {
  import opened DomNodes
  import opened DomForest
  import opened DomModel

  // ---------------------------------------------------------------- the effect of a release

  /** Every node owned by one of the documents in `D`. */
  ghost function Gone(s: DomState, D: set<Node>): set<Node>
    requires Domains(s)
  {
    set x | x in s.tree && s.owner[x] != null && s.owner[x] in D && s.owner[x] in s.tree && x in s.owned[s.owner[x]]
  }

  ghost function ReleaseTree(t: Tree, cleared: set<Node>): Tree {
    map n | n in t :: if n in cleared then Links(null, []) else t[n]
  }

  ghost function ReleaseOwner(owner: Owners, gone: set<Node>): Owners {
    map n | n in owner :: if n in gone then null else owner[n]
  }

  ghost function ReleaseOwned(owned: OwnedSets, D: set<Node>): OwnedSets {
    map n | n in owned :: if n in D then {} else owned[n]
  }

  function DocIds(r: Registry, D: set<Node>): set<nat> {
    set i | i in r.byId && r.byId[i] in D
  }

  function ReleaseDocs(r: Registry, D: set<Node>, nodes: nat): Registry {
    r.(byId := map i | i in r.byId && r.byId[i] !in D :: r.byId[i],
       byTask := map t | t in r.byTask && r.byTask[t] - DocIds(r, D) != {} :: r.byTask[t] - DocIds(r, D),
       primary := map t | t in r.primary && r.primary[t] !in D :: r.primary[t],
       released := r.released + D,
       releasedDocs := r.releasedDocs + |D|,
       releasedNodes := r.releasedNodes + nodes)
  }

  /** `releaseDocument` for every document in `D`.  The released documents' cached
      layouts and the nodes' layout slots are not reset by the source. */
  ghost function Release(s: DomState, D: set<Node>): DomState
    requires Domains(s)
  {
    ReleaseWith(s, Gone(s, D), D)
  }

  ghost function ReleaseWith(s: DomState, gone: set<Node>, D: set<Node>): DomState {
    s.(tree := ReleaseTree(s.tree, gone + D),
       owner := ReleaseOwner(s.owner, gone),
       owned := ReleaseOwned(s.owned, D),
       reg := ReleaseDocs(s.reg, D, |gone|),
       text := ClearText(s.text, gone),
       style := ClearStyle(s.style, gone))
  }

  ghost function ClearText(text: map<Node, string>, gone: set<Node>): map<Node, string> {
    map n | n in text :: if n in gone then "" else text[n]
  }

  ghost function ClearStyle(style: map<Node, Style>, gone: set<Node>): map<Node, Style> {
    map n | n in style :: if n in gone then map[] else style[n]
  }

  /** A fragment that belongs to a document of `D` and still holds children. */
  ghost predicate Loaded(s: DomState, D: set<Node>)
    requires Domains(s)
  {
    exists f :: f in s.tree && f.nodeType == FRAGMENT && s.owner[f] != null && s.owner[f] in D && s.tree[f].kids != []
  }

  ghost predicate LiveDocs(s: DomState, D: set<Node>) {
    forall d :: d in D ==> d in s.tree && d.nodeType == DOCUMENT && Live(s.reg, d)
  }

  // ---------------------------------------------------------------- the tree after a release

  /** Ownership makes the released nodes closed under the parent relation in both
      directions, except below a loaded fragment. */
  lemma GoneIsClosed(s: DomState, D: set<Node>, c: Node)
    requires Inv(s) && LiveDocs(s, D) && c in s.tree && s.tree[c].parent != null
    ensures var p := s.tree[c].parent;
      && (p in Gone(s, D) + D ==> c in Gone(s, D))
      && (c in Gone(s, D) && !Loaded(s, D) ==> p in Gone(s, D) + D)
  {
    var p := s.tree[c].parent;
    assert c in s.tree[p].kids;
    assert ProperChild(p.nodeType, c.nodeType);
    assert s.owner[c] == NextOwner(s.owner, p);
  }

  ghost predicate ClearsWholeTrees(t: Tree, cleared: set<Node>) {
    forall c {:trigger t[c].parent} :: c in t && t[c].parent != null ==> (c in cleared <==> t[c].parent in cleared)
  }

  lemma ReleaseTreeLinks(t: Tree, cleared: set<Node>)
    requires Closed(t) && Linked(t) && ClearsWholeTrees(t, cleared)
    ensures Closed(ReleaseTree(t, cleared)) && Linked(ReleaseTree(t, cleared))
  {
    var t' := ReleaseTree(t, cleared);
    forall c {:trigger t'[c].parent} | c in t' && t'[c].parent != null
      ensures t'[c].parent in t' && c in t'[t'[c].parent].kids
    {
      assert t[c].parent == t'[c].parent;
    }
  }

  lemma ReleaseTreeForest(t: Tree, cleared: set<Node>)
    requires Forest(t) && ClearsWholeTrees(t, cleared)
    ensures Forest(ReleaseTree(t, cleared))
  {
    var t' := ReleaseTree(t, cleared);
    ReleaseTreeLinks(t, cleared);
    forall n | n in t' ensures Grounded(t', n) { CutGrounds(t, t', n); }
  }

  lemma ReleaseClearsWholeTrees(s: DomState, D: set<Node>)
    requires Inv(s) && LiveDocs(s, D) && !Loaded(s, D)
    ensures ClearsWholeTrees(s.tree, Gone(s, D) + D)
  {
    var t := s.tree;
    forall c {:trigger t[c].parent} | c in t && t[c].parent != null
      ensures c in Gone(s, D) + D <==> t[c].parent in Gone(s, D) + D
    {
      GoneIsClosed(s, D, c);
      if c in D { DocumentsAndFragmentsAreRoots(t, c); }
    }
  }

  lemma LoadedBreaksForest(s: DomState, D: set<Node>)
    requires Inv(s) && LiveDocs(s, D) && Loaded(s, D)
    ensures !Linked(Release(s, D).tree)
  {
    var f :| f in s.tree && f.nodeType == FRAGMENT && s.owner[f] != null && s.owner[f] in D && s.tree[f].kids != [];
    var k := s.tree[f].kids[0];
    assert k in s.tree[f].kids;
    assert s.owner[k] == NextOwner(s.owner, f);
    assert k in Gone(s, D);
    var t' := Release(s, D).tree;
    assert f !in Gone(s, D) && f !in D;
    assert k in t'[f].kids && t'[k].parent == null;
  }

  /** Releasing documents leaves a forest exactly when none of their fragments still
      holds children: such a fragment would keep listing cleared nodes. */
  lemma ReleaseForestIff(s: DomState, D: set<Node>)
    requires Inv(s) && LiveDocs(s, D)
    ensures Forest(Release(s, D).tree) <==> !Loaded(s, D)
  {
    if Loaded(s, D) {
      LoadedBreaksForest(s, D);
    } else {
      ReleaseClearsWholeTrees(s, D);
      ReleaseTreeForest(s.tree, Gone(s, D) + D);
    }
  }

  // ---------------------------------------------------------------- ownership after a release

  lemma ReleaseKeepsOwnership(t: Tree, owner: Owners, owned: OwnedSets, gone: set<Node>, D: set<Node>)
    requires Closed(t) && OwnershipExact(t, owner, owned)
    requires forall x :: x in gone <==> x in t && owner[x] != null && owner[x] in D && x in owned[owner[x]]
    requires forall d :: d in D ==> d in t && d.nodeType == DOCUMENT
    requires ClearsWholeTrees(t, gone + D)
    ensures OwnershipExact(ReleaseTree(t, gone + D), ReleaseOwner(owner, gone), ReleaseOwned(owned, D))
  {
    var t', owner', owned' := ReleaseTree(t, gone + D), ReleaseOwner(owner, gone), ReleaseOwned(owned, D);
    forall d, x | d in owned' && x in owned'[d] ensures x in owner' && owner'[x] == d && x.nodeType != FRAGMENT {
      assert x in owned[d];
    }
    ReleaseFollows(t, owner, gone, D);
    ReleaseIsComplete(t, owner, owned, gone, D);
  }

  lemma ReleaseFollows(t: Tree, owner: Owners, gone: set<Node>, D: set<Node>)
    requires t.Keys == owner.Keys && Closed(t) && OwnerFollowsParent(t, owner) && ClearsWholeTrees(t, gone + D)
    requires forall d :: d in D ==> d.nodeType == DOCUMENT
    ensures OwnerFollowsParent(ReleaseTree(t, gone + D), ReleaseOwner(owner, gone))
  {
    var t', owner' := ReleaseTree(t, gone + D), ReleaseOwner(owner, gone);
    forall c {:trigger t'[c].parent} | c in owner' && t'[c].parent != null
      ensures t'[c].parent in owner' && owner'[c] == NextOwner(owner', t'[c].parent)
    {
      assert t[c].parent == t'[c].parent;
    }
  }

  lemma ReleaseIsComplete(t: Tree, owner: Owners, owned: OwnedSets, gone: set<Node>, D: set<Node>)
    requires Closed(t) && OwnershipExact(t, owner, owned)
    requires forall x :: x in gone <==> x in t && owner[x] != null && owner[x] in D && x in owned[owner[x]]
    ensures var t', owner', owned' := ReleaseTree(t, gone + D), ReleaseOwner(owner, gone), ReleaseOwned(owned, D);
      && t'.Keys == owner'.Keys == owned'.Keys
      && OwnedIsComplete(t', owner', owned')
  {
    var t', owner', owned' := ReleaseTree(t, gone + D), ReleaseOwner(owner, gone), ReleaseOwned(owned, D);
    forall x | x in owner' && owner'[x] != null && (x.nodeType == ELEMENT || t'[x].parent != null)
      ensures owner'[x] in owned' && x in owned'[owner'[x]]
    {
      assert x in owned[owner[x]];
    }
  }

  // ---------------------------------------------------------------- the registry after a release

  lemma ReleaseDocsIds(r: Registry, D: set<Node>, nodes: nat)
    requires IdsAgree(r) && forall d :: d in D ==> d in r.ids && d.nodeType == DOCUMENT && Live(r, d)
    ensures IdsAgree(ReleaseDocs(r, D, nodes))
  {
  }

  lemma ReleaseDocsTasks(r: Registry, D: set<Node>, nodes: nat)
    requires TasksAgree(r)
    ensures TasksAgree(ReleaseDocs(r, D, nodes))
  {
    var r' := ReleaseDocs(r, D, nodes);
    forall i | i in r'.byId && r'.byId[i] in r'.tasks
      ensures r'.tasks[r'.byId[i]] in r'.byTask && i in r'.byTask[r'.tasks[r'.byId[i]]]
    {
      assert r.byId[i] in r.tasks && i !in DocIds(r, D);
      assert i in r.byTask[r.tasks[r.byId[i]]] - DocIds(r, D);
    }
  }

  lemma ReleaseDocsPrimaries(r: Registry, D: set<Node>, nodes: nat)
    requires IdsAgree(r) && PrimariesAgree(r)
    ensures PrimariesAgree(ReleaseDocs(r, D, nodes))
  {
  }

  lemma DocIdsCount(r: Registry, D: set<Node>)
    requires IdsAgree(r) && forall d :: d in D ==> d in r.ids && Live(r, d)
    ensures |DocIds(r, D)| == |D|
  {
    if D == {} {
      assert DocIds(r, D) == {};
    } else {
      var d :| d in D;
      DocIdsCount(r, D - {d});
      assert DocIds(r, D) == DocIds(r, D - {d}) + {r.ids[d]};
    }
  }

  lemma ReleaseDocsCount(r: Registry, D: set<Node>, nodes: nat)
    requires IdsAgree(r) && forall d :: d in D ==> d in r.ids && Live(r, d)
    ensures |r.byId| == |ReleaseDocs(r, D, nodes).byId| + |D|
  {
    DocIdsCount(r, D);
    var byId' := ReleaseDocs(r, D, nodes).byId;
    assert r.byId.Keys == byId'.Keys + DocIds(r, D);
    assert |r.byId| == |r.byId.Keys| && |byId'| == |byId'.Keys|;
  }

  lemma ReleaseDocsKeeps(r: Registry, D: set<Node>, nodes: nat)
    requires RegistryExact(r) && forall d :: d in D ==> d in r.ids && d.nodeType == DOCUMENT && Live(r, d)
    ensures RegistryExact(ReleaseDocs(r, D, nodes))
  {
    ReleaseDocsIds(r, D, nodes);
    ReleaseDocsTasks(r, D, nodes);
    ReleaseDocsPrimaries(r, D, nodes);
    ReleaseDocsCount(r, D, nodes);
  }

  /** A live document stays live unless it is released itself. */
  lemma ReleaseDocsLive(r: Registry, D: set<Node>, nodes: nat, d: Node)
    requires IdsAgree(r) && d in r.ids && forall e :: e in D ==> Live(r, e)
    ensures Live(ReleaseDocs(r, D, nodes), d) <==> Live(r, d) && d !in D
  {
  }

  lemma ReleaseOwnersLive(owned: OwnedSets, r: Registry, D: set<Node>, nodes: nat)
    requires OwnersAreLive(owned, r) && IdsAgree(r) && owned.Keys == r.ids.Keys && forall e :: e in D ==> Live(r, e)
    ensures OwnersAreLive(ReleaseOwned(owned, D), ReleaseDocs(r, D, nodes))
  {
    var owned' := ReleaseOwned(owned, D);
    forall d | d in owned' && owned'[d] != {} ensures Live(ReleaseDocs(r, D, nodes), d) {
      assert owned[d] != {};
      ReleaseDocsLive(r, D, nodes, d);
    }
  }

  /** Without loaded fragments a release keeps every invariant. */
  lemma ReleaseKeepsInv(s: DomState, D: set<Node>)
    requires Inv(s) && LiveDocs(s, D) && !Loaded(s, D)
    ensures Inv(Release(s, D))
  {
    ReleaseForestIff(s, D);
    ReleaseClearsWholeTrees(s, D);
    ReleaseKeepsOwnership(s.tree, s.owner, s.owned, Gone(s, D), D);
    ReleaseDocsKeeps(s.reg, D, |Gone(s, D)|);
    ReleaseOwnersLive(s.owned, s.reg, D, |Gone(s, D)|);
    ReleaseDomains(s, D);
    InvFromParts(Release(s, D));
  }

  lemma ReleaseDomains(s: DomState, D: set<Node>)
    requires Domains(s)
    ensures Domains(Release(s, D))
  {
  }

  /** A release takes exactly the documents' own nodes: every other document keeps
      its owned set, and no node of its tree changes. */
  lemma ReleaseLeavesOthers(s: DomState, D: set<Node>, e: Node, x: Node)
    requires Inv(s) && LiveDocs(s, D) && e in s.tree && e.nodeType == DOCUMENT && e !in D
    requires x in s.tree && Ancestor(s.tree, e, x)
    ensures var s' := Release(s, D);
      && s'.owned[e] == s.owned[e]
      && s'.tree[x] == s.tree[x] && s'.owner[x] == s.owner[x] && s'.text[x] == s.text[x] && s'.style[x] == s.style[x]
  {
    if x != e { OwnerOfConnected(s, e, x); }
    NotGone(s, D, e, x);
    UntouchedByRelease(s, D, x);
    UntouchedByRelease(s, D, e);
  }

  lemma NotGone(s: DomState, D: set<Node>, e: Node, x: Node)
    requires Domains(s) && OwnersAreDocuments(s.owner) && e in s.tree && x in s.tree
    requires e.nodeType == DOCUMENT && e !in D && (forall d :: d in D ==> d.nodeType == DOCUMENT)
    requires x == e || (s.owner[x] == e && x.nodeType != DOCUMENT)
    ensures x !in Gone(s, D) + D && e !in Gone(s, D) + D
  {
  }

  lemma UntouchedByRelease(s: DomState, D: set<Node>, x: Node)
    requires Domains(s) && x in s.tree && x !in Gone(s, D) + D
    ensures var s' := Release(s, D);
      && Domains(s') && s'.owned[x] == s.owned[x]
      && s'.tree[x] == s.tree[x] && s'.owner[x] == s.owner[x] && s'.text[x] == s.text[x] && s'.style[x] == s.style[x]
  {
  }

  /** Every proper descendant of a document belongs to it. */
  lemma OwnerOfConnected(s: DomState, e: Node, x: Node)
    requires Inv(s) && e in s.tree && e.nodeType == DOCUMENT && x in s.tree && x != e && Ancestor(s.tree, e, x)
    ensures s.owner[x] == e && x in s.owned[e] && s.tree[x].parent != null && x.nodeType != DOCUMENT
    decreases Depth(s.tree, x)
  {
    var q := s.tree[x].parent;
    AncestorStep(s.tree, e, x);
    if q == null { AncestorOfNull(s.tree, e); }
    DepthParent(s.tree, x);
    if q != e { OwnerOfConnected(s, e, q); }
    assert s.owner[x] == NextOwner(s.owner, q);
    if x.nodeType == DOCUMENT { DocumentsAndFragmentsAreRoots(s.tree, x); }
  }

  // ---------------------------------------------------------------- releasing in steps

  lemma GoneGrows(s: DomState, D: set<Node>, E: set<Node>)
    requires Domains(s) && D !! E && OwnersAreDocuments(s.owner)
    ensures var s' := Release(s, D);
      && Domains(s')
      && Gone(s, D + E) == Gone(s, D) + Gone(s', E)
      && Gone(s, D) !! Gone(s', E)
  {
    ReleaseDomains(s, D);
    hide ReleaseDocs, ReleaseTree, ClearText, ClearStyle, OwnersAreDocuments;
    forall x ensures x in Gone(Release(s, D), E) <==> x in Gone(s, E) {
      StillOwned(s, D, E, x);
    }
    hide Release;
  }

  lemma StillOwned(s: DomState, D: set<Node>, E: set<Node>, x: Node)
    requires Domains(s) && Domains(Release(s, D)) && D !! E
    ensures x in Gone(Release(s, D), E) <==> x in Gone(s, E)
  {
    hide ReleaseDocs, ReleaseTree, ClearText, ClearStyle;
  }

  lemma ReleaseDocsGrow(r: Registry, D: set<Node>, E: set<Node>, m: nat, n: nat)
    requires D !! E
    ensures ReleaseDocs(ReleaseDocs(r, D, m), E, n) == ReleaseDocs(r, D + E, m + n)
  {
    ReleaseTasksGrow(r, D, E, m, n);
    var a, b := ReleaseDocs(ReleaseDocs(r, D, m), E, n), ReleaseDocs(r, D + E, m + n);
    hide DocIds;
    assert a.byId == b.byId && a.primary == b.primary && a.released == b.released;
    assert |D + E| == |D| + |E|;
  }

  lemma ReleaseTasksGrow(r: Registry, D: set<Node>, E: set<Node>, m: nat, n: nat)
    requires D !! E
    ensures ReleaseDocs(ReleaseDocs(r, D, m), E, n).byTask == ReleaseDocs(r, D + E, m + n).byTask
  {
    var r1 := ReleaseDocs(r, D, m);
    DocIdsGrow(r, r1, D, E);
    hide DocIds;
    var A, B := DocIds(r, D), DocIds(r1, E);
    forall t | t in r.byTask ensures r.byTask[t] - A - B == r.byTask[t] - (A + B) {
    }
  }

  lemma DocIdsGrow(r: Registry, r1: Registry, D: set<Node>, E: set<Node>)
    requires r1.byId == map i | i in r.byId && r.byId[i] !in D :: r.byId[i]
    ensures DocIds(r, D + E) == DocIds(r, D) + DocIds(r1, E)
  {
  }

  /** Releasing documents in several steps, in any order, is releasing their union. */
  lemma ReleaseGrows(s: DomState, D: set<Node>, E: set<Node>)
    requires Domains(s) && D !! E && OwnersAreDocuments(s.owner)
    ensures Domains(Release(s, D))
    ensures Release(Release(s, D), E) == Release(s, D + E)
  {
    ReleaseDomains(s, D);
    GoneGrows(s, D, E);
    ReleaseWithGrows(s, Gone(s, D), Gone(Release(s, D), E), D, E);
  }

  lemma ReleaseWithGrows(s: DomState, G: set<Node>, g: set<Node>, D: set<Node>, E: set<Node>)
    requires G !! g && D !! E
    ensures ReleaseWith(ReleaseWith(s, G, D), g, E) == ReleaseWith(s, G + g, D + E)
  {
    var a, b := ReleaseWith(ReleaseWith(s, G, D), g, E), ReleaseWith(s, G + g, D + E);
    assert |G + g| == |G| + |g|;
    ReleaseDocsGrow(s.reg, D, E, |G|, |g|);
    ReleaseTreeGrows(s.tree, G, g, D, E);
    ReleaseMapsGrow(s.owner, s.text, s.style, G, g);
    ReleaseOwnedGrows(s.owned, D, E);
    assert a.tree == b.tree && a.reg == b.reg;
    assert a.owner == b.owner && a.owned == b.owned && a.text == b.text && a.style == b.style;
  }

  lemma ReleaseMapsGrow(owner: Owners, text: map<Node, string>, style: map<Node, Style>, G: set<Node>, g: set<Node>)
    ensures ReleaseOwner(ReleaseOwner(owner, G), g) == ReleaseOwner(owner, G + g)
    ensures ClearText(ClearText(text, G), g) == ClearText(text, G + g)
    ensures ClearStyle(ClearStyle(style, G), g) == ClearStyle(style, G + g)
  {
  }

  lemma ReleaseOwnedGrows(owned: OwnedSets, D: set<Node>, E: set<Node>)
    ensures ReleaseOwned(ReleaseOwned(owned, D), E) == ReleaseOwned(owned, D + E)
  {
  }

  lemma ReleaseTreeGrows(t: Tree, G: set<Node>, g: set<Node>, D: set<Node>, E: set<Node>)
    ensures ReleaseTree(ReleaseTree(t, G + D), g + E) == ReleaseTree(t, (G + g) + (D + E))
  {
  }

  lemma ReleaseNothing(s: DomState)
    requires Domains(s) && TasksAgree(s.reg)
    ensures Release(s, {}) == s
  {
    assert Gone(s, {}) == {};
    ReleaseNoMaps(s.tree, s.owner, s.owned, s.text, s.style);
    ReleaseNoDocs(s.reg);
  }

  lemma ReleaseNoMaps(t: Tree, owner: Owners, owned: OwnedSets, text: map<Node, string>, style: map<Node, Style>)
    ensures ReleaseTree(t, {} + {}) == t && ReleaseOwner(owner, {}) == owner && ReleaseOwned(owned, {}) == owned
    ensures ClearText(text, {}) == text && ClearStyle(style, {}) == style
  {
  }

  lemma ReleaseNoDocs(r: Registry)
    requires TasksAgree(r)
    ensures ReleaseDocs(r, {}, 0) == r
  {
    var r' := ReleaseDocs(r, {}, 0);
    assert DocIds(r, {}) == {};
    assert forall t :: t in r.byTask ==> r.byTask[t] - {} == r.byTask[t];
    assert r'.byId == r.byId && r'.byTask == r.byTask && r'.primary == r.primary;
  }

  /** The registry updates of `releaseDocument`, entry by entry. */
  function DeregisterFrom(r: Registry, d: Node, id: nat, task: string): Registry {
    r.(byId := r.byId - {id},
       byTask :=
         if task == "" || task !in r.byTask then r.byTask
         else if r.byTask[task] - {id} == {} then r.byTask - {task}
         else r.byTask[task := r.byTask[task] - {id}],
       primary := if task != "" && task in r.primary && r.primary[task] == d then r.primary - {task} else r.primary)
  }

  /** For a live document they amount to removing it from every index. */
  lemma ReleaseOneDoc(r: Registry, d: Node, nodes: nat)
    requires RegistryExact(r) && d in r.ids && d in r.tasks && Live(r, d)
    ensures ReleaseDocs(r, {d}, nodes) == DeregisterFrom(r, d, r.ids[d], r.tasks[d]).(
        released := r.released + {d},
        releasedDocs := r.releasedDocs + 1,
        releasedNodes := r.releasedNodes + nodes)
  {
    hide IdsAgree, TasksAgree, PrimariesAgree, Live, DocIds, ReleaseDocs;
    ReleaseOneId(r, d);
    ReleaseOneByTask(r, d, nodes);
    ReleaseOnePrimary(r, d, r.tasks[d]);
    ReleaseDocsFields(r, {d}, nodes);
  }

  lemma ReleaseDocsFields(r: Registry, D: set<Node>, nodes: nat)
    ensures ReleaseDocs(r, D, nodes) == r.(byId := map i | i in r.byId && r.byId[i] !in D :: r.byId[i],
      byTask := ReleaseDocs(r, D, nodes).byTask,
      primary := map t | t in r.primary && r.primary[t] !in D :: r.primary[t],
      released := r.released + D, releasedDocs := r.releasedDocs + |D|, releasedNodes := r.releasedNodes + nodes)
  {
  }

  lemma ReleaseOneByTask(r: Registry, d: Node, nodes: nat)
    requires IdsAgree(r) && TasksAgree(r) && d in r.ids && d in r.tasks && Live(r, d)
    ensures ReleaseDocs(r, {d}, nodes).byTask == DeregisterFrom(r, d, r.ids[d], r.tasks[d]).byTask
  {
    hide IdsAgree, TasksAgree, Live, DocIds;
    ReleaseOneId(r, d);
    ReleaseOneTask(r, d, r.ids[d], r.tasks[d]);
  }

  lemma ReleaseOneId(r: Registry, d: Node)
    requires IdsAgree(r) && d in r.ids && d in r.tasks && Live(r, d)
    ensures r.ids[d] in r.byId && r.byId[r.ids[d]] == d && r.tasks[d] != "" && DocIds(r, {d}) == {r.ids[d]}
    ensures (map i | i in r.byId && r.byId[i] !in {d} :: r.byId[i]) == r.byId - {r.ids[d]}
  {
  }

  lemma ReleaseOnePrimary(r: Registry, d: Node, task: string)
    requires PrimariesAgree(r) && d in r.tasks && r.tasks[d] == task
    ensures (map t | t in r.primary && r.primary[t] !in {d} :: r.primary[t])
      == if task in r.primary && r.primary[task] == d then r.primary - {task} else r.primary
  {
  }

  lemma ReleaseOneTask(r: Registry, d: Node, id: nat, task: string)
    requires TasksAgree(r) && id in r.byId && r.byId[id] == d && d in r.tasks && r.tasks[d] == task
    ensures task in r.byTask
    ensures (map t | t in r.byTask && r.byTask[t] - {id} != {} :: r.byTask[t] - {id})
      == if r.byTask[task] - {id} == {} then r.byTask - {task} else r.byTask[task := r.byTask[task] - {id}]
  {
    forall t | t in r.byTask && t != task ensures r.byTask[t] - {id} == r.byTask[t] && r.byTask[t] != {} {
      assert id !in r.byTask[t];
    }
  }

  lemma GoneIsOwned(s: DomState, d: Node)
    requires Domains(s) && OwnedIsSound(s.owner, s.owned) && d in s.tree
    ensures Gone(s, {d}) == s.owned[d]
  {
  }

  // ---------------------------------------------------------------- task scopes

  ghost function DocumentsOf(r: Registry, task: string): set<Node> {
    set d | d in r.ids && Live(r, d) && d in r.tasks && r.tasks[d] == task
  }

  ghost function DocumentsOfAll(r: Registry, tasks: set<string>): set<Node> {
    set d | d in r.ids && Live(r, d) && d in r.tasks && r.tasks[d] in tasks
  }

  ghost function DocumentsNotOf(r: Registry, task: string): set<Node> {
    set d | d in r.ids && Live(r, d) && d in r.tasks && r.tasks[d] != task
  }

  /** The task that `beginTaskScope` switches to. */
  function BegunTask(task: string): string {
    if task == "" then DEFAULT_TASK else task
  }

  lemma ScopeNames(s: DomState, task: string)
    requires Domains(s)
    ensures BegunTask(task) != "" && NormalizeTaskId(s.reg.currentTask, task) != ""
    ensures BeginTask(s, task) == BeginTask(s, BegunTask(task))
    ensures EndTask(s, task) == EndTask(s, NormalizeTaskId(s.reg.currentTask, task))
  {
  }

  /** `beginTaskScope`: documents of every other task are released. */
  ghost function BeginTask(s: DomState, task: string): DomState
    requires Domains(s)
  {
    var t := NormalizeTaskId(s.reg.currentTask, BegunTask(task));
    var s1 := Release(s, DocumentsNotOf(s.reg, t));
    s1.(reg := s1.reg.(currentTask := t))
  }

  /** `endTaskScope` */
  ghost function EndTask(s: DomState, task: string): DomState
    requires Domains(s)
  {
    var t := NormalizeTaskId(s.reg.currentTask, task);
    var s1 := Release(s, DocumentsOf(s.reg, t));
    s1.(reg := s1.reg.(currentTask := if s.reg.currentTask == t then DEFAULT_TASK else s.reg.currentTask))
  }

  lemma SwitchTaskKeepsInv(s: DomState, task: string)
    requires Inv(s)
    ensures Inv(s.(reg := s.reg.(currentTask := task)))
  {
    SwitchTaskKeepsRegistry(s.reg, task);
    SwitchTaskKeepsLive(s.owned, s.reg, task);
    RegistryKeepsInv(s, s.reg.(currentTask := task));
  }

  lemma SwitchTaskKeepsRegistry(r: Registry, task: string)
    requires RegistryExact(r)
    ensures RegistryExact(r.(currentTask := task))
  {
  }

  lemma SwitchTaskKeepsLive(owned: OwnedSets, r: Registry, task: string)
    requires OwnersAreLive(owned, r)
    ensures OwnersAreLive(owned, r.(currentTask := task))
  {
  }

  /** `drainReleaseStats` hands the two counts out and starts them again. */
  function Drained(r: Registry): Registry {
    r.(drainedDocs := r.drainedDocs + r.releasedDocs, releasedDocs := 0, releasedNodes := 0)
  }

  lemma DrainKeepsInv(s: DomState)
    requires Inv(s)
    ensures Inv(s.(reg := Drained(s.reg)))
  {
    DrainKeepsRegistry(s.reg, s.owned);
    RegistryKeepsInv(s, Drained(s.reg));
  }

  lemma DrainKeepsRegistry(r: Registry, owned: OwnedSets)
    requires RegistryExact(r) && OwnersAreLive(owned, r)
    ensures RegistryExact(Drained(r)) && OwnersAreLive(owned, Drained(r))
  {
    DrainKeepsIds(r);
    DrainKeepsTasks(r);
    DrainKeepsLive(r, owned);
    hide IdsAgree, TasksAgree, PrimariesAgree, OwnersAreLive;
  }

  lemma DrainKeepsIds(r: Registry)
    requires IdsAgree(r)
    ensures IdsAgree(Drained(r))
  {
  }

  lemma DrainKeepsTasks(r: Registry)
    requires TasksAgree(r)
    ensures TasksAgree(Drained(r))
  {
  }

  lemma DrainKeepsLive(r: Registry, owned: OwnedSets)
    requires PrimariesAgree(r) && OwnersAreLive(owned, r)
    ensures PrimariesAgree(Drained(r)) && OwnersAreLive(owned, Drained(r))
  {
  }

  /** What stays live after a release, seen from the documents of one task. */
  lemma ReleaseKeepsDocuments(r: Registry, D: set<Node>, nodes: nat, task: string)
    requires RegistryExact(r) && forall e :: e in D ==> Live(r, e)
    ensures DocumentsOf(ReleaseDocs(r, D, nodes), task) == DocumentsOf(r, task) - D
  {
    var r' := ReleaseDocs(r, D, nodes);
    forall d | d in r.ids ensures d in DocumentsOf(r', task) <==> d in DocumentsOf(r, task) - D {
      ReleaseDocsLive(r, D, nodes, d);
    }
  }

  lemma ReleaseScopeKeepsInv(s: DomState, D: set<Node>, task: string)
    requires Inv(s) && LiveDocs(s, D) && !Loaded(s, D)
    ensures var s1 := Release(s, D); Inv(s1.(reg := s1.reg.(currentTask := task)))
  {
    ReleaseKeepsInv(s, D);
    SwitchTaskKeepsInv(Release(s, D), task);
  }

  lemma SwitchTaskKeepsDocuments(r: Registry, current: string, task: string)
    ensures DocumentsOf(r.(currentTask := current), task) == DocumentsOf(r, task)
  {
  }

  lemma ScopesPartition(r: Registry, task: string, u: string)
    requires u != task
    ensures DocumentsOf(r, u) - DocumentsNotOf(r, task) == {}
    ensures DocumentsOf(r, task) - DocumentsNotOf(r, task) == DocumentsOf(r, task)
    ensures DocumentsOf(r, u) - DocumentsOf(r, task) == DocumentsOf(r, u)
    ensures DocumentsOf(r, task) - DocumentsOf(r, task) == {}
  {
  }

  lemma ScopesAreLive(s: DomState, task: string)
    requires Inv(s)
    ensures LiveDocs(s, DocumentsOf(s.reg, task)) && LiveDocs(s, DocumentsNotOf(s.reg, task))
    ensures forall d :: d in DocumentsOf(s.reg, task) || d in DocumentsNotOf(s.reg, task) ==> Live(s.reg, d)
    ensures RegistryExact(s.reg) && Domains(s)
  {
  }

  /** Once a scope has begun, every live document belongs to its task: `u` stands
      for any other task, whose documents are all gone. */
  lemma BeginTaskIsolates(s: DomState, named: string, u: string)
    requires Inv(s) && u != BegunTask(named)
    requires !Loaded(s, DocumentsNotOf(s.reg, BegunTask(named)))
    ensures var s', task := BeginTask(s, named), BegunTask(named);
      && Inv(s') && s'.reg.currentTask == task
      && DocumentsOf(s'.reg, u) == {}
      && DocumentsOf(s'.reg, task) == DocumentsOf(s.reg, task)
  {
    hide Inv, Loaded, LiveDocs, ReleaseDocs, DocumentsOf, DocumentsNotOf, ReleaseTree, Gone;
    var task := BegunTask(named);
    ScopesAreLive(s, task);
    ScopeNames(s, named);
    hide BegunTask;
    var D := DocumentsNotOf(s.reg, task);
    ReleaseScopeKeepsInv(s, D, task);
    ReleaseKeepsDocuments(s.reg, D, |Gone(s, D)|, u);
    ReleaseKeepsDocuments(s.reg, D, |Gone(s, D)|, task);
    SwitchTaskKeepsDocuments(Release(s, D).reg, task, u);
    SwitchTaskKeepsDocuments(Release(s, D).reg, task, task);
    ScopesPartition(s.reg, task, u);
  }

  /** Once a scope has ended, no live document belongs to its task, and the documents
      of any other task `u` are all still there. */
  lemma EndTaskEmpties(s: DomState, named: string, u: string)
    requires Inv(s) && u != NormalizeTaskId(s.reg.currentTask, named)
    requires !Loaded(s, DocumentsOf(s.reg, NormalizeTaskId(s.reg.currentTask, named)))
    ensures var s', task := EndTask(s, named), NormalizeTaskId(s.reg.currentTask, named);
      && Inv(s') && (s'.reg.currentTask != task || task == DEFAULT_TASK)
      && DocumentsOf(s'.reg, task) == {}
      && DocumentsOf(s'.reg, u) == DocumentsOf(s.reg, u)
  {
    hide Inv, Loaded, LiveDocs, ReleaseDocs, DocumentsOf, DocumentsNotOf, ReleaseTree, Gone;
    var task := NormalizeTaskId(s.reg.currentTask, named);
    ScopesAreLive(s, task);
    ScopeNames(s, named);
    var D, current := DocumentsOf(s.reg, task), EndTask(s, task).reg.currentTask;
    ReleaseScopeKeepsInv(s, D, current);
    ReleaseKeepsDocuments(s.reg, D, |Gone(s, D)|, u);
    ReleaseKeepsDocuments(s.reg, D, |Gone(s, D)|, task);
    SwitchTaskKeepsDocuments(Release(s, D).reg, current, u);
    SwitchTaskKeepsDocuments(Release(s, D).reg, current, task);
    ScopesPartition(s.reg, task, u);
  }

  // ---------------------------------------------------------------- a scope's documents, step by step

  /** The id set of a task names exactly its live documents. */
  lemma TaskIdsNameDocuments(r: Registry, task: string)
    requires IdsAgree(r) && TasksAgree(r)
    ensures forall i :: i in TaskDocs(r, task) ==> i in r.byId && r.byId[i] in DocumentsOf(r, task)
    ensures forall d :: d in DocumentsOf(r, task) ==> r.ids[d] in TaskDocs(r, task) && r.byId[r.ids[d]] == d
  {
  }

  /** A task that is in an index has live documents. */
  lemma IndexedTaskHasDocuments(r: Registry, task: string)
    requires RegistryExact(r)
    ensures task in r.byTask || task in r.primary ==> DocumentsOf(r, task) != {}
  {
    TaskIdsNameDocuments(r, task);
    if task in r.byTask {
      var i :| i in r.byTask[task];
      assert r.byId[i] in DocumentsOf(r, task);
    }
    if task in r.primary {
      assert r.primary[task] in DocumentsOf(r, task);
    }
  }

  lemma LoadedGrows(s: DomState, D: set<Node>, E: set<Node>)
    requires Domains(s) && D <= E && !Loaded(s, E)
    ensures !Loaded(s, D)
  {
  }

  /** A release never loads a fragment of another document. */
  lemma ReleaseLoadsNothing(s: DomState, D: set<Node>, E: set<Node>)
    requires Domains(s) && !Loaded(s, E) && Domains(Release(s, D))
    ensures !Loaded(Release(s, D), E)
  {
    var s' := Release(s, D);
    forall f | f in s'.tree && f.nodeType == FRAGMENT && s'.owner[f] != null && s'.owner[f] in E
      ensures s'.tree[f].kids == []
    {
      assert s.owner[f] == s'.owner[f];
    }
  }
}
