/** The whole DOM state as a value, the effect of every operation on it, and the
    invariants of the ownership index and of the document/task registry.

    `DomShared` (DomShared.dfy) runs the same operations on the mutable node
    records and is proved to have exactly these effects.
 */
module DomModel {
  import opened DomNodes
  import opened DomForest
  import opened StyleNames
  import opened Text

  datatype Outcome = Done | TypeError | HierarchyRequestError | NotFoundError

  /** Document and task registries.  `ids`, `tasks` and `released` hold the fields
      of the same meaning kept on each document's own record. */
  datatype Registry = Registry(
    docSeq: nat, currentTask: string,
    byId: map<nat, Node>, byTask: map<string, set<nat>>, primary: map<string, Node>,
    ids: map<Node, nat>, tasks: map<Node, string>, released: set<Node>,
    releasedDocs: nat, releasedNodes: nat, drainedDocs: nat)

  datatype DomState = DomState(
    tree: Tree,
    owner: map<Node, Node?>,
    owned: map<Node, set<Node>>,
    reg: Registry,
    text: map<Node, string>,
    style: map<Node, Style>,
    box: map<Node, Cache>,
    slot: map<Node, seq<nat>>)

  // ---------------------------------------------------------------- registry operations

  const DEFAULT_TASK := "task-default"

  /** An absent task id is the empty string. */
  function NormalizeTaskId(currentTask: string, task: string): string {
    if task != "" then task else if currentTask != "" then currentTask else DEFAULT_TASK
  }

  predicate Live(r: Registry, d: Node) {
    d in r.ids && r.ids[d] != 0 && r.ids[d] in r.byId && d !in r.released
  }

  function TaskDocs(r: Registry, task: string): set<nat> {
    if task in r.byTask then r.byTask[task] else {}
  }

  function RegisterDoc(r: Registry, d: Node, task: string): Registry {
    var id := r.docSeq + 1;
    var t := NormalizeTaskId(r.currentTask, task);
    r.(docSeq := id,
       byId := r.byId[id := d],
       byTask := r.byTask[t := TaskDocs(r, t) + {id}],
       primary := r.primary[t := d],
       ids := r.ids[d := id],
       tasks := r.tasks[d := t],
       released := r.released - {d})
  }

  /** `ensureDocumentRegistration` */
  ghost function EnsureRegistered(s: DomState, d: Node, task: string): DomState {
    if Live(s.reg, d) then s
    else s.(reg := RegisterDoc(s.reg, d, task), owned := s.owned[d := {}])
  }

  // ---------------------------------------------------------------- invariants

  ghost predicate Domains(s: DomState) {
    && s.owner.Keys == s.tree.Keys && s.owned.Keys == s.tree.Keys
    && s.text.Keys == s.tree.Keys && s.style.Keys == s.tree.Keys && s.box.Keys == s.tree.Keys && s.slot.Keys == s.tree.Keys
    && s.reg.ids.Keys == s.tree.Keys && s.reg.tasks.Keys == s.tree.Keys
  }

  type Owners = map<Node, Node?>
  type OwnedSets = map<Node, set<Node>>

  /** The document a child of `p` belongs to. */
  ghost function NextOwner(owner: Owners, p: Node): Node?
    requires p in owner
  {
    if p.nodeType == DOCUMENT then p else owner[p]
  }

  ghost predicate OwnersAreDocuments(owner: Owners) {
    forall n :: n in owner ==>
      && (owner[n] != null ==> owner[n] in owner && owner[n].nodeType == DOCUMENT)
      && (n.nodeType == DOCUMENT ==> owner[n] == null)
  }

  /** Sound direction of the index: whatever a document owns names it as owner. */
  ghost predicate OwnedIsSound(owner: Owners, owned: OwnedSets) {
    forall d, x :: d in owned && x in owned[d] ==> x in owner && owner[x] == d && x.nodeType != FRAGMENT
  }

  /** Complete direction: elements, and all attached nodes, are indexed. */
  ghost predicate OwnedIsComplete(t: Tree, owner: Owners, owned: OwnedSets)
    requires t.Keys == owner.Keys == owned.Keys
  {
    forall x :: x in owner && owner[x] != null && (x.nodeType == ELEMENT || t[x].parent != null) ==>
      owner[x] in owned && x in owned[owner[x]]
  }

  ghost predicate OwnerFollowsParent(t: Tree, owner: Owners)
    requires t.Keys == owner.Keys
  {
    forall c {:trigger t[c].parent} :: c in owner && t[c].parent != null ==>
      t[c].parent in owner && owner[c] == NextOwner(owner, t[c].parent)
  }

  ghost predicate OwnershipExact(t: Tree, owner: Owners, owned: OwnedSets) {
    && t.Keys == owner.Keys == owned.Keys
    && OwnersAreDocuments(owner) && OwnedIsSound(owner, owned)
    && OwnedIsComplete(t, owner, owned) && OwnerFollowsParent(t, owner)
  }

  /** Only live documents own anything. */
  ghost predicate OwnersAreLive(owned: OwnedSets, r: Registry) {
    forall d :: d in owned && owned[d] != {} ==> Live(r, d)
  }

  ghost predicate IdsAgree(r: Registry) {
    && (forall i :: i in r.byId ==>
         var d := r.byId[i];
         i != 0 && d in r.ids && r.ids[d] == i && d !in r.released && d.nodeType == DOCUMENT && d in r.tasks && r.tasks[d] != "")
    && (forall d :: d in r.ids && r.ids[d] != 0 && d !in r.released ==> r.ids[d] in r.byId && r.byId[r.ids[d]] == d)
    && (forall d :: d in r.ids ==> r.ids[d] <= r.docSeq)
    && (forall d, e :: d in r.ids && e in r.ids && r.ids[d] == r.ids[e] != 0 ==> d == e)
    && (forall d :: d in r.released ==> d.nodeType == DOCUMENT)
  }

  /** `taskToDocs` is the exact inverse index of the live documents, without empty entries. */
  ghost predicate TasksAgree(r: Registry) {
    && (forall t :: t in r.byTask ==> r.byTask[t] != {})
    && (forall t, i :: t in r.byTask && i in r.byTask[t] ==>
         i in r.byId && r.byId[i] in r.tasks && r.tasks[r.byId[i]] == t)
    && (forall i :: i in r.byId && r.byId[i] in r.tasks ==>
         r.tasks[r.byId[i]] in r.byTask && i in r.byTask[r.tasks[r.byId[i]]])
  }

  ghost predicate PrimariesAgree(r: Registry) {
    forall t :: t in r.primary ==>
      var d := r.primary[t];
      Live(r, d) && d in r.tasks && r.tasks[d] == t
  }

  ghost predicate RegistryExact(r: Registry) {
    && IdsAgree(r) && TasksAgree(r) && PrimariesAgree(r)
    && r.docSeq == |r.byId| + r.releasedDocs + r.drainedDocs
  }

  ghost predicate Inv(s: DomState) {
    && Domains(s) && Forest(s.tree)
    && OwnershipExact(s.tree, s.owner, s.owned) && OwnersAreLive(s.owned, s.reg)
    && RegistryExact(s.reg)
  }

  /** The state before anything was created. */
  lemma EmptyInv(s: DomState)
    requires s.tree == map[] && s.owner == map[] && s.owned == map[] && s.text == map[] && s.style == map[] && s.box == map[]
    requires s.slot == map[] && s.reg.ids == map[] && s.reg.tasks == map[] && s.reg.released == {}
    requires s.reg.byId == map[] && s.reg.byTask == map[] && s.reg.primary == map[]
    requires s.reg.docSeq == s.reg.releasedDocs == s.reg.drainedDocs == 0
    ensures Inv(s)
  {
  }

  // ---------------------------------------------------------------- layout invalidation

  /** The root of a node's parent chain. */
  ghost function Top(t: Tree, n: Node): Node
    requires Grounded(t, n)
    decreases Depth(t, n)
  {
    DepthParent(t, n);
    if Parent(t, n) == null then n else Top(t, Parent(t, n))
  }

  ghost function LayoutRoot(t: Tree, owner: Owners, n: Node): Node
    requires Grounded(t, n) && n in owner
  {
    if n.nodeType == DOCUMENT then n
    else if owner[n] != null then owner[n]
    else Top(t, n)
  }

  lemma {:induction false} TopInTree(t: Tree, n: Node)
    requires Closed(t) && Grounded(t, n) && n in t
    ensures Top(t, n) in t && t[Top(t, n)].parent == null && Ancestor(t, Top(t, n), n)
    decreases Depth(t, n)
  {
    DepthParent(t, n);
    AncestorStep(t, Top(t, n), n);
    if t[n].parent != null { TopInTree(t, t[n].parent); }
  }

  /** `markNodeDirty`: the layout kept at the layout root of `n` is dropped. */
  ghost function MarkDirty(s: DomState, n: Node): DomState
    requires Grounded(s.tree, n) && n in s.owner
  {
    s.(box := s.box[LayoutRoot(s.tree, s.owner, n) := NoCache])
  }

  // ---------------------------------------------------------------- placing a node

  /** `adoptOwnerDocument` on the owner fields and on the owned sets. */
  ghost function AdoptOwner(owner: Owners, moved: set<Node>, d: Node?): Owners {
    map n | n in owner :: if n in moved then d else owner[n]
  }

  ghost function AdoptOwned(owned: OwnedSets, moved: set<Node>, d: Node?): OwnedSets {
    map n | n in owned :: if n == d then owned[n] + moved else owned[n] - moved
  }

  /** The conditions under which `c` may become a child of `p`. */
  ghost predicate Fits(t: Tree, p: Node, c: Node) {
    && p in t && c in t && !Ancestor(t, c, p)
    && ProperChild(p.nodeType, c.nodeType)
    && (p.nodeType == DOCUMENT && IsHtml(c) ==> forall k :: k in t[p].kids && k != c ==> !IsHtml(k))
  }

  /** Registration of the document that a child of `p` will belong to. */
  ghost function RegisterOwnerIn(r: Registry, d: Node?): Registry {
    if d == null || Live(r, d) then r else RegisterDoc(r, d, "")
  }

  ghost function RegisterOwnerSets(r: Registry, owned: OwnedSets, d: Node?): OwnedSets {
    if d == null || Live(r, d) then owned else owned[d := {}]
  }

  ghost function RegisterOwner(s: DomState, p: Node): DomState
    requires p in s.owner
  {
    var d := NextOwner(s.owner, p);
    s.(reg := RegisterOwnerIn(s.reg, d), owned := RegisterOwnerSets(s.reg, s.owned, d))
  }

  ghost function MoveTree(t: Tree, p: Node, c: Node, i: nat): Tree
    requires Forest(t) && Fits(t, p, c) && i <= |Without(t[p].kids, c)|
  {
    MoveIsDefined(t, p, c, i);
    Attach(Detach(t, c), p, c, i)
  }

  /** Layouts dropped when `c` leaves its parent. */
  ghost function DetachBoxes(t: Tree, owner: Owners, box: map<Node, Cache>, c: Node): map<Node, Cache>
    requires Closed(t) && Acyclic(t) && owner.Keys == t.Keys && c in t
  {
    if t[c].parent == null then box else box[LayoutRoot(t, owner, t[c].parent) := NoCache]
  }

  /** Layouts dropped when `c` leaves its old parent and joins `p`. */
  ghost function MoveBoxes(s: DomState, p: Node, c: Node): map<Node, Cache>
    requires Closed(s.tree) && Acyclic(s.tree) && s.owner.Keys == s.tree.Keys && p in s.tree && c in s.tree
  {
    DetachBoxes(s.tree, s.owner, s.box, c)[LayoutRoot(s.tree, s.owner, p) := NoCache]
  }

  lemma {:induction false} TopAgrees(t: Tree, t': Tree, c: Node, n: Node)
    requires Closed(t) && OnlyReparents(t, t', c) && Grounded(t, n) && n in t && !Ancestor(t, c, n)
    ensures Grounded(t', n) && Top(t', n) == Top(t, n)
    decreases Depth(t, n)
  {
    DepthParent(t, n);
    AncestorStep(t, c, n);
    AncestorRefl(t, c);
    var k: nat :| Up(t, n, k) == null;
    UpAgree(t, t', c, n, k);
    DepthParent(t', n);
    if t[n].parent != null { TopAgrees(t, t', c, t[n].parent); }
  }

  /** Detaching a node leaves the layout root of its old parent where it was. */
  lemma OldParentKeepsRoot(t: Tree, owner: Owners, c: Node)
    requires Forest(t) && c in t && t[c].parent != null && owner.Keys == t.Keys
    ensures var t', q := Detach(t, c), t[c].parent;
      Grounded(t', q) && LayoutRoot(t', owner, q) == LayoutRoot(t, owner, q)
  {
    DetachFacts(t, c);
    KidNotAbove(t, t[c].parent, c);
    TopAgrees(t, Detach(t, c), c, t[c].parent);
  }

  /** The common effect of `appendChild` and `insertBefore` on a node that is no
      fragment: detach, list at position `i` of what remains, adopt, invalidate. */
  ghost function Place(s: DomState, p: Node, c: Node, i: nat): DomState
    requires Domains(s) && Forest(s.tree) && Fits(s.tree, p, c) && i <= |Without(s.tree[p].kids, c)|
  {
    var d := NextOwner(s.owner, p);
    var moved := Subtree(s.tree, c);
    s.(tree := MoveTree(s.tree, p, c, i),
       owner := AdoptOwner(s.owner, moved, d),
       owned := AdoptOwned(RegisterOwner(s, p).owned, moved, d),
       reg := RegisterOwner(s, p).reg,
       box := MoveBoxes(s, p, c))
  }

  lemma MoveIsDefined(t: Tree, p: Node, c: Node, i: nat)
    requires Forest(t) && Fits(t, p, c) && i <= |Without(t[p].kids, c)|
    ensures var t1 := Detach(t, c);
      && Forest(t1) && p in t1 && c in t1 && t1[p].kids == Without(t[p].kids, c) && t1[c].parent == null
      && Fits(t1, p, c)
      && Forest(Attach(t1, p, c, i))
  {
    var t1 := Detach(t, c);
    DetachFacts(t, c);
    DetachKeepsForest(t, c);
    WithoutFacts(t[p].kids, c);
    AncestorRefl(t, c);
    MoveKeepsSubtree(t, t1, c, p);
    if t[c].parent != p { assert c !in t[p].kids; }
    AttachKeepsForest(t1, p, c, i);
  }

  /** Everything a caller needs to know of the moved tree. */
  lemma MoveFacts(t: Tree, p: Node, c: Node, i: nat)
    requires Forest(t) && Fits(t, p, c) && i <= |Without(t[p].kids, c)|
    ensures var t' := MoveTree(t, p, c, i);
      && Forest(t') && OnlyReparents(t, t', c)
      && t'[c] == Links(p, t[c].kids)
      && t'[p] == Links(t[p].parent, InsertAt(Without(t[p].kids, c), i, c))
      && (forall n :: n in t && n != p && n != t[c].parent ==> t'[n].kids == t[n].kids)
      && (t[c].parent != null && t[c].parent != p ==> t'[t[c].parent].kids == Without(t[t[c].parent].kids, c))
      && Subtree(t', c) == Subtree(t, c)
  {
    MoveIsDefined(t, p, c, i);
    DetachFacts(t, c);
    AncestorRefl(t, c);
    AttachFacts(Detach(t, c), p, c, i);
    var t' := MoveTree(t, p, c, i);
    forall n | n in t ensures Ancestor(t, c, n) <==> Ancestor(t', c, n) { MoveKeepsSubtree(t, t', c, n); }
  }

  lemma TaskIsNamed(current: string, task: string)
    ensures NormalizeTaskId(current, task) != ""
  {
  }

  lemma RegisterDocIds(r: Registry, d: Node, task: string)
    requires RegistryExact(r) && d in r.ids && d in r.tasks && d.nodeType == DOCUMENT && !Live(r, d)
    ensures IdsAgree(RegisterDoc(r, d, task)) && r.docSeq + 1 !in r.byId
  {
    hide TasksAgree, PrimariesAgree, NormalizeTaskId;
    TaskIsNamed(r.currentTask, task);
    var r' := RegisterDoc(r, d, task);
    assert r.docSeq + 1 !in r.byId;
    forall i | i in r'.byId ensures
      var e := r'.byId[i];
      i != 0 && e in r'.ids && r'.ids[e] == i && e !in r'.released && e.nodeType == DOCUMENT && e in r'.tasks && r'.tasks[e] != ""
    {
      if i in r.byId { assert r.byId[i] != d; }
    }
  }

  lemma RegisterDocTasks(r: Registry, d: Node, task: string)
    requires RegistryExact(r) && d in r.ids && d in r.tasks && d.nodeType == DOCUMENT && !Live(r, d)
    ensures TasksAgree(RegisterDoc(r, d, task))
  {
    hide IdsAgree, PrimariesAgree, Live, NormalizeTaskId;
    RegisterDocIds(r, d, task);
    RegisterDocKeepsEntries(r, d, task);
    RegisterDocEntersTask(r, d, task);
    RegisterDocNonempty(r, d, task);
    hide RegisterDoc;
  }

  lemma RegisterDocNonempty(r: Registry, d: Node, task: string)
    requires TasksAgree(r)
    ensures forall t :: t in RegisterDoc(r, d, task).byTask ==> RegisterDoc(r, d, task).byTask[t] != {}
  {
    hide NormalizeTaskId;
    assert r.docSeq + 1 in TaskDocs(r, NormalizeTaskId(r.currentTask, task)) + {r.docSeq + 1};
  }

  lemma RegisterDocKeepsEntries(r: Registry, d: Node, task: string)
    requires IdsAgree(r) && TasksAgree(r) && d in r.ids && d in r.tasks && !Live(r, d) && r.docSeq + 1 !in r.byId
    ensures var r' := RegisterDoc(r, d, task);
      forall u, i :: u in r'.byTask && i in r'.byTask[u] ==>
        i in r'.byId && r'.byId[i] in r'.tasks && r'.tasks[r'.byId[i]] == u
  {
    var r' := RegisterDoc(r, d, task);
    forall u, i | u in r'.byTask && i in r'.byTask[u]
      ensures i in r'.byId && r'.byId[i] in r'.tasks && r'.tasks[r'.byId[i]] == u
    {
      if i != r.docSeq + 1 {
        assert u in r.byTask && i in r.byTask[u];
        assert r'.byId[i] == r.byId[i] != d;
      }
    }
  }

  lemma RegisterDocEntersTask(r: Registry, d: Node, task: string)
    requires IdsAgree(r) && TasksAgree(r) && d in r.ids && d in r.tasks && !Live(r, d)
    ensures var r' := RegisterDoc(r, d, task);
      forall i :: i in r'.byId && r'.byId[i] in r'.tasks ==>
        r'.tasks[r'.byId[i]] in r'.byTask && i in r'.byTask[r'.tasks[r'.byId[i]]]
  {
    var r' := RegisterDoc(r, d, task);
    forall i | i in r'.byId && r'.byId[i] in r'.tasks
      ensures r'.tasks[r'.byId[i]] in r'.byTask && i in r'.byTask[r'.tasks[r'.byId[i]]]
    {
      if i != r.docSeq + 1 { assert i in r.byId && r.byId[i] in r.tasks && r.byId[i] != d; }
    }
  }

  lemma RegisterDocPrimaries(r: Registry, d: Node, task: string)
    requires IdsAgree(r) && PrimariesAgree(r) && d in r.ids && d in r.tasks && !Live(r, d)
    ensures PrimariesAgree(RegisterDoc(r, d, task))
  {
    var r' := RegisterDoc(r, d, task);
    hide NormalizeTaskId;
    forall u | u in r'.primary
      ensures Live(r', r'.primary[u]) && r'.primary[u] in r'.tasks && r'.tasks[r'.primary[u]] == u
    {
      if u != NormalizeTaskId(r.currentTask, task) { assert Live(r, r.primary[u]) && r.primary[u] != d; }
    }
  }

  lemma RegisterDocCounts(r: Registry, d: Node, task: string)
    requires r.docSeq + 1 !in r.byId
    ensures |RegisterDoc(r, d, task).byId| == |r.byId| + 1
  {
    hide NormalizeTaskId;
    OneMoreId(r.byId, r.docSeq + 1, d);
  }

  lemma OneMoreId(byId: map<nat, Node>, id: nat, d: Node)
    requires id !in byId
    ensures |byId[id := d]| == |byId| + 1
  {
    assert byId[id := d].Keys == byId.Keys + {id};
    assert |byId[id := d]| == |byId[id := d].Keys| && |byId| == |byId.Keys|;
  }

  lemma RegisterDocStaysLive(r: Registry, d: Node, task: string, e: Node)
    requires !Live(r, d) && Live(r, e)
    ensures Live(RegisterDoc(r, d, task), e)
  {
  }

  lemma RegisterDocKeeps(r: Registry, d: Node, task: string)
    requires RegistryExact(r) && d in r.ids && d in r.tasks && d.nodeType == DOCUMENT && !Live(r, d)
    ensures RegistryExact(RegisterDoc(r, d, task))
  {
    RegisterDocIds(r, d, task);
    RegisterDocTasks(r, d, task);
    RegisterDocPrimaries(r, d, task);
    RegisterDocCounts(r, d, task);
  }

  /** Registering a document keeps every invariant and makes it live. */
  lemma EnsureRegisteredKeeps(s: DomState, d: Node, task: string)
    requires Inv(s) && d in s.tree && d.nodeType == DOCUMENT
    ensures var s' := EnsureRegistered(s, d, task);
      && Inv(s') && Live(s'.reg, d) && s' == s.(reg := s'.reg)
  {
    if !Live(s.reg, d) {
      NotLiveOwnsNothing(s.owned, s.reg, d);
      RegisterDocKeepsInv(s, d, task);
    }
  }

  lemma RegisterDocKeepsInv(s: DomState, d: Node, task: string)
    requires Inv(s) && d in s.tree && d.nodeType == DOCUMENT && !Live(s.reg, d)
    ensures Inv(s.(reg := RegisterDoc(s.reg, d, task))) && Live(RegisterDoc(s.reg, d, task), d)
  {
    RegisterDocKeeps(s.reg, d, task);
    RegisterDocLives(s.owned, s.reg, d, task);
    RegisterDocKeys(s.reg, d, task);
    RegistryKeepsInv(s, RegisterDoc(s.reg, d, task));
  }

  lemma RegisterDocKeys(r: Registry, d: Node, task: string)
    requires d in r.ids && d in r.tasks
    ensures var r' := RegisterDoc(r, d, task); r'.ids.Keys == r.ids.Keys && r'.tasks.Keys == r.tasks.Keys
  {
  }

  lemma RegistryKeepsInv(s: DomState, r': Registry)
    requires Inv(s) && RegistryExact(r') && OwnersAreLive(s.owned, r')
    requires r'.ids.Keys == s.reg.ids.Keys && r'.tasks.Keys == s.reg.tasks.Keys
    ensures Inv(s.(reg := r'))
  {
  }

  lemma RegisterDocLives(owned: OwnedSets, r: Registry, d: Node, task: string)
    requires OwnersAreLive(owned, r) && !Live(r, d)
    ensures OwnersAreLive(owned, RegisterDoc(r, d, task)) && Live(RegisterDoc(r, d, task), d)
  {
    forall e | e in owned && owned[e] != {} ensures Live(RegisterDoc(r, d, task), e) {
      RegisterDocStaysLive(r, d, task, e);
    }
  }

  lemma NotLiveOwnsNothing(owned: OwnedSets, r: Registry, d: Node)
    requires OwnersAreLive(owned, r) && d in owned && !Live(r, d)
    ensures owned[d := {}] == owned
  {
  }

  // ---------------------------------------------------------------- moving keeps ownership exact

  lemma NextOwnerIsDocument(s: DomState, p: Node)
    requires Inv(s) && p in s.tree
    ensures p in s.owner
    ensures var d := NextOwner(s.owner, p); d != null ==> d in s.tree && d.nodeType == DOCUMENT
  {
  }

  lemma RegisterOwnerKeeps(s: DomState, p: Node)
    requires Inv(s) && p in s.tree
    ensures var s' := RegisterOwner(s, p);
      && Inv(s') && s' == s.(reg := s'.reg)
      && (NextOwner(s.owner, p) != null ==> Live(s'.reg, NextOwner(s.owner, p)))
  {
    hide Inv, Live, RegisterDoc;
    NextOwnerIsDocument(s, p);
    if NextOwner(s.owner, p) != null { EnsureRegisteredKeeps(s, NextOwner(s.owner, p), ""); }
  }

  /** What a move knows of the nodes it carries. */
  lemma MovedNodes(t: Tree, p: Node, c: Node, x: Node)
    requires Forest(t) && Fits(t, p, c) && x in Subtree(t, c)
    ensures x.nodeType != DOCUMENT && x.nodeType != FRAGMENT
    ensures x != c ==> t[x].parent != null && t[x].parent in Subtree(t, c)
    ensures p !in Subtree(t, c)
  {
    if x != c {
      AncestorStep(t, c, x);
      if t[x].parent == null { AncestorOfNull(t, c); }
      assert x in t[t[x].parent].kids;
    }
  }

  lemma UnmovedParent(t: Tree, c: Node, x: Node)
    requires Forest(t) && x in t && x !in Subtree(t, c) && t[x].parent != null
    ensures t[x].parent !in Subtree(t, c)
  {
    AncestorStep(t, c, x);
  }

  lemma AdoptIsSound(owner: Owners, owned: OwnedSets, moved: set<Node>, d: Node?)
    requires OwnersAreDocuments(owner) && OwnedIsSound(owner, owned)
    requires forall x :: x in moved ==> x in owner && x.nodeType != DOCUMENT && x.nodeType != FRAGMENT
    requires d != null ==> d in owner && d.nodeType == DOCUMENT
    ensures OwnersAreDocuments(AdoptOwner(owner, moved, d))
    ensures OwnedIsSound(AdoptOwner(owner, moved, d), AdoptOwned(owned, moved, d))
  {
  }

  lemma AdoptFollows(t: Tree, t': Tree, owner: Owners, moved: set<Node>, p: Node, c: Node)
    requires t.Keys == t'.Keys == owner.Keys && OwnerFollowsParent(t, owner)
    requires p in t && p !in moved && c in t && c in moved && OnlyReparents(t, t', c) && t'[c].parent == p
    requires forall x :: x in moved ==> x in t && x.nodeType != DOCUMENT
    requires forall x :: x in moved && x != c ==> t[x].parent != null && t[x].parent in moved
    requires forall x :: x in t && x !in moved ==> t[x].parent == null || t[x].parent !in moved
    ensures OwnerFollowsParent(t', AdoptOwner(owner, moved, NextOwner(owner, p)))
  {
    var owner' := AdoptOwner(owner, moved, NextOwner(owner, p));
    forall x {:trigger t'[x].parent} | x in owner && t'[x].parent != null
      ensures t'[x].parent in owner' && owner'[x] == NextOwner(owner', t'[x].parent)
    {
      if x != c { assert t[x].parent == t'[x].parent; }
    }
  }

  lemma AdoptIsComplete(t: Tree, t': Tree, owner: Owners, owned: OwnedSets, moved: set<Node>, d: Node?)
    requires OwnershipExact(t, owner, owned) && t'.Keys == t.Keys
    requires forall x :: x in t && x !in moved ==> t'[x].parent == t[x].parent
    requires d != null ==> d in owner && d.nodeType == DOCUMENT
    ensures OwnedIsComplete(t', AdoptOwner(owner, moved, d), AdoptOwned(owned, moved, d))
  {
    var owner', owned' := AdoptOwner(owner, moved, d), AdoptOwned(owned, moved, d);
    forall x | x in owner && owner'[x] != null && (x.nodeType == ELEMENT || t'[x].parent != null)
      ensures owner'[x] in owned' && x in owned'[owner'[x]]
    {
      if x !in moved { assert x in owned[owner[x]]; }
    }
  }

  lemma MoveKeepsOwnership(t: Tree, owner: Owners, owned: OwnedSets, p: Node, c: Node, i: nat)
    requires Forest(t) && Fits(t, p, c) && i <= |Without(t[p].kids, c)|
    requires OwnershipExact(t, owner, owned)
    ensures var moved, d := Subtree(t, c), NextOwner(owner, p);
      OwnershipExact(MoveTree(t, p, c, i), AdoptOwner(owner, moved, d), AdoptOwned(owned, moved, d))
  {
    var moved, d := Subtree(t, c), NextOwner(owner, p);
    MoveFacts(t, p, c, i);
    AncestorRefl(t, c);
    forall x | x in moved
      ensures x.nodeType != DOCUMENT && x.nodeType != FRAGMENT
      ensures x != c ==> t[x].parent != null && t[x].parent in moved
    {
      MovedNodes(t, p, c, x);
    }
    MovedNodes(t, p, c, c);
    forall x | x in t && x !in moved ensures t[x].parent == null || t[x].parent !in moved {
      if t[x].parent != null { UnmovedParent(t, c, x); }
    }
    AdoptIsSound(owner, owned, moved, d);
    AdoptFollows(t, MoveTree(t, p, c, i), owner, moved, p, c);
    AdoptIsComplete(t, MoveTree(t, p, c, i), owner, owned, moved, d);
  }

  lemma PlaceKeepsInv(s: DomState, p: Node, c: Node, i: nat)
    requires Inv(s) && Fits(s.tree, p, c) && i <= |Without(s.tree[p].kids, c)|
    ensures Inv(Place(s, p, c, i))
  {
    var s' := Place(s, p, c, i);
    RegisterOwnerKeeps(s, p);
    MoveKeepsOwnership(s.tree, s.owner, s.owned, p, c, i);
    MoveFacts(s.tree, p, c, i);
    MoveBoxesKeys(s, p, c);
    AdoptKeepsLive(s.owned, s'.reg, Subtree(s.tree, c), NextOwner(s.owner, p));
    assert Forest(s'.tree) && s'.tree.Keys == s.tree.Keys;
    assert OwnershipExact(s'.tree, s'.owner, s'.owned);
    assert RegistryExact(s'.reg) && s'.reg.ids.Keys == s'.reg.tasks.Keys == s.tree.Keys;
  }

  lemma AdoptKeepsLive(owned: OwnedSets, r: Registry, moved: set<Node>, d: Node?)
    requires OwnersAreLive(owned, r) && (d != null ==> Live(r, d))
    ensures OwnersAreLive(AdoptOwned(owned, moved, d), r)
  {
    var owned' := AdoptOwned(owned, moved, d);
    forall n | n in owned' && owned'[n] != {} ensures Live(r, n) {
      if n != d { assert owned[n] != {}; }
    }
  }

  /** The new parent keeps its layout root. */
  lemma NewParentKeepsRoot(t: Tree, owner: Owners, p: Node, c: Node, i: nat)
    requires Forest(t) && Fits(t, p, c) && i <= |Without(t[p].kids, c)| && owner.Keys == t.Keys
    ensures var t', owner' := MoveTree(t, p, c, i), AdoptOwner(owner, Subtree(t, c), NextOwner(owner, p));
      Grounded(t', p) && LayoutRoot(t', owner', p) == LayoutRoot(t, owner, p)
  {
    MoveFacts(t, p, c, i);
    TopAgrees(t, MoveTree(t, p, c, i), c, p);
  }

  lemma LayoutRootInTree(t: Tree, owner: Owners, n: Node)
    requires Closed(t) && Grounded(t, n) && n in t && owner.Keys == t.Keys && OwnersAreDocuments(owner)
    ensures LayoutRoot(t, owner, n) in t
  {
    TopInTree(t, n);
  }

  lemma MoveBoxesKeys(s: DomState, p: Node, c: Node)
    requires Closed(s.tree) && Acyclic(s.tree) && s.owner.Keys == s.tree.Keys == s.box.Keys
    requires OwnersAreDocuments(s.owner) && p in s.tree && c in s.tree
    ensures MoveBoxes(s, p, c).Keys == s.tree.Keys
  {
    LayoutRootInTree(s.tree, s.owner, p);
    if s.tree[c].parent != null { LayoutRootInTree(s.tree, s.owner, s.tree[c].parent); }
  }

  // ---------------------------------------------------------------- insertion

  ghost function HtmlCount(s: seq<Node>, skip: set<Node>): nat {
    if s == [] then 0
    else HtmlCount(s[..|s| - 1], skip) + if s[|s| - 1] !in skip && IsHtml(s[|s| - 1]) then 1 else 0
  }

  /** The children of `c` that already name `p` as their parent. */
  ghost function ListedUnder(t: Tree, p: Node, c: Node): set<Node>
    requires c in t
  {
    set k | k in t[c].kids && k in t && t[k].parent == p
  }

  /** `validateInsertion`: the checks made before any node is moved. */
  ghost predicate ValidInsertion(t: Tree, p: Node, c: Node)
    requires p in t && c in t
  {
    && InsertableParent(p.nodeType) && AllowedChild(p.nodeType, c.nodeType)
    && (p.nodeType == DOCUMENT && IsHtml(c) ==>
         HtmlCount(t[p].kids, if t[c].parent == p then {c} else {}) == 0)
    && (p.nodeType == DOCUMENT && c.nodeType == FRAGMENT ==>
         && (forall k :: k in t[c].kids ==> AllowedChild(DOCUMENT, k.nodeType))
         && HtmlCount(t[p].kids, ListedUnder(t, p, c)) + HtmlCount(t[c].kids, {}) <= 1)
  }

  lemma {:induction false} HtmlCountZero(s: seq<Node>, skip: set<Node>)
    ensures HtmlCount(s, skip) == 0 <==> forall k :: k in s && k !in skip ==> !IsHtml(k)
  {
    if s != [] {
      HtmlCountZero(s[..|s| - 1], skip);
      assert forall k :: k in s <==> k in s[..|s| - 1] || k == s[|s| - 1];
    }
  }

  lemma ValidFits(t: Tree, p: Node, c: Node)
    requires Forest(t) && p in t && c in t && c.nodeType != FRAGMENT
    requires ValidInsertion(t, p, c) && !Ancestor(t, c, p)
    ensures Fits(t, p, c)
  {
    HtmlCountZero(t[p].kids, if t[c].parent == p then {c} else {});
  }

  /** `appendChild` of a node that is no fragment. */
  ghost function AppendOne(s: DomState, p: Node, c: Node): (r: (DomState, Outcome))
    requires Inv(s) && p in s.tree && c in s.tree && c.nodeType != FRAGMENT
    ensures Inv(r.0) && r.0.tree.Keys == s.tree.Keys
  {
    if p == c || !ValidInsertion(s.tree, p, c) || Ancestor(s.tree, c, p) then (s, HierarchyRequestError)
    else
      ValidFits(s.tree, p, c);
      PlaceKeepsInv(s, p, c, |Without(s.tree[p].kids, c)|);
      MoveFacts(s.tree, p, c, |Without(s.tree[p].kids, c)|);
      (Place(s, p, c, |Without(s.tree[p].kids, c)|), Done)
  }

  /** Appends in order and stops at the first refusal. */
  ghost function AppendAll(s: DomState, p: Node, cs: seq<Node>): (r: (DomState, Outcome))
    requires Inv(s) && p in s.tree && forall c :: c in cs ==> c in s.tree && c.nodeType != FRAGMENT
    ensures Inv(r.0) && r.0.tree.Keys == s.tree.Keys
    decreases |cs|
  {
    if cs == [] then (s, Done)
    else
      var (s1, o) := AppendOne(s, p, cs[0]);
      if o != Done then (s1, o) else AppendAll(s1, p, cs[1..])
  }

  lemma FragmentKidsAreNodes(t: Tree, f: Node)
    requires Forest(t) && f in t
    ensures forall k :: k in t[f].kids ==> k in t && k.nodeType != FRAGMENT && k.nodeType != DOCUMENT
  {
  }

  /** `appendChild` */
  ghost function Append(s: DomState, p: Node, c: Node): (r: (DomState, Outcome))
    requires Inv(s) && p in s.tree && c in s.tree
    ensures Inv(r.0) && r.0.tree.Keys == s.tree.Keys
  {
    if p == c || !ValidInsertion(s.tree, p, c) then (s, HierarchyRequestError)
    else if c.nodeType == FRAGMENT then
      FragmentKidsAreNodes(s.tree, c);
      AppendAll(s, p, s.tree[c].kids)
    else AppendOne(s, p, c)
  }

  lemma AppendCases(s: DomState, p: Node, c: Node)
    requires Inv(s) && p in s.tree && c in s.tree
    ensures p == c || !ValidInsertion(s.tree, p, c) ==> Append(s, p, c) == (s, HierarchyRequestError)
    ensures p != c && ValidInsertion(s.tree, p, c) && c.nodeType == FRAGMENT ==>
      && (forall k :: k in s.tree[c].kids ==> k in s.tree && k.nodeType != FRAGMENT)
      && Append(s, p, c) == AppendAll(s, p, s.tree[c].kids)
    ensures c.nodeType != FRAGMENT ==> Append(s, p, c) == AppendOne(s, p, c)
    ensures p != c && ValidInsertion(s.tree, p, c) && c.nodeType != FRAGMENT ==>
      if Ancestor(s.tree, c, p) then Append(s, p, c) == (s, HierarchyRequestError)
      else Fits(s.tree, p, c) && Append(s, p, c) == (Place(s, p, c, |Without(s.tree[p].kids, c)|), Done)
  {
    FragmentKidsAreNodes(s.tree, c);
    if c.nodeType != FRAGMENT && ValidInsertion(s.tree, p, c) && !Ancestor(s.tree, c, p) { ValidFits(s.tree, p, c); }
  }

  lemma AppendIsOne(s: DomState, p: Node, c: Node)
    requires Inv(s) && p in s.tree && c in s.tree && c.nodeType != FRAGMENT
    ensures Append(s, p, c) == AppendOne(s, p, c)
  {
    hide Inv, AppendAll, Place, Ancestor, ValidInsertion, Fits;
  }
  /** Where `insertBefore` lists `c`: the index of `b` taken before `c` is detached. */
  ghost function InsertOne(s: DomState, p: Node, c: Node, b: Node): (r: (DomState, Outcome))
    requires Inv(s) && p in s.tree && c in s.tree && c.nodeType != FRAGMENT
    ensures Inv(r.0) && r.0.tree.Keys == s.tree.Keys
  {
    if b !in s.tree[p].kids then (s, NotFoundError)
    else if p == c || Ancestor(s.tree, c, p) || !ValidInsertion(s.tree, p, c) then (s, HierarchyRequestError)
    else
      var i := IndexOf(s.tree[p].kids, b);
      ValidFits(s.tree, p, c);
      InsertIndexFits(s.tree[p].kids, c, b);
      PlaceKeepsInv(s, p, c, i);
      MoveFacts(s.tree, p, c, i);
      (Place(s, p, c, i), Done)
  }

  lemma InsertIndexFits(s: seq<Node>, c: Node, b: Node)
    requires b in s
    ensures 0 <= IndexOf(s, b) <= |Without(s, c)|
  {
  }

  ghost function InsertAll(s: DomState, p: Node, cs: seq<Node>, b: Node): (r: (DomState, Outcome))
    requires Inv(s) && p in s.tree && forall c :: c in cs ==> c in s.tree && c.nodeType != FRAGMENT
    ensures Inv(r.0) && r.0.tree.Keys == s.tree.Keys
    decreases |cs|
  {
    if cs == [] then (s, Done)
    else
      var (s1, o) := InsertOne(s, p, cs[0], b);
      if o != Done then (s1, o) else InsertAll(s1, p, cs[1..], b)
  }

  /** `insertBefore` */
  ghost function Insert(s: DomState, p: Node, c: Node, b: Node?): (r: (DomState, Outcome))
    requires Inv(s) && p in s.tree && c in s.tree
    ensures Inv(r.0) && r.0.tree.Keys == s.tree.Keys
  {
    if b == null then Append(s, p, c)
    else if b !in s.tree[p].kids then (s, NotFoundError)
    else if p == c || Ancestor(s.tree, c, p) || !ValidInsertion(s.tree, p, c) then (s, HierarchyRequestError)
    else if c.nodeType == FRAGMENT then
      FragmentKidsAreNodes(s.tree, c);
      InsertAll(s, p, s.tree[c].kids, b)
    else InsertOne(s, p, c, b)
  }

  lemma InsertCases(s: DomState, p: Node, c: Node, b: Node)
    requires Inv(s) && p in s.tree && c in s.tree
    ensures b !in s.tree[p].kids ==> Insert(s, p, c, b) == (s, NotFoundError)
    ensures b in s.tree[p].kids && (p == c || Ancestor(s.tree, c, p) || !ValidInsertion(s.tree, p, c)) ==>
      Insert(s, p, c, b) == (s, HierarchyRequestError)
    ensures b in s.tree[p].kids && p != c && !Ancestor(s.tree, c, p) && ValidInsertion(s.tree, p, c) ==>
      && (c.nodeType == FRAGMENT ==>
           && (forall k :: k in s.tree[c].kids ==> k in s.tree && k.nodeType != FRAGMENT)
           && Insert(s, p, c, b) == InsertAll(s, p, s.tree[c].kids, b))
      && (c.nodeType != FRAGMENT ==>
           && Fits(s.tree, p, c) && 0 <= IndexOf(s.tree[p].kids, b) <= |Without(s.tree[p].kids, c)|
           && Insert(s, p, c, b) == (Place(s, p, c, IndexOf(s.tree[p].kids, b)), Done))
    ensures c.nodeType != FRAGMENT ==> Insert(s, p, c, b) == InsertOne(s, p, c, b)
  {
    FragmentKidsAreNodes(s.tree, c);
    if b in s.tree[p].kids {
      InsertIndexFits(s.tree[p].kids, c, b);
      if c.nodeType != FRAGMENT && ValidInsertion(s.tree, p, c) && !Ancestor(s.tree, c, p) { ValidFits(s.tree, p, c); }
    }
  }

  lemma InsertNull(s: DomState, p: Node, c: Node)
    requires Inv(s) && p in s.tree && c in s.tree
    ensures Insert(s, p, c, null) == Append(s, p, c)
  {
  }

  lemma InsertIsOne(s: DomState, p: Node, c: Node, b: Node)
    requires Inv(s) && p in s.tree && c in s.tree && c.nodeType != FRAGMENT
    ensures Insert(s, p, c, b) == InsertOne(s, p, c, b)
  {
    hide Inv, InsertAll, Place, Ancestor, ValidInsertion, Fits;
  }
  // ---------------------------------------------------------------- removal and text

  /** Cutting parent links keeps every invariant. */
  lemma CutKeepsInv(s: DomState, t': Tree)
    requires Inv(s) && Forest(t') && t'.Keys == s.tree.Keys
    requires forall n :: n in s.tree ==> t'[n].parent == s.tree[n].parent || t'[n].parent == null
    ensures Inv(s.(tree := t'))
  {
    CutKeepsOwnership(s.tree, t', s.owner, s.owned);
  }

  lemma CutKeepsOwnership(t: Tree, t': Tree, owner: Owners, owned: OwnedSets)
    requires OwnershipExact(t, owner, owned) && t'.Keys == t.Keys
    requires forall n :: n in t ==> t'[n].parent == t[n].parent || t'[n].parent == null
    ensures OwnershipExact(t', owner, owned)
  {
  }

  lemma MarkDirtyKeepsInv(s: DomState, n: Node)
    requires Inv(s) && n in s.tree
    ensures Grounded(s.tree, n) && Inv(MarkDirty(s, n))
  {
    hide Inv, LayoutRoot, Grounded;
    MarkedRoot(s, n);
    InvKeys(s);
    BoxKeepsInv(s, s.box[LayoutRoot(s.tree, s.owner, n) := NoCache]);
  }

  lemma MarkedRoot(s: DomState, n: Node)
    requires Inv(s) && n in s.tree
    ensures Grounded(s.tree, n) && n in s.owner && LayoutRoot(s.tree, s.owner, n) in s.tree
  {
    hide RegistryExact, OwnersAreLive, OwnedIsSound, OwnedIsComplete, OwnerFollowsParent;
    LayoutRootInTree(s.tree, s.owner, n);
  }

  lemma BoxKeepsInv(s: DomState, box: map<Node, Cache>)
    requires Inv(s) && box.Keys == s.tree.Keys
    ensures Inv(s.(box := box))
  {
  }

  /** `removeChild` */
  ghost function Remove(s: DomState, p: Node, c: Node): (r: (DomState, Outcome))
    requires Inv(s) && p in s.tree && c in s.tree
    ensures Inv(r.0) && r.0.tree.Keys == s.tree.Keys
  {
    if c !in s.tree[p].kids then (s, NotFoundError)
    else
      DetachKeepsForest(s.tree, c);
      DetachFacts(s.tree, c);
      CutKeepsInv(s, Detach(s.tree, c));
      var s1 := s.(tree := Detach(s.tree, c));
      MarkDirtyKeepsInv(s1, p);
      (MarkDirty(s1, p), Done)
  }

  lemma InvForest(s: DomState)
    requires Inv(s)
    ensures Forest(s.tree)
  {
  }

  lemma DomainsOfInv(s: DomState)
    requires Inv(s)
    ensures Domains(s)
  {
  }

  lemma InvKeys(s: DomState)
    requires Inv(s)
    ensures s.owner.Keys == s.owned.Keys == s.text.Keys == s.style.Keys == s.box.Keys == s.tree.Keys
  {
  }

  lemma RemoveCases(s: DomState, p: Node, c: Node)
    requires Inv(s) && p in s.tree && c in s.tree
    ensures c !in s.tree[p].kids ==> IndexOf(s.tree[p].kids, c) == -1 && Remove(s, p, c) == (s, NotFoundError)
    ensures c in s.tree[p].kids ==>
      var kids, i := s.tree[p].kids, IndexOf(s.tree[p].kids, c);
      var t1 := s.tree[p := s.tree[p].(kids := kids[..i] + kids[i + 1..])];
      var t' := t1[c := t1[c].(parent := null)];
      && 0 <= i < |kids| && t'.Keys == s.tree.Keys
      && Forest(t') && Closed(t') && Acyclic(t') && Grounded(t', p)
      && Remove(s, p, c) == (MarkDirty(s.(tree := t'), p), Done)
      && Inv(MarkDirty(s.(tree := t'), p))
  {
    hide *;
    if c in s.tree[p].kids {
      InvForest(s);
      RemovedTree(s.tree, p, c);
      RemoveUnfold(s, p, c);
    } else {
      RemoveRefuses(s, p, c);
    }
  }

  lemma RemoveRefuses(s: DomState, p: Node, c: Node)
    requires Inv(s) && p in s.tree && c in s.tree && c !in s.tree[p].kids
    ensures IndexOf(s.tree[p].kids, c) == -1 && Remove(s, p, c) == (s, NotFoundError)
  {
  }

  lemma RemoveUnfold(s: DomState, p: Node, c: Node)
    requires Inv(s) && p in s.tree && c in s.tree && c in s.tree[p].kids
    requires Forest(s.tree) && (s.tree[c].parent != null ==> s.tree[c].parent in s.tree)
    requires Grounded(Detach(s.tree, c), p)
    ensures var s1 := s.(tree := Detach(s.tree, c));
      Remove(s, p, c) == (MarkDirty(s1, p), Done) && Inv(MarkDirty(s1, p))
  {
    hide Inv, MarkDirty, Detach, Forest, Grounded;
  }

  lemma RemovedTree(t: Tree, p: Node, c: Node)
    requires Forest(t) && p in t && c in t[p].kids
    ensures var kids, i := t[p].kids, IndexOf(t[p].kids, c);
      && 0 <= i < |kids| && c in t && t[c].parent == p
      && var t1 := t[p := t[p].(kids := kids[..i] + kids[i + 1..])];
      && t1[c := t1[c].(parent := null)] == Detach(t, c)
      && Forest(Detach(t, c)) && Detach(t, c).Keys == t.Keys
      && Closed(Detach(t, c)) && Acyclic(Detach(t, c)) && Grounded(Detach(t, c), p)
      && (forall n :: n in t ==> Detach(t, c)[n].parent == t[n].parent || Detach(t, c)[n].parent == null)
  {
    DetachedTree(t, p, c);
    DetachKeepsForest(t, c);
    DetachFacts(t, c);
    hide Detach, IndexOf, Distinct, Shaped, Linked;
  }

  lemma DetachedTree(t: Tree, p: Node, c: Node)
    requires Forest(t) && p in t && c in t[p].kids
    ensures var kids, i := t[p].kids, IndexOf(t[p].kids, c);
      && 0 <= i < |kids| && c in t && t[c].parent == p
      && var t1 := t[p := t[p].(kids := kids[..i] + kids[i + 1..])];
      && t1[c := t1[c].(parent := null)] == Detach(t, c)
  {
    hide Acyclic, Shaped, Distinct;
  }

  /** Cuts every child of `n` loose. */
  ghost function DropKids(t: Tree, n: Node): Tree
    requires n in t
  {
    map m | m in t ::
      if m == n then Links(t[n].parent, [])
      else if t[m].parent == n then Links(null, t[m].kids)
      else t[m]
  }

  lemma {:induction false} CutGrounds(t: Tree, t': Tree, n: Node?)
    requires Grounded(t, n) && Closed(t) && t'.Keys == t.Keys && (n == null || n in t)
    requires forall m :: m in t ==> t'[m].parent == t[m].parent || t'[m].parent == null
    ensures Grounded(t', n)
    decreases Depth(t, n)
  {
    if n == null { GroundedNull(t'); return; }
    DepthParent(t, n);
    GroundedNull(t');
    if t'[n].parent != null { CutGrounds(t, t', t[n].parent); }
    var k: nat :| Up(t', Parent(t', n), k) == null;
    assert Up(t', n, k + 1) == null;
  }

  lemma DropKidsCuts(t: Tree, n: Node)
    requires n in t
    ensures DropKids(t, n).Keys == t.Keys
    ensures forall m :: m in t ==> DropKids(t, n)[m].parent == t[m].parent || DropKids(t, n)[m].parent == null
  {
  }

  lemma DropKidsLinks(t: Tree, n: Node)
    requires Closed(t) && Linked(t) && n in t && t[n].parent != n
    ensures Closed(DropKids(t, n)) && Linked(DropKids(t, n))
  {
    var t' := DropKids(t, n);
    forall p, c | p in t' && c in t'[p].kids ensures c in t' && t'[c].parent == p {
      assert c in t[p].kids;
    }
    forall c {:trigger t'[c].parent} | c in t' && t'[c].parent != null
      ensures t'[c].parent in t' && c in t'[t'[c].parent].kids
    {
      assert t[c].parent == t'[c].parent;
    }
  }

  lemma DropKidsKeepsForest(t: Tree, n: Node)
    requires Forest(t) && n in t
    ensures Forest(DropKids(t, n))
  {
    SelfParentImpossible(t, n);
    DropKidsGrounds(t, n);
    DropKidsLinks(t, n);
    DropKidsLists(t, n);
    hide Closed, Linked, Acyclic, Shaped, DropKids;
  }

  lemma DropKidsGrounds(t: Tree, n: Node)
    requires Closed(t) && Acyclic(t) && n in t
    ensures Acyclic(DropKids(t, n))
  {
    var t' := DropKids(t, n);
    forall m | m in t ensures Grounded(t', m) { CutGrounds(t, t', m); }
  }

  lemma DropKidsLists(t: Tree, n: Node)
    requires n in t && Shaped(t) && forall m :: m in t ==> Distinct(t[m].kids)
    ensures Shaped(DropKids(t, n)) && forall m :: m in DropKids(t, n) ==> Distinct(DropKids(t, n)[m].kids)
  {
  }

  lemma TextKeepsInv(s: DomState, text: map<Node, string>)
    requires Inv(s) && text.Keys == s.tree.Keys
    ensures Inv(s.(text := text))
  {
  }

  lemma DropKidsKeepsInv(s: DomState, n: Node)
    requires Inv(s) && n in s.tree
    ensures Inv(s.(tree := DropKids(s.tree, n)))
  {
    DropKidsCuts(s.tree, n);
    DropKidsKeepsForest(s.tree, n);
    CutKeepsInv(s, DropKids(s.tree, n));
  }

  /** `setTextContent` */
  ghost function SetText(s: DomState, n: Node, value: string): (r: DomState)
    requires Inv(s) && n in s.tree
    ensures Inv(r) && r.tree.Keys == s.tree.Keys
  {
    TextKeepsInv(s, s.text[n := value]);
    var s1 := s.(text := s.text[n := value]);
    if n.nodeType == ELEMENT || n.nodeType == DOCUMENT then
      DropKidsKeepsInv(s1, n);
      MarkDirtyKeepsInv(s1.(tree := DropKids(s1.tree, n)), n);
      MarkDirty(s1.(tree := DropKids(s1.tree, n)), n)
    else s1
  }

  /** The listed nodes lose their parent, one after another. */
  ghost function Orphan(t: Tree, cs: seq<Node>): Tree {
    map m | m in t :: if m in cs then Links(null, t[m].kids) else t[m]
  }

  lemma OrphanOneMore(t: Tree, cs: seq<Node>, c: Node)
    requires c in t
    ensures Orphan(t, cs + [c]) == Orphan(t, cs)[c := Orphan(t, cs)[c].(parent := null)]
  {
  }

  lemma OrphanAllKids(t: Tree, n: Node)
    requires Forest(t) && n in t
    ensures Orphan(t, []) == t
    ensures n in Orphan(t, t[n].kids)
    ensures Orphan(t, t[n].kids)[n := Orphan(t, t[n].kids)[n].(kids := [])] == DropKids(t, n)
  {
    SelfParentImpossible(t, n);
    assert n !in t[n].kids;
    forall m | m in t && t[m].parent == n ensures m in t[n].kids {}
  }

  lemma SetTextCases(s: DomState, n: Node, value: string)
    requires Inv(s) && n in s.tree
    ensures var s1 := s.(text := s.text[n := value]);
      && Inv(s1) && Inv(SetText(s, n, value)) && n in s.owner
      && (n.nodeType != ELEMENT && n.nodeType != DOCUMENT ==> SetText(s, n, value) == s1)
      && (n.nodeType == ELEMENT || n.nodeType == DOCUMENT ==>
           var t' := DropKids(s.tree, n);
           && t'.Keys == s.tree.Keys && Closed(t') && Acyclic(t') && Grounded(t', n)
           && SetText(s, n, value) == MarkDirty(s1.(tree := t'), n))
  {
    hide *;
    InvForest(s);
    InvKeys(s);
    TextKeepsInv(s, s.text[n := value]);
    DropKidsParts(s.tree, n);
    if n.nodeType == ELEMENT || n.nodeType == DOCUMENT {
      SetTextUnfold(s, n, value);
    } else {
      SetTextOnly(s, n, value);
    }
  }

  lemma DropKidsParts(t: Tree, n: Node)
    requires Forest(t) && n in t
    ensures var t' := DropKids(t, n);
      t'.Keys == t.Keys && Closed(t') && Acyclic(t') && Grounded(t', n)
  {
    DropKidsKeepsForest(t, n);
    DropKidsCuts(t, n);
  }

  lemma SetTextOnly(s: DomState, n: Node, value: string)
    requires Inv(s) && n in s.tree && n.nodeType != ELEMENT && n.nodeType != DOCUMENT
    ensures SetText(s, n, value) == s.(text := s.text[n := value])
  {
    hide Inv;
  }

  lemma SetTextUnfold(s: DomState, n: Node, value: string)
    requires Inv(s) && n in s.tree && (n.nodeType == ELEMENT || n.nodeType == DOCUMENT)
    requires Grounded(DropKids(s.tree, n), n) && n in s.owner
    ensures SetText(s, n, value) == MarkDirty(s.(text := s.text[n := value], tree := DropKids(s.tree, n)), n)
  {
    hide Inv, MarkDirty, DropKids, Grounded;
  }

  /** `setStyleValue`: names off the layout allow-list are ignored, the empty value deletes. */
  function StyledWith(style: Style, name: string, value: string): Style {
    var key, serialized := NormalizeStyleName(name), Trim(value);
    if !IsWhitelistedStyle(key) then style
    else if serialized == "" then style - {key}
    else style[key := serialized]
  }

  lemma StyleKeepsInv(s: DomState, style: map<Node, Style>)
    requires Inv(s) && style.Keys == s.tree.Keys
    ensures Inv(s.(style := style))
  {
  }

  ghost function SetStyle(s: DomState, n: Node, name: string, value: string): (r: DomState)
    requires Inv(s) && n in s.tree
    ensures Inv(r) && r.tree.Keys == s.tree.Keys
  {
    if !IsWhitelistedStyle(NormalizeStyleName(name)) then s
    else RestyleAndMark(s, n, StyledWith(s.style[n], name, value))
  }

  ghost function RestyleAndMark(s: DomState, n: Node, style: Style): (r: DomState)
    requires Inv(s) && n in s.tree
    ensures Inv(r) && r.tree == s.tree
  {
    RestyleKeepsInv(s, n, style);
    MarkDirty(s.(style := s.style[n := style]), n)
  }

  lemma RestyleKeepsInv(s: DomState, n: Node, style: Style)
    requires Inv(s) && n in s.tree
    ensures Grounded(s.tree, n) && n in s.owner && Inv(MarkDirty(s.(style := s.style[n := style]), n))
  {
    hide MarkDirty, Forest, OwnershipExact, OwnersAreLive, RegistryExact;
    StyleKeepsInv(s, s.style[n := style]);
    MarkDirtyKeepsInv(s.(style := s.style[n := style]), n);
  }

  // ---------------------------------------------------------------- creation

  /** A new record without parent, children or layout, not indexed anywhere. */
  ghost function Fresh(s: DomState, n: Node, owner: Node?, text: string): DomState {
    s.(tree := s.tree[n := Links(null, [])],
       owner := s.owner[n := owner],
       owned := s.owned[n := {}],
       reg := s.reg.(ids := s.reg.ids[n := 0], tasks := s.reg.tasks[n := ""]),
       text := s.text[n := text],
       style := s.style[n := map[]],
       box := s.box[n := NoCache],
       slot := s.slot[n := []])
  }

  lemma FreshKeepsForest(t: Tree, n: Node)
    requires Forest(t) && n !in t
    ensures Forest(t[n := Links(null, [])])
  {
    var t' := t[n := Links(null, [])];
    forall m | m in t' ensures Grounded(t', m) {
      if m == n {
        assert Up(t', n, 1) == null;
      } else {
        FreshChain(t, n, m);
      }
    }
  }

  lemma {:induction false} FreshChain(t: Tree, n: Node, m: Node?)
    requires Closed(t) && n !in t && (m == null || m in t) && Grounded(t, m)
    ensures Grounded(t[n := Links(null, [])], m)
    decreases Depth(t, m)
  {
    var t' := t[n := Links(null, [])];
    if m == null { GroundedNull(t'); return; }
    DepthParent(t, m);
    FreshChain(t, n, t[m].parent);
    var k: nat :| Up(t', Parent(t', m), k) == null;
    assert Up(t', m, k + 1) == null;
  }

  lemma FreshKeepsOwnership(t: Tree, owner: Owners, owned: OwnedSets, n: Node, d: Node?)
    requires OwnershipExact(t, owner, owned) && Closed(t) && n !in t
    requires d != null ==> d in t && d.nodeType == DOCUMENT
    requires n.nodeType == ELEMENT || n.nodeType == DOCUMENT ==> d == null
    ensures OwnershipExact(t[n := Links(null, [])], owner[n := d], owned[n := {}])
  {
  }

  lemma FreshKeepsRegistry(r: Registry, n: Node)
    requires RegistryExact(r) && n !in r.ids && n !in r.tasks
    ensures RegistryExact(r.(ids := r.ids[n := 0], tasks := r.tasks[n := ""]))
    ensures forall d :: Live(r, d) ==> Live(r.(ids := r.ids[n := 0], tasks := r.tasks[n := ""]), d)
  {
    FreshKeepsTasks(r, n);
    FreshKeepsPrimaries(r, n);
    hide TasksAgree, PrimariesAgree;
  }

  lemma FreshKeepsTasks(r: Registry, n: Node)
    requires IdsAgree(r) && TasksAgree(r) && n !in r.ids && n !in r.tasks
    ensures TasksAgree(r.(ids := r.ids[n := 0], tasks := r.tasks[n := ""]))
  {
    assert forall i :: i in r.byId ==> r.byId[i] != n;
    hide IdsAgree;
  }

  lemma FreshKeepsPrimaries(r: Registry, n: Node)
    requires PrimariesAgree(r) && n !in r.ids && n !in r.tasks
    ensures PrimariesAgree(r.(ids := r.ids[n := 0], tasks := r.tasks[n := ""]))
  {
  }

  /** A text node, comment, fragment or document may be created with an owner but
      without being entered into that owner's set. */
  lemma FreshKeepsInv(s: DomState, n: Node, d: Node?, text: string)
    requires Inv(s) && n !in s.tree
    requires d != null ==> d in s.tree && d.nodeType == DOCUMENT
    requires n.nodeType == ELEMENT || n.nodeType == DOCUMENT ==> d == null
    ensures Inv(Fresh(s, n, d, text))
  {
    FreshKeepsForest(s.tree, n);
    FreshKeepsOwnership(s.tree, s.owner, s.owned, n, d);
    FreshKeepsRegistry(s.reg, n);
    FreshKeepsLive(s.owned, s.reg, n);
    FreshDomains(s, n, d, text);
    InvFromParts(Fresh(s, n, d, text));
  }

  lemma FreshDomains(s: DomState, n: Node, d: Node?, text: string)
    requires Domains(s)
    ensures Domains(Fresh(s, n, d, text))
  {
  }

  lemma FreshKeepsLive(owned: OwnedSets, r: Registry, n: Node)
    requires OwnersAreLive(owned, r) && n !in r.ids
    ensures OwnersAreLive(owned[n := {}], r.(ids := r.ids[n := 0], tasks := r.tasks[n := ""]))
  {
  }

  lemma InvFromParts(s: DomState)
    requires Domains(s) && Forest(s.tree) && OwnershipExact(s.tree, s.owner, s.owned)
    requires OwnersAreLive(s.owned, s.reg) && RegistryExact(s.reg)
    ensures Inv(s)
  {
  }

  /** `registerNodeInDocument` on a new, unattached element. */
  ghost function Enrol(s: DomState, n: Node, d: Node): DomState
    requires d in s.owned
  {
    s.(owner := s.owner[n := d], owned := s.owned[d := s.owned[d] + {n}])
  }

  lemma EnrolKeepsInv(s: DomState, n: Node, d: Node)
    requires Inv(s) && n in s.tree && d in s.tree && d.nodeType == DOCUMENT && Live(s.reg, d)
    requires n.nodeType == ELEMENT && s.owner[n] == null && s.tree[n] == Links(null, [])
    ensures Inv(Enrol(s, n, d))
  {
    EnrolKeepsOwnership(s.tree, s.owner, s.owned, n, d);
    EnrolKeepsLive(s.owned, s.reg, n, d);
  }

  lemma EnrolKeepsLive(owned: OwnedSets, r: Registry, n: Node, d: Node)
    requires OwnersAreLive(owned, r) && d in owned && Live(r, d)
    ensures OwnersAreLive(owned[d := owned[d] + {n}], r)
  {
  }

  lemma EnrolKeepsOwnership(t: Tree, owner: Owners, owned: OwnedSets, n: Node, d: Node)
    requires OwnershipExact(t, owner, owned) && Linked(t) && n in t && d in t && d.nodeType == DOCUMENT
    requires n.nodeType == ELEMENT && owner[n] == null && t[n] == Links(null, [])
    ensures OwnershipExact(t, owner[n := d], owned[d := owned[d] + {n}])
  {
    EnrolKeepsSets(t, owner, owned, n, d);
    EnrolFollows(t, owner, n, d);
    hide OwnersAreDocuments, OwnedIsSound, OwnedIsComplete, OwnerFollowsParent;
  }

  lemma EnrolKeepsSets(t: Tree, owner: Owners, owned: OwnedSets, n: Node, d: Node)
    requires OwnershipExact(t, owner, owned) && n in t && d in t && d.nodeType == DOCUMENT
    requires n.nodeType == ELEMENT && owner[n] == null && t[n] == Links(null, [])
    ensures OwnersAreDocuments(owner[n := d]) && OwnedIsSound(owner[n := d], owned[d := owned[d] + {n}])
    ensures OwnedIsComplete(t, owner[n := d], owned[d := owned[d] + {n}])
  {
    hide OwnerFollowsParent;
  }

  lemma EnrolFollows(t: Tree, owner: Owners, n: Node, d: Node)
    requires t.Keys == owner.Keys && OwnerFollowsParent(t, owner) && Linked(t) && n in t
    requires n.nodeType == ELEMENT && t[n] == Links(null, [])
    ensures OwnerFollowsParent(t, owner[n := d])
  {
    forall c {:trigger t[c].parent} | c in owner && t[c].parent != null ensures t[c].parent != n {
      assert c in t[t[c].parent].kids;
    }
  }

  /** `createElementForDocument` / `ensureElementState`: with an owner document the
      element is registered with it, and the document with its task. */
  ghost function CreateElement(s: DomState, n: Node, d: Node?): DomState
    requires Inv(s) && n !in s.tree && n.nodeType == ELEMENT
    requires d != null ==> d in s.tree && d.nodeType == DOCUMENT
  {
    var s1 := Fresh(s, n, null, "");
    if d == null then s1 else Enrol(EnsureRegistered(s1, d, ""), n, d)
  }

  lemma CreateElementKeepsInv(s: DomState, n: Node, d: Node?)
    requires Inv(s) && n !in s.tree && n.nodeType == ELEMENT
    requires d != null ==> d in s.tree && d.nodeType == DOCUMENT
    ensures Inv(Fresh(s, n, null, "")) && Inv(CreateElement(s, n, d))
    ensures CreateElement(s, n, d).tree == s.tree[n := Links(null, [])]
  {
    FreshKeepsInv(s, n, null, "");
    if d != null {
      EnsureRegisteredKeeps(Fresh(s, n, null, ""), d, "");
      EnrolKeepsInv(EnsureRegistered(Fresh(s, n, null, ""), d, ""), n, d);
    }
  }
}
