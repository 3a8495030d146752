/** The layout cache.  The layout engine is a function of the element and style tree;
    the DOM caches its result at the layout root and on every element below it. */
module DomLayout {
  import opened DomNodes
  import opened DomForest
  import opened DomModel
  import opened DomRelease

  type Engine = StyleTree -> LayoutTree

  // ---------------------------------------------------------------- the element tree

  /** `getDoDChildNodes` */
  function Elements(kids: seq<Node>): (r: seq<Node>)
    ensures |r| <= |kids|
    ensures forall i :: 0 <= i < |r| ==> r[i] in kids && r[i].nodeType == ELEMENT
  {
    if kids == [] then []
    else
      var rest := Elements(kids[..|kids| - 1]);
      var last := kids[|kids| - 1];
      if last.nodeType == ELEMENT then rest + [last] else rest
  }

  /** The element reached from `n` by child positions. */
  ghost function ElementAt(t: Tree, n: Node, path: seq<nat>): Node? {
    if n !in t then null
    else if path == [] then n
    else
      var kids := Elements(t[n].kids);
      if path[0] < |kids| then ElementAt(t, kids[path[0]], path[1..]) else null
  }

  /** `buildDoDInputTree` */
  ghost function Input(t: Tree, style: map<Node, Style>, n: Node): StyleTree
    requires Forest(t) && n in t && style.Keys == t.Keys
    decreases Below(t, n), 1
  {
    StyleTree(style[n], InputKids(t, style, n, |Elements(t[n].kids)|))
  }

  /** The inputs of the first `i` element children. */
  ghost function InputKids(t: Tree, style: map<Node, Style>, n: Node, i: nat): (r: seq<StyleTree>)
    requires Forest(t) && n in t && style.Keys == t.Keys && i <= |Elements(t[n].kids)|
    ensures |r| == i
    decreases Below(t, n), 0, i
  {
    if i == 0 then []
    else
      var k := Elements(t[n].kids)[i - 1];
      KidBelow(t, n, k);
      InputKids(t, style, n, i - 1) + [Input(t, style, k)]
  }

  lemma InputSteps(t: Tree, style: map<Node, Style>, n: Node, i: nat)
    requires Forest(t) && n in t && style.Keys == t.Keys && i <= |Elements(t[n].kids)|
    ensures InputKids(t, style, n, 0) == []
    ensures i < |Elements(t[n].kids)| ==>
      var k := Elements(t[n].kids)[i];
      && k in t && Below(t, k) < Below(t, n)
      && InputKids(t, style, n, i + 1) == InputKids(t, style, n, i) + [Input(t, style, k)]
    ensures Input(t, style, n) == StyleTree(style[n], InputKids(t, style, n, |Elements(t[n].kids)|))
  {
    if i < |Elements(t[n].kids)| { KidBelow(t, n, Elements(t[n].kids)[i]); }
  }

  // ---------------------------------------------------------------- coherence

  /** What a cached layout at `d` promises about `d` and everything below it. */
  ghost predicate CoherentAt(s: DomState, engine: Engine, d: Node)
    requires Domains(s) && Forest(s.tree) && d in s.tree
  {
    s.box[d].Cached? ==>
      && s.box[d].layout == engine(Input(s.tree, s.style, d))
      && forall path :: ElementAt(s.tree, d, path) != null ==>
           var x := ElementAt(s.tree, d, path);
           x in s.box && s.box[x] == s.box[d] && x in s.slot && s.slot[x] == path
  }

  ghost predicate Coherent(s: DomState, engine: Engine)
    requires Domains(s) && Forest(s.tree)
  {
    forall d {:trigger CoherentAt(s, engine, d)} :: d in s.tree && d.nodeType == DOCUMENT ==> CoherentAt(s, engine, d)
  }

  lemma {:induction false} ElementBelow(t: Tree, n: Node, path: seq<nat>)
    requires Forest(t) && n in t && ElementAt(t, n, path) != null
    ensures ElementAt(t, n, path) in t && Ancestor(t, n, ElementAt(t, n, path))
    decreases |path|
  {
    AncestorRefl(t, n);
    if path != [] {
      var k := Elements(t[n].kids)[path[0]];
      ElementBelow(t, k, path[1..]);
      KidInSubtree(t, n, n, k);
      AncestorTrans(t, n, k, ElementAt(t, n, path));
    }
  }

  /** Nothing relevant to a layout changes on the nodes from `n` down. */
  ghost predicate SameFrom(s: DomState, s': DomState, n: Node) {
    && Domains(s) && Domains(s') && s.tree.Keys <= s'.tree.Keys && n in s.tree
    && forall x :: x in s.tree && Ancestor(s.tree, n, x) ==>
         s'.tree[x].kids == s.tree[x].kids && s'.style[x] == s.style[x] && s'.box[x] == s.box[x] && s'.slot[x] == s.slot[x]
  }

  lemma SameFromKid(s: DomState, s': DomState, n: Node, k: Node)
    requires Forest(s.tree) && SameFrom(s, s', n) && k in s.tree[n].kids
    ensures SameFrom(s, s', k)
  {
    AncestorRefl(s.tree, n);
    KidInSubtree(s.tree, n, n, k);
    forall x | x in s.tree && Ancestor(s.tree, k, x) ensures Ancestor(s.tree, n, x) {
      AncestorTrans(s.tree, n, k, x);
    }
  }

  lemma SameHere(s: DomState, s': DomState, n: Node)
    requires Forest(s.tree) && SameFrom(s, s', n)
    ensures n in s.tree && n in s'.tree && s'.tree[n].kids == s.tree[n].kids
  {
    AncestorRefl(s.tree, n);
  }

  lemma {:induction false} SameElements(s: DomState, s': DomState, n: Node, path: seq<nat>)
    requires Forest(s.tree) && SameFrom(s, s', n)
    ensures ElementAt(s'.tree, n, path) == ElementAt(s.tree, n, path)
    decreases |path|
  {
    SameHere(s, s', n);
    hide Forest, SameFrom, Ancestor, Elements;
    if path != [] {
      var kids := Elements(s.tree[n].kids);
      if path[0] < |kids| {
        SameFromKid(s, s', n, kids[path[0]]);
        SameElements(s, s', kids[path[0]], path[1..]);
      }
    }
  }

  lemma {:induction false} SameInput(s: DomState, s': DomState, n: Node)
    requires Forest(s.tree) && Forest(s'.tree) && SameFrom(s, s', n)
    ensures Input(s'.tree, s'.style, n) == Input(s.tree, s.style, n)
    decreases Below(s.tree, n), 1
  {
    AncestorRefl(s.tree, n);
    SameInputKids(s, s', n, |Elements(s.tree[n].kids)|);
  }

  lemma {:induction false} SameInputKids(s: DomState, s': DomState, n: Node, i: nat)
    requires Forest(s.tree) && Forest(s'.tree) && SameFrom(s, s', n)
    requires s'.tree[n].kids == s.tree[n].kids && i <= |Elements(s.tree[n].kids)|
    ensures InputKids(s'.tree, s'.style, n, i) == InputKids(s.tree, s.style, n, i)
    decreases Below(s.tree, n), 0, i
  {
    hide Forest, Elements;
    if i > 0 {
      var k := Elements(s.tree[n].kids)[i - 1];
      KidBelow(s.tree, n, k);
      SameFromKid(s, s', n, k);
      SameInput(s, s', k);
      SameInputKids(s, s', n, i - 1);
    }
  }

  /** A document whose tree, styles and cache entries are untouched stays coherent. */
  lemma SameIsCoherent(s: DomState, s': DomState, engine: Engine, d: Node)
    requires Forest(s.tree) && Forest(s'.tree) && SameFrom(s, s', d) && CoherentAt(s, engine, d)
    ensures CoherentAt(s', engine, d)
  {
    AncestorRefl(s.tree, d);
    SameInput(s, s', d);
    forall path | ElementAt(s'.tree, d, path) != null
      ensures ElementAt(s'.tree, d, path) == ElementAt(s.tree, d, path)
      ensures ElementAt(s.tree, d, path) in s.tree && Ancestor(s.tree, d, ElementAt(s.tree, d, path))
    {
      SameElements(s, s', d, path);
      ElementBelow(s.tree, d, path);
    }
  }

  // ---------------------------------------------------------------- mutations clear what they change

  /** Child lists and styles may differ at the nodes of `P` only. */
  ghost predicate KeepsContents(t: Tree, t': Tree, style: map<Node, Style>, style': map<Node, Style>, P: set<Node>) {
    && t.Keys <= t'.Keys && t.Keys == style.Keys && t'.Keys == style'.Keys
    && forall n :: n in t && n !in P ==> t'[n].kids == t[n].kids && style'[n] == style[n]
  }

  /** The layout roots of the nodes of `P` have lost their cached layout, and only
      roots have. */
  ghost predicate ClearsRoots(t: Tree, owner: Owners, box: map<Node, Cache>, box': map<Node, Cache>, P: set<Node>) {
    && t.Keys == owner.Keys == box.Keys && box.Keys <= box'.Keys && P <= t.Keys && Acyclic(t)
    && (forall n :: n in box ==> box'[n] == box[n] || (box'[n] == NoCache && t[n].parent == null))
    && (forall p :: p in P ==> LayoutRoot(t, owner, p) in box' && box'[LayoutRoot(t, owner, p)] == NoCache)
    && (forall n :: n in box' && n !in box ==> box'[n] == NoCache)
  }

  ghost predicate KeepsSlots(slot: map<Node, seq<nat>>, slot': map<Node, seq<nat>>) {
    slot.Keys <= slot'.Keys && forall n :: n in slot ==> slot'[n] == slot[n]
  }

  ghost predicate ClearsChanges(s: DomState, s': DomState, P: set<Node>) {
    && KeepsContents(s.tree, s'.tree, s.style, s'.style, P)
    && ClearsRoots(s.tree, s.owner, s.box, s'.box, P)
    && KeepsSlots(s.slot, s'.slot)
  }

  /** The layout root of a connected node is its document. */
  lemma RootOfConnected(s: DomState, d: Node, x: Node)
    requires Inv(s) && d in s.tree && d.nodeType == DOCUMENT && x in s.tree && Ancestor(s.tree, d, x)
    ensures LayoutRoot(s.tree, s.owner, x) == d
    ensures x != d ==> s.tree[x].parent != null
  {
    if x != d { OwnerOfConnected(s, d, x); }
  }

  /** Every change clears the root's layout, so whatever is still cached is right. */
  lemma ClearedIsCoherent(s: DomState, s': DomState, engine: Engine, P: set<Node>)
    requires Inv(s) && Inv(s') && Coherent(s, engine) && ClearsChanges(s, s', P)
    ensures Coherent(s', engine)
  {
    hide Inv, Domains, Forest, CoherentAt, ClearsChanges;
    InvForest(s);
    InvForest(s');
    DomainsOfInv(s);
    DomainsOfInv(s');
    forall d | d in s'.tree && d.nodeType == DOCUMENT ensures CoherentAt(s', engine, d) {
      if d in s.tree { assert CoherentAt(s, engine, d); }
      ClearedAt(s, s', engine, P, d);
    }
  }

  lemma ClearedAt(s: DomState, s': DomState, engine: Engine, P: set<Node>, d: Node)
    requires Inv(s) && Inv(s') && ClearsChanges(s, s', P) && d in s'.tree && d.nodeType == DOCUMENT
    requires d in s.tree ==> CoherentAt(s, engine, d)
    ensures CoherentAt(s', engine, d)
  {
    hide OwnershipExact, RegistryExact, OwnersAreLive;
    if d in s.tree && s'.box[d].Cached? {
      forall x | x in s.tree && Ancestor(s.tree, d, x) ensures x !in P && s'.box[x] == s.box[x] {
        RootOfConnected(s, d, x);
      }
      SameIsCoherent(s, s', engine, d);
    }
  }

  lemma RootIsParentless(t: Tree, owner: Owners, n: Node)
    requires Forest(t) && n in t && t.Keys == owner.Keys && OwnersAreDocuments(owner)
    ensures var r := LayoutRoot(t, owner, n); r in t && t[r].parent == null
  {
    TopInTree(t, n);
    var r := LayoutRoot(t, owner, n);
    if r.nodeType == DOCUMENT { DocumentsAndFragmentsAreRoots(t, r); }
  }

  lemma ClearsOne(t: Tree, owner: Owners, box: map<Node, Cache>, n: Node)
    requires Forest(t) && n in t && t.Keys == owner.Keys == box.Keys && OwnersAreDocuments(owner)
    ensures ClearsRoots(t, owner, box, box[LayoutRoot(t, owner, n) := NoCache], {n})
  {
    RootIsParentless(t, owner, n);
  }

  lemma ClearsNone(t: Tree, owner: Owners, box: map<Node, Cache>)
    requires Acyclic(t) && t.Keys == owner.Keys == box.Keys
    ensures ClearsRoots(t, owner, box, box, {})
  {
  }

  lemma GroundedAt(t: Tree, p: Node, q: Node)
    requires Forest(t) && p in t && q in t
    ensures Acyclic(t) && Grounded(t, p) && Grounded(t, q)
  {
  }

  lemma ClearsTwo(t: Tree, owner: Owners, box: map<Node, Cache>, p: Node, q: Node)
    requires Forest(t) && p in t && q in t && t.Keys == owner.Keys == box.Keys && OwnersAreDocuments(owner)
    ensures ClearsRoots(t, owner, box, box[LayoutRoot(t, owner, q) := NoCache][LayoutRoot(t, owner, p) := NoCache], {p, q})
  {
    hide Forest, LayoutRoot, OwnersAreDocuments, Acyclic;
    GroundedAt(t, p, q);
    RootIsParentless(t, owner, p);
    RootIsParentless(t, owner, q);
  }

  ghost function Touched(t: Tree, p: Node, c: Node): set<Node>
    requires c in t
  {
    if t[c].parent == null then {p} else {p, t[c].parent}
  }

  lemma MoveKeepsContents(t: Tree, style: map<Node, Style>, p: Node, c: Node, i: nat)
    requires Forest(t) && Fits(t, p, c) && i <= |Without(t[p].kids, c)| && style.Keys == t.Keys
    ensures KeepsContents(t, MoveTree(t, p, c, i), style, style, Touched(t, p, c))
  {
    MoveFacts(t, p, c, i);
  }

  lemma MoveClearsRoots(s: DomState, p: Node, c: Node)
    requires Inv(s) && p in s.tree && c in s.tree
    ensures ClearsRoots(s.tree, s.owner, s.box, MoveBoxes(s, p, c), Touched(s.tree, p, c))
  {
    if s.tree[c].parent == null { ClearsOne(s.tree, s.owner, s.box, p); }
    else { ClearsTwo(s.tree, s.owner, s.box, p, s.tree[c].parent); }
  }

  /** Every insertion of one node keeps all cached layouts right. */
  lemma PlaceIsCoherent(s: DomState, engine: Engine, p: Node, c: Node, i: nat)
    requires Inv(s) && Fits(s.tree, p, c) && i <= |Without(s.tree[p].kids, c)| && Coherent(s, engine)
    ensures Inv(Place(s, p, c, i)) && Coherent(Place(s, p, c, i), engine)
  {
    MoveKeepsContents(s.tree, s.style, p, c, i);
    MoveClearsRoots(s, p, c);
    PlaceKeepsInv(s, p, c, i);
    PlaceClears(s, p, c, i);
    ClearedIsCoherent(s, Place(s, p, c, i), engine, Touched(s.tree, p, c));
  }

  lemma PlaceClears(s: DomState, p: Node, c: Node, i: nat)
    requires Domains(s) && Forest(s.tree) && Fits(s.tree, p, c) && i <= |Without(s.tree[p].kids, c)|
    requires KeepsContents(s.tree, MoveTree(s.tree, p, c, i), s.style, s.style, Touched(s.tree, p, c))
    requires ClearsRoots(s.tree, s.owner, s.box, MoveBoxes(s, p, c), Touched(s.tree, p, c))
    ensures ClearsChanges(s, Place(s, p, c, i), Touched(s.tree, p, c))
  {
    hide KeepsContents, ClearsRoots, MoveTree, MoveBoxes, Domains, Forest, Fits, Touched;
  }

  lemma AppendOneIsCoherent(s: DomState, engine: Engine, p: Node, c: Node)
    requires Inv(s) && p in s.tree && c in s.tree && c.nodeType != FRAGMENT && Coherent(s, engine)
    ensures Coherent(AppendOne(s, p, c).0, engine)
  {
    if p != c && ValidInsertion(s.tree, p, c) && !Ancestor(s.tree, c, p) {
      ValidFits(s.tree, p, c);
      PlaceIsCoherent(s, engine, p, c, |Without(s.tree[p].kids, c)|);
    }
  }

  lemma InsertOneIsCoherent(s: DomState, engine: Engine, p: Node, c: Node, b: Node)
    requires Inv(s) && p in s.tree && c in s.tree && c.nodeType != FRAGMENT && Coherent(s, engine)
    ensures Coherent(InsertOne(s, p, c, b).0, engine)
  {
    if b in s.tree[p].kids && p != c && ValidInsertion(s.tree, p, c) && !Ancestor(s.tree, c, p) {
      ValidFits(s.tree, p, c);
      InsertIndexFits(s.tree[p].kids, c, b);
      PlaceIsCoherent(s, engine, p, c, IndexOf(s.tree[p].kids, b));
    }
  }

  lemma {:induction false} AppendAllIsCoherent(s: DomState, engine: Engine, p: Node, cs: seq<Node>)
    requires Inv(s) && p in s.tree && Coherent(s, engine)
    requires forall c :: c in cs ==> c in s.tree && c.nodeType != FRAGMENT
    ensures Coherent(AppendAll(s, p, cs).0, engine)
    decreases |cs|
  {
    hide Inv, Coherent, AppendOne, Forest;
    if cs != [] {
      AppendOneIsCoherent(s, engine, p, cs[0]);
      var (s1, o) := AppendOne(s, p, cs[0]);
      if o == Done { AppendAllIsCoherent(s1, engine, p, cs[1..]); }
    }
  }

  lemma {:induction false} InsertAllIsCoherent(s: DomState, engine: Engine, p: Node, cs: seq<Node>, b: Node)
    requires Inv(s) && p in s.tree && Coherent(s, engine)
    requires forall c :: c in cs ==> c in s.tree && c.nodeType != FRAGMENT
    ensures Coherent(InsertAll(s, p, cs, b).0, engine)
    decreases |cs|
  {
    hide Inv, Coherent, InsertOne, Forest;
    if cs != [] {
      InsertOneIsCoherent(s, engine, p, cs[0], b);
      var (s1, o) := InsertOne(s, p, cs[0], b);
      if o == Done { InsertAllIsCoherent(s1, engine, p, cs[1..], b); }
    }
  }

  /** `appendChild`, also when it throws half way through a fragment. */
  lemma AppendIsCoherent(s: DomState, engine: Engine, p: Node, c: Node)
    requires Inv(s) && p in s.tree && c in s.tree && Coherent(s, engine)
    ensures Coherent(Append(s, p, c).0, engine)
  {
    AppendCases(s, p, c);
    if c.nodeType != FRAGMENT {
      AppendOneIsCoherent(s, engine, p, c);
    } else if p != c && ValidInsertion(s.tree, p, c) {
      AppendAllIsCoherent(s, engine, p, s.tree[c].kids);
    }
  }

  lemma InsertIsCoherent(s: DomState, engine: Engine, p: Node, c: Node, b: Node?)
    requires Inv(s) && p in s.tree && c in s.tree && Coherent(s, engine)
    ensures Coherent(Insert(s, p, c, b).0, engine)
  {
    if b == null {
      AppendIsCoherent(s, engine, p, c);
    } else {
      InsertCases(s, p, c, b);
      if c.nodeType != FRAGMENT {
        InsertOneIsCoherent(s, engine, p, c, b);
      } else if b in s.tree[p].kids && p != c && ValidInsertion(s.tree, p, c) && !Ancestor(s.tree, c, p) {
        InsertAllIsCoherent(s, engine, p, s.tree[c].kids, b);
      }
    }
  }

  /** A change of tree and styles at `P` that clears the layout roots of `P`. */
  lemma ChangeIsCoherent(s: DomState, s': DomState, engine: Engine, t': Tree, style': map<Node, Style>, box': map<Node, Cache>, P: set<Node>)
    requires Inv(s) && Inv(s') && Coherent(s, engine)
    requires s'.tree == t' && s'.style == style' && s'.box == box' && s'.slot == s.slot
    requires KeepsContents(s.tree, t', s.style, style', P) && ClearsRoots(s.tree, s.owner, s.box, box', P)
    ensures Coherent(s', engine)
  {
    ClearedIsCoherent(s, s', engine, P);
  }

  lemma RemoveIsCoherent(s: DomState, engine: Engine, p: Node, c: Node)
    requires Inv(s) && p in s.tree && c in s.tree && Coherent(s, engine)
    ensures Coherent(Remove(s, p, c).0, engine)
  {
    if c in s.tree[p].kids {
      var s', t' := Remove(s, p, c).0, Detach(s.tree, c);
      DetachFacts(s.tree, c);
      OldParentKeepsRoot(s.tree, s.owner, c);
      ClearsOne(s.tree, s.owner, s.box, p);
      ChangeIsCoherent(s, s', engine, t', s.style, s.box[LayoutRoot(s.tree, s.owner, p) := NoCache], {p});
    }
  }

  lemma DropKidsKeepsContents(t: Tree, style: map<Node, Style>, n: Node)
    requires Forest(t) && n in t && style.Keys == t.Keys
    ensures KeepsContents(t, DropKids(t, n), style, style, {n})
  {
  }

  lemma SetTextIsCoherent(s: DomState, engine: Engine, n: Node, value: string)
    requires Inv(s) && n in s.tree && Coherent(s, engine)
    ensures Coherent(SetText(s, n, value), engine)
  {
    SetTextCases(s, n, value);
    if n.nodeType == ELEMENT || n.nodeType == DOCUMENT {
      DroppedKeepsRoot(s, n);
      ClearsOne(s.tree, s.owner, s.box, n);
      DropKidsKeepsContents(s.tree, s.style, n);
      ChangeIsCoherent(s, SetText(s, n, value), engine, DropKids(s.tree, n), s.style,
                       s.box[LayoutRoot(s.tree, s.owner, n) := NoCache], {n});
    } else {
      ClearsNone(s.tree, s.owner, s.box);
      ChangeIsCoherent(s, SetText(s, n, value), engine, s.tree, s.style, s.box, {});
    }
  }

  lemma {:induction false} TopSurvivesDrop(t: Tree, n: Node, x: Node)
    requires Forest(t) && n in t && x in t && Ancestor(t, x, n) && Acyclic(DropKids(t, n))
    ensures Grounded(DropKids(t, n), x) && Top(DropKids(t, n), x) == Top(t, x)
    decreases Depth(t, x)
  {
    var t' := DropKids(t, n);
    DepthParent(t, x);
    DepthParent(t', x);
    if t[x].parent == n {
      assert x in t[n].kids;
      KidNotAbove(t, n, x);
    }
    if t[x].parent != null {
      AncestorRefl(t, t[x].parent);
      AncestorStep(t, t[x].parent, x);
      AncestorTrans(t, t[x].parent, x, n);
      TopSurvivesDrop(t, n, t[x].parent);
    }
  }

  lemma DroppedKeepsRoot(s: DomState, n: Node)
    requires Inv(s) && n in s.tree
    ensures Grounded(DropKids(s.tree, n), n)
    ensures LayoutRoot(DropKids(s.tree, n), s.owner, n) == LayoutRoot(s.tree, s.owner, n)
  {
    DropKidsKeepsForest(s.tree, n);
    AncestorRefl(s.tree, n);
    TopSurvivesDrop(s.tree, n, n);
  }

  lemma RestyleIsCoherent(s: DomState, engine: Engine, n: Node, style: Style)
    requires Inv(s) && n in s.tree && Coherent(s, engine)
    ensures Coherent(RestyleAndMark(s, n, style), engine)
  {
    hide Coherent, ClearsRoots, KeepsContents, RestyleAndMark;
    RestyleParts(s, n, style);
    hide Inv;
    OneRestyled(s.tree, s.style, n, style);
    ClearsOne(s.tree, s.owner, s.box, n);
    ChangeIsCoherent(s, RestyleAndMark(s, n, style), engine, s.tree, s.style[n := style],
                     s.box[LayoutRoot(s.tree, s.owner, n) := NoCache], {n});
  }

  lemma RestyleParts(s: DomState, n: Node, style: Style)
    requires Inv(s) && n in s.tree
    ensures Forest(s.tree) && OwnersAreDocuments(s.owner) && Domains(s)
    ensures var s' := RestyleAndMark(s, n, style);
      && s'.tree == s.tree && s'.style == s.style[n := style] && s'.slot == s.slot
      && s'.box == s.box[LayoutRoot(s.tree, s.owner, n) := NoCache]
  {
  }

  lemma OneRestyled(t: Tree, style: map<Node, Style>, n: Node, own: Style)
    requires t.Keys == style.Keys && n in t
    ensures KeepsContents(t, t, style, style[n := own], {n})
  {
  }

  lemma SetStyleIsCoherent(s: DomState, engine: Engine, n: Node, name: string, value: string)
    requires Inv(s) && n in s.tree && Coherent(s, engine)
    ensures Coherent(SetStyle(s, n, name, value), engine)
  {
    hide Inv, Coherent, RestyleAndMark;
    StyleKeys(s);
    RestyleIsCoherent(s, engine, n, StyledWith(s.style[n], name, value));
  }

  lemma StyleKeys(s: DomState)
    requires Inv(s)
    ensures s.style.Keys == s.tree.Keys
  {
  }

  lemma FreshIsCoherent(s: DomState, engine: Engine, n: Node, d: Node?, text: string)
    requires Inv(s) && n !in s.tree && Inv(Fresh(s, n, d, text)) && Coherent(s, engine)
    ensures Coherent(Fresh(s, n, d, text), engine)
  {
    hide Coherent, ClearsRoots, KeepsContents, KeepsSlots;
    ClearsFresh(s.tree, s.owner, s.box, n);
    FreshContents(s.tree, s.style, s.slot, n);
    ClearedIsCoherent(s, Fresh(s, n, d, text), engine, {});
  }

  lemma FreshContents(t: Tree, style: map<Node, Style>, slot: map<Node, seq<nat>>, n: Node)
    requires t.Keys == style.Keys == slot.Keys && n !in t
    ensures KeepsContents(t, t[n := Links(null, [])], style, style[n := map[]], {})
    ensures KeepsSlots(slot, slot[n := []])
  {
  }

  lemma ClearsFresh(t: Tree, owner: Owners, box: map<Node, Cache>, n: Node)
    requires Acyclic(t) && t.Keys == owner.Keys == box.Keys && n !in t
    ensures ClearsRoots(t, owner, box, box[n := NoCache], {})
  {
  }

  lemma RegisteredIsCoherent(s: DomState, engine: Engine, d: Node, task: string)
    requires Inv(s) && d in s.tree && d.nodeType == DOCUMENT && Coherent(s, engine)
    ensures Inv(EnsureRegistered(s, d, task)) && Coherent(EnsureRegistered(s, d, task), engine)
  {
    EnsureRegisteredKeeps(s, d, task);
    ClearsNone(s.tree, s.owner, s.box);
    ChangeIsCoherent(s, EnsureRegistered(s, d, task), engine, s.tree, s.style, s.box, {});
  }

  lemma DrainIsCoherent(s: DomState, engine: Engine)
    requires Inv(s) && Inv(s.(reg := Drained(s.reg))) && Coherent(s, engine)
    ensures Coherent(s.(reg := Drained(s.reg)), engine)
  {
    forall d | d in s.tree && d.nodeType == DOCUMENT ensures CoherentAt(s.(reg := Drained(s.reg)), engine, d) {
      assert CoherentAt(s, engine, d);
    }
  }

  lemma EnrolIsCoherent(s: DomState, engine: Engine, n: Node, d: Node)
    requires Inv(s) && d in s.owned && Inv(Enrol(s, n, d)) && Coherent(s, engine)
    ensures Coherent(Enrol(s, n, d), engine)
  {
    ClearsNone(s.tree, s.owner, s.box);
    ChangeIsCoherent(s, Enrol(s, n, d), engine, s.tree, s.style, s.box, {});
  }

  lemma CreateElementIsCoherent(s: DomState, engine: Engine, n: Node, d: Node?)
    requires Inv(s) && n !in s.tree && n.nodeType == ELEMENT && Coherent(s, engine)
    requires d != null ==> d in s.tree && d.nodeType == DOCUMENT
    ensures Inv(CreateElement(s, n, d)) && Coherent(CreateElement(s, n, d), engine)
  {
    hide Inv, Coherent, EnsureRegistered, Enrol;
    CreateElementKeepsInv(s, n, d);
    var s1 := Fresh(s, n, null, "");
    FreshIsCoherent(s, engine, n, null, "");
    if d != null {
      RegisteredIsCoherent(s1, engine, d, "");
      RegisteredHasOwned(s1, d);
      EnrolIsCoherent(EnsureRegistered(s1, d, ""), engine, n, d);
    }
  }

  lemma RegisteredHasOwned(s: DomState, d: Node)
    requires Inv(s) && d in s.tree
    ensures d in EnsureRegistered(s, d, "").owned
  {
  }

  // ---------------------------------------------------------------- release and the cache

  /** A release leaves every other document's layout coherent. */
  lemma ReleaseKeepsOthersCoherent(s: DomState, engine: Engine, D: set<Node>, e: Node)
    requires Inv(s) && LiveDocs(s, D) && !Loaded(s, D) && Inv(Release(s, D))
    requires e in s.tree && e.nodeType == DOCUMENT && e !in D && CoherentAt(s, engine, e)
    ensures CoherentAt(Release(s, D), engine, e)
  {
    var s' := Release(s, D);
    forall x | x in s.tree && Ancestor(s.tree, e, x)
      ensures s'.tree[x].kids == s.tree[x].kids && s'.style[x] == s.style[x]
    {
      ReleaseLeavesOthers(s, D, e, x);
    }
    SameIsCoherent(s, s', engine, e);
  }

  /** The released document itself keeps its cached layout, so it stays coherent only
      if that happens to be the layout of the emptied document. */
  lemma ReleasedCoherentIff(s: DomState, engine: Engine, d: Node)
    requires Inv(s) && LiveDocs(s, {d}) && !Loaded(s, {d}) && Inv(Release(s, {d})) && CoherentAt(s, engine, d)
    ensures CoherentAt(Release(s, {d}), engine, d) <==>
      (s.box[d].Cached? ==> s.box[d].layout == engine(StyleTree(s.style[d], [])))
  {
    hide Inv, LiveDocs, Loaded, Release, Forest;
    ReleasedRecord(s, d);
    InvForest(Release(s, {d}));
    assert ElementAt(s.tree, d, []) == d;
    EmptyCoherent(Release(s, {d}), engine, d);
  }

  /** Coherence of a document without children. */
  lemma EmptyCoherent(s: DomState, engine: Engine, d: Node)
    requires Domains(s) && Forest(s.tree) && d in s.tree && s.tree[d] == Links(null, [])
    ensures CoherentAt(s, engine, d) <==>
      (s.box[d].Cached? ==> s.box[d].layout == engine(StyleTree(s.style[d], [])) && s.slot[d] == [])
  {
    assert Input(s.tree, s.style, d) == StyleTree(s.style[d], []);
    assert ElementAt(s.tree, d, []) == d;
    assert Elements(s.tree[d].kids) == [];
    forall path | ElementAt(s.tree, d, path) != null ensures path == [] {}
  }

  lemma ReleasedRecord(s: DomState, d: Node)
    requires Inv(s) && LiveDocs(s, {d})
    ensures Domains(s) && Forest(s.tree) && d in s.tree
    ensures var s' := Release(s, {d});
      && Domains(s') && s'.tree[d] == Links(null, []) && s'.style[d] == s.style[d]
      && s'.box == s.box && s'.slot == s.slot
  {
  }

  // ---------------------------------------------------------------- computing and mapping a layout

  /** The caches after `mapDOMToDoD` of `layout` from `n` (at `prefix`) down. */
  ghost predicate Mapped(t: Tree, n: Node, prefix: seq<nat>, layout: LayoutTree,
                         box: map<Node, Cache>, slot: map<Node, seq<nat>>,
                         box': map<Node, Cache>, slot': map<Node, seq<nat>>) {
    && box.Keys == slot.Keys == box'.Keys == slot'.Keys == t.Keys
    && (forall path :: ElementAt(t, n, path) != null ==>
         var x := ElementAt(t, n, path);
         x in box' && box'[x] == Cached(layout) && slot'[x] == prefix + path)
    && (forall x :: x in t && !Ancestor(t, n, x) ==> box'[x] == box[x] && slot'[x] == slot[x])
  }

  /** The caches when the first `i` element children of `n` have been mapped too. */
  ghost predicate MappedKids(t: Tree, n: Node, prefix: seq<nat>, layout: LayoutTree, i: nat,
                             box: map<Node, Cache>, slot: map<Node, seq<nat>>,
                             box': map<Node, Cache>, slot': map<Node, seq<nat>>)
    requires n in t
  {
    && box.Keys == slot.Keys == box'.Keys == slot'.Keys == t.Keys
    && box'[n] == Cached(layout) && slot'[n] == prefix
    && (forall path :: path != [] && path[0] < i && ElementAt(t, n, path) != null ==>
         var x := ElementAt(t, n, path);
         x in box' && box'[x] == Cached(layout) && slot'[x] == prefix + path)
    && (forall x :: x in t && !Ancestor(t, n, x) ==> box'[x] == box[x] && slot'[x] == slot[x])
  }

  lemma NoKidMapped(t: Tree, n: Node, prefix: seq<nat>, layout: LayoutTree, box: map<Node, Cache>, slot: map<Node, seq<nat>>)
    requires n in t && box.Keys == slot.Keys == t.Keys
    ensures MappedKids(t, n, prefix, layout, 0, box, slot, box[n := Cached(layout)], slot[n := prefix])
  {
    AncestorRefl(t, n);
  }

  lemma AllKidsMapped(t: Tree, n: Node, prefix: seq<nat>, layout: LayoutTree,
                      box: map<Node, Cache>, slot: map<Node, seq<nat>>,
                      box': map<Node, Cache>, slot': map<Node, seq<nat>>)
    requires n in t && MappedKids(t, n, prefix, layout, |Elements(t[n].kids)|, box, slot, box', slot')
    ensures Mapped(t, n, prefix, layout, box, slot, box', slot')
  {
    assert prefix + [] == prefix;
  }

  /** An element below an earlier child is not below a later one. */
  lemma EarlierKidApart(t: Tree, n: Node, i: nat, path: seq<nat>)
    requires Forest(t) && n in t && i < |Elements(t[n].kids)|
    requires path != [] && path[0] < i && ElementAt(t, n, path) != null
    ensures ElementAt(t, n, path) in t && !Ancestor(t, Elements(t[n].kids)[i], ElementAt(t, n, path))
  {
    var kids, x := Elements(t[n].kids), ElementAt(t, n, path);
    ElementBelow(t, kids[path[0]], path[1..]);
    ElementsDistinct(t[n].kids);
    SiblingsApart(t, kids[path[0]], kids[i], x);
  }

  /** Mapping the next child leaves the earlier ones alone. */
  lemma OneKidMapped(t: Tree, n: Node, prefix: seq<nat>, layout: LayoutTree, i: nat,
                     box: map<Node, Cache>, slot: map<Node, seq<nat>>,
                     box1: map<Node, Cache>, slot1: map<Node, seq<nat>>,
                     box2: map<Node, Cache>, slot2: map<Node, seq<nat>>)
    requires Forest(t) && n in t && i < |Elements(t[n].kids)|
    requires MappedKids(t, n, prefix, layout, i, box, slot, box1, slot1)
    requires Mapped(t, Elements(t[n].kids)[i], prefix + [i], layout, box1, slot1, box2, slot2)
    ensures MappedKids(t, n, prefix, layout, i + 1, box, slot, box2, slot2)
  {
    hide Forest, Elements, Ancestor;
    var k := Elements(t[n].kids)[i];
    KidNotAbove(t, n, k);
    forall path | path != [] && path[0] < i + 1 && ElementAt(t, n, path) != null
      ensures ElementAt(t, n, path) in box2 && box2[ElementAt(t, n, path)] == Cached(layout)
      ensures slot2[ElementAt(t, n, path)] == prefix + path
    {
      if path[0] == i {
        assert ElementAt(t, n, path) == ElementAt(t, k, path[1..]);
        assert prefix + [i] + path[1..] == prefix + path;
      } else {
        EarlierKidApart(t, n, i, path);
      }
    }
    forall x | x in t && !Ancestor(t, n, x) ensures !Ancestor(t, k, x) {
      AncestorOfKidUp(t, n, k, x);
    }
  }

  lemma AncestorOfKidUp(t: Tree, n: Node, k: Node, x: Node)
    requires Forest(t) && n in t && k in t[n].kids && !Ancestor(t, n, x)
    ensures !Ancestor(t, k, x)
  {
    if Ancestor(t, k, x) {
      AncestorRefl(t, n);
      AncestorStep(t, n, k);
      AncestorTrans(t, n, k, x);
    }
  }

  lemma {:induction false} ElementsDistinct(kids: seq<Node>)
    requires Distinct(kids)
    ensures Distinct(Elements(kids))
  {
    if kids != [] {
      ElementsDistinct(kids[..|kids| - 1]);
    }
  }

  /** The state after a layout has been computed at the root `r` and mapped below it. */
  ghost predicate Laid(s: DomState, s': DomState, engine: Engine, r: Node)
    requires Domains(s) && Forest(s.tree) && r in s.tree
  {
    && s' == s.(box := s'.box, slot := s'.slot)
    && Mapped(s.tree, r, [], engine(Input(s.tree, s.style, r)), s.box, s.slot, s'.box, s'.slot)
  }

  lemma LaidKeepsInv(s: DomState, s': DomState, engine: Engine, r: Node)
    requires Inv(s) && r in s.tree && Laid(s, s', engine, r)
    ensures Inv(s')
  {
    InvFromParts(s');
  }

  /** Two roots share no node. */
  lemma RootsApart(t: Tree, d: Node, r: Node, x: Node)
    requires Forest(t) && d in t && r in t && x in t && d != r && t[d].parent == null && t[r].parent == null
    ensures !(Ancestor(t, d, x) && Ancestor(t, r, x))
  {
    if Ancestor(t, d, x) && Ancestor(t, r, x) {
      AncestorChain(t, d, r, x);
      AncestorStep(t, d, r);
      AncestorStep(t, r, d);
      AncestorOfNull(t, d);
      AncestorOfNull(t, r);
    }
  }

  /** Computing and mapping a layout makes its root coherent and leaves every other
      document coherent. */
  lemma LaidIsCoherent(s: DomState, s': DomState, engine: Engine, r: Node)
    requires Inv(s) && Coherent(s, engine) && r in s.tree && s.tree[r].parent == null && Laid(s, s', engine, r)
    ensures Inv(s') && Coherent(s', engine) && CoherentAt(s', engine, r) && s'.box[r].Cached?
  {
    LaidKeepsInv(s, s', engine, r);
    LaidAtRoot(s, s', engine, r);
    forall d | d in s'.tree && d.nodeType == DOCUMENT ensures CoherentAt(s', engine, d) {
      if d != r {
        DocumentsAndFragmentsAreRoots(s.tree, d);
        assert CoherentAt(s, engine, d);
        LaidElsewhere(s, s', engine, r, d);
        SameIsCoherent(s, s', engine, d);
      }
    }
  }

  lemma LaidAtRoot(s: DomState, s': DomState, engine: Engine, r: Node)
    requires Domains(s) && Domains(s') && Forest(s.tree) && r in s.tree && Laid(s, s', engine, r)
    ensures CoherentAt(s', engine, r) && s'.box[r].Cached?
  {
    assert ElementAt(s.tree, r, []) == r;
    forall path | ElementAt(s.tree, r, path) != null
      ensures s'.slot[ElementAt(s.tree, r, path)] == path && ElementAt(s.tree, r, path) in s'.box
    {
      assert [] + path == path;
    }
  }

  lemma LaidElsewhere(s: DomState, s': DomState, engine: Engine, r: Node, d: Node)
    requires Domains(s) && Domains(s') && Forest(s.tree) && r in s.tree && d in s.tree && d != r
    requires s.tree[r].parent == null && s.tree[d].parent == null && Laid(s, s', engine, r)
    ensures SameFrom(s, s', d)
  {
    forall x | x in s.tree && Ancestor(s.tree, d, x) ensures !Ancestor(s.tree, r, x) {
      RootsApart(s.tree, d, r, x);
    }
  }

  // ---------------------------------------------------------------- rectangles

  /** Padding and border widths taken from an inline style, summed per direction. */
  datatype Edges = Edges(horizontal: real, vertical: real)

  type EdgeReader = Style -> Edges

  function Max0(x: real): real {
    if x < 0.0 then 0.0 else x
  }

  const ZERO_RECT := Rect(0.0, 0.0, 0.0, 0.0)

  /** `getDoDLayoutRect` once the node's tree and id are known: the content box grown
      by padding and border, or the empty rectangle. */
  function RectOf(cache: Cache, id: seq<nat>, edges: Edges): Rect {
    if cache.NoCache? || id !in cache.layout.boxes then ZERO_RECT
    else
      var box := cache.layout.boxes[id];
      Rect(box.left, box.top, Max0(box.width + edges.horizontal), Max0(box.height + edges.vertical))
  }

  /** The rectangle of the element at `path` below `d`, computed from scratch. */
  ghost function FreshRect(s: DomState, engine: Engine, edges: EdgeReader, d: Node, path: seq<nat>): Rect
    requires Domains(s) && Forest(s.tree) && d in s.tree && ElementAt(s.tree, d, path) in s.style
  {
    RectOf(Cached(engine(Input(s.tree, s.style, d))), path, edges(s.style[ElementAt(s.tree, d, path)]))
  }

  /** Reading the cached entry of any element below a document gives the rectangle a
      fresh layout would give. */
  lemma CachedRectIsFresh(s: DomState, engine: Engine, edges: EdgeReader, d: Node, path: seq<nat>)
    requires Inv(s) && d in s.tree && ElementAt(s.tree, d, path) != null
    requires CoherentAt(s, engine, d) && s.box[d].Cached?
    ensures var x := ElementAt(s.tree, d, path);
      && x in s.box && x in s.slot && x in s.style
      && RectOf(s.box[x], s.slot[x], edges(s.style[x])) == FreshRect(s, engine, edges, d, path)
  {
  }
}
