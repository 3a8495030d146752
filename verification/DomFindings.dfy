/** Inputs on which the tree operations do not do what one would expect of them.  Every
    state is reached by a run from the empty one; the exact conditions are
    `InsertBeforePosition`, `AppendFailure`, `ReleaseForestIff` and `ReleasedCoherentIff`. */
module DomFindings {
  import opened DomNodes
  import opened DomForest
  import opened DomModel
  import opened DomRelease
  import opened DomInsertion
  import opened DomLayout
  import opened DomRuns
  import opened DomHistory
  import opened MarkupDom

  const EMPTY := DomState(map[], map[], map[],
    Registry(0, DEFAULT_TASK, map[], map[], map[], map[], map[], {}, 0, 0, 0),
    map[], map[], map[], map[])

  /** A state some run without releases leads to. */
  lemma Begin() returns (s: DomState, ops: seq<Op>)
    ensures s == EMPTY && History(EMPTY, s, ops) && Inv(s) && s.tree == map[]
  {
    s, ops := EMPTY, [];
    EmptyInv(EMPTY);
    NoHistory(EMPTY);
  }

  lemma Create(s: DomState, ops: seq<Op>, n: Node, d: Node?) returns (s': DomState, ops': seq<Op>)
    requires History(EMPTY, s, ops) && Inv(s) && n !in s.tree && (n.nodeType == ELEMENT || n.nodeType == DOCUMENT ==> d == null)
    requires d != null ==> d in s.tree && d.nodeType == DOCUMENT
    ensures s' == Fresh(s, n, d, "") && History(EMPTY, s', ops') && Inv(s')
    ensures s'.tree == s.tree[n := Links(null, [])] && s'.owner == s.owner[n := d]
    ensures forall e {:trigger Live(s.reg, e)} :: Live(s.reg, e) ==> Live(s'.reg, e)
  {
    hide Inv, LegalRun, Run;
    StaysLive(s, n, d);
    s', ops' := Fresh(s, n, d, ""), ops + [NewRecord(n, d, "")];
    FreshKeepsInv(s, n, d, "");
    RecordMade(s, n, d, "");
    InTurn(EMPTY, s, s', ops, [NewRecord(n, d, "")]);
  }

  lemma StaysLive(s: DomState, n: Node, d: Node?)
    requires Inv(s) && n !in s.tree
    ensures forall e {:trigger Live(s.reg, e)} :: Live(s.reg, e) ==> Live(Fresh(s, n, d, "").reg, e)
  {
    hide RegistryExact, Forest, OwnershipExact;
  }

  lemma Hang(s: DomState, ops: seq<Op>, p: Node, c: Node) returns (s': DomState, ops': seq<Op>)
    requires History(EMPTY, s, ops) && Inv(s) && p in s.tree && c in s.tree && s.tree[c].parent == null && s.tree[p].parent == null && p != c
    requires p.nodeType == ELEMENT || p.nodeType == FRAGMENT
    requires c.nodeType == ELEMENT
    ensures s' == Append(s, p, c).0 && History(EMPTY, s', ops') && Inv(s') && Hung(s.tree, s'.tree, p, c)
  {
    hide Inv, LegalRun, Run, Append, Hung, Ancestor;
    LooseUnder(s.tree, c, p);
    AppendsLoose(s, p, c);
    Appended(s, p, c);
    s', ops' := Append(s, p, c).0, ops + [AppendChild(p, c)];
    InTurn(EMPTY, s, s', ops, [AppendChild(p, c)]);
    HistoryKeeps(EMPTY, s', ops', (t: StyleTree) => LayoutTree(map[]));
  }

  // ---------------------------------------------------------------- insertBefore an earlier sibling

  /** Children `c, x, b`: `insertBefore(c, b)` puts `c` behind `b`. */
  lemma EarlierSiblingLandsBehind(p: Node, c: Node, x: Node, b: Node) returns (s: DomState, ops: seq<Op>)
    requires p != c && p != x && p != b && c != x && c != b && x != b
    requires p.nodeType == c.nodeType == x.nodeType == b.nodeType == ELEMENT
    ensures History(EMPTY, s, ops) && Inv(s) && p in s.tree && c in s.tree && s.tree[p].kids == [c, x, b]
    ensures var (s', o) := Insert(s, p, c, b); o == Done && p in s'.tree && s'.tree[p].kids == [x, b, c]
  {
    hide Inv, History, Fresh, Append, Insert, InsertOne, Ancestor;
    s, ops := Begin();
    s, ops := Create(s, ops, p, null);
    s, ops := Create(s, ops, c, null);
    s, ops := Create(s, ops, x, null);
    s, ops := Create(s, ops, b, null);
    s, ops := Hang(s, ops, p, c);
    s, ops := Hang(s, ops, p, x);
    s, ops := Hang(s, ops, p, b);
    assert s.tree[p].kids == [c, x, b];
    BehindTheLast(s, p, c, x, b);
  }

  lemma BehindTheLast(s: DomState, p: Node, c: Node, x: Node, b: Node)
    requires Inv(s) && p in s.tree && c in s.tree && s.tree[p] == Links(null, [c, x, b]) && p != c && c != x && c != b && x != b
    requires p.nodeType == ELEMENT && c.nodeType == ELEMENT
    ensures var (s', o) := Insert(s, p, c, b); o == Done && p in s'.tree && s'.tree[p].kids == [x, b, c]
  {
    hide Inv, Insert, InsertOne, Ancestor, IndexOf, Without, InsertAt;
    LooseUnder(s.tree, c, p);
    assert [c, x, b][2] == b;
    InsertIsAtomic(s, p, c, b);
    InsertIsOne(s, p, c, b);
    InsertOneKids(s, p, c, b);
    FirstOfThree(c, x, b);
  }

  lemma FirstOfThree(c: Node, x: Node, b: Node)
    requires c != x && c != b && x != b
    ensures IndexOf([c, x, b], b) == 2 <= |Without([c, x, b], c)|
    ensures InsertAt(Without([c, x, b], c), 2, c) == [x, b, c]
  {
    var kids := [c, x, b];
    assert kids[1..] == [x, b] && kids[1..][1..] == [b];
    assert Without(kids, c) == [x, b];
  }

  // ---------------------------------------------------------------- a fragment around the parent

  /** A fragment with the children `a, e` where `e` holds `p`: `p.appendChild` of the
      fragment throws after `a` has been moved. */
  lemma FailingAppendMoves(f: Node, a: Node, e: Node, p: Node) returns (s: DomState, ops: seq<Op>)
    requires f != a && f != e && f != p && a != e && a != p && e != p
    requires f.nodeType == FRAGMENT && a.nodeType == e.nodeType == p.nodeType == ELEMENT
    ensures History(EMPTY, s, ops) && Inv(s) && f in s.tree && p in s.tree && s.tree[f].kids == [a, e]
    ensures Append(s, p, f).1 == HierarchyRequestError && Append(s, p, f).0 != s
  {
    hide Inv, History, Fresh, Append, Ancestor;
    s, ops := Begin();
    s, ops := Create(s, ops, f, null);
    s, ops := Create(s, ops, a, null);
    s, ops := Create(s, ops, e, null);
    s, ops := Create(s, ops, p, null);
    s, ops := Hang(s, ops, e, p);
    s, ops := Hang(s, ops, f, a);
    s, ops := Hang(s, ops, f, e);
    assert s.tree[f].kids == [a, e];
    AroundParent(s, f, a, e, p);
  }

  lemma AroundParent(s: DomState, f: Node, a: Node, e: Node, p: Node)
    requires Inv(s) && f in s.tree && e in s.tree && a in s.tree && p in s.tree && a != p && f != p
    requires s.tree[f].kids == [a, e] && s.tree[p] == Links(e, []) && s.tree[e].parent == f && s.tree[a].kids == []
    requires f.nodeType == FRAGMENT && a.nodeType == e.nodeType == p.nodeType == ELEMENT
    ensures Append(s, p, f).1 == HierarchyRequestError && Append(s, p, f).0 != s
  {
    hide Inv, Append, Ancestor, HtmlCount;
    var t := s.tree;
    InvForest(s);
    AncestorRefl(t, f);
    AncestorStep(t, f, e);
    AncestorStep(t, f, p);
    FreshNotAbove(t, a, p);
    assert [a, e][0] == a && [a, e][1] == e;
    FragmentAroundParent(s, p, f);
  }

  // ---------------------------------------------------------------- releasing documents

  /** A live document `d` and a loose node made for it. */
  lemma LiveDocument(d: Node) returns (s: DomState, ops: seq<Op>)
    requires d.nodeType == DOCUMENT
    ensures History(EMPTY, s, ops) && Inv(s) && s.tree == map[d := Links(null, [])] && Live(s.reg, d) && s.style == map[d := map[]]
  {
    hide Inv, LegalRun, Run;
    s, ops := Begin();
    s, ops := Create(s, ops, d, null);
    var s1 := s;
    Registered(s1, d, "");
    EnsureRegisteredKeeps(s1, d, "");
    s := EnsureRegistered(s1, d, "");
    InTurn(EMPTY, s1, s, ops, [Register(d, "")]);
    ops := ops + [Register(d, "")];
  }

  /** A fragment of `d` that still holds a child: releasing `d` leaves the child under a
      fragment that no longer lists it. */
  lemma LoadedFragmentBreaksForest(d: Node, f: Node, a: Node) returns (s: DomState, ops: seq<Op>)
    requires d.nodeType == DOCUMENT && f.nodeType == FRAGMENT && a.nodeType == ELEMENT
    ensures History(EMPTY, s, ops) && Inv(s) && Domains(s) && LiveDocs(s, {d})
    ensures !Forest(Release(s, {d}).tree)
  {
    hide Inv, History, Append, Ancestor, Release, Forest, Fresh;
    s, ops := LiveDocument(d);
    s, ops := Create(s, ops, f, d);
    s, ops := Create(s, ops, a, null);
    var s1 := s;
    s, ops := Hang(s, ops, f, a);
    DomainsOfInv(s);
    OwnerStays(s1, f, a, d);
    assert s.tree[f].kids == [a];
    ReleaseForestIff(s, {d});
  }

  lemma OwnerStays(s: DomState, f: Node, a: Node, d: Node)
    requires Inv(s) && f in s.tree && a in s.tree && d in s.tree && d.nodeType == DOCUMENT && f.nodeType == FRAGMENT
    requires a.nodeType == ELEMENT && s.owner[f] == d && Live(s.reg, d) && s.tree[a] == Links(null, []) && s.tree[f].parent == null
    ensures var s' := Append(s, f, a).0; f in s'.owner && s'.owner[f] == d && Live(s'.reg, d)
  {
    hide Inv, Forest, Ancestor, Append, AppendOne, HtmlCount, Without;
    LooseUnder(s.tree, a, f);
    AncestorSelf(s.tree, f, a);
    AppendCases(s, f, a);
    InvForest(s);
    DomainsOfInv(s);
    PlacedOwner(s, f, a, d, |Without(s.tree[f].kids, a)|);
  }

  lemma PlacedOwner(s: DomState, f: Node, a: Node, d: Node, i: nat)
    requires Domains(s) && Forest(s.tree) && Fits(s.tree, f, a) && i <= |Without(s.tree[f].kids, a)|
    requires f in s.tree && f.nodeType == FRAGMENT && s.owner[f] == d && Live(s.reg, d) && f !in Subtree(s.tree, a)
    ensures var s' := Place(s, f, a, i); f in s'.owner && s'.owner[f] == d && Live(s'.reg, d)
  {
    hide Forest, MoveTree, MoveBoxes, Fits, Live, Without, Subtree;
  }

  /** An engine that makes a root as wide as it has children. */
  const COUNTING: Engine := (t: StyleTree) => LayoutTree(map[[] := Rect(0.0, 0.0, |t.kids| as real, 0.0)])

  /** A document with one element is laid out and then released: its cached layout still
      shows the element it no longer has. */
  lemma LayoutOutlivesRelease(d: Node, e: Node) returns (s: DomState, ops: seq<Op>, laid: DomState)
    requires d.nodeType == DOCUMENT && e.nodeType == ELEMENT
    ensures History(EMPTY, s, ops) && Inv(s) && Domains(s) && Forest(s.tree) && d in s.tree && Laid(s, laid, COUNTING, d)
    ensures Inv(laid) && Domains(laid) && Forest(laid.tree) && Coherent(laid, COUNTING) && LiveDocs(laid, {d})
    ensures var r := Release(laid, {d}); Inv(r) && Domains(r) && Forest(r.tree) && d in r.tree && !CoherentAt(r, COUNTING, d)
  {
    hide Inv, History, Coherent, CoherentAt, Laid, Release, Ancestor, LiveDocs, Loaded, Forest, Domains, Live;
    s, ops := OneChild(d, e);
    DomainsOfInv(s);
    InvForest(s);
    laid := LaidOut(s, d, e);
    DomainsOfInv(laid);
    InvForest(laid);
    ReleasedRecord(laid, d);
    ReleaseKeepsInv(laid, {d});
    ReleasedCoherentIff(laid, COUNTING, d);
    DomainsOfInv(Release(laid, {d}));
    InvForest(Release(laid, {d}));
    OneIsNotNone(laid.style[d], laid.style[e]);
  }

  lemma OneIsNotNone(a: Style, b: Style)
    ensures COUNTING(StyleTree(a, [StyleTree(b, [])])) != COUNTING(StyleTree(a, []))
  {
    assert COUNTING(StyleTree(a, [StyleTree(b, [])])).boxes[[]].width == 1.0;
    assert COUNTING(StyleTree(a, [])).boxes[[]].width == 0.0;
  }

  lemma OneChild(d: Node, e: Node) returns (s: DomState, ops: seq<Op>)
    requires d.nodeType == DOCUMENT && e.nodeType == ELEMENT
    ensures History(EMPTY, s, ops) && Inv(s) && Domains(s) && Forest(s.tree) && Coherent(s, COUNTING)
    ensures s.tree == map[d := Links(null, [e]), e := Links(d, [])] && Live(s.reg, d)
  {
    hide Inv, LegalRun, Run, Append, Coherent, Hung, Ancestor, Live, Fresh;
    s, ops := LiveDocument(d);
    s, ops := Create(s, ops, e, null);
    var s1 := s;
    AppendsToDocument(s1, d, e);
    Appended(s1, d, e);
    s := Append(s1, d, e).0;
    InTurn(EMPTY, s1, s, ops, [AppendChild(d, e)]);
    ops := ops + [AppendChild(d, e)];
    NothingCached();
    HistoryKeeps(EMPTY, s, ops, COUNTING);
    DomainsOfInv(s);
    InvForest(s);
  }

  lemma NothingCached()
    ensures Inv(EMPTY) && Domains(EMPTY) && Forest(EMPTY.tree) && Coherent(EMPTY, COUNTING)
  {
    EmptyInv(EMPTY);
  }

  lemma AppendsToDocument(s: DomState, d: Node, e: Node)
    requires Inv(s) && s.tree == map[d := Links(null, []), e := Links(null, [])] && d.nodeType == DOCUMENT && e.nodeType == ELEMENT
    requires Live(s.reg, d)
    ensures var s' := Append(s, d, e).0;
      s'.tree == map[d := Links(null, [e]), e := Links(d, [])] && Live(s'.reg, d)
  {
    hide Inv, Append, Ancestor, Forest, Live, MoveTree, MoveBoxes, Hung, RegisterDoc, AdoptOwner, AdoptOwned;
    InvForest(s);
    DomainsOfInv(s);
    LooseUnder(s.tree, e, d);
    AppendCases(s, d, e);
    assert Without([], e) == [];
    PlacedLast(s, d, e);
    HungAlone(s.tree, Place(s, d, e, 0).tree, d, e);
  }

  lemma HungAlone(t: Tree, t': Tree, d: Node, e: Node)
    requires Hung(t, t', d, e) && t == map[d := Links(null, []), e := Links(null, [])] && d != e
    ensures t' == map[d := Links(null, [e]), e := Links(d, [])]
  {
    assert t'.Keys == {d, e};
    assert t'[d] == Links(null, [e]) && t'[e] == Links(d, []);
  }

  lemma LaidOut(s: DomState, d: Node, e: Node) returns (laid: DomState)
    requires Inv(s) && Domains(s) && Forest(s.tree) && Coherent(s, COUNTING) && d.nodeType == DOCUMENT && e.nodeType == ELEMENT
    requires s.tree == map[d := Links(null, [e]), e := Links(d, [])] && Live(s.reg, d)
    ensures Laid(s, laid, COUNTING, d) && Inv(laid) && Domains(laid) && Forest(laid.tree) && Coherent(laid, COUNTING)
    ensures CoherentAt(laid, COUNTING, d) && LiveDocs(laid, {d}) && !Loaded(laid, {d})
    ensures laid.style == s.style && laid.box[d] == Cached(COUNTING(StyleTree(s.style[d], [StyleTree(s.style[e], [])])))
  {
    hide Inv, Coherent, CoherentAt, Forest, Input, Mapped, Live, Ancestor;
    OnlyChild(s, d, e);
    var layout := COUNTING(Input(s.tree, s.style, d));
    laid := s.(box := s.box[d := Cached(layout)][e := Cached(layout)], slot := s.slot[d := []][e := [0]]);
    OneChildMapped(s.tree, d, e, layout, s.box, s.slot);
    LaidIsCoherent(s, laid, COUNTING, d);
  }

  lemma OneChildMapped(t: Tree, d: Node, e: Node, layout: LayoutTree, box: map<Node, Cache>, slot: map<Node, seq<nat>>)
    requires t == map[d := Links(null, [e]), e := Links(d, [])] && Elements([e]) == [e] && Elements([]) == [] && d != e
    requires box.Keys == slot.Keys == t.Keys
    ensures Mapped(t, d, [], layout, box, slot, box[d := Cached(layout)][e := Cached(layout)], slot[d := []][e := [0]])
  {
    hide ElementAt, Elements, Ancestor;
    forall path | ElementAt(t, d, path) != null
      ensures path == [] || path == [0]
      ensures ElementAt(t, d, path) == if path == [] then d else e
    {
      OneChildPaths(t, d, e, path);
    }
    AncestorRefl(t, d);
    AncestorStep(t, d, e);
  }

  lemma OneChildPaths(t: Tree, d: Node, e: Node, path: seq<nat>)
    requires t == map[d := Links(null, [e]), e := Links(d, [])] && Elements([e]) == [e] && Elements([]) == [] && d != e
    ensures path == [] ==> ElementAt(t, d, path) == d
    ensures path == [0] ==> ElementAt(t, d, path) == e
    ensures path != [] && path != [0] ==> ElementAt(t, d, path) == null
  {
    if path != [] { assert path == [path[0]] + path[1..]; }
  }

  lemma OnlyChild(s: DomState, d: Node, e: Node)
    requires Domains(s) && Forest(s.tree) && d.nodeType == DOCUMENT && e.nodeType == ELEMENT
    requires s.tree == map[d := Links(null, [e]), e := Links(d, [])]
    ensures Elements([e]) == [e] && Elements([]) == []
    ensures Input(s.tree, s.style, d) == StyleTree(s.style[d], [StyleTree(s.style[e], [])])
  {
    hide Forest;
    assert Elements([e]) == [e] by { assert [e][..0] == []; }
    InputSteps(s.tree, s.style, d, 0);
    InputSteps(s.tree, s.style, d, 1);
    InputSteps(s.tree, s.style, e, 0);
  }
}
