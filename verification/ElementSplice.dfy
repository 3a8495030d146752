/** The multi-node insertions of `Element`, as values: what `after`, `before`,
    `append`, `prepend` and `replaceWith` do to the child lists. */
module ElementSplice {
  import opened DomNodes
  import opened DomForest
  import opened DomModel
  import opened DomInsertion
  import opened DomRuns
  import DomHistory

  /** One argument: a node that exists, or a string for which a text node is made. */
  datatype Item = Existing(node: Node) | NewText(node: Node, text: string)

  function Names(items: seq<Item>): (r: seq<Node>)
    ensures |r| == |items| && forall i :: 0 <= i < |r| ==> r[i] == items[i].node
  {
    if items == [] then [] else [items[0].node] + Names(items[1..])
  }

  /** Existing arguments have a record, new text nodes have none yet. */
  ghost predicate Known(t: Tree, items: seq<Item>) {
    && (forall i :: 0 <= i < |items| ==> Makeable(t, items[i]))
    && (forall i, j :: 0 <= i < j < |items| && items[j].NewText? ==> items[i].node != items[j].node)
  }

  // ---------------------------------------------------------------- new unattached nodes

  /** `t` with further nodes that hang nowhere. */
  ghost function Widen(t: Tree, extra: set<Node>): Tree {
    map n | n in t.Keys + extra :: if n in t then t[n] else Links(null, [])
  }

  function NewNodes(items: seq<Item>): set<Node> {
    set i | 0 <= i < |items| && items[i].NewText? :: items[i].node
  }

  lemma {:induction false} UpWiden(t: Tree, extra: set<Node>, n: Node?, k: nat)
    requires Closed(t) && (n == null || n in t)
    ensures Up(Widen(t, extra), n, k) == Up(t, n, k)
    decreases k
  {
    if n != null && k > 0 { UpWiden(t, extra, Parent(t, n), k - 1); }
  }

  lemma AncestorWiden(t: Tree, extra: set<Node>, a: Node, n: Node)
    requires Closed(t) && n in t
    ensures Ancestor(Widen(t, extra), a, n) <==> Ancestor(t, a, n)
  {
    forall k: nat ensures Up(Widen(t, extra), n, k) == Up(t, n, k) { UpWiden(t, extra, n, k); }
  }

  lemma OwnerIsDocument(s: DomState, n: Node)
    requires Inv(s) && n in s.tree
    ensures n in s.owner && (s.owner[n] != null ==> s.owner[n] in s.tree && s.owner[n].nodeType == DOCUMENT)
  {
  }

  lemma FreshTree(s: DomState, n: Node, d: Node?, text: string)
    ensures Fresh(s, n, d, text).tree == s.tree[n := Links(null, [])]
  {
  }

  lemma TextIsFresh(s: DomState, self: Node, n: Node, text: string)
    requires Inv(s) && self in s.tree && n !in s.tree && n.nodeType == TEXT
    ensures self in s.owner && Inv(Fresh(s, n, s.owner[self], text))
    ensures Fresh(s, n, s.owner[self], text).tree == s.tree[n := Links(null, [])]
  {
    hide Inv, Fresh;
    OwnerIsDocument(s, self);
    FreshKeepsInv(s, n, s.owner[self], text);
    FreshTree(s, n, s.owner[self], text);
  }

  /** The state once the node of `item` exists. */
  ghost function Made(s: DomState, self: Node, item: Item): DomState
    requires self in s.owner
  {
    if item.Existing? then s else Fresh(s, item.node, s.owner[self], item.text)
  }

  ghost predicate Makeable(t: Tree, item: Item) {
    if item.Existing? then item.node in t else item.node !in t && item.node.nodeType == TEXT
  }

  lemma MadeKeepsInv(s: DomState, self: Node, item: Item)
    requires Inv(s) && self in s.tree && Makeable(s.tree, item)
    ensures self in s.owner && Inv(Made(s, self, item))
    ensures Made(s, self, item).tree == Widen(s.tree, {item.node})
    ensures Made(s, self, item).tree.Keys == s.tree.Keys + {item.node}
  {
    hide Inv, Fresh;
    OwnerIsDocument(s, self);
    if item.NewText? { TextIsFresh(s, self, item.node, item.text); }
  }

  lemma KnownStep(t: Tree, t': Tree, items: seq<Item>)
    requires items != [] && Known(t, items) && t'.Keys == t.Keys + {items[0].node}
    ensures Known(t', items[1..])
  {
  }

  /** The common loop: make each text node, insert each node, stop at the first
      exception. */
  ghost function SpliceIn(s: DomState, self: Node, p: Node, items: seq<Item>, b: Node?): (r: (DomState, Outcome))
    requires Inv(s) && self in s.tree && p in s.tree && Known(s.tree, items)
    ensures Inv(r.0) && s.tree.Keys <= r.0.tree.Keys
    decreases |items|
  {
    hide Inv, Insert, Made;
    if items == [] then (s, Done)
    else
      MadeKeepsInv(s, self, items[0]);
      var s1 := Made(s, self, items[0]);
      var (s2, o) := Insert(s1, p, items[0].node, b);
      KnownStep(s.tree, s2.tree, items);
      if o != Done then (s2, o) else SpliceIn(s2, self, p, items[1..], b)
  }

  /** The child after `n`, or null. */
  function NextChild(kids: seq<Node>, n: Node): Node? {
    var i := IndexOf(kids, n);
    if i + 1 < |kids| then kids[i + 1] else null
  }

  // ---------------------------------------------------------------- one more node

  /** Where a node that is not yet a child goes. */
  function PositionOf(kids: seq<Node>, b: Node?): (i: nat)
    requires b == null || b in kids
    ensures i <= |kids|
  {
    if b == null then |kids| else IndexOf(kids, b)
  }

  /** `c` may join `p`. */
  ghost predicate MayJoin(t: Tree, p: Node, c: Node) {
    && p in t && c in t && p != c && !Ancestor(t, c, p)
    && InsertableParent(p.nodeType) && ProperChild(p.nodeType, c.nodeType)
    && (p.nodeType == DOCUMENT && IsHtml(c) ==> HtmlCount(t[p].kids, {}) == 0)
  }

  /** What one insertion of a new child does to the tree. */
  ghost predicate Joined(t: Tree, t': Tree, p: Node, c: Node, i: nat) {
    && p in t && c in t && i <= |t[p].kids| && t'.Keys == t.Keys
    && t'[p] == Links(t[p].parent, InsertAt(t[p].kids, i, c))
    && t'[c] == Links(p, t[c].kids)
    && (forall n {:trigger t'[n].kids} :: n in t && n != p ==> t'[n].kids == Without(t[n].kids, c))
    && (forall n {:trigger t'[n].parent} :: n in t && n != c ==> t'[n].parent == t[n].parent)
  }

  lemma JoinsOne(s: DomState, p: Node, c: Node, b: Node?)
    requires Inv(s) && p in s.tree && c in s.tree && c.nodeType != FRAGMENT
    requires c !in s.tree[p].kids && (b == null || b in s.tree[p].kids)
    ensures Insert(s, p, c, b).1 == Done <==> MayJoin(s.tree, p, c)
    ensures Insert(s, p, c, b).1 != Done ==> Insert(s, p, c, b).0 == s
    ensures MayJoin(s.tree, p, c) ==> Joined(s.tree, Insert(s, p, c, b).0.tree, p, c, PositionOf(s.tree[p].kids, b))
  {
    hide Inv, ValidInsertion, Insert, Append, Ancestor, Joined, Place;
    if b == null {
      InsertNull(s, p, c);
      AppendCases(s, p, c);
    } else {
      InsertCases(s, p, c, b);
    }
    ValidMeansMayJoin(s, p, c);
    if MayJoin(s.tree, p, c) {
      WithoutAbsent(s.tree[p].kids, c);
      PlacedIsJoined(s, p, c, PositionOf(s.tree[p].kids, b));
    }
  }

  lemma ValidMeansMayJoin(s: DomState, p: Node, c: Node)
    requires Inv(s) && p in s.tree && c in s.tree && c.nodeType != FRAGMENT && c !in s.tree[p].kids
    ensures MayJoin(s.tree, p, c) <==> p != c && ValidInsertion(s.tree, p, c) && !Ancestor(s.tree, c, p)
    ensures MayJoin(s.tree, p, c) ==> Fits(s.tree, p, c)
  {
    var t := s.tree;
    HtmlCountZero(t[p].kids, {});
  }

  lemma PlacedIsJoined(s: DomState, p: Node, c: Node, i: nat)
    requires Inv(s) && Fits(s.tree, p, c) && c !in s.tree[p].kids && i <= |s.tree[p].kids|
    requires Without(s.tree[p].kids, c) == s.tree[p].kids
    ensures Joined(s.tree, Place(s, p, c, i).tree, p, c, i)
  {
    var t, t' := s.tree, MoveTree(s.tree, p, c, i);
    MoveFacts(t, p, c, i);
    forall n | n in t && n != p ensures t'[n].kids == Without(t[n].kids, c) {
      if n != t[c].parent {
        assert c !in t[n].kids;
        WithoutAbsent(t[n].kids, c);
      }
    }
  }

  // ---------------------------------------------------------------- many nodes

  function WithoutAll(s: seq<Node>, cs: seq<Node>): seq<Node>
    decreases |cs|
  {
    if cs == [] then s else WithoutAll(Without(s, cs[0]), cs[1..])
  }

  /** All of `cs` may join `p`, together. */
  ghost predicate AllMayJoin(t: Tree, p: Node, cs: seq<Node>)
    requires p in t
  {
    cs == [] ||
    (&& Room(t, p, cs)
     && forall i :: 0 <= i < |cs| ==> cs[i] in t && cs[i] != p && !Ancestor(t, cs[i], p))
  }

  /** `t'` has `cs` side by side in `p`'s list at position `i` and nowhere else. */
  ghost predicate SplicedAt(t: Tree, t': Tree, p: Node, cs: seq<Node>, i: nat) {
    && p in t && i <= |t[p].kids| && t'.Keys == t.Keys
    && t'[p] == Links(t[p].parent, t[p].kids[..i] + cs + t[p].kids[i..])
    && (forall k :: 0 <= k < |cs| ==> cs[k] in t && t'[cs[k]].parent == p)
    && (forall n {:trigger t'[n].kids} :: n in t && n != p ==> t'[n].kids == WithoutAll(t[n].kids, cs))
    && (forall n {:trigger t'[n].parent} :: n in t && n !in cs ==> t'[n].parent == t[n].parent)
  }

  ghost predicate NewChildren(t: Tree, p: Node, cs: seq<Node>)
    requires p in t
  {
    && Distinct(cs)
    && forall i :: 0 <= i < |cs| ==> cs[i] in t && cs[i].nodeType != FRAGMENT && cs[i] !in t[p].kids
  }

  lemma JoinedKeepsNew(t: Tree, t': Tree, p: Node, cs: seq<Node>, i: nat, b: Node?)
    requires cs != [] && p in t && NewChildren(t, p, cs) && Joined(t, t', p, cs[0], i)
    requires (b == null && i == |t[p].kids|) || (b in t[p].kids && i == IndexOf(t[p].kids, b) && Distinct(t[p].kids))
    ensures NewChildren(t', p, cs[1..])
    ensures b == null || b in t'[p].kids
    ensures PositionOf(t'[p].kids, b) == i + 1
  {
    var kids, c := t[p].kids, cs[0];
    InsertAtElements(kids, i, c);
    assert c in [c] + cs[1..];
    assert cs == [c] + cs[1..];
    if b != null { InsertNewPosition(kids, c, b); WithoutAbsent(kids, c); }
  }

  lemma JoinedKeepsMayJoin(t: Tree, t': Tree, p: Node, cs: seq<Node>, i: nat)
    requires cs != [] && p in t && MayJoin(t, p, cs[0]) && Joined(t, t', p, cs[0], i)
    requires forall k :: 0 <= k < |cs| ==> cs[k] in t
    requires p.nodeType == DOCUMENT ==> HtmlCount(t[p].kids, {}) <= 1
    ensures AllMayJoin(t, p, cs) <==> AllMayJoin(t', p, cs[1..])
  {
    hide Ancestor, HtmlCount;
    var c, rest := cs[0], cs[1..];
    assert cs == [c] + rest;
    HtmlCountConcat([c], rest, {});
    HtmlCountInsertAt(t[p].kids, i, c);
    assert OnlyReparents(t, t', c);
    forall k | 0 <= k < |rest| ensures Ancestor(t, rest[k], p) <==> Ancestor(t', rest[k], p) {
      ChainAgrees(t, t', c, rest[k], p);
    }
    RoomSplits(t, t', p, c, rest);
    assert forall k :: 0 <= k < |rest| ==> rest[k] == cs[k + 1];
  }

  lemma HtmlCountOne(c: Node)
    ensures HtmlCount([c], {}) == if IsHtml(c) then 1 else 0
  {
    assert [c][..0] == [];
  }

  lemma RoomSplits(t: Tree, t': Tree, p: Node, c: Node, rest: seq<Node>)
    requires p in t && p in t' && MayJoin(t, p, c)
    requires HtmlCount(t'[p].kids, {}) == HtmlCount(t[p].kids, {}) + HtmlCount([c], {})
    requires HtmlCount([c] + rest, {}) == HtmlCount([c], {}) + HtmlCount(rest, {})
    requires p.nodeType == DOCUMENT ==> HtmlCount(t[p].kids, {}) <= 1
    ensures Room(t, p, [c] + rest) <==> rest == [] || Room(t', p, rest)
  {
    HtmlCountOne(c);
    assert forall k :: k in [c] + rest <==> k == c || k in rest;
  }

  lemma AllMayJoinFirst(t: Tree, p: Node, cs: seq<Node>)
    requires cs != [] && p in t && AllMayJoin(t, p, cs)
    ensures MayJoin(t, p, cs[0])
  {
    assert cs == [cs[0]] + cs[1..];
    HtmlCountConcat([cs[0]], cs[1..], {});
    HtmlCountOne(cs[0]);
  }

  lemma {:induction false} FewHtmlChildren(s: seq<Node>)
    requires AtMostOneHtml(s)
    ensures HtmlCount(s, {}) <= 1
    decreases |s|
  {
    if s != [] {
      var init := s[..|s| - 1];
      FewHtmlChildren(init);
      if IsHtml(s[|s| - 1]) { HtmlCountZero(init, {}); }
    }
  }

  lemma SpliceGrows(t: Tree, t1: Tree, t2: Tree, p: Node, cs: seq<Node>, i: nat)
    requires cs != [] && p in t && NewChildren(t, p, cs) && Joined(t, t1, p, cs[0], i) && SplicedAt(t1, t2, p, cs[1..], i + 1)
    ensures SplicedAt(t, t2, p, cs, i)
  {
    var kids, c, rest := t[p].kids, cs[0], cs[1..];
    assert cs == [c] + rest;
    assert t1[p].kids[..i + 1] == kids[..i] + [c];
    assert t1[p].kids[i + 1..] == kids[i..];
    assert kids[..i] + [c] + rest + kids[i..] == kids[..i] + cs + kids[i..];
    assert c !in rest;
    assert t2[c].parent == p;
    forall k | 0 <= k < |cs| ensures cs[k] in t && t2[cs[k]].parent == p {
      if k > 0 { assert cs[k] == rest[k - 1]; }
    }
    forall n {:trigger t2[n].parent} | n in t && n !in cs ensures t2[n].parent == t[n].parent {
      assert n !in rest && n != c;
      assert t1[n].parent == t[n].parent;
    }
    forall n {:trigger t2[n].kids} | n in t && n != p ensures t2[n].kids == WithoutAll(t[n].kids, cs) {
      assert t1[n].kids == Without(t[n].kids, c);
    }
  }

  lemma JoinedWidens(t: Tree, t': Tree, p: Node, c: Node, i: nat, extra: set<Node>)
    requires Joined(t, t', p, c, i)
    ensures Joined(Widen(t, extra), Widen(t', extra), p, c, i)
  {
    assert forall n :: n in Widen(t, extra) && n !in t ==> Widen(t', extra)[n] == Links(null, []);
  }

  lemma MayJoinWidens(t: Tree, p: Node, c: Node, extra: set<Node>)
    requires Closed(t) && MayJoin(t, p, c)
    ensures MayJoin(Widen(t, extra), p, c)
  {
    AncestorWiden(t, extra, c, p);
  }

  /** The tree in which all arguments exist. */
  ghost function WithItems(t: Tree, items: seq<Item>): Tree {
    Widen(t, NewNodes(items))
  }

  lemma ItemsUnfold(t: Tree, items: seq<Item>)
    requires items != [] && Known(t, items)
    ensures WithItems(t, items) == WithItems(Widen(t, {items[0].node}), items[1..])
    ensures Names(items) == [items[0].node] + Names(items[1..])
    ensures WithItems(t, items)[items[0].node] == Widen(t, {items[0].node})[items[0].node]
  {
    assert NewNodes(items) == NewNodes(items[1..]) + if items[0].NewText? then {items[0].node} else {};
  }

  /** What is required of the arguments: nodes that exist, distinct, no fragments and
      not yet children of the parent. */
  ghost predicate NewItems(t: Tree, p: Node, items: seq<Item>)
    requires p in t
  {
    Known(t, items) && NewChildren(WithItems(t, items), p, Names(items))
  }

  lemma FirstItem(t: Tree, p: Node, items: seq<Item>)
    requires p in t && items != [] && NewItems(t, p, items)
    ensures var t1, c := Widen(t, {items[0].node}), items[0].node;
      && c in t1 && c.nodeType != FRAGMENT && c !in t1[p].kids && t1[p] == t[p] && Makeable(t, items[0])
  {
    ItemsUnfold(t, items);
  }

  /** The arguments that are left stay new. */
  lemma RestItems(t: Tree, t2: Tree, p: Node, items: seq<Item>, i: nat, b: Node?)
    requires p in t && items != [] && NewItems(t, p, items) && Joined(Widen(t, {items[0].node}), t2, p, items[0].node, i)
    requires (b == null && i == |t[p].kids|) || (b in t[p].kids && i == IndexOf(t[p].kids, b) && Distinct(t[p].kids))
    ensures p in t2 && NewItems(t2, p, items[1..])
    ensures b == null || b in t2[p].kids
    ensures PositionOf(t2[p].kids, b) == i + 1
    ensures Joined(WithItems(t, items), WithItems(t2, items[1..]), p, items[0].node, i)
  {
    hide NewChildren, Joined;
    var t1 := Widen(t, {items[0].node});
    ItemsUnfold(t, items);
    JoinedKeys(t1, t2, p, items[0].node, i);
    KnownStep(t, t2, items);
    JoinedWidens(t1, t2, p, items[0].node, i, NewNodes(items[1..]));
    assert WithItems(t, items)[p] == t[p];
    JoinedKeepsNew(WithItems(t, items), WithItems(t2, items[1..]), p, Names(items), i, b);
    assert Names(items)[1..] == Names(items[1..]);
    assert WithItems(t2, items[1..])[p] == t2[p];
  }

  lemma JoinedKeys(t: Tree, t': Tree, p: Node, c: Node, i: nat)
    requires Joined(t, t', p, c, i)
    ensures t'.Keys == t.Keys && p in t'
  {
  }

  /** The arguments that were looked at when `n` of them went in. */
  function UpTo(items: seq<Item>, n: nat): seq<Item> {
    if n < |items| then items[..n + 1] else items
  }

  /** The first `n` arguments went in at position `i`: all of them exactly when all may
      join the parent, otherwise those in front of the first that may not. */
  ghost predicate WentIn(t: Tree, t': Tree, o: Outcome, p: Node, items: seq<Item>, n: nat, i: nat)
    requires p in t && p in t'
  {
    && n <= |items|
    && (o == Done <==> n == |items|)
    && p in WithItems(t, items)
    && (o == Done <==> AllMayJoin(WithItems(t, items), p, Names(items)))
    && (n < |items| ==> !MayJoin(t', p, items[n].node))
    && SplicedAt(WithItems(t, UpTo(items, n)), t', p, Names(items[..n]), i)
  }

  /** Inserting distinct nodes that are not yet children: they go in side by side and
      in order, up to the first that may not join the parent. */
  lemma {:induction false} SpliceInSplices(s: DomState, self: Node, p: Node, items: seq<Item>, b: Node?) returns (n: nat)
    requires Inv(s) && self in s.tree && p in s.tree && NewItems(s.tree, p, items) && (b == null || b in s.tree[p].kids)
    ensures var (s', o) := SpliceIn(s, self, p, items, b);
      p in s'.tree && WentIn(s.tree, s'.tree, o, p, items, n, PositionOf(s.tree[p].kids, b))
    decreases |items|
  {
    hide Inv, Insert, Made, MayJoin, Joined, NewItems, WentIn, Names, Widen, WithItems;
    var t, i := s.tree, PositionOf(s.tree[p].kids, b);
    if items == [] {
      n := 0;
      NothingWentIn(t, p, i);
      return;
    }
    var c := items[0].node;
    KnownOfNew(t, p, items);
    FirstItem(t, p, items);
    MadeKeepsInv(s, self, items[0]);
    var s1 := Made(s, self, items[0]);
    ListOfParent(s1, p);
    JoinsOne(s1, p, c, b);
    var (s2, o) := Insert(s1, p, c, b);
    if o != Done {
      n := 0;
      ClosedOfInv(s);
      FirstStayedOut(s1, t, o, p, items, i);
    } else {
      RestItems(t, s2.tree, p, items, i, b);
      KnownOfNew(s2.tree, p, items[1..]);
      InsertKeepsTrees(s1, p, c, b);
      var m := SpliceInSplices(s2, self, p, items[1..], b);
      n := m + 1;
      var (s3, o3) := SpliceIn(s2, self, p, items[1..], b);
      OneMoreWentIn(s1, t, s2.tree, s3.tree, o3, p, items, m, i, b);
    }
  }

  lemma InsertKeepsTrees(s: DomState, p: Node, c: Node, b: Node?)
    requires Inv(s) && p in s.tree && c in s.tree
    ensures Inv(Insert(s, p, c, b).0) && Insert(s, p, c, b).0.tree.Keys == s.tree.Keys
  {
    hide Inv;
  }

  lemma NothingWentIn(t: Tree, p: Node, i: nat)
    requires p in t && i <= |t[p].kids|
    ensures WentIn(t, t, Done, p, [], 0, i)
  {
    NoItems(t);
    NothingSpliced(t, p, i);
  }

  lemma FirstStayedOut(s1: DomState, t: Tree, o: Outcome, p: Node, items: seq<Item>, i: nat)
    requires Inv(s1) && Closed(t) && p in t && p in s1.tree && items != [] && NewItems(t, p, items) && o != Done
    requires s1.tree == Widen(t, {items[0].node}) && !MayJoin(s1.tree, p, items[0].node) && i <= |t[p].kids|
    ensures WentIn(t, s1.tree, o, p, items, 0, i)
  {
    hide Inv, MayJoin, AllMayJoin, NewChildren, SplicedAt, Known;
    ClosedOfInv(s1);
    PInWithItems(t, p, items);
    OneItem(t, p, items);
    PInWithItems(t, p, [items[0]]);
    NothingSpliced(s1.tree, p, i);
    if AllMayJoin(WithItems(t, items), p, Names(items)) { NarrowMayJoin(t, p, items); }
  }

  lemma OneMoreWentIn(s1: DomState, t: Tree, t2: Tree, t3: Tree, o: Outcome, p: Node, items: seq<Item>, m: nat, i: nat, b: Node?)
    requires Inv(s1) && p in t && p in t2 && p in t3 && items != [] && NewItems(t, p, items)
    requires s1.tree == Widen(t, {items[0].node}) && MayJoin(s1.tree, p, items[0].node)
    requires Joined(s1.tree, t2, p, items[0].node, i)
    requires Joined(WithItems(t, items), WithItems(t2, items[1..]), p, items[0].node, i)
    requires (b == null && i == |t[p].kids|) || (b in t[p].kids && i == IndexOf(t[p].kids, b) && Distinct(t[p].kids))
    requires WentIn(t2, t3, o, p, items[1..], m, i + 1)
    ensures WentIn(t, t3, o, p, items, m + 1, i)
  {
    hide Inv, MayJoin, Joined, AllMayJoin, NewItems, SplicedAt, Widen, Known;
    PInWithItems(t, p, items);
    ItemsMayJoin(s1, t, t2, p, items, i);
    SplicePrefix(t, t2, t3, p, items, m + 1, UpTo(items, m + 1), i, b);
  }

  lemma NoItems(t: Tree)
    ensures WithItems(t, []) == t && Names([]) == []
  {
  }

  lemma OneItem(t: Tree, p: Node, items: seq<Item>)
    requires items != []
    ensures WithItems(t, items[..1]) == WithItems(t, [items[0]]) && Names(items[..0]) == []
    ensures Known(t, items) ==> WithItems(t, [items[0]]) == Widen(t, {items[0].node})
  {
    assert items[..1] == [items[0]];
    assert NewNodes([items[0]]) == if items[0].NewText? then {items[0].node} else {};
  }

  lemma NarrowMayJoin(t: Tree, p: Node, items: seq<Item>)
    requires Closed(t) && p in t && items != [] && NewItems(t, p, items)
    requires AllMayJoin(WithItems(t, items), p, Names(items))
    ensures MayJoin(Widen(t, {items[0].node}), p, items[0].node)
  {
    var t1, c := Widen(t, {items[0].node}), items[0].node;
    ItemsUnfold(t, items);
    AllMayJoinFirst(WithItems(t, items), p, Names(items));
    AncestorWiden(t1, NewNodes(items[1..]), c, p);
  }

  lemma ItemsMayJoin(s1: DomState, t: Tree, t2: Tree, p: Node, items: seq<Item>, i: nat)
    requires p in t && p in t2 && items != [] && NewItems(t, p, items) && Inv(s1) && s1.tree == Widen(t, {items[0].node})
    requires MayJoin(s1.tree, p, items[0].node)
    requires Joined(WithItems(t, items), WithItems(t2, items[1..]), p, items[0].node, i)
    ensures AllMayJoin(WithItems(t, items), p, Names(items)) <==> AllMayJoin(WithItems(t2, items[1..]), p, Names(items[1..]))
  {
    hide MayJoin, AllMayJoin, Joined, Inv;
    ListOfParent(s1, p);
    ClosedOfInv(s1);
    ItemsUnfold(t, items);
    MayJoinWidens(s1.tree, p, items[0].node, NewNodes(items[1..]));
    assert WithItems(t, items)[p] == s1.tree[p];
    assert Names(items)[1..] == Names(items[1..]);
    JoinedKeepsMayJoin(WithItems(t, items), WithItems(t2, items[1..]), p, Names(items), i);
  }

  lemma ClosedOfInv(s: DomState)
    requires Inv(s)
    ensures Closed(s.tree) && Forest(s.tree)
  {
  }

  lemma SomeNewItems(t: Tree, p: Node, items: seq<Item>, k: nat)
    requires p in t && NewItems(t, p, items) && k <= |items|
    ensures NewItems(t, p, items[..k]) && NewChildren(WithItems(t, items[..k]), p, Names(items[..k]))
  {
    assert forall j :: 0 <= j < k ==> items[..k][j] == items[j];
  }

  lemma SplicePrefix(t: Tree, t2: Tree, t3: Tree, p: Node, items: seq<Item>, n: nat, upTo: seq<Item>, i: nat, b: Node?)
    requires p in t && 0 < n <= |items| && NewItems(t, p, items)
    requires upTo == if n < |items| then items[..n + 1] else items
    requires Joined(Widen(t, {items[0].node}), t2, p, items[0].node, i)
    requires (b == null && i == |t[p].kids|) || (b in t[p].kids && i == IndexOf(t[p].kids, b) && Distinct(t[p].kids))
    requires var rest, m := items[1..], n - 1;
      SplicedAt(WithItems(t2, if m < |rest| then rest[..m + 1] else rest), t3, p, Names(rest[..m]), i + 1)
    ensures SplicedAt(WithItems(t, upTo), t3, p, Names(items[..n]), i)
  {
    hide SplicedAt, Joined, NewChildren, Widen, Known;
    var rest, m := items[1..], n - 1;
    assert items[..|items|] == items;
    SomeNewItems(t, p, items, |upTo|);
    RestItems(t, t2, p, upTo, i, b);
    assert upTo[1..] == if m < |rest| then rest[..m + 1] else rest;
    assert Names(items[..n])[1..] == Names(rest[..m]);
    assert Names(upTo)[..n] == Names(items[..n]);
    PInWithItems(t, p, upTo);
    PrefixIsNew(WithItems(t, upTo), p, Names(upTo), n);
    SpliceGrows(WithItems(t, upTo), WithItems(t2, upTo[1..]), t3, p, Names(items[..n]), i);
  }

  lemma PInWithItems(t: Tree, p: Node, items: seq<Item>)
    requires p in t
    ensures p in WithItems(t, items) && WithItems(t, items)[p] == t[p]
  {
  }

  lemma NothingSpliced(t: Tree, p: Node, i: nat)
    requires p in t && i <= |t[p].kids|
    ensures SplicedAt(t, t, p, [], i) && AllMayJoin(t, p, [])
  {
    assert t[p].kids[..i] + [] + t[p].kids[i..] == t[p].kids;
  }

  lemma FirstIsNew(t: Tree, p: Node, cs: seq<Node>)
    requires p in t && NewChildren(t, p, cs) && cs != []
    ensures cs[0] in t && cs[0].nodeType != FRAGMENT && cs[0] !in t[p].kids && forall k :: 0 <= k < |cs| ==> cs[k] in t
  {
  }

  lemma PrefixIsNew(t: Tree, p: Node, cs: seq<Node>, n: nat)
    requires p in t && NewChildren(t, p, cs) && n <= |cs|
    ensures NewChildren(t, p, cs[..n])
  {
  }

  lemma ListOfParent(s: DomState, p: Node)
    requires Inv(s) && p in s.tree
    ensures Distinct(s.tree[p].kids)
    ensures p.nodeType == DOCUMENT ==> HtmlCount(s.tree[p].kids, {}) <= 1
  {
    if p.nodeType == DOCUMENT { FewHtmlChildren(s.tree[p].kids); }
  }

  // ---------------------------------------------------------------- the five operations

  lemma ParentKnown(s: DomState, n: Node)
    requires Inv(s) && n in s.tree && s.tree[n].parent != null
    ensures var p := s.tree[n].parent; p in s.tree && n in s.tree[p].kids && Distinct(s.tree[p].kids)
  {
  }

  /** `after` */
  ghost function After(s: DomState, self: Node, items: seq<Item>): (DomState, Outcome)
    requires Inv(s) && self in s.tree && Known(s.tree, items)
  {
    hide Inv;
    var p := s.tree[self].parent;
    if p == null then (s, Done)
    else
      ParentKnown(s, self);
      SpliceIn(s, self, p, items, NextChild(s.tree[p].kids, self))
  }

  /** `before` */
  ghost function Before(s: DomState, self: Node, items: seq<Item>): (DomState, Outcome)
    requires Inv(s) && self in s.tree && Known(s.tree, items)
  {
    hide Inv;
    var p := s.tree[self].parent;
    if p == null then (s, Done)
    else
      ParentKnown(s, self);
      SpliceIn(s, self, p, items, self)
  }

  /** `prepend`; `append` is `SpliceIn(s, self, self, items, null)`. */
  ghost function Prepend(s: DomState, self: Node, items: seq<Item>): (DomState, Outcome)
    requires Inv(s) && self in s.tree && Known(s.tree, items)
  {
    SpliceIn(s, self, self, items, FirstChild(s.tree[self].kids))
  }

  function FirstChild(kids: seq<Node>): Node? {
    if kids == [] then null else kids[0]
  }

  /** `replaceWith` */
  ghost function ReplaceWith(s: DomState, self: Node, items: seq<Item>): (DomState, Outcome)
    requires Inv(s) && self in s.tree && Known(s.tree, items)
  {
    hide Inv, Remove;
    var p := s.tree[self].parent;
    if p == null then (s, Done)
    else
      ParentKnown(s, self);
      var ref := NextChild(s.tree[p].kids, self);
      var s1 := Remove(s, p, self).0;
      KnownInSameTree(s.tree, s1.tree, items);
      SpliceIn(s1, self, p, items, ref)
  }

  lemma KnownInSameTree(t: Tree, t': Tree, items: seq<Item>)
    requires t'.Keys == t.Keys && Known(t, items)
    ensures Known(t', items)
  {
  }

  lemma Neighbours(kids: seq<Node>, n: Node)
    requires Distinct(kids) && n in kids
    ensures 0 <= IndexOf(kids, n) < |kids|
    ensures PositionOf(kids, n) == IndexOf(kids, n)
    ensures NextChild(kids, n) == null || NextChild(kids, n) in kids
    ensures PositionOf(kids, NextChild(kids, n)) == IndexOf(kids, n) + 1
  {
    var i := IndexOf(kids, n);
    if i + 1 < |kids| { IndexOfUnique(kids, i + 1); }
  }

  /** The arguments end up side by side at position `i` of `p`'s child list. */
  ghost predicate Lands(s: DomState, r: (DomState, Outcome), p: Node, items: seq<Item>, kids: seq<Node>, i: nat)
    requires p in s.tree && i <= |kids|
  {
    && (r.1 == Done <==> AllMayJoin(WithItems(s.tree, items), p, Names(items)))
    && (r.1 == Done ==> p in r.0.tree && r.0.tree[p].kids == kids[..i] + Names(items) + kids[i..])
  }

  lemma SpliceLands(s: DomState, self: Node, p: Node, items: seq<Item>, b: Node?)
    requires Inv(s) && self in s.tree && p in s.tree && NewItems(s.tree, p, items) && (b == null || b in s.tree[p].kids)
    ensures p in WithItems(s.tree, items)
    ensures Lands(s, SpliceIn(s, self, p, items, b), p, items, s.tree[p].kids, PositionOf(s.tree[p].kids, b))
  {
    hide Inv, AllMayJoin, NewItems;
    PInWithItems(s.tree, p, items);
    var n := SpliceInSplices(s, self, p, items, b);
    assert items[..|items|] == items;
  }

  /** `after` and `before` put their arguments directly behind and in front of the
      element. */
  lemma SiblingInsertionsLand(s: DomState, self: Node, p: Node, items: seq<Item>)
    requires Inv(s) && self in s.tree && p in s.tree && s.tree[self].parent == p && NewItems(s.tree, p, items)
    ensures Known(s.tree, items)
    ensures var kids := s.tree[p].kids;
      var i := IndexOf(kids, self);
      && 0 <= i < |kids|
      && Lands(s, After(s, self, items), p, items, kids, i + 1)
      && Lands(s, Before(s, self, items), p, items, kids, i)
  {
    hide Inv, Lands, NewItems;
    KnownOfNew(s.tree, p, items);
    ParentKnown(s, self);
    Neighbours(s.tree[p].kids, self);
    SpliceLands(s, self, p, items, NextChild(s.tree[p].kids, self));
    SpliceLands(s, self, p, items, self);
  }

  /** `append` and `prepend` put theirs at the ends of its child list. */
  lemma ChildInsertionsLand(s: DomState, self: Node, items: seq<Item>)
    requires Inv(s) && self in s.tree && NewItems(s.tree, self, items)
    ensures Known(s.tree, items)
    ensures var kids := s.tree[self].kids;
      && Lands(s, SpliceIn(s, self, self, items, null), self, items, kids, |kids|)
      && Lands(s, Prepend(s, self, items), self, items, kids, 0)
  {
    hide Inv, Lands, NewItems;
    KnownOfNew(s.tree, self, items);
    SpliceLands(s, self, self, items, null);
    SpliceLands(s, self, self, items, FirstChild(s.tree[self].kids));
  }

  /** `replaceWith` puts its arguments where the element was and leaves the element
      without a parent; it has already left when an argument is refused. */
  lemma ReplaceWithLands(s: DomState, self: Node, items: seq<Item>)
    requires Inv(s) && self in s.tree && s.tree[self].parent != null && s.tree[self].parent in s.tree
    requires NewItems(s.tree, s.tree[self].parent, items)
    ensures var p := s.tree[self].parent;
      var kids := s.tree[p].kids;
      var i, s1 := IndexOf(kids, self), Remove(s, p, self).0;
      && 0 <= i < |kids| && s1.tree == Detach(s.tree, self) && p in s1.tree
      && s1.tree[self].parent == null && s1.tree[p].kids == kids[..i] + kids[i + 1..]
      && Lands(s1, ReplaceWith(s, self, items), p, items, s1.tree[p].kids, i)
  {
    hide Inv, Lands, AllMayJoin, Remove, NewItems;
    var p := s.tree[self].parent;
    var kids := s.tree[p].kids;
    ParentKnown(s, self);
    Neighbours(kids, self);
    RemoveIs(s, p, self);
    var s1 := Remove(s, p, self).0;
    var ref := NextChild(kids, self);
    RefAfterRemoval(kids, self);
    StillNew(s.tree, s1.tree, p, items);
    SpliceLands(s1, self, p, items, ref);
    KnownOfNew(s.tree, p, items);
  }

  lemma KnownOfNew(t: Tree, p: Node, items: seq<Item>)
    requires p in t && NewItems(t, p, items)
    ensures Known(t, items)
  {
  }

  lemma RemoveIs(s: DomState, p: Node, c: Node)
    requires Inv(s) && p in s.tree && c in s.tree[p].kids && c in s.tree
    ensures var s1 := Remove(s, p, c).0;
      && Inv(s1) && s1.tree == Detach(s.tree, c) && s1.tree.Keys == s.tree.Keys
      && s1.tree[c].parent == null && s1.tree[p].kids == Without(s.tree[p].kids, c)
  {
    DetachFacts(s.tree, c);
  }

  lemma RefAfterRemoval(kids: seq<Node>, n: Node)
    requires Distinct(kids) && n in kids
    ensures var w, i, ref := Without(kids, n), IndexOf(kids, n), NextChild(kids, n);
      && 0 <= i < |kids| && w == kids[..i] + kids[i + 1..] && (ref == null || ref in w) && PositionOf(w, ref) == i
  {
    var w, i := Without(kids, n), IndexOf(kids, n);
    WithoutFacts(kids, n);
    if i + 1 < |kids| {
      assert w[i] == kids[i + 1];
      IndexOfUnique(w, i);
    }
  }

  lemma StillNew(t: Tree, t1: Tree, p: Node, items: seq<Item>)
    requires p in t && p in t1 && NewItems(t, p, items) && t1.Keys == t.Keys
    requires forall x :: x in t1[p].kids ==> x in t[p].kids
    ensures NewItems(t1, p, items)
  {
    KnownInSameTree(t, t1, items);
    assert WithItems(t1, items).Keys == WithItems(t, items).Keys;
    assert WithItems(t1, items)[p] == t1[p] && WithItems(t, items)[p] == t[p];
  }

  // ---------------------------------------------------------------- as histories

  lemma MadeIsHistory(s: DomState, self: Node, item: Item) returns (ops: seq<Op>)
    requires Inv(s) && self in s.tree && Makeable(s.tree, item)
    ensures self in s.owner && DomHistory.History(s, Made(s, self, item), ops)
  {
    hide Inv, Fresh, DomHistory.History;
    OwnerIsDocument(s, self);
    if item.NewText? {
      ops := [NewRecord(item.node, s.owner[self], item.text)];
      DomHistory.RecordMade(s, item.node, s.owner[self], item.text);
    } else {
      ops := [];
      DomHistory.NoHistory(s);
    }
  }

  /** The common loop is a run of record creations and `insertBefore` calls. */
  lemma {:induction false} SpliceIsHistory(s: DomState, self: Node, p: Node, items: seq<Item>, b: Node?) returns (ops: seq<Op>)
    requires Inv(s) && self in s.tree && p in s.tree && Known(s.tree, items)
    ensures DomHistory.History(s, SpliceIn(s, self, p, items, b).0, ops)
    decreases |items|
  {
    hide Inv, Insert, Made, DomHistory.History;
    if items == [] {
      ops := [];
      DomHistory.NoHistory(s);
      return;
    }
    MadeKeepsInv(s, self, items[0]);
    var s1 := Made(s, self, items[0]);
    var (s2, o) := Insert(s1, p, items[0].node, b);
    KnownStep(s.tree, s2.tree, items);
    var made := MadeIsHistory(s, self, items[0]);
    DomHistory.Inserted(s1, p, items[0].node, b);
    ops := made + [InsertBefore(p, items[0].node, b)];
    DomHistory.InTurn(s, s1, s2, made, [InsertBefore(p, items[0].node, b)]);
    if o == Done {
      var rest := SpliceIsHistory(s2, self, p, items[1..], b);
      DomHistory.InTurn(s, s2, SpliceIn(s2, self, p, items[1..], b).0, ops, rest);
      ops := ops + rest;
    }
  }

  lemma ReplaceIsHistory(s: DomState, self: Node, items: seq<Item>) returns (ops: seq<Op>)
    requires Inv(s) && self in s.tree && Known(s.tree, items)
    ensures DomHistory.History(s, ReplaceWith(s, self, items).0, ops)
  {
    hide Inv, Remove, SpliceIn, DomHistory.History;
    var p := s.tree[self].parent;
    if p == null {
      ops := [];
      DomHistory.NoHistory(s);
    } else {
      ParentKnown(s, self);
      var s1 := Remove(s, p, self).0;
      KnownInSameTree(s.tree, s1.tree, items);
      DomHistory.Removed(s, p, self);
      var rest := SpliceIsHistory(s1, self, p, items, NextChild(s.tree[p].kids, self));
      DomHistory.InTurn(s, s1, ReplaceWith(s, self, items).0, [RemoveChild(p, self)], rest);
      ops := [RemoveChild(p, self)] + rest;
    }
  }
}
