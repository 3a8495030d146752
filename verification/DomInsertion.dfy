/** What insertion means for the child lists: exact positions, fragments spliced in
    one piece, and which refusals leave the tree as it was. */
module DomInsertion {
  import opened DomNodes
  import opened DomForest
  import opened DomModel

  // ---------------------------------------------------------------- positions

  lemma IndexOfUnique(s: seq<Node>, i: nat)
    requires Distinct(s) && i < |s|
    ensures IndexOf(s, s[i]) == i
  {
    var j := IndexOf(s, s[i]);
    assert s[j] == s[i];
  }

  lemma WithoutAbsent(s: seq<Node>, x: Node)
    requires x !in s
    ensures Without(s, x) == s
  {
  }

  lemma IndexOfFinds(s: seq<Node>, x: Node)
    requires x in s
    ensures 0 <= IndexOf(s, x) < |s| && s[IndexOf(s, x)] == x
  {
  }

  lemma WithoutElements(s: seq<Node>, x: Node)
    requires x in s
    ensures var w, i := Without(s, x), IndexOf(s, x);
      && |w| == |s| - 1 && 0 <= i <= |w|
      && (forall k :: 0 <= k < i ==> w[k] == s[k])
      && (forall k :: i < k < |s| ==> w[k - 1] == s[k])
  {
    hide IndexOf;
    IndexOfFinds(s, x);
  }

  /** `insertBefore` takes the index of `b` before it detaches `c`.  So `c` ends up
      directly in front of `b` exactly when it was not an earlier sibling of `b`;
      an earlier sibling ends up directly behind `b`, and inserting a node before
      itself changes nothing. */
  lemma InsertPosition(s: seq<Node>, c: Node, b: Node)
    requires Distinct(s) && b in s && c in s
    ensures var i, r := IndexOf(s, b), InsertAt(Without(s, c), IndexOf(s, b), c);
      && Distinct(r)
      && (c == b ==> r == s)
      && (c != b && IndexOf(s, c) > i ==> IndexOf(r, b) == i + 1 && IndexOf(r, c) == i)
      && (c != b && IndexOf(s, c) < i ==> IndexOf(r, b) == i - 1 && IndexOf(r, c) == i)
  {
    hide Distinct, Without, InsertAt, IndexOf;
    var i, j := IndexOf(s, b), IndexOf(s, c);
    IndexOfFinds(s, b);
    IndexOfFinds(s, c);
    var w := Without(s, c);
    WithoutFacts(s, c);
    WithoutElements(s, c);
    InsertAtFacts(w, i, c);
    InsertAtElements(w, i, c);
    var r := InsertAt(w, i, c);
    IndexOfUnique(r, i);
    if c == b {
      assert forall k :: i < k < |s| ==> r[k] == s[k];
      assert r == s;
    } else if j > i {
      assert r[i + 1] == w[i] == s[i];
      IndexOfUnique(r, i + 1);
    } else {
      assert r[i - 1] == w[i - 1] == s[i];
      IndexOfUnique(r, i - 1);
    }
  }

  lemma InsertNewPosition(s: seq<Node>, c: Node, b: Node)
    requires Distinct(s) && b in s && c !in s
    ensures var i, r := IndexOf(s, b), InsertAt(Without(s, c), IndexOf(s, b), c);
      && Distinct(r) && r == s[..i] + [c] + s[i..]
      && IndexOf(r, c) == i && IndexOf(r, b) == i + 1
  {
    var i := IndexOf(s, b);
    WithoutAbsent(s, c);
    InsertAtFacts(s, i, c);
    InsertAtElements(s, i, c);
    IndexOfUnique(InsertAt(s, i, c), i);
    IndexOfUnique(InsertAt(s, i, c), i + 1);
  }

  lemma InsertOneKids(s: DomState, p: Node, c: Node, b: Node)
    requires Inv(s) && p in s.tree && c in s.tree && c.nodeType != FRAGMENT && b in s.tree[p].kids
    requires p != c && !Ancestor(s.tree, c, p) && ValidInsertion(s.tree, p, c)
    ensures var kids := s.tree[p].kids;
      && IndexOf(kids, b) <= |Without(kids, c)|
      && InsertOne(s, p, c, b).0.tree[p].kids == InsertAt(Without(kids, c), IndexOf(kids, b), c)
  {
    ValidFits(s.tree, p, c);
    InsertIndexFits(s.tree[p].kids, c, b);
    MoveFacts(s.tree, p, c, IndexOf(s.tree[p].kids, b));
  }

  /** Where a successful `insertBefore` of one node puts it. */
  lemma InsertBeforePosition(s: DomState, p: Node, c: Node, b: Node)
    requires Inv(s) && p in s.tree && c in s.tree && c.nodeType != FRAGMENT && c != b
    requires Insert(s, p, c, b).1 == Done
    ensures var kids := s.tree[p].kids;
      var kids' := Insert(s, p, c, b).0.tree[p].kids;
      && b in kids && c in kids' && b in kids'
      && (IndexOf(kids', c) + 1 == IndexOf(kids', b) <==> !(c in kids && IndexOf(kids, c) < IndexOf(kids, b)))
  {
    hide Inv, InsertOne, InsertAt, Without, Distinct, Ancestor, ValidInsertion;
    InvForest(s);
    InsertOneKids(s, p, c, b);
    KidsDistinct(s.tree, p);
    BeforeOrBehind(s.tree[p].kids, c, b);
  }

  lemma KidsDistinct(t: Tree, p: Node)
    requires Forest(t) && p in t
    ensures Distinct(t[p].kids)
  {
  }

  lemma BeforeOrBehind(s: seq<Node>, c: Node, b: Node)
    requires Distinct(s) && b in s && c != b
    ensures IndexOf(s, b) <= |Without(s, c)|
    ensures var r := InsertAt(Without(s, c), IndexOf(s, b), c);
      && c in r && b in r
      && (IndexOf(r, c) + 1 == IndexOf(r, b) <==> !(c in s && IndexOf(s, c) < IndexOf(s, b)))
  {
    InsertIndexFits(s, c, b);
    InsertAtElements(Without(s, c), IndexOf(s, b), c);
    WithoutFacts(s, c);
    if c in s {
      InsertPosition(s, c, b);
      assert s[IndexOf(s, c)] == c && s[IndexOf(s, b)] == b;
    } else {
      InsertNewPosition(s, c, b);
    }
  }

  // ---------------------------------------------------------------- html counts

  lemma {:induction false} HtmlCountConcat(a: seq<Node>, b: seq<Node>, skip: set<Node>)
    ensures HtmlCount(a + b, skip) == HtmlCount(a, skip) + HtmlCount(b, skip)
  {
    if b == [] {
      assert a + b == a;
    } else {
      assert (a + b)[..|a + b| - 1] == a + b[..|b| - 1];
      HtmlCountConcat(a, b[..|b| - 1], skip);
    }
  }

  lemma HtmlCountInsertAt(s: seq<Node>, i: nat, x: Node)
    requires i <= |s|
    ensures HtmlCount(InsertAt(s, i, x), {}) == HtmlCount(s, {}) + HtmlCount([x], {})
  {
    HtmlCountConcat(s[..i], s[i..], {});
    HtmlCountConcat(s[..i] + [x], s[i..], {});
    HtmlCountConcat(s[..i], [x], {});
    assert s[..i] + s[i..] == s;
  }

  // ---------------------------------------------------------------- one node out of a fragment

  /** The room `p` must have for the listed nodes. */
  ghost predicate Room(t: Tree, p: Node, cs: seq<Node>)
    requires p in t
  {
    && InsertableParent(p.nodeType)
    && (forall k :: k in cs ==> ProperChild(p.nodeType, k.nodeType))
    && (p.nodeType == DOCUMENT ==> HtmlCount(t[p].kids, {}) + HtmlCount(cs, {}) <= 1)
  }

  ghost predicate Unloading(t: Tree, p: Node, f: Node) {
    && p in t && f in t && f.nodeType == FRAGMENT && p != f && t[f].kids != [] && Room(t, p, t[f].kids)
    && !Ancestor(t, t[f].kids[0], p)
  }

  lemma UnloadFits(t: Tree, p: Node, f: Node)
    requires Forest(t) && Unloading(t, p, f)
    ensures var k := t[f].kids[0];
      && k in t && k.nodeType != FRAGMENT && t[k].parent == f && k != p && k !in t[p].kids
      && ValidInsertion(t, p, k) && Fits(t, p, k)
  {
    var k := t[f].kids[0];
    assert k in t[f].kids;
    AncestorRefl(t, k);
    assert t[f].kids == [k] + t[f].kids[1..];
    HtmlCountConcat([k], t[f].kids[1..], {});
    HtmlCountZero(t[p].kids, {});
  }

  lemma UnloadFirst(t: Tree, p: Node, f: Node, i: nat)
    requires Forest(t) && Unloading(t, p, f) && i <= |t[p].kids|
    requires Fits(t, p, t[f].kids[0]) && t[f].kids[0] !in t[p].kids && t[f].kids[0] in t && t[t[f].kids[0]].parent == f
    ensures Without(t[p].kids, t[f].kids[0]) == t[p].kids
    ensures var k, t' := t[f].kids[0], MoveTree(t, p, t[f].kids[0], i);
      && Forest(t') && t'.Keys == t.Keys && OnlyReparents(t, t', k)
      && t'[p].kids == InsertAt(t[p].kids, i, k) && t'[f].kids == t[f].kids[1..]
      && t'[k] == Links(p, t[k].kids) && t'[p].parent == t[p].parent
      && (forall n :: n in t && n != p && n != f && n != k ==> t'[n] == t[n])
  {
    var k := t[f].kids[0];
    WithoutAbsent(t[p].kids, k);
    MoveFacts(t, p, k, i);
    assert t[f].kids == [k] + t[f].kids[1..];
    IndexOfUnique(t[f].kids, 0);
  }

  lemma UnloadKeepsRoom(t: Tree, t': Tree, p: Node, f: Node, i: nat)
    requires Forest(t) && Unloading(t, p, f) && i <= |t[p].kids| && p in t' && f in t'
    requires t'[p].kids == InsertAt(t[p].kids, i, t[f].kids[0]) && t'[f].kids == t[f].kids[1..]
    ensures Room(t', p, t'[f].kids)
  {
    var k := t[f].kids[0];
    assert t[f].kids == [k] + t[f].kids[1..];
    HtmlCountConcat([k], t[f].kids[1..], {});
    HtmlCountInsertAt(t[p].kids, i, k);
  }

  /** Chains that avoid the moved node stay as they were. */
  lemma ChainAgrees(t: Tree, t': Tree, c: Node, a: Node, n: Node)
    requires OnlyReparents(t, t', c) && !Ancestor(t, c, n)
    ensures Ancestor(t, a, n) <==> Ancestor(t', a, n)
  {
    if Ancestor(t, a, n) {
      var k: nat :| Up(t, n, k) == a;
      UpAgree(t, t', c, n, k);
    }
    if Ancestor(t', a, n) {
      var k: nat :| Up(t', n, k) == a;
      UpAgree(t, t', c, n, k);
    }
  }

  /** `t'` is `t` after the first child of `f` has moved into `p`'s list at position `i`. */
  ghost predicate Unloaded(t: Tree, t': Tree, p: Node, f: Node, i: nat) {
    && p in t && f in t && t.Keys == t'.Keys && i <= |t[p].kids| && t[f].kids != [] && t[f].kids[0] in t
    && t'[p] == Links(t[p].parent, InsertAt(t[p].kids, i, t[f].kids[0]))
    && t'[f] == Links(t[f].parent, t[f].kids[1..])
    && t'[t[f].kids[0]] == Links(p, t[t[f].kids[0]].kids)
    && (forall n :: n in t && n != p && n != f && n != t[f].kids[0] ==> t'[n] == t[n])
  }

  lemma Unload(t: Tree, p: Node, f: Node, i: nat)
    requires Forest(t) && Unloading(t, p, f) && i <= |t[p].kids|
    ensures var k := t[f].kids[0];
      && k in t && k.nodeType != FRAGMENT && k != p && ValidInsertion(t, p, k) && Fits(t, p, k)
      && k !in t[p].kids && Without(t[p].kids, k) == t[p].kids
      && var t' := MoveTree(t, p, k, i);
      && Unloaded(t, t', p, f, i) && Room(t', p, t'[f].kids)
      && (Ancestor(t, f, p) <==> Ancestor(t', f, p))
  {
    UnloadFits(t, p, f);
    UnloadFirst(t, p, f, i);
    var k := t[f].kids[0];
    UnloadKeepsRoom(t, MoveTree(t, p, k, i), p, f, i);
    ChainAgrees(t, MoveTree(t, p, k, i), k, f, p);
    FragmentIsRoot(t, f);
  }

  lemma FragmentIsRoot(t: Tree, f: Node)
    requires Forest(t) && f in t && f.nodeType == FRAGMENT
    ensures t[f].parent == null
  {
  }

  lemma UnloadByAppend(s: DomState, p: Node, f: Node)
    requires Inv(s) && Unloading(s.tree, p, f)
    ensures var k := s.tree[f].kids[0]; k in s.tree && k.nodeType != FRAGMENT
    ensures var r := AppendOne(s, p, s.tree[f].kids[0]);
      && r.1 == Done && Unloaded(s.tree, r.0.tree, p, f, |s.tree[p].kids|) && Room(r.0.tree, p, r.0.tree[f].kids)
      && (Ancestor(s.tree, f, p) <==> Ancestor(r.0.tree, f, p))
  {
    hide Unloaded, Room, Fits, MoveTree, ValidInsertion, Without;
    InvForest(s);
    Unload(s.tree, p, f, |s.tree[p].kids|);
    hide Inv;
  }

  lemma UnloadByInsert(s: DomState, p: Node, f: Node, b: Node)
    requires Inv(s) && Unloading(s.tree, p, f) && b in s.tree[p].kids
    ensures var k, i := s.tree[f].kids[0], IndexOf(s.tree[p].kids, b);
      k in s.tree && k.nodeType != FRAGMENT && 0 <= i <= |s.tree[p].kids|
    ensures var r, i := InsertOne(s, p, s.tree[f].kids[0], b), IndexOf(s.tree[p].kids, b);
      && r.1 == Done && Unloaded(s.tree, r.0.tree, p, f, i) && Room(r.0.tree, p, r.0.tree[f].kids)
      && (Ancestor(s.tree, f, p) <==> Ancestor(r.0.tree, f, p))
  {
    hide Unloaded, Room, Fits, MoveTree, ValidInsertion, Without;
    InvForest(s);
    IndexOfFinds(s.tree[p].kids, b);
    Unload(s.tree, p, f, IndexOf(s.tree[p].kids, b));
    hide Inv;
  }

  lemma ReferenceMovesOn(t: Tree, t': Tree, p: Node, f: Node, b: Node)
    requires Forest(t) && p in t && b in t[p].kids && IndexOf(t[p].kids, b) >= 0
    requires Unloaded(t, t', p, f, IndexOf(t[p].kids, b)) && t[f].kids[0] !in t[p].kids
    ensures b in t'[p].kids && IndexOf(t'[p].kids, b) == IndexOf(t[p].kids, b) + 1
  {
    WithoutAbsent(t[p].kids, t[f].kids[0]);
    InsertNewPosition(t[p].kids, t[f].kids[0], b);
    InsertAtElements(t[p].kids, IndexOf(t[p].kids, b), t[f].kids[0]);
  }

  // ---------------------------------------------------------------- whole fragments

  /** `t'` is `t` with the children of `f` moved into `p`'s list at position `i`. */
  ghost predicate Spliced(t: Tree, t': Tree, p: Node, f: Node, i: nat) {
    && t.Keys == t'.Keys && p in t && f in t && i <= |t[p].kids|
    && t'[p] == Links(t[p].parent, t[p].kids[..i] + t[f].kids + t[p].kids[i..])
    && t'[f] == Links(t[f].parent, [])
    && (forall k :: k in t[f].kids ==> k in t && t'[k] == Links(p, t[k].kids))
    && (forall n :: n in t && n != p && n != f && n !in t[f].kids ==> t'[n] == t[n])
  }

  lemma SplicedEmpty(t: Tree, p: Node, f: Node, i: nat)
    requires p in t && f in t && i <= |t[p].kids| && t[f].kids == []
    ensures Spliced(t, t, p, f, i)
  {
    assert t[p].kids[..i] + [] + t[p].kids[i..] == t[p].kids;
  }

  lemma SplicedStep(t: Tree, t1: Tree, t2: Tree, p: Node, f: Node, i: nat)
    requires Unloaded(t, t1, p, f, i) && Spliced(t1, t2, p, f, i + 1)
    requires Forest(t) && p != f && p !in t[f].kids && forall k :: k in t[f].kids ==> k in t
    ensures Spliced(t, t2, p, f, i)
  {
    hide Forest, InsertAt;
    var fs, ks := t[f].kids, t[p].kids;
    SpliceLists(ks, fs, i);
    KidsDistinct(t, f);
    NoSelfKid(t, f);
    forall x | x in fs ensures t2[x] == Links(p, t[x].kids) {
      if x != fs[0] { assert x in fs[1..]; }
    }
  }

  lemma SpliceLists(ks: seq<Node>, fs: seq<Node>, i: nat)
    requires i <= |ks| && fs != []
    ensures var ks' := InsertAt(ks, i, fs[0]);
      && |ks'| == |ks| + 1 && ks'[..i + 1] + fs[1..] + ks'[i + 1..] == ks[..i] + fs + ks[i..]
    ensures forall x :: x in fs[1..] ==> x in fs
    ensures Distinct(fs) ==> fs[0] !in fs[1..]
  {
    var ks' := InsertAt(ks, i, fs[0]);
    assert ks'[..i + 1] == ks[..i] + [fs[0]];
    assert ks'[i + 1..] == ks[i..];
    assert fs == [fs[0]] + fs[1..];
  }

  lemma NoSelfKid(t: Tree, f: Node)
    requires Forest(t) && f in t
    ensures f !in t[f].kids
  {
    if f in t[f].kids { DepthParent(t, f); }
  }

  lemma {:induction false} InsertAllSplices(s: DomState, p: Node, f: Node, b: Node)
    requires Inv(s) && p in s.tree && f in s.tree && f.nodeType == FRAGMENT && p != f
    requires b in s.tree[p].kids && !Ancestor(s.tree, f, p) && Room(s.tree, p, s.tree[f].kids)
    requires forall c :: c in s.tree[f].kids ==> c in s.tree && c.nodeType != FRAGMENT
    ensures var r := InsertAll(s, p, s.tree[f].kids, b);
      r.1 == Done && Spliced(s.tree, r.0.tree, p, f, IndexOf(s.tree[p].kids, b))
    decreases |s.tree[f].kids|
  {
    hide Inv, Forest, Spliced, Unloaded, Room, Ancestor, InsertOne, IndexOf, MoveTree;
    var t, cs, i := s.tree, s.tree[f].kids, IndexOf(s.tree[p].kids, b);
    InvForest(s);
    IndexOfFinds(t[p].kids, b);
    if cs == [] {
      SplicedEmpty(t, p, f, i);
      return;
    }
    FirstUnloads(t, p, f);
    UnloadByInsert(s, p, f, b);
    var s1 := InsertOne(s, p, cs[0], b).0;
    UnloadedKids(t, s1.tree, p, f, i);
    ReferenceMovesOn(t, s1.tree, p, f, b);
    InsertAllSplices(s1, p, f, b);
    SplicedStep(t, s1.tree, InsertAll(s1, p, cs[1..], b).0.tree, p, f, i);
  }

  lemma UnloadedKids(t: Tree, t': Tree, p: Node, f: Node, i: nat)
    requires Unloaded(t, t', p, f, i)
    ensures p in t' && f in t' && t'[f].kids == t[f].kids[1..] && |t'[p].kids| == |t[p].kids| + 1
  {
  }

  /** A fragment outside whose tree the parent lies can give up its first child. */
  lemma FirstUnloads(t: Tree, p: Node, f: Node)
    requires Forest(t) && p in t && f in t && f.nodeType == FRAGMENT && p != f && t[f].kids != []
    requires !Ancestor(t, f, p) && Room(t, p, t[f].kids)
    ensures Unloading(t, p, f) && t[f].kids[0] !in t[p].kids && p !in t[f].kids
  {
    AncestorOfKid(t, f, t[f].kids[0], p);
    UnloadFits(t, p, f);
    AncestorRefl(t, f);
    if p in t[f].kids { AncestorStep(t, f, p); }
  }

  lemma AncestorOfKid(t: Tree, f: Node, k: Node, n: Node)
    requires Forest(t) && f in t && k in t[f].kids && !Ancestor(t, f, n)
    ensures !Ancestor(t, k, n)
  {
    if Ancestor(t, k, n) {
      AncestorRefl(t, f);
      AncestorStep(t, f, k);
      AncestorTrans(t, f, k, n);
    }
  }

  lemma {:induction false} AppendAllSplices(s: DomState, p: Node, f: Node)
    requires Inv(s) && p in s.tree && f in s.tree && f.nodeType == FRAGMENT && p != f
    requires !Ancestor(s.tree, f, p) && Room(s.tree, p, s.tree[f].kids)
    requires forall c :: c in s.tree[f].kids ==> c in s.tree && c.nodeType != FRAGMENT
    ensures var r := AppendAll(s, p, s.tree[f].kids);
      r.1 == Done && Spliced(s.tree, r.0.tree, p, f, |s.tree[p].kids|)
    decreases |s.tree[f].kids|
  {
    hide Inv, Forest, Spliced, Unloaded, Room, Ancestor, AppendOne, MoveTree;
    var t, cs, i := s.tree, s.tree[f].kids, |s.tree[p].kids|;
    InvForest(s);
    if cs == [] {
      SplicedEmpty(t, p, f, i);
      return;
    }
    FirstUnloads(t, p, f);
    UnloadByAppend(s, p, f);
    var s1 := AppendOne(s, p, cs[0]).0;
    UnloadedKids(t, s1.tree, p, f, i);
    AppendAllSplices(s1, p, f);
    SplicedStep(t, s1.tree, AppendAll(s1, p, cs[1..]).0.tree, p, f, i);
  }

  /** Up-front validation of a fragment leaves room for all its children. */
  lemma ValidFragmentHasRoom(t: Tree, p: Node, f: Node)
    requires Forest(t) && p in t && f in t && f.nodeType == FRAGMENT && p != f && ValidInsertion(t, p, f)
    ensures Room(t, p, t[f].kids)
    ensures forall k :: k in t[f].kids ==> k in t && k.nodeType != FRAGMENT
  {
    assert ListedUnder(t, p, f) == {};
  }

  /** `insertBefore` of a fragment: its children land side by side, in order and
      directly in front of `b`, and the fragment is left empty. */
  lemma InsertFragmentSplices(s: DomState, p: Node, f: Node, b: Node)
    requires Inv(s) && p in s.tree && f in s.tree && f.nodeType == FRAGMENT
    requires b in s.tree[p].kids && p != f && !Ancestor(s.tree, f, p) && ValidInsertion(s.tree, p, f)
    ensures Insert(s, p, f, b).1 == Done
    ensures Spliced(s.tree, Insert(s, p, f, b).0.tree, p, f, IndexOf(s.tree[p].kids, b))
  {
    ValidFragmentHasRoom(s.tree, p, f);
    InsertAllSplices(s, p, f, b);
  }

  /** `appendChild` of a fragment that does not contain the parent. */
  lemma AppendFragmentSplices(s: DomState, p: Node, f: Node)
    requires Inv(s) && p in s.tree && f in s.tree && f.nodeType == FRAGMENT
    requires p != f && !Ancestor(s.tree, f, p) && ValidInsertion(s.tree, p, f)
    ensures Append(s, p, f).1 == Done
    ensures Spliced(s.tree, Append(s, p, f).0.tree, p, f, |s.tree[p].kids|)
  {
    ValidFragmentHasRoom(s.tree, p, f);
    AppendAllSplices(s, p, f);
  }

  // ---------------------------------------------------------------- refusals

  /** `insertBefore` accepts exactly the valid, acyclic insertions before a present
      child; whenever it throws, nothing at all has changed. */
  lemma InsertIsAtomic(s: DomState, p: Node, c: Node, b: Node)
    requires Inv(s) && p in s.tree && c in s.tree
    ensures Insert(s, p, c, b).1 == Done <==>
      b in s.tree[p].kids && p != c && !Ancestor(s.tree, c, p) && ValidInsertion(s.tree, p, c)
    ensures Insert(s, p, c, b).1 != Done ==> Insert(s, p, c, b).0 == s
  {
    if b in s.tree[p].kids && p != c && !Ancestor(s.tree, c, p) && ValidInsertion(s.tree, p, c) && c.nodeType == FRAGMENT {
      InsertFragmentSplices(s, p, c, b);
    }
  }

  /** `appendChild` checks the fragment case before the ancestor case, so a parent
      inside the fragment is noticed only when its own branch is reached. */
  lemma {:induction false} AppendAllReachesParent(s: DomState, p: Node, f: Node)
    requires Inv(s) && p in s.tree && f in s.tree && f.nodeType == FRAGMENT && p != f
    requires Ancestor(s.tree, f, p) && Room(s.tree, p, s.tree[f].kids)
    requires forall c :: c in s.tree[f].kids ==> c in s.tree && c.nodeType != FRAGMENT
    ensures AppendAll(s, p, s.tree[f].kids).1 == HierarchyRequestError
    ensures |AppendAll(s, p, s.tree[f].kids).0.tree[f].kids| <= |s.tree[f].kids|
    decreases |s.tree[f].kids|
  {
    hide Inv, Forest, Unloaded, Room, Ancestor, MoveTree, Place;
    var t, cs := s.tree, s.tree[f].kids;
    InvForest(s);
    var branch := DescendantViaKid(t, f, p);
    if Ancestor(t, cs[0], p) { return; }
    UnloadByAppend(s, p, f);
    var s1 := AppendOne(s, p, cs[0]).0;
    UnloadedKids(t, s1.tree, p, f, |t[p].kids|);
    AppendAllReachesParent(s1, p, f);
  }

  /** Exactly when `appendChild` succeeds, and exactly when a failing call has
      already moved something: the fragment contains the parent, but not in its
      first branch. */
  lemma AppendFailure(s: DomState, p: Node, c: Node)
    requires Inv(s) && p in s.tree && c in s.tree
    ensures Append(s, p, c).1 == Done <==>
      p != c && ValidInsertion(s.tree, p, c) && !Ancestor(s.tree, c, p)
    ensures Append(s, p, c).1 != Done ==>
      (Append(s, p, c).0 != s <==>
        p != c && ValidInsertion(s.tree, p, c) && Ancestor(s.tree, c, p) && c.nodeType == FRAGMENT
        && s.tree[c].kids != [] && !Ancestor(s.tree, s.tree[c].kids[0], p))
  {
    if p != c && ValidInsertion(s.tree, p, c) && c.nodeType == FRAGMENT {
      if Ancestor(s.tree, c, p) {
        FragmentAroundParent(s, p, c);
      } else {
        AppendFragmentSplices(s, p, c);
      }
    }
  }

  lemma FragmentAroundParent(s: DomState, p: Node, f: Node)
    requires Inv(s) && p in s.tree && f in s.tree && f.nodeType == FRAGMENT && p != f
    requires Ancestor(s.tree, f, p) && ValidInsertion(s.tree, p, f)
    ensures s.tree[f].kids != []
    ensures var r := Append(s, p, f);
      && r.1 == HierarchyRequestError
      && (r.0 != s <==> !Ancestor(s.tree, s.tree[f].kids[0], p))
  {
    hide Inv, Forest, Unloaded, Room, Ancestor, MoveTree, Place;
    var t, cs := s.tree, s.tree[f].kids;
    InvForest(s);
    ValidFragmentHasRoom(t, p, f);
    AppendAllReachesParent(s, p, f);
    var branch := DescendantViaKid(t, f, p);
    if !Ancestor(t, cs[0], p) {
      UnloadByAppend(s, p, f);
      var s1 := AppendOne(s, p, cs[0]).0;
      UnloadedKids(t, s1.tree, p, f, |t[p].kids|);
      AppendAllReachesParent(s1, p, f);
    }
  }
}
