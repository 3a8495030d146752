/** The right-to-left chain matcher commits to the nearest candidate of every step.
    It never accepts wrongly, and it misses matches for exactly those combinator
    lists in which a nearest candidate can spoil the step after it. */
module ChainMatching {
  import opened DomNodes
  import opened DomForest
  import opened Selectors

  // ---------------------------------------------------------------- relations between nodes

  function LastElement(s: seq<Node>): Node? {
    if s == [] then null
    else if s[|s| - 1].nodeType == ELEMENT then s[|s| - 1]
    else LastElement(s[..|s| - 1])
  }

  ghost function SiblingPlace(t: Tree, n: Node): nat
    requires Forest(t) && n in t
  {
    if t[n].parent == null then 0 else IndexOf(t[t[n].parent].kids, n)
  }

  /** `getPreviousElementSibling` */
  ghost function PrevElement(t: Tree, n: Node): Node?
    requires Forest(t) && n in t
  {
    if t[n].parent == null then null else LastElement(t[t[n].parent].kids[..SiblingPlace(t, n)])
  }

  /** `a` and `b` are children of one node, `a` an element and the earlier one. */
  ghost predicate Before(t: Tree, a: Node, b: Node) {
    && a in t && b in t && a.nodeType == ELEMENT && t[b].parent != null && t[b].parent in t
    && exists i, j :: 0 <= i < j < |t[t[b].parent].kids| && t[t[b].parent].kids[i] == a && t[t[b].parent].kids[j] == b
  }

  /** What a combinator asks of the nodes on its two sides (section 8 of Selectors
      Level 3). */
  ghost predicate Related(t: Tree, c: Combinator, a: Node, b: Node) {
    match c
    case Descendant => a != b && Ancestor(t, a, b)
    case Child => b in t && t[b].parent == a
    case LaterSibling => Before(t, a, b)
    case NextSibling => Before(t, a, b) && forall x :: x in t && Before(t, x, b) ==> x == a || Before(t, x, a)
  }

  type Test<!T> = (Node, T) -> bool

  /** The chain up to step `i` can be matched with step `i` at `n`. */
  ghost predicate CanMatch<T>(t: Tree, m: Test<T>, chain: seq<Step<T>>, i: nat, n: Node)
    requires i < |chain|
    decreases i
  {
    i == 0 || exists a :: a in t && Witness(t, m, chain, i, n, a)
  }

  /** Step `i - 1` can be matched at `a` when step `i` is at `n`. */
  ghost predicate Witness<T>(t: Tree, m: Test<T>, chain: seq<Step<T>>, i: nat, n: Node, a: Node)
    requires 0 < i < |chain|
    decreases i, 0
  {
    Related(t, chain[i].combinator, a, n) && m(a, chain[i - 1].token) && CanMatch(t, m, chain, i - 1, a)
  }

  // ---------------------------------------------------------------- the greedy choice

  ghost function NearestAbove(t: Tree, ok: Node -> bool, n: Node?): Node?
    requires Grounded(t, n)
    decreases Depth(t, n)
  {
    if n == null || ok(n) then n
    else
      DepthParent(t, n);
      NearestAbove(t, ok, Parent(t, n))
  }

  ghost function NearestBefore(t: Tree, ok: Node -> bool, n: Node): Node?
    requires Forest(t) && n in t
    decreases SiblingPlace(t, n)
  {
    PrevFacts(t, n);
    var prev := PrevElement(t, n);
    if prev == null || ok(prev) then prev else NearestBefore(t, ok, prev)
  }

  /** The node the matcher moves to. */
  ghost function Choose(t: Tree, c: Combinator, ok: Node -> bool, n: Node): Node?
    requires Forest(t) && n in t
  {
    match c
    case Descendant => DepthParent(t, n); NearestAbove(t, ok, Parent(t, n))
    case Child => if t[n].parent != null && ok(t[n].parent) then t[n].parent else null
    case NextSibling => if PrevElement(t, n) != null && ok(PrevElement(t, n)) then PrevElement(t, n) else null
    case LaterSibling => NearestBefore(t, ok, n)
  }

  function At<T>(m: Test<T>, token: T): Node -> bool {
    (x: Node) => m(x, token)
  }

  /** The loop of `matchesSelectorChain` with steps `i - 1` down to 0 still to match. */
  ghost predicate Greedy<T>(t: Tree, m: Test<T>, chain: seq<Step<T>>, i: nat, n: Node)
    requires Forest(t) && n in t && i < |chain|
    decreases i
  {
    i == 0 ||
    var a := Choose(t, chain[i].combinator, At(m, chain[i - 1].token), n);
    a != null && (ChoiceFacts(t, chain[i].combinator, At(m, chain[i - 1].token), n); Greedy(t, m, chain, i - 1, a))
  }

  // ---------------------------------------------------------------- siblings

  lemma {:induction false} LastElementFacts(s: seq<Node>)
    ensures LastElement(s) == null ==> forall x :: x in s ==> x.nodeType != ELEMENT
    ensures LastElement(s) != null ==> LastElement(s).nodeType == ELEMENT && exists i :: LastElementAt(s, i)
    decreases |s|
  {
    if s != [] {
      var init := s[..|s| - 1];
      if s[|s| - 1].nodeType == ELEMENT {
        assert LastElementAt(s, |s| - 1);
      } else {
        LastElementFacts(init);
        if LastElement(init) != null {
          var i :| LastElementAt(init, i);
          assert forall j :: i < j < |init| ==> s[j] == init[j];
          assert LastElementAt(s, i);
        }
      }
    }
  }

  predicate LastElementAt(s: seq<Node>, i: int) {
    0 <= i < |s| && s[i] == LastElement(s) && forall j :: i < j < |s| ==> s[j].nodeType != ELEMENT
  }

  lemma SiblingPlaceFacts(t: Tree, n: Node)
    requires Forest(t) && n in t && t[n].parent != null
    ensures SiblingPlace(t, n) < |t[t[n].parent].kids| && t[t[n].parent].kids[SiblingPlace(t, n)] == n
    ensures forall i :: 0 <= i < |t[t[n].parent].kids| && t[t[n].parent].kids[i] == n ==> i == SiblingPlace(t, n)
  {
  }

  lemma BeforeMeansPlace(t: Tree, a: Node, b: Node)
    requires Forest(t) && b in t
    ensures Before(t, a, b) <==>
      a in t && a.nodeType == ELEMENT && t[b].parent != null && t[a].parent == t[b].parent && SiblingPlace(t, a) < SiblingPlace(t, b)
  {
    if t[b].parent != null {
      SiblingPlaceFacts(t, b);
      var kids := t[t[b].parent].kids;
      if a in t && t[a].parent == t[b].parent { SiblingPlaceFacts(t, a); }
      if Before(t, a, b) {
        var i, j :| 0 <= i < j < |kids| && kids[i] == a && kids[j] == b;
        assert a in kids;
        SiblingPlaceFacts(t, a);
      }
    }
  }

  /** `getPreviousElementSibling` gives the nearest earlier element. */
  lemma PrevFacts(t: Tree, n: Node)
    requires Forest(t) && n in t
    ensures PrevElement(t, n) == null ==> forall x :: x in t ==> !Before(t, x, n)
    ensures PrevElement(t, n) != null ==>
      && PrevElement(t, n) in t && Related(t, NextSibling, PrevElement(t, n), n)
      && t[PrevElement(t, n)].parent == t[n].parent && SiblingPlace(t, PrevElement(t, n)) < SiblingPlace(t, n)
  {
    if t[n].parent != null {
      SiblingPlaceFacts(t, n);
      var kids, k := t[t[n].parent].kids, SiblingPlace(t, n);
      LastElementFacts(kids[..k]);
      var prev := PrevElement(t, n);
      if prev == null {
        forall x | x in t ensures !Before(t, x, n) {
          BeforeMeansPlace(t, x, n);
          if x in t && t[x].parent == t[n].parent {
            SiblingPlaceFacts(t, x);
            assert SiblingPlace(t, x) < k ==> kids[..k][SiblingPlace(t, x)] == x;
          }
        }
      } else {
        var i :| LastElementAt(kids[..k], i);
        assert prev in kids;
        SiblingPlaceFacts(t, prev);
        BeforeMeansPlace(t, prev, n);
        forall x | x in t && Before(t, x, n) ensures x == prev || Before(t, x, prev) {
          BeforeMeansPlace(t, x, n);
          BeforeMeansPlace(t, x, prev);
          SiblingPlaceFacts(t, x);
          assert kids[..k][SiblingPlace(t, x)] == x;
        }
      }
    }
  }

  lemma BeforeTrans(t: Tree, a: Node, b: Node, c: Node)
    requires Forest(t) && b in t && c in t && Before(t, a, b) && Before(t, b, c)
    ensures Before(t, a, c)
  {
    BeforeMeansPlace(t, a, b);
    BeforeMeansPlace(t, b, c);
    BeforeMeansPlace(t, a, c);
  }

  // ---------------------------------------------------------------- the choice is right, and nearest

  lemma {:induction false} AboveFacts(t: Tree, ok: Node -> bool, n: Node?)
    requires Closed(t) && Grounded(t, n) && (n == null || n in t)
    ensures var a := NearestAbove(t, ok, n);
      && (a != null ==> a in t && ok(a) && Ancestor(t, a, n))
      && (forall x :: x in t && ok(x) && Ancestor(t, x, n) ==> a != null && Ancestor(t, x, a))
    decreases Depth(t, n)
  {
    var a := NearestAbove(t, ok, n);
    if n == null {
      forall x | x in t ensures !Ancestor(t, x, n) { AncestorOfNull(t, x); }
    } else {
      AncestorRefl(t, n);
      DepthParent(t, n);
      forall x ensures Ancestor(t, x, n) <==> x == n || Ancestor(t, x, Parent(t, n)) { AncestorStep(t, x, n); }
      if !ok(n) { AboveFacts(t, ok, Parent(t, n)); }
    }
  }

  lemma {:induction false} BeforeFacts(t: Tree, ok: Node -> bool, n: Node)
    requires Forest(t) && n in t
    ensures var a := NearestBefore(t, ok, n);
      && (a != null ==> a in t && ok(a) && Before(t, a, n))
      && (forall x :: x in t && ok(x) && Before(t, x, n) ==> a != null && (x == a || Before(t, x, a)))
    decreases SiblingPlace(t, n)
  {
    PrevFacts(t, n);
    var prev := PrevElement(t, n);
    if prev != null && !ok(prev) {
      BeforeFacts(t, ok, prev);
      var a := NearestBefore(t, ok, prev);
      if a != null { BeforeTrans(t, a, prev, n); }
    }
  }

  lemma ChoiceFacts(t: Tree, c: Combinator, ok: Node -> bool, n: Node)
    requires Forest(t) && n in t
    ensures var a := Choose(t, c, ok, n); a != null ==> a in t && ok(a) && Related(t, c, a, n)
  {
    match c
    case Descendant =>
      DepthParent(t, n);
      AboveFacts(t, ok, Parent(t, n));
      var a := NearestAbove(t, ok, Parent(t, n));
      if a != null {
        AncestorStep(t, a, n);
        if a == n { AncestorDepth(t, n, Parent(t, n)); }
      }
    case Child =>
    case NextSibling => PrevFacts(t, n);
    case LaterSibling => BeforeFacts(t, ok, n);
  }

  /** Whenever some candidate exists the matcher finds one, and among all candidates
      it takes the nearest. */
  lemma ChoiceIsNearest(t: Tree, c: Combinator, ok: Node -> bool, n: Node, x: Node)
    requires Forest(t) && n in t && x in t && Related(t, c, x, n) && ok(x)
    ensures var a := Choose(t, c, ok, n);
      && a != null && a in t
      && (x == a || (c == Descendant && Ancestor(t, x, a)) || (c == LaterSibling && Before(t, x, a)))
  {
    ChoiceFacts(t, c, ok, n);
    match c
    case Descendant =>
      DepthParent(t, n);
      AncestorStep(t, x, n);
      AboveFacts(t, ok, Parent(t, n));
    case Child =>
    case NextSibling =>
      PrevFacts(t, n);
      NextIsUnique(t, x, PrevElement(t, n), n);
    case LaterSibling => BeforeFacts(t, ok, n);
  }

  lemma NextIsUnique(t: Tree, a: Node, b: Node?, n: Node)
    requires Forest(t) && n in t && Related(t, NextSibling, a, n) && b == PrevElement(t, n)
    ensures a == b
  {
    PrevFacts(t, n);
    if b != null && a != b {
      BeforeMeansPlace(t, a, b);
      BeforeMeansPlace(t, b, a);
    }
  }

  // ---------------------------------------------------------------- soundness

  /** Whatever the matcher accepts has a witness for every combinator. */
  lemma {:induction false} GreedyIsSound<T>(t: Tree, m: Test<T>, chain: seq<Step<T>>, i: nat, n: Node)
    requires Forest(t) && n in t && i < |chain| && Greedy(t, m, chain, i, n)
    ensures CanMatch(t, m, chain, i, n)
    decreases i
  {
    if i > 0 {
      var ok := At(m, chain[i - 1].token);
      var a := Choose(t, chain[i].combinator, ok, n);
      ChoiceFacts(t, chain[i].combinator, ok, n);
      GreedyIsSound(t, m, chain, i - 1, a);
      assert Witness(t, m, chain, i, n, a);
    }
  }

  // ---------------------------------------------------------------- completeness

  /** The combinator `left` directly left of `right` cannot be spoiled by the nearest
      choice for `right`. */
  predicate SafePair(left: Combinator, right: Combinator) {
    && (right == Descendant ==> left == Descendant)
    && (right == LaterSibling ==> left != NextSibling)
  }

  /** Read right to left: only descendant steps after a descendant step, and no `+`
      after a `~` before the next `>` or descendant step. */
  predicate Safe<T>(chain: seq<Step<T>>) {
    forall i :: 1 <= i < |chain| - 1 ==> SafePair(chain[i].combinator, chain[i + 1].combinator)
  }

  lemma NearestKeepsMatch<T>(t: Tree, m: Test<T>, chain: seq<Step<T>>, i: nat, right: Combinator, x: Node, a: Node, n: Node)
    requires Forest(t) && n in t && x in t && a in t && 0 < i < |chain| && SafePair(chain[i].combinator, right)
    requires CanMatch(t, m, chain, i, x)
    requires (right == Descendant && Ancestor(t, x, a)) || (right == LaterSibling && Before(t, x, a))
    ensures CanMatch(t, m, chain, i, a)
  {
    var b :| b in t && Witness(t, m, chain, i, x, b);
    if right == Descendant {
      AncestorTrans(t, b, x, a);
      if a == b { AncestorAntisym(t, b, x); }
    } else {
      BeforeMeansPlace(t, x, a);
      match chain[i].combinator
      case Descendant =>
        AncestorStep(t, b, x);
        AncestorStep(t, b, a);
        if a == b { AncestorStep(t, b, x); DepthParent(t, x); DepthParent(t, a); AncestorDepth(t, a, Parent(t, x)); }
      case Child =>
      case LaterSibling => BeforeTrans(t, b, x, a);
      case NextSibling =>
    }
    assert Witness(t, m, chain, i, a, b);
  }

  lemma {:induction false} GreedyIsComplete<T>(t: Tree, m: Test<T>, chain: seq<Step<T>>, i: nat, n: Node)
    requires Forest(t) && n in t && i < |chain| && Safe(chain) && CanMatch(t, m, chain, i, n)
    ensures Greedy(t, m, chain, i, n)
    decreases i
  {
    hide Forest, Related, Choose, Ancestor;
    if i > 0 {
      var x :| x in t && Witness(t, m, chain, i, n, x);
      var ok := At(m, chain[i - 1].token);
      var c := chain[i].combinator;
      ChoiceIsNearest(t, c, ok, n, x);
      ChoiceFacts(t, c, ok, n);
      var a := Choose(t, c, ok, n);
      if a != x && i > 1 { NearestKeepsMatch(t, m, chain, i - 1, c, x, a, n); }
      GreedyIsComplete(t, m, chain, i - 1, a);
    }
  }
}
