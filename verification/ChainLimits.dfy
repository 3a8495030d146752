/** Outside the safe combinator lists the nearest choice does miss matches: every
    unsafe list has a tree and token tests for which it does. */
module ChainLimits {
  import opened DomNodes
  import opened DomForest
  import opened Selectors
  import opened ChainMatching

  // ---------------------------------------------------------------- ladders

  /** The first rung from `i` on that starts a child list, or the end. */
  function RunEnd(down: seq<bool>, i: nat): (e: nat)
    requires i <= |down|
    ensures i <= e <= |down| && (e < |down| ==> down[e]) && forall k :: i <= k < e ==> !down[k]
    decreases |down| - i
  {
    if i == |down| || down[i] then i else RunEnd(down, i + 1)
  }

  /** The rung that starts the child list holding rung `i`. */
  function RunStart(down: seq<bool>, i: nat): (s: nat)
    requires i < |down|
    ensures s <= i && (s > 0 ==> down[s]) && forall k :: s < k <= i ==> !down[k]
  {
    if i == 0 || down[i] then i else RunStart(down, i - 1)
  }

  function RungKids(ns: seq<Node>, down: seq<bool>, i: nat): seq<Node>
    requires |ns| == |down| && i < |ns|
  {
    if i + 1 < |ns| && down[i + 1] then ns[i + 1..RunEnd(down, i + 2)] else []
  }

  function RungParent(ns: seq<Node>, down: seq<bool>, i: nat): Node?
    requires |ns| == |down| && i < |ns|
  {
    if RunStart(down, i) == 0 then null else ns[RunStart(down, i) - 1]
  }

  /** A tree in which rung `i` is the only child-starting child of rung `i - 1` where
      `down[i]`, and its next sibling otherwise. */
  ghost function Ladder(ns: seq<Node>, down: seq<bool>): Tree
    requires |ns| == |down|
  {
    map n | n in ns :: var i := IndexOf(ns, n); Links(RungParent(ns, down, i), RungKids(ns, down, i))
  }

  ghost predicate Rungs(ns: seq<Node>, down: seq<bool>) {
    && |ns| == |down| && |ns| > 1 && down[1] && Distinct(ns)
    && forall i :: 0 <= i < |ns| ==> ns[i].nodeType == ELEMENT
  }

  lemma RungAt(ns: seq<Node>, down: seq<bool>, i: nat)
    requires Rungs(ns, down) && i < |ns|
    ensures ns[i] in Ladder(ns, down)
    ensures Ladder(ns, down)[ns[i]] == Links(RungParent(ns, down, i), RungKids(ns, down, i))
  {
    assert ns[i] in ns;
    assert IndexOf(ns, ns[i]) == i;
  }

  lemma KidRungs(ns: seq<Node>, down: seq<bool>, i: nat, k: nat)
    requires Rungs(ns, down) && i < |ns| && k < |ns|
    ensures ns[k] in RungKids(ns, down, i) <==> RungParent(ns, down, k) == ns[i]
    ensures ns[k] in RungKids(ns, down, i) ==> i + 1 <= k && k - i - 1 < |RungKids(ns, down, i)| && RungKids(ns, down, i)[k - i - 1] == ns[k]
  {
    var kids := RungKids(ns, down, i);
    if ns[k] in kids {
      var j :| 0 <= j < |kids| && kids[j] == ns[k];
      assert ns[i + 1 + j] == ns[k];
    }
    if RungParent(ns, down, k) == ns[i] {
      var e := RunEnd(down, i + 2);
      assert k < e;
      assert kids[k - i - 1] == ns[k];
    }
  }

  lemma RungKidsDistinct(ns: seq<Node>, down: seq<bool>, i: nat)
    requires Rungs(ns, down) && i < |ns|
    ensures Distinct(RungKids(ns, down, i))
  {
  }

  lemma LadderAt(ns: seq<Node>, down: seq<bool>, n: Node)
    requires Rungs(ns, down) && n in Ladder(ns, down)
    ensures var t := Ladder(ns, down);
      && n.nodeType == ELEMENT && Distinct(t[n].kids) && Grounded(t, n)
      && (t[n].parent != null ==> t[n].parent in t && n in t[t[n].parent].kids)
  {
    hide Grounded, RungKids, RunStart;
    var i := IndexOf(ns, n);
    RungAt(ns, down, i);
    RungKidsDistinct(ns, down, i);
    LadderIsGrounded(ns, down, i);
    if RunStart(down, i) > 0 {
      RungAt(ns, down, RunStart(down, i) - 1);
      KidRungs(ns, down, RunStart(down, i) - 1, i);
    }
  }

  lemma LadderKid(ns: seq<Node>, down: seq<bool>, n: Node, c: Node)
    requires Rungs(ns, down) && n in Ladder(ns, down) && c in Ladder(ns, down)[n].kids
    ensures var t := Ladder(ns, down); c in t && c.nodeType == ELEMENT && t[c].parent == n
  {
    var i, k := IndexOf(ns, n), IndexOf(ns, c);
    RungAt(ns, down, i);
    RungAt(ns, down, k);
    KidRungs(ns, down, i, k);
  }

  lemma LadderIsForest(ns: seq<Node>, down: seq<bool>)
    requires Rungs(ns, down)
    ensures Forest(Ladder(ns, down))
  {
    hide Ladder, Grounded;
    var t := Ladder(ns, down);
    forall n {:trigger t[n].parent} | n in t
      ensures n.nodeType == ELEMENT && Distinct(t[n].kids) && Grounded(t, n)
      ensures t[n].parent != null ==> t[n].parent in t && n in t[t[n].parent].kids
    {
      LadderAt(ns, down, n);
    }
    forall n, c | n in t && c in t[n].kids ensures c in t && c.nodeType == ELEMENT && t[c].parent == n {
      LadderKid(ns, down, n, c);
    }
  }

  lemma {:induction false} LadderIsGrounded(ns: seq<Node>, down: seq<bool>, i: nat)
    requires Rungs(ns, down) && i < |ns|
    ensures Grounded(Ladder(ns, down), ns[i])
    decreases i
  {
    var t := Ladder(ns, down);
    RungAt(ns, down, i);
    if RunStart(down, i) == 0 {
      assert Up(t, ns[i], 1) == null;
    } else {
      LadderIsGrounded(ns, down, RunStart(down, i) - 1);
      var k: nat :| Up(t, ns[RunStart(down, i) - 1], k) == null;
      assert Up(t, ns[i], k + 1) == null;
    }
  }

  /** Neighbouring rungs. */
  lemma LadderSteps(ns: seq<Node>, down: seq<bool>, i: nat)
    requires Rungs(ns, down) && 0 < i < |ns|
    ensures var t := Ladder(ns, down);
      && Forest(t) && ns[i] in t && ns[i - 1] in t
      && (down[i] ==> t[ns[i]].parent == ns[i - 1] && PrevElement(t, ns[i]) == null)
      && (!down[i] ==> t[ns[i]].parent == t[ns[i - 1]].parent && PrevElement(t, ns[i]) == ns[i - 1])
  {
    hide Ladder, Grounded, Forest, SiblingPlace, RungKids, PrevElement, Distinct;
    var t := Ladder(ns, down);
    LadderIsForest(ns, down);
    RungAt(ns, down, i);
    RungAt(ns, down, i - 1);
    var s := RunStart(down, i);
    assert s > 0;
    KidRungs(ns, down, s - 1, i);
    RungAt(ns, down, s - 1);
    PlaceIs(t, ns[i], i - s);
    if !down[i] {
      KidRungs(ns, down, s - 1, i - 1);
      assert RungKids(ns, down, s - 1)[i - 1 - s] == ns[i - 1];
    }
  }

  /** The listed place of a node tells which element stands before it. */
  lemma PlaceIs(t: Tree, n: Node, k: nat)
    requires Forest(t) && n in t && t[n].parent != null
    requires k < |t[t[n].parent].kids| && t[t[n].parent].kids[k] == n
    ensures k == 0 ==> PrevElement(t, n) == null
    ensures k > 0 && t[t[n].parent].kids[k - 1].nodeType == ELEMENT ==> PrevElement(t, n) == t[t[n].parent].kids[k - 1]
  {
    SiblingPlaceFacts(t, n);
  }

  // ---------------------------------------------------------------- the missed match

  predicate IsDown(c: Combinator) {
    c == Descendant || c == Child
  }

  /** Step `i` of a chain looks for the token `i`. */
  function Numbered(cs: seq<Combinator>): (chain: seq<Step<int>>)
    ensures |chain| == |cs| && forall i: nat :: i < |cs| ==> chain[i] == Step(i, cs[i])
  {
    seq(|cs|, (i: nat) requires i < |cs| => Step(i, cs[i]))
  }

  predicate UnsafeAt(cs: seq<Combinator>, j: nat) {
    1 <= j < |cs| - 1 && !SafePair(cs[j], cs[j + 1])
  }

  /** The rung of step `i`: a decoy for step `j` stands between the rungs of steps `j`
      and `j + 1`. */
  function Rung(j: nat, i: nat): nat {
    if i <= j then i + 1 else i + 2
  }

  function Downs(cs: seq<Combinator>, j: nat): (r: seq<bool>)
    requires j + 1 < |cs|
    ensures |r| == |cs| + 2
    ensures forall p: nat :: p < |r| ==> r[p] == DownAt(cs, j, p)
  {
    seq(|cs| + 2, (p: nat) requires p < |cs| + 2 => DownAt(cs, j, p))
  }

  predicate DownAt(cs: seq<Combinator>, j: nat, p: nat)
    requires j + 1 < |cs| && p < |cs| + 2
  {
    if p <= 1 then true
    else if p <= j + 1 then IsDown(cs[p - 1])
    else if p == j + 2 then IsDown(cs[j + 1])
    else IsDown(cs[p - 2])
  }

  /** Token `i` holds of the rung of step `i`; token `j` also holds of the decoy. */
  ghost function Decoyed(ns: seq<Node>, j: nat): Test<int> {
    (n: Node, token: int) =>
      (0 <= token && Rung(j, token) < |ns| && ns[Rung(j, token)] == n) || (token == j && j + 2 < |ns| && ns[j + 2] == n)
  }

  ghost predicate Stage(cs: seq<Combinator>, j: nat, ns: seq<Node>) {
    && UnsafeAt(cs, j) && |ns| == |cs| + 2 && Distinct(ns)
    && forall i :: 0 <= i < |ns| ==> ns[i].nodeType == ELEMENT
  }

  lemma KeysHaveDepth(t: Tree, n: Node)
    requires Forest(t) && n in t
    ensures Grounded(t, n)
  {
  }

  /** The neighbouring rung is related as the combinator asks, and the matcher takes it
      whenever its token holds there. */
  lemma NeighbourIsTaken(ns: seq<Node>, down: seq<bool>, p: nat, c: Combinator, ok: Node -> bool)
    requires Rungs(ns, down) && 0 < p < |ns| && down[p] == IsDown(c)
    ensures var t := Ladder(ns, down);
      && Forest(t) && ns[p] in t && ns[p - 1] in t
      && Related(t, c, ns[p - 1], ns[p])
      && (ok(ns[p - 1]) ==> Choose(t, c, ok, ns[p]) == ns[p - 1])
  {
    hide Ladder, Forest, Grounded, Ancestor, PrevElement, SiblingPlace;
    var t := Ladder(ns, down);
    LadderSteps(ns, down, p);
    KeysHaveDepth(t, ns[p]);
    PrevFacts(t, ns[p]);
    DepthParent(t, ns[p]);
    AncestorStep(t, ns[p - 1], ns[p]);
    AncestorRefl(t, ns[p - 1]);
  }

  lemma StageRungs(cs: seq<Combinator>, j: nat, ns: seq<Node>)
    requires Stage(cs, j, ns)
    ensures Rungs(ns, Downs(cs, j)) && Forest(Ladder(ns, Downs(cs, j)))
    ensures forall p: nat :: p < |ns| ==> ns[p] in Ladder(ns, Downs(cs, j))
  {
    LadderIsForest(ns, Downs(cs, j));
    forall p: nat | p < |ns| ensures ns[p] in Ladder(ns, Downs(cs, j)) { RungAt(ns, Downs(cs, j), p); }
  }

  /** Past the decoy the true chain still holds together. */
  lemma StrideOverDecoy(cs: seq<Combinator>, j: nat, ns: seq<Node>)
    requires Stage(cs, j, ns)
    ensures Related(Ladder(ns, Downs(cs, j)), cs[j + 1], ns[j + 1], ns[j + 3])
  {
    hide Ladder, Forest, Ancestor, PrevElement, Before;
    var down := Downs(cs, j);
    var t := Ladder(ns, down);
    StageRungs(cs, j, ns);
    LadderSteps(ns, down, j + 2);
    LadderSteps(ns, down, j + 3);
    if cs[j + 1] == Descendant {
      AncestorRefl(t, ns[j + 1]);
      AncestorStep(t, ns[j + 1], ns[j + 2]);
      AncestorStep(t, ns[j + 1], ns[j + 3]);
    } else {
      PrevFacts(t, ns[j + 2]);
      PrevFacts(t, ns[j + 3]);
      BeforeTrans(t, ns[j + 1], ns[j + 2], ns[j + 3]);
    }
  }

  lemma {:induction false} TrueChainMatches(cs: seq<Combinator>, j: nat, ns: seq<Node>, i: nat)
    requires Stage(cs, j, ns) && i < |cs|
    ensures CanMatch(Ladder(ns, Downs(cs, j)), Decoyed(ns, j), Numbered(cs), i, ns[Rung(j, i)])
    decreases i
  {
    hide Ladder, Forest, Ancestor, PrevElement, Before;
    var down := Downs(cs, j);
    var t, m := Ladder(ns, down), Decoyed(ns, j);
    StageRungs(cs, j, ns);
    if i > 0 {
      TrueChainMatches(cs, j, ns, i - 1);
      if i == j + 1 {
        StrideOverDecoy(cs, j, ns);
      } else {
        NeighbourIsTaken(ns, down, Rung(j, i), cs[i], At(m, i - 1));
      }
      assert Witness(t, m, Numbered(cs), i, ns[Rung(j, i)], ns[Rung(j, i - 1)]);
    }
  }

  /** At the decoy the matcher is stuck. */
  lemma DecoyIsStuck(cs: seq<Combinator>, j: nat, ns: seq<Node>)
    requires Stage(cs, j, ns)
    ensures Forest(Ladder(ns, Downs(cs, j))) && ns[j + 2] in Ladder(ns, Downs(cs, j))
    ensures !Greedy(Ladder(ns, Downs(cs, j)), Decoyed(ns, j), Numbered(cs), j, ns[j + 2])
  {
    hide Ladder, Forest, Ancestor, PrevElement, Before;
    var down := Downs(cs, j);
    var t, m := Ladder(ns, down), Decoyed(ns, j);
    StageRungs(cs, j, ns);
    LadderSteps(ns, down, j + 2);
    var ok := At(m, j - 1);
    assert !ok(ns[j + 1]);
    assert Numbered(cs)[j - 1].token == j - 1;
    PrevFacts(t, ns[j + 2]);
    assert Choose(t, cs[j], ok, ns[j + 2]) == null;
  }

  lemma {:induction false} MatcherMeetsDecoy(cs: seq<Combinator>, j: nat, ns: seq<Node>, i: nat)
    requires Stage(cs, j, ns) && j < i < |cs|
    ensures Forest(Ladder(ns, Downs(cs, j))) && ns[Rung(j, i)] in Ladder(ns, Downs(cs, j))
    ensures !Greedy(Ladder(ns, Downs(cs, j)), Decoyed(ns, j), Numbered(cs), i, ns[Rung(j, i)])
    decreases i
  {
    hide Ladder, Forest, Ancestor, PrevElement, Before;
    var down := Downs(cs, j);
    var m := Decoyed(ns, j);
    StageRungs(cs, j, ns);
    NeighbourIsTaken(ns, down, i + 2, cs[i], At(m, i - 1));
    if i == j + 1 { DecoyIsStuck(cs, j, ns); } else { MatcherMeetsDecoy(cs, j, ns, i - 1); }
  }

  /** Every unsafe combinator list has a tree, token tests and a node that matches the
      chain while the matcher says it does not. */
  lemma UnsafeChainsMissMatches(cs: seq<Combinator>, j: nat, ns: seq<Node>) returns (t: Tree, m: Test<int>, n: Node)
    requires UnsafeAt(cs, j) && |ns| == |cs| + 2 && Distinct(ns) && forall i :: 0 <= i < |ns| ==> ns[i].nodeType == ELEMENT
    ensures !Safe(Numbered(cs))
    ensures Forest(t) && n in t && CanMatch(t, m, Numbered(cs), |cs| - 1, n) && !Greedy(t, m, Numbered(cs), |cs| - 1, n)
  {
    hide Ladder, Forest, Ancestor, PrevElement, Before;
    t, m, n := Ladder(ns, Downs(cs, j)), Decoyed(ns, j), ns[Rung(j, |cs| - 1)];
    TrueChainMatches(cs, j, ns, |cs| - 1);
    MatcherMeetsDecoy(cs, j, ns, |cs| - 1);
    assert !SafePair(Numbered(cs)[j].combinator, Numbered(cs)[j + 1].combinator);
  }

  /** In particular `a > b c`: with rungs a, b, another b and c below one another, c
      matches, but the matcher settles on the inner b. */
  lemma ChildThenDescendantIsMissed(ns: seq<Node>) returns (t: Tree, m: Test<int>, n: Node)
    requires |ns| == 5 && Distinct(ns) && forall i :: 0 <= i < |ns| ==> ns[i].nodeType == ELEMENT
    ensures var chain := Numbered([Descendant, Child, Descendant]);
      Forest(t) && n in t && CanMatch(t, m, chain, 2, n) && !Greedy(t, m, chain, 2, n)
  {
    t, m, n := UnsafeChainsMissMatches([Descendant, Child, Descendant], 1, ns);
  }
}
