/** The order in which a dispatch calls listeners. */
module EventOrder {
  import opened DomNodes
  import opened DomForest

  /** A registered listener; the function is known by its identity. */
  datatype Entry = Entry(fn: nat, capture: bool, once: bool)

  const CAPTURING_PHASE := 1
  const AT_TARGET := 2
  const BUBBLING_PHASE := 3

  datatype Call = Call(node: Node, entry: Entry, phase: int)

  /** What a listener does to the event it is given. */
  datatype Reaction = Reaction(stop: bool, stopImmediate: bool, prevent: bool)

  /** Listeners may react to anything that was called before them. */
  type Reactions = (seq<Call>, Call) -> Reaction

  datatype Flags = Flags(stop: bool, immediate: bool, prevented: bool)

  function Apply(f: Flags, r: Reaction, cancelable: bool): Flags {
    Flags(f.stop || r.stop || r.stopImmediate, f.immediate || r.stopImmediate, f.prevented || (cancelable && r.prevent))
  }

  // ---------------------------------------------------------------- the path

  ghost function Path(t: Tree, n: Node): seq<Node>
    requires Grounded(t, n)
    decreases Depth(t, n)
  {
    DepthParent(t, n);
    [n] + if Parent(t, n) == null then [] else Path(t, Parent(t, n))
  }

  /** The path is the parent chain: the target, its parent, and so on to the root. */
  lemma {:induction false} PathIsChain(t: Tree, n: Node)
    requires Closed(t) && Grounded(t, n) && n in t
    ensures var path := Path(t, n);
      && path != [] && path[0] == n && |path| == Depth(t, n)
      && (forall i :: 0 <= i < |path| ==> path[i] in t)
      && (forall i :: 0 <= i < |path| - 1 ==> t[path[i]].parent == path[i + 1])
      && t[path[|path| - 1]].parent == null
      && (forall x :: x in path <==> Ancestor(t, x, n))
    decreases Depth(t, n)
  {
    DepthParent(t, n);
    var up := Parent(t, n);
    forall x ensures Ancestor(t, x, n) <==> x == n || Ancestor(t, x, up) { AncestorStep(t, x, n); }
    if up != null {
      PathIsChain(t, up);
    } else {
      DepthOfNull(t);
      forall x ensures !Ancestor(t, x, up) { AncestorOfNull(t, x); }
    }
  }

  lemma DepthOfNull(t: Tree)
    ensures Grounded(t, null) && Depth(t, null) == 0
  {
    GroundedNull(t);
  }

  lemma {:induction false} PathIsDistinct(t: Tree, n: Node)
    requires Closed(t) && Grounded(t, n) && n in t
    ensures Distinct(Path(t, n))
    decreases Depth(t, n)
  {
    DepthParent(t, n);
    var up := Parent(t, n);
    if up != null {
      PathIsDistinct(t, up);
      PathIsChain(t, up);
      if n in Path(t, up) { AncestorDepth(t, n, up); }
    }
  }

  // ---------------------------------------------------------------- all calls, in order

  type Listeners = map<(Node, string), seq<Entry>>

  function EntriesAt(ls: Listeners, n: Node, eventType: string): seq<Entry> {
    if (n, eventType) in ls then ls[(n, eventType)] else []
  }

  /** The calls for the entries of one kind, in registration order. */
  function CallsOf(n: Node, entries: seq<Entry>, capture: bool, phase: int): seq<Call> {
    if entries == [] then []
    else (if entries[0].capture == capture then [Call(n, entries[0], phase)] else []) + CallsOf(n, entries[1..], capture, phase)
  }

  function CallsAt(ls: Listeners, n: Node, eventType: string, capture: bool, phase: int): seq<Call> {
    CallsOf(n, EntriesAt(ls, n, eventType), capture, phase)
  }

  /** Capture listeners of `path[1..i]`, outermost first. */
  function CaptureGroups(ls: Listeners, path: seq<Node>, eventType: string, i: nat): seq<seq<Call>>
    requires 0 < i <= |path|
  {
    if i == 1 then []
    else [CallsAt(ls, path[i - 1], eventType, true, CAPTURING_PHASE)] + CaptureGroups(ls, path, eventType, i - 1)
  }

  function TargetGroup(ls: Listeners, n: Node, eventType: string): seq<Call> {
    CallsAt(ls, n, eventType, true, AT_TARGET) + CallsAt(ls, n, eventType, false, AT_TARGET)
  }

  /** Bubble listeners of `path[i..]`, innermost first. */
  function BubbleGroups(ls: Listeners, path: seq<Node>, eventType: string, i: nat): seq<seq<Call>>
    requires i <= |path|
    decreases |path| - i
  {
    if i == |path| then []
    else [CallsAt(ls, path[i], eventType, false, BUBBLING_PHASE)] + BubbleGroups(ls, path, eventType, i + 1)
  }

  function Groups(ls: Listeners, path: seq<Node>, eventType: string, bubbles: bool): seq<seq<Call>>
    requires path != []
  {
    CaptureGroups(ls, path, eventType, |path|) + [TargetGroup(ls, path[0], eventType)]
    + if bubbles then BubbleGroups(ls, path, eventType, 1) else []
  }

  function Flatten(groups: seq<seq<Call>>): seq<Call> {
    if groups == [] then [] else groups[0] + Flatten(groups[1..])
  }

  // ---------------------------------------------------------------- running

  datatype Progress = Progress(trace: seq<Call>, flags: Flags)

  /** One list of calls: stopped only by `stopImmediatePropagation`. */
  function RunCalls(react: Reactions, s: Progress, calls: seq<Call>, cancelable: bool): Progress
    decreases |calls|
  {
    if calls == [] || s.flags.immediate then s
    else
      RunCalls(react, Progress(s.trace + [calls[0]], Apply(s.flags, react(s.trace, calls[0]), cancelable)), calls[1..], cancelable)
  }

  /** One node after the other: stopped by `stopPropagation`. */
  function RunGroups(react: Reactions, s: Progress, groups: seq<seq<Call>>, cancelable: bool): Progress
    decreases |groups|
  {
    if groups == [] || s.flags.stop then s
    else RunGroups(react, RunCalls(react, s, groups[0], cancelable), groups[1..], cancelable)
  }

  lemma {:induction false} RunCallsConcat(react: Reactions, s: Progress, a: seq<Call>, b: seq<Call>, cancelable: bool)
    ensures RunCalls(react, s, a + b, cancelable) == RunCalls(react, RunCalls(react, s, a, cancelable), b, cancelable)
    decreases |a|
  {
    if a == [] {
      assert a + b == b;
    } else if !s.flags.immediate {
      assert (a + b)[1..] == a[1..] + b;
      RunCallsConcat(react, Progress(s.trace + [a[0]], Apply(s.flags, react(s.trace, a[0]), cancelable)), a[1..], b, cancelable);
    }
  }

  lemma {:induction false} RunGroupsConcat(react: Reactions, s: Progress, a: seq<seq<Call>>, b: seq<seq<Call>>, cancelable: bool)
    ensures RunGroups(react, s, a + b, cancelable) == RunGroups(react, RunGroups(react, s, a, cancelable), b, cancelable)
    decreases |a|
  {
    hide RunCalls;
    if a == [] {
      assert a + b == b;
    } else if !s.flags.stop {
      assert (a + b)[1..] == a[1..] + b;
      RunGroupsConcat(react, RunCalls(react, s, a[0], cancelable), a[1..], b, cancelable);
    }
  }

  // ---------------------------------------------------------------- which calls are made

  /** The reaction of call `j`, had all calls before it been made. */
  function ReactionAt(react: Reactions, before: seq<Call>, all: seq<Call>, j: nat): Reaction
    requires j < |all|
  {
    react(before + all[..j], all[j])
  }

  function GroupOf(groups: seq<seq<Call>>, i: nat): nat
    requires i < |Flatten(groups)|
  {
    if i < |groups[0]| then 0 else 1 + GroupOf(groups[1..], i - |groups[0]|)
  }

  /** No earlier call stops the event at once, and none of an earlier node stops its
      propagation. */
  ghost predicate Reached(react: Reactions, before: seq<Call>, groups: seq<seq<Call>>, i: nat)
    requires i < |Flatten(groups)|
  {
    var all := Flatten(groups);
    forall j {:trigger ReactionAt(react, before, all, j)} :: 0 <= j < i ==>
      var r := ReactionAt(react, before, all, j);
      !r.stopImmediate && (r.stop ==> GroupOf(groups, j) == GroupOf(groups, i))
  }

  lemma {:induction false} CallsMade(react: Reactions, s: Progress, calls: seq<Call>, cancelable: bool) returns (n: nat)
    requires !s.flags.immediate
    ensures n <= |calls| && RunCalls(react, s, calls, cancelable).trace == s.trace + calls[..n]
    ensures forall j :: 0 <= j < n - 1 ==> !ReactionAt(react, s.trace, calls, j).stopImmediate
    ensures n < |calls| ==> n > 0 && ReactionAt(react, s.trace, calls, n - 1).stopImmediate
    ensures var f := RunCalls(react, s, calls, cancelable).flags;
      && (f.stop <==> s.flags.stop || exists j :: 0 <= j < n && Stops(ReactionAt(react, s.trace, calls, j)))
      && (f.immediate ==> f.stop)
      && (f.prevented <==> s.flags.prevented || exists j :: 0 <= j < n && cancelable && ReactionAt(react, s.trace, calls, j).prevent)
    decreases |calls|
  {
    if calls == [] {
      n := 0;
      return;
    }
    var r := react(s.trace, calls[0]);
    var s1 := Progress(s.trace + [calls[0]], Apply(s.flags, r, cancelable));
    assert ReactionAt(react, s.trace, calls, 0) == r by { assert s.trace + calls[..0] == s.trace; }
    if r.stopImmediate {
      n := 1;
      assert RunCalls(react, s1, calls[1..], cancelable) == s1;
      assert calls[..1] == [calls[0]];
    } else {
      var m := CallsMade(react, s1, calls[1..], cancelable);
      n := m + 1;
      assert calls[..n] == [calls[0]] + calls[1..][..m];
      assert s.trace + [calls[0]] + calls[1..][..m] == s.trace + calls[..n];
      forall j | 0 <= j < |calls| - 1
        ensures ReactionAt(react, s1.trace, calls[1..], j) == ReactionAt(react, s.trace, calls, j + 1)
      {
        assert s1.trace + calls[1..][..j] == s.trace + calls[..j + 1];
      }
      ShiftBack(react, s, s1, calls, n, cancelable);
    }
  }

  predicate Stops(r: Reaction) {
    r.stop || r.stopImmediate
  }

  lemma ShiftBack(react: Reactions, s: Progress, s1: Progress, calls: seq<Call>, n: nat, cancelable: bool)
    requires 0 < n <= |calls|
    requires forall j :: 0 <= j < |calls| - 1 ==>
      ReactionAt(react, s1.trace, calls[1..], j) == ReactionAt(react, s.trace, calls, j + 1)
    ensures (exists j :: 0 <= j < n && Stops(ReactionAt(react, s.trace, calls, j))) <==>
      Stops(ReactionAt(react, s.trace, calls, 0)) || exists j :: 0 <= j < n - 1 && Stops(ReactionAt(react, s1.trace, calls[1..], j))
    ensures (exists j :: 0 <= j < n && cancelable && ReactionAt(react, s.trace, calls, j).prevent) <==>
      (cancelable && ReactionAt(react, s.trace, calls, 0).prevent) || exists j :: 0 <= j < n - 1 && cancelable && ReactionAt(react, s1.trace, calls[1..], j).prevent
    ensures forall j :: 0 < j < n - 1 ==> ReactionAt(react, s.trace, calls, j) == ReactionAt(react, s1.trace, calls[1..], j - 1)
  {
    if j :| 0 <= j < n && Stops(ReactionAt(react, s.trace, calls, j)) && j > 0 {
      assert ReactionAt(react, s1.trace, calls[1..], j - 1) == ReactionAt(react, s.trace, calls, j);
    }
    if j :| 0 <= j < n && cancelable && ReactionAt(react, s.trace, calls, j).prevent && j > 0 {
      assert ReactionAt(react, s1.trace, calls[1..], j - 1) == ReactionAt(react, s.trace, calls, j);
    }
  }

  lemma FlattenUnfold(groups: seq<seq<Call>>)
    requires groups != []
    ensures Flatten(groups) == groups[0] + Flatten(groups[1..])
  {
  }

  lemma GroupOfUnfold(groups: seq<seq<Call>>, i: nat)
    requires groups != [] && i < |Flatten(groups)|
    ensures i < |groups[0]| ==> GroupOf(groups, i) == 0
    ensures i >= |groups[0]| ==> i - |groups[0]| < |Flatten(groups[1..])| && GroupOf(groups, i) == 1 + GroupOf(groups[1..], i - |groups[0]|)
  {
  }

  /** Reactions within the first group and behind it. */
  lemma ReactionShift(react: Reactions, before: seq<Call>, groups: seq<seq<Call>>, j: nat)
    requires groups != [] && j < |Flatten(groups)|
    ensures j < |groups[0]| ==>
      ReactionAt(react, before, Flatten(groups), j) == ReactionAt(react, before, groups[0], j)
    ensures j >= |groups[0]| ==>
      && j - |groups[0]| < |Flatten(groups[1..])|
      && ReactionAt(react, before, Flatten(groups), j) == ReactionAt(react, before + groups[0], Flatten(groups[1..]), j - |groups[0]|)
  {
    var g, all, rest := groups[0], Flatten(groups), Flatten(groups[1..]);
    FlattenUnfold(groups);
    if j < |g| {
      assert all[..j] == g[..j];
    } else {
      assert all[..j] == g + rest[..j - |g|];
      assert before + all[..j] == before + g + rest[..j - |g|];
    }
  }

  lemma ReachedInFirst(react: Reactions, before: seq<Call>, groups: seq<seq<Call>>, i: nat)
    requires groups != [] && i < |groups[0]| && i < |Flatten(groups)|
    ensures Reached(react, before, groups, i) <==> forall j :: 0 <= j < i ==> !ReactionAt(react, before, groups[0], j).stopImmediate
  {
    var all := Flatten(groups);
    forall j | 0 <= j < i
      ensures ReactionAt(react, before, all, j) == ReactionAt(react, before, groups[0], j) && GroupOf(groups, j) == GroupOf(groups, i)
    {
      ReactionShift(react, before, groups, j);
    }
  }

  /** Behind the first group a call needs that nothing in it stopped. */
  lemma ReachedBehind(react: Reactions, before: seq<Call>, groups: seq<seq<Call>>, i: nat)
    requires groups != [] && |groups[0]| <= i < |Flatten(groups)|
    ensures i - |groups[0]| < |Flatten(groups[1..])|
    ensures Reached(react, before, groups, i) <==>
      && (forall j :: 0 <= j < |groups[0]| ==> !Stops(ReactionAt(react, before, groups[0], j)))
      && Reached(react, before + groups[0], groups[1..], i - |groups[0]|)
  {
    var g, all, rest := |groups[0]|, Flatten(groups), Flatten(groups[1..]);
    FlattenUnfold(groups);
    forall j | 0 <= j <= i
      ensures j < g ==> ReactionAt(react, before, all, j) == ReactionAt(react, before, groups[0], j) && GroupOf(groups, j) == 0
      ensures j >= g ==> ReactionAt(react, before, all, j) == ReactionAt(react, before + groups[0], rest, j - g)
                         && GroupOf(groups, j) == 1 + GroupOf(groups[1..], j - g)
    {
      ReactionShift(react, before, groups, j);
      GroupOfUnfold(groups, j);
    }
    if Reached(react, before, groups, i) {
      forall j | 0 <= j < g ensures !Stops(ReactionAt(react, before, groups[0], j)) {
        assert !ReactionAt(react, before, all, j).stopImmediate;
      }
      forall j {:trigger ReactionAt(react, before + groups[0], rest, j)} | 0 <= j < i - g
        ensures var r := ReactionAt(react, before + groups[0], rest, j);
          !r.stopImmediate && (r.stop ==> GroupOf(groups[1..], j) == GroupOf(groups[1..], i - g))
      {
        assert !ReactionAt(react, before, all, j + g).stopImmediate;
      }
    }
  }

  /** A dispatch makes the calls in order, and a call is made exactly when it is
      reached. */
  lemma {:induction false} GroupsMade(react: Reactions, s: Progress, groups: seq<seq<Call>>, cancelable: bool) returns (n: nat)
    requires s.flags.immediate ==> s.flags.stop
    ensures n <= |Flatten(groups)| && RunGroups(react, s, groups, cancelable).trace == s.trace + Flatten(groups)[..n]
    ensures s.flags.stop ==> n == 0
    ensures !s.flags.stop ==> forall i :: 0 <= i < |Flatten(groups)| ==> (i < n <==> Reached(react, s.trace, groups, i))
    ensures var f := RunGroups(react, s, groups, cancelable).flags;
      && (n < |Flatten(groups)| ==> f.stop)
      && (f.immediate ==> f.stop)
      && (f.prevented <==> s.flags.prevented || exists j :: 0 <= j < n && cancelable && ReactionAt(react, s.trace, Flatten(groups), j).prevent)
    decreases |groups|
  {
    if groups == [] || s.flags.stop {
      n := 0;
      assert s.trace + Flatten(groups)[..0] == s.trace;
      return;
    }
    var g, all := groups[0], Flatten(groups);
    FlattenUnfold(groups);
    var m := CallsMade(react, s, g, cancelable);
    var s1 := RunCalls(react, s, g, cancelable);
    var k := GroupsMade(react, s1, groups[1..], cancelable);
    n := m + k;
    forall i | 0 <= i < |all| ensures i < n <==> Reached(react, s.trace, groups, i) {
      if i < |g| {
        ReachedInFirst(react, s.trace, groups, i);
        if i >= m { assert ReactionAt(react, s.trace, g, m - 1).stopImmediate; }
        if i < n { assert i < m; }
      } else {
        ReachedBehind(react, s.trace, groups, i);
        if m < |g| {
          assert Stops(ReactionAt(react, s.trace, g, m - 1));
        } else {
          assert g[..m] == g;
        }
      }
    }
    TraceSplits(s.trace, g, all, m, k);
    forall j | 0 <= j < n
      ensures j < m ==> ReactionAt(react, s.trace, all, j) == ReactionAt(react, s.trace, g, j)
      ensures j >= m ==> ReactionAt(react, s.trace, all, j) == ReactionAt(react, s1.trace, Flatten(groups[1..]), j - m)
    {
      ReactionShift(react, s.trace, groups, j);
      if j >= m { assert g[..m] == g; }
    }
    PreventedSplits(react, s.trace, s1.trace, g, all, Flatten(groups[1..]), m, k);
  }

  lemma TraceSplits(before: seq<Call>, g: seq<Call>, all: seq<Call>, m: nat, k: nat)
    requires m <= |g| && g <= all && k <= |all| - |g| && (k > 0 ==> m == |g|)
    ensures before + g[..m] + all[|g|..][..k] == before + all[..m + k]
  {
  }

  lemma PreventedSplits(react: Reactions, before: seq<Call>, before1: seq<Call>, g: seq<Call>, all: seq<Call>, rest: seq<Call>, m: nat, k: nat)
    requires m <= |g| && m + k <= |all| && k <= |rest|
    requires forall j :: 0 <= j < m + k ==>
      if j < m then ReactionAt(react, before, all, j) == ReactionAt(react, before, g, j)
      else ReactionAt(react, before, all, j) == ReactionAt(react, before1, rest, j - m)
    ensures (exists j :: 0 <= j < m + k && ReactionAt(react, before, all, j).prevent) <==>
      (exists j :: 0 <= j < m && ReactionAt(react, before, g, j).prevent) || exists j :: 0 <= j < k && ReactionAt(react, before1, rest, j).prevent
  {
    if j :| 0 <= j < k && ReactionAt(react, before1, rest, j).prevent {
      assert ReactionAt(react, before, all, j + m).prevent;
    }
    if j :| 0 <= j < m && ReactionAt(react, before, g, j).prevent {
      assert ReactionAt(react, before, all, j).prevent;
    }
    if j :| 0 <= j < m + k && ReactionAt(react, before, all, j).prevent {
      if j >= m { assert ReactionAt(react, before1, rest, j - m).prevent; }
    }
  }

  /** Without any stopping reaction every listener on the path is called. */
  lemma AllCalledWithoutStop(react: Reactions, s: Progress, groups: seq<seq<Call>>, cancelable: bool)
    requires !s.flags.stop && !s.flags.immediate
    requires forall j :: 0 <= j < |Flatten(groups)| ==> !Stops(ReactionAt(react, s.trace, Flatten(groups), j))
    ensures RunGroups(react, s, groups, cancelable).trace == s.trace + Flatten(groups)
  {
    var n := GroupsMade(react, s, groups, cancelable);
    var all := Flatten(groups);
    assert n < |all| ==> Reached(react, s.trace, groups, n);
    assert all[..|all|] == all;
  }

  /** Listeners that stop propagation when they are capture listeners of the target, and
      only then. */
  function TargetStopper(prevent: (seq<Call>, Call) -> bool): Reactions {
    (h: seq<Call>, c: Call) => Reaction(c.phase == AT_TARGET && c.entry.capture, false, prevent(h, c))
  }

  lemma ReactionOf(prevent: (seq<Call>, Call) -> bool, before: seq<Call>, calls: seq<Call>, j: nat)
    requires j < |calls|
    ensures var r := ReactionAt(TargetStopper(prevent), before, calls, j);
      !r.stopImmediate && (r.stop <==> calls[j].phase == AT_TARGET && calls[j].entry.capture)
  {
    assert !TargetStopper(prevent)(before + calls[..j], calls[j]).stopImmediate;
  }

  lemma GroupRunsThrough(prevent: (seq<Call>, Call) -> bool, s: Progress, g: seq<Call>, cancelable: bool)
    requires !s.flags.immediate
    ensures var r := RunCalls(TargetStopper(prevent), s, g, cancelable);
      && r.trace == s.trace + g && !r.flags.immediate
      && (r.flags.stop <==> s.flags.stop || exists c :: c in g && c.phase == AT_TARGET && c.entry.capture)
  {
    hide RunCalls, ReactionAt, TargetStopper;
    var n := CallsMade(TargetStopper(prevent), s, g, cancelable);
    forall j | 0 <= j < |g|
      ensures var r := ReactionAt(TargetStopper(prevent), s.trace, g, j);
        !r.stopImmediate && (r.stop <==> g[j].phase == AT_TARGET && g[j].entry.capture)
    {
      ReactionOf(prevent, s.trace, g, j);
      assert g[j] in g;
    }
    assert n == |g| && g[..n] == g;
    ImmediateOnlyByReaction(prevent, s, g, cancelable);
  }

  /** In particular the target's bubble listeners still run after `stopPropagation` in
      one of its capture listeners, and nothing runs after that. */
  lemma TargetIsOneGroup(prevent: (seq<Call>, Call) -> bool, s: Progress, ls: Listeners, path: seq<Node>, eventType: string, cancelable: bool)
    requires path != [] && !s.flags.stop && !s.flags.immediate
    requires CallsAt(ls, path[0], eventType, true, AT_TARGET) != []
    ensures RunGroups(TargetStopper(prevent), s, Groups(ls, path, eventType, true), cancelable).trace ==
      s.trace + Flatten(CaptureGroups(ls, path, eventType, |path|)) + TargetGroup(ls, path[0], eventType)
  {
    hide TargetStopper, RunCalls, CallsAt, CaptureGroups, BubbleGroups;
    var caps, target, bubbles := CaptureGroups(ls, path, eventType, |path|), TargetGroup(ls, path[0], eventType), BubbleGroups(ls, path, eventType, 1);
    RunGroupsConcat(TargetStopper(prevent), s, caps + [target], bubbles, cancelable);
    RunGroupsConcat(TargetStopper(prevent), s, caps, [target], cancelable);
    CapturesRunThrough(prevent, s, ls, path, eventType, |path|, cancelable);
    var s1 := RunGroups(TargetStopper(prevent), s, caps, cancelable);
    GroupRunsThrough(prevent, s1, target, cancelable);
    CallsAtFacts(ls, path[0], eventType, true, AT_TARGET);
    assert target[0] == CallsAt(ls, path[0], eventType, true, AT_TARGET)[0];
    assert [target][1..] == caps[..0];
    assert RunGroups(TargetStopper(prevent), s1, [target], cancelable) == RunCalls(TargetStopper(prevent), s1, target, cancelable);
  }

  lemma CallsAtFacts(ls: Listeners, n: Node, eventType: string, capture: bool, phase: int)
    ensures var cs := CallsAt(ls, n, eventType, capture, phase);
      forall c :: c in cs ==> c.node == n && c.entry.capture == capture && c.phase == phase
  {
    CallsOfFacts(n, EntriesAt(ls, n, eventType), capture, phase);
  }

  lemma {:induction false} CallsOfFacts(n: Node, entries: seq<Entry>, capture: bool, phase: int)
    ensures var cs := CallsOf(n, entries, capture, phase);
      forall c :: c in cs ==> c.node == n && c.entry.capture == capture && c.phase == phase
    decreases |entries|
  {
    if entries != [] { CallsOfFacts(n, entries[1..], capture, phase); }
  }

  lemma {:induction false} CapturesRunThrough(prevent: (seq<Call>, Call) -> bool, s: Progress, ls: Listeners, path: seq<Node>, eventType: string, i: nat, cancelable: bool)
    requires 0 < i <= |path| && !s.flags.stop && !s.flags.immediate
    ensures var r := RunGroups(TargetStopper(prevent), s, CaptureGroups(ls, path, eventType, i), cancelable);
      && r.trace == s.trace + Flatten(CaptureGroups(ls, path, eventType, i)) && !r.flags.stop && !r.flags.immediate
    decreases i
  {
    hide TargetStopper, RunCalls, CallsAt;
    if i == 1 {
      assert s.trace + [] == s.trace;
    } else {
      var g, rest := CallsAt(ls, path[i - 1], eventType, true, CAPTURING_PHASE), CaptureGroups(ls, path, eventType, i - 1);
      CallsAtFacts(ls, path[i - 1], eventType, true, CAPTURING_PHASE);
      GroupRunsThrough(prevent, s, g, cancelable);
      CapturesRunThrough(prevent, RunCalls(TargetStopper(prevent), s, g, cancelable), ls, path, eventType, i - 1, cancelable);
      assert CaptureGroups(ls, path, eventType, i)[1..] == rest;
      assert s.trace + g + Flatten(rest) == s.trace + (g + Flatten(rest));
    }
  }

  lemma {:induction false} ImmediateOnlyByReaction(prevent: (seq<Call>, Call) -> bool, s: Progress, calls: seq<Call>, cancelable: bool)
    requires !s.flags.immediate
    ensures !RunCalls(TargetStopper(prevent), s, calls, cancelable).flags.immediate
    decreases |calls|
  {
    if calls != [] {
      ImmediateOnlyByReaction(prevent, Progress(s.trace + [calls[0]], Apply(s.flags, TargetStopper(prevent)(s.trace, calls[0]), cancelable)), calls[1..], cancelable);
    }
  }
}
