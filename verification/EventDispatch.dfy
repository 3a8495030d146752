/** Listener registration and dispatch on mutable events and listener lists. */
module EventDispatch {
  import opened DomNodes
  import opened DomForest
  import opened DomShared
  import opened EventOrder

  class LeapEvent {
    const eventType: string
    const bubbles: bool
    const cancelable: bool
    var defaultPrevented: bool
    var stopPropagationFlag: bool
    var stopImmediateFlag: bool
    var target: Node?
    var currentTarget: Node?
    var eventPhase: int

    constructor (eventType: string, bubbles: bool, cancelable: bool)
      ensures this.eventType == eventType && this.bubbles == bubbles && this.cancelable == cancelable
      ensures Flags() == EventOrder.Flags(false, false, false)
    {
      this.eventType := eventType;
      this.bubbles := bubbles;
      this.cancelable := cancelable;
      defaultPrevented := false;
      stopPropagationFlag := false;
      stopImmediateFlag := false;
      target := null;
      currentTarget := null;
      eventPhase := 0;
    }

    function Flags(): EventOrder.Flags
      reads this
    {
      EventOrder.Flags(stopPropagationFlag, stopImmediateFlag, defaultPrevented)
    }

    method PreventDefault()
      modifies this`defaultPrevented
      ensures defaultPrevented == (old(defaultPrevented) || cancelable)
    {
      if cancelable { defaultPrevented := true; }
    }

    method StopPropagation()
      modifies this`stopPropagationFlag
      ensures stopPropagationFlag
    {
      stopPropagationFlag := true;
    }

    method StopImmediatePropagation()
      modifies this`stopPropagationFlag, this`stopImmediateFlag
      ensures stopPropagationFlag && stopImmediateFlag
    {
      stopPropagationFlag := true;
      stopImmediateFlag := true;
    }
  }

  // ---------------------------------------------------------------- listener lists

  predicate Same(e: Entry, fn: nat, capture: bool) {
    e.fn == fn && e.capture == capture
  }

  function WithoutEntry(entries: seq<Entry>, fn: nat, capture: bool): seq<Entry> {
    if entries == [] then []
    else (if Same(entries[0], fn, capture) then [] else [entries[0]]) + WithoutEntry(entries[1..], fn, capture)
  }

  /** `removeEventListener` */
  function Drop(ls: Listeners, n: Node, eventType: string, fn: nat, capture: bool): Listeners {
    if (n, eventType) !in ls then ls
    else
      var rest := WithoutEntry(ls[(n, eventType)], fn, capture);
      if rest == [] then ls - {(n, eventType)} else ls[(n, eventType) := rest]
  }

  /** `addEventListener` */
  function Add(ls: Listeners, n: Node, eventType: string, e: Entry): Listeners {
    var entries := EntriesAt(ls, n, eventType);
    if exists i :: 0 <= i < |entries| && Same(entries[i], e.fn, e.capture) then ls
    else ls[(n, eventType) := entries + [e]]
  }

  /** A function is registered at most once per node, type and phase. */
  ghost predicate Registered(ls: Listeners) {
    forall k :: k in ls ==> NoRepeats(ls[k])
  }

  predicate NoRepeats(entries: seq<Entry>) {
    forall i, j :: 0 <= i < j < |entries| ==> !(entries[i].fn == entries[j].fn && entries[i].capture == entries[j].capture)
  }

  lemma {:induction false} WithoutEntryMembers(entries: seq<Entry>, fn: nat, capture: bool, e: Entry)
    ensures e in WithoutEntry(entries, fn, capture) <==> e in entries && !Same(e, fn, capture)
    decreases |entries|
  {
    if entries != [] { WithoutEntryMembers(entries[1..], fn, capture, e); }
  }

  lemma {:induction false} WithoutEntryNoRepeats(entries: seq<Entry>, fn: nat, capture: bool)
    requires NoRepeats(entries)
    ensures NoRepeats(WithoutEntry(entries, fn, capture))
    decreases |entries|
  {
    if entries != [] {
      var rest := WithoutEntry(entries[1..], fn, capture);
      WithoutEntryNoRepeats(entries[1..], fn, capture);
      forall j | 0 <= j < |rest| ensures !(entries[0].fn == rest[j].fn && entries[0].capture == rest[j].capture) {
        WithoutEntryMembers(entries[1..], fn, capture, rest[j]);
        var k :| 0 <= k < |entries[1..]| && entries[1..][k] == rest[j];
        assert entries[k + 1] == rest[j];
      }
    }
  }

  lemma DropKeepsRegistered(ls: Listeners, n: Node, eventType: string, fn: nat, capture: bool)
    requires Registered(ls)
    ensures Registered(Drop(ls, n, eventType, fn, capture))
    ensures forall i :: 0 <= i < |EntriesAt(Drop(ls, n, eventType, fn, capture), n, eventType)| ==>
      !Same(EntriesAt(Drop(ls, n, eventType, fn, capture), n, eventType)[i], fn, capture)
  {
    if (n, eventType) in ls {
      var entries := ls[(n, eventType)];
      var rest := WithoutEntry(entries, fn, capture);
      WithoutEntryNoRepeats(entries, fn, capture);
      forall i | 0 <= i < |rest| ensures !Same(rest[i], fn, capture) {
        WithoutEntryMembers(entries, fn, capture, rest[i]);
      }
    }
  }

  lemma AddKeepsRegistered(ls: Listeners, n: Node, eventType: string, e: Entry)
    requires Registered(ls)
    ensures Registered(Add(ls, n, eventType, e))
  {
  }

  /** The entries of the other kind keep their calls. */
  lemma {:induction false} WithoutEntryCalls(n: Node, entries: seq<Entry>, fn: nat, capture: bool, other: bool, phase: int)
    requires other != capture
    ensures CallsOf(n, WithoutEntry(entries, fn, capture), other, phase) == CallsOf(n, entries, other, phase)
    decreases |entries|
  {
    if entries != [] {
      WithoutEntryCalls(n, entries[1..], fn, capture, other, phase);
      var rest := WithoutEntry(entries[1..], fn, capture);
      assert ([entries[0]] + rest)[1..] == rest;
      assert [] + rest == rest;
    }
  }

  lemma WithoutStep(entries: seq<Entry>, i: nat, fn: nat, capture: bool)
    requires i < |entries|
    ensures WithoutEntry(entries[i..], fn, capture) ==
      (if Same(entries[i], fn, capture) then [] else [entries[i]]) + WithoutEntry(entries[i + 1..], fn, capture)
  {
    assert entries[i..][1..] == entries[i + 1..];
  }

  lemma DropKeepsCalls(ls: Listeners, m: Node, eventType: string, fn: nat, capture: bool, n: Node, other: bool, phase: int)
    requires n != m || other != capture
    ensures CallsAt(Drop(ls, m, eventType, fn, capture), n, eventType, other, phase) == CallsAt(ls, n, eventType, other, phase)
  {
    if n == m && (m, eventType) in ls { WithoutEntryCalls(n, ls[(m, eventType)], fn, capture, other, phase); }
  }

  /** The listeners left when the `once` ones among `calls` have been removed. */
  function Fired(ls: Listeners, eventType: string, calls: seq<Call>): Listeners {
    if calls == [] then ls
    else
      var c := calls[|calls| - 1];
      var ls1 := Fired(ls, eventType, calls[..|calls| - 1]);
      if c.entry.once then Drop(ls1, c.node, eventType, c.entry.fn, c.entry.capture) else ls1
  }

  lemma {:induction false} FiredKeepsCalls(ls: Listeners, eventType: string, calls: seq<Call>, n: Node, capture: bool, phase: int)
    requires forall c :: c in calls ==> c.node != n || c.entry.capture != capture
    ensures CallsAt(Fired(ls, eventType, calls), n, eventType, capture, phase) == CallsAt(ls, n, eventType, capture, phase)
    decreases |calls|
  {
    if calls != [] {
      var c := calls[|calls| - 1];
      assert c in calls;
      FiredKeepsCalls(ls, eventType, calls[..|calls| - 1], n, capture, phase);
      if c.entry.once {
        DropKeepsCalls(Fired(ls, eventType, calls[..|calls| - 1]), c.node, eventType, c.entry.fn, c.entry.capture, n, capture, phase);
      }
    }
  }

  lemma DropMembers(ls: Listeners, m: Node, eventType: string, fn: nat, capture: bool, n: Node, e: Entry)
    ensures e in EntriesAt(Drop(ls, m, eventType, fn, capture), n, eventType) <==>
      e in EntriesAt(ls, n, eventType) && !(n == m && Same(e, fn, capture))
  {
    if (m, eventType) in ls {
      WithoutEntryMembers(ls[(m, eventType)], fn, capture, e);
    }
  }

  /** A dispatch forgets exactly the `once` listeners it called. */
  lemma {:induction false} FiredMembers(ls: Listeners, eventType: string, calls: seq<Call>, n: Node, e: Entry)
    ensures e in EntriesAt(Fired(ls, eventType, calls), n, eventType) <==>
      e in EntriesAt(ls, n, eventType)
      && forall c :: c in calls && c.entry.once ==> !(c.node == n && Same(e, c.entry.fn, c.entry.capture))
    decreases |calls|
  {
    hide Drop;
    if calls != [] {
      var init, c := calls[..|calls| - 1], calls[|calls| - 1];
      assert calls == init + [c];
      FiredMembers(ls, eventType, init, n, e);
      DropMembers(Fired(ls, eventType, init), c.node, eventType, c.entry.fn, c.entry.capture, n, e);
    }
  }

  lemma FiredOneMore(ls: Listeners, eventType: string, calls: seq<Call>, c: Call)
    ensures Fired(ls, eventType, calls + [c]) ==
      if c.entry.once then Drop(Fired(ls, eventType, calls), c.node, eventType, c.entry.fn, c.entry.capture)
      else Fired(ls, eventType, calls)
  {
    hide Drop;
    assert (calls + [c])[..|calls + [c]| - 1] == calls;
  }

  // ---------------------------------------------------------------- the dispatcher

  class EventTargets {
    const dom: DomShared
    /** What the listener functions do to the event. */
    const react: Reactions
    var listeners: Listeners
    /** Every call made so far; what a listener does may depend on it. */
    var trace: seq<Call>

    constructor (dom: DomShared, react: Reactions)
      ensures this.dom == dom && this.react == react && listeners == map[] && trace == []
    {
      this.dom := dom;
      this.react := react;
      listeners := map[];
      trace := [];
    }

    /** `addEventListener` with a function and normalized options. */
    method AddEventListener(node: Node, eventType: string, entry: Entry)
      modifies this`listeners
      ensures listeners == Add(old(listeners), node, eventType, entry)
    {
      var typeMap := if (node, eventType) in listeners then listeners[(node, eventType)] else [];
      for i := 0 to |typeMap|
        invariant forall j :: 0 <= j < i ==> !Same(typeMap[j], entry.fn, entry.capture)
      {
        if typeMap[i].fn == entry.fn && typeMap[i].capture == entry.capture { return; }
      }
      listeners := listeners[(node, eventType) := typeMap + [entry]];
    }

    /** `removeEventListener` */
    method RemoveEventListener(node: Node, eventType: string, fn: nat, capture: bool)
      modifies this`listeners
      ensures listeners == Drop(old(listeners), node, eventType, fn, capture)
    {
      hide WithoutEntry;
      if (node, eventType) !in listeners { return; }
      var typeMap := listeners[(node, eventType)];
      ghost var entries := typeMap;
      var i := |typeMap| - 1;
      NothingLeft(fn, capture);
      assert entries[..|entries|] + [] == entries;
      while i >= 0
        invariant -1 <= i < |entries| && listeners == old(listeners)
        invariant typeMap == entries[..i + 1] + WithoutEntry(entries[i + 1..], fn, capture)
        decreases i
      {
        WithoutStep(entries, i, fn, capture);
        ghost var rest := WithoutEntry(entries[i + 1..], fn, capture);
        assert entries[..i + 1] == entries[..i] + [entries[i]];
        assert typeMap == entries[..i] + [entries[i]] + rest;
        if typeMap[i].fn == fn && typeMap[i].capture == capture {
          typeMap := typeMap[..i] + typeMap[i + 1..];
          assert typeMap == entries[..i] + ([] + rest);
        }
        i := i - 1;
      }
      assert entries[0..] == entries;
      assert typeMap == WithoutEntry(entries, fn, capture);
      DropIs(old(listeners), node, eventType, fn, capture);
      if typeMap == [] {
        listeners := listeners - {(node, eventType)};
      } else {
        listeners := listeners[(node, eventType) := typeMap];
      }
    }

    /** `entry.fn.call(node, event)`; a thrown exception ends the listener early and is
        swallowed by the caller. */
    method CallListener(node: Node, entry: Entry, event: LeapEvent)
      modifies this`trace, event`defaultPrevented, event`stopPropagationFlag, event`stopImmediateFlag
      ensures var c := Call(node, entry, event.eventPhase);
        && trace == old(trace) + [c]
        && event.Flags() == Apply(old(event.Flags()), react(old(trace), c), event.cancelable)
    {
      var c := Call(node, entry, event.eventPhase);
      var r := react(trace, c);
      trace := trace + [c];
      if r.prevent { event.PreventDefault(); }
      if r.stop { event.StopPropagation(); }
      if r.stopImmediate { event.StopImmediatePropagation(); }
    }

    /** Trace and event flags together. */
    function At(event: LeapEvent): Progress
      reads this`trace, event
    {
      Progress(trace, event.Flags())
    }

    lemma CallsStep(entries: seq<Entry>, n: Node, capture: bool, phase: int, p: Progress, cancelable: bool)
      ensures entries == [] || p.flags.immediate ==> RunCalls(react, p, CallsOf(n, entries, capture, phase), cancelable) == p
      ensures entries != [] && entries[0].capture != capture ==>
        CallsOf(n, entries, capture, phase) == CallsOf(n, entries[1..], capture, phase)
      ensures entries != [] && entries[0].capture == capture && !p.flags.immediate ==>
        var c := Call(n, entries[0], phase);
        RunCalls(react, p, CallsOf(n, entries, capture, phase), cancelable) ==
          RunCalls(react, Progress(p.trace + [c], Apply(p.flags, react(p.trace, c), cancelable)), CallsOf(n, entries[1..], capture, phase), cancelable)
    {
      if entries != [] && entries[0].capture == capture {
        assert CallsOf(n, entries, capture, phase)[1..] == CallsOf(n, entries[1..], capture, phase);
      }
    }

    /** `invokeEventListenersAtNode` */
    method InvokeEventListenersAtNode(node: Node, event: LeapEvent, captureWanted: bool)
      modifies this`trace, this`listeners, event`defaultPrevented, event`stopPropagationFlag, event`stopImmediateFlag
      ensures At(event) ==
        RunCalls(react, old(At(event)), CallsAt(old(listeners), node, event.eventType, captureWanted, event.eventPhase), event.cancelable)
      ensures old(trace) <= trace
      ensures listeners == Fired(old(listeners), event.eventType, trace[|old(trace)|..])
      ensures forall c :: c in trace[|old(trace)|..] ==> c.node == node && c.entry.capture == captureWanted
    {
      hide *;
      ghost var t0, ls0, phase := trace, listeners, event.eventPhase;
      NothingFired(ls0, event.eventType);
      assert trace[|t0|..] == [];
      var entries := if (node, event.eventType) in listeners then listeners[(node, event.eventType)] else [];
      EntriesAre(ls0, node, event.eventType, captureWanted, phase);
      assert entries[0..] == entries;
      for i := 0 to |entries|
        invariant event.eventPhase == phase && t0 <= trace
        invariant RunCalls(react, old(At(event)), CallsAt(ls0, node, event.eventType, captureWanted, phase), event.cancelable)
          == RunCalls(react, At(event), CallsOf(node, entries[i..], captureWanted, phase), event.cancelable)
        invariant listeners == Fired(ls0, event.eventType, trace[|t0|..])
        invariant forall c :: c in trace[|t0|..] ==> c.node == node && c.entry.capture == captureWanted
      {
        CallsStep(entries[i..], node, captureWanted, phase, At(event), event.cancelable);
        FlagsOf(event);
        assert entries[i..][1..] == entries[i + 1..] && entries[i..][0] == entries[i];
        if event.stopImmediateFlag { return; }
        var entry := entries[i];
        if entry.capture != captureWanted { continue; }
        ghost var t1 := trace;
        CallListener(node, entry, event);
        FlagsOf(event);
        ghost var c := Call(node, entry, phase);
        assert trace[|t0|..] == t1[|t0|..] + [c];
        FiredOneMore(ls0, event.eventType, t1[|t0|..], c);
        if entry.once { RemoveEventListener(node, event.eventType, entry.fn, entry.capture); }
      }
      CallsStep([], node, captureWanted, phase, At(event), event.cancelable);
    }

    lemma ChainParts(node: Node)
      requires node in dom.nodes && Closed(dom.TreeView())
      ensures forall n :: n in dom.nodes ==>
        n.parentNode == Parent(dom.TreeView(), n) && (n.parentNode == null || n.parentNode in dom.nodes)
    {
    }

    /** The path from the target to the root, taken before any listener runs. */
    method BuildPath(node: Node) returns (path: seq<Node>)
      requires node in dom.nodes && Closed(dom.TreeView()) && Acyclic(dom.TreeView())
      ensures path == Path(dom.TreeView(), node)
    {
      hide *;
      ChainParts(node);
      ghost var t := dom.TreeView();
      dom.AtTree(node);
      AcyclicAt(t, node);
      path := [];
      var cur: Node? := node;
      PathStep(t, node);
      Regroup([], node, Rest(t, node.parentNode));
      while cur != null
        invariant cur == null || cur in dom.nodes
        invariant Grounded(t, cur)
        invariant path + Rest(t, cur) == Path(t, node)
        decreases Depth(t, cur)
      {
        dom.AtTree(cur);
        DepthParent(t, cur);
        PathStep(t, cur);
        Regroup(path, cur, Rest(t, cur.parentNode));
        path := path + [cur];
        cur := cur.parentNode;
      }
      NoRest(t);
    }

    /** The capture loop of `dispatchEvent`, from the root down to the target's parent. */
    method CapturePhase(path: seq<Node>, event: LeapEvent)
      requires path != [] && Distinct(path)
      modifies this`trace, this`listeners, event`defaultPrevented, event`stopPropagationFlag, event`stopImmediateFlag
      modifies event`currentTarget, event`eventPhase
      ensures At(event) ==
        RunGroups(react, old(At(event)), CaptureGroups(old(listeners), path, event.eventType, |path|), event.cancelable)
      ensures old(trace) <= trace
      ensures listeners == Fired(old(listeners), event.eventType, trace[|old(trace)|..])
      ensures forall c :: c in trace[|old(trace)|..] ==> c.node != path[0] && c.entry.capture
    {
      hide *;
      ghost var t0, ls0, p0 := trace, listeners, At(event);
      NothingFired(ls0, event.eventType);
      assert trace[|t0|..] == [];
      var ci := |path| - 1;
      while ci >= 1
        invariant 0 <= ci < |path| && t0 <= trace
        invariant RunGroups(react, p0, CaptureGroups(ls0, path, event.eventType, |path|), event.cancelable)
          == RunGroups(react, At(event), CaptureGroups(ls0, path, event.eventType, ci + 1), event.cancelable)
        invariant listeners == Fired(ls0, event.eventType, trace[|t0|..])
        invariant forall c :: c in trace[|t0|..] ==> c.node in path[ci + 1..] && c.entry.capture
        decreases ci
      {
        FlagsOf(event);
        CaptureStep(react, At(event), ls0, path, event.eventType, ci, event.cancelable);
        NotInRest(path, ci);
        if event.stopPropagationFlag {
          BehindTarget(path, ci + 1);
          return;
        }
        var captureNode := path[ci];
        event.currentTarget := captureNode;
        event.eventPhase := CAPTURING_PHASE;
        FlagsOf(event);
        ghost var t1 := trace;
        FiredKeepsCalls(ls0, event.eventType, trace[|t0|..], captureNode, true, CAPTURING_PHASE);
        InvokeEventListenersAtNode(captureNode, event, true);
        FiredSplits(ls0, event.eventType, t1[|t0|..], trace[|t1|..]);
        assert trace[|t0|..] == t1[|t0|..] + trace[|t1|..];
        ci := ci - 1;
      }
      CaptureStep(react, At(event), ls0, path, event.eventType, 0, event.cancelable);
      BehindTarget(path, 1);
    }

    /** The target: capture listeners first, then bubble listeners. */
    method TargetPhase(node: Node, event: LeapEvent)
      requires event.Flags().immediate ==> event.Flags().stop
      modifies this`trace, this`listeners, event`defaultPrevented, event`stopPropagationFlag, event`stopImmediateFlag
      modifies event`currentTarget, event`eventPhase
      ensures At(event) == RunGroups(react, old(At(event)), [TargetGroup(old(listeners), node, event.eventType)], event.cancelable)
      ensures old(trace) <= trace
      ensures listeners == Fired(old(listeners), event.eventType, trace[|old(trace)|..])
      ensures forall c :: c in trace[|old(trace)|..] ==> c.node == node
    {
      hide *;
      ghost var t0, ls0, p0 := trace, listeners, At(event);
      FlagsOf(event);
      NothingFired(ls0, event.eventType);
      assert trace[|t0|..] == [];
      OneGroup(react, p0, TargetGroup(ls0, node, event.eventType), event.cancelable);
      if !event.stopPropagationFlag {
        event.currentTarget := node;
        event.eventPhase := AT_TARGET;
        FlagsOf(event);
        InvokeEventListenersAtNode(node, event, true);
        ghost var t1 := trace;
        TargetSplits(react, p0, ls0, node, event.eventType, event.cancelable);
        FiredKeepsCalls(ls0, event.eventType, trace[|t0|..], node, false, AT_TARGET);
        FlagsOf(event);
        StopsAtOnce(react, At(event), CallsAt(ls0, node, event.eventType, false, AT_TARGET), event.cancelable);
        if !event.stopImmediateFlag {
          InvokeEventListenersAtNode(node, event, false);
          FiredSplits(ls0, event.eventType, t1[|t0|..], trace[|t1|..]);
          assert trace[|t0|..] == t1[|t0|..] + trace[|t1|..];
        }
      }
    }

    /** The bubble loop of `dispatchEvent`, from the target's parent up to the root. */
    method BubblePhase(path: seq<Node>, event: LeapEvent)
      requires path != [] && Distinct(path)
      modifies this`trace, this`listeners, event`defaultPrevented, event`stopPropagationFlag, event`stopImmediateFlag
      modifies event`currentTarget, event`eventPhase
      ensures At(event) ==
        RunGroups(react, old(At(event)), BubbleGroups(old(listeners), path, event.eventType, 1), event.cancelable)
      ensures old(trace) <= trace
      ensures listeners == Fired(old(listeners), event.eventType, trace[|old(trace)|..])
    {
      hide *;
      ghost var t0, ls0, p0 := trace, listeners, At(event);
      NothingFired(ls0, event.eventType);
      assert trace[|t0|..] == [];
      for bi := 1 to |path|
        invariant t0 <= trace
        invariant RunGroups(react, p0, BubbleGroups(ls0, path, event.eventType, 1), event.cancelable)
          == RunGroups(react, At(event), BubbleGroups(ls0, path, event.eventType, bi), event.cancelable)
        invariant listeners == Fired(ls0, event.eventType, trace[|t0|..])
        invariant forall c :: c in trace[|t0|..] ==> c.node in path[..bi]
      {
        FlagsOf(event);
        BubbleStep(react, At(event), ls0, path, event.eventType, bi, event.cancelable);
        NotInRest(path, bi);
        if event.stopPropagationFlag { return; }
        var bubbleNode := path[bi];
        event.currentTarget := bubbleNode;
        event.eventPhase := BUBBLING_PHASE;
        FlagsOf(event);
        ghost var t1 := trace;
        FiredKeepsCalls(ls0, event.eventType, trace[|t0|..], bubbleNode, false, BUBBLING_PHASE);
        InvokeEventListenersAtNode(bubbleNode, event, false);
        FiredSplits(ls0, event.eventType, t1[|t0|..], trace[|t1|..]);
        assert trace[|t0|..] == t1[|t0|..] + trace[|t1|..];
        assert path[..bi + 1] == path[..bi] + [bubbleNode];
      }
      BubbleStep(react, At(event), ls0, path, event.eventType, |path|, event.cancelable);
    }

    method BuildDistinctPath(node: Node) returns (path: seq<Node>)
      requires node in dom.nodes && Closed(dom.TreeView()) && Acyclic(dom.TreeView())
      ensures node in dom.TreeView() && Grounded(dom.TreeView(), node)
      ensures path == Path(dom.TreeView(), node) && path != [] && path[0] == node && Distinct(path)
    {
      hide *;
      path := BuildPath(node);
      dom.AtTree(node);
      AcyclicAt(dom.TreeView(), node);
      PathIsChain(dom.TreeView(), node);
      PathIsDistinct(dom.TreeView(), node);
    }

    /** `dispatchEvent` */
    method DispatchEvent(node: Node, event: LeapEvent) returns (r: bool)
      requires node in dom.nodes && Closed(dom.TreeView()) && Acyclic(dom.TreeView())
      requires event.Flags().immediate ==> event.Flags().stop
      modifies this`trace, this`listeners, event
      ensures Path(dom.TreeView(), node) != []
      ensures At(event) == RunGroups(react, old(At(event)),
        Groups(old(listeners), Path(dom.TreeView(), node), event.eventType, event.bubbles), event.cancelable)
      ensures r == !event.defaultPrevented
      ensures event.target == node && event.currentTarget == null && event.eventPhase == 0
      ensures old(trace) <= trace && listeners == Fired(old(listeners), event.eventType, trace[|old(trace)|..])
    {
      hide *;
      ghost var t0, ls0, p0 := trace, listeners, At(event);
      FlagsOf(event);
      var path := BuildDistinctPath(node);
      event.target := node;
      FlagsOf(event);
      GroupsInOrder(react, p0, ls0, path, event.eventType, event.bubbles, event.cancelable);
      CapturePhase(path, event);
      ghost var t1 := trace;
      StillSound(react, p0, CaptureGroups(ls0, path, event.eventType, |path|), event.cancelable);
      FiredKeepsTarget(ls0, event.eventType, trace[|t0|..], node);
      FlagsOf(event);
      TargetPhase(node, event);
      ghost var t2 := trace;
      FiredSplits(ls0, event.eventType, t1[|t0|..], t2[|t1|..]);
      assert t2[|t0|..] == t1[|t0|..] + t2[|t1|..];
      if event.bubbles {
        FiredKeepsBubbles(ls0, event.eventType, t2[|t0|..], path, 1);
        BubblePhase(path, event);
        FiredSplits(ls0, event.eventType, t2[|t0|..], trace[|t2|..]);
        assert trace[|t0|..] == t2[|t0|..] + trace[|t2|..];
      }
      FlagsOf(event);
      event.currentTarget := null;
      event.eventPhase := 0;
      FlagsOf(event);
      r := !event.defaultPrevented;
    }

    lemma FlagsOf(event: LeapEvent)
      ensures At(event) == Progress(trace, event.Flags())
      ensures event.Flags() == EventOrder.Flags(event.stopPropagationFlag, event.stopImmediateFlag, event.defaultPrevented)
    {
    }
  }

  lemma DropIs(ls: Listeners, n: Node, eventType: string, fn: nat, capture: bool)
    requires (n, eventType) in ls
    ensures var rest := WithoutEntry(ls[(n, eventType)], fn, capture);
      Drop(ls, n, eventType, fn, capture) == if rest == [] then ls - {(n, eventType)} else ls[(n, eventType) := rest]
  {
  }

  lemma NothingLeft(fn: nat, capture: bool)
    ensures WithoutEntry([], fn, capture) == []
  {
  }

  lemma NothingFired(ls: Listeners, eventType: string)
    ensures Fired(ls, eventType, []) == ls
  {
  }

  lemma EntriesAre(ls: Listeners, n: Node, eventType: string, capture: bool, phase: int)
    ensures CallsAt(ls, n, eventType, capture, phase) ==
      CallsOf(n, if (n, eventType) in ls then ls[(n, eventType)] else [], capture, phase)
  {
  }

  // ---------------------------------------------------------------- steps of the loops

  lemma AcyclicAt(t: Tree, n: Node)
    requires Acyclic(t) && n in t
    ensures Grounded(t, n)
  {
  }

  ghost function Rest(t: Tree, n: Node?): seq<Node>
    requires Grounded(t, n)
  {
    if n == null then [] else Path(t, n)
  }

  lemma Regroup(a: seq<Node>, n: Node, rest: seq<Node>)
    ensures a + ([n] + rest) == (a + [n]) + rest && [] + ([n] + rest) == [n] + rest && a + [] == a
  {
  }

  lemma NoRest(t: Tree)
    requires Grounded(t, null)
    ensures Rest(t, null) == []
  {
  }

  lemma PathStep(t: Tree, n: Node)
    requires Grounded(t, n)
    ensures Grounded(t, Parent(t, n))
    ensures Rest(t, n) == Path(t, n) && Path(t, n) == [n] + Rest(t, Parent(t, n))
  {
    DepthParent(t, n);
  }

  lemma NotInRest(path: seq<Node>, i: nat)
    requires Distinct(path) && i < |path|
    ensures path[i] !in path[i + 1..] && path[i] !in path[..i]
  {
  }

  lemma BehindTarget(path: seq<Node>, i: nat)
    requires Distinct(path) && 0 < i <= |path|
    ensures path[0] !in path[i..]
  {
  }

  lemma CaptureStep(react: Reactions, p: Progress, ls: Listeners, path: seq<Node>, eventType: string, ci: nat, cancelable: bool)
    requires ci < |path|
    ensures p.flags.stop || ci == 0 ==> RunGroups(react, p, CaptureGroups(ls, path, eventType, ci + 1), cancelable) == p
    ensures !p.flags.stop && ci > 0 ==>
      RunGroups(react, p, CaptureGroups(ls, path, eventType, ci + 1), cancelable) ==
      RunGroups(react, RunCalls(react, p, CallsAt(ls, path[ci], eventType, true, CAPTURING_PHASE), cancelable), CaptureGroups(ls, path, eventType, ci), cancelable)
  {
    hide RunCalls, CallsAt;
    if ci > 0 {
      assert CaptureGroups(ls, path, eventType, ci + 1)[1..] == CaptureGroups(ls, path, eventType, ci);
    }
  }

  lemma BubbleStep(react: Reactions, p: Progress, ls: Listeners, path: seq<Node>, eventType: string, bi: nat, cancelable: bool)
    requires bi <= |path|
    ensures p.flags.stop || bi == |path| ==> RunGroups(react, p, BubbleGroups(ls, path, eventType, bi), cancelable) == p
    ensures !p.flags.stop && bi < |path| ==>
      RunGroups(react, p, BubbleGroups(ls, path, eventType, bi), cancelable) ==
      RunGroups(react, RunCalls(react, p, CallsAt(ls, path[bi], eventType, false, BUBBLING_PHASE), cancelable), BubbleGroups(ls, path, eventType, bi + 1), cancelable)
  {
    hide RunCalls, CallsAt;
    if bi < |path| {
      assert BubbleGroups(ls, path, eventType, bi)[1..] == BubbleGroups(ls, path, eventType, bi + 1);
    }
  }

  lemma OneGroup(react: Reactions, p: Progress, g: seq<Call>, cancelable: bool)
    ensures RunGroups(react, p, [g], cancelable) == if p.flags.stop then p else RunCalls(react, p, g, cancelable)
  {
    hide RunCalls;
    var none: seq<seq<Call>> := [];
    assert [g][1..] == none;
    assert RunGroups(react, RunCalls(react, p, g, cancelable), none, cancelable) == RunCalls(react, p, g, cancelable);
  }

  lemma TargetSplits(react: Reactions, p: Progress, ls: Listeners, n: Node, eventType: string, cancelable: bool)
    ensures RunCalls(react, p, TargetGroup(ls, n, eventType), cancelable) ==
      RunCalls(react, RunCalls(react, p, CallsAt(ls, n, eventType, true, AT_TARGET), cancelable), CallsAt(ls, n, eventType, false, AT_TARGET), cancelable)
  {
    hide RunCalls, CallsAt;
    RunCallsConcat(react, p, CallsAt(ls, n, eventType, true, AT_TARGET), CallsAt(ls, n, eventType, false, AT_TARGET), cancelable);
  }

  lemma StopsAtOnce(react: Reactions, p: Progress, calls: seq<Call>, cancelable: bool)
    ensures p.flags.immediate ==> RunCalls(react, p, calls, cancelable) == p
  {
  }

  lemma GroupsInOrder(react: Reactions, p: Progress, ls: Listeners, path: seq<Node>, eventType: string, bubbles: bool, cancelable: bool)
    requires path != []
    ensures var p1 := RunGroups(react, p, CaptureGroups(ls, path, eventType, |path|), cancelable);
      var p2 := RunGroups(react, p1, [TargetGroup(ls, path[0], eventType)], cancelable);
      RunGroups(react, p, Groups(ls, path, eventType, bubbles), cancelable) ==
        if bubbles then RunGroups(react, p2, BubbleGroups(ls, path, eventType, 1), cancelable) else p2
  {
    hide RunGroups, CaptureGroups, TargetGroup, BubbleGroups;
    var a, b, c := CaptureGroups(ls, path, eventType, |path|), [TargetGroup(ls, path[0], eventType)], BubbleGroups(ls, path, eventType, 1);
    RunGroupsConcat(react, p, a, b, cancelable);
    if bubbles { RunGroupsConcat(react, p, a + b, c, cancelable); } else { assert a + b + [] == a + b; }
  }

  lemma StillSound(react: Reactions, p: Progress, groups: seq<seq<Call>>, cancelable: bool)
    requires p.flags.immediate ==> p.flags.stop
    ensures var f := RunGroups(react, p, groups, cancelable).flags; f.immediate ==> f.stop
  {
    var n := GroupsMade(react, p, groups, cancelable);
  }

  lemma {:induction false} FiredSplits(ls: Listeners, eventType: string, a: seq<Call>, b: seq<Call>)
    ensures Fired(ls, eventType, a + b) == Fired(Fired(ls, eventType, a), eventType, b)
    decreases |b|
  {
    hide Drop;
    if b == [] {
      assert a + b == a;
    } else {
      assert (a + b)[..|a + b| - 1] == a + b[..|b| - 1];
      FiredSplits(ls, eventType, a, b[..|b| - 1]);
    }
  }

  lemma FiredKeepsTarget(ls: Listeners, eventType: string, calls: seq<Call>, n: Node)
    requires forall c :: c in calls ==> c.node != n
    ensures TargetGroup(Fired(ls, eventType, calls), n, eventType) == TargetGroup(ls, n, eventType)
  {
    hide Fired, CallsAt;
    FiredKeepsCalls(ls, eventType, calls, n, true, AT_TARGET);
    FiredKeepsCalls(ls, eventType, calls, n, false, AT_TARGET);
  }

  /** Capture listeners and the target's own do not show in the bubble groups. */
  lemma {:induction false} FiredKeepsBubbles(ls: Listeners, eventType: string, calls: seq<Call>, path: seq<Node>, i: nat)
    requires Distinct(path) && 0 < i <= |path| && forall c :: c in calls ==> c.node == path[0] || c.entry.capture
    ensures BubbleGroups(Fired(ls, eventType, calls), path, eventType, i) == BubbleGroups(ls, path, eventType, i)
    decreases |path| - i
  {
    hide Fired, CallsAt;
    if i < |path| {
      FiredKeepsCalls(ls, eventType, calls, path[i], false, BUBBLING_PHASE);
      FiredKeepsBubbles(ls, eventType, calls, path, i + 1);
    }
  }
}
