/** Histories: composite operations as the runs of primitive ones they amount to, so
    that whatever holds over every run holds across them. */
module DomHistory {
  import opened DomNodes
  import opened DomForest
  import opened DomModel
  import opened DomRelease
  import opened DomLayout
  import opened DomRuns

  /** `ops` leads from `s` to `s'` and releases nothing. */
  ghost predicate History(s: DomState, s': DomState, ops: seq<Op>) {
    && Inv(s) && LegalRun(s, ops) && Run(s, ops) == s'
    && forall i :: 0 <= i < |ops| ==> !Releases(ops[i])
  }

  /** All that runs keep, for the two ends of a history. */
  lemma HistoryKeeps(s: DomState, s': DomState, ops: seq<Op>, engine: Engine)
    requires History(s, s', ops)
    ensures Inv(s) && Inv(s') && IdsGrow(s.reg, s'.reg)
    ensures Coherent(s, engine) ==> Coherent(s', engine)
  {
    hide Inv, Coherent, LegalRun, Run, IdsGrow;
    InvForest(s);
    DomainsOfInv(s);
    RunKeepsInv(s, ops);
    RunNeverReusesIds(s, ops);
    if Coherent(s, engine) { RunIsCoherent(s, engine, ops); }
  }

  lemma NoHistory(s: DomState)
    requires Inv(s)
    ensures History(s, s, [])
  {
    hide Inv;
  }

  lemma OneStep(s: DomState, op: Op)
    requires Inv(s) && Legal(s, op) && !Releases(op)
    ensures History(s, Step(s, op), [op])
  {
    hide Inv, Legal, Step;
    StepKeepsInv(s, op);
    assert [op][1..] == [];
    assert LegalRun(Step(s, op), []) && Run(Step(s, op), []) == Step(s, op);
  }

  lemma {:induction false} RunConcat(s: DomState, x: seq<Op>, y: seq<Op>)
    requires Inv(s) && LegalRun(s, x) && Inv(Run(s, x)) && LegalRun(Run(s, x), y)
    ensures LegalRun(s, x + y) && Run(s, x + y) == Run(Run(s, x), y)
    decreases |x|
  {
    hide Inv, Legal, Step;
    if x == [] {
      assert x + y == y;
    } else {
      StepKeepsInv(s, x[0]);
      assert (x + y)[1..] == x[1..] + y;
      RunConcat(Step(s, x[0]), x[1..], y);
    }
  }

  lemma InTurn(a: DomState, b: DomState, c: DomState, x: seq<Op>, y: seq<Op>)
    requires History(a, b, x) && History(b, c, y)
    ensures History(a, c, x + y)
  {
    hide Inv, LegalRun, Run;
    RunKeepsInv(a, x);
    RunConcat(a, x, y);
  }

  // ---------------------------------------------------------------- the primitive operations

  lemma ElementMade(s: DomState, n: Node, d: Node?)
    requires Inv(s) && n !in s.tree && n.nodeType == ELEMENT && IsDocument(s, d)
    ensures History(s, CreateElement(s, n, d), [NewElement(n, d)])
  {
    hide Inv, History, CreateElement;
    OneStep(s, NewElement(n, d));
  }

  lemma RecordMade(s: DomState, n: Node, d: Node?, text: string)
    requires Inv(s) && n !in s.tree && IsDocument(s, d) && (n.nodeType == ELEMENT || n.nodeType == DOCUMENT ==> d == null)
    ensures History(s, Fresh(s, n, d, text), [NewRecord(n, d, text)])
  {
    hide Inv, History, Fresh;
    OneStep(s, NewRecord(n, d, text));
  }

  lemma Registered(s: DomState, d: Node, task: string)
    requires Inv(s) && d in s.tree && d.nodeType == DOCUMENT
    ensures History(s, EnsureRegistered(s, d, task), [Register(d, task)])
  {
    hide Inv, History, EnsureRegistered;
    OneStep(s, Register(d, task));
  }

  lemma Appended(s: DomState, p: Node, c: Node)
    requires Inv(s) && p in s.tree && c in s.tree
    ensures History(s, Append(s, p, c).0, [AppendChild(p, c)])
  {
    hide Inv, History, Append;
    OneStep(s, AppendChild(p, c));
  }

  lemma Inserted(s: DomState, p: Node, c: Node, b: Node?)
    requires Inv(s) && p in s.tree && c in s.tree
    ensures History(s, Insert(s, p, c, b).0, [InsertBefore(p, c, b)])
  {
    hide Inv, History, Insert;
    OneStep(s, InsertBefore(p, c, b));
  }

  lemma Removed(s: DomState, p: Node, c: Node)
    requires Inv(s) && p in s.tree && c in s.tree
    ensures History(s, Remove(s, p, c).0, [RemoveChild(p, c)])
  {
    hide Inv, History, Remove;
    OneStep(s, RemoveChild(p, c));
  }

  lemma StyleSet(s: DomState, n: Node, name: string, value: string)
    requires Inv(s) && n in s.tree
    ensures History(s, SetStyle(s, n, name, value), [SetStyleValue(n, name, value)])
  {
    hide Inv, History, SetStyle;
    OneStep(s, SetStyleValue(n, name, value));
  }

  lemma Restyled(s: DomState, n: Node, style: Style)
    requires Inv(s) && n in s.tree
    ensures History(s, RestyleAndMark(s, n, style), [Restyle(n, style)])
  {
    hide Inv, History, RestyleAndMark;
    OneStep(s, Restyle(n, style));
  }

  /** `markNodeDirty` on its own: a restyling to the style that is there. */
  lemma Marked(s: DomState, n: Node)
    requires Inv(s) && n in s.tree
    ensures Grounded(s.tree, n) && n in s.owner && n in s.style
    ensures History(s, MarkDirty(s, n), [Restyle(n, s.style[n])])
  {
    hide Inv, History, MarkDirty;
    InvKeys(s);
    RestyleKeepsInv(s, n, s.style[n]);
    Restyled(s, n, s.style[n]);
    assert s.style[n := s.style[n]] == s.style;
    assert s.(style := s.style) == s;
  }

  /** A loose record with a style of its own, as `cloneNode` makes it. */
  lemma Copied(s: DomState, n: Node, text: string, style: Style)
    requires Inv(s) && n !in s.tree
    ensures var s1 := Fresh(s, n, null, text);
      History(s, s1.(style := s1.style[n := style]), [NewRecord(n, null, text), Restyle(n, style)])
  {
    hide Inv, History;
    RecordMade(s, n, null, text);
    var s1 := Fresh(s, n, null, text);
    FreshKeepsInv(s, n, null, text);
    Restyled(s1, n, style);
    LooseRestyle(s1, n, style);
    InTurn(s, s1, RestyleAndMark(s1, n, style), [NewRecord(n, null, text)], [Restyle(n, style)]);
    assert [NewRecord(n, null, text)] + [Restyle(n, style)] == [NewRecord(n, null, text), Restyle(n, style)];
  }

  /** Restyling a loose node without a layout marks nothing. */
  lemma LooseRestyle(s: DomState, n: Node, style: Style)
    requires Inv(s) && n in s.tree && s.tree[n].parent == null && n in s.owner && s.owner[n] == null
    requires n in s.box && s.box[n] == NoCache
    ensures RestyleAndMark(s, n, style) == s.(style := s.style[n := style])
  {
    hide Inv;
    RestyleKeepsInv(s, n, style);
    DepthParent(s.tree, n);
    assert s.box[n := NoCache] == s.box;
  }
}
