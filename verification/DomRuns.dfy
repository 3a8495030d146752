/** Whole runs: every invariant holds after any sequence of operations. */
module DomRuns {
  import opened DomNodes
  import opened DomForest
  import opened DomModel
  import opened DomRelease
  import opened DomLayout
  import opened StyleNames

  datatype Op =
    | NewElement(n: Node, owner: Node?)
    | NewRecord(n: Node, owner: Node?, text: string)
    | Register(d: Node, task: string)
    | AppendChild(p: Node, c: Node)
    | InsertBefore(p: Node, c: Node, b: Node?)
    | RemoveChild(p: Node, c: Node)
    | SetTextContent(n: Node, text: string)
    | SetStyleValue(n: Node, name: string, text: string)
    | Restyle(n: Node, style: Style)
    | ReleaseDocument(d: Node)
    | BeginTaskScope(task: string)
    | EndTaskScope(task: string)
    | DrainReleaseStats

  ghost predicate IsDocument(s: DomState, d: Node?) {
    d != null ==> d in s.tree && d.nodeType == DOCUMENT
  }

  /** What an operation asks of its caller: nodes that exist, new nodes that do not,
      and no fragment holding children of a document about to be released. */
  ghost predicate Legal(s: DomState, op: Op)
    requires Domains(s)
  {
    match op
    case NewElement(n, owner) => n !in s.tree && n.nodeType == ELEMENT && IsDocument(s, owner)
    case NewRecord(n, owner, _) =>
      n !in s.tree && IsDocument(s, owner) && (n.nodeType == ELEMENT || n.nodeType == DOCUMENT ==> owner == null)
    case Register(d, _) => d in s.tree && d.nodeType == DOCUMENT
    case AppendChild(p, c) => p in s.tree && c in s.tree
    case InsertBefore(p, c, _) => p in s.tree && c in s.tree
    case RemoveChild(p, c) => p in s.tree && c in s.tree
    case SetTextContent(n, _) => n in s.tree
    case SetStyleValue(n, _, _) => n in s.tree
    case Restyle(n, _) => n in s.tree
    case ReleaseDocument(d) => d in s.tree && d.nodeType == DOCUMENT && Live(s.reg, d) && !Loaded(s, {d})
    case BeginTaskScope(task) => !Loaded(s, DocumentsNotOf(s.reg, BegunTask(task)))
    case EndTaskScope(task) => !Loaded(s, DocumentsOf(s.reg, NormalizeTaskId(s.reg.currentTask, task)))
    case DrainReleaseStats => true
  }

  ghost function Step(s: DomState, op: Op): DomState
    requires Inv(s) && Legal(s, op)
  {
    hide Inv, Domains;
    DomainsOfInv(s);
    match op
    case NewElement(_, _) => Creation(s, op)
    case NewRecord(_, _, _) => Creation(s, op)
    case Register(_, _) => Creation(s, op)
    case AppendChild(_, _) => Moving(s, op)
    case InsertBefore(_, _, _) => Moving(s, op)
    case RemoveChild(_, _) => Moving(s, op)
    case SetTextContent(n, text) => SetText(s, n, text)
    case SetStyleValue(n, name, text) => SetStyle(s, n, name, text)
    case Restyle(n, style) => RestyleAndMark(s, n, style)
    case ReleaseDocument(_) => Releasing(s, op)
    case BeginTaskScope(_) => Releasing(s, op)
    case EndTaskScope(_) => Releasing(s, op)
    case DrainReleaseStats => s.(reg := Drained(s.reg))
  }

  ghost function Creation(s: DomState, op: Op): DomState
    requires Inv(s) && Legal(s, op) && (op.NewElement? || op.NewRecord? || op.Register?)
  {
    hide Inv, Domains;
    DomainsOfInv(s);
    match op
    case NewElement(n, owner) => CreateElement(s, n, owner)
    case NewRecord(n, owner, text) => Fresh(s, n, owner, text)
    case Register(d, task) => EnsureRegistered(s, d, task)
  }

  ghost function Moving(s: DomState, op: Op): DomState
    requires Inv(s) && Legal(s, op) && (op.AppendChild? || op.InsertBefore? || op.RemoveChild?)
  {
    hide Inv, Domains;
    DomainsOfInv(s);
    match op
    case AppendChild(p, c) => Append(s, p, c).0
    case InsertBefore(p, c, b) => Insert(s, p, c, b).0
    case RemoveChild(p, c) => Remove(s, p, c).0
  }

  ghost function Releasing(s: DomState, op: Op): DomState
    requires Inv(s) && Legal(s, op) && (op.ReleaseDocument? || op.BeginTaskScope? || op.EndTaskScope?)
  {
    hide Inv, Domains;
    DomainsOfInv(s);
    match op
    case ReleaseDocument(d) => Release(s, {d})
    case BeginTaskScope(task) => BeginTask(s, task)
    case EndTaskScope(task) => EndTask(s, task)
  }

  lemma StepKeepsInv(s: DomState, op: Op)
    requires Inv(s) && Legal(s, op)
    ensures Inv(Step(s, op))
  {
    hide Inv, Append, Insert, Remove, SetText, SetStyle, RestyleAndMark, CreateElement, Fresh, EnsureRegistered;
    hide Release, Loaded, Drained;
    match op
    case NewElement(n, owner) => CreateElementKeepsInv(s, n, owner);
    case NewRecord(n, owner, text) => FreshKeepsInv(s, n, owner, text);
    case Register(d, task) => EnsureRegisteredKeeps(s, d, task);
    case AppendChild(p, c) =>
    case InsertBefore(p, c, b) =>
    case RemoveChild(p, c) =>
    case SetTextContent(n, text) =>
    case SetStyleValue(n, name, text) =>
    case Restyle(n, style) =>
    case ReleaseDocument(d) => ReleaseKeepsInv(s, {d});
    case BeginTaskScope(task) => BeginTaskKeepsInv(s, task);
    case EndTaskScope(task) => EndTaskKeepsInv(s, task);
    case DrainReleaseStats => DrainKeepsInv(s);
  }

  lemma BeginTaskKeepsInv(s: DomState, task: string)
    requires Inv(s) && !Loaded(s, DocumentsNotOf(s.reg, BegunTask(task)))
    ensures Inv(BeginTask(s, task))
  {
    hide Inv, Loaded, LiveDocs, Release, DocumentsNotOf;
    ScopesAreLive(s, BegunTask(task));
    ReleaseScopeKeepsInv(s, DocumentsNotOf(s.reg, BegunTask(task)), BegunTask(task));
  }

  lemma EndTaskKeepsInv(s: DomState, task: string)
    requires Inv(s) && !Loaded(s, DocumentsOf(s.reg, NormalizeTaskId(s.reg.currentTask, task)))
    ensures Inv(EndTask(s, task))
  {
    hide Inv, Loaded, LiveDocs, Release, DocumentsOf;
    var t := NormalizeTaskId(s.reg.currentTask, task);
    ScopesAreLive(s, t);
    ReleaseScopeKeepsInv(s, DocumentsOf(s.reg, t), EndTask(s, task).reg.currentTask);
  }

  // ---------------------------------------------------------------- runs

  ghost predicate LegalRun(s: DomState, ops: seq<Op>)
    requires Inv(s)
    decreases |ops|
  {
    ops == [] || (Legal(s, ops[0]) && (StepKeepsInv(s, ops[0]); LegalRun(Step(s, ops[0]), ops[1..])))
  }

  ghost function Run(s: DomState, ops: seq<Op>): DomState
    requires Inv(s) && LegalRun(s, ops)
    decreases |ops|
  {
    if ops == [] then s
    else
      StepKeepsInv(s, ops[0]);
      Run(Step(s, ops[0]), ops[1..])
  }

  /** After any run the tree is a forest, ownership is exact and the registries agree. */
  lemma {:induction false} RunKeepsInv(s: DomState, ops: seq<Op>)
    requires Inv(s) && LegalRun(s, ops)
    ensures Inv(Run(s, ops))
    decreases |ops|
  {
    hide Inv, Step, Legal;
    if ops != [] {
      StepKeepsInv(s, ops[0]);
      RunKeepsInv(Step(s, ops[0]), ops[1..]);
    }
  }

  predicate Releases(op: Op) {
    op.ReleaseDocument? || op.BeginTaskScope? || op.EndTaskScope?
  }

  lemma StepIsCoherent(s: DomState, engine: Engine, op: Op)
    requires Inv(s) && Legal(s, op) && Coherent(s, engine) && !Releases(op)
    ensures Inv(Step(s, op)) && Coherent(Step(s, op), engine)
  {
    hide Inv, Coherent, Append, Insert, Remove, SetText, SetStyle, RestyleAndMark, CreateElement, Fresh, EnsureRegistered;
    hide Release, Loaded, Drained;
    StepKeepsInv(s, op);
    match op
    case NewElement(n, owner) => CreateElementIsCoherent(s, engine, n, owner);
    case NewRecord(n, owner, text) => FreshIsCoherent(s, engine, n, owner, text);
    case Register(d, task) => RegisteredIsCoherent(s, engine, d, task);
    case AppendChild(p, c) => AppendIsCoherent(s, engine, p, c);
    case InsertBefore(p, c, b) => InsertIsCoherent(s, engine, p, c, b);
    case RemoveChild(p, c) => RemoveIsCoherent(s, engine, p, c);
    case SetTextContent(n, text) => SetTextIsCoherent(s, engine, n, text);
    case SetStyleValue(n, name, text) => SetStyleIsCoherent(s, engine, n, name, text);
    case Restyle(n, style) => RestyleIsCoherent(s, engine, n, style);
    case DrainReleaseStats => DrainIsCoherent(s, engine);
  }

  /** After any run without releases every cached layout is the one a recomputation
      would give. */
  lemma {:induction false} RunIsCoherent(s: DomState, engine: Engine, ops: seq<Op>)
    requires Inv(s) && LegalRun(s, ops) && Coherent(s, engine)
    requires forall i :: 0 <= i < |ops| ==> !Releases(ops[i])
    ensures Inv(Run(s, ops)) && Coherent(Run(s, ops), engine)
    decreases |ops|
  {
    hide Inv, Coherent, Step, Legal;
    if ops != [] {
      StepIsCoherent(s, engine, ops[0]);
      RunIsCoherent(Step(s, ops[0]), engine, ops[1..]);
    }
  }

  // ---------------------------------------------------------------- document ids

  /** Ids are kept or freshly issued: none that was ever given out comes back. */
  ghost predicate IdsGrow(r: Registry, r': Registry) {
    && r.docSeq <= r'.docSeq
    && forall d :: d in r.ids ==> d in r'.ids && (r'.ids[d] == r.ids[d] || r.docSeq < r'.ids[d])
  }

  lemma IdsGrowTrans(a: Registry, b: Registry, c: Registry)
    requires IdsGrow(a, b) && IdsGrow(b, c)
    ensures IdsGrow(a, c)
  {
  }

  lemma RegisterGrows(r: Registry, d: Node?, task: string)
    ensures d != null && d in r.ids ==> IdsGrow(r, RegisterDoc(r, d, task))
    ensures d != null && d in r.ids ==> IdsGrow(r, RegisterOwnerIn(r, d))
    ensures IdsGrow(r, r)
  {
  }

  lemma PlaceGrows(s: DomState, p: Node, c: Node, i: nat)
    requires Inv(s) && Fits(s.tree, p, c) && i <= |Without(s.tree[p].kids, c)|
    ensures IdsGrow(s.reg, Place(s, p, c, i).reg)
  {
    var d := NextOwner(s.owner, p);
    RegisterGrows(s.reg, d, "");
    hide Inv, Fits, IdsGrow, MoveTree, MoveBoxes, RegisterOwnerIn;
    OwnerIsKnown(s, p);
  }

  lemma OwnerIsKnown(s: DomState, p: Node)
    requires Inv(s) && p in s.tree
    ensures NextOwner(s.owner, p) != null ==> NextOwner(s.owner, p) in s.reg.ids
  {
  }

  lemma AppendOneGrows(s: DomState, p: Node, c: Node)
    requires Inv(s) && p in s.tree && c in s.tree && c.nodeType != FRAGMENT
    ensures IdsGrow(s.reg, AppendOne(s, p, c).0.reg)
  {
    RegisterGrows(s.reg, null, "");
    if p != c && ValidInsertion(s.tree, p, c) && !Ancestor(s.tree, c, p) {
      ValidFits(s.tree, p, c);
      PlaceGrows(s, p, c, |Without(s.tree[p].kids, c)|);
    }
  }

  lemma InsertOneGrows(s: DomState, p: Node, c: Node, b: Node)
    requires Inv(s) && p in s.tree && c in s.tree && c.nodeType != FRAGMENT
    ensures IdsGrow(s.reg, InsertOne(s, p, c, b).0.reg)
  {
    RegisterGrows(s.reg, null, "");
    if b in s.tree[p].kids && p != c && ValidInsertion(s.tree, p, c) && !Ancestor(s.tree, c, p) {
      ValidFits(s.tree, p, c);
      InsertIndexFits(s.tree[p].kids, c, b);
      PlaceGrows(s, p, c, IndexOf(s.tree[p].kids, b));
    }
  }

  lemma {:induction false} AppendAllGrows(s: DomState, p: Node, cs: seq<Node>)
    requires Inv(s) && p in s.tree && forall c :: c in cs ==> c in s.tree && c.nodeType != FRAGMENT
    ensures IdsGrow(s.reg, AppendAll(s, p, cs).0.reg)
    decreases |cs|
  {
    hide Inv, AppendOne, IdsGrow;
    RegisterGrows(s.reg, null, "");
    if cs != [] {
      AppendOneGrows(s, p, cs[0]);
      var (s1, o) := AppendOne(s, p, cs[0]);
      if o == Done {
        AppendAllGrows(s1, p, cs[1..]);
        IdsGrowTrans(s.reg, s1.reg, AppendAll(s1, p, cs[1..]).0.reg);
      }
    }
  }

  lemma {:induction false} InsertAllGrows(s: DomState, p: Node, cs: seq<Node>, b: Node)
    requires Inv(s) && p in s.tree && forall c :: c in cs ==> c in s.tree && c.nodeType != FRAGMENT
    ensures IdsGrow(s.reg, InsertAll(s, p, cs, b).0.reg)
    decreases |cs|
  {
    hide Inv, InsertOne, IdsGrow;
    RegisterGrows(s.reg, null, "");
    if cs != [] {
      InsertOneGrows(s, p, cs[0], b);
      var (s1, o) := InsertOne(s, p, cs[0], b);
      if o == Done {
        InsertAllGrows(s1, p, cs[1..], b);
        IdsGrowTrans(s.reg, s1.reg, InsertAll(s1, p, cs[1..], b).0.reg);
      }
    }
  }

  lemma AppendGrows(s: DomState, p: Node, c: Node)
    requires Inv(s) && p in s.tree && c in s.tree
    ensures IdsGrow(s.reg, Append(s, p, c).0.reg)
  {
    hide Inv, IdsGrow, Append, ValidInsertion, Ancestor;
    RegisterGrows(s.reg, null, "");
    AppendCases(s, p, c);
    if c.nodeType != FRAGMENT {
      AppendOneGrows(s, p, c);
    } else if p != c && ValidInsertion(s.tree, p, c) {
      AppendAllGrows(s, p, s.tree[c].kids);
    }
  }

  lemma InsertGrows(s: DomState, p: Node, c: Node, b: Node?)
    requires Inv(s) && p in s.tree && c in s.tree
    ensures IdsGrow(s.reg, Insert(s, p, c, b).0.reg)
  {
    if b == null {
      AppendGrows(s, p, c);
    } else {
      InsertBeforeGrows(s, p, c, b);
    }
  }

  lemma InsertBeforeGrows(s: DomState, p: Node, c: Node, b: Node)
    requires Inv(s) && p in s.tree && c in s.tree
    ensures IdsGrow(s.reg, Insert(s, p, c, b).0.reg)
  {
    hide Inv, IdsGrow, Insert, ValidInsertion, Ancestor;
    RegisterGrows(s.reg, null, "");
    InsertCases(s, p, c, b);
    if c.nodeType != FRAGMENT {
      InsertOneGrows(s, p, c, b);
    } else if b in s.tree[p].kids && p != c && !Ancestor(s.tree, c, p) && ValidInsertion(s.tree, p, c) {
      InsertAllGrows(s, p, s.tree[c].kids, b);
    }
  }

  lemma FreshGrows(s: DomState, n: Node, d: Node?, text: string)
    requires Inv(s) && n !in s.tree
    ensures IdsGrow(s.reg, Fresh(s, n, d, text).reg)
  {
    hide Inv;
    DomainsOfInv(s);
  }

  lemma CreateElementGrows(s: DomState, n: Node, d: Node?)
    requires Inv(s) && n !in s.tree && n.nodeType == ELEMENT && IsDocument(s, d)
    ensures IdsGrow(s.reg, CreateElement(s, n, d).reg)
  {
    var r1 := Fresh(s, n, null, "").reg;
    FreshGrows(s, n, null, "");
    RegisterGrows(r1, d, "");
    if d != null && !Live(r1, d) { IdsGrowTrans(s.reg, r1, RegisterDoc(r1, d, "")); }
  }

  lemma StepGrows(s: DomState, op: Op)
    requires Inv(s) && Legal(s, op)
    ensures IdsGrow(s.reg, Step(s, op).reg)
  {
    hide Inv, Append, Insert, CreateElement, Loaded, NormalizeStyleName, IsWhitelistedStyle;
    RegisterGrows(s.reg, null, "");
    match op
    case NewElement(n, owner) => CreateElementGrows(s, n, owner);
    case NewRecord(n, owner, text) => FreshGrows(s, n, owner, text);
    case Register(d, task) => RegisterGrows(s.reg, d, task);
    case AppendChild(p, c) => AppendGrows(s, p, c);
    case InsertBefore(p, c, b) => InsertGrows(s, p, c, b);
    case RemoveChild(p, c) =>
    case SetTextContent(n, text) =>
    case SetStyleValue(n, name, text) =>
    case Restyle(n, style) =>
    case ReleaseDocument(d) =>
    case BeginTaskScope(task) =>
    case EndTaskScope(task) =>
    case DrainReleaseStats =>
  }

  /** Over any run every document either keeps its id or gets one larger than every id
      issued before the run. */
  lemma {:induction false} RunNeverReusesIds(s: DomState, ops: seq<Op>)
    requires Inv(s) && LegalRun(s, ops)
    ensures IdsGrow(s.reg, Run(s, ops).reg)
    decreases |ops|
  {
    hide Inv, Step, Legal, IdsGrow;
    RegisterGrows(s.reg, null, "");
    if ops != [] {
      StepKeepsInv(s, ops[0]);
      StepGrows(s, ops[0]);
      RunNeverReusesIds(Step(s, ops[0]), ops[1..]);
      IdsGrowTrans(s.reg, Step(s, ops[0]).reg, Run(Step(s, ops[0]), ops[1..]).reg);
    }
  }
}
