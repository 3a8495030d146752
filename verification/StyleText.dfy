/** Inline style text: what assigning `cssText`, and with it a `style` attribute, does to
    an element's style. */
module StyleText {
  import opened Text
  import opened DomNodes
  import opened DomForest
  import opened DomModel
  import opened DomRelease
  import opened StyleNames
  import opened DomRuns
  import opened DomShared
  import DomHistory

  datatype Declaration = Declaration(name: string, value: string)

  // ---------------------------------------------------------------- the text

  /** `split(';')` */
  function SplitDeclarations(text: string): (r: seq<string>)
    ensures r != []
    decreases |text|
  {
    var i := FirstOf(text, ';');
    if i < 0 then [text] else [text[..i]] + SplitDeclarations(text[i + 1..])
  }

  /** A part without a colon behind a name declares nothing. */
  function Declared(part: string): seq<Declaration> {
    var p := Trim(part);
    var i := FirstOf(p, ':');
    if i <= 0 then [] else [Declaration(Trim(p[..i]), Trim(p[i + 1..]))]
  }

  function DeclaredIn(parts: seq<string>): seq<Declaration> {
    if parts == [] then [] else DeclaredIn(parts[..|parts| - 1]) + Declared(parts[|parts| - 1])
  }

  /** The style after one declaration after another. */
  function Styled(style: Style, ds: seq<Declaration>): Style {
    if ds == [] then style
    else StyledWith(Styled(style, ds[..|ds| - 1]), ds[|ds| - 1].name, ds[|ds| - 1].value)
  }

  /** Declaration `i` is about the stored name `key`. */
  predicate About(d: Declaration, key: string) {
    NormalizeStyleName(d.name) == key && IsWhitelistedStyle(key)
  }

  /** The last declaration about a name decides. */
  lemma {:induction false} LastDeclarationWins(ds: seq<Declaration>, key: string, i: nat)
    requires i < |ds| && About(ds[i], key) && forall j :: i < j < |ds| ==> !About(ds[j], key)
    ensures var style := Styled(map[], ds);
      if Trim(ds[i].value) == "" then key !in style else key in style && style[key] == Trim(ds[i].value)
    decreases |ds|
  {
    hide NormalizeStyleName, IsWhitelistedStyle, Trim;
    if i < |ds| - 1 {
      var front := ds[..|ds| - 1];
      assert !About(ds[|ds| - 1], key);
      LastDeclarationWins(front, key, i);
    }
  }

  lemma {:induction false} UndeclaredIsAbsent(ds: seq<Declaration>, key: string)
    requires forall j :: 0 <= j < |ds| ==> !About(ds[j], key)
    ensures key !in Styled(map[], ds)
    decreases |ds|
  {
    hide NormalizeStyleName, IsWhitelistedStyle, Trim;
    if ds != [] {
      assert !About(ds[|ds| - 1], key);
      UndeclaredIsAbsent(ds[..|ds| - 1], key);
    }
  }

  // ---------------------------------------------------------------- stored styles

  /** Names are stored normalised, and only those that matter for layout. */
  predicate Stored(style: Style) {
    forall k :: k in style ==> NormalizeStyleName(k) == k && IsWhitelistedStyle(k)
  }

  lemma StyledStaysStored(style: Style, name: string, value: string)
    requires Stored(style)
    ensures Stored(StyledWith(style, name, value))
  {
    hide NormalizeStyleName, IsWhitelistedStyle, Trim;
    NormalizeIsIdempotent(name);
  }

  /** So a stored name finds itself again, and the empty value removes it. */
  lemma StoredIsRemoved(style: Style, k: string)
    requires Stored(style) && k in style
    ensures StyledWith(style, k, "") == style - {k} && Stored(style - {k})
  {
    hide NormalizeStyleName, IsWhitelistedStyle;
  }

  /** The state after a style change of `n`: its style, and whatever layouts were dropped. */
  ghost predicate Changed(s: DomState, s': DomState, n: Node, style: Style) {
    && n in s.style && s' == s.(style := s.style[n := style], box := s'.box)
  }

  lemma SetStyleChanges(s: DomState, n: Node, name: string, value: string)
    requires Inv(s) && n in s.tree
    ensures n in s.style && Changed(s, SetStyle(s, n, name, value), n, StyledWith(s.style[n], name, value))
  {
    hide Inv, NormalizeStyleName, IsWhitelistedStyle, Trim;
    InvKeys(s);
    var style := StyledWith(s.style[n], name, value);
    if IsWhitelistedStyle(NormalizeStyleName(name)) {
      RestyleKeepsInv(s, n, style);
    } else {
      assert s.style[n := s.style[n]] == s.style;
    }
  }

  lemma ChangedTwice(a: DomState, b: DomState, c: DomState, n: Node, x: Style, y: Style)
    requires Changed(a, b, n, x) && Changed(b, c, n, y)
    ensures Changed(a, c, n, y) && b.style[n] == x
  {
    assert a.style[n := x][n := y] == a.style[n := y];
  }

  lemma Unchanged(s: DomState, n: Node)
    requires n in s.style
    ensures Changed(s, s, n, s.style[n])
  {
    assert s.style[n := s.style[n]] == s.style;
  }

  // ---------------------------------------------------------------- over whole runs

  lemma {:induction false} AppendAllStyle(s: DomState, p: Node, cs: seq<Node>)
    requires Inv(s) && p in s.tree && forall c :: c in cs ==> c in s.tree && c.nodeType != FRAGMENT
    ensures AppendAll(s, p, cs).0.style == s.style
    decreases |cs|
  {
    hide Inv, AppendOne;
    if cs != [] {
      AppendOneStyle(s, p, cs[0]);
      if AppendOne(s, p, cs[0]).1 == Done { AppendAllStyle(AppendOne(s, p, cs[0]).0, p, cs[1..]); }
    }
  }

  lemma AppendOneStyle(s: DomState, p: Node, c: Node)
    requires Inv(s) && p in s.tree && c in s.tree && c.nodeType != FRAGMENT
    ensures AppendOne(s, p, c).0.style == s.style
  {
    hide Inv, Ancestor, ValidInsertion;
  }

  lemma AppendStyle(s: DomState, p: Node, c: Node)
    requires Inv(s) && p in s.tree && c in s.tree
    ensures Append(s, p, c).0.style == s.style
  {
    hide Inv, Append, AppendOne, Ancestor, ValidInsertion;
    AppendCases(s, p, c);
    if c.nodeType != FRAGMENT {
      AppendIsOne(s, p, c);
      AppendOneStyle(s, p, c);
    } else if p != c && ValidInsertion(s.tree, p, c) {
      AppendAllStyle(s, p, s.tree[c].kids);
    }
  }

  lemma {:induction false} InsertAllStyle(s: DomState, p: Node, cs: seq<Node>, b: Node)
    requires Inv(s) && p in s.tree && forall c :: c in cs ==> c in s.tree && c.nodeType != FRAGMENT
    ensures InsertAll(s, p, cs, b).0.style == s.style
    decreases |cs|
  {
    hide Inv, InsertOne;
    if cs != [] {
      InsertOneStyle(s, p, cs[0], b);
      if InsertOne(s, p, cs[0], b).1 == Done { InsertAllStyle(InsertOne(s, p, cs[0], b).0, p, cs[1..], b); }
    }
  }

  lemma InsertOneStyle(s: DomState, p: Node, c: Node, b: Node)
    requires Inv(s) && p in s.tree && c in s.tree && c.nodeType != FRAGMENT
    ensures InsertOne(s, p, c, b).0.style == s.style
  {
    hide Inv, Ancestor, ValidInsertion;
  }

  lemma InsertStyle(s: DomState, p: Node, c: Node, b: Node)
    requires Inv(s) && p in s.tree && c in s.tree
    ensures Insert(s, p, c, b).0.style == s.style
  {
    hide Inv, Insert, InsertOne, Ancestor, ValidInsertion;
    InsertCases(s, p, c, b);
    if c.nodeType != FRAGMENT {
      InsertIsOne(s, p, c, b);
      InsertOneStyle(s, p, c, b);
    } else if b in s.tree[p].kids && p != c && !Ancestor(s.tree, c, p) && ValidInsertion(s.tree, p, c) {
      InsertAllStyle(s, p, s.tree[c].kids, b);
    }
  }

  ghost predicate StylesStored(style: map<Node, Style>) {
    forall n :: n in style ==> Stored(style[n])
  }

  lemma RemoveStyle(s: DomState, p: Node, c: Node)
    requires Inv(s) && p in s.tree && c in s.tree
    ensures Remove(s, p, c).0.style == s.style
  {
    hide Inv;
  }

  lemma NewStyles(s: DomState, op: Op)
    requires Inv(s) && Legal(s, op) && (op.NewElement? || op.NewRecord? || op.Register?)
    ensures Creation(s, op).style == if op.Register? then s.style else s.style[op.n := map[]]
  {
    hide Inv, Loaded, Live, RegisterDoc;
  }

  lemma MovedStyles(s: DomState, op: Op)
    requires Inv(s) && Legal(s, op) && (op.AppendChild? || op.InsertBefore? || op.RemoveChild?)
    ensures Moving(s, op).style == s.style
  {
    hide Inv, Append, Insert, Remove, Loaded;
    DomainsOfInv(s);
    match op
    case AppendChild(p, c) => AppendStyle(s, p, c);
    case InsertBefore(p, c, b) =>
      if b == null { AppendStyle(s, p, c); InsertNull(s, p, c); } else { InsertStyle(s, p, c, b); }
    case RemoveChild(p, c) => RemoveStyle(s, p, c);
  }

  lemma ReleasedStyles(s: DomState, op: Op)
    requires Inv(s) && Legal(s, op) && StylesStored(s.style) && Releases(op)
    ensures StylesStored(Releasing(s, op).style)
  {
    hide Inv, Loaded, Stored, DocumentsOf, DocumentsNotOf, ReleaseDocs, ReleaseTree, Gone;
    NoStyle();
  }

  lemma TextKeepsStyle(s: DomState, n: Node, text: string)
    requires Inv(s) && n in s.tree
    ensures SetText(s, n, text).style == s.style
  {
    hide Inv;
  }

  lemma StepKeepsStyles(s: DomState, op: Op)
    requires Inv(s) && Legal(s, op) && StylesStored(s.style) && (op.Restyle? ==> Stored(op.style))
    ensures StylesStored(Step(s, op).style)
  {
    hide Inv, Stored, StylesStored, Domains, Moving, Releasing, Creation, SetText, SetStyle, RestyleAndMark, Loaded, Drained;
    DomainsOfInv(s);
    match op
    case NewElement(n, owner) => NewStyles(s, op); OneMoreStored(s.style, n, map[]);
    case NewRecord(n, owner, text) => NewStyles(s, op); OneMoreStored(s.style, n, map[]);
    case Register(d, task) => NewStyles(s, op);
    case AppendChild(p, c) => MovedStyles(s, op);
    case InsertBefore(p, c, b) => MovedStyles(s, op);
    case RemoveChild(p, c) => MovedStyles(s, op);
    case SetTextContent(n, text) => TextKeepsStyle(s, n, text);
    case SetStyleValue(n, name, value) => StyleValueStaysStored(s, n, name, value);
    case Restyle(n, style) => RestyledStyle(s, n, style); OneMoreStored(s.style, n, style);
    case ReleaseDocument(d) => ReleasedStyles(s, op);
    case BeginTaskScope(task) => ReleasedStyles(s, op);
    case EndTaskScope(task) => ReleasedStyles(s, op);
    case DrainReleaseStats =>
  }

  lemma OneMoreStored(styles: map<Node, Style>, n: Node, style: Style)
    requires StylesStored(styles)
    ensures Stored(map[])
    ensures Stored(style) ==> StylesStored(styles[n := style])
  {
    NoStyle();
    hide Stored;
  }

  lemma StyleValueStaysStored(s: DomState, n: Node, name: string, value: string)
    requires Inv(s) && n in s.tree && StylesStored(s.style)
    ensures StylesStored(SetStyle(s, n, name, value).style)
  {
    hide Inv, Stored, SetStyle, StyledWith;
    SetStyleChanges(s, n, name, value);
    StyledStaysStored(s.style[n], name, value);
  }

  lemma RestyledStyle(s: DomState, n: Node, style: Style)
    requires Inv(s) && n in s.tree
    ensures RestyleAndMark(s, n, style).style == s.style[n := style]
  {
    hide Inv;
    RestyleKeepsInv(s, n, style);
  }

  lemma NoStyle()
    ensures Stored(map[])
  {
  }

  /** Every style a run leads to has stored names only. */
  lemma {:induction false} RunKeepsStyles(s: DomState, ops: seq<Op>)
    requires Inv(s) && LegalRun(s, ops) && StylesStored(s.style)
    requires forall i :: 0 <= i < |ops| && ops[i].Restyle? ==> Stored(ops[i].style)
    ensures StylesStored(Run(s, ops).style)
    decreases |ops|
  {
    hide Inv, Step, Legal, StylesStored, Stored;
    if ops != [] {
      StepKeepsInv(s, ops[0]);
      StepKeepsStyles(s, ops[0]);
      RunKeepsStyles(Step(s, ops[0]), ops[1..]);
    }
  }

  // ---------------------------------------------------------------- the setter

  /** The loop of the `cssText` setter over the old names, in whatever order. */
  method ClearStyle(dom: DomShared, node: Node) returns (ghost ops: seq<Op>)
    requires dom.Valid() && node in dom.nodes && Stored(node.styleStore)
    modifies dom.nodes`styleStore, dom.nodes`layoutDirty, dom.nodes`layoutRect, dom.nodes`dodTree
    ensures dom.Valid() && Changed(old(dom.View()), dom.View(), node, map[])
    ensures DomHistory.History(old(dom.View()), dom.View(), ops)
  {
    hide *;
    ghost var s0 := dom.View();
    dom.AtStyle(node);
    dom.ValidParts();
    Unchanged(s0, node);
    DomHistory.NoHistory(s0);
    ops := [];
    var rest := node.styleStore.Keys;
    ghost var left := node.styleStore;
    while rest != {}
      invariant dom.Valid() && Changed(s0, dom.View(), node, left) && Stored(left) && left.Keys == rest
      invariant DomHistory.History(s0, dom.View(), ops)
    {
      var k :| k in rest;
      ghost var s := dom.View();
      ops := SetOne(dom, node, k, "", s0, left, ops);
      StoredIsRemoved(left, k);
      left := left - {k};
      rest := rest - {k};
    }
    assert left == map[];
  }

  /** One `setStyleValue`. */
  method SetOne(dom: DomShared, node: Node, name: string, value: string, ghost s0: DomState, ghost style: Style, ghost ops: seq<Op>)
    returns (ghost ops': seq<Op>)
    requires dom.Valid() && node in dom.nodes
    requires Changed(s0, dom.View(), node, style) && DomHistory.History(s0, dom.View(), ops)
    modifies dom.nodes`styleStore, dom.nodes`layoutDirty, dom.nodes`layoutRect, dom.nodes`dodTree
    ensures dom.Valid() && Changed(s0, dom.View(), node, StyledWith(style, name, value))
    ensures DomHistory.History(s0, dom.View(), ops')
  {
    hide *;
    ghost var s := dom.View();
    dom.ValidParts();
    SetStyleChanges(s, node, name, value);
    DomHistory.StyleSet(s, node, name, value);
    StyleNow(s0, s, node, style);
    dom.SetStyleValue(node, name, value);
    ChangedTwice(s0, s, dom.View(), node, style, StyledWith(style, name, value));
    DomHistory.InTurn(s0, s, dom.View(), ops, [DomRuns.SetStyleValue(node, name, value)]);
    ops' := ops + [DomRuns.SetStyleValue(node, name, value)];
  }

  lemma StyleNow(s0: DomState, s: DomState, n: Node, style: Style)
    requires Changed(s0, s, n, style)
    ensures n in s.style && s.style[n] == style
  {
  }

  /** The `cssText` setter: the element's style becomes the declarations of the text,
      nothing else changes but dropped layouts, and all of it is a run of
      `setStyleValue` calls. */
  method SetCssText(dom: DomShared, node: Node, text: string) returns (ghost ops: seq<Op>)
    requires dom.Valid() && node in dom.nodes && Stored(node.styleStore)
    modifies dom.nodes`styleStore, dom.nodes`layoutDirty, dom.nodes`layoutRect, dom.nodes`dodTree
    ensures dom.Valid()
    ensures Changed(old(dom.View()), dom.View(), node, Styled(map[], DeclaredIn(SplitDeclarations(text))))
    ensures DomHistory.History(old(dom.View()), dom.View(), ops)
  {
    hide *;
    ghost var s0 := dom.View();
    ops := ClearStyle(dom, node);
    ghost var s1 := dom.View();
    dom.ValidParts();
    EmptyAlready(s0, s1, node);
    dom.SetStyleStore(node, map[]);
    dom.BecomesValid();
    var parts := SplitDeclarations(text);
    ghost var done: seq<Declaration> := [];
    NothingDeclared();
    assert parts[..0] == [];
    for i := 0 to |parts|
      invariant dom.Valid() && done == DeclaredIn(parts[..i]) && Changed(s0, dom.View(), node, Styled(map[], done))
      invariant DomHistory.History(s0, dom.View(), ops)
    {
      OneMorePart(parts, i);
      var part := Trim(parts[i]);
      var splitIndex := FirstOf(part, ':');
      DeclaredCases(parts[i]);
      if splitIndex <= 0 {
        assert done + [] == done;
        continue;
      }
      var key, value := Trim(part[..splitIndex]), Trim(part[splitIndex + 1..]);
      ops := SetOne(dom, node, key, value, s0, Styled(map[], done), ops);
      StyledOnce(done, Declaration(key, value));
      done := done + [Declaration(key, value)];
    }
    assert parts[..|parts|] == parts;
  }

  lemma EmptyAlready(s0: DomState, s: DomState, n: Node)
    requires Changed(s0, s, n, map[]) && Inv(s)
    ensures s.(style := s.style[n := map[]]) == s && Inv(s.(style := s.style[n := map[]]))
  {
    hide Inv;
    assert s.style[n := map[]] == s.style;
  }

  lemma NothingDeclared()
    ensures DeclaredIn([]) == [] && Styled(map[], []) == map[]
  {
  }

  lemma OneMorePart(parts: seq<string>, i: nat)
    requires i < |parts|
    ensures DeclaredIn(parts[..i + 1]) == DeclaredIn(parts[..i]) + Declared(parts[i])
  {
    assert parts[..i + 1][..i] == parts[..i];
  }

  lemma DeclaredCases(part: string)
    ensures var p := Trim(part);
      var i := FirstOf(p, ':');
      && i < |p| && Declared(part) == if i <= 0 then [] else [Declaration(Trim(p[..i]), Trim(p[i + 1..]))]
  {
    hide Trim;
  }

  lemma StyledOnce(ds: seq<Declaration>, d: Declaration)
    ensures Styled(map[], ds + [d]) == StyledWith(Styled(map[], ds), d.name, d.value)
  {
    hide StyledWith;
    assert (ds + [d])[..|ds|] == ds;
  }
}
