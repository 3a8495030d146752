/** The selector scanners: splitting a list at its top-level commas, and one group
    into compound tokens and combinators. */
module SelectorText {
  import opened Text

  // ---------------------------------------------------------------- quotes and brackets

  datatype Quote = NoQuote | InQuote(mark: char)

  /** Where a scanner stands: the open quote and the bracket depths. */
  datatype Context = Context(quote: Quote, brackets: nat, parens: nat)

  const OUTSIDE := Context(NoQuote, 0, 0)

  function Advance(c: Context, ch: char): Context {
    if c.quote.InQuote? then
      if ch == c.quote.mark then c.(quote := NoQuote) else c
    else if ch == '"' || ch == '\'' then c.(quote := InQuote(ch))
    else if ch == '[' then c.(brackets := c.brackets + 1)
    else if ch == ']' then c.(brackets := if c.brackets > 0 then c.brackets - 1 else 0)
    else if ch == '(' then c.(parens := c.parens + 1)
    else if ch == ')' then c.(parens := if c.parens > 0 then c.parens - 1 else 0)
    else c
  }

  function After(c: Context, text: string): Context
    decreases |text|
  {
    if text == "" then c else After(Advance(c, text[0]), text[1..])
  }

  /** Some comma of `text` stands outside all quotes and brackets. */
  predicate TopComma(c: Context, text: string)
    decreases |text|
  {
    text != "" && ((c == OUTSIDE && text[0] == ',') || TopComma(Advance(c, text[0]), text[1..]))
  }

  /** Balanced in quotes and brackets and without a top-level comma. */
  predicate SelfContained(group: string) {
    After(OUTSIDE, group) == OUTSIDE && !TopComma(OUTSIDE, group)
  }

  lemma {:induction false} AfterConcat(c: Context, a: string, b: string)
    ensures After(c, a + b) == After(After(c, a), b)
    decreases |a|
  {
    if a == "" {
      assert a + b == b;
    } else {
      AfterConcat(Advance(c, a[0]), a[1..], b);
      assert (a + b)[1..] == a[1..] + b;
    }
  }

  // ---------------------------------------------------------------- splitting at commas

  function NonEmpty(part: string): seq<string> {
    if part == "" then [] else [part]
  }

  /** The groups still to come when `current` has been read since the last comma. */
  function SplitFrom(c: Context, current: string, text: string): seq<string>
    decreases |text|
  {
    if text == "" then NonEmpty(Trim(current))
    else if c == OUTSIDE && text[0] == ',' then NonEmpty(Trim(current)) + SplitFrom(c, "", text[1..])
    else SplitFrom(Advance(c, text[0]), current + [text[0]], text[1..])
  }

  function Split(text: string): seq<string> {
    var raw := Trim(text);
    if raw == "" then [] else SplitFrom(OUTSIDE, "", raw)
  }

  lemma SplitStep(c: Context, current: string, text: string)
    ensures text == "" ==> SplitFrom(c, current, text) == NonEmpty(Trim(current))
    ensures text != "" && c == OUTSIDE && text[0] == ',' ==>
      SplitFrom(c, current, text) == NonEmpty(Trim(current)) + SplitFrom(c, "", text[1..])
    ensures text != "" && !(c == OUTSIDE && text[0] == ',') ==>
      SplitFrom(c, current, text) == SplitFrom(Advance(c, text[0]), current + [text[0]], text[1..])
  {
    hide Trim, Advance;
  }

  /** `splitSelectorGroups` */
  method SplitSelectorGroups(selectorText: string) returns (groups: seq<string>)
    ensures groups == Split(selectorText)
  {
    hide SplitFrom, Trim;
    var raw := Trim(selectorText);
    groups := [];
    if raw == "" { return; }
    var current := "";
    var bracketDepth, parenDepth, quote := 0, 0, NoQuote;
    for i := 0 to |raw|
      invariant bracketDepth >= 0 && parenDepth >= 0
      invariant groups + SplitFrom(Context(quote, bracketDepth, parenDepth), current, raw[i..]) == Split(selectorText)
    {
      var ch := raw[i];
      SplitStep(Context(quote, bracketDepth, parenDepth), current, raw[i..]);
      assert raw[i..][1..] == raw[i + 1..];
      if quote.InQuote? {
        current := current + [ch];
        if ch == quote.mark { quote := NoQuote; }
      } else if ch == '"' || ch == '\'' {
        quote := InQuote(ch);
        current := current + [ch];
      } else if ch == '[' {
        bracketDepth := bracketDepth + 1;
        current := current + [ch];
      } else if ch == ']' {
        if bracketDepth > 0 { bracketDepth := bracketDepth - 1; }
        current := current + [ch];
      } else if ch == '(' {
        parenDepth := parenDepth + 1;
        current := current + [ch];
      } else if ch == ')' {
        if parenDepth > 0 { parenDepth := parenDepth - 1; }
        current := current + [ch];
      } else if ch == ',' && bracketDepth == 0 && parenDepth == 0 {
        var part := Trim(current);
        if part != "" { groups := groups + [part]; }
        current := "";
      } else {
        current := current + [ch];
      }
    }
    SplitStep(Context(quote, bracketDepth, parenDepth), current, "");
    var tail := Trim(current);
    if tail != "" { groups := groups + [tail]; }
  }

  function Join(groups: seq<string>): string {
    if groups == [] then ""
    else if |groups| == 1 then groups[0]
    else groups[0] + "," + Join(groups[1..])
  }

  predicate Trimmed(s: string) {
    s == "" || (!IsSpace(s[0]) && !IsSpace(s[|s| - 1]))
  }

  lemma TrimIsId(s: string)
    requires Trimmed(s)
    ensures Trim(s) == s
  {
  }

  lemma {:induction false} SplitSkips(c: Context, current: string, a: string, b: string)
    requires !TopComma(c, a)
    ensures SplitFrom(c, current, a + b) == SplitFrom(After(c, a), current + a, b)
    decreases |a|
  {
    hide SplitFrom, Advance;
    if a == "" {
      assert a + b == b && current + a == current;
    } else {
      SplitStep(c, current, a + b);
      SplitSkips(Advance(c, a[0]), current + [a[0]], a[1..], b);
      assert (a + b)[1..] == a[1..] + b;
      assert current + [a[0]] + a[1..] == current + a;
    }
  }

  predicate GroupText(g: string) {
    g != "" && Trimmed(g) && !TopComma(OUTSIDE, g)
  }

  /** A list of groups that a comma-separated text can hold. */
  predicate GroupList(groups: seq<string>) {
    && (forall i :: 0 <= i < |groups| ==> GroupText(groups[i]))
    && (forall i :: 0 <= i < |groups| - 1 ==> SelfContained(groups[i]))
  }

  lemma {:induction false} SplitJoined(groups: seq<string>)
    requires groups != [] && GroupList(groups)
    ensures SplitFrom(OUTSIDE, "", Join(groups)) == groups
    decreases |groups|
  {
    hide SplitFrom, Advance, Trim, TopComma;
    var g := groups[0];
    TrimIsId(g);
    assert "" + g == g;
    if |groups| == 1 {
      SplitSkips(OUTSIDE, "", g, "");
      SplitStep(After(OUTSIDE, g), g, "");
      assert g + "" == g;
    } else {
      var rest := "," + Join(groups[1..]);
      SplitSkips(OUTSIDE, "", g, rest);
      assert Join(groups) == g + rest;
      SplitStep(OUTSIDE, g, rest);
      assert rest[1..] == Join(groups[1..]);
      SplitJoined(groups[1..]);
    }
  }

  lemma {:induction false} JoinIsTrimmed(groups: seq<string>)
    requires groups != [] && forall i :: 0 <= i < |groups| ==> GroupText(groups[i])
    ensures Join(groups) != "" && Trimmed(Join(groups))
    decreases |groups|
  {
    if |groups| > 1 {
      JoinIsTrimmed(groups[1..]);
      var tail := Join(groups[1..]);
      var j := Join(groups);
      assert j[|j| - 1] == tail[|tail| - 1];
    }
  }

  /** Splitting undoes joining: every group but the last must be balanced, none may
      hold a top-level comma. */
  lemma SplitUndoesJoin(groups: seq<string>)
    requires GroupList(groups)
    ensures Split(Join(groups)) == groups
  {
    if groups != [] {
      JoinIsTrimmed(groups);
      TrimIsId(Join(groups));
      SplitJoined(groups);
    }
  }

  // ---------------------------------------------------------------- what splitting produces

  predicate Reached(c: Context) {
    c.quote.InQuote? ==> c.quote.mark == '"' || c.quote.mark == '\''
  }

  lemma {:induction false} AfterIsReached(c: Context, text: string)
    requires Reached(c)
    ensures Reached(After(c, text))
    decreases |text|
  {
    if text != "" { AfterIsReached(Advance(c, text[0]), text[1..]); }
  }

  lemma {:induction false} TopCommaConcat(c: Context, a: string, b: string)
    ensures TopComma(c, a + b) <==> TopComma(c, a) || TopComma(After(c, a), b)
    decreases |a|
  {
    if a == "" {
      assert a + b == b;
    } else {
      TopCommaConcat(Advance(c, a[0]), a[1..], b);
      assert (a + b)[1..] == a[1..] + b;
    }
  }

  predicate Blank(s: string) {
    forall i :: 0 <= i < |s| ==> IsSpace(s[i])
  }

  lemma {:induction false} BlankIsNeutral(c: Context, s: string)
    requires Reached(c) && Blank(s)
    ensures After(c, s) == c && !TopComma(c, s)
    decreases |s|
  {
    if s != "" { BlankIsNeutral(c, s[1..]); }
  }

  lemma TrimParts(s: string) returns (a: string, b: string)
    ensures s == a + Trim(s) + b && Blank(a) && Blank(b) && Trimmed(Trim(s))
  {
    hide TrimLeft, TrimRight, IsSpace;
    var l := TrimLeft(s);
    var r := TrimRight(l);
    a, b := s[..|s| - |l|], l[|r|..];
    assert l == r + b;
    assert r != "" ==> r[0] == l[0];
  }

  lemma TrimKeepsContext(s: string)
    ensures After(OUTSIDE, Trim(s)) == After(OUTSIDE, s) && (TopComma(OUTSIDE, Trim(s)) <==> TopComma(OUTSIDE, s))
    ensures Trimmed(Trim(s))
  {
    hide Trim, Blank, Trimmed, Advance, After, TopComma;
    var a, b := TrimParts(s);
    BlankIsNeutral(OUTSIDE, a);
    AfterIsReached(OUTSIDE, Trim(s));
    BlankIsNeutral(After(OUTSIDE, Trim(s)), b);
    AfterConcat(OUTSIDE, a + Trim(s), b);
    AfterConcat(OUTSIDE, a, Trim(s));
    TopCommaConcat(OUTSIDE, a + Trim(s), b);
    TopCommaConcat(OUTSIDE, a, Trim(s));
  }

  lemma {:induction false} SplitFromGivesGroups(current: string, text: string)
    requires !TopComma(OUTSIDE, current)
    ensures GroupList(SplitFrom(After(OUTSIDE, current), current, text))
    decreases |text|
  {
    hide SplitFrom, Trim, Advance;
    var c := After(OUTSIDE, current);
    SplitStep(c, current, text);
    TrimKeepsContext(current);
    if text != "" {
      var ch := [text[0]];
      if c == OUTSIDE && text[0] == ',' {
        SplitFromGivesGroups("", text[1..]);
      } else {
        AfterConcat(OUTSIDE, current, ch);
        TopCommaConcat(OUTSIDE, current, ch);
        assert After(c, ch) == Advance(c, text[0]);
        SplitFromGivesGroups(current + ch, text[1..]);
      }
    }
  }

  lemma SplitGivesGroups(text: string)
    ensures GroupList(Split(text))
  {
    if Trim(text) != "" { SplitFromGivesGroups("", Trim(text)); }
  }

  /** Joining and splitting again gives the groups back exactly when they are trimmed
      and non-empty, hold no top-level comma, and all but the last are balanced. */
  lemma SplitUndoesJoinIff(groups: seq<string>)
    ensures Split(Join(groups)) == groups <==> GroupList(groups)
  {
    SplitGivesGroups(Join(groups));
    if GroupList(groups) { SplitUndoesJoin(groups); }
  }

  /** Whatever was split once splits the same way again. */
  lemma SplitIsStable(text: string)
    ensures Split(Join(Split(text))) == Split(text)
  {
    SplitGivesGroups(text);
    SplitUndoesJoin(Split(text));
  }
}
