/** Parsing one selector group: compound tokens joined by combinators. */
module SelectorGroups {
  import opened Options
  import opened Text
  import opened Selectors
  import opened SelectorText

  // ---------------------------------------------------------------- compound tokens

  predicate IsNameChar(c: char) {
    IsLetter(c) || '0' <= c <= '9' || c == '_' || c == '-'
  }

  predicate IsName(s: string) {
    s != "" && forall i :: 0 <= i < |s| ==> IsNameChar(s[i])
  }

  predicate IsTagName(s: string) {
    IsName(s) && IsLetter(s[0])
  }

  /** The leading name characters. */
  function NameRun(s: string): (n: nat)
    ensures n <= |s| && (n < |s| ==> !IsNameChar(s[n])) && forall i :: 0 <= i < n ==> IsNameChar(s[i])
  {
    if s != "" && IsNameChar(s[0]) then 1 + NameRun(s[1..]) else 0
  }

  datatype Stripped = Stripped(rest: string, names: seq<string>)

  /** Takes every marked name out of `s`, as a global `replace` of the marker followed
      by name characters does. */
  function StripNames(marker: char, s: string): Stripped
    decreases |s|
  {
    if s == "" then Stripped("", [])
    else if s[0] == marker && NameRun(s[1..]) > 0 then
      var n := NameRun(s[1..]);
      var r := StripNames(marker, s[1 + n..]);
      Stripped(r.rest, [s[1..1 + n]] + r.names)
    else
      var r := StripNames(marker, s[1..]);
      Stripped([s[0]] + r.rest, r.names)
  }

  type Special = string -> Option<Token>

  /** `parseSelectorToken`; a token with attribute tests or pseudo-classes is read by
      `special`. */
  function ParseToken(special: Special, raw: string): Option<Token> {
    var token := Trim(raw);
    if token == "" then None
    else if '[' in token || ':' in token then special(token)
    else
      var ids := StripNames('#', token);
      var classes := StripNames('.', ids.rest);
      var left := Trim(classes.rest);
      var id := if ids.names == [] then "" else ids.names[0];
      if left == "" || left == "*" then Some(Token(left, Simple(id, classes.names, []), []))
      else if IsTagName(left) then Some(Token(Lower(left), Simple(id, classes.names, []), []))
      else None
  }

  // ---------------------------------------------------------------- the scanner

  /** Scanner state: the steps read, the token being read, and the combinator waiting
      for the next token. */
  datatype Scan = Scan(steps: Chain, buf: string, at: Context, pending: Option<Combinator>)

  function Flush(special: Special, s: Scan): Option<Scan> {
    match ParseToken(special, Trim(s.buf))
    case None => None
    case Some(token) =>
      if s.steps == [] then
        if s.pending.Some? then None else Some(s.(steps := [Step(token, Descendant)], buf := ""))
      else
        var c := if s.pending.Some? then s.pending.value else Descendant;
        Some(s.(steps := s.steps + [Step(token, c)], buf := "", pending := None))
  }

  predicate IsCombinator(ch: char) {
    ch == '>' || ch == '+' || ch == '~'
  }

  function CombinatorOf(ch: char): Combinator
    requires IsCombinator(ch)
  {
    if ch == '>' then Child else if ch == '+' then NextSibling else LaterSibling
  }

  function ScanChar(special: Special, s: Scan, ch: char): Option<Scan> {
    if s.at == OUTSIDE && IsCombinator(ch) then
      if Trim(s.buf) != "" then
        match Flush(special, s)
        case None => None
        case Some(s1) => Some(s1.(pending := Some(CombinatorOf(ch))))
      else if s.steps == [] then None
      else Some(s.(pending := Some(CombinatorOf(ch))))
    else if s.at == OUTSIDE && IsSpace(ch) then
      if Trim(s.buf) != "" then
        match Flush(special, s)
        case None => None
        case Some(s1) => Some(s1.(pending := Some(Descendant)))
      else if s.pending.None? && s.steps != [] then Some(s.(pending := Some(Descendant)))
      else Some(s)
    else Some(s.(buf := s.buf + [ch], at := Advance(s.at, ch)))
  }

  function Finish(special: Special, s: Scan): Option<Chain> {
    if s.at != OUTSIDE then None
    else if Trim(s.buf) != "" then
      match Flush(special, s)
      case None => None
      case Some(s1) => Some(s1.steps)
    else if s.pending.Some? || s.steps == [] then None
    else Some(s.steps)
  }

  function ParseFrom(special: Special, s: Scan, text: string): Option<Chain>
    decreases |text|
  {
    if text == "" then Finish(special, s)
    else
      match ScanChar(special, s, text[0])
      case None => None
      case Some(s1) => ParseFrom(special, s1, text[1..])
  }

  const START := Scan([], "", OUTSIDE, None)

  function ParseGroup(special: Special, groupText: string): Option<Chain> {
    var text := Trim(groupText);
    if text == "" then None else ParseFrom(special, START, text)
  }

  /** `parseSelectorGroup` */
  method ParseSelectorGroup(special: Special, groupText: string) returns (r: Option<Chain>)
    ensures r == ParseGroup(special, groupText)
  {
    hide Trim, ParseToken;
    var text := Trim(groupText);
    if text == "" { return None; }
    var steps: Chain := [];
    var buf := "";
    var bracketDepth, parenDepth, quote := 0, 0, NoQuote;
    var pending: Option<Combinator> := None;
    for i := 0 to |text|
      invariant bracketDepth >= 0 && parenDepth >= 0
      invariant ParseFrom(special, Scan(steps, buf, Context(quote, bracketDepth, parenDepth), pending), text[i..])
             == ParseGroup(special, groupText)
    {
      var ch := text[i];
      ghost var s := Scan(steps, buf, Context(quote, bracketDepth, parenDepth), pending);
      ScanStep(special, s, text[i..]);
      assert text[i..][1..] == text[i + 1..];
      if quote.InQuote? {
        buf := buf + [ch];
        if ch == quote.mark { quote := NoQuote; }
        continue;
      }
      if ch == '"' || ch == '\'' {
        quote := InQuote(ch);
        buf := buf + [ch];
        continue;
      }
      if ch == '[' {
        bracketDepth := bracketDepth + 1;
        buf := buf + [ch];
        continue;
      }
      if ch == ']' {
        if bracketDepth > 0 { bracketDepth := bracketDepth - 1; }
        buf := buf + [ch];
        continue;
      }
      if ch == '(' {
        parenDepth := parenDepth + 1;
        buf := buf + [ch];
        continue;
      }
      if ch == ')' {
        if parenDepth > 0 { parenDepth := parenDepth - 1; }
        buf := buf + [ch];
        continue;
      }
      if bracketDepth == 0 && parenDepth == 0 {
        if ch == '>' || ch == '+' || ch == '~' {
          if Trim(buf) != "" {
            var ok: bool;
            ok, steps, buf, pending := FlushToken(special, steps, buf, pending);
            if !ok { return None; }
          } else if steps == [] {
            return None;
          }
          pending := Some(CombinatorOf(ch));
          continue;
        }
        if IsSpace(ch) {
          if Trim(buf) != "" {
            var ok: bool;
            ok, steps, buf, pending := FlushToken(special, steps, buf, pending);
            if !ok { return None; }
            if pending.None? && steps != [] { pending := Some(Descendant); }
          } else if pending.None? && steps != [] {
            pending := Some(Descendant);
          }
          continue;
        }
      }
      buf := buf + [ch];
    }
    if quote.InQuote? || bracketDepth != 0 || parenDepth != 0 { return None; }
    if Trim(buf) != "" {
      var ok: bool;
      ok, steps, buf, pending := FlushToken(special, steps, buf, pending);
      if !ok { return None; }
    } else if pending.Some? {
      return None;
    }
    if steps == [] { return None; }
    return Some(steps);
  }

  lemma ScanStep(special: Special, s: Scan, text: string)
    requires text != ""
    ensures ScanChar(special, s, text[0]).None? ==> ParseFrom(special, s, text) == None
    ensures ScanChar(special, s, text[0]).Some? ==>
      ParseFrom(special, s, text) == ParseFrom(special, ScanChar(special, s, text[0]).value, text[1..])
  {
    hide ScanChar, Finish;
  }

  /** `flushToken`, for a buffer that is not blank. */
  method FlushToken(special: Special, steps: Chain, buf: string, pending: Option<Combinator>)
    returns (ok: bool, steps': Chain, buf': string, pending': Option<Combinator>)
    requires Trim(buf) != ""
    ensures forall at ::
      Flush(special, Scan(steps, buf, at, pending)) == if ok then Some(Scan(steps', buf', at, pending')) else None
    ensures ok ==> steps' != [] && pending'.None?
  {
    hide ParseToken;
    steps', buf', pending' := steps, buf, pending;
    var parsed := ParseToken(special, Trim(buf));
    if parsed.None? { return false, steps', buf', pending'; }
    if steps == [] {
      if pending.Some? { return false, steps', buf', pending'; }
      steps' := [Step(parsed.value, Descendant)];
    } else {
      steps' := steps + [Step(parsed.value, if pending.Some? then pending.value else Descendant)];
    }
    buf', pending' := "", None;
    ok := true;
  }

  // ---------------------------------------------------------------- printing tokens

  function PrintClasses(classes: seq<string>): string {
    if classes == [] then "" else "." + classes[0] + PrintClasses(classes[1..])
  }

  function PrintToken(t: Token): string {
    t.tag + (if t.simple.id == "" then "" else "#" + t.simple.id) + PrintClasses(t.simple.classes)
  }

  /** Tokens made of a tag, an id and classes, at least one of them present. */
  predicate Plain(t: Token) {
    && (t.tag == "" || t.tag == "*" || (IsTagName(t.tag) && Lower(t.tag) == t.tag))
    && (t.simple.id == "" || IsName(t.simple.id))
    && (forall i :: 0 <= i < |t.simple.classes| ==> IsName(t.simple.classes[i]))
    && t.simple.attrs == [] && t.pseudos == [] && PrintToken(t) != ""
  }

  predicate PlainChar(c: char) {
    IsNameChar(c) || c == '#' || c == '.' || c == '*'
  }

  predicate PlainText(s: string) {
    forall i :: 0 <= i < |s| ==> PlainChar(s[i])
  }

  lemma {:induction false} StripSkips(marker: char, a: string, b: string)
    requires marker !in a
    ensures StripNames(marker, a + b) == Stripped(a + StripNames(marker, b).rest, StripNames(marker, b).names)
    decreases |a|
  {
    if a == "" {
      assert a + b == b;
      assert a + StripNames(marker, b).rest == StripNames(marker, b).rest;
    } else {
      hide NameRun;
      StripSkips(marker, a[1..], b);
      assert (a + b)[1..] == a[1..] + b && (a + b)[0] == a[0];
      var r := StripNames(marker, b);
      assert a + r.rest == [a[0]] + (a[1..] + r.rest);
    }
  }

  lemma {:induction false} NameRunIs(name: string, b: string)
    requires (forall i :: 0 <= i < |name| ==> IsNameChar(name[i])) && (b == "" || !IsNameChar(b[0]))
    ensures NameRun(name + b) == |name|
    decreases |name|
  {
    if name == "" {
      assert name + b == b;
    } else {
      NameRunIs(name[1..], b);
      assert (name + b)[1..] == name[1..] + b;
    }
  }

  lemma StripTakes(marker: char, name: string, b: string)
    requires IsName(name) && (b == "" || !IsNameChar(b[0]))
    ensures StripNames(marker, [marker] + name + b) ==
      Stripped(StripNames(marker, b).rest, [name] + StripNames(marker, b).names)
  {
    hide NameRun;
    var s := [marker] + name + b;
    NameRunIs(name, b);
    assert s[1..] == name + b;
    assert s[1 + |name|..] == b && s[1..1 + |name|] == name;
  }

  lemma {:induction false} StripClasses(classes: seq<string>)
    requires forall i :: 0 <= i < |classes| ==> IsName(classes[i])
    ensures StripNames('.', PrintClasses(classes)) == Stripped("", classes)
    ensures PlainText(PrintClasses(classes)) && '#' !in PrintClasses(classes)
    ensures PrintClasses(classes) == "" || PrintClasses(classes)[0] == '.'
    decreases |classes|
  {
    hide StripNames, NameRun;
    if classes == [] {
      NothingToStrip('.');
    } else {
      StripClasses(classes[1..]);
      StripTakes('.', classes[0], PrintClasses(classes[1..]));
    }
  }

  lemma NothingToStrip(marker: char)
    ensures StripNames(marker, "") == Stripped("", [])
  {
  }

  lemma StripId(t: Token)
    requires Plain(t)
    ensures var r := StripNames('#', PrintToken(t));
      && r.rest == t.tag + PrintClasses(t.simple.classes)
      && r.names == if t.simple.id == "" then [] else [t.simple.id]
  {
    hide StripNames, NameRun, PrintClasses;
    var id, cs := t.simple.id, PrintClasses(t.simple.classes);
    StripClasses(t.simple.classes);
    StripSkips('#', cs, "");
    NothingToStrip('#');
    assert cs + "" == cs;
    if id == "" {
      StripSkips('#', t.tag, cs);
      assert PrintToken(t) == t.tag + cs;
    } else {
      StripTakes('#', id, cs);
      StripSkips('#', t.tag, ['#'] + id + cs);
      assert PrintToken(t) == t.tag + (['#'] + id + cs);
    }
  }

  lemma PrintedTokenIsPlain(t: Token)
    requires Plain(t)
    ensures PlainText(PrintToken(t))
    ensures '[' !in PrintToken(t) && ':' !in PrintToken(t) && Trimmed(PrintToken(t))
  {
    hide PrintClasses, StripNames, Lower;
    StripClasses(t.simple.classes);
    PlainTextFacts(PrintToken(t));
  }

  lemma PlainTextFacts(s: string)
    requires PlainText(s)
    ensures '[' !in s && ':' !in s && Trimmed(s)
  {
  }

  /** `parseSelectorToken` undoes printing. */
  lemma ParseUndoesPrintToken(special: Special, t: Token)
    requires Plain(t)
    ensures ParseToken(special, PrintToken(t)) == Some(t)
  {
    hide StripNames, PrintClasses, Trim;
    PrintedTokenIsPlain(t);
    TrimIsId(PrintToken(t));
    StripId(t);
    StripClasses(t.simple.classes);
    StripSkips('.', t.tag, PrintClasses(t.simple.classes));
    assert t.tag + "" == t.tag;
    TrimIsId(t.tag);
  }

  // ---------------------------------------------------------------- printing chains

  /** The white space printed on the two sides of a combinator. */
  datatype Gap = Gap(before: string, after: string)

  function PrintCombinator(c: Combinator): string {
    match c
    case Descendant => ""
    case Child => ">"
    case NextSibling => "+"
    case LaterSibling => "~"
  }

  function PrintGap(c: Combinator, g: Gap): string {
    g.before + PrintCombinator(c) + g.after
  }

  predicate GapFits(c: Combinator, g: Gap) {
    Blank(g.before) && Blank(g.after) && (c == Descendant ==> g.before + g.after != "")
  }

  /** The chain as text, `gaps[i]` standing around the combinator of step `i`. */
  function PrintFrom(chain: Chain, gaps: seq<Gap>): string
    requires |gaps| == |chain|
  {
    if chain == [] then ""
    else if |chain| == 1 then PrintToken(chain[0].token)
    else PrintToken(chain[0].token) + PrintGap(chain[1].combinator, gaps[1]) + PrintFrom(chain[1..], gaps[1..])
  }

  predicate Printable(chain: Chain, gaps: seq<Gap>) {
    && |gaps| == |chain|
    && (forall i :: 0 <= i < |chain| ==> Plain(chain[i].token))
    && (forall i :: 1 <= i < |chain| ==> GapFits(chain[i].combinator, gaps[i]))
  }

  lemma {:induction false} ScanPlain(special: Special, s: Scan, w: string, rest: string)
    requires s.at == OUTSIDE && PlainText(w)
    ensures ParseFrom(special, s, w + rest) == ParseFrom(special, s.(buf := s.buf + w), rest)
    decreases |w|
  {
    hide ParseFrom, Flush, Trim;
    if w == "" {
      assert w + rest == rest && s.buf + w == s.buf;
    } else {
      ScanStep(special, s, w + rest);
      assert (w + rest)[1..] == w[1..] + rest;
      ScanPlain(special, s.(buf := s.buf + [w[0]]), w[1..], rest);
      assert s.buf + [w[0]] + w[1..] == s.buf + w;
    }
  }

  lemma {:induction false} ScanBlank(special: Special, s: Scan, w: string, rest: string)
    requires s.at == OUTSIDE && Blank(w) && s.buf == "" && s.pending.Some?
    ensures ParseFrom(special, s, w + rest) == ParseFrom(special, s, rest)
    decreases |w|
  {
    hide ParseFrom, Flush;
    if w == "" {
      assert w + rest == rest;
    } else {
      ScanStep(special, s, w + rest);
      assert (w + rest)[1..] == w[1..] + rest;
      ScanBlank(special, s, w[1..], rest);
    }
  }

  /** A combinator with its white space ends the token before it. */
  lemma ScanGap(special: Special, s: Scan, c: Combinator, g: Gap, rest: string)
    requires s.at == OUTSIDE && Trim(s.buf) != "" && GapFits(c, g)
    requires Flush(special, s).Some? && Flush(special, s).value.steps != []
    ensures ParseFrom(special, s, PrintGap(c, g) + rest) ==
      ParseFrom(special, Flush(special, s).value.(pending := Some(c)), rest)
  {
    hide ParseFrom, Flush, Trim;
    var s1 := Flush(special, s).value;
    FlushEmptiesBuffer(special, s);
    var text := PrintGap(c, g) + rest;
    ScanStep(special, s, text);
    if c == Descendant {
      var w := g.before + g.after;
      assert text == w + rest;
      assert text[1..] == w[1..] + rest;
      ScanBlank(special, s1.(pending := Some(Descendant)), w[1..], rest);
    } else if g.before == "" {
      assert text[1..] == g.after + rest;
      ScanBlank(special, s1.(pending := Some(c)), g.after, rest);
    } else {
      var tail := PrintCombinator(c) + (g.after + rest);
      assert text[1..] == g.before[1..] + tail;
      ScanBlank(special, s1.(pending := Some(Descendant)), g.before[1..], tail);
      ScanStep(special, s1.(pending := Some(Descendant)), tail);
      assert tail[1..] == g.after + rest;
      TrimOfNothing();
      ScanBlank(special, s1.(pending := Some(c)), g.after, rest);
    }
  }

  lemma TrimOfNothing()
    ensures Trim("") == ""
  {
  }

  lemma FlushEmptiesBuffer(special: Special, s: Scan)
    requires Flush(special, s).Some?
    ensures Flush(special, s).value.buf == "" && Flush(special, s).value.at == s.at
  {
  }

  /** The scanner state in which step `k` of `chain` is to be read. */
  function Reading(chain: Chain, k: nat): Scan
    requires k < |chain|
  {
    Scan(chain[..k], "", OUTSIDE, if k == 0 then None else Some(chain[k].combinator))
  }

  lemma TokenFlushes(special: Special, chain: Chain, k: nat)
    requires k < |chain| && Plain(chain[k].token) && chain[0].combinator == Descendant
    ensures var s := Reading(chain, k).(buf := PrintToken(chain[k].token));
      Trim(s.buf) != "" && Flush(special, s) == Some(Scan(chain[..k + 1], "", OUTSIDE, None))
  {
    hide ParseToken, PrintToken, Trim;
    var text := PrintToken(chain[k].token);
    PrintedTokenIsPlain(chain[k].token);
    TrimIsId(text);
    ParseUndoesPrintToken(special, chain[k].token);
    var s := Reading(chain, k).(buf := text);
    assert k == 0 ==> s.pending == None && chain[..k] == [];
    assert k == 0 ==> chain[..k + 1] == [chain[k]];
    assert chain[..k + 1] == chain[..k] + [chain[k]];
  }

  lemma {:induction false} ParseUndoesPrintFrom(special: Special, chain: Chain, gaps: seq<Gap>, k: nat)
    requires Printable(chain, gaps) && k < |chain| && chain[0].combinator == Descendant
    ensures ParseFrom(special, Reading(chain, k), PrintFrom(chain[k..], gaps[k..])) == Some(chain)
    decreases |chain| - k
  {
    hide ParseFrom, Flush, Trim, PrintToken, PrintGap, GapFits;
    var text := PrintToken(chain[k].token);
    var s := Reading(chain, k).(buf := text);
    PrintedTokenIsPlain(chain[k].token);
    TokenFlushes(special, chain, k);
    assert "" + text == text;
    if k == |chain| - 1 {
      ScanPlain(special, Reading(chain, k), text, "");
      assert text + "" == text;
      ParseAtEnd(special, s);
      assert chain[..k + 1] == chain;
    } else {
      var rest := PrintFrom(chain[k + 1..], gaps[k + 1..]);
      var gap := PrintGap(chain[k + 1].combinator, gaps[k + 1]);
      assert chain[k..][1..] == chain[k + 1..] && gaps[k..][1..] == gaps[k + 1..];
      assert PrintFrom(chain[k..], gaps[k..]) == text + (gap + rest);
      ScanPlain(special, Reading(chain, k), text, gap + rest);
      ScanGap(special, s, chain[k + 1].combinator, gaps[k + 1], rest);
      ParseUndoesPrintFrom(special, chain, gaps, k + 1);
    }
  }

  lemma ParseAtEnd(special: Special, s: Scan)
    requires s.at == OUTSIDE && Trim(s.buf) != "" && Flush(special, s).Some?
    ensures ParseFrom(special, s, "") == Some(Flush(special, s).value.steps)
  {
    hide Flush, Trim;
  }

  lemma {:induction false} PrintedChainIsTrimmed(chain: Chain, gaps: seq<Gap>)
    requires Printable(chain, gaps) && chain != []
    ensures PrintFrom(chain, gaps) != "" && Trimmed(PrintFrom(chain, gaps))
    decreases |chain|
  {
    hide PrintToken, PrintGap, GapFits;
    PrintedTokenIsPlain(chain[0].token);
    if |chain| > 1 {
      PrintedChainIsTrimmed(chain[1..], gaps[1..]);
      var tail, all := PrintFrom(chain[1..], gaps[1..]), PrintFrom(chain, gaps);
      assert all[|all| - 1] == tail[|tail| - 1];
      assert all[0] == PrintToken(chain[0].token)[0];
    }
  }

  /** `parseSelectorGroup` undoes printing a chain, whatever white space is put around
      its combinators. */
  lemma ParseUndoesPrint(special: Special, chain: Chain, gaps: seq<Gap>)
    requires Printable(chain, gaps) && chain != [] && chain[0].combinator == Descendant
    ensures ParseGroup(special, PrintFrom(chain, gaps)) == Some(chain)
  {
    hide ParseFrom, Trim, PrintFrom;
    PrintedChainIsTrimmed(chain, gaps);
    TrimIsId(PrintFrom(chain, gaps));
    ParseUndoesPrintFrom(special, chain, gaps, 0);
    assert chain[0..] == chain && gaps[0..] == gaps;
  }
}
