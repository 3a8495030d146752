/** Escaping text for markup and decoding it again. */
module Entities {
  import opened Text

  /** `replace(/c/g, by)` */
  function ReplaceChar(s: string, c: char, with: string): string {
    if s == "" then "" else (if s[0] == c then with else [s[0]]) + ReplaceChar(s[1..], c, with)
  }

  /** `replace(/from/g, to)` for a fixed text. */
  function ReplaceAll(s: string, from: string, to: string): string
    requires from != ""
    decreases |s|
  {
    if s == "" then ""
    else if from <= s then to + ReplaceAll(s[|from|..], from, to)
    else [s[0]] + ReplaceAll(s[1..], from, to)
  }

  /** `escapeHTML` */
  function EscapeHTML(text: string): string {
    ReplaceChar(ReplaceChar(ReplaceChar(text, '&', "&amp;"), '<', "&lt;"), '>', "&gt;")
  }

  /** `escapeAttr` */
  function EscapeAttr(text: string): string {
    ReplaceChar(ReplaceChar(text, '&', "&amp;"), '"', "&quot;")
  }

  // ---------------------------------------------------------------- numeric references

  function DigitRun(s: string): (n: nat)
    ensures n <= |s| && forall i :: 0 <= i < n ==> '0' <= s[i] <= '9'
  {
    if s != "" && '0' <= s[0] <= '9' then 1 + DigitRun(s[1..]) else 0
  }

  /** The length of a numeric reference at the head of `s`, 0 without one. */
  function NumericLength(s: string): (n: nat)
    ensures n == 0 || 4 <= n <= |s|
  {
    if "&#" <= s then
      var d := DigitRun(s[2..]);
      if d > 0 && 2 + d < |s| && s[2 + d] == ';' then 3 + d else 0
    else 0
  }

  function DecimalValue(s: string): nat
    requires forall i :: 0 <= i < |s| ==> '0' <= s[i] <= '9'
  {
    if s == "" then 0 else 10 * DecimalValue(s[..|s| - 1]) + (s[|s| - 1] - '0') as nat
  }

  /** `String.fromCharCode`; a code that is no character of its own becomes U+FFFD. */
  function FromCharCode(n: nat): (r: string)
    ensures |r| == 1
  {
    var c := n % 65536;
    if c < 0xD800 || c >= 0xE000 then [c as char] else [0xFFFD as char]
  }

  function ReplaceNumeric(s: string): string
    decreases |s|
  {
    var n := NumericLength(s);
    if s == "" then ""
    else if n > 0 then FromCharCode(DecimalValue(s[2..n - 1])) + ReplaceNumeric(s[n..])
    else [s[0]] + ReplaceNumeric(s[1..])
  }

  /** The decoding applied to a text token, pass by pass. */
  function Decode(token: string): string {
    var a := ReplaceAll(token, "&lt;", "<");
    var b := ReplaceAll(a, "&gt;", ">");
    var c := ReplaceAll(b, "&amp;", "&");
    ReplaceNumeric(ReplaceAll(c, "&quot;", "\""))
  }

  // ---------------------------------------------------------------- decoding what was escaped

  /** Escaping character by character. */
  function EscapeEach(t: string, lt: string, gt: string): string {
    if t == "" then ""
    else (if t[0] == '&' then "&amp;" else if t[0] == '<' then lt else if t[0] == '>' then gt else [t[0]]) + EscapeEach(t[1..], lt, gt)
  }

  lemma {:induction false} ReplaceCharConcat(a: string, b: string, c: char, with: string)
    ensures ReplaceChar(a + b, c, with) == ReplaceChar(a, c, with) + ReplaceChar(b, c, with)
    decreases |a|
  {
    if a == "" {
      assert a + b == b;
    } else {
      ReplaceCharConcat(a[1..], b, c, with);
      assert (a + b)[1..] == a[1..] + b;
    }
  }

  lemma {:induction false} ReplaceCharAbsent(s: string, c: char, with: string)
    ensures c !in s ==> ReplaceChar(s, c, with) == s
    decreases |s|
  {
    if s != "" { ReplaceCharAbsent(s[1..], c, with); }
  }

  lemma EscapeConcat(a: string, b: string)
    ensures EscapeHTML(a + b) == EscapeHTML(a) + EscapeHTML(b)
  {
    hide ReplaceChar;
    ReplaceCharConcat(a, b, '&', "&amp;");
    var a1, b1 := ReplaceChar(a, '&', "&amp;"), ReplaceChar(b, '&', "&amp;");
    ReplaceCharConcat(a1, b1, '<', "&lt;");
    ReplaceCharConcat(ReplaceChar(a1, '<', "&lt;"), ReplaceChar(b1, '<', "&lt;"), '>', "&gt;");
  }

  lemma EscapeOne(c: char)
    ensures EscapeHTML([c]) == if c == '&' then "&amp;" else if c == '<' then "&lt;" else if c == '>' then "&gt;" else [c]
  {
    hide ReplaceChar;
    OneReplaced(c, '&', "&amp;");
    ReplaceCharAbsent("&amp;", '<', "&lt;");
    ReplaceCharAbsent("&amp;", '>', "&gt;");
    OneReplaced(c, '<', "&lt;");
    ReplaceCharAbsent("&lt;", '>', "&gt;");
    OneReplaced(c, '>', "&gt;");
  }

  lemma OneReplaced(c: char, d: char, with: string)
    ensures ReplaceChar([c], d, with) == if c == d then with else [c]
  {
    assert [c][1..] == "";
  }

  lemma {:induction false} EscapeIsEach(t: string)
    ensures EscapeHTML(t) == EscapeEach(t, "&lt;", "&gt;")
    decreases |t|
  {
    hide ReplaceChar, EscapeHTML;
    if t == "" {
      EscapeNothing();
    } else {
      assert t == [t[0]] + t[1..];
      EscapeConcat([t[0]], t[1..]);
      EscapeOne(t[0]);
      EscapeIsEach(t[1..]);
    }
  }

  lemma EscapeNothing()
    ensures EscapeHTML("") == ""
  {
  }

  /** Escaped text holds no `<`. */
  lemma {:induction false} EscapedHasNoLess(t: string)
    ensures '<' !in EscapeEach(t, "&lt;", "&gt;")
    ensures t != "" ==> EscapeEach(t, "&lt;", "&gt;") != ""
    decreases |t|
  {
    if t != "" { EscapedHasNoLess(t[1..]); }
  }

  /** A text that does not start with the pattern and holds `&` only in front. */
  lemma {:induction false} ReplaceSkips(a: string, b: string, from: string, to: string)
    requires from != "" && from[0] == '&' && '&' !in a
    ensures ReplaceAll(a + b, from, to) == a + ReplaceAll(b, from, to)
    decreases |a|
  {
    if a == "" {
      assert a + b == b;
    } else {
      ReplaceSkips(a[1..], b, from, to);
      assert (a + b)[1..] == a[1..] + b;
      assert (a + b)[0] != '&';
    }
  }

  lemma ReplaceOther(name: string, b: string, from: string, to: string)
    requires |from| >= 2 && from[0] == '&' && |name| >= 2 && name[0] == '&' && name[1] != from[1] && '&' !in name[1..]
    ensures ReplaceAll(name + b, from, to) == name + ReplaceAll(b, from, to)
  {
    var s := name + b;
    assert s[1] != from[1];
    assert s[1..] == name[1..] + b;
    ReplaceSkips(name[1..], b, from, to);
    assert [s[0]] + (name[1..] + ReplaceAll(b, from, to)) == name + ReplaceAll(b, from, to);
  }

  lemma ReplaceHit(b: string, from: string, to: string)
    requires from != ""
    ensures ReplaceAll(from + b, from, to) == to + ReplaceAll(b, from, to)
  {
    assert (from + b)[|from|..] == b;
  }

  lemma ReplacePlain(c: char, b: string, from: string, to: string)
    requires from != "" && c != from[0]
    ensures ReplaceAll([c] + b, from, to) == [c] + ReplaceAll(b, from, to)
  {
    assert ([c] + b)[0] == c && ([c] + b)[1..] == b;
  }

  lemma {:induction false} FirstPass(t: string)
    ensures ReplaceAll(EscapeEach(t, "&lt;", "&gt;"), "&lt;", "<") == EscapeEach(t, "<", "&gt;")
    decreases |t|
  {
    hide ReplaceAll;
    if t == "" {
      ReplaceNothing("&lt;", "<");
    } else {
      FirstPass(t[1..]);
      var b := EscapeEach(t[1..], "&lt;", "&gt;");
      if t[0] == '&' { ReplaceOther("&amp;", b, "&lt;", "<"); }
      else if t[0] == '<' { ReplaceHit(b, "&lt;", "<"); }
      else if t[0] == '>' { ReplaceOther("&gt;", b, "&lt;", "<"); }
      else { ReplacePlain(t[0], b, "&lt;", "<"); }
    }
  }

  lemma ReplaceNothing(from: string, to: string)
    requires from != ""
    ensures ReplaceAll("", from, to) == ""
  {
  }

  lemma {:induction false} SecondPass(t: string)
    ensures ReplaceAll(EscapeEach(t, "<", "&gt;"), "&gt;", ">") == EscapeEach(t, "<", ">")
    decreases |t|
  {
    hide ReplaceAll;
    if t == "" {
      ReplaceNothing("&gt;", ">");
    } else {
      SecondPass(t[1..]);
      var b := EscapeEach(t[1..], "<", "&gt;");
      if t[0] == '&' { ReplaceOther("&amp;", b, "&gt;", ">"); }
      else if t[0] == '>' { ReplaceHit(b, "&gt;", ">"); }
      else { ReplacePlain(t[0], b, "&gt;", ">"); }
    }
  }

  lemma {:induction false} ThirdPass(t: string)
    ensures ReplaceAll(EscapeEach(t, "<", ">"), "&amp;", "&") == t
    decreases |t|
  {
    hide ReplaceAll;
    if t == "" {
      ReplaceNothing("&amp;", "&");
    } else {
      ThirdPass(t[1..]);
      var b := EscapeEach(t[1..], "<", ">");
      assert t == [t[0]] + t[1..];
      if t[0] == '&' { ReplaceHit(b, "&amp;", "&"); } else { ReplacePlain(t[0], b, "&amp;", "&"); }
    }
  }

  /** Decoding escaped text still applies the two passes for which escaping does
      nothing. */
  lemma DecodeEscaped(t: string)
    ensures Decode(EscapeHTML(t)) == ReplaceNumeric(ReplaceAll(t, "&quot;", "\""))
  {
    hide ReplaceAll, EscapeHTML, EscapeEach, ReplaceNumeric;
    EscapeIsEach(t);
    FirstPass(t);
    SecondPass(t);
    ThirdPass(t);
  }

  // ---------------------------------------------------------------- exactly when decoding undoes escaping

  predicate Occurs(s: string, pattern: string) {
    exists i :: 0 <= i <= |s| && pattern <= s[i..]
  }

  predicate OccursNumeric(s: string) {
    exists i :: 0 <= i <= |s| && NumericLength(s[i..]) > 0
  }

  lemma OccursInTail(s: string, pattern: string)
    requires s != ""
    ensures Occurs(s, pattern) <==> pattern <= s || Occurs(s[1..], pattern)
  {
    if Occurs(s, pattern) && !(pattern <= s) {
      var i :| 0 <= i <= |s| && pattern <= s[i..];
      assert s[0..] == s;
      assert s[1..][i - 1..] == s[i..];
    }
    if pattern <= s { assert s[0..] == s; }
    if Occurs(s[1..], pattern) {
      var i :| 0 <= i <= |s[1..]| && pattern <= s[1..][i..];
      assert s[1..][i..] == s[i + 1..];
    }
  }

  lemma {:induction false} ReplaceIsIdentity(s: string, from: string, to: string)
    requires |from| > |to|
    ensures |ReplaceAll(s, from, to)| <= |s|
    ensures ReplaceAll(s, from, to) == s <==> !Occurs(s, from)
    ensures Occurs(s, from) ==> |ReplaceAll(s, from, to)| < |s|
    decreases |s|
  {
    hide Occurs;
    if s == "" {
      NothingOccurs(from);
    } else {
      OccursInTail(s, from);
      if from <= s { ReplaceIsIdentity(s[|from|..], from, to); } else { ReplaceIsIdentity(s[1..], from, to); }
    }
  }

  lemma NothingOccurs(pattern: string)
    requires pattern != ""
    ensures !Occurs("", pattern)
  {
  }

  lemma NumericInTail(s: string)
    requires s != ""
    ensures OccursNumeric(s) <==> NumericLength(s) > 0 || OccursNumeric(s[1..])
  {
    hide NumericLength;
    if OccursNumeric(s) && NumericLength(s) == 0 {
      var i :| 0 <= i <= |s| && NumericLength(s[i..]) > 0;
      assert s[0..] == s;
      assert s[1..][i - 1..] == s[i..];
    }
    if NumericLength(s) > 0 { assert s[0..] == s; }
    if OccursNumeric(s[1..]) {
      var i :| 0 <= i <= |s[1..]| && NumericLength(s[1..][i..]) > 0;
      assert s[1..][i..] == s[i + 1..];
    }
  }

  lemma {:induction false} NumericIsIdentity(s: string)
    ensures |ReplaceNumeric(s)| <= |s|
    ensures ReplaceNumeric(s) == s <==> !OccursNumeric(s)
    ensures OccursNumeric(s) ==> |ReplaceNumeric(s)| < |s|
    decreases |s|
  {
    hide NumericLength, OccursNumeric, DecimalValue, FromCharCode;
    if s == "" {
      NoNumeric();
    } else {
      NumericInTail(s);
      var n := NumericLength(s);
      if n > 0 { NumericIsIdentity(s[n..]); } else { NumericIsIdentity(s[1..]); }
    }
  }

  lemma NoNumeric()
    ensures !OccursNumeric("")
  {
  }

  /** Text survives escaping and decoding exactly when it holds no `&quot;` and no
      numeric reference. */
  predicate PlainText(t: string) {
    !Occurs(t, "&quot;") && !OccursNumeric(t)
  }

  lemma DecodeUndoesEscapeIff(t: string)
    ensures Decode(EscapeHTML(t)) == t <==> PlainText(t)
  {
    hide Decode, EscapeHTML, ReplaceAll, ReplaceNumeric, Occurs, OccursNumeric;
    DecodeEscaped(t);
    ReplaceIsIdentity(t, "&quot;", "\"");
    NumericIsIdentity(ReplaceAll(t, "&quot;", "\""));
    NumericIsIdentity(t);
  }

  /** `&quot;` is the shortest kind of text that does not survive. */
  lemma QuotIsLost()
    ensures Decode(EscapeHTML("&quot;")) != "&quot;"
  {
    hide Decode, EscapeHTML;
    assert Occurs("&quot;", "&quot;") by { assert "&quot;"[0..] == "&quot;"; }
    DecodeUndoesEscapeIff("&quot;");
  }

  /** Attribute values are not decoded when parsed, so they must not need escaping. */
  lemma EscapeAttrIsIdentityIff(v: string)
    ensures EscapeAttr(v) == v <==> '&' !in v && '"' !in v
  {
    ReplaceCharAbsent(v, '&', "&amp;");
    ReplaceCharGrows(v, '&', "&amp;");
    ReplaceCharAbsent(ReplaceChar(v, '&', "&amp;"), '"', "&quot;");
    ReplaceCharGrows(ReplaceChar(v, '&', "&amp;"), '"', "&quot;");
  }

  lemma {:induction false} ReplaceCharGrows(s: string, c: char, with: string)
    requires |with| > 1
    ensures |ReplaceChar(s, c, with)| >= |s| && (c in s ==> |ReplaceChar(s, c, with)| > |s|)
    decreases |s|
  {
    if s != "" {
      ReplaceCharGrows(s[1..], c, with);
      assert s == [s[0]] + s[1..];
    }
  }
}
