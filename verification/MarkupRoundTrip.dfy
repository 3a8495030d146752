/** Parsing undoes serialising, up to merging adjacent and dropping empty texts. */
module MarkupRoundTrip {
  import opened Options
  import opened Text
  import opened Attributes
  import opened Entities
  import opened Markup

  // ---------------------------------------------------------------- merging texts

  function Normalize(m: Markup): Markup
    decreases m
  {
    if m.ElementNode? then ElementNode(m.tag, m.attrs, NormalizeAll(m.kids)) else m
  }

  /** Puts a node in front of a list without adjacent texts. */
  function Join(m: Markup, rest: seq<Markup>): seq<Markup> {
    if m.TextNode? && m.text == "" then rest
    else if m.TextNode? && rest != [] && rest[0].TextNode? then [TextNode(m.text + rest[0].text)] + rest[1..]
    else [m] + rest
  }

  function NormalizeAll(ms: seq<Markup>): seq<Markup>
    decreases ms
  {
    if ms == [] then [] else Join(Normalize(ms[0]), NormalizeAll(ms[1..]))
  }

  lemma {:induction false} NormalizeKeepsText(m: Markup)
    ensures Serialize(Normalize(m)) == Serialize(m)
    decreases m
  {
    if m.ElementNode? { NormalizeAllKeepsText(m.kids); }
  }

  lemma SerializeCons(m: Markup, rest: seq<Markup>)
    ensures SerializeAll([m] + rest) == Serialize(m) + SerializeAll(rest)
  {
    hide Serialize;
    assert ([m] + rest)[1..] == rest;
  }

  lemma JoinKeepsText(m: Markup, rest: seq<Markup>)
    ensures SerializeAll(Join(m, rest)) == Serialize(m) + SerializeAll(rest)
  {
    hide SerializeAll, EscapeHTML;
    SerializeCons(m, rest);
    if m.TextNode? && m.text == "" {
      EscapeNothing();
    } else if m.TextNode? && rest != [] && rest[0].TextNode? {
      assert rest == [rest[0]] + rest[1..];
      SerializeCons(rest[0], rest[1..]);
      SerializeCons(TextNode(m.text + rest[0].text), rest[1..]);
      EscapeConcat(m.text, rest[0].text);
      assert EscapeHTML(m.text) + EscapeHTML(rest[0].text) + SerializeAll(rest[1..])
          == EscapeHTML(m.text) + (EscapeHTML(rest[0].text) + SerializeAll(rest[1..]));
    }
  }

  /** Merging does not show in the markup. */
  lemma {:induction false} NormalizeAllKeepsText(ms: seq<Markup>)
    ensures SerializeAll(NormalizeAll(ms)) == SerializeAll(ms)
    decreases ms
  {
    hide Serialize, Normalize, Join;
    if ms != [] {
      NormalizeKeepsText(ms[0]);
      NormalizeAllKeepsText(ms[1..]);
      JoinKeepsText(Normalize(ms[0]), NormalizeAll(ms[1..]));
    }
  }

  // ---------------------------------------------------------------- the domain

  /** No two adjacent texts and no empty one, at any depth. */
  predicate Normal(m: Markup)
    decreases m
  {
    (m.TextNode? ==> m.text != "") && (m.ElementNode? ==> NormalAll(m.kids))
  }

  predicate NormalAll(ms: seq<Markup>)
    decreases ms
  {
    ms == [] || (Normal(ms[0]) && NormalAll(ms[1..]) && !(ms[0].TextNode? && |ms| > 1 && ms[1].TextNode?))
  }

  lemma JoinIsNormal(m: Markup, rest: seq<Markup>)
    requires NormalAll(rest) && (m.ElementNode? ==> NormalAll(m.kids))
    ensures NormalAll(Join(m, rest))
  {
    var r := Join(m, rest);
    if !(m.TextNode? && m.text == "") { assert r[1..] == if m.TextNode? && rest != [] && rest[0].TextNode? then rest[1..] else rest; }
  }

  lemma {:induction false} NormalizeIsNormal(ms: seq<Markup>)
    ensures NormalAll(NormalizeAll(ms))
    decreases ms
  {
    hide Join, NormalAll;
    if ms == [] {
      NothingIsNormal();
    } else {
      NormalizeIsNormal(ms[1..]);
      if ms[0].ElementNode? { NormalizeIsNormal(ms[0].kids); }
      JoinIsNormal(Normalize(ms[0]), NormalizeAll(ms[1..]));
    }
  }

  lemma NothingIsNormal()
    ensures NormalAll([])
  {
  }

  /** A lower-case tag that starts with a letter. */
  predicate GoodTag(tag: string) {
    && tag != "" && IsLetter(tag[0]) && Lower(tag) == tag && ColonFree(tag)
    && forall i :: 0 <= i < |tag| ==> TagChar(tag[i])
  }

  predicate GoodName(name: string) {
    && name != "" && IsLetter(name[0]) && NormalizeAttrName(name) == name
    && forall i :: 0 <= i < |name| ==> NameChar(name[i])
  }

  predicate GoodNames(attrs: seq<Attr>) {
    && (forall i :: 0 <= i < |attrs| ==> GoodName(attrs[i].name))
    && (forall i, j :: 0 <= i < j < |attrs| ==> attrs[i].name != attrs[j].name)
  }

  /** Nothing in the values ends a tag. */
  predicate Unclosed(attrs: seq<Attr>) {
    forall i :: 0 <= i < |attrs| ==> '>' !in attrs[i].value
  }

  /** Markup whose structure survives: good tags and attribute names, no `>` in values,
      childless void elements, no end of a comment inside a comment. */
  predicate Shaped(m: Markup)
    decreases m
  {
    match m
    case TextNode(_) => true
    case CommentNode(text) => !Occurs(text, "-->")
    case ElementNode(tag, attrs, kids) =>
      GoodTag(tag) && GoodNames(attrs) && Unclosed(attrs) && ShapedAll(kids) && (IsVoid(tag) ==> kids == [])
  }

  predicate ShapedAll(ms: seq<Markup>)
    decreases ms
  {
    ms == [] || (Shaped(ms[0]) && ShapedAll(ms[1..]))
  }

  /** Texts and values whose characters survive. */
  predicate Faithful(m: Markup)
    decreases m
  {
    match m
    case TextNode(text) => PlainText(text)
    case CommentNode(_) => true
    case ElementNode(_, attrs, kids) => PlainValues(attrs) && FaithfulAll(kids)
  }

  predicate FaithfulAll(ms: seq<Markup>)
    decreases ms
  {
    ms == [] || (Faithful(ms[0]) && FaithfulAll(ms[1..]))
  }

  predicate PlainValues(attrs: seq<Attr>) {
    forall i :: 0 <= i < |attrs| ==> '&' !in attrs[i].value && '"' !in attrs[i].value
  }

  // ---------------------------------------------------------------- what is read back

  /** Values come back escaped, because they are not decoded. */
  function ReadAttrs(attrs: seq<Attr>): (r: seq<Attr>)
    ensures |r| == |attrs| && forall i :: 0 <= i < |r| ==> r[i] == Attr(attrs[i].name, EscapeAttr(attrs[i].value))
  {
    seq(|attrs|, i requires 0 <= i < |attrs| => Attr(attrs[i].name, EscapeAttr(attrs[i].value)))
  }

  function Read(m: Markup): Markup
    decreases m
  {
    match m
    case TextNode(text) => TextNode(Decode(EscapeHTML(text)))
    case CommentNode(text) => m
    case ElementNode(tag, attrs, kids) => ElementNode(tag, ReadAttrs(attrs), ReadAll(kids))
  }

  function ReadAll(ms: seq<Markup>): (r: seq<Markup>)
    ensures |r| == |ms|
    decreases ms
  {
    if ms == [] then [] else [Read(ms[0])] + ReadAll(ms[1..])
  }

  lemma ReadAttrsIsIdentityIff(attrs: seq<Attr>)
    ensures ReadAttrs(attrs) == attrs <==> PlainValues(attrs)
  {
    hide EscapeAttr;
    forall i | 0 <= i < |attrs|
      ensures ReadAttrs(attrs)[i] == attrs[i] <==> '&' !in attrs[i].value && '"' !in attrs[i].value
    {
      EscapeAttrIsIdentityIff(attrs[i].value);
    }
    if PlainValues(attrs) { assert ReadAttrs(attrs) == attrs; }
  }

  /** What is read back is what was written exactly for faithful markup. */
  lemma {:induction false} ReadIsIdentityIff(m: Markup)
    ensures Read(m) == m <==> Faithful(m)
    decreases m
  {
    hide PlainText, PlainValues, ReadAttrs, Decode, EscapeHTML;
    match m
    case TextNode(text) => DecodeUndoesEscapeIff(text);
    case CommentNode(_) =>
    case ElementNode(_, attrs, kids) =>
      ReadAttrsIsIdentityIff(attrs);
      ReadAllIsIdentityIff(kids);
  }

  lemma {:induction false} ReadAllIsIdentityIff(ms: seq<Markup>)
    ensures ReadAll(ms) == ms <==> FaithfulAll(ms)
    decreases ms
  {
    hide Read, Faithful;
    if ms != [] {
      ReadIsIdentityIff(ms[0]);
      ReadAllIsIdentityIff(ms[1..]);
      assert ms == [ms[0]] + ms[1..];
      if ReadAll(ms) == ms { assert ReadAll(ms)[0] == Read(ms[0]) && ReadAll(ms)[1..] == ReadAll(ms[1..]); }
    }
  }

  // ---------------------------------------------------------------- one token at a time

  function AddKids(stack: seq<Frame>, ms: seq<Markup>): (r: seq<Frame>)
    requires stack != []
    ensures |r| == |stack|
  {
    var top := stack[|stack| - 1];
    stack[|stack| - 1 := top.(kids := top.kids + ms)]
  }

  lemma AddKidsStep(stack: seq<Frame>, m: Markup, rest: seq<Markup>)
    requires stack != []
    ensures AddKids(AddKid(stack, m), rest) == AddKids(stack, [m] + rest)
    ensures AddKids(stack, []) == stack
  {
    var top := stack[|stack| - 1];
    assert top.kids + [m] + rest == top.kids + ([m] + rest);
    assert top.(kids := top.kids + []) == top;
  }

  /** A token at the head of the input is handled and the rest parsed. */
  lemma OneToken(stack: seq<Frame>, token: string, r: string)
    requires stack != [] && token != "" && TokenLength(token + r) == |token|
    ensures "<!--" <= token ==> |token| >= 7
    ensures HandleToken(stack, token).Some? ==>
      ParseFrom(stack, token + r) == ParseFrom(HandleToken(stack, token).value, r)
  {
    hide TokenLength, HandleToken, ParseFrom;
    ParseStep(stack, token + r);
    assert (token + r)[..|token|] == token && (token + r)[|token|..] == r;
    TokenIsLong(token + r);
  }

  lemma TokenIsLong(s: string)
    requires s != ""
    ensures var n := TokenLength(s); n > 0 && "<!--" <= s[..n] ==> n >= 7
  {
    hide CommentEnd, FirstOf, TextRun;
  }

  // ---------------------------------------------------------------- comments and texts

  lemma CommentEndIs(c: string, r: string)
    requires !Occurs(c, "-->")
    ensures CommentEnd(c + "-->" + r) == |c|
  {
    hide CommentEnd;
    var s := c + "-->" + r;
    var i := CommentEnd(s);
    assert s[|c|..] == "-->" + r && s == c + ("-->" + r);
    assert "-->" <= s[|c|..];
    assert i <= |c|;
    assert s[i] == '-' && s[i + 1] == '-' && s[i + 2] == '>' by { assert s[i..][0] == '-' && s[i..][1] == '-' && s[i..][2] == '>'; }
    assert i + 2 != |c| && i + 1 != |c|;
    if i + 3 <= |c| { OccursInFront(c, "-->" + r, i); }
  }

  lemma OccursInFront(c: string, r: string, i: nat)
    requires i + 3 <= |c| && "-->" <= (c + r)[i..]
    ensures Occurs(c, "-->")
  {
    assert c[i..][..3] == (c + r)[i..][..3];
    assert "-->" <= c[i..];
  }

  lemma ParseComment(stack: seq<Frame>, c: string, r: string)
    requires stack != [] && !Occurs(c, "-->")
    ensures ParseFrom(stack, Serialize(CommentNode(c)) + r) == ParseFrom(AddKid(stack, CommentNode(c)), r)
  {
    hide ParseFrom, CommentEnd, FirstOf, TextRun, AddKid;
    var token := "<!--" + c + "-->";
    assert (token + r)[4..] == c + "-->" + r;
    CommentEndIs(c, r);
    OneToken(stack, token, r);
    assert token[4..|token| - 3] == c;
  }

  lemma {:induction false} TextRunIs(t: string, r: string)
    requires '<' !in t && (r == "" || r[0] == '<')
    ensures TextRun(t + r) == |t|
    decreases |t|
  {
    if t == "" {
      assert t + r == r;
    } else {
      TextRunIs(t[1..], r);
      assert (t + r)[1..] == t[1..] + r;
    }
  }

  lemma ParseText(stack: seq<Frame>, t: string, r: string)
    requires stack != [] && t != "" && (r == "" || r[0] == '<')
    ensures ParseFrom(stack, Serialize(TextNode(t)) + r) == ParseFrom(AddKid(stack, Read(TextNode(t))), r)
  {
    hide ParseFrom, TextRun, AddKid, Decode, EscapeHTML, PlainText, EscapeEach;
    var token := EscapeHTML(t);
    EscapeIsEach(t);
    EscapedHasNoLess(t);
    assert token[0] in token;
    TextRunIs(token, r);
    OneToken(stack, token, r);
  }

  // ---------------------------------------------------------------- attributes

  lemma EscapedValue(v: string)
    ensures '"' !in EscapeAttr(v) && ('>' in EscapeAttr(v) ==> '>' in v)
  {
    ReplacedChars(v, '&', "&amp;", '>');
    ReplacedChars(ReplaceChar(v, '&', "&amp;"), '"', "&quot;", '>');
    ReplacedChars(ReplaceChar(v, '&', "&amp;"), '"', "&quot;", '"');
  }

  lemma {:induction false} ReplacedChars(s: string, c: char, with: string, x: char)
    requires x !in with
    ensures x in ReplaceChar(s, c, with) ==> x in s && x != c
    decreases |s|
  {
    if s != "" { ReplacedChars(s[1..], c, with, x); }
  }

  lemma SerializedAttrs(attrs: seq<Attr>)
    requires GoodNames(attrs) && Unclosed(attrs)
    ensures var s := SerializeAttrs(attrs);
      && '>' !in s && (s != "" ==> |s| > 2 && s[0] == ' ' && IsLetter(s[1]) && s[|s| - 1] == '"')
      && (s == "" <==> attrs == [])
    decreases |attrs|
  {
    hide EscapeAttr, GoodName;
    if attrs != [] {
      SerializedAttrs(attrs[1..]);
      EscapedValue(attrs[0].value);
      AttrText(attrs[0].name, EscapeAttr(attrs[0].value));
    }
  }

  lemma AttrText(name: string, value: string)
    requires GoodName(name) && '>' !in value
    ensures '>' !in " " + name + "=\"" + value + "\"" && name != "" && IsLetter(name[0]) && (" " + name)[1] == name[0]
  {
    hide NormalizeAttrName;
    assert '>' !in name by {
      forall i | 0 <= i < |name| ensures name[i] != '>' { assert NameChar(name[i]); }
    }
    hide GoodName;
  }

  lemma {:induction false} NameRunIs(name: string, r: string)
    requires (forall i :: 0 <= i < |name| ==> NameChar(name[i])) && (r == "" || !NameChar(r[0]))
    ensures NameRun(name + r) == |name|
    decreases |name|
  {
    if name == "" {
      assert name + r == r;
    } else {
      NameRunIs(name[1..], r);
      assert (name + r)[1..] == name[1..] + r;
    }
  }

  lemma AssignedIs(v: string, r: string)
    requires '"' !in v
    ensures AssignedValue("=\"" + v + "\"" + r) == Assigned(v, |v| + 3)
  {
    hide FirstOf;
    var s := "=\"" + v + "\"" + r;
    assert SpaceRun(s) == 0;
    assert s[1..][0] == '"' && SpaceRun(s[1..]) == 0;
    assert s[2..] == v + "\"" + r;
    assert s[2..][..|v|] == v;
    FirstIs(s[2..], '"', |v|);
    assert s[2..2 + |v|] == v;
  }

  lemma {:induction false} PutNew(attrs: seq<Attr>, name: string, value: string)
    requires forall i :: 0 <= i < |attrs| ==> attrs[i].name != name
    ensures PutAttr(attrs, name, value) == attrs + [Attr(name, value)]
    decreases |attrs|
  {
    if attrs != [] {
      PutNew(attrs[1..], name, value);
      assert attrs == [attrs[0]] + attrs[1..];
    }
  }

  lemma SetNew(attrs: seq<Attr>, a: Attr)
    requires GoodName(a.name) && forall i :: 0 <= i < |attrs| ==> attrs[i].name != a.name
    ensures SetAttr(attrs, a.name, a.value) == attrs + [a]
  {
    hide NormalizeAttrName, PutAttr;
    assert IsLetter(a.name[0]) && !IsLetter(PROTO[0]);
    PutNew(attrs, a.name, a.value);
  }

  /** `parseAttributesIntoNode` reads serialised attributes. */
  lemma {:induction false} ParseReadsAttrs(before: seq<Attr>, attrs: seq<Attr>)
    requires GoodNames(before + attrs)
    ensures ParseAttrs(before, SerializeAttrs(attrs)) == before + ReadAttrs(attrs)
    ensures attrs != [] ==> ParseAttrs(before, SerializeAttrs(attrs)[1..]) == before + ReadAttrs(attrs)
    decreases |attrs|
  {
    hide ParseAttrs, AssignedValue, EscapeAttr, SetAttr, GoodName, NameRun, ReadAttrs;
    if attrs == [] {
      NoAttrs(before);
    } else {
      var a, tail := attrs[0], AttrTail(attrs);
      var read := Attr(a.name, EscapeAttr(a.value));
      NewNames(before, attrs);
      GoodNameFacts(a.name);
      AttrTailFacts(attrs);
      hide SerializeAttrs, AttrTail;
      SpaceIsSkipped(before, SerializeAttrs(attrs));
      NameRunIs(a.name, tail);
      AttrStep(before, a.name, tail, |read.value| + 3);
      SetNew(before, read);
      SameNames(before, attrs, read);
      ReadCons(attrs);
      assert before + ([read] + ReadAttrs(attrs[1..])) == (before + [read]) + ReadAttrs(attrs[1..]);
      ParseReadsAttrs(before + [read], attrs[1..]);
    }
  }

  lemma ReadCons(attrs: seq<Attr>)
    requires attrs != []
    ensures ReadAttrs(attrs) == [Attr(attrs[0].name, EscapeAttr(attrs[0].value))] + ReadAttrs(attrs[1..])
  {
    hide EscapeAttr;
  }

  lemma SameNames(before: seq<Attr>, attrs: seq<Attr>, read: Attr)
    requires GoodNames(before + attrs) && attrs != [] && read.name == attrs[0].name
    ensures GoodNames(before + [read] + attrs[1..])
  {
    hide GoodName;
    var all, now := before + attrs, before + [read] + attrs[1..];
    assert |now| == |all| && forall i :: 0 <= i < |all| ==> now[i].name == all[i].name;
  }

  /** What follows the first attribute name. */
  function AttrTail(attrs: seq<Attr>): string
    requires attrs != []
  {
    "=\"" + EscapeAttr(attrs[0].value) + "\"" + SerializeAttrs(attrs[1..])
  }

  lemma AttrTailFacts(attrs: seq<Attr>)
    requires attrs != []
    ensures SerializeAttrs(attrs) != "" && SerializeAttrs(attrs)[0] == ' '
    ensures SerializeAttrs(attrs)[1..] == attrs[0].name + AttrTail(attrs)
    ensures var tail, v := AttrTail(attrs), EscapeAttr(attrs[0].value);
      && tail != "" && tail[0] == '=' && |v| + 3 <= |tail| && tail[|v| + 3..] == SerializeAttrs(attrs[1..])
      && AssignedValue(tail) == Assigned(v, |v| + 3)
  {
    hide EscapeAttr, AssignedValue;
    var rest, v := SerializeAttrs(attrs[1..]), EscapeAttr(attrs[0].value);
    EscapedValue(attrs[0].value);
    AttrSplits(attrs[0].name, v, rest);
    AssignedIs(v, rest);
    assert SerializeAttrs(attrs) == " " + attrs[0].name + "=\"" + v + "\"" + rest;
    hide SerializeAttrs;
  }

  lemma AttrSplits(name: string, value: string, rest: string)
    ensures var s, tail := " " + name + "=\"" + value + "\"" + rest, "=\"" + value + "\"" + rest;
      && s != "" && s[0] == ' ' && s[1..] == name + tail
      && tail != "" && tail[0] == '=' && |value| + 3 <= |tail| && tail[|value| + 3..] == rest
  {
    var s, tail := " " + name + "=\"" + value + "\"" + rest, "=\"" + value + "\"" + rest;
    assert s == " " + (name + tail);
    assert tail == ("=\"" + value + "\"") + rest;
  }

  lemma NewNames(before: seq<Attr>, attrs: seq<Attr>)
    requires GoodNames(before + attrs) && attrs != []
    ensures GoodName(attrs[0].name) && forall i :: 0 <= i < |before| ==> before[i].name != attrs[0].name
  {
    hide GoodName;
    var all := before + attrs;
    assert all[|before|] == attrs[0];
    forall i | 0 <= i < |before| ensures before[i].name != attrs[0].name {
      assert all[i] == before[i] && all[i].name != all[|before|].name;
    }
  }

  lemma NoAttrs(before: seq<Attr>)
    ensures SerializeAttrs([]) == "" && ParseAttrs(before, "") == before
  {
  }

  lemma GoodNameFacts(name: string)
    requires GoodName(name)
    ensures name != "" && forall i :: 0 <= i < |name| ==> NameChar(name[i])
  {
  }

  lemma SpaceIsSkipped(before: seq<Attr>, s: string)
    requires s != "" && s[0] == ' '
    ensures ParseAttrs(before, s) == ParseAttrs(before, s[1..])
  {
    hide AssignedValue, SetAttr;
  }

  lemma AttrStep(before: seq<Attr>, name: string, tail: string, n: nat)
    requires name != "" && NameRun(name + tail) == |name| && AssignedValue(tail).length == n
    ensures n <= |tail|
    ensures ParseAttrs(before, name + tail) == ParseAttrs(SetAttr(before, name, AssignedValue(tail).value), tail[n..])
  {
    hide AssignedValue, SetAttr, NameRun;
    assert (name + tail)[|name|..] == tail && (name + tail)[..|name|] == name;
    AssignedFits(tail);
    assert (name + tail)[|name| + n..] == tail[n..];
  }

  lemma AssignedFits(s: string)
    ensures AssignedValue(s).length <= |s|
  {
  }

  // ---------------------------------------------------------------- tags

  lemma {:induction false} TagRunIs(tag: string, r: string)
    requires (forall i :: 0 <= i < |tag| ==> TagChar(tag[i])) && (r == "" || !TagChar(r[0]))
    ensures TagRun(tag + r) == |tag|
    decreases |tag|
  {
    if tag == "" {
      assert tag + r == r;
    } else {
      TagRunIs(tag[1..], r);
      assert (tag + r)[1..] == tag[1..] + r;
    }
  }

  lemma GoodTagIsCreated(tag: string)
    requires GoodTag(tag)
    ensures CreatedTag(tag) == Some(tag)
  {
    hide Lower, ParseQualified, IsLetter;
    SpacelessIsTrimmed(tag);
    PlainAccepted(tag);
  }

  lemma SpacelessIsTrimmed(s: string)
    requires forall i :: 0 <= i < |s| ==> TagChar(s[i])
    ensures Trim(s) == s
  {
  }

  lemma NotSlashed(s: string)
    requires s == "" || (!IsSpace(s[|s| - 1]) && s[|s| - 1] != '/')
    ensures !EndsWithSlash(s) && WithoutSlash(s) == s
  {
  }

  /** A serialised start tag is one token. */
  lemma StartTagIsToken(tag: string, attrs: seq<Attr>, r: string)
    requires GoodTag(tag) && GoodNames(attrs) && Unclosed(attrs)
    ensures var token := "<" + tag + SerializeAttrs(attrs) + ">"; TokenLength(token + r) == |token|
  {
    hide FirstOf, SerializeAttrs, CommentEnd, GoodNames, Unclosed, Lower;
    var a := SerializeAttrs(attrs);
    var token := "<" + tag + a + ">";
    SerializedAttrs(attrs);
    var s := token + r;
    assert s[..|token| - 1] == "<" + tag + a;
    assert '>' !in tag by { forall i | 0 <= i < |tag| ensures tag[i] != '>' { assert TagChar(tag[i]); } }
    FirstIs(s, '>', |token| - 1);
    assert s[0] == '<' && s[1] == tag[0];
  }

  /** What a serialised start tag opens. */
  lemma StartTagOpens(stack: seq<Frame>, tag: string, attrs: seq<Attr>)
    requires stack != [] && GoodTag(tag) && GoodNames(attrs) && Unclosed(attrs)
    ensures var token := "<" + tag + SerializeAttrs(attrs) + ">";
      && !("<!--" <= token)
      && HandleToken(stack, token) ==
           Some(if IsVoid(tag) then AddKid(stack, ElementNode(tag, ReadAttrs(attrs), [])) else stack + [Frame(tag, ReadAttrs(attrs), [])])
  {
    hide Trim;
    hide SerializeAttrs, ParseAttrs, CreatedTag, TagRun, GoodNames, Unclosed, ReadAttrs, EndsWithSlash, WithoutSlash, AddKid, IsVoid, Lower, ColonFree;
    var a := SerializeAttrs(attrs);
    var token := "<" + tag + a + ">";
    SerializedAttrs(attrs);
    TagRunIs(tag, a);
    assert token[1..|token| - 1] == tag + a;
    assert token[1 + |tag|..|token| - 1] == a && token[1..1 + |tag|] == tag;
    assert token[0] == '<' && token[1] == tag[0];
    SpaceBefore(a);
    var chunk := a[SpaceRun(a)..];
    GoodTagIsCreated(tag);
    assert [] + attrs == attrs;
    assert [] + ReadAttrs(attrs) == ReadAttrs(attrs);
    ParseReadsAttrs([], attrs);
    NoAttrs([]);
    if attrs == [] { assert ReadAttrs(attrs) == []; }
    assert token[..|token| - 1] == "<" + tag + a;
    NotSlashed("<" + tag + a);
    NotSlashed(chunk);
  }

  lemma SpaceBefore(a: string)
    requires a == "" || (|a| > 2 && a[0] == ' ' && IsLetter(a[1]))
    ensures SpaceRun(a) == if a == "" then 0 else 1
  {
    if a != "" { assert a[1..][0] == a[1]; }
  }

  lemma EndTagIsToken(tag: string, r: string)
    requires GoodTag(tag)
    ensures var token := "</" + tag + ">"; TokenLength(token + r) == |token|
  {
    hide FirstOf, CommentEnd, Lower;
    var token := "</" + tag + ">";
    var s := token + r;
    assert s[..|token| - 1] == "</" + tag;
    assert '>' !in tag by { forall i | 0 <= i < |tag| ensures tag[i] != '>' { assert TagChar(tag[i]); } }
    FirstIs(s, '>', |token| - 1);
    assert s[0] == '<' && s[1] == '/' && s[2] == tag[0];
  }

  /** An end tag closes the element it was written for. */
  lemma EndTagCloses(stack: seq<Frame>, tag: string, attrs: seq<Attr>, kids: seq<Markup>)
    requires stack != [] && GoodTag(tag)
    ensures var token := "</" + tag + ">";
      && !("<!--" <= token)
      && HandleToken(stack + [Frame(tag, attrs, kids)], token) == Some(AddKid(stack, ElementNode(tag, attrs, kids)))
  {
    hide TagRun, AddKid, Lower;
    var token := "</" + tag + ">";
    var st := stack + [Frame(tag, attrs, kids)];
    assert token[2..] == tag + ">" && token[2..2 + |tag|] == tag;
    TagRunIs(tag, ">");
    assert st[..|st| - 1] == stack;
    assert token[0] == '<' && token[1] == '/';
    assert KeptBy(st, tag) == |stack|;
    var closed := AddKid(stack, ElementNode(tag, attrs, kids));
    assert |closed| == |stack|;
    assert CloseTo(closed, |stack|) == closed;
    assert CloseTo(st, |stack|) == CloseTo(closed, |stack|);
  }

  // ---------------------------------------------------------------- whole trees

  predicate Boundary(r: string) {
    r == "" || r[0] == '<'
  }

  /** Markup of anything but a text starts with `<`. */
  lemma StartsWithTag(ms: seq<Markup>, r: string)
    requires Boundary(r) && (ms != [] ==> !ms[0].TextNode?)
    ensures Boundary(SerializeAll(ms) + r)
  {
    if ms != [] { assert Serialize(ms[0])[0] == '<'; }
  }

  lemma {:induction false} ParseOne(stack: seq<Frame>, m: Markup, r: string)
    requires stack != [] && Shaped(m) && Normal(m) && (m.TextNode? ==> Boundary(r))
    ensures ParseFrom(stack, Serialize(m) + r) == ParseFrom(AddKid(stack, Read(m)), r)
    decreases m
  {
    hide ParseFrom, HandleToken, AddKid, TokenLength, SerializeAttrs, GoodTag, GoodNames, Unclosed, Occurs, IsVoid, EscapeHTML;
    hide Decode, ReadAttrs;
    match m
    case TextNode(text) => ParseText(stack, text, r);
    case CommentNode(text) => ParseComment(stack, text, r);
    case ElementNode(tag, attrs, kids) =>
      var open, close := "<" + tag + SerializeAttrs(attrs) + ">", "</" + tag + ">";
      var read := ReadAttrs(attrs);
      if IsVoid(tag) {
        StartTagIsToken(tag, attrs, r);
        StartTagOpens(stack, tag, attrs);
        OneToken(stack, open, r);
      } else {
        var inner := SerializeAll(kids) + (close + r);
        assert Serialize(m) + r == open + inner;
        StartTagIsToken(tag, attrs, inner);
        StartTagOpens(stack, tag, attrs);
        OneToken(stack, open, inner);
        var pushed := stack + [Frame(tag, read, [])];
        ParseAll(pushed, kids, close + r);
        FilledFrame(stack, tag, read, ReadAll(kids));
        EndTagIsToken(tag, r);
        EndTagCloses(stack, tag, read, ReadAll(kids));
        OneToken(stack + [Frame(tag, read, ReadAll(kids))], close, r);
      }
  }

  lemma FilledFrame(stack: seq<Frame>, tag: string, attrs: seq<Attr>, kids: seq<Markup>)
    requires stack != []
    ensures AddKids(stack + [Frame(tag, attrs, [])], kids) == stack + [Frame(tag, attrs, kids)]
  {
    assert [] + kids == kids;
  }

  lemma {:induction false} ParseAll(stack: seq<Frame>, ms: seq<Markup>, r: string)
    requires stack != [] && ShapedAll(ms) && NormalAll(ms) && Boundary(r)
    ensures ParseFrom(stack, SerializeAll(ms) + r) == ParseFrom(AddKids(stack, ReadAll(ms)), r)
    decreases ms
  {
    hide ParseFrom, Serialize, Shaped, Read, AddKid, AddKids;
    if ms == [] {
      AddKidsStep(stack, CommentNode(""), []);
      assert "" + r == r;
    } else {
      var rest := SerializeAll(ms[1..]) + r;
      assert SerializeAll(ms) + r == Serialize(ms[0]) + rest;
      if ms[0].TextNode? { StartsWithTag(ms[1..], r); }
      ParseOne(stack, ms[0], rest);
      ParseAll(AddKid(stack, Read(ms[0])), ms[1..], r);
      AddKidsStep(stack, Read(ms[0]), ReadAll(ms[1..]));
    }
  }

  /** Parsing the serialisation of shaped markup reads it back node by node, with
      adjacent texts merged and empty ones dropped. */
  lemma ParseReadsSerialized(ms: seq<Markup>)
    requires ShapedAll(NormalizeAll(ms))
    ensures ParseFragment(SerializeAll(ms)) == ReadAll(NormalizeAll(ms))
    ensures !ParseFrom([TARGET], SerializeAll(ms)).threw
  {
    hide ParseFrom, NormalizeAll, ShapedAll, ReadAll, NormalAll, SerializeAll;
    var ns := NormalizeAll(ms);
    NormalizeAllKeepsText(ms);
    NormalizeIsNormal(ms);
    ParseAll([TARGET], ns, "");
    assert SerializeAll(ns) + "" == SerializeAll(ns);
    var none: seq<Frame> := [];
    assert none + [TARGET] == [TARGET];
    assert [] + ReadAll(ns) == ReadAll(ns);
    ParseEnd(AddKids([TARGET], ReadAll(ns)));
  }

  /** So shaped markup survives, up to merging, exactly when its texts hold no `&quot;`
      and no numeric reference and its values neither `&` nor `"`; then it also
      serialises to the same text again. */
  lemma ParseUndoesSerializeIff(ms: seq<Markup>)
    requires ShapedAll(NormalizeAll(ms))
    ensures ParseFragment(SerializeAll(ms)) == NormalizeAll(ms) <==> FaithfulAll(NormalizeAll(ms))
    ensures FaithfulAll(NormalizeAll(ms)) ==> SerializeAll(ParseFragment(SerializeAll(ms))) == SerializeAll(ms)
  {
    hide ParseFragment, NormalizeAll, ShapedAll, FaithfulAll, ReadAll, SerializeAll;
    ParseReadsSerialized(ms);
    ReadAllIsIdentityIff(NormalizeAll(ms));
    NormalizeAllKeepsText(ms);
  }
}
