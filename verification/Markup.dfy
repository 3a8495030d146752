/** Serialising a tree to markup, and the tokenizer and stack that parse it. */
module Markup {
  import opened Options
  import opened Text
  import opened Attributes
  import opened Entities

  datatype Attr = Attr(name: string, value: string)

  /** A node with everything serialisation reads; the tag is lower case. */
  datatype Markup =
    | ElementNode(tag: string, attrs: seq<Attr>, kids: seq<Markup>)
    | TextNode(text: string)
    | CommentNode(text: string)

  const VOID_TAGS := {
    "area", "base", "br", "col", "embed", "hr", "img", "input", "link", "meta", "param", "source", "track", "wbr"}

  // ---------------------------------------------------------------- serialising

  function SerializeAttrs(attrs: seq<Attr>): string {
    if attrs == [] then ""
    else " " + attrs[0].name + "=\"" + EscapeAttr(attrs[0].value) + "\"" + SerializeAttrs(attrs[1..])
  }

  /** `serializeNode` */
  function Serialize(m: Markup): string
    decreases m
  {
    match m
    case TextNode(text) => EscapeHTML(text)
    case CommentNode(text) => "<!--" + text + "-->"
    case ElementNode(tag, attrs, kids) =>
      var open := "<" + tag + SerializeAttrs(attrs) + ">";
      if IsVoid(tag) then open else open + SerializeAll(kids) + "</" + tag + ">"
  }

  /** `serializeChildren` */
  function SerializeAll(ms: seq<Markup>): string
    decreases ms
  {
    if ms == [] then "" else Serialize(ms[0]) + SerializeAll(ms[1..])
  }

  // ---------------------------------------------------------------- tokens

  function TextRun(s: string): (n: nat)
    ensures n <= |s| && '<' !in s[..n] && (n < |s| ==> s[n] == '<')
  {
    if s == "" || s[0] == '<' then 0
    else
      var n := TextRun(s[1..]);
      assert s[..1 + n] == [s[0]] + s[1..][..n];
      1 + n
  }

  /** The first occurrence of the end of a comment, or -1. */
  function CommentEnd(s: string): (i: int)
    ensures -1 <= i && (i >= 0 ==> i + 3 <= |s| && "-->" <= s[i..])
    ensures forall j :: 0 <= j <= |s| && "-->" <= s[j..] ==> 0 <= i <= j
  {
    if "-->" <= s then 0
    else if s == "" then -1
    else
      var i := CommentEnd(s[1..]);
      assert forall j :: 0 < j <= |s| ==> s[j..] == s[1..][j - 1..];
      if i < 0 then -1 else i + 1
  }

  /** A `<`, perhaps a `/`, and a letter. */
  predicate TagStart(s: string) {
    || (|s| >= 2 && s[0] == '<' && IsLetter(s[1]))
    || (|s| >= 3 && s[0] == '<' && s[1] == '/' && IsLetter(s[2]))
  }

  /** How long a token starts at the head of `s`, 0 when the scan moves on by one
      character.  The alternatives are tried in the order of the token pattern. */
  function TokenLength(s: string): (n: nat)
    requires s != ""
    ensures n <= |s|
    ensures n > 0 && "<!--" <= s[..n] ==> n >= 7
  {
    if s[0] != '<' then TextRun(s)
    else if "<!--" <= s && CommentEnd(s[4..]) >= 0 then 7 + CommentEnd(s[4..])
    else if TagStart(s) && FirstOf(s, '>') >= 0 then FirstOf(s, '>') + 1
    else 0
  }

  // ---------------------------------------------------------------- attributes of a start tag

  predicate NameChar(c: char) {
    !IsSpace(c) && c != '=' && c != '/' && c != '>'
  }

  function NameRun(s: string): (n: nat)
    ensures n <= |s| && (n < |s| ==> !NameChar(s[n])) && forall i :: 0 <= i < n ==> NameChar(s[i])
  {
    if s != "" && NameChar(s[0]) then 1 + NameRun(s[1..]) else 0
  }

  function SpaceRun(s: string): (n: nat)
    ensures n <= |s| && (n < |s| ==> !IsSpace(s[n])) && forall i :: 0 <= i < n ==> IsSpace(s[i])
  {
    if s != "" && IsSpace(s[0]) then 1 + SpaceRun(s[1..]) else 0
  }

  function BareRun(s: string): (n: nat)
    ensures n <= |s|
  {
    if s != "" && !IsSpace(s[0]) && s[0] != '"' && s[0] != '\'' && s[0] != '>' && s[0] != '/' then 1 + BareRun(s[1..]) else 0
  }

  datatype Assigned = Assigned(value: string, length: nat)

  /** The optional part behind an attribute name: `=` and a quoted or bare value. */
  function AssignedValue(s: string): (r: Assigned)
    ensures r.length <= |s|
  {
    var a := SpaceRun(s);
    if a < |s| && s[a] == '=' then
      var b := a + 1 + SpaceRun(s[a + 1..]);
      if b < |s| && (s[b] == '"' || s[b] == '\'') then
        var e := FirstOf(s[b + 1..], s[b]);
        if e >= 0 then Assigned(s[b + 1..b + 1 + e], b + 2 + e) else Assigned("", 0)
      else
        var e := BareRun(s[b..]);
        if e > 0 then Assigned(s[b..b + e], b + e) else Assigned("", 0)
    else Assigned("", 0)
  }

  /** `setNodeAttribute` on the flat store, whose keys stay in insertion order. */
  function PutAttr(attrs: seq<Attr>, name: string, value: string): seq<Attr> {
    if attrs == [] then [Attr(name, value)]
    else if attrs[0].name == name then [Attr(name, value)] + attrs[1..]
    else [attrs[0]] + PutAttr(attrs[1..], name, value)
  }

  function SetAttr(attrs: seq<Attr>, name: string, value: string): seq<Attr> {
    var n := NormalizeAttrName(name);
    if n == "" || n == PROTO then attrs else PutAttr(attrs, n, value)
  }

  /** `parseAttributesIntoNode` */
  function ParseAttrs(attrs: seq<Attr>, s: string): seq<Attr>
    decreases |s|
  {
    if s == "" then attrs
    else if NameRun(s) == 0 then ParseAttrs(attrs, s[1..])
    else
      var n := NameRun(s);
      var a := AssignedValue(s[n..]);
      ParseAttrs(SetAttr(attrs, s[..n], a.value), s[n + a.length..])
  }

  // ---------------------------------------------------------------- handling tokens

  predicate TagChar(c: char) {
    !IsSpace(c) && c != '>' && c != '/'
  }

  function TagRun(s: string): (n: nat)
    ensures n <= |s| && (n < |s| ==> !TagChar(s[n])) && forall i :: 0 <= i < n ==> TagChar(s[i])
  {
    if s != "" && TagChar(s[0]) then 1 + TagRun(s[1..]) else 0
  }

  /** Looking a tag up in the table of void tags also finds the one lower-case name that
      every object inherits. */
  predicate IsVoid(tag: string) {
    tag in VOID_TAGS || tag == "constructor"
  }

  /** The tag an element is created with, none when its name is refused. */
  function CreatedTag(tagName: string): Option<string> {
    var n := Lower(Trim(tagName));
    match ParseQualified(if n == "" then "unknown" else n)
    case Refused(_) => None
    case Qualified(_, localName) => Some(Lower(localName))
  }

  /** An open element with the children it has so far; frame 0 is the parse target. */
  datatype Frame = Frame(tag: string, attrs: seq<Attr>, kids: seq<Markup>)

  function AddKid(stack: seq<Frame>, m: Markup): (r: seq<Frame>)
    requires stack != []
    ensures |r| == |stack|
  {
    var top := stack[|stack| - 1];
    stack[|stack| - 1 := top.(kids := top.kids + [m])]
  }

  /** Closes the elements above the first `n` frames. */
  function CloseTo(stack: seq<Frame>, n: nat): (r: seq<Frame>)
    requires 0 < n <= |stack|
    ensures |r| == n
    decreases |stack|
  {
    if |stack| == n then stack
    else
      var top := stack[|stack| - 1];
      CloseTo(AddKid(stack[..|stack| - 1], ElementNode(top.tag, top.attrs, top.kids)), n)
  }

  /** How many frames remain when an end tag is met: those below the innermost open
      element of that name, all of them without one. */
  function KeptBy(stack: seq<Frame>, closing: string): (n: nat)
    requires stack != []
    ensures 0 < n <= |stack|
    decreases |stack|
  {
    if |stack| == 1 then 1
    else if Lower(stack[|stack| - 1].tag) == Lower(closing) then |stack| - 1
    else
      var n := KeptBy(stack[..|stack| - 1], closing);
      if n == |stack| - 1 then |stack| else n
  }

  predicate EndsWithSlash(s: string) {
    var t := TrimRight(s);
    t != "" && t[|t| - 1] == '/'
  }

  function WithoutSlash(s: string): string {
    if EndsWithSlash(s) then TrimRight(s)[..|TrimRight(s)| - 1] else s
  }

  function HandleStartTag(stack: seq<Frame>, token: string): Option<seq<Frame>>
    requires stack != [] && |token| >= 2
  {
    var n := TagRun(token[1..|token| - 1]);
    var rest := token[1 + n..|token| - 1];
    var chunk := rest[SpaceRun(rest)..];
    if n == 0 then Some(stack)
    else
      var name := token[1..1 + n];
      match CreatedTag(name)
      case None => None
      case Some(tag) =>
        if EndsWithSlash(token[..|token| - 1]) || IsVoid(Lower(name))
        then Some(AddKid(stack, ElementNode(tag, ParseAttrs([], WithoutSlash(chunk)), [])))
        else Some(stack + [Frame(tag, ParseAttrs([], chunk), [])])
  }

  /** One turn of the token loop; none when creating the element threw. */
  function HandleToken(stack: seq<Frame>, token: string): (r: Option<seq<Frame>>)
    requires stack != [] && token != "" && ("<!--" <= token ==> |token| >= 7)
    ensures r.Some? ==> r.value != []
  {
    if "<!--" <= token then Some(AddKid(stack, CommentNode(token[4..|token| - 3])))
    else if token[0] != '<' then Some(AddKid(stack, TextNode(Decode(token))))
    else if "</" <= token then
      var n := TagRun(token[2..]);
      if n == 0 then Some(stack) else Some(CloseTo(stack, KeptBy(stack, token[2..2 + n])))
    else if |token| < 2 then Some(stack)
    else HandleStartTag(stack, token)
  }

  /** Where parsing stands when it ends: the open elements, and whether it threw. */
  datatype Parsed = Parsed(stack: seq<Frame>, threw: bool)

  function ParseFrom(stack: seq<Frame>, s: string): (r: Parsed)
    requires stack != []
    ensures r.stack != []
    decreases |s|
  {
    if s == "" then Parsed(stack, false)
    else
      var n := TokenLength(s);
      if n == 0 then ParseFrom(stack, s[1..])
      else
        match HandleToken(stack, s[..n])
        case None => Parsed(stack, true)
        case Some(next) => ParseFrom(next, s[n..])
  }

  const TARGET := Frame("", [], [])

  /** The children `parseHTMLFragment` adds to its target. */
  function ParseFragment(html: string): seq<Markup> {
    CloseTo(ParseFrom([TARGET], html).stack, 1)[0].kids
  }

  lemma ParseStep(stack: seq<Frame>, s: string)
    requires stack != [] && s != ""
    ensures var n := TokenLength(s);
      if n == 0 then ParseFrom(stack, s) == ParseFrom(stack, s[1..])
      else
        var next := HandleToken(stack, s[..n]);
        ParseFrom(stack, s) == if next.None? then Parsed(stack, true) else ParseFrom(next.value, s[n..])
  {
    hide HandleToken;
  }

  lemma ParseEnd(stack: seq<Frame>)
    requires stack != []
    ensures ParseFrom(stack, "") == Parsed(stack, false)
  {
  }
}
