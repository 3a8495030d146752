/** Which inline styles matter for layout. */
module StyleNames {
  import opened Text

  /** A capital letter becomes a hyphen and its small letter: camel case to hyphens. */
  function Hyphenate(s: string): string {
    if s == "" then ""
    else (if IsUpper(s[0]) then ['-', LowerChar(s[0])] else [s[0]]) + Hyphenate(s[1..])
  }

  function DropSpaces(s: string): string {
    if s == "" then ""
    else (if IsSpace(s[0]) then "" else [s[0]]) + DropSpaces(s[1..])
  }

  /** `normalizeStyleName` */
  function NormalizeStyleName(name: string): string {
    var raw := Trim(name);
    if raw == "" then ""
    else DropSpaces(if '-' in raw then Lower(raw) else Lower(Hyphenate(raw)))
  }

  const STYLE_LAYOUT_ALLOWLIST: set<string> := {
    "display", "position", "box-sizing", "width", "height", "min-width", "min-height",
    "max-width", "max-height", "left", "top", "right", "bottom"
  }

  /** `isWhitelistedStyle` */
  predicate IsWhitelistedStyle(name: string) {
    && name != ""
    && (|| name in STYLE_LAYOUT_ALLOWLIST
        || name == "margin" || StartsWith(name, "margin-")
        || name == "padding" || StartsWith(name, "padding-")
        || name in {"border-width", "border-top-width", "border-right-width", "border-bottom-width", "border-left-width"}
        || name == "flex" || StartsWith(name, "flex-")
        || name == "inset" || StartsWith(name, "inset-"))
  }

  /** A stored name is found again under itself: normalising twice changes nothing. */
  lemma NormalizeIsIdempotent(name: string)
    ensures NormalizeStyleName(NormalizeStyleName(name)) == NormalizeStyleName(name)
  {
    hide Trim, IsSpace, Hyphenate, DropSpaces;
    var raw := Trim(name);
    if raw == "" {
      PlainIsFixed("");
    } else {
      var low := if '-' in raw then Lower(raw) else Lower(Hyphenate(raw));
      DropSpacesPlain(low);
      var n := DropSpaces(low);
      forall c | c in n ensures !IsSpace(c) && !IsUpper(c) { assert c in low; }
      PlainIsFixed(n);
    }
  }

  lemma {:induction false} DropSpacesPlain(s: string)
    ensures forall c :: c in DropSpaces(s) ==> c in s && !IsSpace(c)
  {
    if s != "" {
      DropSpacesPlain(s[1..]);
    }
  }

  lemma {:induction false} PlainIsFixed(s: string)
    requires forall c :: c in s ==> !IsSpace(c) && !IsUpper(c)
    ensures NormalizeStyleName(s) == s
  {
    hide Trim, Lower, IsSpace, IsUpper, Hyphenate, DropSpaces;
    TrimFixed(s);
    HyphenateFixed(s);
    DropSpacesFixed(s);
    LowerFixed(s);
  }

  lemma {:induction false} HyphenateFixed(s: string)
    requires forall c :: c in s ==> !IsUpper(c)
    ensures Hyphenate(s) == s
  {
    if s != "" {
      assert s[0] in s;
      assert forall c :: c in s[1..] ==> c in s;
      HyphenateFixed(s[1..]);
      assert s == [s[0]] + s[1..];
    }
  }

  lemma {:induction false} DropSpacesFixed(s: string)
    requires forall c :: c in s ==> !IsSpace(c)
    ensures DropSpaces(s) == s
  {
    if s != "" {
      assert s[0] in s;
      assert forall c :: c in s[1..] ==> c in s;
      DropSpacesFixed(s[1..]);
      assert s == [s[0]] + s[1..];
    }
  }
}
