/** The two attribute stores of an element, as values: a flat one by name and one by
    namespace and local name. */
module Attributes {
  import opened Options
  import opened Text

  /** One namespaced record; no namespace and no prefix are empty strings. */
  datatype Record = Record(namespaceURI: string, prefix: string, localName: string, name: string, value: string)

  datatype Stores = Stores(flat: map<string, string>, byKey: map<string, Record>)

  datatype AttributeOutcome = Done | InvalidCharacterError | NamespaceError

  const SEPARATOR := 31 as char
  /** A plain object silently ignores this key when it is assigned a string. */
  const PROTO := "__proto__"

  // ---------------------------------------------------------------- names

  function NormalizeAttrName(name: string): string {
    Lower(Trim(name))
  }

  function LastOf(s: string, c: char): (i: int)
    ensures i == -1 <==> c !in s
    ensures i >= 0 ==> i < |s| && s[i] == c && c !in s[i + 1..]
    ensures -1 <= i
  {
    if s == "" then -1
    else if s[|s| - 1] == c then |s| - 1
    else
      var i := LastOf(s[..|s| - 1], c);
      assert s == s[..|s| - 1] + [s[|s| - 1]];
      assert i >= 0 ==> s[i + 1..] == s[..|s| - 1][i + 1..] + [s[|s| - 1]];
      i
  }

  datatype Qualified = Qualified(prefix: string, localName: string) | Refused(error: AttributeOutcome)

  /** `parseQualifiedName` on a trimmed name */
  function ParseQualified(raw: string): Qualified {
    if raw == "" then Refused(InvalidCharacterError)
    else
      var first, last := FirstOf(raw, ':'), LastOf(raw, ':');
      if first != last then Refused(NamespaceError)
      else if first <= 0 || first == |raw| - 1 then
        if first >= 0 then Refused(NamespaceError) else Qualified("", raw)
      else Qualified(raw[..first], raw[first + 1..])
  }

  predicate ColonFree(s: string) {
    ':' !in s
  }

  predicate TwoParts(raw: string, p: string, l: string) {
    p != "" && l != "" && ColonFree(p) && ColonFree(l) && raw == p + ":" + l
  }

  lemma AcceptedParts(raw: string)
    requires ParseQualified(raw).Qualified?
    ensures var q := ParseQualified(raw);
      && q.localName != "" && ColonFree(q.prefix) && ColonFree(q.localName)
      && (if q.prefix == "" then raw == q.localName else TwoParts(raw, q.prefix, q.localName))
  {
    hide FirstOf, LastOf;
    var first := FirstOf(raw, ':');
    if first >= 0 { assert raw == raw[..first] + ":" + raw[first + 1..]; }
  }

  lemma TwoPartsAccepted(raw: string, p: string, l: string)
    requires TwoParts(raw, p, l)
    ensures ParseQualified(raw) == Qualified(p, l)
  {
    hide FirstOf, LastOf;
    ColonAt(raw, p, l);
  }

  /** A name is accepted exactly when it is one part, or two non-empty parts around a
      single colon. */
  lemma ParseQualifiedMeans(raw: string)
    ensures ParseQualified(raw) == Refused(InvalidCharacterError) <==> raw == ""
    ensures ParseQualified(raw).Qualified? <==> (raw != "" && ColonFree(raw)) || exists p, l :: TwoParts(raw, p, l)
    ensures ParseQualified(raw).Qualified? ==>
      var q := ParseQualified(raw);
      && q.localName != "" && ColonFree(q.prefix) && ColonFree(q.localName)
      && raw == if q.prefix == "" then q.localName else q.prefix + ":" + q.localName
  {
    hide ColonFree, TwoParts;
    if ParseQualified(raw).Qualified? { AcceptedParts(raw); AcceptedWhole(raw); }
    if p, l :| TwoParts(raw, p, l) { TwoPartsAccepted(raw, p, l); }
    PlainAccepted(raw);
  }

  lemma AcceptedWhole(raw: string)
    requires ParseQualified(raw).Qualified?
    ensures var q := ParseQualified(raw); raw == if q.prefix == "" then q.localName else q.prefix + ":" + q.localName
    ensures raw != ""
  {
    AcceptedParts(raw);
  }

  lemma PlainAccepted(raw: string)
    ensures ColonFree(raw) && raw != "" ==> ParseQualified(raw) == Qualified("", raw)
  {
    hide FirstOf, LastOf;
  }

  lemma {:induction false} LastIs(s: string, c: char, i: nat)
    requires i < |s| && s[i] == c && c !in s[i + 1..]
    ensures LastOf(s, c) == i
    decreases |s| - i
  {
    if i < |s| - 1 {
      assert s[i + 1..][|s| - i - 2] == s[|s| - 1];
      assert s[..|s| - 1][i + 1..] == s[i + 1..][..|s| - i - 2];
      LastIs(s[..|s| - 1], c, i);
    }
  }

  lemma ColonAt(raw: string, p: string, l: string)
    requires ColonFree(p) && ColonFree(l) && raw == p + ":" + l
    ensures FirstOf(raw, ':') == |p| == LastOf(raw, ':')
  {
    assert raw[|p| + 1..] == l && raw[..|p|] == p;
    FirstIs(raw, ':', |p|);
    LastIs(raw, ':', |p|);
  }

  /** `buildAttrNSKey` */
  function Key(namespaceURI: string, localName: string): string {
    namespaceURI + [SEPARATOR] + localName
  }

  /** The key determines both parts as long as namespaces hold no separator. */
  lemma KeyIsInjective(ns: string, local: string, ns': string, local': string)
    requires SEPARATOR !in ns && SEPARATOR !in ns' && Key(ns, local) == Key(ns', local')
    ensures ns == ns' && local == local'
  {
    var k := Key(ns, local);
    SeparatorAt(ns, local);
    SeparatorAt(ns', local');
    assert k[..|ns|] == ns && k[..|ns'|] == ns';
    assert k[|ns| + 1..] == local && k[|ns'| + 1..] == local';
  }

  lemma SeparatorAt(ns: string, local: string)
    requires SEPARATOR !in ns
    ensures FirstOf(Key(ns, local), SEPARATOR) == |ns|
  {
    assert Key(ns, local)[..|ns|] == ns;
    FirstIs(Key(ns, local), SEPARATOR, |ns|);
  }

  // ---------------------------------------------------------------- the operations

  /** Assigning a string to a property of a plain object. */
  function Put(m: map<string, string>, name: string, value: string): map<string, string> {
    if name == PROTO then m else m[name := value]
  }

  /** Records of other keys that carry `name` are deleted. */
  function DropNamed(m: map<string, Record>, name: string, except: string): map<string, Record> {
    map k | k in m && (k == except || m[k].name != name) :: m[k]
  }

  /** `setNodeAttribute` */
  function SetAttribute(a: Stores, name: string, value: string): Stores {
    var n := NormalizeAttrName(name);
    var local := NormalizeAttrName(n);
    if n == "" || local == "" then a
    else
      var key := Key("", local);
      Stores(Put(a.flat, n, value), DropNamed(a.byKey, n, key)[key := Record("", "", local, n, value)])
  }

  function LocalNameFor(namespaceURI: string, localName: string): string {
    if namespaceURI == "" then NormalizeAttrName(localName) else localName
  }

  /** `setNodeAttributeNS` */
  function SetAttributeNS(a: Stores, namespaceURI: string, qualifiedName: string, value: string): (Stores, AttributeOutcome) {
    var raw := Trim(qualifiedName);
    match ParseQualified(raw)
    case Refused(e) => (a, e)
    case Qualified(prefix, localName) =>
      if prefix != "" && namespaceURI == "" then (a, NamespaceError)
      else
        var n := NormalizeAttrName(raw);
        var local := LocalNameFor(namespaceURI, localName);
        if n == "" || local == "" then (a, Done)
        else
          var key := Key(namespaceURI, local);
          var flat := if key in a.byKey && a.byKey[key].name != "" && a.byKey[key].name != n then a.flat - {a.byKey[key].name} else a.flat;
          (Stores(Put(flat, n, value), DropNamed(a.byKey, n, key)[key := Record(namespaceURI, prefix, local, n, value)]), Done)
  }

  /** `getNodeAttribute` */
  function GetAttribute(a: Stores, name: string): Option<string> {
    var n := NormalizeAttrName(name);
    if n == "" || n !in a.flat then None else Some(a.flat[n])
  }

  /** `getNodeAttributeNS` */
  function GetAttributeNS(a: Stores, namespaceURI: string, localName: string): Option<string> {
    var local := LocalNameFor(namespaceURI, localName);
    var key := Key(namespaceURI, local);
    if local == "" || key !in a.byKey then None else Some(a.byKey[key].value)
  }

  /** `removeNodeAttribute` */
  function RemoveAttribute(a: Stores, name: string): Stores {
    var n := NormalizeAttrName(name);
    if n == "" || n !in a.flat then a
    else Stores(a.flat - {n}, map k | k in a.byKey && a.byKey[k].name != n :: a.byKey[k])
  }

  /** `removeNodeAttributeNS` */
  function RemoveAttributeNS(a: Stores, namespaceURI: string, localName: string): Stores {
    var local := LocalNameFor(namespaceURI, localName);
    var key := Key(namespaceURI, local);
    if local == "" || key !in a.byKey then a
    else Stores(if a.byKey[key].name == "" then a.flat else a.flat - {a.byKey[key].name}, a.byKey - {key})
  }

  // ---------------------------------------------------------------- the stores agree

  /** Every record sits at its own key. */
  predicate Keyed(m: map<string, Record>) {
    forall k :: k in m ==> k == Key(m[k].namespaceURI, m[k].localName) && m[k].name != ""
  }

  /** No two records carry one name. */
  predicate NamesUnique(m: map<string, Record>) {
    forall k, k' :: k in m && k' in m && m[k].name == m[k'].name ==> k == k'
  }

  /** A record's name is stored flat with the same value. */
  predicate RecordsStored(a: Stores) {
    forall k :: k in a.byKey ==> a.byKey[k].name in a.flat && a.flat[a.byKey[k].name] == a.byKey[k].value
  }

  /** Every stored name has a record. */
  predicate NamesRecorded(a: Stores) {
    forall n :: n in a.flat ==> exists k :: k in a.byKey && a.byKey[k].name == n
  }

  predicate NullNamesAgree(m: map<string, Record>) {
    forall k :: k in m && m[k].namespaceURI == "" ==> m[k].name == m[k].localName
  }

  predicate NamesNormal(m: map<string, Record>) {
    forall k :: k in m ==> NormalizeAttrName(m[k].name) == m[k].name
  }

  /** The two stores are in bijection. */
  predicate Agree(a: Stores) {
    && Keyed(a.byKey) && NamesUnique(a.byKey) && RecordsStored(a) && NamesRecorded(a) && NullNamesAgree(a.byKey)
    && PROTO !in a.flat && NamesNormal(a.byKey)
  }

  lemma EmptyAgrees()
    ensures Agree(Stores(map[], map[]))
  {
  }

  lemma LowerTrimmed(s: string)
    requires s == "" || (!IsSpace(s[0]) && !IsSpace(s[|s| - 1]))
    ensures Trim(Lower(s)) == Lower(s) && Lower(Lower(s)) == Lower(s)
  {
    var l := Lower(s);
    assert l != "" ==> !IsSpace(l[0]) && !IsSpace(l[|l| - 1]);
  }

  lemma NormalizeTwice(name: string)
    ensures NormalizeAttrName(NormalizeAttrName(name)) == NormalizeAttrName(name)
    ensures NormalizeAttrName(Trim(name)) == NormalizeAttrName(name)
  {
    hide Trim, Lower;
    TrimTwice(name);
    LowerTrimmed(Trim(name));
  }

  lemma TrimTwice(s: string)
    ensures Trim(Trim(s)) == Trim(s)
    ensures Trim(s) == "" || (!IsSpace(Trim(s)[0]) && !IsSpace(Trim(s)[|Trim(s)| - 1]))
  {
    var l := TrimLeft(s);
    var r := TrimRight(l);
    assert r == l[..|r|];
    assert r != "" ==> r[0] == l[0];
    assert TrimLeft(r) == r;
  }

  /** The stores after a record has replaced what stood in its way. */
  function Replaced(a: Stores, n: string, key: string, r: Record): Stores {
    var flat := if key in a.byKey && a.byKey[key].name != n then a.flat - {a.byKey[key].name} else a.flat;
    Stores(Put(flat, n, r.value), DropNamed(a.byKey, n, key)[key := r])
  }

  predicate FitsRecord(n: string, key: string, r: Record) {
    && key == Key(r.namespaceURI, r.localName) && r.name == n != "" && NormalizeAttrName(n) == n
    && (r.namespaceURI == "" ==> r.localName == n)
  }

  lemma ReplacedRecords(a: Stores, n: string, key: string, r: Record)
    requires Agree(a) && FitsRecord(n, key, r)
    ensures var m := Replaced(a, n, key, r).byKey; Keyed(m) && NamesUnique(m) && NullNamesAgree(m) && NamesNormal(m)
  {
    hide NormalizeAttrName, Key, RecordsStored, NamesRecorded;
  }

  lemma StoredOthers(a: Stores, n: string, key: string)
    requires Agree(a)
    ensures forall k :: k in a.byKey && k != key && key in a.byKey ==> a.byKey[k].name != a.byKey[key].name
  {
    hide NormalizeAttrName, Key;
  }

  lemma ReplacedStored(a: Stores, n: string, key: string, r: Record)
    requires Agree(a) && FitsRecord(n, key, r) && n != PROTO
    ensures RecordsStored(Replaced(a, n, key, r))
  {
    hide Key, NamesNormal, Keyed, NullNamesAgree, NamesRecorded, NamesUnique, NormalizeAttrName;
    StoredOthers(a, n, key);
    var b := Replaced(a, n, key, r);
    forall k | k in b.byKey ensures b.byKey[k].name in b.flat && b.flat[b.byKey[k].name] == b.byKey[k].value {
      if k != key { assert k in a.byKey && a.byKey[k].name != n; }
    }
  }

  lemma ReplacedRecorded(a: Stores, n: string, key: string, r: Record)
    requires Agree(a) && FitsRecord(n, key, r)
    ensures NamesRecorded(Replaced(a, n, key, r))
  {
    hide Key, NamesNormal, Keyed, NullNamesAgree, RecordsStored, NormalizeAttrName;
    var b := Replaced(a, n, key, r);
    forall m | m in b.flat ensures exists k :: k in b.byKey && b.byKey[k].name == m {
      if m == n {
        assert b.byKey[key].name == n;
      } else {
        var k :| k in a.byKey && a.byKey[k].name == m;
        assert b.byKey[k].name == m;
      }
    }
  }

  lemma ReplacedAgrees(a: Stores, n: string, key: string, r: Record)
    requires Agree(a) && FitsRecord(n, key, r)
    ensures Agree(Replaced(a, n, key, r)) <==> n != PROTO
  {
    ReplacedRecords(a, n, key, r);
    ReplacedRecorded(a, n, key, r);
    var b := Replaced(a, n, key, r);
    if n != PROTO { ReplacedStored(a, n, key, r); } else { assert b.byKey[key] == r && PROTO !in b.flat; }
  }

  /** `setNodeAttributeNS` keeps the stores in bijection unless the name is the one a
      plain object will not store. */
  lemma SetNSKeepsAgree(a: Stores, namespaceURI: string, qualifiedName: string, value: string)
    requires Agree(a)
    ensures var r := SetAttributeNS(a, namespaceURI, qualifiedName, value);
      && (r.1 != Done ==> r.0 == a)
      && (r.1 == Done ==> (Agree(r.0) <==> NormalizeAttrName(qualifiedName) != PROTO))
  {
    hide Trim, NormalizeAttrName, Key, DropNamed, Lower;
    var raw := Trim(qualifiedName);
    var r := SetAttributeNS(a, namespaceURI, qualifiedName, value);
    ParseQualifiedMeans(raw);
    NormalizeTwice(qualifiedName);
    if r.1 == Done {
      var q := ParseQualified(raw);
      var n, local := NormalizeAttrName(raw), LocalNameFor(namespaceURI, q.localName);
      var key, rec := Key(namespaceURI, local), Record(namespaceURI, q.prefix, local, n, value);
      NonBlank(qualifiedName);
      NonBlankLocal(namespaceURI, q, raw);
      KeyedNames(a, key);
      ReplacedAgrees(a, n, key, rec);
    }
  }

  lemma KeyedNames(a: Stores, key: string)
    requires Keyed(a.byKey)
    ensures key in a.byKey ==> a.byKey[key].name != ""
  {
  }

  lemma NonBlank(s: string)
    requires Trim(s) != ""
    ensures NormalizeAttrName(s) != ""
  {
  }

  lemma NonBlankLocal(namespaceURI: string, q: Qualified, raw: string)
    requires q.Qualified? && q.localName != "" && raw == (if q.prefix == "" then q.localName else q.prefix + ":" + q.localName)
    requires q.prefix != "" ==> namespaceURI != ""
    requires NormalizeAttrName(raw) != ""
    ensures LocalNameFor(namespaceURI, q.localName) != ""
    ensures namespaceURI == "" ==> LocalNameFor(namespaceURI, q.localName) == NormalizeAttrName(raw)
  {
  }

  predicate NoSeparators(a: Stores) {
    forall k :: k in a.byKey ==> SEPARATOR !in a.byKey[k].namespaceURI
  }

  /** Exactly when `setNodeAttribute` keeps the bijection: it forgets to clear the flat
      entry of a record of another name found at its own key. */
  lemma SetKeepsAgree(a: Stores, name: string, value: string)
    requires Agree(a)
    ensures var n := NormalizeAttrName(name);
      Agree(SetAttribute(a, name, value)) <==>
        n == "" || (n != PROTO && (Key("", n) in a.byKey ==> a.byKey[Key("", n)].name == n))
  {
    hide NormalizeAttrName, Key, DropNamed;
    var n := NormalizeAttrName(name);
    NormalizeTwice(name);
    if n != "" {
      var key, rec := Key("", n), Record("", "", n, n, value);
      var b := SetAttribute(a, name, value);
      ReplacedAgrees(a, n, key, rec);
      if key in a.byKey && a.byKey[key].name != n {
        Orphaned(a, n, key, rec);
      }
    }
  }

  lemma NotRecorded(b: Stores, m: string)
    requires m in b.flat && forall k :: k in b.byKey ==> b.byKey[k].name != m
    ensures !NamesRecorded(b)
  {
  }

  lemma Orphaned(a: Stores, n: string, key: string, r: Record)
    requires Agree(a) && key in a.byKey && a.byKey[key].name != n && r.name == n
    ensures !NamesRecorded(Stores(Put(a.flat, n, r.value), DropNamed(a.byKey, n, key)[key := r]))
  {
    hide NormalizeAttrName, Key, NamesNormal, NullNamesAgree, NamesRecorded;
    StoredOthers(a, n, key);
    var b := Stores(Put(a.flat, n, r.value), DropNamed(a.byKey, n, key)[key := r]);
    var m := a.byKey[key].name;
    assert m in b.flat;
    forall k | k in b.byKey ensures b.byKey[k].name != m {
      if k != key { assert a.byKey[k].name != m; }
    }
    NotRecorded(b, m);
  }

  /** Without separators in namespaces such a record has the right name already. */
  lemma OwnKeyOwnName(a: Stores, n: string)
    requires Agree(a) && NoSeparators(a) && Key("", n) in a.byKey
    ensures a.byKey[Key("", n)].name == n
  {
    var r := a.byKey[Key("", n)];
    KeyIsInjective("", n, r.namespaceURI, r.localName);
  }

  /** `removeNodeAttribute` and `removeNodeAttributeNS` always keep the bijection. */
  lemma RemoveKeepsAgree(a: Stores, name: string)
    requires Agree(a)
    ensures Agree(RemoveAttribute(a, name))
  {
    hide NormalizeAttrName, Key;
    var n, b := NormalizeAttrName(name), RemoveAttribute(a, name);
    if n != "" && n in a.flat {
      forall m | m in b.flat ensures exists k :: k in b.byKey && b.byKey[k].name == m {
        var k :| k in a.byKey && a.byKey[k].name == m;
        assert b.byKey[k].name == m;
      }
      forall k | k in b.byKey ensures b.byKey[k].name in b.flat && b.flat[b.byKey[k].name] == b.byKey[k].value {
        assert a.byKey[k].name != n;
      }
    }
  }

  lemma RemoveNSKeepsAgree(a: Stores, namespaceURI: string, localName: string)
    requires Agree(a)
    ensures Agree(RemoveAttributeNS(a, namespaceURI, localName))
  {
    hide NormalizeAttrName, Key, LocalNameFor;
    var key, b := Key(namespaceURI, LocalNameFor(namespaceURI, localName)), RemoveAttributeNS(a, namespaceURI, localName);
    if key in a.byKey && b != a {
      forall m | m in b.flat ensures exists k :: k in b.byKey && b.byKey[k].name == m {
        var k :| k in a.byKey && a.byKey[k].name == m;
        assert b.byKey[k].name == m;
      }
      forall k | k in b.byKey ensures b.byKey[k].name in b.flat && b.flat[b.byKey[k].name] == b.byKey[k].value {
        assert a.byKey[k].name != a.byKey[key].name;
      }
    }
  }

  // ---------------------------------------------------------------- the getters agree

  /** Both getters give the value of every record. */
  lemma GettersAgree(a: Stores, k: string)
    requires Agree(a) && k in a.byKey
    ensures var r := a.byKey[k];
      && GetAttribute(a, r.name) == Some(r.value)
      && (r.localName != "" ==> GetAttributeNS(a, r.namespaceURI, r.localName) == Some(r.value))
  {
    hide NormalizeAttrName, Key;
  }

  /** `getNodeAttribute` finds exactly the recorded names. */
  lemma GetMeans(a: Stores, name: string, value: string)
    requires Agree(a)
    ensures GetAttribute(a, name) == Some(value) <==>
      exists k :: k in a.byKey && a.byKey[k].name == NormalizeAttrName(name) && a.byKey[k].value == value
  {
    hide NormalizeAttrName, Key;
    var n := NormalizeAttrName(name);
    if GetAttribute(a, name) == Some(value) {
      var k :| k in a.byKey && a.byKey[k].name == n;
      assert a.byKey[k].value == value;
    }
  }

  /** `getNodeAttributeNS` finds exactly the recorded pairs of namespace and local name,
      as long as namespaces hold no separator. */
  lemma GetNSMeans(a: Stores, namespaceURI: string, localName: string, value: string)
    requires Agree(a) && NoSeparators(a) && SEPARATOR !in namespaceURI && LocalNameFor(namespaceURI, localName) != ""
    ensures GetAttributeNS(a, namespaceURI, localName) == Some(value) <==>
      exists k :: && k in a.byKey && a.byKey[k].namespaceURI == namespaceURI
                  && a.byKey[k].localName == LocalNameFor(namespaceURI, localName) && a.byKey[k].value == value
  {
    hide NormalizeAttrName, LocalNameFor;
    var local := LocalNameFor(namespaceURI, localName);
    var key := Key(namespaceURI, local);
    if key in a.byKey {
      var r := a.byKey[key];
      assert key == Key(r.namespaceURI, r.localName);
      KeyIsInjective(namespaceURI, local, r.namespaceURI, r.localName);
    }
  }

  /** Setting one attribute gives it its value and leaves all others alone. */
  lemma SetThenGet(a: Stores, name: string, value: string, other: string)
    requires NormalizeAttrName(name) != "" && NormalizeAttrName(name) != PROTO
    ensures GetAttribute(SetAttribute(a, name, value), other) ==
      if NormalizeAttrName(other) == NormalizeAttrName(name) then Some(value) else GetAttribute(a, other)
  {
    hide NormalizeAttrName, Trim, Key;
    NormalizeTwice(name);
  }

  lemma SetNSThenGet(a: Stores, namespaceURI: string, qualifiedName: string, value: string)
    requires SetAttributeNS(a, namespaceURI, qualifiedName, value).1 == Done && NormalizeAttrName(qualifiedName) != PROTO
    ensures var b := SetAttributeNS(a, namespaceURI, qualifiedName, value).0;
      && GetAttribute(b, qualifiedName) == Some(value)
      && GetAttributeNS(b, namespaceURI, ParseQualified(Trim(qualifiedName)).localName) == Some(value)
  {
    hide NormalizeAttrName, Trim, Key, ParseQualified;
    var raw := Trim(qualifiedName);
    ParseQualifiedMeans(raw);
    RefusedIsError(raw);
    NormalizeTwice(qualifiedName);
    NonBlank(qualifiedName);
    NonBlankLocal(namespaceURI, ParseQualified(raw), raw);
  }

  lemma RefusedIsError(raw: string)
    ensures ParseQualified(raw).Refused? ==> ParseQualified(raw).error != Done
  {
    hide FirstOf, LastOf;
  }

  lemma RemoveThenGet(a: Stores, name: string, other: string)
    ensures GetAttribute(RemoveAttribute(a, name), other) ==
      if NormalizeAttrName(other) == NormalizeAttrName(name) then None else GetAttribute(a, other)
  {
  }

  // ---------------------------------------------------------------- runs

  datatype Op =
    | Set(name: string, value: string)
    | SetNS(namespaceURI: string, name: string, value: string)
    | Remove(name: string)
    | RemoveNS(namespaceURI: string, name: string)

  function Step(a: Stores, op: Op): Stores {
    match op
    case Set(name, value) => SetAttribute(a, name, value)
    case SetNS(ns, name, value) => SetAttributeNS(a, ns, name, value).0
    case Remove(name) => RemoveAttribute(a, name)
    case RemoveNS(ns, name) => RemoveAttributeNS(a, ns, name)
  }

  /** No name that plain objects reject, no separator in a namespace. */
  predicate Ordinary(op: Op) {
    match op
    case Set(name, _) => NormalizeAttrName(name) != PROTO
    case SetNS(ns, name, _) => NormalizeAttrName(name) != PROTO && SEPARATOR !in ns
    case _ => true
  }

  function Run(a: Stores, ops: seq<Op>): Stores
    decreases |ops|
  {
    if ops == [] then a else Run(Step(a, ops[0]), ops[1..])
  }

  lemma StepKeepsAgree(a: Stores, op: Op)
    requires Agree(a) && NoSeparators(a) && Ordinary(op)
    ensures Agree(Step(a, op)) && NoSeparators(Step(a, op))
  {
    hide Agree, NormalizeAttrName, Key;
    match op
    case Set(name, value) =>
      SetKeepsAgree(a, name, value);
      NormalizeTwice(name);
      var n := NormalizeAttrName(name);
      if Key("", n) in a.byKey { OwnKeyOwnName(a, n); }
    case SetNS(ns, name, value) => SetNSKeepsAgree(a, ns, name, value);
    case Remove(name) => RemoveKeepsAgree(a, name);
    case RemoveNS(ns, name) => RemoveNSKeepsAgree(a, ns, name);
  }

  /** After any run of ordinary operations the two stores are in bijection. */
  lemma {:induction false} RunKeepsAgree(a: Stores, ops: seq<Op>)
    requires Agree(a) && NoSeparators(a) && forall i :: 0 <= i < |ops| ==> Ordinary(ops[i])
    ensures Agree(Run(a, ops)) && NoSeparators(Run(a, ops))
    decreases |ops|
  {
    hide Agree, NoSeparators, Step, Ordinary;
    if ops != [] {
      StepKeepsAgree(a, ops[0]);
      RunKeepsAgree(Step(a, ops[0]), ops[1..]);
    }
  }

  // ---------------------------------------------------------------- inputs that break the bijection

  const EMPTY := Stores(map[], map[])

  lemma PlainNameIsFixed(s: string)
    requires forall c :: c in s ==> !IsSpace(c) && !IsUpper(c)
    ensures Trim(s) == s && NormalizeAttrName(s) == s
  {
    TrimFixed(s);
    LowerFixed(s);
  }

  /** A plain object drops the assignment to `__proto__`, so its record has no stored name. */
  lemma ProtoIsNotStored(value: string)
    ensures Agree(EMPTY) && !Agree(SetAttribute(EMPTY, PROTO, value))
    ensures var r := SetAttributeNS(EMPTY, "", PROTO, value); r.1 == Done && !Agree(r.0)
  {
    hide Trim, NormalizeAttrName, ParseQualified, DropNamed;
    PlainNameIsFixed(PROTO);
    SetKeepsAgree(EMPTY, PROTO, value);
    SetNSKeepsAgree(EMPTY, "", PROTO, value);
    PlainAccepted(PROTO);
  }

  /** A separator in a namespace lets two names share a key: the flat entry of the first
      is left without a record. */
  lemma SeparatorOrphansName(v: string, w: string)
    ensures var (a, o) := SetAttributeNS(EMPTY, [SEPARATOR, 'a'], "b", v);
      o == Done && Agree(a) && !Agree(SetAttribute(a, ['a', SEPARATOR, 'b'], w))
  {
    hide Trim, NormalizeAttrName, ParseQualified, DropNamed, Agree, SetAttribute;
    var ns, name := [SEPARATOR, 'a'], ['a', SEPARATOR, 'b'];
    PlainNameIsFixed("b");
    PlainNameIsFixed(name);
    PlainAccepted("b");
    NothingAgrees();
    SetNSKeepsAgree(EMPTY, ns, "b", v);
    assert Key("", name) == Key(ns, "b");
    SetKeepsAgree(SetAttributeNS(EMPTY, ns, "b", v).0, name, w);
  }

  lemma NothingAgrees()
    ensures Agree(EMPTY)
  {
  }
}
