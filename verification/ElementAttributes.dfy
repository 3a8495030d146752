/** The attribute stores of one node as the source updates them. */
module ElementAttributes {
  import opened Options
  import opened Text
  import opened Attributes

  class ElementAttributes {
    const isElement: bool
    var attributeStore: map<string, string>
    var attributeNSStore: map<string, Record>

    constructor (isElement: bool)
      ensures this.isElement == isElement && Value() == Stores(map[], map[])
    {
      this.isElement := isElement;
      attributeStore := map[];
      attributeNSStore := map[];
    }

    function Value(): Stores
      reads this
    {
      Stores(attributeStore, attributeNSStore)
    }

    /** The loops that delete records of a name, sparing one key. */
    method DeleteRecordsNamed(name: string, except: string)
      modifies this`attributeNSStore
      ensures attributeNSStore == DropNamed(old(attributeNSStore), name, except)
    {
      ghost var m := attributeNSStore;
      var keys := attributeNSStore.Keys;
      ghost var done: set<string> := {};
      while keys != {}
        invariant keys + done == m.Keys && keys !! done
        invariant attributeNSStore == map k | k in m && !(k in done && k != except && m[k].name == name) :: m[k]
        decreases |keys|
      {
        var key :| key in keys;
        keys := keys - {key};
        done := done + {key};
        if key != except && key in attributeNSStore && attributeNSStore[key].name == name {
          attributeNSStore := attributeNSStore - {key};
        }
      }
    }

    /** Assigning to a property of the flat store object. */
    method Store(name: string, value: string)
      modifies this`attributeStore
      ensures attributeStore == Put(old(attributeStore), name, value)
    {
      if name != PROTO { attributeStore := attributeStore[name := value]; }
    }

    /** `setNodeAttribute` */
    method SetNodeAttribute(name: string, value: string)
      modifies this
      ensures Value() == if isElement then SetAttribute(old(Value()), name, value) else old(Value())
    {
      hide NormalizeAttrName, DropNamed, Put, Key;
      if !isElement { return; }
      var normalizedName := NormalizeAttrName(name);
      if normalizedName == "" { return; }
      var localName := NormalizeAttrName(normalizedName);
      if localName == "" { return; }
      Store(normalizedName, value);
      var nullNsKey := Key("", localName);
      DeleteRecordsNamed(normalizedName, nullNsKey);
      attributeNSStore := attributeNSStore[nullNsKey := Record("", "", localName, normalizedName, value)];
    }

    /** `setNodeAttributeNS` */
    method SetNodeAttributeNS(namespaceURI: string, qualifiedName: string, value: string) returns (r: AttributeOutcome)
      modifies this
      ensures (Value(), r) == if isElement then SetAttributeNS(old(Value()), namespaceURI, qualifiedName, value) else (old(Value()), Done)
    {
      hide Trim, NormalizeAttrName, DropNamed, Put, Key, ParseQualified;
      if !isElement { return Done; }
      var raw := Trim(qualifiedName);
      var parsed := ParseQualified(raw);
      if parsed.Refused? { return parsed.error; }
      if parsed.prefix != "" && namespaceURI == "" { return NamespaceError; }
      var normalizedName := NormalizeAttrName(raw);
      if normalizedName == "" { return Done; }
      var localName := if namespaceURI == "" then NormalizeAttrName(parsed.localName) else parsed.localName;
      if localName == "" { return Done; }
      var nsKey := Key(namespaceURI, localName);
      if nsKey in attributeNSStore {
        var oldRecord := attributeNSStore[nsKey];
        if oldRecord.name != "" && oldRecord.name != normalizedName {
          attributeStore := attributeStore - {oldRecord.name};
        }
      }
      DeleteRecordsNamed(normalizedName, nsKey);
      Store(normalizedName, value);
      attributeNSStore := attributeNSStore[nsKey := Record(namespaceURI, parsed.prefix, localName, normalizedName, value)];
      return Done;
    }

    /** `getNodeAttribute` */
    method GetNodeAttribute(name: string) returns (r: Option<string>)
      ensures r == if isElement then GetAttribute(Value(), name) else None
    {
      hide NormalizeAttrName;
      if !isElement { return None; }
      var normalizedName := NormalizeAttrName(name);
      if normalizedName == "" || normalizedName !in attributeStore { return None; }
      return Some(attributeStore[normalizedName]);
    }

    /** `getNodeAttributeNS` */
    method GetNodeAttributeNS(namespaceURI: string, localName: string) returns (r: Option<string>)
      ensures r == if isElement then GetAttributeNS(Value(), namespaceURI, localName) else None
    {
      hide NormalizeAttrName, Key;
      if !isElement { return None; }
      var normalizedLocalName := if namespaceURI == "" then NormalizeAttrName(localName) else localName;
      if normalizedLocalName == "" { return None; }
      var nsKey := Key(namespaceURI, normalizedLocalName);
      if nsKey in attributeNSStore { return Some(attributeNSStore[nsKey].value); }
      return None;
    }

    /** `removeNodeAttribute` */
    method RemoveNodeAttribute(name: string)
      modifies this
      ensures Value() == if isElement then RemoveAttribute(old(Value()), name) else old(Value())
    {
      hide NormalizeAttrName;
      if !isElement { return; }
      var normalizedName := NormalizeAttrName(name);
      if normalizedName == "" || normalizedName !in attributeStore { return; }
      attributeStore := attributeStore - {normalizedName};
      ghost var m := attributeNSStore;
      var keys := attributeNSStore.Keys;
      ghost var done: set<string> := {};
      while keys != {}
        invariant keys + done == m.Keys && keys !! done
        invariant attributeStore == old(attributeStore) - {normalizedName}
        invariant attributeNSStore == map k | k in m && !(k in done && m[k].name == normalizedName) :: m[k]
        decreases |keys|
      {
        var key :| key in keys;
        keys := keys - {key};
        done := done + {key};
        if key in attributeNSStore && attributeNSStore[key].name == normalizedName {
          attributeNSStore := attributeNSStore - {key};
        }
      }
    }

    /** `removeNodeAttributeNS` */
    method RemoveNodeAttributeNS(namespaceURI: string, localName: string)
      modifies this
      ensures Value() == if isElement then RemoveAttributeNS(old(Value()), namespaceURI, localName) else old(Value())
    {
      hide NormalizeAttrName, Key;
      if !isElement { return; }
      var normalizedLocalName := if namespaceURI == "" then NormalizeAttrName(localName) else localName;
      if normalizedLocalName == "" { return; }
      var nsKey := Key(namespaceURI, normalizedLocalName);
      if nsKey !in attributeNSStore { return; }
      var record := attributeNSStore[nsKey];
      attributeNSStore := attributeNSStore - {nsKey};
      if record.name != "" { attributeStore := attributeStore - {record.name}; }
    }
  }
}
