/** The node records behind the hand-written DOM.

    The JavaScript keeps one state record per node object in a WeakMap; a `Node`
    here is that record together with the object's identity.  The node type and
    the names are fixed when the node is created, so they are constants.
 */
module DomNodes {
  import opened Text

  const ELEMENT := 1
  const TEXT := 3
  const COMMENT := 8
  const DOCUMENT := 9
  const FRAGMENT := 11

  type Style = map<string, string>

  datatype Rect = Rect(left: real, top: real, width: real, height: real)

  /** Element styles arranged as the elements are: the layout engine's input. */
  datatype StyleTree = StyleTree(style: Style, kids: seq<StyleTree>)

  /** A laid-out tree: one box per element, named by its path of child positions. */
  datatype LayoutTree = LayoutTree(boxes: map<seq<nat>, Rect>)

  datatype Cache = NoCache | Cached(layout: LayoutTree)

  datatype MaybeRect = NoRect | SomeRect(rect: Rect)

  class Node {
    const nodeType: int
    const localName: string
    const tagName: string

    var parentNode: Node?
    var childNodes: seq<Node>
    var ownerDocument: Node?
    var textContent: string

    // Documents only.
    var docId: nat
    var taskId: string
    var ownedNodes: set<Node>

    var isReleased: bool
    var styleStore: Style
    var layoutDirty: bool
    var layoutRect: MaybeRect
    var dodTree: Cache
    var dodNodeId: seq<nat>

    constructor (nodeType: int, localName: string, tagName: string)
      ensures this.nodeType == nodeType && this.localName == localName && this.tagName == tagName
      ensures parentNode == null && childNodes == [] && ownerDocument == null && textContent == ""
      ensures docId == 0 && taskId == "" && ownedNodes == {} && !isReleased
      ensures styleStore == map[] && dodTree == NoCache && dodNodeId == []
    {
      this.nodeType := nodeType;
      this.localName := localName;
      this.tagName := tagName;
      parentNode := null;
      childNodes := [];
      ownerDocument := null;
      textContent := "";
      docId := 0;
      taskId := "";
      ownedNodes := {};
      isReleased := false;
      styleStore := map[];
      layoutDirty := true;
      layoutRect := NoRect;
      dodTree := NoCache;
      dodNodeId := [];
    }
  }

  /** The name test `String(localName || tagName || '').toLowerCase() === 'html'`. */
  predicate IsHtml(n: Node) {
    n.nodeType == ELEMENT && Lower(if n.localName != "" then n.localName else n.tagName) == "html"
  }
}
