/** The host document as the engine sees it, and the helpers of
    src/dom-utils.js.

    The tree is a snapshot: node kinds and attribute lists, the parent
    relation, document order, and which node is `window.document`. `rank` is a model-only witness that the parent
    relation is acyclic (every parent ranks strictly below its child); a real
    DOM guarantees acyclicity by construction.
 */
module Dom {
  import opened Common
  import Names

  datatype Attr = Attr(name: string, value: string, namespace: Option<string>)

  /** `Element` nodes carry their local name and attribute list; a document
      is the only other kind the engine distinguishes. */
  datatype Node =
    | Element(localName: string, attributes: seq<Attr>)
    | Document
    | OtherNode

  datatype Tree = Tree(
    nodes: map<NodeId, Node>,
    parent: map<NodeId, NodeId>,
    rank: map<NodeId, nat>,
    order: seq<NodeId>,  // document order, used by selector queries
    next: NodeId,        // every allocated id is below `next`
    document: NodeId)    // `window.document`, the root selector queries search
  {
    predicate Valid() {
      && parent.Keys <= nodes.Keys
      && rank.Keys == nodes.Keys
      && (forall n | n in parent :: parent[n] in nodes && rank[parent[n]] < rank[n])
      && (forall n | n in nodes :: n < next)
    }

    predicate IsElement(n: NodeId) {
      n in nodes && nodes[n].Element?
    }
  }

  /** `a` is `n` or one of its ancestors. */
  predicate IsAncestorOrSelf(t: Tree, a: NodeId, n: NodeId)
    requires t.Valid() && n in t.nodes
    decreases t.rank[n]
  {
    a == n || (n in t.parent && IsAncestorOrSelf(t, a, t.parent[n]))
  }

  /** `findNodeRoot`: follow parents until a node without one. */
  function FindNodeRoot(t: Tree, n: NodeId): (r: NodeId)
    requires t.Valid() && n in t.nodes
    ensures r in t.nodes && r !in t.parent
    ensures IsAncestorOrSelf(t, r, n)
    decreases t.rank[n]
  {
    if n !in t.parent then n else FindNodeRoot(t, t.parent[n])
  }

  /** The parentless ancestor-or-self of a node is unique: it is the root. */
  lemma {:induction false} RootIsOnlyParentlessAncestor(t: Tree, a: NodeId, n: NodeId)
    requires t.Valid() && n in t.nodes
    requires IsAncestorOrSelf(t, a, n) && a !in t.parent
    ensures a == FindNodeRoot(t, n)
    decreases t.rank[n]
  {
    if a != n {
      RootIsOnlyParentlessAncestor(t, a, t.parent[n]);
    }
  }

  /** A node shares its root with its parent. */
  lemma RootOfChild(t: Tree, n: NodeId)
    requires t.Valid() && n in t.parent
    ensures FindNodeRoot(t, n) == FindNodeRoot(t, t.parent[n])
  {
  }

  /** `findShadowInclusiveRoot`: shadow roots are not followed, so it is the
      plain root. */
  function FindShadowInclusiveRoot(t: Tree, n: NodeId): (r: NodeId)
    requires t.Valid() && n in t.nodes
    ensures r == FindNodeRoot(t, n)
  {
    FindNodeRoot(t, n)
  }

  /** `isConnected`: the node's root is a document, any document. A
      parentless node is connected exactly when it is a document itself, and
      any other node exactly when its parent is. */
  function IsConnected(t: Tree, n: NodeId): (r: bool)
    requires t.Valid() && n in t.nodes
    ensures n !in t.parent ==> (r <==> t.nodes[n].Document?)
    ensures n in t.parent ==> r == IsConnected(t, t.parent[n])
    decreases t.rank[n]
  {
    t.nodes[FindNodeRoot(t, n)].Document?
  }

  /** A node is connected exactly when a parentless ancestor-or-self of it is
      a document. */
  lemma ConnectedIffDocumentAncestor(t: Tree, n: NodeId)
    requires t.Valid() && n in t.nodes
    ensures IsConnected(t, n) <==>
      exists a | a in t.nodes :: IsAncestorOrSelf(t, a, n) && a !in t.parent && t.nodes[a].Document?
  {
    var r := FindNodeRoot(t, n);
    forall a | a in t.nodes && IsAncestorOrSelf(t, a, n) && a !in t.parent
      ensures a == r
    {
      RootIsOnlyParentlessAncestor(t, a, n);
    }
  }

  /** `element.getAttribute(name)`: the value of the first attribute with
      that name. */
  function GetAttribute(attrs: seq<Attr>, name: string): (r: Option<string>)
    ensures r.None? <==> forall i | 0 <= i < |attrs| :: attrs[i].name != name
    ensures r.Some? ==> exists i | 0 <= i < |attrs| ::
      && attrs[i].name == name && attrs[i].value == r.value
      && forall j | 0 <= j < i :: attrs[j].name != name
  {
    if |attrs| == 0 then None
    else if attrs[0].name == name then Some(attrs[0].value)
    else GetAttribute(attrs[1..], name)
  }

  /** `element.setAttribute(name, value)`: overwrite the first attribute of
      that name, or append a new one without a namespace. */
  function SetAttribute(attrs: seq<Attr>, name: string, value: string): (r: seq<Attr>)
    ensures GetAttribute(r, name) == Some(value)
    ensures forall other | other != name :: GetAttribute(r, other) == GetAttribute(attrs, other)
    ensures |attrs| <= |r| <= |attrs| + 1
  {
    if |attrs| == 0 then [Attr(name, value, None)]
    else if attrs[0].name == name then [attrs[0].(value := value)] + attrs[1..]
    else [attrs[0]] + SetAttribute(attrs[1..], name, value)
  }

  /** The element's attribute list, empty for other nodes. */
  function AttributesOf(t: Tree, n: NodeId): seq<Attr> {
    if t.IsElement(n) then t.nodes[n].attributes else []
  }

  /** Set an attribute on an element of the tree; nothing else changes. */
  function SetNodeAttribute(t: Tree, n: NodeId, name: string, value: string): (t': Tree)
    requires t.IsElement(n)
    ensures t'.IsElement(n) && t'.nodes[n].localName == t.nodes[n].localName
    ensures GetAttribute(AttributesOf(t', n), name) == Some(value)
    ensures t'.nodes.Keys == t.nodes.Keys
    ensures forall m | m in t.nodes && m != n :: t'.nodes[m] == t.nodes[m]
    ensures t'.parent == t.parent && t'.rank == t.rank && t'.order == t.order && t'.next == t.next
    ensures t'.document == t.document
  {
    var e := t.nodes[n];
    t.(nodes := t.nodes[n := e.(attributes := SetAttribute(e.attributes, name, value))])
  }

  lemma SetNodeAttributeKeepsValid(t: Tree, n: NodeId, name: string, value: string)
    requires t.Valid() && t.IsElement(n)
    ensures SetNodeAttribute(t, n, name, value).Valid()
  {
  }

  /** The host's `document.createElement(localName)`: a fresh, parentless
      element with no attributes and a lower-cased local name (the document is
      an HTML document). */
  function HostCreateElement(t: Tree, localName: string): (out: (Tree, NodeId))
    requires t.Valid()
    ensures var (t', e) := out;
      && e !in t.nodes
      && t'.Valid()
      && t'.nodes == t.nodes[e := Element(Names.AsciiLower(localName), [])]
      && e !in t'.parent && t'.parent == t.parent
      && t'.order == t.order && t'.document == t.document
  {
    var e := t.next;
    (t.(nodes := t.nodes[e := Element(Names.AsciiLower(localName), [])], rank := t.rank[e := 0], next := e + 1), e)
  }

  /** A fresh element is its own root and so is not connected. */
  lemma FreshElementDisconnected(t: Tree, localName: string)
    requires t.Valid()
    ensures var (t', e) := HostCreateElement(t, localName);
      e in t'.nodes && !IsConnected(t', e)
  {
  }

  /** The selector `localName` (or `localName[is="name"]`) matches `n` inside
      `window.document`: an element of that tree, with that local name (HTML
      selectors ignore ASCII case) and, for the second form, that `is`
      attribute. Elements under another document do not match. */
  function MatchesSelector(t: Tree, n: NodeId, localName: string, isValue: Option<string>): (r: bool)
    requires t.Valid()
    ensures r ==> t.IsElement(n) && t.nodes[n].localName == Names.AsciiLower(localName)
    ensures r ==> FindNodeRoot(t, n) == t.document
    ensures r && t.nodes[t.document].Document? ==> IsConnected(t, n)
    ensures r && isValue.Some? ==> GetAttribute(t.nodes[n].attributes, "is") == isValue
  {
    && t.IsElement(n)
    && FindNodeRoot(t, n) == t.document
    && t.nodes[n].localName == Names.AsciiLower(localName)
    && (isValue.Some? ==> GetAttribute(t.nodes[n].attributes, "is") == isValue)
  }

  /** `window.document.querySelectorAll(selector)`: the matching nodes of the
      document, in document order. */
  function QuerySelectorAll(t: Tree, localName: string, isValue: Option<string>): (r: seq<NodeId>)
    requires t.Valid()
    ensures forall n :: n in r <==> n in t.order && MatchesSelector(t, n, localName, isValue)
    ensures r == FilterMatching(t, t.order, localName, isValue)
  {
    FilterMatching(t, t.order, localName, isValue)
  }

  /** Keep the nodes of `ns` that match, in the order of `ns`. */
  function FilterMatching(t: Tree, ns: seq<NodeId>, localName: string, isValue: Option<string>): (r: seq<NodeId>)
    requires t.Valid()
    ensures |r| <= |ns|
    ensures forall n :: n in r <==> n in ns && MatchesSelector(t, n, localName, isValue)
    ensures |ns| == 1 ==> r == (if MatchesSelector(t, ns[0], localName, isValue) then ns else [])
  {
    if |ns| == 0 then []
    else
      var rest := FilterMatching(t, ns[1..], localName, isValue);
      if MatchesSelector(t, ns[0], localName, isValue) then [ns[0]] + rest else rest
  }

  /** Filtering distributes over concatenation: the matches of `a + b` are
      those of `a` followed by those of `b`. With the one-node case above this
      pins the result down to the matching nodes, each as often and in the
      order it occurs in `ns`. */
  lemma {:induction false} FilterMatchingAppend(t: Tree, a: seq<NodeId>, b: seq<NodeId>, localName: string, isValue: Option<string>)
    requires t.Valid()
    ensures FilterMatching(t, a + b, localName, isValue) ==
      FilterMatching(t, a, localName, isValue) + FilterMatching(t, b, localName, isValue)
    decreases |a|
  {
    if |a| == 0 {
      assert a + b == b;
    } else {
      assert (a + b)[0] == a[0];
      assert (a + b)[1..] == a[1..] + b;
      FilterMatchingAppend(t, a[1..], b, localName, isValue);
    }
  }
}
