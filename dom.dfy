/** An abstract HTML tree with the navigation HtmlAgilityPack offers the scraper: child lists,
    `InnerText`, descendants in document order, attributes, parents and next siblings.
    Parsing markup into this tree is the library's business and is not modelled. */
module Dom {
  import opened Wrappers
  import opened Search

  datatype NodeKind = Document | Element | TextNode

  /** A node. `id` stands for the object's identity: HtmlAgilityPack compares nodes by reference,
      so two nodes with equal content but different `id`s are different nodes. Text nodes carry
      their raw (still entity-encoded) text; elements their lower-case tag name and attributes. */
  datatype Node = Node(
    id: nat,
    kind: NodeKind,
    name: string,
    attrs: map<string, string>,
    text: string,
    children: seq<Node>)

  predicate IsElement(n: Node) {
    n.kind == Element
  }

  /** `GetAttributeValue(key, "")`. */
  function Attr(n: Node, key: string): string {
    if key in n.attrs then n.attrs[key] else ""
  }

  /** `InnerText`: a text node's text, or the concatenated text of all descendant text nodes. */
  function InnerText(n: Node): string
    decreases n
  {
    if n.kind == TextNode then n.text else InnerTextOf(n.children)
  }

  function InnerTextOf(ns: seq<Node>): string
    decreases ns
  {
    if ns == [] then "" else InnerText(ns[0]) + InnerTextOf(ns[1..])
  }

  /** `Descendants()`: every node below `n`, in document (pre-)order. */
  function Descendants(n: Node): seq<Node>
    decreases n
  {
    DescendantsOf(n.children)
  }

  function DescendantsOf(ns: seq<Node>): seq<Node>
    decreases ns
  {
    if ns == [] then [] else [ns[0]] + Descendants(ns[0]) + DescendantsOf(ns[1..])
  }

  /** `Descendants(name)`: the descendant elements with the given tag name, in document order. */
  function DescendantsNamed(n: Node, name: string): (r: seq<Node>)
    ensures forall d :: d in r ==> IsElement(d) && d.name == name
  {
    FilterMembers(Descendants(n), (d: Node) => IsElement(d) && d.name == name);
    Filter(Descendants(n), (d: Node) => IsElement(d) && d.name == name)
  }

  /** `n == start || n.DescendantsAndSelf().Any(d => d == start)`, by identity. */
  predicate HoldsId(n: Node, id: nat)
    decreases n
  {
    n.id == id || exists i :: 0 <= i < |n.children| && HoldsId(n.children[i], id)
  }

  /** A node seen from where it sits: its `ParentNode` and the siblings that follow that parent
      (`parent.NextSibling`, `parent.NextSibling.NextSibling`, ...). */
  datatype Located = Located(node: Node, parent: Node, parentNext: seq<Node>)

  /** Every node of the document below `root`, with its position, in document order;
      the XPath `//x` selections the scraper makes filter this list. */
  function Locate(root: Node): seq<Located> {
    LocateIn(root, [], root.children)
  }

  /** The nodes under `kids`, the children of `parent` (whose own following siblings are
      `parentNext`), with their positions. */
  function LocateIn(parent: Node, parentNext: seq<Node>, kids: seq<Node>): (r: seq<Located>)
    requires forall k :: k in kids ==> k in parent.children
    ensures forall l :: l in r ==> l.node in l.parent.children
    decreases kids
  {
    if kids == [] then []
    else
      [Located(kids[0], parent, parentNext)]
      + LocateIn(kids[0], kids[1..], kids[0].children)
      + LocateIn(parent, parentNext, kids[1..])
  }
}
