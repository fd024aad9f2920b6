/** The abstract document the extraction rules read: an element tree with
    text and comment leaves, and the handful of location-path queries the
    extraction issues against it (child steps from the document element,
    the `*` wildcard, `//name`, and relative child lookups). Parsing and the
    general XPath engine are not part of this model. */
module Xml {
  import opened Collections

  datatype XmlNode =
    | Element(tag: string, children: seq<XmlNode>)
    | Text(content: string)
    | Comment(content: string)

  /** `getTextContent()`: the concatenated text below a node; comments
      inside an element contribute nothing. */
  function TextContent(n: XmlNode): string
    decreases n, 1
  {
    match n
    case Element(_, cs) => ChildrenText(cs)
    case Text(t) => t
    case Comment(t) => t
  }

  function ChildrenText(cs: seq<XmlNode>): string
    decreases cs, 0
  {
    if cs == [] then [] else (if cs[0].Comment? then [] else TextContent(cs[0])) + ChildrenText(cs[1..])
  }

  /** `getNodeName()` of an element; other nodes have no tag here. */
  function TagOf(n: XmlNode): string
  {
    if n.Element? then n.tag else ""
  }

  /** An element named `t`. */
  predicate IsElement(n: XmlNode, t: string)
  {
    n.Element? && n.tag == t
  }

  /** The child elements of `n` named `t`, in document order. */
  function ChildElements(n: XmlNode, t: string): (r: seq<XmlNode>)
    ensures forall k :: 0 <= k < |r| ==> IsElement(r[k], t)
    ensures forall x :: x in r <==> n.Element? && x in n.children && IsElement(x, t)
  {
    if n.Element? then Filter(n.children, (x: XmlNode) => IsElement(x, t)) else []
  }

  /** All child elements of `n`, in document order (the `*` step). */
  function AllChildElements(n: XmlNode): (r: seq<XmlNode>)
    ensures forall k :: 0 <= k < |r| ==> r[k].Element?
    ensures forall x :: x in r <==> n.Element? && x in n.children && x.Element?
  {
    if n.Element? then Filter(n.children, (x: XmlNode) => x.Element?) else []
  }

  /** The wildcard step `*` applied to a node list: every child element of
      every node, in order. */
  function StepAny(ns: seq<XmlNode>): (r: seq<XmlNode>)
    ensures forall k :: 0 <= k < |r| ==> r[k].Element?
  {
    if ns == [] then [] else AllChildElements(ns[0]) + StepAny(ns[1..])
  }

  /** One child step named `t` applied to a node list. */
  function Step(ns: seq<XmlNode>, t: string): seq<XmlNode>
  {
    ConcatMap(ns, (n: XmlNode) => ChildElements(n, t))
  }

  /** Several child steps applied in turn. */
  function Steps(ns: seq<XmlNode>, path: seq<string>): seq<XmlNode>
    decreases |path|
  {
    if path == [] then ns else Steps(Step(ns, path[0]), path[1..])
  }

  /** The absolute path `/path[0]/path[1]/…` evaluated on the document whose
      element is `doc`: the matching elements in document order. */
  function Select(doc: XmlNode, path: seq<string>): (r: seq<XmlNode>)
    requires |path| > 0
    ensures |path| == 1 ==> r == (if IsElement(doc, path[0]) then [doc] else [])
  {
    Steps(if IsElement(doc, path[0]) then [doc] else [], path[1..])
  }

  /** The string value of a node list: the text of its first node, or the
      empty string when it is empty. */
  function StringValue(ns: seq<XmlNode>): (r: string)
    ensures ns == [] ==> r == []
  {
    if ns == [] then "" else TextContent(ns[0])
  }

  /** `xpath.evaluate(path, doc)`: the string value of an absolute path. */
  function Value(doc: XmlNode, path: seq<string>): string
    requires |path| > 0
  {
    StringValue(Select(doc, path))
  }

  /** The first child element of `n` named `t`. */
  function FirstChild(n: XmlNode, t: string): (r: Option<XmlNode>)
    ensures r.Some? ==> IsElement(r.value, t) && n.Element? && r.value in n.children
    ensures r.None? <==> ChildElements(n, t) == []
  {
    var cs := ChildElements(n, t);
    if cs == [] then None else Some(cs[0])
  }

  /** `xpath.evaluate(t, node)` for a relative child step. */
  function RelValue(n: XmlNode, t: string): (r: string)
    ensures FirstChild(n, t).None? ==> r == ""
    ensures FirstChild(n, t).Some? ==> r == TextContent(FirstChild(n, t).value)
  {
    match FirstChild(n, t)
    case Some(c) => TextContent(c)
    case None => ""
  }

  /** The elements of the subtree rooted at `n`, in document order. */
  function Descendants(n: XmlNode): (r: seq<XmlNode>)
    ensures forall k :: 0 <= k < |r| ==> r[k].Element?
    ensures n.Element? ==> |r| > 0 && r[0] == n
    decreases n, 1
  {
    match n
    case Element(_, cs) => [n] + DescendantsOf(cs)
    case _ => []
  }

  function DescendantsOf(cs: seq<XmlNode>): (r: seq<XmlNode>)
    ensures forall k :: 0 <= k < |r| ==> r[k].Element?
    decreases cs, 0
  {
    if cs == [] then [] else Descendants(cs[0]) + DescendantsOf(cs[1..])
  }

  /** `//t` evaluated on the document whose element is `doc`. */
  function AllNamed(doc: XmlNode, t: string): (r: seq<XmlNode>)
    ensures forall k :: 0 <= k < |r| ==> IsElement(r[k], t)
    ensures forall x :: x in r <==> x in Descendants(doc) && IsElement(x, t)
  {
    Filter(Descendants(doc), (x: XmlNode) => IsElement(x, t))
  }
}
