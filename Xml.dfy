/** The part of LINQ to XML the TFS translator reads: elements, their text, and lookups by name. */
module Xml {
  import opened Wrappers

  /** A node of a parsed document: a text node or an element with its child nodes. */
  datatype XNode = XText(text: string) | XElement(name: string, nodes: seq<XNode>)

  /** A parsed document; its root is an element. */
  datatype XDocument = XDocument(root: XNode)

  predicate IsNamed(n: XNode, name: string) {
    n.XElement? && n.name == name
  }

  /** An element named `name` is `n` itself or lies anywhere below it. */
  predicate Occurs(n: XNode, name: string)
    decreases n
  {
    IsNamed(n, name) || (n.XElement? && exists k :: 0 <= k < |n.nodes| && Occurs(n.nodes[k], name))
  }

  /** `XElement.Value`: the text of every text node below the node, in document order. */
  function Value(n: XNode): (r: string)
    ensures n.XText? ==> r == n.text
    ensures n.XElement? && n.nodes == [] ==> r == ""
    ensures n.XElement? && |n.nodes| == 1 && n.nodes[0].XText? ==> r == n.nodes[0].text
    decreases n
  {
    match n
    case XText(t) => t
    case XElement(_, nodes) =>
      if |nodes| == 1 && nodes[0].XText? then
        // the same as ValueOfAll(nodes) for a lone text child
        assert nodes[1..] == [] && ValueOfAll(nodes) == Value(nodes[0]) + ValueOfAll(nodes[1..]);
        nodes[0].text
      else
        ValueOfAll(nodes)
  }

  function ValueOfAll(nodes: seq<XNode>): string
    decreases nodes
  {
    if nodes == [] then "" else Value(nodes[0]) + ValueOfAll(nodes[1..])
  }

  /** The position of the first element named `name` among `nodes`, or `|nodes|` when there is none. */
  function FirstNamed(nodes: seq<XNode>, name: string): (k: nat)
    ensures k <= |nodes|
    ensures forall j :: 0 <= j < k ==> !IsNamed(nodes[j], name)
    ensures k < |nodes| ==> IsNamed(nodes[k], name)
  {
    if nodes == [] then 0
    else if IsNamed(nodes[0], name) then 0
    else 1 + FirstNamed(nodes[1..], name)
  }

  /** `e.Element(name)`: the first child element of `e` named `name`, or null. */
  function Element(e: XNode, name: string): (r: Option<XNode>)
    requires e.XElement?
    ensures r.Some? ==> IsNamed(r.value, name) && r.value in e.nodes
    ensures r.Some? ==> exists k :: 0 <= k < |e.nodes| && e.nodes[k] == r.value &&
                                   forall j :: 0 <= j < k ==> !IsNamed(e.nodes[j], name)
    ensures r.None? <==> forall n :: n in e.nodes ==> !IsNamed(n, name)
  {
    var k := FirstNamed(e.nodes, name);
    if k < |e.nodes| then Some(e.nodes[k]) else None
  }

  /** The elements named `name` at or below `n`, in document order (an element before its children). */
  function DescendantsAndSelf(n: XNode, name: string): (r: seq<XNode>)
    ensures forall k :: 0 <= k < |r| ==> IsNamed(r[k], name)
    ensures IsNamed(n, name) ==> |r| > 0 && r[0] == n
    decreases n
  {
    match n
    case XText(_) => []
    case XElement(tag, nodes) =>
      (if tag == name then [n] else []) + DescendantsOfAll(nodes, name)
  }

  function DescendantsOfAll(nodes: seq<XNode>, name: string): (r: seq<XNode>)
    ensures forall k :: 0 <= k < |r| ==> IsNamed(r[k], name)
    decreases nodes
  {
    if nodes == [] then [] else DescendantsAndSelf(nodes[0], name) + DescendantsOfAll(nodes[1..], name)
  }

  /** `document.Descendants(name)`: every element named `name` in the document, the root included. */
  function Descendants(doc: XDocument, name: string): (r: seq<XNode>)
    ensures forall k :: 0 <= k < |r| ==> IsNamed(r[k], name)
    ensures |r| == 0 <==> !Occurs(doc.root, name)
    ensures IsNamed(doc.root, name) ==> r[0] == doc.root
  {
    DescendantsAndSelfEmpty(doc.root, name);
    DescendantsAndSelf(doc.root, name)
  }

  /** Text concatenates in document order. */
  lemma {:induction false} ValueOfAllAppend(a: seq<XNode>, b: seq<XNode>)
    ensures ValueOfAll(a + b) == ValueOfAll(a) + ValueOfAll(b)
    decreases |a|
  {
    if a == [] {
      assert a + b == b;
    } else {
      assert (a + b)[0] == a[0] && (a + b)[1..] == a[1..] + b;
      ValueOfAllAppend(a[1..], b);
      calc {
        ValueOfAll(a + b);
        Value(a[0]) + ValueOfAll(a[1..] + b);
        Value(a[0]) + (ValueOfAll(a[1..]) + ValueOfAll(b));
        (Value(a[0]) + ValueOfAll(a[1..])) + ValueOfAll(b);
      }
    }
  }

  /** Nothing is found below `n` exactly when no element of that name occurs there, at any depth. */
  lemma {:induction false} DescendantsAndSelfEmpty(n: XNode, name: string)
    ensures |DescendantsAndSelf(n, name)| == 0 <==> !Occurs(n, name)
    decreases n
  {
    match n
    case XText(_) =>
    case XElement(_, nodes) => DescendantsOfAllEmpty(nodes, name);
  }

  lemma {:induction false} DescendantsOfAllEmpty(nodes: seq<XNode>, name: string)
    ensures |DescendantsOfAll(nodes, name)| == 0 <==> forall k :: 0 <= k < |nodes| ==> !Occurs(nodes[k], name)
    decreases nodes
  {
    if nodes != [] {
      DescendantsAndSelfEmpty(nodes[0], name);
      DescendantsOfAllEmpty(nodes[1..], name);
      assert forall k :: 1 <= k < |nodes| ==> nodes[k] == nodes[1..][k - 1];
    }
  }

  /** An element named `name` that is a child of a descendant is itself among the descendants. */
  lemma {:induction false} ChildIsDescendant(n: XNode, child: XNode, name: string)
    requires n.XElement? && child in n.nodes && IsNamed(child, name)
    ensures child in DescendantsAndSelf(n, name)
  {
    var k :| 0 <= k < |n.nodes| && n.nodes[k] == child;
    InDescendantsOfAll(n.nodes, k, name);
  }

  lemma {:induction false} InDescendantsOfAll(nodes: seq<XNode>, k: nat, name: string)
    requires k < |nodes| && IsNamed(nodes[k], name)
    ensures nodes[k] in DescendantsOfAll(nodes, name)
    decreases k
  {
    if k == 0 {
      assert DescendantsAndSelf(nodes[0], name)[0] == nodes[0];
    } else {
      InDescendantsOfAll(nodes[1..], k - 1, name);
    }
  }
}
