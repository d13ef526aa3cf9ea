/**
 * The document tree the DOM services work on, reduced to what they look at: text
 * nodes, elements with a tag name and children, and every other kind of node
 * (comments, processing instructions) as an opaque leaf.
 */
module Dom {
  import opened Wrappers

  datatype Node =
    | TextNode(content: string)
    | Element(tag: string, children: seq<Node>)
    | OtherNode

  /** The child nodes; only an element has any. */
  function Children(n: Node): seq<Node>
  {
    if n.Element? then n.children else []
  }

  /** The node reached from `n` by following the child indices in `address`. */
  function At(n: Node, address: seq<nat>): Option<Node>
    decreases |address|
  {
    if address == [] then Some(n)
    else if address[0] < |Children(n)| then At(Children(n)[address[0]], address[1..])
    else None
  }

  /** The address leads to a text node. */
  predicate IsTextAt(n: Node, address: seq<nat>)
  {
    At(n, address).Some? && At(n, address).value.TextNode?
  }

  /** The tags the children of `n` have above them. */
  function Within(n: Node, above: seq<string>): seq<string>
  {
    if n.Element? then above + [n.tag] else above
  }

  /** The tags above the node at `address`, given the tags above `n`. */
  function AncestorsAt(n: Node, above: seq<string>, address: seq<nat>): seq<string>
    decreases |address|
  {
    if address == [] || address[0] >= |Children(n)| then above
    else AncestorsAt(Children(n)[address[0]], Within(n, above), address[1..])
  }

  /** The tree with all text erased: what a rewrite of text contents must keep. */
  function Shape(n: Node): (r: Node)
    ensures r.TextNode? <==> n.TextNode?
    ensures r.Element? <==> n.Element?
    decreases n
  {
    match n
    case TextNode(_) => TextNode("")
    case Element(tag, children) => Element(tag, seq(|children|, i requires 0 <= i < |children| => Shape(children[i])))
    case OtherNode => OtherNode
  }

  /**
   * Setting the `textContent` of the text node at `address`. Every other node keeps its
   * content and the tree keeps its shape.
   */
  function SetText(n: Node, address: seq<nat>, s: string): (r: Node)
    requires IsTextAt(n, address)
    ensures Shape(r) == Shape(n)
    ensures At(r, address) == Some(TextNode(s))
    decreases |address|
  {
    if address == [] then TextNode(s)
    else
      var i := address[0];
      var child := SetText(n.children[i], address[1..], s);
      var r := Element(n.tag, n.children[i := child]);
      assert Shape(r).children == Shape(n).children;
      r
  }

  /** Every other text node keeps its content. */
  lemma {:induction false} SetTextElsewhere(n: Node, address: seq<nat>, other: seq<nat>, s: string)
    requires IsTextAt(n, address) && IsTextAt(n, other) && other != address
    ensures At(SetText(n, address, s), other) == At(n, other)
    decreases |address|
  {
    assert address != [] && other != [];
    if address[0] == other[0] {
      assert address[1..] != other[1..];
      SetTextElsewhere(n.children[address[0]], address[1..], other[1..], s);
    }
  }
}
