/**
 * The XML document as an arena of nodes, and the node helpers of
 * JRun/src/Extensions.cs: child selection by tag, attribute get/set and the
 * debug name used in error paths.
 */
module XmlTree {
  import opened Wrappers

  /** A node's position in the arena. */
  type NodeId = nat

  /**
   * One node of the document. `attributes` is None for nodes that have no
   * attribute collection (the document node, text and comment nodes).
   * `innerText` is the node's `InnerText` as the XML loader computes it.
   */
  datatype XmlNode = XmlNode(
    name: string,
    attributes: Option<map<string, string>>,
    children: seq<NodeId>,
    parent: Option<NodeId>,
    innerText: string)

  /**
   * A loaded document: the nodes in document order and the index of the
   * document element. Parents precede their children, so walking parent
   * links always terminates.
   */
  datatype Tree = Tree(nodes: seq<XmlNode>, documentElement: NodeId) {
    ghost predicate Valid() {
      && documentElement < |nodes|
      && (forall i, k :: 0 <= i < |nodes| && 0 <= k < |nodes[i].children| ==> nodes[i].children[k] < |nodes|)
      && (forall i :: 0 <= i < |nodes| && nodes[i].parent.Some? ==> nodes[i].parent.value < i)
    }

    ghost predicate Has(n: NodeId) {
      n < |nodes|
    }
  }

  /** `GetAttributeValue`: the attribute's value, or None when absent. */
  function GetAttributeValue(node: XmlNode, attribName: string): (r: Option<string>)
    ensures r.Some? <==> node.attributes.Some? && attribName in node.attributes.value
    ensures r.Some? ==> r.value == node.attributes.value[attribName]
  {
    if node.attributes.Some? && attribName in node.attributes.value
    then Some(node.attributes.value[attribName])
    else None
  }

  /** The node after `SetAttributeValue(node, attribName, attribValue)`. */
  function WithAttribute(node: XmlNode, attribName: string, attribValue: string): XmlNode {
    match node.attributes
    case None => node
    case Some(attrs) => node.(attributes := Some(attrs[attribName := attribValue]))
  }

  /** Reading back an attribute after setting it; nothing else about the node changes. */
  lemma SetThenGet(node: XmlNode, attribName: string, attribValue: string, other: string)
    requires other != attribName
    ensures node.attributes.Some? ==> GetAttributeValue(WithAttribute(node, attribName, attribValue), attribName) == Some(attribValue)
    ensures node.attributes.None? ==> WithAttribute(node, attribName, attribValue) == node
    ensures GetAttributeValue(WithAttribute(node, attribName, attribValue), other) == GetAttributeValue(node, other)
    ensures WithAttribute(node, attribName, attribValue).(attributes := node.attributes) == node
  {
  }

  /** `GetDebugName`: the `name` attribute whenever present (even if empty), else the tag name. */
  function GetDebugName(node: XmlNode): (r: string)
    ensures GetAttributeValue(node, "name").Some? ==> r == GetAttributeValue(node, "name").value
    ensures GetAttributeValue(node, "name").None? ==> r == node.name
  {
    var name := GetAttributeValue(node, "name");
    if name.None? then node.name else name.value
  }

  ghost predicate SubsequenceOf<T>(a: seq<T>, b: seq<T>)
    decreases |b|
  {
    a == [] || (b != [] && if a[0] == b[0] then SubsequenceOf(a[1..], b[1..]) else SubsequenceOf(a, b[1..]))
  }

  /** The members of `cs` whose tag is `tag`, in their order in `cs`. */
  function WithTag(t: Tree, cs: seq<NodeId>, tag: string): (r: seq<NodeId>)
    requires forall k :: 0 <= k < |cs| ==> cs[k] < |t.nodes|
    ensures forall k :: 0 <= k < |r| ==> r[k] < |t.nodes|
  {
    if cs == [] then []
    else if t.nodes[cs[0]].name == tag then [cs[0]] + WithTag(t, cs[1..], tag)
    else WithTag(t, cs[1..], tag)
  }

  /** Filtering keeps exactly the members with the tag, in their original order. */
  lemma {:induction false} WithTagExactly(t: Tree, cs: seq<NodeId>, tag: string)
    requires forall k :: 0 <= k < |cs| ==> cs[k] < |t.nodes|
    ensures forall c :: c in WithTag(t, cs, tag) <==> c in cs && t.nodes[c].name == tag
    ensures SubsequenceOf(WithTag(t, cs, tag), cs)
  {
    if cs != [] {
      WithTagExactly(t, cs[1..], tag);
      var rest := WithTag(t, cs[1..], tag);
      if t.nodes[cs[0]].name == tag {
        assert ([cs[0]] + rest)[1..] == rest;
      } else if rest != [] {
        assert rest[0] in cs[1..];
      }
    }
  }

  /** What `SelectXmlNodes(tag)` yields for a plain tag: the direct children with that tag. */
  function ChildrenNamed(t: Tree, n: NodeId, tag: string): (r: seq<NodeId>)
    requires t.Valid() && t.Has(n)
    ensures forall k :: 0 <= k < |r| ==> r[k] < |t.nodes|
  {
    WithTag(t, t.nodes[n].children, tag)
  }

  /** The first member of `cs` whose tag is `tag`, as an index into `cs`. */
  function FirstWithTag(t: Tree, cs: seq<NodeId>, tag: string): (r: Option<nat>)
    requires forall k :: 0 <= k < |cs| ==> cs[k] < |t.nodes|
    ensures r.Some? ==> r.value < |cs| && t.nodes[cs[r.value]].name == tag
    ensures r.Some? ==> forall k :: 0 <= k < r.value ==> t.nodes[cs[k]].name != tag
    ensures r.None? ==> forall k :: 0 <= k < |cs| ==> t.nodes[cs[k]].name != tag
  {
    if cs == [] then None
    else if t.nodes[cs[0]].name == tag then Some(0)
    else match FirstWithTag(t, cs[1..], tag)
      case None => None
      case Some(k) => Some(k + 1)
  }

  /** `SelectSingleNode(tag)` for a plain tag: the first direct child with that tag. */
  function FirstChildNamed(t: Tree, n: NodeId, tag: string): (r: Option<NodeId>)
    requires t.Valid() && t.Has(n)
    ensures r.None? ==> forall k :: 0 <= k < |t.nodes[n].children| ==> t.nodes[t.nodes[n].children[k]].name != tag
    ensures r.Some? ==> exists k :: 0 <= k < |t.nodes[n].children| && t.nodes[n].children[k] == r.value
                          && t.nodes[r.value].name == tag
                          && forall j :: 0 <= j < k ==> t.nodes[t.nodes[n].children[j]].name != tag
    ensures r.Some? ==> r.value < |t.nodes|
  {
    match FirstWithTag(t, t.nodes[n].children, tag)
    case None => None
    case Some(k) => Some(t.nodes[n].children[k])
  }

  lemma WithTagStep(t: Tree, cs: seq<NodeId>, i: nat, tag: string)
    requires i < |cs| && forall k :: 0 <= k < |cs| ==> cs[k] < |t.nodes|
    ensures WithTag(t, cs[i..], tag) == (if t.nodes[cs[i]].name == tag then [cs[i]] else []) + WithTag(t, cs[i + 1..], tag)
  {
    assert cs[i..][1..] == cs[i + 1..];
  }

  /** One step of the filtering loop: `r` followed by what is left to filter is the whole filtered list. */
  lemma SelectStep(t: Tree, cs: seq<NodeId>, i: nat, tag: string, r: seq<NodeId>)
    requires i < |cs| && forall k :: 0 <= k < |cs| ==> cs[k] < |t.nodes|
    requires r + WithTag(t, cs[i..], tag) == WithTag(t, cs, tag)
    ensures t.nodes[cs[i]].name == tag ==> (r + [cs[i]]) + WithTag(t, cs[i + 1..], tag) == WithTag(t, cs, tag)
    ensures t.nodes[cs[i]].name != tag ==> r + WithTag(t, cs[i + 1..], tag) == WithTag(t, cs, tag)
  {
    WithTagStep(t, cs, i, tag);
    if t.nodes[cs[i]].name == tag {
      assert (r + [cs[i]]) + WithTag(t, cs[i + 1..], tag) == r + ([cs[i]] + WithTag(t, cs[i + 1..], tag));
    }
  }

  /** `SelectXmlNodes(node, tag)` as the filtering loop over the child list. */
  method SelectXmlNodes(t: Tree, n: NodeId, tag: string) returns (r: seq<NodeId>)
    requires t.Valid() && t.Has(n)
    ensures r == ChildrenNamed(t, n, tag)
  {
    var cs := t.nodes[n].children;
    assert forall k :: 0 <= k < |cs| ==> cs[k] < |t.nodes|;
    r := [];
    var i := 0;
    assert cs[0..] == cs;
    while i < |cs|
      invariant 0 <= i <= |cs|
      invariant r + WithTag(t, cs[i..], tag) == WithTag(t, cs, tag)
    {
      SelectStep(t, cs, i, tag, r);
      if t.nodes[cs[i]].name == tag {
        r := r + [cs[i]];
      }
      i := i + 1;
    }
    assert cs[i..] == [];
  }

  /**
   * A loaded document whose nodes' attribute collections can be written in
   * place. Resolution reads a snapshot (`Tree`) and never writes.
   */
  class XmlDocument {
    var nodes: seq<XmlNode>
    const documentElement: NodeId

    constructor (t: Tree)
      ensures nodes == t.nodes && documentElement == t.documentElement
    {
      nodes := t.nodes;
      documentElement := t.documentElement;
    }

    function Snapshot(): Tree
      reads this
    {
      Tree(nodes, documentElement)
    }

    /** `SetAttributeValue`: creates or overwrites the attribute; no-op without an attribute collection. */
    method SetAttributeValue(n: NodeId, attribName: string, attribValue: string)
      requires n < |nodes|
      modifies this
      ensures nodes == old(nodes)[n := WithAttribute(old(nodes)[n], attribName, attribValue)]
      ensures old(nodes)[n].attributes.Some? ==> GetAttributeValue(nodes[n], attribName) == Some(attribValue)
      ensures forall a :: a != attribName ==> GetAttributeValue(nodes[n], a) == GetAttributeValue(old(nodes)[n], a)
    {
      var node := nodes[n];
      if node.attributes.Some? {
        var attrs := node.attributes.value;
        nodes := nodes[n := node.(attributes := Some(attrs[attribName := attribValue]))];
      }
      forall a | a != attribName
        ensures GetAttributeValue(nodes[n], a) == GetAttributeValue(old(nodes)[n], a)
      {
        SetThenGet(old(nodes)[n], attribName, attribValue, a);
      }
    }
  }
}
