/**
 * The generic YAML node tree the tool edits (a yaml.v3 `Node`), and the key
 * lookup `getNodeValue` that every step of the tool is built on.
 */
module YamlNode {
  import opened Wrappers

  datatype Kind = DocumentNode | SequenceNode | MappingNode | ScalarNode | AliasNode

  /** The comments yaml.v3 attaches to a node; the tool never edits them, it only keeps or drops whole nodes. */
  datatype Comments = Comments(head: string, line: string, foot: string)

  const NoComments := Comments("", "", "")

  /**
   * A node has a kind, a scalar text and an ordered list of children; a
   * mapping lists its keys and values alternately.
   */
  datatype Node = Node(kind: Kind, value: string, content: seq<Node>, comments: Comments)

  /** A node built by the tool, `&yaml.Node{Kind: ScalarNode, Value: text}`. */
  function Scalar(text: string): Node {
    Node(ScalarNode, text, [], NoComments)
  }

  /** What `getNodeValue` returns on a miss, `&yaml.Node{Kind: kind}`. */
  function EmptyNode(kind: Kind): Node {
    Node(kind, "", [], NoComments)
  }

  predicate IsScalarText(n: Node, text: string) {
    n.kind == ScalarNode && n.value == text
  }

  /** Position `i` holds the scalar `key` and the next position a node of kind `kind`. */
  predicate PairAt(content: seq<Node>, i: nat, key: string, kind: Kind) {
    i + 1 < |content| && IsScalarText(content[i], key) && content[i + 1].kind == kind
  }

  /** The first position at or after `from` where `PairAt` holds, if any. */
  function PairIndexFrom(content: seq<Node>, key: string, kind: Kind, from: nat): (r: Option<nat>)
    requires from <= |content|
    ensures r.Some? ==> from <= r.value && PairAt(content, r.value, key, kind)
    ensures forall i :: from <= i < (if r.Some? then r.value else |content|) ==> !PairAt(content, i, key, kind)
    decreases |content| - from
  {
    if from == |content| then None
    else if PairAt(content, from, key, kind) then Some(from)
    else PairIndexFrom(content, key, kind, from + 1)
  }

  function PairIndex(content: seq<Node>, key: string, kind: Kind): Option<nat> {
    PairIndexFrom(content, key, kind, 0)
  }

  /** The value `getNodeValue(node, key, kind)` returns, with its found flag. */
  function NodeValue(node: Node, key: string, kind: Kind): (Node, bool) {
    match PairIndex(node.content, key, kind)
    case Some(i) => (node.content[i + 1], true)
    case None => (EmptyNode(kind), false)
  }

  /**
   * getNodeValue: every child position is tried as a key, value positions
   * included; a key whose value has the wrong kind is skipped and the scan
   * goes on; a miss yields an empty node of the requested kind.
   */
  method GetNodeValue(node: Node, key: string, kind: Kind) returns (v: Node, ok: bool)
    ensures (v, ok) == NodeValue(node, key, kind)
    ensures ok <==> exists i: nat :: PairAt(node.content, i, key, kind)
    ensures ok ==> exists i: nat :: PairAt(node.content, i, key, kind) && v == node.content[i + 1]
                      && forall j :: 0 <= j < i ==> !PairAt(node.content, j, key, kind)
    ensures !ok ==> v == EmptyNode(kind)
  {
    var i := 0;
    while i < |node.content|
      invariant 0 <= i <= |node.content|
      invariant PairIndex(node.content, key, kind) == PairIndexFrom(node.content, key, kind, i)
    {
      if node.content[i].kind == ScalarNode && node.content[i].value == key {
        if i + 1 < |node.content| {
          if node.content[i + 1].kind == kind {
            return node.content[i + 1], true;
          }
        }
      }
      i := i + 1;
    }
    return EmptyNode(kind), false;
  }

  /** The entry `n` has a `name` scalar (as `getNodeValue(n, "name", ScalarNode)` finds it). */
  predicate HasNameField(n: Node) {
    NodeValue(n, "name", ScalarNode).1
  }

  /** The text the tool reads as `n`'s name; "" when there is none. */
  function NameOf(n: Node): string {
    NodeValue(n, "name", ScalarNode).0.value
  }

  /** `n` has a `name` scalar equal to `name`. */
  predicate Named(n: Node, name: string) {
    HasNameField(n) && NameOf(n) == name
  }

  /** Some entry of `entries` is named `name`. */
  predicate HasEntryNamed(entries: seq<Node>, name: string) {
    exists k :: 0 <= k < |entries| && Named(entries[k], name)
  }

  /** `n` with its `i`-th child replaced, everything else kept. */
  function WithChild(n: Node, i: nat, child: Node): Node
    requires i < |n.content|
  {
    n.(content := n.content[i := child])
  }
}
