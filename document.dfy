/**
 * Where the edits land in the document tree. The tool edits nodes through
 * pointers: the chosen client's `models` node and the top-level `model`
 * scalar. Here the same edits are replacements along the path from the
 * root, so that every other node is visibly left as it was.
 */
module Document {
  import opened Wrappers
  import opened YamlNode
  import opened Locator

  /** The child position of the node `getNodeValue(node, key, kind)` returns, when it finds one. */
  function ValueIndex(node: Node, key: string, kind: Kind): (r: Option<nat>)
    ensures r.Some? <==> NodeValue(node, key, kind).1
    ensures r.Some? ==> r.value < |node.content| && node.content[r.value] == NodeValue(node, key, kind).0
  {
    match PairIndex(node.content, key, kind)
    case None => None
    case Some(i) => Some(i + 1)
  }

  /** The children of the top-level `clients` sequence; none when it is missing. */
  function Clients(root: Node): seq<Node> {
    NodeValue(root, "clients", SequenceNode).0.content
  }

  /** The children of a client's `models` sequence; none when it is missing. */
  function ModelsOf(client: Node): seq<Node> {
    NodeValue(client, "models", SequenceNode).0.content
  }

  /** Two child lists agree on length, on every kind, and on which children are the scalar `key`. */
  predicate SameKeys(a: seq<Node>, b: seq<Node>, key: string) {
    && |a| == |b|
    && (forall i :: 0 <= i < |a| ==> a[i].kind == b[i].kind)
    && (forall i :: 0 <= i < |a| ==> (IsScalarText(a[i], key) <==> IsScalarText(b[i], key)))
  }

  lemma {:induction false} SameKeysPairIndexFrom(a: seq<Node>, b: seq<Node>, key: string, kind: Kind, from: nat)
    requires SameKeys(a, b, key) && from <= |a|
    ensures PairIndexFrom(a, key, kind, from) == PairIndexFrom(b, key, kind, from)
    decreases |a| - from
  {
    if from < |a| {
      assert PairAt(a, from, key, kind) == PairAt(b, from, key, kind);
      SameKeysPairIndexFrom(a, b, key, kind, from + 1);
    }
  }

  /** Edits that keep every kind and every `key` scalar leave the lookup of `key` at the same place. */
  lemma SameKeysValueIndex(a: Node, b: Node, key: string, kind: Kind)
    requires SameKeys(a.content, b.content, key)
    ensures ValueIndex(a, key, kind) == ValueIndex(b, key, kind)
  {
    SameKeysPairIndexFrom(a.content, b.content, key, kind, 0);
  }

  /**
   * The client with the children of its `models` sequence replaced. A
   * client without one is returned as it was: the tool then edits a fresh
   * node that is not part of the document, and the edits are lost.
   */
  function WithModels(client: Node, models: seq<Node>): (r: Node)
    ensures r.kind == client.kind && r.value == client.value && r.comments == client.comments
    ensures |r.content| == |client.content|
    ensures forall i :: 0 <= i < |client.content| && ValueIndex(client, "models", SequenceNode) != Some(i)
              ==> r.content[i] == client.content[i]
    ensures ValueIndex(client, "models", SequenceNode).None? ==> r == client
    ensures forall i :: 0 <= i < |client.content| ==>
              r.content[i].kind == client.content[i].kind && r.content[i].value == client.content[i].value
  {
    match ValueIndex(client, "models", SequenceNode)
    case None => client
    case Some(m) => WithChild(client, m, client.content[m].(content := models))
  }

  /** Replacing the models again with the same list changes nothing. */
  lemma WithModelsTwice(client: Node, models: seq<Node>)
    ensures WithModels(WithModels(client, models), models) == WithModels(client, models)
  {
    var r := WithModels(client, models);
    if ValueIndex(client, "models", SequenceNode).Some? {
      assert SameKeys(client.content, r.content, "models");
      SameKeysValueIndex(client, r, "models", SequenceNode);
      var m := ValueIndex(client, "models", SequenceNode).value;
      assert r.content[m].(content := models) == r.content[m];
      assert r.content[m := r.content[m]] == r.content;
    }
  }

  /** After the replacement the client's `models` sequence holds exactly `models`. */
  lemma WithModelsLookup(client: Node, models: seq<Node>)
    requires NodeValue(client, "models", SequenceNode).1
    ensures ModelsOf(WithModels(client, models)) == models
    ensures NodeValue(WithModels(client, models), "models", SequenceNode).0
            == NodeValue(client, "models", SequenceNode).0.(content := models)
  {
    var r := WithModels(client, models);
    SameKeysValueIndex(client, r, "models", SequenceNode);
  }

  /** The root with the `c`-th client's models replaced. */
  function WithClientModels(root: Node, c: nat, models: seq<Node>): (r: Node)
    requires c < |Clients(root)|
    ensures r.kind == root.kind && r.value == root.value && r.comments == root.comments
    ensures |r.content| == |root.content|
    ensures forall i :: 0 <= i < |root.content| && ValueIndex(root, "clients", SequenceNode) != Some(i)
              ==> r.content[i] == root.content[i]
    ensures forall i :: 0 <= i < |root.content| ==>
              r.content[i].kind == root.content[i].kind && r.content[i].value == root.content[i].value
  {
    match ValueIndex(root, "clients", SequenceNode)
    case Some(k) =>
      var clients := root.content[k];
      WithChild(root, k, WithChild(clients, c, WithModels(clients.content[c], models)))
  }

  /**
   * Only the chosen client changes among the clients, and in it only the
   * `models` sequence, which now holds `models` when the client has one.
   */
  lemma WithClientModelsLookup(root: Node, c: nat, models: seq<Node>)
    requires c < |Clients(root)|
    ensures var r := WithClientModels(root, c, models);
      && ValueIndex(r, "clients", SequenceNode) == ValueIndex(root, "clients", SequenceNode)
      && |Clients(r)| == |Clients(root)|
      && (forall k :: 0 <= k < |Clients(root)| && k != c ==> Clients(r)[k] == Clients(root)[k])
      && Clients(r)[c] == WithModels(Clients(root)[c], models)
  {
    var r := WithClientModels(root, c, models);
    var k := ValueIndex(root, "clients", SequenceNode).value;
    assert SameKeys(root.content, r.content, "clients");
    SameKeysValueIndex(root, r, "clients", SequenceNode);
  }

  /** The root after the run: the client's models replaced, then the default model set when `update` says so. */
  function Rendered(root: Node, c: nat, models: seq<Node>, update: Option<string>): (r: Node)
    requires c < |Clients(root)|
    requires update.Some? ==> FindDefaultModel(root).DefaultAt?
    ensures r.kind == root.kind && r.value == root.value && r.comments == root.comments
    ensures |r.content| == |root.content|
  {
    var out := WithClientModels(root, c, models);
    if update.None? then out
    else
      var i := FindDefaultModel(root).index;
      WithChild(out, i, root.content[i].(value := update.value))
  }

  /**
   * The rendered root differs from the original only in the chosen
   * client's models and, when an update is given, in the text of the
   * default-model scalar; nodes elsewhere are the original nodes.
   */
  lemma RenderedChanges(root: Node, c: nat, models: seq<Node>, update: Option<string>)
    requires c < |Clients(root)|
    requires update.Some? ==> FindDefaultModel(root).DefaultAt?
    requires update.Some? ==> ':' in update.value
    ensures var r := Rendered(root, c, models, update);
      && (forall i :: 0 <= i < |root.content| && ValueIndex(root, "clients", SequenceNode) != Some(i)
            && (update.None? || i != FindDefaultModel(root).index)
            ==> r.content[i] == root.content[i])
      && |Clients(r)| == |Clients(root)|
      && (forall k :: 0 <= k < |Clients(root)| && k != c ==> Clients(r)[k] == Clients(root)[k])
      && Clients(r)[c] == WithModels(Clients(root)[c], models)
      && (update.Some? ==> r.content[FindDefaultModel(root).index]
                             == root.content[FindDefaultModel(root).index].(value := update.value))
  {
    RenderedSameClients(root, c, models, update);
    WithClientModelsLookup(root, c, models);
  }

  /** Setting the default model does not disturb the `clients` sequence. */
  lemma RenderedSameClients(root: Node, c: nat, models: seq<Node>, update: Option<string>)
    requires c < |Clients(root)|
    requires update.Some? ==> FindDefaultModel(root).DefaultAt?
    requires update.Some? ==> ':' in update.value
    ensures Clients(Rendered(root, c, models, update)) == Clients(WithClientModels(root, c, models))
  {
    var out := WithClientModels(root, c, models);
    if update.Some? {
      var i := FindDefaultModel(root).index;
      SetDefaultKeepsLookup(out, i, update.value, "clients", SequenceNode);
    }
  }

  /**
   * The `model` key is looked up at the same place after rendering, and
   * the default-model scalar then holds the update's text, or its old
   * text when there is no update.
   */
  lemma RenderedModelLookup(root: Node, c: nat, models: seq<Node>, update: Option<string>)
    requires c < |Clients(root)|
    requires update.Some? ==> FindDefaultModel(root).DefaultAt?
    requires update.Some? ==> ':' in update.value
    ensures var r := Rendered(root, c, models, update);
      && |r.content| == |root.content|
      && PairIndex(r.content, "model", ScalarNode) == PairIndex(root.content, "model", ScalarNode)
      && (FindDefaultModel(root).DefaultAt? ==>
            r.content[FindDefaultModel(root).index].value
              == if update.Some? then update.value else root.content[FindDefaultModel(root).index].value)
  {
    var out := WithClientModels(root, c, models);
    SameShapePairIndex(root.content, out.content, "model", ScalarNode);
    if update.Some? {
      var i := FindDefaultModel(root).index;
      assert out.content[i].kind == ScalarNode && out.content[i].value == root.content[i].value;
      SetValuePairIndex(out, i, update.value, "model", ScalarNode);
      assert Rendered(root, c, models, update) == WithChild(out, i, out.content[i].(value := update.value));
    }
  }

  /**
   * Reading the default model after it is set to `text` splits `text`:
   * the setting is found at the same place when `text` matches the
   * pattern, and is gone when it does not.
   */
  lemma RenderedDefaultReparsed(root: Node, c: nat, models: seq<Node>, text: string)
    requires c < |Clients(root)|
    requires FindDefaultModel(root).DefaultAt? && ':' in text
    ensures FindDefaultModel(Rendered(root, c, models, Some(text)))
            == match SplitDefaultModel(text)
               case None => NoDefault
               case Some(parts) => DefaultAt(FindDefaultModel(root).index, parts.0, parts.1)
  {
    RenderedModelLookup(root, c, models, Some(text));
  }

  /** Children of the same kinds and texts give the same key lookups. */
  lemma SameShapePairIndex(a: seq<Node>, b: seq<Node>, key: string, kind: Kind)
    requires |a| == |b|
    requires forall i :: 0 <= i < |a| ==> a[i].kind == b[i].kind && a[i].value == b[i].value
    ensures PairIndex(a, key, kind) == PairIndex(b, key, kind)
  {
    SameKeysPairIndexFrom(a, b, key, kind, 0);
  }

  /** A scalar's text changed from one with a colon to another leaves a colon-free key's lookup in place. */
  lemma SetValuePairIndex(n: Node, i: nat, text: string, key: string, kind: Kind)
    requires i < |n.content| && n.content[i].kind == ScalarNode
    requires ':' in n.content[i].value && ':' in text && ':' !in key
    ensures PairIndex(WithChild(n, i, n.content[i].(value := text)).content, key, kind) == PairIndex(n.content, key, kind)
  {
    var r := WithChild(n, i, n.content[i].(value := text));
    assert SameKeys(n.content, r.content, key);
    SameKeysPairIndexFrom(n.content, r.content, key, kind, 0);
  }

  /** Giving a scalar holding a colon another text with a colon keeps the lookup of any other kind of value. */
  lemma SetDefaultKeepsLookup(n: Node, i: nat, text: string, key: string, kind: Kind)
    requires i < |n.content| && n.content[i].kind == ScalarNode && kind != ScalarNode
    requires ':' in n.content[i].value && ':' in text && ':' !in key
    ensures NodeValue(WithChild(n, i, n.content[i].(value := text)), key, kind) == NodeValue(n, key, kind)
  {
    var r := WithChild(n, i, n.content[i].(value := text));
    WithScalarKeepsLookup(n, i, n.content[i].(value := text), key, kind);
    if ValueIndex(n, key, kind).Some? {
      assert r.content[ValueIndex(n, key, kind).value] == n.content[ValueIndex(n, key, kind).value];
    }
  }

  /** Replacing a child that is not the scalar `key` by another such node of the same kind keeps the lookup of `key`. */
  lemma WithScalarKeepsLookup(n: Node, i: nat, child: Node, key: string, kind: Kind)
    requires i < |n.content|
    requires n.content[i].kind == child.kind
    requires !IsScalarText(n.content[i], key) && !IsScalarText(child, key)
    ensures ValueIndex(WithChild(n, i, child), key, kind) == ValueIndex(n, key, kind)
  {
    assert SameKeys(n.content, WithChild(n, i, child).content, key);
    SameKeysValueIndex(n, WithChild(n, i, child), key, kind);
  }

  /** A client keeps its name pairs, and its last child's kind and text, when its models are replaced. */
  lemma WithModelsKeepsName(client: Node, models: seq<Node>, target: string)
    ensures IsClientNamed(WithModels(client, models), target) <==> IsClientNamed(client, target)
    ensures HasDanglingName(WithModels(client, models)) <==> HasDanglingName(client)
  {
    var r := WithModels(client, models);
    if IsClientNamed(client, target) {
      var j :| 0 <= j < |client.content| && NamePairAt(client.content, j, target);
      assert NamePairAt(r.content, j, target);
    }
    if IsClientNamed(r, target) {
      var j :| 0 <= j < |r.content| && NamePairAt(r.content, j, target);
      assert NamePairAt(client.content, j, target);
    }
  }

  /** Without an update the default model reads the same after rendering. */
  lemma RenderedKeepsDefault(root: Node, c: nat, models: seq<Node>)
    requires c < |Clients(root)|
    ensures FindDefaultModel(Rendered(root, c, models, None)) == FindDefaultModel(root)
  {
    var out := WithClientModels(root, c, models);
    SameShapePairIndex(root.content, out.content, "model", ScalarNode);
  }

  /** Replacing a client's models by the models it already has changes nothing. */
  lemma WithClientModelsIdentity(n: Node, c: nat, models: seq<Node>)
    requires c < |Clients(n)|
    requires WithModels(Clients(n)[c], models) == Clients(n)[c]
    ensures WithClientModels(n, c, models) == n
  {
    var k := ValueIndex(n, "clients", SequenceNode).value;
    var clients := n.content[k];
    assert clients.content[c := clients.content[c]] == clients.content;
    assert n.content[k := clients] == n.content;
  }

  /** Rendering the rendered root again with the same models and update gives it back unchanged. */
  lemma RenderedTwice(root: Node, c: nat, models: seq<Node>, update: Option<string>)
    requires c < |Clients(root)|
    requires update.Some? ==> FindDefaultModel(root).DefaultAt? && ':' in update.value
    requires c < |Clients(Rendered(root, c, models, update))|
    requires update.Some? ==> FindDefaultModel(Rendered(root, c, models, update)).DefaultAt?
                              && FindDefaultModel(Rendered(root, c, models, update)).index == FindDefaultModel(root).index
    ensures Rendered(Rendered(root, c, models, update), c, models, update) == Rendered(root, c, models, update)
  {
    var out := Rendered(root, c, models, update);
    RenderedChanges(root, c, models, update);
    WithModelsTwice(Clients(root)[c], models);
    WithClientModelsIdentity(out, c, models);
    if update.Some? {
      RenderedModelLookup(root, c, models, update);
      var i := FindDefaultModel(root).index;
      assert out.content[i].(value := update.value) == out.content[i];
      assert out.content[i := out.content[i]] == out.content;
    }
  }
}
