/**
 * Finding what the tool edits inside the parsed configuration: the default
 * model setting `model: client:name` and the client entry named by the user
 * (or by the default model) inside the `clients` sequence.
 */
module Locator {
  import opened Wrappers
  import opened Sequences
  import opened GoStrings
  import opened YamlNode

  /** The position of the first `c` in `s`. */
  function IndexOf(s: string, c: char): (r: Option<nat>)
    ensures r.Some? ==> r.value < |s| && s[r.value] == c && c !in s[..r.value]
    ensures r.None? ==> c !in s
    decreases |s|
  {
    if s == [] then None
    else if s[0] == c then Some(0)
    else match IndexOf(s[1..], c)
      case None => None
      case Some(i) =>
        assert s[..i + 1] == [s[0]] + s[1..][..i];
        Some(i + 1)
  }

  lemma IndexOfFirst(s: string, c: char, i: nat)
    requires i < |s| && s[i] == c && c !in s[..i]
    ensures IndexOf(s, c) == Some(i)
  {
  }

  /**
   * The text matches the pattern `^([^:]+):(.+)$` with `client` and `model`
   * as its two groups: `[^:]` accepts any character but a colon (line
   * breaks included), `.` any character but a line break, and `$` only
   * the end of the text.
   */
  predicate MatchesDefaultPattern(text: string, client: string, model: string) {
    && text == client + ":" + model
    && client != [] && ':' !in client
    && model != [] && '\n' !in model
  }

  /** The split of the default-model text into its trimmed client and model parts. */
  function SplitDefaultModel(text: string): Option<(string, string)> {
    match IndexOf(text, ':')
    case None => None
    case Some(i) =>
      if 0 < i && i + 1 < |text| && '\n' !in text[i + 1..]
      then Some((TrimSpace(text[..i]), TrimSpace(text[i + 1..])))
      else None
  }

  /**
   * The split succeeds exactly when the text matches the pattern, and then
   * yields the two groups trimmed of white space.
   */
  lemma SplitDefaultModelMatchesPattern(text: string)
    ensures SplitDefaultModel(text).Some? <==> exists client, model :: MatchesDefaultPattern(text, client, model)
    ensures forall client, model :: MatchesDefaultPattern(text, client, model)
              ==> SplitDefaultModel(text) == Some((TrimSpace(client), TrimSpace(model)))
  {
    forall client, model | MatchesDefaultPattern(text, client, model)
      ensures SplitDefaultModel(text) == Some((TrimSpace(client), TrimSpace(model)))
    {
      var i := |client|;
      assert text[i] == ':';
      assert text[..i] == client;
      assert text[i + 1..] == model;
      IndexOfFirst(text, ':', i);
    }
    if SplitDefaultModel(text).Some? {
      var i := IndexOf(text, ':').value;
      assert text == text[..i] + ":" + text[i + 1..];
      assert MatchesDefaultPattern(text, text[..i], text[i + 1..]);
    }
  }

  /**
   * A text `<client>:<model>` written with a colon-free client part parses
   * exactly when the client part is non-empty and the model part is
   * non-empty and free of line breaks; it then yields the two parts
   * trimmed. So `":" + model` and a model name with a line break never parse.
   */
  lemma DefaultTextParses(client: string, model: string)
    requires ':' !in client
    ensures SplitDefaultModel(client + ":" + model).Some? <==> client != "" && model != "" && '\n' !in model
    ensures SplitDefaultModel(client + ":" + model).Some? ==>
              SplitDefaultModel(client + ":" + model) == Some((TrimSpace(client), TrimSpace(model)))
  {
    var text := client + ":" + model;
    var i := |client|;
    assert text[i] == ':' && text[..i] == client && text[i + 1..] == model;
    IndexOfFirst(text, ':', i);
  }

  /** Where the default model was found, and its two parts; `cfgDefModelNode` stays nil otherwise. */
  datatype DefaultModel = NoDefault | DefaultAt(index: nat, client: string, model: string)

  /** The top-level `model` scalar, split into client and model when it has the expected form. */
  function FindDefaultModel(root: Node): (d: DefaultModel)
    ensures d.DefaultAt? ==> d.index < |root.content| && root.content[d.index].kind == ScalarNode
                             && ':' in root.content[d.index].value
  {
    match PairIndex(root.content, "model", ScalarNode)
    case None => NoDefault
    case Some(i) =>
      match SplitDefaultModel(root.content[i + 1].value)
      case None => NoDefault
      case Some(parts) => DefaultAt(i + 1, parts.0, parts.1)
  }

  /**
   * The default model is set exactly when the root has a `model` scalar
   * whose text matches the pattern; its position is that of the scalar the
   * key lookup returns, and its parts are the pattern's trimmed groups.
   */
  lemma DefaultModelFound(root: Node)
    ensures var d := FindDefaultModel(root);
      var (v, ok) := NodeValue(root, "model", ScalarNode);
      && (d.DefaultAt? <==> ok && exists client, model :: MatchesDefaultPattern(v.value, client, model))
      && (d.DefaultAt? ==> d.index < |root.content| && root.content[d.index] == v && v.kind == ScalarNode)
      && (d.DefaultAt? ==> forall client, model :: MatchesDefaultPattern(v.value, client, model)
                             ==> d.client == TrimSpace(client) && d.model == TrimSpace(model))
  {
    var (v, ok) := NodeValue(root, "model", ScalarNode);
    SplitDefaultModelMatchesPattern(v.value);
  }

  /** The client name the tool looks for: the option, or else the default model's client. */
  function TargetClient(option: string, d: DefaultModel): string {
    if option != "" then option else if d.DefaultAt? then d.client else ""
  }

  /** Positions `j`, `j + 1` of a client's children hold the scalars `name` and `target`. */
  predicate NamePairAt(content: seq<Node>, j: nat, target: string) {
    j + 1 < |content| && IsScalarText(content[j], "name") && IsScalarText(content[j + 1], target)
  }

  /** The client has a `name` scalar followed by the scalar `target`. */
  predicate IsClientNamed(client: Node, target: string) {
    exists j :: 0 <= j < |client.content| && NamePairAt(client.content, j, target)
  }

  /** The client's last child is the scalar `name`; reading the value after it is out of range. */
  predicate HasDanglingName(client: Node) {
    |client.content| > 0 && IsScalarText(Last(client.content), "name")
  }

  /** Some client has a `name` scalar as its last child. */
  predicate SomeDangling(clients: seq<Node>) {
    exists k :: 0 <= k < |clients| && HasDanglingName(clients[k])
  }

  /** Some client is named `target`. */
  predicate SomeNamed(clients: seq<Node>, target: string) {
    exists k :: 0 <= k < |clients| && IsClientNamed(clients[k], target)
  }

  datatype LocateFailure = IndexOutOfRange | ClientNotFound

  /**
   * The client scan: every child of every client is tried as a `name` key;
   * the scan never stops early, so the last client named `target` is the
   * one chosen. A `name` scalar in the last position makes the unchecked
   * read of the next child fail.
   */
  method LocateClient(clients: seq<Node>, target: string) returns (r: Result<nat, LocateFailure>)
    ensures r == Failure(IndexOutOfRange) <==> SomeDangling(clients)
    ensures r == Failure(ClientNotFound) <==> !SomeDangling(clients) && !SomeNamed(clients, target)
    ensures r.Success? ==> r.value < |clients| && IsClientNamed(clients[r.value], target)
                           && forall k :: r.value < k < |clients| ==> !IsClientNamed(clients[k], target)
  {
    var found: Option<nat> := None;
    var ci := 0;
    while ci < |clients|
      invariant 0 <= ci <= |clients|
      invariant forall k :: 0 <= k < ci ==> !HasDanglingName(clients[k])
      invariant found.Some? ==> found.value < ci && IsClientNamed(clients[found.value], target)
      invariant forall k :: (if found.Some? then found.value + 1 else 0) <= k < ci ==> !IsClientNamed(clients[k], target)
    {
      var content := clients[ci].content;
      var j := 0;
      ghost var before := found;
      while j < |content|
        invariant 0 <= j <= |content|
        invariant found == before || found == Some(ci)
        invariant found == Some(ci) ==> IsClientNamed(clients[ci], target)
        invariant found == before ==> forall k :: 0 <= k < j ==> !NamePairAt(content, k, target)
        invariant forall k :: 0 <= k < j && IsScalarText(content[k], "name") ==> k + 1 < |content|
      {
        if content[j].kind == ScalarNode && content[j].value == "name" {
          if j + 1 >= |content| {
            assert HasDanglingName(clients[ci]);
            return Failure(IndexOutOfRange);
          }
          if content[j + 1].kind == ScalarNode && content[j + 1].value == target {
            assert NamePairAt(content, j, target);
            found := Some(ci);
          }
        }
        j := j + 1;
      }
      assert !HasDanglingName(clients[ci]) by {
        if |content| > 0 {
          assert IsScalarText(content[|content| - 1], "name") ==> |content| < |content|;
        }
      }
      if found == before {
        assert !IsClientNamed(clients[ci], target);
      }
      ci := ci + 1;
    }
    if found.None? {
      return Failure(ClientNotFound);
    }
    return Success(found.value);
  }
}
