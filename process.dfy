/**
 * The `process` run from the parsed document to the updated root: find the
 * default model and the client, take the model listing, apply the
 * exclusion option, reconcile the client's models and, on request, point
 * the default model at the first model whose name holds the override text.
 */
module Process {
  import opened Wrappers
  import opened Sequences
  import opened GoStrings
  import opened YamlNode
  import opened Enrichment
  import opened Locator
  import opened Exclusion
  import opened Reconcile
  import opened Document

  /** The command-line options `process` reads: `--client`, `--exclude` and `--model` (the default-model override). */
  datatype Options = Options(client: string, exclude: string, defaultModel: string)

  /**
   * The model names the server lists, or a failure to create the server
   * client or to list its models.
   */
  datatype Listing = Listed(models: seq<string>) | ListFailed

  /**
   * How a run ends without output: the two errors the tool reports
   * (`empty config file`, client not found), a failed listing, and two
   * runtime panics (an index past a client's children, and writing
   * through a nil default-model node).
   */
  datatype RunError = EmptyConfig | NameIndexOutOfRange | ClientMissing(name: string) | ListingUnavailable | NilDefaultModel

  /** The client name looked for: the option, or else the client part of the default model. */
  function Target(root: Node, opts: Options): string {
    TargetClient(opts.client, FindDefaultModel(root))
  }

  /** The client scan settles on `c`: it is named `target` and no later client is. */
  predicate Chosen(clients: seq<Node>, target: string, c: nat) {
    c < |clients| && IsClientNamed(clients[c], target)
    && forall k :: c < k < |clients| ==> !IsClientNamed(clients[k], target)
  }

  /** The new default-model text `<client>:<model>`, when an override is given and a model matches it. */
  function DefaultUpdate(target: string, part: string, models: seq<Node>): (u: Option<string>)
    ensures u.Some? ==> ':' in u.value
  {
    if part == "" then None
    else match FirstContaining(models, part)
      case None => None
      case Some(m) =>
        assert (target + ":" + m)[|target|] == ':';
        Some(target + ":" + m)
  }

  /** The client scan, with its outcome stated in the terms of a run. */
  method FindClient(clients: seq<Node>, target: string) returns (r: Result<nat, RunError>)
    ensures r == Failure(NameIndexOutOfRange) <==> SomeDangling(clients)
    ensures r == Failure(ClientMissing(target)) <==> !SomeDangling(clients) && !SomeNamed(clients, target)
    ensures r.Failure? ==> r == Failure(NameIndexOutOfRange) || r == Failure(ClientMissing(target))
    ensures r.Success? ==> Chosen(clients, target, r.value)
  {
    var located := LocateClient(clients, target);
    if located.Failure? {
      if located.error == LocateFailure.IndexOutOfRange {
        return Failure(NameIndexOutOfRange);
      }
      return Failure(ClientMissing(target));
    }
    return Success(located.value);
  }

  /**
   * The four steps on the chosen client's models, in place on a
   * `ModelList`, and the override lookup on the sorted result ("" when
   * there is no override or no match).
   */
  method ReconcileModels(before: seq<Node>, names: seq<string>, show: string -> ShowResult, part: string)
    returns (after: seq<Node>, desired: string)
    ensures Reconciled(before, names, show, after)
    ensures desired != "" <==> part != "" && FirstContaining(after, part).Some?
    ensures desired != "" ==> desired == FirstContaining(after, part).value
  {
    var list := new ModelList(before);
    list.Prune(names);
    list.AddMissing(names, show);
    ghost var added := list.content;
    list.SortByName();
    after := list.content;
    desired := "";
    if part != "" {
      desired := list.FirstNameContaining(part);
    }
  }

  /**
   * One run of `process` on the parsed document `doc`. `show` is the
   * server's answer to the per-model parameter query.
   */
  method Run(doc: Node, opts: Options, listing: Listing, show: string -> ShowResult)
    returns (r: Result<Node, RunError>, ghost chosen: nat, ghost models: seq<Node>)
    ensures r == Failure(EmptyConfig) <==> doc.content == []
    ensures doc.content != [] ==>
      var root := doc.content[0];
      var clients := Clients(root);
      var target := Target(root, opts);
      && (r == Failure(NameIndexOutOfRange) <==> SomeDangling(clients))
      && (r == Failure(ClientMissing(target)) <==> !SomeDangling(clients) && !SomeNamed(clients, target))
      && (r == Failure(ListingUnavailable) <==>
            !SomeDangling(clients) && SomeNamed(clients, target) && listing.ListFailed?)
      && (r.Success? || r == Failure(NilDefaultModel) <==>
            !SomeDangling(clients) && SomeNamed(clients, target) && listing.Listed?)
      && (r.Success? || r == Failure(NilDefaultModel) ==>
            && Chosen(clients, target, chosen)
            && listing.Listed?
            && Reconciled(ModelsOf(clients[chosen]), ExcludeModels(listing.models, opts.exclude), show, models)
            && (r == Failure(NilDefaultModel) <==>
                  DefaultUpdate(target, opts.defaultModel, models).Some? && FindDefaultModel(root).NoDefault?)
            && (r.Success? ==> r.value == Rendered(root, chosen, models, DefaultUpdate(target, opts.defaultModel, models))))
  {
    chosen, models := 0, [];
    if |doc.content| == 0 {
      return Failure(EmptyConfig), chosen, models;
    }
    var root := doc.content[0];
    var d := FindDefaultModel(root);
    var clientsNode, _ := GetNodeValue(root, "clients", SequenceNode);
    var target := TargetClient(opts.client, d);
    var located := FindClient(clientsNode.content, target);
    if located.Failure? {
      return Failure(located.error), chosen, models;
    }
    var c := located.value;
    chosen := c;
    var modelsNode, _ := GetNodeValue(clientsNode.content[c], "models", SequenceNode);
    if listing.ListFailed? {
      return Failure(ListingUnavailable), chosen, models;
    }
    var names := ExcludeModels(listing.models, opts.exclude);
    var sorted, desired := ReconcileModels(modelsNode.content, names, show, opts.defaultModel);
    models := sorted;
    var update: Option<string> := None;
    if desired != "" {
      if d.NoDefault? {
        return Failure(NilDefaultModel), chosen, models;
      }
      update := Some(target + ":" + desired);
    }
    r := Success(Rendered(root, c, sorted, update));
  }

  /* ---------------------------------------------------------------------- */
  /* What a successful run leaves in the document                           */
  /* ---------------------------------------------------------------------- */

  /**
   * When the chosen client has a `models` sequence, the output's models
   * are the reconciled list: sorted by name, every entry names a listed
   * model that no exclusion piece matches, and every such model has an
   * entry.
   */
  lemma RenderedModels(root: Node, c: nat, models: seq<Node>, update: Option<string>,
                       listed: seq<string>, exclude: string, show: string -> ShowResult)
    requires c < |Clients(root)|
    requires update.Some? ==> FindDefaultModel(root).DefaultAt? && ':' in update.value
    requires NodeValue(Clients(root)[c], "models", SequenceNode).1
    requires Reconciled(ModelsOf(Clients(root)[c]), ExcludeModels(listed, exclude), show, models)
    ensures var clients := Clients(Rendered(root, c, models, update));
      c < |clients| &&
      var out := ModelsOf(clients[c]);
      && out == models
      && SortedByName(out)
      && (forall e :: e in out ==> HasNameField(e) && NameOf(e) in listed)
      && (exclude != "" ==> forall e :: e in out ==> !IsExcluded(NameOf(e), Split(exclude, ',')))
      && (forall n :: n in listed && (exclude == "" || !IsExcluded(n, Split(exclude, ','))) ==> HasEntryNamed(out, n))
  {
    RenderedChanges(root, c, models, update);
    WithModelsLookup(Clients(root)[c], models);
    var names := ExcludeModels(listed, exclude);
    ReconciledContents(ModelsOf(Clients(root)[c]), names, show, models);
    ExcludeModelsSpec(listed, exclude);
  }

  /**
   * After the default model is set to `<client>:<model>`, reading the
   * document again finds it at the same place, split into that client and
   * model (trimmed), provided the client name is a non-empty text without
   * a colon and the model name has no line break.
   */
  lemma RenderedDefaultModel(root: Node, c: nat, models: seq<Node>, target: string, desired: string)
    requires c < |Clients(root)|
    requires FindDefaultModel(root).DefaultAt?
    requires target != "" && ':' !in target
    requires desired != "" && '\n' !in desired
    ensures var text := target + ":" + desired;
      FindDefaultModel(Rendered(root, c, models, Some(text)))
        == DefaultAt(FindDefaultModel(root).index, TrimSpace(target), TrimSpace(desired))
  {
    var text := target + ":" + desired;
    assert text[|target|] == ':';
    DefaultTextParses(target, desired);
    RenderedDefaultReparsed(root, c, models, text);
  }

  /**
   * When the text written as the default model does not match the pattern
   * (an empty client part, or a model name with a line break), the output
   * has no usable default-model setting any more.
   */
  lemma RenderedDefaultLost(root: Node, c: nat, models: seq<Node>, text: string)
    requires c < |Clients(root)|
    requires FindDefaultModel(root).DefaultAt? && ':' in text
    requires SplitDefaultModel(text).None?
    ensures FindDefaultModel(Rendered(root, c, models, Some(text))).NoDefault?
  {
    RenderedDefaultReparsed(root, c, models, text);
  }

  /** After rendering, the client scan sees the same clients and settles on the same one. */
  lemma RenderedSameChoice(root: Node, c: nat, models: seq<Node>, update: Option<string>, target: string)
    requires !SomeDangling(Clients(root)) && Chosen(Clients(root), target, c)
    requires update.Some? ==> FindDefaultModel(root).DefaultAt? && ':' in update.value
    ensures var out := Rendered(root, c, models, update);
      !SomeDangling(Clients(out)) && Chosen(Clients(out), target, c)
  {
    var out := Rendered(root, c, models, update);
    RenderedChanges(root, c, models, update);
    forall k | 0 <= k < |Clients(root)|
      ensures HasDanglingName(Clients(out)[k]) <==> HasDanglingName(Clients(root)[k])
      ensures IsClientNamed(Clients(out)[k], target) <==> IsClientNamed(Clients(root)[k], target)
    {
      if k == c {
        WithModelsKeepsName(Clients(root)[c], models, target);
      }
    }
  }

  /** The client part of a parsed default model is already trimmed and holds no colon. */
  lemma DefaultClientTrimmed(root: Node)
    requires FindDefaultModel(root).DefaultAt?
    ensures TrimSpace(FindDefaultModel(root).client) == FindDefaultModel(root).client
    ensures ':' !in FindDefaultModel(root).client
  {
    var text := root.content[FindDefaultModel(root).index].value;
    var colon := IndexOf(text, ':').value;
    assert FindDefaultModel(root).client == TrimSpace(text[..colon]);
    TrimSpaceIdempotent(text[..colon]);
    TrimSpaceSubset(text[..colon]);
  }

  /**
   * After rendering, the client looked for is the same, and a rewritten
   * default model is found again at its place, provided the text written
   * matches the pattern.
   */
  lemma RenderedSameTarget(root: Node, opts: Options, c: nat, models: seq<Node>)
    requires c < |Clients(root)|
    requires var update := DefaultUpdate(Target(root, opts), opts.defaultModel, models);
      update.Some? ==> FindDefaultModel(root).DefaultAt? && SplitDefaultModel(update.value).Some?
    ensures var update := DefaultUpdate(Target(root, opts), opts.defaultModel, models);
      var out := Rendered(root, c, models, update);
      && Target(out, opts) == Target(root, opts)
      && (update.Some? ==> FindDefaultModel(out).DefaultAt? && FindDefaultModel(out).index == FindDefaultModel(root).index)
  {
    var target := Target(root, opts);
    var update := DefaultUpdate(target, opts.defaultModel, models);
    if update.None? {
      RenderedKeepsDefault(root, c, models);
    } else {
      var desired := FirstContaining(models, opts.defaultModel).value;
      assert update.value == target + ":" + desired;
      RenderedDefaultReparsed(root, c, models, update.value);
      if opts.client == "" {
        DefaultClientTrimmed(root);
        DefaultTextParses(target, desired);
      }
    }
  }

  /**
   * A second run on the output, with the same options, listing and
   * answers, finds the same client and reconciles its models to the same
   * list, when the chosen client's named entries had distinct names.
   */
  lemma SecondRunSameModels(root: Node, opts: Options, listed: seq<string>, show: string -> ShowResult,
                            c: nat, models: seq<Node>)
    requires !SomeDangling(Clients(root)) && Chosen(Clients(root), Target(root, opts), c)
    requires DistinctNames(ModelsOf(Clients(root)[c]))
    requires Reconciled(ModelsOf(Clients(root)[c]), ExcludeModels(listed, opts.exclude), show, models)
    requires var update := DefaultUpdate(Target(root, opts), opts.defaultModel, models);
      update.Some? ==> FindDefaultModel(root).DefaultAt?
    ensures var target := Target(root, opts);
      var update := DefaultUpdate(target, opts.defaultModel, models);
      var out := Rendered(root, c, models, update);
      && !SomeDangling(Clients(out))
      && Chosen(Clients(out), target, c)
      && (forall again :: Reconciled(ModelsOf(Clients(out)[c]), ExcludeModels(listed, opts.exclude), show, again)
            ==> again == models)
  {
    var target := Target(root, opts);
    var names := ExcludeModels(listed, opts.exclude);
    var update := DefaultUpdate(target, opts.defaultModel, models);
    var out := Rendered(root, c, models, update);
    var client := Clients(root)[c];
    RenderedSameChoice(root, c, models, update, target);
    RenderedChanges(root, c, models, update);
    forall again | Reconciled(ModelsOf(Clients(out)[c]), names, show, again) ensures again == models {
      if NodeValue(client, "models", SequenceNode).1 {
        WithModelsLookup(client, models);
        ReconciledIdempotent(ModelsOf(client), names, show, models, again);
      } else {
        ReconciledDeterministic(ModelsOf(client), names, show, models, again);
      }
    }
  }

  /**
   * A second run on the output, with the same options, listing and
   * answers, looks for the same client, finds it, reconciles its models to
   * the same list and renders the output unchanged. This holds when the
   * chosen client's named entries had distinct names and, when the default
   * model is rewritten, the text written matches the pattern.
   */
  lemma SecondRunUnchanged(root: Node, opts: Options, listed: seq<string>, show: string -> ShowResult,
                           c: nat, models: seq<Node>)
    requires !SomeDangling(Clients(root)) && Chosen(Clients(root), Target(root, opts), c)
    requires DistinctNames(ModelsOf(Clients(root)[c]))
    requires Reconciled(ModelsOf(Clients(root)[c]), ExcludeModels(listed, opts.exclude), show, models)
    requires var update := DefaultUpdate(Target(root, opts), opts.defaultModel, models);
      update.Some? ==> FindDefaultModel(root).DefaultAt? && SplitDefaultModel(update.value).Some?
    ensures var target := Target(root, opts);
      var update := DefaultUpdate(target, opts.defaultModel, models);
      var out := Rendered(root, c, models, update);
      && Target(out, opts) == target
      && !SomeDangling(Clients(out))
      && Chosen(Clients(out), target, c)
      && (forall again :: Reconciled(ModelsOf(Clients(out)[c]), ExcludeModels(listed, opts.exclude), show, again)
            ==> again == models)
      && (update.Some? ==> FindDefaultModel(out).DefaultAt?)
      && Rendered(out, c, models, update) == out
  {
    var target := Target(root, opts);
    var update := DefaultUpdate(target, opts.defaultModel, models);
    SecondRunSameModels(root, opts, listed, show, c, models);
    RenderedSameTarget(root, opts, c, models);
    RenderedChanges(root, c, models, update);
    RenderedTwice(root, c, models, update);
  }

  /**
   * When the default-model text written does not match the pattern, a
   * second run on the output (with `--client` given, or with the empty
   * client name both times) looks for the same client, reconciles its
   * models to the same list and finds the same override match, but the
   * output has no usable default-model setting: by `Run`'s contract that
   * run ends with the write through a nil node.
   */
  lemma SecondRunLosesDefault(root: Node, opts: Options, listed: seq<string>, show: string -> ShowResult,
                              c: nat, models: seq<Node>)
    requires !SomeDangling(Clients(root)) && Chosen(Clients(root), Target(root, opts), c)
    requires DistinctNames(ModelsOf(Clients(root)[c]))
    requires Reconciled(ModelsOf(Clients(root)[c]), ExcludeModels(listed, opts.exclude), show, models)
    requires var update := DefaultUpdate(Target(root, opts), opts.defaultModel, models);
      update.Some? && FindDefaultModel(root).DefaultAt? && SplitDefaultModel(update.value).None?
    requires opts.client != "" || Target(root, opts) == ""
    ensures var target := Target(root, opts);
      var update := DefaultUpdate(target, opts.defaultModel, models);
      var out := Rendered(root, c, models, update);
      && FindDefaultModel(out).NoDefault?
      && Target(out, opts) == target
      && !SomeDangling(Clients(out))
      && Chosen(Clients(out), target, c)
      && (forall again :: Reconciled(ModelsOf(Clients(out)[c]), ExcludeModels(listed, opts.exclude), show, again)
            ==> DefaultUpdate(target, opts.defaultModel, again).Some?)
  {
    var target := Target(root, opts);
    var update := DefaultUpdate(target, opts.defaultModel, models);
    SecondRunSameModels(root, opts, listed, show, c, models);
    RenderedDefaultLost(root, c, models, update.value);
  }
}
