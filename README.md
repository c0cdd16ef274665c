# aichat-conf: model-list reconciliation

aichat-conf updates an aichat configuration file so that one client's
`models` list matches what an Ollama server currently offers. The `process`
function in `main.go` works on the parsed YAML tree in these steps:

1. Read the top-level `model: <client>:<model>` setting.
2. Find the client entry (named by `--client`, or else by the default
   model's client part).
3. Take the server's model listing and drop every model whose name contains
   one of the comma-separated `--exclude` pieces.
4. Prune entries whose model is no longer listed.
5. Append an entry, enriched from the server's per-model details, for every
   listed model that has none.
6. Sort the entries by name.
7. Optionally point the default model at the first entry whose name contains
   the `--model` option text.
8. Marshal the tree back to text.

The model is written in Dafny and split into these modules:

- `YamlNode`: the yaml.v3 node tree, as a datatype, and the key lookup
  `getNodeValue`. The lookup is a loop, proved against its specification
  function `NodeValue`.
- `Locator`:
  - the default-model setting. The regular expression `^([^:]+):(.+)$` is
    modelled with Go's meaning: `[^:]` accepts line breaks, `.` does not,
    and `$` only matches at the end of the text.
  - the client scan. It never stops early, so the last matching client
    wins. A `name` scalar that is a client's last child makes the unchecked
    `cn.Content[j+1]` read fail.
- `Exclusion`: the `--exclude` filter.
- `Enrichment`: the mapping node built for a new model, with its optional
  fields in source order.
- `Reconcile`: the four steps on the chosen client's `models` children.
  - Specification functions: `Pruned`, `Added`, a sort contract, and
    `FirstContaining`.
  - The class `ModelList` holds the mutable `models` node and has one method
    per step. Each method is proved against its specification function.
  - Lemmas state what the combined steps guarantee, including idempotence.
- `Document`: writing the new models and the new default model back into
  the tree, and proofs that nothing else changes.
- `Process`: one whole run. It returns the new root or the reason the run
  stops. Lemmas cover the output of a run and a second run on that output.
- `Framing`: the `---` guard put in front of the file before parsing, and
  the trimming of the marshalled output.
- `GoStrings`: the Go string functions the code relies on. These are
  `strings.Contains`, `Split`, `TrimSpace`, `strconv.Itoa` and string `<`.
- `Sequences` and `Wrappers`: general helpers.

Where the repository's description of the tool and its code differ, the
model follows the code:

- **Trimming of `--exclude` pieces.** The code does not trim them. The
  `lo.ForEach` at `main.go:210-212` assigns to a copy, so `"a, b"` excludes
  names containing `" b"`, and a trailing comma excludes every model.
- **Default client name.** There is none. With no `--client` and no usable
  default-model setting, the client looked for is named `""`.
- **Missing default-model setting.** Nothing is created. When an override
  matches but there is no usable `model` setting, the write goes through a
  nil node. The model gives this run the outcome `NilDefaultModel`.
- **Client without a `models` sequence.** The steps edit a fresh node that
  is not in the tree, so the output keeps the client unchanged.
- **Sorting.** `sort.Slice` is not stable, so the sort is specified as a
  permutation sorted by name.
- **Output marker.** The marshalled root is only trimmed of surrounding white
  space. No `---` marker is stripped.
- **Idempotence.** A second run on the output reproduces it only under two
  conditions:
  - The chosen client's named entries start with distinct names. With two
    entries of the same name, the unstable sort may order them differently
    on each run.
  - When the default model is rewritten, the text written still matches the
    pattern. A text `<client>:<model>` written with a colon-free client part
    parses exactly when that part is non-empty and the model name is
    non-empty and has no line break (`Locator.DefaultTextParses`).

  Two cases break the second condition. A setting such as `model: " :old"`
  parses with an empty client part, and without `--client` the run then
  writes `":<model>"`. A listed model name may also hold a line break. In
  both cases the output has no usable default-model setting
  (`Process.RenderedDefaultLost`). A second run with `--client` given, or
  with the empty client name both times, reaches the same override match
  and ends with the write through a nil node (`Process.SecondRunLosesDefault`
  together with `Process.Run`'s contract). Without `--client`, a second run
  after a line-break name looks for a client named `""` instead.

## Model

| member | source | states |
|---|---|---|
| YamlNode.GetNodeValue | main.go:340-351 | Returns the value after the first child that is the scalar `key` and whose next child has the requested kind. Value positions are tried as keys too, and a key whose value has the wrong kind is skipped. The flag is set exactly when such a pair exists. On a miss the result is an empty node of the requested kind. |
| YamlNode.PairIndexFrom | main.go:341-349 | The index found is a matching key/value pair, and no earlier position matches. |
| Locator.IndexOf | main.go:140-141 | The first position of a character, or none when the text does not hold it. |
| Locator.SplitDefaultModelMatchesPattern | main.go:140-145 | The split succeeds exactly when the text matches `^([^:]+):(.+)$` with Go's semantics. It then yields the two groups trimmed of white space. |
| Locator.FindDefaultModel | main.go:138-143 | A default model that is found is a scalar child of the root, and its text holds a colon. |
| Locator.DefaultModelFound | main.go:134-148 | The default model is set exactly when the `model` lookup succeeds and its text matches the pattern. It sits at the looked-up node's position, and its parts are the trimmed groups. |
| Locator.LocateClient | main.go:156-175 | Fails with the out-of-range read exactly when some client's last child is the scalar `name`. Otherwise it reports not-found exactly when no client is named `target`. Otherwise it returns the last client so named. |
| Process.FindClient | main.go:157-175 | The client scan's three outcomes in the run's error terms, each with both directions of its condition. |
| Exclusion.WithoutExcludedSpec | main.go:213-221 | The filter keeps an order-preserving subsequence of the models, holding exactly those that contain no piece. |
| Exclusion.ExcludeModelsSpec | main.go:207-222 | An empty option keeps the listing. Otherwise the result is the subsequence of models containing none of the comma-separated pieces. |
| Exclusion.EmptyPieceExcludesAll | main.go:213-221 | An empty piece removes every model. |
| Exclusion.TrailingCommaExcludesAll | main.go:208-221 | An option ending in a comma removes every model. |
| GoStrings.SplitJoin | main.go:209 | Joining the pieces of `strings.Split` with the separator gives back the text. |
| GoStrings.SplitPiecesFree | main.go:209 | No piece of the split holds the separator. |
| GoStrings.JoinSplit | main.go:209 | Splitting separator-free pieces joined by the separator gives back the pieces. |
| GoStrings.ContainsMeansOccurs | main.go:215 | `strings.Contains` holds exactly when the piece occurs at some position. |
| GoStrings.TrimSpaceTrims | main.go:144-145 | `strings.TrimSpace` removes only leading and trailing white space. The result neither starts nor ends with white space. |
| GoStrings.TrimSpaceIdempotent | main.go:144-145 | Trimming twice is trimming once. |
| GoStrings.DecimalRoundTrip | main.go:264 | The `strconv.Itoa` text of a natural number is all digits and reads back as that number. |
| GoStrings.LexLessTransitive | main.go:299 | Go's string `<` is transitive. |
| GoStrings.LexTotal | main.go:299 | Go's string `<` is total: two strings are equal or one is less. |
| GoStrings.LexLeqAntisymmetric | main.go:299 | Two strings that are each at most the other are equal. |
| Reconcile.PrunedSpec | main.go:225-238 | Pruning keeps an order-preserving subsequence of the very same nodes. An entry stays exactly when it has a `name` scalar that the listing holds. |
| Reconcile.PrunedAllKept | main.go:225-238 | Pruning entries that are all listed changes nothing. |
| Reconcile.ModelList.Prune | main.go:225-238 | The models node's children become the pruned children. |
| Reconcile.HasModel | main.go:242-249 | The inner scan reports a match exactly when some entry's `name` scalar equals the model. |
| Reconcile.AddedExtends | main.go:240-294 | Adding only appends: the earlier entries stay first, unchanged and in order. |
| Reconcile.AddedCovers | main.go:240-294 | After adding, every listed model has an entry. |
| Reconcile.AddedAppendsMissing | main.go:250-291 | Every appended entry is the new entry for a listed model that had no entry before it. |
| Reconcile.AddedNothingMissing | main.go:241-250 | When every listed model already has an entry, adding changes nothing. |
| Reconcile.ModelList.AddMissing | main.go:240-294 | The models node's children become the children extended by the add step. |
| Enrichment.NewEntryShape | main.go:255-261 | A new entry is a mapping of childless scalars that starts with `name: model`. |
| Enrichment.NewEntryKeyOrder | main.go:262-289 | A new entry's keys follow the order `name`, `max_input_tokens`, `temperature`, `top_p`, `supports_vision`, `supports_function_calling`, `supports_reasoning`, `type`. |
| Enrichment.NewEntryNumericFields | main.go:262-273 | `max_input_tokens` is present exactly when the context length is positive, and then carries its decimal text. `temperature` and `top_p` are present exactly when reported, with their text. |
| Enrichment.NewEntryCapabilityFields | main.go:274-289 | Each capability field is present exactly when its capability is listed, with `true`, or with `embedding` for `type`. |
| Enrichment.NewEntryNamed | main.go:255-261 | The name lookup finds the model's name in a new entry. |
| Enrichment.FailedLookupGivesNameOnly | main.go:251-261 | When the parameter lookup fails, its ignored error leaves the sentinels, and the new entry holds only its name. |
| Reconcile.InsertByNamePermutes | main.go:295-300 | An insertion step of the sort loses and adds no entry. |
| Reconcile.InsertByNameSorted | main.go:295-300 | An insertion step keeps a name-sorted list sorted. |
| Reconcile.ModelList.SortByName | main.go:295-300 | The models node's children become a permutation of themselves sorted by name in Go string order. |
| Reconcile.FirstContainingNone | main.go:301-311 | The override finds nothing exactly when no entry's name holds the text. |
| Reconcile.FirstContainingSpec | main.go:302-311 | A found name belongs to a matching entry, and every earlier entry does not match. |
| Reconcile.FirstContainingIsLeast | main.go:295-311 | On the sorted list the override picks the least matching name. |
| Reconcile.ModelList.FirstNameContaining | main.go:302-311 | Returns the first matching name, or `""` when none matches. For a non-empty text the result is non-empty exactly when some entry matches. |
| Reconcile.ReconciledContents | main.go:224-300 | After the steps, an entry that was there stays exactly when its model is listed. Every entry left names a listed model, and every listed model has an entry. Every entry that was not there before is the new entry built for its model. |
| Reconcile.ReconciledNamesUnique | main.go:224-300 | If the named entries had distinct names, no two resulting entries share a name. |
| Reconcile.ReconciledDeterministic | main.go:295-300 | With distinct names before, every order the unstable sort may pick is the same list. |
| Reconcile.ReconciledFixpoint | main.go:224-300 | A reconciled list is a reconciliation of itself. |
| Reconcile.ReconciledIdempotent | main.go:224-300 | Running the steps again with the same listing gives the same list, when the named entries started with distinct names. |
| Reconcile.SortedUnique | main.go:295-300 | Two name-sorted orderings of the same uniquely named entries are the same list. |
| Process.ReconcileModels | main.go:224-311 | The steps run on a `ModelList` produce a reconciled list. The override result is the first matching name, or `""` when there is no override or no match. |
| Process.DefaultUpdate | main.go:312-314 | The new default-model text `<client>:<model>` always holds a colon. |
| Process.Run | main.go:111-328 | One run, with each outcome given by its condition (both directions): an empty document, the out-of-range read, a missing client, a failed listing, and the nil default-model write. Success or the nil write happens exactly when no client has a dangling `name`, some client is named, and the listing succeeded; no other failure is possible. On success the chosen client is the last one named, the models are the reconciled listing minus exclusions, and the output is the root with those models and the new default model written in. |
| Process.RenderedModels | main.go:224-300 | When the chosen client has a `models` sequence, the output's models are the reconciled list. They are sorted, every entry names a listed model that no exclusion piece matches, and every such model has an entry. |
| Process.RenderedDefaultModel | main.go:312-314 | Reading the output's default model gives the same position, with the client and chosen model as its trimmed parts. |
| Process.RenderedDefaultLost | main.go:312-314 | When the written text does not match the pattern, the output has no usable default-model setting. |
| Locator.DefaultTextParses | main.go:140-145 | For a colon-free client part, `<client>:<model>` parses exactly when the client part is non-empty and the model is non-empty and has no line break. It then yields both parts trimmed. |
| Document.RenderedDefaultReparsed | main.go:138-147 | Reading the default model after it is set to a text splits that text: found at the same place when the text matches the pattern, gone when it does not. |
| GoStrings.TrimSpaceSubset | main.go:144 | Trimming introduces no character. |
| Process.RenderedSameChoice | main.go:162-172 | The client scan on the output gives the same outcome and picks the same client. |
| Process.RenderedSameTarget | main.go:134-160 | The client looked for is the same on the output. A rewritten default model is found again at its place, provided the text written matches the pattern. |
| Process.DefaultClientTrimmed | main.go:140-144 | The client part of a parsed default model is already trimmed and holds no colon. |
| Process.SecondRunSameModels | main.go:111-311 | A second run on the output picks the same client and reconciles to the same list, when the named entries had distinct names. |
| Process.SecondRunUnchanged | main.go:111-328 | A second run on the output, with the same options and server answers, looks for the same client and picks it. It reconciles to the same list and renders the output unchanged. This holds for distinct names and, when the default model is rewritten, a written text that matches the pattern. |
| Process.SecondRunLosesDefault | main.go:111-319 | When the written text does not match the pattern, a second run (with `--client`, or with the empty client name both times) finds the same client, list and override match, but no default-model setting. By `Process.Run`'s contract it ends with the nil write. |
| Document.WithModels | main.go:237 | Replacing a client's models changes only its `models` sequence. A client without one comes back unchanged. |
| Document.WithModelsLookup | main.go:237 | After the replacement the client's `models` sequence holds exactly the new list. |
| Document.WithModelsTwice | main.go:237 | Replacing the models twice with the same list is replacing them once. |
| Document.WithClientModelsLookup | main.go:162-172 | Only the chosen client changes among the clients. |
| Document.RenderedChanges | main.go:224-319 | The rendered root equals the original except for the chosen client's models and, when there is an update, the text of the default-model scalar. |
| Document.RenderedModelLookup | main.go:312-314 | The `model` key is found at the same place after rendering, and it then holds the update's text. |
| Document.RenderedKeepsDefault | main.go:301-319 | Without an update, the default model reads the same after rendering. |
| Document.WithModelsKeepsName | main.go:162-172 | Replacing a client's models keeps its name pairs and its last child. |
| Document.RenderedTwice | main.go:224-319 | Rendering the output again with the same models and update gives it back unchanged. |
| Framing.WithMarker | main.go:121-123 | The guard only ever prepends: the original text is a suffix of the result. |
| Framing.WithMarkerSpec | main.go:121-123 | For a text of three bytes or more, the result starts with `---`, and the marker line is added exactly when the text did not start with `---`. Shorter texts are left alone, and the guard is idempotent. |
| Framing.OutputText | main.go:328 | The output text is the marshalled text without its leading and trailing white space, and nothing else changed. |

## Left out

- Command-line parsing, logging, `--quiet`/`--debug` and the exit code (`main.go:39-109`, `353-364`) are user interface, not reconciliation logic.
- The server is not modelled. This covers `createOllamaClient`, the `api_key`/`api_base` lookups that feed it (`main.go:177-197`), `getOllamaModels` and `getModelInfo` (`366-375`, `416-479`). The listing is an input to `Process.Run` (`Listed` or `ListFailed`), and the per-model answer is a function parameter `show`.
- The internals of `getModelParameters` (`main.go:377-414`) are not modelled. This covers the `.context_length` key search and the `strings.Fields`/`ParseFloat` scan of the parameter text. Its result is taken as given: a context length, then temperature and top_p as present-or-absent texts, then the capability list. A failed lookup gives the sentinels.
- Float formatting with `strconv.FormatFloat(_, 'f', 1, 64)` (`main.go:268`, `272`) is not modelled. A temperature or top_p is carried as the text the tool writes for it, and it is present exactly when the parsed value is positive.
- YAML parsing and marshalling (`main.go:127`, `324`) are not modelled. The tree is taken as parsed, and the output is the rendered root. Node tags, styles, anchors and line positions are not represented. Comments are kept or dropped only with their nodes.
- File reading and writing (`main.go:116`, `329-335`) are left out. The guard and the trimming are modelled on the texts.
- `cfgDefModelName` is only logged and has no effect, so it is not modelled.
- `config-struct.go` and `internal/util/dump.go` are not part of this model.
- Process.Run: the per-model `show` answers form one fixed function. The model does not capture a server whose answers change during a run.
- Reconcile.ModelList.SortByName: the contract gives a permutation sorted by name, not the exact order `sort.Slice` leaves equal names in.
- Process.SecondRunUnchanged: a second run is shown to give the same tree, not the same bytes, since marshalling is not modelled.
