/**
 * The entry the tool writes for a model it adds, built from what the model
 * inventory reports about that model.
 */
module Enrichment {
  import opened Wrappers
  import opened Sequences
  import opened GoStrings
  import opened YamlNode

  /** The capability tags the inventory reports (Ollama's `model.Capability`). */
  datatype Capability = Completion | Tools | Insert | Vision | Embedding | Thinking

  /**
   * What `getModelParameters` yields for one model: the context length
   * (-1 when unknown), the temperature and top_p (present only when the
   * parsed value is positive, as the text the tool writes for it), and the
   * capability list.
   */
  datatype ModelInfo = ModelInfo(contextLength: int, temperature: Option<string>, topP: Option<string>, capabilities: seq<Capability>)

  /** The inventory's answer to a "show model" request. */
  datatype ShowResult = Shown(info: ModelInfo) | ShowFailed

  /** getModelParameters: a failed lookup yields the sentinels (-1, -1, -1, no capabilities). */
  function ModelParameters(show: ShowResult): ModelInfo {
    match show
    case Shown(info) => info
    case ShowFailed => ModelInfo(-1, None, None, [])
  }

  /** One optional field of a new entry: written as `key: text` when `present`. */
  datatype FieldSpec = FieldSpec(present: bool, key: string, text: string)

  /** The context length as the tool writes it (strconv.Itoa); only used when positive. */
  function ContextText(contextLength: int): string {
    if contextLength > 0 then Decimal(contextLength) else ""
  }

  /** The optional fields of a new entry, in the order the tool appends them. */
  function OptionalFields(p: ModelInfo): seq<FieldSpec> {
    [FieldSpec(p.contextLength > 0, "max_input_tokens", ContextText(p.contextLength)),
     FieldSpec(p.temperature.Some?, "temperature", p.temperature.GetOr("")),
     FieldSpec(p.topP.Some?, "top_p", p.topP.GetOr("")),
     FieldSpec(Vision in p.capabilities, "supports_vision", "true"),
     FieldSpec(Tools in p.capabilities, "supports_function_calling", "true"),
     FieldSpec(Thinking in p.capabilities, "supports_reasoning", "true"),
     FieldSpec(Embedding in p.capabilities, "type", "embedding")]
  }

  /** Append `key: text` to a mapping's children when `present`. */
  function AppendField(content: seq<Node>, present: bool, key: string, text: string): seq<Node> {
    if present then content + [Scalar(key), Scalar(text)] else content
  }

  /** Append the fields one after the other, each only when present. */
  function AppendFields(content: seq<Node>, fields: seq<FieldSpec>): seq<Node>
    decreases |fields|
  {
    if fields == [] then content
    else AppendFields(AppendField(content, fields[0].present, fields[0].key, fields[0].text), fields[1..])
  }

  /** The mapping node the tool appends for a newly listed model. */
  function NewEntry(model: string, p: ModelInfo): Node {
    Node(MappingNode, "", AppendFields([Scalar("name"), Scalar(model)], OptionalFields(p)), NoComments)
  }

  /** The (key, value) texts of a mapping's children, read two at a time. */
  function Pairs(content: seq<Node>): seq<(string, string)>
    decreases |content|
  {
    if |content| < 2 then []
    else Pairs(content[..|content| - 2]) + [(content[|content| - 2].value, content[|content| - 1].value)]
  }

  function Keys(pairs: seq<(string, string)>): (keys: seq<string>)
    ensures |keys| == |pairs|
    ensures forall i :: 0 <= i < |pairs| ==> keys[i] == pairs[i].0
  {
    seq(|pairs|, i requires 0 <= i < |pairs| => pairs[i].0)
  }

  /** The pairs of the fields that are present, in order. */
  function PresentPairs(fields: seq<FieldSpec>): seq<(string, string)>
    decreases |fields|
  {
    if fields == [] then []
    else (if fields[0].present then [(fields[0].key, fields[0].text)] else []) + PresentPairs(fields[1..])
  }

  function FieldKeys(fields: seq<FieldSpec>): seq<string> {
    seq(|fields|, i requires 0 <= i < |fields| => fields[i].key)
  }

  /** The order in which the tool writes the fields of a new entry. */
  const FieldOrder: seq<string> :=
    ["name", "max_input_tokens", "temperature", "top_p",
     "supports_vision", "supports_function_calling", "supports_reasoning", "type"]

  lemma AppendFieldPairs(content: seq<Node>, present: bool, key: string, text: string)
    requires |content| % 2 == 0
    ensures |AppendField(content, present, key, text)| % 2 == 0
    ensures Pairs(AppendField(content, present, key, text))
         == Pairs(content) + (if present then [(key, text)] else [])
  {
    if present {
      var longer := AppendField(content, present, key, text);
      assert longer[..|longer| - 2] == content;
    }
  }

  /** Appending the fields keeps what was there and adds only scalars, two at a time. */
  lemma {:induction false} AppendFieldsShape(content: seq<Node>, fields: seq<FieldSpec>)
    ensures var r := AppendFields(content, fields);
      && |r| % 2 == |content| % 2 && |content| <= |r| && r[..|content|] == content
      && (forall i :: |content| <= i < |r| ==> r[i].kind == ScalarNode && r[i].content == [])
    decreases |fields|
  {
    if fields != [] {
      var f := fields[0];
      var next := AppendField(content, f.present, f.key, f.text);
      AppendFieldsShape(next, fields[1..]);
      var r := AppendFields(content, fields);
      assert r[..|content|] == content by {
        assert r[..|next|] == next;
        assert next[..|content|] == content;
      }
      forall i | |content| <= i < |r| ensures r[i].kind == ScalarNode && r[i].content == [] {
        if i < |next| {
          assert r[i] == next[i];
        }
      }
    }
  }

  /** Appending the fields adds exactly the present ones, in order. */
  lemma {:induction false} AppendFieldsPairs(content: seq<Node>, fields: seq<FieldSpec>)
    requires |content| % 2 == 0
    ensures Pairs(AppendFields(content, fields)) == Pairs(content) + PresentPairs(fields)
    decreases |fields|
  {
    if fields != [] {
      var f := fields[0];
      var next := AppendField(content, f.present, f.key, f.text);
      AppendFieldPairs(content, f.present, f.key, f.text);
      AppendFieldsPairs(next, fields[1..]);
      assert PresentPairs(fields) == (if f.present then [(f.key, f.text)] else []) + PresentPairs(fields[1..]);
    }
  }

  lemma {:induction false} PresentPairsMembers(fields: seq<FieldSpec>, k: string, t: string)
    ensures (k, t) in PresentPairs(fields) <==> exists i :: 0 <= i < |fields| && fields[i] == FieldSpec(true, k, t)
    decreases |fields|
  {
    if fields != [] {
      PresentPairsMembers(fields[1..], k, t);
      if (k, t) in PresentPairs(fields[1..]) {
        var i :| 0 <= i < |fields[1..]| && fields[1..][i] == FieldSpec(true, k, t);
        assert fields[i + 1] == FieldSpec(true, k, t);
      }
      if exists i :: 0 <= i < |fields| && fields[i] == FieldSpec(true, k, t) {
        var i :| 0 <= i < |fields| && fields[i] == FieldSpec(true, k, t);
        if i > 0 {
          assert fields[1..][i - 1] == FieldSpec(true, k, t);
        }
      }
    }
  }

  /** A key that only one field spec uses appears with that spec's text exactly when it is present. */
  lemma KeyedField(fields: seq<FieldSpec>, i: nat, k: string)
    requires i < |fields| && fields[i].key == k
    requires forall j :: 0 <= j < |fields| && j != i ==> fields[j].key != k
    ensures forall t :: (k, t) in PresentPairs(fields) <==> fields[i].present && t == fields[i].text
  {
    forall t ensures (k, t) in PresentPairs(fields) <==> fields[i].present && t == fields[i].text {
      PresentPairsMembers(fields, k, t);
    }
  }

  lemma KeysConcat(a: seq<(string, string)>, b: seq<(string, string)>)
    ensures Keys(a + b) == Keys(a) + Keys(b)
  {
  }

  lemma FieldKeysCons(fields: seq<FieldSpec>)
    requires fields != []
    ensures FieldKeys(fields) == [fields[0].key] + FieldKeys(fields[1..])
  {
  }

  /** The keys of the first field, when present, come before those of the rest. */
  lemma PresentKeysCons(fields: seq<FieldSpec>)
    requires fields != []
    ensures var f := fields[0];
      Keys(PresentPairs(fields)) == (if f.present then [f.key] else []) + Keys(PresentPairs(fields[1..]))
  {
    var f := fields[0];
    var first := if f.present then [(f.key, f.text)] else [];
    KeysConcat(first, PresentPairs(fields[1..]));
    assert Keys(first) == if f.present then [f.key] else [];
  }

  lemma {:induction false} PresentKeysInOrder(fields: seq<FieldSpec>)
    ensures IsSubsequence(Keys(PresentPairs(fields)), FieldKeys(fields))
    decreases |fields|
  {
    if fields != [] {
      var f := fields[0];
      var firstKeys: seq<string> := if f.present then [f.key] else [];
      PresentKeysInOrder(fields[1..]);
      PresentKeysCons(fields);
      FieldKeysCons(fields);
      SubsequenceReflexive([f.key]);
      assert IsSubsequence(firstKeys, [f.key]);
      SubsequenceConcat(firstKeys, [f.key], Keys(PresentPairs(fields[1..])), FieldKeys(fields[1..]));
    }
  }

  /** The pairs of a new entry: its name, then the present optional fields. */
  lemma NewEntryPairs(model: string, p: ModelInfo)
    ensures var e := NewEntry(model, p);
      && e.kind == MappingNode
      && |e.content| % 2 == 0
      && (forall i :: 0 <= i < |e.content| ==> e.content[i].kind == ScalarNode && e.content[i].content == [])
      && |e.content| >= 2 && e.content[..2] == [Scalar("name"), Scalar(model)]
      && Pairs(e.content) == [("name", model)] + PresentPairs(OptionalFields(p))
  {
    var head := [Scalar("name"), Scalar(model)];
    assert Pairs(head) == [("name", model)] by {
      assert head[..0] == [];
    }
    AppendFieldsShape(head, OptionalFields(p));
    AppendFieldsPairs(head, OptionalFields(p));
  }

  /** The optional fields' keys, in order. */
  lemma OptionalKeys(p: ModelInfo)
    ensures FieldKeys(OptionalFields(p)) == FieldOrder[1..]
  {
  }

  /**
   * A new entry is a mapping of childless scalars that starts with
   * `name: model`.
   */
  lemma NewEntryShape(model: string, p: ModelInfo)
    ensures var e := NewEntry(model, p);
      && e.kind == MappingNode
      && (forall i :: 0 <= i < |e.content| ==> e.content[i].kind == ScalarNode && e.content[i].content == [])
      && |e.content| >= 2 && e.content[..2] == [Scalar("name"), Scalar(model)]
  {
    NewEntryPairs(model, p);
  }

  /** A new entry lists its keys in the fixed order `name`, `max_input_tokens`, ..., `type`. */
  lemma NewEntryKeyOrder(model: string, p: ModelInfo)
    ensures IsSubsequence(Keys(Pairs(NewEntry(model, p).content)), FieldOrder)
  {
    NewEntryPairs(model, p);
    var fields := OptionalFields(p);
    var ps := PresentPairs(fields);
    PresentKeysInOrder(fields);
    OptionalKeys(p);
    KeysConcat([("name", model)], ps);
    assert Keys([("name", model)]) == ["name"];
    var keys := Keys(Pairs(NewEntry(model, p).content));
    assert keys == ["name"] + Keys(ps);
    SubsequenceReflexive(["name"]);
    SubsequenceConcat(["name"], ["name"], Keys(ps), FieldOrder[1..]);
    assert ["name"] + FieldOrder[1..] == FieldOrder;
    assert IsSubsequence(keys, FieldOrder);
  }

  /** The `i`-th optional field appears in a new entry exactly when present, with its text. */
  lemma EntryField(model: string, p: ModelInfo, i: nat)
    requires i < 7
    ensures var f := OptionalFields(p)[i];
      forall t :: (f.key, t) in Pairs(NewEntry(model, p).content) <==> f.present && t == f.text
  {
    var fields := OptionalFields(p);
    var head := [Scalar("name"), Scalar(model)];
    assert Pairs(head) == [("name", model)] by {
      assert head[..0] == [];
    }
    AppendFieldsPairs(head, fields);
    var ps := PresentPairs(fields);
    assert Pairs(NewEntry(model, p).content) == [("name", model)] + ps;
    KeyedField(fields, i, fields[i].key);
    assert fields[i].key != "name";
  }

  /** The numeric fields are written exactly when the inventory reported a positive value. */
  lemma NewEntryNumericFields(model: string, p: ModelInfo)
    ensures var ps := Pairs(NewEntry(model, p).content);
      && |ps| >= 1 && ps[0] == ("name", model)
      && (forall t :: ("max_input_tokens", t) in ps <==> p.contextLength > 0 && t == Decimal(p.contextLength))
      && (forall t :: ("temperature", t) in ps <==> p.temperature == Some(t))
      && (forall t :: ("top_p", t) in ps <==> p.topP == Some(t))
  {
    NewEntryPairs(model, p);
    EntryField(model, p, 0);
    EntryField(model, p, 1);
    EntryField(model, p, 2);
  }

  /** The capability fields are written, as `true` or as `type: embedding`, exactly when the capability is listed. */
  lemma NewEntryCapabilityFields(model: string, p: ModelInfo)
    ensures var ps := Pairs(NewEntry(model, p).content);
      && (forall t :: ("supports_vision", t) in ps <==> Vision in p.capabilities && t == "true")
      && (forall t :: ("supports_function_calling", t) in ps <==> Tools in p.capabilities && t == "true")
      && (forall t :: ("supports_reasoning", t) in ps <==> Thinking in p.capabilities && t == "true")
      && (forall t :: ("type", t) in ps <==> Embedding in p.capabilities && t == "embedding")
  {
    EntryField(model, p, 3);
    EntryField(model, p, 4);
    EntryField(model, p, 5);
    EntryField(model, p, 6);
  }

  /** The name lookup the reconciliation uses finds the model's name in a new entry. */
  lemma NewEntryNamed(model: string, p: ModelInfo)
    ensures Named(NewEntry(model, p), model)
    ensures NameOf(NewEntry(model, p)) == model
  {
    NewEntryPairs(model, p);
    var c := NewEntry(model, p).content;
    assert c[0] == Scalar("name") && c[1] == Scalar(model);
    assert PairAt(c, 0, "name", ScalarNode);
  }

  /** When the inventory lookup fails, the new entry holds its name and nothing else. */
  lemma FailedLookupGivesNameOnly(model: string)
    ensures NewEntry(model, ModelParameters(ShowFailed)).content == [Scalar("name"), Scalar(model)]
  {
    var fields := OptionalFields(ModelParameters(ShowFailed));
    var c := [Scalar("name"), Scalar(model)];
    assert AppendFields(c, fields) == AppendFields(c, fields[1..]);
    assert AppendFields(c, fields[1..]) == AppendFields(c, fields[2..]);
    assert AppendFields(c, fields[2..]) == AppendFields(c, fields[3..]);
    assert AppendFields(c, fields[3..]) == AppendFields(c, fields[4..]);
    assert AppendFields(c, fields[4..]) == AppendFields(c, fields[5..]);
    assert AppendFields(c, fields[5..]) == AppendFields(c, fields[6..]);
    assert AppendFields(c, fields[6..]) == AppendFields(c, fields[7..]);
  }
}
