/**
 * The `--exclude` option: a comma-separated list of substrings; every listed
 * model whose name contains one of them is dropped before reconciliation.
 * The pieces are used exactly as split, without trimming.
 */
module Exclusion {
  import opened Sequences
  import opened GoStrings

  /** Some piece occurs in `model`. */
  predicate IsExcluded(model: string, pieces: seq<string>) {
    exists p :: p in pieces && Contains(model, p)
  }

  /** lo.Filter keeping the models that contain none of the pieces, in their order. */
  function WithoutExcluded(models: seq<string>, pieces: seq<string>): seq<string>
    decreases |models|
  {
    if models == [] then []
    else
      var kept := WithoutExcluded(DropLast(models), pieces);
      if IsExcluded(Last(models), pieces) then kept else kept + [Last(models)]
  }

  /** The authoritative model list after applying the exclusion option. */
  function ExcludeModels(models: seq<string>, option: string): seq<string> {
    if option == "" then models else WithoutExcluded(models, Split(option, ','))
  }

  /** The kept models are an order-preserving subsequence holding exactly the unexcluded models. */
  lemma {:induction false} WithoutExcludedSpec(models: seq<string>, pieces: seq<string>)
    ensures IsSubsequence(WithoutExcluded(models, pieces), models)
    ensures forall m :: m in WithoutExcluded(models, pieces) <==> m in models && !IsExcluded(m, pieces)
    decreases |models|
  {
    if models != [] {
      var init := DropLast(models);
      WithoutExcludedSpec(init, pieces);
      SubsequenceExtend(WithoutExcluded(init, pieces), init, Last(models));
      assert init + [Last(models)] == models;
    }
  }

  /**
   * After exclusion the list keeps its order and holds exactly the models
   * that contain none of the comma-separated pieces; an empty option leaves
   * it unchanged.
   */
  lemma ExcludeModelsSpec(models: seq<string>, option: string)
    ensures option == "" ==> ExcludeModels(models, option) == models
    ensures IsSubsequence(ExcludeModels(models, option), models)
    ensures option != "" ==> forall m ::
      m in ExcludeModels(models, option) <==> m in models && !IsExcluded(m, Split(option, ','))
  {
    if option == "" {
      SubsequenceReflexive(models);
    } else {
      WithoutExcludedSpec(models, Split(option, ','));
    }
  }

  /** An empty piece excludes every model. */
  lemma {:induction false} EmptyPieceExcludesAll(models: seq<string>, pieces: seq<string>)
    requires "" in pieces
    ensures WithoutExcluded(models, pieces) == []
    decreases |models|
  {
    if models != [] {
      ContainsEmpty(Last(models));
      EmptyPieceExcludesAll(DropLast(models), pieces);
    }
  }

  /** Splitting a text that ends with the separator yields an empty last piece. */
  lemma {:induction false} SplitTrailingSeparator(s: string, sep: char)
    ensures |Split(s + [sep], sep)| >= 2 && Last(Split(s + [sep], sep)) == ""
    decreases |s|
  {
    if s == [] {
      assert Split([sep], sep) == [""] + Split([], sep);
    } else {
      SplitTrailingSeparator(s[1..], sep);
      assert (s + [sep])[1..] == s[1..] + [sep];
    }
  }

  /** An option with a trailing comma (such as "llama,") excludes every model. */
  lemma TrailingCommaExcludesAll(models: seq<string>, option: string)
    requires option != [] && Last(option) == ','
    ensures ExcludeModels(models, option) == []
  {
    SplitTrailingSeparator(DropLast(option), ',');
    assert DropLast(option) + [','] == option;
    EmptyPieceExcludesAll(models, Split(option, ','));
  }
}
