/**
 * The four steps `process` applies to the chosen client's `models`
 * sequence: prune obsolete entries, append entries for newly listed models,
 * sort by name, and pick the entry the default-model override designates.
 */
module Reconcile {
  import opened Wrappers
  import opened Sequences
  import opened GoStrings
  import opened YamlNode
  import opened Enrichment

  /* ---------------------------------------------------------------------- */
  /* Prune                                                                  */
  /* ---------------------------------------------------------------------- */

  /** The prune step keeps an entry exactly when it has a `name` scalar that the inventory lists. */
  predicate Keeps(entry: Node, names: seq<string>) {
    HasNameField(entry) && NameOf(entry) in names
  }

  /** The entries the prune step keeps, in their order. */
  function Pruned(entries: seq<Node>, names: seq<string>): seq<Node>
    decreases |entries|
  {
    if entries == [] then []
    else
      var kept := Pruned(DropLast(entries), names);
      if Keeps(Last(entries), names) then kept + [Last(entries)] else kept
  }

  /**
   * Pruning keeps an order-preserving subsequence of the entries, the very
   * same nodes, holding exactly those whose `name` scalar is listed; entries
   * without a `name` scalar are dropped.
   */
  lemma {:induction false} PrunedSpec(entries: seq<Node>, names: seq<string>)
    ensures IsSubsequence(Pruned(entries, names), entries)
    ensures forall e :: e in Pruned(entries, names) <==> e in entries && Keeps(e, names)
    decreases |entries|
  {
    if entries != [] {
      var init := DropLast(entries);
      PrunedSpec(init, names);
      SubsequenceExtend(Pruned(init, names), init, Last(entries));
      assert init + [Last(entries)] == entries;
    }
  }

  /** Pruning a list whose every entry is kept changes nothing. */
  lemma {:induction false} PrunedAllKept(entries: seq<Node>, names: seq<string>)
    requires forall e :: e in entries ==> Keeps(e, names)
    ensures Pruned(entries, names) == entries
    decreases |entries|
  {
    if entries != [] {
      PrunedAllKept(DropLast(entries), names);
      assert DropLast(entries) + [Last(entries)] == entries;
    }
  }

  /* ---------------------------------------------------------------------- */
  /* Add                                                                    */
  /* ---------------------------------------------------------------------- */

  /** The entry appended for `model`, from the inventory's answer about it. */
  function NewEntryFor(model: string, show: string -> ShowResult): Node {
    NewEntry(model, ModelParameters(show(model)))
  }

  /**
   * The add step: each listed model, in order, gets a new entry appended
   * unless an entry of that name is already present (appended ones count).
   */
  function Added(entries: seq<Node>, names: seq<string>, show: string -> ShowResult): seq<Node>
    decreases |names|
  {
    if names == [] then entries
    else if HasEntryNamed(entries, names[0]) then Added(entries, names[1..], show)
    else Added(entries + [NewEntryFor(names[0], show)], names[1..], show)
  }

  lemma HasEntryNamedPrefix(prefix: seq<Node>, entries: seq<Node>, name: string)
    requires |prefix| <= |entries| && entries[..|prefix|] == prefix
    requires HasEntryNamed(prefix, name)
    ensures HasEntryNamed(entries, name)
  {
    var k :| 0 <= k < |prefix| && Named(prefix[k], name);
    assert entries[k] == prefix[k];
  }

  /** Adding only appends: the entries present before come first, unchanged and in order. */
  lemma {:induction false} AddedExtends(entries: seq<Node>, names: seq<string>, show: string -> ShowResult)
    ensures |entries| <= |Added(entries, names, show)|
    ensures Added(entries, names, show)[..|entries|] == entries
    decreases |names|
  {
    if names != [] {
      if HasEntryNamed(entries, names[0]) {
        AddedExtends(entries, names[1..], show);
      } else {
        var longer := entries + [NewEntryFor(names[0], show)];
        AddedExtends(longer, names[1..], show);
        assert longer[..|entries|] == entries;
      }
    }
  }

  /** After adding, every listed model has an entry. */
  lemma {:induction false} AddedCovers(entries: seq<Node>, names: seq<string>, show: string -> ShowResult)
    ensures forall n :: n in names ==> HasEntryNamed(Added(entries, names, show), n)
    decreases |names|
  {
    if names != [] {
      var r := Added(entries, names, show);
      var next := if HasEntryNamed(entries, names[0]) then entries else entries + [NewEntryFor(names[0], show)];
      assert r == Added(next, names[1..], show);
      AddedCovers(next, names[1..], show);
      AddedExtends(next, names[1..], show);
      if !HasEntryNamed(entries, names[0]) {
        NewEntryNamed(names[0], ModelParameters(show(names[0])));
        assert Named(next[|entries|], names[0]);
      }
      HasEntryNamedPrefix(next, r, names[0]);
      forall n | n in names ensures HasEntryNamed(r, n) {
        if n != names[0] {
          assert n in names[1..];
        }
      }
    }
  }

  /**
   * Every appended entry is the new entry for a listed model that had no
   * entry before it, so nothing is appended for a model already present
   * and no model gets two appended entries.
   */
  lemma {:induction false} AddedAppendsMissing(entries: seq<Node>, names: seq<string>, show: string -> ShowResult)
    ensures var r := Added(entries, names, show);
      forall k :: |entries| <= k < |r| ==>
        && HasNameField(r[k]) && NameOf(r[k]) in names
        && !HasEntryNamed(r[..k], NameOf(r[k]))
        && r[k] == NewEntryFor(NameOf(r[k]), show)
    decreases |names|
  {
    if names != [] {
      var r := Added(entries, names, show);
      var rest := names[1..];
      var present := HasEntryNamed(entries, names[0]);
      var next := if present then entries else entries + [NewEntryFor(names[0], show)];
      assert r == Added(next, rest, show);
      AddedAppendsMissing(next, rest, show);
      if !present {
        AddedExtends(next, rest, show);
        AppendedEntry(entries, names[0], show, r);
      }
      forall k | |entries| <= k < |r|
        ensures HasNameField(r[k]) && NameOf(r[k]) in names
        ensures !HasEntryNamed(r[..k], NameOf(r[k]))
        ensures r[k] == NewEntryFor(NameOf(r[k]), show)
      {
        if k >= |next| {
          assert NameOf(r[k]) in rest;
        }
      }
    }
  }

  /** The entry appended for a missing model is its new entry, named after it. */
  lemma AppendedEntry(entries: seq<Node>, name: string, show: string -> ShowResult, r: seq<Node>)
    requires !HasEntryNamed(entries, name)
    requires |entries| < |r| && r[..|entries| + 1] == entries + [NewEntryFor(name, show)]
    ensures HasNameField(r[|entries|]) && NameOf(r[|entries|]) == name
    ensures !HasEntryNamed(r[..|entries|], name)
    ensures r[|entries|] == NewEntryFor(name, show)
  {
    assert r[|entries|] == r[..|entries| + 1][|entries|];
    assert r[..|entries|] == r[..|entries| + 1][..|entries|];
    NewEntryNamed(name, ModelParameters(show(name)));
  }

  /** When every listed model already has an entry, adding changes nothing. */
  lemma {:induction false} AddedNothingMissing(entries: seq<Node>, names: seq<string>, show: string -> ShowResult)
    requires forall n :: n in names ==> HasEntryNamed(entries, n)
    ensures Added(entries, names, show) == entries
    decreases |names|
  {
    if names != [] {
      assert names[0] in names;
      AddedNothingMissing(entries, names[1..], show);
    }
  }

  /* ---------------------------------------------------------------------- */
  /* Sort                                                                   */
  /* ---------------------------------------------------------------------- */

  /** Names in non-decreasing order, as `sort.Slice` with `aName.Value < bName.Value` leaves them. */
  predicate SortedByName(entries: seq<Node>) {
    forall i, j :: 0 <= i < j < |entries| ==> LexLeq(NameOf(entries[i]), NameOf(entries[j]))
  }

  /** Insert `e` after every entry whose name is not greater than its own. */
  function InsertByName(sorted: seq<Node>, e: Node): seq<Node>
    decreases |sorted|
  {
    if sorted == [] || LexLess(NameOf(e), NameOf(sorted[0])) then [e] + sorted
    else [sorted[0]] + InsertByName(sorted[1..], e)
  }

  /** Insertion adds `e` to the entries and loses none. */
  lemma {:induction false} InsertByNamePermutes(sorted: seq<Node>, e: Node)
    ensures multiset(InsertByName(sorted, e)) == multiset(sorted) + multiset{e}
    decreases |sorted|
  {
    if sorted != [] && !LexLess(NameOf(e), NameOf(sorted[0])) {
      InsertByNamePermutes(sorted[1..], e);
      assert sorted == [sorted[0]] + sorted[1..];
    }
  }

  /** An entry whose name is not greater than any in a sorted list can go in front of it. */
  lemma ConsSorted(head: Node, rest: seq<Node>)
    requires SortedByName(rest)
    requires forall x :: x in rest ==> LexLeq(NameOf(head), NameOf(x))
    ensures SortedByName([head] + rest)
  {
    var r := [head] + rest;
    forall i, j | 0 <= i < j < |r| ensures LexLeq(NameOf(r[i]), NameOf(r[j])) {
      assert r[j] == rest[j - 1];
      if i > 0 {
        assert r[i] == rest[i - 1];
      }
    }
  }

  /** In a sorted list every entry's name is at least the first one's. */
  lemma SortedHeadBound(sorted: seq<Node>)
    requires SortedByName(sorted) && sorted != []
    ensures forall x :: x in sorted ==> LexLeq(NameOf(sorted[0]), NameOf(x))
  {
    forall x | x in sorted ensures LexLeq(NameOf(sorted[0]), NameOf(x)) {
      var k :| 0 <= k < |sorted| && sorted[k] == x;
      if k == 0 {
        assert x == sorted[0];
      }
    }
  }

  /** Insertion keeps a sorted list sorted. */
  lemma {:induction false} InsertByNameSorted(sorted: seq<Node>, e: Node)
    requires SortedByName(sorted)
    ensures SortedByName(InsertByName(sorted, e))
    decreases |sorted|
  {
    if sorted == [] {
      assert InsertByName(sorted, e) == [e];
    } else if LexLess(NameOf(e), NameOf(sorted[0])) {
      SortedHeadBound(sorted);
      forall x | x in sorted ensures LexLeq(NameOf(e), NameOf(x)) {
        LexLeqTransitive(NameOf(e), NameOf(sorted[0]), NameOf(x));
      }
      ConsSorted(e, sorted);
    } else {
      var head := sorted[0];
      var tail := sorted[1..];
      var rest := InsertByName(tail, e);
      SortedTail(sorted);
      InsertByNameSorted(tail, e);
      InsertByNamePermutes(tail, e);
      SortedHeadBound(sorted);
      LexTotal(NameOf(e), NameOf(head));
      forall x | x in rest ensures LexLeq(NameOf(head), NameOf(x)) {
        assert x in multiset(rest);
        if x != e {
          assert x in multiset(tail);
          assert x in sorted;
        }
      }
      ConsSorted(head, rest);
    }
  }

  /* ---------------------------------------------------------------------- */
  /* Default-model override                                                 */
  /* ---------------------------------------------------------------------- */

  /** The entry has a `name` scalar containing the override text. */
  predicate MatchesOverride(entry: Node, part: string) {
    HasNameField(entry) && Contains(NameOf(entry), part)
  }

  /** The name of the first entry, in list order, matching the override. */
  function FirstContaining(entries: seq<Node>, part: string): Option<string>
    decreases |entries|
  {
    if entries == [] then None
    else if MatchesOverride(entries[0], part) then Some(NameOf(entries[0]))
    else FirstContaining(entries[1..], part)
  }

  /** The override picks nothing exactly when no entry matches. */
  lemma {:induction false} FirstContainingNone(entries: seq<Node>, part: string)
    ensures FirstContaining(entries, part).None? <==> forall k :: 0 <= k < |entries| ==> !MatchesOverride(entries[k], part)
    decreases |entries|
  {
    if entries != [] && !MatchesOverride(entries[0], part) {
      FirstContainingNone(entries[1..], part);
      if FirstContaining(entries, part).None? {
        forall k | 0 <= k < |entries| ensures !MatchesOverride(entries[k], part) {
          if k > 0 {
            assert entries[k] == entries[1..][k - 1];
          }
        }
      } else {
        var k :| 0 <= k < |entries[1..]| && MatchesOverride(entries[1..][k], part);
        assert entries[k + 1] == entries[1..][k];
      }
    }
  }

  /** The override picks the name of the first matching entry. */
  lemma {:induction false} FirstContainingSpec(entries: seq<Node>, part: string)
    requires FirstContaining(entries, part).Some?
    ensures exists k :: 0 <= k < |entries| && MatchesOverride(entries[k], part)
                        && NameOf(entries[k]) == FirstContaining(entries, part).value
                        && forall j :: 0 <= j < k ==> !MatchesOverride(entries[j], part)
    decreases |entries|
  {
    if !MatchesOverride(entries[0], part) {
      var tail := entries[1..];
      var name := FirstContaining(entries, part).value;
      assert FirstContaining(tail, part) == Some(name);
      FirstContainingSpec(tail, part);
      var k :| 0 <= k < |tail| && MatchesOverride(tail[k], part) && NameOf(tail[k]) == name
               && forall j :: 0 <= j < k ==> !MatchesOverride(tail[j], part);
      assert entries[k + 1] == tail[k];
      forall j | 0 <= j < k + 1 ensures !MatchesOverride(entries[j], part) {
        if j > 0 {
          assert entries[j] == tail[j - 1];
        }
      }
    }
  }

  /** On a list sorted by name, the override picks the least matching name. */
  lemma FirstContainingIsLeast(entries: seq<Node>, part: string)
    requires SortedByName(entries)
    requires FirstContaining(entries, part).Some?
    ensures forall k :: 0 <= k < |entries| && MatchesOverride(entries[k], part)
              ==> LexLeq(FirstContaining(entries, part).value, NameOf(entries[k]))
  {
    FirstContainingSpec(entries, part);
    var first :| 0 <= first < |entries| && MatchesOverride(entries[first], part)
                 && NameOf(entries[first]) == FirstContaining(entries, part).value
                 && forall j :: 0 <= j < first ==> !MatchesOverride(entries[j], part);
    forall k | 0 <= k < |entries| && MatchesOverride(entries[k], part)
      ensures LexLeq(FirstContaining(entries, part).value, NameOf(entries[k]))
    {
      assert first <= k;
    }
  }

  /* ---------------------------------------------------------------------- */
  /* The steps together                                                     */
  /* ---------------------------------------------------------------------- */

  /**
   * `after` is what prune, add and sort make of `before`: the pruned and
   * extended entries in some order sorted by name (`sort.Slice` is not
   * stable, so the order of equal names is left open).
   */
  predicate Reconciled(before: seq<Node>, names: seq<string>, show: string -> ShowResult, after: seq<Node>) {
    multiset(after) == multiset(Added(Pruned(before, names), names, show)) && SortedByName(after)
  }

  lemma HasEntryNamedMember(entries: seq<Node>, name: string)
    ensures HasEntryNamed(entries, name) <==> exists x :: x in entries && Named(x, name)
  {
    if exists x :: x in entries && Named(x, name) {
      var x :| x in entries && Named(x, name);
      var k :| 0 <= k < |entries| && entries[k] == x;
    }
  }

  /** Where an entry of the extended list comes from: the pruned list, or an appended new entry. */
  lemma AddedOrigin(pruned: seq<Node>, names: seq<string>, show: string -> ShowResult, x: Node)
    requires x in Added(pruned, names, show)
    ensures x in pruned || (Keeps(x, names) && x == NewEntryFor(NameOf(x), show))
  {
    var r := Added(pruned, names, show);
    AddedExtends(pruned, names, show);
    AddedAppendsMissing(pruned, names, show);
    var k :| 0 <= k < |r| && r[k] == x;
    if k < |pruned| {
      assert pruned[k] == x;
    }
  }

  /**
   * After the steps, an entry that was there stays exactly when its model
   * is listed; every entry left names a listed model; every listed model
   * has an entry; and every entry that was not there before is the new
   * entry built for its model, one for each listed model that had none.
   */
  lemma ReconciledContents(before: seq<Node>, names: seq<string>, show: string -> ShowResult, after: seq<Node>)
    requires Reconciled(before, names, show, after)
    ensures forall e :: e in before ==> (e in after <==> Keeps(e, names))
    ensures forall e :: e in after ==> Keeps(e, names)
    ensures forall n :: n in names ==> HasEntryNamed(after, n)
    ensures forall e :: e in after && e !in before ==> e == NewEntryFor(NameOf(e), show)
    ensures forall n :: n in names && !HasEntryNamed(before, n) ==> NewEntryFor(n, show) in after
  {
    var pruned := Pruned(before, names);
    var r := Added(pruned, names, show);
    assert forall x :: x in after <==> x in r by {
      forall x ensures x in after <==> x in r {
        assert x in after <==> x in multiset(after);
      }
    }
    PrunedSpec(before, names);
    AddedExtends(pruned, names, show);
    forall e | e in pruned ensures e in r {
      var k :| 0 <= k < |pruned| && pruned[k] == e;
      assert r[k] == e;
    }
    forall e | e in after ensures Keeps(e, names) && (e !in before ==> e == NewEntryFor(NameOf(e), show)) {
      AddedOrigin(pruned, names, show, e);
    }
    AddedCovers(pruned, names, show);
    forall n | n in names ensures HasEntryNamed(after, n) {
      HasEntryNamedMember(r, n);
      HasEntryNamedMember(after, n);
    }
    forall n | n in names && !HasEntryNamed(before, n) ensures NewEntryFor(n, show) in after {
      HasEntryNamedMember(r, n);
      HasEntryNamedMember(before, n);
      var x :| x in r && Named(x, n);
      AddedOrigin(pruned, names, show, x);
    }
  }

  /** Distinct `name` scalars among the entries that have one. */
  predicate DistinctNames(entries: seq<Node>) {
    forall i, j :: 0 <= i < j < |entries| && HasNameField(entries[i]) && HasNameField(entries[j])
      ==> NameOf(entries[i]) != NameOf(entries[j])
  }

  /** No entry occurs twice and no two entries share a name. */
  ghost predicate NamesUnique(m: multiset<Node>) {
    (forall x | x in m :: m[x] <= 1) && forall x, y :: x in m && y in m && NameOf(x) == NameOf(y) ==> x == y
  }

  /** Dropping the last entry keeps the names distinct, and the last name differs from every earlier one. */
  lemma DistinctNamesInit(entries: seq<Node>)
    requires DistinctNames(entries) && entries != []
    ensures DistinctNames(DropLast(entries))
    ensures forall x :: x in DropLast(entries) && HasNameField(x) && HasNameField(Last(entries))
              ==> NameOf(x) != NameOf(Last(entries))
  {
    var init := DropLast(entries);
    forall i, j | 0 <= i < j < |init| && HasNameField(init[i]) && HasNameField(init[j])
      ensures NameOf(init[i]) != NameOf(init[j])
    {
      assert init[i] == entries[i] && init[j] == entries[j];
    }
    forall x | x in init ensures HasNameField(x) && HasNameField(Last(entries)) ==> NameOf(x) != NameOf(Last(entries)) {
      var k :| 0 <= k < |init| && init[k] == x;
      assert entries[k] == x;
    }
  }

  /** Appending an entry whose name is new keeps the entries uniquely named. */
  lemma NamesUniqueSnoc(init: seq<Node>, last: Node)
    requires NamesUnique(multiset(init))
    requires forall x :: x in init ==> NameOf(x) != NameOf(last)
    ensures NamesUnique(multiset(init + [last]))
  {
    assert last !in multiset(init);
    assert multiset(init + [last]) == multiset(init) + multiset{last};
  }

  lemma {:induction false} PrunedDistinct(entries: seq<Node>, names: seq<string>)
    requires DistinctNames(entries)
    ensures DistinctNames(Pruned(entries, names))
    decreases |entries|
  {
    if entries != [] {
      var init := DropLast(entries);
      var last := Last(entries);
      var kept := Pruned(init, names);
      DistinctNamesInit(entries);
      PrunedDistinct(init, names);
      PrunedSpec(init, names);
      if Keeps(last, names) {
        var r := kept + [last];
        forall i, j | 0 <= i < j < |r| && HasNameField(r[i]) && HasNameField(r[j])
          ensures NameOf(r[i]) != NameOf(r[j])
        {
          if j == |kept| {
            assert r[i] in init;
          } else {
            assert r[i] == kept[i] && r[j] == kept[j];
          }
        }
      }
    }
  }

  lemma AddedDistinct(entries: seq<Node>, names: seq<string>, show: string -> ShowResult)
    requires DistinctNames(entries)
    ensures DistinctNames(Added(entries, names, show))
  {
    var r := Added(entries, names, show);
    AddedExtends(entries, names, show);
    AddedAppendsMissing(entries, names, show);
    forall i, j | 0 <= i < j < |r| && HasNameField(r[i]) && HasNameField(r[j])
      ensures NameOf(r[i]) != NameOf(r[j])
    {
      if j >= |entries| {
        assert r[..j][i] == r[i];
        assert !Named(r[..j][i], NameOf(r[j]));
      } else {
        assert r[i] == entries[i] && r[j] == entries[j];
      }
    }
  }

  lemma {:induction false} DistinctNamesUnique(entries: seq<Node>)
    requires DistinctNames(entries)
    requires forall e :: e in entries ==> HasNameField(e)
    ensures NamesUnique(multiset(entries))
    decreases |entries|
  {
    if entries != [] {
      var init := DropLast(entries);
      var last := Last(entries);
      assert entries == init + [last];
      DistinctNamesInit(entries);
      DistinctNamesUnique(init);
      NamesUniqueSnoc(init, last);
    }
  }

  /** Two name-sorted orderings of the same uniquely named entries start alike. */
  lemma SortedSameHead(a: seq<Node>, b: seq<Node>)
    requires SortedByName(a) && SortedByName(b)
    requires multiset(a) == multiset(b)
    requires NamesUnique(multiset(a))
    requires a != [] && b != []
    ensures a[0] == b[0]
  {
    assert a[0] in multiset(b) && b[0] in multiset(a);
    var k :| 0 <= k < |b| && b[k] == a[0];
    var k' :| 0 <= k' < |a| && a[k'] == b[0];
    assert LexLeq(NameOf(a[0]), NameOf(a[k']));
    assert LexLeq(NameOf(b[0]), NameOf(b[k]));
    LexLeqAntisymmetric(NameOf(a[0]), NameOf(b[0]));
  }

  lemma NamesUniqueTail(a: seq<Node>)
    requires NamesUnique(multiset(a)) && a != []
    ensures NamesUnique(multiset(a[1..]))
  {
    assert a == [a[0]] + a[1..];
    assert multiset(a[1..]) <= multiset(a);
  }

  lemma TailMultiset(a: seq<Node>)
    requires a != []
    ensures multiset(a[1..]) == multiset(a) - multiset{a[0]}
  {
    assert a == [a[0]] + a[1..];
  }

  lemma SortedTail(a: seq<Node>)
    requires SortedByName(a) && a != []
    ensures SortedByName(a[1..])
  {
    forall i, j | 0 <= i < j < |a[1..]| ensures LexLeq(NameOf(a[1..][i]), NameOf(a[1..][j])) {
      assert a[1..][i] == a[i + 1] && a[1..][j] == a[j + 1];
    }
  }

  /** Two name-sorted orderings of the same uniquely named entries are the same list. */
  lemma {:induction false} SortedUnique(a: seq<Node>, b: seq<Node>)
    requires SortedByName(a) && SortedByName(b)
    requires multiset(a) == multiset(b)
    requires NamesUnique(multiset(a))
    ensures a == b
    decreases |a|
  {
    assert |a| == |multiset(a)| == |multiset(b)| == |b|;
    if a != [] {
      SortedUniqueStep(a, b);
      SortedUnique(a[1..], b[1..]);
      assert a == [a[0]] + a[1..] && b == [b[0]] + b[1..];
    }
  }

  /** Both orderings start with the same entry, and their tails meet the same conditions. */
  lemma SortedUniqueStep(a: seq<Node>, b: seq<Node>)
    requires SortedByName(a) && SortedByName(b)
    requires multiset(a) == multiset(b)
    requires NamesUnique(multiset(a))
    requires a != [] && b != []
    ensures a[0] == b[0]
    ensures SortedByName(a[1..]) && SortedByName(b[1..])
    ensures multiset(a[1..]) == multiset(b[1..])
    ensures NamesUnique(multiset(a[1..]))
  {
    SortedSameHead(a, b);
    TailMultiset(a);
    TailMultiset(b);
    NamesUniqueTail(a);
    SortedTail(a);
    SortedTail(b);
  }

  /** The reconciled entries are uniquely named when the named entries before had distinct names. */
  lemma ReconciledNamesUnique(before: seq<Node>, names: seq<string>, show: string -> ShowResult, after: seq<Node>)
    requires DistinctNames(before)
    requires Reconciled(before, names, show, after)
    ensures NamesUnique(multiset(after))
  {
    var pruned := Pruned(before, names);
    var r := Added(pruned, names, show);
    PrunedDistinct(before, names);
    AddedDistinct(pruned, names, show);
    PrunedSpec(before, names);
    forall e | e in r ensures HasNameField(e) {
      AddedOrigin(pruned, names, show, e);
    }
    DistinctNamesUnique(r);
  }

  /**
   * The sorted result is fully determined, whatever order the unstable
   * sort picks, provided the named entries had distinct names.
   */
  lemma ReconciledDeterministic(before: seq<Node>, names: seq<string>, show: string -> ShowResult,
                                one: seq<Node>, other: seq<Node>)
    requires DistinctNames(before)
    requires Reconciled(before, names, show, one)
    requires Reconciled(before, names, show, other)
    ensures one == other
  {
    ReconciledNamesUnique(before, names, show, one);
    SortedUnique(one, other);
  }

  /** A reconciled list is its own reconciliation: every entry is kept and no model is missing. */
  lemma ReconciledFixpoint(before: seq<Node>, names: seq<string>, show: string -> ShowResult, after: seq<Node>)
    requires Reconciled(before, names, show, after)
    ensures Reconciled(after, names, show, after)
  {
    ReconciledContents(before, names, show, after);
    PrunedAllKept(after, names);
    AddedNothingMissing(after, names, show);
  }

  /**
   * Running the steps a second time, with the same listing, leaves the
   * result unchanged, provided the entries that had a name started out
   * with distinct names.
   */
  lemma ReconciledIdempotent(before: seq<Node>, names: seq<string>, show: string -> ShowResult,
                             after: seq<Node>, again: seq<Node>)
    requires DistinctNames(before)
    requires Reconciled(before, names, show, after)
    requires Reconciled(after, names, show, again)
    ensures again == after
  {
    ReconciledNamesUnique(before, names, show, after);
    ReconciledFixpoint(before, names, show, after);
    SortedUnique(after, again);
  }

  /** The inner scan of the add step: does some entry carry `model` as its name? */
  method HasModel(entries: seq<Node>, model: string) returns (found: bool)
    ensures found <==> HasEntryNamed(entries, model)
  {
    found := false;
    var j := 0;
    while j < |entries|
      invariant 0 <= j <= |entries|
      invariant forall k :: 0 <= k < j ==> !Named(entries[k], model)
    {
      var nameNode, ok := GetNodeValue(entries[j], "name", ScalarNode);
      if ok && nameNode.value == model {
        found := true;
        return;
      }
      j := j + 1;
    }
  }

  /** The chosen client's `models` node (`cfgOllamaModels`), whose children the steps replace. */
  class ModelList {
    var content: seq<Node>

    constructor (entries: seq<Node>)
      ensures content == entries
    {
      content := entries;
    }

    /** Remove obsolete models: rebuild the children from the kept entries. */
    method Prune(names: seq<string>)
      modifies this
      ensures content == Pruned(old(content), names)
    {
      var entries := content;
      var kept: seq<Node> := [];
      var i := 0;
      while i < |entries|
        invariant 0 <= i <= |entries|
        invariant kept == Pruned(entries[..i], names)
      {
        var nameNode, ok := GetNodeValue(entries[i], "name", ScalarNode);
        if ok {
          if nameNode.value in names {
            kept := kept + [entries[i]];
          }
        }
        assert DropLast(entries[..i + 1]) == entries[..i];
        i := i + 1;
      }
      assert entries[..i] == entries;
      content := kept;
    }

    /** Add new models: for each listed model without an entry, append a new one. */
    method AddMissing(names: seq<string>, show: string -> ShowResult)
      modifies this
      ensures content == Added(old(content), names, show)
    {
      var entries := content;
      var i := 0;
      while i < |names|
        invariant 0 <= i <= |names|
        invariant Added(entries, names[i..], show) == Added(old(content), names, show)
      {
        var model := names[i];
        var found := HasModel(entries, model);
        assert names[i..][1..] == names[i + 1..];
        if !found {
          var info := ModelParameters(show(model));
          entries := entries + [NewEntry(model, info)];
        }
        i := i + 1;
      }
      content := entries;
    }

    /** Sort the models by name; equal names may end up in either order. */
    method SortByName()
      modifies this
      ensures multiset(content) == multiset(old(content))
      ensures SortedByName(content)
    {
      var entries := content;
      var sorted: seq<Node> := [];
      var i := 0;
      while i < |entries|
        invariant 0 <= i <= |entries|
        invariant SortedByName(sorted)
        invariant multiset(sorted) == multiset(entries[..i])
      {
        InsertByNamePermutes(sorted, entries[i]);
        InsertByNameSorted(sorted, entries[i]);
        sorted := InsertByName(sorted, entries[i]);
        assert entries[..i + 1] == entries[..i] + [entries[i]];
        i := i + 1;
      }
      assert entries[..i] == entries;
      content := sorted;
    }

    /** The default-model override: the first entry, in the current order, whose name contains `part`. */
    method FirstNameContaining(part: string) returns (desired: string)
      ensures desired == FirstContaining(content, part).GetOr("")
      ensures desired != "" ==> exists k :: 0 <= k < |content| && MatchesOverride(content[k], part) && NameOf(content[k]) == desired
      ensures part != "" ==> (desired != "" <==> FirstContaining(content, part).Some?)
      ensures part != "" && desired == "" ==> forall k :: 0 <= k < |content| ==> !MatchesOverride(content[k], part)
    {
      desired := "";
      var i := 0;
      while i < |content|
        invariant 0 <= i <= |content|
        invariant FirstContaining(content, part) == FirstContaining(content[i..], part)
        invariant desired == ""
      {
        var nameNode, ok := GetNodeValue(content[i], "name", ScalarNode);
        if ok {
          if Contains(nameNode.value, part) {
            desired := nameNode.value;
            break;
          }
        }
        assert content[i..][1..] == content[i + 1..];
        i := i + 1;
      }
      FirstContainingNone(content, part);
      if FirstContaining(content, part).Some? {
        FirstContainingSpec(content, part);
        if part != "" {
          assert Contains(FirstContaining(content, part).value, part);
        }
      }
    }
  }
}
