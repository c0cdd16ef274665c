/** Order-preserving subsequences, the shape shared by every filter in the tool. */
module Sequences {

  function Last<T>(s: seq<T>): T
    requires s != []
  {
    s[|s| - 1]
  }

  function DropLast<T>(s: seq<T>): seq<T>
    requires s != []
  {
    s[..|s| - 1]
  }

  /** `a` is obtained from `b` by deleting elements, keeping the order of the rest. */
  predicate IsSubsequence<T(==)>(a: seq<T>, b: seq<T>)
    decreases |b|
  {
    if a == [] then true
    else if b == [] then false
    else if Last(a) == Last(b) then IsSubsequence(DropLast(a), DropLast(b))
    else IsSubsequence(a, DropLast(b))
  }

  lemma {:induction false} SubsequenceDropLast<T>(a: seq<T>, b: seq<T>)
    requires a != [] && IsSubsequence(a, b)
    ensures IsSubsequence(DropLast(a), b)
    decreases |b|, 0
  {
    if DropLast(a) == [] {
    } else if Last(a) == Last(b) {
      SubsequenceDropLast(DropLast(a), DropLast(b));
      SubsequenceExtend(DropLast(DropLast(a)), DropLast(b), Last(b));
      assert DropLast(b) + [Last(b)] == b;
    } else {
      SubsequenceDropLast(a, DropLast(b));
      SubsequenceExtend(DropLast(a), DropLast(b), Last(b));
      assert DropLast(b) + [Last(b)] == b;
    }
  }

  /** Appending to the larger sequence keeps a subsequence a subsequence. */
  lemma {:induction false} SubsequenceExtend<T>(a: seq<T>, b: seq<T>, x: T)
    requires IsSubsequence(a, b)
    ensures IsSubsequence(a, b + [x])
    ensures IsSubsequence(a + [x], b + [x])
    decreases |b|, 1
  {
    assert DropLast(b + [x]) == b;
    assert DropLast(a + [x]) == a;
    if a != [] && Last(a) == x {
      SubsequenceDropLast(a, b);
    }
  }

  lemma {:induction false} SubsequenceMembers<T>(a: seq<T>, b: seq<T>)
    requires IsSubsequence(a, b)
    ensures forall x :: x in a ==> x in b
    decreases |b|
  {
    if a == [] {
    } else if Last(a) == Last(b) {
      SubsequenceMembers(DropLast(a), DropLast(b));
      assert a == DropLast(a) + [Last(a)];
      assert b == DropLast(b) + [Last(b)];
    } else {
      SubsequenceMembers(a, DropLast(b));
      assert b == DropLast(b) + [Last(b)];
    }
  }

  lemma {:induction false} SubsequenceReflexive<T>(s: seq<T>)
    ensures IsSubsequence(s, s)
    decreases |s|
  {
    if s != [] {
      SubsequenceReflexive(DropLast(s));
    }
  }

  /** Subsequences of the two halves of a concatenation concatenate. */
  lemma {:induction false} SubsequenceConcat<T>(a1: seq<T>, b1: seq<T>, a2: seq<T>, b2: seq<T>)
    requires IsSubsequence(a1, b1) && IsSubsequence(a2, b2)
    ensures IsSubsequence(a1 + a2, b1 + b2)
    decreases |b2|
  {
    if b2 == [] {
      assert a2 == [];
      assert a1 + a2 == a1 && b1 + b2 == b1;
    } else if a2 == [] {
      SubsequenceConcat(a1, b1, a2, DropLast(b2));
      SubsequenceExtend(a1 + a2, b1 + DropLast(b2), Last(b2));
      assert b1 + DropLast(b2) + [Last(b2)] == b1 + b2;
    } else if Last(a2) == Last(b2) {
      SubsequenceConcat(a1, b1, DropLast(a2), DropLast(b2));
      SubsequenceExtend(a1 + DropLast(a2), b1 + DropLast(b2), Last(b2));
      assert b1 + DropLast(b2) + [Last(b2)] == b1 + b2;
      assert a1 + DropLast(a2) + [Last(a2)] == a1 + a2;
    } else {
      SubsequenceConcat(a1, b1, a2, DropLast(b2));
      SubsequenceExtend(a1 + a2, b1 + DropLast(b2), Last(b2));
      assert b1 + DropLast(b2) + [Last(b2)] == b1 + b2;
    }
  }
}
