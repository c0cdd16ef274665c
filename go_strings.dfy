/**
 * The few operations of Go's `strings` and `strconv` packages that the tool
 * relies on, over Dafny strings (sequences of Unicode scalar values).
 */
module GoStrings {
  import opened Sequences

  /** `sub` occurs in `s` starting at position `i`. */
  predicate OccursAt(s: string, sub: string, i: nat) {
    i + |sub| <= |s| && s[i..i + |sub|] == sub
  }

  /** strings.Contains: every string, the empty one included, contains "". */
  function Contains(s: string, sub: string): bool
    decreases |s|
  {
    if sub <= s then true
    else if s == [] then false
    else Contains(s[1..], sub)
  }

  /** An occurrence past the first position is an occurrence in the tail. */
  lemma OccursShift(s: string, sub: string, i: nat)
    requires 0 < i && s != []
    ensures OccursAt(s, sub, i) <==> OccursAt(s[1..], sub, i - 1)
  {
    if i + |sub| <= |s| {
      assert s[i..i + |sub|] == s[1..][i - 1..i - 1 + |sub|];
    }
  }

  lemma {:induction false} ContainsMeansOccurs(s: string, sub: string)
    ensures Contains(s, sub) <==> exists i: nat :: OccursAt(s, sub, i)
    decreases |s|
  {
    if sub <= s {
      assert OccursAt(s, sub, 0);
    } else if s == [] {
      forall i: nat ensures !OccursAt(s, sub, i) {}
    } else {
      ContainsMeansOccurs(s[1..], sub);
      if Contains(s[1..], sub) {
        var i: nat :| OccursAt(s[1..], sub, i);
        assert s[i + 1..i + 1 + |sub|] == s[1..][i..i + |sub|];
        assert OccursAt(s, sub, i + 1);
      } else {
        forall i: nat ensures !OccursAt(s, sub, i) {
          if i > 0 {
            OccursShift(s, sub, i);
          }
        }
      }
    }
  }

  /** The empty piece occurs in every string (why a trailing comma excludes everything). */
  lemma ContainsEmpty(s: string)
    ensures Contains(s, "")
  {
  }

  /** strings.Split with a one-character separator; Split("", sep) is [""]. */
  function Split(s: string, sep: char): (pieces: seq<string>)
    ensures |pieces| >= 1
    decreases |s|
  {
    if s == [] then [""]
    else
      var rest := Split(s[1..], sep);
      if s[0] == sep then [""] + rest
      else [[s[0]] + rest[0]] + rest[1..]
  }

  /** strings.Join with a one-character separator. */
  function Join(pieces: seq<string>, sep: char): string
    requires |pieces| >= 1
    decreases |pieces|
  {
    if |pieces| == 1 then pieces[0]
    else pieces[0] + [sep] + Join(pieces[1..], sep)
  }

  /** The first piece of a text that does not start with the separator starts with the text's first character. */
  lemma SplitCons(s: string, sep: char)
    requires s != [] && s[0] != sep
    ensures Split(s, sep)[0] == [s[0]] + Split(s[1..], sep)[0]
    ensures Split(s, sep)[1..] == Split(s[1..], sep)[1..]
  {
  }

  /** Prefixing a character to the first piece prefixes it to the joined text. */
  lemma JoinPrefixFirst(c: char, pieces: seq<string>, sep: char)
    requires |pieces| >= 1
    ensures Join([[c] + pieces[0]] + pieces[1..], sep) == [c] + Join(pieces, sep)
  {
    var moved := [[c] + pieces[0]] + pieces[1..];
    assert moved[0] == [c] + pieces[0];
    if |pieces| > 1 {
      assert moved[1..] == pieces[1..];
    }
  }

  /** Joining the pieces back gives the original text. */
  lemma {:induction false} SplitJoin(s: string, sep: char)
    ensures Join(Split(s, sep), sep) == s
    decreases |s|
  {
    if s != [] {
      SplitJoin(s[1..], sep);
      var rest := Split(s[1..], sep);
      if s[0] == sep {
        assert ([""] + rest)[1..] == rest;
      } else {
        JoinPrefixFirst(s[0], rest, sep);
      }
      assert s == [s[0]] + s[1..];
    }
  }

  /** No piece holds the separator. */
  lemma {:induction false} SplitPiecesFree(s: string, sep: char)
    ensures forall p :: p in Split(s, sep) ==> sep !in p
    decreases |s|
  {
    if s != [] {
      SplitPiecesFree(s[1..], sep);
      var rest := Split(s[1..], sep);
      var pieces := Split(s, sep);
      if s[0] == sep {
        assert pieces == [""] + rest;
      } else {
        SplitCons(s, sep);
        forall p | p in pieces ensures sep !in p {
          if p == pieces[0] {
            assert rest[0] in rest;
          } else {
            assert p in pieces[1..];
          }
        }
      }
    }
  }

  /** Splitting separator-free pieces joined with the separator recovers them. */
  lemma {:induction false} JoinSplit(pieces: seq<string>, sep: char)
    requires |pieces| >= 1
    requires forall p :: p in pieces ==> sep !in p
    ensures Split(Join(pieces, sep), sep) == pieces
    decreases |pieces|, |pieces[0]|
  {
    var head := pieces[0];
    if head == [] {
      if |pieces| > 1 {
        JoinSplit(pieces[1..], sep);
        assert Join(pieces, sep) == [sep] + Join(pieces[1..], sep);
        assert ([sep] + Join(pieces[1..], sep))[1..] == Join(pieces[1..], sep);
        assert pieces == [""] + pieces[1..];
      }
    } else {
      var shorter := [head[1..]] + pieces[1..];
      forall p | p in shorter ensures sep !in p {
        if p == head[1..] {
          assert forall c :: c in head[1..] ==> c in head;
        } else {
          assert p in pieces;
        }
      }
      JoinSplit(shorter, sep);
      var text := Join(pieces, sep);
      if |pieces| == 1 {
        assert text == head;
        assert Join(shorter, sep) == head[1..];
      } else {
        assert text == head + [sep] + Join(pieces[1..], sep);
        assert shorter[1..] == pieces[1..];
        assert Join(shorter, sep) == head[1..] + [sep] + Join(pieces[1..], sep);
      }
      assert pieces[0] in pieces && head[0] in head;
      assert text[0] == head[0] && text[0] != sep;
      assert text[1..] == Join(shorter, sep);
      assert [head[0]] + head[1..] == head;
      assert [head] + pieces[1..] == pieces;
    }
  }

  /** unicode.IsSpace, which strings.TrimSpace uses. */
  predicate IsSpace(c: char) {
    c == '\t' || c == '\n' || c == '\U{000B}' || c == '\U{000C}' || c == '\r' || c == ' '
    || c == '\U{0085}' || c == '\U{00A0}' || c == '\U{1680}'
    || ('\U{2000}' <= c <= '\U{200A}')
    || c == '\U{2028}' || c == '\U{2029}' || c == '\U{202F}' || c == '\U{205F}' || c == '\U{3000}'
  }

  predicate AllSpace(s: string) {
    forall i :: 0 <= i < |s| ==> IsSpace(s[i])
  }

  function TrimLeft(s: string): (r: string)
    ensures |r| <= |s|
    decreases |s|
  {
    if s != [] && IsSpace(s[0]) then TrimLeft(s[1..]) else s
  }

  function TrimRight(s: string): string
    decreases |s|
  {
    if s != [] && IsSpace(Last(s)) then TrimRight(DropLast(s)) else s
  }

  /** strings.TrimSpace. */
  function TrimSpace(s: string): string {
    TrimRight(TrimLeft(s))
  }

  /** `t` is `s` with exactly its leading `lead` characters and some trailing characters removed, all of them white space, and `t` itself neither starts nor ends with white space. */
  predicate IsTrimmingOf(s: string, t: string, lead: nat) {
    && lead + |t| <= |s|
    && s[lead..lead + |t|] == t
    && AllSpace(s[..lead]) && AllSpace(s[lead + |t|..])
    && (t != [] ==> !IsSpace(t[0]) && !IsSpace(Last(t)))
  }

  lemma {:induction false} TrimLeftShape(s: string)
    ensures |TrimLeft(s)| <= |s|
    ensures TrimLeft(s) == s[|s| - |TrimLeft(s)|..]
    ensures AllSpace(s[..|s| - |TrimLeft(s)|])
    ensures TrimLeft(s) != [] ==> !IsSpace(TrimLeft(s)[0])
    decreases |s|
  {
    if s != [] && IsSpace(s[0]) {
      TrimLeftShape(s[1..]);
      var n := |s| - |TrimLeft(s)|;
      assert s[..n] == [s[0]] + s[1..][..n - 1];
    }
  }

  lemma {:induction false} TrimRightShape(s: string)
    ensures |TrimRight(s)| <= |s|
    ensures TrimRight(s) == s[..|TrimRight(s)|]
    ensures AllSpace(s[|TrimRight(s)|..])
    ensures TrimRight(s) != [] ==> !IsSpace(Last(TrimRight(s)))
    decreases |s|
  {
    if s != [] && IsSpace(Last(s)) {
      TrimRightShape(DropLast(s));
      var n := |TrimRight(s)|;
      assert s[n..] == DropLast(s)[n..] + [Last(s)];
    }
  }

  /** White space after the kept part of the left-trimmed text is white space at the end of the text. */
  lemma TrailingSpace(s: string, lead: nat, k: nat)
    requires lead + k <= |s|
    requires AllSpace(s[lead..][k..])
    ensures AllSpace(s[lead + k..])
  {
    var tail, rest := s[lead + k..], s[lead..][k..];
    forall i | 0 <= i < |tail| ensures IsSpace(tail[i]) {
      assert tail[i] == rest[i];
    }
  }

  /** TrimSpace removes white space at both ends and nothing else. */
  lemma TrimSpaceTrims(s: string)
    ensures IsTrimmingOf(s, TrimSpace(s), |s| - |TrimLeft(s)|)
  {
    var l := TrimLeft(s);
    var lead := |s| - |l|;
    TrimLeftShape(s);
    TrimRightShape(l);
    var t := TrimRight(l);
    assert s[lead..lead + |t|] == t by {
      assert l == s[lead..];
      assert t == l[..|t|];
    }
    TrailingSpace(s, lead, |t|);
    if t != [] {
      assert t[0] == l[0];
    }
  }

  /** Trimming introduces no character. */
  lemma TrimSpaceSubset(s: string)
    ensures forall c :: c in TrimSpace(s) ==> c in s
  {
    var t := TrimSpace(s);
    TrimSpaceTrims(s);
    var lead := |s| - |TrimLeft(s)|;
    forall c | c in t ensures c in s {
      var k :| 0 <= k < |t| && t[k] == c;
      assert s[lead + k] == t[k];
    }
  }

  /** Trimming twice is trimming once. */
  lemma TrimSpaceIdempotent(s: string)
    ensures TrimSpace(TrimSpace(s)) == TrimSpace(s)
  {
    var t := TrimSpace(s);
    TrimSpaceTrims(s);
    if t != [] {
      assert TrimLeft(t) == t;
      TrimRightShape(t);
      assert TrimRight(t) == t;
    }
  }

  /** Go's `a < b` on strings: lexicographic on code points (the same order as UTF-8 bytes). */
  predicate LexLess(a: string, b: string)
    decreases |a|
  {
    b != [] && (a == [] || a[0] < b[0] || (a[0] == b[0] && LexLess(a[1..], b[1..])))
  }

  predicate LexLeq(a: string, b: string) {
    a == b || LexLess(a, b)
  }

  lemma {:induction false} LexLessIrreflexive(a: string)
    ensures !LexLess(a, a)
    decreases |a|
  {
    if a != [] {
      LexLessIrreflexive(a[1..]);
    }
  }

  lemma {:induction false} LexLessAsymmetric(a: string, b: string)
    ensures !(LexLess(a, b) && LexLess(b, a))
    decreases |a|
  {
    if a != [] && b != [] && a[0] == b[0] {
      LexLessAsymmetric(a[1..], b[1..]);
    }
  }

  lemma {:induction false} LexLessTransitive(a: string, b: string, c: string)
    requires LexLess(a, b) && LexLess(b, c)
    ensures LexLess(a, c)
    decreases |a|
  {
    if a != [] && a[0] == b[0] && b[0] == c[0] {
      LexLessTransitive(a[1..], b[1..], c[1..]);
    }
  }

  lemma {:induction false} LexTotal(a: string, b: string)
    ensures a == b || LexLess(a, b) || LexLess(b, a)
    decreases |a|
  {
    if a != [] && b != [] && a[0] == b[0] {
      LexTotal(a[1..], b[1..]);
      if a[1..] == b[1..] {
        assert a == [a[0]] + a[1..] && b == [b[0]] + b[1..];
      }
    }
  }

  lemma LexLeqTransitive(a: string, b: string, c: string)
    requires LexLeq(a, b) && LexLeq(b, c)
    ensures LexLeq(a, c)
  {
    if LexLess(a, b) && LexLess(b, c) {
      LexLessTransitive(a, b, c);
    }
  }

  lemma LexLeqAntisymmetric(a: string, b: string)
    requires LexLeq(a, b) && LexLeq(b, a)
    ensures a == b
  {
    LexLessAsymmetric(a, b);
  }

  function DigitChar(d: nat): (c: char)
    requires d < 10
    ensures '0' <= c <= '9' && (c as int) - ('0' as int) == d
  {
    (d + '0' as int) as char
  }

  predicate IsDigit(c: char) {
    '0' <= c <= '9'
  }

  /** strconv.Itoa for a non-negative number. */
  function Decimal(n: nat): (text: string)
    decreases n
  {
    if n < 10 then [DigitChar(n)] else Decimal(n / 10) + [DigitChar(n % 10)]
  }

  /** The number a string of decimal digits denotes. */
  function DecimalValue(text: string): nat
    requires forall i :: 0 <= i < |text| ==> IsDigit(text[i])
    decreases |text|
  {
    if text == [] then 0
    else
      assert IsDigit(text[|text| - 1]);
      DecimalValue(DropLast(text)) * 10 + ((Last(text) as int) - ('0' as int))
  }

  /** Itoa writes only digits, at least one, with no leading zero, and reading them back gives the number. */
  lemma {:induction false} DecimalRoundTrip(n: nat)
    ensures Decimal(n) != []
    ensures forall i :: 0 <= i < |Decimal(n)| ==> IsDigit(Decimal(n)[i])
    ensures n > 0 ==> Decimal(n)[0] != '0'
    ensures DecimalValue(Decimal(n)) == n
    decreases n
  {
    if n >= 10 {
      DecimalRoundTrip(n / 10);
      var prefix := Decimal(n / 10);
      var text := Decimal(n);
      assert text == prefix + [DigitChar(n % 10)];
      assert DropLast(text) == prefix;
      assert text[0] == prefix[0];
      assert DecimalValue(text) == DecimalValue(prefix) * 10 + n % 10;
    }
  }
}
