/** What `compare` promises, and where it falls short of a total order. */
module CompareProperties {
  import opened Wrappers
  import opened JavaText
  import opened BigIntegerText
  import opened Tokenizer
  import opened NumericVersionComparator

  /** No token of `p` carries a '-' qualifier. */
  predicate QualifierFree(p: seq<string>)
  {
    forall i :: 0 <= i < |p| ==> '-' !in p[i]
  }

  /** A version compared with itself: the walk ties on every dash-free token and
      answers -1 at the first token with a qualifier. */
  lemma {:induction false} CompareTokensSelf(ts: seq<string>)
    ensures CompareTokens(ts, ts) == (if InSome('-', ts) then -1 else 0)
    decreases |ts|
  {
    if |ts| > 0 {
      var s := SplitSegment(ts[0]);
      assert CompareHeads(s.head, s.head) == 0;
      InSomeCons('-', ts[0], ts[1..]);
      assert ts == [ts[0]] + ts[1..];
      if '-' !in ts[0] {
        CompareTokensSelf(ts[1..]);
      }
    }
  }

  /** `compare(v, v)` is 0 exactly when `v` has no '-', and -1 otherwise. */
  lemma CompareSelf(v: string)
    ensures Compare(v, v) == 0 <==> '-' !in v
    ensures '-' in v ==> Compare(v, v) == -1
  {
    CompareTokensSelf(Tokens(v));
    CharInTokens(v, '-');
  }

  /** The walk reaches a pair of tokens whose heads tie and whose qualifiers are
      present and identical, every earlier pair having tied. */
  predicate ReachesQualifierTie(t1: seq<string>, t2: seq<string>)
    decreases |t1|
  {
    && |t1| > 0 && |t2| > 0
    && var s1 := SplitSegment(t1[0]);
       var s2 := SplitSegment(t2[0]);
       && CompareHeads(s1.head, s2.head) == 0
       && ((s1.tail.Some? && s1.tail == s2.tail)
           || (s1.tail.None? && s2.tail.None? && ReachesQualifierTie(t1[1..], t2[1..])))
  }

  lemma CompareHeadsAntisymmetric(h1: string, h2: string)
    ensures CompareHeads(h2, h1) == -CompareHeads(h1, h2)
  {
    CompareTextAntisymmetric(h1, h2);
  }

  /** Swapping the operands of the walk negates its result, except when the walk
      reaches a tied pair with identical qualifiers: then both orders give -1. */
  lemma {:induction false} CompareTokensAntisymmetric(t1: seq<string>, t2: seq<string>)
    ensures ReachesQualifierTie(t1, t2) ==> CompareTokens(t1, t2) == -1 && CompareTokens(t2, t1) == -1
    ensures !ReachesQualifierTie(t1, t2) ==> CompareTokens(t2, t1) == -CompareTokens(t1, t2)
    decreases |t1|
  {
    if |t1| > 0 && |t2| > 0 {
      var s1 := SplitSegment(t1[0]);
      var s2 := SplitSegment(t2[0]);
      CompareHeadsAntisymmetric(s1.head, s2.head);
      if s1.tail.Some? && s2.tail.Some? {
        CompareTextAntisymmetric("-" + s1.tail.value, "-" + s2.tail.value);
        assert ("-" + s1.tail.value == "-" + s2.tail.value) <==> s1.tail == s2.tail by {
          if "-" + s1.tail.value == "-" + s2.tail.value {
            assert s1.tail.value == ("-" + s1.tail.value)[1..];
          }
        }
      }
      CompareTokensAntisymmetric(t1[1..], t2[1..]);
    }
  }

  /** `sign(compare(a, b)) == -sign(compare(b, a))` holds exactly when the walk
      never reaches a tied pair of segments with identical qualifiers. */
  lemma CompareAntisymmetric(a: string, b: string)
    ensures Compare(b, a) == -Compare(a, b) <==> !ReachesQualifierTie(Tokens(a), Tokens(b))
  {
    CompareTokensAntisymmetric(Tokens(a), Tokens(b));
  }

  /** The two lists have the same length and every pair of tokens ties: the
      walk moves past all of them. */
  predicate Tied(p1: seq<string>, p2: seq<string>)
  {
    |p1| == |p2| && forall i :: 0 <= i < |p1| ==> CompareSegments(p1[i], p2[i]).None?
  }

  /** A qualifier-free list ties with itself. */
  lemma SelfTied(p: seq<string>)
    requires QualifierFree(p)
    ensures Tied(p, p)
  {
    forall i | 0 <= i < |p|
      ensures CompareSegments(p[i], p[i]).None?
    {
      var h := SplitSegment(p[i]).head;
      assert CompareHeads(h, h) == 0;
    }
  }

  /** Tying is symmetric. */
  lemma TiedSymmetric(p1: seq<string>, p2: seq<string>)
    requires Tied(p1, p2)
    ensures Tied(p2, p1)
  {
    forall i | 0 <= i < |p1|
      ensures CompareSegments(p2[i], p1[i]).None?
    {
      CompareHeadsAntisymmetric(SplitSegment(p1[i]).head, SplitSegment(p2[i]).head);
    }
  }

  /** Prefixes that tie pair by pair, such as "1.07" and "1.7", do not affect
      the result: the walk moves past them and what follows decides. */
  lemma {:induction false} TiedPrefixCancels(p1: seq<string>, p2: seq<string>, a: seq<string>, b: seq<string>)
    requires Tied(p1, p2)
    ensures CompareTokens(p1 + a, p2 + b) == CompareTokens(a, b)
    decreases |p1|
  {
    if |p1| > 0 {
      assert (p1 + a)[0] == p1[0] && (p2 + b)[0] == p2[0];
      assert CompareSegments(p1[0], p2[0]).None?;
      assert (p1 + a)[1..] == p1[1..] + a;
      assert (p2 + b)[1..] == p2[1..] + b;
      assert Tied(p1[1..], p2[1..]) by {
        assert forall i :: 0 <= i < |p1| - 1 ==> p1[1..][i] == p1[i + 1] && p2[1..][i] == p2[i + 1];
      }
      TiedPrefixCancels(p1[1..], p2[1..], a, b);
    } else {
      assert p1 + a == a && p2 + b == b;
    }
  }

  /** A common qualifier-free prefix ties all the way and does not affect the result. */
  lemma CommonPrefixCancels(p: seq<string>, a: seq<string>, b: seq<string>)
    requires QualifierFree(p)
    ensures CompareTokens(p + a, p + b) == CompareTokens(a, b)
  {
    SelfTied(p);
    TiedPrefixCancels(p, p, a, b);
  }

  /** After a tied prefix, the first segments whose heads both parse compare by
      value; equal values (such as "007" and "7") tie and the walk moves on. */
  lemma NumericHeadsCompareByValue(p1: seq<string>, p2: seq<string>, x: string, y: string, r1: seq<string>, r2: seq<string>)
    requires Tied(p1, p2)
    requires Parse(SplitSegment(x).head).Some? && Parse(SplitSegment(y).head).Some?
    ensures var n := Parse(SplitSegment(x).head).value;
      var m := Parse(SplitSegment(y).head).value;
      n != m ==> CompareTokens(p1 + [x] + r1, p2 + [y] + r2) == Sign(n - m)
    ensures var n := Parse(SplitSegment(x).head).value;
      var m := Parse(SplitSegment(y).head).value;
      n == m && '-' !in x && '-' !in y ==> CompareTokens(p1 + [x] + r1, p2 + [y] + r2) == CompareTokens(r1, r2)
  {
    assert p1 + [x] + r1 == p1 + ([x] + r1);
    assert p2 + [y] + r2 == p2 + ([y] + r2);
    TiedPrefixCancels(p1, p2, [x] + r1, [y] + r2);
    assert ([x] + r1)[1..] == r1 && ([y] + r2)[1..] == r2;
  }

  /** After a tied prefix, heads that do not both parse compare as text. */
  lemma TextHeadsCompareAsText(p1: seq<string>, p2: seq<string>, x: string, y: string, r1: seq<string>, r2: seq<string>)
    requires Tied(p1, p2)
    requires Parse(SplitSegment(x).head).None? || Parse(SplitSegment(y).head).None?
    requires SplitSegment(x).head != SplitSegment(y).head
    ensures CompareTokens(p1 + [x] + r1, p2 + [y] + r2) == CompareText(SplitSegment(x).head, SplitSegment(y).head)
  {
    assert p1 + [x] + r1 == p1 + ([x] + r1);
    assert p2 + [y] + r2 == p2 + ([y] + r2);
    TiedPrefixCancels(p1, p2, [x] + r1, [y] + r2);
  }

  /** After a tied prefix, of two segments with tying heads the one with a '-'
      qualifier ranks below the one without, whatever follows. */
  lemma QualifierRanksBelowRelease(p1: seq<string>, p2: seq<string>, x: string, y: string, r1: seq<string>, r2: seq<string>)
    requires Tied(p1, p2)
    requires CompareHeads(SplitSegment(x).head, SplitSegment(y).head) == 0
    requires '-' in x && '-' !in y
    ensures CompareTokens(p1 + [x] + r1, p2 + [y] + r2) == -1
    ensures CompareTokens(p2 + [y] + r2, p1 + [x] + r1) == 1
  {
    CompareHeadsAntisymmetric(SplitSegment(x).head, SplitSegment(y).head);
    TiedSymmetric(p1, p2);
    assert p1 + [x] + r1 == p1 + ([x] + r1);
    assert p2 + [y] + r2 == p2 + ([y] + r2);
    TiedPrefixCancels(p1, p2, [x] + r1, [y] + r2);
    TiedPrefixCancels(p2, p1, [y] + r2, [x] + r1);
  }

  /** A '-' put in front of both qualifiers does not change their order. */
  lemma DashKeepsOrder(a: string, b: string)
    ensures CompareText("-" + a, "-" + b) == CompareText(a, b)
  {
    assert ("-" + a)[1..] == a && ("-" + b)[1..] == b;
  }

  /** After a tied prefix, of two segments with tying heads and two different
      qualifiers, the qualifiers decide as text, whatever follows. */
  lemma QualifiersDecideAsText(p1: seq<string>, p2: seq<string>, x: string, y: string, r1: seq<string>, r2: seq<string>)
    requires Tied(p1, p2)
    requires CompareHeads(SplitSegment(x).head, SplitSegment(y).head) == 0
    requires SplitSegment(x).tail.Some? && SplitSegment(y).tail.Some?
    requires SplitSegment(x).tail != SplitSegment(y).tail
    ensures CompareTokens(p1 + [x] + r1, p2 + [y] + r2)
         == CompareText(SplitSegment(x).tail.value, SplitSegment(y).tail.value)
  {
    DashKeepsOrder(SplitSegment(x).tail.value, SplitSegment(y).tail.value);
    assert p1 + [x] + r1 == p1 + ([x] + r1);
    assert p2 + [y] + r2 == p2 + ([y] + r2);
    TiedPrefixCancels(p1, p2, [x] + r1, [y] + r2);
  }

  /** When one version is a version tying with the other followed by more tokens,
      the extra tokens decide: the first one that is not zero by its sign, or by
      "greater" when it does not parse; all-zero extras make the longer version
      the smaller one. */
  lemma LeftoversDecide(p1: seq<string>, p2: seq<string>, e: seq<string>)
    requires Tied(p1, p2) && |e| > 0
    ensures CompareTokens(p1 + e, p2) == LeftoverSign(e)
    ensures CompareTokens(p2, p1 + e) == -LeftoverSign(e)
    ensures AllZero(e) ==> CompareTokens(p1 + e, p2) == -1 && CompareTokens(p2, p1 + e) == 1
  {
    TiedSymmetric(p1, p2);
    TiedPrefixCancels(p1, p2, e, []);
    TiedPrefixCancels(p2, p1, [], e);
    assert p2 + [] == p2 && p1 + [] == p1;
  }
}
