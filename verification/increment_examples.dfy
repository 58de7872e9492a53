/** Worked increments, including the ones where the code's behaviour differs
    from what a reader of the version string might expect. Facts about a
    literal (that "0-alpha" is a token, say) sit in small lemmas of their own,
    as in `CompareExamples`, so that the larger proofs do not unfold the text. */
module IncrementExamples {
  import opened Wrappers
  import opened JavaText
  import opened BigIntegerText
  import opened Tokenizer
  import opened NumericVersionComparator
  import opened CompareProperties
  import opened IncrementProperties

  /** A single digit below 9 is bumped to the next digit. */
  lemma BumpDigit(n: nat, alphaNum: AlphaNumIncrement)
    requires n < 9
    ensures BumpToken([DigitChar(n)], alphaNum) == [DigitChar(n + 1)]
  {
    var p := [DigitChar(n)];
    assert SplitSegment(p) == Segment(p, None);
    var s := ToDecimal(n);
    assert s == p;
    var t := ToDecimal(n + 1);
    assert t == [DigitChar(n + 1)];
  }

  /** The increment of a dot-joined token list at an index inside it, given the expected tokens. */
  lemma IncrementJoined(ts: seq<string>, k: nat, alphaNum: AlphaNumIncrement, expected: seq<string>)
    requires AllTokens(ts) && k < |ts|
    requires |expected| == |ts| && expected[..k] == ts[..k]
    requires expected[k] == BumpToken(ts[k], alphaNum)
    requires forall i :: k < i < |ts| ==> expected[i] == "0"
    ensures AllTokens(expected)
    ensures IncrementSegment(Join(ts), k, alphaNum) == Success(Join(expected))
  {
    var v := Join(ts);
    TokensOfJoin(ts);
    var rs := Tokens(IncrementSegment(v, k, alphaNum).value);
    SameRewrite(ts, k, rs, expected, BumpToken(ts[k], alphaNum));
    ResultFromTokens(v, k, alphaNum, expected);
  }

  /** Two lists that both agree with `ts` before `k`, hold `b` at `k` and "0" after it are equal. */
  lemma SameRewrite(ts: seq<string>, k: nat, rs: seq<string>, expected: seq<string>, b: string)
    requires k < |ts| && |rs| == |ts| && |expected| == |ts|
    requires forall i :: 0 <= i < k ==> rs[i] == ts[i]
    requires expected[..k] == ts[..k]
    requires rs[k] == b && expected[k] == b
    requires forall i :: k < i < |ts| ==> rs[i] == "0"
    requires forall i :: k < i < |ts| ==> expected[i] == "0"
    ensures rs == expected
  {
    assert forall i :: 0 <= i < k ==> expected[i] == ts[..k][i];
  }

  /** Tokens of "1.2.3" and its count. */
  lemma OneTwoThree()
    ensures Tokens(Join(["1", "2", "3"])) == ["1", "2", "3"]
    ensures SegmentCount(Join(["1", "2", "3"])) == 3
  {
    TokensOfJoin(["1", "2", "3"]);
  }

  lemma OneTwoThreeTokens()
    ensures AllTokens(["1", "2", "3"])
    ensures AllTokens(["1", "2", "4"]) && AllTokens(["1", "3", "0"])
  {
  }

  /** "1.2.3" bumped at segment 2 is "1.2.4". */
  lemma IncrementLastSegment(alphaNum: AlphaNumIncrement)
    ensures IncrementSegment(Join(["1", "2", "3"]), 2, alphaNum) == Success(Join(["1", "2", "4"]))
  {
    BumpDigit(3, alphaNum);
    OneTwoThreeTokens();
    IncrementJoined(["1", "2", "3"], 2, alphaNum, ["1", "2", "4"]);
  }

  /** "1.2.3" bumped at segment 1 is "1.3.0": later segments become "0". */
  lemma IncrementMiddleSegment(alphaNum: AlphaNumIncrement)
    ensures IncrementSegment(Join(["1", "2", "3"]), 1, alphaNum) == Success(Join(["1", "3", "0"]))
  {
    BumpDigit(2, alphaNum);
    OneTwoThreeTokens();
    IncrementJoined(["1", "2", "3"], 1, alphaNum, ["1", "3", "0"]);
  }

  /** "1.2.3" cannot be bumped at segment 5: the error carries 5, the count 3 and the version. */
  lemma IncrementOutOfRange(alphaNum: AlphaNumIncrement)
    ensures IncrementSegment(Join(["1", "2", "3"]), 5, alphaNum) == Failure(InvalidSegment(5, 3, Join(["1", "2", "3"])))
    ensures IncrementSegment(Join(["1", "2", "3"]), -1, alphaNum) == Failure(InvalidSegment(-1, 3, Join(["1", "2", "3"])))
  {
    OneTwoThree();
  }

  /** "1.2.3" bumped at segment 3, its count, is "1.2.3" again. */
  lemma IncrementAtCount(alphaNum: AlphaNumIncrement)
    ensures IncrementSegment(Join(["1", "2", "3"]), 3, alphaNum) == Success(Join(["1", "2", "3"]))
  {
    OneTwoThree();
  }

  /** The token "0-alpha" is bumped by its numeric head alone. */
  lemma BumpZeroAlpha(alphaNum: AlphaNumIncrement)
    ensures BumpToken("0-alpha", alphaNum) == "1"
  {
    ZeroAlphaIsToken();
    SplitAt("0-alpha", "0", "alpha");
    ParseDigit(0);
    var one := ToDecimal(1);
    assert one == "1";
  }

  /** "1.0-alpha" bumped at segment 1 is "1.1": the head of "0-alpha" is the
      number 0, so the keyword in the tail plays no part and is dropped. */
  lemma AlphaTailIgnored(a: string, alphaNum: AlphaNumIncrement)
    requires IsToken(a)
    ensures IncrementSegment(Join([a, "0-alpha"]), 1, alphaNum) == Success(Join([a, "1"]))
  {
    ZeroAlphaIsToken();
    BumpZeroAlpha(alphaNum);
    IncrementSecond(a, "0-alpha", alphaNum);
  }

  lemma ZeroAlphaIsToken()
    ensures IsToken("0-alpha")
  {
  }

  /** A two-segment version bumped at its second segment. */
  lemma IncrementSecond(a: string, b: string, alphaNum: AlphaNumIncrement)
    requires IsToken(a) && IsToken(b)
    ensures IncrementSegment(Join([a, b]), 1, alphaNum) == Success(Join([a, BumpToken(b, alphaNum)]))
  {
    var ts := [a, b];
    var expected := [a, BumpToken(b, alphaNum)];
    assert expected[..1] == ts[..1];
    IncrementJoined(ts, 1, alphaNum, expected);
  }

  /** "ga" sorts before "rc" as text. */
  lemma GaBelowRc()
    ensures CompareTokens(["ga"], ["rc"]) == -1
  {
    assert Parse("ga") == None;
    assert SplitSegment("ga").head == "ga" && SplitSegment("rc").head == "rc";
    TextHeadsCompareAsText([], [], "ga", "rc", [], []);
    assert [] + ["ga"] + [] == ["ga"] && [] + ["rc"] + [] == ["rc"];
  }

  /** "rc" bumped at segment 0 is "ga", which compares below "rc": a bumped
      version is not always greater than the one it came from. */
  lemma SuccessorNotAlwaysGreater(alphaNum: AlphaNumIncrement)
    ensures IncrementSegment(Join(["rc"]), 0, alphaNum) == Success(Join(["ga"]))
    ensures Compare(Join(["ga"]), Join(["rc"])) == -1
  {
    RcStep(alphaNum);
    IncrementJoined(["rc"], 0, alphaNum, ["ga"]);
    GaBelowRc();
    TokensOfJoin(["rc"]);
    TokensOfJoin(["ga"]);
  }
}
