/** What `innerIncrementSegment` promises about the version it produces. */
module IncrementProperties {
  import opened Wrappers
  import opened JavaText
  import opened BigIntegerText
  import opened Tokenizer
  import opened NumericVersionComparator
  import opened CompareProperties

  /** A keyword head with a numeric tail keeps the head and bumps the tail in place. */
  lemma KeywordBumpsNumericTail(p: string, alphaNum: AlphaNumIncrement)
    requires IsToken(p)
    requires KeywordSuccessor(SplitSegment(p).head).Some?
    requires SplitSegment(p).tail.Some? && Parse(SplitSegment(p).tail.value).Some?
    ensures var s := SplitSegment(BumpToken(p, alphaNum));
      && s.head == SplitSegment(p).head
      && s.tail.Some?
      && Parse(s.tail.value) == Some(Parse(SplitSegment(p).tail.value).value + 1)
      && s.tail == Some(ToDecimal(Parse(SplitSegment(p).tail.value).value + 1))
  {
    var s := SplitSegment(p);
    KeywordHeadsDoNotParse(s.head);
    var t := Segment(s.head, Some(ToDecimal(Parse(s.tail.value).value + 1)));
    assert IncrementTarget(s, alphaNum) == t;
    SplitRender(t);
  }

  /** A keyword head without a numeric tail moves one step along the progression
      alpha, beta, milestone, rc, ga, sp-1, and the old tail is dropped. */
  lemma KeywordAdvances(p: string, alphaNum: AlphaNumIncrement)
    requires IsToken(p)
    requires KeywordSuccessor(SplitSegment(p).head).Some?
    requires SplitSegment(p).tail.None? || Parse(SplitSegment(p).tail.value).None?
    ensures BumpToken(p, alphaNum) == Render(KeywordSuccessor(SplitSegment(p).head).value)
  {
    KeywordHeadsDoNotParse(SplitSegment(p).head);
  }

  /** Any other non-numeric head goes through `alphaNumIncrement` and keeps its tail. */
  lemma OtherHeadKeepsTail(p: string, alphaNum: AlphaNumIncrement)
    requires IsToken(p)
    requires Parse(SplitSegment(p).head).None? && KeywordSuccessor(SplitSegment(p).head).None?
    ensures BumpToken(p, alphaNum) == Render(Segment(alphaNum(SplitSegment(p).head), SplitSegment(p).tail))
  {
  }

  /** The successor the table gives each lower-case keyword. */
  lemma KeywordTable()
    ensures KeywordSuccessor("alpha") == Some(Segment("beta", None))
    ensures KeywordSuccessor("beta") == Some(Segment("milestone", None))
    ensures KeywordSuccessor("milestone") == Some(Segment("rc", None))
    ensures KeywordSuccessor("cr") == Some(Segment("ga", None))
    ensures KeywordSuccessor("rc") == Some(Segment("ga", None))
    ensures KeywordSuccessor("ga") == Some(Segment("sp", Some("1")))
    ensures KeywordSuccessor("final") == Some(Segment("sp", Some("1")))
  {
    FoldLowerWord("alpha");
    FoldLowerWord("beta");
    FoldLowerWord("milestone");
    FoldLowerWord("cr");
    FoldLowerWord("rc");
    FoldLowerWord("ga");
    FoldLowerWord("final");
  }

  /** A dash-free keyword token moves to the keyword's successor. */
  lemma BumpKeyword(p: string, next: Segment, alphaNum: AlphaNumIncrement)
    requires IsToken(p) && '-' !in p
    requires KeywordSuccessor(p) == Some(next)
    ensures BumpToken(p, alphaNum) == Render(next)
  {
    assert SplitSegment(p) == Segment(p, None);
    KeywordAdvances(p, alphaNum);
  }

  /** The progression table, keyword by keyword (the lemmas ending in Step):
      alpha, beta, milestone, rc (also spelled cr), ga (also spelled final),
      then sp-1; case does not matter. */
  lemma AlphaStep(alphaNum: AlphaNumIncrement)
    ensures IsToken("alpha") && IsToken("ALPHA")
    ensures BumpToken("alpha", alphaNum) == "beta"
    ensures BumpToken("ALPHA", alphaNum) == "beta"
  {
    AlphaInCapitals();
    EqualsIgnoreCaseAcceptsBothCases("alpha");
    BumpKeyword("alpha", Segment("beta", None), alphaNum);
    BumpKeyword("ALPHA", Segment("beta", None), alphaNum);
  }

  lemma AlphaInCapitals()
    ensures IsLowerAsciiWord("alpha") && ToUpperAscii("alpha") == "ALPHA"
  {
  }

  lemma BetaStep(alphaNum: AlphaNumIncrement)
    ensures BumpToken("beta", alphaNum) == "milestone"
  {
    FoldLowerWord("beta");
    BumpKeyword("beta", Segment("milestone", None), alphaNum);
  }

  lemma MilestoneStep(alphaNum: AlphaNumIncrement)
    ensures BumpToken("milestone", alphaNum) == "rc"
  {
    FoldLowerWord("milestone");
    BumpKeyword("milestone", Segment("rc", None), alphaNum);
  }

  lemma RcStep(alphaNum: AlphaNumIncrement)
    ensures BumpToken("rc", alphaNum) == "ga"
  {
    FoldLowerWord("rc");
    BumpKeyword("rc", Segment("ga", None), alphaNum);
  }

  lemma CrUpperCaseStep(alphaNum: AlphaNumIncrement)
    ensures BumpToken("CR", alphaNum) == "ga"
  {
    EqualsIgnoreCaseAcceptsBothCases("cr");
    assert ToUpperAscii("cr") == "CR";
    assert KeywordSuccessor("CR") == Some(Segment("ga", None));
    BumpKeyword("CR", Segment("ga", None), alphaNum);
  }

  lemma GaStep(alphaNum: AlphaNumIncrement)
    ensures BumpToken("ga", alphaNum) == "sp-1"
  {
    FoldLowerWord("ga");
    assert Render(Segment("sp", Some("1"))) == "sp-1";
    BumpKeyword("ga", Segment("sp", Some("1")), alphaNum);
  }

  lemma FinalStep(alphaNum: AlphaNumIncrement)
    ensures BumpToken("final", alphaNum) == "sp-1"
  {
    FoldLowerWord("final");
    assert Render(Segment("sp", Some("1"))) == "sp-1";
    BumpKeyword("final", Segment("sp", Some("1")), alphaNum);
  }

  /** The position of a token's first '-' is where the split happens. */
  lemma SplitAt(p: string, head: string, tail: string)
    requires p == head + "-" + tail && '-' !in head
    ensures SplitSegment(p) == Segment(head, Some(tail))
  {
    SplitRender(Segment(head, Some(tail)));
  }

  /** "rc-2" becomes "rc-3": a numeric tail is bumped in place. */
  lemma RcTwoToThree(alphaNum: AlphaNumIncrement)
    ensures IsToken("rc-2")
    ensures BumpToken("rc-2", alphaNum) == "rc-3"
  {
    RcDigitTexts();
    SplitAt("rc-2", "rc", [DigitChar(2)]);
    FoldLowerWord("rc");
    DigitTailStep("rc-2", "rc", 2, alphaNum);
  }

  lemma RcDigitTexts()
    ensures IsToken("rc-2") && IsLowerAsciiWord("rc") && '-' !in "rc"
    ensures "rc-2" == "rc" + "-" + [DigitChar(2)]
    ensures "rc-3" == "rc" + "-" + [DigitChar(3)]
  {
  }

  /** A keyword head with a one-digit tail below 9 gets the next digit. */
  lemma DigitTailStep(p: string, head: string, d: nat, alphaNum: AlphaNumIncrement)
    requires d < 9 && IsToken(p)
    requires SplitSegment(p) == Segment(head, Some([DigitChar(d)]))
    requires KeywordSuccessor(head).Some?
    ensures BumpToken(p, alphaNum) == head + "-" + [DigitChar(d + 1)]
  {
    ParseDigit(d);
    var next := ToDecimal(d + 1);
    assert next == [DigitChar(d + 1)];
    var r := IncrementTarget(SplitSegment(p), alphaNum);
    assert r == Segment(head, Some(next));
  }

  /** "rc-x" becomes "ga": a tail that is not a number is dropped and the head advances. */
  lemma NonNumericTailDropped(alphaNum: AlphaNumIncrement)
    ensures BumpToken("rc-x", alphaNum) == "ga"
  {
    SplitAt("rc-x", "rc", "x");
    assert !IsDigit("x"[0]);
    assert Parse("x") == None;
    FoldLowerWord("rc");
    KeywordAdvances("rc-x", alphaNum);
  }

  /** A dash-free numeric token becomes the next number. */
  lemma NumericBump(p: string, alphaNum: AlphaNumIncrement)
    requires IsToken(p) && '-' !in p && Parse(p).Some?
    ensures '-' !in BumpToken(p, alphaNum)
    ensures Parse(BumpToken(p, alphaNum)) == Some(Parse(p).value + 1)
  {
    assert SplitSegment(p).head == p;
  }

  /** On token lists: a qualifier-free list whose token at `k` is a number, against
      the list with that token replaced by a dash-free successor. */
  lemma BumpedTokensGreater(ts: seq<string>, rs: seq<string>, k: nat)
    requires QualifierFree(ts)
    requires k < |ts| == |rs|
    requires rs[..k] == ts[..k]
    requires Parse(ts[k]).Some?
    requires '-' !in rs[k] && Parse(rs[k]) == Some(Parse(ts[k]).value + 1)
    ensures CompareTokens(rs, ts) == 1
    ensures CompareTokens(ts, rs) == -1
  {
    var p := ts[..k];
    SplitAtIndex(ts, k);
    SplitAtIndex(rs, k);
    SuccessorAfterPrefix(p, ts[k], rs[k], ts[k + 1..], rs[k + 1..]);
  }

  lemma SplitAtIndex(s: seq<string>, k: nat)
    requires k < |s|
    ensures s == s[..k] + [s[k]] + s[k + 1..]
  {
  }

  /** After a qualifier-free prefix, a dash-free number against its successor. */
  lemma SuccessorAfterPrefix(p: seq<string>, x: string, y: string, r1: seq<string>, r2: seq<string>)
    requires QualifierFree(p)
    requires '-' !in x && '-' !in y
    requires Parse(x).Some? && Parse(y) == Some(Parse(x).value + 1)
    ensures CompareTokens(p + [y] + r2, p + [x] + r1) == 1
    ensures CompareTokens(p + [x] + r1, p + [y] + r2) == -1
  {
    assert SplitSegment(x).head == x;
    assert SplitSegment(y).head == y;
    SelfTied(p);
    NumericHeadsCompareByValue(p, p, y, x, r2, r1);
    NumericHeadsCompareByValue(p, p, x, y, r1, r2);
  }

  /** The token lists of a dash-free version and of its bump at a numeric segment. */
  lemma BumpedListGreater(ts: seq<string>, rs: seq<string>, k: nat, alphaNum: AlphaNumIncrement)
    requires AllTokens(ts) && QualifierFree(ts)
    requires k < |ts| == |rs|
    requires rs[..k] == ts[..k]
    requires Parse(ts[k]).Some?
    requires rs[k] == BumpToken(ts[k], alphaNum)
    ensures CompareTokens(rs, ts) == 1
    ensures CompareTokens(ts, rs) == -1
  {
    NumericBump(ts[k], alphaNum);
    BumpedTokensGreater(ts, rs, k);
  }

  /** Bumping a dash-free version at a segment whose head is a number yields a
      version that compares greater than the input, and the input less than it. */
  lemma NumericBumpIsGreater(v: string, k: int, alphaNum: AlphaNumIncrement)
    requires '-' !in v
    requires 0 <= k < SegmentCount(v)
    requires Parse(Tokens(v)[k]).Some?
    ensures IncrementSegment(v, k, alphaNum).Success?
    ensures Compare(IncrementSegment(v, k, alphaNum).value, v) == 1
    ensures Compare(v, IncrementSegment(v, k, alphaNum).value) == -1
  {
    var r := IncrementSegment(v, k, alphaNum).value;
    var ts := Tokens(v);
    var rs := Tokens(r);
    DashFreeTokens(v);
    SamePrefix(ts, rs, k);
    BumpedListGreater(ts, rs, k, alphaNum);
  }

  /** The tokens of a dash-free version are qualifier-free. */
  lemma DashFreeTokens(v: string)
    requires '-' !in v
    ensures QualifierFree(Tokens(v))
  {
    CharInTokens(v, '-');
  }

  lemma SamePrefix(ts: seq<string>, rs: seq<string>, k: nat)
    requires k <= |ts| && k <= |rs|
    requires forall i :: 0 <= i < k ==> rs[i] == ts[i]
    ensures rs[..k] == ts[..k]
  {
  }

  /** The index may equal the count: nothing is bumped, and asking again changes nothing. */
  lemma IncrementAtCountNormalises(v: string, alphaNum: AlphaNumIncrement)
    ensures IncrementSegment(v, SegmentCount(v), alphaNum) == Success(Join(Tokens(v)))
    ensures Tokens(Join(Tokens(v))) == Tokens(v)
    ensures IncrementSegment(Join(Tokens(v)), SegmentCount(v), alphaNum) == Success(Join(Tokens(v)))
  {
    JoinOfTokensIsNormal(v);
  }

  /** The result of a successful increment has no empty pieces: it is the
      dot-join of its own tokens. */
  lemma IncrementResultIsNormal(v: string, k: int, alphaNum: AlphaNumIncrement)
    requires IncrementSegment(v, k, alphaNum).Success?
    ensures var r := IncrementSegment(v, k, alphaNum).value; r == Join(Tokens(r))
  {
    var rs := RewriteTokens(Tokens(v), k, TargetText(Tokens(v), k, alphaNum));
    TokensOfJoin(rs);
  }

  /** The same increment examined on the tokens it yields: equal token lists give equal results. */
  lemma ResultFromTokens(v: string, k: int, alphaNum: AlphaNumIncrement, expected: seq<string>)
    requires AllTokens(expected)
    requires IncrementSegment(v, k, alphaNum).Success?
    requires Tokens(IncrementSegment(v, k, alphaNum).value) == expected
    ensures IncrementSegment(v, k, alphaNum) == Success(Join(expected))
  {
    IncrementResultIsNormal(v, k, alphaNum);
  }
}
