/** Worked comparisons, from the comparator's documentation and from the
    behaviours that follow from its code. A multi-segment version is written as
    the dot-join of its tokens, `Join(p + [x])` for "p.x". The common prefix is
    a parameter pinned by a precondition such as `requires p == ["1", "3"]`
    rather than a literal in the statement: each example is then proved by the
    general prefix lemmas, with `p` kept abstract, and the literal is looked at
    only in the small lemmas that check its tokens. Written with the literal
    inline, the same statement makes the solver unfold `Join` and `Tokens` on
    the whole text, which costs far more. The small lemmas (`OneTies`,
    `SevensTie` and the like) each state one such fact about a literal. */
module CompareExamples {
  import opened Wrappers
  import opened JavaText
  import opened BigIntegerText
  import opened Tokenizer
  import opened NumericVersionComparator
  import opened CompareProperties

  lemma Parse34()
    ensures Parse("34") == Some(34)
  {
    var s := ToDecimal(34);
    assert s == "34";
  }

  lemma Parse10()
    ensures Parse("10") == Some(10)
  {
    var s := ToDecimal(10);
    assert s == "10";
  }

  lemma Parse007()
    ensures Parse("007") == Some(7)
  {
    ParseDigit(7);
    LeadingZeroIgnored("7");
    LeadingZeroIgnored("07");
    assert "0" + "07" == "007" && "0" + "7" == "07";
  }

  /** A version written as dot-joined tokens compares by those tokens. */
  lemma CompareJoined(t1: seq<string>, t2: seq<string>)
    requires AllTokens(t1) && AllTokens(t2)
    ensures Compare(Join(t1), Join(t2)) == CompareTokens(t1, t2)
  {
    TokensOfJoin(t1);
    TokensOfJoin(t2);
  }

  /** The same, for a known result of the walk. */
  lemma JoinedResult(t1: seq<string>, t2: seq<string>, r: int)
    requires AllTokens(t1) && AllTokens(t2) && CompareTokens(t1, t2) == r
    ensures Compare(Join(t1), Join(t2)) == r
  {
    CompareJoined(t1, t2);
  }

  /** A token appended to a token list keeps it a token list. */
  lemma AllTokensAppend(p: seq<string>, t: string)
    requires AllTokens(p) && IsToken(t)
    ensures AllTokens(p + [t])
  {
    assert forall i :: 0 <= i < |p| ==> (p + [t])[i] == p[i];
  }

  /** Single-digit tokens are dash-free tokens. */
  lemma DigitTokens(p: seq<string>)
    requires forall i :: 0 <= i < |p| ==> |p[i]| == 1 && IsDigit(p[i][0])
    ensures AllTokens(p) && QualifierFree(p)
  {
    forall i | 0 <= i < |p|
      ensures IsToken(p[i]) && '-' !in p[i]
    {
      assert p[i] == [p[i][0]];
    }
  }

  // "1.3.34" > "1.3.9"

  lemma NumbersAfterPrefix(p: seq<string>)
    requires QualifierFree(p)
    ensures CompareTokens(p + ["34"], p + ["9"]) == 1
  {
    Parse34();
    ParseDigit(9);
    assert SplitSegment("34").head == "34";
    assert SplitSegment("9").head == "9";
    SelfTied(p);
    NumericHeadsCompareByValue(p, p, "34", "9", [], []);
    assert p + ["34"] + [] == p + ["34"];
    assert p + ["9"] + [] == p + ["9"];
  }

  lemma NumbersAreTokens(p: seq<string>)
    requires AllTokens(p)
    ensures AllTokens(p + ["34"]) && AllTokens(p + ["9"])
  {
    AllTokensAppend(p, "34");
    AllTokensAppend(p, "9");
  }

  /** "1.3.34" > "1.3.9": heads compare as numbers, not as text. */
  lemma NumbersNotText(p: seq<string>)
    requires p == ["1", "3"]
    ensures Compare(Join(p + ["34"]), Join(p + ["9"])) == 1
  {
    DigitTokens(p);
    NumbersAfterPrefix(p);
    NumbersAreTokens(p);
    JoinedResult(p + ["34"], p + ["9"], 1);
  }

  // "1.3.4.3.2.34" > "1.3.4.3.2.34-SNAPSHOT"

  lemma SplitSnapshot()
    ensures SplitSegment("34-SNAPSHOT") == Segment("34", Some("SNAPSHOT"))
  {
    SplitRender(Segment("34", Some("SNAPSHOT")));
    assert "34" + "-" + "SNAPSHOT" == "34-SNAPSHOT";
  }

  /** After any qualifier-free prefix, the token "34" ranks above "34-SNAPSHOT". */
  lemma SnapshotTokenBelowRelease(p: seq<string>)
    requires QualifierFree(p)
    ensures CompareTokens(p + ["34"], p + ["34-SNAPSHOT"]) == 1
  {
    SplitSnapshot();
    assert SplitSegment("34").head == "34";
    assert '-' in "34-SNAPSHOT" by {
      assert "34-SNAPSHOT"[2] == '-';
    }
    SelfTied(p);
    QualifierRanksBelowRelease(p, p, "34-SNAPSHOT", "34", [], []);
    assert p + ["34"] + [] == p + ["34"];
    assert p + ["34-SNAPSHOT"] + [] == p + ["34-SNAPSHOT"];
  }

  lemma SnapshotListsAreTokens(p: seq<string>)
    requires AllTokens(p)
    ensures AllTokens(p + ["34"]) && AllTokens(p + ["34-SNAPSHOT"])
  {
    assert IsToken("34-SNAPSHOT");
    AllTokensAppend(p, "34");
    AllTokensAppend(p, "34-SNAPSHOT");
  }

  /** "1.3.4.3.2.34" > "1.3.4.3.2.34-SNAPSHOT": a qualifier ranks below the release. */
  lemma SnapshotBelowRelease(p: seq<string>)
    requires p == ["1", "3", "4", "3", "2"]
    ensures Compare(Join(p + ["34"]), Join(p + ["34-SNAPSHOT"])) == 1
  {
    DigitTokens(p);
    SnapshotTokenBelowRelease(p);
    SnapshotListsAreTokens(p);
    JoinedResult(p + ["34"], p + ["34-SNAPSHOT"], 1);
  }

  // "1.007" ties "1.7"

  lemma SevenHeads()
    ensures Parse(SplitSegment("007").head) == Some(7) && Parse(SplitSegment("7").head) == Some(7)
    ensures '-' !in "007" && '-' !in "7"
  {
    Parse007();
    ParseDigit(7);
    assert SplitSegment("007").head == "007";
    assert SplitSegment("7").head == "7";
  }

  lemma LeadingZerosAfterPrefix(p: seq<string>)
    requires QualifierFree(p)
    ensures CompareTokens(p + ["007"], p + ["7"]) == 0
  {
    SevenHeads();
    SelfTied(p);
    NumericHeadsCompareByValue(p, p, "007", "7", [], []);
    assert CompareTokens([], []) == 0;
    assert p + ["007"] + [] == p + ["007"];
    assert p + ["7"] + [] == p + ["7"];
  }

  lemma LeadingZerosAreTokens(p: seq<string>)
    requires AllTokens(p)
    ensures AllTokens(p + ["007"]) && AllTokens(p + ["7"])
  {
    AllTokensAppend(p, "007");
    AllTokensAppend(p, "7");
  }

  /** "1.007" and "1.7" compare equal: leading zeros do not count. */
  lemma LeadingZerosTie(p: seq<string>)
    requires p == ["1"]
    ensures Compare(Join(p + ["007"]), Join(p + ["7"])) == 0
  {
    DigitTokens(p);
    LeadingZerosAfterPrefix(p);
    LeadingZerosAreTokens(p);
    JoinedResult(p + ["007"], p + ["7"], 0);
  }

  // "1.007.3" > "1.7.2" and "1.007.0" < "1.7": a prefix that ties without being equal

  lemma OneTies()
    ensures CompareSegments("1", "1").None?
  {
    var h := SplitSegment("1").head;
    assert CompareHeads(h, h) == 0;
  }

  lemma SevensTie(p1: seq<string>, p2: seq<string>)
    requires p1 == ["1", "007"] && p2 == ["1", "7"]
    ensures Tied(p1, p2)
  {
    OneTies();
    SevenHeads();
  }

  lemma SevensAreTokens(p1: seq<string>, p2: seq<string>, x: string, y: string)
    requires p1 == ["1", "007"] && p2 == ["1", "7"]
    requires IsToken(x) && IsToken(y)
    ensures AllTokens(p1) && AllTokens(p2)
    ensures AllTokens(p1 + [x]) && AllTokens(p2 + [y])
  {
    assert IsToken("007") && IsToken("1") && IsToken("7");
    AllTokensAppend(p1, x);
    AllTokensAppend(p2, y);
  }

  lemma ThreeAboveTwo()
    ensures CompareTokens(["3"], ["2"]) == 1
  {
    ParseDigit(3);
    ParseDigit(2);
    assert SplitSegment("3").head == "3";
    assert SplitSegment("2").head == "2";
    NumericHeadsCompareByValue([], [], "3", "2", [], []);
    assert [] + ["3"] + [] == ["3"];
    assert [] + ["2"] + [] == ["2"];
  }

  /** "1.007.3" > "1.7.2": "007" ties "7", so the walk moves on and "3" > "2" decides. */
  lemma TiedPrefixThenNumbers(p1: seq<string>, p2: seq<string>)
    requires p1 == ["1", "007"] && p2 == ["1", "7"]
    ensures Compare(Join(p1 + ["3"]), Join(p2 + ["2"])) == 1
  {
    SevensTie(p1, p2);
    ThreeAboveTwo();
    TiedPrefixCancels(p1, p2, ["3"], ["2"]);
    SevensAreTokens(p1, p2, "3", "2");
    JoinedResult(p1 + ["3"], p2 + ["2"], 1);
  }

  /** "1.007.0" < "1.7": after the tied "1.007" and "1.7", the zero extra token
      makes the longer version the smaller. */
  lemma TiedPrefixThenZero(p1: seq<string>, p2: seq<string>)
    requires p1 == ["1", "007"] && p2 == ["1", "7"]
    ensures Compare(Join(p1 + ["0"]), Join(p2)) == -1
  {
    SevensTie(p1, p2);
    LeftoversDecide(p1, p2, ["0"]);
    ZeroLeftover();
    SevensAreTokens(p1, p2, "0", "7");
    JoinedResult(p1 + ["0"], p2, -1);
  }

  // Leftover tokens after "1.2"

  /** One leftover token decides by its own verdict. */
  lemma OneLeftover(p: seq<string>, t: string)
    requires QualifierFree(p)
    ensures CompareTokens(p + [t], p) == LeftoverSign([t])
    ensures CompareTokens(p, p + [t]) == -LeftoverSign([t])
  {
    SelfTied(p);
    LeftoversDecide(p, p, [t]);
  }

  lemma ZeroLeftover()
    ensures LeftoverSign(["0"]) == -1
  {
    ParseDigit(0);
    assert AllZero(["0"]);
  }

  lemma NonzeroLeftover()
    ensures LeftoverSign(["1"]) == 1
  {
    ParseDigit(1);
  }

  lemma QualifiedLeftover()
    ensures IsToken("0-alpha")
    ensures LeftoverSign(["0-alpha"]) == 1
  {
    assert !IsDigit("0-alpha"[1]);
    assert Parse("0-alpha") == None;
  }

  /** "1.2.0" < "1.2" and "1.2" > "1.2.0": all-zero extras make the longer version the smaller. */
  lemma ZeroExtrasRankBelow(p: seq<string>)
    requires p == ["1", "2"]
    ensures Compare(Join(p + ["0"]), Join(p)) == -1
    ensures Compare(Join(p), Join(p + ["0"])) == 1
  {
    DigitTokens(p);
    OneLeftover(p, "0");
    ZeroLeftover();
    AllTokensAppend(p, "0");
    JoinedResult(p + ["0"], p, -1);
    JoinedResult(p, p + ["0"], 1);
  }

  /** "1.2" < "1.2.1": a nonzero extra makes the longer version greater. */
  lemma NonzeroExtraRanksAbove(p: seq<string>)
    requires p == ["1", "2"]
    ensures Compare(Join(p), Join(p + ["1"])) == -1
  {
    DigitTokens(p);
    OneLeftover(p, "1");
    NonzeroLeftover();
    AllTokensAppend(p, "1");
    JoinedResult(p, p + ["1"], -1);
  }

  /** "1.2" < "1.2.0-alpha": the extra token is read whole, does not parse, and
      so makes the longer version greater. */
  lemma QualifiedExtraRanksAbove(p: seq<string>)
    requires p == ["1", "2"]
    ensures Compare(Join(p), Join(p + ["0-alpha"])) == -1
  {
    DigitTokens(p);
    OneLeftover(p, "0-alpha");
    QualifiedLeftover();
    AllTokensAppend(p, "0-alpha");
    JoinedResult(p, p + ["0-alpha"], -1);
  }

  // "2" < "10" < "1a" < "2"

  lemma TwoBelowTen()
    ensures CompareTokens(["2"], ["10"]) == -1
  {
    ParseDigit(2);
    Parse10();
    assert SplitSegment("2").head == "2";
    assert SplitSegment("10").head == "10";
    NumericHeadsCompareByValue([], [], "2", "10", [], []);
    assert [] + ["2"] + [] == ["2"];
    assert [] + ["10"] + [] == ["10"];
  }

  lemma OneAIsText()
    ensures Parse("1a") == None && SplitSegment("1a").head == "1a"
  {
    assert !IsDigit("1a"[1]);
  }

  lemma TextAgainstOneA(x: string)
    requires x == "10" || x == "2"
    ensures CompareTokens([x], ["1a"]) == CompareText(x, "1a")
  {
    OneAIsText();
    assert SplitSegment(x).head == x;
    TextHeadsCompareAsText([], [], x, "1a", [], []);
    assert [] + [x] + [] == [x];
    assert [] + ["1a"] + [] == ["1a"];
  }

  lemma SingleTokenResult(x: string, y: string, r: int)
    requires IsToken(x) && IsToken(y) && CompareTokens([x], [y]) == r
    ensures Compare(x, y) == r
  {
    assert Join([x]) == x && Join([y]) == y;
    JoinedResult([x], [y], r);
  }

  /** The order is not transitive: "2" < "10" as numbers, "10" < "1a" as text, yet "2" > "1a". */
  lemma NotTransitive()
    ensures Compare("2", "10") == -1
    ensures Compare("10", "1a") == -1
    ensures Compare("2", "1a") == 1
  {
    TwoBelowTen();
    TextAgainstOneA("10");
    TextAgainstOneA("2");
    SingleTokenResult("2", "10", -1);
    SingleTokenResult("10", "1a", -1);
    SingleTokenResult("2", "1a", 1);
  }

  /** A version with a qualifier is less than itself. */
  lemma SnapshotBelowItself()
    ensures Compare("1.0-SNAPSHOT", "1.0-SNAPSHOT") == -1
  {
    assert "1.0-SNAPSHOT"[3] == '-';
    CompareSelf("1.0-SNAPSHOT");
  }

  /** Empty pieces yield no segment: "1..2" has two segments. */
  lemma EmptyPiecesSkipped()
    ensures SegmentCount("1..2") == 2
  {
    TokensOfDottedToken("1", ".2");
    assert "1" + "." + ".2" == "1..2";
    TokensSkipDot("2");
    TokensOfJoin(["2"]);
  }
}
