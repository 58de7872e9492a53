/** The numeric version comparator: an order on dot-separated version strings
    that compares the pieces between dots as numbers where it can, the count of
    those pieces, and the "next version" obtained by bumping one of them.
    Versions are plain strings. */
module NumericVersionComparator {
  import opened Wrappers
  import opened JavaText
  import opened BigIntegerText
  import opened Tokenizer

  /** A token split at its first '-': the head before the dash and, when the
      token has one, the tail after it (which may hold further dashes). */
  datatype Segment = Segment(head: string, tail: Option<string>)

  function Render(s: Segment): string
  {
    match s.tail
    case None => s.head
    case Some(t) => s.head + "-" + t
  }

  /** Splits a token at its first '-'; rendering the parts gives the token back. */
  function SplitSegment(p: string): (s: Segment)
    ensures Render(s) == p
    ensures '-' !in s.head
    ensures s.tail.Some? <==> '-' in p
  {
    var i := IndexOf(p, '-');
    if i < 0 then Segment(p, None)
    else
      assert p == p[..i] + "-" + p[i + 1..];
      Segment(p[..i], Some(p[i + 1..]))
  }

  /** The other direction of the round trip: a dash-free head is split back off. */
  lemma SplitRender(s: Segment)
    requires '-' !in s.head
    ensures SplitSegment(Render(s)) == s
  {
    var p := Render(s);
    var i := IndexOf(p, '-');
    match s.tail
    case None =>
    case Some(t) =>
      assert p[|s.head|] == '-';
      assert p[..|s.head|] == s.head;
      assert i == |s.head|;
      assert p[i + 1..] == t;
  }

  // ---------------------------------------------------------------------------
  // compare

  /** The head comparison in `compare`: both heads are read as integers; when both parse they compare
      by value, and otherwise, including when only one of them parses, as text. */
  function CompareHeads(h1: string, h2: string): (r: int)
    ensures r == -1 || r == 0 || r == 1
    ensures r == 0 <==> (if Parse(h1).Some? && Parse(h2).Some? then Parse(h1) == Parse(h2) else h1 == h2)
  {
    match (Parse(h1), Parse(h2))
    case (Some(n1), Some(n2)) => Sign(n1 - n2)
    case _ => CompareText(h1, h2)
  }

  /** One round of the pairwise walk in `compare`: `Some(sign)` when the pair
      decides the comparison, `None` when the walk moves on. The qualifier that
      `compare` sees keeps its leading dash. Two present, identical qualifiers do
      not tie: the walk falls through to "the first one has a qualifier" and
      answers -1. */
  function CompareSegments(p1: string, p2: string): (r: Option<int>)
    ensures r.Some? ==> r.value == -1 || r.value == 1
    ensures r.None? <==> CompareHeads(SplitSegment(p1).head, SplitSegment(p2).head) == 0 && '-' !in p1 && '-' !in p2
  {
    var s1 := SplitSegment(p1);
    var s2 := SplitSegment(p2);
    var h := CompareHeads(s1.head, s2.head);
    if h != 0 then Some(h)
    else if s1.tail.Some? && s2.tail.Some? && CompareText("-" + s1.tail.value, "-" + s2.tail.value) != 0 then
      Some(CompareText("-" + s1.tail.value, "-" + s2.tail.value))
    else if s1.tail.Some? then Some(-1)
    else if s2.tail.Some? then Some(1)
    else None
  }

  /** Every token of `e` parses to zero. */
  predicate AllZero(e: seq<string>)
  {
    forall i :: 0 <= i < |e| ==> Parse(e[i]) == Some(0)
  }

  /** What one leftover token, read whole, says about the longer version when it
      is not zero: a token that does not parse makes it greater, a number decides
      by its sign. */
  function LeftoverVerdict(t: string): int
  {
    match Parse(t)
    case None => 1
    case Some(n) => Sign(n)
  }

  lemma LeftoverShift(e: seq<string>)
    requires |e| > 0
    ensures AllZero(e) ==> AllZero(e[1..])
    ensures forall k :: 1 <= k < |e| && AllZero(e[..k]) ==> AllZero(e[1..][..k - 1]) && e[1..][k - 1] == e[k]
  {
    forall k | 1 <= k < |e| && AllZero(e[..k])
      ensures AllZero(e[1..][..k - 1])
    {
      assert e[1..][..k - 1] == e[..k][1..];
    }
  }

  /** The leftover loops of `compare`: the verdict of the longer version's leftover tokens, each
      parsed whole without a split at '-', against an implicit zero. The first
      token that is not zero decides; when all of them are zero the longer
      version is reported as the smaller one. */
  function LeftoverSign(e: seq<string>): (r: int)
    ensures r == -1 || r == 1
    ensures AllZero(e) ==> r == -1
    ensures forall k :: 0 <= k < |e| && AllZero(e[..k]) && Parse(e[k]) != Some(0) ==> r == LeftoverVerdict(e[k])
    decreases |e|
  {
    if |e| == 0 then -1
    else
      match Parse(e[0])
      case None => 1
      case Some(n) =>
        if n != 0 then Sign(n)
        else
          var r := LeftoverSign(e[1..]);
          LeftoverShift(e);
          r
  }

  /** The body of `compare` over the two token lists: the pairwise walk, then
      the longer list's leftovers (the second leftover loop mirrors the first
      with the sign turned), then 0. The result is 0 exactly when both lists have the same length and
      every pair of tokens ties. */
  function CompareTokens(t1: seq<string>, t2: seq<string>): (r: int)
    ensures r == -1 || r == 0 || r == 1
    ensures r == 0 <==> |t1| == |t2| && forall i :: 0 <= i < |t1| ==> CompareSegments(t1[i], t2[i]).None?
    decreases |t1|
  {
    if |t1| > 0 && |t2| > 0 then
      match CompareSegments(t1[0], t2[0])
      case Some(d) => d
      case None =>
        var r := CompareTokens(t1[1..], t2[1..]);
        assert forall i :: 1 <= i < |t1| ==> t1[1..][i - 1] == t1[i];
        assert forall i :: 1 <= i < |t2| ==> t2[1..][i - 1] == t2[i];
        r
    else if |t1| > 0 then LeftoverSign(t1)
    else if |t2| > 0 then -LeftoverSign(t2)
    else 0
  }

  /** `compare`: the sign of the comparison of two versions. Two
      versions compare equal only when they have the same number of segments
      and neither contains a '-'. */
  function Compare(v1: string, v2: string): (r: int)
    ensures r == -1 || r == 0 || r == 1
    ensures r == 0 ==> |Tokens(v1)| == |Tokens(v2)| && '-' !in v1 && '-' !in v2
  {
    var t1 := Tokens(v1);
    var t2 := Tokens(v2);
    var r := CompareTokens(t1, t2);
    CharInTokens(v1, '-');
    CharInTokens(v2, '-');
    assert r == 0 ==> forall i :: 0 <= i < |t1| ==> '-' !in t1[i] && '-' !in t2[i];
    r
  }

  // ---------------------------------------------------------------------------
  // innerGetSegmentCount

  /** `innerGetSegmentCount`: the number of non-empty pieces
      between dots, which are the tokens `compare` and the increment walk. */
  function SegmentCount(v: string): (n: nat)
    ensures n == |NonEmpty(Pieces(v))|
  {
    TokensAreNonEmptyPieces(v);
    |Tokens(v)|
  }

  // ---------------------------------------------------------------------------
  // innerIncrementSegment

  /** `VersionComparators.alphaNumIncrement`, whose definition is not part of
      this model: any function whose results are non-empty and dot-free. */
  type AlphaNumIncrement = f: string -> string | forall s :: IsToken(f(s))
    witness (s: string) => "1"

  /** The error `innerIncrementSegment` throws for a segment index out of range. */
  datatype InvalidSegment = InvalidSegment(segment: int, segmentCount: nat, version: string)

  /** The segments a keyword head can switch to. */
  const Successors: set<Segment> := {
    Segment("beta", None), Segment("milestone", None), Segment("rc", None),
    Segment("ga", None), Segment("sp", Some("1"))}

  /** Each of them renders as a token and has a dash-free head. */
  lemma SuccessorsAreTokens(s: Segment)
    requires s in Successors
    ensures IsToken(Render(s)) && '-' !in s.head
  {
  }

  /** The qualifier progression of `tryCatch`, looked up case-insensitively on
      the head: the segment the head switches to when it is not bumped in place. */
  function KeywordSuccessor(head: string): (r: Option<Segment>)
    ensures r.Some? ==> |head| > 0 && r.value in Successors
  {
    if EqualsIgnoreCase("alpha", head) then Some(Segment("beta", None))
    else if EqualsIgnoreCase("beta", head) then Some(Segment("milestone", None))
    else if EqualsIgnoreCase("milestone", head) then Some(Segment("rc", None))
    else if EqualsIgnoreCase("cr", head) || EqualsIgnoreCase("rc", head) then Some(Segment("ga", None))
    else if EqualsIgnoreCase("ga", head) || EqualsIgnoreCase("final", head) then Some(Segment("sp", Some("1")))
    else None
  }

  /** A head that matches a keyword is made of letters, so it never parses as a number. */
  lemma KeywordHeadsDoNotParse(head: string)
    requires KeywordSuccessor(head).Some?
    ensures Parse(head).None?
  {
    assert 'a' <= FoldCase(head[0]) <= 'z';
  }

  /** The keywords are matched ignoring case: a head and its folded spelling
      have the same successor. */
  lemma KeywordSuccessorIgnoresCase(head: string)
    ensures KeywordSuccessor(head) == KeywordSuccessor(Fold(head))
  {
    FoldIdempotent(head);
  }

  /** Exactly the heads that fold to one of the seven keywords have a successor. */
  lemma KeywordSuccessorDomain(head: string)
    ensures KeywordSuccessor(head).Some? <==>
      Fold(head) in {"alpha", "beta", "milestone", "cr", "rc", "ga", "final"}
  {
  }

  /** `tryCatch` with `case1`..`case5` on the target segment: a head that parses
      becomes the next integer and the tail is dropped; a keyword head keeps
      itself and bumps a numeric tail, and otherwise switches to its successor;
      any other head goes through `alphaNumIncrement` and keeps its tail. */
  function IncrementTarget(s: Segment, alphaNum: AlphaNumIncrement): (r: Segment)
    ensures Parse(s.head).Some? ==> r == Segment(ToDecimal(Parse(s.head).value + 1), None)
    ensures KeywordSuccessor(s.head).Some? && s.tail.Some? && Parse(s.tail.value).Some? ==>
      r.head == s.head && r.tail == Some(ToDecimal(Parse(s.tail.value).value + 1))
    ensures KeywordSuccessor(s.head).Some? && (s.tail.None? || Parse(s.tail.value).None?) ==>
      Some(r) == KeywordSuccessor(s.head)
    ensures Parse(s.head).None? && KeywordSuccessor(s.head).None? ==>
      r == Segment(alphaNum(s.head), s.tail)
  {
    assert KeywordSuccessor(s.head).Some? ==> Parse(s.head).None? by {
      if KeywordSuccessor(s.head).Some? {
        KeywordHeadsDoNotParse(s.head);
      }
    }
    match Parse(s.head)
    case Some(n) => Segment(ToDecimal(n + 1), None)
    case None =>
      match KeywordSuccessor(s.head)
      case Some(next) =>
        (match s.tail
         case None => next
         case Some(t) =>
           match Parse(t)
           case Some(m) => Segment(s.head, Some(ToDecimal(m + 1)))
           case None => next)
      case None => Segment(alphaNum(s.head), s.tail)
  }

  /** The text the target token becomes (`bufAppend1` with `seg == 0`). It is
      again a token, and a numeric head turns into the next integer with the
      tail dropped. */
  function BumpToken(p: string, alphaNum: AlphaNumIncrement): (r: string)
    requires IsToken(p)
    ensures IsToken(r)
    ensures Parse(SplitSegment(p).head).Some? ==>
      '-' !in r && Parse(r) == Some(Parse(SplitSegment(p).head).value + 1)
    ensures Parse(SplitSegment(p).head).Some? ==> r == ToDecimal(Parse(SplitSegment(p).head).value + 1)
  {
    var s := SplitSegment(p);
    assert '.' !in s.head && (s.tail.Some? ==> '.' !in s.tail.value) by {
      assert p == Render(s);
    }
    var next := KeywordSuccessor(s.head);
    assert next.Some? ==> IsToken(Render(next.value)) by {
      if next.Some? {
        SuccessorsAreTokens(next.value);
      }
    }
    Render(IncrementTarget(s, alphaNum))
  }

  /** The text the target token becomes: `BumpToken` of the token at `seg`, or
      "0" (never written) when `seg` lies outside the list. */
  function TargetText(ts: seq<string>, seg: int, alphaNum: AlphaNumIncrement): (t: string)
    requires AllTokens(ts)
    ensures IsToken(t)
    ensures 0 <= seg < |ts| ==> t == BumpToken(ts[seg], alphaNum)
  {
    if 0 <= seg < |ts| then BumpToken(ts[seg], alphaNum) else ZeroIsToken(); "0"
  }

  lemma ZeroIsToken()
    ensures IsToken("0") && '-' !in "0"
  {
  }

  /** The token walk of `innerIncrementSegment` with `bufAppend1` and
      `bufAppend2`, given the text the target becomes: tokens before the target
      are split and rendered back unchanged, the target is replaced, and every
      token after it is replaced by "0". */
  function RewriteTokens(ts: seq<string>, seg: int, target: string): (rs: seq<string>)
    requires AllTokens(ts) && IsToken(target)
    ensures |rs| == |ts| && AllTokens(rs)
    ensures forall i :: 0 <= i < |ts| && i < seg ==> rs[i] == ts[i]
    ensures 0 <= seg < |ts| ==> rs[seg] == target
    ensures forall i :: 0 <= i < |ts| && seg < i ==> rs[i] == "0"
  {
    ZeroIsToken();
    seq(|ts|, i requires 0 <= i < |ts| => RewriteToken(ts[i], seg - i, target))
  }

  /** One token of the walk, `seg` places before the target: split and rendered
      back before it, replaced at it, "0" after it. */
  function RewriteToken(t: string, seg: int, target: string): (r: string)
    requires IsToken(t) && IsToken(target)
    ensures IsToken(r)
    ensures seg > 0 ==> r == t
    ensures seg == 0 ==> r == target
    ensures seg < 0 ==> r == "0"
  {
    if seg == 0 then target
    else if seg > 0 then Render(SplitSegment(t))
    else ZeroIsToken(); "0"
  }

  /** `innerIncrementSegment`: fails with the index, the count
      and the version when the index lies outside 0..count. Otherwise the result
      has the same segments as the version, except that the target is bumped and
      every later segment is "0"; with the index equal to the count no segment
      is bumped and the result is the version with its empty pieces dropped. */
  function IncrementSegment(v: string, segment: int, alphaNum: AlphaNumIncrement): (r: Result<string, InvalidSegment>)
    ensures r.Failure? <==> segment < 0 || segment > SegmentCount(v)
    ensures r.Failure? ==> r.error == InvalidSegment(segment, SegmentCount(v), v)
    ensures r.Success? ==> |Tokens(r.value)| == SegmentCount(v)
    ensures r.Success? ==> forall i :: 0 <= i < segment && i < |Tokens(v)| ==> Tokens(r.value)[i] == Tokens(v)[i]
    ensures r.Success? && segment < SegmentCount(v) ==>
      Tokens(r.value)[segment] == BumpToken(Tokens(v)[segment], alphaNum)
    ensures r.Success? ==> forall i :: segment < i < |Tokens(v)| ==> Tokens(r.value)[i] == "0"
    ensures r.Success? && segment == SegmentCount(v) ==> r.value == Join(Tokens(v))
  {
    var count := SegmentCount(v);
    if segment < 0 || segment > count then Failure(InvalidSegment(segment, count, v))
    else
      var ts := Tokens(v);
      var rs := RewriteTokens(ts, segment, TargetText(ts, segment, alphaNum));
      TokensOfJoin(rs);
      assert segment == count ==> rs == ts;
      Success(Join(rs))
  }
}
