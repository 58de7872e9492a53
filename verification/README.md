# Numeric version ordering and version changes

A Dafny model of two classes of the versions-maven-plugin.

- `NumericVersionComparator` is a deprecated comparator for dot-separated version strings. Its three parts are modelled:
  - `compare` walks the `.`-separated tokens of both versions pairwise. It splits each token at its first `-` into a head and a qualifier. Heads compare as integers when both parse, and as text otherwise. Then the qualifiers decide. When one version runs out, the leftover tokens of the other decide.
  - `innerGetSegmentCount` counts the tokens.
  - `innerIncrementSegment` rewrites one segment. A numeric head becomes the next integer. The keywords alpha, beta, milestone, cr/rc, ga and final either bump a numeric qualifier or move to the next keyword. Every other head goes through `alphaNumIncrement`. Every later segment becomes `0`.
- `VersionChange` is an immutable record of four nullable strings. The model covers its null-aware `equals`, its `hashCode` in 32-bit arithmetic and its `toString`.

Versions are plain strings (`seq<char>`). A Java `null` is `None`. Comparison results are kept as signs (-1, 0, 1).

Files:

- `wrappers.dfy`: `Option` and `Result`.
- `java_text.dfy`: `indexOf`, the sign of `String.compareTo`, and `equalsIgnoreCase` against the lower-case ASCII keywords. Case folding includes the four non-ASCII characters Java folds onto ASCII letters (U+0130, U+0131, U+017F, U+212A).
- `big_integer.dfy`: `new BigInteger(String)`, which accepts an optional sign followed by one or more ASCII digits, and `toString`.
- `tokenizer.dfy`: `StringTokenizer` on `.`, which skips empty pieces.
- `numeric_version_comparator.dfy`: `compare`, the segment count and the increment.
- `compare_properties.dfy`, `compare_examples.dfy`, `increment_properties.dfy` and `increment_examples.dfy`: the properties and worked examples.
- `version_change.dfy`: `VersionChange`.

Behaviours of the code that a reader of a version string may not expect:

- `compare("1.2", "1.2.0")` is 1. Trailing zero tokens make the longer version the smaller (`ZeroExtrasRankBelow`).
- `compare("1.2", "1.2.0-alpha")` is -1. A leftover token is parsed whole, `0-alpha` does not parse, and so it counts as "better than zero" (`QualifiedExtraRanksAbove`).
- `compare(v, v)` is -1 whenever `v` contains a `-`. Two identical qualifiers fall through to "the first one has a qualifier" (`CompareSelf`).
- The increment of `"1.0-alpha"` at segment 1 is `"1.1"`. The head `0` is numeric, so the keyword in the qualifier plays no part and the qualifier is dropped (`AlphaTailIgnored`).
- A bumped version does not always compare greater: `"rc"` becomes `"ga"`, and `"ga"` sorts below `"rc"` as text (`SuccessorNotAlwaysGreater`).
- The order is not transitive (`NotTransitive`). It is antisymmetric only away from tied qualifiers (`CompareAntisymmetric`).

## Model

The comparison examples take the shared leading tokens as a parameter `p` fixed by their precondition, so "1.3.34" is written `Join(p + ["34"])` with `p == ["1", "3"]`.

| member | source | states |
|---|---|---|
| JavaText.IndexOf | src/main/java/org/codehaus/mojo/versions/ordering/NumericVersionComparator.java:55-56 | `indexOf('-')`: -1 exactly when the character is absent, otherwise a position holding it with no earlier occurrence |
| JavaText.CompareText | src/main/java/org/codehaus/mojo/versions/ordering/NumericVersionComparator.java:73-79 | the sign of `String.compareTo`: one of -1, 0, 1, and 0 exactly when the two strings are equal; which one is smaller is stated by `CompareTextFirstDifference` and `CompareTextProperPrefix` |
| JavaText.CompareTextAntisymmetric | src/main/java/org/codehaus/mojo/versions/ordering/NumericVersionComparator.java:73-79 | swapping the operands of the string comparison negates its sign |
| JavaText.CompareTextFirstDifference | src/main/java/org/codehaus/mojo/versions/ordering/NumericVersionComparator.java:73-79 | the first position where two strings differ decides: the string with the smaller character there is smaller, as `String.compareTo` orders them |
| JavaText.CompareTextProperPrefix | src/main/java/org/codehaus/mojo/versions/ordering/NumericVersionComparator.java:73-79 | a proper prefix is smaller than the string it starts |
| JavaText.EqualsIgnoreCaseOnLowerWords | src/main/java/org/codehaus/mojo/versions/ordering/NumericVersionComparator.java:172-180 | between a lower-case keyword and a lower-case ASCII word, `equalsIgnoreCase` is plain equality, so the keywords are told apart |
| JavaText.EqualsIgnoreCaseAcceptsBothCases | src/main/java/org/codehaus/mojo/versions/ordering/NumericVersionComparator.java:172-180 | a keyword matches both its lower-case and its upper-case spelling |
| BigIntegerText.Parse | src/main/java/org/codehaus/mojo/versions/ordering/NumericVersionComparator.java:66-67 | `new BigInteger(s)` succeeds only on non-empty, dot-free text; without a minus sign or with a leading digit the value is non-negative |
| BigIntegerText.ToDecimal | src/main/java/org/codehaus/mojo/versions/ordering/NumericVersionComparator.java:168 | `toString` of the incremented number parses back to that number and is canonical: digits without leading zeros, after a '-' only for negative numbers |
| BigIntegerText.NatDigitsValue | src/main/java/org/codehaus/mojo/versions/ordering/NumericVersionComparator.java:168 | the decimal digits written for n read back as n |
| BigIntegerText.ToDecimalUnique | src/main/java/org/codehaus/mojo/versions/ordering/NumericVersionComparator.java:167-168 | `toString` is the only canonical text of its number: every canonical integer text parses, and `toString` of its value gives it back |
| BigIntegerText.CanonicalDigits | src/main/java/org/codehaus/mojo/versions/ordering/NumericVersionComparator.java:167-168 | canonical digits are exactly the digits written for their value |
| BigIntegerText.LeadingDigitPositive | src/main/java/org/codehaus/mojo/versions/ordering/NumericVersionComparator.java:66-67 | a digit string whose first digit is not zero has a positive value |
| BigIntegerText.ParseAcceptsExactly | src/main/java/org/codehaus/mojo/versions/ordering/NumericVersionComparator.java:66-67 | `new BigInteger(s)` succeeds exactly on one or more ASCII digits, optionally after a single '+' or '-' |
| BigIntegerText.ParseSigned | src/main/java/org/codehaus/mojo/versions/ordering/NumericVersionComparator.java:66-67 | the value of accepted text is the digits' value, negated after a '-' |
| BigIntegerText.ParseDigit | src/main/java/org/codehaus/mojo/versions/ordering/NumericVersionComparator.java:66-67 | a single ASCII digit parses to its own value |
| BigIntegerText.LeadingZeroIgnored | src/main/java/org/codehaus/mojo/versions/ordering/NumericVersionComparator.java:66-67 | a leading zero digit does not change the parsed value |
| Tokenizer.Tokens | src/main/java/org/codehaus/mojo/versions/ordering/NumericVersionComparator.java:48-51 | every token of `StringTokenizer(v, ".")` is non-empty and dot-free |
| Tokenizer.TokensSkipDot | src/main/java/org/codehaus/mojo/versions/ordering/NumericVersionComparator.java:48-51 | a leading dot produces no token |
| Tokenizer.TokensAreNonEmptyPieces | src/main/java/org/codehaus/mojo/versions/ordering/NumericVersionComparator.java:48-51 | the tokens are exactly the non-empty pieces between dots |
| Tokenizer.TokensOfJoin | src/main/java/org/codehaus/mojo/versions/ordering/NumericVersionComparator.java:144-161 | tokenising a dot-join of tokens gives the same tokens back |
| Tokenizer.JoinOfTokensIsNormal | src/main/java/org/codehaus/mojo/versions/ordering/NumericVersionComparator.java:161-162 | re-joining the tokens of a version and tokenising again changes nothing |
| Tokenizer.CharInTokens | src/main/java/org/codehaus/mojo/versions/ordering/NumericVersionComparator.java:48-64 | a non-dot character occurs in the version exactly when it occurs in some token |
| Tokenizer.CountTokens | src/main/java/org/codehaus/mojo/versions/ordering/NumericVersionComparator.java:129-133 | the counting loop returns the number of tokens the walk visits |
| NumericVersionComparator.SplitSegment | src/main/java/org/codehaus/mojo/versions/ordering/NumericVersionComparator.java:55-64 | the head and tail of a token render back to the token; the head has no '-'; a tail exists exactly when the token has a '-' |
| NumericVersionComparator.SplitRender | src/main/java/org/codehaus/mojo/versions/ordering/NumericVersionComparator.java:151-159 | splitting a rendered segment with a dash-free head gives that segment back, so unbumped tokens are copied verbatim |
| NumericVersionComparator.CompareHeads | src/main/java/org/codehaus/mojo/versions/ordering/NumericVersionComparator.java:65-77 | heads tie exactly when both parse to the same number, or, when they do not both parse, are the same text |
| NumericVersionComparator.CompareSegments | src/main/java/org/codehaus/mojo/versions/ordering/NumericVersionComparator.java:51-89 | the walk moves past a pair of tokens exactly when their heads tie and neither has a '-'; otherwise it answers -1 or 1 |
| NumericVersionComparator.LeftoverSign | src/main/java/org/codehaus/mojo/versions/ordering/NumericVersionComparator.java:91-106 | leftover tokens answer -1 or 1: -1 when all are zero, otherwise the verdict of the first token that is not zero (non-numeric: 1; number: its sign) |
| NumericVersionComparator.CompareTokens | src/main/java/org/codehaus/mojo/versions/ordering/NumericVersionComparator.java:50-123 | the walk answers 0 exactly when both lists have the same length and every pair of tokens ties |
| NumericVersionComparator.Compare | src/main/java/org/codehaus/mojo/versions/ordering/NumericVersionComparator.java:45-124 | `compare` answers -1, 0 or 1, and 0 only for versions with the same number of segments and no '-' |
| NumericVersionComparator.SegmentCount | src/main/java/org/codehaus/mojo/versions/ordering/NumericVersionComparator.java:129-133 | `innerGetSegmentCount` is the number of non-empty pieces between dots |
| NumericVersionComparator.KeywordSuccessor | src/main/java/org/codehaus/mojo/versions/ordering/NumericVersionComparator.java:172-181 | a keyword is recognised only in a non-empty head, and it switches to one of beta, milestone, rc, ga or sp-1 |
| NumericVersionComparator.KeywordHeadsDoNotParse | src/main/java/org/codehaus/mojo/versions/ordering/NumericVersionComparator.java:166-172 | a head matching a keyword never parses as a number, so the keyword branch is reached |
| NumericVersionComparator.KeywordSuccessorIgnoresCase | src/main/java/org/codehaus/mojo/versions/ordering/NumericVersionComparator.java:172-181 | the keywords are matched ignoring case: every spelling of a head has the successor of its folded spelling |
| NumericVersionComparator.KeywordSuccessorDomain | src/main/java/org/codehaus/mojo/versions/ordering/NumericVersionComparator.java:172-184 | a head has a successor exactly when it folds to alpha, beta, milestone, cr, rc, ga or final; every other head that does not parse as an integer reaches `alphaNumIncrement` |
| NumericVersionComparator.IncrementTarget | src/main/java/org/codehaus/mojo/versions/ordering/NumericVersionComparator.java:165-257 | a parsed head becomes `toString` of the next integer with the tail dropped; a keyword head with a numeric tail keeps the head and writes `toString` of the tail plus one; a keyword head otherwise switches to its successor; any other head goes through `alphaNumIncrement` and keeps its tail |
| NumericVersionComparator.SuccessorsAreTokens | src/main/java/org/codehaus/mojo/versions/ordering/NumericVersionComparator.java:172-181 | each segment a keyword switches to renders as a token and has a dash-free head |
| NumericVersionComparator.BumpToken | src/main/java/org/codehaus/mojo/versions/ordering/NumericVersionComparator.java:165-186 | the bumped segment is again a token; a numeric head is replaced by the canonical text `toString` writes for the next integer, with the tail dropped |
| NumericVersionComparator.RewriteTokens | src/main/java/org/codehaus/mojo/versions/ordering/NumericVersionComparator.java:146-161 | the rewrite keeps the token count, copies the tokens before the target, writes the target text at it and "0" after it |
| NumericVersionComparator.RewriteToken | src/main/java/org/codehaus/mojo/versions/ordering/NumericVersionComparator.java:150-159 | one token of the walk is again a token: before the target the token itself, at it the target text, after it "0" |
| NumericVersionComparator.IncrementSegment | src/main/java/org/codehaus/mojo/versions/ordering/NumericVersionComparator.java:138-163 | fails with (segment, count, version) exactly when the index lies outside 0..count; otherwise same count, earlier segments verbatim, target replaced by the bump of its token, later segments "0", and at index == count the version with empty pieces dropped |
| CompareProperties.CompareTokensSelf | src/main/java/org/codehaus/mojo/versions/ordering/NumericVersionComparator.java:78-90 | the walk of a token list against itself answers -1 when some token has a '-' and 0 otherwise |
| CompareProperties.CompareSelf | src/main/java/org/codehaus/mojo/versions/ordering/NumericVersionComparator.java:78-123 | `compare(v, v)` is 0 exactly when v has no '-', and -1 otherwise |
| CompareProperties.CompareHeadsAntisymmetric | src/main/java/org/codehaus/mojo/versions/ordering/NumericVersionComparator.java:65-77 | swapping two heads negates their comparison |
| CompareProperties.CompareTokensAntisymmetric | src/main/java/org/codehaus/mojo/versions/ordering/NumericVersionComparator.java:50-122 | swapping the lists negates the walk unless it reaches tied heads with identical present qualifiers, where both orders answer -1 |
| CompareProperties.CompareAntisymmetric | src/main/java/org/codehaus/mojo/versions/ordering/NumericVersionComparator.java:45-124 | `compare(b, a) == -compare(a, b)` exactly when the walk never reaches tied heads with identical present qualifiers |
| CompareProperties.CommonPrefixCancels | src/main/java/org/codehaus/mojo/versions/ordering/NumericVersionComparator.java:50-90 | a common dash-free prefix ties all the way and does not affect the result (the special case of an identical prefix) |
| CompareProperties.SelfTied | src/main/java/org/codehaus/mojo/versions/ordering/NumericVersionComparator.java:65-90 | a qualifier-free token list ties with itself pair by pair |
| CompareProperties.TiedSymmetric | src/main/java/org/codehaus/mojo/versions/ordering/NumericVersionComparator.java:65-90 | if every pair of two lists ties, so does every pair in the other order |
| CompareProperties.TiedPrefixCancels | src/main/java/org/codehaus/mojo/versions/ordering/NumericVersionComparator.java:50-90 | prefixes that tie pair by pair, such as "1.07" and "1.7", do not affect the result: what follows decides |
| CompareProperties.NumericHeadsCompareByValue | src/main/java/org/codehaus/mojo/versions/ordering/NumericVersionComparator.java:65-71 | after prefixes that tie pair by pair (not necessarily equal text), heads that both parse decide by their numeric values, and equal dash-free ones let the walk go on |
| CompareProperties.TextHeadsCompareAsText | src/main/java/org/codehaus/mojo/versions/ordering/NumericVersionComparator.java:72-76 | after prefixes that tie pair by pair, differing heads that do not both parse decide as text |
| CompareProperties.QualifierRanksBelowRelease | src/main/java/org/codehaus/mojo/versions/ordering/NumericVersionComparator.java:84-89 | after prefixes that tie pair by pair, with tied heads, the segment carrying a '-' qualifier ranks below the one without, in both orders |
| CompareProperties.DashKeepsOrder | src/main/java/org/codehaus/mojo/versions/ordering/NumericVersionComparator.java:55-58 | the leading '-' kept on both qualifiers does not change their order as text |
| CompareProperties.QualifiersDecideAsText | src/main/java/org/codehaus/mojo/versions/ordering/NumericVersionComparator.java:78-83 | after a tied prefix, with tied heads and two different qualifiers, the qualifiers decide as text |
| CompareProperties.LeftoversDecide | src/main/java/org/codehaus/mojo/versions/ordering/NumericVersionComparator.java:91-122 | when one version is a list that ties pair by pair with the other, followed by extra tokens, those tokens decide, with the sign turned for the other order; all-zero extras make the longer version smaller |
| CompareExamples.CompareJoined | src/main/java/org/codehaus/mojo/versions/ordering/NumericVersionComparator.java:45-50 | comparing dot-joined token lists is the walk over those lists |
| CompareExamples.NumbersNotText | src/main/java/org/codehaus/mojo/versions/ordering/NumericVersionComparator.java:29-30 | "1.3.34" > "1.3.9": numeric heads compare by value |
| CompareExamples.SnapshotBelowRelease | src/main/java/org/codehaus/mojo/versions/ordering/NumericVersionComparator.java:30-31 | "1.3.4.3.2.34" > "1.3.4.3.2.34-SNAPSHOT" |
| CompareExamples.LeadingZerosTie | src/main/java/org/codehaus/mojo/versions/ordering/NumericVersionComparator.java:66-71 | "1.007" ties "1.7" |
| CompareExamples.ZeroExtrasRankBelow | src/main/java/org/codehaus/mojo/versions/ordering/NumericVersionComparator.java:91-122 | "1.2.0" < "1.2" and "1.2" > "1.2.0" |
| CompareExamples.TiedPrefixThenNumbers | src/main/java/org/codehaus/mojo/versions/ordering/NumericVersionComparator.java:65-71 | "1.007.3" > "1.7.2": the tie of "007" and "7" lets "3" > "2" decide |
| CompareExamples.TiedPrefixThenZero | src/main/java/org/codehaus/mojo/versions/ordering/NumericVersionComparator.java:91-105 | "1.007.0" < "1.7": after the tied prefix, the zero extra makes the longer version smaller |
| CompareExamples.NonzeroExtraRanksAbove | src/main/java/org/codehaus/mojo/versions/ordering/NumericVersionComparator.java:107-115 | "1.2" < "1.2.1" |
| CompareExamples.QualifiedExtraRanksAbove | src/main/java/org/codehaus/mojo/versions/ordering/NumericVersionComparator.java:107-119 | "1.2" < "1.2.0-alpha": the extra token is parsed whole and does not parse |
| CompareExamples.NotTransitive | src/main/java/org/codehaus/mojo/versions/ordering/NumericVersionComparator.java:65-77 | "2" < "10" and "10" < "1a" but "2" > "1a": the order is not transitive |
| CompareExamples.SnapshotBelowItself | src/main/java/org/codehaus/mojo/versions/ordering/NumericVersionComparator.java:78-86 | "1.0-SNAPSHOT" compares below itself |
| CompareExamples.EmptyPiecesSkipped | src/main/java/org/codehaus/mojo/versions/ordering/NumericVersionComparator.java:129-133 | "1..2" has two segments |
| IncrementProperties.KeywordBumpsNumericTail | src/main/java/org/codehaus/mojo/versions/ordering/NumericVersionComparator.java:188-257 | a keyword head with a numeric tail keeps the head and replaces the tail with the `toString` text of its value plus one |
| IncrementProperties.KeywordAdvances | src/main/java/org/codehaus/mojo/versions/ordering/NumericVersionComparator.java:188-257 | a keyword head without a numeric tail moves to the keyword's successor |
| IncrementProperties.OtherHeadKeepsTail | src/main/java/org/codehaus/mojo/versions/ordering/NumericVersionComparator.java:182-184 | any other non-numeric head goes through `alphaNumIncrement` and keeps its tail |
| IncrementProperties.KeywordTable | src/main/java/org/codehaus/mojo/versions/ordering/NumericVersionComparator.java:172-181 | alpha→beta, beta→milestone, milestone→rc, cr and rc→ga, ga and final→sp-1 |
| IncrementProperties.BumpKeyword | src/main/java/org/codehaus/mojo/versions/ordering/NumericVersionComparator.java:172-181 | a dash-free keyword token is replaced by the successor segment |
| IncrementProperties.AlphaStep | src/main/java/org/codehaus/mojo/versions/ordering/NumericVersionComparator.java:245-248 | "alpha" and "ALPHA" become "beta" |
| IncrementProperties.BetaStep | src/main/java/org/codehaus/mojo/versions/ordering/NumericVersionComparator.java:231-234 | "beta" becomes "milestone" |
| IncrementProperties.MilestoneStep | src/main/java/org/codehaus/mojo/versions/ordering/NumericVersionComparator.java:217-220 | "milestone" becomes "rc" |
| IncrementProperties.RcStep | src/main/java/org/codehaus/mojo/versions/ordering/NumericVersionComparator.java:203-206 | "rc" becomes "ga" |
| IncrementProperties.CrUpperCaseStep | src/main/java/org/codehaus/mojo/versions/ordering/NumericVersionComparator.java:178-179 | "CR" becomes "ga" |
| IncrementProperties.GaStep | src/main/java/org/codehaus/mojo/versions/ordering/NumericVersionComparator.java:188-192 | "ga" becomes "sp-1" |
| IncrementProperties.FinalStep | src/main/java/org/codehaus/mojo/versions/ordering/NumericVersionComparator.java:180-181 | "final" becomes "sp-1" |
| IncrementProperties.SplitAt | src/main/java/org/codehaus/mojo/versions/ordering/NumericVersionComparator.java:151-154 | the split happens at the first '-' |
| IncrementProperties.RcTwoToThree | src/main/java/org/codehaus/mojo/versions/ordering/NumericVersionComparator.java:203-209 | "rc-2" becomes "rc-3" |
| IncrementProperties.DigitTailStep | src/main/java/org/codehaus/mojo/versions/ordering/NumericVersionComparator.java:188-257 | a keyword head with a one-digit tail below 9 keeps the head and gets the next digit as its tail |
| IncrementProperties.NonNumericTailDropped | src/main/java/org/codehaus/mojo/versions/ordering/NumericVersionComparator.java:210-213 | "rc-x" becomes "ga": a non-numeric tail is dropped |
| IncrementProperties.NumericBump | src/main/java/org/codehaus/mojo/versions/ordering/NumericVersionComparator.java:167-169 | a dash-free numeric token becomes the next number with no '-' |
| IncrementProperties.BumpedTokensGreater | src/main/java/org/codehaus/mojo/versions/ordering/NumericVersionComparator.java:65-71 | a list equal up to a segment whose number is one larger compares greater, in both orders |
| IncrementProperties.SuccessorAfterPrefix | src/main/java/org/codehaus/mojo/versions/ordering/NumericVersionComparator.java:65-71 | after a dash-free prefix, a dash-free number compares below its successor, in both orders, whatever follows |
| IncrementProperties.DashFreeTokens | src/main/java/org/codehaus/mojo/versions/ordering/NumericVersionComparator.java:48-56 | the tokens of a version without a '-' carry no qualifier |
| IncrementProperties.BumpedListGreater | src/main/java/org/codehaus/mojo/versions/ordering/NumericVersionComparator.java:165-169 | the bumped token list of a dash-free version compares greater than the original |
| IncrementProperties.NumericBumpIsGreater | src/main/java/org/codehaus/mojo/versions/ordering/NumericVersionComparator.java:138-169 | bumping a dash-free version at a numeric segment succeeds and gives a version that compares greater |
| IncrementProperties.IncrementAtCountNormalises | src/main/java/org/codehaus/mojo/versions/ordering/NumericVersionComparator.java:147-161 | at index == count nothing is bumped, and asking again on the result changes nothing |
| IncrementProperties.IncrementResultIsNormal | src/main/java/org/codehaus/mojo/versions/ordering/NumericVersionComparator.java:144-162 | a successful result has no empty pieces: it is its own tokens joined by dots |
| IncrementExamples.BumpDigit | src/main/java/org/codehaus/mojo/versions/ordering/NumericVersionComparator.java:167-168 | a digit below 9 becomes the next digit |
| IncrementExamples.IncrementJoined | src/main/java/org/codehaus/mojo/versions/ordering/NumericVersionComparator.java:144-161 | the increment of a dot-joined token list is the join of the rewritten tokens |
| IncrementExamples.IncrementSecond | src/main/java/org/codehaus/mojo/versions/ordering/NumericVersionComparator.java:144-161 | a two-segment version bumped at segment 1 keeps its first token and bumps its second |
| IncrementExamples.IncrementLastSegment | src/main/java/org/codehaus/mojo/versions/ordering/NumericVersionComparator.java:138-163 | "1.2.3" at segment 2 is "1.2.4" |
| IncrementExamples.IncrementMiddleSegment | src/main/java/org/codehaus/mojo/versions/ordering/NumericVersionComparator.java:278-285 | "1.2.3" at segment 1 is "1.3.0" |
| IncrementExamples.IncrementOutOfRange | src/main/java/org/codehaus/mojo/versions/ordering/NumericVersionComparator.java:139-142 | "1.2.3" at segment 5 or -1 fails with that segment, count 3 and the version |
| IncrementExamples.IncrementAtCount | src/main/java/org/codehaus/mojo/versions/ordering/NumericVersionComparator.java:147-161 | "1.2.3" at segment 3 is "1.2.3" |
| IncrementExamples.AlphaTailIgnored | src/main/java/org/codehaus/mojo/versions/ordering/NumericVersionComparator.java:151-169 | "a.0-alpha" at segment 1 is "a.1" for every first token a, such as "1" |
| IncrementExamples.SuccessorNotAlwaysGreater | src/main/java/org/codehaus/mojo/versions/ordering/NumericVersionComparator.java:203-205 | "rc" at segment 0 is "ga", which compares below "rc" |
| VersionChanges.Make | src/main/java/org/codehaus/mojo/versions/change/VersionChange.java:37-58 | each getter returns exactly the argument given to the constructor |
| VersionChanges.NullSafeEquals | src/main/java/org/codehaus/mojo/versions/change/VersionChange.java:76-85 | the null-aware field test holds exactly when both are null or both hold the same string |
| VersionChanges.CompareAttributes | src/main/java/org/codehaus/mojo/versions/change/VersionChange.java:73-89 | true exactly when all four fields are pairwise equal |
| VersionChanges.Equals | src/main/java/org/codehaus/mojo/versions/change/VersionChange.java:60-71 | true exactly when the other object is a change with the same four fields; false for null and other classes |
| VersionChanges.EqualsIsEquivalence | src/main/java/org/codehaus/mojo/versions/change/VersionChange.java:60-89 | `equals` is reflexive, symmetric and transitive |
| VersionChanges.Wrap | src/main/java/org/codehaus/mojo/versions/change/VersionChange.java:91-96 | the wrapped value is a 32-bit `int` congruent to the exact value modulo 2^32 |
| VersionChanges.StepWraps | src/main/java/org/codehaus/mojo/versions/change/VersionChange.java:93-95 | wrapping after each multiply and add agrees with one wrap of the exact result |
| VersionChanges.ThreeSteps | src/main/java/org/codehaus/mojo/versions/change/VersionChange.java:91-96 | three wrapped steps from the first field equal one wrap of 29791·g + 961·a + 31·old + new |
| VersionChanges.HashCode | src/main/java/org/codehaus/mojo/versions/change/VersionChange.java:91-97 | the hash is the 32-bit wrap of 29791·g + 961·a + 31·old + new, each field hashing to 0 when null |
| VersionChanges.HashConsistentWithEquals | src/main/java/org/codehaus/mojo/versions/change/VersionChange.java:60-97 | equal changes have equal hash codes, for any string hash |
| VersionChanges.ToString | src/main/java/org/codehaus/mojo/versions/change/VersionChange.java:99-101 | the rendering starts "VersionChange(" with the group id, ends ")", and is 20 characters longer than its four rendered fields |
| VersionChanges.ToStringRecoversGroup | src/main/java/org/codehaus/mojo/versions/change/VersionChange.java:99-101 | when the rendered group ids contain no ':', equal renderings have equal rendered group ids (a null group id and the string "null" render alike) |
| VersionChanges.ToStringConflatesNull | src/main/java/org/codehaus/mojo/versions/change/VersionChange.java:99-101 | a null field and the string "null" render alike, although the changes are not equal |
| VersionChanges.ToStringExample | src/main/java/org/codehaus/mojo/versions/change/VersionChange.java:100 | a change with every field present renders as "VersionChange(org.example:lib:1.0-->1.1)" |

## Left out

- `ArtifactVersion` and `DefaultArtifactVersion` wrapping is left out. Versions are the strings their `toString` would give.
- `VersionComparators.alphaNumIncrement` is not part of this model. It is a parameter: any total function whose results are non-empty and dot-free. Its carry rules are not guessed.
- `InvalidSegmentException` and `AbstractVersionComparator` are not part of this model. The exception is the `Failure` value `InvalidSegment(segment, segmentCount, version)`.
- The exact magnitude of `String.compareTo` is left out: only its sign is kept. Comparison is on Dafny characters (Unicode scalar values), not UTF-16 code units. The two differ only for characters outside the Basic Multilingual Plane.
- `BigInteger`'s acceptance of non-ASCII Unicode digits is left out. Only ASCII digits parse.
- `String.hashCode` is a parameter (any function from strings to 32-bit `int`s), because the equals/hash property holds for every such function.
- The `this == o` identity shortcut in `equals` has no separate branch. Values have no identity here, and the shortcut agrees with the field comparison.
- Comparator-strategy selection and deprecation are configuration, not logic.
- NumericVersionComparator.Compare: its contract states only the necessary conditions for 0. The full characterisation is `CompareTokens` together with `CompareExamples.CompareJoined`.
- NumericVersionComparator.BumpToken: its contract states only the numeric-head case. The keyword and `alphaNumIncrement` cases are stated by `NumericVersionComparator.IncrementTarget` and by `IncrementProperties.KeywordBumpsNumericTail`, `KeywordAdvances` and `OtherHeadKeepsTail`.
- NumericVersionComparator.KeywordSuccessor: its contract states only the set of possible successors. The table itself is `IncrementProperties.KeywordTable`.
- BigIntegerText.Parse: its contract states necessary conditions for success. The texts it accepts are stated by `ParseAcceptsExactly` and their values by `ParseSigned`; the round trip with `ToDecimal` covers canonical text only.
- VersionChanges.ToString: its contract fixes the frame, the length and the position of the group id. The full layout is shown by `ToStringExample` and `ToStringConflatesNull`.
