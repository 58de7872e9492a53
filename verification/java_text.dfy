/** The few `java.lang.String` operations the version comparator relies on,
    over strings as `seq<char>`. */
module JavaText {

  /** The sign of an integer. Callers of a Java `compareTo` may rely on the sign
      of its result only, so every comparison in this model yields -1, 0 or 1. */
  function Sign(n: int): (r: int)
    ensures r == -1 || r == 0 || r == 1
    ensures r == 0 <==> n == 0
    ensures r > 0 <==> n > 0
  {
    if n < 0 then -1 else if n > 0 then 1 else 0
  }

  /** `s.indexOf(c)`: the first position of `c` in `s`, or -1 when `c` does not occur. */
  function IndexOf(s: string, c: char): (i: int)
    ensures -1 <= i < |s|
    ensures i == -1 <==> c !in s
    ensures 0 <= i ==> s[i] == c && c !in s[..i]
    decreases |s|
  {
    if |s| == 0 then -1
    else if s[0] == c then 0
    else
      var j := IndexOf(s[1..], c);
      assert j >= 0 ==> s[..j + 1] == [s[0]] + s[1..][..j];
      if j < 0 then -1 else j + 1
  }

  /** The sign of `a.compareTo(b)`: the first differing character decides,
      and when one string is a prefix of the other the shorter one is smaller. */
  function CompareText(a: string, b: string): (r: int)
    ensures r == -1 || r == 0 || r == 1
    ensures r == 0 <==> a == b
    decreases |a|
  {
    if |a| == 0 || |b| == 0 then Sign(|a| - |b|)
    else if a[0] != b[0] then (if a[0] < b[0] then -1 else 1)
    else
      var r := CompareText(a[1..], b[1..]);
      assert a == [a[0]] + a[1..] && b == [b[0]] + b[1..];
      r
  }

  /** Swapping the operands of `compareTo` negates its sign. */
  lemma {:induction false} CompareTextAntisymmetric(a: string, b: string)
    ensures CompareText(b, a) == -CompareText(a, b)
    decreases |a|
  {
    if |a| > 0 && |b| > 0 && a[0] == b[0] {
      CompareTextAntisymmetric(a[1..], b[1..]);
    }
  }

  /** The first position where two strings differ decides: the string with
      the smaller character there is the smaller string. */
  lemma {:induction false} CompareTextFirstDifference(a: string, b: string, k: nat)
    requires k < |a| && k < |b| && a[..k] == b[..k] && a[k] != b[k]
    ensures CompareText(a, b) == (if a[k] < b[k] then -1 else 1)
    decreases k
  {
    if k > 0 {
      assert a[0] == a[..k][0] == b[..k][0] == b[0];
      assert a[1..][..k - 1] == a[..k][1..] && b[1..][..k - 1] == b[..k][1..];
      CompareTextFirstDifference(a[1..], b[1..], k - 1);
    }
  }

  /** A proper prefix is smaller than the string it starts. */
  lemma {:induction false} CompareTextProperPrefix(a: string, b: string)
    requires |a| < |b| && a == b[..|a|]
    ensures CompareText(a, b) == -1
    decreases |a|
  {
    if |a| > 0 {
      assert a[0] == b[0];
      assert a[1..] == b[1..][..|a| - 1];
      CompareTextProperPrefix(a[1..], b[1..]);
    }
  }

  /** The lower-case ASCII letter a character stands for when it is compared
      with `equalsIgnoreCase`, which accepts two characters when they agree after
      upper-casing or after upper- and then lower-casing. Besides 'A'..'Z', four
      characters fold onto ASCII letters that way: the capital I with dot
      (U+0130) and the dotless i (U+0131) onto 'i', the long s (U+017F) onto 's'
      and the Kelvin sign (U+212A) onto 'k'. Every other character stands for itself. */
  function FoldCase(c: char): char
  {
    if 'A' <= c <= 'Z' then (c as int - 'A' as int + 'a' as int) as char
    else if c == '\U{130}' || c == '\U{131}' then 'i'
    else if c == '\U{17F}' then 's'
    else if c == '\U{212A}' then 'k'
    else c
  }

  predicate IsLowerAsciiWord(w: string)
  {
    forall i :: 0 <= i < |w| ==> 'a' <= w[i] <= 'z'
  }

  /** Every character of `s` folded. */
  function Fold(s: string): (f: string)
    ensures |f| == |s|
    ensures forall i :: 0 <= i < |s| ==> f[i] == FoldCase(s[i])
  {
    seq(|s|, i requires 0 <= i < |s| => FoldCase(s[i]))
  }

  /** `keyword.equalsIgnoreCase(s)` for a keyword spelled in lower-case ASCII
      letters: the same length, and character by character the same after folding. */
  predicate EqualsIgnoreCase(keyword: string, s: string)
    requires IsLowerAsciiWord(keyword)
  {
    Fold(s) == keyword
  }

  /** The upper-case ASCII spelling of a lower-case ASCII word. */
  function ToUpperAscii(w: string): (u: string)
    requires IsLowerAsciiWord(w)
    ensures |u| == |w|
    ensures forall i :: 0 <= i < |w| ==> 'A' <= u[i] <= 'Z' && FoldCase(u[i]) == w[i]
  {
    seq(|w|, i requires 0 <= i < |w| => (w[i] as int - 'a' as int + 'A' as int) as char)
  }

  /** Folding leaves a lower-case ASCII word unchanged. */
  lemma FoldLowerWord(w: string)
    requires IsLowerAsciiWord(w)
    ensures Fold(w) == w
  {
    assert forall i :: 0 <= i < |w| ==> FoldCase(w[i]) == w[i];
  }

  /** Folding twice folds no further. */
  lemma FoldIdempotent(s: string)
    ensures Fold(Fold(s)) == Fold(s)
  {
    assert forall i :: 0 <= i < |s| ==> FoldCase(FoldCase(s[i])) == FoldCase(s[i]);
  }

  /** Between two lower-case ASCII words, ignoring case is plain equality. */
  lemma EqualsIgnoreCaseOnLowerWords(keyword: string, w: string)
    requires IsLowerAsciiWord(keyword) && IsLowerAsciiWord(w)
    ensures EqualsIgnoreCase(keyword, w) <==> keyword == w
  {
    FoldLowerWord(w);
  }

  /** A keyword matches itself in every case: exactly as written and all in capitals. */
  lemma EqualsIgnoreCaseAcceptsBothCases(keyword: string)
    requires IsLowerAsciiWord(keyword)
    ensures EqualsIgnoreCase(keyword, keyword)
    ensures EqualsIgnoreCase(keyword, ToUpperAscii(keyword))
  {
  }
}
