/** `java.util.StringTokenizer` with '.' as its only delimiter: the tokens of a
    string are its maximal runs of non-'.' characters, so empty pieces between
    adjacent dots, or at either end, yield no token. */
module Tokenizer {
  import opened JavaText

  predicate IsToken(t: string)
  {
    |t| > 0 && '.' !in t
  }

  predicate AllTokens(ts: seq<string>)
  {
    forall i :: 0 <= i < |ts| ==> IsToken(ts[i])
  }

  /** The length of the token that starts `s`. */
  function TokenLength(s: string): (n: nat)
    requires |s| > 0 && s[0] != '.'
    ensures 0 < n <= |s|
    ensures '.' !in s[..n]
    ensures n < |s| ==> s[n] == '.'
  {
    var i := IndexOf(s, '.');
    if i < 0 then |s| else i
  }

  /** The tokens `nextToken` yields, in order: delimiters are skipped, then a
      maximal run of other characters is returned. */
  function Tokens(s: string): (ts: seq<string>)
    ensures AllTokens(ts)
    decreases |s|
  {
    if |s| == 0 then []
    else if s[0] == '.' then Tokens(s[1..])
    else
      var n := TokenLength(s);
      [s[..n]] + Tokens(s[n..])
  }

  /** Every piece between consecutive dots, empty ones included. */
  function Pieces(s: string): (ps: seq<string>)
    ensures |ps| > 0
    ensures forall i :: 0 <= i < |ps| ==> '.' !in ps[i]
    decreases |s|
  {
    var i := IndexOf(s, '.');
    if i < 0 then [s] else [s[..i]] + Pieces(s[i + 1..])
  }

  /** The non-empty strings of `ps`, in order. */
  function NonEmpty(ps: seq<string>): (qs: seq<string>)
    ensures |qs| <= |ps|
    ensures forall i :: 0 <= i < |qs| ==> |qs[i]| > 0
  {
    if |ps| == 0 then []
    else (if |ps[0]| > 0 then [ps[0]] else []) + NonEmpty(ps[1..])
  }

  /** The strings of `ts` separated by single dots. */
  function Join(ts: seq<string>): string
  {
    if |ts| == 0 then ""
    else if |ts| == 1 then ts[0]
    else ts[0] + "." + Join(ts[1..])
  }

  /** A leading dot yields no token. */
  lemma {:induction false} TokensSkipDot(s: string)
    ensures Tokens("." + s) == Tokens(s)
  {
    assert ("." + s)[1..] == s;
  }

  /** A leading dot: no token, and an empty first piece. */
  lemma DotFirst(s: string)
    requires |s| > 0 && s[0] == '.'
    ensures Tokens(s) == Tokens(s[1..])
    ensures NonEmpty(Pieces(s)) == NonEmpty(Pieces(s[1..]))
  {
    assert IndexOf(s, '.') == 0;
    assert Pieces(s) == [""] + Pieces(s[1..]);
    assert ([""] + Pieces(s[1..]))[1..] == Pieces(s[1..]);
  }

  /** No dot at all: one token and one piece, the whole text. */
  lemma NoDot(s: string)
    requires |s| > 0 && '.' !in s
    ensures Tokens(s) == [s]
    ensures NonEmpty(Pieces(s)) == [s]
  {
    assert s[0] != '.';
    var n := TokenLength(s);
    assert n == |s| && s[..n] == s && s[n..] == [];
    assert Pieces(s) == [s];
    assert NonEmpty([s]) == [s] + NonEmpty([]);
  }

  /** A first token ended by a dot at `i`. */
  lemma TokenThenDot(s: string, i: nat)
    requires 0 < i < |s| && s[0] != '.' && i == IndexOf(s, '.')
    ensures Tokens(s) == [s[..i]] + Tokens(s[i + 1..])
    ensures NonEmpty(Pieces(s)) == [s[..i]] + NonEmpty(Pieces(s[i + 1..]))
  {
    TokensAfterToken(s, i);
    PiecesAfterPiece(s, i);
  }

  lemma TokensAfterToken(s: string, i: nat)
    requires 0 < i < |s| && s[0] != '.' && i == IndexOf(s, '.')
    ensures Tokens(s) == [s[..i]] + Tokens(s[i + 1..])
  {
    assert TokenLength(s) == i;
    var t := s[i..];
    assert t[0] == '.' && t[1..] == s[i + 1..];
    assert Tokens(t) == Tokens(s[i + 1..]);
  }

  lemma PiecesAfterPiece(s: string, i: nat)
    requires 0 < i < |s| && i == IndexOf(s, '.')
    ensures NonEmpty(Pieces(s)) == [s[..i]] + NonEmpty(Pieces(s[i + 1..]))
  {
    var ps := Pieces(s);
    assert ps == [s[..i]] + Pieces(s[i + 1..]);
    assert |ps[0]| > 0;
    assert ps[1..] == Pieces(s[i + 1..]);
  }

  /** The tokens are exactly the non-empty pieces between dots. */
  lemma {:induction false} TokensAreNonEmptyPieces(s: string)
    ensures Tokens(s) == NonEmpty(Pieces(s))
    decreases |s|
  {
    if |s| == 0 {
      assert Pieces(s) == [s];
    } else if s[0] == '.' {
      DotFirst(s);
      TokensAreNonEmptyPieces(s[1..]);
    } else if '.' !in s {
      NoDot(s);
    } else {
      var i := IndexOf(s, '.');
      TokenThenDot(s, i);
      TokensAreNonEmptyPieces(s[i + 1..]);
    }
  }

  /** A token followed by a dot is the first token of the text. */
  lemma TokensOfDottedToken(t: string, rest: string)
    requires IsToken(t)
    ensures Tokens(t + "." + rest) == [t] + Tokens(rest)
  {
    var s := t + "." + rest;
    assert s[..|t|] == t;
    assert s[|t|] == '.';
    var n := TokenLength(s);
    assert forall j :: 0 <= j < |t| ==> s[j] == t[j] && s[j] != '.';
    assert n == |t|;
    assert s[n..] == "." + rest;
    TokensSkipDot(rest);
  }

  /** Joining tokens with dots and tokenising again gives back the same tokens. */
  lemma {:induction false} TokensOfJoin(ts: seq<string>)
    requires AllTokens(ts)
    ensures Tokens(Join(ts)) == ts
    decreases |ts|
  {
    if |ts| == 0 {
    } else if |ts| == 1 {
      assert IsToken(ts[0]);
      NoDot(ts[0]);
    } else {
      var rest := ts[1..];
      assert AllTokens(rest);
      assert Join(ts) == ts[0] + "." + Join(rest);
      TokensOfDottedToken(ts[0], Join(rest));
      TokensOfJoin(rest);
      assert ts == [ts[0]] + rest;
    }
  }

  /** Joining tokenised text drops exactly its empty pieces, so doing it twice
      changes nothing more. */
  lemma JoinOfTokensIsNormal(s: string)
    ensures Tokens(Join(Tokens(s))) == Tokens(s)
  {
    TokensOfJoin(Tokens(s));
  }

  /** Some string of `ts` contains `c`. */
  predicate InSome(c: char, ts: seq<string>)
  {
    exists i :: 0 <= i < |ts| && c in ts[i]
  }

  lemma InSomeCons(c: char, t: string, ts: seq<string>)
    ensures InSome(c, [t] + ts) <==> c in t || InSome(c, ts)
  {
    var us := [t] + ts;
    if InSome(c, us) {
      var i :| 0 <= i < |us| && c in us[i];
      if i > 0 {
        assert us[i] == ts[i - 1];
      }
    }
    if InSome(c, ts) {
      var i :| 0 <= i < |ts| && c in ts[i];
      assert us[i + 1] == ts[i];
    }
    if c in t {
      assert us[0] == t;
    }
  }

  /** A character other than the delimiter occurs in the text exactly when it
      occurs in one of its tokens. */
  lemma {:induction false} CharInTokens(s: string, c: char)
    requires c != '.'
    ensures c in s <==> InSome(c, Tokens(s))
    decreases |s|
  {
    if |s| == 0 {
    } else if s[0] == '.' {
      assert s == [s[0]] + s[1..];
      CharInTokens(s[1..], c);
    } else {
      var n := TokenLength(s);
      assert s == s[..n] + s[n..];
      CharInTokens(s[n..], c);
      InSomeCons(c, s[..n], Tokens(s[n..]));
    }
  }

  /** `countTokens()`: scans the text once, skipping delimiters and counting
      each maximal run of other characters. */
  method CountTokens(s: string) returns (n: nat)
    ensures n == |Tokens(s)|
  {
    n := 0;
    var i := 0;
    while i < |s|
      invariant 0 <= i <= |s|
      invariant n + |Tokens(s[i..])| == |Tokens(s)|
      decreases |s| - i
    {
      var t := s[i..];
      if t[0] == '.' {
        assert t[1..] == s[i + 1..];
        i := i + 1;
      } else {
        var k := TokenLength(t);
        assert t[k..] == s[i + k..];
        n := n + 1;
        i := i + k;
      }
    }
  }
}
