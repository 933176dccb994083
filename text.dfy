/**
 * Strings as the solver and its front end cut and glue them: tokens as the C
 * library's strtok returns them, and parts joined by a separator.
 * Characters are taken as ASCII; the C strings never contain a NUL character.
 */
module Text {

  /** isalpha in the "C" locale. */
  predicate IsAlpha(c: char)
  {
    'A' <= c <= 'Z' || 'a' <= c <= 'z'
  }

  predicate IsDigit(c: char)
  {
    '0' <= c <= '9'
  }

  /** isalnum in the "C" locale. */
  predicate IsAlnum(c: char)
  {
    IsAlpha(c) || IsDigit(c)
  }

  /** A token in the sense of strtok: non-empty and free of delimiters. */
  predicate IsToken(t: string, delims: set<char>)
  {
    t != [] && forall k :: 0 <= k < |t| ==> t[k] !in delims
  }

  /** The longest prefix of `s` that holds no delimiter. */
  function Word(s: string, delims: set<char>): (w: string)
    ensures w <= s
    ensures forall k :: 0 <= k < |w| ==> w[k] !in delims
    ensures |w| < |s| ==> s[|w|] in delims
  {
    if s == [] || s[0] in delims then [] else [s[0]] + Word(s[1..], delims)
  }

  /**
   * The successive tokens strtok(s, delims) returns: runs of delimiters
   * separate tokens and never produce an empty one.
   */
  function Tokens(s: string, delims: set<char>): (ts: seq<string>)
    ensures forall k :: 0 <= k < |ts| ==> IsToken(ts[k], delims)
    decreases |s|
  {
    if s == [] then []
    else if s[0] in delims then Tokens(s[1..], delims)
    else
      var w := Word(s, delims);
      [w] + Tokens(s[|w|..], delims)
  }

  /** The parts with `sep` between neighbours. */
  function Join(parts: seq<string>, sep: string): string
  {
    if |parts| == 0 then ""
    else if |parts| == 1 then parts[0]
    else parts[0] + sep + Join(parts[1..], sep)
  }

  /** Appending one part: what a loop that writes a separator and then the part does. */
  lemma {:induction false} JoinSnoc(parts: seq<string>, p: string, sep: string)
    ensures Join(parts + [p], sep) == if parts == [] then p else Join(parts, sep) + sep + p
  {
    if |parts| > 1 {
      assert (parts + [p])[1..] == parts[1..] + [p];
      JoinSnoc(parts[1..], p, sep);
    }
  }

  /** A delimiter-free word followed by a delimiter (or by nothing) is read whole. */
  lemma {:induction false} WordOfToken(w: string, rest: string, delims: set<char>)
    requires forall k :: 0 <= k < |w| ==> w[k] !in delims
    requires rest == [] || rest[0] in delims
    ensures Word(w + rest, delims) == w
  {
    if w != [] {
      assert (w + rest)[1..] == w[1..] + rest;
      WordOfToken(w[1..], rest, delims);
    }
  }

  /** Leading delimiters are skipped. */
  lemma {:induction false} TokensSkipDelims(d: string, rest: string, delims: set<char>)
    requires forall k :: 0 <= k < |d| ==> d[k] in delims
    ensures Tokens(d + rest, delims) == Tokens(rest, delims)
  {
    if d != [] {
      var s := d + rest;
      assert s[0] == d[0] && s[1..] == d[1..] + rest;
      assert Tokens(s, delims) == Tokens(s[1..], delims);
      TokensSkipDelims(d[1..], rest, delims);
    } else {
      assert d + rest == rest;
    }
  }

  /** A string made only of delimiters holds no token. */
  lemma AllDelimsNoTokens(s: string, delims: set<char>)
    requires forall k :: 0 <= k < |s| ==> s[k] in delims
    ensures Tokens(s, delims) == []
  {
    TokensSkipDelims(s, [], delims);
    assert s + [] == s;
  }

  /** Tokenising inverts joining, when the separator is made of delimiters. */
  lemma {:induction false} TokensOfJoin(parts: seq<string>, sep: string, delims: set<char>)
    requires forall k :: 0 <= k < |parts| ==> IsToken(parts[k], delims)
    requires sep != [] && forall k :: 0 <= k < |sep| ==> sep[k] in delims
    ensures Tokens(Join(parts, sep), delims) == parts
  {
    if |parts| == 1 {
      var p := parts[0];
      WordOfToken(p, [], delims);
      assert p + [] == p;
      assert p[|p|..] == [];
    } else if |parts| > 1 {
      var p, rest := parts[0], Join(parts[1..], sep);
      var s := p + sep + rest;
      assert s == p + (sep + rest);
      WordOfToken(p, sep + rest, delims);
      assert s[|p|..] == sep + rest;
      TokensSkipDelims(sep, rest, delims);
      TokensOfJoin(parts[1..], sep, delims);
      assert parts == [p] + parts[1..];
    }
  }

  /** The word is unchanged by one more delimiter that it does not contain. */
  lemma {:induction false} WordWiden(s: string, delims: set<char>, x: char)
    requires x !in Word(s, delims)
    ensures Word(s, delims + {x}) == Word(s, delims)
  {
    if s != [] && s[0] !in delims {
      assert Word(s, delims) == [s[0]] + Word(s[1..], delims);
      WordWiden(s[1..], delims, x);
    }
  }

  /**
   * One more delimiter changes nothing when no token contains it; this is how a
   * line tokenised on space and tab relates to the same line tokenised on space,
   * tab and newline.
   */
  lemma {:induction false} TokensWiden(s: string, delims: set<char>, x: char)
    requires forall t :: t in Tokens(s, delims) ==> x !in t
    ensures Tokens(s, delims + {x}) == Tokens(s, delims)
    decreases |s|
  {
    if s != [] {
      if s[0] in delims {
        assert Tokens(s, delims) == Tokens(s[1..], delims);
        TokensWiden(s[1..], delims, x);
      } else {
        var w := Word(s, delims);
        assert Tokens(s, delims) == [w] + Tokens(s[|w|..], delims);
        assert w in Tokens(s, delims);
        WordWiden(s, delims, x);
        assert s[0] == w[0];
        TokensWiden(s[|w|..], delims, x);
      }
    }
  }
}
