/**
 * `tokenize_text` (lib/rblines/redlines.rb): `text.scan(TOKENIZER).flatten`
 * with TOKENIZER = /((?:[^()\s]+|[().?!-])\s*)/, written as a scanner.
 *
 * The scan tries the pattern at each position from left to right. A match
 * cannot start on whitespace, so whitespace that no token precedes (leading
 * whitespace) is skipped. At any other character the first alternative
 * takes the longest run of characters that are neither whitespace nor a
 * parenthesis; since `.`, `?`, `!` and `-` belong to that class, the second
 * alternative only ever matches a single `(` or `)`. Either way the token then
 * takes the whole whitespace run that follows.
 */
module Tokenizer {
  import opened Text

  type Token = string

  predicate IsParen(c: char) {
    c == '(' || c == ')'
  }

  /** A character of `[^()\s]`. */
  predicate IsWordChar(c: char) {
    !IsSpace(c) && !IsParen(c)
  }

  /** Length of the longest prefix of word characters (`[^()\s]*`, greedy). */
  function WordLen(s: string): (n: nat)
    ensures n <= |s|
    decreases |s|
  {
    if s != [] && IsWordChar(s[0]) then 1 + WordLen(s[1..]) else 0
  }

  lemma {:induction false} WordLenMaximal(s: string)
    ensures forall i :: 0 <= i < WordLen(s) ==> IsWordChar(s[i])
    ensures WordLen(s) < |s| ==> !IsWordChar(s[WordLen(s)])
    decreases |s|
  {
    if s != [] && IsWordChar(s[0]) {
      WordLenMaximal(s[1..]);
    }
  }

  /** Length of the longest prefix of whitespace (`\s*`, greedy). */
  function SpaceLen(s: string): (n: nat)
    ensures n <= |s|
    decreases |s|
  {
    if s != [] && IsSpace(s[0]) then 1 + SpaceLen(s[1..]) else 0
  }

  lemma {:induction false} SpaceLenMaximal(s: string)
    ensures AllSpace(s[..SpaceLen(s)])
    ensures SpaceLen(s) < |s| ==> !IsSpace(s[SpaceLen(s)])
    decreases |s|
  {
    if s != [] && IsSpace(s[0]) {
      SpaceLenMaximal(s[1..]);
      assert s[..SpaceLen(s)] == [s[0]] + s[1..][..SpaceLen(s[1..])];
    }
  }

  /** Length of the part of a match before its trailing whitespace. */
  function HeadLen(s: string): (n: nat)
    requires s != [] && !IsSpace(s[0])
    ensures 1 <= n <= |s|
  {
    if IsParen(s[0]) then 1 else WordLen(s)
  }

  /** Length of the match of TOKENIZER that starts at the beginning of `s`. */
  function TokenLen(s: string): (n: nat)
    requires s != [] && !IsSpace(s[0])
    ensures 1 <= n <= |s|
  {
    var h := HeadLen(s);
    h + SpaceLen(s[h..])
  }

  /** `tokenize_text(s)`. */
  function Tokenize(s: string): seq<Token>
    decreases |s|
  {
    if s == [] then []
    else if IsSpace(s[0]) then Tokenize(s[1..])
    else
      var n := TokenLen(s);
      [s[..n]] + Tokenize(s[n..])
  }

  /**
   * What a single match of TOKENIZER looks like: it does not start with
   * whitespace, and after its head (one parenthesis, or a maximal run of
   * word characters) there is only whitespace.
   */
  predicate IsToken(t: string) {
    t != [] && !IsSpace(t[0]) && AllSpace(t[HeadLen(t)..])
  }

  /**
   * Two neighbouring tokens could not have been one: a token that ends in a
   * word character is followed by one that does not start with one.
   */
  predicate Separated(t: Token, u: Token) {
    t != [] && u != [] ==> !(IsWordChar(t[|t| - 1]) && IsWordChar(u[0]))
  }

  predicate WellTokenized(ts: seq<Token>) {
    (forall i :: 0 <= i < |ts| ==> IsToken(ts[i])) &&
    (forall i :: 0 <= i < |ts| - 1 ==> Separated(ts[i], ts[i + 1]))
  }

  /** A length that satisfies the "maximal prefix of word characters" description is `WordLen`. */
  lemma {:induction false} WordLenUnique(s: string, k: nat)
    requires k <= |s|
    requires forall i :: 0 <= i < k ==> IsWordChar(s[i])
    requires k < |s| ==> !IsWordChar(s[k])
    ensures WordLen(s) == k
    decreases k
  {
    if k > 0 {
      assert IsWordChar(s[0]);
      WordLenUnique(s[1..], k - 1);
    }
  }

  lemma {:induction false} SpaceLenUnique(s: string, k: nat)
    requires k <= |s|
    requires AllSpace(s[..k])
    requires k < |s| ==> !IsSpace(s[k])
    ensures SpaceLen(s) == k
    decreases k
  {
    if k > 0 {
      assert IsSpace(s[..k][0]);
      assert s[1..][..k - 1] == s[..k][1..];
      SpaceLenUnique(s[1..], k - 1);
    }
  }

  /** What one match of TOKENIZER at the start of `s` covers: the head, then whitespace, then no more whitespace. */
  lemma {:induction false} TokenLenFacts(s: string)
    requires s != [] && !IsSpace(s[0])
    ensures HeadLen(s) <= TokenLen(s)
    ensures !IsParen(s[0]) ==> forall i :: 0 <= i < HeadLen(s) ==> IsWordChar(s[i])
    ensures !IsParen(s[0]) && HeadLen(s) < |s| ==> !IsWordChar(s[HeadLen(s)])
    ensures forall i :: HeadLen(s) <= i < TokenLen(s) ==> IsSpace(s[i])
  {
    var h := HeadLen(s);
    var w := s[h..];
    if !IsParen(s[0]) {
      WordLenMaximal(s);
    }
    SpaceLenMaximal(w);
    forall i | h <= i < TokenLen(s) ensures IsSpace(s[i]) {
      assert s[i] == w[..SpaceLen(w)][i - h];
    }
  }

  /** A match of TOKENIZER takes all the whitespace after its head: what follows it is not whitespace. */
  lemma TokenStopsBeforeNonSpace(s: string)
    requires s != [] && !IsSpace(s[0])
    ensures TokenLen(s) < |s| ==> !IsSpace(s[TokenLen(s)])
  {
    var w := s[HeadLen(s)..];
    SpaceLenMaximal(w);
    if TokenLen(s) < |s| {
      assert s[TokenLen(s)] == w[SpaceLen(w)];
    }
  }

  /** The text `s[..TokenLen(s)]` that `Tokenize` cuts off is a token. */
  lemma {:induction false} TokenPrefixIsToken(s: string)
    requires s != [] && !IsSpace(s[0])
    ensures IsToken(s[..TokenLen(s)])
  {
    var n := TokenLen(s);
    var h := HeadLen(s);
    var t := s[..n];
    TokenLenFacts(s);
    if !IsParen(s[0]) {
      assert h < n ==> IsSpace(s[h]);
      WordLenUnique(t, h);
    }
    assert HeadLen(t) == h;
    forall i | 0 <= i < |t[h..]| ensures IsSpace(t[h..][i]) {
      assert t[h..][i] == s[h + i];
    }
  }

  /** The token cut off at the start of `s` ends in a word character only when no word character follows. */
  lemma {:induction false} TokenPrefixSeparated(s: string)
    requires s != [] && !IsSpace(s[0])
    ensures var n := TokenLen(s);
      n < |s| ==> !(IsWordChar(s[n - 1]) && IsWordChar(s[n]))
  {
    TokenLenFacts(s);
  }

  /** Tokenizing loses only leading whitespace. */
  lemma {:induction false} TokenizeConcat(s: string)
    ensures Concat(Tokenize(s)) == StripLeading(s)
    decreases |s|
  {
    if s == [] {
    } else if IsSpace(s[0]) {
      assert Tokenize(s) == Tokenize(s[1..]);
      assert StripLeading(s) == StripLeading(s[1..]);
      TokenizeConcat(s[1..]);
    } else {
      TokenizeConcat(s[TokenLen(s)..]);
      TokenizeConcatStep(s);
    }
  }

  lemma {:induction false} TokenizeConcatStep(s: string)
    requires s != [] && !IsSpace(s[0])
    requires Concat(Tokenize(s[TokenLen(s)..])) == StripLeading(s[TokenLen(s)..])
    ensures Concat(Tokenize(s)) == StripLeading(s)
  {
    var n := TokenLen(s);
    var rest := Tokenize(s[n..]);
    TokenStopsBeforeNonSpace(s);
    StripLeadingNoop(s[n..]);
    assert Tokenize(s) == [s[..n]] + rest;
    assert ([s[..n]] + rest)[1..] == rest;
    assert Concat([s[..n]] + rest) == s[..n] + Concat(rest);
    assert s[..n] + s[n..] == s;
  }

  /** What `Tokenize` produces is a well-formed sequence of tokens, starting where the text does. */
  lemma {:induction false} TokenizeWellFormed(s: string)
    ensures WellTokenized(Tokenize(s))
    ensures Tokenize(s) != [] ==> StripLeading(s) != [] && Tokenize(s)[0][0] == StripLeading(s)[0]
    decreases |s|
  {
    if s == [] {
    } else if IsSpace(s[0]) {
      TokenizeWellFormed(s[1..]);
    } else {
      var n := TokenLen(s);
      var rest := Tokenize(s[n..]);
      var ts := [s[..n]] + rest;
      assert Tokenize(s) == ts;
      TokenizeWellFormed(s[n..]);
      TokenPrefixIsToken(s);
      TokenPrefixSeparated(s);
      TokenLenFacts(s);
      TokenStopsBeforeNonSpace(s);
      StripLeadingNoop(s[n..]);
      forall i | 0 <= i < |ts| ensures IsToken(ts[i]) {
        if i > 0 {
          assert ts[i] == rest[i - 1];
        }
      }
      forall i | 0 <= i < |ts| - 1 ensures Separated(ts[i], ts[i + 1]) {
        if i > 0 {
          assert ts[i] == rest[i - 1] && ts[i + 1] == rest[i];
        } else {
          assert ts[1] == rest[0];
          assert rest[0][0] == s[n];
        }
      }
    }
  }

  lemma {:induction false} TokenizeSound(s: string)
    ensures Concat(Tokenize(s)) == StripLeading(s)
    ensures WellTokenized(Tokenize(s))
  {
    TokenizeConcat(s);
    TokenizeWellFormed(s);
  }

  /** `Concat(Tokenize(s)) == s` for text without leading whitespace. */
  lemma {:induction false} TokenizeLossless(s: string)
    requires s == [] || !IsSpace(s[0])
    ensures Concat(Tokenize(s)) == s
  {
    TokenizeSound(s);
    StripLeadingNoop(s);
  }

  /** The first token of a well-formed sequence is what `TokenLen` cuts off its concatenation. */
  lemma {:induction false} FirstTokenLen(ts: seq<Token>)
    requires |ts| > 0 && WellTokenized(ts)
    ensures var s := Concat(ts);
      s != [] && !IsSpace(s[0]) && TokenLen(s) == |ts[0]| && s[..|ts[0]|] == ts[0]
  {
    var t := ts[0];
    var rest := Concat(ts[1..]);
    var s := Concat(ts);
    assert s == t + rest;
    assert rest != [] ==> |ts| > 1 && rest[0] == ts[1][0];
    var h := HeadLen(t);
    if !IsParen(t[0]) {
      WordLenMaximal(t);
      // The word run cannot extend past the token: either whitespace follows
      // inside it, or the next token starts with a non-word character.
      if h < |t| {
        assert !IsWordChar(s[h]) by { assert s[h] == t[h]; assert t[h..][0] == t[h]; }
      } else if rest != [] {
        assert Separated(ts[0], ts[1]);
        assert s[h] == rest[0];
      }
      forall i | 0 <= i < h ensures IsWordChar(s[i]) {
        assert s[i] == t[i];
      }
      WordLenUnique(s, h);
    }
    assert HeadLen(s) == h;
    var w := s[h..];
    assert w == t[h..] + rest;
    assert AllSpace(w[..|t| - h]) by { assert w[..|t| - h] == t[h..]; }
    if |t| - h < |w| {
      assert w[|t| - h] == rest[0];
      assert !IsSpace(ts[1][0]);
    }
    SpaceLenUnique(w, |t| - h);
  }

  /**
   * The scan is the only way to cut a text without leading whitespace into
   * well-formed tokens: any such sequence whose concatenation is `s` is
   * `Tokenize(s)`.
   */
  lemma {:induction false} TokenizeUnique(ts: seq<Token>, s: string)
    requires WellTokenized(ts)
    requires Concat(ts) == s
    ensures Tokenize(s) == ts
    decreases |ts|
  {
    if ts == [] {
    } else {
      FirstTokenLen(ts);
      var n := |ts[0]|;
      var tail := ts[1..];
      assert s == ts[0] + Concat(tail);
      assert s[n..] == Concat(tail);
      assert WellTokenized(tail) by {
        forall i | 0 <= i < |tail| - 1 ensures Separated(tail[i], tail[i + 1]) {
          assert tail[i] == ts[i + 1] && tail[i + 1] == ts[i + 2];
        }
      }
      TokenizeUnique(tail, s[n..]);
      assert ts == [ts[0]] + tail;
    }
  }
}
