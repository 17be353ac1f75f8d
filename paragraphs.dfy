/**
 * The paragraph normaliser of lib/rblines/redlines.rb: `split_paragraphs`
 * (a split on PARAGRAPH_PATTERN = /((?:\n *)+)/, then `strip` on every piece,
 * then dropping the empty ones) and `concatenate_paragraphs_and_add_chr182`
 * (the paragraphs joined by " ¶ "), and the token sequence the `source=` and
 * `test=` setters derive from a text.
 */
module Paragraphs {
  import opened Text
  import opened Tokenizer

  /** The separator placed between paragraphs: a space, the pilcrow, a space. */
  const ParagraphSeparator: string := [' ', Pilcrow, ' ']

  /**
   * Length of the match of `(?:\n *)+` at a newline: the greedy repetition
   * takes every newline and space that follows.
   */
  function SeparatorLen(s: string): (n: nat)
    ensures n <= |s|
    decreases |s|
  {
    if s != [] && (s[0] == '\n' || s[0] == ' ') then 1 + SeparatorLen(s[1..]) else 0
  }

  predicate IsSeparatorChar(c: char) {
    c == '\n' || c == ' '
  }

  lemma {:induction false} SeparatorLenSpec(s: string)
    ensures forall i :: 0 <= i < SeparatorLen(s) ==> IsSeparatorChar(s[i])
    decreases |s|
  {
    if s != [] && IsSeparatorChar(s[0]) {
      SeparatorLenSpec(s[1..]);
    }
  }

  /**
   * `text.split(PARAGRAPH_PATTERN)` before trailing empty strings are removed.
   * Because the pattern has a capture group, each separator run is returned
   * too, so pieces and separators alternate: piece, separator, piece, ...
   */
  function PatternFields(s: string): (r: seq<string>)
    ensures |r| > 0
    decreases |s|
  {
    if s == [] then [""]
    else if s[0] == '\n' then
      var k := SeparatorLen(s);
      ["", s[..k]] + PatternFields(s[k..])
    else
      var f := PatternFields(s[1..]);
      [[s[0]] + f[0]] + f[1..]
  }

  /** `.map(&:strip)` */
  function StripEach(ss: seq<string>): (r: seq<string>)
    ensures |r| == |ss|
  {
    if ss == [] then [] else [Strip(ss[0])] + StripEach(ss[1..])
  }

  /** `.reject(&:empty?)` */
  function RejectEmpty(ss: seq<string>): seq<string> {
    if ss == [] then []
    else if ss[0] == "" then RejectEmpty(ss[1..])
    else [ss[0]] + RejectEmpty(ss[1..])
  }

  /** Strip every string and keep the non-empty results. */
  function Clean(ss: seq<string>): seq<string> {
    RejectEmpty(StripEach(ss))
  }

  /** `split_paragraphs(text)` */
  function SplitParagraphs(text: string): seq<string> {
    Clean(DropTrailingEmpty(PatternFields(text)))
  }

  /** `concatenate_paragraphs_and_add_chr182(text)` */
  function ConcatenateParagraphs(text: string): string {
    JoinWith(SplitParagraphs(text), ParagraphSeparator)
  }

  /** The token sequence `@seq1` / `@seq2` that the setters derive from a text. */
  function Tokens(text: string): seq<Token> {
    Tokenize(ConcatenateParagraphs(text))
  }

  // ---------------------------------------------------------------------------
  // Clean, one string at a time

  function CleanOne(s: string): seq<string> {
    if Strip(s) == "" then [] else [Strip(s)]
  }

  lemma CleanCons(x: string, ss: seq<string>)
    ensures Clean([x] + ss) == CleanOne(x) + Clean(ss)
  {
    assert ([x] + ss)[1..] == ss;
  }

  lemma {:induction false} CleanAppend(a: seq<string>, b: seq<string>)
    ensures Clean(a + b) == Clean(a) + Clean(b)
    decreases |a|
  {
    if a != [] {
      calc {
        Clean(a + b);
        { assert a + b == [a[0]] + (a[1..] + b); }
        Clean([a[0]] + (a[1..] + b));
        { CleanCons(a[0], a[1..] + b); }
        CleanOne(a[0]) + Clean(a[1..] + b);
        { CleanAppend(a[1..], b); }
        CleanOne(a[0]) + Clean(a[1..]) + Clean(b);
        { CleanCons(a[0], a[1..]); assert a == [a[0]] + a[1..]; }
        Clean(a) + Clean(b);
      }
    } else {
      assert a + b == b;
    }
  }

  /** Every string `Clean` keeps is non-empty and stripped, and it keeps no newline that was not there. */
  lemma CleanSpec(ss: seq<string>)
    ensures forall i :: 0 <= i < |Clean(ss)| ==>
      (Clean(ss)[i] != [] && !IsSpace(Clean(ss)[i][0]) && !IsSpace(Clean(ss)[i][|Clean(ss)[i]| - 1]))
    ensures (forall j :: 0 <= j < |ss| ==> NoNewline(ss[j])) ==>
      forall i :: 0 <= i < |Clean(ss)| ==> NoNewline(Clean(ss)[i])
  {
    CleanTrimmed(ss);
    assert forall i :: 0 <= i < |Clean(ss)| ==> Trimmed(Clean(ss)[i]);
    if forall j :: 0 <= j < |ss| ==> NoNewline(ss[j]) {
      CleanNoNewline(ss);
    }
  }

  /** Non-empty, with no whitespace at either end. */
  predicate Trimmed(s: string) {
    s != [] && !IsSpace(s[0]) && !IsSpace(s[|s| - 1])
  }

  lemma {:induction false} CleanTrimmed(ss: seq<string>)
    ensures forall i :: 0 <= i < |Clean(ss)| ==> Trimmed(Clean(ss)[i])
    decreases |ss|
  {
    if ss != [] {
      CleanTrimmed(ss[1..]);
      assert ss == [ss[0]] + ss[1..];
      CleanCons(ss[0], ss[1..]);
      StripIsTrimmedInfix(ss[0]);
      var c := Clean(ss);
      var one := CleanOne(ss[0]);
      var tail := Clean(ss[1..]);
      assert c == one + tail;
      assert forall i :: 0 <= i < |one| ==> Trimmed(one[i]);
      forall i | 0 <= i < |c| ensures Trimmed(c[i]) {
        if i >= |one| {
          assert c[i] == tail[i - |one|];
        } else {
          assert c[i] == one[i];
        }
      }
    }
  }

  lemma {:induction false} CleanNoNewline(ss: seq<string>)
    requires forall j :: 0 <= j < |ss| ==> NoNewline(ss[j])
    ensures forall i :: 0 <= i < |Clean(ss)| ==> NoNewline(Clean(ss)[i])
    decreases |ss|
  {
    if ss != [] {
      assert forall j :: 0 <= j < |ss[1..]| ==> NoNewline(ss[1..][j]) by {
        forall j | 0 <= j < |ss[1..]| ensures NoNewline(ss[1..][j]) {
          assert ss[1..][j] == ss[j + 1];
        }
      }
      CleanNoNewline(ss[1..]);
      assert ss == [ss[0]] + ss[1..];
      CleanCons(ss[0], ss[1..]);
      StripNoNewline(ss[0]);
      var c := Clean(ss);
      var one := CleanOne(ss[0]);
      forall i | 0 <= i < |c| ensures NoNewline(c[i]) {
        if i >= |one| {
          assert c[i] == Clean(ss[1..])[i - |one|];
        }
      }
    }
  }

  /** Strings that strip to nothing leave nothing behind. */
  lemma {:induction false} CleanBlank(ss: seq<string>)
    requires forall i :: 0 <= i < |ss| ==> Strip(ss[i]) == ""
    ensures Clean(ss) == []
    decreases |ss|
  {
    if ss != [] {
      CleanCons(ss[0], ss[1..]);
      assert ss == [ss[0]] + ss[1..];
      CleanBlank(ss[1..]);
    }
  }

  /** Dropping trailing empty strings first makes no difference to `Clean`. */
  lemma CleanDropTrailingEmpty(ss: seq<string>)
    ensures Clean(DropTrailingEmpty(ss)) == Clean(ss)
  {
    var r := DropTrailingEmpty(ss);
    var tail := ss[|r|..];
    assert ss == r + tail;
    forall i | 0 <= i < |tail| ensures Strip(tail[i]) == "" {
      assert tail[i] == ss[|r| + i];
    }
    CleanBlank(tail);
    CleanAppend(r, tail);
  }

  // ---------------------------------------------------------------------------
  // split_paragraphs is "split into lines, strip them, drop the blank ones"

  /** The lines of a text: the pieces between its newlines. */
  function Lines(s: string): seq<string> {
    Fields(s, "\n")
  }

  /** A run of newlines and spaces in front of a text adds only blank lines (and leading spaces). */
  lemma {:induction false} SkipSeparator(w: string, r: string)
    requires forall i :: 0 <= i < |w| ==> IsSeparatorChar(w[i])
    ensures Clean(Lines(w + r)) == Clean(Lines(r))
    decreases |w|
  {
    if w != [] {
      var s := w + r;
      assert s[1..] == w[1..] + r;
      SkipSeparator(w[1..], r);
      if w[0] == '\n' {
        assert s[..1] == "\n";
        calc {
          Clean(Lines(s));
          { assert Lines(s) == [""] + Lines(s[1..]); }
          Clean([""] + Lines(s[1..]));
          { CleanCons("", Lines(s[1..])); StripAllSpace(""); }
          Clean(Lines(s[1..]));
        }
      } else {
        assert s[..1] != "\n";
        var f := Lines(s[1..]);
        calc {
          Clean(Lines(s));
          { assert Lines(s) == [[' '] + f[0]] + f[1..]; }
          Clean([[' '] + f[0]] + f[1..]);
          { CleanCons([' '] + f[0], f[1..]); }
          CleanOne([' '] + f[0]) + Clean(f[1..]);
          { StripSpacePrefix(' ', f[0]); }
          CleanOne(f[0]) + Clean(f[1..]);
          { CleanCons(f[0], f[1..]); assert f == [f[0]] + f[1..]; }
          Clean(f);
        }
      }
    } else {
      assert w + r == r;
    }
  }

  /** The pieces of the pattern split agree with the lines: the first one outright, the rest after cleaning. */
  lemma {:induction false} PatternFieldsAgreeWithLines(s: string)
    ensures PatternFields(s)[0] == Lines(s)[0]
    ensures Clean(PatternFields(s)[1..]) == Clean(Lines(s)[1..])
    decreases |s|
  {
    if s == [] {
    } else if s[0] == '\n' {
      var k := SeparatorLen(s);
      var rest := PatternFields(s[k..]);
      PatternFieldsAgreeWithLines(s[k..]);
      CleanAfterFirst(s[k..]);
      // The separator itself strips to nothing.
      SeparatorLenSpec(s);
      assert PatternFields(s)[1..] == [s[..k]] + rest;
      assert AllSpace(s[..k]) by {
        forall i | 0 <= i < k ensures IsSpace(s[..k][i]) {
          assert IsSeparatorChar(s[i]);
        }
      }
      StripAllSpace(s[..k]);
      CleanCons(s[..k], rest);
      // The lines see a newline, then the rest of the run, then the same text.
      assert StartsWith(s, "\n");
      assert Lines(s)[1..] == Lines(s[1..]);
      assert s[1..] == s[1..k] + s[k..];
      SkipSeparator(s[1..k], s[k..]);
    } else {
      assert !StartsWith(s, "\n");
      PatternFieldsAgreeWithLines(s[1..]);
      var g := PatternFields(s[1..]);
      var h := Lines(s[1..]);
      assert PatternFields(s)[1..] == g[1..];
      assert Lines(s)[1..] == h[1..];
    }
  }

  lemma CleanAfterFirst(s: string)
    requires PatternFields(s)[0] == Lines(s)[0]
    requires Clean(PatternFields(s)[1..]) == Clean(Lines(s)[1..])
    ensures Clean(PatternFields(s)) == Clean(Lines(s))
  {
    var p := PatternFields(s);
    var l := Lines(s);
    assert p == [p[0]] + p[1..];
    assert l == [l[0]] + l[1..];
    CleanCons(p[0], p[1..]);
    CleanCons(l[0], l[1..]);
  }

  /**
   * `split_paragraphs(text)` is the lines of the text, each stripped, with
   * the blank ones left out, in their original order.
   */
  lemma SplitParagraphsIsCleanLines(text: string)
    ensures SplitParagraphs(text) == Clean(Lines(text))
  {
    CleanDropTrailingEmpty(PatternFields(text));
    PatternFieldsAgreeWithLines(text);
    CleanAfterFirst(text);
  }

  /** No line holds a newline. */
  lemma {:induction false} LinesNoNewline(s: string)
    ensures forall i :: 0 <= i < |Lines(s)| ==> NoNewline(Lines(s)[i])
    decreases |s|
  {
    if |s| >= 1 {
      LinesNoNewline(s[1..]);
      var f := Lines(s[1..]);
      if StartsWith(s, "\n") {
        assert Lines(s) == [""] + f;
        forall i | 0 <= i < |Lines(s)| ensures NoNewline(Lines(s)[i]) {
          if i > 0 { assert Lines(s)[i] == f[i - 1]; }
        }
      } else {
        assert s[0] != '\n' by { assert s[..1] != "\n"; }
        assert Lines(s) == [[s[0]] + f[0]] + f[1..];
        forall i | 0 <= i < |Lines(s)| ensures NoNewline(Lines(s)[i]) {
          if i > 0 { assert Lines(s)[i] == f[i]; }
        }
      }
    }
  }

  /** The paragraphs are non-empty, have no surrounding whitespace and contain no newline. */
  lemma SplitParagraphsShape(text: string)
    ensures forall i :: 0 <= i < |SplitParagraphs(text)| ==>
      var p := SplitParagraphs(text)[i];
      p != [] && !IsSpace(p[0]) && !IsSpace(p[|p| - 1]) && NoNewline(p)
  {
    SplitParagraphsIsCleanLines(text);
    LinesNoNewline(text);
    CleanSpec(Lines(text));
  }

  /** A text without a newline is a single line. */
  lemma LinesOfSingleLine(s: string)
    requires NoNewline(s)
    ensures Lines(s) == [s]
    decreases |s|
  {
    if |s| >= 1 {
      assert s[..1] == [s[0]] && s[0] != '\n';
      LinesOfSingleLine(s[1..]);
      assert [s[0]] + s[1..] == s;
    }
  }

  // ---------------------------------------------------------------------------
  // concatenate_paragraphs_and_add_chr182

  /**
   * The joined paragraphs neither start with whitespace nor contain a
   * newline, so tokenizing them loses nothing.
   */
  lemma ConcatenateParagraphsShape(text: string)
    ensures var c := ConcatenateParagraphs(text);
      (c == [] || !IsSpace(c[0])) && NoNewline(c)
  {
    var ps := SplitParagraphs(text);
    SplitParagraphsShape(text);
    if ps != [] {
      JoinWithStartsWithFirst(ps, ParagraphSeparator);
      assert ConcatenateParagraphs(text)[0] == ps[0][0];
    }
    JoinWithNoNewline(ps, ParagraphSeparator);
  }

  /** A text without a newline becomes its stripped self. */
  lemma ConcatenateSingleLine(text: string)
    requires NoNewline(text)
    ensures ConcatenateParagraphs(text) == Strip(text)
  {
    SplitParagraphsIsCleanLines(text);
    LinesOfSingleLine(text);
    CleanCons(text, []);
  }

  /** The derived token sequence concatenates back to exactly the normalised text. */
  lemma TokensRoundTrip(text: string)
    ensures Concat(Tokens(text)) == ConcatenateParagraphs(text)
    ensures WellTokenized(Tokens(text))
  {
    ConcatenateParagraphsShape(text);
    TokenizeLossless(ConcatenateParagraphs(text));
    TokenizeSound(ConcatenateParagraphs(text));
  }
}
