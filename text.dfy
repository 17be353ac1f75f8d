/**
 * The Ruby string operations the redline pipeline relies on, written out over
 * `seq<char>`: the `\s` character class, `Array#join` with and without a
 * separator, `String#split` by a literal string, `String#gsub` with a literal
 * pattern, and `String#strip`.
 */
module Text {

  /** The pilcrow sign U+00B6 that marks a paragraph boundary. */
  const Pilcrow: char := '\U{B6}'

  /** Ruby's `\s` (and the characters `strip` removes, NUL aside). */
  predicate IsSpace(c: char) {
    c == ' ' || c == '\t' || c == '\n' || c == '\U{0B}' || c == '\U{0C}' || c == '\r'
  }

  predicate AllSpace(s: string) {
    forall i :: 0 <= i < |s| ==> IsSpace(s[i])
  }

  predicate NoNewline(s: string) {
    forall i :: 0 <= i < |s| ==> s[i] != '\n'
  }

  // ---------------------------------------------------------------------------
  // Array#join

  /** `ss.join`: the strings one after the other (`nil` entries are modelled by the caller as ""). */
  function Concat(ss: seq<string>): string {
    if ss == [] then "" else ss[0] + Concat(ss[1..])
  }

  lemma {:induction false} ConcatAppend(a: seq<string>, b: seq<string>)
    ensures Concat(a + b) == Concat(a) + Concat(b)
  {
    if a == [] {
      assert a + b == b;
    } else {
      assert (a + b)[1..] == a[1..] + b;
      ConcatAppend(a[1..], b);
    }
  }

  /** `ss.join(sep)`, built from the right so that appending one more string is one unfolding. */
  function JoinWith(ss: seq<string>, sep: string): string
    decreases |ss|
  {
    if |ss| == 0 then ""
    else if |ss| == 1 then ss[0]
    else JoinWith(ss[..|ss| - 1], sep) + sep + ss[|ss| - 1]
  }

  /** Pushing a string onto a list adds it to the end of its join. */
  lemma ConcatPush(ss: seq<string>, x: string)
    ensures Concat(ss + [x]) == Concat(ss) + x
  {
    ConcatAppend(ss, [x]);
    assert [x][1..] == [];
    assert Concat([x]) == x + "" == x;
  }

  /** Pushing two strings onto a list adds them to the end of its join. */
  lemma ConcatPushPair(ss: seq<string>, x: string, y: string)
    ensures Concat(ss + [x, y]) == Concat(ss) + x + y
  {
    ConcatAppend(ss, [x, y]);
    assert [x, y][1..] == [y];
    assert [y][1..] == [];
    assert Concat([y]) == y + "" == y;
    assert Concat([x, y]) == x + Concat([y]);
  }

  /** Dropping the last string of a list drops it from the end of its join. */
  lemma ConcatPop(ss: seq<string>)
    requires |ss| > 0
    ensures Concat(ss) == Concat(ss[..|ss| - 1]) + ss[|ss| - 1]
  {
    assert ss == ss[..|ss| - 1] + [ss[|ss| - 1]];
    ConcatAppend(ss[..|ss| - 1], [ss[|ss| - 1]]);
  }

  /** Equal strings with the same ending are equal without it. */
  lemma AppendCancel(x: string, y: string, z: string)
    requires x + z == y + z
    ensures x == y
  {
    assert |x| == |y|;
    assert x == (x + z)[..|x|];
    assert y == (y + z)[..|y|];
  }

  /** Popping the last string `z` of a list whose join is `x + z` leaves a list whose join is `x`. */
  lemma ConcatPopKnown(ss: seq<string>, x: string, z: string)
    requires |ss| > 0 && ss[|ss| - 1] == z && Concat(ss) == x + z
    ensures Concat(ss[..|ss| - 1]) == x
  {
    ConcatPop(ss);
    AppendCancel(Concat(ss[..|ss| - 1]), x, z);
  }

  /** Joining one more string adds the separator and the string, unless the list was empty. */
  lemma JoinWithSnoc(xs: seq<string>, x: string, sep: string)
    ensures JoinWith(xs + [x], sep) == if xs == [] then x else JoinWith(xs, sep) + sep + x
  {
    assert (xs + [x])[..|xs|] == xs;
  }

  /** Joining is also "first element, separator, join of the rest". */
  lemma {:induction false} JoinWithCons(a: string, ss: seq<string>, sep: string)
    requires |ss| > 0
    ensures JoinWith([a] + ss, sep) == a + sep + JoinWith(ss, sep)
    decreases |ss|
  {
    var xs := [a] + ss;
    if |ss| == 1 {
      assert xs[..1] == [a];
    } else {
      assert xs[..|xs| - 1] == [a] + ss[..|ss| - 1];
      JoinWithCons(a, ss[..|ss| - 1], sep);
    }
  }

  /** A joined list starts with its first element. */
  lemma {:induction false} JoinWithStartsWithFirst(ss: seq<string>, sep: string)
    requires |ss| > 0
    ensures |JoinWith(ss, sep)| >= |ss[0]|
    ensures JoinWith(ss, sep)[..|ss[0]|] == ss[0]
    decreases |ss|
  {
    if |ss| > 1 {
      JoinWithStartsWithFirst(ss[..|ss| - 1], sep);
    }
  }

  /** Strings without a newline joined by a separator without a newline give a string without a newline. */
  lemma {:induction false} JoinWithNoNewline(ss: seq<string>, sep: string)
    requires NoNewline(sep)
    requires forall i :: 0 <= i < |ss| ==> NoNewline(ss[i])
    ensures NoNewline(JoinWith(ss, sep))
    decreases |ss|
  {
    if |ss| > 1 {
      JoinWithNoNewline(ss[..|ss| - 1], sep);
    }
  }

  // ---------------------------------------------------------------------------
  // String#split and String#gsub with a literal string

  predicate StartsWith(s: string, p: string) {
    |p| <= |s| && s[..|p|] == p
  }

  /**
   * The fields between the leftmost, non-overlapping occurrences of `sep`,
   * empty ones included (`Split` drops the trailing ones).
   */
  function Fields(s: string, sep: string): (r: seq<string>)
    requires |sep| > 0
    ensures |r| > 0
    decreases |s|
  {
    if |s| < |sep| then [s]
    else if StartsWith(s, sep) then [""] + Fields(s[|sep|..], sep)
    else
      var f := Fields(s[1..], sep);
      [[s[0]] + f[0]] + f[1..]
  }

  /** A list without its trailing empty strings. */
  function DropTrailingEmpty(ss: seq<string>): (r: seq<string>)
    ensures |r| <= |ss| && r == ss[..|r|]
    ensures r == [] || r[|r| - 1] != ""
    ensures forall i :: |r| <= i < |ss| ==> ss[i] == ""
    decreases |ss|
  {
    if |ss| == 0 then []
    else if ss[|ss| - 1] == "" then DropTrailingEmpty(ss[..|ss| - 1])
    else ss
  }

  /** Ruby's `s.split(sep)` for a literal separator other than " ": trailing empty fields are dropped. */
  function Split(s: string, sep: string): seq<string>
    requires |sep| > 0
  {
    DropTrailingEmpty(Fields(s, sep))
  }

  /** Ruby's `s.gsub(pat, rep)` for a literal pattern: every leftmost, non-overlapping occurrence is replaced. */
  function ReplaceAll(s: string, pat: string, rep: string): string
    requires |pat| > 0
    decreases |s|
  {
    if |s| < |pat| then s
    else if StartsWith(s, pat) then rep + ReplaceAll(s[|pat|..], pat, rep)
    else [s[0]] + ReplaceAll(s[1..], pat, rep)
  }

  /** Replacing every occurrence is splitting at every occurrence and joining with the replacement. */
  lemma {:induction false} ReplaceAllIsSplitJoin(s: string, pat: string, rep: string)
    requires |pat| > 0
    ensures ReplaceAll(s, pat, rep) == JoinWith(Fields(s, pat), rep)
    decreases |s|
  {
    if |s| < |pat| {
      assert Fields(s, pat) == [s];
    } else if StartsWith(s, pat) {
      var f := Fields(s[|pat|..], pat);
      calc {
        JoinWith(Fields(s, pat), rep);
        { assert Fields(s, pat) == [""] + f; }
        JoinWith([""] + f, rep);
        { JoinWithCons("", f, rep); }
        rep + JoinWith(f, rep);
        { ReplaceAllIsSplitJoin(s[|pat|..], pat, rep); }
        ReplaceAll(s, pat, rep);
      }
    } else {
      var f := Fields(s[1..], pat);
      calc {
        JoinWith(Fields(s, pat), rep);
        { assert Fields(s, pat) == [[s[0]] + f[0]] + f[1..]; }
        JoinWith([[s[0]] + f[0]] + f[1..], rep);
        { JoinWithPrepend(s[0], f, rep); }
        [s[0]] + JoinWith(f, rep);
        { ReplaceAllIsSplitJoin(s[1..], pat, rep); }
        ReplaceAll(s, pat, rep);
      }
    }
  }

  /** Putting a character in front of the first field puts it in front of the joined text. */
  lemma {:induction false} JoinWithPrepend(c: char, f: seq<string>, sep: string)
    requires |f| > 0
    ensures JoinWith([[c] + f[0]] + f[1..], sep) == [c] + JoinWith(f, sep)
  {
    if |f| > 1 {
      assert f == [f[0]] + f[1..];
      JoinWithCons([c] + f[0], f[1..], sep);
      JoinWithCons(f[0], f[1..], sep);
    }
  }

  /** A string in which `a` is never immediately followed by `b`. */
  predicate NoPair(s: string, a: char, b: char) {
    forall i :: 0 <= i < |s| - 1 ==> !(s[i] == a && s[i + 1] == b)
  }

  /**
   * After replacing every two-character pattern `ab` by a text that contains
   * no `a` and does not start with `b`, the pattern no longer occurs.
   */
  lemma {:induction false} ReplaceAllRemovesPair(s: string, a: char, b: char, rep: string)
    requires a != b
    requires forall i :: 0 <= i < |rep| ==> rep[i] != a
    requires |rep| > 0 && rep[0] != b
    ensures NoPair(ReplaceAll(s, [a, b], rep), a, b)
    ensures |s| > 0 ==> |ReplaceAll(s, [a, b], rep)| > 0
    ensures |s| > 0 ==> ReplaceAll(s, [a, b], rep)[0] in {s[0], rep[0]}
    decreases |s|
  {
    var pat := [a, b];
    var r := ReplaceAll(s, pat, rep);
    if |s| < 2 {
    } else if StartsWith(s, pat) {
      ReplaceAllRemovesPair(s[2..], a, b, rep);
      var t := ReplaceAll(s[2..], pat, rep);
      assert r == rep + t;
      forall i | 0 <= i < |r| - 1 ensures !(r[i] == a && r[i + 1] == b) {
        if i < |rep| {
          assert r[i] == rep[i];
        } else {
          assert r[i] == t[i - |rep|] && r[i + 1] == t[i - |rep| + 1];
        }
      }
    } else {
      ReplaceAllRemovesPair(s[1..], a, b, rep);
      var t := ReplaceAll(s[1..], pat, rep);
      assert r == [s[0]] + t;
      forall i | 0 <= i < |r| - 1 ensures !(r[i] == a && r[i + 1] == b) {
        if i == 0 {
          if s[0] == a {
            assert s[1] != b by { assert s[..2] != pat; }
            assert t[0] in {s[1], rep[0]};
          }
        } else {
          assert r[i] == t[i - 1] && r[i + 1] == t[i];
        }
      }
    }
  }

  // ---------------------------------------------------------------------------
  // String#strip

  function StripLeading(s: string): string
    decreases |s|
  {
    if s != [] && IsSpace(s[0]) then StripLeading(s[1..]) else s
  }

  /** `lstrip` removes a whitespace prefix, and what is left does not start with whitespace. */
  lemma {:induction false} StripLeadingSpec(s: string)
    ensures var r := StripLeading(s);
      |r| <= |s| && r == s[|s| - |r|..] && AllSpace(s[..|s| - |r|]) && (r == [] || !IsSpace(r[0]))
    decreases |s|
  {
    if s != [] && IsSpace(s[0]) {
      StripLeadingSpec(s[1..]);
      var r := StripLeading(s);
      assert s[..|s| - |r|] == [s[0]] + s[1..][..|s| - 1 - |r|];
    }
  }

  function StripTrailing(s: string): string
    decreases |s|
  {
    if s != [] && IsSpace(s[|s| - 1]) then StripTrailing(s[..|s| - 1]) else s
  }

  /** `rstrip` removes a whitespace suffix, and what is left does not end with whitespace. */
  lemma {:induction false} StripTrailingSpec(s: string)
    ensures var r := StripTrailing(s);
      |r| <= |s| && r == s[..|r|] && AllSpace(s[|r|..]) && (r == [] || !IsSpace(r[|r| - 1]))
    decreases |s|
  {
    if s != [] && IsSpace(s[|s| - 1]) {
      StripTrailingSpec(s[..|s| - 1]);
      var r := StripTrailing(s);
      assert s[|r|..] == s[..|s| - 1][|r|..] + [s[|s| - 1]];
    }
  }

  /** `s.strip`: the text between the leading and the trailing whitespace. */
  function Strip(s: string): string {
    StripTrailing(StripLeading(s))
  }

  /** A stripped string is a piece of the original whose ends are not whitespace. */
  lemma {:induction false} StripIsTrimmedInfix(s: string)
    ensures var r := Strip(s);
      exists i :: 0 <= i <= |s| - |r| && r == s[i..i + |r|] && AllSpace(s[..i]) && AllSpace(s[i + |r|..])
    ensures Strip(s) == [] || (!IsSpace(Strip(s)[0]) && !IsSpace(Strip(s)[|Strip(s)| - 1]))
  {
    var l := StripLeading(s);
    var r := StripTrailing(l);
    StripLeadingSpec(s);
    StripTrailingSpec(l);
    var i := |s| - |l|;
    assert r == l[..|r|] == s[i..i + |r|];
    assert s[i + |r|..] == l[|r|..];
  }

  lemma {:induction false} StripNoNewline(s: string)
    requires NoNewline(s)
    ensures NoNewline(Strip(s))
  {
    StripIsTrimmedInfix(s);
  }

  /** Stripping a string that is all whitespace leaves nothing. */
  lemma {:induction false} StripAllSpace(s: string)
    requires AllSpace(s)
    ensures StripLeading(s) == "" && Strip(s) == ""
    decreases |s|
  {
    if s != [] {
      StripAllSpace(s[1..]);
    }
  }

  /** Leading whitespace does not change what `strip` returns. */
  lemma {:induction false} StripSpacePrefix(c: char, s: string)
    requires IsSpace(c)
    ensures Strip([c] + s) == Strip(s)
  {
    assert ([c] + s)[1..] == s;
  }

  /** A string with no leading whitespace is its own `StripLeading`. */
  lemma {:induction false} StripLeadingNoop(s: string)
    requires s == [] || !IsSpace(s[0])
    ensures StripLeading(s) == s
  {
  }
}
