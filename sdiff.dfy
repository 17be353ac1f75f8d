/**
 * The contract of `Diff::LCS.sdiff(seq1, seq2)`, the alignment the redline
 * pipeline calls at lib/rblines/redlines.rb:95. The library itself is not part
 * of this model; it is represented by a function value that the `Redlines`
 * object receives and that must satisfy `IsSdiff`.
 */
module Sdiff {
  import opened Wrappers
  import opened Tokenizer

  /** The four actions of an sdiff record: "=", "+", "-" and "!". */
  datatype Action = Equal | Add | Delete | Replace

  /** One sdiff record: its action, `old_element` and `new_element` (`nil` is `None`). */
  datatype Change = Change(action: Action, oldElement: Option<Token>, newElement: Option<Token>)

  /** Which elements a record of each action carries. */
  predicate WellFormed(c: Change) {
    match c.action
    case Equal => c.oldElement.Some? && c.newElement == c.oldElement
    case Add => c.oldElement.None? && c.newElement.Some?
    case Delete => c.oldElement.Some? && c.newElement.None?
    case Replace => c.oldElement.Some? && c.newElement.Some?
  }

  /** The old elements of the records that are not "+", in order. */
  function Olds(ops: seq<Change>): seq<Token> {
    if ops == [] then []
    else (if ops[0].action != Add then [ops[0].oldElement.GetOr("")] else []) + Olds(ops[1..])
  }

  /** The new elements of the records that are not "-", in order. */
  function News(ops: seq<Change>): seq<Token> {
    if ops == [] then []
    else (if ops[0].action != Delete then [ops[0].newElement.GetOr("")] else []) + News(ops[1..])
  }

  /**
   * `ops` is an alignment of `a` with `b`: every record is well formed, the
   * old elements spell out `a` and the new elements spell out `b`.
   */
  predicate Aligns(a: seq<Token>, b: seq<Token>, ops: seq<Change>) {
    (forall i :: 0 <= i < |ops| ==> WellFormed(ops[i])) && Olds(ops) == a && News(ops) == b
  }

  type Aligner = (seq<Token>, seq<Token>) -> seq<Change>

  /** What the pipeline relies on from `Diff::LCS.sdiff`: it aligns any two token sequences. */
  ghost predicate IsSdiff(f: Aligner) {
    forall a, b :: Aligns(a, b, f(a, b))
  }

  lemma {:induction false} OldsAppend(x: seq<Change>, y: seq<Change>)
    ensures Olds(x + y) == Olds(x) + Olds(y)
    decreases |x|
  {
    if x == [] {
      assert x + y == y;
    } else {
      assert (x + y)[1..] == x[1..] + y;
      OldsAppend(x[1..], y);
    }
  }

  lemma {:induction false} NewsAppend(x: seq<Change>, y: seq<Change>)
    ensures News(x + y) == News(x) + News(y)
    decreases |x|
  {
    if x == [] {
      assert x + y == y;
    } else {
      assert (x + y)[1..] == x[1..] + y;
      NewsAppend(x[1..], y);
    }
  }

  /** Alignments put side by side align the concatenations. */
  lemma AlignsAppend(a1: seq<Token>, b1: seq<Token>, x: seq<Change>, a2: seq<Token>, b2: seq<Token>, y: seq<Change>)
    requires Aligns(a1, b1, x) && Aligns(a2, b2, y)
    ensures Aligns(a1 + a2, b1 + b2, x + y)
  {
    OldsAppend(x, y);
    NewsAppend(x, y);
    forall i | 0 <= i < |x + y| ensures WellFormed((x + y)[i]) {
      if i >= |x| {
        assert (x + y)[i] == y[i - |x|];
      }
    }
  }

  // ---------------------------------------------------------------------------
  // A simple aligner that meets the contract

  /**
   * Pairs the two middles position by position as "!" records, then deletes
   * or adds what is left of the longer one.
   */
  function PairUp(a: seq<Token>, b: seq<Token>): seq<Change>
    decreases |a| + |b|
  {
    if a != [] && b != [] then [Change(Replace, Some(a[0]), Some(b[0]))] + PairUp(a[1..], b[1..])
    else if a != [] then [Change(Delete, Some(a[0]), None)] + PairUp(a[1..], b)
    else if b != [] then [Change(Add, None, Some(b[0]))] + PairUp(a, b[1..])
    else []
  }

  /**
   * Keeps the common prefix and the common suffix as "=" records and pairs up
   * what lies between. It is one aligner that satisfies `IsSdiff`, not the
   * longest-common-subsequence algorithm of Diff::LCS.
   */
  function SimpleDiff(a: seq<Token>, b: seq<Token>): seq<Change>
    decreases |a| + |b|
  {
    if a != [] && b != [] && a[0] == b[0] then
      [Change(Equal, Some(a[0]), Some(b[0]))] + SimpleDiff(a[1..], b[1..])
    else if a != [] && b != [] && a[|a| - 1] == b[|b| - 1] then
      SimpleDiff(a[..|a| - 1], b[..|b| - 1]) + [Change(Equal, Some(a[|a| - 1]), Some(b[|b| - 1]))]
    else PairUp(a, b)
  }

  lemma {:induction false} PairUpAligns(a: seq<Token>, b: seq<Token>)
    ensures Aligns(a, b, PairUp(a, b))
    decreases |a| + |b|
  {
    if a != [] && b != [] {
      PairUpAligns(a[1..], b[1..]);
      AlignsAppend([a[0]], [b[0]], [Change(Replace, Some(a[0]), Some(b[0]))], a[1..], b[1..], PairUp(a[1..], b[1..]));
      assert [a[0]] + a[1..] == a && [b[0]] + b[1..] == b;
    } else if a != [] {
      PairUpAligns(a[1..], b);
      AlignsAppend([a[0]], [], [Change(Delete, Some(a[0]), None)], a[1..], b, PairUp(a[1..], b));
      assert [a[0]] + a[1..] == a && [] + b == b;
    } else if b != [] {
      PairUpAligns(a, b[1..]);
      AlignsAppend([], [b[0]], [Change(Add, None, Some(b[0]))], a, b[1..], PairUp(a, b[1..]));
      assert [] + a == a && [b[0]] + b[1..] == b;
    }
  }

  lemma {:induction false} SimpleDiffAligns(a: seq<Token>, b: seq<Token>)
    ensures Aligns(a, b, SimpleDiff(a, b))
    decreases |a| + |b|
  {
    if a != [] && b != [] && a[0] == b[0] {
      SimpleDiffAligns(a[1..], b[1..]);
      AlignsAppend([a[0]], [b[0]], [Change(Equal, Some(a[0]), Some(b[0]))], a[1..], b[1..], SimpleDiff(a[1..], b[1..]));
      assert [a[0]] + a[1..] == a && [b[0]] + b[1..] == b;
    } else if a != [] && b != [] && a[|a| - 1] == b[|b| - 1] {
      var a', b' := a[..|a| - 1], b[..|b| - 1];
      var x, y := a[|a| - 1], b[|b| - 1];
      SimpleDiffAligns(a', b');
      AlignsAppend(a', b', SimpleDiff(a', b'), [x], [y], [Change(Equal, Some(x), Some(y))]);
      assert a' + [x] == a && b' + [y] == b;
    } else {
      PairUpAligns(a, b);
    }
  }

  /** The contract of sdiff can be met. */
  lemma SimpleDiffIsSdiff()
    ensures IsSdiff(SimpleDiff)
  {
    forall a, b ensures Aligns(a, b, SimpleDiff(a, b)) {
      SimpleDiffAligns(a, b);
    }
  }
}
