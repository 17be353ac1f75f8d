/**
 * What `output_markdown` and the four `handle_*_action` helpers of
 * lib/rblines/redlines.rb produce, as functions of the grouped records and the
 * style: the specification the imperative methods of `Rblines.Redlines` are
 * proved against, and the laws of that rendering.
 */
module Markdown {
  import opened Wrappers
  import opened Text
  import opened Tokenizer
  import opened Sdiff
  import opened Grouping

  /** An opening and a closing tag name, as in `MD_STYLES[style]["ins"]`. */
  datatype TagPair = TagPair(open: string, close: string)

  /** One entry of MD_STYLES: the tags for insertions and for deletions. */
  datatype Style = Style(ins: TagPair, del: TagPair)

  const PlainStyle: Style := Style(TagPair("ins", "ins"), TagPair("del", "del"))

  const RedStyle: Style := Style(
    TagPair("span style=\"color:red;font-weight:700;\"", "span"),
    TagPair("span style=\"color:red;font-weight:700;text-decoration:line-through;\"", "span"))

  /** `MD_STYLES[name]`: only "none" and "red" are defined; any other name gives `nil`. */
  function MdStyles(name: string): (r: Option<Style>)
    ensures r.Some? <==> name == "none" || name == "red"
    ensures name == "none" ==> r == Some(PlainStyle)
    ensures name == "red" ==> r == Some(RedStyle)
  {
    if name == "none" then Some(PlainStyle)
    else if name == "red" then Some(RedStyle)
    else None
  }

  /** The options hash; the key "markdown_style" stands for the symbol `:markdown_style`. */
  type Options = map<string, string>

  const MarkdownStyleKey: string := "markdown_style"

  /** `merge!` with the same options a second time changes nothing. */
  lemma MergeIdempotent(options: Options, given: Options)
    ensures (options + given) + given == options + given
  {
  }

  /** `MD_STYLES[options[:markdown_style] || "red"]` */
  function StyleOf(options: Options): Option<Style> {
    MdStyles(if MarkdownStyleKey in options then options[MarkdownStyleKey] else "red")
  }

  /** Without a `:markdown_style` option the red span style is used. */
  lemma DefaultStyleIsRed(options: Options)
    requires MarkdownStyleKey !in options
    ensures StyleOf(options) == Some(RedStyle)
  {
  }

  /** `"<#{tag[0]}>#{text}</#{tag[1]}>"` */
  function Wrap(tag: TagPair, text: string): string {
    "<" + tag.open + ">" + text + "</" + tag.close + ">"
  }

  /** The paragraph sentinel as the renderer sees it: the pilcrow and the space after it. */
  const Sentinel: string := [Pilcrow, ' ']

  const BlankLine: string := "\n\n"

  /** `group.map(&:old_element).join` (a `nil` element joins as ""). */
  function OldText(g: seq<Change>): string {
    if g == [] then "" else g[0].oldElement.GetOr("") + OldText(g[1..])
  }

  /** `group.map(&:new_element).join` */
  function NewText(g: seq<Change>): string {
    if g == [] then "" else g[0].newElement.GetOr("") + NewText(g[1..])
  }

  function WrapEach(tag: TagPair, ss: seq<string>): (r: seq<string>)
    ensures |r| == |ss|
    ensures forall i :: 0 <= i < |ss| ==> r[i] == Wrap(tag, ss[i])
  {
    seq(|ss|, i requires 0 <= i < |ss| => Wrap(tag, ss[i]))
  }

  /** An equal run: its text with every "¶ " turned into a blank line. */
  function RenderEqual(text: string): string {
    ReplaceAll(text, Sentinel, BlankLine)
  }

  /** A delete run: its text in one deletion wrapper, sentinels and all. */
  function RenderDelete(text: string, style: Style): string {
    Wrap(style.del, text)
  }

  /**
   * An insert run: the pieces of its text between sentinels (trailing empty
   * pieces dropped, as `split` does), each in an insertion wrapper, with a
   * blank line between neighbours.
   */
  function RenderInsert(text: string, style: Style): string {
    JoinWith(WrapEach(style.ins, Split(text, Sentinel)), BlankLine)
  }

  /**
   * What `handle_add_action` has pushed after the first `i` pieces: each piece
   * wrapped and followed by a blank line.
   */
  function InsertPrefix(pieces: seq<string>, i: nat, tag: TagPair): string
    requires i <= |pieces|
  {
    if i == 0 then "" else JoinWith(WrapEach(tag, pieces[..i]), BlankLine) + BlankLine
  }

  lemma InsertPrefixStep(pieces: seq<string>, i: nat, tag: TagPair)
    requires i < |pieces|
    ensures InsertPrefix(pieces, i + 1, tag) == InsertPrefix(pieces, i, tag) + Wrap(tag, pieces[i]) + BlankLine
  {
    var wrapped := Wrap(tag, pieces[i]);
    assert WrapEach(tag, pieces[..i + 1]) == WrapEach(tag, pieces[..i]) + [wrapped];
    JoinWithSnoc(WrapEach(tag, pieces[..i]), wrapped, BlankLine);
  }

  /** After the last piece, popping the final blank line leaves the insert run's rendering. */
  lemma InsertPrefixComplete(text: string, style: Style)
    ensures var pieces := Split(text, Sentinel);
      InsertPrefix(pieces, |pieces|, style.ins) ==
        if pieces == [] then "" else RenderInsert(text, style) + BlankLine
  {
    var pieces := Split(text, Sentinel);
    assert pieces[..|pieces|] == pieces;
  }

  /** The text one run contributes, chosen by the action of its first record. */
  function RenderGroup(g: seq<Change>, style: Style): string
    requires g != []
  {
    match g[0].action
    case Equal => RenderEqual(OldText(g))
    case Add => RenderInsert(NewText(g), style)
    case Delete => RenderDelete(OldText(g), style)
    case Replace => RenderDelete(OldText(g), style) + RenderInsert(NewText(g), style)
  }

  /** The runs rendered one after the other. */
  function Render(gs: seq<seq<Change>>, style: Style): string
    requires forall i :: 0 <= i < |gs| ==> gs[i] != []
  {
    if gs == [] then "" else Render(gs[..|gs| - 1], style) + RenderGroup(gs[|gs| - 1], style)
  }

  lemma RenderStep(gs: seq<seq<Change>>, i: nat, style: Style)
    requires forall j :: 0 <= j < |gs| ==> gs[j] != []
    requires i < |gs|
    ensures Render(gs[..i + 1], style) == Render(gs[..i], style) + RenderGroup(gs[i], style)
  {
    assert gs[..i + 1][..i] == gs[..i];
  }

  /** What `output_markdown` returns for the records `ops` and the chosen style. */
  function RenderMarkdown(ops: seq<Change>, style: Style): string {
    ChunkWhilePartitions(ops);
    Render(ChunkWhile(ops), style)
  }

  /** Some record is not "=". */
  predicate HasChange(ops: seq<Change>) {
    exists i :: 0 <= i < |ops| && ops[i].action != Equal
  }

  /**
   * Rendering the run reads the style's tags: a "-" or "!" run always does, a
   * "+" run only when `split` leaves it a piece to wrap, and a "=" run never.
   */
  predicate NeedsStyle(g: seq<Change>)
    requires g != []
  {
    match g[0].action
    case Equal => false
    case Add => Split(NewText(g), Sentinel) != []
    case Delete => true
    case Replace => true
  }

  /** Some run reads the style's tags. */
  predicate ReadsStyle(gs: seq<seq<Change>>)
    requires forall j :: 0 <= j < |gs| ==> gs[j] != []
  {
    exists j :: 0 <= j < |gs| && NeedsStyle(gs[j])
  }

  /**
   * What `output_markdown` gives for `ops` under the entry looked up in
   * MD_STYLES. `None` stands for the crash on a `nil` style, which only a run
   * that reads the tags reaches; otherwise the style is never read.
   */
  function MarkdownOutcome(ops: seq<Change>, style: Option<Style>): Option<string> {
    if style.None? && ReadsStyle(ChunkWhile(ops)) then None
    else Some(RenderMarkdown(ops, style.GetOr(PlainStyle)))
  }

  // ---------------------------------------------------------------------------
  // Laws of the rendering

  /** An equal run is its text split at the sentinels and rejoined with blank lines, and no "¶ " is left. */
  lemma EqualRunReplacesEverySentinel(text: string)
    ensures RenderEqual(text) == JoinWith(Fields(text, Sentinel), BlankLine)
    ensures NoPair(RenderEqual(text), Pilcrow, ' ')
  {
    ReplaceAllIsSplitJoin(text, Sentinel, BlankLine);
    ReplaceAllRemovesPair(text, Pilcrow, ' ', BlankLine);
  }

  /** A text without "¶ " is a single field. */
  lemma {:induction false} FieldsWithoutSentinel(s: string)
    requires NoPair(s, Pilcrow, ' ')
    ensures Fields(s, Sentinel) == [s]
    decreases |s|
  {
    if |s| >= 2 {
      assert !StartsWith(s, Sentinel) by {
        assert !(s[0] == Pilcrow && s[1] == ' ');
      }
      FieldsWithoutSentinel(s[1..]);
      assert [s[0]] + s[1..] == s;
    }
  }

  /** Text without sentinels is left as it is by an equal run and wrapped once by an insert run. */
  lemma RunsWithoutSentinel(text: string, style: Style)
    requires NoPair(text, Pilcrow, ' ')
    ensures RenderEqual(text) == text
    ensures RenderInsert(text, style) == if text == "" then "" else Wrap(style.ins, text)
  {
    FieldsWithoutSentinel(text);
    ReplaceAllIsSplitJoin(text, Sentinel, BlankLine);
  }

  predicate EndsWith(s: string, t: string) {
    |s| >= |t| && s[|s| - |t|..] == t
  }

  /** A joined list ends with its last element. */
  lemma JoinWithEndsWithLast(ss: seq<string>, sep: string)
    requires |ss| > 0
    ensures EndsWith(JoinWith(ss, sep), ss[|ss| - 1])
  {
  }

  lemma EndsWithTrans(s: string, t: string, u: string)
    requires EndsWith(s, t) && EndsWith(t, u)
    ensures EndsWith(s, u)
  {
    assert s[|s| - |u|..] == s[|s| - |t|..][|t| - |u|..];
  }

  lemma WrapEndsWithClose(tag: TagPair, text: string)
    ensures EndsWith(Wrap(tag, text), "</" + tag.close + ">")
  {
    var w := Wrap(tag, text);
    var close := "</" + tag.close + ">";
    assert w == ("<" + tag.open + ">" + text) + close;
  }

  /** Wrapped pieces joined by blank lines: empty only without pieces, else ending in the closing tag. */
  lemma WrappedJoinShape(pieces: seq<string>, tag: TagPair)
    ensures JoinWith(WrapEach(tag, pieces), BlankLine) == "" <==> pieces == []
    ensures pieces != [] ==> EndsWith(JoinWith(WrapEach(tag, pieces), BlankLine), "</" + tag.close + ">")
  {
    var ws := WrapEach(tag, pieces);
    if pieces != [] {
      JoinWithEndsWithLast(ws, BlankLine);
      WrapEndsWithClose(tag, pieces[|pieces| - 1]);
      EndsWithTrans(JoinWith(ws, BlankLine), ws[|ws| - 1], "</" + tag.close + ">");
    }
  }

  /**
   * An insert run is empty exactly when its text has no piece to wrap; otherwise
   * it ends with the closing tag of the last wrapper and never with a blank line.
   */
  lemma InsertRunShape(text: string, style: Style)
    ensures RenderInsert(text, style) == "" <==> Split(text, Sentinel) == []
    ensures Split(text, Sentinel) != [] ==> EndsWith(RenderInsert(text, style), "</" + style.ins.close + ">")
  {
    WrappedJoinShape(Split(text, Sentinel), style.ins);
  }

  lemma {:induction false} OldTextIsOlds(g: seq<Change>)
    requires forall i :: 0 <= i < |g| ==> g[i].action != Add
    ensures OldText(g) == Concat(Olds(g))
    decreases |g|
  {
    if g != [] {
      OldTextIsOlds(g[1..]);
      assert Olds(g) == [g[0].oldElement.GetOr("")] + Olds(g[1..]);
      assert ([g[0].oldElement.GetOr("")] + Olds(g[1..]))[1..] == Olds(g[1..]);
    }
  }

  /**
   * When the alignment keeps every token (every record is "="), the output is
   * the old text with each "¶ " turned into a blank line: no markup at all.
   */
  lemma AllEqualHasNoMarkup(a: seq<string>, b: seq<string>, ops: seq<Change>, style: Style)
    requires Aligns(a, b, ops)
    requires forall i :: 0 <= i < |ops| ==> ops[i].action == Equal
    ensures a == b
    ensures RenderMarkdown(ops, style) == RenderEqual(Concat(a))
  {
    AllEqualSameTokens(ops);
    if ops == [] {
      assert ChunkWhile(ops) == [];
    } else {
      assert IsRunPartition([ops], ops) by {
        assert Flatten([ops]) == ops + Flatten([]);
      }
      RunPartitionUnique([ops], ops);
      assert ChunkWhile(ops) == [ops];
      assert [ops][..0] == [];
      OldTextIsOlds(ops);
      calc {
        RenderMarkdown(ops, style);
        Render([ops], style);
        Render([], style) + RenderGroup(ops, style);
        RenderGroup(ops, style);
        RenderEqual(OldText(ops));
      }
    }
  }

  lemma {:induction false} AllEqualSameTokens(ops: seq<Change>)
    requires forall i :: 0 <= i < |ops| ==> WellFormed(ops[i]) && ops[i].action == Equal
    ensures Olds(ops) == News(ops)
    decreases |ops|
  {
    if ops != [] {
      AllEqualSameTokens(ops[1..]);
    }
  }

  /** A record list has a change exactly when one of its maximal runs starts with a change. */
  lemma {:induction false} RunHeadsShowChanges(gs: seq<seq<Change>>, ops: seq<Change>)
    requires IsRunPartition(gs, ops)
    ensures HasChange(ops) <==> exists j :: 0 <= j < |gs| && gs[j][0].action != Equal
    decreases |gs|
  {
    if gs != [] {
      var g := gs[0];
      var rest := gs[1..];
      FlattenCons(g, rest);
      assert gs == [g] + rest;
      assert IsRunPartition(rest, Flatten(rest)) by {
        forall i | 0 <= i < |rest| - 1
          ensures rest[i][0].action != rest[i + 1][0].action
        {
          assert rest[i] == gs[i + 1] && rest[i + 1] == gs[i + 2];
        }
      }
      RunHeadsShowChanges(rest, Flatten(rest));
      var tail := Flatten(rest);
      assert ops == g + tail;
      if HasChange(ops) {
        var i :| 0 <= i < |ops| && ops[i].action != Equal;
        if i < |g| {
          assert g[i].action == g[0].action;
        } else {
          assert tail[i - |g|] == ops[i];
          var j :| 0 <= j < |rest| && rest[j][0].action != Equal;
          assert gs[j + 1] == rest[j];
        }
      }
      if exists j :: 0 <= j < |gs| && gs[j][0].action != Equal {
        var j :| 0 <= j < |gs| && gs[j][0].action != Equal;
        if j == 0 {
          assert ops[0] == g[0];
        } else {
          assert rest[j - 1] == gs[j];
          var i :| 0 <= i < |tail| && tail[i].action != Equal;
          assert ops[|g| + i] == tail[i];
        }
      }
    }
  }

  /** Rendering runs that do not read the style's tags does not depend on the style. */
  lemma {:induction false} StyleFreeRunsIgnoreStyle(gs: seq<seq<Change>>, s1: Style, s2: Style)
    requires forall j :: 0 <= j < |gs| ==> gs[j] != [] && !NeedsStyle(gs[j])
    ensures Render(gs, s1) == Render(gs, s2)
    decreases |gs|
  {
    if gs != [] {
      StyleFreeRunsIgnoreStyle(gs[..|gs| - 1], s1, s2);
      var g := gs[|gs| - 1];
      if g[0].action == Add {
        assert WrapEach(s1.ins, Split(NewText(g), Sentinel)) == [];
        assert WrapEach(s2.ins, Split(NewText(g), Sentinel)) == [];
      }
    }
  }

  /** Reaching a run that reads the tags without a style means the whole rendering fails. */
  lemma UnstyledChangeFails(ops: seq<Change>, i: nat)
    requires i < |ChunkWhile(ops)| && NeedsStyle(ChunkWhile(ops)[i])
    ensures MarkdownOutcome(ops, None) == None
  {
  }

  /** Rendering every run gives the outcome, whenever the style is known or no run reads it. */
  lemma RenderedOutcome(ops: seq<Change>, style: Option<Style>)
    requires style.None? ==> forall j :: 0 <= j < |ChunkWhile(ops)| ==> !NeedsStyle(ChunkWhile(ops)[j])
    ensures MarkdownOutcome(ops, style) == Some(RenderMarkdown(ops, style.GetOr(PlainStyle)))
  {
  }

  /** When an unknown style does not fail, the output is what every defined style gives. */
  lemma UnstyledOutcomeIgnoresStyle(ops: seq<Change>, style: Style)
    ensures MarkdownOutcome(ops, None).Some? ==> MarkdownOutcome(ops, None) == Some(RenderMarkdown(ops, style))
  {
    if MarkdownOutcome(ops, None).Some? {
      StyleFreeRunsIgnoreStyle(ChunkWhile(ops), PlainStyle, style);
    }
  }

  /** A "-" or "!" record makes an unknown style fail: its run reads the deletion tags. */
  lemma DeletionFailsUnstyled(ops: seq<Change>, k: nat)
    requires k < |ops| && (ops[k].action == Delete || ops[k].action == Replace)
    ensures MarkdownOutcome(ops, None) == None
  {
    var gs := ChunkWhile(ops);
    ChunkWhilePartitions(ops);
    FlattenFind(gs, k);
    var j, m :| 0 <= j < |gs| && 0 <= m < |gs[j]| && gs[j][m] == Flatten(gs)[k];
    assert Uniform(gs[j]);
    assert NeedsStyle(gs[j]);
  }

  /** An unknown style fails only where some record is not "=". */
  lemma UnstyledFailureNeedsChange(ops: seq<Change>)
    ensures MarkdownOutcome(ops, None) == None ==> HasChange(ops)
  {
    var gs := ChunkWhile(ops);
    if MarkdownOutcome(ops, None) == None {
      var j :| 0 <= j < |gs| && NeedsStyle(gs[j]);
      ChunkWhilePartitions(ops);
      RunHeadsShowChanges(gs, ops);
    }
  }

  /** Text made of sentinels alone gives `split` no piece. */
  lemma SentinelsSplitEmpty(g: seq<Change>)
    requires forall i :: 0 <= i < |g| ==> g[i].newElement == Some(Sentinel)
    ensures Split(NewText(g), Sentinel) == []
  {
    SentinelFieldsEmpty(g);
  }

  lemma {:induction false} SentinelFieldsEmpty(g: seq<Change>)
    requires forall i :: 0 <= i < |g| ==> g[i].newElement == Some(Sentinel)
    ensures forall i :: 0 <= i < |Fields(NewText(g), Sentinel)| ==> Fields(NewText(g), Sentinel)[i] == ""
    decreases |g|
  {
    if g != [] {
      var t := NewText(g[1..]);
      SentinelFieldsEmpty(g[1..]);
      assert NewText(g) == Sentinel + t;
      assert StartsWith(Sentinel + t, Sentinel);
      assert (Sentinel + t)[|Sentinel|..] == t;
      assert Fields(NewText(g), Sentinel) == [""] + Fields(t, Sentinel);
    }
  }

  /**
   * An unknown style does not fail when every change is an insertion of bare
   * sentinels: those runs push nothing, so the tags are never read.
   */
  lemma SentinelInsertsNeedNoStyle(ops: seq<Change>)
    requires forall k :: 0 <= k < |ops| ==>
      ops[k].action == Equal || (ops[k].action == Add && ops[k].newElement == Some(Sentinel))
    ensures MarkdownOutcome(ops, None).Some?
  {
    var gs := ChunkWhile(ops);
    ChunkWhilePartitions(ops);
    forall j | 0 <= j < |gs| ensures !NeedsStyle(gs[j]) {
      assert Uniform(gs[j]);
      FlattenHas(gs, j, 0);
      if gs[j][0].action == Add {
        forall m | 0 <= m < |gs[j]| ensures gs[j][m].newElement == Some(Sentinel) {
          FlattenHas(gs, j, m);
        }
        SentinelsSplitEmpty(gs[j]);
      }
    }
  }

  lemma {:induction false} OldTextAppend(x: seq<Change>, y: seq<Change>)
    ensures OldText(x + y) == OldText(x) + OldText(y)
    decreases |x|
  {
    if x == [] {
      assert x + y == y;
    } else {
      assert (x + y)[1..] == x[1..] + y;
      OldTextAppend(x[1..], y);
    }
  }

  lemma {:induction false} NewTextAppend(x: seq<Change>, y: seq<Change>)
    ensures NewText(x + y) == NewText(x) + NewText(y)
    decreases |x|
  {
    if x == [] {
      assert x + y == y;
    } else {
      assert (x + y)[1..] == x[1..] + y;
      NewTextAppend(x[1..], y);
    }
  }

  /** The old elements of an alignment join to the old tokens, its new elements to the new tokens. */
  lemma {:induction false} AlignedTexts(a: seq<Token>, b: seq<Token>, ops: seq<Change>)
    requires Aligns(a, b, ops)
    ensures OldText(ops) == Concat(a) && NewText(ops) == Concat(b)
    decreases |ops|
  {
    if ops != [] {
      var c := ops[0];
      var rest := ops[1..];
      assert Aligns(Olds(rest), News(rest), rest);
      AlignedTexts(Olds(rest), News(rest), rest);
      var oldHead: seq<Token> := if c.action != Add then [c.oldElement.GetOr("")] else [];
      var newHead: seq<Token> := if c.action != Delete then [c.newElement.GetOr("")] else [];
      assert a == oldHead + Olds(rest);
      assert b == newHead + News(rest);
      ConcatAppend(oldHead, Olds(rest));
      ConcatAppend(newHead, News(rest));
      if c.action != Add {
        assert Concat(oldHead) == c.oldElement.GetOr("") + "";
      }
      if c.action != Delete {
        assert Concat(newHead) == c.newElement.GetOr("") + "";
      }
    }
  }

  /** The old text of each run, in order. */
  function RunOldTexts(gs: seq<seq<Change>>): (r: seq<string>)
    ensures |r| == |gs| && forall i :: 0 <= i < |gs| ==> r[i] == OldText(gs[i])
  {
    seq(|gs|, i requires 0 <= i < |gs| => OldText(gs[i]))
  }

  /** The new text of each run, in order. */
  function RunNewTexts(gs: seq<seq<Change>>): (r: seq<string>)
    ensures |r| == |gs| && forall i :: 0 <= i < |gs| ==> r[i] == NewText(gs[i])
  {
    seq(|gs|, i requires 0 <= i < |gs| => NewText(gs[i]))
  }

  lemma {:induction false} FlattenTexts(gs: seq<seq<Change>>)
    ensures OldText(Flatten(gs)) == Concat(RunOldTexts(gs))
    ensures NewText(Flatten(gs)) == Concat(RunNewTexts(gs))
    decreases |gs|
  {
    if gs != [] {
      FlattenTexts(gs[1..]);
      OldTextAppend(gs[0], Flatten(gs[1..]));
      NewTextAppend(gs[0], Flatten(gs[1..]));
      assert RunOldTexts(gs)[1..] == RunOldTexts(gs[1..]);
      assert RunNewTexts(gs)[1..] == RunNewTexts(gs[1..]);
    }
  }

  /**
   * The runs `output_markdown` renders see every token exactly once and in
   * order: their old texts spell the old tokens and their new texts the new ones.
   */
  lemma RunsSpellBothTexts(a: seq<Token>, b: seq<Token>, ops: seq<Change>)
    requires Aligns(a, b, ops)
    ensures Concat(RunOldTexts(ChunkWhile(ops))) == Concat(a)
    ensures Concat(RunNewTexts(ChunkWhile(ops))) == Concat(b)
  {
    ChunkWhilePartitions(ops);
    FlattenTexts(ChunkWhile(ops));
    AlignedTexts(a, b, ops);
  }
}
