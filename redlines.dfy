/**
 * The `Rblines::Redlines` class of lib/rblines/redlines.rb: it holds a source
 * and a test text with their token lists and an options hash, and renders the
 * token alignment of the two texts as markdown with insertion and deletion tags.
 */
module Rblines {
  import opened Wrappers
  import opened Text
  import opened Tokenizer
  import opened Paragraphs
  import opened Sdiff
  import opened Grouping
  import opened Markdown

  /** The two ways `compare` and `output_markdown` end in an exception. */
  datatype Error =
    | MissingTest    // RuntimeError: no test string was given to the constructor or to `compare`
    | NoSuchStyle    // NoMethodError: `markdown_style` names no entry of MD_STYLES and a run needs its tags

  class Redlines {
    var source: string
    var test: Option<string>
    /** `@seq1`: the tokens of the source text. */
    var seq1: seq<Token>
    /** `@seq2`: the tokens of the test text; `nil` until a test text is set. */
    var seq2: Option<seq<Token>>
    var options: Options
    /** `Diff::LCS.sdiff`, supplied from outside. */
    const sdiff: Aligner

    /** The token lists are always those of the current texts. */
    ghost predicate Valid()
      reads this
    {
      seq1 == Tokens(source) &&
      (test.None? ==> seq2.None?) &&
      (test.Some? ==> seq2 == Some(Tokens(test.value))) &&
      IsSdiff(sdiff)
    }

    /** `initialize(source, test = nil, **options)` */
    constructor (source: string, test: Option<string>, options: Options, sdiff: Aligner)
      requires IsSdiff(sdiff)
      ensures Valid()
      ensures this.source == source && this.test == test && this.options == options
      ensures this.sdiff == sdiff
    {
      this.sdiff := sdiff;
      this.test, this.seq2 := None, None;
      this.source, this.seq1 := "", [];
      this.options := map[];
      new;
      SetSource(source);
      this.options := options;
      if test.Some? {
        SetTest(test.value);
      }
    }

    /** `source=`: a new source text and its tokens; nothing else changes. */
    method SetSource(value: string)
      modifies this
      ensures source == value && seq1 == Tokens(value)
      ensures test == old(test) && seq2 == old(seq2) && options == old(options)
    {
      source := value;
      seq1 := Tokenize(ConcatenateParagraphs(value));
    }

    /** `test=`: a new test text and its tokens; nothing else changes. */
    method SetTest(value: string)
      modifies this
      ensures test == Some(value) && seq2 == Some(Tokens(value))
      ensures source == old(source) && seq1 == old(seq1) && options == old(options)
    {
      test := Some(value);
      seq2 := Some(Tokenize(ConcatenateParagraphs(value)));
    }

    /** `opcodes`: the alignment of the two token lists, or the missing-test error. */
    method Opcodes() returns (r: Result<seq<Change>, Error>)
      requires Valid()
      ensures r.Failure? <==> test.None?
      ensures r.Failure? ==> r.error == MissingTest
      ensures r.Success? ==> r.value == sdiff(seq1, seq2.value)
      ensures r.Success? ==> Aligns(Tokens(source), Tokens(test.value), r.value)
    {
      if seq2.None? {
        return Failure(MissingTest);
      }
      return Success(sdiff(seq1, seq2.value));
    }

    /** `output_markdown`: every run of the alignment rendered in order, then joined. */
    method OutputMarkdown() returns (r: Result<string, Error>)
      requires Valid()
      ensures r == Failure(MissingTest) <==> test.None?
      ensures test.Some? ==>
        var outcome := MarkdownOutcome(sdiff(Tokens(source), Tokens(test.value)), StyleOf(options));
        r == if outcome.Some? then Success(outcome.value) else Failure(NoSuchStyle)
    {
      var result: seq<string> := [];
      var style := StyleOf(options);
      var opcodes := Opcodes();
      if opcodes.Failure? {
        return Failure(opcodes.error);
      }
      var ops := opcodes.value;
      var groupedOpcodes := ChunkWhile(ops);
      ChunkWhilePartitions(ops);
      var fallback := style.GetOr(PlainStyle);
      assert groupedOpcodes[..0] == [];
      for i := 0 to |groupedOpcodes|
        invariant Concat(result) == Render(groupedOpcodes[..i], fallback)
        invariant style.None? ==> forall j :: 0 <= j < i ==> !NeedsStyle(groupedOpcodes[j])
      {
        var group := groupedOpcodes[i];
        if style.None? && NeedsStyle(group) {
          UnstyledChangeFails(ops, i);
          return Failure(NoSuchStyle);
        }
        var before := result;
        match group[0].action {
          case Equal =>
            result := HandleEqualAction(result, group);
            ConcatPush(before, RenderEqual(OldText(group)));
          case Add =>
            result := HandleAddAction(result, group, fallback);
          case Delete =>
            result := HandleDeleteAction(result, group, fallback);
            ConcatPush(before, RenderDelete(OldText(group), fallback));
          case Replace =>
            result := HandleReplaceAction(result, group, fallback);
        }
        assert Concat(result) == Concat(before) + RenderGroup(group, fallback);
        RenderStep(groupedOpcodes, i, fallback);
      }
      assert groupedOpcodes[..|groupedOpcodes|] == groupedOpcodes;
      RenderedOutcome(ops, style);
      return Success(Concat(result));
    }

    /** `handle_equal_action`: pushes the run's old text with every "¶ " turned into a blank line. */
    static method HandleEqualAction(result: seq<string>, group: seq<Change>) returns (pushed: seq<string>)
      ensures pushed == result + [RenderEqual(OldText(group))]
      ensures NoPair(pushed[|pushed| - 1], Pilcrow, ' ')
    {
      EqualRunReplacesEverySentinel(OldText(group));
      pushed := result + [ReplaceAll(OldText(group), Sentinel, BlankLine)];
    }

    /**
     * `handle_add_action`: pushes each piece of the run's new text between
     * sentinels in an insertion wrapper followed by a blank line, then pops the
     * last blank line if anything was pushed.
     */
    static method HandleAddAction(result: seq<string>, group: seq<Change>, mdStyles: Style)
      returns (pushed: seq<string>)
      ensures |pushed| >= |result| && pushed[..|result|] == result
      ensures Concat(pushed) == Concat(result) + RenderInsert(NewText(group), mdStyles)
    {
      var tempStr := Split(NewText(group), Sentinel);
      pushed := result;
      ghost var added: seq<string> := [];
      for i := 0 to |tempStr|
        invariant pushed == result + added
        invariant |added| == 2 * i
        invariant i > 0 ==> added[|added| - 1] == BlankLine
        invariant Concat(added) == InsertPrefix(tempStr, i, mdStyles.ins)
      {
        var wrapped := Wrap(mdStyles.ins, tempStr[i]);
        ConcatPushPair(added, wrapped, BlankLine);
        InsertPrefixStep(tempStr, i, mdStyles.ins);
        pushed := pushed + [wrapped, BlankLine];
        added := added + [wrapped, BlankLine];
      }
      InsertPrefixComplete(NewText(group), mdStyles);
      if |tempStr| > 0 {
        ConcatPopKnown(added, RenderInsert(NewText(group), mdStyles), BlankLine);
        assert pushed[..|pushed| - 1] == result + added[..|added| - 1];
        pushed := pushed[..|pushed| - 1];
        added := added[..|added| - 1];
      }
      ConcatAppend(result, added);
      assert pushed[..|result|] == result;
    }

    /** `handle_delete_action`: pushes the run's old text, sentinels and all, in one deletion wrapper. */
    static method HandleDeleteAction(result: seq<string>, group: seq<Change>, mdStyles: Style)
      returns (pushed: seq<string>)
      ensures pushed == result + [RenderDelete(OldText(group), mdStyles)]
    {
      pushed := result + [Wrap(mdStyles.del, OldText(group))];
    }

    /** `handle_replace_action`: the deletion of the old text, then the insertions of the new text. */
    static method HandleReplaceAction(result: seq<string>, group: seq<Change>, mdStyles: Style)
      returns (pushed: seq<string>)
      ensures |pushed| > |result| && pushed[..|result|] == result
      ensures pushed[|result|] == RenderDelete(OldText(group), mdStyles)
      ensures Concat(pushed) == Concat(result) + (RenderDelete(OldText(group), mdStyles)
        + RenderInsert(NewText(group), mdStyles))
    {
      var deleted := HandleDeleteAction(result, group, mdStyles);
      ConcatPush(result, RenderDelete(OldText(group), mdStyles));
      pushed := HandleAddAction(deleted, group, mdStyles);
      assert pushed[..|result|] == pushed[..|deleted|][..|result|];
    }

    /**
     * `compare(test = nil, output = "markdown", options = {})`: takes a new test
     * text if one is given, fails without one, merges the options (the given
     * ones win) and returns the markdown, or nothing for any other output.
     */
    method Compare(newTest: Option<string>, output: string, opts: Options)
      returns (r: Result<Option<string>, Error>)
      requires Valid()
      modifies this
      ensures Valid()
      ensures source == old(source) && seq1 == old(seq1)
      ensures test == if newTest.Some? then newTest else old(test)
      ensures r == Failure(MissingTest) <==> test.None?
      ensures options == if test.None? then old(options) else old(options) + opts
      ensures test.Some? && output != "markdown" ==> r == Success(None)
      ensures test.Some? && output == "markdown" ==>
        var outcome := MarkdownOutcome(sdiff(Tokens(source), Tokens(test.value)), StyleOf(options));
        r == if outcome.Some? then Success(Some(outcome.value)) else Failure(NoSuchStyle)
    {
      if newTest.Some? {
        SetTest(newTest.value);
      }
      if test.None? {
        return Failure(MissingTest);
      }
      options := options + opts;
      if output != "markdown" {
        return Success(None);
      }
      var md := OutputMarkdown();
      match md
      case Success(text) => r := Success(Some(text));
      case Failure(e) => r := Failure(e);
    }
  }

  /**
   * Comparing twice with the same test text and options gives the same answer:
   * the second merge adds nothing new and the token lists are unchanged.
   */
  method CompareIsRepeatable(redlines: Redlines, test: string, opts: Options)
    returns (first: Result<Option<string>, Error>, second: Result<Option<string>, Error>)
    requires redlines.Valid()
    modifies redlines
    ensures first == second && first != Failure(MissingTest)
  {
    ghost var options := redlines.options;
    first := redlines.Compare(Some(test), "markdown", opts);
    ghost var source := redlines.source;
    second := redlines.Compare(Some(test), "markdown", opts);
    MergeIdempotent(options, opts);
    assert redlines.source == source && redlines.test == Some(test);
  }

  /**
   * Whatever alignment sdiff chooses, the runs `output_markdown` renders carry
   * both texts whole: their old texts, in order, spell the source's
   * sentinel-joined paragraphs and their new texts spell the test's.
   */
  lemma RunsSpellParagraphTexts(source: string, test: string, sdiff: Aligner)
    requires IsSdiff(sdiff)
    ensures var runs := ChunkWhile(sdiff(Tokens(source), Tokens(test)));
      Concat(RunOldTexts(runs)) == ConcatenateParagraphs(source) &&
      Concat(RunNewTexts(runs)) == ConcatenateParagraphs(test)
  {
    TokensRoundTrip(source);
    TokensRoundTrip(test);
    RunsSpellBothTexts(Tokens(source), Tokens(test), sdiff(Tokens(source), Tokens(test)));
  }
}
