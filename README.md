# Redlines in Dafny

A verified model of the redline pipeline of the `rblines` gem
(`lib/rblines/redlines.rb`). The pipeline takes a source text and a test
text and returns markdown that marks their differences:

1. **Paragraphs.** Each text is cut into paragraphs at runs of newlines
   (`split_paragraphs`). The paragraphs are stripped, blank ones are dropped,
   and the rest are rejoined with the sentinel `" ¶ "`
   (`concatenate_paragraphs_and_add_chr182`).
2. **Tokens.** The result is scanned into tokens (`tokenize_text`). A token
   is a single parenthesis, or a run of characters that are neither
   whitespace nor parentheses. Either kind carries the whitespace that
   follows it.
3. **Alignment.** `Diff::LCS.sdiff` aligns the two token lists as records
   `=`, `+`, `-` and `!`, each with an old and a new element.
4. **Runs.** The records are cut into maximal runs of one action
   (`chunk_while`).
5. **Rendering.** Each run is rendered by its action and the pieces are
   joined:
   - an equal run gives its old text with every `"¶ "` turned into a blank
     line;
   - a delete run gives its old text in one deletion tag;
   - an insert run gives every piece of its new text between sentinels in an
     insertion tag, with blank lines between the pieces;
   - a replace run gives the deletion followed by the insertions.

   The tags come from the style table `MD_STYLES` (`"none"` or `"red"`).

Modules, one file each:

| file | module | what it holds |
|---|---|---|
| `wrappers.dfy` | `Wrappers` | `Option` (Ruby's `nil`) and `Result` (a raised error) |
| `text.dfy` | `Text` | Ruby string operations the pipeline uses, written out over `seq<char>`: `Array#join`, `String#split` and `String#gsub` with a literal string, `strip` |
| `tokenizer.dfy` | `Tokenizer` | the `TOKENIZER` scanner and the laws of its tokens |
| `paragraphs.dfy` | `Paragraphs` | `split_paragraphs`, `concatenate_paragraphs_and_add_chr182`, and the token lists the setters derive |
| `sdiff.dfy` | `Sdiff` | sdiff records and the contract the pipeline needs from `Diff::LCS.sdiff` |
| `grouping.dfy` | `Grouping` | `chunk_while` on the action, and why its chunks are the maximal runs |
| `markdown.dfy` | `Markdown` | `MD_STYLES` and the option lookup; the rendering of each run and of a whole alignment, as functions, with their laws |
| `redlines.dfy` | `Rblines` | class `Redlines`: its fields, setters, constructor, `opcodes`, `output_markdown`, the four `handle_*_action` helpers and `compare`, as methods proved against the `Markdown` functions |

`Diff::LCS.sdiff` is not part of this model. A `Redlines` object is built
with a function value in the `sdiff` field. That function must align any two
token lists (`Sdiff.IsSdiff`): the old elements of its non-`+` records spell
the first list, the new elements of its non-`-` records spell the second,
and each `=` record has equal old and new elements. `Sdiff.SimpleDiff`
satisfies the contract, which shows that it can be met.

The tokenizer follows the regular expression at `lib/rblines/redlines.rb:17`,
not the comment above it (lines 6-8, 15). The comment says the punctuation
marks `.?!-` form tokens of their own. In the expression they never do,
because `[^()\s]+` consumes them before the second alternative is tried. Only
parentheses are split off: `"dog."` is one token and `"(a)"` is three. The
expected outputs in the gem's tests agree with the expression.

## Model

| member | source | states |
|---|---|---|
| Tokenizer.Tokenize | lib/rblines/redlines.rb:31-33 | `tokenize_text`: `scan(TOKENIZER)` written as a scanner that skips whitespace no match can start with and cuts one match at a time; its laws are the `Tokenizer` lemmas below |
| Tokenizer.TokenStopsBeforeNonSpace | lib/rblines/redlines.rb:17 | a match takes all the whitespace after its head: the character after it, if any, is not whitespace |
| Paragraphs.SplitParagraphs | lib/rblines/redlines.rb:41-45 | `split_paragraphs`: the pattern split with its captured separators, trailing empty fields dropped, each field stripped, empty ones rejected; characterised by `SplitParagraphsIsCleanLines` |
| Paragraphs.ConcatenateParagraphs | lib/rblines/redlines.rb:53-55 | `concatenate_paragraphs_and_add_chr182`: the paragraphs joined with `" ¶ "` |
| Paragraphs.Tokens | lib/rblines/redlines.rb:76-84 | what `source=` and `test=` store in `@seq1`/`@seq2`: the tokens of the sentinel-joined paragraphs; characterised by `TokensRoundTrip` |
| Text.Concat | lib/rblines/redlines.rb:117 | `Array#join` without a separator |
| Text.JoinWith | lib/rblines/redlines.rb:54 | `Array#join(sep)` |
| Text.Split | lib/rblines/redlines.rb:125 | `String#split` with a literal string: the fields between leftmost, non-overlapping occurrences, trailing empty ones dropped (`DropTrailingEmpty`) |
| Text.ReplaceAll | lib/rblines/redlines.rb:121 | `String#gsub` with a literal pattern and replacement; characterised by `ReplaceAllIsSplitJoin` |
| Text.Strip | lib/rblines/redlines.rb:43 | `String#strip` over the whitespace set `\s`; characterised by `StripIsTrimmedInfix` |
| Sdiff.IsSdiff | lib/rblines/redlines.rb:95 | the contract assumed of `Diff::LCS.sdiff`: for any two token lists its records align them |
| Markdown.StyleOf | lib/rblines/redlines.rb:100 | the `MD_STYLES` entry named by the `:markdown_style` option, `"red"` when the option is absent, or nothing for an unknown name |
| Markdown.RenderEqual | lib/rblines/redlines.rb:120-122 | the string `handle_equal_action` pushes for a run's old text |
| Markdown.RenderDelete | lib/rblines/redlines.rb:130-132 | the string `handle_delete_action` pushes for a run's old text |
| Markdown.RenderInsert | lib/rblines/redlines.rb:124-128 | what the strings `handle_add_action` leaves pushed join to: the wrapped pieces with blank lines between them |
| Markdown.RenderGroup | lib/rblines/redlines.rb:104-114 | the text one run contributes, chosen by the action of its first record as the `case` does |
| Markdown.Render | lib/rblines/redlines.rb:103-117 | the runs rendered one after the other and joined |
| Markdown.RenderMarkdown | lib/rblines/redlines.rb:98-118 | the output of `output_markdown` under a known style: the rendering of the `chunk_while` runs of the records |
| Markdown.NeedsStyle | lib/rblines/redlines.rb:104-139 | a run reads the style's tags when it is `-` or `!`, or when it is `+` and `split("¶ ")` leaves it a piece (lines 125-126); a `=` run never does |
| Tokenizer.TokenizeConcat | lib/rblines/redlines.rb:31-33 | joining the tokens of any text gives that text with its leading whitespace removed: `scan` skips only whitespace that no token can absorb |
| Tokenizer.TokenizeLossless | lib/rblines/redlines.rb:31-33 | for a text that does not start with whitespace, the tokens join back to exactly that text |
| Tokenizer.TokenizeWellFormed | lib/rblines/redlines.rb:17 | every token is non-empty and is one parenthesis or a maximal run of non-space, non-parenthesis characters, followed only by whitespace; no two neighbouring tokens could have been one match; the first token starts at the first non-space character |
| Tokenizer.TokenizeSound | lib/rblines/redlines.rb:31-33 | the tokens of a text are well formed and join to the text without its leading whitespace |
| Tokenizer.TokenizeUnique | lib/rblines/redlines.rb:17 | a list of well-formed, separated tokens that joins to `s` is exactly what the scanner returns for `s`: the tokenization is unique |
| Tokenizer.WordLenMaximal | lib/rblines/redlines.rb:17 | `[^()\s]+` is greedy: every character it takes is a word character, and the next one is not |
| Tokenizer.SpaceLenMaximal | lib/rblines/redlines.rb:17 | the trailing `\s*` is greedy: it takes only whitespace and stops before a non-space character |
| Tokenizer.WordLenUnique | lib/rblines/redlines.rb:17 | a prefix length with the greedy word-run property is the scanner's word length |
| Tokenizer.SpaceLenUnique | lib/rblines/redlines.rb:17 | a prefix length with the greedy whitespace property is the scanner's whitespace length |
| Tokenizer.TokenPrefixIsToken | lib/rblines/redlines.rb:17 | each match of the scanner at a non-space character is a well-formed token |
| Tokenizer.TokenPrefixSeparated | lib/rblines/redlines.rb:17 | a match never ends between two word characters |
| Tokenizer.FirstTokenLen | lib/rblines/redlines.rb:17 | on the join of well-formed tokens, the scanner's first match is exactly the first token |
| Paragraphs.SplitParagraphsIsCleanLines | lib/rblines/redlines.rb:41-45 | `split(PARAGRAPH_PATTERN)` with its captured separators, then `strip` and `reject(&:empty?)`, equals cutting at every newline, stripping and dropping blanks: the paragraphs are the non-blank lines, stripped, in their original order |
| Paragraphs.SplitParagraphsShape | lib/rblines/redlines.rb:41-45 | every paragraph is non-empty, has no whitespace at either end and contains no newline |
| Paragraphs.PatternFieldsAgreeWithLines | lib/rblines/redlines.rb:23 | the fields of the pattern split start with the first line, and the rest clean to the same paragraphs as the remaining lines |
| Paragraphs.SkipSeparator | lib/rblines/redlines.rb:23 | a run of newlines and spaces in front of a text adds no paragraph |
| Paragraphs.CleanDropTrailingEmpty | lib/rblines/redlines.rb:42-44 | the empty fields `split` drops at the end would have been rejected anyway |
| Paragraphs.CleanAppend | lib/rblines/redlines.rb:43-44 | strip-and-reject works piece by piece: cleaning a concatenation is the concatenation of the cleaned parts |
| Paragraphs.CleanSpec | lib/rblines/redlines.rb:43-44 | every string kept by strip-and-reject is non-empty and stripped, and it has a newline only if an input had one |
| Paragraphs.CleanBlank | lib/rblines/redlines.rb:43-44 | strings that strip to nothing leave nothing behind |
| Paragraphs.LinesNoNewline | lib/rblines/redlines.rb:41-45 | cutting at every newline leaves pieces without a newline |
| Paragraphs.LinesOfSingleLine | lib/rblines/redlines.rb:41-45 | a text without a newline is a single piece |
| Paragraphs.ConcatenateParagraphsShape | lib/rblines/redlines.rb:53-55 | the sentinel-joined text has no leading whitespace and no newline |
| Paragraphs.ConcatenateSingleLine | lib/rblines/redlines.rb:53-55 | a text without a newline becomes its stripped form |
| Paragraphs.TokensRoundTrip | lib/rblines/redlines.rb:76-84 | the token lists `@seq1`/`@seq2` join back exactly to the sentinel-joined text and are well formed |
| Text.ConcatAppend | lib/rblines/redlines.rb:117 | `join` distributes over concatenation of arrays |
| Text.ConcatPushPair | lib/rblines/redlines.rb:126 | pushing two strings appends both to the join |
| Text.ConcatPopKnown | lib/rblines/redlines.rb:127 | popping the final string removes it from the end of the join |
| Text.JoinWithCons | lib/rblines/redlines.rb:54 | joining with a separator is the first string, the separator, then the join of the rest |
| Text.JoinWithSnoc | lib/rblines/redlines.rb:54 | joining one more string adds the separator and the string, unless the list was empty |
| Text.JoinWithStartsWithFirst | lib/rblines/redlines.rb:54 | a joined list starts with its first string |
| Text.JoinWithNoNewline | lib/rblines/redlines.rb:54 | strings and separator without newline join to a string without newline |
| Text.DropTrailingEmpty | lib/rblines/redlines.rb:125 | `split` drops only trailing empty fields: the result is a prefix of the fields, its last field is non-empty, and every dropped field is empty |
| Text.ReplaceAllIsSplitJoin | lib/rblines/redlines.rb:121 | `gsub` with a literal string equals cutting at every leftmost, non-overlapping occurrence and joining the fields with the replacement |
| Text.ReplaceAllRemovesPair | lib/rblines/redlines.rb:121 | after replacing `"¶ "` by `"\n\n"` no `"¶ "` is left |
| Text.StripIsTrimmedInfix | lib/rblines/redlines.rb:43 | `strip` removes whitespace from both ends and nothing else: the result sits between two all-whitespace parts and, if non-empty, starts and ends with non-space |
| Text.StripLeadingSpec | lib/rblines/redlines.rb:43 | stripping the front leaves a suffix that does not start with whitespace, after an all-whitespace prefix |
| Text.StripTrailingSpec | lib/rblines/redlines.rb:43 | stripping the back leaves a prefix that does not end with whitespace, before an all-whitespace suffix |
| Text.StripNoNewline | lib/rblines/redlines.rb:43 | stripping adds no newline |
| Text.StripAllSpace | lib/rblines/redlines.rb:43 | an all-whitespace string strips to the empty string |
| Sdiff.SimpleDiffIsSdiff | lib/rblines/redlines.rb:95 | the contract required of `Diff::LCS.sdiff` is satisfiable: a prefix/suffix aligner meets it for all inputs |
| Sdiff.SimpleDiffAligns | lib/rblines/redlines.rb:95 | the prefix/suffix aligner's records spell the old list through their old elements and the new list through their new elements |
| Sdiff.PairUpAligns | lib/rblines/redlines.rb:95 | pairing two lists position by position as `!`, then `-` or `+`, aligns them |
| Sdiff.AlignsAppend | lib/rblines/redlines.rb:95 | alignments of two parts concatenate to an alignment of the concatenations |
| Grouping.ChunkWhile | lib/rblines/redlines.rb:101 | every chunk is non-empty and the first chunk starts with the first record |
| Grouping.ChunkWhilePartitions | lib/rblines/redlines.rb:101 | the chunks are a partition into maximal runs: each is non-empty with one action, neighbours differ in action, and flattened in order they give back the records |
| Grouping.RunPartitionUnique | lib/rblines/redlines.rb:101 | any partition into maximal runs of one action is the one `chunk_while` returns |
| Grouping.PartitionJoinFirst | lib/rblines/redlines.rb:101 | a record with the action of the first run joins that run and keeps the partition maximal |
| Grouping.PartitionStartNew | lib/rblines/redlines.rb:101 | a record with another action starts a run of its own and keeps the partition maximal |
| Markdown.MdStyles | lib/rblines/redlines.rb:65-71 | only `"none"` and `"red"` name a style; `"none"` gives the `ins`/`del` tags and `"red"` the two span tag pairs |
| Markdown.DefaultStyleIsRed | lib/rblines/redlines.rb:100 | without a `:markdown_style` option the red style is used |
| Markdown.MergeIdempotent | lib/rblines/redlines.rb:145 | merging the same options a second time changes nothing |
| Markdown.MarkdownOutcome | lib/rblines/redlines.rb:98-139 | what `output_markdown` gives under the looked-up style: nothing (the crash on a `nil` style) when the style is unknown and some run reads it, else the rendering of the runs; its laws are the lemmas from `StyleFreeRunsIgnoreStyle` to `SentinelInsertsNeedNoStyle` |
| Markdown.EqualRunReplacesEverySentinel | lib/rblines/redlines.rb:120-122 | an equal run is its old text cut at every `"¶ "` and rejoined with `"\n\n"`, and no `"¶ "` is left in it |
| Markdown.RunsWithoutSentinel | lib/rblines/redlines.rb:120-128 | text without `"¶ "` is left unchanged by an equal run, and an insert run wraps it once, or gives nothing if it is empty |
| Markdown.FieldsWithoutSentinel | lib/rblines/redlines.rb:125 | a text without `"¶ "` splits into itself alone |
| Markdown.InsertRunShape | lib/rblines/redlines.rb:124-128 | an insert run is empty exactly when `split` gives no pieces; otherwise it ends with the closing insertion tag, never with a dangling blank line |
| Markdown.InsertPrefixStep | lib/rblines/redlines.rb:126 | each loop step of the insert helper appends one wrapped piece and a blank line |
| Markdown.InsertPrefixComplete | lib/rblines/redlines.rb:126-127 | after the last piece, the pushed text is the insert rendering plus one blank line, or nothing when there were no pieces |
| Markdown.OldTextIsOlds | lib/rblines/redlines.rb:121 | a run without `+` records joins its old elements exactly as the aligned old tokens |
| Markdown.AllEqualSameTokens | lib/rblines/redlines.rb:95 | when every record is `=`, the old and new token lists are the same |
| Markdown.AllEqualHasNoMarkup | lib/rblines/redlines.rb:98-122 | when the alignment keeps every token, the two token lists are equal and the output is the old text with every `"¶ "` turned into a blank line: no markup at all |
| Markdown.RunHeadsShowChanges | lib/rblines/redlines.rb:101-115 | some record is not `=` exactly when some run starts with a record that is not `=` |
| Markdown.StyleFreeRunsIgnoreStyle | lib/rblines/redlines.rb:103-128 | runs that do not read the tags (`=` runs and `+` runs with no piece) render the same under every style |
| Markdown.UnstyledChangeFails | lib/rblines/redlines.rb:100-139 | reaching a run that reads the tags without a style makes the whole rendering fail |
| Markdown.RenderedOutcome | lib/rblines/redlines.rb:98-118 | when the style is known or no run reads it, the outcome is the rendering of all runs in order |
| Markdown.UnstyledOutcomeIgnoresStyle | lib/rblines/redlines.rb:98-128 | when an unknown style does not make the rendering fail, its output is what every defined style gives: the style was never read |
| Markdown.DeletionFailsUnstyled | lib/rblines/redlines.rb:110-135 | a `-` or `!` record anywhere makes an unknown style fail, since its run reads the deletion tags |
| Markdown.UnstyledFailureNeedsChange | lib/rblines/redlines.rb:104-107 | an unknown style fails only if some record is not `=` |
| Markdown.SentinelsSplitEmpty | lib/rblines/redlines.rb:125 | a new text made only of `"¶ "` tokens gives `split("¶ ")` no piece |
| Markdown.SentinelFieldsEmpty | lib/rblines/redlines.rb:125 | every field of a new text made only of `"¶ "` tokens is empty |
| Markdown.SentinelInsertsNeedNoStyle | lib/rblines/redlines.rb:124-128 | an unknown style does not fail when every change inserts a bare `"¶ "` token: such `+` runs push nothing and never read the tags |
| Markdown.RenderStep | lib/rblines/redlines.rb:103-115 | rendering one more run appends that run's rendering |
| Markdown.OldTextAppend | lib/rblines/redlines.rb:121 | the old text of two record lists one after the other is the old text of the first followed by that of the second |
| Markdown.NewTextAppend | lib/rblines/redlines.rb:125 | the new text of two record lists one after the other is the new text of the first followed by that of the second |
| Markdown.AlignedTexts | lib/rblines/redlines.rb:95 | an alignment's old elements join to the old tokens' join and its new elements to the new tokens' join |
| Markdown.FlattenTexts | lib/rblines/redlines.rb:101 | splitting the records into runs loses no text: the runs' old texts join to the old text of all records, and the same for the new texts |
| Markdown.RunsSpellBothTexts | lib/rblines/redlines.rb:101-115 | the runs `output_markdown` walks see every token once and in order: their old texts join to the old tokens and their new texts to the new tokens |
| Rblines.RunsSpellParagraphTexts | lib/rblines/redlines.rb:76-118 | for any sdiff alignment of the two token lists, the runs' old texts spell the source's paragraphs joined by `" ¶ "` and their new texts the test's |
| Rblines.Redlines.constructor | lib/rblines/redlines.rb:86-90 | the new object holds the given source, test and options, and its token lists are those of its texts |
| Rblines.Redlines.SetSource | lib/rblines/redlines.rb:76-79 | sets the source and re-derives `@seq1` from it; test, `@seq2` and options are unchanged |
| Rblines.Redlines.SetTest | lib/rblines/redlines.rb:81-84 | sets the test and re-derives `@seq2` from it; source, `@seq1` and options are unchanged |
| Rblines.Redlines.Opcodes | lib/rblines/redlines.rb:92-96 | fails exactly when there is no test text; otherwise returns the sdiff of the two token lists, which aligns the tokens of source and test |
| Rblines.Redlines.OutputMarkdown | lib/rblines/redlines.rb:98-139 | fails exactly when there is no test text, or when the style is unknown and some run reads its tags (a `-` or `!` run, or a `+` run with a piece to wrap); otherwise returns the rendering of every run of the alignment, in order |
| Rblines.Redlines.HandleEqualAction | lib/rblines/redlines.rb:120-122 | pushes exactly one string: the run's old text with every `"¶ "` turned into a blank line, with no `"¶ "` left |
| Rblines.Redlines.HandleAddAction | lib/rblines/redlines.rb:124-128 | only appends to the result, and the appended strings join to the insert rendering of the run's new text (each piece wrapped, blank lines between, none at the end) |
| Rblines.Redlines.HandleDeleteAction | lib/rblines/redlines.rb:130-132 | pushes exactly one string: the run's old text, sentinels included, in one deletion tag |
| Rblines.Redlines.HandleReplaceAction | lib/rblines/redlines.rb:134-139 | only appends, starting with the deletion of the old text, and the appended strings join to the deletion followed by the insertions of the new text |
| Rblines.Redlines.Compare | lib/rblines/redlines.rb:141-150 | takes the new test if given; fails exactly when no test is left, with options untouched; otherwise merges the options (the given ones win) and returns the markdown of the two texts, or nothing for another output; never changes the source or `@seq1` |
| Rblines.CompareIsRepeatable | lib/rblines/redlines.rb:141-150 | two identical calls of `compare` return the same result, and neither fails for a missing test |

## Left out

- `Diff::LCS.sdiff` is a foreign library. It is a function value with the alignment contract above. Minimality of the alignment and its tie-breaking are not modelled. For that reason, the exact outputs of the gem's tests, which depend on sdiff's choices, are not restated as lemmas.
- Ruby's regular-expression engine is not modelled in general. The two patterns are written out as scanners over characters. Whitespace is the set `\s`: space, tab, newline, vertical tab, form feed and carriage return.
- Ruby's `strip` also removes trailing NUL characters. That case is not modelled.
- `¶` is one character. Byte encodings are not modelled.
- `SPACE_PATTERN` (lib/rblines/redlines.rb:25) is never used by the code.
- The two raised errors are modelled as the values `MissingTest` and `NoSuchStyle`. The first stands for the `RuntimeError` of `opcodes`/`compare`. The second stands for the `NoMethodError` that an unknown `markdown_style` causes once a run reads its tags. Their message text is not modelled.
- An unknown style is modelled as that error rather than as a precondition. This follows the code: such a style fails only when a run reads the tags. `=` runs never do. A `+` run does only when `split("¶ ")` leaves it a piece to wrap (lines 125-126), so a run that inserts only `"¶ "` tokens renders without the style (`Markdown.SentinelInsertsNeedNoStyle`).
- The options hash is a map from strings to strings. The key `"markdown_style"` stands for the symbol `:markdown_style`. Other keys are carried and merged but never read.
- The `options=` writer and the `source`/`test` readers of `attr_accessor`/`attr_reader` are plain field access.
- `Rblines.Redlines.HandleEqualAction`, `HandleAddAction`, `HandleDeleteAction`, `HandleReplaceAction`: Ruby mutates the `result` array in place. The model threads a sequence through instead, so aliasing of that array is not modelled.
- `Rblines.Redlines.HandleReplaceAction` calls the delete helper and then the add helper. The Ruby method repeats their statements inline. The strings pushed are the same.
- `Rblines.Redlines.OutputMarkdown` checks before rendering a run whether the run reads the tags (`Markdown.NeedsStyle`). If it does and the style is unknown, the method fails. Ruby raises inside the helper, at the first read of `md_styles`, after `temp_str` is computed. The rendering of earlier runs is discarded in both, so the outcome is the same.
- Ruby's `if test` also skips `false`. The model's optional test is a string or nothing, so `false` is not modelled. A `nil` source, which Ruby would reject when splitting, is not modelled either.
- `lib/rblines.rb` (requires and an empty `Error` class) and `rblines/version` are not part of this model.
