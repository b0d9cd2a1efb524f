# RSVP reader core, modelled in Dafny

This project models the text pipeline and reading engine of an Obsidian
plugin for rapid serial visual presentation (RSVP), and proves properties of
the model. The plugin shows a note one word at a time.

- A markdown cleaner removes the markup. It collects the targets of
  `[[wiki links]]` and keeps each link's display text in place.
- It also extracts the heading outline: level, title and offset.
- The cleaned text is split into paragraphs at blank lines.
- Each paragraph is split into words. Text with Chinese characters goes
  through a small dictionary tokenizer when that option is on. Other text is
  split at whitespace.
- Each paragraph's words carry the wiki links and keywords they mention. The
  keywords are the ten most frequent eligible words of the whole document.
- The engine flattens the paragraphs into one list of word records. A record
  carries the word's focus letter, a punctuation flag and a paragraph-end
  flag. The engine then serves words, keeps a cursor, reports progress,
  computes per-word display times and jumps by paragraphs.
- The view clamps the reading speed and moves the cursor.
- The reading history keeps sessions and per-file totals.

Modules, one per source component:

| module | file | component |
|---|---|---|
| `Wrappers`, `Strings` | strings.dfy | `Option`. The JavaScript string operations the source relies on: `trim`, `split(/\s+/)`, `split('\n')`, `includes`, first-occurrence `replace`. |
| `JsNumber` | jsnumber.dfy | JavaScript division, including its NaN and Infinity results |
| `Sorting` | sorting.dfy | The stable descending sort of `Array.prototype.sort` with a `b - a` comparator, and `slice(0, n)` |
| `ChineseTokenizer` | tokenizer.dfy | src/utils/ChineseTokenizer.ts |
| `MarkdownParser` | markdown.dfy | src/utils/MarkdownParser.ts |
| `TextProcessor` | text_processor.dfy | src/models/TextProcessor.ts |
| `RSVPEngine` | engine.dfy | src/models/RSVPEngine.ts |
| `RSVPView` | view.dfy | The state changes of src/components/RSVPView.ts |
| `ReadingData` | reading_data.dfy | src/models/ReadingData.ts |

The source mutates objects in place. The model is pure instead: every
operation takes a value and returns a new one, and results such as
`processMarkdown`'s side effects on the processor come back as part of the
returned value.

Regular expressions are written out as matchers over `seq<char>`. Each matcher
follows JavaScript's semantics:

- which characters `\s` matches;
- `^` and `$` under the `m` flag;
- greedy and lazy repetition;
- `lastIndex` advancing past each match of a global regex.

`cleanMarkdown` has five passes that have no bearing on links, words or
structure: images, plain links, HTML tags, emphasis and horizontal rules. They
are a parameter `passes: string -> string` of `CleanMarkdown`. The
code-block, inline-code and heading passes are modelled exactly, in the
source's order. The wiki-link pass is not: the loop as written can rewrite the
wrong occurrence of a link (see "## Findings"), so `CleanMarkdown` replaces each
link in place, where it was matched, which is what the loop intends. The
as-written loop is `ReplaceLinks`.

## Model

| member | source | states |
|---|---|---|
| ChineseTokenizer.DictionaryWordsHaveTwoChars | src/utils/ChineseTokenizer.ts:12-16 | Every dictionary word is two characters long, so the four-character window only ever finds two-character words. |
| ChineseTokenizer.MatchDown | src/utils/ChineseTokenizer.ts:34-45 | The inner loop returns the length of the longest dictionary word that starts at the position and fits the window; no longer candidate in the window is a dictionary word. |
| ChineseTokenizer.Classify | src/utils/ChineseTokenizer.ts:31-73 | One loop step is exactly one of four cases. (1) A dictionary match of maximal length. (2) Otherwise a maximal `[a-zA-Z0-9]` run when the character is alphanumeric. (3) Otherwise a merged punctuation character. (4) Otherwise a single character. |
| ChineseTokenizer.TokenizeFrom | src/utils/ChineseTokenizer.ts:28-76 | The loop appends exactly the remaining text to the tokens so far, including whitespace and punctuation that is merged into the previous token, and keeps every token non-empty. |
| ChineseTokenizer.Tokenize | src/utils/ChineseTokenizer.ts:23-77 | The tokens concatenate back to the input exactly. No token is empty. There are never more tokens than characters, and a non-empty text has at least one token. |
| ChineseTokenizer.PerCharacter | src/utils/ChineseTokenizer.ts:47-72 | Text in which no character is alphanumeric, merged punctuation or the first character of a dictionary word becomes one token per character. |
| ChineseTokenizer.Example | src/utils/ChineseTokenizer.ts:12-77 | 我爱阅读速读 becomes 我 / 爱 / 阅读 / 速 / 读. Only 阅读 is in the dictionary. |
| MarkdownParser.WikiAt | src/utils/MarkdownParser.ts:9 | A match of `\[\[([^\]]+)\]\]` at a position has a non-empty capture without `]`, and `[[capture]]` occurs there. |
| MarkdownParser.WikiAtComplete | src/utils/MarkdownParser.ts:9 | Conversely, wherever `[[c]]` occurs with `c` non-empty and free of `]`, the pattern matches there with capture `c`. |
| MarkdownParser.WikiMatchesExact | src/utils/MarkdownParser.ts:9-11 | The `exec` loop finds exactly the pattern's matches. Each match is the pattern's match at its start, the matches are in order and do not overlap, and the pattern matches nowhere before the first match, between one match's `]]` and the next match, or after the last. |
| MarkdownParser.LinkTarget | src/utils/MarkdownParser.ts:12 | `split` at the pipe character, first piece: the longest prefix without a pipe, followed in the content by a pipe or the end. |
| MarkdownParser.DisplayTextParts | src/utils/MarkdownParser.ts:16 | The display text has no pipe. Without a pipe it is the whole content. Otherwise the content is the target, a pipe, the display text, and then nothing or a further pipe with anything after it. |
| MarkdownParser.Targets | src/utils/MarkdownParser.ts:11-13 | One link target per match, in match order. |
| MarkdownParser.ReplaceLinksSplices | src/utils/MarkdownParser.ts:9-18 | Every link is replaced in place. The matches lie in order inside the text; the result keeps the text before, between and after them and puts each link's display text where its `[[…]]` was. |
| MarkdownParser.ReplaceLinksFirstOccurrence | src/utils/MarkdownParser.ts:11-18 | `[[a\|[[]]b]][[b]]` has the matches `a\|[[` at 0 and `b` at 11. Replacing the first occurrence of each span in the partly rewritten text, as the loop does, gives `b[[b]]`; replacing in place gives `[[b]]b`. |
| MarkdownParser.FenceEnd | src/utils/MarkdownParser.ts:21 | A fenced block starts with a fence and ends with the first fence that starts three or more characters later; no fence starts in between (the lazy `*?`). There is no block exactly when there is no fence at the position or none after it. |
| MarkdownParser.UnterminatedFenceKept | src/utils/MarkdownParser.ts:21 | Text in which no fence can close keeps its backticks: the code-block pass leaves it unchanged. |
| MarkdownParser.FencedBlockRemoved | src/utils/MarkdownParser.ts:21 | A fenced block whose body has no backtick is removed entirely. |
| MarkdownParser.FencesKeptBetween | src/utils/MarkdownParser.ts:21 | Where no fence opens (no fence, or none after it to close it), the code-block pass copies the text unchanged. |
| MarkdownParser.FenceRemoved | src/utils/MarkdownParser.ts:21 | A fence together with the first later fence that closes it is removed with everything between them, and the pass goes on after the closing fence. |
| MarkdownParser.InlineCodeLeavesOneBacktick | src/utils/MarkdownParser.ts:24 | After the inline-code pass at most one backtick is left, and one is left only if the input had one. |
| MarkdownParser.NoBacktickKept | src/utils/MarkdownParser.ts:24 | Text without backticks passes the inline-code pass unchanged. |
| MarkdownParser.InlineSpanRemoved | src/utils/MarkdownParser.ts:24 | A backtick span without inner backticks is removed entirely. |
| MarkdownParser.InlineKeptBetween | src/utils/MarkdownParser.ts:24 | Where no span opens (no backtick, or no backtick after it), the inline-code pass copies the text unchanged. |
| MarkdownParser.InlineSpanSkipped | src/utils/MarkdownParser.ts:24 | A backtick and the next backtick after it are removed with everything between them, and the pass goes on after the second. |
| MarkdownParser.HeadingAtExact | src/utils/MarkdownParser.ts:43 | The heading pattern matches at a position exactly when the text there has the heading shape: a line start, the whole run of `#`, the greedy whitespace run (which may cross line breaks) and a title running to the end of its line. The shape fixes the match. |
| MarkdownParser.HeadingAtNone | src/utils/MarkdownParser.ts:43 | The pattern finds nothing at a position exactly when no heading shape starts there. |
| MarkdownParser.NoHashKept | src/utils/MarkdownParser.ts:43 | Text without `#` passes the heading pass unchanged. |
| MarkdownParser.HeadingLineStripped | src/utils/MarkdownParser.ts:43 | A one-line heading is rewritten to its title followed by a line feed. |
| MarkdownParser.HeadingsKeptBetween | src/utils/MarkdownParser.ts:43 | Where no heading line starts, the heading pass copies the text unchanged. |
| MarkdownParser.HeadingReplaced | src/utils/MarkdownParser.ts:43 | A heading line with any number of `#` becomes its title and a line feed, and the pass goes on at the end of the title's line. |
| MarkdownParser.EntryOfMatched | src/utils/MarkdownParser.ts:56-60 | The entry of a heading match with at most six `#` has the `#` count as its level and the trimmed rest of the line as its title, at the match's position. |
| MarkdownParser.StructureExact | src/utils/MarkdownParser.ts:52-61 | The loop yields valid entries at or after its start, in strictly increasing position, each the entry of the heading match at its position. No heading of one to six `#` starts before the first entry, between the end of one entry's line and the next entry, or after the last. |
| MarkdownParser.ParseStructureExact | src/utils/MarkdownParser.ts:48-64 | The outline is exactly the headings of one to six `#` that the global regex finds, in increasing position. Each carries its `#` count as level and its trimmed one-line title; none is missed before, between or after the entries. |
| MarkdownParser.SevenHashesNoEntry | src/utils/MarkdownParser.ts:52 | Seven or more `#` give no outline entry at that position. |
| MarkdownParser.HeadingLineEntry | src/utils/MarkdownParser.ts:52-60 | A one-line heading with at most six `#` gives one entry at position 0, with the level equal to the `#` count and the trimmed title. |
| MarkdownParser.HeadingLineTooDeep | src/utils/MarkdownParser.ts:52 | A one-line heading with more than six `#` gives no entry. |
| MarkdownParser.CleanMarkdown | src/utils/MarkdownParser.ts:4-46 | There is one wiki link per match of the pattern in the original markdown, in source order with repeats, and each is the target of that occurrence. The matches are all of the pattern's matches (`WikiMatchesExact`). |
| MarkdownParser.LinksIndependentOfPasses | src/utils/MarkdownParser.ts:8-18 | The links depend only on the markdown, never on the later cleaning passes (a documenting lemma: it holds by the definition). |
| MarkdownParser.SingleLink | src/utils/MarkdownParser.ts:9-17 | A lone link `[[c]]` is one match, and it is replaced by its display text. |
| MarkdownParser.AliasParts | src/utils/MarkdownParser.ts:12-16 | A link of a pipe-free target, a pipe and a pipe-free display text has exactly that target and that display text. |
| MarkdownParser.SingleAliasedLink | src/utils/MarkdownParser.ts:8-18 | Cleaning a lone aliased link (target, pipe, display text) records just the target and leaves just the display text in the text. |
| MarkdownParser.DisplayTakesSecondPiece | src/utils/MarkdownParser.ts:12-16 | With two pipes, the target is the first piece and the display text is the second; the third piece is dropped. |
| TextProcessor.ContainsChinese | src/models/TextProcessor.ts:100-104 | True exactly when some character lies in U+4E00 to U+9FA5. |
| TextProcessor.TokenizeText | src/models/TextProcessor.ts:88-98 | Tokens are non-empty. In Chinese mode they concatenate to the text. Otherwise they are whitespace-free and concatenate to the text with its whitespace removed. |
| TextProcessor.TokenizeKeepsText | src/models/TextProcessor.ts:88-98 | In both modes the tokens keep every non-whitespace character of the text, in order. |
| TextProcessor.TokenizeNonBlank | src/models/TextProcessor.ts:88-98 | A text that is not all whitespace yields at least one token. |
| TextProcessor.TokenizeJoined | src/models/TextProcessor.ts:95-97 | Splitting words joined by single spaces gives the words back (for text without Chinese). |
| TextProcessor.SeparatorAt | src/models/TextProcessor.ts:45 | A match of `\n\s*\n` starts with a line feed and is all whitespace. It ends just after the last line feed of the whitespace run that follows, as the greedy `\s*` gives back only what the final `\n` needs. There is no match exactly when there is no line feed at the position or none in that run. |
| TextProcessor.BlankLineIsSeparator | src/models/TextProcessor.ts:45 | Every blank line, meaning two line feeds with only whitespace between them, is where a separator matches. |
| TextProcessor.SplitRebuilds | src/models/TextProcessor.ts:45 | The split loses nothing. There is one separator between each two pieces, every separator is a blank-line match, and putting them back between the pieces rebuilds the text. |
| TextProcessor.SplitKeepsText | src/models/TextProcessor.ts:45 | Splitting into paragraphs drops only whitespace. |
| TextProcessor.SplitNoBlankLine | src/models/TextProcessor.ts:45 | No piece of the split contains a blank line. |
| TextProcessor.NonBlankFilter | src/models/TextProcessor.ts:47-48 | Dropping blank pieces keeps the others in order, each as often as the pieces hold it, and keeps no blank piece. |
| TextProcessor.NonBlankKeepsText | src/models/TextProcessor.ts:47-48 | Dropping blank pieces drops only whitespace. |
| TextProcessor.ParagraphTextsArePieces | src/models/TextProcessor.ts:45-48 | The paragraphs are the non-blank pieces of a split that cuts only at blank-line matches and otherwise rebuilds the text. They keep the pieces' order and repeats, none is blank, none contains a blank line, and together they keep every non-whitespace character of the cleaned text. |
| TextProcessor.Count | src/models/TextProcessor.ts:118-122 | A word's count is at most the number of words, and it is positive exactly when the word occurs. |
| TextProcessor.CandidatesOrder | src/models/TextProcessor.ts:117-122 | The counted keys are distinct, they are exactly the words longer than one character whose lower case is not a stopword, and they come in order of first occurrence, the insertion order of the count object. |
| TextProcessor.Select | src/models/TextProcessor.ts:125 | The array-index keys, or the other keys, of the count object; taken together the two selections hold exactly its keys. |
| TextProcessor.SelectFilter | src/models/TextProcessor.ts:125 | Each selection keeps the keys of its kind in order and with their repeats, and no key of the other kind. |
| TextProcessor.KeyOrderShape | src/models/TextProcessor.ts:125 | `Object.entries` order is a permutation of the counted keys: first the array-index keys in ascending numeric value, then the other keys in insertion order. |
| TextProcessor.Ranking | src/models/TextProcessor.ts:125-126 | The sorted keys are a permutation of the candidates, in non-increasing count. Keys with equal counts keep `Object.entries` order. |
| TextProcessor.KeywordsAreTop | src/models/TextProcessor.ts:106-131 | At most ten keywords, all eligible words of the text and distinct, in non-increasing count. An eligible word that is left out means there are ten keywords, each counted at least as often as that word. |
| TextProcessor.RankingDistinct | src/models/TextProcessor.ts:117-126 | The ranking repeats no word, since it reorders the distinct counted keys. |
| TextProcessor.KeywordsByCount | src/models/TextProcessor.ts:125-128 | The keywords come in non-increasing order of their count in the text. |
| TextProcessor.KeywordsLeftOut | src/models/TextProcessor.ts:125-128 | An eligible word missing from the keywords is outnumbered by ten keywords. |
| TextProcessor.ExtractKeywordsTop | src/models/TextProcessor.ts:106-131 | The keywords of a cleaned text are at most ten distinct eligible tokens of it, in non-increasing count. An eligible token left out means there are ten keywords, each counted at least as often. |
| TextProcessor.ContainedInOccurring | src/models/TextProcessor.ts:133-141 | The kept items are the items that occur as substrings of the paragraph, in their original order and each exactly as often as the items hold it; items that do not occur are dropped entirely. |
| TextProcessor.ContainedInIsSubsequence | src/models/TextProcessor.ts:133-141 | Filtering keeps the items' original order. |
| TextProcessor.NewProcessor | src/models/TextProcessor.ts:20-27 | A new processor has the tokenizer option set, and an empty text and outline. |
| TextProcessor.ProcessMarkdown | src/models/TextProcessor.ts:29-33 | The processor remembers the text it was given and that text's outline, whatever it held before; only the tokenizer option carries over. |
| TextProcessor.ProcessMarkdownParagraphs | src/models/TextProcessor.ts:35-64 | There is one paragraph per non-blank piece of the cleaned text, in order. Each has a word, and its words hold exactly that piece's non-whitespace characters. Its links are the document's links that occur in the piece, in order and with their repeats, and likewise its keywords. |
| TextProcessor.KeepTextAll | src/models/TextProcessor.ts:47-64 | Paragraphs that each keep the non-whitespace characters of their own text keep, together, those of all the texts. |
| TextProcessor.ParagraphsKeepText | src/models/TextProcessor.ts:47-64 | The words of all paragraphs keep every non-whitespace character of the paragraph texts. |
| TextProcessor.ParagraphsNonEmpty | src/models/TextProcessor.ts:47-64 | A paragraph built from a text that is not all whitespace has at least one word. |
| TextProcessor.ProcessNonEmpty | src/models/TextProcessor.ts:29-67 | Every paragraph of a processed document has at least one word. |
| TextProcessor.ProcessKeepsText | src/models/TextProcessor.ts:29-67 | Every paragraph has a word. The words of the document, in order, hold exactly the non-whitespace characters of the cleaned text. |
| TextProcessor.StructureAfterProcess | src/models/TextProcessor.ts:84-86 | After processing, the outline is the processed text's own: valid headings in increasing position. |
| TextProcessor.ApproximateWordPosition | src/models/TextProcessor.ts:69-82 | The estimate is the number of words before the cursor, capped at the last word, so it is -1 for a text without words. The processor ends up holding the text before the cursor. |
| Sorting.SortDesc | src/models/TextProcessor.ts:125-126 | The result is a permutation of the input, sorted by non-increasing key, with elements of equal key in input order. |
| Sorting.Take | src/models/TextProcessor.ts:127 | `slice(0, n)`: a prefix of at most `n` elements, the whole sequence when shorter. |
| Sorting.TakeHoldsTop | src/models/TextProcessor.ts:125-128 | An element cut off by the slice has a key no greater than any kept one, and exactly `n` were kept. |
| Strings.Trim | src/models/TextProcessor.ts:48 | The trimmed text neither starts nor ends with whitespace. |
| Strings.TrimKeepsText | src/models/TextProcessor.ts:48 | Trimming keeps every non-whitespace character, and the trimmed text is empty exactly when the text is all whitespace. |
| Strings.Words | src/models/TextProcessor.ts:95-97 | Trim, split at whitespace runs, drop empty pieces: non-empty, whitespace-free words that concatenate to the text without its whitespace. |
| Strings.WordsSingle | src/models/TextProcessor.ts:95-97 | A non-empty text without whitespace is one word. |
| Strings.WordsSplit | src/models/TextProcessor.ts:95-97 | Any non-empty whitespace run separates words: the words of `a`, whitespace, `b` are the words of `a` followed by those of `b`. |
| Strings.WordsJoinSpaces | src/models/TextProcessor.ts:95-97 | Splitting words joined by spaces gives them back. |
| Strings.FindFrom | src/models/TextProcessor.ts:135 | `includes`/`indexOf`: the first occurrence at or after a position, and none when there is none. |
| Strings.ContainsIff | src/models/TextProcessor.ts:135 | `includes` is true exactly when the pattern occurs somewhere in the text. |
| Strings.ReplaceFirst | src/utils/MarkdownParser.ts:17 | `replace` with a string pattern replaces the first occurrence only. |
| Strings.JoinSplitLines | src/models/RSVPEngine.ts:42 | Joining the pieces of `split('\n')` with line feeds gives the text back. |
| RSVPEngine.FocusPoint | src/models/RSVPEngine.ts:191-199 | The focus letter is a third of the way into the word (rounded down) and at most 2. It is 0 for words of one letter or none, and it always lies inside a non-empty word. |
| RSVPEngine.IsPunctuation | src/models/RSVPEngine.ts:201-205 | True exactly when the word is non-empty and its last character is one of the thirteen marks. |
| RSVPEngine.MergedPunctuationFlagged | src/models/RSVPEngine.ts:201-205 | A token the Chinese tokenizer extended with punctuation counts as punctuation for the seven Chinese marks, but not for quotes or brackets. |
| RSVPEngine.MakeWord | src/models/RSVPEngine.ts:54-61 | A word record flags a link or keyword exactly when the paragraph's list holds that word. It is not a paragraph end yet. |
| RSVPEngine.WordsOf | src/models/RSVPEngine.ts:50-64 | One record per word of the paragraph, in order. |
| RSVPEngine.AddParagraphWords | src/models/RSVPEngine.ts:50-70 | A paragraph appends its records: every record but the new last one is the old record or the paragraph's own record, and every record keeps its word. Whenever there is any record at all, the new last record gets the paragraph-end flag and its index is appended to the breaks, because the test is on the total word count. So an empty paragraph after earlier words flags the last record again and records its index a second time; only with no words at all does it record nothing. |
| RSVPEngine.AddParagraphOk | src/models/RSVPEngine.ts:66-70 | The break list stays exactly the set of flagged records and ends at the last record. |
| RSVPEngine.AddParagraphIncreasing | src/models/RSVPEngine.ts:66-70 | A non-empty paragraph adds one break point beyond all earlier ones. |
| RSVPEngine.FlattenOk | src/models/RSVPEngine.ts:48-71 | The records spell out all the words of all paragraphs in order. A record is flagged exactly when its index is a break point, and the last record is one. |
| RSVPEngine.FlattenIncreasing | src/models/RSVPEngine.ts:48-71 | For non-empty paragraphs there is one strictly increasing break point per paragraph. |
| RSVPEngine.FlattenLayout | src/models/RSVPEngine.ts:48-71 | For paragraphs that each have a word, break point `k` is the last word of paragraph `k`, word `m` of paragraph `j` sits after the words of the earlier paragraphs, and its record is the one built from its own paragraph apart from the flag. The flags mark exactly the break points. |
| RSVPEngine.SetCurrentPosition | src/models/RSVPEngine.ts:97-99 | The cursor is clamped to the words: it is kept in range, it is 0 below range and the last index above it. |
| RSVPEngine.SetCurrentPositionIdempotent | src/models/RSVPEngine.ts:97-99 | Setting the resulting position again changes nothing, and a valid engine stays valid. |
| RSVPEngine.CurrentWord | src/models/RSVPEngine.ts:86-91 | There is a word exactly when the cursor is in range, and it is the word under the cursor. |
| RSVPEngine.GetNextWord | src/models/RSVPEngine.ts:76-84 | At or past the last word, nothing changes and there is no word. Otherwise the cursor moves one forward and the new word is returned. |
| RSVPEngine.GetNextWordValid | src/models/RSVPEngine.ts:76-84 | Advancing keeps the engine valid. |
| RSVPEngine.Column | src/models/RSVPEngine.ts:43 | `substring(0, ch)` never takes more than the cursor line. |
| RSVPEngine.TextBeforeFirstLine | src/models/RSVPEngine.ts:42-43 | On the first line, the text before the cursor is a prefix of the text. |
| RSVPEngine.TextBeforeLaterLine | src/models/RSVPEngine.ts:42-43 | On a later line, it is the text up to the line feed that ends the previous line, followed directly by the cursor line's first characters; that line feed is dropped. |
| RSVPEngine.ProcessText | src/models/RSVPEngine.ts:29-74 | The engine is valid and holds one record per word of the processed text, in order, each built from its own paragraph; break point `k` is the last word of paragraph `k`. Without a cursor it starts at word 0. With a cursor, the processor ends up holding the text before the cursor. |
| RSVPEngine.ProcessTextCursor | src/models/RSVPEngine.ts:41-74 | With a cursor, the engine starts after all the words before the cursor, or on the last word when there are no more words. |
| RSVPEngine.TotalWordsAfterProcess | src/models/RSVPEngine.ts:101-103 | After processing, the total is the number of words of all paragraphs, and the last paragraph ends on the last word. |
| RSVPEngine.GetReadingProgress | src/models/RSVPEngine.ts:105-108 | With no words the progress is 0. With at least two words it is the cursor over the last index. |
| RSVPEngine.SingleWordProgressIsNaN | src/models/RSVPEngine.ts:105-108 | For a one-word document the progress is 0 / 0, which is NaN. |
| RSVPEngine.ReadingProgress | src/models/RSVPEngine.ts:105-108 | With the one-word case guarded, the progress is a fraction in [0, 1]. It is 0 at the first word and 1 at the last, and otherwise it agrees with the source. |
| RSVPEngine.ReadingProgressMonotone | src/models/RSVPEngine.ts:105-108 | The progress grows with the cursor. |
| RSVPEngine.DisplayTime | src/models/RSVPEngine.ts:110-133 | The base time is 60000 / speed milliseconds. It is scaled by the punctuation multiplier when intelligent pause is on, by 1.5 at a paragraph end and by 1.2 for words longer than eight characters. It is the base time alone when no word is current. |
| RSVPEngine.DisplayTimeBounds | src/models/RSVPEngine.ts:110-133 | With a multiplier of at least 1, a word shows for at least the base time and at most 1.8 × multiplier × base time. |
| RSVPEngine.DisplayTimeExample | src/models/RSVPEngine.ts:110-133 | At 400 words per minute with multiplier 1.5, a long, paragraph-final punctuated word shows for 405 ms. |
| RSVPEngine.FirstBreakAfter | src/models/RSVPEngine.ts:137-142 | Returns the first break point after the cursor, and none when every break point is at or before it. |
| RSVPEngine.JumpToNextParagraphMoves | src/models/RSVPEngine.ts:135-146 | The forward jump moves forward, and strictly so unless it is on the last word. Short of the last word it lands just after the first paragraph end beyond the cursor: that end lies after the cursor and no other paragraph end lies between them. Otherwise it lands on the last word. |
| RSVPEngine.JumpFromBreakSkipsParagraph | src/models/RSVPEngine.ts:135-159 | From a paragraph end, where the backward jump lands, the forward jump skips the whole next paragraph and lands after the following paragraph end (or on the last word). |
| RSVPEngine.JumpsReachEnd | src/models/RSVPEngine.ts:135-146 | Repeated forward jumps reach the last word, where they stop moving. |
| RSVPEngine.PreviousBreak | src/models/RSVPEngine.ts:150-156 | The loop returns its start value or one of the break points. |
| RSVPEngine.PreviousBreakIsLast | src/models/RSVPEngine.ts:150-156 | Over increasing break points, the result is the last break point before the cursor: no break point lies between it and the cursor. |
| RSVPEngine.JumpToPreviousParagraphMoves | src/models/RSVPEngine.ts:148-159 | The backward jump never moves forward. It lands on the last paragraph end before the cursor, or on word 0 when there is none. |
| JsNumber.Div | src/models/RSVPEngine.ts:107 | Division is finite exactly when the divisor is non-zero. 0 / 0 is NaN, and a positive or negative value over 0 is +Infinity or -Infinity. |
| RSVPView.SetSpeed | src/components/RSVPView.ts:139-142 | The speed is kept within [200, 1200]: kept when inside, 200 below and 1200 above. Nothing else changes. |
| RSVPView.IncreaseSpeed | src/components/RSVPView.ts:131-133 | Increasing keeps the speed within [200, 1200] and changes nothing else. |
| RSVPView.DecreaseSpeed | src/components/RSVPView.ts:135-137 | Decreasing keeps the speed within [200, 1200] and changes nothing else. |
| RSVPView.SetSpeedIdempotent | src/components/RSVPView.ts:139-142 | Setting the resulting speed again changes nothing. |
| RSVPView.IncreaseSpeedSteps | src/components/RSVPView.ts:131-133 | A non-negative step raises an in-range speed by exactly the step, up to the ceiling 1200. |
| RSVPView.DecreaseIsSetLowered | src/components/RSVPView.ts:135-137 | The extra floor in `decreaseSpeed` has no effect: decreasing is setting the lowered speed. |
| RSVPView.DecreaseSpeedSteps | src/components/RSVPView.ts:131-137 | A non-negative step lowers an in-range speed by exactly the step, down to the floor 200. Away from the bounds, decreasing undoes increasing. |
| RSVPView.SetReadingPosition | src/components/RSVPView.ts:144-149 | The view stores the position as given, while the engine's cursor is the position clamped to the words. The speed, words and break points are unchanged, and the engine stays valid. |
| RSVPView.ReadingPositionAgrees | src/components/RSVPView.ts:144-149 | The view's cursor and the engine's cursor agree exactly when the position names a word. |
| RSVPView.Floor | src/components/RSVPView.ts:152 | `Math.floor`: the greatest integer not above the value. |
| RSVPView.SetProgress | src/components/RSVPView.ts:151-154 | The view's position is the greatest integer not above progress × word count, and the engine opens that position clamped to the words. The speed is unchanged. A progress in [0, 1] gives a position between 0 and the word count. |
| RSVPView.SetProgressEnds | src/components/RSVPView.ts:151-154 | Progress 0 opens word 0. Progress 1 opens the last word in the engine, while the view records one past it. |
| RSVPView.SetProgressAtWord | src/components/RSVPView.ts:151-154 | Progress `k / total` opens word `k` in both the view and the engine. |
| RSVPView.JumpParagraph | src/components/RSVPView.ts:156-165 | After a jump the view's cursor equals the engine's. The words and the speed are unchanged. |
| RSVPView.JumpParagraphMoves | src/components/RSVPView.ts:156-165 | A jump keeps the engine valid and leaves the cursor on a word. Forward jumps never move back and backward jumps never move forward. |
| ReadingData.Bump | src/models/ReadingData.ts:44-49 | One session adds one to the count, adds its duration and words to the totals, and raises the last read date to at least its end. |
| ReadingData.AddSession | src/models/ReadingData.ts:29-53 | The session is appended. Only its file's statistics change, and that file gains a statistics entry if it had none. The session count is one more than before, counting from zero for a new file. |
| ReadingData.GetFileStat | src/models/ReadingData.ts:55-57 | There are statistics exactly for files that have them, and they are the stored ones. |
| ReadingData.LastReadOf | src/models/ReadingData.ts:49 | The latest end is never below 0 and no session of the file ends later. |
| ReadingData.AddAllTotals | src/models/ReadingData.ts:29-53 | From an empty history, the history is exactly the sessions added. A file has statistics exactly when one of them is its own. Those statistics are the totals over its sessions: count, time, words, speed over all of them and the latest end. |
| ReadingData.NoFileZero | src/models/ReadingData.ts:36-42 | A file without sessions has all-zero totals, matching the default statistics. |
| ReadingData.ZeroTimeSpeed | src/models/ReadingData.ts:48 | A first session with no duration gives speed NaN when no word was read and +Infinity otherwise. |
| ReadingData.SliceEnd | src/models/ReadingData.ts:67 | `slice(0, count)` keeps `count` elements (all when fewer). A negative count drops that many from the end. |
| ReadingData.ByRecency | src/models/ReadingData.ts:65-66 | The sessions sorted by descending end, with equal ends in the order they were added. It is a permutation of the history. |
| ReadingData.GetRecentSessions | src/models/ReadingData.ts:63-68 | The first `count` sessions by recency, in non-increasing end order, all from the history. |
| ReadingData.RecentAreLatest | src/models/ReadingData.ts:63-68 | No session left out ended later than a returned one. With the default count of 10, ten are returned whenever more exist. Asking for all returns every session. |
| ReadingData.RecentKeepsAddedOrder | src/models/ReadingData.ts:65-66 | Sessions with the same end time come back in the order they were added. |

## Left out

- DOM rendering, the control bar, timers (`play`/`pause`/`readNextWord`), keyboard handling, the settings tab and the plugin's commands are left out. They are user interface and scheduling.
- `DataPersister` is left out. It is file I/O through the Obsidian vault.
- `generateMindmap`, `generateReadingReport` and `getAllStats` are left out. They format text for the user, or return the internal map.
- `getCurrentPosition`, `updateSettings` and `saveReadingProgress` are left out. They are a field read, a field write and persistence. Engine settings are a parameter `Settings` of `DisplayTime`.
- MarkdownParser.CleanMarkdown: five passes are abstracted as the parameter `passes`: images, plain links, HTML tags, emphasis and horizontal rules. Nothing is proved about the text they produce. The links and the words' provenance do not depend on them.
- MarkdownParser.ReplaceLinks: the loop as written, replacing the first occurrence of each span in the partly rewritten text, is modelled by `ReplaceLinks`, and `ReplaceLinksFirstOccurrence` shows where it goes wrong. `CleanMarkdown`, and so `ProcessMarkdown` and `ProcessText`, use the corrected in-place replacement `ReplaceLinksScan` instead, so on an input like the one in "## Findings" the model's cleaned text is the intended one, not the one the program produces. The display text is inserted literally: a `$` pattern such as `$&` inside a link's display text, which `String.prototype.replace` would expand, is not modelled.
- TokenizeText: its own contract does not fix where Latin words break. Outside Chinese mode the tokens are `Words` of the text, and `Strings.WordsSingle` and `Strings.WordsSplit` fix those boundaries.
- Words: its own contract does not fix where words break; `Strings.WordsSingle` and `Strings.WordsSplit` do.
- FlattenOk: for paragraph lists that may hold empty paragraphs, only the words, the flags and the break invariant are stated. The break positions and the record fields are stated by `FlattenLayout` for paragraphs that each have a word, which is all `processMarkdown` produces (`ProcessNonEmpty`).
- TextProcessor.Candidates: the stopword test lowers ASCII letters only. For this stopword list that gives the same answer as JavaScript's full Unicode `toLowerCase`: no non-ASCII character lowers to a letter of an ASCII stopword, except U+212A (Kelvin sign, lowered to `k`), and no stopword contains a `k`.
- TextProcessor.KeyOrder: a word equal to an inherited property of `Object.prototype` is treated like any other word. In the source, `wordCounts["constructor"] || 0` would start from the inherited function; the model does not reproduce that. Keys that are array indices are ordered first, ascending, as JavaScript orders object keys.
- Strings: characters are Unicode code points. JavaScript strings are UTF-16, so lengths, `substring` offsets and the focus letter differ for characters outside the Basic Multilingual Plane, which the model does not treat.
- RSVPEngine.TextBefore: requires the cursor line to exist. The source throws a `TypeError` on `undefined.substring` otherwise, and the model has no exception path for it.
- RSVPEngine.DisplayTime: requires a positive speed. The view only passes its own speed, which `setSpeed` keeps within [200, 1200]. A zero speed would make JavaScript divide by zero, which the real-valued time does not model.
- RSVPView.SetProgress: the progress is a real number. The floating-point rounding of `progress * total` and a NaN progress are not modelled.
- ReadingData: timestamps, durations and word counts are integers. The floating-point rounding of the speed computation is not modelled, only its NaN and Infinity cases.
- ReadingData.GetRecentSessions: the count is an integer. A fractional or NaN count, which `slice` truncates or treats as 0, is not modelled.
- Sorting.SortDesc: stability of `Array.prototype.sort` is assumed. It is guaranteed by ECMAScript 2019 and later.

## Findings

| source | as written | input that shows it | evidently intended | confidence | as-written member | corrected member |
|---|---|---|---|---|---|---|
| src/models/RSVPEngine.ts:105-108 | `currentPosition / (words.length - 1)` once the list is non-empty | A document of exactly one word: the cursor is 0 and the divisor is 0, so the progress is NaN. The progress bar then gets a NaN width. | A fraction in [0, 1]: 0 at the first word and 1 at the last | not executed; follows from the arithmetic | RSVPEngine.SingleWordProgressIsNaN | RSVPEngine.ReadingProgress |
| src/utils/MarkdownParser.ts:11-18 | `cleanText = cleanText.replace(match[0], displayText)` for each match in turn: a string pattern replaces its first occurrence in the text rewritten so far | `[[a\|[[]]b]][[b]]`: the first link displays as `[[`, which forms a new `[[b]]` in front of the real one, so the second replacement rewrites that one and the text becomes `b[[b]]` | Each link replaced where it was matched, giving `[[b]]b` | not executed; follows from the definition of `replace` with a string pattern | MarkdownParser.ReplaceLinksFirstOccurrence | MarkdownParser.ReplaceLinksSplices |
