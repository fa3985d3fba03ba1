# dump-management question bank: a Dafny model

dump-management turns the text of an exam-dump PDF into a bank of
multiple-choice questions, serves it as a quiz, grades the answers and
renders question and explanation text in the browser. This project models
the deterministic text and state logic of that system as pure Dafny
functions over `seq<char>` and datatypes, and proves what the code promises
about it.

Modelled:

- **Segmenters** (`extractBoxedQuestions`, `extractByNumbers`): the text is cut
  at every `Question #n` header, or else at every line-start `n.`, and each
  trimmed block of more than 30 characters is kept (module `Segment`). Only
  when neither anchor occurs is the whole text returned.
- **Boxed parser** (`parseBoxedQuestion`, `parsePdfToQuestions`,
  `cleanQuestionText`): a left-to-right scan of the trimmed non-empty lines
  of a block over an explicit state (modules `Boxed`, `Patterns`, `Bank`,
  `Normalize`). Every line test is its own recogniser (`IsOptionLine`,
  `IsAnswerLine`, `IsVoteLine`, …).
- **Fallback parsers** (`parseSimpleFormat`, `parseTableFormat`,
  `parseTableSection`) and the upload handler's choice between the three
  (modules `Simple`, `Table`, `Upload`).
- **Grading** of `submit-answer` and `submit-quiz` (module `Grading`).
- **Renderer** of `client/src/components/Quiz.js`, returning `Block`s instead
  of JSX:
  - `cleanArrowsFromText` (module `Normalize`);
  - the lookahead `split` (module `Lookahead`);
  - `formatQuestionContent`, `formatExplanation` and `formatContextWithTable`
    (module `Render`);
  - `preprocessRequirements` (module `Requirements`);
  - `formatTextWithRequirements` (module `RequirementItems`).
- **Quiz navigation state** (`selectAnswer`, `checkAnswer`, `nextQuestion`,
  `previousQuestion`; module `Nav`).
- **`server/test-parser.js`**: the copied segmenter and boxed parser, and what
  that parser makes of the sample question (modules `TestParser`, `Sample`).
- **`client/src/test-requirements.js`**: the earlier `preprocessRequirements`
  (module `Requirements`).

Conventions:

- **Whitespace** is JavaScript's `\s` set (`Text.IsWs`).
- **Case-insensitive matching** folds ASCII letters plus 'ả'/'Ả', the one
  non-ASCII letter any pattern spells (`Text.AtCI`). JavaScript without the
  `u` flag never folds a non-ASCII character onto an ASCII one, so this
  equals JavaScript's matching for every pattern here.
- **Lengths and indices** count Dafny `char`s (Unicode scalar values).
- **JavaScript `null`** is `None`.
- **`split('\n').map(trim).filter(nonEmpty)`** is `Text.Lines`.
- **Answer-letter reading.** Where the source reads the answer letter in a way
  that is evidently not intended, the model has both readings: a
  `LetterRule` parameter selects `FirstLetter` (as written) or
  `ColonLetter` (intended). See "## Findings". `Simple.ParseSimpleFormat`,
  `Table.ParseTableFormat`, `Upload.ParseAny` and `Upload.UploadText` pass
  `FirstLetter`, as the source does. `Simple.ParseSimpleFormatIntended`,
  `Table.ParseTableFormatIntended` and `Upload.ParseAnyIntended` pass
  `ColonLetter`. `Simple.ParseSimpleWith`, `Table.ParseTableWith` and
  `Upload.ParseAnyWith` take the rule as a parameter.

## Model

| member | source | states |
|---|---|---|
| Patterns.HeadersDoNotOverlap | server/index.js:334-335 | a `Question\s*#?\d+` match cannot start inside another one, so all start positions equal the successive `matchAll` matches |
| Segment.AnchorsDoNotOverlap | server/index.js:342-343 | neither kind of anchor (header, line-start `\d+\.`) can start inside another of its kind |
| Segment.Positions | server/index.js:334-335 | the match positions from `i` on: increasing, each a real match, and every match position is listed |
| Segment.PositionsEmpty | server/index.js:339 | no position is listed exactly when the pattern matches nowhere in the text |
| Segment.Blocks | server/index.js:351-360 | at most one block per match, and each kept block is longer than 30 characters |
| Segment.LongOnly | server/index.js:356-359 | the kept blocks are exactly the ones longer than 30 characters: each kept one is a candidate longer than 30, and every candidate longer than 30 is kept |
| Segment.BlocksAreLongSlices | server/index.js:351-360 | the blocks are exactly the trimmed slices from each match to the next (the last to the end of the text) that are longer than 30, in match order |
| Segment.BlocksStartAtAnchors | server/index.js:351-360 | every block begins with its anchor and sits in the text at an anchor position, so text before the first header is never returned |
| Segment.ExtractWithHeaders | server/index.js:330-362 | with a header in the text, the result is exactly the trimmed slices between consecutive headers that are longer than 30, in order; each starts with a header and occurs in the text at a header position |
| Segment.ExtractWithNumbers | server/index.js:339-378 | with no header but a line-start `n.`, the result is exactly the trimmed slices between consecutive line-start `n.` matches that are longer than 30, in order; each starts with `n.` and occurs in the text at such a line start |
| Segment.ExtractWithNeither | server/index.js:339-349 | with neither anchor the result is the whole text, untrimmed and unfiltered |
| Segment.NoFallbackAgreesWithHeaders | server/test-parser.js:63-85 | the copied segmenter agrees with the server's when a header occurs and returns `[text]` otherwise, with no numeric fallback |
| Text.Lines | server/index.js:384 | every line handed to a parser is trimmed and non-empty |
| Text.Split | server/index.js:384 | the pieces contain no separator and join back to the input |
| Text.SplitJoin | server/index.js:384 | splitting a join of separator-free pieces gives the pieces back |
| Text.Trim | server/index.js:355 | the result is trimmed, is the slice between the first and last non-space, is empty exactly for all-space input, and fixes trimmed input |
| Patterns.OptionText | server/index.js:427-428 | an option's text is trimmed, shorter than its line and never starts with `.` |
| Patterns.AnswerLineColon | server/index.js:444-454 | on an answer line, `indexOf(':')` and the start of the first `:\s*[A-D]` match are the same position |
| Patterns.BoxedAnswerIndexAtColon | server/index.js:444-446 | the boxed answer index is the index of the letter after the first colon's whitespace run |
| Patterns.LastAnswerLine | server/index.js:442-449 | the position of the last answer line, with none after it, or -1 |
| Patterns.OptionLineIsNoEarlierTest | server/index.js:404-419 | an option line is neither a header, a topic line nor a table-token line, so the option test sees it |
| Patterns.AnswerLineIsNothingElse | server/index.js:404-442 | an answer line passes none of the earlier tests, so the answer test sees it |
| Patterns.TableTokenLineIsNothingElse | server/index.js:404-442 | a table-token line passes none of the header, option, vote, community, answer or separator tests |
| Patterns.HeaderLineIsNothingElse | server/index.js:405 | a header line is no option, table-token, answer or vote line |
| Boxed.Finish | server/index.js:490-516 | a returned question has a non-empty stem, at least two options and the given id |
| Boxed.StemOnlyFromStemLines | server/index.js:404-487 | every stem-buffer line comes from the block and is never a header, topic, option, vote, community, answer or pure `\|-+` separator line |
| Boxed.StemFixedByFirstOption | server/index.js:418-434 | once a prefix of the lines has produced an option, the rest of the block does not change the final stem |
| Boxed.ScanSettled | server/index.js:418-434 | once options exist the stem no longer changes, line after line |
| Boxed.ScanOptions | server/index.js:418-434 | the options are the non-empty option texts of the option lines (excluding vote lines), in order |
| Boxed.ScanAnswer | server/index.js:441-449 | the answer index is read from the last answer line; with none it stays 0 |
| Boxed.AnswerInRange | server/index.js:446 | a returned answer index lies in 0..3 and is not checked against the number of options |
| Boxed.SkippedLinesChangeNothing | server/index.js:404-439 | header, topic, community and vote lines leave the whole scan state unchanged |
| Boxed.NoAnswerKeepsPlaceholder | server/index.js:466-497 | without an answer line the explanation stays the placeholder |
| Boxed.NoAnswerNoExplanation | server/index.js:466-479 | without an answer line no explanation text is ever collected |
| Boxed.StepExplaining | server/index.js:404-479 | once collecting, a line that is no answer line keeps collecting and is folded in by `ExplainLine` exactly when it is no header, topic, table-token, option, community or vote line |
| Boxed.ScanExplaining | server/index.js:466-479 | over lines without an answer line, the collected explanation is the in-order fold of `ExplainLine` over exactly the lines that reach the explanation branch |
| Boxed.ScanExplanation | server/index.js:441-479 | the explanation is the last answer line's seed (or, with an empty seed, what was collected before it) followed by the fold over the later lines |
| Boxed.BoxedExplanation | server/index.js:441-497 | a question whose block has an answer line carries that fold, trimmed, or the placeholder when it is empty |
| Boxed.SeedIsAfterColon | server/index.js:453-462 | when the whole `: X` match does not occur after the colon, the same-line seed is the trimmed text after the colon, letter included |
| Bank.ExplainLine | server/index.js:466-479 | an explanation line only appends: a reference line adds the label and its text (after a blank line when text was collected), nothing when that text is empty; a URL line adds the label and the URL on a new line; a community line, a skipped vote count or an empty line adds nothing; any other line is joined with a space |
| Bank.Renumber | server/index.js:314-323 | numbering accepted questions from `id` keeps every field but the id, which becomes `id`, `id+1`, … in order |
| Bank.SpaceJoinIsJoin | server/index.js:485 | growing a buffer with `+= (buf ? ' ' : '') + line` builds the space join of the lines |
| Boxed.NumberBlocks | server/index.js:314-323 | accepted questions are numbered consecutively from the first id |
| Boxed.BoxedIdOnlyNumbers | server/index.js:318 | the id passed to the block parser only numbers the question it returns |
| Boxed.NumberBlocksAccepted | server/index.js:314-323 | the result is exactly the blocks' successful parses with at least two options, in block order, renumbered from the first id: none skipped, none repeated |
| Boxed.ParsePdfToQuestions | server/index.js:307-327 | the questions are exactly the accepted parses of the extracted blocks, in block order, numbered 1..N, each with a non-empty stem and at least two options |
| Normalize.CleanQuestionText | server/index.js:519-524 | the result has no whitespace runs, no leading or trailing whitespace, and is empty or starts with a word character or one of `→•➤▶⇨-` |
| Normalize.CleanQuestionTextIdempotent | server/index.js:519-524 | cleaning twice is cleaning once |
| Normalize.CleanQuestionTextFixesClean | server/index.js:519-524 | a stem already in the clean shape is returned unchanged |
| Normalize.CleanQuestionTextDropsNonAsciiLead | server/index.js:522 | a leading non-ASCII letter such as `Đ` is stripped as junk: "Đáp" becomes "p" |
| Simple.ParseSimpleWith | server/index.js:226-304 | under either answer-letter rule, every question has at least two options, ids increase and lie in 1..(number of header lines), and there are at most that many questions |
| Simple.ParseSimpleFormat | server/index.js:226-304 | as written: every question has at least two options, ids increase and lie in 1..(number of header lines), and there are at most that many questions |
| Simple.SimpleStep | server/index.js:235-292 | the id counter grows by one exactly on a header line, and the saved questions keep their shape |
| Simple.HeaderOpensQuestion | server/index.js:239-262 | a header line saves the open question if it has two options and opens one with the next id, stem = the line for `n.`/`n)` headers, empty otherwise |
| Simple.InsideQuestion | server/index.js:263-291 | inside a question, later non-header lines only add the option texts of their option lines, in order |
| Simple.NothingBeforeFirstHeader | server/index.js:271-285 | lines before the first header change nothing |
| Simple.Save | server/index.js:241-246 | the questions already saved stay, in order, and the open question is appended, with its id and options, exactly when it has at least two options; ids stay below the counter |
| Simple.NextHeader | server/index.js:239 | the position of the first header line, or the end when there is none |
| Simple.GroupsWithOptionsMembers | server/index.js:241-246 | the kept groups are exactly the groups with at least two options |
| Simple.ScanGroups | server/index.js:235-300 | with a question open, the rest of the scan appends, as (id, stem, options) groups, the open question and then every later header's group, keeping only those with at least two options, in order. The open question gains the option texts before the next header. Its stem stays if already set; otherwise it is the trimmed stem text, grown while collecting by the stem lines before the first option line |
| Simple.StemInsideQuestion | server/index.js:239-291 | between two headers, the stem the open question is saved with is `OpenStem`: a set stem stays; otherwise the stem text, grown while collecting by the non-`Topic`, non-option lines before the first option line (answer lines included), trimmed |
| Simple.OpenStemAtHeader | server/index.js:248-261 | right after a header, that stem is `HeaderStem`: the header itself for `n.`/`n)`, else the trimmed join of the stem lines before the first option line |
| Simple.ParseSimpleGroups | server/index.js:226-304 | the (id, stem, options) triples of the result are exactly the groups of the header lines, numbered from 1, that have at least two options, in order. Each group holds the option texts up to the next header. Its stem is the header line for `n.`/`n)` headers. For a `Question` header it is the trimmed join of the non-`Topic` lines before the first option line, answer lines included, or empty. Every question has the placeholder explanation and an index in 0..3 |
| Simple.FirstLetterReadsCorrect | server/index.js:286-288 | as written, every `Correct Answer: X` line reads as index 2, the C of "Correct" |
| Simple.FirstLetterMisreads | server/index.js:286-288 | as written, the stored index differs from the letter after the colon whenever that letter is not C |
| Simple.ColonLetterAgreesWithBoxed | server/index.js:444-446 | read by the letter after the colon, the fallback parser agrees with the boxed parser |
| Simple.ParseSimpleFormatIntended | server/index.js:226-304 | read by the letter after the colon, the same guarantees hold |
| Table.SplitBlank | server/index.js:534 | the pieces and blank-line gaps glue back to the text; every gap is a blank line, and no piece contains one |
| Table.Sections | server/index.js:534 | the sections kept are exactly non-blank and hold no blank line |
| Table.ParseTableSection | server/index.js:583-665 | a returned question carries the id, a non-empty stem, at least two options and an index in 0..3 |
| Table.TableScanOptions | server/index.js:604-611 | the options are the non-empty option texts of the option lines, in order |
| Table.TableScanAnswer | server/index.js:613-619 | the index comes from the last answer line, read by the chosen rule; with none it stays and no explanation is collected |
| Table.AsWrittenAnswerIsTwo | server/index.js:615-617 | as written, any section with an answer line gets index 2 |
| Table.TableLetter | server/index.js:615-625 | as written, the letter is the line's first character; intended, the letter after the colon |
| Table.AsWrittenSeedKeepsLetter | server/index.js:621-630 | as written, when the line's first character does not recur after the colon, the seed is the whole text after the colon and starts with the answer letter |
| Table.IntendedSeedSkipsLetter | server/index.js:621-630 | read by the intended letter, the same-line seed is the trimmed text after the letter |
| Table.TableNoAnswerKeepsPlaceholder | server/index.js:655-662 | without an answer line the explanation stays the placeholder |
| Table.TableStepExplaining | server/index.js:599-647 | once collecting, a line that is no answer line keeps collecting and is folded in by `ExplainLine` (vote counts kept) exactly when it is no header, topic or option line |
| Table.TableScanExplaining | server/index.js:634-647 | over lines without an answer line, the collected explanation is the in-order fold of `ExplainLine` over exactly the lines that reach the explanation branch |
| Table.TableScanExplanation | server/index.js:613-647 | the explanation is the last answer line's seed (read by the chosen rule; with an empty seed, what was collected before it) followed by the fold over the later lines |
| Table.TableStemSettled | server/index.js:649-652 | once options exist (or the explanation is collecting) the stem text no longer changes |
| Table.TableStemLines | server/index.js:599-611 | only lines of the section that are no header, topic, option or answer line, and not empty, enter the stem |
| Table.TableScanStemFrom | server/index.js:596-652 | while the stem is open, the stem buffer grows to the space join of the stem lines before the first option line with text or the first answer line; an `A.` line with empty text stops nothing |
| Table.TableSectionStem | server/index.js:596-664 | a section yields a question exactly when the cleaned join of those stem lines is non-empty and there are two option texts; the question's stem is that cleaned join and its options the option texts |
| Table.NumberSections | server/index.js:537-575 | accepted questions are numbered consecutively, at most one per candidate section |
| Table.SectionIdOnlyNumbers | server/index.js:570 | the id passed to the section parser only numbers the question it returns |
| Table.NumberSectionsAccepted | server/index.js:537-575 | the result is exactly the successful parses of the candidate sections, in section order, renumbered from the first id |
| Table.ParseTableWith | server/index.js:530-580 | under either answer-letter rule, the questions are exactly the parses of the candidate sections in order, numbered 1..N, each with a non-empty stem, two options and an index in 0..3 |
| Table.ParseTableFormat | server/index.js:530-580 | as written: exactly the parses of the candidate sections in order, numbered 1..N, each with a non-empty stem, two options and an index in 0..3 |
| Table.ParseTableFormatIntended | server/index.js:530-580 | read by the letter after the colon, the same guarantees over the corrected section parses |
| Upload.ParseAnyWith | server/index.js:180-193 | the boxed result if non-empty, else the simple result if non-empty, else the table result; empty only if all three are; increasing ids and two options each |
| Upload.ParseAny | server/index.js:180-193 | the same chain over the parsers as written |
| Upload.ParseAnyIntended | server/index.js:180-193 | the same chain over the parsers as intended |
| Upload.UploadText | server/index.js:201-211 | the store is replaced only by a non-empty result; the count and the two-question preview are those of the result |
| Upload.UploadKeepsStore | server/index.js:201-204 | an upload never empties a non-empty store and keeps ids increasing |
| Grading.FindById | server/index.js:108 | `find` returns a stored question with that id, and nothing exactly when no question has it |
| Grading.FindByIdAt | server/index.js:108 | with increasing ids, looking up a stored question's id finds that question |
| Grading.SubmitAnswer | server/index.js:106-127 | not found exactly when no question has the id; otherwise `isCorrect` is strict equality of the selection with the stored index, and the stored index and explanation are returned |
| Grading.GradeAll | server/index.js:133-144 | one result per answer, in order, each with the stored index and `isCorrect` as strict equality; fails exactly when some id is unknown |
| Grading.SubmitQuiz | server/index.js:129-157 | a crash exactly when some id is unknown (the source's TypeError); otherwise total is the store size, one result per answer, score is the number of correct answers and the percentage is rounded from score/total |
| Grading.ScoreCountsCorrect | server/index.js:132-136 | the score is the number of answers equal to their question's stored index |
| Grading.Score | server/index.js:132-136 | the score never exceeds the number of answers |
| Grading.RoundPercent | server/index.js:146 | `Math.round(100*score/total)` as exact rational rounding half up; none (NaN) exactly for an empty store |
| Grading.PercentInRange | server/index.js:146 | with score at most total, the percentage lies in 0..100 |
| Grading.PercentCanPass100 | server/index.js:129-157 | answering one stored question twice scores 2 of 1, so the percentage can exceed 100 |
| Normalize.CleanArrows | client/src/components/Quiz.js:439-450 | the output contains none of ⇨ → ➤ ▶, has no whitespace runs, no whitespace before `.`, `,` or `:`, and is trimmed; the copy in client/src/test-requirements.js (lines 4-15) is the same function |
| Normalize.CleanArrowsIdempotent | client/src/components/Quiz.js:439-450 | cleaning twice is cleaning once |
| Normalize.CleanArrowsFixesClean | client/src/components/Quiz.js:439-450 | a text already clean is returned unchanged |
| Lookahead.NextCut | client/src/components/Quiz.js:458 | the next cut is the first position from `q` on where the lookahead holds, or the end |
| Lookahead.LookSplitPieces | client/src/components/Quiz.js:458 | the pieces concatenate back to the text, are non-empty for non-empty text, every piece after the first starts where the lookahead holds, and it holds nowhere strictly inside a piece |
| Lookahead.LookSplitCuts | client/src/components/Quiz.js:458-460 | more than one piece exactly when the lookahead holds after position 0; then piece 0 is a proper prefix and the rest concatenates to the remainder |
| Render.QuestionAsk | client/src/components/Quiz.js:453-473 | a question-ask block is rendered exactly when an ask sentence starts after the first character of the cleaned text; it is the last block, and it starts with "wh" in any case |
| Render.ContextHasNoAsk | client/src/components/Quiz.js:508-551 | the context formatter never produces a question-ask block |
| Render.WordFromSpec | client/src/components/Quiz.js:512 | `.*?w` finds the first occurrence of `w` on the same line, and reports none only when no occurrence is on the line |
| Render.ChainEndFinds | client/src/components/Quiz.js:512 | the lazy chain of words succeeds exactly when the words occur in order on one line |
| Render.PatternFromFinds | client/src/components/Quiz.js:512 | the table regex is found exactly when some position starts a match |
| Render.PatternMatchStart | client/src/components/Quiz.js:512-516 | the match found is the leftmost, starts with "Division" and its word chain succeeds |
| Render.PatternMatchEnd | client/src/components/Quiz.js:512-516 | the match ends with the last word, "Fabrikam" |
| Render.PatternMatchOneLine | client/src/components/Quiz.js:512-516 | the match lies on one line |
| Render.ContextTable | client/src/components/Quiz.js:508-551 | one table exactly when the case-sensitive hints hold and the regex matches, none otherwise; any table drawn is the fixed 3×2 table |
| Render.ContextBlocks | client/src/components/Quiz.js:508-551 | every block is a paragraph, a requirement list or the fixed table |
| Render.RequirementsHaveNoTable | client/src/components/Quiz.js:554-666 | the requirement formatter draws no table and only paragraphs and lists |
| Render.ExplanationBlocks | client/src/components/Quiz.js:476-505 | the notice shows exactly for an empty explanation or the placeholder; otherwise a reference follows exactly when a reference lookahead holds after position 0, and a single block is the explanation itself |
| Render.ExplanationLink | client/src/components/Quiz.js:482-499 | the reference is a link exactly when the text at the first cut starts with "http" (case-sensitive), so "Tham khảo:" and "Reference:" tails render as plain text |
| RequirementItems.ItemText | client/src/components/Quiz.js:578-597 | an item's text is a suffix of its line (the leading glyph and following spaces removed) and a lead-phrase line is kept whole |
| RequirementItems.ItemTextNonEmpty | client/src/components/Quiz.js:571-597 | a trimmed requirement line never yields an empty item text |
| RequirementItems.RunHolds | client/src/components/Quiz.js:562-645 | after the kept lines, either every line waits in the paragraph (no item yet), or the paragraph before the first item is flushed and the items match the item lines |
| RequirementItems.FormatLinesShape | client/src/components/Quiz.js:554-666 | with no item line the result is the paragraph alone; otherwise the last block is the list, one item per item line with icon ⇨; each item's text is its line's text joined by spaces with the shown continuation lines up to the next item line, and the item texts joined by spaces are the shown lines from the first item on |
| RequirementItems.ItemPositions | client/src/components/Quiz.js:578-597 | the indices of the item lines, increasing, one per item line |
| RequirementItems.ItemPositionsComplete | client/src/components/Quiz.js:578-597 | every item line's index is among the item positions |
| RequirementItems.FormatTextShape | client/src/components/Quiz.js:557-666 | the result is [], [Paragraph], [List] or [Paragraph, List] |
| Requirements.PreprocessArrows | client/src/components/Quiz.js:669-694 | with the inserted line feeds and ⇨ erased the output is the cleaned text; every line feed is followed by ⇨, a space and a lead phrase; every ⇨ follows a line feed; no → ➤ ▶ remains |
| Requirements.PreprocessEarlierKeepsText | client/src/test-requirements.js:17-24 | the earlier variant only rewrites whitespace and inserts →: without whitespace the output is the input with zero or more → inserted |
| LeadLines.SpacedArrowed | client/src/test-requirements.js:21 | after the last replacement, every lead phrase that follows whitespace sits right after a line feed, `→` and a space |
| LeadLines.SqueezeKeepsArrowed | client/src/test-requirements.js:22 | squeezing blank lines keeps that shape |
| LeadLines.TrimArrowLines | client/src/test-requirements.js:23 | after trimming, every such lead phrase opens a line with `→ `, at the start or after a line feed |
| LeadLines.PreprocessEarlierLeadLines | client/src/test-requirements.js:17-24 | in the output of the earlier variant, every lead phrase that follows whitespace begins right after `→ ` at the start of a line |
| Requirements.BreakArrowsKeeps | client/src/test-requirements.js:19 | the arrow-letter pass changes nothing but whitespace |
| Requirements.TrimKeepsText | client/src/test-requirements.js:23 | trimming removes only whitespace |
| Nav.Fresh | client/src/components/Quiz.js:699-713 | a fresh quiz is at question 0, unanswered, with no feedback and every answer slot null |
| Nav.SelectAnswer | client/src/components/Quiz.js:721-727 | a no-op once answered; otherwise only the current slot is written |
| Nav.CheckAnswer | client/src/components/Quiz.js:729-746 | the index and answers stay; without a selection (or questions), or when the server's store has no question with the current id, nothing changes; otherwise the question is answered and the feedback carries the store's index for that id and the strict-equality verdict |
| Nav.CheckAnswerVerdict | client/src/components/Quiz.js:729-746 | when the client's list is the server's store with increasing ids, the feedback carries the current question's stored index and the strict-equality verdict |
| Nav.Next | client/src/components/Quiz.js:748-754 | the index stays in [0, n-1]; a move resets answered and feedback, and at the last question nothing changes |
| Nav.Previous | client/src/components/Quiz.js:756-762 | the index stays in [0, n-1]; a move resets answered and feedback, and at the first question nothing changes |
| Nav.NextThenPrevious | client/src/components/Quiz.js:748-762 | next then previous returns to the same question with answered and feedback reset |
| Nav.WalkKeepsAnswers | client/src/components/Quiz.js:748-762 | any sequence of moves keeps the answers and a valid state |
| TestParser.CopyFinish | server/test-parser.js:163 | a question is returned exactly when the stem is non-empty and there are at least two options |
| TestParser.CopyScanOptions | server/test-parser.js:111-124 | the options are the non-empty option texts of the option lines, in order |
| TestParser.CopyScanAnswer | server/test-parser.js:126-138 | the index is read after the colon of the last answer line |
| TestParser.CopyScanExplanation | server/test-parser.js:140-149 | the explanation is the space join of the non-community lines after the first answer line, with no labels and no same-line seed |
| TestParser.CopyScanStem | server/test-parser.js:103-157 | the stem is fixed by the first option line: the trimmed join of the non-separator lines before the first option or answer line, not cleaned |
| TestParser.CopyParse | server/test-parser.js:87-164 | the whole copied parser: validity, id, stem, options, index and explanation in terms of the block's lines |
| TestParser.NoOptionNoQuestion | server/test-parser.js:111-124 | a block without an option line yields no question |
| Sample.ShapeParses | server/test-parser.js:87-164 | any 13 lines shaped like the sample (header, three stem lines, four options, answer, reference, URL, community, vote) parse to the stem join, the four option texts, index 0 and the reference-and-URL explanation |
| Sample.SampleQuestion | server/test-parser.js:8-29 | the sample's lines give question 1 with the three stem lines joined, the four options without their letters, index 0 and explanation "Reference: https://docs…" |

## Left out

- React rendering is left out: JSX markup, styled-components, hooks, axios calls and routing. The formatters return `Block` data instead.
- The other client components (upload form, results page, file manager, header) hold no logic of the parser or renderer.
- Server I/O is left out: Express, multer, pdf-parse, the file system, console logging, HTTP status codes and the listener. PDF text extraction is outside the model, so a parser's input is any string.
- Every regex is written as its own recogniser. There is no general regex engine.
- Lengths and indices count Unicode scalar values, not UTF-16 code units. This matters only for characters outside the Basic Multilingual Plane, such as the 30-character block limit.
- Case folding in `/i` patterns covers ASCII letters plus 'ả'/'Ả', not the full Unicode case mapping. It is the one non-ASCII letter any pattern spells. JavaScript without the `u` flag never folds a non-ASCII character onto an ASCII one, so for every pattern here this equals JavaScript's matching.
- Floating point is left out: progress-bar percentages are not modelled, and `Math.round(score / total * 100)` is exact rational rounding. Float round-off in the source could differ for totals that are not small.
- Grading.SubmitQuiz: an answer whose id is not stored makes the source throw a TypeError (a 500 response). The model reports this as `Crash` and does not model the error body.
- The seed questions served before any upload are not behaviour and are not modelled.
- Sample.SampleQuestion: the split of the raw `samplePdfText` into its single block is not proved. The lemma starts from the block's trimmed non-empty lines. Evaluating the segmenter over the 1,500-character literal does not fit the verifier's resource budget.
- Render.QuestionAsk: the ask block is the trimmed second piece. Pieces after the second are dropped by the source, and the model states this only through the definition of `FormatQuestionContent`.

## Findings

| source | as written | input that shows it | evidently intended | confidence | as-written member | corrected member |
|---|---|---|---|---|---|---|
| server/index.js:286-288 | `parseSimpleFormat` reads the answer as the first `[A-D]` (any case) anywhere on the line | "Correct Answer: B" is stored as index 2 (the C of "Correct") instead of 1 | read the letter after the colon, as the boxed parser does | high; not executed | Simple.FirstLetterMisreads | Simple.ColonLetterAgreesWithBoxed |
| server/index.js:615-617 | `parseTableSection` reads the answer as the first `[A-D]` (any case) of the line | any section whose answer line is "Correct Answer: A" gets index 2 | read the letter after the colon | high; not executed | Table.AsWrittenAnswerIsTwo | Table.TableLetter |
| server/index.js:625-626 | the same-line explanation seed is cut after the first occurrence of the misread letter 'C' | "Correct Answer: A because x" seeds "A because x" (no 'C' after the colon, so nothing is cut) | cut after the answer letter, seeding "because x" | medium; not executed | Table.AsWrittenSeedKeepsLetter | Table.IntendedSeedSkipsLetter |
