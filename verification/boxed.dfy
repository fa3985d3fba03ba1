/** `parseBoxedQuestion` and `parsePdfToQuestions` of server/index.js: a
    left-to-right scan over the trimmed, non-empty lines of one block. */
module Boxed {
  import opened Text
  import opened Patterns
  import opened Normalize
  import opened Bank
  import opened Segment

  /** The scan state: the stem buffer (kept as its lines; `questionText` is
      their space join), the two collecting flags, the explanation buffer,
      whether an answer line was seen, and the fields of the question. */
  datatype BoxState = BoxState(
    stemLines: seq<string>,
    collectingQuestion: bool,
    collectingExplanation: bool,
    explanation: string,
    foundAnswer: bool,
    stem: string,
    options: seq<string>,
    answer: int)

  const Start: BoxState := BoxState([], true, false, "", false, "", [], 0)

  /** `questionText`. */
  function StemText(st: BoxState): string { JoinSp(st.stemLines) }

  /** The stem as it would be finalised now: the one already set, or the
      cleaned buffer when none is set yet. */
  function FinalStem(st: BoxState): string {
    if StemText(st) != "" && st.stem == "" then CleanQuestionText(StemText(st)) else st.stem
  }

  /** The whole `:\s*[A-D]` match of an answer line. */
  function AnswerMatch(l: string): string
    requires IsAnswerLine(l)
  {
    l[AnswerColon(l)..WsEnd(l, AnswerColon(l) + 1) + 1]
  }

  /** The explanation the boxed parser seeds from the answer line itself: the
      text after the first colon, cut after the first occurrence of the whole
      `:\s*[A-D]` match in it, trimmed. Both `indexOf(':')` and the match
      start at `AnswerColon` (lemma `AnswerLineColon`). */
  function AnswerSeed(l: string): string
    requires IsAnswerLine(l)
  {
    var a := AfterColon(l);
    Trim(a[IndexOf(a, AnswerMatch(l)) + 1..])
  }

  /** One line of `parseBoxedQuestion`, tests in the source's order. */
  function Step(st: BoxState, l: string): BoxState {
    if IsHeaderLine(l) || IsTopicLine(l) then st
    else if IsTableTokenLine(l) then
      if |st.options| == 0 then st.(stemLines := st.stemLines + [l]) else st
    else if IsOptionLine(l) && !IsVoteLine(l) then
      var o := OptionText(l);
      st.(collectingQuestion := false,
          stem := FinalStem(st),
          options := if |o| > 0 then st.options + [o] else st.options)
    else if IsCommunityLine(l) || IsVoteLine(l) then st
    else if IsAnswerLine(l) then
      var seed := AnswerSeed(l);
      st.(answer := BoxedAnswerIndex(l),
          foundAnswer := true,
          collectingExplanation := true,
          explanation := if |seed| > 0 then seed else st.explanation)
    else if st.collectingExplanation then
      st.(explanation := ExplainLine(st.explanation, l, true))
    else if st.collectingQuestion && |l| > 0 && !IsSeparatorLine(l) then
      st.(stemLines := st.stemLines + [l])
    else st
  }

  function Scan(st: BoxState, ls: seq<string>): BoxState
    decreases |ls|
  {
    if |ls| == 0 then st else Scan(Step(st, ls[0]), ls[1..])
  }

  /** The question a finished scan yields, or `None` (the source's `null`)
      unless the stem is non-empty and there are at least two options. */
  function Finish(st: BoxState, id: int): (r: Option<Question>)
    ensures r.Some? ==> r.value.stem != "" && |r.value.options| >= 2 && r.value.id == id
  {
    var stem := FinalStem(st);
    var explanation := if st.explanation != "" then Trim(st.explanation) else Placeholder;
    if stem != "" && |st.options| >= 2 then Some(Question(id, stem, st.options, st.answer, explanation))
    else None
  }

  /** `parseBoxedQuestion(block, questionId)`. */
  function ParseBoxedQuestion(block: string, id: int): Option<Question> {
    Finish(Scan(Start, Lines(block)), id)
  }

  // ---------------------------------------------------------------------------
  // Scanning in pieces

  lemma {:induction false} ScanAppend(st: BoxState, a: seq<string>, b: seq<string>)
    ensures Scan(st, a + b) == Scan(Scan(st, a), b)
    decreases |a|
  {
    if |a| > 0 {
      assert (a + b)[0] == a[0];
      assert (a + b)[1..] == a[1..] + b;
      ScanAppend(Step(st, a[0]), a[1..], b);
      assert Scan(st, a + b) == Scan(Step(st, a[0]), a[1..] + b);
      assert Scan(st, a) == Scan(Step(st, a[0]), a[1..]);
    } else {
      assert a + b == b;
    }
  }

  lemma ScanCons(st: BoxState, ls: seq<string>)
    requires |ls| > 0
    ensures Scan(st, ls) == Scan(Step(st, ls[0]), ls[1..])
  {
  }

  // ---------------------------------------------------------------------------
  // What may enter the stem

  /** A line the stem buffer may hold: never a header, topic, option, vote,
      community, answer or separator line. */
  predicate StemLine(l: string) {
    && l != ""
    && !IsHeaderLine(l) && !IsTopicLine(l) && !IsSeparatorLine(l)
    && !(IsOptionLine(l) && !IsVoteLine(l)) && !IsVoteLine(l)
    && !IsCommunityLine(l) && !IsAnswerLine(l)
  }

  lemma StepStemLines(st: BoxState, l: string)
    requires l != ""
    ensures var st' := Step(st, l);
      st'.stemLines == st.stemLines || (st'.stemLines == st.stemLines + [l] && StemLine(l))
  {
    if IsTableTokenLine(l) {
      TableTokenLineIsNothingElse(l);
    }
  }

  /** Every line in the stem buffer at the end was already there or is one of
      the scanned lines that may enter the stem. */
  lemma {:induction false} ScanStemLines(st: BoxState, ls: seq<string>)
    requires forall k | 0 <= k < |ls| :: ls[k] != ""
    ensures forall k | 0 <= k < |Scan(st, ls).stemLines| ::
      (k < |st.stemLines| && Scan(st, ls).stemLines[k] == st.stemLines[k])
      || (Scan(st, ls).stemLines[k] in ls && StemLine(Scan(st, ls).stemLines[k]))
    decreases |ls|
  {
    if |ls| > 0 {
      var st1 := Step(st, ls[0]);
      StepStemLines(st, ls[0]);
      ScanStemLines(st1, ls[1..]);
      var r := Scan(st, ls).stemLines;
      forall k | 0 <= k < |r| ensures
        (k < |st.stemLines| && r[k] == st.stemLines[k]) || (r[k] in ls && StemLine(r[k]))
      {
        if k < |st1.stemLines| && r[k] == st1.stemLines[k] {
          if k >= |st.stemLines| {
            assert r[k] == ls[0];
          }
        } else {
          assert r[k] in ls[1..];
        }
      }
    }
  }

  /** Headers (`^Question #n`, `^Topic n`), separator rules, options, votes,
      community and answer lines never enter the stem of a block. */
  lemma StemOnlyFromStemLines(block: string)
    ensures forall x | x in Scan(Start, Lines(block)).stemLines :: x in Lines(block) && StemLine(x)
  {
    var ls := Lines(block);
    ScanStemLines(Start, ls);
    var r := Scan(Start, ls).stemLines;
    forall x | x in r ensures x in ls && StemLine(x) {
      var k :| 0 <= k < |r| && r[k] == x;
    }
  }

  // ---------------------------------------------------------------------------
  // The stem is fixed by the first option

  /** After an option has been recorded the parser no longer collects stem
      lines; this holds from the start on. */
  predicate Settled(st: BoxState) { |st.options| > 0 ==> !st.collectingQuestion }

  lemma StepSettled(st: BoxState, l: string)
    requires Settled(st)
    ensures Settled(Step(st, l))
    ensures |st.options| > 0 ==> |Step(st, l).options| > 0 && FinalStem(Step(st, l)) == FinalStem(st)
  {
    StepOptions(st, l);
    if |st.options| > 0 {
      StepKeepsStem(st, l);
    }
  }

  /** Once settled, a line either leaves the stem fields alone or (an option
      line) stores the stem it would finalise to. */
  lemma StepKeepsStem(st: BoxState, l: string)
    requires Settled(st) && |st.options| > 0
    ensures !Step(st, l).collectingQuestion
    ensures FinalStem(Step(st, l)) == FinalStem(st)
  {
    var r := Step(st, l);
    StepStemFields(st, l);
    if r.stem != st.stem {
      FinalStemAgain(st, r);
    }
  }

  lemma StepStemFields(st: BoxState, l: string)
    requires Settled(st) && |st.options| > 0
    ensures Step(st, l).stemLines == st.stemLines && !Step(st, l).collectingQuestion
    ensures Step(st, l).stem == st.stem || Step(st, l).stem == FinalStem(st)
  {
  }

  /** Finalising an already finalised stem changes nothing. */
  lemma FinalStemAgain(st: BoxState, r: BoxState)
    requires r.stemLines == st.stemLines && r.stem == FinalStem(st)
    ensures FinalStem(r) == FinalStem(st)
  {
  }

  lemma {:induction false} ScanSettled(st: BoxState, ls: seq<string>)
    requires Settled(st)
    ensures Settled(Scan(st, ls))
    ensures |st.options| > 0 ==> FinalStem(Scan(st, ls)) == FinalStem(st)
    decreases |ls|
  {
    if |ls| > 0 {
      StepSettled(st, ls[0]);
      ScanSettled(Step(st, ls[0]), ls[1..]);
    }
  }

  /** Once a non-empty option has been recorded, no later line changes the
      stem: it is the one settled when the first option was seen. */
  lemma StemFixedByFirstOption(ls: seq<string>, n: nat)
    requires n <= |ls| && |Scan(Start, ls[..n]).options| > 0
    ensures FinalStem(Scan(Start, ls)) == FinalStem(Scan(Start, ls[..n]))
  {
    var pre, post := ls[..n], ls[n..];
    PrefixThenSuffix(ls, n);
    ScanSettled(Start, pre);
    ScanAppend(Start, pre, post);
    ScanSettled(Scan(Start, pre), post);
  }

  lemma PrefixThenSuffix(ls: seq<string>, n: nat)
    requires n <= |ls|
    ensures ls[..n] + ls[n..] == ls
  {
  }

  // ---------------------------------------------------------------------------
  // Options

  /** The option a single line adds: its text, when it is an option line
      but no vote line and the text is not empty. */
  function OptionOf(l: string): seq<string> {
    if IsOptionLine(l) && !IsVoteLine(l) && |OptionText(l)| > 0 then [OptionText(l)] else []
  }

  /** Reference definition: the options the lines add, in order. */
  function OptionTexts(ls: seq<string>): seq<string> {
    if |ls| == 0 then [] else OptionOf(ls[0]) + OptionTexts(ls[1..])
  }

  lemma StepOptions(st: BoxState, l: string)
    ensures Step(st, l).options == st.options + OptionOf(l)
  {
    if IsOptionLine(l) {
      OptionLineIsNoEarlierTest(l);
    }
  }

  /** Every option line that is not a vote line adds its non-empty text, in
      order; nothing else adds an option. */
  lemma {:induction false} ScanOptions(st: BoxState, ls: seq<string>)
    ensures Scan(st, ls).options == st.options + OptionTexts(ls)
    decreases |ls|
  {
    if |ls| > 0 {
      ScanOptions(Step(st, ls[0]), ls[1..]);
      StepOptions(st, ls[0]);
      ScanCons(st, ls);
    }
  }

  // ---------------------------------------------------------------------------
  // The answer index

  lemma StepAnswer(st: BoxState, l: string)
    ensures Step(st, l).answer == if IsAnswerLine(l) then BoxedAnswerIndex(l) else st.answer
  {
    if IsAnswerLine(l) {
      AnswerLineIsNothingElse(l);
    }
  }

  /** The last answer line decides the index (the letter after its colon);
      without one the index stays at its start value. */
  lemma {:induction false} ScanAnswer(st: BoxState, ls: seq<string>)
    ensures var k := LastAnswerLine(ls);
      Scan(st, ls).answer == if k == -1 then st.answer else BoxedAnswerIndex(ls[k])
    decreases |ls|
  {
    if |ls| > 0 {
      var n := |ls| - 1;
      ScanAppend(st, ls[..n], [ls[n]]);
      assert ls[..n] + [ls[n]] == ls;
      ScanAnswer(st, ls[..n]);
      StepAnswer(Scan(st, ls[..n]), ls[n]);
      assert Scan(Scan(st, ls[..n]), [ls[n]]) == Step(Scan(st, ls[..n]), ls[n]);
    }
  }

  /** The stored answer index is always one of 0..3, whatever the number of
      options. */
  lemma AnswerInRange(block: string, id: int)
    ensures ParseBoxedQuestion(block, id).Some? ==> 0 <= ParseBoxedQuestion(block, id).value.correctAnswer <= 3
  {
    ScanAnswer(Start, Lines(block));
  }

  // ---------------------------------------------------------------------------
  // Skipped lines and the default explanation

  /** Header, topic, community and vote lines change nothing at all. */
  lemma SkippedLinesChangeNothing(st: BoxState, l: string)
    requires IsHeaderLine(l) || IsTopicLine(l) || IsCommunityLine(l) || IsVoteLine(l)
    ensures Step(st, l) == st
  {
    if IsCommunityLine(l) { CommunityLineIsNothingElse(l); }
    if IsVoteLine(l) { VoteLineIsNoTableToken(l); }
  }

  /** Before any answer line the explanation buffer stays empty. */
  lemma {:induction false} NoAnswerNoExplanation(st: BoxState, ls: seq<string>)
    requires !st.collectingExplanation && st.explanation == ""
    requires LastAnswerLine(ls) == -1
    ensures !Scan(st, ls).collectingExplanation && Scan(st, ls).explanation == ""
    decreases |ls|
  {
    if |ls| > 0 {
      assert !IsAnswerLine(ls[0]);
      StepNoAnswer(st, ls[0]);
      NoAnswerInTail(ls);
      NoAnswerNoExplanation(Step(st, ls[0]), ls[1..]);
      ScanCons(st, ls);
    }
  }

  /** A line that is no answer line does not start the explanation. */
  lemma StepNoAnswer(st: BoxState, l: string)
    requires !st.collectingExplanation && st.explanation == "" && !IsAnswerLine(l)
    ensures !Step(st, l).collectingExplanation && Step(st, l).explanation == ""
  {
  }

  /** A block without an answer line keeps the placeholder explanation. */
  lemma NoAnswerKeepsPlaceholder(block: string, id: int)
    requires LastAnswerLine(Lines(block)) == -1
    ensures ParseBoxedQuestion(block, id).Some? ==> ParseBoxedQuestion(block, id).value.explanation == Placeholder
  {
    NoAnswerNoExplanation(Start, Lines(block));
  }

  /** The lines that reach the explanation branch of `Step`: no header,
      topic, table-token, option, community, vote or answer line. */
  predicate ReachesExplanation(l: string) {
    && !IsHeaderLine(l) && !IsTopicLine(l) && !IsTableTokenLine(l) && !IsOptionLine(l)
    && !IsCommunityLine(l) && !IsVoteLine(l) && !IsAnswerLine(l)
  }

  /** The explanation `acc` grows into over `ls`: every line that reaches the
      explanation branch is folded in by `ExplainLine`, in order, and every
      other line is passed over. */
  function Explained(acc: string, ls: seq<string>): (r: string)
    ensures |acc| <= |r| && r[..|acc|] == acc
    decreases |ls|
  {
    if |ls| == 0 then acc
    else Explained(if ReachesExplanation(ls[0]) then ExplainLine(acc, ls[0], true) else acc, ls[1..])
  }

  /** Once collecting, a line that is no answer line keeps the collection on
      and folds into the explanation exactly when it reaches that branch. */
  lemma StepExplaining(st: BoxState, l: string)
    requires st.collectingExplanation && !IsAnswerLine(l)
    ensures Step(st, l).collectingExplanation
    ensures Step(st, l).explanation
      == if ReachesExplanation(l) then ExplainLine(st.explanation, l, true) else st.explanation
  {
  }

  /** Over lines without an answer line the collected explanation is the
      fold `Explained`. */
  lemma {:induction false} ScanExplaining(st: BoxState, ls: seq<string>)
    requires st.collectingExplanation && LastAnswerLine(ls) == -1
    ensures Scan(st, ls).explanation == Explained(st.explanation, ls)
    decreases |ls|
  {
    if |ls| > 0 {
      StepExplaining(st, ls[0]);
      NoAnswerInTail(ls);
      ScanExplaining(Step(st, ls[0]), ls[1..]);
      ScanCons(st, ls);
    }
  }

  /** The explanation is decided from the last answer line on: its seed (or,
      with an empty seed, what was collected before it), followed by the
      lines after it that reach the explanation branch. */
  lemma ScanExplanation(st: BoxState, ls: seq<string>, k: nat)
    requires k < |ls| && k == LastAnswerLine(ls)
    ensures var seed := AnswerSeed(ls[k]);
      Scan(st, ls).explanation
        == Explained(if |seed| > 0 then seed else Scan(st, ls[..k]).explanation, ls[k + 1..])
  {
    PrefixThenSuffix(ls, k);
    ScanAppend(st, ls[..k], ls[k..]);
    ScanCons(Scan(st, ls[..k]), ls[k..]);
    AnswerLineIsNothingElse(ls[k]);
    AfterLastAnswer(ls, k);
    ScanExplaining(Step(Scan(st, ls[..k]), ls[k]), ls[k + 1..]);
  }

  /** A block with an answer line: the question's explanation is the
      trimmed `ScanExplanation` text, or the placeholder when that is empty. */
  lemma BoxedExplanation(block: string, id: int, k: nat)
    requires k < |Lines(block)| && k == LastAnswerLine(Lines(block))
    ensures var ls := Lines(block);
      var seed := AnswerSeed(ls[k]);
      var e := Explained(if |seed| > 0 then seed else Scan(Start, ls[..k]).explanation, ls[k + 1..]);
      ParseBoxedQuestion(block, id).Some? ==>
        ParseBoxedQuestion(block, id).value.explanation == if e != "" then Trim(e) else Placeholder
  {
    ScanExplanation(Start, Lines(block), k);
  }

  /** Unless the whole `: X` match happens to recur after the colon, the seed
      is all of the text after the colon. */
  lemma SeedIsAfterColon(l: string)
    requires IsAnswerLine(l)
    requires !Contains(AfterColon(l), AnswerMatch(l))
    ensures AnswerSeed(l) == AfterColon(l)
  {
    var a := AfterColon(l);
    assert a[0..] == a;
  }

  // ---------------------------------------------------------------------------
  // parsePdfToQuestions

  /** Parse every block, keeping those that yield a question with at least
      two options and numbering the kept ones consecutively from `id`. */
  function NumberBlocks(blocks: seq<string>, id: int): (r: seq<Question>)
    ensures |r| <= |blocks|
    ensures forall k | 0 <= k < |r| :: KeptAt(r[k], id + k)
    decreases |blocks|
  {
    if |blocks| == 0 then []
    else
      var q := ParseBoxedQuestion(blocks[0], id);
      if q.Some? && |q.value.options| >= 2 then
        var rest := NumberBlocks(blocks[1..], id + 1);
        KeptCons(q.value, rest, id);
        [q.value] + rest
      else NumberBlocks(blocks[1..], id)
  }

  /** A kept question: numbered `id`, with a stem and two options. */
  predicate KeptAt(q: Question, id: int) {
    q.id == id && q.stem != "" && |q.options| >= 2
  }

  lemma KeptCons(q: Question, rest: seq<Question>, id: int)
    requires KeptAt(q, id) && forall k | 0 <= k < |rest| :: KeptAt(rest[k], id + 1 + k)
    ensures forall k | 0 <= k < |[q] + rest| :: KeptAt(([q] + rest)[k], id + k)
  {
    forall k | 0 < k < |[q] + rest| ensures KeptAt(([q] + rest)[k], id + k) {
      assert ([q] + rest)[k] == rest[k - 1];
    }
  }

  /** Reference definition: the questions the blocks parse to (numbered 0),
      those with at least two options, in block order. */
  function Accepted(blocks: seq<string>): seq<Question>
    decreases |blocks|
  {
    if |blocks| == 0 then []
    else
      var q := ParseBoxedQuestion(blocks[0], 0);
      (if q.Some? && |q.value.options| >= 2 then [q.value] else []) + Accepted(blocks[1..])
  }

  /** The id passed to `parseBoxedQuestion` only numbers its result. */
  lemma BoxedIdOnlyNumbers(block: string, id: int)
    ensures ParseBoxedQuestion(block, id).Some? == ParseBoxedQuestion(block, 0).Some?
    ensures ParseBoxedQuestion(block, id).Some? ==>
      ParseBoxedQuestion(block, id).value == ParseBoxedQuestion(block, 0).value.(id := id)
  {
  }

  /** Numbering the blocks from `id` gives exactly the accepted parses, in
      block order, renumbered from `id`: no block is skipped or repeated. */
  lemma {:induction false} NumberBlocksAccepted(blocks: seq<string>, id: int)
    ensures NumberBlocks(blocks, id) == Renumber(Accepted(blocks), id)
    decreases |blocks|
  {
    if |blocks| > 0 {
      BoxedIdOnlyNumbers(blocks[0], id);
      NumberBlocksAccepted(blocks[1..], id + 1);
      NumberBlocksAccepted(blocks[1..], id);
      var q := ParseBoxedQuestion(blocks[0], 0);
      if q.Some? && |q.value.options| >= 2 {
        assert ([q.value] + Accepted(blocks[1..]))[1..] == Accepted(blocks[1..]);
      }
    }
  }

  /** `parsePdfToQuestions(text)`: the questions the extracted blocks parse
      to, in block order, numbered exactly 1..N. */
  function ParsePdfToQuestions(text: string): (r: seq<Question>)
    ensures r == Renumber(Accepted(ExtractBoxedQuestions(text)), 1)
    ensures forall k | 0 <= k < |r| :: r[k].id == k + 1 && r[k].stem != "" && |r[k].options| >= 2
  {
    NumberBlocksAccepted(ExtractBoxedQuestions(text), 1);
    NumberBlocks(ExtractBoxedQuestions(text), 1)
  }
}
