/** The copy of `parseBoxedQuestion` kept in server/test-parser.js: the
    server's boxed scan without the table-token test, without the
    explanation seed taken from the answer line, without "Tham khảo" labels,
    and with a stem that is trimmed but not cleaned. */
module TestParser {
  import opened Text
  import opened Patterns
  import opened Bank
  import opened Boxed

  /** The copy's scan state. `stem` is only ever set at an option line. */
  datatype CopyState = CopyState(
    stemLines: seq<string>,
    collectingQuestion: bool,
    collectingExplanation: bool,
    explanation: string,
    stem: string,
    options: seq<string>,
    answer: int)

  const CopyStart: CopyState := CopyState([], true, false, "", "", [], 0)

  /** An option line the copy records (vote lines such as "A (100%)" are not). */
  predicate OptionStep(l: string) { IsOptionLine(l) && !IsVoteLine(l) }

  /** One line of the copied `parseBoxedQuestion`, tests in its order. */
  function CopyStep(st: CopyState, l: string): CopyState {
    if IsHeaderLine(l) || IsTopicLine(l) then st
    else if OptionStep(l) then
      var o := OptionText(l);
      var q := JoinSp(st.stemLines);
      st.(collectingQuestion := false,
          stem := if q != "" && st.stem == "" then Trim(q) else st.stem,
          options := if |o| > 0 then st.options + [o] else st.options)
    else if IsAnswerLine(l) then
      st.(answer := BoxedAnswerIndex(l), collectingExplanation := true)
    else if IsCommunityLine(l) || IsVoteLine(l) then st
    else if st.collectingExplanation && |l| > 0 then
      st.(explanation := SpaceJoin(st.explanation, l))
    else if st.collectingQuestion && |l| > 0 && !IsSeparatorLine(l) then
      st.(stemLines := st.stemLines + [l])
    else st
  }

  function CopyScan(st: CopyState, ls: seq<string>): CopyState
    decreases |ls|
  {
    if |ls| == 0 then st else CopyScan(CopyStep(st, ls[0]), ls[1..])
  }

  /** The question the copy returns, or `None` (its `null`) unless a stem
      was set and there are at least two options. */
  function CopyFinish(st: CopyState, id: int): (r: Option<Question>)
    ensures r.Some? <==> st.stem != "" && |st.options| >= 2
  {
    var explanation := if st.explanation != "" then Trim(st.explanation) else Placeholder;
    if st.stem != "" && |st.options| >= 2 then Some(Question(id, st.stem, st.options, st.answer, explanation))
    else None
  }

  /** The copied `parseBoxedQuestion` on the block's trimmed, non-empty lines. */
  function ParseCopyLines(ls: seq<string>, id: int): Option<Question> {
    CopyFinish(CopyScan(CopyStart, ls), id)
  }

  /** The copied `parseBoxedQuestion(block, questionId)`. */
  function ParseBoxedQuestionCopy(block: string, id: int): Option<Question> {
    ParseCopyLines(Lines(block), id)
  }

  // ---------------------------------------------------------------------------
  // Reference definitions

  /** A line the copy adds to the explanation once an answer line was seen. */
  predicate PlainLine(l: string) {
    && l != ""
    && !IsHeaderLine(l) && !IsTopicLine(l) && !OptionStep(l) && !IsAnswerLine(l)
    && !IsCommunityLine(l) && !IsVoteLine(l)
  }

  function PlainLines(ls: seq<string>): seq<string> {
    if |ls| == 0 then [] else (if PlainLine(ls[0]) then [ls[0]] else []) + PlainLines(ls[1..])
  }

  function StemLines(ls: seq<string>): seq<string> {
    if |ls| == 0 then [] else (if StemLine(ls[0]) then [ls[0]] else []) + StemLines(ls[1..])
  }

  /** The index of the first recorded option line, or `|ls|`. */
  function FirstOption(ls: seq<string>): (n: nat)
    ensures n <= |ls|
    ensures n < |ls| ==> OptionStep(ls[n])
    ensures forall k | 0 <= k < n :: !OptionStep(ls[k])
  {
    if |ls| == 0 then 0 else if OptionStep(ls[0]) then 0 else 1 + FirstOption(ls[1..])
  }

  /** The index of the first answer line, or `|ls|`. */
  function FirstAnswer(ls: seq<string>): (n: nat)
    ensures n <= |ls|
    ensures n < |ls| ==> IsAnswerLine(ls[n])
    ensures forall k | 0 <= k < n :: !IsAnswerLine(ls[k])
  {
    if |ls| == 0 then 0 else if IsAnswerLine(ls[0]) then 0 else 1 + FirstAnswer(ls[1..])
  }

  /** The lines that can reach the stem: those before both the first option
      and the first answer line. */
  function StemWindow(ls: seq<string>): (n: nat)
    ensures n <= |ls|
  {
    if FirstAnswer(ls) < FirstOption(ls) then FirstAnswer(ls) else FirstOption(ls)
  }

  predicate NoEmptyLine(ls: seq<string>) { forall k | 0 <= k < |ls| :: ls[k] != "" }

  // ---------------------------------------------------------------------------
  // Options and the answer

  lemma CopyStepOptions(st: CopyState, l: string)
    ensures CopyStep(st, l).options == st.options + OptionOf(l)
  {
    if IsOptionLine(l) {
      OptionLineIsNoEarlierTest(l);
    }
  }

  /** Every option line that is not a vote line adds its non-empty text, in
      order; nothing else adds an option. */
  lemma CopyScanCons(st: CopyState, ls: seq<string>)
    requires |ls| > 0
    ensures CopyScan(st, ls) == CopyScan(CopyStep(st, ls[0]), ls[1..])
  {
  }

  lemma {:induction false} CopyScanOptions(st: CopyState, ls: seq<string>)
    ensures CopyScan(st, ls).options == st.options + OptionTexts(ls)
    decreases |ls|
  {
    if |ls| > 0 {
      CopyScanOptions(CopyStep(st, ls[0]), ls[1..]);
      CopyStepOptions(st, ls[0]);
      CopyScanCons(st, ls);
    }
  }

  lemma {:induction false} CopyScanAppend(st: CopyState, a: seq<string>, b: seq<string>)
    ensures CopyScan(st, a + b) == CopyScan(CopyScan(st, a), b)
    decreases |a|
  {
    if |a| > 0 {
      assert (a + b)[0] == a[0];
      assert (a + b)[1..] == a[1..] + b;
      CopyScanAppend(CopyStep(st, a[0]), a[1..], b);
    } else {
      assert a + b == b;
    }
  }

  lemma CopyStepAnswer(st: CopyState, l: string)
    ensures CopyStep(st, l).answer == if IsAnswerLine(l) then BoxedAnswerIndex(l) else st.answer
  {
    if IsAnswerLine(l) {
      AnswerLineIsNothingElse(l);
    }
  }

  /** The last answer line decides the index, from the letter after its
      colon; without one the index keeps its start value. */
  lemma {:induction false} CopyScanAnswer(st: CopyState, ls: seq<string>)
    ensures var k := LastAnswerLine(ls);
      CopyScan(st, ls).answer == if k == -1 then st.answer else BoxedAnswerIndex(ls[k])
    decreases |ls|
  {
    if |ls| > 0 {
      var n := |ls| - 1;
      CopyScanAppend(st, ls[..n], [ls[n]]);
      assert ls[..n] + [ls[n]] == ls;
      CopyScanAnswer(st, ls[..n]);
      CopyStepAnswer(CopyScan(st, ls[..n]), ls[n]);
      assert CopyScan(CopyScan(st, ls[..n]), [ls[n]]) == CopyStep(CopyScan(st, ls[..n]), ls[n]);
    }
  }

  // ---------------------------------------------------------------------------
  // The explanation

  /** Once an answer line was seen, each line the copy keeps is appended with
      a space. */
  lemma CopyStepExplaining(st: CopyState, l: string, e: seq<string>)
    requires st.collectingExplanation && l != "" && NoEmptyLine(e) && st.explanation == JoinSp(e)
    ensures CopyStep(st, l).collectingExplanation
    ensures CopyStep(st, l).explanation == JoinSp(e + (if PlainLine(l) then [l] else []))
  {
    if PlainLine(l) {
      SpaceJoinIsJoin(e, l);
    } else {
      assert e + [] == e;
      if IsOptionLine(l) {
        OptionLineIsNoEarlierTest(l);
      }
    }
  }

  lemma {:induction false} PlainLinesCons(e: seq<string>, ls: seq<string>)
    requires |ls| > 0
    ensures e + (if PlainLine(ls[0]) then [ls[0]] else []) + PlainLines(ls[1..]) == e + PlainLines(ls)
  {
  }

  /** One step of `CopyScanExplaining`, with the scan unrolled once. */
  lemma CopyScanExplainingStep(st: CopyState, ls: seq<string>, e: seq<string>)
    requires |ls| > 0 && ls[0] != ""
    requires st.collectingExplanation && NoEmptyLine(e) && st.explanation == JoinSp(e)
    ensures var e' := e + (if PlainLine(ls[0]) then [ls[0]] else []);
      var st' := CopyStep(st, ls[0]);
      && CopyScan(st, ls) == CopyScan(st', ls[1..])
      && st'.collectingExplanation && st'.explanation == JoinSp(e') && NoEmptyLine(e')
  {
    CopyStepExplaining(st, ls[0], e);
  }

  lemma {:induction false} CopyScanExplaining(st: CopyState, ls: seq<string>, e: seq<string>)
    requires st.collectingExplanation && NoEmptyLine(ls) && NoEmptyLine(e) && st.explanation == JoinSp(e)
    ensures CopyScan(st, ls).explanation == JoinSp(e + PlainLines(ls))
    decreases |ls|
  {
    if |ls| > 0 {
      var e' := e + (if PlainLine(ls[0]) then [ls[0]] else []);
      CopyScanExplainingStep(st, ls, e);
      CopyScanExplaining(CopyStep(st, ls[0]), ls[1..], e');
      PlainLinesCons(e, ls);
    } else {
      assert e + PlainLines(ls) == e;
    }
  }

  /** Before the first answer line nothing enters the explanation. */
  lemma CopyStepWaiting(st: CopyState, l: string)
    requires !st.collectingExplanation && st.explanation == ""
    ensures CopyStep(st, l).explanation == ""
    ensures CopyStep(st, l).collectingExplanation <==> IsAnswerLine(l)
  {
    if IsAnswerLine(l) {
      AnswerLineIsNothingElse(l);
    }
  }

  /** The explanation is the space join of the kept lines after the first
      answer line, and stays empty without one. */
  lemma {:induction false} CopyScanExplanation(st: CopyState, ls: seq<string>)
    requires !st.collectingExplanation && st.explanation == "" && NoEmptyLine(ls)
    ensures var a := FirstAnswer(ls);
      CopyScan(st, ls).explanation == if a < |ls| then JoinSp(PlainLines(ls[a + 1..])) else ""
    decreases |ls|
  {
    if |ls| > 0 {
      var l := ls[0];
      var st' := CopyStep(st, l);
      CopyStepWaiting(st, l);
      if IsAnswerLine(l) {
        assert JoinSp([]) == "";
        CopyScanExplaining(st', ls[1..], []);
        assert [] + PlainLines(ls[1..]) == PlainLines(ls[1..]);
      } else {
        CopyScanExplanation(st', ls[1..]);
        var a := FirstAnswer(ls[1..]);
        assert FirstAnswer(ls) == a + 1;
        if a < |ls| - 1 {
          assert ls[1..][a + 1..] == ls[a + 2..];
        }
      }
      CopyScanCons(st, ls);
    }
  }

  // ---------------------------------------------------------------------------
  // The stem

  /** After the first option line the stem stays as it was set. */
  predicate StemSet(st: CopyState) {
    !st.collectingQuestion && st.stem == Trim(JoinSp(st.stemLines))
  }

  lemma TrimEmpty()
    ensures Trim("") == ""
  {
  }

  lemma CopyStepSettled(st: CopyState, l: string)
    requires StemSet(st)
    ensures StemSet(CopyStep(st, l)) && CopyStep(st, l).stem == st.stem
  {
    TrimEmpty();
  }

  lemma {:induction false} CopyScanSettled(st: CopyState, ls: seq<string>)
    requires StemSet(st)
    ensures CopyScan(st, ls).stem == st.stem
    decreases |ls|
  {
    if |ls| > 0 {
      CopyStepSettled(st, ls[0]);
      CopyScanSettled(CopyStep(st, ls[0]), ls[1..]);
    }
  }

  /** Before the first option line the stem is unset. */
  predicate Collecting(st: CopyState) { st.collectingQuestion && st.stem == "" }

  /** The stem a scan ends with, by the reference definitions, from a stem
      buffer `buf` and a flag saying whether an answer line was seen. */
  function ExpectedStem(buf: seq<string>, explaining: bool, ls: seq<string>): string {
    if FirstOption(ls) < |ls| then
      Trim(JoinSp(buf + (if explaining then [] else StemLines(ls[..StemWindow(ls)]))))
    else ""
  }

  /** An option line fixes the stem to the trimmed buffer. */
  lemma {:induction false} OptionFixesStem(st: CopyState, l: string, ls: seq<string>)
    requires Collecting(st) && OptionStep(l) && |ls| > 0 && ls[0] == l
    ensures StemSet(CopyStep(st, l))
    ensures CopyStep(st, l).stem == ExpectedStem(st.stemLines, st.collectingExplanation, ls)
  {
    OptionLineIsNoEarlierTest(l);
    TrimEmpty();
    assert FirstOption(ls) == 0;
    assert ls[..0] == [];
    assert st.stemLines + [] == st.stemLines;
  }

  /** An answer line closes the stem window. */
  lemma {:induction false} AnswerWindow(buf: seq<string>, explaining: bool, ls: seq<string>)
    requires |ls| > 0 && IsAnswerLine(ls[0]) && !OptionStep(ls[0])
    ensures ExpectedStem(buf, true, ls[1..]) == ExpectedStem(buf, explaining, ls)
  {
    assert FirstOption(ls) == 1 + FirstOption(ls[1..]);
    assert FirstAnswer(ls) == 0;
    assert StemWindow(ls) == 0;
    assert ls[..0] == [];
    assert buf + [] == buf;
  }

  /** An answer line stops stem collection for good. */
  lemma AnswerStopsStem(st: CopyState, l: string)
    requires Collecting(st) && IsAnswerLine(l)
    ensures Collecting(CopyStep(st, l)) && CopyStep(st, l).collectingExplanation
    ensures CopyStep(st, l).stemLines == st.stemLines
    ensures !OptionStep(l)
  {
    AnswerLineIsNothingElse(l);
  }

  /** A line that is neither an option nor an answer line moves the window
      of `ls`, from `w` down to `w1`, by one, and is in it. */
  lemma WindowShift(l: string, ls: seq<string>, w: nat, w1: nat)
    requires !OptionStep(l) && !IsAnswerLine(l) && |ls| > 0 && ls[0] == l
    requires w == StemWindow(ls) && w1 == StemWindow(ls[1..])
    ensures FirstOption(ls) < |ls| <==> FirstOption(ls[1..]) < |ls| - 1
    ensures 0 < w <= |ls| && w1 == w - 1
    ensures StemLines(ls[..w]) == (if StemLine(l) then [l] else []) + StemLines(ls[1..][..w1])
  {
    WindowIndices(l, ls);
    StemLinesPrefix(ls, w, w1, l);
  }

  /** Past a line that is neither an option nor an answer, the first option,
      the first answer and the window all move up by one. */
  lemma WindowIndices(l: string, ls: seq<string>)
    requires !OptionStep(l) && !IsAnswerLine(l) && |ls| > 0 && ls[0] == l
    ensures FirstOption(ls) == 1 + FirstOption(ls[1..])
    ensures FirstAnswer(ls) == 1 + FirstAnswer(ls[1..])
    ensures StemWindow(ls) == 1 + StemWindow(ls[1..])
  {
  }

  /** The stem lines of a non-empty prefix: its first line, if a stem line,
      then those of the rest. */
  lemma StemLinesPrefix(ls: seq<string>, w: nat, w1: nat, h: string)
    requires 0 < w <= |ls| && w1 == w - 1 && h == ls[0]
    ensures StemLines(ls[..w]) == (if StemLine(h) then [h] else []) + StemLines(ls[1..][..w1])
  {
    assert ls[..w][0] == h;
    assert ls[..w][1..] == ls[1..][..w1];
  }

  /** Such a line enters the stem buffer exactly when it may and the copy is
      not yet collecting the explanation. */
  lemma StepStemBuffer(st: CopyState, l: string)
    requires Collecting(st) && l != "" && !OptionStep(l) && !IsAnswerLine(l)
    ensures Collecting(CopyStep(st, l))
    ensures CopyStep(st, l).collectingExplanation == st.collectingExplanation
    ensures CopyStep(st, l).stemLines
      == st.stemLines + (if !st.collectingExplanation && StemLine(l) then [l] else [])
  {
    if IsOptionLine(l) {
      OptionLineIsNoEarlierTest(l);
    }
    if !(!st.collectingExplanation && StemLine(l)) {
      assert st.stemLines + [] == st.stemLines;
    }
  }

  /** Moving a line that is neither an option nor an answer line from the
      window into the buffer leaves the expected stem as it was. */
  lemma {:induction false} OtherLineShiftsStem(buf: seq<string>, explaining: bool, l: string, ls: seq<string>)
    requires !OptionStep(l) && !IsAnswerLine(l) && |ls| > 0 && ls[0] == l
    ensures var buf' := buf + (if !explaining && StemLine(l) then [l] else []);
      ExpectedStem(buf', explaining, ls[1..]) == ExpectedStem(buf, explaining, ls)
  {
    WindowShift(l, ls, StemWindow(ls), StemWindow(ls[1..]));
    var add := if StemLine(l) then [l] else [];
    if !explaining {
      var tail := StemLines(ls[1..][..StemWindow(ls[1..])]);
      assert buf + add + tail == buf + (add + tail);
    } else {
      assert buf + [] == buf;
    }
  }

  lemma {:induction false} CopyScanStem(st: CopyState, ls: seq<string>)
    requires Collecting(st) && NoEmptyLine(ls)
    ensures CopyScan(st, ls).stem == ExpectedStem(st.stemLines, st.collectingExplanation, ls)
    decreases |ls|
  {
    if |ls| > 0 {
      var l := ls[0];
      if OptionStep(l) {
        OptionFixesStem(st, l, ls);
        CopyScanSettled(CopyStep(st, l), ls[1..]);
      } else if IsAnswerLine(l) {
        AnswerStopsStem(st, l);
        AnswerWindow(st.stemLines, st.collectingExplanation, ls);
        CopyScanStem(CopyStep(st, l), ls[1..]);
      } else {
        StepStemBuffer(st, l);
        OtherLineShiftsStem(st.stemLines, st.collectingExplanation, l, ls);
        CopyScanStem(CopyStep(st, l), ls[1..]);
      }
    }
  }

  // ---------------------------------------------------------------------------
  // The whole copy

  /** The copy returns a question exactly when some option line comes with
      stem lines before it (and before any answer line) and at least two
      options are recorded. Its stem is the trimmed join of those stem lines,
      its options the texts of the option lines, its answer index the letter
      after the colon of the last answer line (0 without one), and its
      explanation the space join of the kept lines after the first answer
      line, trimmed (the placeholder when there are none). */
  lemma CopyParse(ls: seq<string>, id: int)
    requires NoEmptyLine(ls)
    ensures var r := ParseCopyLines(ls, id);
      var stem := if FirstOption(ls) < |ls| then Trim(JoinSp(StemLines(ls[..StemWindow(ls)]))) else "";
      var a := FirstAnswer(ls);
      var e := if a < |ls| then JoinSp(PlainLines(ls[a + 1..])) else "";
      var k := LastAnswerLine(ls);
      && (r.Some? <==> stem != "" && |OptionTexts(ls)| >= 2)
      && (r.Some? ==>
            && r.value.id == id
            && r.value.stem == stem
            && r.value.options == OptionTexts(ls)
            && r.value.correctAnswer == (if k == -1 then 0 else BoxedAnswerIndex(ls[k]))
            && r.value.explanation == (if e != "" then Trim(e) else Placeholder))
  {
    var st := CopyScan(CopyStart, ls);
    CopyScanOptions(CopyStart, ls);
    CopyScanAnswer(CopyStart, ls);
    CopyScanExplanation(CopyStart, ls);
    CopyScanStem(CopyStart, ls);
    assert [] + OptionTexts(ls) == OptionTexts(ls);
    if FirstOption(ls) < |ls| {
      assert [] + StemLines(ls[..StemWindow(ls)]) == StemLines(ls[..StemWindow(ls)]);
    }
  }

  /** A block whose lines hold no option line yields no question. */
  lemma NoOptionNoQuestion(block: string, id: int)
    requires forall k | 0 <= k < |Lines(block)| :: !OptionStep(Lines(block)[k])
    ensures ParseBoxedQuestionCopy(block, id).None?
  {
    var ls := Lines(block);
    CopyScanStem(CopyStart, ls);
  }
}
