/** `parseTableFormat` and `parseTableSection` of server/index.js: the last
    fallback parser. The text is cut at blank lines into sections; a section
    that looks like a question is parsed line by line. */
module Table {
  import opened Text
  import opened Patterns
  import opened Normalize
  import opened Bank
  import opened Simple

  // ---------------------------------------------------------------------------
  // split(/\n\s*\n/)

  /** The last line feed in `s[a..b]`, or -1. */
  function LastNewline(s: string, a: nat, b: nat): (k: int)
    requires a <= b <= |s|
    ensures k == -1 || (a <= k < b && s[k] == '\n')
    ensures forall j | a <= j < b && (k == -1 || k < j) :: s[j] != '\n'
    decreases b - a
  {
    if a == b then -1
    else if s[b - 1] == '\n' then b - 1
    else LastNewline(s, a, b - 1)
  }

  /** `/\n\s*\n/` matches at `i`: a line feed, and another one inside the
      whitespace run after it. */
  predicate BlankAt(s: string, i: nat) {
    i < |s| && s[i] == '\n' && LastNewline(s, i + 1, WsEnd(s, i + 1)) >= 0
  }

  /** Where the match at `i` ends: `\s*` is greedy, so it backs off only to
      the last line feed of the whitespace run. */
  function BlankEnd(s: string, i: nat): (e: nat)
    requires BlankAt(s, i)
    ensures i + 2 <= e <= |s| && s[e - 1] == '\n'
    ensures AllWs(s[i..e])
  {
    var e := LastNewline(s, i + 1, WsEnd(s, i + 1)) + 1;
    assert forall k | i <= k < e :: IsWs(s[k]);
    e
  }

  /** A separator the split consumed: whitespace from one line feed to
      another. */
  predicate IsBlankGap(g: string) {
    |g| >= 2 && g[0] == '\n' && g[|g| - 1] == '\n' && AllWs(g)
  }

  /** A piece never holds a blank line: no two line feeds with only
      whitespace between them. */
  predicate NoBlankLine(p: string) {
    forall k, m | 0 <= k < m < |p| && p[k] == '\n' && p[m] == '\n' :: !AllWs(p[k..m])
  }

  /** One piece of the split and the separator after it ("" for the last). */
  datatype Cut = Cut(piece: string, gap: string)

  function Flatten(cs: seq<Cut>): string {
    if |cs| == 0 then "" else cs[0].piece + cs[0].gap + Flatten(cs[1..])
  }

  /** `r` cuts `s[start..]`: glued back it is that text, every separator but
      the last (which is empty) is blank, and no piece holds a blank line. */
  predicate CutsOf(s: string, start: nat, r: seq<Cut>)
    requires start <= |s|
  {
    && |r| >= 1 && r[|r| - 1].gap == "" && Flatten(r) == s[start..]
    && (forall k | 0 <= k < |r| - 1 :: IsBlankGap(r[k].gap))
    && (forall k | 0 <= k < |r| :: NoBlankLine(r[k].piece))
  }

  /** Cut `s[start..]`, the current piece having started at `start` and the
      search having reached `i`. */
  function SplitBlankFrom(s: string, start: nat, i: nat): (r: seq<Cut>)
    requires start <= i <= |s|
    requires forall k | start <= k < i :: !BlankAt(s, k)
    ensures CutsOf(s, start, r)
    decreases |s| - i
  {
    if i == |s| then
      PieceHasNoBlankLine(s, start, i);
      assert s[start..] == s[start..i];
      [Cut(s[start..], "")]
    else if BlankAt(s, i) then
      var e := BlankEnd(s, i);
      PieceHasNoBlankLine(s, start, i);
      var rest := SplitBlankFrom(s, e, e);
      ConsCut(s, start, i, e, rest);
      [Cut(s[start..i], s[i..e])] + rest
    else SplitBlankFrom(s, start, i + 1)
  }

  lemma ConsCut(s: string, start: nat, i: nat, e: nat, rest: seq<Cut>)
    requires start <= i < e <= |s| && BlankAt(s, i) && e == BlankEnd(s, i)
    requires NoBlankLine(s[start..i])
    requires CutsOf(s, e, rest)
    ensures CutsOf(s, start, [Cut(s[start..i], s[i..e])] + rest)
  {
    var r := [Cut(s[start..i], s[i..e])] + rest;
    assert r[1..] == rest;
    assert s[start..] == s[start..i] + s[i..e] + s[e..];
    assert IsBlankGap(s[i..e]);
  }

  lemma PieceHasNoBlankLine(s: string, start: nat, i: nat)
    requires start <= i <= |s|
    requires forall k | start <= k < i :: !BlankAt(s, k)
    ensures NoBlankLine(s[start..i])
  {
    var p := s[start..i];
    forall k, m | 0 <= k < m < |p| && p[k] == '\n' && p[m] == '\n' ensures !AllWs(p[k..m]) {
      BlankLineIsBlankAt(s, start, i, k, m);
    }
  }

  /** A blank line inside `s[start..i]` is a match of the separator. */
  lemma BlankLineIsBlankAt(s: string, start: nat, i: nat, k: nat, m: nat)
    requires start <= i <= |s| && k < m < i - start
    requires s[start + k] == '\n' && s[start + m] == '\n'
    ensures AllWs(s[start..i][k..m]) ==> BlankAt(s, start + k)
  {
    var p := s[start..i];
    var a := start + k;
    if AllWs(p[k..m]) {
      forall j | a + 1 <= j < start + m ensures IsWs(s[j]) {
        assert p[k..m][j - a] == s[j];
      }
      WsEndPast(s, a + 1, start + m);
    }
  }

  /** A whitespace run from `a` that covers `m` ends after it. */
  lemma {:induction false} WsEndPast(s: string, a: nat, m: nat)
    requires a <= m < |s| && IsWs(s[m])
    requires forall j | a <= j < m :: IsWs(s[j])
    ensures WsEnd(s, a) > m
    decreases m - a
  {
    if a < m {
      WsEndPast(s, a + 1, m);
    }
  }

  /** `text.split(/\n\s*\n/)`, with the separators kept alongside. */
  function SplitBlank(s: string): (r: seq<Cut>)
    ensures |r| >= 1 && Flatten(r) == s
    ensures forall k | 0 <= k < |r| - 1 :: IsBlankGap(r[k].gap)
    ensures forall k | 0 <= k < |r| :: NoBlankLine(r[k].piece)
  {
    SplitBlankFrom(s, 0, 0)
  }

  /** `.filter(section => section.trim().length > 0)` on the pieces. */
  function Sections(cs: seq<Cut>): (r: seq<string>)
    ensures forall k | 0 <= k < |r| :: Trim(r[k]) != "" && NoBlankLine(r[k])
    requires forall k | 0 <= k < |cs| :: NoBlankLine(cs[k].piece)
  {
    if |cs| == 0 then []
    else if Trim(cs[0].piece) != "" then [cs[0].piece] + Sections(cs[1..])
    else Sections(cs[1..])
  }

  // ---------------------------------------------------------------------------
  // Does a section look like a question?

  /** `/Question\s*#?\d+/i` anywhere on the line, or a line longer than 50
      characters with a question mark in it. */
  predicate IsQuestionish(l: string) {
    (exists i | 0 <= i < |l| :: HeaderAt(l, i)) || (|l| > 50 && '?' in l)
  }

  /** `/Correct\s*Answer/i` anywhere on the line. */
  predicate MentionsAnswer(l: string) {
    exists i | 0 <= i < |l| :: AtCI(l, i, "correct") && AtCI(l, WsEnd(l, i + 7), "answer")
  }

  /** `questionStart >= 0 && hasOptions && hasCorrectAnswer`. */
  predicate IsCandidate(ls: seq<string>) {
    && (exists k | 0 <= k < |ls| :: IsQuestionish(ls[k]))
    && (exists k | 0 <= k < |ls| :: IsOptionLine(ls[k]))
    && (exists k | 0 <= k < |ls| :: MentionsAnswer(ls[k]))
  }

  // ---------------------------------------------------------------------------
  // parseTableSection

  /** The scan state: `questionText`, `explanationText`,
      `collectingExplanation`, the options and the index. */
  datatype TableState = TableState(
    stemText: string,
    explanation: string,
    collecting: bool,
    options: seq<string>,
    answer: int)

  const TableStart: TableState := TableState("", "", false, [], 0)

  /** The letter an answer line is read by: as written, `line.match(/[A-D]/i)`
      (the C of "Correct"); intended, the letter after the colon. */
  function TableLetter(l: string, rule: LetterRule): (c: char)
    requires IsAnswerLine(l)
    ensures IsLetterAD(c)
    ensures rule == FirstLetter ==> c == l[0]
    ensures rule == ColonLetter ==> c == ColonLetterOf(l)
  {
    match rule
    case FirstLetter =>
      FirstLetterOfAnswerLine(l);
      l[FirstLetterAD(l)]
    case ColonLetter => ColonLetterOf(l)
  }

  /** The explanation seeded from the answer line: the trimmed text after
      the colon, cut after the first occurrence of the letter. */
  function TableSeed(l: string, rule: LetterRule): string
    requires IsAnswerLine(l)
  {
    var a := AfterColon(l);
    Trim(a[IndexOf(a, [TableLetter(l, rule)]) + 1..])
  }

  /** Read by the intended letter, the seed is the text after the letter:
      "Correct Answer: B because ..." seeds "because ...". */
  lemma IntendedSeedSkipsLetter(l: string)
    requires IsAnswerLine(l)
    ensures TableSeed(l, ColonLetter) == Trim(AfterColon(l)[1..])
  {
    var a := AfterColon(l);
    assert At(a, 0, [ColonLetterOf(l)]);
  }

  /** As written, when the misread letter (the line's first character) does
      not occur after the colon, nothing is cut and the seed starts with the
      answer letter: "Correct Answer: A because x" seeds "A because x". */
  lemma AsWrittenSeedKeepsLetter(l: string)
    requires IsAnswerLine(l) && l[0] !in AfterColon(l)
    ensures TableSeed(l, FirstLetter) == AfterColon(l)
    ensures TableSeed(l, FirstLetter)[0] == ColonLetterOf(l)
  {
    var a := AfterColon(l);
    assert !Contains(a, [l[0]]) by {
      forall i | 0 <= i <= |a| - 1 ensures !At(a, i, [l[0]]) {
        assert a[i] in a;
      }
    }
    assert a[0..] == a;
  }

  /** One line of `parseTableSection`, tests in the source's order. */
  function TableStep(st: TableState, l: string, rule: LetterRule): (r: TableState)
    requires 0 <= st.answer <= 3
    ensures 0 <= r.answer <= 3
  {
    if IsHeaderLine(l) || IsTopicLine(l) then st
    else if IsOptionLine(l) then
      var o := OptionText(l);
      if |o| > 0 then st.(options := st.options + [o]) else st
    else if IsAnswerLine(l) then
      var seed := TableSeed(l, rule);
      st.(answer := LetterIndex(TableLetter(l, rule)),
          collecting := true,
          explanation := if |seed| > 0 then seed else st.explanation)
    else if st.collecting then st.(explanation := ExplainLine(st.explanation, l, false))
    else if |st.options| == 0 && |l| > 0 then st.(stemText := SpaceJoin(st.stemText, l))
    else st
  }

  function TableScan(st: TableState, ls: seq<string>, rule: LetterRule): (r: TableState)
    requires 0 <= st.answer <= 3
    ensures 0 <= r.answer <= 3
    decreases |ls|
  {
    if |ls| == 0 then st else TableScan(TableStep(st, ls[0], rule), ls[1..], rule)
  }

  /** `parseTableSection(lines, questionId)`: the question, or `None` unless
      the cleaned stem is non-empty and there are two options. */
  function ParseTableSection(ls: seq<string>, id: int, rule: LetterRule): (r: Option<Question>)
    ensures r.Some? ==> Numbered(r.value, id)
  {
    var st := TableScan(TableStart, ls, rule);
    var stem := if st.stemText != "" then CleanQuestionText(st.stemText) else "";
    var explanation := if st.explanation != "" then Trim(st.explanation) else Placeholder;
    if stem != "" && |st.options| >= 2 then Some(Question(id, stem, st.options, st.answer, explanation))
    else None
  }

  // ---------------------------------------------------------------------------
  // parseTableFormat

  /** A kept question: numbered `id`, with a non-empty stem, two options
      and an index in 0..3. */
  predicate Numbered(q: Question, id: int) {
    q.id == id && q.stem != "" && |q.options| >= 2 && 0 <= q.correctAnswer <= 3
  }

  /** The number of candidate sections. */
  function CandidateCount(secs: seq<string>): (n: nat)
    ensures n <= |secs|
  {
    if |secs| == 0 then 0 else (if IsCandidate(Lines(secs[0])) then 1 else 0) + CandidateCount(secs[1..])
  }

  /** Parse the candidate sections, numbering the kept questions
      consecutively from `id`. */
  function NumberSections(secs: seq<string>, id: int, rule: LetterRule): (r: seq<Question>)
    ensures |r| <= CandidateCount(secs)
    ensures forall k | 0 <= k < |r| :: Numbered(r[k], id + k)
    decreases |secs|
  {
    if |secs| == 0 then []
    else
      var ls := Lines(secs[0]);
      var q := if IsCandidate(ls) then ParseTableSection(ls, id, rule) else None;
      if q.Some? then
        var rest := NumberSections(secs[1..], id + 1, rule);
        NumberedCons(q.value, rest, id);
        [q.value] + rest
      else NumberSections(secs[1..], id, rule)
  }

  lemma NumberedCons(q: Question, rest: seq<Question>, id: int)
    requires Numbered(q, id) && forall k | 0 <= k < |rest| :: Numbered(rest[k], id + 1 + k)
    ensures forall k | 0 <= k < |[q] + rest| :: Numbered(([q] + rest)[k], id + k)
  {
    forall k | 0 < k < |[q] + rest| ensures Numbered(([q] + rest)[k], id + k) {
      assert ([q] + rest)[k] == rest[k - 1];
    }
  }

  /** Reference definition: the questions the candidate sections parse to
      (numbered 0), in section order. */
  function TableAccepted(secs: seq<string>, rule: LetterRule): seq<Question>
    decreases |secs|
  {
    if |secs| == 0 then []
    else
      var ls := Lines(secs[0]);
      var q := if IsCandidate(ls) then ParseTableSection(ls, 0, rule) else None;
      (if q.Some? then [q.value] else []) + TableAccepted(secs[1..], rule)
  }

  /** The id passed to `parseTableSection` only numbers its result. */
  lemma SectionIdOnlyNumbers(ls: seq<string>, id: int, rule: LetterRule)
    ensures ParseTableSection(ls, id, rule).Some? == ParseTableSection(ls, 0, rule).Some?
    ensures ParseTableSection(ls, id, rule).Some? ==>
      ParseTableSection(ls, id, rule).value == ParseTableSection(ls, 0, rule).value.(id := id)
  {
  }

  /** Numbering the sections from `id` gives exactly the parses of the
      candidate sections, in section order, renumbered from `id`. */
  lemma {:induction false} NumberSectionsAccepted(secs: seq<string>, id: int, rule: LetterRule)
    ensures NumberSections(secs, id, rule) == Renumber(TableAccepted(secs, rule), id)
    decreases |secs|
  {
    if |secs| > 0 {
      var ls := Lines(secs[0]);
      var q := if IsCandidate(ls) then ParseTableSection(ls, 0, rule) else None;
      var rest := TableAccepted(secs[1..], rule);
      assert TableAccepted(secs, rule) == (if q.Some? then [q.value] else []) + rest;
      SectionIdOnlyNumbers(ls, id, rule);
      if q.Some? {
        NumberSectionsAccepted(secs[1..], id + 1, rule);
        RenumberCons(q.value, rest, id);
      } else {
        NumberSectionsAccepted(secs[1..], id, rule);
        assert [] + rest == rest;
      }
    }
  }

  /** `parseTableFormat` with either answer-letter rule: the parses of the
      candidate sections, in section order, numbered 1..N, each with a
      non-empty stem, two options and an index in 0..3. */
  function ParseTableWith(text: string, rule: LetterRule): (r: seq<Question>)
    ensures r == Renumber(TableAccepted(Sections(SplitBlank(text)), rule), 1)
    ensures |r| <= CandidateCount(Sections(SplitBlank(text)))
    ensures forall k | 0 <= k < |r| :: Numbered(r[k], k + 1)
  {
    NumberSectionsAccepted(Sections(SplitBlank(text)), 1, rule);
    NumberSections(Sections(SplitBlank(text)), 1, rule)
  }

  /** `parseTableFormat` as written (answer lines read by their first
      letter): the parses of the candidate sections in section order,
      numbered 1..N, one at most per section that looks like a question,
      each with a cleaned non-empty stem, two options and an index in 0..3. */
  function ParseTableFormat(text: string): (r: seq<Question>)
    ensures r == Renumber(TableAccepted(Sections(SplitBlank(text)), FirstLetter), 1)
    ensures |r| <= CandidateCount(Sections(SplitBlank(text)))
    ensures forall k | 0 <= k < |r| ::
      && r[k].id == k + 1 && r[k].stem != "" && |r[k].options| >= 2
      && 0 <= r[k].correctAnswer <= 3
  {
    ParseTableWith(text, FirstLetter)
  }

  /** `parseTableFormat` as intended, answer lines read by the letter after
      their colon: the same guarantees over the corrected section parses. */
  function ParseTableFormatIntended(text: string): (r: seq<Question>)
    ensures r == Renumber(TableAccepted(Sections(SplitBlank(text)), ColonLetter), 1)
    ensures |r| <= CandidateCount(Sections(SplitBlank(text)))
    ensures forall k | 0 <= k < |r| ::
      && r[k].id == k + 1 && r[k].stem != "" && |r[k].options| >= 2
      && 0 <= r[k].correctAnswer <= 3
  {
    ParseTableWith(text, ColonLetter)
  }

  // ---------------------------------------------------------------------------
  // Properties of a section scan

  lemma TableScanCons(st: TableState, ls: seq<string>, rule: LetterRule)
    requires 0 <= st.answer <= 3 && |ls| > 0
    ensures TableScan(st, ls, rule) == TableScan(TableStep(st, ls[0], rule), ls[1..], rule)
  {
  }

  /** Reference definition: the non-empty texts of all option lines, vote
      lines included (the table parser tests for options first). */
  function TableOptionTexts(ls: seq<string>): seq<string> {
    if |ls| == 0 then [] else TableOptionOf(ls[0]) + TableOptionTexts(ls[1..])
  }

  /** The option one line adds. */
  function TableOptionOf(l: string): seq<string> {
    if IsOptionLine(l) && |OptionText(l)| > 0 then [OptionText(l)] else []
  }

  lemma TableOptionTextsCons(ls: seq<string>)
    requires |ls| > 0
    ensures TableOptionTexts(ls) == TableOptionOf(ls[0]) + TableOptionTexts(ls[1..])
  {
  }

  lemma TableStepOptions(st: TableState, l: string, rule: LetterRule)
    requires 0 <= st.answer <= 3
    ensures TableStep(st, l, rule).options == st.options + TableOptionOf(l)
  {
    if IsOptionLine(l) {
      OptionLineIsNoEarlierTest(l);
    }
  }

  /** The options are exactly the non-empty option texts, in order. */
  lemma {:induction false} TableScanOptions(st: TableState, ls: seq<string>, rule: LetterRule)
    requires 0 <= st.answer <= 3
    ensures TableScan(st, ls, rule).options == st.options + TableOptionTexts(ls)
    decreases |ls|
  {
    if |ls| > 0 {
      TableScanOptions(TableStep(st, ls[0], rule), ls[1..], rule);
      TableStepOptions(st, ls[0], rule);
      TableScanCons(st, ls, rule);
      TableOptionTextsCons(ls);
    }
  }

  lemma TableStepAnswer(st: TableState, l: string, rule: LetterRule)
    requires 0 <= st.answer <= 3
    ensures TableStep(st, l, rule).answer ==
      if IsAnswerLine(l) then LetterIndex(TableLetter(l, rule)) else st.answer
    ensures !IsAnswerLine(l) && !st.collecting ==>
      !TableStep(st, l, rule).collecting && TableStep(st, l, rule).explanation == st.explanation
  {
    if IsAnswerLine(l) {
      AnswerLineIsNothingElse(l);
    }
  }

  /** The last answer line decides the index: read as written it is always
      2, read as intended it is that line's letter; without an answer line
      the index stays and the explanation stays empty. */
  lemma {:induction false} TableScanAnswer(st: TableState, ls: seq<string>, rule: LetterRule)
    requires 0 <= st.answer <= 3
    ensures var k := LastAnswerLine(ls);
      TableScan(st, ls, rule).answer == if k == -1 then st.answer else LetterIndex(TableLetter(ls[k], rule))
    ensures LastAnswerLine(ls) == -1 && !st.collecting ==>
      !TableScan(st, ls, rule).collecting && TableScan(st, ls, rule).explanation == st.explanation
    decreases |ls|
  {
    if |ls| > 0 {
      var n := |ls| - 1;
      TableScanAppend(st, ls[..n], [ls[n]], rule);
      assert ls[..n] + [ls[n]] == ls;
      assert LastAnswerLine(ls) == -1 ==> LastAnswerLine(ls[..n]) == -1;
      TableScanAnswer(st, ls[..n], rule);
      TableStepAnswer(TableScan(st, ls[..n], rule), ls[n], rule);
      TableScanCons(TableScan(st, ls[..n], rule), [ls[n]], rule);
      assert [ls[n]][1..] == [];
    }
  }

  lemma {:induction false} TableScanAppend(st: TableState, a: seq<string>, b: seq<string>, rule: LetterRule)
    requires 0 <= st.answer <= 3
    ensures TableScan(st, a + b, rule) == TableScan(TableScan(st, a, rule), b, rule)
    decreases |a|
  {
    if |a| > 0 {
      assert (a + b)[0] == a[0];
      assert (a + b)[1..] == a[1..] + b;
      TableScanAppend(TableStep(st, a[0], rule), a[1..], b, rule);
      TableScanCons(st, a + b, rule);
      TableScanCons(st, a, rule);
    } else {
      assert a + b == b;
    }
  }

  /** As written, a section with an answer line always stores index 2. */
  lemma AsWrittenAnswerIsTwo(ls: seq<string>)
    requires LastAnswerLine(ls) >= 0
    ensures TableScan(TableStart, ls, FirstLetter).answer == 2
  {
    TableScanAnswer(TableStart, ls, FirstLetter);
    var l := ls[LastAnswerLine(ls)];
    AnswerHead(l);
  }

  /** A section without an answer line keeps the placeholder explanation. */
  lemma TableNoAnswerKeepsPlaceholder(ls: seq<string>, id: int, rule: LetterRule)
    requires LastAnswerLine(ls) == -1
    ensures ParseTableSection(ls, id, rule).Some? ==>
      ParseTableSection(ls, id, rule).value.explanation == Placeholder
  {
    TableScanAnswer(TableStart, ls, rule);
  }

  /** Once an option has been recorded or an answer line seen, the stem
      buffer no longer changes. */
  lemma {:induction false} TableStemSettled(st: TableState, ls: seq<string>, rule: LetterRule)
    requires 0 <= st.answer <= 3
    requires st.collecting || |st.options| > 0
    ensures TableScan(st, ls, rule).stemText == st.stemText
    decreases |ls|
  {
    if |ls| > 0 {
      TableStepOptions(st, ls[0], rule);
      TableScanCons(st, ls, rule);
      TableStemSettled(TableStep(st, ls[0], rule), ls[1..], rule);
    }
  }

  /** The lines that reach the explanation branch of `TableStep`: no header,
      topic, option or answer line. */
  predicate ReachesTableExplanation(l: string) {
    !IsHeaderLine(l) && !IsTopicLine(l) && !IsOptionLine(l) && !IsAnswerLine(l)
  }

  /** The explanation `acc` grows into over `ls`: every line that reaches the
      explanation branch is folded in by `ExplainLine` (vote counts kept), in
      order, and every other line is passed over. */
  function TableExplained(acc: string, ls: seq<string>): (r: string)
    ensures |acc| <= |r| && r[..|acc|] == acc
    decreases |ls|
  {
    if |ls| == 0 then acc
    else TableExplained(if ReachesTableExplanation(ls[0]) then ExplainLine(acc, ls[0], false) else acc, ls[1..])
  }

  /** Once collecting, a line that is no answer line keeps the collection on
      and folds into the explanation exactly when it reaches that branch. */
  lemma TableStepExplaining(st: TableState, l: string, rule: LetterRule)
    requires 0 <= st.answer <= 3
    requires st.collecting && !IsAnswerLine(l)
    ensures TableStep(st, l, rule).collecting
    ensures TableStep(st, l, rule).explanation
      == if ReachesTableExplanation(l) then ExplainLine(st.explanation, l, false) else st.explanation
  {
  }

  /** Over lines without an answer line the collected explanation is the
      fold `TableExplained`. */
  lemma {:induction false} TableScanExplaining(st: TableState, ls: seq<string>, rule: LetterRule)
    requires 0 <= st.answer <= 3
    requires st.collecting && LastAnswerLine(ls) == -1
    ensures TableScan(st, ls, rule).explanation == TableExplained(st.explanation, ls)
    decreases |ls|
  {
    if |ls| > 0 {
      TableStepExplaining(st, ls[0], rule);
      NoAnswerInTail(ls);
      TableScanExplaining(TableStep(st, ls[0], rule), ls[1..], rule);
      TableScanCons(st, ls, rule);
    }
  }

  /** The explanation is decided from the last answer line on: its seed (or,
      with an empty seed, what was collected before it), followed by the
      lines after it that reach the explanation branch. */
  lemma TableScanExplanation(st: TableState, ls: seq<string>, k: nat, rule: LetterRule)
    requires 0 <= st.answer <= 3
    requires k < |ls| && k == LastAnswerLine(ls)
    ensures var seed := TableSeed(ls[k], rule);
      TableScan(st, ls, rule).explanation
        == TableExplained(if |seed| > 0 then seed else TableScan(st, ls[..k], rule).explanation, ls[k + 1..])
  {
    assert ls[..k] + ls[k..] == ls;
    TableScanAppend(st, ls[..k], ls[k..], rule);
    TableScanCons(TableScan(st, ls[..k], rule), ls[k..], rule);
    AnswerLineIsNothingElse(ls[k]);
    AfterLastAnswer(ls, k);
    TableScanExplaining(TableStep(TableScan(st, ls[..k], rule), ls[k], rule), ls[k + 1..], rule);
  }

  // ---------------------------------------------------------------------------
  // What enters the stem

  /** The lines after which the stem no longer grows: an option line with
      text (so `question.options` is no longer empty) or an answer line (so
      the explanation is collecting). An option line with empty text stops
      nothing. */
  predicate StopsTableStem(l: string) {
    TableOptionOf(l) != [] || IsAnswerLine(l)
  }

  /** The lines that join the stem while it is open: no header, topic,
      option or answer line, and not empty. */
  predicate EntersTableStem(l: string) {
    !IsHeaderLine(l) && !IsTopicLine(l) && !IsOptionLine(l) && !IsAnswerLine(l) && |l| > 0
  }

  /** The position of the first line that stops the stem, or `|ls|`. */
  function TableStemWindow(ls: seq<string>): (w: nat)
    ensures w <= |ls|
    ensures forall k | 0 <= k < w :: !StopsTableStem(ls[k])
    ensures w < |ls| ==> StopsTableStem(ls[w])
    decreases |ls|
  {
    if |ls| == 0 || StopsTableStem(ls[0]) then 0
    else
      var w := 1 + TableStemWindow(ls[1..]);
      assert forall k | 1 <= k < w :: ls[k] == ls[1..][k - 1];
      w
  }

  /** Reference definition: the lines of `ls` that join the stem, in order. */
  function TableStemLines(ls: seq<string>): (r: seq<string>)
    ensures forall x | x in r :: x in ls && EntersTableStem(x)
    decreases |ls|
  {
    if |ls| == 0 then []
    else (if EntersTableStem(ls[0]) then [ls[0]] else []) + TableStemLines(ls[1..])
  }

  /** A line that stops the stem records an option or starts the
      explanation, and leaves the stem as it is. */
  lemma TableStepStops(st: TableState, l: string, rule: LetterRule)
    requires 0 <= st.answer <= 3 && StopsTableStem(l)
    ensures TableStep(st, l, rule).collecting || |TableStep(st, l, rule).options| > 0
    ensures TableStep(st, l, rule).stemText == st.stemText
  {
    TableStepOptions(st, l, rule);
    if IsAnswerLine(l) {
      AnswerLineIsNothingElse(l);
    } else {
      OptionLineIsNoEarlierTest(l);
    }
  }

  /** Any other line, while the stem is open, keeps it open and joins it
      exactly when it is a stem line. */
  lemma TableStepOpen(st: TableState, l: string, rule: LetterRule)
    requires 0 <= st.answer <= 3 && !st.collecting && |st.options| == 0 && !StopsTableStem(l)
    ensures var r := TableStep(st, l, rule);
      && !r.collecting && |r.options| == 0
      && r.stemText == if EntersTableStem(l) then SpaceJoin(st.stemText, l) else st.stemText
  {
    TableStepOptions(st, l, rule);
    if IsOptionLine(l) {
      OptionLineIsNoEarlierTest(l);
    }
  }

  /** From a state whose stem is still open and holds the join of `acc`,
      the stem buffer ends as the join of `acc` followed by the stem lines
      before the first line that stops the stem. */
  lemma {:induction false} TableScanStemFrom(st: TableState, ls: seq<string>, rule: LetterRule, acc: seq<string>)
    requires 0 <= st.answer <= 3 && !st.collecting && |st.options| == 0
    requires forall k | 0 <= k < |acc| :: acc[k] != ""
    requires st.stemText == JoinSp(acc)
    ensures TableScan(st, ls, rule).stemText == JoinSp(acc + TableStemLines(ls[..TableStemWindow(ls)]))
    decreases |ls|
  {
    if |ls| == 0 {
      assert acc + TableStemLines(ls[..0]) == acc;
    } else if StopsTableStem(ls[0]) {
      assert TableScan(st, ls, rule).stemText == st.stemText by {
        TableStepStops(st, ls[0], rule);
        TableScanCons(st, ls, rule);
        TableStemSettled(TableStep(st, ls[0], rule), ls[1..], rule);
      }
      assert acc + TableStemLines(ls[..0]) == acc;
    } else {
      var l := ls[0];
      var rest := ls[1..][..TableStemWindow(ls[1..])];
      var head := if EntersTableStem(l) then [l] else [];
      var r := TableStep(st, l, rule);
      assert TableStemLines(ls[..TableStemWindow(ls)]) == head + TableStemLines(rest) by {
        StemWindowCons(ls);
      }
      assert TableScan(st, ls, rule) == TableScan(r, ls[1..], rule) by {
        TableScanCons(st, ls, rule);
      }
      assert && 0 <= r.answer <= 3 && !r.collecting && |r.options| == 0
             && r.stemText == JoinSp(acc + head)
             && forall k | 0 <= k < |acc + head| :: (acc + head)[k] != "" by {
        TableStepOpen(st, l, rule);
        if EntersTableStem(l) {
          SpaceJoinIsJoin(acc, l);
        } else {
          assert acc + head == acc;
        }
      }
      TableScanStemFrom(r, ls[1..], rule, acc + head);
      ConcatAssoc(acc, head, TableStemLines(rest));
    }
  }

  lemma ConcatAssoc(a: seq<string>, b: seq<string>, c: seq<string>)
    ensures a + b + c == a + (b + c)
  {
  }

  /** Past a line that does not stop the stem, the window moves on by one. */
  lemma StemWindowCons(ls: seq<string>)
    requires |ls| > 0 && !StopsTableStem(ls[0])
    ensures TableStemLines(ls[..TableStemWindow(ls)])
      == (if EntersTableStem(ls[0]) then [ls[0]] else []) + TableStemLines(ls[1..][..TableStemWindow(ls[1..])])
  {
    var w := TableStemWindow(ls);
    assert ls[..w][0] == ls[0];
    assert ls[..w][1..] == ls[1..][..TableStemWindow(ls[1..])];
  }

  /** The stem of a section: the cleaned space join of the stem lines before
      the first option line with text and the first answer line (a line
      before the first such option line joins even after an empty `A.`).
      A question is returned exactly when that stem is non-empty and there
      are two option texts. */
  lemma TableSectionStem(ls: seq<string>, id: int, rule: LetterRule)
    ensures var j := JoinSp(TableStemLines(ls[..TableStemWindow(ls)]));
      var stem := if j != "" then CleanQuestionText(j) else "";
      var r := ParseTableSection(ls, id, rule);
      && (r.Some? <==> stem != "" && |TableOptionTexts(ls)| >= 2)
      && (r.Some? ==> r.value.stem == stem && r.value.options == TableOptionTexts(ls))
  {
    assert JoinSp([]) == "";
    TableScanStemFrom(TableStart, ls, rule, []);
    assert [] + TableStemLines(ls[..TableStemWindow(ls)]) == TableStemLines(ls[..TableStemWindow(ls)]);
    TableScanOptions(TableStart, ls, rule);
    assert [] + TableOptionTexts(ls) == TableOptionTexts(ls);
  }
}
