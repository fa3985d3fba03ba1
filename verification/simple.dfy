/** `parseSimpleFormat` of server/index.js: the first fallback parser, one
    pass over the trimmed non-empty lines of the whole text. A line opening
    with a number (`1.`, `1)`) or with the word "Question" starts a new
    question; option lines add options; an answer line sets the index. */
module Simple {
  import opened Text
  import opened Patterns
  import opened Bank

  // ---------------------------------------------------------------------------
  // Line tests

  /** `^Question` (with `i`), with or without a number after it. */
  predicate IsQuestionWord(l: string) { AtCI(l, 0, "question") }

  /** The lines that open a new question. */
  predicate IsSimpleHeader(l: string) { IsNumberedLine(l) || IsQuestionWord(l) }

  /** `^Correct\s*Answer\s*:\s*[A-D]` (with `i`), or a line containing
      "Đáp án:" or "Answer:". */
  predicate IsSimpleAnswerLine(l: string) {
    IsAnswerLine(l) || Contains(l, "Đáp án:") || Contains(l, "Answer:")
  }

  // ---------------------------------------------------------------------------
  // Reading the answer letter

  /** How an answer line is read. `FirstLetter` is the source as written:
      the first `[A-D]` (any case) anywhere on the line. `ColonLetter` is the
      evident intent: the letter of the first `:\s*[A-D]`, falling back to
      the first letter when the line has none. */
  datatype LetterRule = FirstLetter | ColonLetter

  /** `line.match(/[A-D]/i)`, as an index. */
  function FirstLetterIndex(l: string): (r: Option<int>)
    ensures r.None? <==> FirstLetterAD(l) == -1
    ensures r.Some? ==> 0 <= r.value <= 3
  {
    var k := FirstLetterAD(l);
    if k == -1 then None else Some(LetterIndex(l[k]))
  }

  function AnswerLetter(l: string, rule: LetterRule): (r: Option<int>)
    ensures r.Some? ==> 0 <= r.value <= 3
    ensures rule == ColonLetter && ColonLetterFrom(l, 0) == -1 ==> r == FirstLetterIndex(l)
  {
    match rule
    case FirstLetter => FirstLetterIndex(l)
    case ColonLetter =>
      var c := ColonLetterFrom(l, 0);
      if c >= 0 then Some(LetterIndex(l[WsEnd(l, c + 1)])) else FirstLetterIndex(l)
  }

  /** As written, every `Correct Answer: X` line reads as C (index 2): the
      first letter A-D of the line is the C of "Correct". */
  lemma FirstLetterReadsCorrect(l: string)
    requires IsAnswerLine(l)
    ensures AnswerLetter(l, FirstLetter) == Some(2)
  {
    FirstLetterOfAnswerLine(l);
  }

  /** As written, the stored index is wrong on every answer line whose
      letter is not C. */
  lemma FirstLetterMisreads(l: string)
    requires IsAnswerLine(l) && Upper(ColonLetterOf(l)) != 'C'
    ensures AnswerLetter(l, FirstLetter) == Some(2)
    ensures BoxedAnswerIndex(l) != 2
  {
    FirstLetterReadsCorrect(l);
    AnswerLineColon(l);
  }

  const ExampleAnswerLine: string := "Correct Answer: B"

  /** "Correct Answer: B" is such a line. */
  lemma ExampleWords()
    ensures AtCI(ExampleAnswerLine, 0, "correct") && AtCI(ExampleAnswerLine, 8, "answer")
  {
  }

  lemma ExampleSpaces()
    ensures WsEnd(ExampleAnswerLine, 7) == 8 && WsEnd(ExampleAnswerLine, 14) == 14
    ensures WsEnd(ExampleAnswerLine, 15) == 16 && ExampleAnswerLine[16] == 'B'
  {
    var l := ExampleAnswerLine;
    assert l[7] == ' ' && l[8] == 'A' && l[14] == ':' && l[15] == ' ' && l[16] == 'B';
    assert !IsWs(l[8]) && !IsWs(l[14]) && !IsWs(l[16]);
  }

  lemma ExampleIsAnswerLine()
    ensures IsAnswerLine(ExampleAnswerLine) && ColonLetterOf(ExampleAnswerLine) == 'B'
  {
    ExampleWords();
    ExampleSpaces();
    assert AnswerColon(ExampleAnswerLine) == 14;
  }

  /** Read by `ColonLetter`, an answer line yields the letter after its
      colon, the same index the boxed parser stores. */
  lemma ColonLetterAgreesWithBoxed(l: string)
    requires IsAnswerLine(l)
    ensures AnswerLetter(l, ColonLetter) == Some(BoxedAnswerIndex(l))
  {
    AnswerLineColon(l);
  }

  // ---------------------------------------------------------------------------
  // The scan

  /** The scan state: the questions pushed so far, `currentQuestion`, the
      next id to hand out, `questionText` and `collectingQuestion`. */
  datatype SimpleState = SimpleState(
    done: seq<Question>,
    current: Option<Question>,
    nextId: int,
    text: string,
    collecting: bool)

  const SimpleStart: SimpleState := SimpleState([], None, 1, "", false)

  /** `if (questionText && !currentQuestion.question) currentQuestion.question
      = questionText.trim()`. */
  function WithStem(q: Question, text: string): (r: Question)
    ensures r.id == q.id && r.options == q.options && r.correctAnswer == q.correctAnswer
    ensures r.explanation == q.explanation
    ensures q.stem != "" ==> r.stem == q.stem
  {
    if text != "" && q.stem == "" then q.(stem := Trim(text)) else q
  }

  /** What every question of this parser carries: a positive id, an index in
      0..3 and the placeholder explanation (nothing ever replaces it). */
  predicate Shaped(q: Question) {
    q.id >= 1 && 0 <= q.correctAnswer <= 3 && q.explanation == Placeholder
  }

  /** A question the parser keeps: shaped, with at least two options. */
  predicate Kept(q: Question) { Shaped(q) && |q.options| >= 2 }

  predicate SimpleInv(st: SimpleState) {
    && st.nextId >= 1
    && (st.current.Some? ==> Shaped(st.current.value) && st.current.value.id == st.nextId - 1)
    && (forall k | 0 <= k < |st.done| ::
          Kept(st.done[k]) && st.done[k].id < st.nextId - (if st.current.Some? then 1 else 0))
    && Increasing(st.done)
    && |st.done| + (if st.current.Some? then 1 else 0) <= st.nextId - 1
  }

  /** Save the current question when it has at least two options: the
      questions already pushed stay, and the current one is pushed, with its
      id and options, exactly when it has two options. */
  function Save(st: SimpleState): (r: seq<Question>)
    requires SimpleInv(st)
    ensures forall k | 0 <= k < |r| :: Kept(r[k]) && r[k].id < st.nextId
    ensures Increasing(r)
    ensures |r| <= st.nextId - 1
    ensures |st.done| <= |r| && r[..|st.done|] == st.done
    ensures (st.current.Some? && |st.current.value.options| >= 2) <==> |r| == |st.done| + 1
    ensures |r| == |st.done| + 1 ==>
      r[|st.done|].id == st.current.value.id && r[|st.done|].options == st.current.value.options
  {
    if st.current.Some? && |st.current.value.options| >= 2 then
      st.done + [WithStem(st.current.value, st.text)]
    else st.done
  }

  /** One line of `parseSimpleFormat`, tests in the source's order. */
  function SimpleStep(st: SimpleState, l: string, rule: LetterRule): (r: SimpleState)
    requires SimpleInv(st)
    ensures SimpleInv(r)
    ensures r.nextId == st.nextId + (if IsSimpleHeader(l) then 1 else 0)
  {
    if IsSimpleHeader(l) then
      var q := Question(st.nextId, if IsNumberedLine(l) then l else "", [], 0, Placeholder);
      SimpleState(Save(st), Some(q), st.nextId + 1,
        if IsQuestionWord(l) then "" else st.text, IsQuestionWord(l))
    else if st.collecting && !IsOptionLine(l) then
      if !AtCI(l, 0, "topic") && |l| > 0 then st.(text := SpaceJoin(st.text, l)) else st
    else if IsOptionLine(l) then
      match st.current
      case None => st
      case Some(q) =>
        var q' := WithStem(q, st.text);
        st.(collecting := false, current := Some(q'.(options := q'.options + [OptionText(l)])))
    else if IsSimpleAnswerLine(l) then
      match (st.current, AnswerLetter(l, rule))
      case (Some(q), Some(n)) => st.(current := Some(q.(correctAnswer := n)))
      case _ => st
    else st
  }

  /** The number of lines that open a question. */
  function HeaderCount(ls: seq<string>): (n: nat)
    ensures n <= |ls|
  {
    if |ls| == 0 then 0 else (if IsSimpleHeader(ls[0]) then 1 else 0) + HeaderCount(ls[1..])
  }

  function SimpleScan(st: SimpleState, ls: seq<string>, rule: LetterRule): (r: SimpleState)
    requires SimpleInv(st)
    ensures SimpleInv(r)
    ensures r.nextId == st.nextId + HeaderCount(ls)
    decreases |ls|
  {
    if |ls| == 0 then st else SimpleScan(SimpleStep(st, ls[0], rule), ls[1..], rule)
  }

  /** The parser under a given reading of answer lines. */
  function ParseSimpleWith(text: string, rule: LetterRule): (r: seq<Question>)
    ensures forall k | 0 <= k < |r| :: Kept(r[k]) && 1 <= r[k].id <= HeaderCount(Lines(text))
    ensures Increasing(r)
    ensures |r| <= HeaderCount(Lines(text))
  {
    Save(SimpleScan(SimpleStart, Lines(text), rule))
  }

  /** `parseSimpleFormat` as written, answer lines read by their first
      letter: every question has at least two options, an index in 0..3 and
      the placeholder explanation; ids increase strictly, start from 1 and
      never exceed the number of opening lines, so neither does the count. */
  function ParseSimpleFormat(text: string): (r: seq<Question>)
    ensures forall k | 0 <= k < |r| :: Kept(r[k]) && 1 <= r[k].id <= HeaderCount(Lines(text))
    ensures Increasing(r)
    ensures |r| <= HeaderCount(Lines(text))
  {
    ParseSimpleWith(text, FirstLetter)
  }

  /** `parseSimpleFormat` as intended, answer lines read by the letter after
      their colon: the same guarantees. */
  function ParseSimpleFormatIntended(text: string): (r: seq<Question>)
    ensures forall k | 0 <= k < |r| :: Kept(r[k]) && 1 <= r[k].id <= HeaderCount(Lines(text))
    ensures Increasing(r)
    ensures |r| <= HeaderCount(Lines(text))
  {
    ParseSimpleWith(text, ColonLetter)
  }

  // ---------------------------------------------------------------------------
  // Between two opening lines

  /** Reference definition: the texts of all option lines, in order (the
      simple parser keeps empty texts and vote lines alike). */
  function AllOptionTexts(ls: seq<string>): seq<string> {
    if |ls| == 0 then []
    else (if IsOptionLine(ls[0]) then [OptionText(ls[0])] else []) + AllOptionTexts(ls[1..])
  }

  lemma SimpleScanCons(st: SimpleState, ls: seq<string>, rule: LetterRule)
    requires SimpleInv(st) && |ls| > 0
    ensures SimpleScan(st, ls, rule) == SimpleScan(SimpleStep(st, ls[0], rule), ls[1..], rule)
  {
  }

  lemma AllOptionTextsCons(ls: seq<string>)
    requires |ls| > 0
    ensures AllOptionTexts(ls) == (if IsOptionLine(ls[0]) then [OptionText(ls[0])] else []) + AllOptionTexts(ls[1..])
  {
  }

  /** `r` is `st` with the open question kept open: nothing is pushed, the
      id stays, `added` is appended to the options and a set stem stays. */
  predicate Grows(st: SimpleState, r: SimpleState, added: seq<string>) {
    && st.current.Some? && r.current.Some?
    && r.done == st.done
    && r.current.value.id == st.current.value.id
    && r.current.value.options == st.current.value.options + added
    && (st.current.value.stem != "" ==> r.current.value.stem == st.current.value.stem)
  }

  lemma GrowsTrans(a: SimpleState, b: SimpleState, c: SimpleState, x: seq<string>, y: seq<string>)
    requires Grows(a, b, x) && Grows(b, c, y)
    ensures Grows(a, c, x + y)
  {
    assert a.current.value.options + x + y == a.current.value.options + (x + y);
  }

  lemma StepInsideQuestion(st: SimpleState, l: string, rule: LetterRule)
    requires SimpleInv(st) && st.current.Some? && !IsSimpleHeader(l)
    ensures Grows(st, SimpleStep(st, l, rule), if IsOptionLine(l) then [OptionText(l)] else [])
  {
  }

  /** Between one opening line and the next, no question is pushed, and the
      open question gains exactly the option lines' texts, in order; a stem
      once set stays. */
  lemma {:induction false} InsideQuestion(st: SimpleState, ls: seq<string>, rule: LetterRule)
    requires SimpleInv(st) && st.current.Some?
    requires forall k | 0 <= k < |ls| :: !IsSimpleHeader(ls[k])
    ensures Grows(st, SimpleScan(st, ls, rule), AllOptionTexts(ls))
    decreases |ls|
  {
    if |ls| == 0 {
      assert st.current.value.options + [] == st.current.value.options;
    } else {
      var mid := SimpleStep(st, ls[0], rule);
      var head := if IsOptionLine(ls[0]) then [OptionText(ls[0])] else [];
      StepInsideQuestion(st, ls[0], rule);
      assert forall k | 0 <= k < |ls[1..]| :: !IsSimpleHeader(ls[1..][k]) by {
        forall k | 0 <= k < |ls[1..]| ensures !IsSimpleHeader(ls[1..][k]) {
          assert ls[1..][k] == ls[k + 1];
        }
      }
      InsideQuestion(mid, ls[1..], rule);
      SimpleScanCons(st, ls, rule);
      AllOptionTextsCons(ls);
      GrowsTrans(st, mid, SimpleScan(mid, ls[1..], rule), head, AllOptionTexts(ls[1..]));
    }
  }

  /** An opening line pushes the open question when it has two options,
      and opens a fresh one with the next id and no options; a numbered line
      is its own stem. */
  lemma HeaderOpensQuestion(st: SimpleState, l: string, rule: LetterRule)
    requires SimpleInv(st) && IsSimpleHeader(l)
    ensures var r := SimpleStep(st, l, rule);
      && r.done == Save(st)
      && r.current == Some(Question(st.nextId, if IsNumberedLine(l) then l else "", [], 0, Placeholder))
      && (IsNumberedLine(l) ==> r.current.value.stem == l)
      && r.collecting == IsQuestionWord(l)
      && (IsQuestionWord(l) ==> r.text == "")
  {
  }

  // ---------------------------------------------------------------------------
  // The whole input

  /** The position of the first opening line, or `|ls|`. */
  function NextHeader(ls: seq<string>): (e: nat)
    ensures e <= |ls|
    ensures forall k | 0 <= k < e :: !IsSimpleHeader(ls[k])
    ensures e < |ls| ==> IsSimpleHeader(ls[e])
    decreases |ls|
  {
    if |ls| == 0 || IsSimpleHeader(ls[0]) then 0 else 1 + NextHeader(ls[1..])
  }

  /** A question's number, stem and the texts of its options. */
  datatype Group = Group(id: int, stem: string, options: seq<string>)

  /** The position of the first option line, or `|ls|`. */
  function FirstOptionLine(ls: seq<string>): (w: nat)
    ensures w <= |ls|
    ensures forall k | 0 <= k < w :: !IsOptionLine(ls[k])
    ensures w < |ls| ==> IsOptionLine(ls[w])
    decreases |ls|
  {
    if |ls| == 0 || IsOptionLine(ls[0]) then 0 else 1 + FirstOptionLine(ls[1..])
  }

  /** The lines that join the stem of a `Question` header while it collects:
      no option line, no `Topic` line, not empty. An answer line joins too,
      because the collecting test comes before the answer test. */
  predicate EntersSimpleStem(l: string) {
    !IsOptionLine(l) && !AtCI(l, 0, "topic") && |l| > 0
  }

  /** Reference definition: the lines of `ls` that join the stem, in order. */
  function SimpleStemLines(ls: seq<string>): (r: seq<string>)
    ensures forall x | x in r :: x in ls && EntersSimpleStem(x)
    ensures forall k | 0 <= k < |r| :: r[k] != ""
    decreases |ls|
  {
    if |ls| == 0 then []
    else (if EntersSimpleStem(ls[0]) then [ls[0]] else []) + SimpleStemLines(ls[1..])
  }

  /** Reference definition: the stem of the question opened by the header
      `h` and followed by the lines `ls` (up to the next header). A numbered
      header is its own stem; a `Question` header takes the trimmed space
      join of the stem lines before the first option line, or stays empty. */
  function HeaderStem(h: string, ls: seq<string>): string {
    if IsNumberedLine(h) then h
    else
      var j := JoinSp(SimpleStemLines(ls[..FirstOptionLine(ls)]));
      if j != "" then Trim(j) else ""
  }

  /** Reference definition: one group per opening line, numbered on from
      `id`, holding the stem and the option texts of the lines up to the
      next opening line. */
  function Groups(ls: seq<string>, id: int): seq<Group>
    decreases |ls|
  {
    var h := NextHeader(ls);
    if h == |ls| then []
    else
      var rest := ls[h + 1..];
      var e := NextHeader(rest);
      [Group(id, HeaderStem(ls[h], rest[..e]), AllOptionTexts(rest[..e]))] + Groups(rest[e..], id + 1)
  }

  /** The groups with at least two option texts, in order. */
  function GroupsWithOptions(gs: seq<Group>): seq<Group>
    decreases |gs|
  {
    if |gs| == 0 then []
    else (if |gs[0].options| >= 2 then [gs[0]] else []) + GroupsWithOptions(gs[1..])
  }

  /** `GroupsWithOptions` keeps exactly the groups with two or more options. */
  lemma {:induction false} GroupsWithOptionsMembers(gs: seq<Group>)
    ensures forall g :: g in GroupsWithOptions(gs) <==> g in gs && |g.options| >= 2
    decreases |gs|
  {
    if |gs| > 0 {
      GroupsWithOptionsMembers(gs[1..]);
      assert gs == [gs[0]] + gs[1..];
    }
  }

  /** The number, stem and options of each question, in order. */
  function GroupsOf(qs: seq<Question>): (r: seq<Group>)
    ensures |r| == |qs|
    ensures forall k | 0 <= k < |qs| :: r[k] == Group(qs[k].id, qs[k].stem, qs[k].options)
  {
    seq(|qs|, k requires 0 <= k < |qs| => Group(qs[k].id, qs[k].stem, qs[k].options))
  }

  lemma GroupsOfAppend(a: seq<Question>, b: seq<Question>)
    ensures GroupsOf(a + b) == GroupsOf(a) + GroupsOf(b)
  {
  }

  lemma {:induction false} GroupsWithOptionsAppend(a: seq<Group>, b: seq<Group>)
    ensures GroupsWithOptions(a + b) == GroupsWithOptions(a) + GroupsWithOptions(b)
    decreases |a|
  {
    if |a| == 0 {
      assert a + b == b;
    } else {
      var head := if |a[0].options| >= 2 then [a[0]] else [];
      assert (a + b)[0] == a[0] && (a + b)[1..] == a[1..] + b;
      assert GroupsWithOptions(a + b) == head + GroupsWithOptions(a[1..] + b);
      GroupsWithOptionsAppend(a[1..], b);
      assert GroupsWithOptions(a) == head + GroupsWithOptions(a[1..]);
    }
  }

  lemma {:induction false} SimpleScanSplit(st: SimpleState, ls: seq<string>, e: nat, rule: LetterRule)
    requires SimpleInv(st) && e <= |ls|
    ensures SimpleScan(st, ls, rule) == SimpleScan(SimpleScan(st, ls[..e], rule), ls[e..], rule)
    decreases e
  {
    if e > 0 {
      var mid := SimpleStep(st, ls[0], rule);
      assert ls[..e][1..] == ls[1..][..e - 1];
      assert ls[1..][e - 1..] == ls[e..];
      SimpleScanSplit(mid, ls[1..], e - 1, rule);
    }
  }

  lemma {:induction false} NoHeaderNoCount(ls: seq<string>)
    requires forall k | 0 <= k < |ls| :: !IsSimpleHeader(ls[k])
    ensures HeaderCount(ls) == 0
    decreases |ls|
  {
    if |ls| > 0 {
      assert forall k | 0 <= k < |ls[1..]| :: ls[1..][k] == ls[k + 1];
      NoHeaderNoCount(ls[1..]);
    }
  }

  /** The stem text collected so far followed by the lines `ls`, joined
      by spaces. */
  function Collected(text: string, ls: seq<string>): string {
    if text == "" then JoinSp(ls) else JoinSp([text] + ls)
  }

  /** The stem the open question of `st` is saved with after the
      header-free lines `ls`: a stem already set stays; otherwise the stem
      text, grown by the stem lines before the first option line while it
      collects, trimmed. */
  function OpenStem(st: SimpleState, ls: seq<string>): string
    requires st.current.Some?
  {
    var q := st.current.value;
    if q.stem != "" then q.stem
    else
      var t := if st.collecting then Collected(st.text, SimpleStemLines(ls[..FirstOptionLine(ls)])) else st.text;
      if t != "" then Trim(t) else ""
  }

  /** The stem `Save` gives the open question. */
  function PendingStem(st: SimpleState): string
    requires st.current.Some?
  {
    WithStem(st.current.value, st.text).stem
  }

  /** The group of the question still open after the lines before the next
      opening line. */
  function OpenGroup(st: SimpleState, ls: seq<string>): Group
    requires st.current.Some?
  {
    var front := ls[..NextHeader(ls)];
    Group(st.current.value.id, OpenStem(st, front), st.current.value.options + AllOptionTexts(front))
  }

  lemma CollectedEmpty(text: string)
    ensures Collected(text, []) == text
  {
    if text != "" {
      assert JoinSp([text] + []) == JoinSp([text]);
    }
  }

  /** Growing the stem text by one line is joining that line on. */
  lemma CollectedCons(text: string, l: string, ls: seq<string>)
    requires l != ""
    ensures Collected(text, [l] + ls) == Collected(SpaceJoin(text, l), ls)
  {
    if text == "" {
      assert SpaceJoin(text, l) == l;
    } else {
      var a := [text] + ([l] + ls);
      var b := [SpaceJoin(text, l)] + ls;
      assert a[1..] == [l] + ls && b[1..] == ls;
      assert JoinSp(a) == text + " " + JoinSp([l] + ls);
      if |ls| > 0 {
        assert ([l] + ls)[1..] == ls;
        assert JoinSp([l] + ls) == l + " " + JoinSp(ls);
        assert JoinSp(b) == SpaceJoin(text, l) + " " + JoinSp(ls);
      } else {
        assert JoinSp([l] + ls) == l;
        assert JoinSp(b) == SpaceJoin(text, l);
      }
    }
  }

  /** Past a line that is no option line, the window of stem lines moves on
      by one. */
  lemma StemLinesCons(ls: seq<string>)
    requires |ls| > 0 && !IsOptionLine(ls[0])
    ensures SimpleStemLines(ls[..FirstOptionLine(ls)])
      == (if EntersSimpleStem(ls[0]) then [ls[0]] else []) + SimpleStemLines(ls[1..][..FirstOptionLine(ls[1..])])
  {
    var w := FirstOptionLine(ls);
    assert w == 1 + FirstOptionLine(ls[1..]);
    var p := ls[..w];
    assert |p| > 0 && p[0] == ls[0];
    assert p[1..] == ls[1..][..w - 1];
    assert SimpleStemLines(p) == (if EntersSimpleStem(p[0]) then [p[0]] else []) + SimpleStemLines(p[1..]);
  }

  /** One line inside a question moves the open stem along. */
  lemma StemStep(st: SimpleState, ls: seq<string>, rule: LetterRule)
    requires SimpleInv(st) && st.current.Some? && |ls| > 0 && !IsSimpleHeader(ls[0])
    ensures SimpleStep(st, ls[0], rule).current.Some?
    ensures OpenStem(st, ls) == OpenStem(SimpleStep(st, ls[0], rule), ls[1..])
  {
    var l := ls[0];
    var r := SimpleStep(st, l, rule);
    StepInsideQuestion(st, l, rule);
    if IsOptionLine(l) {
      assert FirstOptionLine(ls) == 0;
      CollectedEmpty(st.text);
    } else if st.collecting {
      var head := if EntersSimpleStem(l) then [l] else [];
      var y := SimpleStemLines(ls[1..][..FirstOptionLine(ls[1..])]);
      assert SimpleStemLines(ls[..FirstOptionLine(ls)]) == head + y by {
        StemLinesCons(ls);
      }
      if EntersSimpleStem(l) {
        CollectedCons(st.text, l, y);
      } else {
        assert head + y == y;
      }
    }
  }

  /** Between one opening line and the next, the stem the open question is
      saved with is `OpenStem`. */
  lemma {:induction false} StemInsideQuestion(st: SimpleState, ls: seq<string>, rule: LetterRule)
    requires SimpleInv(st) && st.current.Some?
    requires forall k | 0 <= k < |ls| :: !IsSimpleHeader(ls[k])
    ensures SimpleScan(st, ls, rule).current.Some?
    ensures PendingStem(SimpleScan(st, ls, rule)) == OpenStem(st, ls)
    decreases |ls|
  {
    if |ls| == 0 {
      CollectedEmpty(st.text);
    } else {
      var r := SimpleStep(st, ls[0], rule);
      StemStep(st, ls, rule);
      assert forall k | 0 <= k < |ls[1..]| :: !IsSimpleHeader(ls[1..][k]) by {
        forall k | 0 <= k < |ls[1..]| ensures !IsSimpleHeader(ls[1..][k]) {
          assert ls[1..][k] == ls[k + 1];
        }
      }
      StemInsideQuestion(r, ls[1..], rule);
      SimpleScanCons(st, ls, rule);
    }
  }

  /** Right after an opening line `h`, the open stem over the lines up to
      the next header is `HeaderStem`. */
  lemma OpenStemAtHeader(r: SimpleState, h: string, ls: seq<string>)
    requires Opened(r, h)
    ensures OpenStem(r, ls) == HeaderStem(h, ls)
  {
  }

  /** With a question open, the rest of the scan pushes the open question's
      group (its stem as `OpenStem` finishes it), then the groups of the
      later opening lines, each exactly when it has two options. */
  lemma {:induction false} ScanGroups(st: SimpleState, ls: seq<string>, rule: LetterRule)
    requires SimpleInv(st) && st.current.Some?
    ensures GroupsOf(Save(SimpleScan(st, ls, rule)))
      == GroupsOf(st.done)
         + GroupsWithOptions([OpenGroup(st, ls)] + Groups(ls[NextHeader(ls)..], st.nextId))
    decreases |ls|, 2
  {
    var e := NextHeader(ls);
    var front := ls[..e];
    var mid := SimpleScan(st, front, rule);
    var g := OpenGroup(st, ls);
    assert SimpleScan(st, ls, rule) == SimpleScan(mid, ls[e..], rule) by {
      SimpleScanSplit(st, ls, e, rule);
    }
    assert && mid.done == st.done && mid.current.Some? && mid.nextId == st.nextId
           && g == Group(mid.current.value.id, PendingStem(mid), mid.current.value.options) by {
      InsideQuestion(st, front, rule);
      NoHeaderNoCount(front);
      StemInsideQuestion(st, front, rule);
    }
    assert GroupsOf(Save(mid)) == GroupsOf(st.done) + GroupsWithOptions([g]) by {
      SavedGroup(mid, st.done, g);
    }
    if e == |ls| {
      assert ls[e..] == [];
      assert [g] + Groups(ls[e..], st.nextId) == [g];
    } else {
      HeaderGroupsStep(mid, ls[e..], rule, g);
    }
  }

  /** Over an opening line and what follows it, from the scan state `mid`
      whose open question has the group `g`. */
  lemma {:induction false} HeaderGroupsStep(mid: SimpleState, hs: seq<string>, rule: LetterRule, g: Group)
    requires SimpleInv(mid) && mid.current.Some? && |hs| > 0 && IsSimpleHeader(hs[0])
    requires g == Group(mid.current.value.id, PendingStem(mid), mid.current.value.options)
    ensures GroupsOf(Save(SimpleScan(mid, hs, rule)))
      == GroupsOf(mid.done) + GroupsWithOptions([g] + Groups(hs, mid.nextId))
    decreases |hs|, 1
  {
    var r := SimpleStep(mid, hs[0], rule);
    assert SimpleScan(mid, hs, rule) == SimpleScan(r, hs[1..], rule) by {
      SimpleScanCons(mid, hs, rule);
    }
    assert && r.done == Save(mid) && r.current.Some? && r.current.value.id == mid.nextId
           && r.current.value.options == [] && r.nextId == mid.nextId + 1
           && Opened(r, hs[0]) by {
      HeaderOpensQuestion(mid, hs[0], rule);
    }
    HeaderGroupsTail(mid, hs, rule, g, r);
  }

  /** The rest of `HeaderGroupsStep`, from the state `r` the opening line
      leads to. */
  lemma {:induction false} HeaderGroupsTail(mid: SimpleState, hs: seq<string>, rule: LetterRule, g: Group, r: SimpleState)
    requires SimpleInv(mid) && mid.current.Some? && |hs| > 0 && IsSimpleHeader(hs[0])
    requires g == Group(mid.current.value.id, PendingStem(mid), mid.current.value.options)
    requires SimpleInv(r) && r.done == Save(mid) && r.current.Some? && r.current.value.id == mid.nextId
    requires r.current.value.options == [] && r.nextId == mid.nextId + 1 && Opened(r, hs[0])
    ensures GroupsOf(Save(SimpleScan(r, hs[1..], rule)))
      == GroupsOf(mid.done) + GroupsWithOptions([g] + Groups(hs, mid.nextId))
    decreases |hs|, 0
  {
    var rest := hs[1..];
    var tail := [OpenGroup(r, rest)] + Groups(rest[NextHeader(rest)..], r.nextId);
    HeaderGroups(hs, mid.nextId, r, r.nextId);
    ScanGroups(r, rest, rule);
    SavedGroup(mid, mid.done, g);
    PushThenFilter(GroupsOf(Save(SimpleScan(r, rest, rule))), GroupsOf(r.done), GroupsOf(mid.done), g, tail);
  }

  /** Filtering one group and then the rest is filtering them together. */
  lemma PushThenFilter(x: seq<Group>, d: seq<Group>, m: seq<Group>, g: Group, tail: seq<Group>)
    requires x == d + GroupsWithOptions(tail) && d == m + GroupsWithOptions([g])
    ensures x == m + GroupsWithOptions([g] + tail)
  {
    GroupsWithOptionsAppend([g], tail);
  }

  /** `r` is the state the opening line `h` leaves: a fresh question with
      no options, stem `h` for a numbered line, and for a `Question` line an
      empty stem text that collects. */
  predicate Opened(r: SimpleState, h: string) {
    && IsSimpleHeader(h) && r.current.Some? && r.current.value.options == []
    && r.current.value.stem == (if IsNumberedLine(h) then h else "")
    && r.collecting == IsQuestionWord(h) && (IsQuestionWord(h) ==> r.text == "")
  }

  /** `Groups` at an opening line: the group of the question it opens,
      then the groups after it. */
  lemma HeaderGroups(hs: seq<string>, id: int, r: SimpleState, id': int)
    requires |hs| > 0 && Opened(r, hs[0])
    requires r.current.value.id == id && id' == id + 1
    ensures Groups(hs, id) == [OpenGroup(r, hs[1..])] + Groups(hs[1..][NextHeader(hs[1..])..], id')
  {
    var front := hs[1..][..NextHeader(hs[1..])];
    GroupsAtHeader(hs, id);
    assert OpenGroup(r, hs[1..]) == Group(id, HeaderStem(hs[0], front), AllOptionTexts(front)) by {
      var opts := AllOptionTexts(front);
      assert r.current.value.options + opts == opts;
      OpenStemAtHeader(r, hs[0], front);
    }
  }

  /** `Groups` unfolded once at an opening line. */
  lemma GroupsAtHeader(hs: seq<string>, id: int)
    requires |hs| > 0 && IsSimpleHeader(hs[0])
    ensures var front := hs[1..][..NextHeader(hs[1..])];
      Groups(hs, id)
        == [Group(id, HeaderStem(hs[0], front), AllOptionTexts(front))] + Groups(hs[1..][NextHeader(hs[1..])..], id + 1)
  {
    assert NextHeader(hs) == 0;
  }

  /** What `Save` pushes, as groups. */
  lemma SavedGroup(mid: SimpleState, done: seq<Question>, g: Group)
    requires SimpleInv(mid) && mid.current.Some? && mid.done == done
    requires g == Group(mid.current.value.id, PendingStem(mid), mid.current.value.options)
    ensures GroupsOf(Save(mid)) == GroupsOf(done) + GroupsWithOptions([g])
  {
    var r := Save(mid);
    if |g.options| >= 2 {
      assert r == done + [r[|done|]];
      GroupsOfAppend(done, [r[|done|]]);
    } else {
      assert r == done;
    }
  }

  /** `parseSimpleFormat` over whole input: the numbers, stems and options
      of the returned questions are exactly the groups of the opening lines,
      numbered from 1, that have at least two option texts, in order. A stem
      is its numbered header line, or, under a `Question` header, the trimmed
      join of the lines before the first option line that are no `Topic`
      line (answer lines included). Every question carries the placeholder
      explanation and an index in 0..3. */
  lemma ParseSimpleGroups(text: string, rule: LetterRule)
    ensures GroupsOf(ParseSimpleWith(text, rule)) == GroupsWithOptions(Groups(Lines(text), 1))
    ensures forall q | q in ParseSimpleWith(text, rule) ::
      q.explanation == Placeholder && 0 <= q.correctAnswer <= 3
  {
    ScanGroupsFromStart(Lines(text), rule);
    var qs := ParseSimpleWith(text, rule);
    forall q | q in qs ensures q.explanation == Placeholder && 0 <= q.correctAnswer <= 3 {
      var k :| 0 <= k < |qs| && qs[k] == q;
    }
  }

  /** The scan of all the lines keeps the groups with two or more options. */
  lemma ScanGroupsFromStart(ls: seq<string>, rule: LetterRule)
    ensures GroupsOf(Save(SimpleScan(SimpleStart, ls, rule))) == GroupsWithOptions(Groups(ls, 1))
  {
    var e := NextHeader(ls);
    assert SimpleScan(SimpleStart, ls, rule) == SimpleScan(SimpleStart, ls[e..], rule) by {
      SimpleScanSplit(SimpleStart, ls, e, rule);
      NothingBeforeFirstHeader(ls[..e], rule);
    }
    assert Groups(ls, 1) == Groups(ls[e..], 1) by {
      GroupsSkipToHeader(ls, 1);
    }
    if e == |ls| {
      assert ls[e..] == [];
    } else {
      FromFirstHeader(ls[e..], rule);
    }
  }

  /** The lines before the first opening line add no group. */
  lemma GroupsSkipToHeader(ls: seq<string>, id: int)
    ensures Groups(ls, id) == Groups(ls[NextHeader(ls)..], id)
  {
    var h := NextHeader(ls);
    if h < |ls| {
      assert NextHeader(ls[h..]) == 0;
      assert ls[h..][1..] == ls[h + 1..];
    }
  }

  /** From the first opening line on, the parser keeps the groups with two
      or more options. */
  lemma FromFirstHeader(hs: seq<string>, rule: LetterRule)
    requires |hs| > 0 && IsSimpleHeader(hs[0])
    ensures GroupsOf(Save(SimpleScan(SimpleStart, hs, rule))) == GroupsWithOptions(Groups(hs, 1))
  {
    var r := SimpleStep(SimpleStart, hs[0], rule);
    assert SimpleScan(SimpleStart, hs, rule) == SimpleScan(r, hs[1..], rule) by {
      SimpleScanCons(SimpleStart, hs, rule);
    }
    assert r.done == [] && r.current.Some? && r.current.value.id == 1
        && Opened(r, hs[0]) && r.nextId == 2 by {
      HeaderOpensQuestion(SimpleStart, hs[0], rule);
    }
    HeaderGroups(hs, 1, r, r.nextId);
    ScanGroups(r, hs[1..], rule);
    assert GroupsOf(r.done) == [];
  }

  /** Before the first opening line nothing is collected: the lines are
      dropped, whatever they are. */
  lemma {:induction false} NothingBeforeFirstHeader(ls: seq<string>, rule: LetterRule)
    requires forall k | 0 <= k < |ls| :: !IsSimpleHeader(ls[k])
    ensures SimpleScan(SimpleStart, ls, rule) == SimpleStart
    decreases |ls|
  {
    if |ls| > 0 {
      assert SimpleStep(SimpleStart, ls[0], rule) == SimpleStart;
      NothingBeforeFirstHeader(ls[1..], rule);
    }
  }
}
