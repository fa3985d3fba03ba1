/** The quiz navigation state of client/src/components/Quiz.js:
    `selectAnswer`, `checkAnswer`, `nextQuestion` and `previousQuestion` as
    pure transitions over the part of the component state they touch. */
module Nav {
  import opened Bank
  import opened Grading

  /** `currentQuestionIndex`, `userAnswers` (one slot per question, `None`
      for `null`), `isAnswered` and `feedback`. */
  datatype QuizState = QuizState(
    index: int,
    answers: seq<Option<int>>,
    answered: bool,
    feedback: Option<AnswerFeedback>)

  /** The state right after the questions were fetched. */
  function Fresh(n: nat): (st: QuizState)
    ensures Valid(st, n) && st.index == 0 && !st.answered && st.feedback.None?
    ensures forall k | 0 <= k < n :: st.answers[k].None?
  {
    QuizState(0, seq(n, _ => None), false, None)
  }

  /** The index stays on a question (or at 0 for an empty quiz), there is
      one answer slot per question, and an answered question has feedback. */
  predicate Valid(st: QuizState, n: nat) {
    && |st.answers| == n
    && (if n == 0 then st.index == 0 else 0 <= st.index < n)
    && (st.answered ==> st.feedback.Some?)
  }

  /** `selectAnswer(i)`: nothing once the question is answered; otherwise
      only the current slot is written. On an empty quiz the write at index
      0 grows the array to one slot, as a JavaScript array does. */
  function SelectAnswer(st: QuizState, n: nat, choice: int): (r: QuizState)
    requires Valid(st, n)
    ensures st.answered ==> r == st
    ensures n > 0 ==> Valid(r, n)
    ensures r.index == st.index && r.answered == st.answered && r.feedback == st.feedback
    ensures !st.answered && n > 0 ==>
      r.answers[st.index] == Some(choice)
      && forall k | 0 <= k < n && k != st.index :: r.answers[k] == st.answers[k]
    ensures !st.answered && n == 0 ==> r.answers == [Some(choice)]
  {
    if st.answered then st
    else if st.index < |st.answers| then st.(answers := st.answers[st.index := Some(choice)])
    else st.(answers := st.answers + [Some(choice)])
  }

  /** `checkAnswer()` against the question list `qs` the client fetched,
      the answer being checked by the server against its own store `server`:
      without a selection nothing happens (an alert); otherwise the verdict
      for a question of the store with the current question's id becomes the
      feedback and the question is marked answered. A 404 (no such id in the
      store) is caught and changes nothing. */
  function CheckAnswer(st: QuizState, qs: seq<Question>, server: seq<Question>): (r: QuizState)
    requires Valid(st, |qs|)
    ensures r.index == st.index && r.answers == st.answers
    ensures Valid(r, |qs|)
    ensures |qs| == 0 || st.answers[st.index].None? ==> r == st
    ensures |qs| > 0 && (forall k | 0 <= k < |server| :: server[k].id != qs[st.index].id) ==> r == st
    ensures |qs| > 0 && st.answers[st.index].Some? && (exists k | 0 <= k < |server| :: server[k].id == qs[st.index].id) ==>
      (&& r.answered && r.feedback.Some?
       && exists k | 0 <= k < |server| ::
            && server[k].id == qs[st.index].id
            && r.feedback.value.correctAnswer == server[k].correctAnswer
            && (r.feedback.value.isCorrect <==> st.answers[st.index] == Some(server[k].correctAnswer)))
  {
    if |qs| == 0 || st.answers[st.index].None? then st
    else
      match SubmitAnswer(server, qs[st.index].id, st.answers[st.index])
      case Ok(fb) => st.(feedback := Some(fb), answered := true)
      case _ => st
  }

  /** When the client's list is the server's store and its ids strictly
      increase, the feedback says "correct" exactly when the selected index
      is the current question's stored index. */
  lemma CheckAnswerVerdict(st: QuizState, qs: seq<Question>, server: seq<Question>)
    requires Valid(st, |qs|) && Increasing(qs) && |qs| > 0 && st.answers[st.index].Some?
    requires server == qs
    ensures var r := CheckAnswer(st, qs, server);
      && r.answered && r.feedback.Some?
      && r.feedback.value.correctAnswer == qs[st.index].correctAnswer
      && (r.feedback.value.isCorrect <==> st.answers[st.index] == Some(qs[st.index].correctAnswer))
  {
    FindByIdAt(qs, st.index);
  }

  /** `nextQuestion()`: move on unless on the last question; moving clears
      the answered flag and the feedback. */
  function Next(st: QuizState, n: nat): (r: QuizState)
    requires Valid(st, n)
    ensures Valid(r, n) && r.answers == st.answers
    ensures st.index < n - 1 ==> r.index == st.index + 1 && !r.answered && r.feedback.None?
    ensures st.index >= n - 1 ==> r == st
  {
    if st.index < n - 1 then st.(index := st.index + 1, answered := false, feedback := None) else st
  }

  /** `previousQuestion()`: move back unless on the first question. */
  function Previous(st: QuizState, n: nat): (r: QuizState)
    requires Valid(st, n)
    ensures Valid(r, n) && r.answers == st.answers
    ensures st.index > 0 ==> r.index == st.index - 1 && !r.answered && r.feedback.None?
    ensures st.index == 0 ==> r == st
  {
    if st.index > 0 then st.(index := st.index - 1, answered := false, feedback := None) else st
  }

  /** Moving forward and back returns to the same question, with the
      answers kept and the verdict cleared. */
  lemma NextThenPrevious(st: QuizState, n: nat)
    requires Valid(st, n) && st.index < n - 1
    ensures Previous(Next(st, n), n) == st.(answered := false, feedback := None)
  {
  }

  /** Navigation never touches the answers: a selection made on a question
      is still there after any walk away and back. */
  lemma {:induction false} WalkKeepsAnswers(st: QuizState, n: nat, moves: seq<bool>)
    requires Valid(st, n)
    ensures Walk(st, n, moves).answers == st.answers && Valid(Walk(st, n, moves), n)
    decreases |moves|
  {
    if |moves| > 0 {
      var st' := if moves[0] then Next(st, n) else Previous(st, n);
      WalkKeepsAnswers(st', n, moves[1..]);
    }
  }

  /** A sequence of presses: `true` for next, `false` for previous. */
  function Walk(st: QuizState, n: nat, moves: seq<bool>): QuizState
    requires Valid(st, n)
    decreases |moves|
  {
    if |moves| == 0 then st
    else Walk(if moves[0] then Next(st, n) else Previous(st, n), n, moves[1..])
  }
}
