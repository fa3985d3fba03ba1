/** The grading endpoints of server/index.js: `POST /api/submit-answer`
    checks one answer, `POST /api/submit-quiz` grades a whole quiz against
    the question store. */
module Grading {
  import opened Bank

  /** What an endpoint yields: the response data, a 404 "question not
      found", or a crash (a `TypeError` the handler does not catch). */
  datatype Outcome<T> = Ok(value: T) | NotFound | Crash

  /** `questions.find(q => q.id === id)`. */
  function FindById(store: seq<Question>, id: int): (r: Option<Question>)
    ensures r.None? <==> forall k | 0 <= k < |store| :: store[k].id != id
    ensures r.Some? ==> r.value in store && r.value.id == id
  {
    if |store| == 0 then None
    else if store[0].id == id then Some(store[0])
    else FindById(store[1..], id)
  }

  /** With strictly increasing ids, looking up the id of the question at `k`
      finds that very question. */
  lemma {:induction false} FindByIdAt(store: seq<Question>, k: nat)
    requires Increasing(store) && k < |store|
    ensures FindById(store, store[k].id) == Some(store[k])
    decreases k
  {
    if k > 0 {
      assert store[0].id < store[k].id;
      assert Increasing(store[1..]) by {
        forall i, j | 0 <= i < j < |store[1..]| ensures store[1..][i].id < store[1..][j].id {
          assert store[1..][i] == store[i + 1] && store[1..][j] == store[j + 1];
        }
      }
      FindByIdAt(store[1..], k - 1);
      assert store[1..][k - 1] == store[k];
    }
  }

  // ---------------------------------------------------------------------------
  // submit-answer

  /** The data of a `submit-answer` response. */
  datatype AnswerFeedback = AnswerFeedback(isCorrect: bool, correctAnswer: int, explanation: string)

  /** `POST /api/submit-answer`. The selection is `None` when the client sends
      `null` or nothing; strict equality then never holds. */
  function SubmitAnswer(store: seq<Question>, questionId: int, selected: Option<int>): (r: Outcome<AnswerFeedback>)
    ensures r.NotFound? <==> forall k | 0 <= k < |store| :: store[k].id != questionId
    ensures !r.Crash?
    ensures r.Ok? ==> exists k | 0 <= k < |store| ::
      (&& store[k].id == questionId
       && r.value.correctAnswer == store[k].correctAnswer
       && r.value.explanation == store[k].explanation
       && (r.value.isCorrect <==> selected == Some(store[k].correctAnswer)))
    ensures r.Ok? ==> FindById(store, questionId).Some?
    ensures r.Ok? ==> r.value.correctAnswer == FindById(store, questionId).value.correctAnswer
    ensures r.Ok? ==> (r.value.isCorrect <==> selected == Some(FindById(store, questionId).value.correctAnswer))
  {
    match FindById(store, questionId)
    case None => NotFound
    case Some(q) =>
      var k :| 0 <= k < |store| && store[k] == q;
      Ok(AnswerFeedback(selected == Some(q.correctAnswer), q.correctAnswer, q.explanation))
  }

  // ---------------------------------------------------------------------------
  // submit-quiz

  /** One submitted answer: `{ questionId, selectedAnswer }`. */
  datatype Answer = Answer(questionId: int, selected: Option<int>)

  /** One per-answer result row. */
  datatype Row = Row(questionId: int, isCorrect: bool, correctAnswer: int, selected: Option<int>)

  /** The data of a `submit-quiz` response; `percentage` is `None` where the
      source computes `NaN` (an empty store), which JSON sends as `null`. */
  datatype Report = Report(score: nat, total: nat, percentage: Option<int>, results: seq<Row>)

  /** `answers.map(...)`: one row per answer, in order; an unknown id makes
      `question.correctAnswer` throw. */
  function GradeAll(store: seq<Question>, answers: seq<Answer>): (r: Option<seq<Row>>)
    ensures r.None? <==> exists k | 0 <= k < |answers| :: FindById(store, answers[k].questionId).None?
    ensures r.Some? ==> |r.value| == |answers| && forall k | 0 <= k < |answers| ::
      && r.value[k].questionId == answers[k].questionId
      && r.value[k].selected == answers[k].selected
      && r.value[k].correctAnswer == FindById(store, answers[k].questionId).value.correctAnswer
      && (r.value[k].isCorrect <==> answers[k].selected == Some(r.value[k].correctAnswer))
  {
    if |answers| == 0 then Some([])
    else
      var a := answers[0];
      match (FindById(store, a.questionId), GradeAll(store, answers[1..]))
      case (Some(q), Some(rest)) =>
        Some([Row(a.questionId, a.selected == Some(q.correctAnswer), q.correctAnswer, a.selected)] + rest)
      case (None, _) => None
      case (_, None) =>
        var k :| 0 <= k < |answers[1..]| && FindById(store, answers[1..][k].questionId).None?;
        assert answers[1..][k] == answers[k + 1];
        None
  }

  /** The number of correct rows. */
  function Score(rows: seq<Row>): (n: nat)
    ensures n <= |rows|
  {
    if |rows| == 0 then 0 else (if rows[0].isCorrect then 1 else 0) + Score(rows[1..])
  }

  /** `Math.round((score / total) * 100)` on exact rationals: the nearest
      integer, halves rounded up; `None` for an empty store. */
  function RoundPercent(score: nat, total: nat): (r: Option<int>)
    ensures r.None? <==> total == 0
    ensures r.Some? ==> 2 * total * r.value - total <= 200 * score < 2 * total * r.value + total
  {
    if total == 0 then None
    else
      var p := (200 * score + total) / (2 * total);
      assert 2 * total * p <= 200 * score + total < 2 * total * p + 2 * total;
      Some(p)
  }

  /** `POST /api/submit-quiz`. */
  function SubmitQuiz(store: seq<Question>, answers: seq<Answer>): (r: Outcome<Report>)
    ensures r.Crash? <==> exists k | 0 <= k < |answers| :: FindById(store, answers[k].questionId).None?
    ensures !r.NotFound?
    ensures r.Ok? ==> && r.value.total == |store|
                      && |r.value.results| == |answers|
                      && r.value.score == CorrectCount(store, answers) <= |answers|
                      && r.value.percentage == RoundPercent(r.value.score, |store|)
  {
    match GradeAll(store, answers)
    case None => Crash
    case Some(rows) =>
      ScoreCountsCorrect(store, answers);
      var score := Score(rows);
      Ok(Report(score, |store|, RoundPercent(score, |store|), rows))
  }

  /** While the score does not exceed the store size, the percentage lies in
      0..100. */
  lemma PercentInRange(score: nat, total: nat)
    requires 0 < total && score <= total
    ensures 0 <= RoundPercent(score, total).value <= 100
  {
    var p := RoundPercent(score, total).value;
    assert 200 * score <= 200 * total;
    assert total * (2 * p - 201) <= 0;
    assert total * (2 * p + 1) > 0;
    SignOfProduct(total, 2 * p - 201);
    SignOfProduct(total, 2 * p + 1);
  }

  lemma SignOfProduct(t: int, x: int)
    requires t > 0
    ensures t * x <= 0 ==> x <= 0
    ensures t * x > 0 ==> x > 0
  {
    if x > 0 {
      assert t * x >= t;
    } else {
      assert t * x <= 0;
    }
  }

  /** The score counts the answers that name their question's index. */
  lemma {:induction false} ScoreCountsCorrect(store: seq<Question>, answers: seq<Answer>)
    requires GradeAll(store, answers).Some?
    ensures Score(GradeAll(store, answers).value) == CorrectCount(store, answers)
    decreases |answers|
  {
    if |answers| > 0 {
      var rows := GradeAll(store, answers).value;
      forall k | 0 <= k < |answers[1..]| ensures FindById(store, answers[1..][k].questionId).Some? {
        assert answers[1..][k] == answers[k + 1];
      }
      ScoreCountsCorrect(store, answers[1..]);
      assert rows[1..] == GradeAll(store, answers[1..]).value;
    }
  }

  /** Reference count: the answers whose selection equals the stored index. */
  function CorrectCount(store: seq<Question>, answers: seq<Answer>): nat {
    if |answers| == 0 then 0
    else
      var q := FindById(store, answers[0].questionId);
      (if q.Some? && answers[0].selected == Some(q.value.correctAnswer) then 1 else 0)
        + CorrectCount(store, answers[1..])
  }

  /** The total is the store size, not the number of answers: the same
      question answered twice counts twice, so the percentage can pass 100. */
  lemma PercentCanPass100(q: Question)
    ensures var r := SubmitQuiz([q], [Answer(q.id, Some(q.correctAnswer)), Answer(q.id, Some(q.correctAnswer))]);
      r.Ok? && r.value.score == 2 && r.value.percentage == Some(200)
  {
    var a := Answer(q.id, Some(q.correctAnswer));
    var row := Row(q.id, true, q.correctAnswer, Some(q.correctAnswer));
    assert FindById([q], q.id) == Some(q);
    assert [a, a][1..] == [a] && [a][1..] == [];
    assert GradeAll([q], []) == Some([]);
    assert [a][0] == a && [a, a][0] == a;
    assert [row] + [] == [row] && [row] + [row] == [row, row];
    assert GradeAll([q], [a]) == Some([row]);
    assert GradeAll([q], [a, a]) == Some([row, row]);
    assert [row, row][1..] == [row] && [row][1..] == [];
    assert Score([row, row]) == 2;
    assert RoundPercent(2, 1) == Some(200);
  }
}
