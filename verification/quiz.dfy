/** The quiz data model: questions, their three kinds, and the JavaScript values
    the app stores as answer keys and as user answers.

    The app never distinguishes a key from an answer by type: both are plain
    JavaScript values that are either `null`, `undefined`, a choice index, or
    an array of choice indices. One datatype covers both so that the
    evaluator can be modelled case for case. */
module QuizModel {

  /** A JavaScript value as the quiz uses it. `Null` is `null`, the empty
      selection of a single-answer question; `Undefined` is what JavaScript
      reads from a missing `correct` field, a hole in the answer list or a
      slot past its end. The two differ under `===`. */
  datatype Value = Null | Undefined | Num(n: nat) | Arr(items: seq<nat>)

  /** The three question types, `"multiple-choice"`, `"true-false"` and
      `"multiple-answer"`. */
  datatype Kind = MultipleChoice | TrueFalse | MultipleAnswer

  datatype Question = Question(prompt: string, kind: Kind, choices: seq<string>, correct: Value)

  predicate NoDuplicates(s: seq<nat>) {
    forall i, j :: 0 <= i < j < |s| ==> s[i] != s[j]
  }

  /** The choice indices a value names: what `new Set(v)` (for an array) or
      `new Set([v])` (otherwise) contains, restricted to indices, so `null` and
      `undefined` name none. */
  function Elements(v: Value): set<nat> {
    match v
    case Null => {}
    case Undefined => {}
    case Num(n) => {n}
    case Arr(xs) => set x | x in xs
  }

  /** Every index the value names is a valid index into `n` choices. */
  predicate InRange(v: Value, n: nat) {
    forall x :: x in Elements(v) ==> x < n
  }

  /** What a well-formed question of the quiz looks like. The app never checks
      this: `quizData` is a constant that happens to satisfy it. */
  predicate ValidQuestion(q: Question) {
    && (q.correct.Num? || q.correct.Arr?)
    && (q.kind == MultipleAnswer <==> q.correct.Arr?)
    && (q.kind == TrueFalse ==> |q.choices| == 2)
    && InRange(q.correct, |q.choices|)
    && (q.correct.Arr? ==> |q.correct.items| > 0 && NoDuplicates(q.correct.items))
  }

  predicate ValidQuiz(data: seq<Question>) {
    |data| > 0 && forall i :: 0 <= i < |data| ==> ValidQuestion(data[i])
  }

  /** The shape of an answer the question screen can produce for `q`: an array
      without duplicates for a multiple-answer question, otherwise null or one
      index; in both cases only valid choice indices. */
  predicate Fits(q: Question, v: Value) {
    if q.kind == MultipleAnswer then
      v.Arr? && NoDuplicates(v.items) && InRange(v, |q.choices|)
    else
      v.Null? || (v.Num? && v.n < |q.choices|)
  }

  /** The quiz shipped with the app. */
  const QuizData: seq<Question> := [
    Question("In what year was UCF founded?", MultipleChoice,
             ["1963", "1738", "1954", "1973"], Num(0)),
    Question("UCF stands for the University of Central Florida.", TrueFalse,
             ["True", "False"], Num(0)),
    Question("Which of these are UCF Housing communities?", MultipleAnswer,
             ["Libra", "Mercury", "Neptune", "Orion"], Arr([0, 2]))
  ]

  /** The shipped quiz is well formed, and its keys are those the source
      comments list: 1963, True, and Libra with Neptune. */
  lemma QuizDataValid()
    ensures ValidQuiz(QuizData)
    ensures |QuizData| == 3
    ensures Elements(QuizData[0].correct) == {0}
    ensures Elements(QuizData[1].correct) == {0}
    ensures Elements(QuizData[2].correct) == {0, 2}
  {
    assert ValidQuestion(QuizData[0]);
    assert ValidQuestion(QuizData[1]);
    assert Elements(QuizData[2].correct) == {0, 2} by {
      assert forall x :: x in [0, 2] <==> x == 0 || x == 2;
    }
    assert ValidQuestion(QuizData[2]);
  }
}
