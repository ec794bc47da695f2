/** The summary screen's logic: whether an answer is correct, the total score,
    and the feedback shown next to every choice. */
module Evaluation {
  import opened QuizModel

  /** `isCorrect(userAnswer, correct)`. An array key asks for an array answer
      of the same length that includes every key element; any other key asks
      for strict equality, so `null` (or an array) never matches a number. */
  predicate IsCorrect(user: Value, correct: Value)
    ensures IsCorrect(user, correct) ==> Elements(correct) <= Elements(user)
    ensures IsCorrect(user, correct) ==> (user.Arr? <==> correct.Arr?)
  {
    if correct.Arr? then
      && user.Arr?
      && |correct.items| == |user.items|
      && (forall v :: v in correct.items ==> v in user.items)
    else
      user == correct
  }

  /** An unanswered question is never correct, whatever its (non-null) key;
      in particular `null` does not match a missing (`undefined`) key. */
  lemma UnansweredNeverCorrect(correct: Value)
    requires correct != Null
    ensures !IsCorrect(Null, correct)
  {
  }

  /** A missing answer (`undefined`) is never correct for a key that is
      present. */
  lemma MissingAnswerNeverCorrect(correct: Value)
    requires correct != Undefined
    ensures !IsCorrect(Undefined, correct)
  {
  }

  /** An empty array answer is never correct for a non-empty array key. */
  lemma EmptyNeverCorrect(correct: Value)
    requires correct.Arr? && |correct.items| > 0
    ensures !IsCorrect(Arr([]), correct)
  {
  }

  /** The distinct elements of a non-empty list: its head and those of its tail. */
  lemma ElementsCons(s: seq<nat>)
    requires |s| > 0
    ensures Elements(Arr(s)) == Elements(Arr(s[1..])) + {s[0]}
  {
  }

  /** A non-empty list is free of duplicates exactly when its head does not
      recur and its tail is free of duplicates. */
  lemma NoDuplicatesCons(s: seq<nat>)
    requires |s| > 0
    ensures NoDuplicates(s) <==> s[0] !in s[1..] && NoDuplicates(s[1..])
  {
  }

  /** A list has at most as many distinct elements as entries, and exactly as
      many when it has no duplicates. */
  lemma {:induction false} DistinctCount(s: seq<nat>)
    ensures |Elements(Arr(s))| <= |s|
    ensures |Elements(Arr(s))| == |s| <==> NoDuplicates(s)
  {
    if |s| == 0 {
      assert Elements(Arr(s)) == {};
    } else {
      var t := s[1..];
      DistinctCount(t);
      ElementsCons(s);
      NoDuplicatesCons(s);
      if s[0] in t {
        assert s[0] in Elements(Arr(t));
        assert Elements(Arr(s)) == Elements(Arr(t));
      } else {
        assert s[0] !in Elements(Arr(t));
        assert |Elements(Arr(s))| == |Elements(Arr(t))| + 1;
      }
    }
  }

  /** A subset is no larger than its superset. */
  lemma SubsetSize(a: set<nat>, b: set<nat>)
    requires a <= b
    ensures |a| <= |b|
  {
    assert b == a + (b - a);
  }

  /** Two finite sets, one inside the other, of equal size are equal. */
  lemma SubsetOfSameSize(a: set<nat>, b: set<nat>)
    requires a <= b
    requires |a| == |b|
    ensures a == b
  {
    assert |b - a| == |b| - |a|;
  }

  /** For a key without duplicates, "same length and every key element is
      included" means: the answer has no duplicates and names exactly the key's
      choices. */
  lemma CorrectIsSetEquality(user: seq<nat>, key: seq<nat>)
    requires NoDuplicates(key)
    ensures IsCorrect(Arr(user), Arr(key)) <==>
              NoDuplicates(user) && Elements(Arr(user)) == Elements(Arr(key))
  {
    DistinctCount(user);
    DistinctCount(key);
    var u, k := Elements(Arr(user)), Elements(Arr(key));
    if IsCorrect(Arr(user), Arr(key)) {
      assert k <= u;
      SubsetSize(k, u);
      SubsetOfSameSize(k, u);
    }
    if NoDuplicates(user) && u == k {
      assert forall v :: v in key ==> v in user by {
        forall v | v in key ensures v in user {
          assert v in k;
        }
      }
    }
  }

  /** Correctness of an array answer depends only on which entries it holds
      and how often, not on their order. */
  lemma ReorderInvariant(user: seq<nat>, user': seq<nat>, correct: Value)
    requires multiset(user) == multiset(user')
    ensures IsCorrect(Arr(user), correct) <==> IsCorrect(Arr(user'), correct)
  {
    assert |user| == |multiset(user)| == |user'|;
    assert forall v :: v in user <==> v in user' by {
      forall v ensures v in user <==> v in user' {
        assert v in user <==> v in multiset(user);
        assert v in user' <==> v in multiset(user');
      }
    }
  }

  /** With a key that repeats an index, the length check no longer rules out a
      wrong choice: `[0, 1]` passes for the key `[0, 0]`. Well-formed quizzes
      have no such keys. */
  lemma DuplicateKeyAcceptsWrongChoice()
    ensures IsCorrect(Arr([0, 1]), Arr([0, 0]))
    ensures Elements(Arr([0, 1])) != Elements(Arr([0, 0]))
  {
    assert 1 in Elements(Arr([0, 1]));
  }

  /** `answers[i]`, which is `undefined` past the end of the list. */
  function AnswerAt(answers: seq<Value>, i: nat): Value {
    if i < |answers| then answers[i] else Undefined
  }

  /** The number of the first `n` questions answered correctly. */
  function CorrectCount(data: seq<Question>, answers: seq<Value>, n: nat): (c: nat)
    requires n <= |data|
    ensures c <= n
    ensures c == n <==> forall i :: 0 <= i < n ==> IsCorrect(AnswerAt(answers, i), data[i].correct)
    ensures c == 0 <==> forall i :: 0 <= i < n ==> !IsCorrect(AnswerAt(answers, i), data[i].correct)
  {
    if n == 0 then 0
    else
      CorrectCount(data, answers, n - 1)
        + (if IsCorrect(AnswerAt(answers, n - 1), data[n - 1].correct) then 1 else 0)
  }

  /** `totalScore`: how many questions `data.filter` keeps, those whose answer
      is correct. It lies between 0 and the number of questions, reaching the
      top exactly when every answer is correct. */
  function Score(data: seq<Question>, answers: seq<Value>): (total: nat)
    ensures total <= |data|
    ensures total == |data| <==> forall i :: 0 <= i < |data| ==> IsCorrect(AnswerAt(answers, i), data[i].correct)
    ensures total == 0 <==> forall i :: 0 <= i < |data| ==> !IsCorrect(AnswerAt(answers, i), data[i].correct)
  {
    CorrectCount(data, answers, |data|)
  }

  /** The indices of the correctly answered questions among the first `n`. */
  function CorrectIndices(data: seq<Question>, answers: seq<Value>, n: nat): set<nat>
    requires n <= |data|
  {
    set i | 0 <= i < n && IsCorrect(AnswerAt(answers, i), data[i].correct)
  }

  /** The correctly answered questions below `n + 1`: those below `n`, plus
      question `n` when its answer is correct. */
  lemma CorrectIndicesStep(data: seq<Question>, answers: seq<Value>, n: nat)
    requires n < |data|
    ensures CorrectIndices(data, answers, n + 1) ==
              CorrectIndices(data, answers, n)
                + (if IsCorrect(AnswerAt(answers, n), data[n].correct) then {n} else {})
    ensures n !in CorrectIndices(data, answers, n)
  {
  }

  /** The score is the number of correctly answered questions, counted as a
      set of question indices. */
  lemma {:induction false} ScoreCountsCorrectQuestions(data: seq<Question>, answers: seq<Value>, n: nat)
    requires n <= |data|
    ensures CorrectCount(data, answers, n) == |CorrectIndices(data, answers, n)|
  {
    if n > 0 {
      ScoreCountsCorrectQuestions(data, answers, n - 1);
      CorrectIndicesStep(data, answers, n - 1);
    } else {
      assert CorrectIndices(data, answers, n) == {};
    }
  }

  /** `totalScore`, computed as the source does: walk the questions and keep
      those answered correctly. */
  method TotalScore(data: seq<Question>, answers: seq<Value>) returns (total: nat)
    ensures total == |CorrectIndices(data, answers, |data|)|
    ensures total <= |data|
  {
    total := 0;
    var i := 0;
    while i < |data|
      invariant i <= |data|
      invariant total == CorrectCount(data, answers, i)
    {
      if IsCorrect(AnswerAt(answers, i), data[i].correct) {
        total := total + 1;
      }
      i := i + 1;
    }
    ScoreCountsCorrectQuestions(data, answers, |data|);
  }

  /** The four looks a choice can take on the summary screen. */
  datatype Feedback = SelectedCorrect | SelectedIncorrect | MissedCorrect | Neutral

  /** The style chosen for choice `idx`: `selected` is membership in the
      answer's set, `isCorrectChoice` membership in the key's set, taken in
      that order. The category records both memberships and nothing else. */
  function Classify(user: Value, correct: Value, idx: nat): (f: Feedback)
    ensures f in {SelectedCorrect, MissedCorrect} <==> idx in Elements(correct)
    ensures f in {SelectedCorrect, SelectedIncorrect} <==> idx in Elements(user)
  {
    var selected := idx in Elements(user);
    var isCorrectChoice := idx in Elements(correct);
    if selected then (if isCorrectChoice then SelectedCorrect else SelectedIncorrect)
    else if isCorrectChoice then MissedCorrect
    else Neutral
  }

  /** Whether the user picked `idx`, read straight off the stored answer. */
  predicate Picked(user: Value, idx: nat) {
    match user
    case Null => false
    case Undefined => false
    case Num(n) => n == idx
    case Arr(xs) => idx in xs
  }

  /** Each choice gets exactly the feedback its pair (picked, in the key)
      selects in the decision table. */
  lemma ClassifyTable(user: Value, correct: Value, idx: nat)
    ensures Classify(user, correct, idx) == SelectedCorrect <==> Picked(user, idx) && Picked(correct, idx)
    ensures Classify(user, correct, idx) == SelectedIncorrect <==> Picked(user, idx) && !Picked(correct, idx)
    ensures Classify(user, correct, idx) == MissedCorrect <==> !Picked(user, idx) && Picked(correct, idx)
    ensures Classify(user, correct, idx) == Neutral <==> !Picked(user, idx) && !Picked(correct, idx)
  {
  }

  /** The label printed beside a choice. */
  datatype Label = CorrectLabel | IncorrectLabel | NoLabel

  /** `selected && !isCorrectChoice` prints INCORRECT, `selected &&
      isCorrectChoice` prints CORRECT, otherwise no label. */
  function LabelOf(user: Value, correct: Value, idx: nat): (l: Label)
    ensures l != NoLabel <==> idx in Elements(user)
  {
    var selected := idx in Elements(user);
    var isCorrectChoice := idx in Elements(correct);
    if selected && !isCorrectChoice then IncorrectLabel
    else if selected && isCorrectChoice then CorrectLabel
    else NoLabel
  }

  /** The label agrees with the choice's style: CORRECT on exactly the
      selected-correct choices, INCORRECT on exactly the selected-incorrect
      ones. */
  lemma LabelMatchesFeedback(user: Value, correct: Value, idx: nat)
    ensures LabelOf(user, correct, idx) == CorrectLabel <==> Classify(user, correct, idx) == SelectedCorrect
    ensures LabelOf(user, correct, idx) == IncorrectLabel <==> Classify(user, correct, idx) == SelectedIncorrect
    ensures LabelOf(user, correct, idx) == NoLabel <==> Classify(user, correct, idx) in {MissedCorrect, Neutral}
  {
  }

  /** The feedback of the first `n` choices, in order (`q.choices.map`). */
  function ClassifyAll(user: Value, correct: Value, n: nat): (fs: seq<Feedback>)
    ensures |fs| == n
    ensures forall idx :: 0 <= idx < n ==> fs[idx] == Classify(user, correct, idx)
  {
    if n == 0 then [] else ClassifyAll(user, correct, n - 1) + [Classify(user, correct, n - 1)]
  }

  /** How often `f` occurs in `fs`. */
  function Count(fs: seq<Feedback>, f: Feedback): nat {
    if |fs| == 0 then 0
    else Count(fs[..|fs| - 1], f) + (if fs[|fs| - 1] == f then 1 else 0)
  }

  /** Counting over a list extended by one entry. */
  lemma CountSnoc(fs: seq<Feedback>, x: Feedback, f: Feedback)
    ensures Count(fs + [x], f) == Count(fs, f) + (if x == f then 1 else 0)
  {
    assert (fs + [x])[..|fs|] == fs;
  }

  /** The choices among the first `n` that a key or an answer names. */
  function IndicesBelow(v: Value, n: nat): set<nat> {
    set k | k in Elements(v) && k < n
  }

  /** In any list of feedback, the four counts add up to its length. */
  lemma {:induction false} CountsPartition(fs: seq<Feedback>)
    ensures Count(fs, SelectedCorrect) + Count(fs, SelectedIncorrect)
              + Count(fs, MissedCorrect) + Count(fs, Neutral) == |fs|
  {
    if |fs| > 0 {
      CountsPartition(fs[..|fs| - 1]);
    }
  }

  /** Every choice falls into exactly one category: the four counts add up to
      the number of choices. */
  lemma CategoriesPartition(user: Value, correct: Value, n: nat)
    ensures var fs := ClassifyAll(user, correct, n);
      Count(fs, SelectedCorrect) + Count(fs, SelectedIncorrect)
        + Count(fs, MissedCorrect) + Count(fs, Neutral) == n
  {
    CountsPartition(ClassifyAll(user, correct, n));
  }

  /** The named choices below `n + 1`: those below `n`, plus `n` when the
      value names it. */
  lemma IndicesBelowStep(v: Value, n: nat)
    ensures IndicesBelow(v, n + 1) ==
              IndicesBelow(v, n) + (if n in Elements(v) then {n} else {})
    ensures n !in IndicesBelow(v, n)
  {
  }

  /** The selected-correct and missed-correct choices are exactly the key's
      in-range choices. */
  lemma {:induction false} CategoriesCountKey(user: Value, correct: Value, n: nat)
    ensures var fs := ClassifyAll(user, correct, n);
      Count(fs, SelectedCorrect) + Count(fs, MissedCorrect) == |IndicesBelow(correct, n)|
  {
    if n == 0 {
      assert IndicesBelow(correct, n) == {};
    } else {
      CategoriesCountKey(user, correct, n - 1);
      var prev, x := ClassifyAll(user, correct, n - 1), Classify(user, correct, n - 1);
      assert ClassifyAll(user, correct, n) == prev + [x];
      CountSnoc(prev, x, SelectedCorrect);
      CountSnoc(prev, x, MissedCorrect);
      IndicesBelowStep(correct, n - 1);
    }
  }

  /** The selected-correct and selected-incorrect choices are exactly the
      user's in-range choices. */
  lemma {:induction false} CategoriesCountPicks(user: Value, correct: Value, n: nat)
    ensures var fs := ClassifyAll(user, correct, n);
      Count(fs, SelectedCorrect) + Count(fs, SelectedIncorrect) == |IndicesBelow(user, n)|
  {
    if n == 0 {
      assert IndicesBelow(user, n) == {};
    } else {
      CategoriesCountPicks(user, correct, n - 1);
      var prev, x := ClassifyAll(user, correct, n - 1), Classify(user, correct, n - 1);
      assert ClassifyAll(user, correct, n) == prev + [x];
      CountSnoc(prev, x, SelectedCorrect);
      CountSnoc(prev, x, SelectedIncorrect);
      IndicesBelowStep(user, n - 1);
    }
  }

  /** For a well-formed question and a well-formed answer, the answer is
      correct exactly when the summary marks no choice as selected-incorrect
      or missed-correct. */
  lemma CorrectIffNoMistakes(q: Question, user: Value)
    requires ValidQuestion(q)
    requires Fits(q, user)
    ensures IsCorrect(user, q.correct) <==>
      forall idx :: 0 <= idx < |q.choices| ==> Classify(user, q.correct, idx) in {SelectedCorrect, Neutral}
  {
    var n := |q.choices|;
    if q.correct.Arr? {
      var us, ks := user.items, q.correct.items;
      CorrectIsSetEquality(us, ks);
      if forall idx :: 0 <= idx < n ==> Classify(user, q.correct, idx) in {SelectedCorrect, Neutral} {
        forall x | x in Elements(user) ensures x in Elements(q.correct) {
          assert x < n;
          assert Classify(user, q.correct, x) in {SelectedCorrect, Neutral};
        }
        forall x | x in Elements(q.correct) ensures x in Elements(user) {
          assert x < n;
          assert Classify(user, q.correct, x) in {SelectedCorrect, Neutral};
        }
      }
    } else {
      var k := q.correct.n;
      assert k in Elements(q.correct);
      if forall idx :: 0 <= idx < n ==> Classify(user, q.correct, idx) in {SelectedCorrect, Neutral} {
        assert Classify(user, q.correct, k) in {SelectedCorrect, Neutral};
        assert user.Num?;
        assert Classify(user, q.correct, user.n) in {SelectedCorrect, Neutral};
      }
    }
  }
}
