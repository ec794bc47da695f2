/** The shipped three-question quiz played through to its summary. */
module Scenario {
  import opened QuizModel
  import opened Selection
  import opened Session
  import opened Evaluation

  /** Answer 1963, then True, then tap Libra and the given third choice. */
  function Taps(third: nat): seq<Event> {
    [Tap(0), NextTap, Tap(0), NextTap, Tap(0), Tap(third), NextTap]
  }

  /** The third question as it comes up after answering 1963 and True. */
  const ThirdScreen := Active(2, [Num(0), Num(0)], Arr([]))

  /** Answering 1963 and True and pressing Next twice brings up the third
      question with nothing selected; whatever is played there decides the
      rest. */
  lemma {:induction false} Opening(rest: seq<Event>)
    requires Playable(QuizData, ThirdScreen, rest)
    ensures Inv(QuizData, ThirdScreen)
    ensures Playable(QuizData, Start(QuizData), [Tap(0), NextTap, Tap(0), NextTap] + rest)
    ensures Run(QuizData, Start(QuizData), [Tap(0), NextTap, Tap(0), NextTap] + rest)
              == Run(QuizData, ThirdScreen, rest)
  {
    QuizDataValid();
    var evs := [Tap(0), NextTap, Tap(0), NextTap] + rest;
    var s0 := Start(QuizData);
    var s1 := Press(QuizData, s0, 0);
    assert s1 == Active(0, [], Num(0));
    var s2 := Next(QuizData, s1);
    assert s2 == Active(1, [Num(0)], Null) by {
      assert Store([], 0, Num(0)) == [Num(0)];
    }
    var s3 := Press(QuizData, s2, 0);
    var s4 := Next(QuizData, s3);
    assert s4 == ThirdScreen by {
      assert Store([Num(0)], 1, Num(0)) == [Num(0), Num(0)];
    }
    assert evs[4..] == rest;
    assert evs[3..][1..] == rest;
    assert evs[2..][1..] == evs[3..];
    assert evs[1..][1..] == evs[2..];
    assert Playable(QuizData, s3, evs[3..]);
    assert Playable(QuizData, s2, evs[2..]);
    assert Playable(QuizData, s1, evs[1..]);
    assert Run(QuizData, s3, evs[3..]) == Run(QuizData, s4, rest);
    assert Run(QuizData, s2, evs[2..]) == Run(QuizData, s4, rest);
    assert Run(QuizData, s1, evs[1..]) == Run(QuizData, s4, rest);
  }

  /** Playing the quiz with Libra and Neptune freezes the answers
      `[0, 0, [0, 2]]`. */
  lemma PerfectRun()
    ensures Playable(QuizData, Start(QuizData), Taps(2))
    ensures Run(QuizData, Start(QuizData), Taps(2)) == Finished([Num(0), Num(0), Arr([0, 2])])
  {
    QuizDataValid();
    var rest := [Tap(0), Tap(2), NextTap];
    var s5 := Press(QuizData, ThirdScreen, 0);
    assert s5.selected == Arr([0]);
    var s6 := Press(QuizData, s5, 2);
    assert s6 == Active(2, [Num(0), Num(0)], Arr([0, 2])) by {
      assert Toggle([0], 2) == [0, 2];
    }
    assert Store([Num(0), Num(0)], 2, Arr([0, 2])) == [Num(0), Num(0), Arr([0, 2])];
    assert Next(QuizData, s6) == Finished([Num(0), Num(0), Arr([0, 2])]);
    assert rest[1..][1..] == [NextTap];
    assert Playable(QuizData, ThirdScreen, rest);
    Opening(rest);
    assert Taps(2) == [Tap(0), NextTap, Tap(0), NextTap] + rest;
  }

  /** The answers `[0, 0, [0, 2]]` score 3 of 3. */
  lemma PerfectScore()
    ensures Score(QuizData, [Num(0), Num(0), Arr([0, 2])]) == 3
  {
  }

  /** Tapping Mercury instead of Neptune freezes `[0, 0, [0, 1]]`. */
  lemma MercuryRun()
    ensures Playable(QuizData, Start(QuizData), Taps(1))
    ensures Run(QuizData, Start(QuizData), Taps(1)) == Finished([Num(0), Num(0), Arr([0, 1])])
  {
    QuizDataValid();
    var rest := [Tap(0), Tap(1), NextTap];
    var s5 := Press(QuizData, ThirdScreen, 0);
    assert s5.selected == Arr([0]);
    var s6 := Press(QuizData, s5, 1);
    assert s6 == Active(2, [Num(0), Num(0)], Arr([0, 1])) by {
      assert Toggle([0], 1) == [0, 1];
    }
    assert Store([Num(0), Num(0)], 2, Arr([0, 1])) == [Num(0), Num(0), Arr([0, 1])];
    assert Next(QuizData, s6) == Finished([Num(0), Num(0), Arr([0, 1])]);
    assert rest[1..][1..] == [NextTap];
    assert Playable(QuizData, ThirdScreen, rest);
    Opening(rest);
    assert Taps(1) == [Tap(0), NextTap, Tap(0), NextTap] + rest;
  }

  /** The answers `[0, 0, [0, 1]]` score 2: the third misses Neptune. */
  lemma MercuryScore()
    ensures Score(QuizData, [Num(0), Num(0), Arr([0, 1])]) == 2
  {
    assert !IsCorrect(Arr([0, 1]), Arr([0, 2])) by {
      assert 2 !in [0, 1];
    }
  }

  /** With `[0, 1]` on the third question the summary shows Libra
      selected-correct, Mercury selected-incorrect, Neptune missed and Orion
      neutral. */
  lemma MercuryFeedback()
    ensures ClassifyAll(Arr([0, 1]), QuizData[2].correct, 4)
              == [SelectedCorrect, SelectedIncorrect, MissedCorrect, Neutral]
  {
    var user, key := Arr([0, 1]), Arr([0, 2]);
    assert Elements(user) == {0, 1};
    assert Elements(key) == {0, 2};
  }

  /** On the third question with Libra selected, tapping Neptune twice leaves
      only Libra selected again. */
  lemma NeptuneTwice()
    ensures var s := Active(2, [Num(0), Num(0)], Arr([0]));
      Press(QuizData, Press(QuizData, s, 2), 2).selected == Arr([0])
  {
    var s := Active(2, [Num(0), Num(0)], Arr([0]));
    var s' := Press(QuizData, s, 2);
    assert s'.selected == Arr([0, 2]) by {
      assert Toggle([0], 2) == [0, 2];
    }
    ToggleTwiceAbsent([0], 2);
  }

  /** A question without a `correct` field, left untouched on its screen,
      scores nothing: the pending `null` is not `===` to the missing
      `undefined` key. */
  lemma MissingKeyScoresZero()
    ensures Score([Question("p", MultipleChoice, ["a"], Undefined)], [Null]) == 0
  {
  }
}
