# Quiz session and answer evaluation

A Dafny model of the logic inside the React Native quiz app
(`quiz-app-react/App.js`). The app shows a fixed list of questions of three
kinds: multiple-choice, true-false and multiple-answer. It keeps the user's
pending selection for the question on screen and freezes it into an answer
list when the user taps Next. After the last question it shows a summary. The
summary has a total score and marks each choice as selected-correct,
selected-incorrect, missed-correct or neutral.

Modules, one per part of the app:

- `QuizModel` (`quiz.dfy`): questions, question kinds, and the JavaScript values the app uses both as answer keys and as user answers (`null`, `undefined`, one index, or an array of indices). It also holds the shipped `quizData` and the well-formedness predicates.
- `Selection` (`selection.dfy`): the initial pending selection and `handleSelect`. This covers the multiple-answer toggle and the single-select overwrite.
- `Session` (`session.dfy`): the question screen as an explicit state `Active(index, answers, selected)` or `Finished(answers)`. It models `handleNext`, tap-event runs, and the invariant that every reachable state keeps.
- `Evaluation` (`evaluation.dfy`): `isCorrect`, `totalScore`, the per-choice feedback and the CORRECT / INCORRECT labels.
- `Scenario` (`scenario.dfy`): the shipped quiz played through to the summary.

The model keeps the code's behaviour in these places, where a tidier quiz engine might differ:

- The code reports no errors. An empty quiz and a tap on a choice that does not exist cannot happen in the app; they are preconditions here (`requires`, `Playable`), not error results. A Next after the summary can happen in the app (see "## Left out") but is not modelled: `Finished` is terminal and `Playable` admits no event after it.
- The multiple-answer check is "same length and every key element included", not set equality. The two agree only when the key has no duplicates (`CorrectIsSetEquality`); `DuplicateKeyAcceptsWrongChoice` shows where they differ.
- `isCorrect` picks its branch from whether the key is an array, not from the question's type. Scalar keys use strict equality.
- An unanswered multiple-answer question and one answered with nothing selected are both the empty array. The model does not tell them apart.
- The app does not validate its quiz. `ValidQuestion` describes what a well-formed quiz looks like, and the lemmas that need it assume it.
- `null` (an untouched single-answer selection) and `undefined` (a missing key, or an answer slot past the end) are different values, and `===` keeps them apart. A question without a `correct` field therefore never scores (`MissingKeyScoresZero`).
- The feedback counts cover only the choices on screen: correct indices outside the choice list are never shown.

## Model

| member | source | states |
|---|---|---|
| QuizModel.QuizDataValid | quiz-app-react/App.js:17-41 | the shipped quiz has three well-formed questions whose keys are {0}, {0} and {0, 2}, as the comment after it lists |
| Selection.Initial | quiz-app-react/App.js:47-53 | a fresh selection names no choice, is never `undefined` or an index, and is an array exactly for a multiple-answer question |
| Selection.InitialFits | quiz-app-react/App.js:47-53 | the fresh selection is well formed for its question |
| Selection.RemoveAll | quiz-app-react/App.js:60 | the filter removes every copy of the tapped index and keeps the multiset of all other entries |
| Selection.Toggle | quiz-app-react/App.js:57-62 | after a toggle the tapped index is present iff it was absent; every other index keeps its membership; no duplicate is introduced |
| Selection.ToggleTwiceAbsent | quiz-app-react/App.js:57-62 | tapping an unselected choice twice gives back exactly the original list |
| Selection.ToggleTwiceSameSet | quiz-app-react/App.js:57-62 | tapping any choice twice gives back the original set of selected indices |
| Selection.Select | quiz-app-react/App.js:55-67 | on a multiple-answer question only the tapped index changes membership; on other kinds exactly the tapped index is selected |
| Selection.SelectOverwrites | quiz-app-react/App.js:64-66 | for multiple-choice and true-false questions the selection becomes the tapped index, whatever it was before |
| Selection.SelectFits | quiz-app-react/App.js:47-67 | starting from a well-formed selection, tapping a valid choice keeps the selection well formed (no duplicates, valid indices) |
| Session.Start | quiz-app-react/App.js:200-204 | the session opens on question 0 with no answers and nothing selected, in a state satisfying the session invariant |
| Session.Store | quiz-app-react/App.js:70-71 | the copied answer list takes the pending selection in slot `index`; every other slot keeps its value; slots skipped past the end read as undefined |
| Session.Press | quiz-app-react/App.js:55-67 | a tap changes only the pending selection, never the question shown or the frozen answers, and keeps the invariant |
| Session.Next | quiz-app-react/App.js:69-81 | Next freezes the selection into slot `index` and leaves other slots alone; it goes to question `index + 1` iff `index + 1 < data.length`, with a fresh selection, and otherwise finishes; the invariant is kept |
| Session.Advance | quiz-app-react/App.js:69-81 | `k` Next taps keep the invariant, use up exactly `k` of the remaining questions, and never change an answer already frozen: the old answer list is a prefix of the new one |
| Session.AdvanceFromStart | quiz-app-react/App.js:69-81 | from the start, `k` Next taps leave `k` answers; the session is on question `k` while `k < data.length` and finishes after exactly `data.length` taps |
| Session.FinishedAnswersFit | quiz-app-react/App.js:69-81 | every answer in a finished session is well formed for its question |
| Session.Run | quiz-app-react/App.js:55-81 | any playable sequence of taps keeps the invariant, the Next taps in it use up exactly that many questions, and the answers frozen before it stay a prefix of the answer list |
| Session.RunFromStart | quiz-app-react/App.js:55-81 | in a whole session the frozen answers are as many as the Next taps, which never exceed the number of questions; the summary is reached iff every question was passed |
| Evaluation.DistinctCount | quiz-app-react/App.js:144-149 | the `Set` built from an array answer or key never has more entries than the array, and has exactly as many iff the array has no duplicates |
| Evaluation.IsCorrect | quiz-app-react/App.js:113-122 | a correct answer names every index of the key and is an array exactly when the key is; its full meaning is given by `CorrectIsSetEquality`, `ReorderInvariant`, `UnansweredNeverCorrect` and `CorrectIffNoMistakes` |
| Evaluation.UnansweredNeverCorrect | quiz-app-react/App.js:113-122 | a `null` answer is never correct for a key other than `null`, including a missing (`undefined`) key |
| Evaluation.MissingAnswerNeverCorrect | quiz-app-react/App.js:121-125 | an `undefined` answer (a slot past the end of the list) is never correct for a key that is present |
| Evaluation.EmptyNeverCorrect | quiz-app-react/App.js:114-119 | an empty array answer is never correct for a non-empty array key |
| Evaluation.CorrectIsSetEquality | quiz-app-react/App.js:114-119 | for a key without duplicates, an array answer is correct iff it has no duplicates and names exactly the key's indices |
| Evaluation.ReorderInvariant | quiz-app-react/App.js:114-119 | correctness of an array answer does not depend on the order of its entries |
| Evaluation.DuplicateKeyAcceptsWrongChoice | quiz-app-react/App.js:114-119 | with the key `[0, 0]` the answer `[0, 1]` passes although it names a different set |
| Evaluation.CorrectCount | quiz-app-react/App.js:124-126 | the count over the first `n` questions is at most `n`; it equals `n` iff all of them are correct and 0 iff none is |
| Evaluation.Score | quiz-app-react/App.js:124-126 | the total score lies in `[0, data.length]`; it is full iff every answer is correct and 0 iff none is; an answer slot past the end of the list reads as `undefined` (`AnswerAt`) |
| Evaluation.ScoreCountsCorrectQuestions | quiz-app-react/App.js:124-126 | the score equals the number of question indices whose answer is correct |
| Evaluation.TotalScore | quiz-app-react/App.js:124-126 | walking the questions and counting the correct ones gives the number of correctly answered questions |
| Evaluation.Classify | quiz-app-react/App.js:144-168 | a choice is selected-correct or missed-correct iff the key's `Set` has it, and selected-correct or selected-incorrect iff the answer's `Set` has it; `null` and `undefined` put no choice in either set; `ClassifyTable` and `CorrectIffNoMistakes` relate it to the stored values and to correctness |
| Evaluation.ClassifyTable | quiz-app-react/App.js:157-168 | each choice gets the category that its (picked, in key) pair selects in the if / else-if order |
| Evaluation.LabelOf | quiz-app-react/App.js:175-180 | a label is printed exactly beside the selected choices; `LabelMatchesFeedback` says which one |
| Evaluation.LabelMatchesFeedback | quiz-app-react/App.js:160-180 | CORRECT is printed on exactly the selected-correct choices, INCORRECT on exactly the selected-incorrect ones |
| Evaluation.ClassifyAll | quiz-app-react/App.js:156-168 | the summary holds one feedback per choice, in order |
| Evaluation.CountsPartition | quiz-app-react/App.js:160-168 | in any feedback list, the four category counts add up to its length |
| Evaluation.CategoriesPartition | quiz-app-react/App.js:156-168 | the choices of a question split into the four categories with none left over |
| Evaluation.CategoriesCountKey | quiz-app-react/App.js:144-168 | selected-correct plus missed-correct choices number exactly the key's in-range indices |
| Evaluation.CategoriesCountPicks | quiz-app-react/App.js:144-168 | selected-correct plus selected-incorrect choices number exactly the answer's in-range indices |
| Evaluation.CorrectIffNoMistakes | quiz-app-react/App.js:113-168 | for a well-formed question and answer, the answer is correct iff no choice is selected-incorrect or missed-correct |
| Scenario.PerfectRun | quiz-app-react/App.js:17-41 | tapping 1963, True, Libra and Neptune finishes with the answers `[0, 0, [0, 2]]` |
| Scenario.PerfectScore | quiz-app-react/App.js:17-41 | the answers `[0, 0, [0, 2]]` score 3 |
| Scenario.MercuryRun | quiz-app-react/App.js:17-41 | tapping Mercury instead of Neptune finishes with `[0, 0, [0, 1]]` |
| Scenario.MercuryScore | quiz-app-react/App.js:17-41 | the answers `[0, 0, [0, 1]]` score 2 |
| Scenario.MercuryFeedback | quiz-app-react/App.js:144-168 | with `[0, 1]` on the third question the choices show selected-correct, selected-incorrect, missed-correct and neutral |
| Scenario.MissingKeyScoresZero | quiz-app-react/App.js:113-126 | a question with no `correct` field, left unanswered as `null`, adds nothing to the score, since `null !== undefined` |
| Scenario.NeptuneTwice | quiz-app-react/App.js:57-62 | tapping Neptune twice leaves only Libra selected |

## Left out

- Rendering is left out: `SafeAreaView`, `ScrollView`, `Text`, the `ButtonGroup` props, `StyleSheet` and `Dimensions`. These are presentation and foreign library calls.
- The question counter text and the "Correct" / "Incorrect" result line are display only. The result line shows `isCorrect`, which is modelled.
- `useState` and `useEffect` mechanics are not modelled. The selection is an explicit field of the session state, and `Next` resets it every time.
- Session.Next: always resets the selection for the next question. The app resets it only when `data[index + 1]` is a different object from `data[index]`, because navigating to the same screen keeps its state. A quiz that repeats one question object at consecutive positions would carry the selection over. The model has no object identity, so it assumes consecutive questions are distinct objects, as they are in the shipped quiz.
- `@react-navigation` screen transitions are not modelled. `navigate` appears only as the move to `Active(index + 1)` or to `Finished`.
- Returning from the summary is not modelled. The stack navigator keeps the last question screen mounted under the summary, so the back gesture shows it again with its selection, and Next there re-freezes slot `data.length - 1` and opens a new summary (`quiz-app-react/App.js:69-81`). The model treats `Finished` as terminal: `Playable` admits no event after it, so such a second pass lies outside every lemma.
- Question prompts and choice labels are carried as plain strings. Nothing is computed from them.
- Selection.RemoveAll: the contract gives the exact multiset of the kept entries but does not state that they keep their original order. Order only matters through `ToggleTwiceAbsent`, which pins down the exact list.
