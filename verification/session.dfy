/** The quiz session: the question screen's route parameters (`index`,
    `answers`) together with its pending selection, and the transition made by
    the Next button (`handleNext`). The summary screen is the `Finished`
    state. The quiz itself (`data`) never changes during a session and is
    passed to every operation. */
module Session {
  import opened QuizModel
  import opened Selection

  datatype State =
    | Active(index: nat, answers: seq<Value>, selected: Value)
    | Finished(answers: seq<Value>)

  /** The states a session can reach from `Start`: on question `index` exactly
      `index` answers have been frozen, and every answer and the pending
      selection are well formed for their questions. */
  predicate Inv(data: seq<Question>, s: State) {
    && (s.Active? ==>
          && s.index < |data|
          && |s.answers| == s.index
          && Fits(data[s.index], s.selected))
    && (s.Finished? ==> |s.answers| == |data|)
    && (forall j :: 0 <= j < |s.answers| && j < |data| ==> Fits(data[j], s.answers[j]))
  }

  /** The first question screen, `{ data, index: 0, answers: [] }` with its
      initial selection. An empty quiz has no first question (`data[0]` would
      be undefined), so the quiz must not be empty. */
  function Start(data: seq<Question>): (s: State)
    requires |data| > 0
    ensures s.Active? && s.index == 0 && s.answers == []
    ensures Elements(s.selected) == {}
    ensures Inv(data, s)
  {
    InitialFits(data[0]);
    Active(0, [], Initial(data[0].kind))
  }

  /** `updatedAnswers[index] = selected` on a copy of `answers`: slot `index`
      takes the value, every other slot keeps its own, and writing past the
      end leaves holes, which read as `undefined`. */
  function Store(answers: seq<Value>, index: nat, v: Value): (r: seq<Value>)
    ensures |r| == if index < |answers| then |answers| else index + 1
    ensures r[index] == v
    ensures forall j :: 0 <= j < |answers| && j != index ==> r[j] == answers[j]
    ensures forall j :: |answers| <= j < index ==> r[j] == Undefined
  {
    if index < |answers| then answers[index := v]
    else answers + seq(index - |answers|, _ => Undefined) + [v]
  }

  /** Pressing choice `i` on the current question: only the pending selection
      changes; the question shown and the frozen answers stay as they were. */
  function Press(data: seq<Question>, s: State, i: nat): (r: State)
    requires s.Active? && s.index < |data|
    requires i < |data[s.index].choices|
    ensures r.Active? && r.index == s.index && r.answers == s.answers
    ensures Inv(data, s) ==> Inv(data, r)
  {
    var r := Active(s.index, s.answers, Select(data[s.index].kind, s.selected, i));
    if Inv(data, s) then SelectFits(data[s.index], s.selected, i); r else r
  }

  /** The Next button: freezes the pending selection into slot `index`, then
      shows the following question with a fresh selection, or the summary
      after the last question. */
  function Next(data: seq<Question>, s: State): (r: State)
    requires s.Active? && s.index < |data|
    ensures r.Active? <==> s.index + 1 < |data|
    ensures r.Active? ==> r.index == s.index + 1 && Elements(r.selected) == {}
    ensures |r.answers| == if s.index < |s.answers| then |s.answers| else s.index + 1
    ensures r.answers[s.index] == s.selected
    ensures forall j :: 0 <= j < |s.answers| && j != s.index ==> r.answers[j] == s.answers[j]
    ensures Inv(data, s) ==> Inv(data, r)
  {
    var answers := Store(s.answers, s.index, s.selected);
    if s.index + 1 < |data| then
      InitialFits(data[s.index + 1]);
      Active(s.index + 1, answers, Initial(data[s.index + 1].kind))
    else
      Finished(answers)
  }

  /** How many more times Next can be pressed. */
  function Remaining(data: seq<Question>, s: State): (k: nat)
    requires Inv(data, s)
    ensures k == 0 <==> s.Finished?
    ensures k <= |data|
  {
    if s.Active? then |data| - s.index else 0
  }

  /** Pressing Next `k` times in a row. Answers already frozen are never
      changed again: the old list is a prefix of the new one. */
  function Advance(data: seq<Question>, s: State, k: nat): (r: State)
    requires Inv(data, s)
    requires k <= Remaining(data, s)
    ensures Inv(data, r)
    ensures Remaining(data, r) == Remaining(data, s) - k
    ensures s.answers <= r.answers
    decreases k
  {
    if k == 0 then s else Advance(data, Next(data, s), k - 1)
  }

  /** From the first question, `k` presses of Next have frozen exactly `k`
      answers; the session is on question `k` while `k < |data|` and reaches
      the summary after exactly `|data|` presses, with one answer per
      question. */
  lemma {:induction false} AdvanceFromStart(data: seq<Question>, k: nat)
    requires |data| > 0
    requires k <= |data|
    ensures |Advance(data, Start(data), k).answers| == k
    ensures k < |data| ==> Advance(data, Start(data), k).Active? && Advance(data, Start(data), k).index == k
    ensures k == |data| ==> Advance(data, Start(data), k).Finished?
  {
    var r := Advance(data, Start(data), k);
    assert Remaining(data, r) == |data| - k;
  }

  /** Every answer frozen into a finished session is well formed for its
      question. */
  lemma FinishedAnswersFit(data: seq<Question>)
    requires |data| > 0
    ensures forall j :: 0 <= j < |data| ==> Fits(data[j], Advance(data, Start(data), |data|).answers[j])
  {
    AdvanceFromStart(data, |data|);
  }

  /** What the user can do on a question screen: tap choice `choice`, or tap
      Next. */
  datatype Event = Tap(choice: nat) | NextTap

  /** The events can all be delivered from `s`: every tap names a choice of
      the question then on screen, and nothing follows the summary, which has
      no buttons. */
  predicate Playable(data: seq<Question>, s: State, evs: seq<Event>)
    decreases |evs|
  {
    |evs| == 0 ||
    (&& s.Active? && s.index < |data|
     && match evs[0]
        case Tap(i) => i < |data[s.index].choices| && Playable(data, Press(data, s, i), evs[1..])
        case NextTap => Playable(data, Next(data, s), evs[1..]))
  }

  /** How many Next taps a list of events holds. */
  function NextCount(evs: seq<Event>): (k: nat)
    ensures k <= |evs|
  {
    if |evs| == 0 then 0 else (if evs[0].NextTap? then 1 else 0) + NextCount(evs[1..])
  }

  /** Delivering the events one after another. Every Next tap freezes one more
      answer and moves one question on; taps on choices move nothing. The
      answers frozen before the run stay a prefix of the answer list. */
  function Run(data: seq<Question>, s: State, evs: seq<Event>): (r: State)
    requires Inv(data, s)
    requires Playable(data, s, evs)
    ensures Inv(data, r)
    ensures NextCount(evs) <= Remaining(data, s)
    ensures Remaining(data, r) == Remaining(data, s) - NextCount(evs)
    ensures s.answers <= r.answers
    decreases |evs|
  {
    if |evs| == 0 then s
    else
      match evs[0]
      case Tap(i) => Run(data, Press(data, s, i), evs[1..])
      case NextTap => Run(data, Next(data, s), evs[1..])
  }

  /** A whole session from the first question: the answers frozen are as many
      as the Next taps, which never exceed the number of questions, and the
      summary is reached exactly when every question has been passed. */
  lemma RunFromStart(data: seq<Question>, evs: seq<Event>)
    requires |data| > 0
    requires Playable(data, Start(data), evs)
    ensures NextCount(evs) <= |data|
    ensures |Run(data, Start(data), evs).answers| == NextCount(evs)
    ensures Run(data, Start(data), evs).Finished? <==> NextCount(evs) == |data|
  {
    var r := Run(data, Start(data), evs);
    assert Remaining(data, r) == |data| - NextCount(evs);
  }
}
