/** The pending selection of the question on screen: its initial value and the
    effect of pressing a choice (`handleSelect`). */
module Selection {
  import opened QuizModel

  /** The selection a question starts with: an empty array for a
      multiple-answer question, null otherwise. Either way nothing is
      selected. */
  function Initial(kind: Kind): (v: Value)
    ensures Elements(v) == {}
    ensures v.Arr? <==> kind == MultipleAnswer
    ensures !v.Num? && !v.Undefined?
  {
    if kind == MultipleAnswer then Arr([]) else Null
  }

  /** `prev.filter((v) => v !== x)`: drops every occurrence of `x` and keeps
      the rest in order. */
  function RemoveAll(s: seq<nat>, x: nat): (r: seq<nat>)
    ensures forall v :: v in r <==> v in s && v != x
    ensures multiset(r) == multiset(s)[x := 0]
    ensures |r| <= |s|
    ensures x !in s ==> r == s
    ensures NoDuplicates(s) ==> NoDuplicates(r)
  {
    if |s| == 0 then []
    else
      var rest := RemoveAll(s[1..], x);
      assert s == [s[0]] + s[1..];
      assert multiset(s) == multiset{s[0]} + multiset(s[1..]);
      if s[0] == x then rest
      else
        assert NoDuplicates(s) ==> s[0] !in s[1..];
        [s[0]] + rest
  }

  /** Filtering distributes over concatenation. */
  lemma {:induction false} RemoveAllAppend(s: seq<nat>, t: seq<nat>, x: nat)
    ensures RemoveAll(s + t, x) == RemoveAll(s, x) + RemoveAll(t, x)
  {
    if |s| == 0 {
      assert s + t == t;
    } else {
      assert (s + t)[1..] == s[1..] + t;
      RemoveAllAppend(s[1..], t, x);
    }
  }

  /** The multiple-answer toggle: removes `i` when present, appends it when
      absent. Only `i` changes membership. */
  function Toggle(s: seq<nat>, i: nat): (r: seq<nat>)
    ensures i in r <==> i !in s
    ensures forall v :: v != i ==> (v in r <==> v in s)
    ensures NoDuplicates(s) ==> NoDuplicates(r)
  {
    if i in s then RemoveAll(s, i) else s + [i]
  }

  /** Pressing an absent choice twice gives back exactly the original list. */
  lemma ToggleTwiceAbsent(s: seq<nat>, i: nat)
    requires i !in s
    ensures Toggle(Toggle(s, i), i) == s
  {
    assert i in s + [i];
    RemoveAllAppend(s, [i], i);
    assert RemoveAll([i], i) == [];
    assert s + [] == s;
  }

  /** Pressing any choice twice gives back the original set of choices,
      although a present choice moves to the end of the list. */
  lemma ToggleTwiceSameSet(s: seq<nat>, i: nat)
    ensures forall v :: v in Toggle(Toggle(s, i), i) <==> v in s
  {
  }

  /** `handleSelect(i)`: a multiple-answer question toggles `i` in the array
      (an array is started afresh if the selection is somehow not one); the
      other two kinds replace the selection by `i`. */
  function Select(kind: Kind, prev: Value, i: nat): (r: Value)
    ensures kind == MultipleAnswer ==>
      && r.Arr?
      && (i in Elements(r) <==> !(prev.Arr? && i in Elements(prev)))
      && (forall v :: v != i ==> (v in Elements(r) <==> prev.Arr? && v in Elements(prev)))
    ensures kind != MultipleAnswer ==> Elements(r) == {i} && r.Num?
  {
    if kind == MultipleAnswer then
      match prev
      case Arr(s) => Arr(Toggle(s, i))
      case _ => Arr([i])
    else
      Num(i)
  }

  /** For a multiple-choice or true-false question, selecting `i` leaves exactly
      `i` selected, whatever was selected before. */
  lemma SelectOverwrites(kind: Kind, prev: Value, i: nat)
    requires kind != MultipleAnswer
    ensures Select(kind, prev, i) == Num(i)
  {
  }

  /** Selecting a valid choice keeps the selection well formed for its
      question; in particular the multiple-answer array never gains a
      duplicate, starting from the initial empty array. */
  lemma SelectFits(q: Question, prev: Value, i: nat)
    requires Fits(q, prev)
    requires i < |q.choices|
    ensures Fits(q, Select(q.kind, prev, i))
  {
  }

  /** The initial selection is well formed for every question. */
  lemma InitialFits(q: Question)
    ensures Fits(q, Initial(q.kind))
  {
  }
}
