/**
 * The Leitner rules of the review card (src/components/Flashcard.tsx): the box a card
 * moves to after an answer, and how long it waits before it is due again.
 */
module Leitner {
  import opened Cards

  const MaxBox := 5

  /** Days until the next review, for boxes 1 to 5 in order. */
  const BoxIntervals: seq<nat> := [1, 2, 5, 8, 14]

  predicate ValidBox(box: int) {
    1 <= box <= MaxBox
  }

  function Min(a: int, b: int): int {
    if a < b then a else b
  }

  /** The delay, in days, of a card sitting in `box`. */
  function Interval(box: int): (days: nat)
    requires ValidBox(box)
    ensures 1 <= days <= BoxIntervals[MaxBox - 1]
  {
    BoxIntervals[box - 1]
  }

  /**
   * The box after an answer: a correct answer promotes by one, capped at the last box;
   * a wrong one sends the card back to box 1. The code does not check the current box,
   * so this is total; the result is a valid box exactly when the answer was wrong or the
   * old box was not negative.
   */
  function NextBox(box: int, correct: bool): (next: int)
    ensures !correct ==> next == 1
    ensures correct && box < MaxBox ==> next == box + 1
    ensures correct && box >= MaxBox ==> next == MaxBox
    ensures ValidBox(next) <==> !correct || 0 <= box
  {
    if correct then Min(box + 1, MaxBox) else 1
  }

  /** When a card placed into `box` at `now` becomes due again. */
  function NextReview(box: int, now: Instant): (due: Instant)
    requires ValidBox(box)
    ensures now + DAY <= due <= now + BoxIntervals[MaxBox - 1] * DAY
    ensures due - now == Interval(box) * DAY
  {
    now + Interval(box) * DAY
  }

  /** A card is due once its next review time has come. */
  predicate IsDue(card: Flashcard, now: Instant) {
    card.nextReview <= now
  }

  /** A higher box always waits longer: the interval table is strictly increasing. */
  lemma IntervalsIncrease(lower: int, higher: int, now: Instant)
    requires ValidBox(lower) && ValidBox(higher) && lower < higher
    ensures Interval(lower) < Interval(higher)
    ensures NextReview(lower, now) < NextReview(higher, now)
  {
  }

  /** Box 5 answered correctly stays in box 5; box 1 answered wrongly stays in box 1. */
  lemma NoOverflowNoUnderflow()
    ensures NextBox(MaxBox, true) == MaxBox
    ensures NextBox(1, false) == 1
  {
  }

  /** The box reached from `box` after answering `answers` in order. */
  function BoxAfter(box: int, answers: seq<bool>): int
    decreases |answers|
  {
    if answers == [] then box
    else NextBox(BoxAfter(box, answers[..|answers| - 1]), answers[|answers| - 1])
  }

  /** The number of correct answers since the last wrong one. */
  function TrailingCorrect(answers: seq<bool>): nat
    decreases |answers|
  {
    if answers == [] || !answers[|answers| - 1] then 0
    else TrailingCorrect(answers[..|answers| - 1]) + 1
  }

  /** Starting from any valid box, every sequence of answers keeps the box in [1, 5]. */
  lemma {:induction false} BoxAfterInRange(box: int, answers: seq<bool>)
    requires ValidBox(box)
    ensures ValidBox(BoxAfter(box, answers))
    decreases |answers|
  {
    if answers != [] {
      BoxAfterInRange(box, answers[..|answers| - 1]);
    }
  }

  /**
   * The box after a run of answers in closed form: after a wrong answer, only the run of
   * correct answers since then decides it; without any wrong answer, each answer promoted the card.
   */
  lemma {:induction false} BoxAfterClosedForm(box: int, answers: seq<bool>)
    requires ValidBox(box)
    ensures BoxAfter(box, answers) ==
      if false in answers then Min(1 + TrailingCorrect(answers), MaxBox)
      else Min(box + |answers|, MaxBox)
    decreases |answers|
  {
    if answers != [] {
      var earlier := answers[..|answers| - 1];
      assert answers == earlier + [answers[|answers| - 1]];
      BoxAfterClosedForm(box, earlier);
    }
  }
}
