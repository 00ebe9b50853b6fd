/**
 * The two writes of the review card (src/components/Flashcard.tsx): recording an
 * answer, and deleting the card.
 */
module FlashcardView {
  import opened Cards
  import opened Leitner
  import opened Store

  /**
   * Answering the card shown: the box and the next review come from the card as it
   * was fetched, and are written, with the review time, onto the stored row of that id.
   * The box is not checked first. A correct answer on a negative box yields a box with
   * no interval; the next review date is then invalid, and converting it fails before
   * anything is sent, so the answer is lost.
   */
  method HandleResponse(card: Flashcard, correct: bool, store: CardStore, now: Instant, backendError: bool)
    returns (error: bool)
    requires store.Valid()
    modifies store
    ensures store.Valid()
    ensures error == (!ValidBox(NextBox(card.box, correct)) || backendError)
    ensures store.nextId == old(store.nextId)
    ensures store.rows ==
      if error then old(store.rows)
      else Updated(old(store.rows), card.id, NextBox(card.box, correct), NextReview(NextBox(card.box, correct), now), now)
    ensures BoxesInRange(old(store.rows)) ==> BoxesInRange(store.rows)
  {
    var newBox := NextBox(card.box, correct);
    if !ValidBox(newBox) {
      return true;
    }
    var nextReview := NextReview(newBox, now);
    error := store.Update(card.id, newBox, nextReview, now, backendError);
  }

  /** Deleting the card shown: only its row goes. */
  method HandleDelete(card: Flashcard, store: CardStore, backendError: bool) returns (error: bool)
    requires store.Valid()
    modifies store
    ensures store.Valid()
    ensures error == backendError
    ensures store.nextId == old(store.nextId)
    ensures store.rows == if error then old(store.rows) else Removed(old(store.rows), card.id)
    ensures BoxesInRange(old(store.rows)) ==> BoxesInRange(store.rows)
  {
    error := store.Delete(card.id, backendError);
  }

  /**
   * A recorded answer leaves the row in a valid box, not due at the instant of the
   * review, due exactly the interval of its new box later, and keeps every other row.
   */
  lemma ReviewReschedules(rows: map<Id, Flashcard>, card: Flashcard, correct: bool, now: Instant)
    requires card.id in rows
    requires ValidBox(NextBox(card.box, correct))
    ensures var box := NextBox(card.box, correct);
            var after := Updated(rows, card.id, box, NextReview(box, now), now);
            && ValidBox(after[card.id].box)
            && !IsDue(after[card.id], now)
            && after[card.id].nextReview == now + Interval(after[card.id].box) * DAY
            && after[card.id].lastReviewed == Some(now)
  {
  }
}
