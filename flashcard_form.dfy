/**
 * The creation form (src/components/FlashcardForm.tsx): it holds the question and
 * answer being typed and, on submit, inserts a new card for the signed-in user.
 */
module FlashcardForm {
  import opened Cards
  import opened Leitner
  import opened Store

  /** The columns sent on submit: the draft, the owner, the first box, due at once. */
  function Submission(draft: NewFlashcard, owner: UserId, now: Instant): (ins: Insertion)
    ensures ins.question == draft.question && ins.answer == draft.answer
    ensures ins.userId == owner
    ensures ins.box == 1 && ValidBox(ins.box)
    ensures ins.nextReview == now
  {
    Insertion(owner, draft.question, draft.answer, 1, now)
  }

  /** A newly created card sits in box 1, is due at the instant it is created and has no review yet. */
  lemma NewCardIsDue(id: Id, draft: NewFlashcard, owner: UserId, now: Instant)
    ensures var card := NewRow(id, Submission(draft, owner, now), now);
            && card.box == 1
            && IsDue(card, now)
            && card.createdAt == now
            && card.lastReviewed == None
  {
  }

  class FlashcardForm {
    var newCard: NewFlashcard

    constructor ()
      ensures newCard == NewFlashcard("", "")
    {
      newCard := NewFlashcard("", "");
    }

    /**
     * Submitting: without a signed-in user nothing is sent; otherwise the draft is
     * inserted, and only a successful insert clears the form.
     */
    method HandleSubmit(user: Option<UserId>, store: CardStore, now: Instant, backendError: bool)
      returns (added: bool)
      requires store.Valid()
      modifies this, store
      ensures store.Valid()
      ensures added == (user.Some? && !backendError)
      ensures !added ==>
        && newCard == old(newCard)
        && store.rows == old(store.rows)
        && store.nextId == old(store.nextId)
      ensures added ==>
        && newCard == NewFlashcard("", "")
        && store.nextId == old(store.nextId) + 1
        && old(store.nextId) !in old(store.rows)
        && old(store.nextId) in store.rows
        && store.rows == old(store.rows)[old(store.nextId) := store.rows[old(store.nextId)]]
        && var card := store.rows[old(store.nextId)];
           && card.id == old(store.nextId)
           && card.userId == user.value
           && card.question == old(newCard.question)
           && card.answer == old(newCard.answer)
           && card.box == 1
           && card.nextReview == now
           && card.createdAt == now
           && card.lastReviewed == None
      ensures BoxesInRange(old(store.rows)) ==> BoxesInRange(store.rows)
    {
      if user.None? {
        return false;
      }
      var error := store.Insert(Submission(newCard, user.value, now), now, backendError);
      added := !error;
      if added {
        newCard := NewFlashcard("", "");
      }
    }
  }
}
