/**
 * The flashcard table of the hosted backend, reduced to the three writes the
 * components issue: insert a row, update some columns of the row with a given id,
 * and delete the row with a given id. A backend failure is a parameter of each call;
 * a failed call writes nothing.
 */
module Store {
  import opened Cards
  import opened Leitner

  /** The columns the creation form sends; the table fills in id, created_at and last_reviewed. */
  datatype Insertion = Insertion(userId: UserId, question: string, answer: string, box: int, nextReview: Instant)

  /** Every row is stored under its own id, and the counter is past every id in use. */
  ghost predicate WellKeyed(rows: map<Id, Flashcard>, nextId: Id) {
    forall id :: id in rows ==> id < nextId && rows[id].id == id
  }

  /** Every stored card sits in one of the Leitner boxes. */
  ghost predicate BoxesInRange(rows: map<Id, Flashcard>) {
    forall id :: id in rows ==> ValidBox(rows[id].box)
  }

  /** The columns a review never writes are the same in `a` and `b`. */
  ghost predicate SameContent(a: Flashcard, b: Flashcard) {
    && a.id == b.id
    && a.userId == b.userId
    && a.question == b.question
    && a.answer == b.answer
    && a.createdAt == b.createdAt
  }

  /** The row built from an insertion: due at once unless told otherwise, never reviewed. */
  function NewRow(id: Id, ins: Insertion, now: Instant): Flashcard {
    Flashcard(id, ins.userId, ins.question, ins.answer, ins.box, ins.nextReview, now, None)
  }

  /** The table after setting box, next_review and last_reviewed on the row with id `id`. */
  function Updated(rows: map<Id, Flashcard>, id: Id, box: int, nextReview: Instant, reviewedAt: Instant)
    : (r: map<Id, Flashcard>)
    ensures r.Keys == rows.Keys
    ensures forall k :: k in rows && k != id ==> r[k] == rows[k]
    ensures id in rows ==>
      && SameContent(r[id], rows[id])
      && r[id].box == box
      && r[id].nextReview == nextReview
      && r[id].lastReviewed == Some(reviewedAt)
  {
    if id in rows then rows[id := rows[id].(box := box, nextReview := nextReview, lastReviewed := Some(reviewedAt))]
    else rows
  }

  /** The table after deleting the row with id `id`. */
  function Removed(rows: map<Id, Flashcard>, id: Id): (r: map<Id, Flashcard>)
    ensures r.Keys == rows.Keys - {id}
    ensures forall k :: k in r ==> r[k] == rows[k]
  {
    rows - {id}
  }

  class CardStore {
    var rows: map<Id, Flashcard>
    var nextId: Id

    ghost predicate Valid()
      reads this
    {
      WellKeyed(rows, nextId)
    }

    constructor ()
      ensures Valid()
      ensures rows == map[] && nextId == 0
    {
      rows := map[];
      nextId := 0;
    }

    /** `insert([ins])`: a fresh id, created now, not yet reviewed. */
    method Insert(ins: Insertion, now: Instant, backendError: bool) returns (error: bool)
      requires Valid()
      modifies this
      ensures Valid()
      ensures error == backendError
      ensures error ==> rows == old(rows) && nextId == old(nextId)
      ensures !error ==>
        && old(nextId) !in old(rows)
        && rows == old(rows)[old(nextId) := NewRow(old(nextId), ins, now)]
        && nextId == old(nextId) + 1
    {
      error := backendError;
      if !error {
        rows := rows[nextId := NewRow(nextId, ins, now)];
        nextId := nextId + 1;
      }
    }

    /** `update({box, next_review, last_reviewed}).eq('id', id)`: no row matches once it is deleted. */
    method Update(id: Id, box: int, nextReview: Instant, reviewedAt: Instant, backendError: bool)
      returns (error: bool)
      requires Valid()
      modifies this
      ensures Valid()
      ensures error == backendError
      ensures nextId == old(nextId)
      ensures rows == if error then old(rows) else Updated(old(rows), id, box, nextReview, reviewedAt)
    {
      error := backendError;
      if !error {
        rows := Updated(rows, id, box, nextReview, reviewedAt);
      }
    }

    /** `delete().eq('id', id)`. */
    method Delete(id: Id, backendError: bool) returns (error: bool)
      requires Valid()
      modifies this
      ensures Valid()
      ensures error == backendError
      ensures nextId == old(nextId)
      ensures rows == if error then old(rows) else Removed(old(rows), id)
    {
      error := backendError;
      if !error {
        rows := Removed(rows, id);
      }
    }
  }
}
