/** The record shapes of the flashcard table (src/types/flashcard.ts). */
module Cards {

  datatype Option<+T> = None | Some(value: T)

  /** Row identifiers. The backend hands them out; here they are drawn from a counter. */
  type Id = nat

  type UserId = string

  /** An instant, in milliseconds since the epoch. */
  type Instant = int

  /** One day in milliseconds; calendar days of varying length are not modelled. */
  const DAY: int := 86_400_000

  /** What the user types into the creation form. */
  datatype NewFlashcard = NewFlashcard(question: string, answer: string)

  /** A stored flashcard. `box` is a plain number, as in the table: its range is a proved invariant. */
  datatype Flashcard = Flashcard(
    id: Id,
    userId: UserId,
    question: string,
    answer: string,
    box: int,
    nextReview: Instant,
    createdAt: Instant,
    lastReviewed: Option<Instant>)
}
