# Leitner flashcards, modelled in Dafny

This project models the scheduling core of a Leitner-box flashcard app. Every card
sits in one of five boxes. A correct answer moves it up one box, capped at box 5. A
wrong answer sends it back to box 1. The box decides how many days pass before the
card is due again, from the table `[1, 2, 5, 8, 14]`. Around that rule the model
covers the card's lifecycle over the backend's card table:

- creation from the form, in box 1 and due at once;
- the review write, which sets box, next review and last review time of one row;
- deletion of one row;
- the due query of the main screen: the cards due now, lower boxes first, and their count.

Files, one module each:

- `cards.dfy` (`Cards`): the record shapes of `src/types/flashcard.ts`. Time is an
  integer count of milliseconds and `DAY` is 86 400 000 of them.
- `leitner.dfy` (`Leitner`): the interval table, the box transition and the next
  review time. Also the due predicate, and lemmas about runs of answers.
- `store.dfy` (`Store`): the backend table as a class `CardStore`. It holds
  `rows: map<Id, Flashcard>` and an id counter. Its methods are insert,
  update-by-id and delete-by-id, and a failed call writes nothing.
- `flashcard_view.dfy` (`FlashcardView`): `handleResponse` and `handleDelete` of the
  review card.
- `flashcard_form.dfy` (`FlashcardForm`): the creation form, a class holding the draft.
- `app.dfy` (`App`): the due selection, specified as filter-then-order and computed
  by a filter over the table and an insertion sort on `box`. Also the main screen, a
  class holding the fetched list and `dueCount`.

The box invariant is a property of the whole lifecycle. `Store.BoxesInRange` says
every stored box lies in 1..5. The empty table satisfies it, and every component write
preserves it (`HandleSubmit`, `HandleResponse`, `HandleDelete`). The table's own
`Insert` and `Update` accept any box, so the invariant rests on what the components
write. Every card the main screen fetches therefore has a valid box.

`src/components/Flashcard.tsx` never checks the current box before it answers. The
model does not check it either. `Leitner.NextBox` is total on integers, like the
code's expression, and its contract says exactly when the result is a valid box. A
wrong answer always gives box 1. A correct answer gives box 1 on box 0 and box 5 on
any box above 5, so these inputs are handled. The one failing case is a correct
answer on a negative box. Then the new box has no interval, the next review date is
invalid and converting it fails before the update is sent. `FlashcardView.HandleResponse`
models that case as an error that writes nothing. Under the invariant above it cannot
arise.

## Model

| member | source | states |
|---|---|---|
| `Leitner.Interval` | src/components/Flashcard.tsx:13-20 | the delay of every box is at least 1 day and at most 14 days, so the lookup is in bounds and always positive |
| `Leitner.NextBox` | src/components/Flashcard.tsx:19 | a wrong answer gives box 1 whatever the box; a correct one gives box + 1 below box 5 and 5 from box 5 on; the result is a valid box exactly when the answer was wrong or the old box was not negative, so a valid box always leads to a valid box |
| `Leitner.NextReview` | src/components/Flashcard.tsx:20 | the next review lies exactly the new box's interval in days after `now`, hence strictly later than `now` and at most 14 days later |
| `Leitner.IntervalsIncrease` | src/components/Flashcard.tsx:13 | a higher box always has a longer interval and a later next review |
| `Leitner.NoOverflowNoUnderflow` | src/components/Flashcard.tsx:19 | box 5 answered correctly stays in 5; box 1 answered wrongly stays in 1 |
| `Leitner.BoxAfterInRange` | src/components/Flashcard.tsx:13-20 | from a valid box, any sequence of answers keeps the box in 1..5, so the table index stays in bounds |
| `Leitner.BoxAfterClosedForm` | src/components/Flashcard.tsx:19 | after any sequence of answers the box is min(1 + correct answers since the last wrong one, 5); with no wrong answer, min(start + number of answers, 5) |
| `Store.Updated` | src/components/Flashcard.tsx:22-29 | an update by id keeps the same set of ids and every other row; on the matched row it sets box, next review and last review time and keeps id, owner, question, answer and creation time |
| `Store.Removed` | src/components/Flashcard.tsx:37-41 | a delete by id removes that id only and leaves every other row as it was |
| `Store.CardStore.Insert` | src/components/FlashcardForm.tsx:23-30 | a successful insert adds one row under a fresh id, created now and not yet reviewed; a failed one changes nothing |
| `Store.CardStore.Update` | src/components/Flashcard.tsx:22-29 | a successful update gives the table `Updated`; a failed one changes nothing |
| `Store.CardStore.Delete` | src/components/Flashcard.tsx:37-41 | a successful delete gives the table `Removed`; a failed one changes nothing |
| `FlashcardView.HandleResponse` | src/components/Flashcard.tsx:18-35 | answering writes `NextBox` of the shown card's box, its `NextReview` and the review time onto that card's row and nothing else; it fails, writing nothing, exactly when the backend fails or a correct answer meets a negative box; all stored boxes stay in range |
| `FlashcardView.HandleDelete` | src/components/Flashcard.tsx:37-46 | deleting removes the shown card's row only; a failure writes nothing; all stored boxes stay in range |
| `FlashcardView.ReviewReschedules` | src/components/Flashcard.tsx:19-27 | after an answer that yields a valid box, the row is in a valid box, is not due at the review instant, is due its box's interval later, and records the review time |
| `FlashcardForm.Submission` | src/components/FlashcardForm.tsx:25-30 | the inserted columns copy the draft's question and answer unchanged, carry the current user's id, put the card in box 1 and make it due now |
| `FlashcardForm.NewCardIsDue` | src/components/FlashcardForm.tsx:25-30 | a new row is in box 1, due at the instant it is created, created then, and has no review yet |
| `FlashcardForm.FlashcardForm.constructor` | src/components/FlashcardForm.tsx:11-14 | the form starts with an empty question and answer |
| `FlashcardForm.FlashcardForm.HandleSubmit` | src/components/FlashcardForm.tsx:16-36 | with no user nothing is inserted; otherwise one row is added under a fresh id with the draft's question and answer, the user's id, box 1, next review now, created now, never reviewed; only a successful insert clears the form, a failed one keeps it and the table; all stored boxes stay in range |
| `App.DueBelow` | src/App.tsx:44 | the filter keeps only stored cards that are due, and no more of them than ids examined |
| `App.InsertByBox` | src/App.tsx:45 | inserting a card into a list adds exactly that card |
| `App.InsertByBoxSorted` | src/App.tsx:45 | inserting a card into a list sorted by box keeps it sorted |
| `App.SortByBox` | src/App.tsx:45 | the ordering by box is a permutation of its input and is sorted by ascending box |
| `App.DueBelowIsDueSet` | src/App.tsx:44 | the filter over the table yields each due card exactly once and nothing else |
| `App.SelectDue` | src/App.tsx:41-45 | the due query's result is a permutation of the due cards of the table, sorted by ascending box |
| `App.DueSelectionMeaning` | src/App.tsx:41-49 | every listed card is a stored row and is due; every due row is listed; no card is listed twice; the list has as many entries as there are due cards |
| `App.ReviewedCardNotListed` | src/App.tsx:44 | a card just answered is not among the cards due at the instant of the answer |
| `App.NewCardListed` | src/App.tsx:41-45 | a card just created is among the cards due at the instant of its creation |
| `App.App.constructor` | src/App.tsx:12-13 | the screen starts with no cards and a count of 0 |
| `App.App.FetchFlashcards` | src/App.tsx:38-51 | with a session and data back, the list becomes a due selection of the table and `dueCount` its length, which is the number of due cards, and every listed box is valid when the table's are; with no session or no data, list and count are unchanged |

The due predicate `Leitner.IsDue` (src/App.tsx:44) is covered by the rows of
`App.DueBelow`, `App.SelectDue` and `App.DueSelectionMeaning`. The row builder
`Store.NewRow`, which adds the backend's default columns, is covered by the rows of
`Store.CardStore.Insert` and `FlashcardForm.NewCardIsDue`.

## Left out

- Rendering, animation and the show-answer toggle of the review card are user interface only.
- The dark-mode effect on the document is DOM output.
- Authentication is an external provider. The session subscription and sign-out are not modelled. The current session is a `bool` parameter and the current user an `Option` parameter.
- The backend client, the network and async sequencing are external. The table is an abstract map, and `src/lib/supabase` is not part of this model. Whether a call fails is a parameter, and a failed call writes nothing.
- The refetch callbacks (`onUpdate`, `onCardAdded`) are not chained to the writes. The refetch itself is `App.App.FetchFlashcards`.
- Row-level security and owner scoping are enforced by the backend. The table stands for one user's cards.
- Row ids are opaque strings chosen by the backend. Here they come from a counter, so id order is insertion order.
- `created_at` is a database default. It is modelled as the insert time.
- Calendar days are approximated. `addDays` is a fixed `DAY` of milliseconds, with no daylight-saving shifts, and ISO string conversion is not modelled.
- The code reads the clock twice, for `next_review` and for `last_reviewed`. The model uses one `now` for both.
- The order among due cards of equal box is decided by the backend. Only sortedness by box is stated. The computed selection happens to keep insertion order, which is not claimed.
- The browser's `required` check on the two inputs is not modelled. The model accepts empty drafts.
- Leitner.NextReview: requires a valid box, since it is the table lookup. Its one caller, `FlashcardView.HandleResponse`, handles the invalid case as an error.
