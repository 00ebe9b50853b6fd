/**
 * The main screen (src/App.tsx): it fetches the cards that are due, in ascending
 * box order, and shows how many there are.
 */
module App {
  import opened Cards
  import opened Leitner
  import opened Store
  import opened FlashcardForm
  import opened FlashcardView

  ghost predicate SortedByBox(s: seq<Flashcard>) {
    forall i, j :: 0 <= i < j < |s| ==> s[i].box <= s[j].box
  }

  /** The cards of the table that are due at `now`. */
  ghost function DueSet(rows: map<Id, Flashcard>, now: Instant): set<Flashcard> {
    set id | id in rows && IsDue(rows[id], now) :: rows[id]
  }

  /** The due cards among those with an id below `k`. */
  ghost function DueSetBelow(rows: map<Id, Flashcard>, now: Instant, k: nat): set<Flashcard> {
    set id | id in rows && id < k && IsDue(rows[id], now) :: rows[id]
  }

  /**
   * What the due query promises: each due card exactly once, nothing else, with lower
   * boxes first. The order among cards of one box is left open.
   */
  ghost predicate IsDueSelection(rows: map<Id, Flashcard>, now: Instant, list: seq<Flashcard>) {
    && multiset(list) == multiset(DueSet(rows, now))
    && SortedByBox(list)
  }

  /** The due cards with an id below `k`, in id order, that is, in insertion order. */
  function DueBelow(rows: map<Id, Flashcard>, now: Instant, k: nat): (s: seq<Flashcard>)
    ensures |s| <= k
    ensures forall i :: 0 <= i < |s| ==> IsDue(s[i], now) && s[i] in rows.Values
    decreases k
  {
    if k == 0 then []
    else DueBelow(rows, now, k - 1) + if k - 1 in rows && IsDue(rows[k - 1], now) then [rows[k - 1]] else []
  }

  lemma {:induction false} DueBelowIsDueSet(rows: map<Id, Flashcard>, nextId: Id, now: Instant, k: nat)
    requires WellKeyed(rows, nextId)
    ensures multiset(DueBelow(rows, now, k)) == multiset(DueSetBelow(rows, now, k))
    decreases k
  {
    if k > 0 {
      DueBelowIsDueSet(rows, nextId, now, k - 1);
      DueSetBelowStep(rows, nextId, now, k);
    }
  }

  /** Raising the bound by one adds the row with the id just below it, if that row is due. */
  lemma DueSetBelowStep(rows: map<Id, Flashcard>, nextId: Id, now: Instant, k: nat)
    requires WellKeyed(rows, nextId)
    requires k > 0
    ensures k - 1 in rows && IsDue(rows[k - 1], now) ==>
      && rows[k - 1] !in DueSetBelow(rows, now, k - 1)
      && DueSetBelow(rows, now, k) == DueSetBelow(rows, now, k - 1) + {rows[k - 1]}
    ensures !(k - 1 in rows && IsDue(rows[k - 1], now)) ==>
      DueSetBelow(rows, now, k) == DueSetBelow(rows, now, k - 1)
  {
  }

  /** Places `card` in front of the first card of a higher or equal box. */
  function InsertByBox(card: Flashcard, s: seq<Flashcard>): (r: seq<Flashcard>)
    ensures multiset(r) == multiset(s) + multiset{card}
    decreases |s|
  {
    if s == [] || card.box <= s[0].box then [card] + s
    else
      assert s == [s[0]] + s[1..];
      [s[0]] + InsertByBox(card, s[1..])
  }

  lemma {:induction false} InsertByBoxSorted(card: Flashcard, s: seq<Flashcard>)
    requires SortedByBox(s)
    ensures SortedByBox(InsertByBox(card, s))
    decreases |s|
  {
    if s != [] && card.box > s[0].box {
      InsertByBoxSorted(card, s[1..]);
      var rest := InsertByBox(card, s[1..]);
      forall k | 0 <= k < |rest| ensures s[0].box <= rest[k].box {
        assert rest[k] in multiset(rest);
        if rest[k] != card {
          assert rest[k] in multiset(s[1..]);
        }
      }
    }
  }

  /** The `order('box')` of the due query: ascending box, a permutation of its input. */
  function SortByBox(s: seq<Flashcard>): (r: seq<Flashcard>)
    ensures multiset(r) == multiset(s)
    ensures SortedByBox(r)
    decreases |s|
  {
    if s == [] then []
    else
      assert s == [s[0]] + s[1..];
      InsertByBoxSorted(s[0], SortByBox(s[1..]));
      InsertByBox(s[0], SortByBox(s[1..]))
  }

  /** The result of the due query on a table whose ids are all below `nextId`. */
  function SelectDue(rows: map<Id, Flashcard>, now: Instant, nextId: Id): (list: seq<Flashcard>)
    requires WellKeyed(rows, nextId)
    ensures IsDueSelection(rows, now, list)
  {
    DueBelowIsDueSet(rows, nextId, now, nextId);
    assert DueSetBelow(rows, now, nextId) == DueSet(rows, now);
    SortByBox(DueBelow(rows, now, nextId))
  }

  /** A card found at two positions of a list occurs at least twice in its multiset. */
  lemma RepeatCountsTwice(list: seq<Flashcard>, i: nat, j: nat)
    requires i < j < |list|
    ensures list[i] == list[j] ==> multiset(list)[list[i]] >= 2
  {
    assert list == list[..j] + list[j..];
    assert list[i] in list[..j];
    assert list[j] in list[j..];
  }

  /**
   * A due selection lists stored cards only, each due; lists every due card; lists
   * no card twice; and so has as many entries as there are due cards.
   */
  lemma DueSelectionMeaning(rows: map<Id, Flashcard>, nextId: Id, now: Instant, list: seq<Flashcard>)
    requires WellKeyed(rows, nextId)
    requires IsDueSelection(rows, now, list)
    ensures forall i :: 0 <= i < |list| ==> list[i].id in rows && rows[list[i].id] == list[i] && IsDue(list[i], now)
    ensures forall id :: id in rows && IsDue(rows[id], now) ==> rows[id] in list
    ensures forall i, j :: 0 <= i < j < |list| ==> list[i].id != list[j].id
    ensures |list| == |DueSet(rows, now)|
  {
    var due := DueSet(rows, now);
    forall i | 0 <= i < |list|
      ensures list[i].id in rows && rows[list[i].id] == list[i] && IsDue(list[i], now)
    {
      assert list[i] in multiset(list);
      assert list[i] in due;
    }
    forall id | id in rows && IsDue(rows[id], now)
      ensures rows[id] in list
    {
      assert rows[id] in due;
      assert rows[id] in multiset(list);
    }
    forall i, j | 0 <= i < j < |list|
      ensures list[i].id != list[j].id
    {
      RepeatCountsTwice(list, i, j);
    }
    assert |multiset(list)| == |multiset(due)|;
  }

  /** After an answer is recorded, the card is not among those due at that instant. */
  lemma ReviewedCardNotListed(rows: map<Id, Flashcard>, nextId: Id, card: Flashcard, correct: bool, now: Instant)
    requires WellKeyed(rows, nextId)
    requires card.id in rows
    requires ValidBox(NextBox(card.box, correct))
    ensures var box := NextBox(card.box, correct);
            var after := Updated(rows, card.id, box, NextReview(box, now), now);
            after[card.id] !in SelectDue(after, now, nextId)
  {
    var box := NextBox(card.box, correct);
    var after := Updated(rows, card.id, box, NextReview(box, now), now);
    DueSelectionMeaning(after, nextId, now, SelectDue(after, now, nextId));
  }

  /** A card just created is among those due at the instant of its creation. */
  lemma NewCardListed(rows: map<Id, Flashcard>, nextId: Id, draft: NewFlashcard, owner: UserId, now: Instant)
    requires WellKeyed(rows, nextId)
    ensures var after := rows[nextId := NewRow(nextId, Submission(draft, owner, now), now)];
            NewRow(nextId, Submission(draft, owner, now), now) in SelectDue(after, now, nextId + 1)
  {
    var after := rows[nextId := NewRow(nextId, Submission(draft, owner, now), now)];
    DueSelectionMeaning(after, nextId + 1, now, SelectDue(after, now, nextId + 1));
  }

  class App {
    var flashcards: seq<Flashcard>
    var dueCount: int

    constructor ()
      ensures flashcards == [] && dueCount == 0
    {
      flashcards := [];
      dueCount := 0;
    }

    /**
     * Fetching the due cards: with a session and an answer from the backend, the list
     * becomes the due selection and the count its length; otherwise nothing changes.
     */
    method FetchFlashcards(session: bool, store: CardStore, now: Instant, backendError: bool)
      requires store.Valid()
      modifies this
      ensures !session || backendError ==> flashcards == old(flashcards) && dueCount == old(dueCount)
      ensures session && !backendError ==>
        && IsDueSelection(store.rows, now, flashcards)
        && dueCount == |flashcards| == |DueSet(store.rows, now)|
      ensures session && !backendError && BoxesInRange(store.rows) ==>
        forall i :: 0 <= i < |flashcards| ==> ValidBox(flashcards[i].box)
    {
      if !session {
        return;
      }
      var data := if backendError then None else Some(SelectDue(store.rows, now, store.nextId));
      if data.Some? {
        DueSelectionMeaning(store.rows, store.nextId, now, data.value);
        flashcards := data.value;
        dueCount := |data.value|;
      }
    }
  }
}
