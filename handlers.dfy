/** The request handlers of the flashcards application, each an operation on
    the store that yields an abstract response instead of HTTP or HTML. The
    read-only pages are functions of the store's state; the three POST
    handlers are methods that change it. */
module Handlers {
  import opened Schema
  import opened Store
  import opened Shuffling

  /** Where a redirect points: the deck list or one deck's page. */
  datatype Target = ToIndex | ToDeck(deckId: nat)

  datatype DeckEntry = DeckEntry(id: nat, name: string)
  datatype CardEntry = CardEntry(id: nat, card: Card)
  /** One element of the quiz payload (it carries the answer too). */
  datatype QuizItem = QuizItem(id: nat, question: string, answer: string)

  /** What a page template is handed. */
  datatype View =
    | DeckIndex(decks: seq<DeckEntry>)
    | DeckDetail(deck: DeckEntry, cards: seq<CardEntry>)
    | QuizView(deck: DeckEntry)

  datatype JsonValue = QuizItems(items: seq<QuizItem>) | SuccessTrue

  /** A handler's outcome. `NotFound` is the 404 of a failed lookup,
      `BadRequest` the 400 of a missing form field, and `ServerError` the
      500 of a commit the store refuses. */
  datatype Response =
    | NotFound
    | BadRequest
    | ServerError
    | Redirect(target: Target)
    | Page(view: View)
    | Json(value: JsonValue)

  /** The ids of a quiz payload, in order. */
  function ItemIds(items: seq<QuizItem>): seq<nat> {
    seq(|items|, i requires 0 <= i < |items| => items[i].id)
  }

  /** GET /: the deck list, with every deck of the store exactly once. */
  function Index(db: Database): (r: Response)
    requires db.Valid()
    reads db
    ensures r.Page? && r.view.DeckIndex?
    ensures forall e :: e in r.view.decks ==> e.id in db.decks && e.name == db.decks[e.id]
    ensures forall id :: id in db.decks ==> DeckEntry(id, db.decks[id]) in r.view.decks
    ensures |r.view.decks| == |db.decks|
  {
    var ids := db.AllDeckIds();
    var decks := db.decks;
    var entries := seq(|ids|, i requires 0 <= i < |ids| && ids[i] in decks => DeckEntry(ids[i], decks[ids[i]]));
    assert forall id :: id in decks ==> DeckEntry(id, decks[id]) in entries by {
      forall id | id in decks ensures DeckEntry(id, decks[id]) in entries {
        var i :| 0 <= i < |ids| && ids[i] == id;
        assert entries[i] == DeckEntry(id, decks[id]);
      }
    }
    assert |ids| == |multiset(ids)| == |multiset(decks.Keys)| == |decks.Keys|;
    Page(DeckIndex(entries))
  }

  /** GET /deck/<id>: 404 exactly when the deck does not exist; otherwise the
      deck's page, listing every card of the deck, each once. */
  function ViewDeck(db: Database, deckId: nat): (r: Response)
    requires db.Valid()
    reads db
    ensures r == NotFound <==> deckId !in db.decks
    ensures r != NotFound ==>
      && r.Page? && r.view.DeckDetail?
      && r.view.deck == DeckEntry(deckId, db.decks[deckId])
      && (forall e :: e in r.view.cards ==> e.id in db.cards && e.card == db.cards[e.id] && e.card.deckId == deckId)
      && (forall id :: id in DeckCardSet(db.cards, deckId) ==> CardEntry(id, db.cards[id]) in r.view.cards)
      && |r.view.cards| == |DeckCardSet(db.cards, deckId)|
  {
    if deckId !in db.decks then NotFound
    else
      var ids := db.CardIdsOf(deckId);
      var cards := db.cards;
      var entries := seq(|ids|, i requires 0 <= i < |ids| && ids[i] in cards => CardEntry(ids[i], cards[ids[i]]));
      assert forall id :: id in DeckCardSet(db.cards, deckId) ==> CardEntry(id, db.cards[id]) in entries by {
        forall id | id in DeckCardSet(db.cards, deckId) ensures CardEntry(id, db.cards[id]) in entries {
          var i :| 0 <= i < |ids| && ids[i] == id;
          assert entries[i] == CardEntry(id, db.cards[id]);
        }
      }
      assert |ids| == |multiset(ids)| == |multiset(DeckCardSet(db.cards, deckId))|;
      Page(DeckDetail(DeckEntry(deckId, db.decks[deckId]), entries))
  }

  /** GET /quiz/<id>: 404 when the deck does not exist, a redirect to the
      deck's page when it has no cards, and the quiz page otherwise. */
  function Quiz(db: Database, deckId: nat): (r: Response)
    requires db.Valid()
    reads db
    ensures r == NotFound <==> deckId !in db.decks
    ensures r == Redirect(ToDeck(deckId)) <==> deckId in db.decks && DeckCardSet(db.cards, deckId) == {}
    ensures r.Page? <==> deckId in db.decks && DeckCardSet(db.cards, deckId) != {}
    ensures r.Page? ==> r.view == QuizView(DeckEntry(deckId, db.decks[deckId]))
  {
    if deckId !in db.decks then NotFound
    else if db.CardIdsOf(deckId) == [] then Redirect(ToDeck(deckId))
    else Page(QuizView(DeckEntry(deckId, db.decks[deckId])))
  }

  /** The quiz payload of the cards `ids`, taken from the card table. */
  function QuizItemsOf(cards: map<nat, Card>, ids: seq<nat>): (r: seq<QuizItem>)
    requires forall id :: id in ids ==> id in cards
    ensures ItemIds(r) == ids
    ensures forall item :: item in r ==>
      item.id in cards && item.question == cards[item.id].question && item.answer == cards[item.id].answer
  {
    var r := seq(|ids|, i requires 0 <= i < |ids| && ids[i] in cards =>
      QuizItem(ids[i], cards[ids[i]].question, cards[ids[i]].answer));
    assert ItemIds(r) == ids;
    r
  }

  /** GET /api/quiz/<id>: the deck's cards as {id, question, answer}, each
      card exactly once, in the order the shuffle `draws` produce. There is
      no 404: a deck that does not exist has no cards, so the list is empty. */
  function QuizData(db: Database, deckId: nat, draws: seq<nat>): (r: Response)
    requires db.Valid()
    reads db
    ensures r.Json? && r.value.QuizItems?
    ensures multiset(ItemIds(r.value.items)) == multiset(DeckCardSet(db.cards, deckId))
    ensures forall item :: item in r.value.items ==>
      && item.id in db.cards && db.cards[item.id].deckId == deckId
      && item.question == db.cards[item.id].question
      && item.answer == db.cards[item.id].answer
    ensures deckId !in db.decks ==> r.value.items == []
  {
    var ids := db.CardIdsOf(deckId);
    ShufflePermutes(ids, draws);
    ShuffleKeepsElements(ids, draws);
    var items := QuizItemsOf(db.cards, Shuffle(ids, draws));
    assert deckId !in db.decks ==> DeckCardSet(db.cards, deckId) == {};
    Json(QuizItems(items))
  }

  /** POST /api/record_answer/<id>: 404 and no change when the card does not
      exist. Otherwise the JSON field `correct` (false when absent) selects
      the one counter of that card that goes up by 1; nothing else changes,
      and the reply is {success: true}. */
  method RecordAnswer(db: Database, cardId: nat, correct: Option<bool>) returns (r: Response)
    requires db.Valid()
    modifies db
    ensures db.Valid()
    ensures cardId !in old(db.cards) ==> r == NotFound && unchanged(db)
    ensures cardId in old(db.cards) ==>
      && r == Json(SuccessTrue)
      && db.decks == old(db.decks)
      && db.nextDeckId == old(db.nextDeckId) && db.nextCardId == old(db.nextCardId)
      && db.cards.Keys == old(db.cards).Keys
      && (forall id :: id in old(db.cards) && id != cardId ==> db.cards[id] == old(db.cards)[id])
      && var before, after := old(db.cards)[cardId], db.cards[cardId];
         && after.question == before.question && after.answer == before.answer
         && after.deckId == before.deckId
         && (if correct.GetOr(false)
             then after.correct == before.correct + 1 && after.incorrect == before.incorrect
             else after.incorrect == before.incorrect + 1 && after.correct == before.correct)
         && after.correct + after.incorrect == before.correct + before.incorrect + 1
    ensures CountersMonotone(old(db.cards), db.cards)
    ensures NonEmptyFields(old(db.decks), old(db.cards)) ==> NonEmptyFields(db.decks, db.cards)
  {
    if cardId !in db.cards {
      return NotFound;
    }
    var card := db.cards[cardId];
    if correct.GetOr(false) {
      card := card.(correct := card.correct + 1);
    } else {
      card := card.(incorrect := card.incorrect + 1);
    }
    db.cards := db.cards[cardId := card];
    r := Json(SuccessTrue);
  }

  /** POST /add_deck: 400 when the form has no `name` field. An empty name
      stores nothing. A new name becomes a deck under the next key; a name
      already used is refused by the store (500) and stores nothing. Every
      outcome but those errors redirects to the deck list. */
  method AddDeck(db: Database, name: Option<string>) returns (r: Response)
    requires db.Valid()
    modifies db
    ensures db.Valid()
    ensures name.None? ==> r == BadRequest && unchanged(db)
    ensures name == Some("") ==> r == Redirect(ToIndex) && unchanged(db)
    ensures name.Some? && name.value != "" && name.value in old(db.decks).Values ==>
      r == ServerError && unchanged(db)
    ensures name.Some? && name.value != "" && name.value !in old(db.decks).Values ==>
      && r == Redirect(ToIndex)
      && old(db.nextDeckId) !in old(db.decks)
      && db.decks == old(db.decks)[old(db.nextDeckId) := name.value]
      && db.cards == old(db.cards)
      && db.nextDeckId == old(db.nextDeckId) + 1 && db.nextCardId == old(db.nextCardId)
    ensures CountersMonotone(old(db.cards), db.cards)
    ensures NonEmptyFields(old(db.decks), old(db.cards)) ==> NonEmptyFields(db.decks, db.cards)
  {
    if name.None? {
      return BadRequest;
    }
    if name.value != "" {
      var id := db.InsertDeck(name.value);
      if id.None? {
        return ServerError;
      }
    }
    r := Redirect(ToIndex);
  }

  /** POST /add_card/<deck id>: 400 when the form lacks `question` or
      `answer`. When either is empty nothing is stored. Otherwise the card is
      stored under the next key with both counters at 0, unless the deck
      does not exist, which the store refuses (500). Every outcome but those
      errors redirects to the deck's page. */
  method AddCard(db: Database, deckId: nat, question: Option<string>, answer: Option<string>)
    returns (r: Response)
    requires db.Valid()
    modifies db
    ensures db.Valid()
    ensures question.None? || answer.None? ==> r == BadRequest && unchanged(db)
    ensures question.Some? && answer.Some? && (question.value == "" || answer.value == "") ==>
      r == Redirect(ToDeck(deckId)) && unchanged(db)
    ensures question.Some? && answer.Some? && question.value != "" && answer.value != "" ==>
      if deckId in old(db.decks) then
        && r == Redirect(ToDeck(deckId))
        && old(db.nextCardId) !in old(db.cards)
        && db.cards == old(db.cards)[old(db.nextCardId) := Card(question.value, answer.value, deckId, 0, 0)]
        && db.decks == old(db.decks)
        && db.nextCardId == old(db.nextCardId) + 1 && db.nextDeckId == old(db.nextDeckId)
      else
        r == ServerError && unchanged(db)
    ensures CountersMonotone(old(db.cards), db.cards)
    ensures NonEmptyFields(old(db.decks), old(db.cards)) ==> NonEmptyFields(db.decks, db.cards)
  {
    if question.None? || answer.None? {
      return BadRequest;
    }
    if question.value != "" && answer.value != "" {
      var id := db.InsertCard(question.value, answer.value, deckId);
      if id.None? {
        return ServerError;
      }
    }
    r := Redirect(ToDeck(deckId));
  }
}
