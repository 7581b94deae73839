/** A client of the handlers: the walk-through of creating a deck, adding a
    card, fetching the quiz and answering it, shown to follow from the
    handlers' contracts alone. */
module Scenario {
  import opened Schema
  import opened Store
  import opened Handlers

  method SpanishDeck(draws: seq<nat>) {
    var db := new Database();
    var r := AddDeck(db, Some("Spanish"));
    assert r == Redirect(ToIndex) && db.decks == map[1 := "Spanish"];

    r := AddDeck(db, Some("Spanish"));
    assert r == ServerError && db.decks == map[1 := "Spanish"];

    r := Quiz(db, 1);
    assert r == Redirect(ToDeck(1)) by {
      assert DeckCardSet(db.cards, 1) == {};
    }

    r := AddCard(db, 1, Some("hola"), Some(""));
    assert db.cards == map[];
    r := AddCard(db, 1, Some("hola"), Some("hello"));
    assert db.cards == map[1 := Card("hola", "hello", 1, 0, 0)];

    r := ViewDeck(db, 999);
    assert r == NotFound;

    AnswerOneCard(db, draws);
  }

  method AnswerOneCard(db: Database, draws: seq<nat>)
    requires db.Valid() && db.cards == map[1 := Card("hola", "hello", 1, 0, 0)]
    modifies db
  {
    var r := QuizData(db, 1, draws);
    assert DeckCardSet(db.cards, 1) == {1};
    assert |r.value.items| == 1 by {
      assert |ItemIds(r.value.items)| == |multiset{1}|;
    }
    assert r.value.items[0] in r.value.items;
    assert r.value.items == [QuizItem(1, "hola", "hello")];

    r := RecordAnswer(db, 1, Some(true));
    assert r == Json(SuccessTrue) && db.cards[1].correct == 1 && db.cards[1].incorrect == 0;

    r := RecordAnswer(db, 1, None);
    assert db.cards[1].correct == 1 && db.cards[1].incorrect == 1;
  }
}
