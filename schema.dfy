/** The two tables of the flashcards application and the constraints the
    relational store enforces on them (a unique deck name, a card's foreign
    key to its deck), stated over plain maps. */
module Schema {

  /** An optional value, used for form fields and JSON fields that may be absent. */
  datatype Option<T> = None | Some(value: T) {
    /** The value, or `default` when absent. */
    function GetOr(default: T): T {
      match this
      case Some(v) => v
      case None => default
    }
  }

  /** A row of the card table; the deck table maps an id to the deck's name. */
  datatype Card = Card(question: string, answer: string, deckId: nat, correct: nat, incorrect: nat)

  /** The `unique=True` constraint on the deck name column. */
  ghost predicate UniqueNames(decks: map<nat, string>) {
    forall a, b :: a in decks && b in decks && decks[a] == decks[b] ==> a == b
  }

  /** The foreign key from a card's deck id to the deck table. */
  ghost predicate ForeignKeysHold(decks: map<nat, string>, cards: map<nat, Card>) {
    forall id :: id in cards ==> cards[id].deckId in decks
  }

  /** The ids of the cards that belong to deck `deckId`. */
  ghost function DeckCardSet(cards: map<nat, Card>, deckId: nat): set<nat> {
    set id | id in cards && cards[id].deckId == deckId
  }

  /** What the handlers add to the store's constraints: they never store an
      empty deck name, question or answer. */
  ghost predicate NonEmptyFields(decks: map<nat, string>, cards: map<nat, Card>) {
    && (forall id :: id in decks ==> decks[id] != "")
    && (forall id :: id in cards ==> cards[id].question != "" && cards[id].answer != "")
  }

  /** From `before` to `after` no card disappeared, no card changed its text or
      deck, and no counter went down. */
  ghost predicate CountersMonotone(before: map<nat, Card>, after: map<nat, Card>) {
    forall id :: id in before ==>
      && id in after
      && after[id].question == before[id].question
      && after[id].answer == before[id].answer
      && after[id].deckId == before[id].deckId
      && after[id].correct >= before[id].correct
      && after[id].incorrect >= before[id].incorrect
  }
}
