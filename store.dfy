/** The relational store behind the application: a deck table and a card
    table, each keyed by an integer primary key the store allocates, with
    the schema's constraints checked when a row is inserted. */
module Store {
  import opened Schema
  import opened Sequences

  /** A scan of the deck table in primary-key order, over the keys below `n`. */
  function DeckIdsBelow(decks: map<nat, string>, n: nat): (r: seq<nat>)
    ensures forall id :: id in r <==> id in decks && id < n
    ensures StrictlyIncreasing(r)
  {
    if n == 0 then []
    else
      var below := DeckIdsBelow(decks, n - 1);
      if n - 1 in decks then AppendLarger(below, n - 1); below + [n - 1] else below
  }

  /** A scan of the card table in primary-key order, over the keys below `n`,
      keeping the cards of deck `deckId`. */
  function CardIdsBelow(cards: map<nat, Card>, deckId: nat, n: nat): (r: seq<nat>)
    ensures forall id :: id in r <==> id in cards && cards[id].deckId == deckId && id < n
    ensures StrictlyIncreasing(r)
  {
    if n == 0 then []
    else
      var below := CardIdsBelow(cards, deckId, n - 1);
      if n - 1 in cards && cards[n - 1].deckId == deckId then
        AppendLarger(below, n - 1); below + [n - 1]
      else below
  }

  class Database {
    /** The deck table: id to name. */
    var decks: map<nat, string>
    /** The card table: id to row. */
    var cards: map<nat, Card>
    /** The next primary key each table hands out; keys start at 1. */
    var nextDeckId: nat
    var nextCardId: nat

    /** The store's own guarantees: keys below the next key to hand out, a
        unique name per deck, and every card pointing at an existing deck. */
    ghost predicate Valid()
      reads this
    {
      && 1 <= nextDeckId && 1 <= nextCardId
      && (forall id :: id in decks ==> 1 <= id < nextDeckId)
      && (forall id :: id in cards ==> 1 <= id < nextCardId)
      && UniqueNames(decks)
      && ForeignKeysHold(decks, cards)
    }

    /** Freshly created, empty tables. */
    constructor ()
      ensures Valid()
      ensures decks == map[] && cards == map[]
      ensures nextDeckId == 1 && nextCardId == 1
    {
      decks, cards := map[], map[];
      nextDeckId, nextCardId := 1, 1;
    }

    /** `Deck.query.all()`: every deck, each once. */
    function AllDeckIds(): (r: seq<nat>)
      requires Valid()
      reads this
      ensures forall id :: id in r <==> id in decks
      ensures multiset(r) == multiset(decks.Keys)
    {
      var r := DeckIdsBelow(decks, nextDeckId);
      IncreasingIsDistinct(r);
      assert (set id | id in r) == decks.Keys;
      r
    }

    /** `Card.query.filter_by(deck_id=...)`, also what a deck's `cards`
        relationship loads: every card of that deck, each once. */
    function CardIdsOf(deckId: nat): (r: seq<nat>)
      requires Valid()
      reads this
      ensures forall id :: id in r <==> id in cards && cards[id].deckId == deckId
      ensures multiset(r) == multiset(DeckCardSet(cards, deckId))
      ensures r == [] <==> DeckCardSet(cards, deckId) == {}
    {
      var r := CardIdsBelow(cards, deckId, nextCardId);
      IncreasingIsDistinct(r);
      assert (set id | id in r) == DeckCardSet(cards, deckId);
      assert r != [] ==> r[0] in DeckCardSet(cards, deckId);
      r
    }

    /** Adding a deck row and committing. The unique constraint on the name
        makes the commit fail when the name is already used; then nothing is
        stored. Otherwise the deck gets the next key. */
    method InsertDeck(name: string) returns (id: Option<nat>)
      requires Valid()
      modifies this
      ensures Valid()
      ensures id.None? <==> name in old(decks).Values
      ensures id.None? ==> unchanged(this)
      ensures id.Some? ==>
        && id.value == old(nextDeckId) && id.value !in old(decks)
        && decks == old(decks)[id.value := name]
        && cards == old(cards)
        && nextDeckId == old(nextDeckId) + 1 && nextCardId == old(nextCardId)
    {
      if name in decks.Values {
        id := None;
      } else {
        id := Some(nextDeckId);
        decks := decks[nextDeckId := name];
        nextDeckId := nextDeckId + 1;
      }
    }

    /** Adding a card row and committing. The foreign key makes the commit
        fail when the deck does not exist; then nothing is stored. Otherwise
        the card gets the next key and both counters start at 0. */
    method InsertCard(question: string, answer: string, deckId: nat) returns (id: Option<nat>)
      requires Valid()
      modifies this
      ensures Valid()
      ensures id.None? <==> deckId !in old(decks)
      ensures id.None? ==> unchanged(this)
      ensures id.Some? ==>
        && id.value == old(nextCardId) && id.value !in old(cards)
        && cards == old(cards)[id.value := Card(question, answer, deckId, 0, 0)]
        && decks == old(decks)
        && nextCardId == old(nextCardId) + 1 && nextDeckId == old(nextDeckId)
    {
      if deckId !in decks {
        id := None;
      } else {
        id := Some(nextCardId);
        cards := cards[nextCardId := Card(question, answer, deckId, 0, 0)];
        nextCardId := nextCardId + 1;
      }
    }
  }
}
