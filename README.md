# Flashcards: a verified model of the request handlers

The flashcards application keeps decks of question/answer cards in two
relational tables. It lets a user list decks, open a deck, add decks and
cards, run a quiz over a deck's cards in random order, and record whether
each answer was right. This project models that core in Dafny, without the
web framework and the ORM:

- `Schema` (`schema.dfy`) holds the card row and the constraints the
  store enforces. The deck name is unique and a card's `deck_id` is a
  foreign key to the deck table. It also holds two invariants the handlers
  keep: no empty name, question or answer is ever stored, and no counter
  ever goes down.
- `Store` (`store.dfy`) is the database as a class `Database`. It holds a
  deck table (`map<nat, string>`, id to name), a card table
  (`map<nat, Card>`) and the next primary key of each table. `Valid()` is
  the store's invariant. `InsertDeck` and `InsertCard` are atomic
  add-and-commit steps. An insert that breaks a constraint fails and stores
  nothing. `AllDeckIds` and `CardIdsOf` are the table scans behind
  `Deck.query.all()`, `Card.query.filter_by(deck_id=…)` and a deck's
  `cards` relationship.
- `Shuffling` (`shuffling.dfy`) models the Fisher–Yates shuffle the quiz
  endpoint applies to the card list. It is a recursive function over
  sequences that makes the same swaps, from the last position down, as the
  shuffle does in place. Its random draws are a parameter. It is proved to be a permutation for any draws, and every
  permutation is reachable by some draws.
- `Handlers` (`handlers.dfy`) has one member per route. Each returns an
  abstract `Response`: `NotFound` (404), `BadRequest` (400 for a missing
  form field), `ServerError` (500 for a commit the store refuses),
  `Redirect(target)`, `Page(view)` or `Json(value)`. The read-only routes
  are functions of the store's state. The three POST routes are methods
  that modify the store.
- `Scenario` (`scenario.dfy`) is a client. It creates the deck "Spanish",
  adds the card hola/hello, fetches the quiz, records two answers and asks
  for a missing deck. Every step is checked against the handlers'
  contracts alone.

The model follows the code where its behaviour may surprise:

- The store itself accepts an empty deck name, question or answer; only
  the handlers' presence checks keep them out.
- A missing form field raises a 400 error in the code (`request.form[...]`).
- A duplicate deck name reaches the database and fails there as a 500.
- The quiz JSON endpoint never answers 404. For an unknown deck it returns
  an empty list.

## Model

| member | source | states |
|---|---|---|
| `Store.DeckIdsBelow` | app.py:29 | a scan of the deck table lists exactly the deck keys below the bound, in increasing key order |
| `Store.CardIdsBelow` | app.py:47 | a filtered scan of the card table lists exactly the cards of the given deck below the bound, in increasing key order |
| `Store.Database.AllDeckIds` | app.py:29 | `Deck.query.all()` yields every deck of the table, each exactly once |
| `Store.Database.CardIdsOf` | app.py:47 | the cards of a deck are exactly the rows whose `deck_id` matches, each once; the list is empty iff the deck has no card |
| `Store.Database.Valid` | app.py:14-25 | the store's state: every key lies below the next key its table hands out, no two decks share a name, and every card's `deck_id` names a stored deck |
| `Schema.UniqueNames` | app.py:16 | the `unique=True` name column: two decks with the same name are the same deck |
| `Schema.ForeignKeysHold` | app.py:23 | the foreign key on `deck_id`: every card's deck is in the deck table |
| `Store.Database.constructor` | app.py:86-87 | creating the tables yields empty tables that satisfy the store invariant |
| `Store.Database.InsertDeck` | app.py:70-72 | committing a new deck fails, storing nothing, iff the name is already used (unique column); otherwise exactly one deck with that name is added under a fresh key, cards untouched, names stay unique |
| `Store.Database.InsertCard` | app.py:80-82 | committing a new card fails, storing nothing, iff its deck does not exist (foreign key); otherwise exactly one card is added under a fresh key with the given question, answer and deck and both counters at 0 (column defaults) |
| `Handlers.Index` | app.py:27-30 | the deck list holds every deck of the store with its name, each exactly once, and nothing else |
| `Handlers.ViewDeck` | app.py:32-35 | 404 exactly when the deck is absent; otherwise the deck's page with its name and exactly its cards, each once, as stored |
| `Handlers.Quiz` | app.py:37-43 | 404 iff the deck is absent; a redirect to the deck's page iff it exists and has no card; the quiz page for that deck iff it exists and has cards |
| `Handlers.QuizItemsOf` | app.py:49-53 | the payload lists the given cards in the given order, each with the id, question and answer stored for it |
| `Handlers.QuizData` | app.py:45-53 | the JSON list is a permutation of the deck's cards (same multiset of ids as the set of cards with that `deck_id`), each item carrying the stored question and answer; an unknown deck gives an empty list, not 404 |
| `Handlers.RecordAnswer` | app.py:55-64 | 404 and no change for a missing card; otherwise `{success: true}`, exactly one counter of that card up by 1 (`correct` if the field is true, `incorrect` if false or absent), the sum up by 1, every other card and the deck table unchanged, invariants kept |
| `Handlers.AddDeck` | app.py:66-73 | 400 without a `name` field; an empty name changes nothing and redirects to the index; a used name is refused by the store (500) and changes nothing; a new name adds exactly one deck under the next key and redirects to the index; counters never go down and no empty field is stored |
| `Handlers.AddCard` | app.py:75-83 | 400 without `question` or `answer`; an empty one changes nothing and redirects to the deck's page; otherwise one card with counters 0 is added under the next key and the deck's page follows, unless the deck is absent and the store refuses the insert (500, no change); other cards untouched |
| `Shuffling.Shuffle` | app.py:48 | the shuffle keeps the length of the list |
| `Shuffling.ShufflePermutes` | app.py:48 | whatever the random draws, the shuffled list is a permutation of the input |
| `Shuffling.ShuffleReaches` | app.py:48 | every permutation of the input is produced by some draws, so the model does not constrain the quiz order |

## Left out

- Flask routing, `render_template`, `url_for`/`redirect` URL building and `jsonify` encoding: responses are an abstract datatype, and a page's view holds the data the template is given.
- Environment loading, `SECRET_KEY`, the database URI and `app.run` are process setup and I/O. `db.create_all` creates only the tables that are missing and keeps existing rows; the constructor models the first start, over empty tables. A restart over existing data is covered too, because every handler requires only `Valid()` of the store, not an empty one.
- SQLAlchemy sessions, lazy relationship loading and how the database generates keys. Each write is one atomic step, and keys come from a per-table counter starting at 1. A failed commit leaves the model unchanged; the session's failed state after an integrity error is not modelled.
- The randomness of `random.shuffle`: its draws are a parameter, and uniformity cannot be stated in this model. The walk follows the Fisher–Yates form `random.shuffle` uses; Python's random module is not part of this model.
- Row order of unordered queries (`Deck.query.all()`, `filter_by`, `deck.cards`): the model lists rows in increasing key order, one of the orders a database may return.
- Concurrent requests and lost updates: each handler runs as one atomic step.
- The `String(80)` length limit on deck names, and the database's integer width for keys and counters (they are unbounded here).
- Store.Database.InsertDeck: deck names are compared exactly, character by character, as SQLite and PostgreSQL do by default. A database whose collation ignores case or accents (MySQL's default) would also refuse "spanish" once "Spanish" exists; collation-dependent uniqueness is not modelled.
- Whether the database actually enforces the foreign key on `deck_id`: the model always enforces it, so a card for a missing deck is refused by the store.
- Python truthiness of a non-boolean JSON `correct` value: the field is an optional boolean that defaults to false. A request body that is not JSON, which fails before the counter update, is not modelled.
