/** Flashcard records as the two display programs see them: JSON objects with
    string values, keyed "Hanzi", "Pinyin", and optionally "Meaning" and
    "Description". */
module Flashcards {
  import opened Results

  /** One card: a JSON object whose values are strings. */
  type Card = map<string, string>

  /** What `json.load` on the flashcards file comes to. */
  datatype DeckFile =
    | Parsed(cards: seq<Card>)   // a JSON array of card objects
    | Missing(reason: string)    // FileNotFoundError
    | Malformed(reason: string)  // json.JSONDecodeError
    | Unreadable(reason: string) // any other exception while opening or reading

  /** `card.get(key, default)`: the card's value when it has the key, the
      default otherwise. */
  function FieldOr(card: Card, key: string, default: string): (v: string)
    ensures key in card ==> v == card[key]
    ensures key !in card ==> v == default
  {
    if key in card then card[key] else default
  }

  /** `card.get(key)` is truthy: present and not the empty string. */
  predicate Truthy(card: Card, key: string)
  {
    key in card && card[key] != ""
  }

  /** A field is truthy exactly when reading it with an empty default gives
      something, and only a present key can be. */
  lemma TruthyIsNonEmptyGet(card: Card, key: string)
    ensures Truthy(card, key) <==> FieldOr(card, key, "") != ""
    ensures Truthy(card, key) ==> key in card
  {
  }
}
