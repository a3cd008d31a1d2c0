/**
 * The database behind the ORM client, as one object whose tables the handlers
 * change step by step. Each method is one ORM call the handlers make.
 */
module Store {
  import opened Wrappers
  import opened Tables

  class Database {
    /** Card ids in the order the card table returns them; read-only to every handler. */
    var catalog: seq<int>
    /** The deck table, keyed by deck id. */
    var decks: map<int, Deck>
    /** The deck-card join table. */
    var deckCards: seq<DeckCard>
    /** The user table. */
    var users: seq<User>
    /** The id the next created deck receives (the table's auto-increment sequence). */
    var nextDeckId: int
    /** The id the next created user receives. */
    var nextUserId: int

    /** What the schema enforces: unique keys, foreign keys, fresh auto-increment ids. */
    ghost predicate Valid()
      reads this
    {
      && Distinct(catalog)
      && (forall id :: id in decks ==> id < nextDeckId)
      && RowsReference(deckCards, decks)
      && UsersValid(users, nextUserId)
    }

    /** Valid, and every deck satisfies invariants I1 to I3. */
    ghost predicate Consistent()
      reads this
    {
      Valid() && DeckInvariants(catalog, decks, deckCards)
    }

    /** A store holding the given catalog and nothing else. */
    constructor (catalog: seq<int>)
      requires Distinct(catalog)
      ensures Consistent()
      ensures this.catalog == catalog && decks == map[] && deckCards == [] && users == []
    {
      this.catalog := catalog;
      decks := map[];
      deckCards := [];
      users := [];
      nextDeckId := 1;
      nextUserId := 1;
    }

    /** `deck.create` with nested `deckCards.createMany`: one deck row and its card rows at positions 1.. in order. */
    method CreateDeck(name: string, owner: int, cardIds: seq<int>) returns (id: int)
      requires Valid()
      modifies this`decks, this`deckCards, this`nextDeckId
      ensures Valid()
      ensures id == old(nextDeckId) && id !in old(decks)
      ensures decks == old(decks)[id := Deck(name, owner)]
      ensures deckCards == old(deckCards) + RowsFor(id, cardIds)
      ensures nextDeckId == old(nextDeckId) + 1
    {
      id := nextDeckId;
      decks := decks[id := Deck(name, owner)];
      deckCards := deckCards + RowsFor(id, cardIds);
      nextDeckId := nextDeckId + 1;
    }

    /** `deckcard.deleteMany({ where: { deckID } })`. */
    method DeleteCardsOf(deckId: int)
      requires Valid()
      modifies this`deckCards
      ensures Valid()
      ensures deckCards == WithoutDeck(old(deckCards), deckId)
    {
      deckCards := WithoutDeck(deckCards, deckId);
    }

    /** `deckcard.createMany({ data: rows })`; every row must name an existing deck. */
    method InsertCards(rows: seq<DeckCard>)
      requires Valid()
      requires forall row :: row in rows ==> row.deckId in decks
      modifies this`deckCards
      ensures Valid()
      ensures deckCards == old(deckCards) + rows
    {
      deckCards := deckCards + rows;
    }

    /** `deck.update({ where: { id }, data: { name } })` on an existing deck; the owner is kept. */
    method RenameDeck(id: int, name: string)
      requires Valid() && id in decks
      modifies this`decks
      ensures Valid()
      ensures decks == old(decks)[id := Deck(name, old(decks)[id].owner)]
    {
      decks := decks[id := Deck(name, decks[id].owner)];
    }

    /** `deck.delete({ where: { id } })` on an existing deck that no deck-card row refers to any more. */
    method RemoveDeck(id: int)
      requires Valid() && id in decks
      requires forall row :: row in deckCards ==> row.deckId != id
      modifies this`decks
      ensures Valid()
      ensures decks == old(decks) - {id}
    {
      decks := decks - {id};
    }

    /** `user.create` for an email that no user has yet. */
    method CreateUser(email: string, username: string, password: string) returns (u: User)
      requires Valid() && FindByEmail(users, email).None?
      modifies this`users, this`nextUserId
      ensures Valid()
      ensures u == User(old(nextUserId), email, username, password)
      ensures users == old(users) + [u]
      ensures nextUserId == old(nextUserId) + 1
    {
      u := User(nextUserId, email, username, password);
      users := users + [u];
      nextUserId := nextUserId + 1;
    }
  }
}
