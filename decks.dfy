/**
 * The deck aggregate: create, list-mine, get, update and delete of a user's ten-card
 * deck over the store. The caller's id is the one the token gate attached.
 */
module Decks {
  import opened Wrappers
  import opened Tables
  import opened Store
  import opened Http

  /**
   * The `cards` field of a request body, as the handlers tell its cases apart:
   * a falsy value (absent, null, false, 0, ""), a truthy value that is not an
   * array, or an array of card ids.
   */
  datatype CardsField = NoCards | NotAList | CardList(ids: seq<int>)

  /** The field is an array of exactly ten entries. */
  predicate HasDeckSize(cards: CardsField) {
    cards.CardList? && |cards.ids| == DeckSize
  }

  /**
   * The handlers' validation: ten entries, and the catalog lookup by `id in ids`
   * returns ten rows.
   */
  predicate CardsAccepted(catalog: seq<int>, ids: seq<int>) {
    |ids| == DeckSize && |Matching(catalog, ids)| == DeckSize
  }

  /** What a card list must be for the deck to be written: ten pairwise distinct catalog ids. */
  ghost predicate TenDistinctKnown(catalog: seq<int>, ids: seq<int>) {
    |ids| == DeckSize && Distinct(ids) && forall k :: 0 <= k < |ids| ==> ids[k] in catalog
  }

  /**
   * The lookup returns each catalog row once, so counting its rows rejects a repeated
   * id as well as an unknown one: the check passes exactly for ten distinct known ids.
   */
  lemma AcceptedIffDistinctKnown(catalog: seq<int>, ids: seq<int>)
    requires Distinct(catalog)
    ensures CardsAccepted(catalog, ids) <==> TenDistinctKnown(catalog, ids)
  {
    if |ids| == DeckSize {
      var known := Elems(catalog) * Elems(ids);
      MatchingSize(catalog, ids);
      ElemsCount(ids);
      SubsetCount(known, Elems(ids));
      if CardsAccepted(catalog, ids) {
        assert known == Elems(ids);
        forall k | 0 <= k < |ids| ensures ids[k] in catalog {
          assert ids[k] in Elems(ids);
        }
      }
      if TenDistinctKnown(catalog, ids) {
        assert known == Elems(ids);
      }
    }
  }

  /** The deck `id` with its deck-card rows, as the handlers return it. */
  function View(db: Database, id: int): DeckView
    reads db
    requires id in db.decks
  {
    DeckView(id, db.decks[id].name, db.decks[id].owner, CardsOf(db.deckCards, id))
  }

  predicate OwnedBy(db: Database, deckId: int, user: int)
    reads db
  {
    deckId in db.decks && db.decks[deckId].owner == user
  }

  /**
   * The guard shared by get, update and delete: existence first, then ownership.
   * None means the caller owns the deck and the handler goes on.
   */
  function Authorize(db: Database, user: int, deckId: int): (denied: Option<Response>)
    reads db
    ensures denied == Some(Response(404, Error(DeckNotFound))) <==> deckId !in db.decks
    ensures denied == Some(Response(403, Error(Forbidden))) <==> deckId in db.decks && db.decks[deckId].owner != user
    ensures denied.None? <==> OwnedBy(db, deckId, user)
  {
    if deckId !in db.decks then Some(Response(404, Error(DeckNotFound)))
    else if db.decks[deckId].owner != user then Some(Response(403, Error(Forbidden)))
    else None
  }

  /** `getMyDecks`: every deck the caller owns, each with its cards, and no other deck. */
  function GetMyDecks(db: Database, user: int): (r: Response)
    reads db
    ensures r.status == 200 && r.body.DeckList?
    ensures forall id :: id in r.body.decks <==> OwnedBy(db, id, user)
    ensures forall id :: id in r.body.decks ==> id in db.decks && r.body.decks[id] == View(db, id)
  {
    Response(200, DeckList(map id | id in db.decks && db.decks[id].owner == user :: View(db, id)))
  }

  /** `getDeckById`: 404 for a missing deck, then 403 for another user's deck, else the deck. */
  function GetDeckById(db: Database, user: int, deckId: int): (r: Response)
    reads db
    ensures r.status == 404 <==> deckId !in db.decks
    ensures r.status == 403 <==> deckId in db.decks && db.decks[deckId].owner != user
    ensures r.status == 200 <==> OwnedBy(db, deckId, user)
    ensures r.status == 200 ==> r.body == DeckBody(View(db, deckId))
    ensures r.status != 200 ==> r.body.Error?
  {
    var denied := Authorize(db, user, deckId);
    if denied.Some? then denied.value else Response(200, DeckBody(View(db, deckId)))
  }

  /** The listing and the single-deck read agree: a deck is listed exactly when the caller may read it, with the same content. */
  lemma ListingAgreesWithGet(db: Database, user: int, deckId: int)
    ensures deckId in GetMyDecks(db, user).body.decks <==> GetDeckById(db, user, deckId).status == 200
    ensures deckId in GetMyDecks(db, user).body.decks ==>
              GetDeckById(db, user, deckId).body == DeckBody(GetMyDecks(db, user).body.decks[deckId])
  {
  }

  /** `createDeck`: name, then card count, then card ids; on success one deck with its ten rows. */
  method CreateDeck(db: Database, user: int, name: Option<string>, cards: CardsField) returns (r: Response)
    requires db.Valid()
    modifies db`decks, db`deckCards, db`nextDeckId
    ensures db.Valid()
    ensures r == Response(400, Error(NameRequired)) <==> !HasText(name)
    ensures r == Response(400, Error(WrongCardCount)) <==> HasText(name) && !HasDeckSize(cards)
    ensures r == Response(400, Error(InvalidCardIds)) <==>
              HasText(name) && HasDeckSize(cards) && !TenDistinctKnown(db.catalog, cards.ids)
    ensures r.status == 201 <==> HasText(name) && cards.CardList? && TenDistinctKnown(db.catalog, cards.ids)
    ensures r.status != 201 ==> r.status == 400 && unchanged(db)
    ensures r.status == 201 ==>
              var id := old(db.nextDeckId);
              && id !in old(db.decks)
              && db.decks == old(db.decks)[id := Deck(name.value, user)]
              && db.deckCards == old(db.deckCards) + RowsFor(id, cards.ids)
              && CardsOf(db.deckCards, id) == RowsFor(id, cards.ids)
              && r.body == DeckBody(View(db, id))
    ensures forall d :: d != old(db.nextDeckId) ==> CardsOf(db.deckCards, d) == CardsOf(old(db.deckCards), d)
    ensures old(db.Consistent()) ==> db.Consistent()
  {
    if !HasText(name) {
      return Response(400, Error(NameRequired));
    }
    if !HasDeckSize(cards) {
      return Response(400, Error(WrongCardCount));
    }
    AcceptedIffDistinctKnown(db.catalog, cards.ids);
    var existing := Matching(db.catalog, cards.ids);
    if |existing| != DeckSize {
      return Response(400, Error(InvalidCardIds));
    }
    ghost var rows, allDecks := db.deckCards, db.decks;
    ghost var wasConsistent := db.Consistent();
    var id := db.CreateDeck(name.value, user, cards.ids);
    forall d ensures CardsOf(db.deckCards, d) == if d == id then RowsFor(id, cards.ids) else CardsOf(rows, d) {
      CardsOfAppend(rows, RowsFor(id, cards.ids), d);
      CardsOfRowsFor(id, cards.ids, d);
      if d == id {
        FreshDeckHasNoRows(rows, allDecks, id);
      }
    }
    if wasConsistent {
      CreatePreservesInvariants(db.catalog, allDecks, rows, id, Deck(name.value, user), cards.ids);
    }
    r := Response(201, DeckBody(View(db, id)));
  }

  /**
   * `updateDeck`: existence, ownership, then (when `cards` is truthy) card validation;
   * then the old rows are deleted and the new ten inserted, and the name is set
   * to `name ?? deck.name`.
   */
  method UpdateDeck(db: Database, user: int, deckId: int, name: Option<string>, cards: CardsField)
    returns (r: Response)
    requires db.Valid()
    modifies db`decks, db`deckCards
    ensures db.Valid()
    ensures r == Response(404, Error(DeckNotFound)) <==> deckId !in old(db.decks)
    ensures r == Response(403, Error(Forbidden)) <==> deckId in old(db.decks) && old(db.decks[deckId].owner) != user
    ensures r.status == 400 <==>
              old(OwnedBy(db, deckId, user)) &&
              (cards.NotAList? || (cards.CardList? && !TenDistinctKnown(db.catalog, cards.ids)))
    ensures r.status == 400 ==> r.body == Error(if HasDeckSize(cards) then InvalidCardIds else WrongCardCount)
    ensures r.status == 200 <==>
              old(OwnedBy(db, deckId, user)) &&
              (cards.NoCards? || (cards.CardList? && TenDistinctKnown(db.catalog, cards.ids)))
    ensures r.status != 200 ==> unchanged(db)
    ensures r.status == 200 ==>
              && old(OwnedBy(db, deckId, user))
              && db.decks == old(db.decks)[deckId := Deck(name.GetOr(old(db.decks[deckId].name)), user)]
              && db.deckCards == (if cards.CardList? then WithoutDeck(old(db.deckCards), deckId) + RowsFor(deckId, cards.ids)
                                  else old(db.deckCards))
              && r.body == DeckBody(View(db, deckId))
    ensures r.status == 200 && cards.CardList? ==> CardsOf(db.deckCards, deckId) == RowsFor(deckId, cards.ids)
    ensures forall d :: d != deckId ==> CardsOf(db.deckCards, d) == CardsOf(old(db.deckCards), d)
    ensures old(db.Consistent()) ==> db.Consistent()
  {
    var denied := Authorize(db, user, deckId);
    if denied.Some? {
      return denied.value;
    }
    var deck := db.decks[deckId];
    if !cards.NoCards? {
      if !HasDeckSize(cards) {
        return Response(400, Error(WrongCardCount));
      }
      AcceptedIffDistinctKnown(db.catalog, cards.ids);
      var existing := Matching(db.catalog, cards.ids);
      if |existing| != DeckSize {
        return Response(400, Error(InvalidCardIds));
      }
      ghost var rows, wasConsistent := db.deckCards, db.Consistent();
      db.DeleteCardsOf(deckId);
      db.InsertCards(RowsFor(deckId, cards.ids));
      forall d ensures CardsOf(db.deckCards, d) == if d == deckId then RowsFor(deckId, cards.ids) else CardsOf(rows, d) {
        CardsOfAppend(WithoutDeck(rows, deckId), RowsFor(deckId, cards.ids), d);
        CardsOfRowsFor(deckId, cards.ids, d);
        CardsOfWithout(rows, deckId, d);
      }
      if wasConsistent {
        ReplacePreservesInvariants(db.catalog, db.decks, rows, deckId, deck, cards.ids);
      }
    }
    db.RenameDeck(deckId, name.GetOr(deck.name));
    r := Response(200, DeckBody(View(db, deckId)));
  }

  /** `deleteDeck`: existence, ownership, then the deck's rows and the deck itself are removed. */
  method DeleteDeck(db: Database, user: int, deckId: int) returns (r: Response)
    requires db.Valid()
    modifies db`decks, db`deckCards
    ensures db.Valid()
    ensures r == Response(404, Error(DeckNotFound)) <==> deckId !in old(db.decks)
    ensures r == Response(403, Error(Forbidden)) <==> deckId in old(db.decks) && old(db.decks[deckId].owner) != user
    ensures r.status == 200 <==> old(OwnedBy(db, deckId, user))
    ensures r.status != 200 ==> unchanged(db)
    ensures r.status == 200 ==>
              && r.body == Message(DeckDeleted)
              && db.decks == old(db.decks) - {deckId}
              && db.deckCards == WithoutDeck(old(db.deckCards), deckId)
              && CardsOf(db.deckCards, deckId) == []
    ensures forall d :: d != deckId ==> CardsOf(db.deckCards, d) == CardsOf(old(db.deckCards), d)
    ensures old(db.Consistent()) ==> db.Consistent()
  {
    var denied := Authorize(db, user, deckId);
    if denied.Some? {
      return denied.value;
    }
    ghost var rows, allDecks, wasConsistent := db.deckCards, db.decks, db.Consistent();
    db.DeleteCardsOf(deckId);
    db.RemoveDeck(deckId);
    forall d ensures CardsOf(db.deckCards, d) == if d == deckId then [] else CardsOf(rows, d) {
      CardsOfWithout(rows, deckId, d);
    }
    if wasConsistent {
      DeletePreservesInvariants(db.catalog, allDecks, rows, deckId);
    }
    r := Response(200, Message(DeckDeleted));
  }

  /** Deleting is not idempotent: once a delete succeeded, the same delete answers 404. */
  method DeleteTwice(db: Database, user: int, deckId: int) returns (first: Response, second: Response)
    requires db.Valid()
    modifies db`decks, db`deckCards
    ensures first.status == 200 ==> second == Response(404, Error(DeckNotFound))
  {
    first := DeleteDeck(db, user, deckId);
    second := DeleteDeck(db, user, deckId);
  }
}
