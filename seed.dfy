/**
 * The starter-deck helpers of the seeding script: a Fisher–Yates shuffle on a copy
 * followed by a prefix, and the creation of a starter deck of ten distinct catalog
 * cards. The random draws are an input: `choices[i]` is the index drawn when the
 * shuffle loop stands at index `i`.
 */
module Seed {
  import opened Wrappers
  import opened Tables
  import opened Store

  datatype SeedError =
    | NotEnoughItems(count: nat)   // "Not enough items to pick <count> unique elements."
    | NotEnoughCards(found: nat)   // "Not enough cards in DB to create a 10-card deck (found <found>)."

  const StarterDeckName := "Starter Deck"

  /** Every draw lies where `Math.floor(Math.random() * (i + 1))` puts it: in 0..i. */
  predicate ChoicesFit(choices: seq<int>) {
    forall i :: 0 <= i < |choices| ==> 0 <= choices[i] <= i
  }

  /** `[s[i], s[j]] = [s[j], s[i]]`. */
  function Swap<T>(s: seq<T>, i: int, j: int): (r: seq<T>)
    requires 0 <= i < |s| && 0 <= j < |s|
    ensures |r| == |s|
  {
    s[i := s[j]][j := s[i]]
  }

  lemma SwapPermutes<T>(s: seq<T>, i: int, j: int)
    requires 0 <= i < |s| && 0 <= j < |s|
    ensures multiset(Swap(s, i, j)) == multiset(s)
    ensures Distinct(s) ==> Distinct(Swap(s, i, j))
  {
  }

  /** The loop passes from index `i` down to 1 applied to `s`. */
  function ShuffleFrom<T>(s: seq<T>, choices: seq<int>, i: int): (r: seq<T>)
    requires |choices| == |s| && i < |s| && ChoicesFit(choices)
    ensures |r| == |s|
    decreases i
  {
    if i <= 0 then s else ShuffleFrom(Swap(s, i, choices[i]), choices, i - 1)
  }

  /** The whole shuffle: passes from the last index down to 1. */
  function Shuffle<T>(s: seq<T>, choices: seq<int>): (r: seq<T>)
    requires |choices| == |s| && ChoicesFit(choices)
    ensures |r| == |s|
  {
    ShuffleFrom(s, choices, |s| - 1)
  }

  /**
   * Each pass swaps two in-range indices, so the shuffle is a permutation, and it
   * keeps a sequence without repetition free of repetition.
   */
  lemma {:induction false} ShufflePermutes<T>(s: seq<T>, choices: seq<int>, i: int)
    requires |choices| == |s| && i < |s| && ChoicesFit(choices)
    ensures multiset(ShuffleFrom(s, choices, i)) == multiset(s)
    ensures Distinct(s) ==> Distinct(ShuffleFrom(s, choices, i))
    decreases i
  {
    if i > 0 {
      SwapPermutes(s, i, choices[i]);
      ShufflePermutes(Swap(s, i, choices[i]), choices, i - 1);
    }
  }

  lemma PrefixOfPermutation<T>(s: seq<T>, t: seq<T>, count: nat)
    requires multiset(s) == multiset(t) && count <= |s|
    ensures multiset(s[..count]) <= multiset(t)
  {
    assert s == s[..count] + s[count..];
  }

  /**
   * `pickRandomUnique`: throws when asked for more items than `arr` holds; otherwise
   * shuffles a copy of `arr` (which is left as it is) and returns its first `count` items.
   */
  method PickRandomUnique<T>(arr: array<T>, count: nat, choices: seq<int>) returns (r: Result<seq<T>, SeedError>)
    requires |choices| == arr.Length && ChoicesFit(choices)
    ensures r.Err? <==> count > arr.Length
    ensures r.Err? ==> r.error == NotEnoughItems(count)
    ensures r.Ok? ==> r.value == Shuffle(arr[..], choices)[..count]
    ensures r.Ok? ==> |r.value| == count && multiset(r.value) <= multiset(arr[..])
    ensures r.Ok? ==> forall x :: x in r.value ==> x in arr[..]
    ensures r.Ok? && Distinct(arr[..]) ==> Distinct(r.value)
  {
    if count > arr.Length {
      return Err(NotEnoughItems(count));
    }
    ghost var original := arr[..];
    var copy := new T[arr.Length](k requires 0 <= k < arr.Length reads arr => arr[k]);
    assert copy[..] == original;
    var i := copy.Length - 1;
    while i > 0
      invariant -1 <= i < copy.Length
      invariant ShuffleFrom(copy[..], choices, i) == Shuffle(original, choices)
    {
      var j := choices[i];
      ghost var before := copy[..];
      copy[i], copy[j] := copy[j], copy[i];
      assert copy[..] == Swap(before, i, j);
      i := i - 1;
    }
    ghost var shuffled := copy[..];
    ShufflePermutes(original, choices, |original| - 1);
    PrefixOfPermutation(shuffled, original, count);
    forall x | x in shuffled[..count] ensures x in original {
      assert x in multiset(shuffled[..count]);
    }
    r := Ok(copy[..count]);
  }

  /** The starter deck's rows: ten rows at positions 1..10 holding distinct catalog cards. */
  ghost predicate StarterRows(catalog: seq<int>, rows: seq<DeckCard>, d: int) {
    && ValidComposition(rows, d)
    && (forall i, j :: 0 <= i < j < |rows| ==> rows[i].cardId != rows[j].cardId)
    && (forall i :: 0 <= i < |rows| ==> rows[i].cardId in catalog)
  }

  /** Ten distinct catalog cards laid out at positions 1..10 are a valid starter deck. */
  lemma StarterLayout(catalog: seq<int>, id: int, picked: seq<int>)
    requires |picked| == DeckSize && Distinct(picked) && forall k :: 0 <= k < |picked| ==> picked[k] in catalog
    ensures StarterRows(catalog, RowsFor(id, picked), id)
  {
    RowsForComposition(id, picked);
    var rows := RowsFor(id, picked);
    assert forall i :: 0 <= i < |rows| ==> rows[i].cardId == picked[i];
  }

  /**
   * `createStarterDeckForUser`: the deck row is created first; with fewer than ten
   * catalog cards the helper then throws and the empty deck remains. Otherwise ten
   * picked cards are inserted at positions 1..10.
   */
  method CreateStarterDeckForUser(db: Database, userId: int, choices: seq<int>) returns (r: Result<int, SeedError>)
    requires db.Valid()
    requires |choices| == |db.catalog| && ChoicesFit(choices)
    modifies db`decks, db`deckCards, db`nextDeckId
    ensures db.Valid()
    ensures old(db.nextDeckId) !in old(db.decks)
    ensures db.decks == old(db.decks)[old(db.nextDeckId) := Deck(StarterDeckName, userId)]
    ensures r.Err? <==> |db.catalog| < DeckSize
    ensures r.Err? ==>
              && r.error == NotEnoughCards(|db.catalog|)
              && db.deckCards == old(db.deckCards)
              && CardsOf(db.deckCards, old(db.nextDeckId)) == []
              && !db.Consistent()
    ensures r.Ok? ==>
              && r.value == old(db.nextDeckId)
              && db.deckCards == old(db.deckCards) + RowsFor(r.value, Shuffle(db.catalog, choices)[..DeckSize])
              && StarterRows(db.catalog, CardsOf(db.deckCards, r.value), r.value)
    ensures r.Ok? ==> old(db.Consistent()) ==> db.Consistent()
  {
    ghost var rows, allDecks, wasConsistent := db.deckCards, db.decks, db.Consistent();
    var id := db.CreateDeck(StarterDeckName, userId, []);
    assert RowsFor(id, []) == [] && db.deckCards == rows;
    var allCards := db.catalog;
    if |allCards| < DeckSize {
      FreshDeckHasNoRows(rows, allDecks, id);
      assert id in db.decks && !ValidComposition(CardsOf(db.deckCards, id), id);
      return Err(NotEnoughCards(|allCards|));
    }
    var arr := new int[|allCards|](k requires 0 <= k < |allCards| => allCards[k]);
    assert arr[..] == allCards;
    var picked := PickRandomUnique(arr, DeckSize, choices);
    assert picked.Ok?;
    forall k | 0 <= k < |picked.value| ensures picked.value[k] in allCards {
      assert picked.value[k] in picked.value;
    }
    db.InsertCards(RowsFor(id, picked.value));
    FreshDeckHasNoRows(rows, allDecks, id);
    CardsOfAppend(rows, RowsFor(id, picked.value), id);
    CardsOfRowsFor(id, picked.value, id);
    StarterLayout(allCards, id, picked.value);
    assert db.deckCards == rows + RowsFor(id, picked.value);
    assert CardsOf(db.deckCards, id) == RowsFor(id, picked.value);
    if wasConsistent {
      CreatePreservesInvariants(allCards, allDecks, rows, id, Deck(StarterDeckName, userId), picked.value);
    }
    r := Ok(id);
  }
}
