/**
 * The rows of the relational store and the pure queries the handlers run on them:
 * the card catalog lookup by id, the deck-card rows of one deck, the user lookup by
 * email, and the deck invariants (ten cards, positions 1..10, cards from the catalog).
 */
module Tables {
  import opened Wrappers

  /** Every deck holds exactly this many cards. */
  const DeckSize := 10

  /** A row of the deck table (its id is the key of the map that holds it). */
  datatype Deck = Deck(name: string, owner: int)

  /** A row of the deck-card join table: one card of one deck at a 1-based position. */
  datatype DeckCard = DeckCard(deckId: int, cardId: int, position: int)

  /** A row of the user table; `password` holds the stored hash, never the plaintext. */
  datatype User = User(id: int, email: string, username: string, password: string)

  // ---------------------------------------------------------------------------
  // Sequences without repetition

  predicate Distinct<T(==)>(s: seq<T>) {
    forall i, j :: 0 <= i < j < |s| ==> s[i] != s[j]
  }

  function Elems<T(==)>(s: seq<T>): set<T> {
    set x | x in s
  }

  lemma DistinctCons<T>(s: seq<T>)
    requires s != []
    ensures Distinct(s) <==> s[0] !in s[1..] && Distinct(s[1..])
  {
    if Distinct(s) {
      forall i, j | 0 <= i < j < |s[1..]| ensures s[1..][i] != s[1..][j] {
        assert s[1..][i] == s[i + 1] && s[1..][j] == s[j + 1];
      }
    }
    if s[0] !in s[1..] && Distinct(s[1..]) {
      forall i, j | 0 <= i < j < |s| ensures s[i] != s[j] {
        if i == 0 {
          assert s[j] == s[1..][j - 1];
        } else {
          assert s[i] == s[1..][i - 1] && s[j] == s[1..][j - 1];
        }
      }
    }
  }

  /** A sequence has as many distinct elements as entries exactly when it has no repetition. */
  lemma {:induction false} ElemsCount<T>(s: seq<T>)
    ensures |Elems(s)| <= |s|
    ensures |Elems(s)| == |s| <==> Distinct(s)
  {
    if s == [] {
      assert Elems(s) == {};
    } else {
      ElemsCount(s[1..]);
      DistinctCons(s);
      assert Elems(s) == {s[0]} + Elems(s[1..]);
      if s[0] in s[1..] {
        assert Elems(s) == Elems(s[1..]);
      } else {
        assert s[0] !in Elems(s[1..]);
      }
    }
  }

  /** A subset is no larger than its superset, and as large only when the two are equal. */
  lemma SubsetCount<T>(a: set<T>, b: set<T>)
    requires a <= b
    ensures |a| <= |b|
    ensures |a| == |b| ==> a == b
  {
    assert b == a + (b - a) && a * (b - a) == {};
    if a != b {
      var x :| x in b - a;
      assert |b - a| >= |{x}|;
    }
  }

  // ---------------------------------------------------------------------------
  // The catalog lookup `card.findMany({ where: { id: { in: ids } } })`

  /**
   * The catalog rows whose id occurs in `ids`, in catalog order. A row is returned
   * once however often its id occurs in `ids`.
   */
  function Matching(catalog: seq<int>, ids: seq<int>): (r: seq<int>)
    ensures forall x :: x in r <==> x in catalog && x in ids
  {
    if catalog == [] then []
    else (if catalog[0] in ids then [catalog[0]] else []) + Matching(catalog[1..], ids)
  }

  lemma {:induction false} MatchingDistinct(catalog: seq<int>, ids: seq<int>)
    requires Distinct(catalog)
    ensures Distinct(Matching(catalog, ids))
  {
    if catalog != [] {
      DistinctCons(catalog);
      MatchingDistinct(catalog[1..], ids);
      var rest := Matching(catalog[1..], ids);
      assert catalog[0] !in rest;
      if catalog[0] in ids {
        var m := [catalog[0]] + rest;
        assert m[1..] == rest;
        DistinctCons(m);
      }
    }
  }

  /** Over a catalog with unique ids, the lookup returns one row per distinct known id. */
  lemma MatchingSize(catalog: seq<int>, ids: seq<int>)
    requires Distinct(catalog)
    ensures |Matching(catalog, ids)| == |Elems(catalog) * Elems(ids)|
  {
    var m := Matching(catalog, ids);
    MatchingDistinct(catalog, ids);
    ElemsCount(m);
    assert Elems(m) == Elems(catalog) * Elems(ids);
  }

  // ---------------------------------------------------------------------------
  // Deck-card rows

  /** The deck-card rows of deck `d`, in table order (`deckcard.findMany({ deckID: d })`). */
  function CardsOf(rows: seq<DeckCard>, d: int): (r: seq<DeckCard>)
    ensures forall x :: x in r <==> x in rows && x.deckId == d
  {
    if rows == [] then []
    else (if rows[0].deckId == d then [rows[0]] else []) + CardsOf(rows[1..], d)
  }

  /** The table after `deckcard.deleteMany({ where: { deckID: d } })`. */
  function WithoutDeck(rows: seq<DeckCard>, d: int): (r: seq<DeckCard>)
    ensures forall x :: x in r <==> x in rows && x.deckId != d
  {
    if rows == [] then []
    else (if rows[0].deckId != d then [rows[0]] else []) + WithoutDeck(rows[1..], d)
  }

  /** The rows `ids.map((cardId, idx) => ({ deckID: d, cardID: cardId, position: idx + 1 }))`. */
  function RowsFor(d: int, ids: seq<int>): seq<DeckCard> {
    seq(|ids|, k requires 0 <= k < |ids| => DeckCard(d, ids[k], k + 1))
  }

  /** The card at `position` among `rows`: the first row holding that position. */
  function CardAtPosition(rows: seq<DeckCard>, position: int): Option<int> {
    if rows == [] then None
    else if rows[0].position == position then Some(rows[0].cardId)
    else CardAtPosition(rows[1..], position)
  }

  /** Invariants I1 and I3: ten rows of deck `d` whose positions are 1..10 without repeats. */
  ghost predicate ValidComposition(rows: seq<DeckCard>, d: int) {
    && |rows| == DeckSize
    && (forall i :: 0 <= i < |rows| ==> rows[i].deckId == d && 1 <= rows[i].position <= DeckSize)
    && (forall i, j :: 0 <= i < j < |rows| ==> rows[i].position != rows[j].position)
  }

  /** Every deck-card row belongs to an existing deck (the foreign key deckID). */
  ghost predicate RowsReference(rows: seq<DeckCard>, decks: map<int, Deck>) {
    forall row :: row in rows ==> row.deckId in decks
  }

  /** Invariants I1 to I3 over the whole store. */
  ghost predicate DeckInvariants(catalog: seq<int>, decks: map<int, Deck>, rows: seq<DeckCard>) {
    && RowsReference(rows, decks)
    && (forall row :: row in rows ==> row.cardId in catalog)
    && (forall d :: d in decks ==> ValidComposition(CardsOf(rows, d), d))
  }

  lemma {:induction false} CardsOfAppend(a: seq<DeckCard>, b: seq<DeckCard>, d: int)
    ensures CardsOf(a + b, d) == CardsOf(a, d) + CardsOf(b, d)
  {
    if a != [] {
      var head := if a[0].deckId == d then [a[0]] else [];
      assert (a + b)[0] == a[0] && (a + b)[1..] == a[1..] + b;
      CardsOfAppend(a[1..], b, d);
      calc {
        CardsOf(a + b, d);
        head + CardsOf(a[1..] + b, d);
        head + (CardsOf(a[1..], d) + CardsOf(b, d));
        (head + CardsOf(a[1..], d)) + CardsOf(b, d);
      }
    } else {
      assert a + b == b;
    }
  }

  lemma {:induction false} CardsOfNone(rows: seq<DeckCard>, d: int)
    requires forall k :: 0 <= k < |rows| ==> rows[k].deckId != d
    ensures CardsOf(rows, d) == []
  {
    if rows != [] {
      CardsOfNone(rows[1..], d);
    }
  }

  lemma {:induction false} CardsOfAll(rows: seq<DeckCard>, d: int)
    requires forall k :: 0 <= k < |rows| ==> rows[k].deckId == d
    ensures CardsOf(rows, d) == rows
  {
    if rows != [] {
      CardsOfAll(rows[1..], d);
      assert [rows[0]] + rows[1..] == rows;
    }
  }

  /** A deck id no row refers to has no rows. */
  lemma FreshDeckHasNoRows(rows: seq<DeckCard>, decks: map<int, Deck>, id: int)
    requires RowsReference(rows, decks) && id !in decks
    ensures CardsOf(rows, id) == []
  {
    forall k | 0 <= k < |rows| ensures rows[k].deckId != id {
      assert rows[k] in rows;
    }
    CardsOfNone(rows, id);
  }

  /** Deleting the rows of deck `d` empties `d` and leaves every other deck's rows as they were. */
  lemma {:induction false} CardsOfWithout(rows: seq<DeckCard>, d: int, e: int)
    ensures CardsOf(WithoutDeck(rows, d), e) == if e == d then [] else CardsOf(rows, e)
  {
    if rows != [] {
      CardsOfWithout(rows[1..], d, e);
      var head := if rows[0].deckId != d then [rows[0]] else [];
      assert WithoutDeck(rows, d) == head + WithoutDeck(rows[1..], d);
      CardsOfAppend(head, WithoutDeck(rows[1..], d), e);
    }
  }

  /** Rows made for deck `d` belong to `d` and to no other deck. */
  lemma CardsOfRowsFor(d: int, ids: seq<int>, e: int)
    ensures CardsOf(RowsFor(d, ids), e) == if e == d then RowsFor(d, ids) else []
  {
    if e == d {
      CardsOfAll(RowsFor(d, ids), d);
    } else {
      CardsOfNone(RowsFor(d, ids), e);
    }
  }

  lemma {:induction false} PositionLookup(rows: seq<DeckCard>, k: int)
    requires forall i, j :: 0 <= i < j < |rows| ==> rows[i].position != rows[j].position
    requires 0 <= k < |rows|
    ensures CardAtPosition(rows, rows[k].position) == Some(rows[k].cardId)
  {
    if k > 0 {
      assert rows[0].position != rows[k].position;
      assert rows[1..][k - 1] == rows[k];
      PositionLookup(rows[1..], k - 1);
    }
  }

  /**
   * Ten ids laid out by RowsFor form a valid composition, and reading the card at
   * position k + 1 gives back the k-th id: the list round-trips through the positions.
   */
  lemma RowsForComposition(d: int, ids: seq<int>)
    requires |ids| == DeckSize
    ensures ValidComposition(RowsFor(d, ids), d)
    ensures forall k :: 0 <= k < |ids| ==> CardAtPosition(RowsFor(d, ids), k + 1) == Some(ids[k])
  {
    var rows := RowsFor(d, ids);
    forall k | 0 <= k < |ids| ensures CardAtPosition(rows, k + 1) == Some(ids[k]) {
      PositionLookup(rows, k);
    }
  }

  /** Creating deck `id` with ten catalog cards keeps invariants I1 to I3. */
  lemma CreatePreservesInvariants(catalog: seq<int>, decks: map<int, Deck>, rows: seq<DeckCard>,
                                  id: int, deck: Deck, ids: seq<int>)
    requires DeckInvariants(catalog, decks, rows) && id !in decks
    requires |ids| == DeckSize && forall k :: 0 <= k < |ids| ==> ids[k] in catalog
    ensures DeckInvariants(catalog, decks[id := deck], rows + RowsFor(id, ids))
  {
    var decks', rows' := decks[id := deck], rows + RowsFor(id, ids);
    assert RowsReference(rows', decks');
    forall d | d in decks' ensures ValidComposition(CardsOf(rows', d), d) {
      CreatedComposition(decks, rows, id, ids, d);
    }
  }

  lemma CreatedComposition(decks: map<int, Deck>, rows: seq<DeckCard>, id: int, ids: seq<int>, d: int)
    requires RowsReference(rows, decks) && id !in decks && |ids| == DeckSize
    requires d in decks ==> ValidComposition(CardsOf(rows, d), d)
    requires d == id || d in decks
    ensures ValidComposition(CardsOf(rows + RowsFor(id, ids), d), d)
  {
    CardsOfAppend(rows, RowsFor(id, ids), d);
    CardsOfRowsFor(id, ids, d);
    if d == id {
      FreshDeckHasNoRows(rows, decks, id);
      RowsForComposition(id, ids);
      assert CardsOf(rows + RowsFor(id, ids), d) == RowsFor(id, ids);
    } else {
      assert CardsOf(rows + RowsFor(id, ids), d) == CardsOf(rows, d);
    }
  }

  /** Replacing the cards of deck `id` by ten catalog cards keeps invariants I1 to I3. */
  lemma ReplacePreservesInvariants(catalog: seq<int>, decks: map<int, Deck>, rows: seq<DeckCard>,
                                   id: int, deck: Deck, ids: seq<int>)
    requires DeckInvariants(catalog, decks, rows) && id in decks
    requires |ids| == DeckSize && forall k :: 0 <= k < |ids| ==> ids[k] in catalog
    ensures DeckInvariants(catalog, decks[id := deck], WithoutDeck(rows, id) + RowsFor(id, ids))
  {
    var decks', rows' := decks[id := deck], WithoutDeck(rows, id) + RowsFor(id, ids);
    assert RowsReference(rows', decks');
    forall d | d in decks' ensures ValidComposition(CardsOf(rows', d), d) {
      ReplacedComposition(decks, rows, id, ids, d);
    }
  }

  lemma ReplacedComposition(decks: map<int, Deck>, rows: seq<DeckCard>, id: int, ids: seq<int>, d: int)
    requires |ids| == DeckSize && d in decks
    requires d != id ==> ValidComposition(CardsOf(rows, d), d)
    ensures ValidComposition(CardsOf(WithoutDeck(rows, id) + RowsFor(id, ids), d), d)
  {
    CardsOfAppend(WithoutDeck(rows, id), RowsFor(id, ids), d);
    CardsOfRowsFor(id, ids, d);
    CardsOfWithout(rows, id, d);
    if d == id {
      RowsForComposition(id, ids);
      assert CardsOf(WithoutDeck(rows, id) + RowsFor(id, ids), d) == RowsFor(id, ids);
    } else {
      assert CardsOf(WithoutDeck(rows, id) + RowsFor(id, ids), d) == CardsOf(rows, d);
    }
  }

  /** Removing deck `id` together with its rows keeps invariants I1 to I3. */
  lemma DeletePreservesInvariants(catalog: seq<int>, decks: map<int, Deck>, rows: seq<DeckCard>, id: int)
    requires DeckInvariants(catalog, decks, rows)
    ensures DeckInvariants(catalog, decks - {id}, WithoutDeck(rows, id))
  {
    forall d | d in decks - {id} ensures ValidComposition(CardsOf(WithoutDeck(rows, id), d), d) {
      CardsOfWithout(rows, id, d);
    }
  }

  // ---------------------------------------------------------------------------
  // The user table

  /** `user.findUnique({ where: { email } })`: the first user with that email. */
  function FindByEmail(users: seq<User>, email: string): (r: Option<User>)
    ensures r.None? <==> forall i :: 0 <= i < |users| ==> users[i].email != email
    ensures r.Some? ==> r.value in users && r.value.email == email
  {
    if users == [] then None
    else if users[0].email == email then Some(users[0])
    else FindByEmail(users[1..], email)
  }

  /** The unique constraint on the email column. */
  predicate UniqueEmails(users: seq<User>) {
    forall i, j :: 0 <= i < j < |users| ==> users[i].email != users[j].email
  }

  /** Under unique emails, the user found by an email is the only user with it. */
  lemma OnlyUserWithEmail(users: seq<User>, u: User)
    requires UniqueEmails(users) && u in users
    ensures FindByEmail(users, u.email) == Some(u)
  {
    var v := FindByEmail(users, u.email).value;
    var i :| 0 <= i < |users| && users[i] == u;
    var j :| 0 <= j < |users| && users[j] == v;
    assert i == j;
  }

  lemma FoundIsOnly(users: seq<User>, email: string)
    requires UniqueEmails(users)
    ensures forall u :: u in users && u.email == email ==> FindByEmail(users, email) == Some(u)
  {
    forall u | u in users && u.email == email ensures FindByEmail(users, email) == Some(u) {
      OnlyUserWithEmail(users, u);
    }
  }

  /** Ids and emails are unique and every id lies below the auto-increment counter. */
  ghost predicate UsersValid(users: seq<User>, nextId: int) {
    && UniqueEmails(users)
    && (forall i :: 0 <= i < |users| ==> users[i].id < nextId)
    && (forall i, j :: 0 <= i < j < |users| ==> users[i].id != users[j].id)
  }

  /** A user appended behind a table that lacks its email is found by that email and no other lookup changes. */
  lemma {:induction false} FindByEmailAppend(users: seq<User>, u: User, email: string)
    ensures FindByEmail(users + [u], email) ==
            if FindByEmail(users, email).Some? then FindByEmail(users, email)
            else if u.email == email then Some(u) else None
  {
    if users != [] {
      assert (users + [u])[1..] == users[1..] + [u];
      FindByEmailAppend(users[1..], u, email);
    }
  }
}
