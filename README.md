# Card-game backend: deck aggregate, seeding helpers, auth and token gate

This project is a Dafny model of the core of a small card-game backend built on Express and Prisma. Users register and log in. They then build named decks of exactly ten cards, chosen from a read-only card catalog.

The database is one object, `Store.Database`, with these tables:

- the catalog: card ids in table order, unique;
- the deck table: deck id to name and owner;
- the deck-card join table: deck id, card id and 1-based position;
- the user table: id, email, username and stored hash.

Each Prisma write the handlers make is one method on it. Examples: `deck.create` with nested `createMany`, `deckcard.deleteMany`, `deckcard.createMany`, `deck.update`, `deck.delete`, `user.create`. The reads are functions in `Tables` and `Decks`: `card.findMany` is `Tables.Matching`, `deck.findUnique` is `Decks.Authorize` with `Decks.View`, `deck.findMany` is `Decks.GetMyDecks`, and `user.findUnique` is `Tables.FindByEmail`.

Handlers are modelled by kind:

- Handlers that write the store are methods. They check in the same order as the source and return an abstract `Response(status, body)`.
- Read-only handlers are functions: `getMyDecks`, `getDeckById`, `signIn` and the bearer-header parsing.

Modules, one per source file or layer:

- `Wrappers` (`wrappers.dfy`): `Option` and `Result`.
- `Tables` (`tables.dfy`):
  - the rows;
  - the queries `Matching` (the catalog lookup `id: { in: ids }`), `CardsOf`, `WithoutDeck`, `RowsFor` (the `cards.map((id, idx) => position idx + 1)` layout) and `FindByEmail`;
  - the deck invariants I1–I3: ten rows per deck, positions 1..10 without repeats, and every card in the catalog;
  - the lemmas that create, replace and delete preserve those invariants.
- `Store` (`store.dfy`): the `Database` class.
- `Http` (`http.dfy`): response bodies, status messages, and JavaScript truthiness of string fields (`HasText`).
- `Decks` (`decks.dfy`): `createDeck`, `getMyDecks`, `getDeckById`, `updateDeck`, `deleteDeck`.
- `Seed` (`seed.dfy`): `pickRandomUnique` (Fisher–Yates on an array copy, then a prefix) and `createStarterDeckForUser`.
- `Auth` (`auth.dfy`): `signUp`, `signIn`.
- `Middleware` (`middleware.dfy`): `authMiddleware` as the module-level method `Middleware.Authenticate`, which takes and modifies a `Request` object. The object holds the header, `req.user` and a count of `next()` calls.

Behaviour of the code worth noting:

- **Duplicate card ids are rejected.** The catalog lookup returns each matching card once, so the check `existingCards.length !== 10` fails whenever an id repeats. The handler has no explicit duplicate check, yet duplicates are refused. `Decks.AcceptedIffDistinctKnown` proves the check passes exactly for ten pairwise distinct catalog ids.
- **Update is not atomic.** It deletes the deck's rows and then inserts the new ones, in two separate store calls. The model runs them as two steps in sequence.
- **A missing deck and a forbidden deck are told apart.** Existence is checked before ownership, so one gets 404 and the other 403.
- **The seeding helper can leave an empty deck.** It creates the "Starter Deck" row before it checks the catalog size. With fewer than ten cards it throws, and the deck stays with no cards. `Seed.CreateStarterDeckForUser` proves that the store then breaks invariant I1.
- **Update may set an empty name.** `name ?? deck.name` keeps the old name only for null or undefined, while create refuses a falsy name.

Request body fields are modelled as follows:

- String fields are `Option<string>`. `None` covers null and undefined, and `HasText` is JavaScript truthiness.
- `cards` is a `CardsField` with three cases: `NoCards` (a falsy value), `NotAList` (a truthy non-array) or `CardList(ids)`.
- `Math.random` becomes an input sequence `choices`. `choices[i]` is the index drawn when the shuffle loop is at `i`, and lies in `0..i`.
- The foreign libraries become function parameters: `hash`, `compare` and `sign` for bcrypt and jwt, and `verify` (a partial function) for `jwt.verify`.

## Model

| member | source | states |
|---|---|---|
| `Tables.Matching` | src/controllers/decks.controller.ts:19-21 | the catalog lookup returns exactly the catalog ids that occur in the requested list |
| `Tables.MatchingSize` | src/controllers/decks.controller.ts:19-23 | over a catalog with unique ids, the lookup returns as many rows as there are distinct known ids in the request |
| `Tables.ElemsCount` | src/controllers/decks.controller.ts:23 | a list has as many distinct ids as entries exactly when no id repeats |
| `Tables.CardsOf` | src/controllers/decks.controller.ts:82-86 | the rows included with a deck are exactly the join rows carrying its id |
| `Tables.WithoutDeck` | src/controllers/decks.controller.ts:141-143 | `deleteMany({ deckID })` keeps exactly the rows of other decks |
| `Tables.CardsOfWithout` | src/controllers/decks.controller.ts:141-143 | after deleting a deck's rows that deck has none and every other deck keeps its rows |
| `Tables.CardsOfRowsFor` | src/controllers/decks.controller.ts:145-151 | rows laid out for a deck belong to that deck and to no other |
| `Tables.RowsForComposition` | src/controllers/decks.controller.ts:34-37 | ten ids laid out by position form a valid deck (positions 1..10, no repeats) and position k+1 holds the k-th id |
| `Tables.PositionLookup` | src/controllers/decks.controller.ts:146-150 | with distinct positions, looking a position up finds the card stored at it |
| `Tables.FreshDeckHasNoRows` | src/controllers/decks.controller.ts:28-40 | a newly allocated deck id has no join rows before its cards are inserted |
| `Tables.CreatePreservesInvariants` | src/controllers/decks.controller.ts:28-40 | creating a deck with ten catalog cards keeps ten rows at positions 1..10 for every deck |
| `Tables.ReplacePreservesInvariants` | src/controllers/decks.controller.ts:141-151 | delete-then-insert of ten catalog cards keeps the deck invariants for every deck |
| `Tables.DeletePreservesInvariants` | src/controllers/decks.controller.ts:192-198 | removing a deck's rows and the deck keeps the invariants of the remaining decks |
| `Tables.FindByEmail` | src/controllers/auth.controller.ts:16-18 | the lookup misses exactly when no user has the email, and otherwise returns a user with that email |
| `Tables.FindByEmailAppend` | src/controllers/auth.controller.ts:27-33 | after one insertion, lookups of other emails are unchanged and the new email finds the new user |
| `Tables.OnlyUserWithEmail` | src/controllers/auth.controller.ts:64-66 | under the unique constraint on emails, the lookup returns the one user with that email |
| `Store.Database.CreateDeck` | src/controllers/decks.controller.ts:28-46 | one deck row under a fresh id plus its card rows at positions 1.. in order; the other tables are untouched |
| `Store.Database.DeleteCardsOf` | src/controllers/decks.controller.ts:141-143 | the join table loses exactly the deck's rows |
| `Store.Database.InsertCards` | src/controllers/decks.controller.ts:145-151 | the given rows are appended to the join table |
| `Store.Database.RenameDeck` | src/controllers/decks.controller.ts:154-158 | only the name of that deck changes; the owner is kept |
| `Store.Database.RemoveDeck` | src/controllers/decks.controller.ts:196-198 | the deck row is removed, once no row refers to it |
| `Store.Database.CreateUser` | src/controllers/auth.controller.ts:27-33 | exactly one user is appended, with the next id and the given fields |
| `Decks.AcceptedIffDistinctKnown` | src/controllers/decks.controller.ts:19-26 | the count check passes if and only if the ten ids are pairwise distinct and all in the catalog |
| `Decks.Authorize` | src/controllers/decks.controller.ts:89-97 | 404 exactly for a missing deck, 403 exactly for another user's deck, otherwise the handler goes on |
| `Decks.GetMyDecks` | src/controllers/decks.controller.ts:59-68 | 200 with exactly the caller's decks, each with its rows; a function, so the store is unchanged |
| `Decks.GetDeckById` | src/controllers/decks.controller.ts:75-104 | 404 if absent, else 403 if not owned, else 200 with the deck and its rows |
| `Decks.ListingAgreesWithGet` | src/controllers/decks.controller.ts:55-104 | a deck is listed for a user exactly when that user may read it by id, with the same content |
| `Decks.CreateDeck` | src/controllers/decks.controller.ts:4-53 | name, then count, then ids checked in that order with their messages; errors leave the store unchanged; success iff ten distinct catalog ids, adding one deck owned by the caller with rows at positions 1..10 in input order and no other deck's rows changed |
| `Decks.UpdateDeck` | src/controllers/decks.controller.ts:106-171 | 404/403 before any card check and store unchanged on every error; 200 exactly when the caller owns the deck and `cards` is falsy or ten distinct catalog ids; invalid cards give 400 and leave the old rows and name; a valid list makes the deck's rows exactly the new ten at positions 1..10; the name becomes `name ?? old name`, the owner never changes, other decks are untouched |
| `Decks.DeleteDeck` | src/controllers/decks.controller.ts:173-205 | 404/403 with the store unchanged; otherwise the deck and all its rows are gone and other decks keep theirs |
| `Decks.DeleteTwice` | src/controllers/decks.controller.ts:182-198 | a second delete of a deck that was just deleted answers 404 |
| `Seed.SwapPermutes` | prisma/seed.ts:21 | swapping two in-range entries permutes the array and keeps it free of repetition |
| `Seed.ShufflePermutes` | prisma/seed.ts:18-22 | the loop's passes from index i down to 1 produce a permutation, free of repetition when the input is |
| `Seed.PrefixOfPermutation` | prisma/seed.ts:23 | a prefix of a permutation draws each element at most as often as the original holds it |
| `Seed.PickRandomUnique` | prisma/seed.ts:13-24 | throws exactly when count exceeds the length; otherwise returns the first count items of the shuffled copy, so exactly count items, all from the input, distinct when the input is; the input array is not modified |
| `Seed.StarterLayout` | prisma/seed.ts:48-54 | ten distinct catalog cards laid out by position form a starter deck: positions 1..10, distinct cards, all from the catalog |
| `Seed.CreateStarterDeckForUser` | prisma/seed.ts:26-57 | the "Starter Deck" row is always created; with fewer than ten catalog cards it throws and leaves that deck empty, breaking invariant I1; otherwise the deck gets ten rows at positions 1..10 with distinct catalog cards |
| `Auth.SignUp` | src/controllers/auth.controller.ts:7-53 | 400 if a field is missing, else 409 if the email is taken, both leaving the table unchanged; else exactly one user is added with the hashed password, and the token carries id and email and the returned user has no password |
| `Auth.SignIn` | src/controllers/auth.controller.ts:55-98 | 400 if a field is missing; 401 "Invalid credentials" for an unknown email and for a wrong password alike; 200 only for a user with that email whose hash the password matches, with a token for id and email |
| `Auth.RegisteredUserCanSignIn` | src/controllers/auth.controller.ts:25-78 | a user stored with the hash of a password can log in with that password, assuming a password compares true with its own hash |
| `Auth.RegisteredEmailIsTaken` | src/controllers/auth.controller.ts:16-23 | once a user is inserted, the email lookup for a second registration finds them |
| `Middleware.BearerToken` | src/middlewares/auth.middleware.ts:20-25 | a token is extracted exactly when the header starts with "Bearer " (case and space included), and prefix plus token is the header |
| `Middleware.BearerTokenOfPrefixed` | src/middlewares/auth.middleware.ts:25 | every token written behind the prefix is extracted unchanged |
| `Middleware.Authenticate` | src/middlewares/auth.middleware.ts:12-41 | no or malformed header gives 401 "No token provided", and a rejected token 401 "Invalid or expired token", both leaving `req.user` unset and `next` uncalled; an accepted token sets `req.user` to the decoded id and email, calls `next` once and writes nothing; exactly one of the two happens |

## Left out

- The routes files and the card listing handler are left out: they are Express wiring and a single ordered query.
- `main` of the seeding script is left out: it reads a JSON file, runs concurrent inserts, logs and exits. Only the two helpers are modelled.
- `Seed.CreateStarterDeckForUser` takes no user name: the source uses it only in a log message, and logging is not modelled.
- bcrypt, jwt signing and jwt verification are function parameters. Token expiry and secrets are not modelled.
- `Auth.SignUp` treats `hash` as a deterministic function. bcrypt's random salt is not modelled.
- Atomicity and concurrency are not modelled. The update's delete and insert are two separate store calls, and a concurrent reader between them would see the deck with no cards; the sequential model cannot express that reader. No failure is injected between the two steps.
- The catch-all 500 paths are left out. These are store exceptions such as a non-integer card id, a non-string name, a deck owner missing from the user table, or a NaN deck id in the URL. Ids are integers here, and `Store.Database` methods require what the handlers establish before each call.
- `Middleware.Authenticate`: a synchronous exception thrown by `next()` itself would also land in the 401 branch. This is not modelled.
- `Middleware.Authenticate`: a token payload lacking `userId` or `email` is not distinguished from a complete one.
- `Seed.PickRandomUnique`: `count` is a natural number. The negative counts JavaScript's `slice` would accept are not modelled, and the only caller passes 10.
- Card attributes (name, hp, attack, type, pokedex number, image URL) are left out. The catalog holds card ids only, and returned decks carry their join rows without the nested card records.
- The order of `getMyDecks` results is left out: the listing is a map from deck id to deck.
