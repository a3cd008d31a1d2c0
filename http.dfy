/** The responses the handlers write: a status code and a JSON body. */
module Http {
  import opened Wrappers
  import opened Tables

  /** A deck as the handlers return it: its row together with its deck-card rows. */
  datatype DeckView = DeckView(id: int, name: string, owner: int, deckCards: seq<DeckCard>)

  /** The user object of an authentication response: deliberately without the password. */
  datatype PublicUser = PublicUser(id: int, email: string, username: string)

  /** The payload signed into a token and decoded from it. */
  datatype Claims = Claims(userId: int, email: string)

  datatype Body =
    | Error(error: string)
    | DeckBody(deck: DeckView)
    | DeckList(decks: map<int, DeckView>)
    | Message(message: string)
    | Session(token: string, user: PublicUser)

  datatype Response = Response(status: int, body: Body)

  const NameRequired := "Name is required"
  const WrongCardCount := "Deck must contain exactly 10 cards"
  const InvalidCardIds := "Some card IDs are invalid"
  const DeckNotFound := "Deck not found"
  const Forbidden := "Forbidden"
  const DeckDeleted := "Deck deleted successfully"
  const MissingFields := "Missing required fields"
  const EmailInUse := "Email already in use"
  const InvalidCredentials := "Invalid credentials"
  const NoTokenProvided := "No token provided"
  const InvalidToken := "Invalid or expired token"

  /** JavaScript truthiness of an optional string field: present and not empty. */
  predicate HasText(field: Option<string>) {
    field.Some? && field.value != ""
  }
}
