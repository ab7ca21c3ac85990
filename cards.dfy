/** The flashcard record shared by the server and the client, and the small
    wrappers both sides use. Time is counted in whole days. */
module Cards {

  type CardId = nat
  type UserId = nat

  /** A flashcard as the server stores it and sends it to the client. */
  datatype Card = Card(
    id: CardId,
    owner: UserId,
    question: string,
    answer: string,
    box: int,
    nextReview: int)

  datatype Option<T> = None | Some(value: T)

  /** The HTTP failures of the flashcard routes that the model keeps:
      400 (a rejected document) and 404 (no such card for this user). */
  datatype HttpError = BadRequest | NotFound

  datatype Result<T> = Ok(value: T) | Err(error: HttpError)

  /** A card is due for review once its review day has come. */
  predicate IsDue(card: Card, asOf: int)
  {
    card.nextReview <= asOf
  }

  /** The ids of the cards in a list. */
  function Ids(cards: seq<Card>): set<CardId>
  {
    set c | c in cards :: c.id
  }
}
