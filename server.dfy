/** The authoritative side of the Leitner scheduler: the interval table, the
    box transition applied by the review route, and the per-user card store
    behind the create, due-list, review and delete routes. */
module Server {
  import opened Cards

  /** The highest Leitner box. */
  const MaxBox := 5

  /** The box a new card starts in when the request names none. */
  const InitialBox := 1

  predicate ValidBox(box: int)
  {
    1 <= box <= MaxBox
  }

  /** Days until the next review of a card in `box`: 1, 3, 7, 14 or 30 days
      for boxes 1 to 5, and the one-day delay for any other value. */
  function Interval(box: int): (days: nat)
    ensures 1 <= days <= 30
    ensures days == 1 <==> !(2 <= box <= MaxBox)
  {
    match box
    case 1 => 1
    case 2 => 3
    case 3 => 7
    case 4 => 14
    case 5 => 30
    case _ => 1
  }

  /** The review day the server sets for a card in `box` on day `now`. */
  function CalculateNextReview(box: int, now: int): (next: int)
    ensures next > now
  {
    now + Interval(box)
  }

  /** The box after an answer: one box up on a correct answer, capped at
      MaxBox, and back to box 1 on a wrong one. */
  function NextBox(box: int, correct: bool): (b: int)
    ensures b <= MaxBox
    ensures !correct ==> b == 1
    ensures correct && box < MaxBox ==> b == box + 1
    ensures correct && box >= MaxBox ==> b == MaxBox
  {
    if correct then (if box + 1 < MaxBox then box + 1 else MaxBox) else 1
  }

  /** The card after an answer on day `now`: the new box and the review day
      that box calls for; nothing else changes. */
  function Transition(card: Card, correct: bool, now: int): (r: Card)
    ensures r.id == card.id && r.owner == card.owner
    ensures r.question == card.question && r.answer == card.answer
    ensures !IsDue(r, now)
    ensures ValidBox(card.box) ==> ValidBox(r.box)
  {
    var b := NextBox(card.box, correct);
    card.(box := b, nextReview := CalculateNextReview(b, now))
  }

  /** The body of a create request. The server spreads the body into the new
      document, so a `box` given by the client is kept, while `nextReview` is
      always replaced. */
  datatype NewCardBody = NewCardBody(
    question: string,
    answer: string,
    box: Option<int>,
    nextReview: Option<int>)

  /** The card the create route builds from a request body on day `now`. */
  function NewCard(id: CardId, owner: UserId, body: NewCardBody, now: int): (c: Card)
    ensures c.id == id && c.owner == owner
    ensures c.question == body.question && c.answer == body.answer
    ensures c.nextReview == now + 1 && !IsDue(c, now) && IsDue(c, now + 1)
    ensures body.box.None? ==> c.box == InitialBox
    ensures body.box.Some? ==> c.box == body.box.value
  {
    var box := if body.box.Some? then body.box.value else InitialBox;
    Card(id, owner, body.question, body.answer, box, CalculateNextReview(InitialBox, now))
  }

  lemma IntervalTable()
    ensures Interval(1) == 1 && Interval(2) == 3 && Interval(3) == 7
    ensures Interval(4) == 14 && Interval(5) == 30
  {
  }

  lemma IntervalIncreasing(a: int, b: int)
    requires 1 <= a < b <= MaxBox
    ensures Interval(a) < Interval(b)
  {
  }

  lemma IntervalFallback(box: int)
    requires !ValidBox(box)
    ensures Interval(box) == Interval(InitialBox)
  {
  }

  /** A new box lies in 1..5 exactly when the answer was wrong or the old box
      was at least 0; in particular a box in 1..5 stays in 1..5. */
  lemma NextBoxInRange(box: int, correct: bool)
    ensures ValidBox(NextBox(box, correct)) <==> !correct || 0 <= box
    ensures ValidBox(box) ==> ValidBox(NextBox(box, correct))
  {
  }

  /** Box and review day are set together: the new review day is the answer
      day plus the interval of the new box, and only those two fields change. */
  lemma TransitionSetsBoxAndDateTogether(card: Card, correct: bool, now: int)
    ensures Transition(card, correct, now).nextReview == now + Interval(Transition(card, correct, now).box)
    ensures Transition(card, correct, now).box == NextBox(card.box, correct)
    ensures Transition(card, correct, now).(box := card.box, nextReview := card.nextReview) == card
  {
  }

  /** A card just answered is not due on the day of the answer, and becomes
      due exactly when its interval has passed. */
  lemma TransitionDueExactlyAfterInterval(card: Card, correct: bool, now: int, later: int)
    ensures !IsDue(Transition(card, correct, now), now)
    ensures IsDue(Transition(card, correct, now), later) <==>
            later >= now + Interval(NextBox(card.box, correct))
  {
  }

  /** A created card is due one day later whatever review day the client
      asked for. */
  lemma NewCardIgnoresRequestedReview(id: CardId, owner: UserId, body: NewCardBody, now: int, asked: Option<int>)
    ensures NewCard(id, owner, body, now) == NewCard(id, owner, body.(nextReview := asked), now)
    ensures NewCard(id, owner, body, now).nextReview == now + 1
    ensures body.box.None? ==> NewCard(id, owner, body, now).box == InitialBox
  {
  }

  /** The review day of a created card matches its box exactly when the
      request named no box or one whose interval is the one-day delay. */
  lemma NewCardScheduleMatchesBoxIff(id: CardId, owner: UserId, body: NewCardBody, now: int)
    ensures var c := NewCard(id, owner, body, now);
            c.nextReview == CalculateNextReview(c.box, now) <==>
            body.box.None? || !(2 <= body.box.value <= MaxBox)
  {
  }

  /** A card created on day t0 is due on t0+1; answered right then it moves to
      box 2 and is due again on t0+4 but not on t0+3. */
  lemma CreateThenReviewScenario(id: CardId, owner: UserId, q: string, a: string, t0: int)
    ensures var c := NewCard(id, owner, NewCardBody(q, a, None, None), t0);
            && !IsDue(c, t0) && IsDue(c, t0 + 1)
            && Transition(c, true, t0 + 1).box == 2
            && Transition(c, true, t0 + 1).nextReview == t0 + 4
            && !IsDue(Transition(c, true, t0 + 1), t0 + 3)
            && IsDue(Transition(c, true, t0 + 1), t0 + 4)
  {
  }

  /** The server's flashcard collection: documents by id, each owned by one
      user. Ids are handed out by the store in increasing order, so an id is
      never reused, even after its card is deleted. */
  class FlashcardStore {
    var cards: map<CardId, Card>
    var nextId: CardId

    ghost predicate Valid()
      reads this
    {
      forall id :: id in cards ==> cards[id].id == id && id < nextId
    }

    constructor ()
      ensures Valid() && cards == map[] && nextId == 0
    {
      cards := map[];
      nextId := 0;
    }

    /** The lookup by id and owner shared by the review and delete routes:
        a card of another user is not found. */
    function Lookup(id: CardId, user: UserId): (r: Option<Card>)
      reads this
      ensures r.Some? <==> id in cards && cards[id].owner == user
      ensures r.Some? ==> r.value == cards[id]
    {
      if id in cards && cards[id].owner == user then Some(cards[id]) else None
    }

    /** The due-list route: the caller's cards whose review day has come. */
    function DueFor(user: UserId, now: int): (due: set<Card>)
      reads this
      ensures forall c :: c in due <==> c in cards.Values && c.owner == user && IsDue(c, now)
    {
      set id | id in cards && cards[id].owner == user && IsDue(cards[id], now) :: cards[id]
    }

    /** The create route. A document without a question or an answer fails
        validation; otherwise the card gets a fresh id, the caller as owner and
        a review day one day out. */
    method Create(owner: UserId, body: NewCardBody, now: int) returns (r: Result<Card>)
      requires Valid()
      modifies this
      ensures Valid()
      ensures body.question == [] || body.answer == [] ==>
                r == Err(BadRequest) && cards == old(cards) && nextId == old(nextId)
      ensures body.question != [] && body.answer != [] ==>
                r.Ok? && r.value.id == old(nextId) && nextId == old(nextId) + 1
      ensures body.question != [] && body.answer != [] ==>
                && r.Ok? && r.value.id !in old(cards)
                && r.value == NewCard(r.value.id, owner, body, now)
                && cards == old(cards)[r.value.id := r.value]
    {
      if body.question == [] || body.answer == [] {
        return Err(BadRequest);
      }
      var card := NewCard(nextId, owner, body, now);
      cards := cards[nextId := card];
      nextId := nextId + 1;
      r := Ok(card);
    }

    /** The review route: the card's box is moved first, then its review day
        is set from the new box, and the updated card is returned. */
    method Review(id: CardId, user: UserId, correct: bool, now: int) returns (r: Result<Card>)
      requires Valid()
      modifies this
      ensures Valid() && nextId == old(nextId)
      ensures old(Lookup(id, user)).None? ==> r == Err(NotFound) && cards == old(cards)
      ensures old(Lookup(id, user)).Some? ==>
                && r == Ok(Transition(old(cards)[id], correct, now))
                && cards == old(cards)[id := r.value]
    {
      var found := Lookup(id, user);
      if found.None? {
        return Err(NotFound);
      }
      var card := found.value;
      if correct {
        card := card.(box := if card.box + 1 < MaxBox then card.box + 1 else MaxBox);
      } else {
        card := card.(box := 1);
      }
      card := card.(nextReview := CalculateNextReview(card.box, now));
      cards := cards[id := card];
      r := Ok(card);
    }

    /** The delete route: removes the caller's card and returns it. */
    method Delete(id: CardId, user: UserId) returns (r: Result<Card>)
      requires Valid()
      modifies this
      ensures Valid() && nextId == old(nextId)
      ensures old(Lookup(id, user)).None? ==> r == Err(NotFound) && cards == old(cards)
      ensures old(Lookup(id, user)).Some? ==> r == Ok(old(cards)[id]) && cards == old(cards) - {id}
    {
      var found := Lookup(id, user);
      if found.None? {
        return Err(NotFound);
      }
      cards := cards - {id};
      r := Ok(found.value);
    }
  }
}
