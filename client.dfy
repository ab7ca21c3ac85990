/** The review screen of the browser client: its own copy of the interval
    table, the list transforms it applies to the cards the server sends, the
    review cursor, and the screen state those handlers update. */
module Client {
  import opened Cards
  import Server

  /** The client's copy of the interval table, used to preview the review
      day it sends along with an answer. */
  function CalculateNextReview(box: int, today: int): (next: int)
    ensures next > today
  {
    match box
    case 1 => today + 1
    case 2 => today + 3
    case 3 => today + 7
    case 4 => today + 14
    case 5 => today + 30
    case _ => today + 1
  }

  /** The client's preview of the box after an answer: the same box as the
      server's rule, so never above box 5, and box 1 after a wrong answer. */
  function NewBox(box: int, correct: bool): (b: int)
    ensures b == Server.NextBox(box, correct)
    ensures b <= Server.MaxBox && (!correct ==> b == 1)
  {
    if correct then (if box + 1 < 5 then box + 1 else 5) else 1
  }

  /** The client's preview of an answer is what the server then stores: the
      two copies of the box rule and of the interval table agree on every
      box, including the fallback for boxes outside 1..5. */
  lemma PreviewMatchesServer(card: Card, correct: bool, today: int)
    ensures NewBox(card.box, correct) == Server.Transition(card, correct, today).box
    ensures CalculateNextReview(NewBox(card.box, correct), today) ==
            Server.Transition(card, correct, today).nextReview
    ensures CalculateNextReview(card.box, today) == Server.CalculateNextReview(card.box, today)
  {
  }

  /** The cards of a fetched list that are due on `today`, in list order. */
  function FilterDue(cards: seq<Card>, today: int): (due: seq<Card>)
    ensures |due| <= |cards|
    ensures forall c :: c in due <==> c in cards && IsDue(c, today)
    ensures Ids(due) <= Ids(cards)
  {
    if cards == [] then []
    else (if IsDue(cards[0], today) then [cards[0]] else []) + FilterDue(cards[1..], today)
  }

  /** Filtering keeps the list order: it distributes over concatenation. */
  lemma {:induction false} FilterDueConcat(a: seq<Card>, b: seq<Card>, today: int)
    ensures FilterDue(a + b, today) == FilterDue(a, today) + FilterDue(b, today)
  {
    if a == [] {
      assert a + b == b;
    } else {
      assert (a + b)[1..] == a[1..] + b;
      FilterDueConcat(a[1..], b, today);
    }
  }

  /** Filtering a due list again on the same day changes nothing. */
  lemma {:induction false} FilterDueIdempotent(cards: seq<Card>, today: int)
    ensures FilterDue(FilterDue(cards, today), today) == FilterDue(cards, today)
  {
    if cards != [] {
      var rest := FilterDue(cards[1..], today);
      FilterDueIdempotent(cards[1..], today);
      if IsDue(cards[0], today) {
        assert FilterDue(cards, today) == [cards[0]] + rest;
        assert FilterDue([cards[0]], today) == [cards[0]] by {
          assert [cards[0]][1..] == [];
        }
        FilterDueConcat([cards[0]], rest, today);
      } else {
        assert FilterDue(cards, today) == rest;
      }
    }
  }

  /** The cards the server returns as due on `serverNow` are all kept by the
      client's own filter on any later day, in the order received. */
  lemma {:induction false} FetchedCardsStayDue(data: seq<Card>, serverNow: int, today: int)
    requires forall c :: c in data ==> IsDue(c, serverNow)
    requires serverNow <= today
    ensures FilterDue(data, today) == data
  {
    if data != [] {
      assert data[0] in data;
      FetchedCardsStayDue(data[1..], serverNow, today);
      assert [data[0]] + data[1..] == data;
    }
  }

  /** The list after the server's reply to an answer: the card with the same
      id is replaced, every other card is kept where it was. */
  function ReplaceById(cards: seq<Card>, updated: Card): (r: seq<Card>)
    ensures |r| == |cards|
    ensures forall i :: 0 <= i < |cards| ==>
              r[i] == if cards[i].id == updated.id then updated else cards[i]
    ensures Ids(r) == Ids(cards)
    ensures updated in r <==> updated.id in Ids(cards)
  {
    if cards == [] then []
    else [if cards[0].id == updated.id then updated else cards[0]] + ReplaceById(cards[1..], updated)
  }

  /** The list after a delete: every card with that id is gone, and the
      others are kept. */
  function RemoveById(cards: seq<Card>, id: CardId): (r: seq<Card>)
    ensures |r| <= |cards|
    ensures forall c :: c in r <==> c in cards && c.id != id
    ensures Ids(r) == Ids(cards) - {id}
  {
    if cards == [] then []
    else (if cards[0].id != id then [cards[0]] else []) + RemoveById(cards[1..], id)
  }

  /** Deleting keeps the order of the remaining cards. */
  lemma {:induction false} RemoveByIdConcat(a: seq<Card>, b: seq<Card>, id: CardId)
    ensures RemoveById(a + b, id) == RemoveById(a, id) + RemoveById(b, id)
  {
    if a == [] {
      assert a + b == b;
    } else {
      assert (a + b)[1..] == a[1..] + b;
      RemoveByIdConcat(a[1..], b, id);
    }
  }

  /** Deleting a card that is not in the list leaves the list as it was. */
  lemma {:induction false} RemoveAbsentId(cards: seq<Card>, id: CardId)
    requires id !in Ids(cards)
    ensures RemoveById(cards, id) == cards
  {
    if cards != [] {
      assert cards[0] in cards;
      assert Ids(cards[1..]) <= Ids(cards) by {
        forall c | c in cards[1..] ensures c in cards { }
      }
      RemoveAbsentId(cards[1..], id);
      assert [cards[0]] + cards[1..] == cards;
    }
  }

  /** The review cursor after an answer: the next due card, or back to the
      first once the last due card has been answered. */
  function Advance(index: nat, dueCount: nat): (next: nat)
    ensures next < if dueCount == 0 then 1 else dueCount
    ensures next == index + 1 <==> index + 1 < dueCount
    ensures next != index + 1 ==> next == 0
  {
    if index < dueCount - 1 then index + 1 else 0
  }

  /** The cursor after `answers` answers in a session over `dueCount` cards
      started at the first card. */
  ghost function CursorAfter(dueCount: nat, answers: nat): nat
  {
    if answers == 0 then 0 else Advance(CursorAfter(dueCount, answers - 1), dueCount)
  }

  /** A review pass visits the due cards in order, one per answer. */
  lemma {:induction false} PassVisitsInOrder(dueCount: nat, answers: nat)
    requires answers < dueCount
    ensures CursorAfter(dueCount, answers) == answers
  {
    if answers > 0 {
      PassVisitsInOrder(dueCount, answers - 1);
    }
  }

  /** The cursor returns to the first card, which ends the pass, exactly when
      every due card has been answered once. */
  lemma PassEndsAfterEveryCard(dueCount: nat)
    requires dueCount > 0
    ensures CursorAfter(dueCount, dueCount) == 0
    ensures forall k :: 0 < k < dueCount ==> CursorAfter(dueCount, k) != 0
  {
    PassVisitsInOrder(dueCount, dueCount - 1);
    forall k | 0 < k < dueCount ensures CursorAfter(dueCount, k) != 0 {
      PassVisitsInOrder(dueCount, k);
    }
  }

  function CardAt(cards: seq<Card>, i: nat): Option<Card>
  {
    if i < |cards| then Some(cards[i]) else None
  }

  /** The card the answer handler of the client reviews as written: the last
      card of the whole list, whatever the cursor points at. */
  function LastCard(flashcards: seq<Card>): (r: Option<Card>)
    ensures r.Some? <==> |flashcards| > 0
    ensures r.Some? ==> r.value == flashcards[|flashcards| - 1]
  {
    if |flashcards| == 0 then None else Some(flashcards[|flashcards| - 1])
  }

  /** When every fetched card is due, so that the due list is the whole list,
      and the cursor is on any card but the last, the cursor and the screen
      show the card at the cursor while the handler as written reviews the
      last card, a different one. */
  lemma {:induction false} LastCardIsNotTheSessionCard(cards: seq<Card>, today: int, cursor: nat)
    requires forall c :: c in cards ==> IsDue(c, today)
    requires forall j, k :: 0 <= j < k < |cards| ==> cards[j].id != cards[k].id
    requires cursor < |cards| - 1
    ensures CardAt(FilterDue(cards, today), cursor) == Some(cards[cursor])
    ensures CardAt(cards, cursor) == Some(cards[cursor])
    ensures LastCard(cards) == Some(cards[|cards| - 1])
    ensures cards[cursor] != cards[|cards| - 1]
  {
    FetchedCardsStayDue(cards, today, today);
    assert cards[cursor].id != cards[|cards| - 1].id;
  }

  /** The body of the client's answer request. */
  datatype AnswerRequest = AnswerRequest(id: CardId, correct: bool, box: int, nextReview: int)

  /** What the client reads back from an answer request: no JSON at all (a
      404 with an empty body, or a failed request), a JSON error object
      without an id (400 or 401), or the updated card. */
  datatype AnswerReply = Unreadable | ErrorBody | UpdatedCard(card: Card)

  /** The state of the review screen. */
  class FlashcardApp {
    var flashcards: seq<Card>
    var dueCards: seq<Card>
    var currentIndex: nat
    var showAnswer: bool

    /** Every due card is also in the full list, by id. */
    ghost predicate Valid()
      reads this
    {
      Ids(dueCards) <= Ids(flashcards)
    }

    constructor ()
      ensures Valid()
      ensures flashcards == [] && dueCards == [] && currentIndex == 0 && !showAnswer
    {
      flashcards := [];
      dueCards := [];
      currentIndex := 0;
      showAnswer := false;
    }

    /** The card under review: the due card at the cursor. Its id is always
        in the full list, so the handler's empty-list guard never rejects it. */
    function SessionCard(): (r: Option<Card>)
      reads this
      requires Valid()
      ensures r.Some? <==> currentIndex < |dueCards|
      ensures r.Some? ==> r.value == dueCards[currentIndex] && r.value.id in Ids(flashcards)
    {
      var r := CardAt(dueCards, currentIndex);
      assert r.Some? ==> r.value in dueCards && r.value.id in Ids(dueCards);
      r
    }

    /** Loading the cards: the full list as the server sent it, and the due
        list filtered from it on `today`. A failed request changes nothing. */
    method FetchFlashcards(data: Option<seq<Card>>, today: int)
      requires Valid()
      modifies this
      ensures Valid()
      ensures data.None? ==> flashcards == old(flashcards) && dueCards == old(dueCards)
      ensures data.Some? ==> flashcards == data.value && dueCards == FilterDue(data.value, today)
      ensures currentIndex == old(currentIndex) && showAnswer == old(showAnswer)
    {
      if data.Some? {
        flashcards := data.value;
        dueCards := FilterDue(data.value, today);
      }
    }

    /** Showing the answer of the current card. */
    method RevealAnswer()
      requires Valid()
      modifies this
      ensures Valid() && showAnswer
      ensures flashcards == old(flashcards) && dueCards == old(dueCards) && currentIndex == old(currentIndex)
    {
      showAnswer := true;
    }

    /** Adding the card the server created: first in the full list, and last
        in the due list when it is already due. */
    method HandleCreateFlashcard(created: Option<Card>, now: int)
      requires Valid()
      modifies this
      ensures Valid()
      ensures created.None? ==> flashcards == old(flashcards) && dueCards == old(dueCards)
      ensures created.Some? ==> flashcards == [created.value] + old(flashcards)
      ensures created.Some? && IsDue(created.value, now) ==> dueCards == old(dueCards) + [created.value]
      ensures created.Some? && !IsDue(created.value, now) ==> dueCards == old(dueCards)
      ensures currentIndex == old(currentIndex) && showAnswer == old(showAnswer)
    {
      if created.Some? {
        var card := created.value;
        flashcards := [card] + flashcards;
        assert card in flashcards;
        if IsDue(card, now) {
          assert Ids(dueCards + [card]) == Ids(dueCards) + {card.id} by {
            assert forall c :: c in dueCards + [card] <==> c in dueCards || c == card;
          }
          dueCards := dueCards + [card];
        }
      }
    }

    /** Answering the card under review. With no card under review nothing
        happens. Otherwise the request carries the card's id and the previewed
        box and review day; an unreadable reply changes nothing, and any other
        reply hides the answer, moves the cursor and, when it is the updated
        card, replaces that card in the full list. The due list is kept. When
        that answer was the last of the due list, `reload` asks for the cards
        to be fetched again, which ends the pass. When the cursor has run past
        the due list (after deletes) while the full list is not empty, no card
        is answered, but the answer is hidden, the cursor goes back to the
        first card and a reload is asked for, as at the end of a pass. */
    method HandleAnswer(correct: bool, reply: AnswerReply, today: int)
      returns (request: Option<AnswerRequest>, reload: bool)
      requires Valid()
      modifies this
      ensures Valid()
      ensures |old(flashcards)| == 0 ==> request.None?
      ensures old(SessionCard()).None? ==>
                && request.None?
                && flashcards == old(flashcards) && dueCards == old(dueCards)
      ensures old(SessionCard()).None? && |old(flashcards)| == 0 ==>
                currentIndex == old(currentIndex) && showAnswer == old(showAnswer)
      ensures old(SessionCard()).None? && |old(flashcards)| > 0 ==> currentIndex == 0 && !showAnswer
      ensures old(SessionCard()).Some? ==>
                var card := old(SessionCard()).value;
                var box := NewBox(card.box, correct);
                request == Some(AnswerRequest(card.id, correct, box, CalculateNextReview(box, today)))
      ensures old(SessionCard()).Some? && reply.Unreadable? ==>
                && flashcards == old(flashcards) && dueCards == old(dueCards)
                && currentIndex == old(currentIndex) && showAnswer == old(showAnswer)
      ensures old(SessionCard()).Some? && !reply.Unreadable? ==>
                && flashcards == (if reply.UpdatedCard? then ReplaceById(old(flashcards), reply.card)
                                  else old(flashcards))
                && dueCards == old(dueCards)
                && currentIndex == Advance(old(currentIndex), |old(dueCards)|)
                && !showAnswer
      ensures reload <==> || (old(SessionCard()).Some? && !reply.Unreadable? &&
                              !(old(currentIndex) + 1 < |old(dueCards)|))
                          || (old(SessionCard()).None? && |old(flashcards)| > 0)
    {
      reload := false;
      var current := SessionCard();
      if current.None? {
        if |flashcards| > 0 {
          showAnswer := false;
          currentIndex := 0;
          reload := true;
        }
        return None, reload;
      }
      var card := current.value;
      var box := NewBox(card.box, correct);
      request := Some(AnswerRequest(card.id, correct, box, CalculateNextReview(box, today)));
      if reply.Unreadable? {
        return;
      }
      if reply.UpdatedCard? {
        flashcards := ReplaceById(flashcards, reply.card);
      }
      showAnswer := false;
      if currentIndex < |dueCards| - 1 {
        currentIndex := currentIndex + 1;
      } else {
        currentIndex := 0;
        reload := true;
      }
    }

    /** Deleting a card: once the request has reached the server, whatever its
        status, the card is filtered out of both lists. */
    method HandleDelete(id: CardId, reached: bool)
      requires Valid()
      modifies this
      ensures Valid()
      ensures !reached ==> flashcards == old(flashcards) && dueCards == old(dueCards)
      ensures reached ==> flashcards == RemoveById(old(flashcards), id) && dueCards == RemoveById(old(dueCards), id)
      ensures currentIndex == old(currentIndex) && showAnswer == old(showAnswer)
    {
      if reached {
        flashcards := RemoveById(flashcards, id);
        dueCards := RemoveById(dueCards, id);
      }
    }
  }
}
