# Leitner flashcard scheduler

A Dafny model of the spaced-repetition core of a flashcard application. The application is an
Express/MongoDB server plus a React review screen. Each card sits in one of five Leitner boxes.
A box fixes the delay before the card's next review: 1, 3, 7, 14 or 30 days. A correct answer
moves the card up one box, capped at box 5. A wrong answer sends it back to box 1. Either way,
the next review day is set from the new box.

The model has three modules:

- `Cards` (`cards.dfy`): the card record (`Card`), the due rule (`IsDue`: the review day has
  come), and the option and result wrappers.
- `Server` (`server.dfy`): the authoritative side, from `backend/index.js`. It holds the interval
  table (`Interval`, `CalculateNextReview`), the box rule (`NextBox`) and the review transition
  (`Transition`). It also holds the class `FlashcardStore`, a map from card id to card. Its
  methods model the create, review and delete routes, and its functions model the owner-scoped
  lookup and the due-list route.
- `Client` (`client.dfy`): the review screen, from `frontend/vite-project/src/FlashcardCard.jsx`.
  It has the client's own copy of the interval table and box rule, and the list transforms the
  handlers apply (`FilterDue`, `ReplaceById`, `RemoveById`). It also has the review cursor
  (`Advance`) and the class `FlashcardApp`, which holds the screen state: `flashcards`,
  `dueCards`, `currentIndex` and `showAnswer`.

Time is a whole number of days, so "now plus the interval" is integer addition. The clock is
never read inside the model: every operation takes the current day as a parameter. The client
never sees the server directly. Each client handler takes the server's reply as an input, and
lemmas relate the two sides.

## Model

| member | source | states |
|---|---|---|
| `Cards.IsDue` | backend/index.js:115 | the due rule both sides use: a card is due once its review day is on or before the given day (also FlashcardCard.jsx line 42) |
| `Server.Interval` | backend/index.js:50-60 | the delay is between 1 and 30 days, and it is the one-day delay exactly when the box is not 2..5 |
| `Server.IntervalTable` | backend/index.js:52-57 | boxes 1..5 give exactly 1, 3, 7, 14 and 30 days |
| `Server.IntervalIncreasing` | backend/index.js:52-57 | the delay strictly increases from box 1 to box 5 |
| `Server.IntervalFallback` | backend/index.js:58 | any box outside 1..5 gets the box-1 delay, never an error |
| `Server.CalculateNextReview` | backend/index.js:50-60 | the next review day is always later than the day it is computed on |
| `Server.NextBox` | backend/index.js:132-136 | a correct answer gives box+1 below 5 and 5 from 5 on (the cap); a wrong answer gives 1 whatever the old box |
| `Server.Transition` | backend/index.js:132-139 | an answered card keeps its id, owner, question and answer, is not due on the answer day, and keeps a box in 1..5 in 1..5 |
| `Server.NewCard` | backend/index.js:99-103 | a created card has the given id, the caller as owner, the question and answer of the request, and the box the request gives or box 1 when none is given; it is not due on the creation day and is due the next day |
| `Server.NextBoxInRange` | backend/index.js:132-136 | the new box is in 1..5 exactly when the answer was wrong or the old box was at least 0, so a box in 1..5 stays in 1..5 |
| `Server.TransitionSetsBoxAndDateTogether` | backend/index.js:132-139 | after an answer, the review day is the answer day plus the interval of the new box; no field other than box and review day changes |
| `Server.TransitionDueExactlyAfterInterval` | backend/index.js:132-139 | an answered card is not due on the answer day, and is due on a later day exactly when the new box's interval has passed |
| `Server.NewCardIgnoresRequestedReview` | backend/index.js:99-103 | a created card is due one day later, whatever review day the request asks for; with no box in the request it starts in box 1 |
| `Server.NewCardScheduleMatchesBoxIff` | backend/index.js:99-103 | a created card's review day matches its box exactly when the request named no box, or a box outside 2..5 |
| `Server.CreateThenReviewScenario` | backend/index.js:97-139 | a card created on day t0 is due on t0+1; answered right then, it is in box 2, not due on t0+3 and due on t0+4 |
| `Server.FlashcardStore.Lookup` | backend/index.js:126-130 | a card is found exactly when it exists and belongs to the caller |
| `Server.FlashcardStore.DueFor` | backend/index.js:111-121 | the due list holds exactly the caller's cards whose review day is on or before today |
| `Server.FlashcardStore.Create` | backend/index.js:97-109 | an empty question or answer is rejected and nothing changes; otherwise the card gets the next id in order (so ids are never reused), the caller as owner and the next-day review, it is added, and nothing else changes |
| `Server.FlashcardStore.Review` | backend/index.js:123-145 | a card that is absent or owned by another user gives not-found and nothing changes; otherwise exactly that card is replaced by its transition and returned |
| `Server.FlashcardStore.Delete` | backend/index.js:147-160 | a card that is absent or owned by another user gives not-found and nothing changes; otherwise exactly that card is removed and returned |
| `Client.CalculateNextReview` | frontend/vite-project/src/FlashcardCard.jsx:19-29 | the client's previewed review day is always later than today |
| `Client.NewBox` | frontend/vite-project/src/FlashcardCard.jsx:115 | the client's previewed box is the server's new box for every box: never above 5, and 1 after a wrong answer |
| `Client.PreviewMatchesServer` | frontend/vite-project/src/FlashcardCard.jsx:115-129 | the client's box rule and interval table give the same box and review day as the server's, for every box |
| `Client.FilterDue` | frontend/vite-project/src/FlashcardCard.jsx:41-43 | the due list holds exactly the fetched cards due today, and is no longer than the fetched list |
| `Client.FilterDueConcat` | frontend/vite-project/src/FlashcardCard.jsx:42 | filtering distributes over concatenation, so the due list keeps the fetched order |
| `Client.FilterDueIdempotent` | frontend/vite-project/src/FlashcardCard.jsx:42 | filtering a due list again on the same day returns it unchanged |
| `Client.FetchedCardsStayDue` | frontend/vite-project/src/FlashcardCard.jsx:37-43 | cards the server sent as due are all kept, in order, by the client's filter on the same day or any later day |
| `Client.ReplaceById` | frontend/vite-project/src/FlashcardCard.jsx:138-140 | the length is kept; each position holds the updated card if the ids match, and the old card otherwise; the set of ids is unchanged |
| `Client.RemoveById` | frontend/vite-project/src/FlashcardCard.jsx:202-203 | no card with the id remains, every other card remains, and the id set loses exactly that id |
| `Client.RemoveByIdConcat` | frontend/vite-project/src/FlashcardCard.jsx:202-203 | deleting keeps the order of the remaining cards |
| `Client.RemoveAbsentId` | frontend/vite-project/src/FlashcardCard.jsx:202-203 | deleting an id that is not in the list leaves the list as it was |
| `Client.Advance` | frontend/vite-project/src/FlashcardCard.jsx:166-172 | the cursor moves to the next index while one is left, and otherwise goes back to 0; either way it lands in [0, max(1, due count)) |
| `Client.PassVisitsInOrder` | frontend/vite-project/src/FlashcardCard.jsx:166-167 | starting from 0, the cursor is at index k after k answers while k is below the due count |
| `Client.PassEndsAfterEveryCard` | frontend/vite-project/src/FlashcardCard.jsx:166-172 | the cursor is back at 0, which ends the pass (the handler then asks for a reload), after exactly as many answers as there are due cards, and not before |
| `Client.LastCard` | frontend/vite-project/src/FlashcardCard.jsx:108-111 | the card the answer handler picks as written: none for an empty list, otherwise the last card of the full list |
| `Client.LastCardIsNotTheSessionCard` | frontend/vite-project/src/FlashcardCard.jsx:108-111 | for every list of due cards with distinct ids and every cursor before the last card, the due card at the cursor and the displayed card are the card at the cursor, while the handler as written answers the last card, a different one |
| `Client.FlashcardApp.SessionCard` | frontend/vite-project/src/FlashcardCard.jsx:166-172 | the card under review is the due card at the cursor, if there is one, and its id is always in the full list, so the empty-list guard never stops it |
| `Client.FlashcardApp.FetchFlashcards` | frontend/vite-project/src/FlashcardCard.jsx:31-47 | the full list becomes the fetched list and the due list its filter on today; a failed request changes nothing; every due card stays in the full list |
| `Client.FlashcardApp.RevealAnswer` | frontend/vite-project/src/FlashcardCard.jsx:383-385 | showing the answer sets only the answer flag |
| `Client.FlashcardApp.HandleCreateFlashcard` | frontend/vite-project/src/FlashcardCard.jsx:86-99 | the created card is put first in the full list and last in the due list when it is due; otherwise the due list is unchanged |
| `Client.FlashcardApp.HandleAnswer` | frontend/vite-project/src/FlashcardCard.jsx:105-176 | with an empty list nothing happens. With a non-empty list but the cursor past the due list, no request is sent, the answer is hidden, the cursor returns to 0 and a reload is requested. Otherwise the request carries that card's id and the previewed box and day. An unreadable reply changes nothing. Any other reply hides the answer and advances the cursor, and an updated card replaces its entry by id; the due list is kept. A reload is requested exactly in that cursor-past-the-end case or when such a reply answers the last card of the due list |
| `Client.FlashcardApp.HandleDelete` | frontend/vite-project/src/FlashcardCard.jsx:195-208 | once the request reaches the server, whatever the status, every card with the id is filtered out of both lists, in order; a failed request changes nothing |

## Findings

| source | as written | input that shows it | evidently intended | confidence | as-written member | corrected member |
|---|---|---|---|---|---|---|
| frontend/vite-project/src/FlashcardCard.jsx:110-111 | the answer handler reviews `flashcards[flashcards.length - 1]`, the last card of the full list | two due cards with distinct ids, cursor 0: the screen and the due list are on the first card, but the second card is answered | review the due card at the cursor, `dueCards[currentIndex]`, as the cursor bounded by the due list (lines 166-172) implies | not executed; high, because the handler never reads the cursor | `Client.LastCardIsNotTheSessionCard` | `Client.FlashcardApp.SessionCard` |

`Client.FlashcardApp.HandleAnswer` reviews `SessionCard()`, the corrected choice. One consequence:
when the cursor lies past the end of the due list, for example after deletes, there is no card
under review, so the handler sends no request. When the full list is not empty, it still hides
the answer, resets the cursor to 0 and asks for a reload. The code as written does the same when
its request for the last card gets a readable reply: it then finds the cursor at the end of the
due list. On an unreadable reply the code as written changes nothing. The next fetch starts a new pass.
The screen also shows `flashcards[currentIndex]` (lines 350-363), which indexes the full list
with a cursor that ranges over the due list. Rendering is outside the model.

## Notes on the source

- The create route spreads the request body into the new document. A `box` given by the client
  is therefore stored, while the review day is always set one day out. The client always sends
  box 1, so the interface never triggers this. `Server.NewCardScheduleMatchesBoxIff` states when
  box and review day agree. As a result, the store does not keep "box in 1..5" as an invariant:
  `Server.NextBoxInRange` states what an answer does to any box.
- When the last due card has been answered, the client resets the cursor and fetches the cards
  again. `HandleAnswer` reports this through its `reload` result, and the fetch itself is the
  next `FetchFlashcards` call, which replaces both lists.
- After an answer, the client leaves `dueCards` untouched. It still holds the card as it was
  before the answer, and the model keeps that behaviour.
- A reply without an id (a JSON error object, from status 400 or 401) replaces nothing, but the
  cursor still advances. A reply that is not JSON (the empty 404 body) goes to the error path and
  changes nothing.

## Left out

- HTTP routing, the CORS and JSON middleware, and MongoDB persistence: the store is a map from id
  to card. Database failures (status 400/500 from a thrown error) and the cast error for a
  malformed id are not modelled.
- Authentication: JWT signing and checking, bcrypt hashing, and the register and login routes.
  These are calls into cryptographic libraries. The caller's id is a parameter.
- Network calls, `async`/`await` ordering and `localStorage` in the client. Each handler takes
  the server's reply, or whether the request went through, as a parameter.
- Calendar arithmetic, time zones and `Date` parsing: time is a whole number of days, passed in.
  Fractional or non-numeric box values are not modelled, because a box is an integer.
- `Server.FlashcardStore.Review` takes `correct` as a boolean. The route only tests whether the
  JSON field is truthy, so a missing field resets the card to box 1 and the string "false" moves
  it up a box. The client always sends a boolean.
- A client-supplied `_id` in the create body, which the body spread would pass to the database.
- `Client.FlashcardApp.HandleCreateFlashcard`: a JSON error object returned by the create route is
  prepended to the client's list as if it were a card. The model treats any reply without a card
  as a failure that changes nothing.
- `Client.FlashcardApp.FetchFlashcards`: on an error reply, the client stores the error object as
  its full list before the filter throws. The model treats every failed load as changing nothing.
- The form fields, notifications and their timers, dark mode, the new-card panel, animations,
  the progress-bar percentage (floating point) and all rendering. These are presentation only.
- Register.jsx and App.jsx: a password-confirmation check around an HTTP call, and a route table.
