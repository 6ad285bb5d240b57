# Chitti room server — a Dafny model

The back end of the "chitti" card game keeps every game in one in-memory table,
`rooms`, keyed by a room code. A room has a host, an ordered list of players
(the join order is the turn order) each holding a hand of cards ("chittis"), a
`gameOver` flag and a `winner`. Five socket handlers change that table:

- create-room opens a room, or refuses a taken code;
- join-room adds a player, once per name;
- chitti-into deals one card to every hand, and an extra copy to the host on request;
- pass-chitti moves one card from a player to the next player in circular order;
- winner-check declares a win for a hand of four equal cards and schedules the room's deletion.

The model has two modules:

- `Rooms` (`rooms.dfy`) holds the values: `Player`, `Room` and `Card`. It defines
  what each handler does to one room as a function (`AfterJoin`, `AfterDeal`,
  `AfterPass`, `AfterWin`) and the win-check decision `Judge`. It proves the
  game's properties about them: name uniqueness and the winner invariant
  (`ValidRoom`) are preserved, a pass conserves the room's cards, a deal adds
  exactly one card per player plus the host's extra copy, turn order wraps
  around, and a win needs exactly four identical cards.
- `Server` (`server.dfy`) holds the class `RoomTable`. Its field
  `rooms: map<string, Room>` is the `rooms` object. Each handler is a method that
  updates that field step by step, as the handler does. The deal is a loop over
  the players; the pass is a push followed by a splice. Each method returns an
  `Outcome` in place of the events the handler emits. Its postcondition states
  every guard that makes the handler return early, and the new table in terms of
  the `Rooms` functions. The table invariant `Valid()` says every room satisfies
  `ValidRoom`. Clients that call only these methods and reason only from
  their contracts show the handlers working together. `CreateAndJoinScenario`
  shows that a second create under a taken code is refused and that a repeated
  join changes nothing. `AliceWinsScenario` builds a two-player room with
  create-room and join-room (`TwoPlayerRoom`), deals four times (`DealFive`),
  has a pass rejected, wins, makes a late check, is refused a deal and a new
  create under the code while the finished room waits for its deletion, and
  cleans up.

Behaviours of the code that the model keeps:

- winner-check tests `gameOver` before it looks the player up (server.js:124-130);
- an unknown player in an existing room gets no reply (server.js:130);
- join-room ignores an empty name and still broadcasts when the name already
  exists, even in a finished room (server.js:56-67);
- create-room takes any name, including the empty one (server.js:29-40);
- chitti-into deals to every player of the room, whatever else the payload holds (server.js:75-80).

A card is a string. The pass handler's `!chitti` test (server.js:99) therefore
rejects exactly an index outside the hand, which reads `undefined`, and the
empty-string card. The model states this as `Truthy`.

Passing a card on is pass-chitti again, sent by whoever received it.
`PassAround` applies `AfterPass` k times to one card, and
`CardReturnsAfterRound` shows that the card is back with its first sender after
as many passes as there are players.

## Model

| member | source | states |
|---|---|---|
| `Rooms.Truthy` | server.js:99 | definition: a card is truthy exactly when it is not the empty string |
| `Rooms.IndexOf` | server.js:93-96 | the result is -1 exactly when no player has the name; otherwise it is the first position holding the name |
| `Rooms.IndexOfUnique` | server.js:129 | when names are unique, any player with the name is the one the lookup finds |
| `Rooms.AfterJoin` | server.js:60-62 | a join keeps the host and game flags; a new name is appended with the given id and an empty hand; existing players keep their order and hands; a known name changes nothing |
| `Rooms.JoinKeepsValid` | server.js:56-62 | joining keeps names unique, keeps the host a player and keeps the winner a player |
| `Rooms.JoinIdempotent` | server.js:60-62 | joining twice under one name equals joining once; the second connection id is not recorded |
| `Rooms.DealOne` | server.js:76-79 | one player's turn in the deal loop: id and name kept, the old hand kept as a prefix, one card added, two for the host when `ishost` is set |
| `Rooms.DealOneAddsOnlyCard` | server.js:76-79 | every card the deal adds to a hand is the dealt card |
| `Rooms.DealHands` | server.js:75-80 | every player, in order, gets the card appended; the player named as host gets it twice when `ishost` is set |
| `Rooms.AfterDeal` | server.js:75-80 | player count, order, ids and names are unchanged; each hand is its old hand plus `[card]`, and the host's is plus `[card, card]` when `ishost` is set |
| `Rooms.DealKeepsValid` | server.js:75-80 | dealing preserves the room invariant |
| `Rooms.DealHandsCount` | server.js:75-80 | dealing raises the count of the dealt card by the number of players plus the number of extra host copies; other cards keep their counts |
| `Rooms.DealAddsCards` | server.js:75-80 | in a valid room, the cards after a deal are the old cards plus n copies of the card, plus one more when `ishost` is set |
| `Rooms.Next` | server.js:101-102 | the recipient is the following player, or the first player after the last one |
| `Rooms.Advance` | server.js:101-102 | the seat the card reaches after k successive passes from seat p; it is always a seat of the room |
| `Rooms.AdvanceWithinRound` | server.js:101-102 | within one round, k passes from seat p reach seat p + k, wrapping once past the end |
| `Rooms.TurnOrderWraps` | server.js:101-103 | on seat numbers: after n passes among n players the seat reached is the starting seat again, and no earlier pass reaches it |
| `Rooms.Removed` | server.js:106 | `splice(i, 1)` gives a hand one shorter that keeps the cards before `i` and shifts the later ones left |
| `Rooms.RemovedCards` | server.js:106 | the splice loses exactly the card at `i` |
| `Rooms.AfterPass` | server.js:101-106 | the card at index i leaves the sender's hand and goes to the end of the next player's hand; with one player it moves to the end of the sender's own hand; all other players, the order and the game flags are unchanged |
| `Rooms.PassConservesCards` | server.js:105-106 | a pass keeps the multiset of all cards in the room, also when there is one player |
| `Rooms.PassKeepsValid` | server.js:101-106 | passing preserves the room invariant |
| `Rooms.PassLandsLast` | server.js:101-105 | the passed card is the last card of the recipient's hand, also when a lone player passes to themself |
| `Rooms.PassAround` | server.js:101-106 | k successive passes of one card, each made by its current holder from the last slot of the hand: the card ends last in the hand at seat `Advance(p, n, k)`; the number of players and their names are kept; the multiset of the room's cards is unchanged |
| `Rooms.CardReturnsAfterRound` | server.js:101-106 | after as many passes as there are players, the card first passed by p is the last card of p's own hand |
| `Rooms.AllSame` | server.js:137-139 | definition: every card of the hand equals its first card (true of the empty hand) |
| `Rooms.IsWinningHand` | server.js:132-139 | definition: the hand has exactly four cards and all of them are equal |
| `Rooms.WinningHandIsFourOfAKind` | server.js:132-139 | the win predicate (length exactly 4, every card equal to the first) holds exactly for hands `[c, c, c, c]` |
| `Rooms.Judge` | server.js:124-141 | the verdict is "finished" exactly when the game is over, and "unknown player" exactly when the game is open and the name is absent; "wrong count" and "mixed" name a hand of the matching shape |
| `Rooms.JudgeWinsIff` | server.js:129-141 | in a valid room a check wins exactly when the game is open and the requester holds four identical cards |
| `Rooms.AfterWin` | server.js:141-143 | a win sets `gameOver` and the winner and keeps host and players; every later check of this room answers "Game already finished" |
| `Rooms.WinKeepsValid` | server.js:129-143 | a win by a player of the room preserves the invariant that the winner is a player |
| `Server.NewRoom` | server.js:35-40 | a new room has the creator as host and as its single player with an empty hand; it is not over and has no winner; it satisfies the room invariant |
| `Server.RoomTable.constructor` | server.js:23 | the table starts empty |
| `Server.RoomTable.CreateRoom` | server.js:29-52 | a taken code returns "Room already exists" and leaves the table unchanged; a free code maps to a new room and changes no other entry |
| `Server.RoomTable.JoinRoom` | server.js:55-68 | an empty name or an unknown code changes nothing and emits nothing; otherwise the room becomes `AfterJoin` of it and is broadcast |
| `Server.RoomTable.ChittiInto` | server.js:71-83 | a missing or finished room is left alone; otherwise the loop over the players yields `AfterDeal` of the room, which is broadcast |
| `Server.RoomTable.PassChitti` | server.js:86-114 | nothing changes when the index is absent, the room is missing or over, the sender is unknown, or the slot is out of range or falsy; otherwise the room becomes `AfterPass` of it and the next player's name and the card are emitted |
| `Server.RoomTable.WinnerCheck` | server.js:117-155 | an empty name or a missing room is ignored; the reply follows `Judge`; only a win changes the table, closing the room with the requester as winner |
| `Server.RoomTable.DeleteRoom` | server.js:149-151 | the code is removed and every other entry is kept; a code that is already gone leaves the table unchanged |

## Left out

- The Express app, the HTTP server, CORS, the `/` route and `listen` (server.js:1-21, 163-165) are process bootstrap and I/O.
- Socket.io delivery is not modelled: `socket.join`, `socket.emit` and `io.to(...).emit` become the returned `Outcome`. Who receives an event (the requester or the whole room) is noted beside each `Outcome` constructor but not modelled.
- The disconnect handler and every `console.log` only log.
- The 10-second `setTimeout` (server.js:149) is wall-clock scheduling. `DeleteRoom` is its callback, but the model does not record that a win scheduled it. Until the callback runs, the finished room keeps its code, so create-room refuses that code (server.js:30-33); `AliceWinsScenario` shows the refusal.
- Rooms are values in the model. In the source a room is an object that the handlers mutate and that earlier broadcasts reference, so that aliasing is not modelled.
- A room code that names an inherited property of a plain JavaScript object (such as "constructor") reads as an existing room in the source. The model treats the table as a plain map and does not capture this.
- Cards, names, room codes and socket ids are strings. Other JavaScript values are not modelled: a numeric card such as `0` (also falsy), a missing field read as `undefined`, or an `index` that is a string or a non-integer number. `ishost` is a boolean rather than any truthy value. An `index` of `null` or `undefined` is `None`.
- Handlers run one at a time, as on Node's single event loop, so concurrency is not modelled.
- The unused payload fields are dropped: `chitti` of create-room and join-room, and `player` of chitti-into.
