/** The state of one game room and the pure transitions the socket handlers
    apply to it: join, deal (chitti-into), pass (pass-chitti) and the win
    check (winner-check). The registry that owns the rooms is in module Server. */
module Rooms {

  /** A card ("chitti"). The handlers treat cards as opaque values compared with
      `===`; they arrive as strings, so the only falsy card is the empty string. */
  type Card = string
  type Name = string
  /** The transport's connection handle, stored but never read by the core. */
  type SocketId = string

  datatype Option<T> = None | Some(value: T)

  datatype Player = Player(id: SocketId, name: Name, chitti: seq<Card>)

  datatype Room = Room(host: Name, players: seq<Player>, gameOver: bool, winner: Option<Name>)

  /** JavaScript truthiness of a card value: `!chitti` rejects exactly "" among strings. */
  predicate Truthy(c: Card) {
    c != ""
  }

  predicate HasPlayer(ps: seq<Player>, name: Name) {
    exists k :: 0 <= k < |ps| && ps[k].name == name
  }

  predicate UniqueNames(ps: seq<Player>) {
    forall j, k :: 0 <= j < k < |ps| ==> ps[j].name != ps[k].name
  }

  /** What every room in the table satisfies: names are unique, the host is a
      player, and a finished game names one of the room's players as winner. */
  predicate ValidRoom(r: Room) {
    && UniqueNames(r.players)
    && HasPlayer(r.players, r.host)
    && (r.gameOver <==> r.winner.Some?)
    && (r.gameOver ==> HasPlayer(r.players, r.winner.value))
  }

  /** `players.findIndex(p => p.name === name)`: the first position holding
      `name`, or -1 when nobody has it. */
  function IndexOf(ps: seq<Player>, name: Name): (r: int)
    ensures -1 <= r < |ps|
    ensures r == -1 <==> !HasPlayer(ps, name)
    ensures r >= 0 ==> ps[r].name == name && forall k :: 0 <= k < r ==> ps[k].name != name
  {
    if |ps| == 0 then -1
    else if ps[0].name == name then 0
    else
      var r := IndexOf(ps[1..], name);
      assert forall k :: 1 <= k < |ps| ==> ps[k] == ps[1..][k - 1];
      if r == -1 then -1 else r + 1
  }

  /** In a room with unique names, a player named `name` sits exactly where IndexOf says. */
  lemma IndexOfUnique(ps: seq<Player>, name: Name, k: int)
    requires UniqueNames(ps)
    requires 0 <= k < |ps| && ps[k].name == name
    ensures IndexOf(ps, name) == k
  {
  }

  // ---------------------------------------------------------------- join-room

  /** join-room on a located room: a name not yet present is appended with an
      empty hand; a name already present leaves the room as it was. */
  function AfterJoin(room: Room, id: SocketId, name: Name): (r: Room)
    ensures r.host == room.host && r.gameOver == room.gameOver && r.winner == room.winner
    ensures HasPlayer(r.players, name)
    ensures |r.players| == |room.players| + (if HasPlayer(room.players, name) then 0 else 1)
    ensures r.players[..|room.players|] == room.players
    ensures !HasPlayer(room.players, name) ==> r.players[|room.players|] == Player(id, name, [])
  {
    if IndexOf(room.players, name) == -1 then
      var ps := room.players + [Player(id, name, [])];
      assert ps[|room.players|].name == name;
      room.(players := ps)
    else
      room
  }

  lemma JoinKeepsValid(room: Room, id: SocketId, name: Name)
    requires ValidRoom(room)
    ensures ValidRoom(AfterJoin(room, id, name))
  {
  }

  /** Joining twice under one name is the same as joining once: the second
      connection handle is not recorded. */
  lemma JoinIdempotent(room: Room, id1: SocketId, id2: SocketId, name: Name)
    ensures AfterJoin(AfterJoin(room, id1, name), id2, name) == AfterJoin(room, id1, name)
  {
  }

  // -------------------------------------------------------------- chitti-into

  /** One step of the `forEach` in chitti-into: the player receives the card,
      and the host receives a second copy when the dealer says so. */
  function DealOne(p: Player, host: Name, card: Card, ishost: bool): (r: Player)
    ensures r.id == p.id && r.name == p.name
    ensures |r.chitti| == |p.chitti| + (if p.name == host && ishost then 2 else 1)
    ensures r.chitti[..|p.chitti|] == p.chitti
  {
    p.(chitti := p.chitti + if p.name == host && ishost then [card, card] else [card])
  }

  /** Every card a deal adds to a hand is the dealt card. */
  lemma DealOneAddsOnlyCard(p: Player, host: Name, card: Card, ishost: bool)
    ensures var r := DealOne(p, host, card, ishost);
            forall k :: |p.chitti| <= k < |r.chitti| ==> r.chitti[k] == card
  {
  }

  /** The hands after the whole `forEach`. */
  function DealHands(ps: seq<Player>, host: Name, card: Card, ishost: bool): (r: seq<Player>)
    ensures |r| == |ps|
    ensures forall k :: 0 <= k < |ps| ==> r[k] == DealOne(ps[k], host, card, ishost)
  {
    if ps == [] then []
    else [DealOne(ps[0], host, card, ishost)] + DealHands(ps[1..], host, card, ishost)
  }

  /** chitti-into on a located, unfinished room. */
  function AfterDeal(room: Room, card: Card, ishost: bool): (r: Room)
    ensures r.host == room.host && r.gameOver == room.gameOver && r.winner == room.winner
    ensures |r.players| == |room.players|
    ensures forall k :: 0 <= k < |room.players| ==>
              && r.players[k].id == room.players[k].id
              && r.players[k].name == room.players[k].name
              && r.players[k].chitti ==
                   room.players[k].chitti
                   + if room.players[k].name == room.host && ishost then [card, card] else [card]
  {
    room.(players := DealHands(room.players, room.host, card, ishost))
  }

  lemma DealKeepsValid(room: Room, card: Card, ishost: bool)
    requires ValidRoom(room)
    ensures ValidRoom(AfterDeal(room, card, ishost))
  {
  }

  // ------------------------------------------------------------- card counting

  /** Every card held in the room, counted with multiplicity. */
  function Cards(ps: seq<Player>): multiset<Card> {
    if ps == [] then multiset{} else multiset(ps[0].chitti) + Cards(ps[1..])
  }

  /** `m` copies of `c`. */
  function Copies(c: Card, m: nat): multiset<Card> {
    multiset{}[c := m]
  }

  /** The number of players whose name is `host`. */
  function HostCount(ps: seq<Player>, host: Name): nat {
    if ps == [] then 0 else (if ps[0].name == host then 1 else 0) + HostCount(ps[1..], host)
  }

  /** Replacing one player changes the count of each card in the room by
      exactly the difference between the two hands. */
  lemma {:induction false} CardsUpdate(ps: seq<Player>, k: nat, q: Player, e: Card)
    requires k < |ps|
    ensures Cards(ps[k := q])[e] + multiset(ps[k].chitti)[e] == Cards(ps)[e] + multiset(q.chitti)[e]
  {
    var ps' := ps[k := q];
    assert ps'[0] == (if k == 0 then q else ps[0]);
    if k > 0 {
      assert ps'[1..] == ps[1..][k - 1 := q];
      assert ps[1..][k - 1] == ps[k];
      CardsUpdate(ps[1..], k - 1, q, e);
    } else {
      assert ps'[1..] == ps[1..];
    }
  }

  lemma {:induction false} HostCountOne(ps: seq<Player>, host: Name)
    requires UniqueNames(ps) && HasPlayer(ps, host)
    ensures HostCount(ps, host) == 1
  {
    if ps[0].name == host {
      HostCountZero(ps[1..], host);
    } else {
      var w :| 0 <= w < |ps| && ps[w].name == host;
      assert ps[1..][w - 1].name == host;
      HostCountOne(ps[1..], host);
    }
  }

  lemma {:induction false} HostCountZero(ps: seq<Player>, host: Name)
    requires !HasPlayer(ps, host)
    ensures HostCount(ps, host) == 0
  {
    if ps != [] {
      assert forall k :: 0 <= k < |ps[1..]| ==> ps[1..][k] == ps[k + 1];
      HostCountZero(ps[1..], host);
    }
  }

  /** Dealing raises the count of `card` by one per player plus one per extra
      host copy, and leaves the count of every other card alone. */
  lemma {:induction false} DealHandsCount(ps: seq<Player>, host: Name, card: Card, ishost: bool, e: Card)
    ensures Cards(DealHands(ps, host, card, ishost))[e]
         == Cards(ps)[e] + if e == card then |ps| + (if ishost then HostCount(ps, host) else 0) else 0
  {
    if ps != [] {
      var r := DealHands(ps, host, card, ishost);
      assert r[1..] == DealHands(ps[1..], host, card, ishost);
      DealHandsCount(ps[1..], host, card, ishost, e);
      var mine := if ps[0].name == host && ishost then [card, card] else [card];
      assert r[0].chitti == ps[0].chitti + mine;
      assert multiset(r[0].chitti)[e] == multiset(ps[0].chitti)[e] + multiset(mine)[e];
    }
  }

  /** chitti-into adds one copy of the card per player, plus one more for the
      host when `ishost` is set; no other card appears or disappears. */
  lemma DealAddsCards(room: Room, card: Card, ishost: bool)
    requires ValidRoom(room)
    ensures Cards(AfterDeal(room, card, ishost).players)
         == Cards(room.players) + Copies(card, |room.players| + if ishost then 1 else 0)
  {
    HostCountOne(room.players, room.host);
    var a := Cards(AfterDeal(room, card, ishost).players);
    var b := Cards(room.players) + Copies(card, |room.players| + if ishost then 1 else 0);
    forall e ensures a[e] == b[e] {
      DealHandsCount(room.players, room.host, card, ishost, e);
    }
  }

  // -------------------------------------------------------------- pass-chitti

  /** The circular successor in join order, `(p + 1) % n`. */
  function Next(p: nat, n: nat): (r: nat)
    requires p < n
    ensures r == if p + 1 < n then p + 1 else 0
  {
    (p + 1) % n
  }

  /** The player reached after `k` successive passes starting at `p`. */
  function Advance(p: nat, n: nat, k: nat): (r: nat)
    requires p < n
    ensures r < n
  {
    if k == 0 then p else Next(Advance(p, n, k - 1), n)
  }

  /** Within one round, `k` passes from `p` land `p + k` seats further on, wrapping once. */
  lemma {:induction false} AdvanceWithinRound(p: nat, n: nat, k: nat)
    requires p < n && k <= n
    ensures Advance(p, n, k) == if p + k < n then p + k else p + k - n
  {
    if k > 0 {
      AdvanceWithinRound(p, n, k - 1);
    }
  }

  /** Turn order is circular: after as many passes as there are players, the
      turn is back with the player who started, and not earlier. */
  lemma TurnOrderWraps(p: nat, n: nat)
    requires p < n
    ensures Advance(p, n, n) == p
    ensures forall k :: 0 < k < n ==> Advance(p, n, k) != p
  {
    AdvanceWithinRound(p, n, n);
    forall k | 0 < k < n ensures Advance(p, n, k) != p {
      AdvanceWithinRound(p, n, k);
    }
  }

  /** `hand.splice(i, 1)`. */
  function Removed(hand: seq<Card>, i: nat): (r: seq<Card>)
    requires i < |hand|
    ensures |r| == |hand| - 1
    ensures forall k :: 0 <= k < i ==> r[k] == hand[k]
    ensures forall k :: i <= k < |r| ==> r[k] == hand[k + 1]
  {
    hand[..i] + hand[i + 1..]
  }

  /** Splicing out one card loses exactly that card. */
  lemma RemovedCards(hand: seq<Card>, i: nat)
    requires i < |hand|
    ensures multiset(Removed(hand, i)) + multiset{hand[i]} == multiset(hand)
  {
    assert hand == hand[..i] + [hand[i]] + hand[i + 1..];
  }

  /** Splicing before the end commutes with a push at the end: the single-player pass. */
  lemma RemovedAppend(hand: seq<Card>, c: Card, i: nat)
    requires i < |hand|
    ensures Removed(hand + [c], i) == Removed(hand, i) + [c]
  {
  }

  /** pass-chitti once every guard has passed: the card at `i` in player `p`'s
      hand is pushed onto the hand of the next player, then spliced out of `p`'s. */
  function AfterPass(room: Room, p: nat, i: nat): (r: Room)
    requires p < |room.players| && i < |room.players[p].chitti|
    ensures r.host == room.host && r.gameOver == room.gameOver && r.winner == room.winner
    ensures |r.players| == |room.players|
    ensures forall k :: 0 <= k < |room.players| ==>
              r.players[k].id == room.players[k].id && r.players[k].name == room.players[k].name
    ensures var q := Next(p, |room.players|);
            forall k :: 0 <= k < |room.players| && k != p && k != q ==> r.players[k] == room.players[k]
    ensures var q := Next(p, |room.players|);
            var card := room.players[p].chitti[i];
            if q != p then
              && r.players[q].chitti == room.players[q].chitti + [card]
              && r.players[p].chitti == Removed(room.players[p].chitti, i)
            else
              r.players[p].chitti == Removed(room.players[p].chitti, i) + [card]
  {
    var q := Next(p, |room.players|);
    var card := room.players[p].chitti[i];
    var pushed := room.players[q := room.players[q].(chitti := room.players[q].chitti + [card])];
    var spliced := pushed[p := pushed[p].(chitti := Removed(pushed[p].chitti, i))];
    RemovedAppend(room.players[p].chitti, card, i);
    room.(players := spliced)
  }

  /** A pass moves one card: the multiset of all cards in the room is unchanged,
      also when the sender is alone and passes to themself. */
  lemma PassConservesCards(room: Room, p: nat, i: nat)
    requires p < |room.players| && i < |room.players[p].chitti|
    ensures Cards(AfterPass(room, p, i).players) == Cards(room.players)
  {
    var ps := room.players;
    var q := Next(p, |ps|);
    var card := ps[p].chitti[i];
    var pushed := ps[q := ps[q].(chitti := ps[q].chitti + [card])];
    assert multiset(ps[q].chitti + [card]) == multiset(ps[q].chitti) + multiset{card};
    var h := pushed[p].chitti;
    assert h[i] == card;
    RemovedCards(h, i);
    var spliced := pushed[p := pushed[p].(chitti := Removed(h, i))];
    assert AfterPass(room, p, i).players == spliced;
    forall e ensures Cards(spliced)[e] == Cards(ps)[e] {
      CardsUpdate(ps, q, pushed[q], e);
      CardsUpdate(pushed, p, spliced[p], e);
    }
  }

  lemma PassKeepsValid(room: Room, p: nat, i: nat)
    requires ValidRoom(room)
    requires p < |room.players| && i < |room.players[p].chitti|
    ensures ValidRoom(AfterPass(room, p, i))
  {
  }

  /** The passed card lands at the end of the recipient's hand, also when the
      sender is alone and is their own recipient. */
  lemma PassLandsLast(room: Room, p: nat, i: nat)
    requires p < |room.players| && i < |room.players[p].chitti|
    ensures var h := AfterPass(room, p, i).players[Next(p, |room.players|)].chitti;
            |h| > 0 && h[|h| - 1] == room.players[p].chitti[i]
  {
  }

  /** `k` successive passes of one card: player `p` passes the card at `i`, and
      each later pass is made by whoever holds the card, from the last slot of
      their hand, where the previous pass put it. The card always ends last in
      the hand `Advance` names, and no card is gained or lost on the way. */
  function PassAround(room: Room, p: nat, i: nat, k: nat): (r: Room)
    requires p < |room.players| && i < |room.players[p].chitti| && 1 <= k
    ensures |r.players| == |room.players|
    ensures forall j :: 0 <= j < |room.players| ==> r.players[j].name == room.players[j].name
    ensures var h := r.players[Advance(p, |room.players|, k)].chitti;
            |h| > 0 && h[|h| - 1] == room.players[p].chitti[i]
    ensures Cards(r.players) == Cards(room.players)
    decreases k
  {
    if k == 1 then
      PassConservesCards(room, p, i);
      PassLandsLast(room, p, i);
      AfterPass(room, p, i)
    else
      var prev := PassAround(room, p, i, k - 1);
      var holder := Advance(p, |room.players|, k - 1);
      var last := |prev.players[holder].chitti| - 1;
      PassConservesCards(prev, holder, last);
      PassLandsLast(prev, holder, last);
      AfterPass(prev, holder, last)
  }

  /** The card comes home: after as many passes as there are players, the card
      first passed by `p` is back with `p`, at the end of their hand. */
  lemma CardReturnsAfterRound(room: Room, p: nat, i: nat)
    requires p < |room.players| && i < |room.players[p].chitti|
    ensures var h := PassAround(room, p, i, |room.players|).players[p].chitti;
            |h| > 0 && h[|h| - 1] == room.players[p].chitti[i]
  {
    TurnOrderWraps(p, |room.players|);
  }

  // ------------------------------------------------------------- winner-check

  /** The reasons winner-check sends back to the requester. */
  const ReasonFinished: string := "Game already finished"
  const ReasonCount: string := "you must have exactly 4 chittis"
  const ReasonMixed: string := "Not all chittis are same"

  /** `hand.every(c => c === hand[0])`. */
  predicate AllSame(hand: seq<Card>) {
    forall k :: 0 <= k < |hand| ==> hand[k] == hand[0]
  }

  /** The win predicate: exactly four cards, all equal to the first. */
  predicate IsWinningHand(hand: seq<Card>) {
    |hand| == 4 && AllSame(hand)
  }

  lemma WinningHandIsFourOfAKind(hand: seq<Card>)
    ensures IsWinningHand(hand) <==> exists c :: hand == [c, c, c, c]
  {
    if IsWinningHand(hand) {
      assert hand == [hand[0], hand[0], hand[0], hand[0]];
    }
  }

  /** What winner-check decides for a located room, in the order the handler tests. */
  datatype Verdict = Finished | UnknownPlayer | WrongCount | Mixed | Wins

  function Judge(room: Room, player: Name): (v: Verdict)
    ensures v == Finished <==> room.gameOver
    ensures v == UnknownPlayer <==> !room.gameOver && !HasPlayer(room.players, player)
    ensures v == WrongCount ==> exists k :: 0 <= k < |room.players| && room.players[k].name == player && |room.players[k].chitti| != 4
    ensures v == Mixed ==> exists k :: 0 <= k < |room.players| && room.players[k].name == player && |room.players[k].chitti| == 4 && !AllSame(room.players[k].chitti)
  {
    if room.gameOver then Finished
    else
      var k := IndexOf(room.players, player);
      if k == -1 then UnknownPlayer
      else if |room.players[k].chitti| != 4 then WrongCount
      else if AllSame(room.players[k].chitti) then Wins
      else Mixed
  }

  /** In a well-formed room, a check succeeds exactly when the game is open and
      the requester is a player holding four identical cards. */
  lemma JudgeWinsIff(room: Room, player: Name)
    requires ValidRoom(room)
    ensures Judge(room, player) == Wins <==>
              && !room.gameOver
              && exists k :: 0 <= k < |room.players| && room.players[k].name == player
                             && exists c :: room.players[k].chitti == [c, c, c, c]
  {
    if !room.gameOver && HasPlayer(room.players, player) {
      var k := IndexOf(room.players, player);
      WinningHandIsFourOfAKind(room.players[k].chitti);
      forall j | 0 <= j < |room.players| && room.players[j].name == player
        ensures j == k
      {
        IndexOfUnique(room.players, player, j);
      }
    }
  }

  /** The winning transition: the room is marked finished with `player` as winner. */
  function AfterWin(room: Room, player: Name): (r: Room)
    ensures r.gameOver && r.winner == Some(player)
    ensures r.host == room.host && r.players == room.players
    ensures forall other :: Judge(r, other) == Finished
  {
    room.(gameOver := true, winner := Some(player))
  }

  lemma WinKeepsValid(room: Room, player: Name)
    requires ValidRoom(room) && HasPlayer(room.players, player)
    ensures ValidRoom(AfterWin(room, player))
  {
  }
}
