/** The room registry of the socket server: the process-wide `rooms` table and
    one method per socket handler. A handler's emitted events are returned as
    an Outcome instead of being sent. */
module Server {
  import opened Rooms

  /** What a handler emits. `snapshot` is the room sent with "room-update". */
  datatype Outcome =
    | RoomError(message: string)                                // "room-error", to the creator
    | RoomCreated(code: string, host: Name, snapshot: Room)     // "room-created", then "room-update"
    | Updated(snapshot: Room)                                   // "room-update"
    | NextPlayer(nextPlayer: Name, card: Card, snapshot: Room)  // "next-player", then "room-update"
    | GameOver(winner: Name)                                    // "game-over"
    | NotWinner(reason: string)                                 // "not-winner", to the requester
    | Ignored                                                   // the handler returned without emitting

  const RoomExists: string := "Room already exists"

  /** A fresh room: the creator is host and sole player, holding no cards. */
  function NewRoom(id: SocketId, player: Name): (r: Room)
    ensures ValidRoom(r)
    ensures r.host == player && !r.gameOver && r.winner == None
    ensures |r.players| == 1 && r.players[0].name == player && r.players[0].chitti == []
  {
    var r := Room(player, [Player(id, player, [])], false, None);
    assert r.players[0].name == player;
    r
  }

  class RoomTable {
    var rooms: map<string, Room>

    /** Every room in the table is well formed. */
    ghost predicate Valid()
      reads this
    {
      forall c :: c in rooms ==> ValidRoom(rooms[c])
    }

    constructor ()
      ensures Valid() && rooms == map[]
    {
      rooms := map[];
    }

    /** create-room: a taken code is refused and nothing changes; otherwise the
        code maps to a fresh room hosted by `player`. */
    method CreateRoom(id: SocketId, player: Name, code: string) returns (out: Outcome)
      requires Valid()
      modifies this
      ensures Valid()
      ensures code in old(rooms) ==> rooms == old(rooms) && out == RoomError(RoomExists)
      ensures code !in old(rooms) ==>
                && rooms == old(rooms)[code := NewRoom(id, player)]
                && out == RoomCreated(code, player, rooms[code])
    {
      if code in rooms {
        return RoomError(RoomExists);
      }
      rooms := rooms[code := NewRoom(id, player)];
      out := RoomCreated(code, player, rooms[code]);
    }

    /** join-room: an empty name or an unknown code is ignored; otherwise the
        name is added unless already present, and the room is broadcast either way. */
    method JoinRoom(id: SocketId, player: Name, code: string) returns (out: Outcome)
      requires Valid()
      modifies this
      ensures Valid()
      ensures player == "" || code !in old(rooms) ==> rooms == old(rooms) && out == Ignored
      ensures player != "" && code in old(rooms) ==>
                && rooms == old(rooms)[code := AfterJoin(old(rooms)[code], id, player)]
                && out == Updated(rooms[code])
    {
      if player == "" || code !in rooms {
        return Ignored;
      }
      var room := rooms[code];
      JoinKeepsValid(room, id, player);
      if IndexOf(room.players, player) == -1 {
        room := room.(players := room.players + [Player(id, player, [])]);
        rooms := rooms[code := room];
      }
      out := Updated(room);
    }

    /** chitti-into: on an open room every hand receives the card, the host's
        twice when `ishost` is set; a missing or finished room is left alone. */
    method ChittiInto(code: string, chitti: Card, ishost: bool) returns (out: Outcome)
      requires Valid()
      modifies this
      ensures Valid()
      ensures code !in old(rooms) || old(rooms)[code].gameOver ==> rooms == old(rooms) && out == Ignored
      ensures code in old(rooms) && !old(rooms)[code].gameOver ==>
                && rooms == old(rooms)[code := AfterDeal(old(rooms)[code], chitti, ishost)]
                && out == Updated(rooms[code])
    {
      if code !in rooms || rooms[code].gameOver {
        return Ignored;
      }
      var room := rooms[code];
      var players := room.players;
      var k := 0;
      while k < |players|
        invariant 0 <= k <= |players| == |room.players|
        invariant forall j :: 0 <= j < k ==> players[j] == DealOne(room.players[j], room.host, chitti, ishost)
        invariant forall j :: k <= j < |players| ==> players[j] == room.players[j]
      {
        var p := players[k];
        var hand := p.chitti + [chitti];
        if p.name == room.host && ishost {
          hand := hand + [chitti];
          assert hand == p.chitti + [chitti, chitti];
        }
        players := players[k := p.(chitti := hand)];
        k := k + 1;
      }
      assert players == DealHands(room.players, room.host, chitti, ishost);
      DealKeepsValid(room, chitti, ishost);
      rooms := rooms[code := room.(players := players)];
      out := Updated(rooms[code]);
    }

    /** pass-chitti: when the index is present, the room open, the sender known
        and the slot holds a (truthy) card, that card goes to the end of the next
        player's hand and is spliced out of the sender's; otherwise nothing happens. */
    method PassChitti(code: string, player: Name, index: Option<int>) returns (out: Outcome)
      requires Valid()
      modifies this
      ensures Valid()
      ensures index.None? || code !in old(rooms) || old(rooms)[code].gameOver ==>
                rooms == old(rooms) && out == Ignored
      ensures index.Some? && code in old(rooms) && !old(rooms)[code].gameOver ==>
                var room := old(rooms)[code];
                var p := IndexOf(room.players, player);
                var i := index.value;
                if p == -1 || i < 0 || i >= |room.players[p].chitti| || !Truthy(room.players[p].chitti[i]) then
                  rooms == old(rooms) && out == Ignored
                else
                  && rooms == old(rooms)[code := AfterPass(room, p, i)]
                  && out == NextPlayer(room.players[Next(p, |room.players|)].name, room.players[p].chitti[i], rooms[code])
    {
      if index.None? {
        return Ignored;
      }
      if code !in rooms || rooms[code].gameOver {
        return Ignored;
      }
      var room := rooms[code];
      var i := index.value;
      var p := IndexOf(room.players, player);
      if p == -1 {
        return Ignored;
      }
      // An index outside the hand reads `undefined`; an empty-string card is
      // falsy as well. Both end the handler.
      if i < 0 || i >= |room.players[p].chitti| || !Truthy(room.players[p].chitti[i]) {
        return Ignored;
      }
      var chitti := room.players[p].chitti[i];
      var q := (p + 1) % |room.players|;
      var nextPlayer := room.players[q].name;
      var players := room.players;
      players := players[q := players[q].(chitti := players[q].chitti + [chitti])];
      players := players[p := players[p].(chitti := players[p].chitti[..i] + players[p].chitti[i + 1..])];
      assert room.(players := players) == AfterPass(room, p, i);
      PassKeepsValid(room, p, i);
      rooms := rooms[code := room.(players := players)];
      out := NextPlayer(nextPlayer, chitti, rooms[code]);
    }

    /** winner-check: reports why the requester has not won, or closes the room
        with the requester as winner. The deletion it schedules is DeleteRoom. */
    method WinnerCheck(code: string, player: Name) returns (out: Outcome)
      requires Valid()
      modifies this
      ensures Valid()
      ensures player == "" || code !in old(rooms) ==> rooms == old(rooms) && out == Ignored
      ensures player != "" && code in old(rooms) ==>
                var room := old(rooms)[code];
                match Judge(room, player)
                case Finished => rooms == old(rooms) && out == NotWinner(ReasonFinished)
                case UnknownPlayer => rooms == old(rooms) && out == Ignored
                case WrongCount => rooms == old(rooms) && out == NotWinner(ReasonCount)
                case Mixed => rooms == old(rooms) && out == NotWinner(ReasonMixed)
                case Wins => rooms == old(rooms)[code := AfterWin(room, player)] && out == GameOver(player)
    {
      if player == "" || code !in rooms {
        return Ignored;
      }
      var room := rooms[code];
      if room.gameOver {
        return NotWinner(ReasonFinished);
      }
      var k := IndexOf(room.players, player);
      if k == -1 {
        return Ignored;
      }
      var hand := room.players[k].chitti;
      if |hand| != 4 {
        return NotWinner(ReasonCount);
      }
      if AllSame(hand) {
        WinKeepsValid(room, player);
        rooms := rooms[code := room.(gameOver := true, winner := Some(player))];
        out := GameOver(player);
      } else {
        out := NotWinner(ReasonMixed);
      }
    }

    /** The deferred cleanup after a win: drops the code; a code already gone is left gone. */
    method DeleteRoom(code: string)
      requires Valid()
      modifies this
      ensures Valid()
      ensures rooms == old(rooms) - {code}
      ensures code !in old(rooms) ==> rooms == old(rooms)
    {
      rooms := rooms - {code};
    }
  }

  /** A client of the contracts above: a second create under a taken code and a
      repeated join change nothing. */
  method CreateAndJoinScenario() {
    var t := new RoomTable();
    var out := t.CreateRoom("s1", "Alice", "R1");
    assert out.RoomCreated?;
    out := t.CreateRoom("s9", "Mallory", "R1");
    assert out == RoomError(RoomExists) && t.rooms["R1"].host == "Alice";
    out := t.JoinRoom("s2", "Bob", "R1");
    assert t.rooms["R1"].players == [Player("s1", "Alice", []), Player("s2", "Bob", [])];
    out := t.JoinRoom("s3", "Bob", "R1");
    assert t.rooms["R1"].players == [Player("s1", "Alice", []), Player("s2", "Bob", [])];
  }

  /** A client of the contracts above: Alice creates "R1" and Bob joins it. */
  method TwoPlayerRoom() returns (t: RoomTable)
    ensures fresh(t) && t.Valid()
    ensures t.rooms == map["R1" := Room("Alice", [Player("s1", "Alice", []), Player("s2", "Bob", [])], false, None)]
  {
    t := new RoomTable();
    var out := t.CreateRoom("s1", "Alice", "R1");
    out := t.JoinRoom("s2", "Bob", "R1");
    assert t.rooms["R1"].players == [Player("s1", "Alice", []), Player("s2", "Bob", [])];
  }

  /** A client of the contracts above: one deal of "5" to Alice and Bob, who hold the same hand. */
  method DealFive(t: RoomTable, hand: seq<Card>)
    requires t.Valid()
    requires t.rooms == map["R1" := Room("Alice", [Player("s1", "Alice", hand), Player("s2", "Bob", hand)], false, None)]
    modifies t
    ensures t.Valid()
    ensures t.rooms == map["R1" := Room("Alice", [Player("s1", "Alice", hand + ["5"]), Player("s2", "Bob", hand + ["5"])], false, None)]
  {
    var out := t.ChittiInto("R1", "5", false);
    assert t.rooms["R1"].players == [Player("s1", "Alice", hand + ["5"]), Player("s2", "Bob", hand + ["5"])];
  }

  /** A client of the contracts above: four deals of "5", a rejected pass, the
      win, a late check, a deal and a create under the same code while the
      finished room waits for its deletion, and the cleanup. */
  method AliceWinsScenario() {
    var t := TwoPlayerRoom();
    DealFive(t, []);
    DealFive(t, [] + ["5"]);
    DealFive(t, [] + ["5"] + ["5"]);
    DealFive(t, [] + ["5"] + ["5"] + ["5"]);
    var four := [] + ["5"] + ["5"] + ["5"] + ["5"];
    assert four == ["5", "5", "5", "5"];
    var out := t.PassChitti("R1", "Alice", Some(7));
    assert out == Ignored;
    out := t.WinnerCheck("R1", "Alice");
    assert out == GameOver("Alice");
    out := t.WinnerCheck("R1", "Bob");
    assert out == NotWinner(ReasonFinished);
    out := t.ChittiInto("R1", "7", true);
    assert out == Ignored;
    out := t.CreateRoom("s9", "Mallory", "R1");
    assert out == RoomError(RoomExists) && t.rooms["R1"].winner == Some("Alice");
    t.DeleteRoom("R1");
    t.DeleteRoom("R1");
    assert "R1" !in t.rooms;
  }
}
