/** Rooms and their manager as objects, refining the state of `Rooms`. */
module RoomManager {
  import opened Rooms

  class BattleRoom {
    const battleId: nat
    const maxPlayers: nat
    var players: set<nat>

    /** A room whose world came up. */
    constructor (battleId: nat, maxPlayers: nat)
      ensures this.battleId == battleId && this.maxPlayers == maxPlayers && players == {}
    {
      this.battleId := battleId;
      this.maxPlayers := maxPlayers;
      players := {};
    }

    ghost function View(): (r: Room)
      reads this
    {
      Room(maxPlayers, players)
    }

    /** `addPlayer`. */
    method AddPlayer(session: nat, spawned: bool) returns (ok: bool)
      modifies this
      ensures ok <==> !IsFull(old(View())) && (session in old(players) || spawned)
      ensures players == if ok then old(players) + {session} else old(players)
    {
      if |players| >= maxPlayers {
        return false;
      }
      if session in players {
        return true;
      }
      if !spawned {
        return false;
      }
      players := players + {session};
      ok := true;
    }

    /** `removePlayer`. */
    method RemovePlayer(session: nat)
      modifies this
      ensures players == old(players) - {session}
    {
      players := players - {session};
    }
  }

  /** The values of some room objects. */
  ghost function Views(rooms: map<nat, BattleRoom>): (r: map<nat, Room>)
    reads rooms.Values
  {
    map b | b in rooms :: rooms[b].View()
  }

  lemma ViewsAre(rooms: map<nat, BattleRoom>)
    ensures Views(rooms).Keys == rooms.Keys && forall b :: b in rooms ==> Views(rooms)[b] == rooms[b].View()
  {
  }

  class BattleRoomManager {
    const maxRooms: nat
    const maxSessions: nat
    var rooms: map<nat, BattleRoom>
    var sessionToRoom: map<nat, nat>

    constructor (maxRooms: nat, maxSessions: nat)
      ensures this.maxRooms == maxRooms && this.maxSessions == maxSessions
      ensures Fine() && rooms == map[] && sessionToRoom == map[]
    {
      this.maxRooms := maxRooms;
      this.maxSessions := maxSessions;
      rooms, sessionToRoom := map[], map[];
    }

    ghost function View(): (r: Hall)
      reads this, rooms.Values
    {
      Hall(maxRooms, maxSessions, Views(rooms), sessionToRoom)
    }

    /** Every room is kept once, under its own id, and the state is one the invariant allows. */
    ghost predicate Fine()
      reads this, rooms.Values
    {
      Valid(View()) && forall b :: b in rooms ==> rooms[b].battleId == b
    }

    /** `createRoom`. */
    method CreateRoom(battleId: nat, maxPlayers: nat, initialized: bool) returns (room: BattleRoom?)
      requires Fine()
      modifies this
      ensures Fine() && View() == Rooms.CreateRoom(old(View()), battleId, maxPlayers, initialized)
      ensures if battleId in rooms then room == rooms[battleId] else room == null
    {
      hide Valid, Views;
      ghost var before := View();
      ViewsAre(rooms);
      CreateKeeps(before, battleId, maxPlayers, initialized);
      SameSize(rooms, before.rooms);
      NoRoomZero(before);
      room := null;
      if battleId == 0 {
        return;
      }
      if battleId in rooms {
        return rooms[battleId];
      }
      if |rooms| >= maxRooms || !initialized {
        return;
      }
      room := new BattleRoom(battleId, maxPlayers);
      Keep(room);
    }

    /** A new room goes into the map; the others are as they were. */
    method Keep(room: BattleRoom)
      modifies this`rooms
      ensures rooms == old(rooms)[room.battleId := room] && Views(rooms) == old(Views(rooms))[room.battleId := room.View()]
    {
      rooms := rooms[room.battleId := room];
    }

    /** `findRoomBySession`. */
    method FindRoomBySession(session: nat) returns (room: BattleRoom?)
      requires Fine()
      ensures room == null <==> session !in sessionToRoom
      ensures room != null ==> room.battleId in rooms && rooms[room.battleId] == room && session in room.players
    {
      if session !in sessionToRoom {
        return null;
      }
      var b := sessionToRoom[session];
      assert View().seats[session] in View().rooms;
      return if b in rooms then rooms[b] else null;
    }

    /** `addPlayerToRoom`, for a room the manager holds. */
    method AddPlayerToRoom(room: BattleRoom, session: nat, spawned: bool) returns (ok: bool)
      requires Fine() && room.battleId in rooms && rooms[room.battleId] == room
      modifies this, room
      ensures Fine() && View() == Rooms.AddPlayer(old(View()), room.battleId, session, spawned)
      ensures ok <==> session in sessionToRoom
    {
      hide Valid, IsFull, Views;
      ghost var before := View();
      ViewsAre(rooms);
      AddKeeps(before, room.battleId, session, spawned);
      SeatedInRoom(before, room.battleId);
      SameSize(rooms, before.rooms);
      if session in sessionToRoom {
        return true;
      }
      if |rooms| >= maxRooms || |sessionToRoom| >= maxSessions {
        return false;
      }
      ok := Seat(room, session, spawned);
      if ok {
        sessionToRoom := sessionToRoom[session := room.battleId];
      }
    }

    /** The seat itself; no other room is touched. */
    method Seat(room: BattleRoom, session: nat, spawned: bool) returns (ok: bool)
      requires room.battleId in rooms && rooms[room.battleId] == room && forall b :: b in rooms ==> rooms[b].battleId == b
      requires session !in room.players
      modifies room
      ensures ok <==> !IsFull(old(Views(rooms))[room.battleId]) && spawned
      ensures Views(rooms) ==
        if ok then
          var was := old(Views(rooms))[room.battleId];
          old(Views(rooms))[room.battleId := was.(players := was.players + {session})]
        else old(Views(rooms))
    {
      ghost var before := Views(rooms);
      assert forall c :: c in rooms && rooms[c] == room ==> c == room.battleId;
      ok := room.AddPlayer(session, spawned);
      ghost var was := before[room.battleId];
      assert ok ==> Views(rooms) == before[room.battleId := was.(players := was.players + {session})];
      assert !ok ==> Views(rooms) == before;
    }

    /** `removePlayer`. */
    method RemovePlayer(session: nat)
      requires Fine()
      modifies this, rooms.Values
      ensures Fine() && View() == Rooms.RemovePlayer(old(View()), session)
    {
      hide Valid;
      ghost var before := View();
      RemoveKeeps(before, session);
      if session !in sessionToRoom {
        return;
      }
      var b := sessionToRoom[session];
      if b in rooms {
        var room := rooms[b];
        assert forall c :: c in rooms && rooms[c] == room ==> c == b;
        room.RemovePlayer(session);
        ghost var left := before.rooms[b].players - {session};
        if room.players == {} {
          rooms := rooms - {room.battleId};
          assert Views(rooms) == before.rooms - {b};
        } else {
          assert Views(rooms) == before.rooms[b := before.rooms[b].(players := left)];
        }
      }
      sessionToRoom := sessionToRoom - {session};
    }
  }

  lemma NoRoomZero(h: Hall)
    requires Valid(h)
    ensures 0 !in h.rooms
  {
  }

  /** Who sits in a room is indexed to it. */
  lemma SeatedInRoom(h: Hall, b: nat)
    requires Valid(h) && b in h.rooms
    ensures forall s :: s in h.rooms[b].players ==> s in h.seats
  {
  }
}
