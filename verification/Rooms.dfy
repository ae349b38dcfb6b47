/** The room manager: rooms with their seats, and the index from sessions to rooms. */
module Rooms {

  datatype Room = Room(maxPlayers: nat, players: set<nat>)

  /** The manager's state as values. */
  datatype Hall = Hall(maxRooms: nat, maxSessions: nat, rooms: map<nat, Room>, seats: map<nat, nat>)

  /** `s` is indexed to `b` exactly when room `b` exists and seats `s`. */
  ghost predicate Indexed(rooms: map<nat, Room>, seats: map<nat, nat>) {
    && (forall s :: s in seats ==> seats[s] in rooms && s in rooms[seats[s]].players)
    && forall b, s :: b in rooms && s in rooms[b].players ==> s in seats && seats[s] == b
  }

  ghost predicate Valid(h: Hall) {
    && Indexed(h.rooms, h.seats)
    && (forall b :: b in h.rooms ==> b != 0 && |h.rooms[b].players| <= h.rooms[b].maxPlayers)
    && |h.rooms| <= h.maxRooms && |h.seats| <= h.maxSessions
  }

  // ----- the operations -----

  /** `createRoom`; `initialized` says whether the world and map came up. */
  function CreateRoom(h: Hall, battleId: nat, maxPlayers: nat, initialized: bool): (r: Hall) {
    if battleId == 0 || battleId in h.rooms || |h.rooms| >= h.maxRooms || !initialized then h
    else h.(rooms := h.rooms[battleId := Room(maxPlayers, {})])
  }

  /** `canAcceptSession`. */
  predicate CanAcceptSession(h: Hall, session: nat) {
    session in h.seats || (|h.rooms| < h.maxRooms && |h.seats| < h.maxSessions)
  }

  predicate IsFull(room: Room) { |room.players| >= room.maxPlayers }

  /** `addPlayerToRoom`; `spawned` says whether the role was configured and the actor spawned. */
  function AddPlayer(h: Hall, b: nat, session: nat, spawned: bool): (r: Hall)
    requires b in h.rooms
  {
    if session in h.seats || !CanAcceptSession(h, session) || IsFull(h.rooms[b]) || !spawned then h
    else h.(rooms := h.rooms[b := h.rooms[b].(players := h.rooms[b].players + {session})], seats := h.seats[session := b])
  }

  /** `removePlayer`: a room that empties is destroyed. */
  function RemovePlayer(h: Hall, session: nat): (r: Hall) {
    if session !in h.seats then h
    else
      var b := h.seats[session];
      if b !in h.rooms then h.(seats := h.seats - {session})
      else
        var left := h.rooms[b].players - {session};
        h.(rooms := if left == {} then h.rooms - {b} else h.rooms[b := h.rooms[b].(players := left)],
           seats := h.seats - {session})
  }

  lemma CreateKeeps(h: Hall, battleId: nat, maxPlayers: nat, initialized: bool)
    requires Valid(h)
    ensures Valid(CreateRoom(h, battleId, maxPlayers, initialized))
  {
  }

  /** Seating a session and indexing it. */
  lemma AddIndexed(h: Hall, b: nat, session: nat)
    requires Indexed(h.rooms, h.seats) && b in h.rooms && session !in h.seats
    ensures Indexed(h.rooms[b := h.rooms[b].(players := h.rooms[b].players + {session})], h.seats[session := b])
  {
    var rooms := h.rooms[b := h.rooms[b].(players := h.rooms[b].players + {session})];
    var seats := h.seats[session := b];
    assert forall c :: c in h.rooms ==> session !in h.rooms[c].players;
    forall s | s in seats ensures seats[s] in rooms && s in rooms[seats[s]].players {
      if s != session {
        assert s in h.rooms[h.seats[s]].players;
      }
    }
    forall c, s | c in rooms && s in rooms[c].players ensures s in seats && seats[s] == c {
      if s != session {
        assert s in h.rooms[c].players;
      }
    }
  }

  lemma AddKeeps(h: Hall, b: nat, session: nat, spawned: bool)
    requires Valid(h) && b in h.rooms
    ensures Valid(AddPlayer(h, b, session, spawned))
  {
    hide Indexed;
    var r := AddPlayer(h, b, session, spawned);
    if r != h {
      AddIndexed(h, b, session);
      NotSeated(h, b, session);
      assert |h.rooms[b].players + {session}| == |h.rooms[b].players| + 1;
      SameSize(r.rooms, h.rooms);
    }
  }

  lemma NotSeated(h: Hall, b: nat, session: nat)
    requires Indexed(h.rooms, h.seats) && b in h.rooms && session !in h.seats
    ensures session !in h.rooms[b].players
  {
  }

  /** Taking a session off its seat and out of the index. */
  lemma RemoveIndexed(h: Hall, session: nat)
    requires Indexed(h.rooms, h.seats)
    ensures Indexed(RemovePlayer(h, session).rooms, RemovePlayer(h, session).seats)
  {
    if session in h.seats {
      var b := h.seats[session];
      var left := h.rooms[b].players - {session};
      var r := RemovePlayer(h, session);
      forall s | s in r.seats ensures r.seats[s] in r.rooms && s in r.rooms[r.seats[s]].players {
        assert s in h.seats && s != session && s in h.rooms[h.seats[s]].players;
        if h.seats[s] == b {
          assert s in left;
        }
      }
      forall c, s | c in r.rooms && s in r.rooms[c].players ensures s in r.seats && r.seats[s] == c {
        assert c in h.rooms && s in h.rooms[c].players && h.seats[s] == c;
      }
    }
  }

  lemma RemoveKeeps(h: Hall, session: nat)
    requires Valid(h)
    ensures Valid(RemovePlayer(h, session))
  {
    hide Indexed;
    RemoveIndexed(h, session);
    if session in h.seats {
      var b := h.seats[session];
      Smaller(h.seats, session);
      if b in h.rooms {
        FewerPlayers(h.rooms[b].players, session);
        Smaller(h.rooms, b);
        SameSize(h.rooms[b := h.rooms[b].(players := h.rooms[b].players - {session})], h.rooms);
      }
    }
  }

  lemma FewerPlayers(players: set<nat>, session: nat)
    ensures |players - {session}| <= |players|
  {
    if session in players {
      assert players == (players - {session}) + {session};
    } else {
      assert players - {session} == players;
    }
  }

  lemma SameSize<K, A, B>(m: map<K, A>, n: map<K, B>)
    requires m.Keys == n.Keys
    ensures |m| == |n|
  {
    assert |m.Keys| == |m| && |n.Keys| == |n|;
  }

  lemma Smaller<K, V>(m: map<K, V>, k: K)
    requires k in m
    ensures |m - {k}| < |m|
  {
    assert m.Keys == (m - {k}).Keys + {k};
    assert |(m - {k}).Keys + {k}| == |(m - {k}).Keys| + 1;
  }

  // ----- runs -----

  datatype Op =
    | Create(battleId: nat, maxPlayers: nat, initialized: bool)
    | Add(room: nat, session: nat, spawned: bool)
    | Remove(session: nat)

  /** One call; a player can only be added to a room the manager still has. */
  function Step(h: Hall, op: Op): (r: Hall) {
    match op
    case Create(battleId, maxPlayers, initialized) => CreateRoom(h, battleId, maxPlayers, initialized)
    case Add(room, session, spawned) => if room in h.rooms then AddPlayer(h, room, session, spawned) else h
    case Remove(session) => RemovePlayer(h, session)
  }

  function Run(h: Hall, ops: seq<Op>): (r: Hall)
    decreases |ops|
  {
    if ops == [] then h else Run(Step(h, ops[0]), ops[1..])
  }

  lemma StepKeeps(h: Hall, op: Op)
    requires Valid(h)
    ensures Valid(Step(h, op))
  {
    hide Valid;
    match op
    case Create(battleId, maxPlayers, initialized) => CreateKeeps(h, battleId, maxPlayers, initialized);
    case Add(room, session, spawned) => if room in h.rooms { AddKeeps(h, room, session, spawned); }
    case Remove(session) => RemoveKeeps(h, session);
  }

  /** Over every run the index goes on to mirror the seats and the limits hold. */
  lemma {:induction false} RunKeeps(h: Hall, ops: seq<Op>)
    requires Valid(h)
    ensures Valid(Run(h, ops))
    decreases |ops|
  {
    hide Valid, Step;
    if ops != [] {
      StepKeeps(h, ops[0]);
      RunKeeps(Step(h, ops[0]), ops[1..]);
    }
  }

  // ----- what one call changes -----

  /** A creation adds the one room, empty, or nothing. */
  lemma CreateExactly(h: Hall, battleId: nat, maxPlayers: nat, initialized: bool)
    ensures var r := Step(h, Create(battleId, maxPlayers, initialized));
      && (forall b :: b in r.rooms <==>
            b in h.rooms || (b == battleId && battleId != 0 && |h.rooms| < h.maxRooms && initialized))
      && (forall b :: b in h.rooms ==> r.rooms[b] == h.rooms[b])
      && (battleId in r.rooms && battleId !in h.rooms ==>
            r.rooms[battleId].maxPlayers == maxPlayers && r.rooms[battleId].players == {})
      && r.seats == h.seats && r.maxRooms == h.maxRooms && r.maxSessions == h.maxSessions
  {
  }

  /** Seating adds the one session to the one room, or nothing. */
  lemma AddExactly(h: Hall, b: nat, session: nat, spawned: bool)
    requires Valid(h)
    ensures var r := Step(h, Add(b, session, spawned));
      var seated := b in h.rooms && session !in h.seats && |h.rooms| < h.maxRooms && |h.seats| < h.maxSessions
                    && |h.rooms[b].players| < h.rooms[b].maxPlayers && spawned;
      && r.seats == (if seated then h.seats[session := b] else h.seats)
      && r.rooms.Keys == h.rooms.Keys && r.maxRooms == h.maxRooms && r.maxSessions == h.maxSessions
      && forall c :: c in h.rooms ==>
           && r.rooms[c].maxPlayers == h.rooms[c].maxPlayers
           && r.rooms[c].players == if seated && c == b then h.rooms[c].players + {session} else h.rooms[c].players
  {
  }

  /** Removal takes the session off every seat and leaves the others on theirs; a room goes exactly when the session was
      its only player, and one that stays keeps its limit and loses only the session. */
  lemma RemoveExactly(h: Hall, session: nat)
    requires Valid(h)
    ensures var r := Step(h, Remove(session));
      && session !in r.seats && (forall b :: b in r.rooms ==> session !in r.rooms[b].players)
      && (forall t :: t != session ==> (t in r.seats <==> t in h.seats) && (t in h.seats ==> r.seats[t] == h.seats[t]))
      && (forall b :: b in r.rooms <==> b in h.rooms && h.rooms[b].players != {session})
      && (forall b :: b in r.rooms ==>
            r.rooms[b].maxPlayers == h.rooms[b].maxPlayers && r.rooms[b].players == h.rooms[b].players - {session})
      && r.maxRooms == h.maxRooms && r.maxSessions == h.maxSessions
  {
    hide Indexed, RemovePlayer;
    RemovedSeats(h, session);
    OnlyInItsRoom(h, session);
    if session in h.seats {
      var b := h.seats[session];
      OnlyPlayer(h.rooms[b].players, session);
      RemovedFrom(h, session, b);
    } else {
      forall b | b in h.rooms ensures h.rooms[b].players - {session} == h.rooms[b].players && h.rooms[b].players != {session} {
        NotThere(h.rooms[b].players, session);
      }
    }
  }

  lemma RemovedSeats(h: Hall, session: nat)
    ensures var r := Step(h, Remove(session));
      && session !in r.seats && r.maxRooms == h.maxRooms && r.maxSessions == h.maxSessions
      && (forall t :: t != session ==> (t in r.seats <==> t in h.seats) && (t in h.seats ==> r.seats[t] == h.seats[t]))
      && (session !in h.seats ==> r == h)
  {
  }

  lemma NotThere(players: set<nat>, session: nat)
    requires session !in players
    ensures players - {session} == players && players != {session}
  {
  }

  /** The rooms after a seated session left. */
  lemma RemovedFrom(h: Hall, session: nat, b: nat)
    requires session in h.seats && h.seats[session] == b && b in h.rooms && session in h.rooms[b].players
    requires forall c :: c in h.rooms && session in h.rooms[c].players ==> c == b
    requires h.rooms[b].players - {session} == {} <==> h.rooms[b].players == {session}
    ensures var r := Step(h, Remove(session));
      && (forall c :: c in r.rooms <==> c in h.rooms && h.rooms[c].players != {session})
      && forall c :: c in r.rooms ==>
           r.rooms[c].maxPlayers == h.rooms[c].maxPlayers && r.rooms[c].players == h.rooms[c].players - {session}
  {
    var r := Step(h, Remove(session));
    forall c | c in h.rooms && c != b
      ensures h.rooms[c].players - {session} == h.rooms[c].players && h.rooms[c].players != {session}
    {
      NotThere(h.rooms[c].players, session);
    }
  }

  lemma OnlyInItsRoom(h: Hall, session: nat)
    requires Indexed(h.rooms, h.seats)
    ensures session in h.seats ==> h.seats[session] in h.rooms && session in h.rooms[h.seats[session]].players
    ensures forall b :: b in h.rooms && session in h.rooms[b].players ==> session in h.seats && h.seats[session] == b
  {
  }

  lemma OnlyPlayer(players: set<nat>, session: nat)
    requires session in players
    ensures players - {session} == {} <==> players == {session}
  {
  }

  // ----- how long a room is held -----

  /** Someone sits in the room. */
  ghost predicate Occupied(h: Hall, b: nat) { exists s :: s in h.seats && h.seats[s] == b }

  /** No call creates the room. */
  predicate NotCreated(ops: seq<Op>, b: nat) { forall k :: 0 <= k < |ops| ==> !(ops[k].Create? && ops[k].battleId == b) }

  lemma OccupiedHasPlayers(h: Hall, b: nat)
    requires Valid(h)
    ensures Occupied(h, b) <==> b in h.rooms && h.rooms[b].players != {}
  {
    if b in h.rooms && h.rooms[b].players != {} {
      var s :| s in h.rooms[b].players;
      assert s in h.seats && h.seats[s] == b;
    }
    if s :| s in h.seats && h.seats[s] == b {
      assert s in h.rooms[h.seats[s]].players;
    }
  }

  lemma StepHolds(h: Hall, op: Op, b: nat)
    requires Valid(h) && (b in h.rooms <==> Occupied(h, b)) && !(op.Create? && op.battleId == b)
    ensures b in Step(h, op).rooms <==> Occupied(Step(h, op), b)
  {
    hide Valid, Step, Occupied;
    OccupiedHasPlayers(h, b);
    StepKeeps(h, op);
    OccupiedHasPlayers(Step(h, op), b);
    match op
    case Create(battleId, maxPlayers, initialized) => CreateExactly(h, battleId, maxPlayers, initialized);
    case Add(room, session, spawned) => AddExactly(h, room, session, spawned);
    case Remove(session) =>
      RemoveExactly(h, session);
      if b in Step(h, op).rooms {
        OneMorePlayer(h.rooms[b].players, session);
      }
  }

  lemma OneMorePlayer(players: set<nat>, session: nat)
    requires players != {} && players != {session}
    ensures players - {session} != {}
  {
    if session in players {
      assert players == players - {session} + {session};
    } else {
      assert players - {session} == players;
    }
  }

  /** Once someone has sat in a room it is held exactly as long as someone sits in it, until it is created again. */
  lemma HeldWhileOccupied(h: Hall, ops: seq<Op>, b: nat)
    requires Valid(h) && Occupied(h, b) && NotCreated(ops, b)
    ensures b in Run(h, ops).rooms <==> Occupied(Run(h, ops), b)
  {
    OccupiedHasPlayers(h, b);
    HeldInRun(h, ops, b);
  }

  lemma {:induction false} HeldInRun(h: Hall, ops: seq<Op>, b: nat)
    requires Valid(h) && (b in h.rooms <==> Occupied(h, b)) && NotCreated(ops, b)
    ensures b in Run(h, ops).rooms <==> Occupied(Run(h, ops), b)
    decreases |ops|
  {
    hide Valid, Step, Occupied;
    if ops != [] {
      StepKeeps(h, ops[0]);
      StepHolds(h, ops[0], b);
      HeldInRun(Step(h, ops[0]), ops[1..], b);
    }
  }

  // ----- seats and sessions -----

  /** The seats of some rooms, summed. */
  ghost function SeatSum(rooms: map<nat, Room>, ids: set<nat>): (r: nat)
    requires ids <= rooms.Keys
    decreases |ids|
  {
    if ids == {} then 0
    else
      var b :| b in ids;
      |rooms[b].players| + SeatSum(rooms, ids - {b})
  }

  /** The sessions indexed to some rooms. */
  ghost function SessionsIn(seats: map<nat, nat>, ids: set<nat>): (r: set<nat>) {
    set s | s in seats && seats[s] in ids
  }

  lemma {:induction false} SeatsOfSome(rooms: map<nat, Room>, seats: map<nat, nat>, ids: set<nat>)
    requires Indexed(rooms, seats) && ids <= rooms.Keys
    ensures SeatSum(rooms, ids) == |SessionsIn(seats, ids)|
    decreases |ids|
  {
    if ids == {} {
      assert SessionsIn(seats, ids) == {};
    } else {
      var b :| b in ids && SeatSum(rooms, ids) == |rooms[b].players| + SeatSum(rooms, ids - {b});
      SeatsOfSome(rooms, seats, ids - {b});
      SessionsSplit(rooms, seats, ids, b);
    }
  }

  lemma SessionsSplit(rooms: map<nat, Room>, seats: map<nat, nat>, ids: set<nat>, b: nat)
    requires Indexed(rooms, seats) && ids <= rooms.Keys && b in ids
    ensures |SessionsIn(seats, ids)| == |SessionsIn(seats, ids - {b})| + |rooms[b].players|
  {
    var others, here := SessionsIn(seats, ids - {b}), rooms[b].players;
    forall s | s in here ensures s in seats && seats[s] == b {
    }
    forall s | s in SessionsIn(seats, ids) && s !in others ensures s in here {
      assert seats[s] == b;
    }
    assert SessionsIn(seats, ids) == others + here;
    assert others !! here;
  }

  /** Seats summed over the rooms are the active sessions, and no session sits in two rooms. */
  lemma SeatsAreSessions(h: Hall)
    requires Valid(h)
    ensures SeatSum(h.rooms, h.rooms.Keys) == |h.seats|
    ensures forall b, c, s :: b in h.rooms && c in h.rooms && s in h.rooms[b].players && s in h.rooms[c].players ==> b == c
  {
    hide SessionsIn, SeatSum;
    SeatsOfSome(h.rooms, h.seats, h.rooms.Keys);
    AllSessions(h);
    forall b, c, s | b in h.rooms && c in h.rooms && s in h.rooms[b].players && s in h.rooms[c].players ensures b == c {
      assert h.seats[s] == b;
    }
  }

  lemma AllSessions(h: Hall)
    requires Valid(h)
    ensures |SessionsIn(h.seats, h.rooms.Keys)| == |h.seats|
  {
    assert SessionsIn(h.seats, h.rooms.Keys) == h.seats.Keys;
    assert |h.seats.Keys| == |h.seats|;
  }

  lemma EmptyIsValid(maxRooms: nat, maxSessions: nat)
    ensures Valid(Hall(maxRooms, maxSessions, map[], map[]))
  {
  }

  /** Over every run from an empty manager the index mirrors the seats, the seats are the sessions, each session in one
      room, and the limits hold. */
  lemma EveryRun(maxRooms: nat, maxSessions: nat, ops: seq<Op>)
    ensures var h := Run(Hall(maxRooms, maxSessions, map[], map[]), ops);
      && Indexed(h.rooms, h.seats) && SeatSum(h.rooms, h.rooms.Keys) == |h.seats| <= maxSessions && |h.rooms| <= maxRooms
      && (forall b :: b in h.rooms ==> |h.rooms[b].players| <= h.rooms[b].maxPlayers)
      && (forall b, c, s :: b in h.rooms && c in h.rooms && s in h.rooms[b].players && s in h.rooms[c].players ==> b == c)
  {
    hide Indexed, SeatSum;
    var empty := Hall(maxRooms, maxSessions, map[], map[]);
    EmptyIsValid(maxRooms, maxSessions);
    RunKeeps(empty, ops);
    RunLimits(empty, ops);
    SeatsAreSessions(Run(empty, ops));
  }

  lemma {:induction false} RunLimits(h: Hall, ops: seq<Op>)
    ensures Run(h, ops).maxRooms == h.maxRooms && Run(h, ops).maxSessions == h.maxSessions
    decreases |ops|
  {
    if ops != [] {
      RunLimits(Step(h, ops[0]), ops[1..]);
    }
  }

  // ----- what the limit on rooms does -----

  /** A new session gets a seat exactly when a further room could be created, a session is free, the room is not full
      and the actor spawned: the room limit refuses seats, not only rooms. */
  lemma SeatedIff(h: Hall, b: nat, session: nat, spawned: bool)
    requires Valid(h) && b in h.rooms && session !in h.seats
    ensures session in AddPlayer(h, b, session, spawned).rooms[b].players
      <==> |h.rooms| < h.maxRooms && |h.seats| < h.maxSessions && !IsFull(h.rooms[b]) && spawned
  {
  }

  /** A manager filled with rooms that nobody sits in stays so: no run of calls seats anyone or frees a room. */
  lemma {:induction false} FullOfEmptyRoomsForever(h: Hall, ops: seq<Op>)
    requires Valid(h) && |h.rooms| == h.maxRooms && h.seats == map[]
    ensures Run(h, ops) == h
    decreases |ops|
  {
    if ops != [] {
      assert Step(h, ops[0]) == h;
      FullOfEmptyRoomsForever(h, ops[1..]);
    }
  }

  /** Creations of the rooms 1 to `n`. */
  function Creations(n: nat, maxPlayers: nat): (ops: seq<Op>)
    ensures |ops| == n
  {
    if n == 0 then [] else Creations(n - 1, maxPlayers) + [Create(n, maxPlayers, true)]
  }

  lemma {:induction false} RunAppends(h: Hall, ops: seq<Op>, op: Op)
    ensures Run(h, ops + [op]) == Step(Run(h, ops), op)
    decreases |ops|
  {
    hide Step;
    if ops == [] {
      assert ops + [op] == [op] && [op][1..] == [];
      assert Run(Step(h, op), []) == Step(h, op);
    } else {
      assert (ops + [op])[0] == ops[0] && (ops + [op])[1..] == ops[1..] + [op];
      RunAppends(Step(h, ops[0]), ops[1..], op);
    }
  }

  /** Creations alone, one for each room allowed, fill a manager with rooms that nobody sits in. */
  lemma {:induction false} CreationsFill(maxRooms: nat, maxSessions: nat, maxPlayers: nat, n: nat)
    requires n <= maxRooms
    ensures var h := Run(Hall(maxRooms, maxSessions, map[], map[]), Creations(n, maxPlayers));
      && h.maxRooms == maxRooms && h.maxSessions == maxSessions && h.seats == map[]
      && |h.rooms| == n && (forall b :: b in h.rooms <==> 1 <= b <= n)
      && forall b :: b in h.rooms ==> h.rooms[b] == Room(maxPlayers, {})
    decreases n
  {
    if n > 0 {
      CreationsFill(maxRooms, maxSessions, maxPlayers, n - 1);
      RunAppends(Hall(maxRooms, maxSessions, map[], map[]), Creations(n - 1, maxPlayers), Create(n, maxPlayers, true));
    }
  }

  /** So the full manager of empty rooms is reached from the start, and no further run of calls leaves it. */
  lemma FullOfEmptyRoomsReached(maxRooms: nat, maxSessions: nat, maxPlayers: nat, ops: seq<Op>)
    ensures var h := Run(Hall(maxRooms, maxSessions, map[], map[]), Creations(maxRooms, maxPlayers));
      |h.rooms| == maxRooms && h.seats == map[] && Run(h, ops) == h
  {
    hide Valid;
    var empty := Hall(maxRooms, maxSessions, map[], map[]);
    CreationsFill(maxRooms, maxSessions, maxPlayers, maxRooms);
    EmptyIsValid(maxRooms, maxSessions);
    RunKeeps(empty, Creations(maxRooms, maxPlayers));
    FullOfEmptyRoomsForever(Run(empty, Creations(maxRooms, maxPlayers)), ops);
  }

  // ----- when anyone can ever be seated -----

  /** Some room has a chair in it. */
  predicate HasChair(rooms: map<nat, Room>) { exists b :: b in rooms && rooms[b].maxPlayers >= 1 }

  /** A session is allowed, and there is room for one more room than the one to sit in. */
  predicate Seatable(h: Hall) {
    h.maxSessions >= 1 && (|h.rooms| + 1 < h.maxRooms || (|h.rooms| < h.maxRooms && HasChair(h.rooms)))
  }

  /** One call leaves an empty, unseatable manager empty and unseatable. */
  lemma StepStaysEmpty(h: Hall, op: Op)
    requires Valid(h) && h.seats == map[] && !Seatable(h)
    ensures Step(h, op).seats == map[] && !Seatable(Step(h, op))
  {
    if op.Add? && op.room in h.rooms {
      assert op.session !in h.rooms[op.room].players by { NotSeated(h, op.room, op.session); }
      assert AddPlayer(h, op.room, op.session, op.spawned) == h;
    }
  }

  lemma {:induction false} RunStaysEmpty(h: Hall, ops: seq<Op>)
    requires Valid(h) && h.seats == map[] && !Seatable(h)
    ensures Run(h, ops).seats == map[]
    decreases |ops|
  {
    hide Valid, Step, Seatable;
    if ops != [] {
      StepKeeps(h, ops[0]);
      StepStaysEmpty(h, ops[0]);
      RunStaysEmpty(Step(h, ops[0]), ops[1..]);
    }
  }

  /** A battle that has no room yet. */
  lemma {:induction false} FreshBattle(ids: set<nat>) returns (b: nat)
    ensures b != 0 && forall c :: c in ids ==> c < b
    decreases |ids|
  {
    b := 1;
    if ids != {} {
      var c :| c in ids;
      var below := FreshBattle(ids - {c});
      b := if c < below then below else c + 1;
      assert ids == ids - {c} + {c};
    }
  }

  lemma AddSeats(h: Hall, b: nat)
    requires Valid(h) && h.seats == map[] && h.maxSessions >= 1 && |h.rooms| < h.maxRooms
    requires b in h.rooms && h.rooms[b].maxPlayers >= 1
    ensures Step(h, Add(b, 0, true)).seats == map[0 := b]
  {
    assert h.rooms[b].players == {};
  }

  /** The calls that seat someone where that is possible. */
  lemma SeatingRun(h: Hall) returns (ops: seq<Op>)
    requires Valid(h) && h.seats == map[] && Seatable(h)
    ensures Run(h, ops).seats != map[]
  {
    hide Valid;
    if HasChair(h.rooms) {
      var b :| b in h.rooms && h.rooms[b].maxPlayers >= 1;
      ops := [Add(b, 0, true)];
      AddSeats(h, b);
      RunAppends(h, [], ops[0]);
      assert [] + ops == ops;
    } else {
      var b := FreshBattle(h.rooms.Keys);
      var create := Create(b, 1, true);
      assert b !in h.rooms.Keys;
      CreateKeeps(h, b, 1, true);
      AddSeats(Step(h, create), b);
      ops := [create, Add(b, 0, true)];
      RunAppends(h, [], create);
      RunAppends(h, [create], ops[1]);
      assert [] + [create] == [create] && [create] + [ops[1]] == ops;
    }
  }

  /** A manager nobody sits in can come to seat someone exactly when it allows a session and has room for a further
      room beside one with a chair, which it may have yet to create. */
  lemma EverSeatedIff(h: Hall)
    requires Valid(h) && h.seats == map[]
    ensures (exists ops :: Run(h, ops).seats != map[]) <==> Seatable(h)
  {
    hide Valid, Seatable, Run;
    if Seatable(h) {
      var ops := SeatingRun(h);
    } else {
      forall ops ensures Run(h, ops).seats == map[] {
        RunStaysEmpty(h, ops);
      }
    }
  }

  /** So a manager allowed a single room never seats anyone, and any other allowed a session can. */
  lemma EverSeatedFromEmpty(maxRooms: nat, maxSessions: nat)
    ensures (exists ops :: Run(Hall(maxRooms, maxSessions, map[], map[]), ops).seats != map[])
      <==> maxRooms >= 2 && maxSessions >= 1
  {
    hide Valid;
    EmptyIsValid(maxRooms, maxSessions);
    EverSeatedIff(Hall(maxRooms, maxSessions, map[], map[]));
  }
}
