/**
 The in-memory session registry of the relay server: the `players` table, the
 two fixed spawn positions that connections alternate between, and the socket
 event handlers that read and change the table.
 */
module Registry {
  import opened Geometry

  /** A connection id (`socket.id`). */
  type Id = string

  /** One record of the table: the player's id, position and rotation. */
  datatype Player = Player(id: Id, position: Vec3, rotation: Vec3)

  /** The payload of a `playerMovement` event. */
  datatype PlayerInfo = PlayerInfo(position: Vec3, rotation: Vec3)

  /** The events the server sends. */
  datatype Message =
    | Initialize(id: Id, players: map<Id, Player>, position: Vec3)
    | GameState(players: map<Id, Player>)
    | PlayerMoved(id: Id, position: Vec3, rotation: Vec3)

  /** `socket.emit` goes to the connection that caused the event;
      `socket.broadcast.emit` goes to every other connection. */
  datatype Target = ToSender | ToOthers

  datatype Emit = Emit(target: Target, message: Message)

  datatype Option<T> = None | Some(value: T)

  // ---------------------------------------------------------------------
  // Fixed-pair spawn assignment

  /** The two fixed spawn positions, 1000 units apart on the x axis. */
  const SpawnPositions: seq<Vec3> := [Vec3(-500, 0, 0), Vec3(500, 0, 0)]

  /** The toggle after a connection: the other of the two positions. */
  function Toggle(spawnIndex: nat): (next: nat)
    requires spawnIndex < |SpawnPositions|
    ensures next < |SpawnPositions|
    ensures next != spawnIndex
  {
    (spawnIndex + 1) % 2
  }

  /** The position handed to the connection numbered `k` (from 0). */
  function FixedSpawn(k: nat): (p: Vec3)
    ensures p in SpawnPositions
    ensures p == SpawnPositions[0] <==> k % 2 == 0
  {
    SpawnPositions[k % 2]
  }

  /** Two consecutive connections spawn at different positions, exactly
      1000 units apart. */
  lemma ConsecutiveSpawnsApart(k: nat)
    ensures FixedSpawn(k) != FixedSpawn(k + 1)
    ensures SquaredDistance(FixedSpawn(k), FixedSpawn(k + 1)) == 1000 * 1000
  {
  }

  /** Only two positions exist: every connection shares its spawn with the
      one two connections before it. */
  lemma SpawnsRepeatEveryTwo(k: nat)
    ensures FixedSpawn(k + 2) == FixedSpawn(k)
  {
  }

  // ---------------------------------------------------------------------
  // The players table

  /** Every record is stored under its own id. */
  ghost predicate WellKeyed(players: map<Id, Player>)
  {
    forall k :: k in players ==> players[k].id == k
  }

  /** The table after a connection with id `id` spawned at `spawn`. */
  function Joined(players: map<Id, Player>, id: Id, spawn: Vec3): (r: map<Id, Player>)
    ensures r.Keys == players.Keys + {id}
    ensures id in r && r[id].id == id && r[id].position == spawn && r[id].rotation == Origin
    ensures forall k :: k in players && k != id ==> r[k] == players[k]
    ensures id !in players ==> |r| == |players| + 1
    ensures WellKeyed(players) ==> WellKeyed(r)
  {
    players[id := Player(id, spawn, Origin)]
  }

  /** The table after the connection `id` closed. */
  function Left(players: map<Id, Player>, id: Id): (r: map<Id, Player>)
    ensures r.Keys == players.Keys - {id}
    ensures forall k :: k in r ==> r[k] == players[k]
    ensures |r| <= |players|
    ensures WellKeyed(players) ==> WellKeyed(r)
  {
    var r := players - {id};
    assert r.Keys <= players.Keys;
    CardinalityOfSubset(r.Keys, players.Keys);
    r
  }

  lemma {:induction false} CardinalityOfSubset<T>(a: set<T>, b: set<T>)
    requires a <= b
    ensures |a| <= |b|
    decreases b
  {
    if a != {} {
      var x :| x in a;
      CardinalityOfSubset(a - {x}, b - {x});
    }
  }

  /** The table after connection `id` reported a new position and rotation:
      only a registered player's record changes. */
  function Moved(players: map<Id, Player>, id: Id, info: PlayerInfo): (r: map<Id, Player>)
    ensures id !in players ==> r == players
    ensures r.Keys == players.Keys
    ensures id in players ==>
      r[id] == Player(players[id].id, info.position, info.rotation)
    ensures forall k :: k in players && k != id ==> r[k] == players[k]
    ensures WellKeyed(players) ==> WellKeyed(r)
  {
    if id in players then
      players[id := players[id].(position := info.position, rotation := info.rotation)]
    else
      players
  }

  /** What a `playerMovement` event sends: a `playerMoved` to the other
      connections, only when the sender is registered. */
  function MovementBroadcast(players: map<Id, Player>, id: Id, info: PlayerInfo): (sent: Option<Emit>)
    ensures sent.Some? <==> id in players
    ensures sent.Some? ==>
              sent.value.target == ToOthers && sent.value.message == PlayerMoved(id, info.position, info.rotation)
  {
    if id in players then Some(Emit(ToOthers, PlayerMoved(id, info.position, info.rotation))) else None
  }

  /** A connection that closes again right away leaves the table as it was. */
  lemma JoinThenLeave(players: map<Id, Player>, id: Id, spawn: Vec3)
    requires id !in players
    ensures Left(Joined(players, id, spawn), id) == players
  {
  }

  /** A movement that arrives after its sender disconnected changes nothing. */
  lemma MoveAfterLeave(players: map<Id, Player>, id: Id, info: PlayerInfo)
    ensures Moved(Left(players, id), id, info) == Left(players, id)
    ensures MovementBroadcast(Left(players, id), id, info) == None
  {
  }

  /** Moving twice to the same place is the same as moving once. */
  lemma MoveIdempotent(players: map<Id, Player>, id: Id, info: PlayerInfo)
    ensures Moved(Moved(players, id, info), id, info) == Moved(players, id, info)
  {
  }

  // ---------------------------------------------------------------------
  // The server

  /**
   The module-level state of the server: the `players` table, the number of
   connections ever made and the index of the fixed spawn position the next
   connection gets.
   */
  class Server {
    var players: map<Id, Player>
    var playerCount: nat
    var spawnIndex: nat

    ghost predicate Valid()
      reads this
    {
      && spawnIndex == playerCount % 2
      && WellKeyed(players)
      && |players| <= playerCount
    }

    constructor ()
      ensures Valid()
      ensures players == map[] && playerCount == 0 && spawnIndex == 0
    {
      players := map[];
      playerCount := 0;
      spawnIndex := 0;
    }

    /** The `connection` handler: counts the connection, takes the fixed
        spawn position under the toggle, flips the toggle, registers the
        player and answers the new connection with `initialize`. */
    method Connect(socketId: Id) returns (reply: Emit)
      requires Valid()
      modifies this
      ensures Valid()
      ensures playerCount == old(playerCount) + 1
      ensures spawnIndex == Toggle(old(spawnIndex))
      ensures players == Joined(old(players), socketId, FixedSpawn(old(playerCount)))
      ensures reply == Emit(ToSender, Initialize(socketId, players, FixedSpawn(old(playerCount))))
    {
      var playerId := socketId;
      playerCount := playerCount + 1;
      var spawnPosition := SpawnPositions[spawnIndex];
      spawnIndex := (spawnIndex + 1) % 2;
      players := players[playerId := Player(playerId, spawnPosition, Origin)];
      reply := Emit(ToSender, Initialize(playerId, players, spawnPosition));
    }

    /** The per-socket `disconnect` handler: deletes that socket's record;
        `playerCount` is not decreased. */
    method Disconnect(socketId: Id)
      requires Valid()
      modifies this
      ensures Valid()
      ensures players == Left(old(players), socketId)
      ensures playerCount == old(playerCount) && spawnIndex == old(spawnIndex)
    {
      players := players - {socketId};
    }

    /** The `requestGameState` handler: answers with the current table. */
    method RequestGameState() returns (reply: Emit)
      requires Valid()
      ensures reply.target == ToSender && reply.message.GameState?
      ensures reply.message.players == players
      ensures WellKeyed(reply.message.players)
    {
      reply := Emit(ToSender, GameState(players));
    }

    /** The `playerMovement` handler: a registered sender's position and
        rotation are replaced and relayed to everyone else; a sender with
        no record is ignored. */
    method PlayerMovement(socketId: Id, playerInfo: PlayerInfo) returns (sent: Option<Emit>)
      requires Valid()
      modifies this
      ensures Valid()
      ensures players == Moved(old(players), socketId, playerInfo)
      ensures sent == MovementBroadcast(old(players), socketId, playerInfo)
      ensures playerCount == old(playerCount) && spawnIndex == old(spawnIndex)
    {
      sent := None;
      if socketId in players {
        players := players[socketId := players[socketId].(position := playerInfo.position,
                                                          rotation := playerInfo.rotation)];
        sent := Some(Emit(ToOthers, PlayerMoved(socketId, playerInfo.position, playerInfo.rotation)));
      }
    }
  }

  /** Two clients connect, the second one moves, then leaves. */
  method TwoPlayerSession()
  {
    var server := new Server();
    var a := server.Connect("A");
    assert a.message.players == map["A" := Player("A", Vec3(-500, 0, 0), Origin)];
    var b := server.Connect("B");
    assert b.message.position == Vec3(500, 0, 0);
    assert server.players.Keys == {"A", "B"};
    var moved := server.PlayerMovement("B", PlayerInfo(Vec3(10, 0, 5), Vec3(0, 1, 0)));
    assert moved == Some(Emit(ToOthers, PlayerMoved("B", Vec3(10, 0, 5), Vec3(0, 1, 0))));
    assert server.players["B"].position == Vec3(10, 0, 5);
    assert server.players["A"].position == Vec3(-500, 0, 0);
    server.Disconnect("B");
    var stale := server.PlayerMovement("B", PlayerInfo(Vec3(0, 0, 0), Origin));
    assert stale == None;
    assert server.players.Keys == {"A"};
    var c := server.Connect("C");
    assert c.message.position == Vec3(-500, 0, 0);
  }
}
