# Driving-game relay server: session registry and spawn assignment

This project models the state that the multiplayer relay server (`server.js`)
keeps in memory and the socket handlers that change it:

- the `players` table, mapping each connection id to a `{ id, position, rotation }`
  record, with the `connection`, `disconnect`, `requestGameState` and
  `playerMovement` handlers (`Registry.Server`);
- the two fixed spawn positions, (-500, 0, 0) and (500, 0, 0), that connections
  alternate between through the `spawnIndex` toggle, and the `playerCount`
  counter that is never decreased;
- the 5x5 grid of spawn points built when the server starts, its shuffle, and
  the round-robin cursor of `getNextSpawnPoint` (`SpawnGrid`).

Each socket event is a method of the `Server` class; what the handler sends is
returned as an `Emit` value: `ToSender` for `socket.emit`, `ToOthers` for
`socket.broadcast.emit`. The table is a `map<Id, Player>` field that the
methods reassign; the new table is stated through the functions `Joined`,
`Left` and `Moved`, whose own contracts say what changes and what does not.
The server's invariant `Valid()` keeps `spawnIndex == playerCount % 2`, every
record stored under its own id, and the table no larger than the number of
connections ever made.

The shuffle uses a random comparator; the model takes the random choices as a
parameter, a list of transpositions (`Swap`), so every outcome of the shuffle
is some permutation of the grid, and the proofs hold for every such list.

What the server does not do:

- Connections get one of two fixed positions, alternating. Nothing stops a
  third concurrent player from spawning on the first one
  (`Registry.SpawnsRepeatEveryTwo`); no spawn point is released on disconnect.
- The grid and `getNextSpawnPoint` exist, but no handler in `server.js` calls
  `getNextSpawnPoint`.
- The only events it emits are `initialize`, `gameState` and `playerMoved`.
- `playerMovement` has no payload validation: a registered sender's record
  takes whatever position and rotation arrive. A connection can only change
  its own record, because the record is chosen by the socket's id.

## Model

| member | source | states |
|---|---|---|
| `SpawnGrid.GenerateSpawnPoints` | server.js:17-34 | the result has 25 points, each with y = 0 and x, z among -400, -200, 0, 200, 400; every (row, column) point of the grid occurs; no point occurs twice; the result is a permutation of the grid in push order |
| `SpawnGrid.GridPointsShape` | server.js:17-30 | the grid built by the nested loops has gridSize * gridSize points, all on y = 0 with grid coordinates, covering every row and column, pairwise distinct |
| `SpawnGrid.SwapAt` | server.js:33 | one exchange made by the sort keeps the length and the multiset of points and keeps them duplicate-free |
| `SpawnGrid.Shuffle` | server.js:32-33 | the shuffle only reorders: same length, same multiset, still duplicate-free |
| `SpawnGrid.GridPointOnce` | server.js:22-30 | each point of the grid occurs in it exactly once |
| `SpawnGrid.SpawnCursor.constructor` | server.js:36-37 | the cursor starts at 0 over a shuffled, duplicate-free grid; nothing has been handed out yet |
| `SpawnGrid.SpawnCursor.GetNextSpawnPoint` | server.js:39-43 | returns the point under the cursor, sets the cursor to (old + 1) % length, keeps the cursor in [0, length) and appends the point to the record of handed-out points |
| `SpawnGrid.Advance` | server.js:41 | the next cursor stays below the length and is one more than the old cursor, or 0 after the last point |
| `SpawnGrid.CursorAfter` | server.js:41 | the cursor after any number of calls stays below the length |
| `SpawnGrid.Issued` | server.js:39-43 | n consecutive calls return n points |
| `SpawnGrid.CursorAfterSplit` | server.js:41 | n + m calls move the cursor as n calls followed by m calls |
| `SpawnGrid.IssuedSplit` | server.js:39-43 | the points of n + m calls are those of n calls followed by those of m calls from where the cursor was left |
| `SpawnGrid.IssuedInOrder` | server.js:39-43 | until the cursor wraps, calls return the stored points in order, and the cursor lands on the next index or on 0 at the end |
| `SpawnGrid.FullRound` | server.js:39-43 | a full round of calls from any cursor returns the stored points rotated to start at the cursor and brings the cursor back |
| `SpawnGrid.RoundCoversEachPointOnce` | server.js:39-43 | any full round returns the same multiset as the stored points, and each point exactly once when they are distinct |
| `SpawnGrid.SpawnCursor.RoundsCoverGrid` | server.js:36-43 | for a valid cursor, any 25 consecutive `getNextSpawnPoint` results it has handed out contain each of the 25 grid points exactly once |
| `SpawnGrid.EveryRoundCoversGrid` | server.js:36-43 | any 25 consecutive calls since start-up return each of the 25 grid points exactly once |
| `Registry.Toggle` | server.js:72 | the spawn index stays 0 or 1 and changes on every connection |
| `Registry.FixedSpawn` | server.js:58-72 | the k-th connection gets one of the two fixed positions, the first one exactly when k is even |
| `Registry.ConsecutiveSpawnsApart` | server.js:58-72 | two consecutive connections get different positions, 1000 units apart |
| `Registry.SpawnsRepeatEveryTwo` | server.js:58-72 | a connection gets the same position as the connection two before it |
| `Registry.Joined` | server.js:74-79 | a connection adds exactly the key of the new id, whose record has that id, the spawn position and rotation (0, 0, 0); other records are unchanged; the table grows by one for a new id; records stay stored under their own ids |
| `Registry.Left` | server.js:82-83 | a disconnect removes exactly that socket's key and leaves every other record unchanged |
| `Registry.Moved` | server.js:105-108 | for a registered id only that record's position and rotation change and its id stays; an unregistered id leaves the table as it was; the keys never change |
| `Registry.MovementBroadcast` | server.js:106-115 | a `playerMoved` with the sender's id, position and rotation goes to the other connections exactly when the sender is registered |
| `Registry.JoinThenLeave` | server.js:75-83 | a connection that disconnects again leaves the table as it was before it |
| `Registry.MoveAfterLeave` | server.js:83-116 | a movement that arrives after its sender's disconnect changes nothing and sends nothing |
| `Registry.MoveIdempotent` | server.js:105-108 | replaying the same movement changes nothing more |
| `Registry.Server.constructor` | server.js:56-64 | the table is empty and `playerCount` and `spawnIndex` start at 0 |
| `Registry.Server.Connect` | server.js:66-92 | `playerCount` goes up by one, the toggle flips, the new record is inserted at the toggled spawn and the `initialize` reply to the new connection carries its id, the table including its record, and its spawn position |
| `Registry.Server.Disconnect` | server.js:82-85 | the socket's record is removed, the others kept; `playerCount` is not decreased |
| `Registry.Server.RequestGameState` | server.js:97-102 | the `gameState` reply goes to the requester and carries the current table, every record under its own id |
| `Registry.Server.PlayerMovement` | server.js:105-116 | the table becomes `Moved` of the old one and the broadcast is `MovementBroadcast`: only a registered sender's record changes and only then is `playerMoved` relayed |

## Left out

- Express, socket.io setup, CORS and static file serving (server.js:1-12): I/O over libraries; sending is modelled only as the returned `Emit` value.
- The server-level `io.on('disconnect')` block (server.js:46-53): it refers to `usedSpawnPoints`, which is never declared, and is attached to the server rather than to a socket, so it releases no spawn point; it is not modelled.
- The randomness of the shuffle (server.js:33): the comparator's choices are a parameter (a list of transpositions), so the model proves what holds for every outcome, not the distribution of outcomes.
- Coordinates and rotations are integers; in the source they are JavaScript numbers (floating point) taken from the client's payload as they come.
- Malformed `playerMovement` payloads: a null or absent payload from a registered sender makes server.js:107 throw a TypeError inside the event handler, which nothing catches; this error path is not modelled. An object payload that lacks `position` or `rotation` stores `undefined` for that field; this is not modelled either. The model's `PlayerInfo` is always present and always has both fields.
- The record objects are shared by reference with the `initialize` and `gameState` payloads and with the `SPAWN_POSITIONS` entries; the model uses values, so aliasing is not captured (no handler mutates a shared position in place).
- public/game.js: scene, mesh, camera and render-loop setup over Three.js, with no state to model.
- Combat, projectiles, health, respawn and collision: no part of `server.js` implements them.
