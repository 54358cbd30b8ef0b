# Bomberman game rules in Dafny

This project models the game rules of a browser Bomberman clone for two to
four players on a 13 × 11 board, and proves properties of the model:

- **Board and physics** (`game_logic.dfy`, module `GameLogic`):
  - grid generation: border walls, a lattice of walls on even/even cells, protected spawn corners, random blocks elsewhere;
  - the walkability test;
  - the blast of a bomb: a center cell, then four arms that stop before a wall or the edge and stop after a block;
  - player elimination;
  - block destruction with power-up drops.
- **Game state transitions** (`game_arena.dfy`, module `GameArena`):
  - the initial state of a room;
  - the per-tick transition of the game loop;
  - the player-action reducer (move, place a bomb, collect a power-up);
  - the dispatch of messages arriving on the room channel;
  - the key-to-step mapping of the keyboard handler.
- **Lobby** (`game_lobby.dfy`, module `GameLobby`):
  - joining a room: capacity, first free colour, spawn corner by join order, default stats;
  - creating a room;
  - the list of waiting rooms.
- **Entities** (`game_types.dfy`, module `GameTypes`): players, bombs, explosions, power-ups, the game state and rooms, as datatypes.

Conventions of the model:

- **Values, not aliases.** A state is a value. Each React updater `setGameState(prev => next)` becomes a method that takes the previous state and returns the next one. The source's shallow copy shares its arrays with the previous state; the model does not reproduce that sharing.
- **Integer time and speed.** Time is counted in ticks of 1/60 s: the 180-second budget is 10800 ticks. Speed is counted in half-steps: the default 1.0 is 2, a pick-up adds 1 (0.5), and the cap 3.0 is 6.
- **Randomness as oracles.** `Math.random` becomes two oracle parameters:
  - `BlockOracle(x, y)` says whether a free interior cell gets a block;
  - `DropOracle(x, y)` says which power-up, if any, a destroyed block drops.

  Each cell draws at most once per call, so indexing the oracle by cell loses nothing.
- **Storage and sign-in as values.** The persisted room list is an `Option<seq<GameRoom>>` (`None` when nothing is stored). The signed-in user is an `Option<PlayerId>`.
- **The state invariant.** The arena's invariant `Valid` says:
  - the grid keeps its structure;
  - every player stands on an empty cell of the board, with `bombCount <= maxBombs` and every stat under its cap;
  - bombs are live, on empty cells and at most one per cell;
  - explosions are on empty cells with a lifetime of 1 to 30: a block an explosion reaches is destroyed in the same tick;
  - power-ups lie on empty cells, at most one per cell;
  - there is no winner before the end.

  The tick and every action preserve it. The lobby's invariant `RoomValid` implies that a room's players start a valid game.

## Model

| member | source | states |
|---|---|---|
| GameLogic.CreateInitialGrid | src/utils/gameLogic.ts:6-37 | The grid has 11 rows of 13 cells. Walls are exactly the border and the interior cells with both coordinates even. No block lies in a spawn corner (x ≤ 2 or x ≥ 10, crossed with y ≤ 2 or y ≥ 8). Every other cell is a block exactly when the oracle says so. |
| GameLogic.GeneratedCell | src/utils/gameLogic.ts:13-32 | The definition of one generated cell: wall on the border or the lattice, empty in a spawn zone, otherwise a block exactly when the draw says so. `CreateInitialGrid` is proved to write it. |
| GameLogic.SpawnPositions | src/utils/gameLogic.ts:39-46 | The four spawn cells are on the board, inside the spawn corners and off the walls, so they are empty in every generated grid. |
| GameLogic.BombAt | src/utils/gameLogic.ts:65 | True exactly when some bomb sits on the cell. |
| GameLogic.CanMoveTo | src/utils/gameLogic.ts:48-70 | True exactly when the cell is on the board, is empty, and holds no bomb. |
| GameLogic.ArmShape | src/utils/gameLogic.ts:94-120 | The k-th cell of an arm is k+1 steps from the bomb in the arm's direction, within the bomb's power, on the board and not a wall. Every cell before the arm's last is empty, so a block can only be the last. |
| GameLogic.ArmStops | src/utils/gameLogic.ts:94-120 | An arm has at most `power` cells. It stops early only at the edge, before a wall, or right after a block. |
| GameLogic.ArmMembers | src/utils/gameLogic.ts:93-121 | Every explosion of an arm has the arm's direction and lifetime 30. It is on the board, on a non-wall cell, in the bomb's row or column, at distance 1 to `power`. |
| GameLogic.BlastShape | src/utils/gameLogic.ts:72-124 | A blast starts with the center explosion at the bomb's cell and has 1 to 1 + 4·power explosions, all with lifetime 30. Every non-center explosion is on the board, on a non-wall cell, in the bomb's row or column, at distance 1 to `power`. |
| GameLogic.WalkArm | src/utils/gameLogic.ts:94-120 | The loop over one direction, with its breaks, yields exactly that direction's arm. |
| GameLogic.Arm | src/utils/gameLogic.ts:93-121 | The definition of one arm walked from step i: stop before a cell off the board or a wall, stop after a block, go on after an empty cell, never past step `power`. Its properties are stated by `ArmShape`, `ArmStops` and `ArmMembers`. |
| GameLogic.Blast | src/utils/gameLogic.ts:72-124 | The definition of a detonation: the center explosion, then the arms up, down, left and right. Its properties are stated by `BlastShape`. |
| GameLogic.CreateExplosions | src/utils/gameLogic.ts:72-124 | Returns exactly the blast: center first, then the arms up, down, left, right. It also restates the count, center, lifetime and placement bounds. |
| GameLogic.HitAt | src/utils/gameLogic.ts:133-135 | True exactly when some explosion shares the cell. |
| GameLogic.CheckPlayerCollisions | src/utils/gameLogic.ts:126-142 | Keeps the length, the order and every field except `isAlive`. A player is alive afterwards exactly when it was alive and no explosion shares its cell, so the dead stay dead. |
| GameLogic.Collide | src/utils/gameLogic.ts:130-141 | The definition of one player's collision: a dead player is returned as is, a living one dies exactly when an explosion shares the cell. `CheckPlayerCollisions` states its properties. |
| GameLogic.CollisionsIdempotent | src/utils/gameLogic.ts:126-142 | Applying the collision check twice equals applying it once. |
| GameLogic.Destroyed | src/utils/gameLogic.ts:151-170 | The destroyed grid keeps the board's shape. |
| GameLogic.DestroyOne | src/utils/gameLogic.ts:155-169 | The definition of one explosion's destruction: a block under it becomes empty and may drop one power-up on that cell, anything else is left alone. `DestroyedSpec` states its properties. |
| GameLogic.DestroyedSpec | src/utils/gameLogic.ts:151-170 | Cell by cell, the new grid is empty where an explosion covers a block and unchanged elsewhere. Each power-up sits on such a cell and carries the oracle's drop for it. Every cell with a drop gets exactly one power-up, even under overlapping explosions. |
| GameLogic.DestroyedClears | src/utils/gameLogic.ts:151-170 | Destruction only turns blocks into empty cells: an empty cell stays empty, and every cell an explosion off the walls covers is empty afterwards. |
| GameLogic.DestroyBlocks | src/utils/gameLogic.ts:144-173 | The loop computes the destruction above. It changes only covered blocks (to empty), puts at most one power-up per cell, and keeps the grid's structure. |
| GameArena.InitialState | src/components/GameArena.tsx:51-60 | A room starts with no bombs, explosions or power-ups, 10800 ticks on the clock and no winner. Its grid is the one generated from the draws: structured, and off the walls a cell is a block exactly when it lies outside the spawn corners and its draw says so. Its status is playing exactly when at least two players joined, otherwise waiting. With valid players on the spawn corners the state is valid. |
| GameArena.IndexOfPlayer | src/components/GameArena.tsx:202-204 | Finds the first player with the id, or none when no player has it. |
| GameArena.IndexOfPowerUpAt | src/components/GameArena.tsx:250-251 | Finds the first power-up on the cell, or none when the cell has none. |
| GameArena.DecrementTimers | src/components/GameArena.tsx:128-132 | Keeps every bomb and their order, and lowers each timer by exactly one. |
| GameArena.Expired | src/components/GameArena.tsx:135 | Holds exactly the bombs whose timer is at most 0. |
| GameArena.Unexpired | src/components/GameArena.tsx:151 | Holds exactly the bombs whose timer is above 0. |
| GameArena.BombsPartition | src/components/GameArena.tsx:135-151 | Every bomb lands in exactly one of the two filters. |
| GameArena.FiltersAppend | src/components/GameArena.tsx:135-151 | Both bomb filters distribute over concatenation, so the detonating bombs and the remaining bombs keep their order and every occurrence. |
| GameArena.UnexpiredApart | src/components/GameArena.tsx:151 | The bombs that stay are still at most one per cell. |
| GameArena.ExpiredOnEmpty | src/components/GameArena.tsx:128-135 | The bombs that detonate stand on the cells where their bombs were, so on empty cells when those were. |
| GameArena.AgeExplosions | src/components/GameArena.tsx:154-157 | Every lifetime drops by exactly one, and exactly the explosions reaching 0 disappear. With `AgeExplosionsAppend`, each occurrence is aged on its own and the order is kept. |
| GameArena.AgeExplosionsAppend | src/components/GameArena.tsx:154-157 | Ageing distributes over concatenation: equal explosions are not merged and the survivors keep their order, as `map` then `filter` does. |
| GameArena.AgedStayOffWalls | src/components/GameArena.tsx:153-157 | Ageing keeps each explosion on its cell: those off the walls stay off them, and with no fresh explosions those on empty cells stay on empty cells. |
| GameArena.BlastsInBounds | src/components/GameArena.tsx:136-138 | The explosions added in a tick lie on the board with a full lifetime. |
| GameArena.Blasts | src/components/GameArena.tsx:136-138 | The definition of the explosions a tick adds: each detonating bomb's blast appended in detonation order. `BlastsInBounds` and `BlastsOffWalls` state its properties, and `Detonate` is proved to build it. |
| GameArena.BlastsOffWalls | src/components/GameArena.tsx:136-138 | Detonations of bombs off the walls add only explosions on the board and off the walls. |
| GameArena.RefundOne | src/components/GameArena.tsx:140-147 | The definition of one detonation's refund: the first player with the owner's id gets one bomb back, never below zero. `RefundOneSpec` states its properties. |
| GameArena.Refund | src/components/GameArena.tsx:136-148 | The definition of the refunds of a tick, one detonation after the other in order. `RefundAt` and `RefundSpec` state its properties. |
| GameArena.RefundOneSpec | src/components/GameArena.tsx:141-147 | One detonation lowers, by one and never below zero, the bomb count of the first player with the owner's id, and of nobody else. |
| GameArena.RefundAt | src/components/GameArena.tsx:136-148 | After all detonations of a tick, each player's count dropped by the number of detonating bombs they own, never below zero. |
| GameArena.RefundSpec | src/components/GameArena.tsx:136-148 | The refunds change only `bombCount`. The owner loses one per detonating bomb they own, never going below zero; everyone else keeps their count. |
| GameArena.AlivePlayers | src/components/GameArena.tsx:173 | Holds exactly the living players and is no longer than the list. |
| GameArena.AlivePlayersAppend | src/components/GameArena.tsx:173 | The filter distributes over concatenation, so the living players keep their order. |
| GameArena.NoneAliveCount | src/components/GameArena.tsx:173-174 | No player survives exactly when every player is dead. |
| GameArena.AtMostOneAlive | src/components/GameArena.tsx:173-174 | The end rule `alivePlayers.length <= 1` holds exactly when no two distinct players are both alive. |
| GameArena.ExactlyOneAlive | src/components/GameArena.tsx:173-176 | The winner rule `alivePlayers.length === 1` holds exactly when one player is alive and every other player is dead. |
| GameArena.TickKeepsValid | src/components/GameArena.tsx:123-183 | A state built the way the tick builds it from a valid state is valid. In particular players and bombs stay on empty cells, and every explosion, old or new, is on an empty cell once the tick has destroyed the blocks it covers. |
| GameArena.Detonate | src/components/GameArena.tsx:136-148 | The loop over detonating bombs appends their blasts in order and applies their refunds. |
| GameArena.DetonateOne | src/components/GameArena.tsx:137-147 | One detonating bomb appends exactly its blast (`Blast`, whose shape `BlastShape` states) to the explosions, and refunds one bomb to the first player holding the owner's id, never below zero, changing nobody else (`RefundOne`, stated by `RefundOneSpec`). |
| GameArena.Tick | src/components/GameArena.tsx:123-183 | A tick keeps the state valid. It runs the source's steps in order: every bomb timer drops by one; bombs reaching 0 leave and every other bomb stays; their blasts are added and all lifetimes age; owners are refunded; collisions are checked; the grid and power-ups change only on a tick with a detonation; the clock drops by one and never below zero; the status and winner follow the end rule. |
| GameArena.RunTick | src/components/GameArena.tsx:118-183 | Ticks run only on an existing state with status playing, and then exactly one tick runs: bombs, explosions, players, grid and power-ups are the ones `Tick` gives. Afterwards the match is finished exactly when at most one player is alive or the clock is at zero. There is a winner exactly when one player is alive, and it is that player's id. |
| GameArena.ApplyPowerUp | src/components/GameArena.tsx:255-274 | A pick-up changes at most its own stat. A valid player stays valid and no stat goes down. |
| GameArena.RepeatedPickups | src/components/GameArena.tsx:255-274 | n pick-ups of one kind raise its stat by n steps, capped: speed at 6 half-steps (3.0), maxBombs at 5, bombPower at 5. |
| GameArena.PlaceBombKeepsValid | src/components/GameArena.tsx:224-247 | Placing a bomb when the player has one left and the cell is free keeps `bombCount <= maxBombs` and one bomb per cell. The new bomb is on the player's cell, which is empty, and the rest of the invariant holds. |
| GameArena.CollectKeepsValid | src/components/GameArena.tsx:249-282 | Removing a power-up and applying it keeps the invariant. |
| GameArena.HandlePlayerAction | src/components/GameArena.tsx:197-287 | An unknown player id changes nothing. A move changes only the player's cell, and only when the target can be entered. A bomb is placed exactly when `bombCount < maxBombs` and no bomb is on the cell: one bomb with fuse 180 and the player's power, and the count goes up by one. A collection without a power-up changes nothing; otherwise the first one on the cell is removed and applied. An action never touches the grid, explosions, clock or status, and keeps a valid state valid. |
| GameArena.OnMessage | src/components/GameArena.tsx:94-107 | A snapshot replaces the state wholesale. One's own echoed action is ignored, and so are other message types. Another player's action goes through the reducer: a no-op with no state or an unknown id, and otherwise exactly the next state of that move, bomb placement, pick-up or unknown action type; a valid state stays valid. |
| GameArena.KeyToIntent | src/components/GameArena.tsx:301-326 | Each movement key, in either letter case or as an arrow, asks for a step that changes exactly one coordinate by one, in its direction. Space asks for a bomb and changes no coordinate. Any other key does nothing. |
| GameArena.Lower | src/components/GameArena.tsx:301 | `toLowerCase` on the key name: same length, every ASCII capital lowered and every other character kept, as `LowerChar` defines. |
| GameArena.LowerChar | src/components/GameArena.tsx:301 | The definition of lowering one character: ASCII capitals become their small letter, anything else is kept. |
| GameLobby.SpawnCornersAgree | src/components/GameLobby.tsx:124-129 | The lobby's spawn table equals the board's spawn positions, in order. |
| GameLobby.IsTrimmed | src/components/GameLobby.tsx:61 | The characters `trim` removes: the ECMAScript white-space and line-terminator code points. |
| GameLobby.Blank | src/components/GameLobby.tsx:61 | The name guard: every character of the name is one that `trim` removes. `BlankIffTrimsToEmpty` ties it to `Trim`. |
| GameLobby.TrimStart | src/components/GameLobby.tsx:61 | Removes exactly the leading characters `trim` removes: the result is a suffix of the name, everything cut off is white space, and the result starts with a character `trim` keeps or is empty. |
| GameLobby.TrimEnd | src/components/GameLobby.tsx:61 | Removes exactly the trailing characters `trim` removes: the result is a prefix of the name, everything cut off is white space, and the result ends with a character `trim` keeps or is empty. |
| GameLobby.Trim | src/components/GameLobby.tsx:61 | The definition of `trim`: leading, then trailing white space removed. |
| GameLobby.BlankIffTrimsToEmpty | src/components/GameLobby.tsx:104 | A name is blank exactly when trimming leaves the empty string, the falsy value that makes `!playerName.trim()` true. |
| GameLobby.WaitingRooms | src/components/GameLobby.tsx:53 | Holds exactly the stored rooms with status waiting. |
| GameLobby.WaitingRoomsAppend | src/components/GameLobby.tsx:53 | The filter distributes over concatenation, so the stored order is kept. |
| GameLobby.WaitingRoomsIdempotent | src/components/GameLobby.tsx:53 | Filtering twice is filtering once. |
| GameLobby.LoadRooms | src/components/GameLobby.tsx:50-54 | With a stored list, the shown rooms are exactly its waiting rooms. Without one, they stay as they were. |
| GameLobby.IndexOfRoom | src/components/GameLobby.tsx:111-113 | Finds the first room with the id, or none when no room has it. |
| GameLobby.FirstFree | src/components/GameLobby.tsx:122 | Returns the first candidate colour no player wears: every candidate before it is worn. Returns red when every candidate is worn. |
| GameLobby.UsedColors | src/components/GameLobby.tsx:121 | The definition of the colours worn in the room. `FirstFree` and `FreeColor` state what the choice does with it. |
| GameLobby.AvailableColor | src/components/GameLobby.tsx:120-122 | The colour handed out is the first of red, blue, green, yellow that nobody in the room wears. When all four are taken it is red. |
| GameLobby.FreeColor | src/components/GameLobby.tsx:118-122 | With fewer than four players the colour handed out is worn by nobody in the room. |
| GameLobby.RoomPlayersCanStart | src/components/GameLobby.tsx:124-141 | Players of a valid lobby room satisfy the arena's player invariant and stand on the spawn corners, which are empty in every generated grid, so their initial state is valid. |
| GameLobby.JoinKeepsRoomValid | src/components/GameLobby.tsx:118-144 | Joining a room with room to spare keeps it valid. The colours stay distinct and the new player is on the spawn cell of its join order. |
| GameLobby.NewPlayer | src/components/GameLobby.tsx:131-142 | The joining player has the user's id and the typed name, stands on the spawn cell of the join order, wears a colour nobody in the room wears (the first free one), and has fresh stats: alive, no bomb out, one bomb, power one, default speed. |
| GameLobby.JoinRoom | src/components/GameLobby.tsx:103-154 | Nothing changes with no user, a blank name, no stored list, an unknown id, a full room, or a fifth player. Otherwise the first room with the id gains exactly one player, appended with the user's id, fresh stats, the next spawn corner and the first free colour; other rooms are unchanged. Valid rooms stay valid. |
| GameLobby.CreateRoom | src/components/GameLobby.tsx:60-101 | With no user or a blank name, nothing changes. Otherwise exactly one room is appended and entered. It is a waiting room for four, named after the player, holding the creator alone: red, at (1,1), with fresh stats. It is valid and shows in the waiting list. |

## Left out

- Network and storage: the realtime channel, subscriptions and broadcasts, and local-storage JSON with its parse failures. The model takes the stored list and incoming messages as values and returns the list to store.
- Initial-state side effects: writing status playing back to the stored room, `setGameStarted` and `setCurrentPlayer`.
- React and scheduling: hooks, `setInterval` and re-renders. One tick is one call. `RunTick` checks the playing status before each tick, while the source checks it when the loop effect is set up.
- GameArena.Tick: does not model the aliasing of the source's shallow copy. In the source, the pushes also reach the previous state's arrays.
- GameArena.HandlePlayerAction: does not model that aliasing either. In the source, the push, the splice and the index assignment also reach the previous state's arrays.
- GameArena.Tick: requires the state invariant `Valid`, which is more than the source needs to run a tick. The source also ticks states that `Valid` excludes, such as a snapshot with a winner set during play, a player with `bombCount > maxBombs`, or a power-up on a block, and the model promises nothing about those ticks. The source throws during a tick only when the tick has a detonation and that detonation reads a grid row that does not exist: an explosion or detonating bomb whose row is off the board, or a grid with fewer than 11 rows (gameLogic.ts reads rows at lines 104 and 156, and block destruction runs only on a tick with a detonation).
- GameArena.RunTick: requires `Valid` for the same reason as `Tick`.
- GameArena.HandlePlayerAction: requires the grid to have the board's shape, although the bomb and pick-up branches of the source never read the grid. Every state the model builds has that shape.
- GameArena.OnMessage: requires the grid of the current state to have the board's shape, for the same reason as `HandlePlayerAction`.
- GameLobby.JoinRoom: `joined` is true whenever the room list is written. In the source, a publish that throws after the list has been stored skips `onJoinGame`. The network is not modelled, so in the model a publish never fails.
- GameLobby.CreateRoom: `joined` is true whenever the room list is written, with the same gap as `JoinRoom` when the publish throws.
- GameLogic.DestroyBlocks: requires every explosion to be on the board. In the source, an explosion whose row is off the board makes the grid read fail. One whose row is on the board but whose column is off it reads an undefined cell, which is not a block, so it is skipped. The model describes neither case; the tick always meets the requirement.
- Probabilities: the 70 % block chance, the 30 % drop chance and the uniform power-up kind are oracle parameters. The order in which `Math.random` is drawn is not modelled.
- GameArena.Tick: does not model floating-point time. The clock counts whole ticks, so the end comes after exactly 10800 ticks; the source's float accumulation of 1/60 may land one tick off.
- Ids: the time-stamped ids of bombs, explosions, power-ups and rooms carry no behaviour. A room id is a parameter. The room's `createdAt` field is not modelled.
- Keyboard side effects: the alive check, the walkability pre-check, the published actions and the power-up lookup against the pre-move state. Only the key-to-step mapping is modelled.
- GameArena.KeyToIntent: lower-cases ASCII letters only. The key names the handler compares against are ASCII.
- Snapshot validation: a `game-update` is taken as sent, so `OnMessage` promises nothing about the validity of a snapshot.
- Drawing and screens: the board canvas and the view switch of the app are not part of this model.
