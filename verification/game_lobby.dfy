/** The room bookkeeping of src/components/GameLobby.tsx: the list of
    waiting rooms, creating a room and joining one.

    The persisted room list (the `bomberman-rooms` key of local storage) is a
    value of type `Option<seq<GameRoom>>`: `None` when the key is absent. Each
    operation takes the stored value and returns the value it writes back,
    together with whether it enters the room (the call to `onJoinGame`). The
    signed-in user is `Option<PlayerId>`: `None` when nobody is signed in. */
module GameLobby {
  import opened GameTypes
  import opened GameLogic
  import opened GameArena

  /** Every room made by the lobby holds at most four players. */
  const MaxPlayers: int := 4

  /** The colours in the order they are handed out. */
  const Palette: seq<Color> := [Red, Blue, Green, Yellow]

  /** The spawn cells in join order, as the lobby lists them. */
  const SpawnCorners: seq<(int, int)> := [(1, 1), (11, 1), (1, 9), (11, 9)]

  /** The default speed 1.0, in half-steps. */
  const DefaultSpeed: nat := 2

  /** The lobby's spawn table and the board's spawn positions are the same
      cells, in the same order. */
  lemma SpawnCornersAgree()
    ensures SpawnCorners == SpawnPositions()
  {
  }

  // ---------------------------------------------------------------------------
  // The name guard
  // ---------------------------------------------------------------------------

  /** The characters `String.prototype.trim` removes: the white-space and
      line-terminator code points of ECMAScript. */
  predicate IsTrimmed(c: char) {
    var n := c as int;
    || n == 0x09 || n == 0x0A || n == 0x0B || n == 0x0C || n == 0x0D || n == 0x20
    || n == 0xA0 || n == 0x1680 || (0x2000 <= n <= 0x200A)
    || n == 0x2028 || n == 0x2029 || n == 0x202F || n == 0x205F || n == 0x3000 || n == 0xFEFF
  }

  /** The name guard `!name.trim()`: every character of the name is one
      that trimming removes. */
  predicate Blank(name: string) {
    forall i | 0 <= i < |name| :: IsTrimmed(name[i])
  }

  /** The name with its leading white space removed. */
  function TrimStart(s: string): (r: string)
    ensures |r| <= |s| && r == s[|s| - |r|..]
    ensures forall i | 0 <= i < |s| - |r| :: IsTrimmed(s[i])
    ensures r != [] ==> !IsTrimmed(r[0])
  {
    if s == [] || !IsTrimmed(s[0]) then s else TrimStart(s[1..])
  }

  /** The name with its trailing white space removed. */
  function TrimEnd(s: string): (r: string)
    ensures |r| <= |s| && r == s[..|r|]
    ensures forall i | |r| <= i < |s| :: IsTrimmed(s[i])
    ensures r != [] ==> !IsTrimmed(r[|r| - 1])
  {
    if s == [] || !IsTrimmed(s[|s| - 1]) then s else TrimEnd(s[..|s| - 1])
  }

  /** `String.prototype.trim`. */
  function Trim(s: string): string {
    TrimEnd(TrimStart(s))
  }

  /** The guard's two readings agree: a name is blank exactly when trimming
      leaves the empty string, which JavaScript treats as false. */
  lemma BlankIffTrimsToEmpty(name: string)
    ensures Blank(name) <==> Trim(name) == ""
  {
    var start := TrimStart(name);
    if !Blank(name) {
      var i :| 0 <= i < |name| && !IsTrimmed(name[i]);
      assert |name| - |start| <= i;
    }
  }

  // ---------------------------------------------------------------------------
  // The room list
  // ---------------------------------------------------------------------------

  /** `rooms.filter(room => room.status === 'waiting')`: the waiting rooms,
      in their stored order. */
  function WaitingRooms(rooms: seq<GameRoom>): (r: seq<GameRoom>)
    ensures |r| <= |rooms|
    ensures forall room :: room in r <==> room in rooms && room.status == Waiting
  {
    if rooms == [] then []
    else (if rooms[0].status == Waiting then [rooms[0]] else []) + WaitingRooms(rooms[1..])
  }

  /** Filtering a list made of two parts filters each part in turn, so the
      order of the rooms is kept. */
  lemma {:induction false} WaitingRoomsAppend(a: seq<GameRoom>, b: seq<GameRoom>)
    ensures WaitingRooms(a + b) == WaitingRooms(a) + WaitingRooms(b)
  {
    if a == [] {
      assert a + b == b;
    } else {
      assert (a + b)[0] == a[0] && (a + b)[1..] == a[1..] + b;
      WaitingRoomsAppend(a[1..], b);
    }
  }

  /** Filtering twice is filtering once. */
  lemma {:induction false} WaitingRoomsIdempotent(rooms: seq<GameRoom>)
    ensures WaitingRooms(WaitingRooms(rooms)) == WaitingRooms(rooms)
  {
    if rooms != [] {
      WaitingRoomsIdempotent(rooms[1..]);
      var w := [rooms[0]] + WaitingRooms(rooms[1..]);
      if rooms[0].status == Waiting {
        assert WaitingRooms(rooms) == w;
        assert w[0] == rooms[0] && w[1..] == WaitingRooms(rooms[1..]);
      } else {
        assert WaitingRooms(rooms) == WaitingRooms(rooms[1..]);
      }
    }
  }

  /** `loadRooms`: with a stored list the shown rooms become its waiting
      rooms; without one the shown rooms stay as they were. */
  function LoadRooms(stored: Option<seq<GameRoom>>, shown: seq<GameRoom>): (r: seq<GameRoom>)
    ensures stored.None? ==> r == shown
    ensures stored.Some? ==> |r| <= |stored.value|
    ensures stored.Some? ==> forall room :: room in r <==> room in stored.value && room.status == Waiting
  {
    match stored
    case None => shown
    case Some(rooms) => WaitingRooms(rooms)
  }

  /** `rooms.findIndex(r => r.id === id)`: the first index holding the id. */
  function IndexOfRoom(rooms: seq<GameRoom>, id: string): (r: Option<nat>)
    ensures r.Some? ==> r.value < |rooms| && rooms[r.value].id == id
    ensures r.Some? ==> forall j :: 0 <= j < r.value ==> rooms[j].id != id
    ensures r.None? ==> forall j :: 0 <= j < |rooms| ==> rooms[j].id != id
  {
    if rooms == [] then None
    else if rooms[0].id == id then Some(0)
    else match IndexOfRoom(rooms[1..], id)
      case None => None
      case Some(k) => Some(k + 1)
  }

  // ---------------------------------------------------------------------------
  // Colours
  // ---------------------------------------------------------------------------

  function UsedColors(players: seq<Player>): set<Color> {
    set p | p in players :: p.color
  }

  /** `colors.find(c => !usedColors.includes(c)) || 'red'` over the given
      candidates. */
  function FirstFree(candidates: seq<Color>, players: seq<Player>): (c: Color)
    ensures c == Red || c in candidates
    ensures (exists k | 0 <= k < |candidates| :: candidates[k] !in UsedColors(players)) ==>
              c in candidates && c !in UsedColors(players)
    ensures (forall k | 0 <= k < |candidates| :: candidates[k] in UsedColors(players)) ==> c == Red
    ensures forall k | 0 <= k < |candidates| && candidates[k] !in UsedColors(players) &&
                       (forall j | 0 <= j < k :: candidates[j] in UsedColors(players)) ::
              c == candidates[k]
  {
    if candidates == [] then Red
    else if candidates[0] !in UsedColors(players) then candidates[0]
    else FirstFree(candidates[1..], players)
  }

  /** The colour a joining player gets: the first palette colour no player
      of the room wears, or red when all four are taken. */
  function AvailableColor(players: seq<Player>): (c: Color)
    ensures c !in UsedColors(players) || forall k | 0 <= k < |Palette| :: Palette[k] in UsedColors(players)
    ensures c in UsedColors(players) ==> c == Red
    ensures forall k | 0 <= k < |Palette| && Palette[k] !in UsedColors(players) &&
                       (forall j | 0 <= j < k :: Palette[j] in UsedColors(players)) ::
              c == Palette[k]
  {
    FirstFree(Palette, players)
  }

  lemma {:induction false} UsedColorsBound(players: seq<Player>)
    ensures |UsedColors(players)| <= |players|
  {
    if players != [] {
      UsedColorsBound(players[1..]);
      assert UsedColors(players) == {players[0].color} + UsedColors(players[1..]);
    }
  }

  /** With fewer than four players some colour is free, so the colour handed
      out is worn by nobody in the room. */
  lemma FreeColor(players: seq<Player>)
    requires |players| < |Palette|
    ensures AvailableColor(players) !in UsedColors(players)
  {
    UsedColorsBound(players);
    if forall k | 0 <= k < |Palette| :: Palette[k] in UsedColors(players) {
      var all := {Red, Blue, Green, Yellow};
      assert all <= UsedColors(players) by {
        forall c | c in all
          ensures c in UsedColors(players)
        {
          assert c == Palette[0] || c == Palette[1] || c == Palette[2] || c == Palette[3];
        }
      }
      assert |all| == 4;
      SubsetCard(all, UsedColors(players));
      assert false;
    }
  }

  lemma SubsetCard(a: set<Color>, b: set<Color>)
    requires a <= b
    ensures |a| <= |b|
  {
    assert b == a + (b - a);
  }

  // ---------------------------------------------------------------------------
  // Rooms as the lobby builds them
  // ---------------------------------------------------------------------------

  /** A player as the lobby adds them: alive, no bomb out, one bomb, blast
      power one, default speed. */
  predicate FreshPlayer(p: Player) {
    p.isAlive && p.bombCount == 0 && p.maxBombs == 1 && p.bombPower == 1 && p.speed == DefaultSpeed
  }

  /** What the lobby keeps true of each room it writes: no more players than
      the room allows or than there are spawn cells; the k-th player stands
      on the k-th spawn cell with fresh stats; no two players wear the same
      colour. */
  predicate RoomValid(room: GameRoom) {
    && |room.players| <= room.maxPlayers
    && |room.players| <= |SpawnCorners|
    && (forall k | 0 <= k < |room.players| ::
          (room.players[k].x, room.players[k].y) == SpawnCorners[k] && FreshPlayer(room.players[k]))
    && (forall i, j | 0 <= i < |room.players| && 0 <= j < |room.players| && i != j ::
          room.players[i].color != room.players[j].color)
  }

  /** The players of a lobby room can start a game: each satisfies the
      arena's player invariant and stands on a spawn corner, a cell that is
      empty in every generated grid, so the room's initial state is valid. */
  lemma RoomPlayersCanStart(room: GameRoom)
    requires RoomValid(room)
    ensures forall p | p in room.players :: PlayerValid(p) && (p.x, p.y) in SpawnPositions()
    ensures forall g, p | GridStructure(g) && p in room.players :: At(g, p.x, p.y) == Empty
  {
    SpawnCornersAgree();
    forall p | p in room.players
      ensures PlayerValid(p) && (p.x, p.y) in SpawnPositions()
    {
      var k :| 0 <= k < |room.players| && room.players[k] == p;
      assert (p.x, p.y) == SpawnPositions()[k];
    }
    forall g, p | GridStructure(g) && p in room.players
      ensures At(g, p.x, p.y) == Empty
    {
      var k :| 0 <= k < |room.players| && room.players[k] == p;
      assert (p.x, p.y) == SpawnPositions()[k];
    }
  }

  /** The entry a joining player gets in a room that already holds `players`:
      the user's id and the typed name, the spawn cell of the join order, a
      colour nobody in the room wears, and fresh stats. */
  function NewPlayer(id: PlayerId, name: string, players: seq<Player>): (q: Player)
    requires |players| < |SpawnCorners|
    ensures q.id == id && q.name == name
    ensures (q.x, q.y) == SpawnCorners[|players|]
    ensures q.color == AvailableColor(players) && q.color !in UsedColors(players)
    ensures FreshPlayer(q)
  {
    FreeColor(players);
    Player(id, name, SpawnCorners[|players|].0, SpawnCorners[|players|].1,
           AvailableColor(players), true, 0, 1, 1, DefaultSpeed)
  }

  lemma JoinKeepsRoomValid(room: GameRoom, id: PlayerId, name: string)
    requires RoomValid(room)
    requires |room.players| < room.maxPlayers && |room.players| < |SpawnCorners|
    ensures RoomValid(room.(players := room.players + [NewPlayer(id, name, room.players)]))
  {
    var ps := room.players;
    var q := NewPlayer(id, name, ps);
    FreeColor(ps);
    var qs := ps + [q];
    forall i, j | 0 <= i < |qs| && 0 <= j < |qs| && i != j
      ensures qs[i].color != qs[j].color
    {
      if i == |ps| {
        assert qs[j] in ps;
      } else if j == |ps| {
        assert qs[i] in ps;
      } else {
        assert qs[i] == ps[i] && qs[j] == ps[j];
      }
    }
  }

  // ---------------------------------------------------------------------------
  // Joining and creating
  // ---------------------------------------------------------------------------

  /** `joinRoom`. Nothing is written and the room is not entered when nobody
      is signed in, the name is blank, there is no stored list, no room has
      the id, or the room is full. A room whose `maxPlayers` exceeds the four
      spawn cells is also left alone once it holds four players: the spawn
      lookup past the table fails and the failure is swallowed. Otherwise the
      first room with the id gains one player, appended at the end, on the
      spawn cell of its join order, wearing the first free colour, with fresh
      stats; no other room and nothing else in the room changes. Every valid
      room stays valid. */
  method JoinRoom(stored: Option<seq<GameRoom>>, user: Option<PlayerId>, playerName: string, roomId: string)
    returns (saved: Option<seq<GameRoom>>, joined: bool)
    ensures user.None? || Blank(playerName) || stored.None? ==> saved == stored && !joined
    ensures stored.Some? && IndexOfRoom(stored.value, roomId).None? ==> saved == stored && !joined
    ensures joined ==> user.Some? && !Blank(playerName) && stored.Some?
    ensures !joined ==> saved == stored
    ensures user.Some? && !Blank(playerName) && stored.Some? && IndexOfRoom(stored.value, roomId).Some? ==>
              var r := IndexOfRoom(stored.value, roomId).value;
              var room := stored.value[r];
              && (joined <==> |room.players| < room.maxPlayers && |room.players| < |SpawnCorners|)
              && (joined ==>
                    && |room.players| < |SpawnCorners|
                    && saved == Some(stored.value[r := room.(players := room.players + [NewPlayer(user.value, playerName, room.players)])]))
    ensures joined ==> |saved.value| == |stored.value|
    ensures joined ==> forall j :: 0 <= j < |stored.value| && stored.value[j].id != roomId ==> saved.value[j] == stored.value[j]
    ensures joined ==>
              var room := saved.value[IndexOfRoom(stored.value, roomId).value];
              && room.players[|room.players| - 1].id == user.value
              && FreshPlayer(room.players[|room.players| - 1])
    ensures stored.Some? && (forall room | room in stored.value :: RoomValid(room)) ==>
              saved.Some? && forall room | room in saved.value :: RoomValid(room)
  {
    saved, joined := stored, false;
    if user.None? || Blank(playerName) {
      return;
    }
    if stored.None? {
      return;
    }
    var existingRooms := stored.value;
    var roomIndex := IndexOfRoom(existingRooms, roomId);
    if roomIndex.None? {
      return;
    }
    var r := roomIndex.value;
    var currentRoom := existingRooms[r];
    var players := currentRoom.players;
    if |players| >= currentRoom.maxPlayers {
      return;
    }
    if |players| >= |SpawnCorners| {
      return;
    }
    var newPlayer := NewPlayer(user.value, playerName, players);
    players := players + [newPlayer];
    existingRooms := existingRooms[r := currentRoom.(players := players)];
    saved, joined := Some(existingRooms), true;

    if forall room | room in stored.value :: RoomValid(room) {
      assert currentRoom in stored.value;
      JoinKeepsRoomValid(currentRoom, user.value, playerName);
      assert forall room | room in existingRooms :: room in stored.value || room == existingRooms[r];
    }
  }

  /** `createRoom`. Nothing is written and no room is entered when nobody is
      signed in or the name is blank. Otherwise one waiting room for four is
      appended to the stored list (an absent list counts as empty): it has
      the given id, is named after the player, and holds the creator alone,
      red, on the first spawn cell with fresh stats. That room is valid and
      is the one entered. */
  method CreateRoom(stored: Option<seq<GameRoom>>, user: Option<PlayerId>, playerName: string, roomId: string)
    returns (saved: Option<seq<GameRoom>>, joined: bool)
    ensures user.None? || Blank(playerName) ==> saved == stored && !joined
    ensures user.Some? && !Blank(playerName) ==>
              && joined && saved.Some?
              && var before := if stored.Some? then stored.value else [];
                 && |saved.value| == |before| + 1
                 && saved.value[..|before|] == before
                 && var room := saved.value[|before|];
                    && room.id == roomId
                    && room.name == playerName + "'s Game"
                    && room.maxPlayers == MaxPlayers
                    && room.status == Waiting
                    && room.players == [Player(user.value, playerName, 1, 1, Red, true, 0, 1, 1, DefaultSpeed)]
                    && RoomValid(room)
                    && room in WaitingRooms(saved.value)
  {
    if user.None? || Blank(playerName) {
      return stored, false;
    }
    var room := GameRoom(
      id := roomId,
      name := playerName + "'s Game",
      players := [Player(user.value, playerName, 1, 1, Red, true, 0, 1, 1, DefaultSpeed)],
      maxPlayers := MaxPlayers,
      status := Waiting);
    var existingRooms := if stored.Some? then stored.value else [];
    existingRooms := existingRooms + [room];
    saved, joined := Some(existingRooms), true;
    assert room in existingRooms;
  }
}
