/** The game rules embedded in src/components/GameArena.tsx: the initial
    state, the per-tick transition run by the game loop, the action reducer
    `handlePlayerAction`, the message dispatch of the room channel and the
    key-to-step mapping of the keyboard handler.

    The source's updaters `setGameState(prev => next)` shallow-copy the state
    and then reassign its fields one by one. Here a state is a value, and
    each updater is a method that takes the previous state and returns the
    next one. */
module GameArena {
  import opened GameTypes
  import opened GameLogic

  /** Ticks from placement to detonation (3 s at 60 ticks per second). */
  const BombFuse: int := 180
  /** The match's time budget: 180 s at 60 ticks per second. */
  const TimeBudget: nat := 10800
  const MaxBombsCap: nat := 5
  const BombPowerCap: nat := 5
  /** 3.0 in half-steps. */
  const SpeedCap: nat := 6
  /** 0.5 in half-steps. */
  const SpeedStep: nat := 1

  /** `Math.max(0, n)` */
  function Floor0(n: int): nat {
    if n < 0 then 0 else n
  }

  function Min(a: int, b: int): int {
    if a < b then a else b
  }

  predicate PlayerValid(p: Player) {
    && InBounds(p.x, p.y)
    && p.bombCount <= p.maxBombs <= MaxBombsCap
    && p.bombPower <= BombPowerCap
    && p.speed <= SpeedCap
  }

  ghost predicate BombsApart(bombs: seq<Bomb>) {
    forall i, j | 0 <= i < |bombs| && 0 <= j < |bombs| && i != j ::
      (bombs[i].x, bombs[i].y) != (bombs[j].x, bombs[j].y)
  }

  ghost predicate PowerUpsApart(powerUps: seq<PowerUp>) {
    forall i, j | 0 <= i < |powerUps| && 0 <= j < |powerUps| && i != j ::
      (powerUps[i].x, powerUps[i].y) != (powerUps[j].x, powerUps[j].y)
  }

  /** What every state reached by the rules satisfies: the grid keeps its
      structure; players stand on empty cells of the board with
      `bombCount <= maxBombs` and every stat under its cap; bombs are live,
      on empty cells and at most one per cell; explosions are on empty cells
      (a block they reach is destroyed in the same tick) with lifetime 1 to
      30; power-ups sit on empty cells, at most one per cell; no winner
      before the end. */
  ghost predicate Valid(s: GameState) {
    && GridStructure(s.grid)
    && (forall p | p in s.players :: PlayerValid(p) && At(s.grid, p.x, p.y) == Empty)
    && (forall b | b in s.bombs :: InBounds(b.x, b.y) && At(s.grid, b.x, b.y) == Empty && b.timer > 0)
    && BombsApart(s.bombs)
    && (forall e | e in s.explosions ::
          InBounds(e.x, e.y) && At(s.grid, e.x, e.y) == Empty && 0 < e.timer <= ExplosionLifetime)
    && (forall p | p in s.powerUps :: InBounds(p.x, p.y) && At(s.grid, p.x, p.y) == Empty)
    && PowerUpsApart(s.powerUps)
    && (s.gameStatus != Finished ==> s.winner == None)
  }

  // ---------------------------------------------------------------------------
  // Initial state
  // ---------------------------------------------------------------------------

  /** The state a room starts with: no bombs, explosions or power-ups, the
      grid generated from the draws, the full time budget, and status playing
      exactly when at least two players have joined. Players standing on the
      spawn corners make a valid state. */
  method InitialState(roomId: string, players: seq<Player>, roll: BlockOracle) returns (s: GameState)
    ensures s.id == roomId && s.players == players
    ensures s.bombs == [] && s.explosions == [] && s.powerUps == []
    ensures GridStructure(s.grid)
    ensures forall x, y | InBounds(x, y) && !OnBorder(x, y) && !OnLattice(x, y) ::
              At(s.grid, x, y) == (if !InSpawnZone(x, y) && roll(x, y) then Block else Empty)
    ensures s.timeLeft == TimeBudget && s.winner == None
    ensures s.gameStatus == (if |players| >= 2 then Playing else Waiting)
    ensures (forall p | p in players :: PlayerValid(p) && (p.x, p.y) in SpawnPositions()) ==> Valid(s)
  {
    var grid := CreateInitialGrid(roll);
    s := GameState(
      id := roomId,
      players := players,
      bombs := [],
      explosions := [],
      powerUps := [],
      grid := grid,
      gameStatus := if |players| >= 2 then Playing else Waiting,
      winner := None,
      timeLeft := TimeBudget);
    forall p | p in players && (p.x, p.y) in SpawnPositions()
      ensures InBounds(p.x, p.y) && At(grid, p.x, p.y) == Empty
    {
      var k :| 0 <= k < |SpawnPositions()| && SpawnPositions()[k] == (p.x, p.y);
    }
  }

  // ---------------------------------------------------------------------------
  // Searches used by the tick and the reducer
  // ---------------------------------------------------------------------------

  /** `players.findIndex(p => p.id === id)`: the first index holding the id. */
  function IndexOfPlayer(players: seq<Player>, id: PlayerId): (r: Option<nat>)
    ensures r.Some? ==> r.value < |players| && players[r.value].id == id
    ensures r.Some? ==> forall j :: 0 <= j < r.value ==> players[j].id != id
    ensures r.None? ==> forall j :: 0 <= j < |players| ==> players[j].id != id
  {
    if players == [] then None
    else if players[0].id == id then Some(0)
    else match IndexOfPlayer(players[1..], id)
      case None => None
      case Some(k) => Some(k + 1)
  }

  /** `powerUps.findIndex(p => p.x === x && p.y === y)`: the first power-up at the cell. */
  function IndexOfPowerUpAt(powerUps: seq<PowerUp>, x: int, y: int): (r: Option<nat>)
    ensures r.Some? ==> r.value < |powerUps| && powerUps[r.value].x == x && powerUps[r.value].y == y
    ensures r.Some? ==> forall j :: 0 <= j < r.value ==> !(powerUps[j].x == x && powerUps[j].y == y)
    ensures r.None? ==> forall j :: 0 <= j < |powerUps| ==> !(powerUps[j].x == x && powerUps[j].y == y)
  {
    if powerUps == [] then None
    else if powerUps[0].x == x && powerUps[0].y == y then Some(0)
    else match IndexOfPowerUpAt(powerUps[1..], x, y)
      case None => None
      case Some(k) => Some(k + 1)
  }

  /** Two player lists with the same ids at the same indices agree on every search by id. */
  lemma {:induction false} IndexOfPlayerSameIds(ps: seq<Player>, qs: seq<Player>, id: PlayerId)
    requires |ps| == |qs| && forall j :: 0 <= j < |ps| ==> ps[j].id == qs[j].id
    ensures IndexOfPlayer(ps, id) == IndexOfPlayer(qs, id)
  {
    if ps != [] && ps[0].id != id {
      IndexOfPlayerSameIds(ps[1..], qs[1..], id);
    }
  }

  // ---------------------------------------------------------------------------
  // The per-tick pieces: bomb timers, detonation, refunds, explosion ageing
  // ---------------------------------------------------------------------------

  /** `bombs.map(b => ({...b, timer: b.timer - 1}))` */
  function DecrementTimers(bombs: seq<Bomb>): (r: seq<Bomb>)
    ensures |r| == |bombs|
    ensures forall i :: 0 <= i < |r| ==> r[i] == bombs[i].(timer := bombs[i].timer - 1)
  {
    seq(|bombs|, i requires 0 <= i < |bombs| => bombs[i].(timer := bombs[i].timer - 1))
  }

  /** `bombs.filter(b => b.timer <= 0)`: the bombs that detonate. */
  function Expired(bombs: seq<Bomb>): (r: seq<Bomb>)
    ensures forall b :: b in r <==> b in bombs && b.timer <= 0
  {
    if bombs == [] then []
    else (if bombs[0].timer <= 0 then [bombs[0]] else []) + Expired(bombs[1..])
  }

  /** `bombs.filter(b => b.timer > 0)`: the bombs that stay. */
  function Unexpired(bombs: seq<Bomb>): (r: seq<Bomb>)
    ensures forall b :: b in r <==> b in bombs && b.timer > 0
  {
    if bombs == [] then []
    else (if bombs[0].timer > 0 then [bombs[0]] else []) + Unexpired(bombs[1..])
  }

  /** Both filters distribute over concatenation: every bomb is kept or
      dropped on its own, and the survivors keep their order. */
  lemma {:induction false} FiltersAppend(a: seq<Bomb>, b: seq<Bomb>)
    ensures Expired(a + b) == Expired(a) + Expired(b)
    ensures Unexpired(a + b) == Unexpired(a) + Unexpired(b)
  {
    if a == [] {
      assert a + b == b;
    } else {
      assert (a + b)[0] == a[0] && (a + b)[1..] == a[1..] + b;
      FiltersAppend(a[1..], b);
      AppendAssoc(if a[0].timer <= 0 then [a[0]] else [], Expired(a[1..]), Expired(b));
      AppendAssoc(if a[0].timer > 0 then [a[0]] else [], Unexpired(a[1..]), Unexpired(b));
    }
  }

  /** Every bomb lands in exactly one of the two filters: none is lost or duplicated. */
  lemma {:induction false} BombsPartition(bombs: seq<Bomb>)
    ensures |Expired(bombs)| + |Unexpired(bombs)| == |bombs|
  {
    if bombs != [] {
      BombsPartition(bombs[1..]);
    }
  }

  /** A list of bombs with one bomb in front is apart exactly when the rest
      is apart and no bomb of the rest shares the front bomb's cell. */
  lemma BombsApartCons(b: Bomb, rest: seq<Bomb>)
    ensures BombsApart([b] + rest) <==> BombsApart(rest) && forall c | c in rest :: (c.x, c.y) != (b.x, b.y)
  {
    var all := [b] + rest;
    if BombsApart(all) {
      forall i, j | 0 <= i < |rest| && 0 <= j < |rest| && i != j
        ensures (rest[i].x, rest[i].y) != (rest[j].x, rest[j].y)
      {
        assert all[i + 1] == rest[i] && all[j + 1] == rest[j];
      }
      forall c | c in rest
        ensures (c.x, c.y) != (b.x, b.y)
      {
        var k :| 0 <= k < |rest| && rest[k] == c;
        assert all[k + 1] == c && all[0] == b;
      }
    }
    if BombsApart(rest) && forall c | c in rest :: (c.x, c.y) != (b.x, b.y) {
      forall i, j | 0 <= i < |all| && 0 <= j < |all| && i != j
        ensures (all[i].x, all[i].y) != (all[j].x, all[j].y)
      {
        if i == 0 {
          assert all[j] == rest[j - 1];
        } else if j == 0 {
          assert all[i] == rest[i - 1];
        } else {
          assert all[i] == rest[i - 1] && all[j] == rest[j - 1];
        }
      }
    }
  }

  /** The bombs that stay are still at most one per cell. */
  lemma {:induction false} UnexpiredApart(bombs: seq<Bomb>)
    requires BombsApart(bombs)
    ensures BombsApart(Unexpired(bombs))
  {
    if bombs != [] {
      assert bombs == [bombs[0]] + bombs[1..];
      BombsApartCons(bombs[0], bombs[1..]);
      UnexpiredApart(bombs[1..]);
      if bombs[0].timer > 0 {
        BombsApartCons(bombs[0], Unexpired(bombs[1..]));
      }
    }
  }

  /** A decremented list keeps the cells of the bombs. */
  lemma DecrementKeepsCells(bombs: seq<Bomb>)
    ensures forall b | b in DecrementTimers(bombs) :: exists b0 :: b0 in bombs && b0.x == b.x && b0.y == b.y && b.timer == b0.timer - 1
    ensures BombsApart(bombs) ==> BombsApart(DecrementTimers(bombs))
  {
    var r := DecrementTimers(bombs);
    forall b | b in r
      ensures exists b0 :: b0 in bombs && b0.x == b.x && b0.y == b.y && b.timer == b0.timer - 1
    {
      var i :| 0 <= i < |r| && r[i] == b;
      assert bombs[i] in bombs;
    }
  }

  /** `explosions.map(timer - 1).filter(timer > 0)`: every lifetime drops by
      one and exactly the explosions that reach zero disappear. */
  function AgeExplosions(explosions: seq<Explosion>): (r: seq<Explosion>)
    ensures |r| <= |explosions|
    ensures forall e :: e in r <==>
              exists e0 :: e0 in explosions && e0.timer - 1 > 0 && e == e0.(timer := e0.timer - 1)
  {
    if explosions == [] then []
    else
      var e0 := explosions[0];
      var rest := AgeExplosions(explosions[1..]);
      assert forall e :: e in rest <==>
        exists e1 :: e1 in explosions[1..] && e1.timer - 1 > 0 && e == e1.(timer := e1.timer - 1);
      (if e0.timer - 1 > 0 then [e0.(timer := e0.timer - 1)] else []) + rest
  }

  /** Ageing distributes over concatenation: every explosion is aged on its
      own, none is merged with an equal one, and the order is kept. */
  lemma {:induction false} AgeExplosionsAppend(a: seq<Explosion>, b: seq<Explosion>)
    ensures AgeExplosions(a + b) == AgeExplosions(a) + AgeExplosions(b)
  {
    if a == [] {
      assert a + b == b;
    } else {
      assert (a + b)[0] == a[0] && (a + b)[1..] == a[1..] + b;
      AgeExplosionsAppend(a[1..], b);
      var e0 := a[0];
      AppendAssoc(if e0.timer - 1 > 0 then [e0.(timer := e0.timer - 1)] else [], AgeExplosions(a[1..]), AgeExplosions(b));
    }
  }

  /** The explosions of several detonations, appended in order. */
  function Blasts(bombs: seq<Bomb>, grid: Grid): seq<Explosion>
    requires GridShape(grid)
  {
    if bombs == [] then []
    else Blasts(bombs[..|bombs| - 1], grid) + Blast(bombs[|bombs| - 1], grid)
  }

  /** Detonations of bombs on the board only produce explosions on the board with a full lifetime. */
  lemma {:induction false} BlastsInBounds(bombs: seq<Bomb>, grid: Grid)
    requires GridShape(grid)
    requires forall b | b in bombs :: InBounds(b.x, b.y)
    ensures forall e | e in Blasts(bombs, grid) :: InBounds(e.x, e.y) && e.timer == ExplosionLifetime
  {
    if bombs != [] {
      var front, b := bombs[..|bombs| - 1], bombs[|bombs| - 1];
      assert forall c | c in front :: c in bombs;
      BlastsInBounds(front, grid);
      BlastShape(b, grid);
      var r := Blast(b, grid);
      forall e | e in r
        ensures InBounds(e.x, e.y)
      {
        if e != r[0] {
          var k :| 0 <= k < |r| && r[k] == e;
          assert e in r[1..];
        }
      }
    }
  }

  /** Detonations of bombs off the walls only produce explosions off the walls. */
  lemma {:induction false} BlastsOffWalls(bombs: seq<Bomb>, grid: Grid)
    requires GridShape(grid)
    requires forall b | b in bombs :: InBounds(b.x, b.y) && At(grid, b.x, b.y) != Wall
    ensures forall e | e in Blasts(bombs, grid) :: InBounds(e.x, e.y) && At(grid, e.x, e.y) != Wall
  {
    if bombs != [] {
      var front, b := bombs[..|bombs| - 1], bombs[|bombs| - 1];
      assert forall c | c in front :: c in bombs;
      BlastsOffWalls(front, grid);
      BlastShape(b, grid);
      var r := Blast(b, grid);
      forall e | e in r
        ensures InBounds(e.x, e.y) && At(grid, e.x, e.y) != Wall
      {
        if e != r[0] {
          var k :| 0 <= k < |r| && r[k] == e;
          assert e in r[1..];
        }
      }
    }
  }

  /** One detonation's refund: the first player with the owner's id gets a bomb back, never below zero. */
  function RefundOne(players: seq<Player>, owner: PlayerId): seq<Player> {
    match IndexOfPlayer(players, owner)
    case None => players
    case Some(i) => players[i := players[i].(bombCount := Floor0(players[i].bombCount - 1))]
  }

  /** The refunds of several detonations, in order. */
  function Refund(players: seq<Player>, bombs: seq<Bomb>): seq<Player> {
    if bombs == [] then players
    else RefundOne(Refund(players, bombs[..|bombs| - 1]), bombs[|bombs| - 1].playerId)
  }

  /** How many of the bombs the given player owns. */
  function CountOwned(bombs: seq<Bomb>, id: PlayerId): nat {
    if bombs == [] then 0
    else CountOwned(bombs[..|bombs| - 1], id) + (if bombs[|bombs| - 1].playerId == id then 1 else 0)
  }

  /** One refund lowers, by one and never below zero, the count of the first
      player holding the owner's id, and of no one else. */
  lemma RefundOneSpec(players: seq<Player>, owner: PlayerId)
    ensures |RefundOne(players, owner)| == |players|
    ensures forall i | 0 <= i < |players| ::
      RefundOne(players, owner)[i] == players[i].(bombCount :=
        if IndexOfPlayer(players, owner) == Some(i)
        then Floor0(players[i].bombCount - 1)
        else players[i].bombCount)
  {
  }

  /** The new bomb count of player i after the refunds of the given bombs. */
  function RefundedCount(players: seq<Player>, bombs: seq<Bomb>, i: nat): nat
    requires i < |players|
  {
    if IndexOfPlayer(players, players[i].id) == Some(i)
    then Floor0(players[i].bombCount - CountOwned(bombs, players[i].id))
    else players[i].bombCount
  }

  lemma {:induction false} RefundAt(players: seq<Player>, bombs: seq<Bomb>, i: nat)
    requires i < |players|
    ensures |Refund(players, bombs)| == |players|
    ensures Refund(players, bombs)[i] == players[i].(bombCount := RefundedCount(players, bombs, i))
  {
    if bombs != [] {
      var front, owner := bombs[..|bombs| - 1], bombs[|bombs| - 1].playerId;
      RefundAt(players, front, i);
      var before := Refund(players, front);
      assert |before| == |players|;
      assert forall j | 0 <= j < |players| :: before[j].id == players[j].id by {
        forall j | 0 <= j < |players|
          ensures before[j].id == players[j].id
        {
          RefundAt(players, front, j);
        }
      }
      RefundOneSpec(before, owner);
      IndexOfPlayerSameIds(before, players, owner);
      var id := players[i].id;
      assert CountOwned(bombs, id) == CountOwned(front, id) + (if owner == id then 1 else 0);
      if IndexOfPlayer(players, owner) != Some(i) && id == owner {
        assert IndexOfPlayer(players, id) != Some(i);
      }
    }
  }

  /** The refunds change only `bombCount`, and only for the first player
      holding each id: it drops by the number of detonating bombs that player
      owns, never below zero. Every other player keeps their count. */
  lemma RefundSpec(players: seq<Player>, bombs: seq<Bomb>)
    ensures |Refund(players, bombs)| == |players|
    ensures forall i | 0 <= i < |players| ::
      Refund(players, bombs)[i] == players[i].(bombCount :=
        if IndexOfPlayer(players, players[i].id) == Some(i)
        then Floor0(players[i].bombCount - CountOwned(bombs, players[i].id))
        else players[i].bombCount)
  {
    RefundLength(players, bombs);
    var r := Refund(players, bombs);
    forall i | 0 <= i < |players|
      ensures r[i] == players[i].(bombCount := RefundedCount(players, bombs, i))
    {
      RefundAt(players, bombs, i);
    }
  }

  lemma {:induction false} RefundLength(players: seq<Player>, bombs: seq<Bomb>)
    ensures |Refund(players, bombs)| == |players|
  {
    if bombs != [] {
      RefundLength(players, bombs[..|bombs| - 1]);
      RefundOneSpec(Refund(players, bombs[..|bombs| - 1]), bombs[|bombs| - 1].playerId);
    }
  }

  /** `players.filter(p => p.isAlive)` */
  function AlivePlayers(players: seq<Player>): (r: seq<Player>)
    ensures |r| <= |players|
    ensures forall p :: p in r <==> p in players && p.isAlive
  {
    if players == [] then []
    else (if players[0].isAlive then [players[0]] else []) + AlivePlayers(players[1..])
  }

  /** Filtering a list made of two parts filters each part in turn, so the
      living players keep their order. */
  lemma {:induction false} AlivePlayersAppend(a: seq<Player>, b: seq<Player>)
    ensures AlivePlayers(a + b) == AlivePlayers(a) + AlivePlayers(b)
  {
    if a == [] {
      assert a + b == b;
    } else {
      assert (a + b)[0] == a[0] && (a + b)[1..] == a[1..] + b;
      AlivePlayersAppend(a[1..], b);
    }
  }

  ghost predicate NoneAlive(players: seq<Player>) {
    forall j | 0 <= j < |players| :: !players[j].isAlive
  }

  ghost predicate NoTwoAlive(players: seq<Player>) {
    forall i, j | 0 <= i < |players| && 0 <= j < |players| && i != j ::
      !(players[i].isAlive && players[j].isAlive)
  }

  /** Player i is alive and every other player is dead. */
  ghost predicate SoleSurvivor(players: seq<Player>, i: int) {
    0 <= i < |players| && players[i].isAlive &&
    forall j | 0 <= j < |players| && j != i :: !players[j].isAlive
  }

  /** Nobody survives exactly when every player is dead. */
  lemma NoneAliveCount(players: seq<Player>)
    ensures |AlivePlayers(players)| == 0 <==> NoneAlive(players)
  {
    if !NoneAlive(players) {
      var j :| 0 <= j < |players| && players[j].isAlive;
      assert players[j] in AlivePlayers(players);
    }
    if AlivePlayers(players) != [] {
      assert AlivePlayers(players)[0] in players;
    }
  }

  lemma NoTwoAliveCons(players: seq<Player>)
    requires players != []
    ensures NoTwoAlive(players) <==>
              NoTwoAlive(players[1..]) && (players[0].isAlive ==> NoneAlive(players[1..]))
  {
    var rest := players[1..];
    assert forall j | 0 <= j < |rest| :: rest[j] == players[j + 1];
    if NoTwoAlive(players) {
      forall i, j | 0 <= i < |rest| && 0 <= j < |rest| && i != j
        ensures !(rest[i].isAlive && rest[j].isAlive)
      {
        assert rest[i] == players[i + 1] && rest[j] == players[j + 1];
      }
      if players[0].isAlive {
        forall j | 0 <= j < |rest|
          ensures !rest[j].isAlive
        {
          assert rest[j] == players[j + 1];
        }
      }
    }
    if NoTwoAlive(rest) && (players[0].isAlive ==> NoneAlive(rest)) {
      forall i, j | 0 <= i < |players| && 0 <= j < |players| && i != j
        ensures !(players[i].isAlive && players[j].isAlive)
      {
        if i == 0 {
          assert players[j] == rest[j - 1];
        } else if j == 0 {
          assert players[i] == rest[i - 1];
        } else {
          assert players[i] == rest[i - 1] && players[j] == rest[j - 1];
        }
      }
    }
  }

  /** The end rule's `alivePlayers.length <= 1`: at most one player survives
      exactly when no two distinct players are both alive. */
  lemma {:induction false} AtMostOneAlive(players: seq<Player>)
    ensures |AlivePlayers(players)| <= 1 <==> NoTwoAlive(players)
  {
    if players != [] {
      var rest := players[1..];
      AtMostOneAlive(rest);
      NoneAliveCount(rest);
      NoTwoAliveCons(players);
      assert AlivePlayers(players) == (if players[0].isAlive then [players[0]] else []) + AlivePlayers(rest);
    }
  }

  /** The winner rule's `alivePlayers.length === 1`: exactly one player
      survives exactly when some player is alive and all others are dead. */
  lemma ExactlyOneAlive(players: seq<Player>)
    ensures |AlivePlayers(players)| == 1 <==> exists i :: SoleSurvivor(players, i)
  {
    AtMostOneAlive(players);
    NoneAliveCount(players);
    if |AlivePlayers(players)| == 1 {
      var i :| 0 <= i < |players| && players[i].isAlive;
      assert SoleSurvivor(players, i);
    }
    if exists i :: SoleSurvivor(players, i) {
      var i :| SoleSurvivor(players, i);
      assert !NoneAlive(players);
    }
  }

  // ---------------------------------------------------------------------------
  // Lemmas that the tick keeps the invariant
  // ---------------------------------------------------------------------------

  lemma TickKeepsPlayers(g: Grid, players: seq<Player>, bombs: seq<Bomb>, explosions: seq<Explosion>)
    requires GridShape(g)
    requires forall p | p in players :: PlayerValid(p) && At(g, p.x, p.y) == Empty
    ensures forall p | p in CheckPlayerCollisions(Refund(players, bombs), explosions) ::
              PlayerValid(p) && At(g, p.x, p.y) == Empty
  {
    RefundSpec(players, bombs);
    var refunded := Refund(players, bombs);
    var r := CheckPlayerCollisions(refunded, explosions);
    forall p | p in r
      ensures PlayerValid(p) && At(g, p.x, p.y) == Empty
    {
      var i :| 0 <= i < |r| && r[i] == p;
      assert players[i] in players;
      assert r[i].(isAlive := refunded[i].isAlive) == refunded[i];
    }
  }

  lemma TickKeepsExplosions(old_: seq<Explosion>, fresh_: seq<Explosion>)
    requires forall e | e in old_ :: InBounds(e.x, e.y) && 0 < e.timer <= ExplosionLifetime
    requires forall e | e in fresh_ :: InBounds(e.x, e.y) && e.timer == ExplosionLifetime
    ensures forall e | e in AgeExplosions(old_ + fresh_) :: InBounds(e.x, e.y) && 0 < e.timer <= ExplosionLifetime
  {
    forall e | e in AgeExplosions(old_ + fresh_)
      ensures InBounds(e.x, e.y) && 0 < e.timer <= ExplosionLifetime
    {
      var e0 :| e0 in old_ + fresh_ && e0.timer - 1 > 0 && e == e0.(timer := e0.timer - 1);
      assert e0 in old_ || e0 in fresh_;
    }
  }

  /** Ageing keeps every explosion on its cell: explosions that were off the
      walls stay off them, and with no fresh explosions the ones on empty
      cells stay on empty cells. */
  lemma AgedStayOffWalls(g: Grid, old_: seq<Explosion>, fresh_: seq<Explosion>)
    requires GridShape(g)
    requires forall e | e in old_ :: InBounds(e.x, e.y) && At(g, e.x, e.y) == Empty
    requires forall e | e in fresh_ :: InBounds(e.x, e.y) && At(g, e.x, e.y) != Wall
    ensures forall e | e in AgeExplosions(old_ + fresh_) :: InBounds(e.x, e.y) && At(g, e.x, e.y) != Wall
    ensures fresh_ == [] ==> forall e | e in AgeExplosions(old_ + fresh_) :: At(g, e.x, e.y) == Empty
  {
    forall e | e in AgeExplosions(old_ + fresh_)
      ensures InBounds(e.x, e.y) && At(g, e.x, e.y) != Wall
      ensures fresh_ == [] ==> At(g, e.x, e.y) == Empty
    {
      var e0 :| e0 in old_ + fresh_ && e0.timer - 1 > 0 && e == e0.(timer := e0.timer - 1);
      assert e0 in old_ || e0 in fresh_;
    }
  }

  lemma TickKeepsPowerUps(s: GameState, explosions: seq<Explosion>, drop: DropOracle)
    requires Valid(s) && AllInBounds(explosions)
    ensures var d := Destroyed(s.grid, explosions, drop);
      && (forall p | p in s.powerUps + d.1 :: InBounds(p.x, p.y) && At(d.0, p.x, p.y) == Empty)
      && PowerUpsApart(s.powerUps + d.1)
  {
    DestroyedSpec(s.grid, explosions, drop);
    DroppedOnEmpty(s, explosions, drop);
    DroppedApart(s, explosions, drop);
  }

  lemma DroppedOnEmpty(s: GameState, explosions: seq<Explosion>, drop: DropOracle)
    requires Valid(s) && AllInBounds(explosions)
    ensures var d := Destroyed(s.grid, explosions, drop);
      forall p | p in s.powerUps + d.1 :: InBounds(p.x, p.y) && At(d.0, p.x, p.y) == Empty
  {
    DestroyedSpec(s.grid, explosions, drop);
    var d := Destroyed(s.grid, explosions, drop);
    forall p | p in s.powerUps + d.1
      ensures InBounds(p.x, p.y) && At(d.0, p.x, p.y) == Empty
    {
      if p !in s.powerUps {
        assert p in d.1;
      }
    }
  }

  lemma DroppedApart(s: GameState, explosions: seq<Explosion>, drop: DropOracle)
    requires Valid(s) && AllInBounds(explosions)
    ensures PowerUpsApart(s.powerUps + Destroyed(s.grid, explosions, drop).1)
  {
    DestroyedSpec(s.grid, explosions, drop);
    var dropped := Destroyed(s.grid, explosions, drop).1;
    var all := s.powerUps + dropped;
    var n := |s.powerUps|;
    forall i, j | 0 <= i < |all| && 0 <= j < |all| && i != j
      ensures (all[i].x, all[i].y) != (all[j].x, all[j].y)
    {
      if i < n && j < n {
        assert all[i] == s.powerUps[i] && all[j] == s.powerUps[j];
      } else if i >= n && j >= n {
        assert all[i] == dropped[i - n] && all[j] == dropped[j - n];
      } else {
        var a, b := if i < n then all[i] else all[j], if i < n then all[j] else all[i];
        assert a in s.powerUps;
        assert b in dropped;
      }
    }
  }

  // ---------------------------------------------------------------------------
  // The tick
  // ---------------------------------------------------------------------------

  lemma TickKeepsBombs(g: Grid, bombs: seq<Bomb>)
    requires GridShape(g)
    requires forall b | b in bombs :: InBounds(b.x, b.y) && At(g, b.x, b.y) == Empty && b.timer > 0
    requires BombsApart(bombs)
    ensures forall b | b in Unexpired(DecrementTimers(bombs)) ::
              InBounds(b.x, b.y) && At(g, b.x, b.y) == Empty && b.timer > 0
    ensures BombsApart(Unexpired(DecrementTimers(bombs)))
  {
    DecrementKeepsCells(bombs);
    UnexpiredApart(DecrementTimers(bombs));
  }

  /** The bombs that detonate in a tick stand where they were placed. */
  lemma ExpiredOnEmpty(g: Grid, bombs: seq<Bomb>)
    requires GridShape(g)
    requires forall b | b in bombs :: InBounds(b.x, b.y) && At(g, b.x, b.y) == Empty
    ensures forall b | b in Expired(DecrementTimers(bombs)) :: InBounds(b.x, b.y) && At(g, b.x, b.y) == Empty
  {
    DecrementKeepsCells(bombs);
  }

  lemma DestroyedKeepsStructure(g: Grid, explosions: seq<Explosion>, drop: DropOracle)
    requires GridStructure(g) && AllInBounds(explosions)
    ensures GridStructure(Destroyed(g, explosions, drop).0)
  {
    DestroyedSpec(g, explosions, drop);
  }

  /** The new state of a tick keeps the invariant, given how each field is
      obtained from the previous state. */
  lemma TickKeepsValid(prev: GameState, drop: DropOracle, next: GameState)
    requires Valid(prev)
    requires next.bombs == Unexpired(DecrementTimers(prev.bombs))
    requires next.explosions == AgeExplosions(prev.explosions + Blasts(Expired(DecrementTimers(prev.bombs)), prev.grid))
    requires next.players == CheckPlayerCollisions(Refund(prev.players, Expired(DecrementTimers(prev.bombs))), next.explosions)
    requires Expired(DecrementTimers(prev.bombs)) == [] ==> next.grid == prev.grid && next.powerUps == prev.powerUps
    requires Expired(DecrementTimers(prev.bombs)) != [] ==>
               && AllInBounds(next.explosions)
               && var d := Destroyed(prev.grid, next.explosions, drop);
                  next.grid == d.0 && next.powerUps == prev.powerUps + d.1
    requires next.gameStatus != Finished ==> next.gameStatus == prev.gameStatus && next.winner == prev.winner
    ensures Valid(next)
  {
    var exploding := Expired(DecrementTimers(prev.bombs));
    TickKeepsBombs(prev.grid, prev.bombs);
    ExpiredOnEmpty(prev.grid, prev.bombs);
    BlastsInBounds(exploding, prev.grid);
    BlastsOffWalls(exploding, prev.grid);
    TickKeepsExplosions(prev.explosions, Blasts(exploding, prev.grid));
    AgedStayOffWalls(prev.grid, prev.explosions, Blasts(exploding, prev.grid));
    TickKeepsPlayers(prev.grid, prev.players, exploding, next.explosions);
    if exploding != [] {
      TickKeepsPowerUps(prev, next.explosions, drop);
      DestroyedKeepsStructure(prev.grid, next.explosions, drop);
      DestroyedClears(prev.grid, next.explosions, drop);
    }
  }

  lemma BlastsStep(explosions0: seq<Explosion>, bombs: seq<Bomb>, i: nat, grid: Grid)
    requires GridShape(grid) && i < |bombs|
    ensures explosions0 + Blasts(bombs[..i + 1], grid) == (explosions0 + Blasts(bombs[..i], grid)) + Blast(bombs[i], grid)
  {
    assert bombs[..i + 1][..i] == bombs[..i];
    AppendAssoc(explosions0, Blasts(bombs[..i], grid), Blast(bombs[i], grid));
  }


  lemma RefundStep(players: seq<Player>, bombs: seq<Bomb>, i: nat)
    requires i < |bombs|
    ensures Refund(players, bombs[..i + 1]) == RefundOne(Refund(players, bombs[..i]), bombs[i].playerId)
  {
    assert bombs[..i + 1][..i] == bombs[..i];
  }

  /** The `forEach` callback for one detonating bomb: its explosions are
      appended, and the first player with the owner's id gets one bomb back,
      never going below zero. */
  method DetonateOne(bomb: Bomb, grid: Grid, explosions0: seq<Explosion>, players0: seq<Player>)
    returns (explosions: seq<Explosion>, players: seq<Player>)
    requires GridShape(grid)
    ensures explosions == explosions0 + Blast(bomb, grid)
    ensures players == RefundOne(players0, bomb.playerId)
  {
    var blast := CreateExplosions(bomb, grid);
    explosions := explosions0 + blast;
    players := players0;
    var playerIndex := IndexOfPlayer(players, bomb.playerId);
    if playerIndex.Some? {
      var k := playerIndex.value;
      players := players[k := players[k].(bombCount := Floor0(players[k].bombCount - 1))];
    }
  }

  /** The `forEach` over the detonating bombs: each adds its explosions, in
      order, and refunds one bomb to its owner. */
  method Detonate(explodingBombs: seq<Bomb>, grid: Grid, explosions0: seq<Explosion>, players0: seq<Player>)
    returns (explosions: seq<Explosion>, players: seq<Player>)
    requires GridShape(grid)
    ensures explosions == explosions0 + Blasts(explodingBombs, grid)
    ensures players == Refund(players0, explodingBombs)
  {
    explosions, players := explosions0, players0;
    var i := 0;
    while i < |explodingBombs|
      invariant 0 <= i <= |explodingBombs|
      invariant explosions == explosions0 + Blasts(explodingBombs[..i], grid)
      invariant players == Refund(players0, explodingBombs[..i])
    {
      BlastsStep(explosions0, explodingBombs, i, grid);
      RefundStep(players0, explodingBombs, i);
      explosions, players := DetonateOne(explodingBombs[i], grid, explosions, players);
      i := i + 1;
    }
    assert explodingBombs[..i] == explodingBombs;
  }

  /** One run of the game-loop body, in the source's order: bomb timers,
      detonation with explosions and owner refunds, removal of detonated
      bombs, explosion ageing, collisions, destruction (only on a tick with a
      detonation), the clock, and the end-of-match check. There is no chain
      reaction: a bomb reached by an explosion keeps its own timer. */
  method Tick(prev: GameState, drop: DropOracle) returns (next: GameState)
    requires Valid(prev)
    ensures Valid(next)
    ensures next.id == prev.id
    ensures next.bombs == Unexpired(DecrementTimers(prev.bombs))
    ensures next.explosions == AgeExplosions(prev.explosions + Blasts(Expired(DecrementTimers(prev.bombs)), prev.grid))
    ensures next.players == CheckPlayerCollisions(Refund(prev.players, Expired(DecrementTimers(prev.bombs))), next.explosions)
    ensures Expired(DecrementTimers(prev.bombs)) == [] ==> next.grid == prev.grid && next.powerUps == prev.powerUps
    ensures Expired(DecrementTimers(prev.bombs)) != [] ==>
              var d := Destroyed(prev.grid, next.explosions, drop);
              next.grid == d.0 && next.powerUps == prev.powerUps + d.1
    ensures next.timeLeft == Floor0(prev.timeLeft - 1)
    ensures var alive := AlivePlayers(next.players);
            if |alive| <= 1 || next.timeLeft == 0 then
              next.gameStatus == Finished && next.winner == (if |alive| == 1 then Some(alive[0].id) else None)
            else
              next.gameStatus == prev.gameStatus && next.winner == prev.winner
  {
    var bombs := DecrementTimers(prev.bombs);

    var explodingBombs := Expired(bombs);
    var explosions, players := Detonate(explodingBombs, prev.grid, prev.explosions, prev.players);

    bombs := Unexpired(bombs);
    explosions := AgeExplosions(explosions);
    players := CheckPlayerCollisions(players, explosions);

    BlastsInBounds(explodingBombs, prev.grid);
    TickKeepsExplosions(prev.explosions, Blasts(explodingBombs, prev.grid));
    var grid, powerUps := prev.grid, prev.powerUps;
    if |explodingBombs| > 0 {
      var newGrid, drops := DestroyBlocks(grid, explosions, drop);
      grid, powerUps := newGrid, powerUps + drops;
    }

    var timeLeft := Floor0(prev.timeLeft - 1);

    var alivePlayers := AlivePlayers(players);
    var gameStatus, winner := prev.gameStatus, prev.winner;
    if |alivePlayers| <= 1 || timeLeft <= 0 {
      gameStatus := Finished;
      winner := if |alivePlayers| == 1 then Some(alivePlayers[0].id) else None;
    }

    next := GameState(prev.id, players, bombs, explosions, powerUps, grid, gameStatus, winner, timeLeft);
    TickKeepsValid(prev, drop, next);
  }

  /** The game loop: it runs only while a state exists and its status is
      playing, and then it runs exactly one tick, with every field of the
      next state as `Tick` gives it. After that tick the match is finished
      exactly when at most one player is alive or the time is used up, and
      there is a winner exactly when one player is alive: that player. */
  method RunTick(current: Option<GameState>, drop: DropOracle) returns (next: Option<GameState>)
    requires current.Some? ==> Valid(current.value)
    ensures current.None? ==> next == None
    ensures current.Some? && current.value.gameStatus != Playing ==> next == current
    ensures next.Some? ==> Valid(next.value)
    ensures current.Some? && current.value.gameStatus == Playing ==>
              && next.Some?
              && var t := next.value;
                 var alive := AlivePlayers(t.players);
                 && (t.gameStatus == Finished <==> |alive| <= 1 || t.timeLeft == 0)
                 && (t.gameStatus != Finished ==> t.gameStatus == Playing)
                 && (t.winner.Some? <==> |alive| == 1)
                 && (t.winner.Some? ==> alive[0] in t.players && alive[0].isAlive && t.winner.value == alive[0].id)
                 && t.timeLeft == Floor0(current.value.timeLeft - 1)
    ensures current.Some? && current.value.gameStatus == Playing ==>
              && next.Some?
              && var c, t := current.value, next.value;
                 var exploding := Expired(DecrementTimers(c.bombs));
                 && t.id == c.id
                 && t.bombs == Unexpired(DecrementTimers(c.bombs))
                 && t.explosions == AgeExplosions(c.explosions + Blasts(exploding, c.grid))
                 && t.players == CheckPlayerCollisions(Refund(c.players, exploding), t.explosions)
                 && (exploding == [] ==> t.grid == c.grid && t.powerUps == c.powerUps)
                 && (exploding != [] ==>
                       var d := Destroyed(c.grid, t.explosions, drop);
                       t.grid == d.0 && t.powerUps == c.powerUps + d.1)
  {
    if current.None? || current.value.gameStatus != Playing {
      return current;
    }
    var t := Tick(current.value, drop);
    next := Some(t);
  }

  // ---------------------------------------------------------------------------
  // The action reducer (handlePlayerAction)
  // ---------------------------------------------------------------------------

  datatype Action =
    | Move(playerId: PlayerId, x: int, y: int)
    | PlaceBomb(playerId: PlayerId)
    | CollectPowerUp(playerId: PlayerId, x: int, y: int)
      /** any other `action.type`: no case of the switch matches */
    | Unrecognised(playerId: PlayerId)

  /** A pick-up raises one stat by its step, up to its cap: speed by 0.5 up
      to 3, max bombs by 1 up to 5, blast power by 1 up to 5. Nothing else
      changes, and a valid player stays valid with no stat going down. */
  function ApplyPowerUp(p: Player, kind: PowerUpKind): (q: Player)
    ensures q.(speed := p.speed, maxBombs := p.maxBombs, bombPower := p.bombPower) == p
    ensures kind != Speed ==> q.speed == p.speed
    ensures kind != ExtraBomb ==> q.maxBombs == p.maxBombs
    ensures kind != BlastPower ==> q.bombPower == p.bombPower
    ensures PlayerValid(p) ==>
              PlayerValid(q) && q.speed >= p.speed && q.maxBombs >= p.maxBombs && q.bombPower >= p.bombPower
  {
    match kind
    case Speed => p.(speed := Min(p.speed + SpeedStep, SpeedCap))
    case ExtraBomb => p.(maxBombs := Min(p.maxBombs + 1, MaxBombsCap))
    case BlastPower => p.(bombPower := Min(p.bombPower + 1, BombPowerCap))
  }

  /** The same pick-up collected n times in a row. */
  function ApplyRepeatedly(p: Player, kind: PowerUpKind, n: nat): Player {
    if n == 0 then p else ApplyPowerUp(ApplyRepeatedly(p, kind, n - 1), kind)
  }

  /** Pick-ups saturate at their caps: n pick-ups of one kind raise its stat
      by n steps but never past the cap (five extra-bomb pick-ups from 1 give
      5, not 6). */
  lemma {:induction false} RepeatedPickups(p: Player, kind: PowerUpKind, n: nat)
    requires PlayerValid(p)
    ensures var q := ApplyRepeatedly(p, kind, n);
      && PlayerValid(q)
      && (kind == Speed ==> q.speed == Min(p.speed + n * SpeedStep, SpeedCap))
      && (kind == ExtraBomb ==> q.maxBombs == Min(p.maxBombs + n, MaxBombsCap))
      && (kind == BlastPower ==> q.bombPower == Min(p.bombPower + n, BombPowerCap))
  {
    if n > 0 {
      RepeatedPickups(p, kind, n - 1);
    }
  }

  /** Replacing one player by a valid player on an empty cell keeps the state valid. */
  lemma ReplacePlayerKeepsValid(s: GameState, i: nat, q: Player)
    requires Valid(s) && i < |s.players| && PlayerValid(q) && At(s.grid, q.x, q.y) == Empty
    ensures Valid(s.(players := s.players[i := q]))
  {
    var ps := s.players[i := q];
    assert forall r | r in ps :: r in s.players || r == q;
  }

  /** Placing a bomb as the reducer does keeps the state valid. */
  lemma PlaceBombKeepsValid(s: GameState, i: nat)
    requires Valid(s) && i < |s.players|
    requires s.players[i].bombCount < s.players[i].maxBombs && !BombAt(s.bombs, s.players[i].x, s.players[i].y)
    ensures var p := s.players[i];
      Valid(s.(bombs := s.bombs + [Bomb(p.x, p.y, p.id, BombFuse, p.bombPower)],
               players := s.players[i := p.(bombCount := p.bombCount + 1)]))
  {
    var p := s.players[i];
    assert p in s.players;
    ReplacePlayerKeepsValid(s, i, p.(bombCount := p.bombCount + 1));
    var bs := s.bombs + [Bomb(p.x, p.y, p.id, BombFuse, p.bombPower)];
    forall a, b | 0 <= a < |bs| && 0 <= b < |bs| && a != b
      ensures (bs[a].x, bs[a].y) != (bs[b].x, bs[b].y)
    {
      if a == |bs| - 1 {
        assert bs[b] in s.bombs;
      } else if b == |bs| - 1 {
        assert bs[a] in s.bombs;
      } else {
        assert bs[a] == s.bombs[a] && bs[b] == s.bombs[b];
      }
    }
    assert forall c | c in bs :: c in s.bombs || c == bs[|bs| - 1];
  }

  /** Removing a power-up and applying it to a player keeps the state valid. */
  lemma CollectKeepsValid(s: GameState, i: nat, j: nat)
    requires Valid(s) && i < |s.players| && j < |s.powerUps|
    ensures Valid(s.(powerUps := s.powerUps[..j] + s.powerUps[j + 1..],
                     players := s.players[i := ApplyPowerUp(s.players[i], s.powerUps[j].kind)]))
  {
    assert s.players[i] in s.players;
    var t := s.(players := s.players[i := ApplyPowerUp(s.players[i], s.powerUps[j].kind)]);
    ReplacePlayerKeepsValid(s, i, ApplyPowerUp(s.players[i], s.powerUps[j].kind));
    var ps := s.powerUps[..j] + s.powerUps[j + 1..];
    forall a | 0 <= a < |ps|
      ensures ps[a] == s.powerUps[if a < j then a else a + 1]
    {
    }
    assert forall q | q in ps :: q in s.powerUps;
    forall a, b | 0 <= a < |ps| && 0 <= b < |ps| && a != b
      ensures (ps[a].x, ps[a].y) != (ps[b].x, ps[b].y)
    {
      var a', b' := if a < j then a else a + 1, if b < j then b else b + 1;
      assert ps[a] == s.powerUps[a'] && ps[b] == s.powerUps[b'];
    }
    assert Valid(t);
  }

  /** Applies one action to the state. An action naming no player of the
      room changes nothing. A move succeeds exactly when the target can be
      entered and then changes only that player's cell. A bomb is placed
      exactly when the player has a bomb left and no bomb is on their cell:
      one bomb with the full fuse and the player's blast power is added and
      the player's count goes up by one. A collection with no power-up at the
      cell changes nothing; otherwise the first power-up there is removed and
      applied to the player. Actions never touch the grid, the explosions,
      the clock or the status, and every valid state stays valid (so
      `bombCount <= maxBombs` and the caps hold throughout). */
  method HandlePlayerAction(prev: GameState, action: Action) returns (next: GameState)
    requires GridShape(prev.grid)
    ensures Valid(prev) ==> Valid(next)
    ensures next.id == prev.id && next.grid == prev.grid && next.explosions == prev.explosions
    ensures next.gameStatus == prev.gameStatus && next.winner == prev.winner && next.timeLeft == prev.timeLeft
    ensures IndexOfPlayer(prev.players, action.playerId).None? ==> next == prev
    ensures IndexOfPlayer(prev.players, action.playerId).Some? ==>
      var i := IndexOfPlayer(prev.players, action.playerId).value;
      var p := prev.players[i];
      match action
      case Move(_, x, y) =>
        next == if CanMoveTo(x, y, prev.grid, prev.bombs)
                then prev.(players := prev.players[i := p.(x := x, y := y)])
                else prev
      case PlaceBomb(_) =>
        if p.bombCount < p.maxBombs && !BombAt(prev.bombs, p.x, p.y) then
          next == prev.(bombs := prev.bombs + [Bomb(p.x, p.y, p.id, BombFuse, p.bombPower)],
                        players := prev.players[i := p.(bombCount := p.bombCount + 1)])
        else
          next == prev
      case CollectPowerUp(_, x, y) =>
        (match IndexOfPowerUpAt(prev.powerUps, x, y)
         case None => next == prev
         case Some(j) =>
           next == prev.(powerUps := prev.powerUps[..j] + prev.powerUps[j + 1..],
                         players := prev.players[i := ApplyPowerUp(p, prev.powerUps[j].kind)]))
      case Unrecognised(_) => next == prev
  {
    next := prev;
    var playerIndex := IndexOfPlayer(next.players, action.playerId);
    if playerIndex.None? {
      return prev;
    }
    var i := playerIndex.value;
    var player := next.players[i];

    match action
    case Move(_, x, y) =>
      if CanMoveTo(x, y, next.grid, next.bombs) {
        next := next.(players := next.players[i := player.(x := x, y := y)]);
        if Valid(prev) {
          assert player in prev.players;
          ReplacePlayerKeepsValid(prev, i, player.(x := x, y := y));
        }
      }
    case PlaceBomb(_) =>
      if player.bombCount < player.maxBombs {
        var bombExists := BombAt(next.bombs, player.x, player.y);
        if !bombExists {
          var bomb := Bomb(player.x, player.y, player.id, BombFuse, player.bombPower);
          next := next.(bombs := next.bombs + [bomb]);
          next := next.(players := next.players[i := player.(bombCount := player.bombCount + 1)]);
          if Valid(prev) {
            PlaceBombKeepsValid(prev, i);
          }
        }
      }
    case CollectPowerUp(_, x, y) =>
      var powerUpIndex := IndexOfPowerUpAt(next.powerUps, x, y);
      if powerUpIndex.Some? {
        var j := powerUpIndex.value;
        var powerUp := next.powerUps[j];
        next := next.(powerUps := next.powerUps[..j] + next.powerUps[j + 1..]);
        next := next.(players := next.players[i := ApplyPowerUp(player, powerUp.kind)]);
        if Valid(prev) {
          CollectKeepsValid(prev, i, j);
        }
      }
    case Unrecognised(_) =>
  }

  // ---------------------------------------------------------------------------
  // Message dispatch on the room channel
  // ---------------------------------------------------------------------------

  datatype Message =
    | GameUpdate(data: GameState)
    | PlayerAction(action: Action)
      /** any other message type: ignored */
    | OtherMessage

  /** A snapshot replaces the local state wholesale (last snapshot wins, no
      merge). An action carrying one's own id is an echo and is ignored; an
      action of another player goes through the reducer, which is a no-op
      while there is no state yet, and otherwise gives exactly the next state
      `HandlePlayerAction` promises for that action. Anything else is ignored. */
  method OnMessage(current: Option<GameState>, self: PlayerId, message: Message) returns (next: Option<GameState>)
    requires current.Some? ==> GridShape(current.value.grid)
    ensures message.GameUpdate? ==> next == Some(message.data)
    ensures message.PlayerAction? && message.action.playerId == self ==> next == current
    ensures message.OtherMessage? ==> next == current
    ensures message.PlayerAction? && current.None? ==> next == None
    ensures message.PlayerAction? && current.Some? ==>
              && next.Some?
              && (Valid(current.value) ==> Valid(next.value))
              && next.value.grid == current.value.grid
              && next.value.explosions == current.value.explosions
              && next.value.gameStatus == current.value.gameStatus
              && next.value.winner == current.value.winner
              && next.value.timeLeft == current.value.timeLeft
              && (IndexOfPlayer(current.value.players, message.action.playerId).None? ==> next == current)
    ensures message.PlayerAction? && message.action.playerId != self && current.Some? &&
            IndexOfPlayer(current.value.players, message.action.playerId).Some? ==>
              && next.Some?
              && var c, t := current.value, next.value;
                 var i := IndexOfPlayer(c.players, message.action.playerId).value;
                 var p := c.players[i];
                 match message.action
                 case Move(_, x, y) =>
                   t == if CanMoveTo(x, y, c.grid, c.bombs)
                        then c.(players := c.players[i := p.(x := x, y := y)])
                        else c
                 case PlaceBomb(_) =>
                   if p.bombCount < p.maxBombs && !BombAt(c.bombs, p.x, p.y) then
                     t == c.(bombs := c.bombs + [Bomb(p.x, p.y, p.id, BombFuse, p.bombPower)],
                             players := c.players[i := p.(bombCount := p.bombCount + 1)])
                   else
                     t == c
                 case CollectPowerUp(_, x, y) =>
                   (match IndexOfPowerUpAt(c.powerUps, x, y)
                    case None => t == c
                    case Some(j) =>
                      t == c.(powerUps := c.powerUps[..j] + c.powerUps[j + 1..],
                              players := c.players[i := ApplyPowerUp(p, c.powerUps[j].kind)]))
                 case Unrecognised(_) => t == c
  {
    match message
    case GameUpdate(data) =>
      next := Some(data);
    case PlayerAction(action) =>
      if action.playerId != self && current.Some? {
        var t := HandlePlayerAction(current.value, action);
        next := Some(t);
      } else {
        next := current;
      }
    case OtherMessage =>
      next := current;
  }

  // ---------------------------------------------------------------------------
  // The keyboard mapping
  // ---------------------------------------------------------------------------

  /** ASCII lower-casing, as `toLowerCase` acts on the key names used here. */
  function LowerChar(c: char): char {
    if 'A' <= c <= 'Z' then (c as int + 32) as char else c
  }

  function Lower(s: string): (r: string)
    ensures |r| == |s| && forall i :: 0 <= i < |s| ==> r[i] == LowerChar(s[i])
  {
    seq(|s|, i requires 0 <= i < |s| => LowerChar(s[i]))
  }

  /** The switch on `e.key.toLowerCase()`: w/ArrowUp, s/ArrowDown, a/ArrowLeft
      and d/ArrowRight ask for a one-cell step that changes exactly one
      coordinate by one; the space bar asks for a bomb and changes no
      coordinate; any other key does nothing. */
  method KeyToIntent(key: string, x: int, y: int) returns (newX: int, newY: int, shouldMove: bool, shouldPlaceBomb: bool)
    ensures var k := Lower(key);
      && (shouldMove <==> k in {"w", "arrowup", "s", "arrowdown", "a", "arrowleft", "d", "arrowright"})
      && (shouldPlaceBomb <==> k == " ")
      && !(shouldMove && shouldPlaceBomb)
      && (shouldMove ==> Abs(newX - x) + Abs(newY - y) == 1)
      && (!shouldMove ==> newX == x && newY == y)
      && (k == "w" || k == "arrowup" ==> newX == x && newY == y - 1)
      && (k == "s" || k == "arrowdown" ==> newX == x && newY == y + 1)
      && (k == "a" || k == "arrowleft" ==> newX == x - 1 && newY == y)
      && (k == "d" || k == "arrowright" ==> newX == x + 1 && newY == y)
  {
    newX, newY := x, y;
    shouldMove, shouldPlaceBomb := false, false;
    var k := Lower(key);
    if k == "w" || k == "arrowup" {
      newY := y - 1;
      shouldMove := true;
    } else if k == "s" || k == "arrowdown" {
      newY := y + 1;
      shouldMove := true;
    } else if k == "a" || k == "arrowleft" {
      newX := x - 1;
      shouldMove := true;
    } else if k == "d" || k == "arrowright" {
      newX := x + 1;
      shouldMove := true;
    } else if k == " " {
      shouldPlaceBomb := true;
    }
  }
}
