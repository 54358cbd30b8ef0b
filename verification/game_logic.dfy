/** Board and physics helpers (src/utils/gameLogic.ts): grid generation,
    the walkability test, the blast-arm walk, player elimination and block
    destruction with power-up drops.

    `Math.random` is replaced by oracles indexed by cell. The generator draws
    once for each cell outside the fixed rules, and destruction draws for each
    block it destroys, which is at most once per cell in one call. So an oracle
    indexed by cell carries the same information as the source's sequence of
    calls. */
module GameLogic {
  import opened GameTypes

  const GridWidth: int := 13
  const GridHeight: int := 11

  /** Lifetime of every explosion, in ticks. */
  const ExplosionLifetime: int := 30

  /** `roll(x, y)` is the draw `Math.random() < 0.7` made for cell (x, y). */
  type BlockOracle = (int, int) -> bool

  /** `drop(x, y)` is the power-up (if any) dropped when the block at (x, y) is destroyed. */
  type DropOracle = (int, int) -> Option<PowerUpKind>

  predicate InBounds(x: int, y: int) {
    0 <= x < GridWidth && 0 <= y < GridHeight
  }

  /** 11 rows of 13 cells each. */
  predicate GridShape(g: Grid) {
    |g| == GridHeight && forall y :: 0 <= y < |g| ==> |g[y]| == GridWidth
  }

  function At(g: Grid, x: int, y: int): Cell
    requires GridShape(g) && InBounds(x, y)
  {
    g[y][x]
  }

  predicate OnBorder(x: int, y: int) {
    x == 0 || x == GridWidth - 1 || y == 0 || y == GridHeight - 1
  }

  predicate OnLattice(x: int, y: int) {
    x % 2 == 0 && y % 2 == 0
  }

  /** The four 3x3 corner areas where players spawn. */
  predicate InSpawnZone(x: int, y: int) {
    || (x <= 2 && y <= 2)
    || (x >= GridWidth - 3 && y <= 2)
    || (x <= 2 && y >= GridHeight - 3)
    || (x >= GridWidth - 3 && y >= GridHeight - 3)
  }

  /** The structural rules of every grid: walls exactly on the border and on
      the even/even lattice, and no block inside a spawn zone. */
  ghost predicate GridStructure(g: Grid) {
    && GridShape(g)
    && (forall x, y | InBounds(x, y) :: (At(g, x, y) == Wall <==> OnBorder(x, y) || OnLattice(x, y)))
    && (forall x, y | InBounds(x, y) && InSpawnZone(x, y) :: At(g, x, y) != Block)
  }

  // ---------------------------------------------------------------------------
  // Grid generation (createInitialGrid)
  // ---------------------------------------------------------------------------

  /** The cell the generator writes at (x, y). */
  function GeneratedCell(x: int, y: int, roll: BlockOracle): Cell {
    if OnBorder(x, y) then Wall
    else if OnLattice(x, y) then Wall
    else if InSpawnZone(x, y) then Empty
    else if roll(x, y) then Block else Empty
  }

  /** Builds the grid row by row. Every output obeys the structural rules; off
      the walls, a cell is a block exactly when it lies outside the spawn zones
      and its draw says so, and is empty otherwise. */
  method CreateInitialGrid(roll: BlockOracle) returns (grid: Grid)
    ensures GridStructure(grid)
    ensures forall x, y | InBounds(x, y) && !OnBorder(x, y) && !OnLattice(x, y) ::
              At(grid, x, y) == (if !InSpawnZone(x, y) && roll(x, y) then Block else Empty)
  {
    grid := [];
    var y := 0;
    while y < GridHeight
      invariant 0 <= y <= GridHeight && |grid| == y
      invariant forall yy :: 0 <= yy < y ==> |grid[yy]| == GridWidth
      invariant forall yy, xx | 0 <= yy < y && 0 <= xx < GridWidth :: grid[yy][xx] == GeneratedCell(xx, yy, roll)
    {
      var row: seq<Cell> := [];
      var x := 0;
      while x < GridWidth
        invariant 0 <= x <= GridWidth && |row| == x
        invariant forall xx :: 0 <= xx < x ==> row[xx] == GeneratedCell(xx, y, roll)
      {
        var cell: Cell;
        if x == 0 || x == GridWidth - 1 || y == 0 || y == GridHeight - 1 {
          cell := Wall;
        } else if x % 2 == 0 && y % 2 == 0 {
          cell := Wall;
        } else if InSpawnZone(x, y) {
          cell := Empty;
        } else {
          cell := if roll(x, y) then Block else Empty;
        }
        row := row + [cell];
        x := x + 1;
      }
      grid := grid + [row];
      y := y + 1;
    }
  }

  /** The four spawn corners, in join order. Each lies inside a spawn zone and
      off the walls, so it is empty on every grid that keeps the rules. */
  function SpawnPositions(): (r: seq<(int, int)>)
    ensures |r| == 4
    ensures forall i :: 0 <= i < |r| ==>
              InBounds(r[i].0, r[i].1) && InSpawnZone(r[i].0, r[i].1) &&
              !OnBorder(r[i].0, r[i].1) && !OnLattice(r[i].0, r[i].1)
    ensures forall g, i | GridStructure(g) && 0 <= i < |r| :: At(g, r[i].0, r[i].1) == Empty
  {
    [(1, 1), (GridWidth - 2, 1), (1, GridHeight - 2), (GridWidth - 2, GridHeight - 2)]
  }

  // ---------------------------------------------------------------------------
  // Walkability (canMoveTo)
  // ---------------------------------------------------------------------------

  /** `bombs.some(b => b.x === x && b.y === y)` */
  function BombAt(bombs: seq<Bomb>, x: int, y: int): (r: bool)
    ensures r <==> exists b :: b in bombs && b.x == x && b.y == y
  {
    if bombs == [] then false
    else (bombs[0].x == x && bombs[0].y == y) || BombAt(bombs[1..], x, y)
  }

  /** A cell can be entered exactly when it is on the board, empty, and free of bombs. */
  function CanMoveTo(x: int, y: int, grid: Grid, bombs: seq<Bomb>): (r: bool)
    requires GridShape(grid)
    ensures r <==> InBounds(x, y) && At(grid, x, y) == Empty && forall b :: b in bombs ==> !(b.x == x && b.y == y)
  {
    if !InBounds(x, y) then false
    else if grid[y][x] != Empty then false
    else !BombAt(bombs, x, y)
  }

  // ---------------------------------------------------------------------------
  // Blast resolution (createExplosions)
  // ---------------------------------------------------------------------------

  /** `(dx * i, dy * i)` for the unit step of direction `d`. */
  function Offset(d: Direction, i: int): (int, int) {
    match d
    case Up => (0, -i)
    case Down => (0, i)
    case Left => (-i, 0)
    case Right => (i, 0)
    case Center => (0, 0)
  }

  function Abs(n: int): nat {
    if n < 0 then -n else n
  }

  /** The explosions an arm emits from step `i` on: stop before a cell off the
      board or a wall, stop after a block, go on after an empty cell, and
      never go past step `bomb.power`. */
  function Arm(grid: Grid, bomb: Bomb, d: Direction, i: nat): seq<Explosion>
    requires GridShape(grid)
    decreases bomb.power + 1 - i
  {
    if i > bomb.power then []
    else
      var nx := bomb.x + Offset(d, i).0;
      var ny := bomb.y + Offset(d, i).1;
      if !InBounds(nx, ny) || grid[ny][nx] == Wall then []
      else if grid[ny][nx] == Block then [Explosion(nx, ny, d, ExplosionLifetime)]
      else [Explosion(nx, ny, d, ExplosionLifetime)] + Arm(grid, bomb, d, i + 1)
  }

  /** The center explosion followed by the up, down, left and right arms. */
  function Blast(bomb: Bomb, grid: Grid): seq<Explosion>
    requires GridShape(grid)
  {
    [Explosion(bomb.x, bomb.y, Center, ExplosionLifetime)]
    + Arm(grid, bomb, Up, 1) + Arm(grid, bomb, Down, 1)
    + Arm(grid, bomb, Left, 1) + Arm(grid, bomb, Right, 1)
  }

  /** The k-th explosion of an arm walked from step i lies at step i + k (at
      most the bomb's power), on the board, not on a wall, and every cell but
      the arm's last is empty (so a block can only end an arm). */
  lemma {:induction false} ArmShape(grid: Grid, bomb: Bomb, d: Direction, i: nat, k: nat)
    requires GridShape(grid) && 1 <= i && k < |Arm(grid, bomb, d, i)|
    ensures var e := Arm(grid, bomb, d, i)[k];
      && i + k <= bomb.power
      && e == Explosion(bomb.x + Offset(d, i + k).0, bomb.y + Offset(d, i + k).1, d, ExplosionLifetime)
      && InBounds(e.x, e.y) && At(grid, e.x, e.y) != Wall
      && (k + 1 < |Arm(grid, bomb, d, i)| ==> At(grid, e.x, e.y) == Empty)
    decreases k
  {
    if k > 0 {
      ArmShape(grid, bomb, d, i + 1, k - 1);
    }
  }

  lemma {:induction false} ArmLength(grid: Grid, bomb: Bomb, d: Direction, i: nat)
    requires GridShape(grid) && 1 <= i <= bomb.power + 1
    ensures |Arm(grid, bomb, d, i)| <= bomb.power + 1 - i
    decreases bomb.power + 1 - i
  {
    if i <= bomb.power {
      ArmLength(grid, bomb, d, i + 1);
    }
  }

  /** An arm walked from step i has at most power + 1 - i explosions, and when
      it ends before step `bomb.power` it ended for a reason: its last cell is
      a block, or the next step is off the board or a wall. */
  lemma {:induction false} ArmStops(grid: Grid, bomb: Bomb, d: Direction, i: nat)
    requires GridShape(grid) && 1 <= i <= bomb.power + 1
    ensures |Arm(grid, bomb, d, i)| <= bomb.power + 1 - i
    ensures var arm := Arm(grid, bomb, d, i);
      var n := i + |arm|;
      n <= bomb.power ==> Stopped(grid, bomb, d, arm, n)
    decreases bomb.power + 1 - i
  {
    ArmLength(grid, bomb, d, i);
    var arm := Arm(grid, bomb, d, i);
    if i <= bomb.power {
      var nx := bomb.x + Offset(d, i).0;
      var ny := bomb.y + Offset(d, i).1;
      if !InBounds(nx, ny) || grid[ny][nx] == Wall {
        assert arm == [];
      } else if grid[ny][nx] == Block {
        assert arm == [Explosion(nx, ny, d, ExplosionLifetime)];
      } else {
        ArmStops(grid, bomb, d, i + 1);
        var tail := Arm(grid, bomb, d, i + 1);
        assert arm == [Explosion(nx, ny, d, ExplosionLifetime)] + tail;
        if |tail| > 0 {
          assert arm[|arm| - 1] == tail[|tail| - 1];
        }
      }
    }
  }

  /** Why an arm that ends at step n - 1 ended: its last cell is a block, or
      step n is off the board or a wall. */
  ghost predicate Stopped(grid: Grid, bomb: Bomb, d: Direction, arm: seq<Explosion>, n: int)
    requires GridShape(grid)
  {
    || (|arm| > 0 && InBounds(arm[|arm| - 1].x, arm[|arm| - 1].y) &&
        At(grid, arm[|arm| - 1].x, arm[|arm| - 1].y) == Block)
    || !InBounds(bomb.x + Offset(d, n).0, bomb.y + Offset(d, n).1)
    || At(grid, bomb.x + Offset(d, n).0, bomb.y + Offset(d, n).1) == Wall
  }

  /** Every explosion of an arm from step 1 is on the board, off the walls, in
      the bomb's row or column, at distance 1 to power from it. */
  lemma ArmMembers(grid: Grid, bomb: Bomb, d: Direction)
    requires GridShape(grid) && d != Center
    ensures forall e | e in Arm(grid, bomb, d, 1) ::
      && e.direction == d && e.timer == ExplosionLifetime
      && InBounds(e.x, e.y) && At(grid, e.x, e.y) != Wall
      && ((e.x == bomb.x && 1 <= Abs(e.y - bomb.y) <= bomb.power) ||
          (e.y == bomb.y && 1 <= Abs(e.x - bomb.x) <= bomb.power))
  {
    var arm := Arm(grid, bomb, d, 1);
    forall e | e in arm
      ensures && e.direction == d && e.timer == ExplosionLifetime
              && InBounds(e.x, e.y) && At(grid, e.x, e.y) != Wall
              && ((e.x == bomb.x && 1 <= Abs(e.y - bomb.y) <= bomb.power) ||
                  (e.y == bomb.y && 1 <= Abs(e.x - bomb.x) <= bomb.power))
    {
      var k :| 0 <= k < |arm| && arm[k] == e;
      ArmShape(grid, bomb, d, 1, k);
      match d
      case Up =>
      case Down =>
      case Left =>
      case Right =>
    }
  }

  /** What a detonation produces: the center explosion at the bomb's cell
      first, every explosion with lifetime 30, at most 1 + 4 * power of them,
      and every other explosion on the board, off the walls, in the bomb's row
      or column at distance 1 to power. */
  lemma BlastShape(bomb: Bomb, grid: Grid)
    requires GridShape(grid)
    ensures var r := Blast(bomb, grid);
      && 1 <= |r| <= 1 + 4 * bomb.power
      && r[0] == Explosion(bomb.x, bomb.y, Center, ExplosionLifetime)
      && (forall e | e in r :: e.timer == ExplosionLifetime)
      && (forall e | e in r[1..] ::
            && InBounds(e.x, e.y) && At(grid, e.x, e.y) != Wall
            && ((e.x == bomb.x && 1 <= Abs(e.y - bomb.y) <= bomb.power) ||
                (e.y == bomb.y && 1 <= Abs(e.x - bomb.x) <= bomb.power)))
  {
    BlastSize(bomb, grid);
    BlastArms(bomb, grid);
    var r := Blast(bomb, grid);
    forall e | e in r
      ensures e.timer == ExplosionLifetime
    {
      if e != r[0] {
        var k :| 0 <= k < |r| && r[k] == e;
        assert e in r[1..];
      }
    }
  }

  lemma BlastSize(bomb: Bomb, grid: Grid)
    requires GridShape(grid)
    ensures var r := Blast(bomb, grid);
      1 <= |r| <= 1 + 4 * bomb.power && r[0] == Explosion(bomb.x, bomb.y, Center, ExplosionLifetime)
  {
    ArmLength(grid, bomb, Up, 1);
    ArmLength(grid, bomb, Down, 1);
    ArmLength(grid, bomb, Left, 1);
    ArmLength(grid, bomb, Right, 1);
  }

  lemma BlastArms(bomb: Bomb, grid: Grid)
    requires GridShape(grid)
    ensures var r := Blast(bomb, grid);
      |r| >= 1 &&
      forall e | e in r[1..] ::
        && e.timer == ExplosionLifetime
        && InBounds(e.x, e.y) && At(grid, e.x, e.y) != Wall
        && ((e.x == bomb.x && 1 <= Abs(e.y - bomb.y) <= bomb.power) ||
            (e.y == bomb.y && 1 <= Abs(e.x - bomb.x) <= bomb.power))
  {
    var r := Blast(bomb, grid);
    var up, down, left, right := Arm(grid, bomb, Up, 1), Arm(grid, bomb, Down, 1),
                                 Arm(grid, bomb, Left, 1), Arm(grid, bomb, Right, 1);
    assert r[1..] == up + down + left + right;
    ArmMembers(grid, bomb, Up);
    ArmMembers(grid, bomb, Down);
    ArmMembers(grid, bomb, Left);
    ArmMembers(grid, bomb, Right);
  }

  /** One arm of the blast, walked step by step as the source's inner `for`
      loop does, with `break` before a wall or the board's edge and after a block. */
  method WalkArm(bomb: Bomb, grid: Grid, d: Direction) returns (arm: seq<Explosion>)
    requires GridShape(grid)
    ensures arm == Arm(grid, bomb, d, 1)
  {
    arm := [];
    var i := 1;
    while i <= bomb.power
      invariant 1 <= i <= bomb.power + 1
      invariant arm + Arm(grid, bomb, d, i) == Arm(grid, bomb, d, 1)
    {
      var nx := bomb.x + Offset(d, i).0;
      var ny := bomb.y + Offset(d, i).1;
      if nx < 0 || nx >= GridWidth || ny < 0 || ny >= GridHeight {
        assert Arm(grid, bomb, d, i) == [];
        assert arm == arm + Arm(grid, bomb, d, i);
        break;
      }
      if grid[ny][nx] == Wall {
        assert Arm(grid, bomb, d, i) == [];
        assert arm == arm + Arm(grid, bomb, d, i);
        break;
      }
      var e := Explosion(nx, ny, d, ExplosionLifetime);
      if grid[ny][nx] == Block {
        assert Arm(grid, bomb, d, i) == [e];
        arm := arm + [e];
        break;
      }
      assert Arm(grid, bomb, d, i) == [e] + Arm(grid, bomb, d, i + 1);
      AppendAssoc(arm, [e], Arm(grid, bomb, d, i + 1));
      arm := arm + [e];
      i := i + 1;
    }
    if i == bomb.power + 1 {
      assert Arm(grid, bomb, d, i) == [];
      assert arm == arm + Arm(grid, bomb, d, i);
    }
  }

  /** The explosions of a detonating bomb: the center one, then the arms in
      the order up, down, left, right. */
  method CreateExplosions(bomb: Bomb, grid: Grid) returns (explosions: seq<Explosion>)
    requires GridShape(grid)
    ensures explosions == Blast(bomb, grid)
    ensures 1 <= |explosions| <= 1 + 4 * bomb.power
    ensures explosions[0] == Explosion(bomb.x, bomb.y, Center, ExplosionLifetime)
    ensures forall k | 0 <= k < |explosions| :: explosions[k].timer == ExplosionLifetime
    ensures forall k | 1 <= k < |explosions| ::
              InBounds(explosions[k].x, explosions[k].y) && At(grid, explosions[k].x, explosions[k].y) != Wall
  {
    explosions := [Explosion(bomb.x, bomb.y, Center, ExplosionLifetime)];
    var up := WalkArm(bomb, grid, Up);
    explosions := explosions + up;
    var down := WalkArm(bomb, grid, Down);
    explosions := explosions + down;
    var left := WalkArm(bomb, grid, Left);
    explosions := explosions + left;
    var right := WalkArm(bomb, grid, Right);
    explosions := explosions + right;
    BlastShape(bomb, grid);
  }

  // ---------------------------------------------------------------------------
  // Elimination (checkPlayerCollisions)
  // ---------------------------------------------------------------------------

  /** `explosions.some(e => e.x === x && e.y === y)` */
  function HitAt(explosions: seq<Explosion>, x: int, y: int): (r: bool)
    ensures r <==> exists e :: e in explosions && e.x == x && e.y == y
  {
    if explosions == [] then false
    else (explosions[0].x == x && explosions[0].y == y) || HitAt(explosions[1..], x, y)
  }

  function Collide(p: Player, explosions: seq<Explosion>): Player {
    if !p.isAlive then p else p.(isAlive := !HitAt(explosions, p.x, p.y))
  }

  /** Keeps the players and their order, changes nothing but `isAlive`: dead
      players stay dead, and a living player dies exactly when some explosion
      shares its cell. */
  function CheckPlayerCollisions(players: seq<Player>, explosions: seq<Explosion>): (r: seq<Player>)
    ensures |r| == |players|
    ensures forall i :: 0 <= i < |r| ==> r[i].(isAlive := players[i].isAlive) == players[i]
    ensures forall i :: 0 <= i < |r| ==>
              (r[i].isAlive <==>
                 (players[i].isAlive && !exists e :: e in explosions && e.x == players[i].x && e.y == players[i].y))
  {
    seq(|players|, i requires 0 <= i < |players| => Collide(players[i], explosions))
  }

  /** Applying the collision check twice is the same as applying it once. */
  lemma CollisionsIdempotent(players: seq<Player>, explosions: seq<Explosion>)
    ensures CheckPlayerCollisions(CheckPlayerCollisions(players, explosions), explosions)
         == CheckPlayerCollisions(players, explosions)
  {
    var once := CheckPlayerCollisions(players, explosions);
    var twice := CheckPlayerCollisions(once, explosions);
    forall i | 0 <= i < |once|
      ensures twice[i] == once[i]
    {
      assert twice[i].(isAlive := once[i].isAlive) == once[i];
    }
  }

  // ---------------------------------------------------------------------------
  // Destruction (destroyBlocks)
  // ---------------------------------------------------------------------------

  predicate AllInBounds(explosions: seq<Explosion>) {
    forall e | e in explosions :: InBounds(e.x, e.y)
  }

  /** The effect of one explosion on the grid, with the power-up it drops. */
  function DestroyOne(g: Grid, e: Explosion, drop: DropOracle): (Grid, seq<PowerUp>)
    requires GridShape(g) && InBounds(e.x, e.y)
  {
    if g[e.y][e.x] == Block then
      (g[e.y := g[e.y][e.x := Empty]],
       match drop(e.x, e.y)
       case Some(k) => [PowerUp(e.x, e.y, k)]
       case None => [])
    else (g, [])
  }

  /** The grid and the drops after processing the explosions in order. */
  function Destroyed(g: Grid, explosions: seq<Explosion>, drop: DropOracle): (r: (Grid, seq<PowerUp>))
    requires GridShape(g) && AllInBounds(explosions)
    ensures GridShape(r.0)
    decreases |explosions|
  {
    if explosions == [] then (g, [])
    else
      var before := Destroyed(g, explosions[..|explosions| - 1], drop);
      var step := DestroyOne(before.0, explosions[|explosions| - 1], drop);
      (step.0, before.1 + step.1)
  }

  /** Destruction turns exactly the covered blocks into empty cells and leaves
      every other cell alone; each drop sits on such a cell with the kind its
      draw chose, no two drops share a cell even where explosions overlap, and
      every destroyed block whose draw chose a kind has its drop. */
  lemma {:induction false} DestroyedSpec(g: Grid, explosions: seq<Explosion>, drop: DropOracle)
    requires GridShape(g) && AllInBounds(explosions)
    ensures var r := Destroyed(g, explosions, drop);
      && (forall x, y | InBounds(x, y) ::
            At(r.0, x, y) == if At(g, x, y) == Block && HitAt(explosions, x, y) then Empty else At(g, x, y))
      && (forall p | p in r.1 ::
            InBounds(p.x, p.y) && At(g, p.x, p.y) == Block && HitAt(explosions, p.x, p.y) &&
            drop(p.x, p.y) == Some(p.kind))
      && (forall i, j | 0 <= i < j < |r.1| :: (r.1[i].x, r.1[i].y) != (r.1[j].x, r.1[j].y))
      && (forall x, y | InBounds(x, y) && At(g, x, y) == Block && HitAt(explosions, x, y) && drop(x, y).Some? ::
            PowerUp(x, y, drop(x, y).value) in r.1)
    decreases |explosions|
  {
    if explosions != [] {
      var n := |explosions| - 1;
      var front, e := explosions[..n], explosions[n];
      assert explosions == front + [e];
      DestroyedSpec(g, front, drop);
      var before := Destroyed(g, front, drop);
      var step := DestroyOne(before.0, e, drop);
      forall x, y | InBounds(x, y)
        ensures HitAt(explosions, x, y) <==> HitAt(front, x, y) || (e.x == x && e.y == y)
      {
        HitAtSnoc(front, e, x, y);
      }
      var r := Destroyed(g, explosions, drop);
      assert r == (step.0, before.1 + step.1);
      if At(before.0, e.x, e.y) == Block {
        assert !HitAt(front, e.x, e.y);
        assert forall p | p in step.1 :: p.x == e.x && p.y == e.y;
        AppendApart(before.1, step.1);
      } else {
        assert before.1 + step.1 == before.1;
      }
    }
  }

  /** Destruction only turns blocks into empty cells: an empty cell stays
      empty, and every explosion off the walls ends up on an empty cell. */
  lemma DestroyedClears(g: Grid, explosions: seq<Explosion>, drop: DropOracle)
    requires GridShape(g) && AllInBounds(explosions)
    ensures var r := Destroyed(g, explosions, drop).0;
      forall x, y | InBounds(x, y) && At(g, x, y) == Empty :: At(r, x, y) == Empty
    ensures var r := Destroyed(g, explosions, drop).0;
      forall e | e in explosions && At(g, e.x, e.y) != Wall :: At(r, e.x, e.y) == Empty
  {
    DestroyedSpec(g, explosions, drop);
    forall e | e in explosions
      ensures HitAt(explosions, e.x, e.y)
    {
    }
  }

  lemma HitAtSnoc(front: seq<Explosion>, e: Explosion, x: int, y: int)
    ensures HitAt(front + [e], x, y) <==> HitAt(front, x, y) || (e.x == x && e.y == y)
  {
    if HitAt(front + [e], x, y) {
      var w :| w in front + [e] && w.x == x && w.y == y;
      if w != e {
        assert w in front;
      }
    }
    if HitAt(front, x, y) {
      var w :| w in front && w.x == x && w.y == y;
      assert w in front + [e];
    }
  }

  /** Two lists of power-ups, each with distinct cells and sharing no cell,
      still have distinct cells when joined. */
  lemma AppendApart(a: seq<PowerUp>, b: seq<PowerUp>)
    requires forall i, j | 0 <= i < j < |a| :: (a[i].x, a[i].y) != (a[j].x, a[j].y)
    requires forall i, j | 0 <= i < j < |b| :: (b[i].x, b[i].y) != (b[j].x, b[j].y)
    requires forall p, q | p in a && q in b :: (p.x, p.y) != (q.x, q.y)
    ensures forall i, j | 0 <= i < j < |a + b| :: ((a + b)[i].x, (a + b)[i].y) != ((a + b)[j].x, (a + b)[j].y)
  {
    var c := a + b;
    forall i, j | 0 <= i < j < |c|
      ensures (c[i].x, c[i].y) != (c[j].x, c[j].y)
    {
      if j < |a| {
        assert c[i] == a[i] && c[j] == a[j];
      } else if i >= |a| {
        assert c[i] == b[i - |a|] && c[j] == b[j - |a|];
      } else {
        assert c[i] in a && c[j] in b;
      }
    }
  }

  /** Copies the grid and processes the explosions one by one, turning each
      covered block empty and collecting the drops. The input grid is a value
      and is left as it was. */
  method DestroyBlocks(grid: Grid, explosions: seq<Explosion>, drop: DropOracle)
    returns (newGrid: Grid, powerUps: seq<PowerUp>)
    requires GridShape(grid) && AllInBounds(explosions)
    ensures (newGrid, powerUps) == Destroyed(grid, explosions, drop)
    ensures GridShape(newGrid)
    ensures forall x, y | InBounds(x, y) ::
              At(newGrid, x, y) == if At(grid, x, y) == Block && HitAt(explosions, x, y) then Empty else At(grid, x, y)
    ensures forall p | p in powerUps ::
              InBounds(p.x, p.y) && At(grid, p.x, p.y) == Block && HitAt(explosions, p.x, p.y)
    ensures forall i, j | 0 <= i < j < |powerUps| :: (powerUps[i].x, powerUps[i].y) != (powerUps[j].x, powerUps[j].y)
    ensures GridStructure(grid) ==> GridStructure(newGrid)
  {
    newGrid := grid;
    powerUps := [];
    var i := 0;
    while i < |explosions|
      invariant 0 <= i <= |explosions|
      invariant GridShape(newGrid)
      invariant (newGrid, powerUps) == Destroyed(grid, explosions[..i], drop)
    {
      var e := explosions[i];
      assert explosions[..i + 1][..i] == explosions[..i];
      assert explosions[..i + 1][i] == e;
      ghost var step := DestroyOne(newGrid, e, drop);
      assert Destroyed(grid, explosions[..i + 1], drop) == (step.0, powerUps + step.1);
      if newGrid[e.y][e.x] == Block {
        newGrid := newGrid[e.y := newGrid[e.y][e.x := Empty]];
        match drop(e.x, e.y)
        case Some(k) =>
          powerUps := powerUps + [PowerUp(e.x, e.y, k)];
        case None =>
          assert powerUps + step.1 == powerUps;
      } else {
        assert powerUps + step.1 == powerUps;
      }
      i := i + 1;
    }
    assert explosions[..i] == explosions;
    DestroyedSpec(grid, explosions, drop);
  }
}
