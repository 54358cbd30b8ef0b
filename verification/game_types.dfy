/** The entities of the game (src/types/game.ts) as values.

    Numeric conventions that differ from the source:
    - `speed` is counted in half-steps: 2 stands for the source's 1.0 and the
      cap 6 for 3.0, so a speed pick-up adds 1 instead of 0.5;
    - `timeLeft` is counted in ticks of 1/60 s: 10800 stands for 180 seconds.
    The string ids of bombs, explosions and power-ups (built from Date.now())
    carry no behaviour and are not modelled; player ids are kept. */
module GameTypes {

  datatype Option<+T> = None | Some(value: T)

  type PlayerId = string

  datatype Cell = Wall | Block | Empty

  /** Rows first: `grid[y][x]`. */
  type Grid = seq<seq<Cell>>

  datatype Color = Red | Blue | Green | Yellow

  datatype Player = Player(
    id: PlayerId,
    name: string,
    x: int,
    y: int,
    color: Color,
    isAlive: bool,
    bombCount: nat,
    maxBombs: nat,
    bombPower: nat,
    speed: nat)

  datatype Bomb = Bomb(x: int, y: int, playerId: PlayerId, timer: int, power: nat)

  datatype Direction = Center | Up | Down | Left | Right

  datatype Explosion = Explosion(x: int, y: int, direction: Direction, timer: int)

  /** 'speed' | 'bomb' | 'power' */
  datatype PowerUpKind = Speed | ExtraBomb | BlastPower

  datatype PowerUp = PowerUp(x: int, y: int, kind: PowerUpKind)

  datatype Status = Waiting | Playing | Finished

  datatype GameState = GameState(
    id: string,
    players: seq<Player>,
    bombs: seq<Bomb>,
    explosions: seq<Explosion>,
    powerUps: seq<PowerUp>,
    grid: Grid,
    gameStatus: Status,
    winner: Option<PlayerId>,
    timeLeft: nat)

  datatype GameRoom = GameRoom(
    id: string,
    name: string,
    players: seq<Player>,
    maxPlayers: int,
    status: Status)

  /** Concatenation is associative; stated once so that callers need not
      prove it element by element over large sequence terms. */
  lemma AppendAssoc<T>(a: seq<T>, b: seq<T>, c: seq<T>)
    ensures a + (b + c) == (a + b) + c
  {
  }
}
