/** The shared vocabulary of the game: players, cells, coordinates, boards and
    the game-state record (src/types/game.ts). */
module Types {

  /** The two sides; black moves first. */
  datatype Player = Black | White

  /** A board cell: empty (`null` in the source) or a stone of one side. */
  datatype Cell = Empty | Stone(owner: Player)

  /** A coordinate; rows and columns are unbounded integers so that
      out-of-range coordinates can be written down and rejected. */
  datatype Coord = Coord(row: int, col: int)

  /** `T | null` in the source. */
  datatype Option<T> = None | Some(value: T)

  /** Side length of the board (BOARD_SIZE). */
  const N: int := 15

  /** A board is N rows of N cells. */
  predicate IsSquare(rows: seq<seq<Cell>>) {
    |rows| == N && forall r :: 0 <= r < N ==> |rows[r]| == N
  }

  type Board = rows: seq<seq<Cell>> | IsSquare(rows)
    witness seq(N, _ => seq(N, _ => Empty))

  /** The position snapshot kept by the game. */
  datatype GameState = GameState(
    board: Board,
    currentPlayer: Player,
    moveCount: int,
    lastMove: Option<Coord>,
    isGameOver: bool,
    winner: Option<Player>)
}
