/** Pieces, squares and the 8×8 grid the checkers engine of src/Board.jsx plays on,
    together with the starting layout built by `initBoard`. */
module Checkers {

  datatype Option<T> = None | Some(value: T)

  datatype Color = White | Black

  /** The side that moves after `c`. */
  function Opponent(c: Color): (o: Color)
    ensures o != c
  {
    if c == White then Black else White
  }

  datatype Piece = Piece(color: Color, king: bool)

  /** A square; coordinates are unbounded so that rays may walk off the board. */
  datatype Square = Sq(row: int, col: int)

  const Size: int := 8

  predicate InBounds(s: Square) {
    0 <= s.row < Size && 0 <= s.col < Size
  }

  predicate IsGrid(g: seq<seq<Option<Piece>>>) {
    |g| == Size && forall r :: 0 <= r < |g| ==> |g[r]| == Size
  }

  /** The board: eight rows of eight cells, each empty or holding one piece. */
  type Board = g: seq<seq<Option<Piece>>> | IsGrid(g)
    witness seq(Size, r => seq(Size, c => None))

  /** The occupant of a square; squares off the board read as empty. */
  function At(b: Board, s: Square): Option<Piece> {
    if InBounds(s) then b[s.row][s.col] else None
  }

  /** An on-board square with nobody on it (a `null` piece in the source). */
  predicate Empty(b: Board, s: Square) {
    InBounds(s) && At(b, s).None?
  }

  /** `s` holds a piece of colour `c`. */
  predicate Holds(b: Board, s: Square, c: Color) {
    At(b, s).Some? && At(b, s).value.color == c
  }

  /** Dark squares, the only ones the starting layout uses. */
  predicate Playable(s: Square) {
    (s.row + s.col) % 2 == 1
  }

  /** Writes `v` into one on-board square and leaves the other 63 alone. */
  function Put(b: Board, s: Square, v: Option<Piece>): (r: Board)
    requires InBounds(s)
    ensures forall t :: At(r, t) == if t == s then v else At(b, t)
  {
    b[s.row := b[s.row][s.col := v]]
  }

  /** A board with no pieces. */
  function EmptyBoard(): (b: Board)
    ensures forall s :: At(b, s).None?
  {
    seq(Size, r => seq(Size, c => None))
  }

  /** The cell `initBoard` creates at row `r`, column `c`. */
  function InitialCell(r: int, c: int): Option<Piece> {
    if (r + c) % 2 == 1 then
      if r < 3 then Some(Piece(Black, false))
      else if r > 4 then Some(Piece(White, false))
      else None
    else None
  }

  function InitialBoard(): Board {
    seq(Size, r => seq(Size, c => InitialCell(r, c)))
  }

  /** The starting layout: black men on the dark squares of rows 0–2, white men on
      the dark squares of rows 5–7, rows 3 and 4 empty, no kings anywhere. */
  lemma InitialLayout(s: Square)
    requires InBounds(s)
    ensures At(InitialBoard(), s).Some? ==> Playable(s) && !At(InitialBoard(), s).value.king
    ensures Holds(InitialBoard(), s, Black) <==> Playable(s) && s.row <= 2
    ensures Holds(InitialBoard(), s, White) <==> Playable(s) && s.row >= 5
    ensures 3 <= s.row <= 4 ==> At(InitialBoard(), s).None?
  {
  }

  /** Number of pieces of colour `c` in the first `n` cells of a row. */
  function RowCount(row: seq<Option<Piece>>, c: Color, n: nat): nat
    requires n <= |row|
  {
    if n == 0 then 0
    else RowCount(row, c, n - 1) + (if row[n - 1].Some? && row[n - 1].value.color == c then 1 else 0)
  }

  /** Number of pieces of colour `c` in the first `n` rows. */
  function RowsCount(b: Board, c: Color, n: nat): nat
    requires n <= Size
  {
    if n == 0 then 0 else RowsCount(b, c, n - 1) + RowCount(b[n - 1], c, Size)
  }

  /** Number of pieces of colour `c` on the board. */
  function CountPieces(b: Board, c: Color): nat {
    RowsCount(b, c, Size)
  }

  /** In a starting row of colour `c`, a cell holds a piece of that colour exactly
      when it is dark. */
  lemma InitialCellOfRow(r: int, c: Color, k: int)
    requires 0 <= r < Size && 0 <= k < Size
    requires (c == Black && r < 3) || (c == White && r > 4)
    ensures (InitialBoard()[r][k].Some? && InitialBoard()[r][k].value.color == c) == ((r + k) % 2 == 1)
  {
  }

  lemma HalfStep(r: int, k: nat)
    requires 0 <= r
    ensures (k + 1 + r % 2) / 2 == (k + r % 2) / 2 + (if (r + k) % 2 == 1 then 1 else 0)
  {
  }

  /** In a starting row every dark square holds the same colour, so the first `n`
      cells hold one piece per dark square. */
  lemma {:induction false} InitialRowCount(r: int, c: Color, n: nat)
    requires 0 <= r < Size && n <= Size
    requires (c == Black && r < 3) || (c == White && r > 4)
    ensures RowCount(InitialBoard()[r], c, n) == (n + r % 2) / 2
  {
    if n > 0 {
      InitialRowCount(r, c, n - 1);
      InitialCellOfRow(r, c, n - 1);
      HalfStep(r, n - 1);
    }
  }

  /** A starting row holds no piece of colour `c` when it lies outside `c`'s rows. */
  lemma {:induction false} InitialRowEmpty(r: int, c: Color, n: nat)
    requires 0 <= r < Size && n <= Size
    requires !((c == Black && r < 3) || (c == White && r > 4))
    ensures RowCount(InitialBoard()[r], c, n) == 0
  {
    if n > 0 {
      InitialRowEmpty(r, c, n - 1);
    }
  }

  /** Each side starts with twelve men. */
  lemma InitialCounts()
    ensures CountPieces(InitialBoard(), White) == 12
    ensures CountPieces(InitialBoard(), Black) == 12
  {
    var b := InitialBoard();
    forall r | 0 <= r < Size
      ensures RowCount(b[r], Black, Size) == if r < 3 then 4 else 0
      ensures RowCount(b[r], White, Size) == if r > 4 then 4 else 0
    {
      if r < 3 {
        InitialRowCount(r, Black, Size);
        InitialRowEmpty(r, White, Size);
      } else if r > 4 {
        InitialRowCount(r, White, Size);
        InitialRowEmpty(r, Black, Size);
      } else {
        InitialRowEmpty(r, White, Size);
        InitialRowEmpty(r, Black, Size);
      }
    }
  }
}
