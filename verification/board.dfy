/** The 9x9 board: coordinates, grids of cell values, and the row/column/box
    topology that every other part of the engine is phrased in. */
module Board {

  /** Number of rows (and of columns) on the board. */
  const GridSize: int := 9
  /** Side of one of the nine non-overlapping boxes. */
  const BoxSize: int := 3

  datatype Option<+T> = None | Some(value: T)

  /** A (row, column) pair; the engine only ever builds in-grid ones. */
  datatype Coord = Coord(row: int, col: int)

  predicate InGrid(q: Coord) {
    0 <= q.row < GridSize && 0 <= q.col < GridSize
  }

  /** A coordinate that names an actual cell of the board. */
  type Cell = q: Coord | InGrid(q) witness Coord(0, 0)

  predicate IsGrid(g: seq<seq<int>>) {
    |g| == GridSize && forall r :: 0 <= r < |g| ==> |g[r]| == GridSize
  }

  /** A 9x9 board of cell values; 0 stands for an empty cell. */
  type Grid = g: seq<seq<int>> | IsGrid(g) witness seq(9, _ => seq(9, _ => 0))

  function At(g: Grid, q: Cell): int {
    g[q.row][q.col]
  }

  /** The board with the one cell `q` set to `v`. */
  function Update(g: Grid, q: Cell, v: int): (g': Grid)
    ensures At(g', q) == v
    ensures forall p: Cell :: p != q ==> At(g', p) == At(g, p)
  {
    g[q.row := g[q.row][q.col := v]]
  }

  /** First row (or column) of the box holding row (or column) `i`. */
  function BoxStart(i: int): int {
    (i / BoxSize) * BoxSize
  }

  predicate SameBox(a: Coord, b: Coord) {
    a.row / BoxSize == b.row / BoxSize && a.col / BoxSize == b.col / BoxSize
  }

  /** `a` and `b` are distinct cells that share a row, a column or a box:
      the cells that constrain each other under the rules of Sudoku. */
  predicate Peer(a: Coord, b: Coord) {
    a != b && (a.row == b.row || a.col == b.col || SameBox(a, b))
  }

  /** Every cell of the board. */
  const AllCells: set<Coord> := set r, c | 0 <= r < GridSize && 0 <= c < GridSize :: Coord(r, c)

  lemma AllCellsAreExactlyTheGrid()
    ensures forall q :: q in AllCells <==> InGrid(q)
  {
  }

  /** Position of a cell in a row-major scan of the board. */
  function ScanIndex(q: Coord): int {
    q.row * GridSize + q.col
  }

  /** A row `r` and column `c` in which a nested row-by-row scan has already
      visited `q`. */
  predicate ScannedBefore(q: Coord, r: int, c: int) {
    q.row < r || (q.row == r && q.col < c)
  }
}
