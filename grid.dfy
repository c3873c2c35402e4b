/**
 * The 4x4 board: its constants, the centre of a cell (`get_cell_center`), the row-major
 * order of its cells, and the scan that moves the player to the first cell not yet answered.
 */
module Grid {

  const CanvasWidth := 600
  const GridSize := 4
  /** `CANVAS_WIDTH // GRID_SIZE`; both are positive, so floor and Euclidean division agree. */
  const CellSize := CanvasWidth / GridSize
  const TotalCells := GridSize * GridSize
  /** Points won or lost per round. */
  const Points := 10
  /** `MAX_SCORE`: ten points on each of the sixteen cells. */
  const MaxScore := GridSize * GridSize * Points

  datatype Cell = Cell(row: int, col: int)

  predicate InGrid(c: Cell) {
    0 <= c.row < GridSize && 0 <= c.col < GridSize
  }

  /** The position of a cell in row-major order. */
  function Index(c: Cell): int {
    c.row * GridSize + c.col
  }

  /** The cell at a position in row-major order. */
  function CellAt(i: nat): (c: Cell)
    requires i < TotalCells
    ensures InGrid(c) && Index(c) == i
  {
    Cell(i / GridSize, i % GridSize)
  }

  /** Row-major order numbers the board's cells one to one. */
  lemma IndexOfCell(c: Cell)
    requires InGrid(c)
    ensures 0 <= Index(c) < TotalCells && CellAt(Index(c)) == c
  {
    var i := Index(c);
    assert i / GridSize == c.row && i % GridSize == c.col;
  }

  /** The first `k` cells in row-major order. */
  function Prefix(k: nat): set<Cell>
    requires k <= TotalCells
  {
    set i | 0 <= i < k :: CellAt(i)
  }

  /** Every cell of the board. */
  function AllCells(): set<Cell> {
    Prefix(TotalCells)
  }

  lemma PrefixMembers(k: nat, c: Cell)
    requires k <= TotalCells
    ensures c in Prefix(k) <==> InGrid(c) && Index(c) < k
  {
    if InGrid(c) && Index(c) < k {
      IndexOfCell(c);
      assert CellAt(Index(c)) in Prefix(k);
    }
  }

  /** One more cell in row-major order adds one cell. */
  lemma PrefixNext(k: nat)
    requires k < TotalCells
    ensures Prefix(k + 1) == Prefix(k) + {CellAt(k)}
    ensures CellAt(k) !in Prefix(k)
  {
    PrefixMembers(k, CellAt(k));
  }

  lemma {:induction false} PrefixSize(k: nat)
    requires k <= TotalCells
    ensures |Prefix(k)| == k
  {
    if k > 0 {
      PrefixSize(k - 1);
      PrefixNext(k - 1);
    }
  }

  /** The board is exactly the sixteen cells with both coordinates in 0..3. */
  lemma AllCellsAreGrid(c: Cell)
    ensures c in AllCells() <==> InGrid(c)
    ensures |AllCells()| == 16
  {
    PrefixMembers(TotalCells, c);
    PrefixSize(TotalCells);
  }

  /**
   * `get_cell_center(row, col)`: for any row and column, the point half a cell into the
   * square of that cell along both axes, so the square is recovered by dividing by the cell size.
   */
  function CellCenter(row: int, col: int): (r: (int, int))
    ensures r.0 / CellSize == col && r.0 % CellSize == CellSize / 2
    ensures r.1 / CellSize == row && r.1 % CellSize == CellSize / 2
  {
    Offset(col);
    Offset(row);
    (col * CellSize + CellSize / 2, row * CellSize + CellSize / 2)
  }

  /** Half a cell past the start of cell `i` is inside cell `i`, whatever the sign of `i`. */
  lemma Offset(i: int)
    ensures (i * CellSize + CellSize / 2) / CellSize == i
    ensures (i * CellSize + CellSize / 2) % CellSize == CellSize / 2
  {
    assert CellSize == 150;
    var x := i * 150 + 75;
    var q, m := x / 150, x % 150;
    assert x == q * 150 + m && 0 <= m < 150;
  }

  /**
   * On the board, the centre of a cell is `(col*150 + 75, row*150 + 75)`; it lies strictly
   * inside the cell's square and on the board, and the cell is recovered from the centre by
   * dividing by the cell size.
   */
  lemma CellCenterInside(row: int, col: int)
    requires InGrid(Cell(row, col))
    ensures var (x, y) := CellCenter(row, col);
            && x == col * 150 + 75 && y == row * 150 + 75
            && col * CellSize < x < (col + 1) * CellSize
            && row * CellSize < y < (row + 1) * CellSize
            && 0 < x < CanvasWidth && 0 < y < CanvasWidth
            && x / CellSize == col && y / CellSize == row
  {
  }

  /** Distinct cells of the board have distinct centres. */
  lemma CellCenterInjective(a: Cell, b: Cell)
    requires InGrid(a) && InGrid(b) && CellCenter(a.row, a.col) == CellCenter(b.row, b.col)
    ensures a == b
  {
    CellCenterInside(a.row, a.col);
    CellCenterInside(b.row, b.col);
  }

  /**
   * The scan of `main` (lines 184-191): rows top to bottom, columns left to right, stopping
   * at the first cell not in `answered`. When every cell is answered nothing is found and the
   * player stays on `current`.
   */
  method NextUnanswered(answered: set<Cell>, current: Cell) returns (next: Cell, found: bool)
    ensures found ==> InGrid(next) && next !in answered
    ensures found ==> forall c :: InGrid(c) && Index(c) < Index(next) ==> c in answered
    ensures !found ==> next == current && forall c :: InGrid(c) ==> c in answered
  {
    next, found := current, false;
    for r := 0 to GridSize
      invariant !found ==> next == current
      invariant !found ==> forall c :: InGrid(c) && c.row < r ==> c in answered
      invariant found ==> InGrid(next) && next !in answered
      invariant found ==> forall c :: InGrid(c) && Index(c) < Index(next) ==> c in answered
    {
      for col := 0 to GridSize
        invariant !found ==> next == current
        invariant !found ==> forall c :: InGrid(c) && (c.row < r || (c.row == r && c.col < col)) ==> c in answered
        invariant found ==> InGrid(next) && next !in answered && next.row == r
        invariant found ==> forall c :: InGrid(c) && Index(c) < Index(next) ==> c in answered
      {
        if Cell(r, col) !in answered {
          next, found := Cell(r, col), true;
          break;
        }
      }
      if found {
        break;
      }
    }
  }

  /** When the first `k` cells are answered, the scan finds the cell at position `k`. */
  lemma NextOfPrefix(k: nat, next: Cell)
    requires k < TotalCells
    requires InGrid(next) && next !in Prefix(k)
    requires forall c :: InGrid(c) && Index(c) < Index(next) ==> c in Prefix(k)
    ensures next == CellAt(k)
  {
    PrefixMembers(k, next);
    PrefixMembers(k, CellAt(k));
    IndexOfCell(next);
  }

  /** The scan finds nothing exactly when the whole board is answered. */
  lemma CompleteOfPrefix(k: nat)
    requires k <= TotalCells
    ensures (forall c :: InGrid(c) ==> c in Prefix(k)) <==> k == TotalCells
  {
    if k < TotalCells {
      PrefixMembers(k, CellAt(k));
    } else {
      forall c | InGrid(c) ensures c in Prefix(k) {
        PrefixMembers(k, c);
      }
    }
  }
}
