/** The Game of Life board of `src/main.rs`: a grid of byte cells indexed
    `board[x][y]` (`x` selects one of the outer rows), updated in place. */
module Life {
  import opened Bytes

  type Board = seq<seq<Byte>>

  /** Every row is as long as the first; `Conway::new` only builds such boards
      and no operation changes a row's length. */
  predicate Rectangular(b: Board)
  {
    forall i :: 0 <= i < |b| ==> |b[i]| == |b[0]|
  }

  /** Length of the inner rows (0 for a board without rows). */
  function Height(b: Board): nat
  {
    if |b| == 0 then 0 else |b[0]|
  }

  /** Every cell is 0 (dead) or 1 (alive). */
  predicate Binary(b: Board)
  {
    forall i, j :: 0 <= i < |b| && 0 <= j < |b[i]| ==> b[i][j] <= 1
  }

  predicate InBoard(b: Board, x: int, y: int)
  {
    0 <= x < |b| && 0 <= y < |b[x]|
  }

  /** The board with cell `[x][y]` replaced by `v`. */
  function WithCell(b: Board, x: nat, y: nat, v: Byte): (r: Board)
    requires InBoard(b, x, y)
    ensures |r| == |b| && forall i :: 0 <= i < |b| ==> |r[i]| == |b[i]|
    ensures forall i, j :: InBoard(b, i, j) ==> r[i][j] == if i == x && j == y then v else b[i][j]
  {
    var row: seq<Byte> := b[x][y := v];
    b[x := row]
  }

  /** 1 when `[i][j]` lies on the board and holds exactly 1, otherwise 0:
      the bounds are those `check_neighbors` tests, the row length being
      taken from row 0. */
  function LiveAt(b: Board, i: int, j: int): (n: nat)
    requires Rectangular(b)
    ensures n <= 1
  {
    if 0 <= i < |b| && 0 <= j < Height(b) && b[i][j] == 1 then 1 else 0
  }

  /** The eight Moore offsets, in the order `check_neighbors` visits them
      (`x_offset` outer, `y_offset` inner, the centre skipped). */
  const MooreOffsets: seq<(int, int)> :=
    [(-1, -1), (-1, 0), (-1, 1), (0, -1), (0, 1), (1, -1), (1, 0), (1, 1)]

  /** Number of offsets in `offs` that lead from `[x][y]` to a live cell. */
  function CountLive(b: Board, x: int, y: int, offs: seq<(int, int)>): nat
    requires Rectangular(b)
  {
    if offs == [] then 0
    else CountLive(b, x, y, offs[..|offs| - 1]) + LiveAt(b, x + offs[|offs| - 1].0, y + offs[|offs| - 1].1)
  }

  /** What `check_neighbors(x, y)` returns: the live cells among the in-bounds
      Moore neighbours of `[x][y]`. */
  function NeighborCount(b: Board, x: int, y: int): nat
    requires Rectangular(b)
  {
    CountLive(b, x, y, MooreOffsets)
  }

  /** No more cells are counted than offsets are tried. */
  lemma {:induction false} CountLiveAtMost(b: Board, x: int, y: int, offs: seq<(int, int)>)
    requires Rectangular(b)
    ensures CountLive(b, x, y, offs) <= |offs|
    decreases |offs|
  {
    if offs != [] {
      CountLiveAtMost(b, x, y, offs[..|offs| - 1]);
    }
  }

  /** The count is zero exactly when none of the offsets reaches a live cell. */
  lemma {:induction false} CountLiveZero(b: Board, x: int, y: int, offs: seq<(int, int)>)
    requires Rectangular(b)
    ensures CountLive(b, x, y, offs) == 0 <==>
      forall k :: 0 <= k < |offs| ==> LiveAt(b, x + offs[k].0, y + offs[k].1) == 0
    decreases |offs|
  {
    if offs != [] {
      var init := offs[..|offs| - 1];
      CountLiveZero(b, x, y, init);
      assert forall k :: 0 <= k < |init| ==> init[k] == offs[k];
    }
  }

  /** Counting one more offset adds that offset's cell. */
  lemma CountLiveNext(b: Board, x: int, y: int, offs: seq<(int, int)>, k: nat)
    requires Rectangular(b) && k < |offs|
    ensures CountLive(b, x, y, offs[..k + 1]) ==
      CountLive(b, x, y, offs[..k]) + LiveAt(b, x + offs[k].0, y + offs[k].1)
  {
    assert offs[..k + 1][..k] == offs[..k];
  }

  /** The neighbour count is the sum of the eight neighbouring cells, and so
      at most 8. */
  lemma NeighborCountSum(b: Board, x: int, y: int)
    requires Rectangular(b)
    ensures NeighborCount(b, x, y) ==
      LiveAt(b, x - 1, y - 1) + LiveAt(b, x - 1, y) + LiveAt(b, x - 1, y + 1) +
      LiveAt(b, x, y - 1) + LiveAt(b, x, y + 1) +
      LiveAt(b, x + 1, y - 1) + LiveAt(b, x + 1, y) + LiveAt(b, x + 1, y + 1)
    ensures NeighborCount(b, x, y) <= 8
  {
    var m := MooreOffsets;
    assert m[..8] == m;
    CountLiveNext(b, x, y, m, 7);
    CountLiveNext(b, x, y, m, 6);
    CountLiveNext(b, x, y, m, 5);
    CountLiveNext(b, x, y, m, 4);
    CountLiveNext(b, x, y, m, 3);
    CountLiveNext(b, x, y, m, 2);
    CountLiveNext(b, x, y, m, 1);
    CountLiveNext(b, x, y, m, 0);
    assert m[..0] == [];
  }

  /** The neighbour count is zero exactly when no in-bounds neighbour is alive. */
  lemma NeighborCountZero(b: Board, x: int, y: int)
    requires Rectangular(b)
    ensures NeighborCount(b, x, y) == 0 <==>
      forall i, j :: InBoard(b, i, j) && -1 <= i - x <= 1 && -1 <= j - y <= 1 && (i, j) != (x, y) ==> b[i][j] != 1
  {
    NeighborCountSum(b, x, y);
  }

  /** The life rule as `tick` applies it to one cell: a cell that is not 1 with
      three live neighbours becomes 1, a cell that is 1 with a count other than
      2 or 3 becomes 0, and every other cell keeps its value. */
  function NextCell(cell: Byte, count: nat): Byte
  {
    if cell != 1 && count == 3 then 1
    else if cell == 1 && count != 2 && count != 3 then 0
    else cell
  }

  /** On a 0/1 cell the rule is the usual birth-on-three, survive-on-two-or-three
      rule: the cell is alive afterwards exactly when it has three live
      neighbours, or two and was alive already. */
  lemma NextCellRule(cell: Byte, count: nat)
    requires cell <= 1
    ensures NextCell(cell, count) <= 1
    ensures NextCell(cell, count) == 1 <==> count == 3 || (cell == 1 && count == 2)
  {
  }

  /** `tick`'s update of cell `[x][y]`; the count is taken at the swapped
      position `(y, x)`, as `check_neighbors(y, x)` is called. */
  function StepCell(b: Board, x: nat, y: nat): (r: Board)
    requires Rectangular(b) && InBoard(b, x, y)
    ensures Rectangular(r) && |r| == |b| && Height(r) == Height(b)
    ensures Binary(b) ==> Binary(r)
  {
    WithCell(b, x, y, NextCell(b[x][y], NeighborCount(b, y, x)))
  }

  /** The board after `tick` has visited cells `[x][0..k)` of row `x`, starting from `b`. */
  function TickRow(b: Board, x: nat, k: nat): (r: Board)
    requires Rectangular(b) && x < |b| && k <= Height(b)
    ensures Rectangular(r) && |r| == |b| && Height(r) == Height(b)
    ensures Binary(b) ==> Binary(r)
  {
    if k == 0 then b else StepCell(TickRow(b, x, k - 1), x, k - 1)
  }

  /** Visiting one more cell of row `x` applies the rule to it on the board
      as it stands. */
  lemma TickRowNext(b: Board, x: nat, k: nat)
    requires Rectangular(b) && x < |b| && k < Height(b)
    ensures var r := TickRow(b, x, k);
      TickRow(b, x, k + 1) == WithCell(r, x, k, NextCell(r[x][k], NeighborCount(r, k, x)))
  {
  }

  /** The board after `tick` has visited rows `[0..m)` in order, starting from `b`. */
  function TickRows(b: Board, m: nat): (r: Board)
    requires Rectangular(b) && m <= |b|
    ensures Rectangular(r) && |r| == |b| && Height(r) == Height(b)
    ensures Binary(b) ==> Binary(r)
  {
    if m == 0 then b else TickRow(TickRows(b, m - 1), m - 1, Height(b))
  }

  /** The board after one whole `tick`: every cell updated in row-major order,
      in place, each update seeing those before it. */
  function Generation(b: Board): (r: Board)
    requires Rectangular(b)
    ensures Rectangular(r) && |r| == |b| && Height(r) == Height(b)
    ensures Binary(b) ==> Binary(r)
  {
    TickRows(b, |b|)
  }

  /** Two rectangular boards of the same size that agree on every cell are equal. */
  lemma SameCells(a: Board, b: Board)
    requires Rectangular(a) && Rectangular(b) && |a| == |b| && Height(a) == Height(b)
    requires forall i, j :: 0 <= i < |a| && 0 <= j < Height(a) ==> a[i][j] == b[i][j]
    ensures a == b
  {
    forall i | 0 <= i < |a| ensures a[i] == b[i] {
      assert |a[i]| == Height(a) == |b[i]|;
    }
  }

  /** Writing a cell's own value back changes nothing. */
  lemma WithCellSame(b: Board, x: nat, y: nat)
    requires InBoard(b, x, y)
    ensures WithCell(b, x, y, b[x][y]) == b
  {
    assert b[x][y := b[x][y]] == b[x];
  }

  /** The board at the moment `tick` reaches cell `[x][y]`. */
  function Before(b: Board, x: nat, y: nat): Board
    requires Rectangular(b) && x < |b| && y <= Height(b)
  {
    TickRow(TickRows(b, x), x, y)
  }

  /** Updating cell `[x][y]` changes no other row and no other cell of row `x`. */
  lemma StepCellFrame(b: Board, x: nat, y: nat)
    requires Rectangular(b) && InBoard(b, x, y)
    ensures forall i :: 0 <= i < |b| && i != x ==> StepCell(b, x, y)[i] == b[i]
    ensures forall j :: 0 <= j < Height(b) && j != y ==> StepCell(b, x, y)[x][j] == b[x][j]
  {
  }

  /** Walking along row `x` changes no other row. */
  lemma {:induction false} TickRowOtherRows(b: Board, x: nat, k: nat)
    requires Rectangular(b) && x < |b| && k <= Height(b)
    ensures forall i :: 0 <= i < |b| && i != x ==> TickRow(b, x, k)[i] == b[i]
    decreases k
  {
    if k > 0 {
      TickRowOtherRows(b, x, k - 1);
      StepCellFrame(TickRow(b, x, k - 1), x, k - 1);
    }
  }

  /** Walking along row `x` up to column `k` leaves the cells from `k` on as they were. */
  lemma {:induction false} TickRowLaterCells(b: Board, x: nat, k: nat)
    requires Rectangular(b) && x < |b| && k <= Height(b)
    ensures forall j :: k <= j < Height(b) ==> TickRow(b, x, k)[x][j] == b[x][j]
    decreases k
  {
    if k > 0 {
      TickRowLaterCells(b, x, k - 1);
      StepCellFrame(TickRow(b, x, k - 1), x, k - 1);
    }
  }

  /** Walking along row `x` leaves each visited cell as its own update set it. */
  lemma {:induction false} TickRowVisitedCells(b: Board, x: nat, k: nat)
    requires Rectangular(b) && x < |b| && k <= Height(b)
    ensures forall j :: 0 <= j < k ==> TickRow(b, x, k)[x][j] == TickRow(b, x, j + 1)[x][j]
    decreases k
  {
    if k > 0 {
      TickRowVisitedCells(b, x, k - 1);
      var prev := TickRow(b, x, k - 1);
      StepCellFrame(prev, x, k - 1);
      forall j | 0 <= j < k
        ensures TickRow(b, x, k)[x][j] == TickRow(b, x, j + 1)[x][j]
      {
        if j < k - 1 {
          assert TickRow(b, x, k)[x][j] == prev[x][j];
        }
      }
    }
  }

  /** Walking along row `x` changes nothing outside row `x`, nothing at or past
      column `k`, and leaves each visited cell as its own update set it. */
  lemma TickRowCells(b: Board, x: nat, k: nat)
    requires Rectangular(b) && x < |b| && k <= Height(b)
    ensures forall i :: 0 <= i < |b| && i != x ==> TickRow(b, x, k)[i] == b[i]
    ensures forall j :: k <= j < Height(b) ==> TickRow(b, x, k)[x][j] == b[x][j]
    ensures forall j :: 0 <= j < k ==> TickRow(b, x, k)[x][j] == TickRow(b, x, j + 1)[x][j]
  {
    TickRowOtherRows(b, x, k);
    TickRowLaterCells(b, x, k);
    TickRowVisitedCells(b, x, k);
  }

  /** Walking rows `[0..m)` leaves rows from `m` on untouched and each visited
      row as its own walk left it. */
  lemma {:induction false} TickRowsRows(b: Board, m: nat)
    requires Rectangular(b) && m <= |b|
    ensures forall i :: m <= i < |b| ==> TickRows(b, m)[i] == b[i]
    ensures forall i :: 0 <= i < m ==> TickRows(b, m)[i] == TickRows(b, i + 1)[i]
    decreases m
  {
    if m > 0 {
      TickRowsRows(b, m - 1);
      TickRowCells(TickRows(b, m - 1), m - 1, Height(b));
    }
  }

  /** When `tick` reaches `[x][y]`, the cells before it in row-major order
      already hold their new values and the cells from it on still hold their
      old ones. */
  lemma BeforeCells(b: Board, x: nat, y: nat, i: nat, j: nat)
    requires Rectangular(b) && x < |b| && y <= Height(b)
    requires i < |b| && j < Height(b)
    ensures Before(b, x, y)[i][j] ==
      if i < x || (i == x && j < y) then Generation(b)[i][j] else b[i][j]
  {
    var rows := TickRows(b, x);
    TickRowsRows(b, x);
    TickRowsRows(b, |b|);
    TickRowCells(rows, x, y);
    if i < x {
      TickRowsRows(b, x);
    } else if i == x && j < y {
      var full := TickRows(b, x + 1);
      assert full == TickRow(rows, x, Height(b));
      TickRowCells(rows, x, Height(b));
    }
  }

  /** The cell `[x][y]` of the next generation is the rule applied to the cell's
      old value and to the neighbour count of `(y, x)` on the board as `tick`
      has left it so far. */
  lemma GenerationCell(b: Board, x: nat, y: nat)
    requires Rectangular(b) && x < |b| && y < Height(b)
    ensures Generation(b)[x][y] == NextCell(b[x][y], NeighborCount(Before(b, x, y), y, x))
  {
    BeforeCells(b, x, y, x, y);
    BeforeCells(b, x, y + 1, x, y);
  }

  /** A board is left unchanged by `tick` exactly when no cell changes under
      the rule evaluated on the board itself. */
  lemma StillLife(b: Board)
    requires Rectangular(b)
    ensures Generation(b) == b <==> Stable(b)
  {
    if Generation(b) == b {
      forall x, y | 0 <= x < |b| && 0 <= y < Height(b)
        ensures NextCell(b[x][y], NeighborCount(b, y, x)) == b[x][y]
      {
        var mid := Before(b, x, y);
        forall i, j | 0 <= i < |b| && 0 <= j < Height(b) ensures mid[i][j] == b[i][j] {
          BeforeCells(b, x, y, i, j);
        }
        SameCells(mid, b);
        GenerationCell(b, x, y);
      }
    } else if Stable(b) {
      StableRows(b, |b|);
    }
  }

  /** Stable cells: the rule leaves every cell of `b` as it is. */
  predicate Stable(b: Board)
    requires Rectangular(b)
  {
    forall x, y {:trigger NeighborCount(b, y, x)} :: 0 <= x < |b| && 0 <= y < Height(b) ==> NextCell(b[x][y], NeighborCount(b, y, x)) == b[x][y]
  }

  /** On a board whose cells are all stable, walking a row changes nothing. */
  lemma {:induction false} StableRow(b: Board, x: nat, k: nat)
    requires Rectangular(b) && Stable(b) && x < |b| && k <= Height(b)
    ensures TickRow(b, x, k) == b
    decreases k
  {
    if k > 0 {
      StableRow(b, x, k - 1);
      StableCell(b, x, k - 1);
    }
  }

  /** On a board whose cells are all stable, updating one cell changes nothing. */
  lemma StableCell(b: Board, x: nat, y: nat)
    requires Rectangular(b) && Stable(b) && InBoard(b, x, y)
    ensures StepCell(b, x, y) == b
  {
    assert NextCell(b[x][y], NeighborCount(b, y, x)) == b[x][y];
    WithCellSame(b, x, y);
  }

  /** On a board whose cells are all stable, walking rows changes nothing. */
  lemma {:induction false} StableRows(b: Board, m: nat)
    requires Rectangular(b) && Stable(b) && m <= |b|
    ensures TickRows(b, m) == b
    decreases m
  {
    if m > 0 {
      StableRows(b, m - 1);
      StableRow(b, m - 1, Height(b));
    }
  }

  /** The vertical blinker of three live cells `[0][1]`, `[1][1]`, `[2][1]`
      on a 3x3 board is left exactly as it is by `tick` as written (in place,
      with the swapped neighbour count); the textbook rule would turn it into
      the horizontal line `[1][0]`, `[1][1]`, `[1][2]`. */
  lemma BlinkerIsStill()
    ensures Generation([[0, 1, 0], [0, 1, 0], [0, 1, 0]]) == [[0, 1, 0], [0, 1, 0], [0, 1, 0]]
  {
    var b: Board := [[0, 1, 0], [0, 1, 0], [0, 1, 0]];
    forall x, y | 0 <= x < 3 && 0 <= y < 3
      ensures NextCell(b[x][y], NeighborCount(b, y, x)) == b[x][y]
    {
      NeighborCountSum(b, y, x);
    }
    StillLife(b);
  }

  /** What `toggle_cell_state` leaves: cell `[x][y]` becomes 1 if it was 0 and
      0 otherwise. */
  function Toggled(b: Board, x: nat, y: nat): (r: Board)
    requires InBoard(b, x, y)
    ensures |r| == |b| && InBoard(r, x, y)
    ensures r[x][y] == 0 <==> b[x][y] != 0
  {
    WithCell(b, x, y, if b[x][y] == 0 then 1 else 0)
  }

  /** Toggling flips a 0/1 cell and changes no other cell. */
  lemma ToggleFlips(b: Board, x: nat, y: nat)
    requires InBoard(b, x, y) && b[x][y] <= 1
    ensures |Toggled(b, x, y)| == |b| && forall i :: 0 <= i < |b| ==> |Toggled(b, x, y)[i]| == |b[i]|
    ensures Toggled(b, x, y)[x][y] == 1 - b[x][y]
    ensures forall i, j :: InBoard(b, i, j) && (i, j) != (x, y) ==> Toggled(b, x, y)[i][j] == b[i][j]
  {
  }

  /** Toggling the same 0/1 cell twice restores the board. */
  lemma ToggleTwice(b: Board, x: nat, y: nat)
    requires InBoard(b, x, y) && b[x][y] <= 1
    ensures InBoard(Toggled(b, x, y), x, y) && Toggled(Toggled(b, x, y), x, y) == b
  {
    var t := Toggled(b, x, y);
    assert t[x][y] == 1 - b[x][y];
    assert Toggled(t, x, y)[x] == b[x];
  }

  /** The `Conway` struct: the board and the `running` flag set by the start button. */
  class Conway {
    var running: bool
    var board: Board

    ghost predicate Valid()
      reads this
    {
      Rectangular(board)
    }

    /** `Conway::new(x_size, y_size)`: `x_size` rows of `y_size` dead cells, not running. */
    constructor (xSize: Byte, ySize: Byte)
      ensures Valid() && !running
      ensures |board| == xSize && forall i :: 0 <= i < xSize ==> |board[i]| == ySize
      ensures forall i, j :: 0 <= i < xSize && 0 <= j < ySize ==> board[i][j] == 0
    {
      var rows: Board := [];
      for i := 0 to xSize
        invariant |rows| == i
        invariant forall r :: 0 <= r < i ==> |rows[r]| == ySize
        invariant forall r, c :: 0 <= r < i && 0 <= c < ySize ==> rows[r][c] == 0
      {
        var row: seq<Byte> := [];
        for j := 0 to ySize
          invariant |row| == j && forall c :: 0 <= c < j ==> row[c] == 0
        {
          row := row + [0];
        }
        rows := rows + [row];
      }
      running := false;
      board := rows;
    }

    /** `check_neighbors(x, y)`: counts the live cells among the in-bounds Moore
        neighbours of `[x][y]`. */
    method CheckNeighbors(x: nat, y: nat) returns (neighborCount: Byte)
      requires Valid()
      ensures neighborCount == NeighborCount(board, x, y)
    {
      neighborCount := 0;
      for xOffset := -1 to 2
        invariant neighborCount == CountLive(board, x, y, MooreOffsets[..Visited(xOffset, -1)])
      {
        for yOffset := -1 to 2
          invariant neighborCount == CountLive(board, x, y, MooreOffsets[..Visited(xOffset, yOffset)])
        {
          if xOffset == 0 && yOffset == 0 {
            continue;
          }
          ProbeStep(board, x, y, xOffset, yOffset);
          var finalX := x + xOffset;
          var finalY := y + yOffset;
          if finalX < 0 {
            continue;
          }
          if finalY < 0 {
            continue;
          }
          if finalX > |board| - 1 {
            continue;
          }
          if finalY > |board[0]| - 1 {
            continue;
          }
          if board[finalX][finalY] == 1 {
            neighborCount := neighborCount + 1;
          }
        }
      }
      assert MooreOffsets[..8] == MooreOffsets;
    }

    /** `tick`: one generation, computed in place in row-major order. */
    method Tick()
      requires Valid()
      modifies this`board
      ensures Valid()
      ensures board == Generation(old(board))
    {
      ghost var start := board;
      for x := 0 to |board|
        invariant board == TickRows(start, x)
      {
        for y := 0 to |board[x]|
          invariant board == TickRow(TickRows(start, x), x, y)
        {
          ghost var seen := board;
          var neighborCount := CheckNeighbors(y, x);
          var isAlive := board[x][y] == 1;
          ghost var next := NextCell(seen[x][y], neighborCount);
          TickRowNext(TickRows(start, x), x, y);
          if !isAlive && neighborCount == 3 {
            board := WithCell(board, x, y, 1);
            continue;
          }
          if isAlive && neighborCount != 2 && neighborCount != 3 {
            board := WithCell(board, x, y, 0);
          } else {
            WithCellSame(seen, x, y);
          }
        }
      }
    }

    /** `toggle_cell_state(x, y)`: a dead (0) cell is set alive, any other is set dead. */
    method ToggleCellState(x: Byte, y: Byte)
      requires Valid() && InBoard(board, x, y)
      modifies this
      ensures Valid() && running == old(running)
      ensures board == Toggled(old(board), x, y)
    {
      if board[x][y] == 0 {
        SetCellState(x, y, true);
        return;
      }
      SetCellState(x, y, false);
    }

    /** `set_cell_state(x, y, is_alive)`: cell `[x][y]` becomes 1 if `isAlive`
        and 0 otherwise; nothing else changes. */
    method SetCellState(x: Byte, y: Byte, isAlive: bool)
      requires Valid() && InBoard(board, x, y)
      modifies this
      ensures Valid() && running == old(running)
      ensures board == WithCell(old(board), x, y, if isAlive then 1 else 0)
    {
      var newCellState: Byte := 0;
      if isAlive {
        newCellState := 1;
      }
      board := WithCell(board, x, y, newCellState);
    }
  }

  /** Trying offset `(xOffset, yOffset)` adds the cell it leads to, and the
      count so far leaves room for it in a byte. */
  lemma ProbeStep(b: Board, x: int, y: int, xOffset: int, yOffset: int)
    requires Rectangular(b)
    requires -1 <= xOffset <= 1 && -1 <= yOffset <= 1 && (xOffset, yOffset) != (0, 0)
    ensures CountLive(b, x, y, MooreOffsets[..Visited(xOffset, yOffset + 1)]) ==
      CountLive(b, x, y, MooreOffsets[..Visited(xOffset, yOffset)]) + LiveAt(b, x + xOffset, y + yOffset)
    ensures CountLive(b, x, y, MooreOffsets[..Visited(xOffset, yOffset)]) <= 7
  {
    var k := Visited(xOffset, yOffset);
    assert MooreOffsets[k] == (xOffset, yOffset);
    assert Visited(xOffset, yOffset + 1) == k + 1;
    CountLiveNext(b, x, y, MooreOffsets, k);
    CountLiveAtMost(b, x, y, MooreOffsets[..k]);
  }

  /** How many of the eight offsets `check_neighbors` has tried before it
      reaches offset `(xOffset, yOffset)`. */
  function Visited(xOffset: int, yOffset: int): nat
    requires -1 <= xOffset <= 2 && -1 <= yOffset <= 2
  {
    3 * (xOffset + 1) + (yOffset + 1) - (if xOffset > 0 || (xOffset == 0 && yOffset > 0) then 1 else 0)
  }
}
