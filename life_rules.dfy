/**
 * The generation rule of the game view, on grid values: the 16 x 20 board,
 * the number of live neighbours exactly as the engine's counting loop finds
 * it, the textbook count it is compared against, and the next state of a
 * cell.
 */
module LifeRules {

  const MAX_WIDTH: int := 16
  const MAX_HEIGHT: int := 20

  const DEAD: int := 0
  const ALIVE: int := 1

  datatype Option<T> = None | Some(value: T)

  /** A board as a value: `g[i][j]` is the cell in column `i`, row `j`. */
  type Grid = seq<seq<int>>

  predicate InGrid(i: int, j: int) {
    0 <= i < MAX_WIDTH && 0 <= j < MAX_HEIGHT
  }

  predicate IsCell(v: int) {
    v == DEAD || v == ALIVE
  }

  /** `g` has the board's fixed 16 x 20 shape. */
  predicate WellFormed(g: Grid) {
    |g| == MAX_WIDTH && forall i :: 0 <= i < |g| ==> |g[i]| == MAX_HEIGHT
  }

  /** Every cell of `g` is DEAD or ALIVE. */
  predicate Binary(g: Grid)
    requires WellFormed(g)
  {
    forall i, j :: 0 <= i < MAX_WIDTH && 0 <= j < MAX_HEIGHT ==> IsCell(g[i][j])
  }

  predicate AnyAlive(g: Grid)
    requires WellFormed(g)
  {
    exists i, j :: 0 <= i < MAX_WIDTH && 0 <= j < MAX_HEIGHT && g[i][j] == ALIVE
  }

  /** Two boards that agree cell by cell are the same board. */
  lemma SameCells(g: Grid, h: Grid)
    requires WellFormed(g) && WellFormed(h)
    requires forall i, j :: InGrid(i, j) ==> g[i][j] == h[i][j]
    ensures g == h
  {
    forall i | 0 <= i < MAX_WIDTH
      ensures g[i] == h[i]
    {
      assert forall j :: 0 <= j < MAX_HEIGHT ==> g[i][j] == h[i][j];
    }
  }

  /** The all-DEAD board. */
  function Blank(): (g: Grid)
    ensures WellFormed(g) && Binary(g)
    ensures forall i, j :: InGrid(i, j) ==> g[i][j] == DEAD
  {
    seq(MAX_WIDTH, i => seq(MAX_HEIGHT, j => DEAD))
  }

  /** The five cells of the glider written at offset (4, 5). */
  predicate GliderCell(i: int, j: int) {
    || (i == 4 && j == 5)
    || (i == 3 && j == 7)
    || (i == 4 && j == 7)
    || (i == 5 && j == 6)
    || (i == 5 && j == 7)
  }

  /** The starting board: the glider on an otherwise DEAD board. */
  function Seeded(): (g: Grid)
    ensures WellFormed(g) && Binary(g)
    ensures forall i, j :: InGrid(i, j) ==> (g[i][j] == ALIVE <==> GliderCell(i, j))
  {
    seq(MAX_WIDTH, i => seq(MAX_HEIGHT, j => if GliderCell(i, j) then ALIVE else DEAD))
  }

  // ---------------------------------------------------------------------
  // The neighbour count as the engine performs it.
  //
  // The counting loop visits slots 8, 7, ..., 1. Four flags per slot say
  // which way it moves: a left slot decrements the column, a right slot
  // increments it, a top slot INCREMENTS the row and a bottom slot
  // decrements it. The guards that skip a slot at the border test the top
  // flag against row 0 and the bottom flag against the last row, that is,
  // against the wrong ends; the row that falls off the board is then
  // clamped back onto the cell's own row.
  // ---------------------------------------------------------------------

  predicate LeftSlot(s: int) {
    s == 8 || s == 5 || s == 3
  }

  predicate RightSlot(s: int) {
    s == 7 || s == 4 || s == 1
  }

  predicate TopSlot(s: int) {
    s == 6 || s == 7 || s == 8
  }

  predicate BottomSlot(s: int) {
    s == 1 || s == 2 || s == 3
  }

  /** The border guards under which slot `s` of cell (i, j) is passed over. */
  predicate Skipped(i: int, j: int, s: int) {
    || (i == 0 && LeftSlot(s))
    || (i == MAX_WIDTH - 1 && RightSlot(s))
    || (j == 0 && TopSlot(s))
    || (j == MAX_HEIGHT - 1 && BottomSlot(s))
  }

  /** The column step of slot `s`. */
  function ColumnStep(s: int): int {
    (if RightSlot(s) then 1 else 0) - (if LeftSlot(s) then 1 else 0)
  }

  /** The row step of slot `s`: up the rows for a top slot, down for a bottom one. */
  function RowStep(s: int): int {
    (if TopSlot(s) then 1 else 0) - (if BottomSlot(s) then 1 else 0)
  }

  /** A coordinate that has left 0 .. n - 1 is put back to the cell's own, `own`. */
  function Clamp(v: int, own: int, n: int): int {
    if v < 0 || v >= n then own else v
  }

  /**
   * The cell that slot `s` of (i, j) inspects, or None when the slot is
   * skipped or lands back on (i, j) itself. Whatever it inspects lies on the
   * board, next to (i, j): the count never wraps around an edge.
   */
  function Probe(i: int, j: int, s: int): (r: Option<(int, int)>)
    requires InGrid(i, j)
    ensures r.Some? ==> InGrid(r.value.0, r.value.1) && r.value != (i, j)
    ensures r.Some? ==> -1 <= r.value.0 - i <= 1 && -1 <= r.value.1 - j <= 1
  {
    if Skipped(i, j, s) then None
    else
      var ni := Clamp(i + ColumnStep(s), i, MAX_WIDTH);
      var nj := Clamp(j + RowStep(s), j, MAX_HEIGHT);
      if ni == i && nj == j then None else Some((ni, nj))
  }

  /** A slot that is not skipped and does not come back to (i, j) inspects its clamped target. */
  lemma ProbeTarget(i: int, j: int, s: int, ni: int, nj: int)
    requires InGrid(i, j) && !Skipped(i, j, s)
    requires ni == Clamp(i + ColumnStep(s), i, MAX_WIDTH) && nj == Clamp(j + RowStep(s), j, MAX_HEIGHT)
    requires ni != i || nj != j
    ensures Probe(i, j, s) == Some((ni, nj))
  {
  }

  /** 1 when slot `s` of (i, j) inspects a live cell, otherwise 0. */
  function Hit(g: Grid, i: int, j: int, s: int): (n: nat)
    requires WellFormed(g) && InGrid(i, j)
    ensures n <= 1
  {
    match Probe(i, j, s)
    case None => 0
    case Some((x, y)) => if g[x][y] == ALIVE then 1 else 0
  }

  /** The live cells found by slots s, s + 1, ..., 8. */
  function Tally(g: Grid, i: int, j: int, s: int): (n: nat)
    requires WellFormed(g) && InGrid(i, j) && 1 <= s <= 9
    ensures n <= 9 - s
    decreases 9 - s
  {
    if s == 9 then 0 else Hit(g, i, j, s) + Tally(g, i, j, s + 1)
  }

  /** The number of live neighbours the engine finds for (i, j). */
  function NeighbourCount(g: Grid, i: int, j: int): (n: nat)
    requires WellFormed(g) && InGrid(i, j)
    ensures n <= 8
  {
    Tally(g, i, j, 1)
  }

  // ---------------------------------------------------------------------
  // The textbook count: live cells among the up to eight on-board cells
  // around (i, j).
  // ---------------------------------------------------------------------

  /** 1 when (x, y) is on the board and ALIVE, otherwise 0. */
  function Live(g: Grid, x: int, y: int): nat
    requires WellFormed(g)
  {
    if InGrid(x, y) && g[x][y] == ALIVE then 1 else 0
  }

  function MooreCount(g: Grid, i: int, j: int): nat
    requires WellFormed(g)
  {
    Live(g, i - 1, j - 1) + Live(g, i, j - 1) + Live(g, i + 1, j - 1) +
    Live(g, i - 1, j) + Live(g, i + 1, j) +
    Live(g, i - 1, j + 1) + Live(g, i, j + 1) + Live(g, i + 1, j + 1)
  }

  /** Conway's rule (birth on 3, survival on 2 or 3) with the textbook count. */
  function ConwayCell(g: Grid, i: int, j: int): int
    requires WellFormed(g) && InGrid(i, j)
  {
    var n := MooreCount(g, i, j);
    if n == 3 || (g[i][j] == ALIVE && n == 2) then ALIVE else DEAD
  }

  // ---------------------------------------------------------------------
  // The next state of a cell and of the board.
  // ---------------------------------------------------------------------

  /**
   * The value the engine writes into the buffer for (i, j): a live cell
   * with fewer than two or more than three live neighbours dies, a dead
   * cell with exactly three comes alive, any other cell keeps its value.
   * On a DEAD/ALIVE cell this is birth on 3 and survival on 2 or 3.
   */
  function NextCell(g: Grid, i: int, j: int): (c: int)
    requires WellFormed(g) && InGrid(i, j)
    ensures IsCell(g[i][j]) ==> IsCell(c)
    ensures IsCell(g[i][j]) ==>
      (c == ALIVE <==> NeighbourCount(g, i, j) == 3 || (g[i][j] == ALIVE && NeighbourCount(g, i, j) == 2))
  {
    var cellAlive := g[i][j] == ALIVE;
    var n := NeighbourCount(g, i, j);
    if (cellAlive && n < 2) || (cellAlive && n > 3) then DEAD
    else if !cellAlive && n == 3 then ALIVE
    else g[i][j]
  }

  /** The whole next generation, every cell computed from `g` alone. */
  function NextGrid(g: Grid): (r: Grid)
    requires WellFormed(g)
    ensures WellFormed(r)
    ensures Binary(g) ==> Binary(r)
  {
    seq(MAX_WIDTH, i requires 0 <= i < MAX_WIDTH =>
      seq(MAX_HEIGHT, j requires 0 <= j < MAX_HEIGHT => NextCell(g, i, j)))
  }

  /**
   * The next board as a value whose cells are known through `NextCell` one
   * at a time: a proof that fills a buffer cell by cell compares it with
   * `next` without unfolding the rule for every cell it has already done.
   */
  lemma NextGridCells(g: Grid) returns (next: Grid)
    requires WellFormed(g)
    ensures WellFormed(next)
    ensures forall a, b {:trigger NextCell(g, a, b)} :: InGrid(a, b) ==> next[a][b] == NextCell(g, a, b)
  {
    next := NextGrid(g);
  }

  // ---------------------------------------------------------------------
  // What the engine's count is.
  // ---------------------------------------------------------------------

  /**
   * Away from the first and last rows a slot inspects the neighbour in its
   * own direction, and finds nothing where that neighbour is off the board.
   */
  lemma HitInterior(g: Grid, i: int, j: int, s: int)
    requires WellFormed(g) && InGrid(i, j) && 0 < j < MAX_HEIGHT - 1 && 1 <= s <= 8
    ensures Hit(g, i, j, s) == Live(g, i + ColumnStep(s), j + RowStep(s))
  {
  }

  /** Away from the first and last rows, slots 5 .. 8: left, upper right, up and upper left. */
  lemma TallyInteriorHigh(g: Grid, i: int, j: int)
    requires WellFormed(g) && InGrid(i, j) && 0 < j < MAX_HEIGHT - 1
    ensures Tally(g, i, j, 5) ==
      Live(g, i - 1, j) + Live(g, i, j + 1) + Live(g, i + 1, j + 1) + Live(g, i - 1, j + 1)
  {
    // Dafny can unfold these slots alone, but at up to four times the
    // solver effort, past the resource bound on some seeds.
    HitInterior(g, i, j, 5);
    HitInterior(g, i, j, 6);
    HitInterior(g, i, j, 7);
    HitInterior(g, i, j, 8);
  }

  /**
   * Away from the first and last rows the engine's count is the textbook
   * count: every on-board neighbour once, columns off the board skipped.
   */
  lemma NeighbourCountInterior(g: Grid, i: int, j: int)
    requires WellFormed(g) && InGrid(i, j) && 0 < j < MAX_HEIGHT - 1
    ensures NeighbourCount(g, i, j) == MooreCount(g, i, j)
  {
    // Slots 1 .. 4 (lower right, down, lower left, right), then the rest.
    HitInterior(g, i, j, 1);
    HitInterior(g, i, j, 2);
    HitInterior(g, i, j, 3);
    HitInterior(g, i, j, 4);
    TallyInteriorHigh(g, i, j);
  }

  /**
   * On the first and the last row the engine never looks at the other row,
   * and counts each of the two horizontal neighbours twice.
   */
  lemma NeighbourCountBorderRow(g: Grid, i: int, j: int)
    requires WellFormed(g) && InGrid(i, j) && (j == 0 || j == MAX_HEIGHT - 1)
    ensures NeighbourCount(g, i, j) == 2 * Live(g, i - 1, j) + 2 * Live(g, i + 1, j)
  {
  }

  // ---------------------------------------------------------------------
  // What the rule then does.
  // ---------------------------------------------------------------------

  /** Away from the first and last rows a cell follows Conway's rule. */
  lemma NextCellInterior(g: Grid, i: int, j: int)
    requires WellFormed(g) && InGrid(i, j) && 0 < j < MAX_HEIGHT - 1 && IsCell(g[i][j])
    ensures NextCell(g, i, j) == ConwayCell(g, i, j)
  {
    // Dafny also finds this by unfolding the count itself, at over twenty
    // times the solver effort.
    NeighbourCountInterior(g, i, j);
  }

  /**
   * On the first and the last row the count is even, so no cell is ever
   * born there, and a live cell survives exactly when one of its two
   * horizontal neighbours is alive.
   */
  lemma NextCellBorderRow(g: Grid, i: int, j: int)
    requires WellFormed(g) && InGrid(i, j) && (j == 0 || j == MAX_HEIGHT - 1) && IsCell(g[i][j])
    ensures g[i][j] == DEAD ==> NextCell(g, i, j) == DEAD
    ensures g[i][j] == ALIVE ==> (NextCell(g, i, j) == ALIVE <==> Live(g, i - 1, j) + Live(g, i + 1, j) == 1)
  {
    // Dafny also finds this by unfolding the count itself, at over ten
    // times the solver effort.
    NeighbourCountBorderRow(g, i, j);
  }

  /**
   * The engine and the textbook part ways on the first row: a dead cell
   * with live cells left, right and below is born under Conway's rule but
   * stays dead in the engine.
   */
  lemma BorderRowBirthMissed()
    ensures exists g: Grid :: WellFormed(g) && Binary(g) && NextCell(g, 5, 0) == DEAD && ConwayCell(g, 5, 0) == ALIVE
  {
    var g := seq(MAX_WIDTH, i => seq(MAX_HEIGHT, j =>
      if (i == 4 && j == 0) || (i == 6 && j == 0) || (i == 5 && j == 1) then ALIVE else DEAD));
    NextCellBorderRow(g, 5, 0);
    assert MooreCount(g, 5, 0) == 3;
  }
}
