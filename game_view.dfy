/**
 * The game view's engine: two 16 x 20 boards (the current generation and
 * the buffer the next one is computed into), the running flag, the
 * generation counter and the pixel size of a cell, with the operations
 * that reset, start, stop, advance and edit the game.
 */
module GameOfLife {

  import opened JavaInt
  import opened LifeRules

  /** The messages the view posts to its event handler. */
  datatype Event = GameStopped | GameStarted | GameLoop

  /** The contents of a board array, as a grid value. */
  function Cells(a: array2<int>): (g: Grid)
    reads a
    ensures |g| == a.Length0
    ensures forall i :: 0 <= i < a.Length0 ==> |g[i]| == a.Length1
    ensures forall i, j :: 0 <= i < a.Length0 && 0 <= j < a.Length1 ==> g[i][j] == a[i, j]
  {
    seq(a.Length0, i requires 0 <= i < a.Length0 reads a =>
      seq(a.Length1, j requires 0 <= j < a.Length1 reads a => a[i, j]))
  }

  /** `a` has the board's shape and holds only DEAD and ALIVE. */
  ghost predicate IsBoard(a: array2<int>)
    reads a
  {
    && a.Length0 == MAX_WIDTH && a.Length1 == MAX_HEIGHT
    && forall i, j :: 0 <= i < MAX_WIDTH && 0 <= j < MAX_HEIGHT ==> IsCell(a[i, j])
  }

  /** Flipping a cell: ALIVE becomes DEAD, anything else becomes ALIVE. */
  function Toggle(v: int): (r: int)
    ensures IsCell(r)
    ensures IsCell(v) ==> r != v
  {
    if v == ALIVE then DEAD else ALIVE
  }

  // ---------------------------------------------------------------------
  // Touch geometry. Cell k of a row of cells `size` pixels wide spans the
  // pixels k * size to (k + 1) * size, both ends included, so neighbouring
  // cells share their common edge.
  // ---------------------------------------------------------------------

  predicate Covers(k: int, p: int, size: int) {
    k * size <= p <= (k + 1) * size
  }

  /** `k` is the first of the cells 0 .. n - 1 whose span contains `p`. */
  predicate FirstCover(k: int, p: int, size: int, n: int) {
    && 0 <= k < n
    && Covers(k, p, size)
    && forall m :: 0 <= m < k ==> !Covers(m, p, size)
  }

  /** (i, j) is the cell a touch at pixel (x, y) toggles. */
  predicate Touched(i: int, j: int, x: int, y: int, wPx: int, hPx: int) {
    FirstCover(i, x, wPx, MAX_WIDTH) && FirstCover(j, y, hPx, MAX_HEIGHT)
  }

  /** A touch toggles at most one cell. */
  lemma TouchedUnique(i: int, j: int, i': int, j': int, x: int, y: int, wPx: int, hPx: int)
    requires Touched(i, j, x, y, wPx, hPx) && Touched(i', j', x, y, wPx, hPx)
    ensures i == i' && j == j'
  {
  }

  lemma MulLeft(a: int, b: int, size: int)
    requires a <= b && size > 0
    ensures a * size <= b * size
  {
  }

  /**
   * With cells of a positive size, a pixel p on the row of cells lands in
   * cell p / size, except that a pixel on the edge shared by cells k - 1
   * and k goes to the earlier cell, k - 1.
   */
  lemma TouchIndex(p: int, size: int, n: int)
    requires size > 0 && n > 0 && 0 <= p <= n * size
    ensures FirstCover(if p > 0 && p % size == 0 then p / size - 1 else p / size, p, size, n)
  {
    var q, r := p / size, p % size;
    assert p == q * size + r && 0 <= r < size;
    var k := if p > 0 && r == 0 then q - 1 else q;
    // The span of cell k reaches from k * size to k * size + size.
    assert (k + 1) * size == k * size + size;
    assert k * size == if p > 0 && r == 0 then p - size else p - r;
    assert Covers(k, p, size);
    // Every earlier cell ends strictly before p ...
    assert p == 0 || k * size < p;
    forall m | 0 <= m < k
      ensures !Covers(m, p, size)
    {
      MulLeft(m + 1, k, size);
    }
    // ... and cell n, the first one off the row, starts no earlier than p.
    if n <= k {
      MulLeft(n, k, size);
    }
  }

  /**
   * The scan for a touched cell: columns outer, rows inner, stopping at the
   * first cell whose pixel rectangle contains (x, y).
   */
  method CellAt(x: int, y: int, wPx: int, hPx: int) returns (found: bool, i: int, j: int)
    ensures found ==> Touched(i, j, x, y, wPx, hPx)
    ensures !found ==> forall a, b :: 0 <= a < MAX_WIDTH && 0 <= b < MAX_HEIGHT ==>
      !(Covers(a, x, wPx) && Covers(b, y, hPx))
  {
    i, j := 0, 0;
    while i < MAX_WIDTH
      invariant 0 <= i <= MAX_WIDTH
      invariant forall a, b :: 0 <= a < i && 0 <= b < MAX_HEIGHT ==>
        !(Covers(a, x, wPx) && Covers(b, y, hPx))
    {
      j := 0;
      while j < MAX_HEIGHT
        invariant 0 <= j <= MAX_HEIGHT
        invariant forall b :: 0 <= b < j ==> !(Covers(i, x, wPx) && Covers(b, y, hPx))
      {
        var left := i * wPx;
        var top := j * hPx;
        var right := (i + 1) * wPx;
        var bottom := (j + 1) * hPx;
        if x >= left && x <= right && y >= top && y <= bottom {
          assert forall a :: 0 <= a < i ==> !Covers(a, x, wPx) by {
            assert Covers(j, y, hPx);
          }
          return true, i, j;
        }
        j := j + 1;
      }
      i := i + 1;
    }
    return false, i, j;
  }

  class GameView {

    /** The current generation. */
    var stateA: array2<int>
    /** The buffer the next generation is computed into. */
    var stateB: array2<int>
    var running: bool
    var generation: int32
    /** Pixel width and height of one cell on the screen. */
    var wPxPerField: int32
    var hPxPerField: int32
    /** The messages posted to the event handler so far, oldest first. */
    ghost var events: seq<Event>

    /**
     * The object invariant: two distinct boards of the fixed shape holding
     * only DEAD and ALIVE, and cell sizes small enough that every cell edge,
     * at most 16 or 20 cell sizes from the origin, is a Java int.
     */
    ghost predicate Valid()
      reads this, stateA, stateB
    {
      && stateA != stateB
      && IsBoard(stateA) && IsBoard(stateB)
      && InInt32(MAX_WIDTH * wPxPerField as int) && InInt32(MAX_HEIGHT * hPxPerField as int)
    }

    /** A fresh view: both boards DEAD, stopped at generation 0, no cell size yet. */
    constructor ()
      ensures Valid() && fresh(stateA) && fresh(stateB)
      ensures Cells(stateA) == Blank() && Cells(stateB) == Blank()
      ensures !running && generation == 0 && wPxPerField == 0 && hPxPerField == 0
      ensures events == []
    {
      stateA := new int[MAX_WIDTH, MAX_HEIGHT]((_, _) => DEAD);
      stateB := new int[MAX_WIDTH, MAX_HEIGHT]((_, _) => DEAD);
      running := false;
      generation := 0;
      wPxPerField := 0;
      hPxPerField := 0;
      events := [];
      new;
      SameCells(Cells(stateA), Blank());
      SameCells(Cells(stateB), Blank());
    }

    function GetGeneration(): (n: int32)
      reads this
      ensures n == generation
    {
      generation
    }

    /** Sets every cell of `ar` to DEAD. */
    static method ClearArray(ar: array2<int>)
      requires ar.Length0 == MAX_WIDTH && ar.Length1 == MAX_HEIGHT
      modifies ar
      ensures forall i, j :: 0 <= i < MAX_WIDTH && 0 <= j < MAX_HEIGHT ==> ar[i, j] == DEAD
    {
      for i := 0 to MAX_WIDTH
        invariant forall a, b :: 0 <= a < i && 0 <= b < MAX_HEIGHT ==> ar[a, b] == DEAD
      {
        for j := 0 to MAX_HEIGHT
          invariant forall a, b :: 0 <= a < i && 0 <= b < MAX_HEIGHT ==> ar[a, b] == DEAD
          invariant forall b :: 0 <= b < j ==> ar[i, b] == DEAD
        {
          ar[i, j] := DEAD;
        }
      }
    }

    /** Writes the five glider cells ALIVE, at offset (4, 5); leaves the rest. */
    static method CreateGlider(ar: array2<int>)
      requires ar.Length0 == MAX_WIDTH && ar.Length1 == MAX_HEIGHT
      modifies ar
      ensures forall i, j :: 0 <= i < MAX_WIDTH && 0 <= j < MAX_HEIGHT ==>
        ar[i, j] == if GliderCell(i, j) then ALIVE else old(ar[i, j])
    {
      var x, y := 4, 5;
      ar[x, y] := ALIVE;
      ar[x - 1, y + 2] := ALIVE;
      ar[x, y + 2] := ALIVE;
      ar[x + 1, y + 1] := ALIVE;
      ar[x + 1, y + 2] := ALIVE;
    }

    /** Both boards cleared, the glider seeded into the current one. */
    method SeedBoards()
      requires Valid()
      modifies stateA, stateB
      ensures Valid()
      ensures Cells(stateA) == Seeded() && Cells(stateB) == Blank()
    {
      ClearArray(stateA);
      ClearArray(stateB);
      CreateGlider(stateA);
      SameCells(Cells(stateA), Seeded());
      SameCells(Cells(stateB), Blank());
    }

    /**
     * Sets up the view for a w x h pixel screen: the boards are reset as by
     * a game reset, then the two screen bitmaps are created, and each cell
     * gets an equal share of the pixels. Creating a bitmap with a width or
     * height that is not positive throws; `sized` is false on that path,
     * where the boards have been reset but the cell sizes are not touched.
     * Running flag, counter and event log are left alone.
     */
    method Init(w: int32, h: int32) returns (sized: bool)
      requires Valid()
      modifies this`wPxPerField, this`hPxPerField, stateA, stateB
      ensures Valid()
      ensures Cells(stateA) == Seeded() && Cells(stateB) == Blank()
      ensures sized <==> w > 0 && h > 0
      ensures sized ==> wPxPerField as int == Div(w as int, MAX_WIDTH) && hPxPerField as int == Div(h as int, MAX_HEIGHT)
      ensures !sized ==> wPxPerField == old(wPxPerField) && hPxPerField == old(hPxPerField)
    {
      SeedBoards();
      if w <= 0 || h <= 0 {
        return false;
      }
      wPxPerField := Div(w as int, MAX_WIDTH) as int32;
      hPxPerField := Div(h as int, MAX_HEIGHT) as int32;
      return true;
    }

    /** Starts (or restarts) the game: running, counter back to 0. */
    method GameStart()
      modifies this`running, this`generation, this`events
      ensures running && generation == 0
      ensures events == old(events) + [GameStarted]
    {
      running := true;
      generation := 0;
      events := events + [GameStarted];
    }

    /** Stopped, counter 0, boards back to the starting glider. */
    method GameReset()
      requires Valid()
      modifies this`running, this`generation, this`events, stateA, stateB
      ensures Valid()
      ensures !running && generation == 0
      ensures Cells(stateA) == Seeded() && Cells(stateB) == Blank()
      ensures events == old(events) + [GameStarted]
    {
      running := false;
      generation := 0;
      SeedBoards();
      events := events + [GameStarted];
    }

    /** Stops the game; counter and boards are kept. */
    method GameStop()
      modifies this`running, this`events
      ensures !running
      ensures events == old(events) + [GameStopped]
    {
      running := false;
      events := events + [GameStopped];
    }

    /**
     * A touch released at pixel (x, y): the first cell whose rectangle
     * contains the point is flipped; if there is none, nothing changes.
     * Allowed whether or not the game is running.
     */
    method TouchEnd(x: int32, y: int32)
      requires Valid()
      modifies stateA
      ensures Valid()
      ensures forall i, j :: 0 <= i < MAX_WIDTH && 0 <= j < MAX_HEIGHT ==>
        stateA[i, j] ==
          if Touched(i, j, x as int, y as int, wPxPerField as int, hPxPerField as int)
          then Toggle(old(stateA[i, j]))
          else old(stateA[i, j])
    {
      var found, i, j := CellAt(x as int, y as int, wPxPerField as int, hPxPerField as int);
      if found {
        if stateA[i, j] == ALIVE {
          stateA[i, j] := DEAD;
        } else {
          stateA[i, j] := ALIVE;
        }
      }
    }

    /** Whether the current board has at least one ALIVE cell. */
    method AnyCellAlive() returns (atLeastOneAlive: bool)
      requires Valid()
      ensures atLeastOneAlive <==> AnyAlive(Cells(stateA))
    {
      atLeastOneAlive := false;
      ghost var wi, wj := 0, 0;
      for i := 0 to MAX_WIDTH
        invariant !atLeastOneAlive
        invariant forall a, b :: 0 <= a < i && 0 <= b < MAX_HEIGHT ==> stateA[a, b] != ALIVE
      {
        for j := 0 to MAX_HEIGHT
          invariant !atLeastOneAlive
          invariant forall b :: 0 <= b < j ==> stateA[i, b] != ALIVE
        {
          if stateA[i, j] == ALIVE {
            atLeastOneAlive := true;
            wi, wj := i, j;
            break;
          }
        }
        if atLeastOneAlive {
          break;
        }
      }
      if atLeastOneAlive {
        assert Cells(stateA)[wi][wj] == ALIVE;
      }
    }

    /**
     * The value the engine writes into the buffer for (i, j), and whether it
     * took one of the two branches that flag a change: a live cell that dies,
     * or a dead cell that comes alive.
     */
    method NextState(i: int, j: int) returns (cell: int, flipped: bool)
      requires Valid() && InGrid(i, j)
      ensures cell == NextCell(Cells(stateA), i, j)
      ensures flipped <==> cell != stateA[i, j]
    {
      var cellAlive := stateA[i, j] == ALIVE;
      var aliveNeighbours := AliveNeighbours(i, j);
      if (cellAlive && aliveNeighbours < 2) || (cellAlive && aliveNeighbours > 3) {
        cell, flipped := DEAD, true;
      } else if !cellAlive && aliveNeighbours == 3 {
        cell, flipped := ALIVE, true;
      } else {
        cell, flipped := stateA[i, j], false;
      }
    }

    /**
     * The body of the generation loop for one cell: writes the cell's next
     * value into the buffer and reports whether it differs from the current
     * one. `next` is the next board, given cell by cell through `NextCell`.
     */
    method UpdateCell(i: int, j: int, ghost next: Grid) returns (flipped: bool)
      requires Valid() && InGrid(i, j) && WellFormed(next)
      requires forall a, b {:trigger NextCell(Cells(stateA), a, b)} ::
        InGrid(a, b) ==> next[a][b] == NextCell(Cells(stateA), a, b)
      modifies stateB
      ensures Valid()
      ensures stateB[i, j] == next[i][j]
      ensures forall a, b :: InGrid(a, b) && (a != i || b != j) ==> stateB[a, b] == old(stateB[a, b])
      ensures flipped <==> next[i][j] != stateA[i, j]
    {
      var cell;
      cell, flipped := NextState(i, j);
      stateB[i, j] := cell;
    }

    /**
     * The neighbour count of (i, j) on the current board, by the engine's
     * loop over the slots 8, 7, ..., 1.
     */
    method AliveNeighbours(i: int, j: int) returns (aliveNeighbours: int)
      requires stateA.Length0 == MAX_WIDTH && stateA.Length1 == MAX_HEIGHT && InGrid(i, j)
      ensures aliveNeighbours == NeighbourCount(Cells(stateA), i, j)
    {
      ghost var g := Cells(stateA);
      aliveNeighbours := 0;
      // The loop index takes the values 8, 7, ..., 1.
      for neighbour := 9 downto 1
        invariant aliveNeighbours == Tally(g, i, j, neighbour)
      {
        var leftNeighbour := LeftSlot(neighbour);
        var rightNeighbour := RightSlot(neighbour);
        var topNeighbour := TopSlot(neighbour);
        var bottomNeighbour := BottomSlot(neighbour);

        if i == 0 && leftNeighbour {
          assert Probe(i, j, neighbour).None?;
          continue;
        }
        if i == MAX_WIDTH - 1 && rightNeighbour {
          assert Probe(i, j, neighbour).None?;
          continue;
        }
        if j == 0 && topNeighbour {
          assert Probe(i, j, neighbour).None?;
          continue;
        }
        if j == MAX_HEIGHT - 1 && bottomNeighbour {
          assert Probe(i, j, neighbour).None?;
          continue;
        }

        assert !Skipped(i, j, neighbour);
        var ni, nj := i, j;
        if rightNeighbour {
          ni := ni + 1;
        }
        if leftNeighbour {
          ni := ni - 1;
        }
        if topNeighbour {
          nj := nj + 1;
        }
        if bottomNeighbour {
          nj := nj - 1;
        }

        assert ni == i + ColumnStep(neighbour) && nj == j + RowStep(neighbour);
        if ni < 0 || ni >= MAX_WIDTH {
          ni := i;
        }
        if nj < 0 || nj >= MAX_HEIGHT {
          nj := j;
        }
        assert ni == Clamp(i + ColumnStep(neighbour), i, MAX_WIDTH);
        assert nj == Clamp(j + RowStep(neighbour), j, MAX_HEIGHT);

        if ni == i && nj == j {
          assert Probe(i, j, neighbour).None?;
          continue;
        }

        ProbeTarget(i, j, neighbour, ni, nj);
        if stateA[ni, nj] == ALIVE {
          aliveNeighbours := aliveNeighbours + 1;
        }
      }
    }

    /**
     * Fills the buffer with the next generation of the current board, and
     * reports whether any cell's next value differs from its present one.
     */
    method ComputeBuffer() returns (changed: bool)
      requires Valid()
      modifies stateB
      ensures Valid()
      ensures Cells(stateB) == NextGrid(Cells(stateA))
      ensures changed <==> NextGrid(Cells(stateA)) != Cells(stateA)
    {
      ghost var g := Cells(stateA);
      ghost var next := NextGridCells(g);
      // A cell whose next value differs from its present one, once one is seen.
      ghost var ci, cj := 0, 0;
      changed := false;
      for i := 0 to MAX_WIDTH
        invariant Valid() && Cells(stateA) == g
        invariant forall a, b :: 0 <= a < i && 0 <= b < MAX_HEIGHT ==> stateB[a, b] == next[a][b]
        invariant changed ==> InGrid(ci, cj) && next[ci][cj] != g[ci][cj]
        invariant !changed ==> forall a, b :: 0 <= a < i && 0 <= b < MAX_HEIGHT ==> next[a][b] == g[a][b]
      {
        for j := 0 to MAX_HEIGHT
          invariant Valid() && Cells(stateA) == g
          invariant forall a, b :: 0 <= a < i && 0 <= b < MAX_HEIGHT ==> stateB[a, b] == next[a][b]
          invariant forall b :: 0 <= b < j ==> stateB[i, b] == next[i][b]
          invariant changed ==> InGrid(ci, cj) && next[ci][cj] != g[ci][cj]
          invariant !changed ==> forall a, b :: 0 <= a < i && 0 <= b < MAX_HEIGHT ==> next[a][b] == g[a][b]
          invariant !changed ==> forall b :: 0 <= b < j ==> next[i][b] == g[i][b]
        {
          var flipped := UpdateCell(i, j, next);
          if flipped {
            changed := true;
            ci, cj := i, j;
          }
        }
      }
      SameCells(Cells(stateB), NextGrid(g));
      if changed {
        assert NextGrid(g)[ci][cj] != g[ci][cj];
      } else {
        SameCells(NextGrid(g), g);
      }
    }

    /** Copies the buffer back into the current board, row by row. */
    method CopyBuffer()
      requires Valid()
      modifies stateA
      ensures Valid()
      ensures Cells(stateA) == Cells(stateB)
    {
      for i := 0 to MAX_WIDTH
        invariant Valid()
        invariant forall a, b :: 0 <= a < i && 0 <= b < MAX_HEIGHT ==> stateA[a, b] == stateB[a, b]
      {
        for j := 0 to MAX_HEIGHT
          invariant Valid()
          invariant forall a, b :: 0 <= a < i && 0 <= b < MAX_HEIGHT ==> stateA[a, b] == stateB[a, b]
          invariant forall b :: 0 <= b < j ==> stateA[i, b] == stateB[i, b]
        {
          stateA[i, j] := stateB[i, j];
        }
      }
      SameCells(Cells(stateA), Cells(stateB));
    }

    /**
     * One step of the game loop. When stopped it does nothing. On a board
     * with no live cell it stops the game. Otherwise it computes the next
     * generation into the buffer, makes it current, and then either counts
     * the generation (if any cell changed) or stops the game (if none did).
     */
    method CalculateGeneration()
      requires Valid()
      modifies this`running, this`generation, this`events, stateA, stateB
      ensures Valid()
      ensures !old(running) ==>
        && !running && generation == old(generation) && events == old(events)
        && unchanged(stateA, stateB)
      ensures old(running) && !old(AnyAlive(Cells(stateA))) ==>
        && !running && generation == old(generation) && events == old(events) + [GameStopped]
        && unchanged(stateA, stateB)
      ensures old(running) && old(AnyAlive(Cells(stateA))) ==>
        && Cells(stateA) == NextGrid(old(Cells(stateA)))
        && Cells(stateB) == Cells(stateA)
      ensures old(running) && old(AnyAlive(Cells(stateA))) && Cells(stateA) != old(Cells(stateA)) ==>
        && running && generation == Inc(old(generation)) && events == old(events) + [GameLoop]
      ensures old(running) && old(AnyAlive(Cells(stateA))) && Cells(stateA) == old(Cells(stateA)) ==>
        && !running && generation == old(generation) && events == old(events) + [GameStopped]
    {
      if !running {
        return;
      }
      var atLeastOneAlive := AnyCellAlive();
      if !atLeastOneAlive {
        GameStop();
        return;
      }
      var changed := ComputeBuffer();
      CopyBuffer();
      if !changed {
        GameStop();
        return;
      }
      events := events + [GameLoop];
      generation := Inc(generation);
    }
  }
}
