/** The board: the current grid, the history of grids after each move with
    the capture-series length of each, and the game result. Rendering is
    not modelled, so every redraw of the window is a no-op here. */
module BoardState {
  import opened Grid
  import GameLogic

  /** How a board operation ended: normally, or with the error the board
      raises. */
  datatype Outcome = Done | Failure(message: string)

  const DestinationOccupied := "final position is not empty, can't move"
  const SourceEmpty := "begin position is empty, can't move"
  const NotPromotable := "can't turn into queen in this position"

  /** The number of history entries a rollback removes: the last recorded
      series length, at least 1, but never so many that the history would
      become empty. */
  function RollbackPops(lastBeatSeries: int, size: nat): (k: nat)
    requires size >= 1
    ensures k <= size - 1
    ensures k == size - 1 || k == (if lastBeatSeries > 1 then lastBeatSeries else 1)
    ensures size > 1 ==> k >= 1
    ensures k <= (if lastBeatSeries > 1 then lastBeatSeries else 1)
  {
    var series := if lastBeatSeries > 1 then lastBeatSeries else 1;
    if series < size - 1 then series else size - 1
  }

  class Board {
    var mtx: Mtx
    var historyMtx: seq<Mtx>
    var historyBeatSeries: seq<int>
    var gameResults: int

    /** The grid is 8x8 with codes 0 .. 4, every snapshot in the history is
        too, and the two histories have one entry per recorded position. */
    predicate Valid()
      reads this
    {
      && WellFormed(mtx)
      && |historyMtx| == |historyBeatSeries|
      && forall k :: 0 <= k < |historyMtx| ==> WellFormed(historyMtx[k])
    }

    /** A new board: an empty 8x8 grid, no history, no result. */
    constructor ()
      ensures Valid()
      ensures mtx == EmptyMtx() && historyMtx == [] && historyBeatSeries == [] && gameResults == -1
    {
      mtx := EmptyMtx();
      historyMtx := [];
      historyBeatSeries := [];
      gameResults := -1;
    }

    /** Starts a new game: no result, the history holds only the starting
        position, and the grid is the starting position. */
    method Redraw()
      requires Valid()
      modifies this
      ensures Valid()
      ensures gameResults == -1
      ensures mtx == StartMtx()
      ensures historyMtx == [StartMtx()] && historyBeatSeries == [0]
    {
      gameResults := -1;
      historyMtx := [];
      historyBeatSeries := [];
      MakeStartMtx();
    }

    /** Moves the piece of `turn`, first emptying its captured square if it
        has one. The board then behaves as the two-square move; when that
        succeeds the grid is what the engine's move application computes. */
    method MovePieceTurn(turn: MovePos, beatSeries: int) returns (out: Outcome)
      requires Valid() && MoveOnBoard(turn)
      modifies this
      ensures Valid()
      ensures gameResults == old(gameResults)
      ensures out == Failure(DestinationOccupied) <==> ClearCaptured(old(mtx), turn)[turn.x2][turn.y2] != Empty
      ensures out == Failure(SourceEmpty) <==>
                ClearCaptured(old(mtx), turn)[turn.x2][turn.y2] == Empty && ClearCaptured(old(mtx), turn)[turn.x][turn.y] == Empty
      ensures out == Done || out == Failure(DestinationOccupied) || out == Failure(SourceEmpty)
      ensures out.Failure? ==>
                mtx == ClearCaptured(old(mtx), turn)
                && historyMtx == old(historyMtx) && historyBeatSeries == old(historyBeatSeries)
      ensures out == Done ==>
                && mtx == GameLogic.MakeTurn(old(mtx), turn)
                && historyMtx == old(historyMtx) + [mtx]
                && historyBeatSeries == old(historyBeatSeries) + [beatSeries]
    {
      if turn.xb != -1 {
        mtx := SetCell(mtx, turn.xb, turn.yb, Empty);
      }
      assert mtx == ClearCaptured(old(mtx), turn);
      out := MovePiece(turn.x, turn.y, turn.x2, turn.y2, beatSeries);
    }

    /** Moves the piece on (i, j) to (i2, j2). Fails, changing nothing,
        when the destination is occupied (checked first) or the source is
        empty. Otherwise the piece is promoted if a white man reaches row 0
        or a black man row 7, the source is emptied, and the new grid is
        appended to the history with the given series length. */
    method MovePiece(i: int, j: int, i2: int, j2: int, beatSeries: int) returns (out: Outcome)
      requires Valid() && OnBoard(i, j) && OnBoard(i2, j2)
      modifies this
      ensures Valid()
      ensures gameResults == old(gameResults)
      ensures out == Failure(DestinationOccupied) <==> old(mtx)[i2][j2] != Empty
      ensures out == Failure(SourceEmpty) <==> old(mtx)[i2][j2] == Empty && old(mtx)[i][j] == Empty
      ensures out == Done || out == Failure(DestinationOccupied) || out == Failure(SourceEmpty)
      ensures out.Failure? ==>
                mtx == old(mtx) && historyMtx == old(historyMtx) && historyBeatSeries == old(historyBeatSeries)
      ensures out == Done ==>
                && (i != i2 || j != j2)
                && mtx == Relocate(old(mtx), i, j, i2, j2)
                && historyMtx == old(historyMtx) + [mtx]
                && historyBeatSeries == old(historyBeatSeries) + [beatSeries]
    {
      if mtx[i2][j2] != Empty {
        return Failure(DestinationOccupied);
      }
      if mtx[i][j] == Empty {
        return Failure(SourceEmpty);
      }
      if (mtx[i][j] == WhiteMan && i2 == 0) || (mtx[i][j] == BlackMan && i2 == 7) {
        mtx := SetCell(mtx, i, j, mtx[i][j] + 2);
      }
      mtx := SetCell(mtx, i2, j2, mtx[i][j]);
      DropPiece(i, j);
      MtxExt(mtx, Relocate(old(mtx), i, j, i2, j2));
      AddHistory(beatSeries);
      out := Done;
    }

    /** Empties the cell (i, j). */
    method DropPiece(i: int, j: int)
      requires IsMtx(mtx) && OnBoard(i, j)
      modifies this
      ensures IsMtx(mtx) && mtx[i][j] == Empty
      ensures forall a, b :: OnBoard(a, b) && (a != i || b != j) ==> mtx[a][b] == old(mtx)[a][b]
      ensures historyMtx == old(historyMtx) && historyBeatSeries == old(historyBeatSeries)
      ensures gameResults == old(gameResults)
    {
      mtx := SetCell(mtx, i, j, Empty);
    }

    /** Turns the man on (i, j) into a king of its side. Fails, changing
        nothing, on an empty cell or a cell already holding a king. */
    method TurnIntoQueen(i: int, j: int) returns (out: Outcome)
      requires Valid() && OnBoard(i, j)
      modifies this
      ensures Valid()
      ensures out == Done <==> old(mtx)[i][j] == WhiteMan || old(mtx)[i][j] == BlackMan
      ensures out.Failure? ==> out == Failure(NotPromotable) && mtx == old(mtx)
      ensures out == Done ==>
                && mtx[i][j] == old(mtx)[i][j] + 2 && mtx[i][j] > 2 && mtx[i][j] % 2 == old(mtx)[i][j] % 2
                && forall a, b :: OnBoard(a, b) && (a != i || b != j) ==> mtx[a][b] == old(mtx)[a][b]
      ensures historyMtx == old(historyMtx) && historyBeatSeries == old(historyBeatSeries)
      ensures gameResults == old(gameResults)
    {
      if mtx[i][j] == Empty || mtx[i][j] > 2 {
        return Failure(NotPromotable);
      }
      mtx := SetCell(mtx, i, j, mtx[i][j] + 2);
      out := Done;
    }

    /** A copy of the grid: under the invariant, an 8x8 grid of codes 0 .. 4. */
    function GetBoard(): (r: Mtx)
      reads this
      requires Valid()
      ensures WellFormed(r)
      ensures forall a, b :: OnBoard(a, b) ==> r[a][b] == mtx[a][b]
    {
      mtx
    }

    /** Undoes the last move, with its whole capture series: removes
        max(1, last series length) entries from both histories, keeping at
        least one, and restores the grid from the last remaining snapshot. */
    method Rollback()
      requires Valid() && |historyMtx| >= 1
      modifies this
      ensures Valid()
      ensures var k := RollbackPops(old(historyBeatSeries)[|old(historyBeatSeries)| - 1], |old(historyMtx)|);
              && historyMtx == old(historyMtx)[..|old(historyMtx)| - k]
              && historyBeatSeries == old(historyBeatSeries)[..|old(historyBeatSeries)| - k]
      ensures |historyMtx| >= 1 && mtx == historyMtx[|historyMtx| - 1]
      ensures gameResults == old(gameResults)
    {
      var last := historyBeatSeries[|historyBeatSeries| - 1];
      var beatSeries := if last > 1 then last else 1;
      ghost var k := RollbackPops(last, |historyMtx|);
      ghost var popped := 0;
      while beatSeries != 0 && |historyMtx| > 1
        invariant Valid()
        invariant 0 <= popped <= k
        invariant beatSeries == (if last > 1 then last else 1) - popped
        invariant historyMtx == old(historyMtx)[..|old(historyMtx)| - popped]
        invariant historyBeatSeries == old(historyBeatSeries)[..|old(historyBeatSeries)| - popped]
        invariant mtx == old(mtx) && gameResults == old(gameResults)
        decreases |historyMtx|
      {
        historyMtx := historyMtx[..|historyMtx| - 1];
        historyBeatSeries := historyBeatSeries[..|historyBeatSeries| - 1];
        beatSeries := beatSeries - 1;
        popped := popped + 1;
      }
      mtx := historyMtx[|historyMtx| - 1];
    }

    /** Appends the current grid and the given series length to the history. */
    method AddHistory(beatSeries: int)
      requires Valid()
      modifies this
      ensures Valid()
      ensures historyMtx == old(historyMtx) + [mtx] && historyBeatSeries == old(historyBeatSeries) + [beatSeries]
      ensures mtx == old(mtx) && gameResults == old(gameResults)
    {
      historyMtx := historyMtx + [mtx];
      historyBeatSeries := historyBeatSeries + [beatSeries];
    }

    /** Sets the grid to the starting position, cell by cell in row-major
        order (black men on the dark squares of rows 0-2, white men on those
        of rows 5-7), and records it in the history with series length 0. */
    method MakeStartMtx()
      requires Valid()
      modifies this
      ensures Valid()
      ensures mtx == StartMtx()
      ensures historyMtx == old(historyMtx) + [StartMtx()] && historyBeatSeries == old(historyBeatSeries) + [0]
      ensures gameResults == old(gameResults)
    {
      var i := 0;
      while i < 8
        invariant 0 <= i <= 8
        invariant IsMtx(mtx)
        invariant forall a, b :: 0 <= a < i && 0 <= b < 8 ==> mtx[a][b] == StartCode(a, b)
        invariant forall a, b :: OnBoard(a, b) ==> Empty <= mtx[a][b] <= BlackKing
        invariant historyMtx == old(historyMtx) && historyBeatSeries == old(historyBeatSeries)
        invariant gameResults == old(gameResults)
      {
        var j := 0;
        while j < 8
          invariant 0 <= j <= 8
          invariant IsMtx(mtx)
          invariant forall a, b :: 0 <= a < i && 0 <= b < 8 ==> mtx[a][b] == StartCode(a, b)
          invariant forall b :: 0 <= b < j ==> mtx[i][b] == StartCode(i, b)
          invariant forall a, b :: OnBoard(a, b) ==> Empty <= mtx[a][b] <= BlackKing
          invariant historyMtx == old(historyMtx) && historyBeatSeries == old(historyBeatSeries)
          invariant gameResults == old(gameResults)
        {
          mtx := SetCell(mtx, i, j, Empty);
          if i < 3 && (i + j) % 2 == 1 {
            mtx := SetCell(mtx, i, j, BlackMan);
          }
          if i > 4 && (i + j) % 2 == 1 {
            mtx := SetCell(mtx, i, j, WhiteMan);
          }
          j := j + 1;
        }
        i := i + 1;
      }
      MtxExt(mtx, StartMtx());
      AddHistory(0);
    }
  }
}
