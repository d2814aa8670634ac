/**
 * The game engine (src/model/Game.ts): a `height × width` grid of cells, mines laid on the first
 * open, the flood fill, flags, and the "win" and "end" notifications.
 */
module Games {
  import opened Cells
  import opened Coordinates
  import opened Collections
  import opened Sampling
  import opened Boards

  datatype Option<T> = None | Some(value: T)

  /** The two notifications sent on the game's event emitter. */
  datatype Event = Win | End

  /** What `new Game(options)` produces: a game, or the error 'invalid mine count'. */
  datatype Construction = Created(game: Game) | InvalidMineCount

  /** The coordinates of a sequence of cells, in order. */
  function CoordsOf(cells: seq<Cell>): seq<Coordinate> {
    seq(|cells|, k requires 0 <= k < |cells| => cells[k].coordinate)
  }

  class Game {
    /** `options.size[0]`, `options.size[1]` and `options.mineCount`: fixed for the game's life. */
    const width: nat
    const height: nat
    const mineCount: nat

    /** The rows of cells, `ground[y][x]`. */
    var ground: seq<seq<Cell>>
    var openedCount: int
    var markedCount: int
    var ended: bool

    /** The value of every square, kept in step with the cells of `ground`. */
    ghost var board: Board
    /** The cells `ground` holds. */
    ghost var Repr: set<Cell>
    /** Every notification the event emitter has sent so far, oldest first. */
    ghost var events: seq<Event>

    /** The getter `length`: the number of squares `initCells` creates. */
    function Length(): (n: int)
      ensures n == |Grid(width, height)|
    {
      GridCard(width, height);
      height * width
    }

    /** `ground` is a `height × width` grid of cells held in `Repr`, each at its own coordinate; `board` has the same squares. */
    ghost predicate Shaped()
      reads this`ground, this`Repr, this`board
    {
      |ground| == height &&
      (forall y :: 0 <= y < height ==> |ground[y]| == width) &&
      (forall y, x {:trigger ground[y][x]} :: 0 <= y < height && 0 <= x < width ==>
         ground[y][x] in Repr && ground[y][x].coordinate == (x, y)) &&
      Covers(board, width, height)
    }

    /** Every square of `board` holds the state of its cell. */
    ghost predicate Mirrored()
      reads this`ground, this`Repr, this`board, Repr
      requires Shaped()
    {
      forall y, x {:trigger ground[y][x]} :: 0 <= y < height && 0 <= x < width ==> board[(x, y)] == ground[y][x].State()
    }

    /** The grid and the board agree. */
    ghost predicate Wellformed()
      reads this`ground, this`Repr, this`board, Repr
    {
      Shaped() && Mirrored()
    }

    /**
     * The counters and the board agree: the board is the accepted size, `openedCount` counts
     * the opened squares without a mine, `markedCount` the flagged ones, every mine is counted
     * by its block, and the last square holds no mine.
     */
    ghost predicate Counted()
      reads this`board, this`openedCount, this`markedCount
    {
      Consistent(board, width, height, openedCount, markedCount)
    }

    /** The game's invariant. */
    ghost predicate Valid()
      reads this`ground, this`Repr, this`board, this`openedCount, this`markedCount, Repr
    {
      Wellformed() && Counted()
    }

    /** `cell` is the cell of the grid at its own coordinate. */
    ghost predicate OnGrid(cell: Cell)
      reads this`ground, this`Repr, this`board
    {
      Shaped() && InBounds(width, height, cell.coordinate) && ground[cell.coordinate.1][cell.coordinate.0] == cell
    }

    /** `cell.setStatus(s)` on a cell of the grid, with its square of `board` kept in step. */
    method SetCellStatus(cell: Cell, s: CellStatus)
      requires Wellformed() && OnGrid(cell)
      modifies this`board, cell
      ensures Wellformed()
      ensures board == old(board)[cell.coordinate := old(board)[cell.coordinate].(status := s)]
    {
      cell.SetStatus(s);
      board := board[cell.coordinate := cell.State()];
      forall y, x | 0 <= y < height && 0 <= x < width && (x, y) != cell.coordinate
        ensures board[(x, y)] == ground[y][x].State()
      {
        assert ground[y][x].coordinate == (x, y);
      }
    }

    /** `cell.layMine()` on a cell of the grid, with its square of `board` kept in step. */
    method LayMineOn(cell: Cell)
      requires Wellformed() && OnGrid(cell)
      modifies this`board, cell
      ensures Wellformed()
      ensures board == old(board)[cell.coordinate := old(board)[cell.coordinate].(mine := true)]
    {
      cell.LayMine();
      board := board[cell.coordinate := cell.State()];
      forall y, x | 0 <= y < height && 0 <= x < width && (x, y) != cell.coordinate
        ensures board[(x, y)] == ground[y][x].State()
      {
        assert ground[y][x].coordinate == (x, y);
      }
    }

    /** `cell.addAroundMineCount()` on a cell of the grid, with its square of `board` kept in step. */
    method AddAroundMineCountOn(cell: Cell)
      requires Wellformed() && OnGrid(cell)
      modifies this`board, cell
      ensures Wellformed()
      ensures board == old(board)[cell.coordinate :=
        old(board)[cell.coordinate].(aroundMineCount := old(board)[cell.coordinate].aroundMineCount + 1)]
    {
      cell.AddAroundMineCount();
      board := board[cell.coordinate := cell.State()];
      forall y, x | 0 <= y < height && 0 <= x < width && (x, y) != cell.coordinate
        ensures board[(x, y)] == ground[y][x].State()
      {
        assert ground[y][x].coordinate == (x, y);
      }
    }

    /** The board as the first open at `c` leaves it before anything is opened. */
    ghost function AfterScatter(b: Board, openedSoFar: int, c: Coordinate, draws: seq<int>): Board
      requires openedSoFar == 0 && InBounds(width, height, c) ==> DrawsFit(width, height, mineCount, [c], draws)
    {
      if openedSoFar == 0 && InBounds(width, height, c) then
        Scatter(b, Samples(width, height, mineCount, [c], draws))
      else b
    }

    constructor (width: nat, height: nat, mineCount: nat)
      requires mineCount < width * height
      ensures this.width == width && this.height == height && this.mineCount == mineCount
      ensures Valid() && fresh(Repr)
      ensures IsFresh(board, width, height) && openedCount == 0 && markedCount == 0 && !ended
      ensures events == []
    {
      this.width := width;
      this.height := height;
      this.mineCount := mineCount;
      openedCount := 0;
      markedCount := 0;
      ended := false;
      events := [];
      new;
      InitCells();
      FreshConsistent(board, width, height);
    }

    /** `reset`: a new game on the same engine; the mine count is not checked again. */
    method Reset()
      requires Valid()
      modifies this`ground, this`board, this`Repr, this`openedCount, this`markedCount, this`ended
      ensures Valid() && fresh(Repr)
      ensures IsFresh(board, width, height) && openedCount == 0 && markedCount == 0 && !ended
    {
      openedCount := 0;
      markedCount := 0;
      ended := false;
      InitCells();
      FreshConsistent(board, width, height);
    }

    /** `getCell`: the cell at `c`, or nothing when `c` is off the grid. */
    function GetCell(c: Coordinate): (r: Option<Cell>)
      reads this, Repr
      requires Wellformed()
      ensures r.Some? <==> InBounds(width, height, c)
      ensures r.Some? ==> r.value in Repr && r.value.coordinate == c && board[c] == r.value.State()
    {
      if 0 <= c.1 < |ground| && 0 <= c.0 < |ground[c.1]| then Some(ground[c.1][c.0]) else None
    }

    /** The inner loop of `initCells`: a fresh cell for each square of row `y`. */
    method NewRow(y: int) returns (row: seq<Cell>)
      ensures |row| == width
      ensures forall x :: 0 <= x < width ==>
        fresh(row[x]) && row[x].coordinate == (x, y) && row[x].State() == NewCellState
    {
      row := [];
      for x := 0 to width
        invariant |row| == x
        invariant forall x' :: 0 <= x' < x ==>
          fresh(row[x']) && row[x'].coordinate == (x', y) && row[x'].State() == NewCellState
      {
        var cell := new Cell((x, y));
        row := row + [cell];
      }
    }

    /** `initCells`: fresh cells on every square; each row is its own sequence. */
    method InitCells()
      modifies this`ground, this`board, this`Repr
      ensures Wellformed() && fresh(Repr) && IsFresh(board, width, height)
    {
      ground := seq(height, _ => []);
      Repr := {};
      for y := 0 to height
        invariant |ground| == height
        invariant forall y' :: 0 <= y' < height ==> |ground[y']| == if y' < y then width else 0
        invariant forall y', x :: 0 <= y' < y && 0 <= x < width ==>
          ground[y'][x] in Repr && ground[y'][x].coordinate == (x, y') && ground[y'][x].State() == NewCellState
        invariant fresh(Repr)
      {
        var row := NewRow(y);
        ground := ground[y := row];
        Repr := Repr + set x | 0 <= x < width :: row[x];
      }
      board := map c | c in Grid(width, height) :: NewCellState;
      GridMembers(width, height);
    }

    /**
     * `createRandomCoordinate`: the retry loop fed with `draws`, where the source calls
     * `Math.floor(Math.random() * (length - 1))`. It returns `mineCount` distinct squares that
     * avoid the excluded ones and the last square.
     */
    method CreateRandomCoordinate(excludes: seq<Coordinate>, draws: seq<int>) returns (mines: seq<Coordinate>)
      requires 0 < width && DrawsFit(width, height, mineCount, excludes, draws)
      ensures mines == Samples(width, height, mineCount, excludes, draws)
      ensures |mines| == mineCount && Distinct(mines)
      ensures forall k :: 0 <= k < |mines| ==> InBounds(width, height, mines[k])
      ensures forall e :: e in excludes && 0 <= e.0 < width && e.1 >= 0 ==> e !in mines
      ensures LastSquare(width, height) !in mines
    {
      var randoms: seq<int> := [];
      var i := 0;
      assert draws[..|draws|] == draws;
      while |randoms| < mineCount
        invariant 0 <= i <= |draws|
        invariant randoms == Picked(width, excludes, draws[..i])
        invariant |randoms| <= mineCount
        decreases |draws| - i
      {
        var random := draws[i];
        i := i + 1;
        assert draws[..i][..i - 1] == draws[..i - 1];
        if Excluded(width, excludes, random) {
          continue;
        }
        if random in randoms {
          continue;
        }
        randoms := randoms + [random];
      }
      PickedPrefix(width, excludes, draws, i);
      mines := ToCoordinates(width, randoms);
      SamplesDistinct(width, height, mineCount, excludes, draws);
      SamplesAvoid(width, height, mineCount, excludes, draws);
    }

    /**
     * `getAroundCells`: the cells of the 3 × 3 block centred on `c`, the centre included,
     * that lie on the grid, each once.
     */
    method GetAroundCells(c: Coordinate) returns (cells: seq<Cell>)
      requires Wellformed()
      ensures Distinct(CoordsOf(cells))
      ensures forall q :: q in CoordsOf(cells) <==> InBounds(width, height, q) && Near(c, q)
      ensures forall k :: 0 <= k < |cells| ==> OnGrid(cells[k]) && Near(c, cells[k].coordinate)
    {
      cells := [];
      for xOffset := -1 to 2
        invariant Distinct(CoordsOf(cells))
        invariant forall q :: q in CoordsOf(cells) <==>
          InBounds(width, height, q) && Near(c, q) && q.0 - c.0 < xOffset
        invariant forall k :: 0 <= k < |cells| ==> OnGrid(cells[k]) && Near(c, cells[k].coordinate)
      {
        for yOffset := -1 to 2
          invariant Distinct(CoordsOf(cells))
          invariant forall q :: q in CoordsOf(cells) <==>
            InBounds(width, height, q) && Near(c, q) &&
            (q.0 - c.0 < xOffset || (q.0 - c.0 == xOffset && q.1 - c.1 < yOffset))
          invariant forall k :: 0 <= k < |cells| ==> OnGrid(cells[k]) && Near(c, cells[k].coordinate)
        {
          var x := c.0 + xOffset;
          var y := c.1 + yOffset;
          var cell := GetCell((x, y));
          if cell.Some? {
            assert CoordsOf(cells + [cell.value]) == CoordsOf(cells) + [(x, y)];
            cells := cells + [cell.value];
          }
        }
      }
    }

    /** The `layMine` pass of `scatterMines`: a mine on the cell of each drawn square on the grid. */
    method LayMines(mines: seq<Coordinate>)
      requires Wellformed()
      modifies this`board, Repr
      ensures Wellformed() && board == Laid(old(board), mines)
    {
      ghost var before := board;
      for i := 0 to |mines|
        invariant Wellformed() && board == Laid(before, mines[..i])
      {
        assert mines[..i + 1][..i] == mines[..i];
        var cell := GetCell(mines[i]);
        if cell.Some? {
          LayMineOn(cell.value);
        }
      }
      assert mines[..|mines|] == mines;
    }

    /** One pass of `calculateCellMineCount`: one more on the counter of every cell around `m`. */
    method RaiseAround(m: Coordinate)
      requires Wellformed()
      modifies this`board, Repr
      ensures Wellformed() && board == RaiseBlock(old(board), m)
    {
      var cellsAround := GetAroundCells(m);
      ghost var qs := CoordsOf(cellsAround);
      ghost var before := board;
      for j := 0 to |cellsAround|
        invariant Wellformed() && board == Bumped(before, qs[..j])
      {
        RaiseNext(cellsAround[j], before, qs, j);
      }
      assert qs[..|qs|] == qs;
      BumpedAround(before, qs, m, width, height);
    }

    /** One more on the counter of `cell`, the `j`-th of the repetition-free block list `qs`. */
    method RaiseNext(cell: Cell, ghost before: Board, ghost qs: seq<Coordinate>, ghost j: int)
      requires Wellformed() && OnGrid(cell)
      requires 0 <= j < |qs| && qs[j] == cell.coordinate && Distinct(qs)
      requires board == Bumped(before, qs[..j])
      modifies this`board, cell
      ensures Wellformed() && board == Bumped(before, qs[..j + 1])
    {
      assert qs[..j + 1] == qs[..j] + [qs[j]];
      assert qs[j] !in qs[..j];
      BumpedStep(before, qs[..j], qs[j]);
      AddAroundMineCountOn(cell);
    }

    /** `calculateCellMineCount`: one more on the counter of every square in each mine's block. */
    method CalculateCellMineCount(mines: seq<Coordinate>)
      requires Wellformed()
      modifies this`board, Repr
      ensures Wellformed() && board == Raised(old(board), mines)
    {
      ghost var before := board;
      for i := 0 to |mines|
        invariant Wellformed() && board == Raised(before, mines[..i])
      {
        assert mines[..i + 1][..i] == mines[..i];
        RaiseAround(mines[i]);
      }
      assert mines[..|mines|] == mines;
    }

    /**
     * `scatterMines`: draw the mines, lay them, then raise the counters around them. Called only
     * while nothing safe is open; the drawn squares avoid the last one, so the board stays
     * consistent with the counters.
     */
    method ScatterMines(excludes: seq<Coordinate>, draws: seq<int>)
      requires Valid() && openedCount == 0 && DrawsFit(width, height, mineCount, excludes, draws)
      modifies this`board, Repr
      ensures Valid() && board == Scatter(old(board), Samples(width, height, mineCount, excludes, draws))
      ensures Untouched(board) == Untouched(old(board))
    {
      var mines := CreateRandomCoordinate(excludes, draws);
      LayMines(mines);
      CalculateCellMineCount(mines);
      assert board == Scatter(old(board), mines);
      ScatterConsistent(old(board), width, height, markedCount, mines);
    }

    /** `end`: the game is lost and "end" is emitted. */
    method End() returns (emitted: seq<Event>)
      modifies this`ended
      ensures ended && emitted == [Event.End]
    {
      ended := true;
      emitted := [Event.End];
    }

    /** `isWon`: every mine is flagged, by count, and every other square is open. */
    predicate IsWon()
      reads this`markedCount, this`openedCount
      ensures IsWon() <==> markedCount == mineCount && openedCount == Length() - mineCount
    {
      WinRule(markedCount, openedCount, mineCount, Length())
    }

    /**
     * On a valid game whose board holds exactly `mineCount` mines, `isWon` holds exactly when
     * the flags sit on the mines and every other square is open.
     */
    lemma IsWonOnBoard()
      requires Valid() && |Mines(board)| == mineCount
      ensures IsWon() <==> MarkedSquares(board) == Mines(board) && OpenedSafe(board) == board.Keys - Mines(board)
    {
      CoversCard(board, width, height);
      WinMeansSolved(board, mineCount);
    }

    /** `judge`: emit "win" whenever the win rule holds. */
    method Judge() returns (emitted: seq<Event>)
      ensures emitted == if IsWon() then [Win] else []
    {
      if !IsWon() {
        return [];
      }
      emitted := [Win];
    }

    /**
     * `openCellsRecursively`: on the first open, scatter mines first; then open `c` if it is
     * untouched, stop at a mine, and spread to the whole block when the counter is 0.
     */
    method OpenCellsRecursively(c: Coordinate, draws: seq<int>) returns (emitted: seq<Event>)
      requires Valid()
      requires openedCount == 0 && InBounds(width, height, c) ==> DrawsFit(width, height, mineCount, [c], draws)
      modifies this`board, this`openedCount, this`ended, Repr
      decreases Untouched(board), 3
      ensures Valid() && openedCount >= old(openedCount)
      ensures FloodOpened(AfterScatter(old(board), old(openedCount), c, draws), board, c)
      ensures ended == (old(ended) || OpensMine(AfterScatter(old(board), old(openedCount), c, draws), c))
      ensures emitted == if OpensMine(AfterScatter(old(board), old(openedCount), c, draws), c) then [Event.End] else []
    {
      var cell := GetCell(c);
      if cell.None? {
        FloodNone(board, c);
        return [];
      }
      if openedCount == 0 {
        ScatterMines([c], draws);
      }
      emitted := OpenTarget(cell.value, draws);
    }

    /**
     * The rest of `openCellsRecursively` once any scatter is done: open the target if it is
     * untouched; a mine ends the game, a safe square is counted and spreads the flood.
     */
    method OpenTarget(target: Cell, draws: seq<int>) returns (emitted: seq<Event>)
      requires Valid() && OnGrid(target)
      modifies this`board, this`openedCount, this`ended, Repr
      decreases Untouched(board), 2
      ensures Valid() && openedCount >= old(openedCount)
      ensures FloodOpened(old(board), board, target.coordinate)
      ensures ended == (old(ended) || OpensMine(old(board), target.coordinate))
      ensures emitted == if OpensMine(old(board), target.coordinate) then [Event.End] else []
    {
      var c := target.coordinate;
      if !target.Openable() {
        FloodNone(board, c);
        return [];
      }
      ghost var mid := board;
      OpenSquare(target);
      if target.mine {
        FloodOne(mid, c);
        emitted := End();
        return;
      }
      emitted := SpreadFrom(target, draws, mid);
    }

    /** `cell.setStatus(opened)` on an untouched cell: counted once it is known to be safe. */
    method OpenSquare(target: Cell)
      requires Valid() && OnGrid(target) && board[target.coordinate].status == Initial
      modifies this`board, target
      ensures Wellformed() && board == old(board)[target.coordinate := old(board)[target.coordinate].(status := Opened)]
      ensures Consistent(board, width, height, openedCount + (if board[target.coordinate].mine then 0 else 1), markedCount)
    {
      OpenConsistent(board, width, height, openedCount, markedCount, target.coordinate);
      SetCellStatus(target, Opened);
    }

    /**
     * The end of `openCellsRecursively` on a safe square just opened: it is counted, then a zero
     * square floods its block and any other square stops there.
     */
    method SpreadFrom(target: Cell, draws: seq<int>, ghost mid: Board) returns (emitted: seq<Event>)
      requires Wellformed() && OnGrid(target) && 0 <= openedCount
      requires Consistent(board, width, height, openedCount + 1, markedCount)
      requires target.coordinate in mid && mid[target.coordinate].status == Initial && !mid[target.coordinate].mine
      requires board == mid[target.coordinate := mid[target.coordinate].(status := Opened)]
      modifies this`board, this`openedCount, this`ended, Repr
      decreases Untouched(mid), 1
      ensures Valid() && openedCount > old(openedCount) && ended == old(ended) && emitted == []
      ensures FloodOpened(mid, board, target.coordinate)
    {
      openedCount := openedCount + 1;
      var c := target.coordinate;
      if target.aroundMineCount == 0 {
        FloodStart(mid, c);
        emitted := OpenAround(c, draws, mid);
      } else {
        FloodOne(mid, c);
        emitted := [];
      }
    }

    /**
     * The `forEach` of `openCellsRecursively` over the block of the zero square `c`: the flood
     * from each of its squares in turn. None of them holds a mine, so nothing is emitted.
     */
    method OpenAround(c: Coordinate, draws: seq<int>, ghost mid: Board) returns (emitted: seq<Event>)
      requires Valid() && openedCount > 0
      requires Spreading(mid, board, c) && Untouched(board) < Untouched(mid)
      modifies this`board, this`openedCount, this`ended, Repr
      decreases Untouched(mid), 0
      ensures Valid() && openedCount >= old(openedCount) && ended == old(ended)
      ensures FloodOpened(mid, board, c) && emitted == []
    {
      var around := GetAroundCells(c);
      ghost var qs := CoordsOf(around);
      emitted := [];
      for i := 0 to |around|
        invariant Valid() && openedCount >= old(openedCount) && ended == old(ended) && emitted == []
        invariant Spreading(mid, board, c) && Untouched(board) < Untouched(mid)
        invariant forall k :: 0 <= k < i ==> qs[k] in board && board[qs[k]].status != Initial
      {
        var e := OpenNext(c, around[i].coordinate, draws, mid, qs, i);
        emitted := emitted + e;
      }
      FloodFinish(mid, board, c, qs, width, height);
    }

    /** One step of the spread from the zero square `c`: the flood from `next`, a square of its block. */
    method OpenNext(c: Coordinate, next: Coordinate, draws: seq<int>, ghost mid: Board, ghost qs: seq<Coordinate>, ghost i: int) returns (emitted: seq<Event>)
      requires Valid() && openedCount > 0
      requires Spreading(mid, board, c) && Untouched(board) < Untouched(mid)
      requires next in board && Near(c, next)
      requires 0 <= i < |qs| && qs[i] == next
      requires forall k :: 0 <= k < i ==> qs[k] in board && board[qs[k]].status != Initial
      ensures forall k :: 0 <= k < i + 1 ==> qs[k] in board && board[qs[k]].status != Initial
      modifies this`board, this`openedCount, this`ended, Repr
      decreases Untouched(board), 4
      ensures Valid() && openedCount >= old(openedCount) && ended == old(ended) && emitted == []
      ensures Spreading(mid, board, c) && Untouched(board) < Untouched(mid)
      ensures forall q :: q in old(board) && old(board)[q].status != Initial ==> board[q].status != Initial
      ensures board[next].status != Initial
    {
      assert !board[next].mine;
      emitted := OpenCellsRecursively(next, draws);
      FloodStep(mid, old(board), board, c, next);
    }

    /**
     * `openCell`: the flood from `c`, then `judge`, out of bounds too. "end" comes only from
     * the target itself, and never together with "win".
     */
    method OpenCell(c: Coordinate, draws: seq<int>) returns (emitted: seq<Event>)
      requires Valid()
      requires openedCount == 0 && InBounds(width, height, c) ==> DrawsFit(width, height, mineCount, [c], draws)
      modifies this`board, this`openedCount, this`ended, this`events, Repr
      ensures Valid() && events == old(events) + emitted
      ensures FloodOpened(AfterScatter(old(board), old(openedCount), c, draws), board, c)
      ensures ended == (old(ended) || OpensMine(AfterScatter(old(board), old(openedCount), c, draws), c))
      ensures emitted ==
        (if OpensMine(AfterScatter(old(board), old(openedCount), c, draws), c) then [Event.End] else []) +
        (if IsWon() then [Win] else [])
      ensures OpensMine(AfterScatter(old(board), old(openedCount), c, draws), c) ==> !IsWon()
    {
      emitted := OpenCellsRecursively(c, draws);
      if OpensMine(AfterScatter(old(board), old(openedCount), c, draws), c) {
        NoWinAfterLoss(board, c, mineCount);
        CoversCard(board, width, height);
      }
      var won := Judge();
      emitted := emitted + won;
      events := events + emitted;
    }

    /** `mark`: flag `cell` if it is untouched; any other cell is left alone. */
    method Mark(cell: Cell)
      requires Wellformed() && OnGrid(cell)
      modifies this`markedCount, this`board, cell
      ensures Wellformed()
      ensures board == if old(cell.status) == Initial then Toggled(old(board), cell.coordinate) else old(board)
      ensures markedCount == old(markedCount) + (if old(cell.status) == Initial then 1 else 0)
    {
      ghost var b, c := board, cell.coordinate;
      assert b[c] == cell.State();
      if !cell.Openable() {
        return;
      }
      SetCellStatus(cell, Marked);
      markedCount := markedCount + 1;
    }

    /** `removeMark`: take the flag off `cell` if it has one; any other cell is left alone. */
    method RemoveMark(cell: Cell)
      requires Wellformed() && OnGrid(cell)
      modifies this`markedCount, this`board, cell
      ensures Wellformed()
      ensures board == if old(cell.status) == Marked then Toggled(old(board), cell.coordinate) else old(board)
      ensures markedCount == old(markedCount) - (if old(cell.status) == Marked then 1 else 0)
    {
      ghost var b, c := board, cell.coordinate;
      assert b[c] == cell.State();
      if cell.status != Marked {
        return;
      }
      SetCellStatus(cell, Initial);
      markedCount := markedCount - 1;
    }

    /**
     * `toggleMark`: flag or unflag the square at `c`; `judge` runs only when `c` is on the grid.
     */
    method ToggleMark(c: Coordinate) returns (emitted: seq<Event>)
      requires Valid()
      modifies this`markedCount, this`board, this`events, Repr
      ensures Valid() && events == old(events) + emitted
      ensures board == Toggled(old(board), c)
      ensures markedCount == old(markedCount) +
        (if c !in old(board) then 0
         else if old(board)[c].status == Marked then -1
         else if old(board)[c].status == Initial then 1
         else 0)
      ensures emitted == if InBounds(width, height, c) && IsWon() then [Win] else []
    {
      var cell := GetCell(c);
      if cell.None? {
        return [];
      }
      ghost var m := markedCount + (if board[c].status == Marked then -1 else if board[c].status == Initial then 1 else 0);
      ToggleConsistent(board, width, height, openedCount, markedCount, c);
      if cell.value.status == Marked {
        RemoveMark(cell.value);
      } else {
        Mark(cell.value);
      }
      assert Counted() by {
        assert markedCount == m;
      }
      emitted := Judge();
      events := events + emitted;
    }
  }

  /** `new Game(options)`: refused with 'invalid mine count' unless some square stays free of mines. */
  method NewGame(width: nat, height: nat, mineCount: nat) returns (r: Construction)
    ensures r.InvalidMineCount? <==> mineCount >= width * height
    ensures r.Created? ==> fresh(r.game) && r.game.Valid() && fresh(r.game.Repr)
    ensures r.Created? ==> r.game.width == width && r.game.height == height && r.game.mineCount == mineCount
    ensures r.Created? ==>
      IsFresh(r.game.board, width, height) && r.game.openedCount == 0 &&
      r.game.markedCount == 0 && !r.game.ended && r.game.events == []
  {
    if mineCount >= width * height {
      return InvalidMineCount;
    }
    var game := new Game(width, height, mineCount);
    return Created(game);
  }
}
