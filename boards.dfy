/**
 * The mine field as a value: the state of every square by coordinate, with the sets the game's
 * counters count and the effect of each game step (src/model/Game.ts), stated as functions and
 * relations on such values.
 */
module Boards {
  import opened Cells
  import opened Coordinates
  import opened Collections
  import opened Sampling

  /** The state of the square at each in-grid coordinate. */
  type Board = map<Coordinate, CellState>

  /** `b` has a square exactly at the coordinates of a `width × height` grid. */
  ghost predicate Covers(b: Board, width: int, height: int) {
    forall c :: c in b <==> InBounds(width, height, c)
  }

  /** The squares of row `y` left of column `width`. */
  function Row(width: nat, y: int): set<Coordinate> {
    if width == 0 then {} else Row(width - 1, y) + {(width - 1, y)}
  }

  /** The squares of the first `height` rows of a grid `width` squares wide. */
  function Grid(width: nat, height: nat): set<Coordinate> {
    if height == 0 then {} else Grid(width, height - 1) + Row(width, height - 1)
  }

  lemma {:induction false} RowFacts(width: nat, y: int)
    ensures forall c :: c in Row(width, y) <==> c.1 == y && 0 <= c.0 < width
    ensures |Row(width, y)| == width
  {
    if width > 0 {
      RowFacts(width - 1, y);
    }
  }

  lemma {:induction false} GridMembers(width: nat, height: nat)
    ensures forall c :: c in Grid(width, height) <==> InBounds(width, height, c)
  {
    if height > 0 {
      GridMembers(width, height - 1);
      RowFacts(width, height - 1);
    }
  }

  lemma {:induction false} GridCard(width: nat, height: nat)
    ensures |Grid(width, height)| == width * height
  {
    if height > 0 {
      var h := height - 1;
      GridCard(width, h);
      GridCardStep(width, h);
      MulSucc(width, h);
      assert |Grid(width, h + 1)| == width * (h + 1);
    }
  }

  /** The next row shares no square with the rows above it. */
  lemma GridCardStep(width: nat, y: nat)
    ensures |Grid(width, y + 1)| == |Grid(width, y)| + width
  {
    var above, row := Grid(width, y), Row(width, y);
    GridMembers(width, y);
    RowFacts(width, y);
    assert above * row == {} by {
      forall c | c in row
        ensures c !in above
      {
      }
    }
    assert Grid(width, y + 1) == above + row;
  }

  lemma MulSucc(a: int, b: int)
    ensures a * b + a == a * (b + 1)
  {
  }

  /** A board covering a `width × height` grid has `width * height` squares: the getter `length`. */
  lemma CoversCard(b: Board, width: nat, height: nat)
    requires Covers(b, width, height)
    ensures |b| == width * height
  {
    GridMembers(width, height);
    GridCard(width, height);
    assert b.Keys == Grid(width, height);
  }

  /** What `initCells` builds: every square of the grid untouched, mine-free, with counter 0. */
  ghost predicate IsFresh(b: Board, width: int, height: int) {
    Covers(b, width, height) && forall c :: c in b ==> b[c] == NewCellState
  }

  /**
   * A board with no mine laid yet: every square of the grid is mine-free with counter 0,
   * whatever its status. A fresh board is one, and flagging squares keeps it one.
   */
  ghost predicate Unmined(b: Board, width: int, height: int) {
    Covers(b, width, height) && forall q :: q in b ==> !b[q].mine && b[q].aroundMineCount == 0
  }

  /** The squares `openedCount` counts: opened and without a mine. */
  function OpenedSafe(b: Board): set<Coordinate> {
    set c | c in b && b[c].status == Opened && !b[c].mine
  }

  /** The squares `markedCount` counts. */
  function MarkedSquares(b: Board): set<Coordinate> {
    set c | c in b && b[c].status == Marked
  }

  function Mines(b: Board): set<Coordinate> {
    set c | c in b && b[c].mine
  }

  /** The squares that can still be opened or marked. */
  function Untouched(b: Board): set<Coordinate> {
    set c | c in b && b[c].status == Initial
  }

  /** The mines in the 3 × 3 block centred on `p`, `p` included, clipped at the edges. */
  function MinesNear(b: Board, p: Coordinate): set<Coordinate> {
    set q | q in b && b[q].mine && Near(p, q)
  }

  /**
   * Counters are never negative and every mine is counted by every square of its block, so a
   * counter of 0 guarantees a mine-free block. This keeps the flood fill from opening a mine.
   */
  predicate MinesCounted(b: Board) {
    (forall p :: p in b ==> b[p].aroundMineCount >= 0) &&
    forall p, q {:trigger Near(p, q)} :: p in b && q in b && Near(p, q) && b[q].mine ==> b[p].aroundMineCount > 0
  }

  /** A fresh board has nothing open, flagged or mined, and every counter invariant holds. */
  lemma FreshFacts(b: Board, width: int, height: int)
    requires IsFresh(b, width, height)
    ensures OpenedSafe(b) == {} && MarkedSquares(b) == {} && Mines(b) == {} && Untouched(b) == b.Keys
    ensures MinesCounted(b) && Unmined(b, width, height)
  {
  }

  /**
   * What the game's counters say about its board: the grid is a non-empty `width × height`
   * one, `openedCount` counts the opened safe squares,
   * `markedCount` the flagged ones, every mine is counted by its block, and the last square,
   * which is never drawn, holds no mine.
   */
  ghost predicate Consistent(b: Board, width: int, height: int, openedCount: int, markedCount: int) {
    0 < width && 0 < height && Covers(b, width, height) &&
    openedCount == |OpenedSafe(b)| && markedCount == |MarkedSquares(b)| &&
    MinesCounted(b) && !b[LastSquare(width, height)].mine
  }

  /** A fresh board of the accepted size is consistent with both counters at 0. */
  lemma FreshConsistent(b: Board, width: int, height: int)
    requires IsFresh(b, width, height) && 0 < width && 0 < height
    ensures Consistent(b, width, height, 0, 0)
    ensures Untouched(b) == b.Keys
  {
    FreshFacts(b, width, height);
    assert LastSquare(width, height) in b;
  }

  // ---------------------------------------------------------------------------------------------
  // Scattering mines

  /** How many of `mines` lie in the block of `q`, counted one mine at a time. */
  function CountNear(mines: seq<Coordinate>, q: Coordinate): nat {
    if mines == [] then 0
    else CountNear(mines[..|mines| - 1], q) + (if Near(mines[|mines| - 1], q) then 1 else 0)
  }

  /** The board after `layMine` on the square of each of `mines`, one mine at a time. */
  function Laid(b: Board, mines: seq<Coordinate>): Board
    decreases |mines|
  {
    if mines == [] then b else Lay(Laid(b, mines[..|mines| - 1]), mines[|mines| - 1])
  }

  /** One `layMine`: only the square of `m` changes, and only when `m` is on the board. */
  function Lay(b: Board, m: Coordinate): (a: Board)
    ensures a.Keys == b.Keys
  {
    if m in b then b[m := b[m].(mine := true)] else b
  }

  /** The board after one `addAroundMineCount` on every square of the block of `m`. */
  function RaiseBlock(b: Board, m: Coordinate): Board {
    map q | q in b :: b[q].(aroundMineCount := b[q].aroundMineCount + (if Near(m, q) then 1 else 0))
  }

  /** The board after the counters are raised around each of `mines`, one mine at a time. */
  function Raised(b: Board, mines: seq<Coordinate>): Board
    decreases |mines|
  {
    if mines == [] then b else RaiseBlock(Raised(b, mines[..|mines| - 1]), mines[|mines| - 1])
  }

  /** The board after `scatterMines` with the drawn squares `mines`: first laid, then counted. */
  function Scatter(b: Board, mines: seq<Coordinate>): Board {
    Raised(Laid(b, mines), mines)
  }

  /** Laying `mines` sets the flag of exactly the squares among them and changes nothing else. */
  lemma {:induction false} LaidAt(b: Board, mines: seq<Coordinate>)
    ensures var a := Laid(b, mines);
      a.Keys == b.Keys && forall q :: q in b ==> a[q] == b[q].(mine := b[q].mine || q in mines)
  {
    if mines != [] {
      var init, last := mines[..|mines| - 1], mines[|mines| - 1];
      LaidAt(b, init);
      assert mines == init + [last];
    }
  }

  /** Raising around `mines` adds to each counter the number of them whose block holds it. */
  lemma {:induction false} RaisedAt(b: Board, mines: seq<Coordinate>)
    ensures var a := Raised(b, mines);
      a.Keys == b.Keys &&
      forall q :: q in b ==> a[q] == b[q].(aroundMineCount := b[q].aroundMineCount + CountNear(mines, q))
  {
    if mines != [] {
      RaisedAt(b, mines[..|mines| - 1]);
    }
  }

  /** The board after one `addAroundMineCount` on each square of the list `qs`. */
  function Bumped(b: Board, qs: seq<Coordinate>): Board {
    map q | q in b :: b[q].(aroundMineCount := b[q].aroundMineCount + (if q in qs then 1 else 0))
  }

  /** Raising one more square of a repetition-free list changes that square's counter only. */
  lemma BumpedStep(b: Board, qs: seq<Coordinate>, q: Coordinate)
    requires q in b && q !in qs
    ensures var a := Bumped(b, qs);
      Bumped(b, qs + [q]) == a[q := a[q].(aroundMineCount := a[q].aroundMineCount + 1)]
  {
    var a := Bumped(b, qs);
    assert Bumped(b, qs + [q]).Keys == a[q := a[q].(aroundMineCount := a[q].aroundMineCount + 1)].Keys;
  }

  /** Raising exactly the in-grid squares of the block of `m` is raising the block of `m`. */
  lemma BumpedAround(b: Board, qs: seq<Coordinate>, m: Coordinate, width: int, height: int)
    requires Covers(b, width, height)
    requires forall q :: q in qs <==> InBounds(width, height, q) && Near(m, q)
    ensures Bumped(b, qs) == RaiseBlock(b, m)
  {
  }

  /** For distinct mines, the accumulated count is the number of them in the block. */
  lemma {:induction false} CountNearCard(mines: seq<Coordinate>, q: Coordinate)
    requires Distinct(mines)
    ensures CountNear(mines, q) == |set m | m in mines && Near(q, m)|
  {
    if mines != [] {
      var init, last := mines[..|mines| - 1], mines[|mines| - 1];
      assert mines == init + [last];
      assert Distinct(init);
      CountNearCard(init, q);
      var s := set m | m in init && Near(q, m);
      if Near(last, q) {
        assert (set m | m in mines && Near(q, m)) == s + {last};
        assert last !in s;
      } else {
        assert (set m | m in mines && Near(q, m)) == s;
      }
    }
  }

  /** A mine among `mines` counts for every square of its block. */
  lemma {:induction false} CountNearPositive(mines: seq<Coordinate>, m: Coordinate, q: Coordinate)
    requires m in mines && Near(m, q)
    ensures CountNear(mines, q) >= 1
  {
    var init := mines[..|mines| - 1];
    if mines[|mines| - 1] != m {
      assert m in init;
      CountNearPositive(init, m, q);
    }
  }

  /**
   * Scattering changes no status, only adds mines and raises counters, and keeps every mine
   * counted by its block. When nothing safe is open yet, nothing safe is open afterwards.
   */
  lemma ScatterKeeps(b: Board, mines: seq<Coordinate>)
    requires MinesCounted(b)
    ensures var a := Scatter(b, mines);
      a.Keys == b.Keys && MinesCounted(a) &&
      (forall q :: q in b ==> a[q].status == b[q].status && a[q].mine == (b[q].mine || q in mines)) &&
      MarkedSquares(a) == MarkedSquares(b) && Untouched(a) == Untouched(b) &&
      OpenedSafe(a) == OpenedSafe(b) - Elems(mines)
  {
    var a := Scatter(b, mines);
    LaidAt(b, mines);
    RaisedAt(Laid(b, mines), mines);
    forall p, q | p in a && q in a && Near(p, q) && a[q].mine
      ensures a[p].aroundMineCount > 0
    {
      assert a[p].aroundMineCount == b[p].aroundMineCount + CountNear(mines, p);
      assert a[q].mine == (b[q].mine || q in mines);
      if b[q].mine {
        assert b[p].aroundMineCount > 0;
      } else {
        assert q in mines;
        CountNearPositive(mines, q, p);
      }
    }
  }

  /** Scattering mines that avoid the last square keeps a board with nothing safe open consistent. */
  lemma ScatterConsistent(b: Board, width: int, height: int, markedCount: int, mines: seq<Coordinate>)
    requires Consistent(b, width, height, 0, markedCount)
    requires LastSquare(width, height) !in mines
    ensures Consistent(Scatter(b, mines), width, height, 0, markedCount)
    ensures Untouched(Scatter(b, mines)) == Untouched(b)
  {
    ScatterKeeps(b, mines);
    assert LastSquare(width, height) in b;
    assert OpenedSafe(b) == {};
  }

  /**
   * The first scatter, on a board with no mine yet: the mines are exactly the drawn squares,
   * and every counter equals the number of mines in its edge-clipped 3 × 3 block, centre
   * included.
   */
  lemma ScatterOnUnmined(b: Board, width: int, height: int, mines: seq<Coordinate>)
    requires Unmined(b, width, height) && Distinct(mines)
    requires forall k :: 0 <= k < |mines| ==> InBounds(width, height, mines[k])
    ensures var a := Scatter(b, mines);
      Mines(a) == Elems(mines) && |Mines(a)| == |mines| &&
      forall q :: q in a ==> a[q].aroundMineCount == |MinesNear(a, q)|
  {
    var a := Scatter(b, mines);
    LaidAt(b, mines);
    RaisedAt(Laid(b, mines), mines);
    assert Mines(a) == Elems(mines);
    DistinctCard(mines);
    forall q | q in a
      ensures a[q].aroundMineCount == |MinesNear(a, q)|
    {
      CountNearCard(mines, q);
      assert MinesNear(a, q) == set m | m in mines && Near(q, m);
    }
  }

  /**
   * What the first `openCell` at `c` scatters on a board with no mine yet, flags or not:
   * `mineCount` mines, none at `c` and none at the last square, with exact counters, so a
   * counter of 0 means a mine-free block.
   */
  lemma FirstScatter(b: Board, width: int, height: int, mineCount: nat, c: Coordinate, draws: seq<int>)
    requires width > 0 && Unmined(b, width, height) && InBounds(width, height, c)
    requires DrawsFit(width, height, mineCount, [c], draws)
    ensures var a := Scatter(b, Samples(width, height, mineCount, [c], draws));
      |Mines(a)| == mineCount && c !in Mines(a) && LastSquare(width, height) !in Mines(a) &&
      (forall q :: q in a ==> a[q].aroundMineCount == |MinesNear(a, q)|) &&
      (forall p, q :: p in a && q in a && Near(p, q) && a[p].aroundMineCount == 0 ==> !a[q].mine)
  {
    var s := Samples(width, height, mineCount, [c], draws);
    SamplesDistinct(width, height, mineCount, [c], draws);
    SamplesAvoid(width, height, mineCount, [c], draws);
    ScatterOnUnmined(b, width, height, s);
    var a := Scatter(b, s);
    forall p, q | p in a && q in a && Near(p, q) && a[p].aroundMineCount == 0
      ensures !a[q].mine
    {
      assert |MinesNear(a, p)| == 0;
      assert q !in MinesNear(a, p);
    }
  }

  // ---------------------------------------------------------------------------------------------
  // Marking

  /** `toggleMark` on the square `c`: a flag comes off, an untouched square gets one. */
  function Toggled(b: Board, c: Coordinate): Board {
    if c !in b then b
    else if b[c].status == Marked then b[c := b[c].(status := Initial)]
    else if b[c].status == Initial then b[c := b[c].(status := Marked)]
    else b
  }

  /** Toggling the same square twice restores the board, whatever the square's status. */
  lemma ToggleTwice(b: Board, c: Coordinate)
    ensures Toggled(Toggled(b, c), c) == b
  {
    if c in b && b[c].status != Opened {
      assert Toggled(Toggled(b, c), c)[c] == b[c];
      assert Toggled(Toggled(b, c), c).Keys == b.Keys;
    }
  }

  /**
   * A toggle moves the marked count by exactly one (down for a flagged square, up for an
   * untouched one, not at all for an opened one) and leaves every other count alone. Only
   * statuses change, so a board with no mine yet keeps having none.
   */
  lemma ToggleCounts(b: Board, c: Coordinate)
    ensures var a := Toggled(b, c);
      a.Keys == b.Keys && Mines(a) == Mines(b) && OpenedSafe(a) == OpenedSafe(b) &&
      (forall q :: q in b ==> a[q] == b[q].(status := a[q].status)) &&
      (MinesCounted(b) ==> MinesCounted(a)) &&
      |MarkedSquares(a)| == |MarkedSquares(b)| +
        (if c !in b then 0 else if b[c].status == Marked then -1 else if b[c].status == Initial then 1 else 0)
  {
    var a := Toggled(b, c);
    if c in b && b[c].status == Marked {
      assert MarkedSquares(a) == MarkedSquares(b) - {c};
    } else if c in b && b[c].status == Initial {
      assert MarkedSquares(a) == MarkedSquares(b) + {c};
    }
    assert OpenedSafe(a) == OpenedSafe(b);
    assert Mines(a) == Mines(b);
  }

  /** A toggle keeps the board consistent with the marked count moved as `ToggleCounts` says. */
  lemma ToggleConsistent(b: Board, width: int, height: int, openedCount: int, markedCount: int, c: Coordinate)
    requires Consistent(b, width, height, openedCount, markedCount)
    ensures Consistent(Toggled(b, c), width, height, openedCount, markedCount +
      (if c !in b then 0 else if b[c].status == Marked then -1 else if b[c].status == Initial then 1 else 0))
  {
    ToggleCounts(b, c);
    assert LastSquare(width, height) in b;
  }

  // ---------------------------------------------------------------------------------------------
  // Winning and losing

  /** `isWon`, over the two counters. */
  predicate WinRule(markedCount: int, openedCount: int, mineCount: int, length: int) {
    markedCount == mineCount && markedCount + openedCount == length
  }

  /**
   * When the board holds exactly `mineCount` mines, the win rule over the counted sets holds
   * exactly when the flags sit on the mines and every other square is open.
   */
  lemma WinMeansSolved(b: Board, mineCount: int)
    requires |Mines(b)| == mineCount
    ensures WinRule(|MarkedSquares(b)|, |OpenedSafe(b)|, mineCount, |b|) <==>
      MarkedSquares(b) == Mines(b) && OpenedSafe(b) == b.Keys - Mines(b)
  {
    var m, o, k := MarkedSquares(b), OpenedSafe(b), b.Keys;
    assert m * o == {};
    assert |m + o| == |m| + |o|;
    assert m + o <= k;
    if WinRule(|m|, |o|, mineCount, |b|) {
      SubsetCard(m + o, k);
      assert m + o == k;
      assert Mines(b) <= m;
      SubsetCard(Mines(b), m);
      assert o == k - Mines(b);
    }
  }

  /** While an opened mine lies on the board the counters can never meet the win rule. */
  lemma NoWinAfterLoss(b: Board, q: Coordinate, mineCount: int)
    requires q in b && b[q].status == Opened && b[q].mine
    ensures !WinRule(|MarkedSquares(b)|, |OpenedSafe(b)|, mineCount, |b|)
  {
    var m, o := MarkedSquares(b), OpenedSafe(b);
    assert m * o == {};
    assert |m + o| == |m| + |o|;
    assert m + o <= b.Keys - {q};
    SubsetCard(m + o, b.Keys - {q});
  }

  // ---------------------------------------------------------------------------------------------
  // Opening

  /** `after` comes from `before` by opening untouched squares and nothing else. */
  predicate Opens(before: Board, after: Board) {
    before.Keys == after.Keys &&
    forall q :: q in before ==>
      after[q] == before[q] || (before[q].status == Initial && after[q] == before[q].(status := Opened))
  }

  /** The square `q` was untouched in `before` and is open in `after`. */
  predicate NewlyOpened(before: Board, after: Board, q: Coordinate) {
    q in before && q in after && before[q].status == Initial && after[q].status == Opened
  }

  /** An opened square from which the flood spreads: no mine, counter 0. */
  predicate Spreads(b: Board, p: Coordinate) {
    p in b && !b[p].mine && b[p].aroundMineCount == 0
  }

  /** No square other than the target `c` was opened onto a mine. */
  ghost predicate SafeBeyond(before: Board, after: Board, c: Coordinate) {
    forall q :: NewlyOpened(before, after, q) && q != c ==> !before[q].mine
  }

  /** Every zero square opened along the way, other than `c`, has no untouched square left in its block. */
  ghost predicate ClosedBut(before: Board, after: Board, c: Coordinate) {
    forall p, q {:trigger Near(p, q)} :: NewlyOpened(before, after, p) && p != c && Spreads(after, p) && q in after && Near(p, q) ==>
      after[q].status != Initial
  }

  /** Every zero square opened along the way has no untouched square left in its block. */
  ghost predicate Closed(before: Board, after: Board) {
    forall p, q {:trigger Near(p, q)} :: NewlyOpened(before, after, p) && Spreads(after, p) && q in after && Near(p, q) ==>
      after[q].status != Initial
  }

  /** `q` lies in the block of a zero square opened along the way that `rank` puts before it. */
  ghost predicate Justified(before: Board, after: Board, rank: Coordinate -> nat, q: Coordinate) {
    exists p :: NewlyOpened(before, after, p) && Spreads(after, p) && Near(p, q) && rank(p) < rank(q)
  }

  /**
   * `rank` orders the squares opened along the way so that every one of them other than `c`
   * lies in the block of a zero square opened along the way with a smaller rank. Following
   * smaller ranks from any opened square therefore ends at `c` (`ChainBack`).
   */
  ghost predicate RankedFrom(before: Board, after: Board, c: Coordinate, rank: Coordinate -> nat) {
    forall q :: NewlyOpened(before, after, q) && q != c ==> Justified(before, after, rank, q)
  }

  /** Every square opened along the way is linked back to `c` by a chain of opened zero squares. */
  ghost predicate Reached(before: Board, after: Board, c: Coordinate) {
    exists rank :: RankedFrom(before, after, c, rank)
  }

  /**
   * The effect of `openCellsRecursively` at `c` once any scatter is done: an untouched target
   * is opened; only untouched squares are opened, marked and open ones stay as they are;
   * nothing but the target is opened onto a mine; the zero region around the target is opened
   * together with its boundary ring and nothing beyond it, every opened square being linked
   * back to the target; a mine, a non-zero target or a square that is not untouched stops
   * everything at once.
   */
  ghost predicate FloodOpened(before: Board, after: Board, c: Coordinate) {
    Opens(before, after) && SafeBeyond(before, after, c) && Closed(before, after) && Reached(before, after, c) &&
    (c in before && before[c].status == Initial ==> after[c].status == Opened) &&
    (c !in before || before[c].status != Initial ==> after == before) &&
    (c in before && before[c].status == Initial && before[c].mine ==> after == before[c := before[c].(status := Opened)]) &&
    (c in before && before[c].status == Initial && before[c].aroundMineCount != 0 ==> after == before[c := before[c].(status := Opened)])
  }

  /** Following smaller ranks from an opened square `q` leads back to `c` along opened zero squares. */
  lemma {:induction false} ChainFrom(before: Board, after: Board, c: Coordinate, rank: Coordinate -> nat, q: Coordinate)
    returns (path: seq<Coordinate>)
    requires RankedFrom(before, after, c, rank) && NewlyOpened(before, after, q)
    ensures |path| >= 1 && path[0] == c && path[|path| - 1] == q
    ensures forall k :: 0 <= k < |path| ==> NewlyOpened(before, after, path[k])
    ensures forall k :: 0 <= k < |path| - 1 ==> Spreads(after, path[k]) && Near(path[k], path[k + 1])
    decreases rank(q)
  {
    if q == c {
      path := [c];
    } else {
      assert Justified(before, after, rank, q);
      var p :| NewlyOpened(before, after, p) && Spreads(after, p) && Near(p, q) && rank(p) < rank(q);
      var init := ChainFrom(before, after, c, rank, p);
      path := init + [q];
    }
  }

  /**
   * The flood is connected: every square it opens is reached from the target `c` by a path of
   * neighbouring squares it opened, each but the last a zero square without a mine.
   */
  lemma ChainBack(before: Board, after: Board, c: Coordinate, q: Coordinate) returns (path: seq<Coordinate>)
    requires FloodOpened(before, after, c) && NewlyOpened(before, after, q)
    ensures |path| >= 1 && path[0] == c && path[|path| - 1] == q
    ensures forall k :: 0 <= k < |path| ==> NewlyOpened(before, after, path[k])
    ensures forall k :: 0 <= k < |path| - 1 ==> Spreads(after, path[k]) && Near(path[k], path[k + 1])
  {
    var rank :| RankedFrom(before, after, c, rank);
    path := ChainFrom(before, after, c, rank, q);
  }

  /** Another flood from `c` over the same board opens every square along a path the first one opened. */
  lemma {:induction false} PathOpened(before: Board, a1: Board, a2: Board, c: Coordinate, path: seq<Coordinate>, k: nat)
    requires Opens(before, a1) && FloodOpened(before, a2, c)
    requires |path| >= 1 && path[0] == c
    requires forall j :: 0 <= j < |path| ==> NewlyOpened(before, a1, path[j])
    requires forall j :: 0 <= j < |path| - 1 ==> Spreads(a1, path[j]) && Near(path[j], path[j + 1])
    requires k < |path|
    ensures NewlyOpened(before, a2, path[k])
  {
    if k > 0 {
      PathOpened(before, a1, a2, c, path, k - 1);
      var p, q := path[k - 1], path[k];
      assert Spreads(a2, p);
      assert a2[q].status != Initial;
    }
  }

  /**
   * `FloodOpened` pins the board down: two boards that both result from the flood from `c`
   * over `before` are equal. Each square one of them opened is linked back to `c`
   * (`ChainBack`), and the other opens the whole chain.
   */
  lemma FloodUnique(before: Board, a1: Board, a2: Board, c: Coordinate)
    requires FloodOpened(before, a1, c) && FloodOpened(before, a2, c)
    ensures a1 == a2
  {
    forall q | NewlyOpened(before, a1, q)
      ensures NewlyOpened(before, a2, q)
    {
      var path := ChainBack(before, a1, c, q);
      PathOpened(before, a1, a2, c, path, |path| - 1);
    }
    forall q | NewlyOpened(before, a2, q)
      ensures NewlyOpened(before, a1, q)
    {
      var path := ChainBack(before, a2, c, q);
      PathOpened(before, a2, a1, c, path, |path| - 1);
    }
    forall q | q in a1
      ensures a1[q] == a2[q]
    {
      if NewlyOpened(before, a1, q) {
        assert NewlyOpened(before, a2, q);
      } else {
        assert !NewlyOpened(before, a2, q);
      }
    }
  }

  /** Opening `c` steps on a mine: `c` is an untouched mine. */
  predicate OpensMine(b: Board, c: Coordinate) {
    c in b && b[c].status == Initial && b[c].mine
  }

  /** Opening only takes squares out of the untouched set. */
  lemma OpensShrinks(a: Board, b: Board)
    requires Opens(a, b)
    ensures Untouched(b) <= Untouched(a)
    ensures forall q :: q in a && a[q].status != Initial ==> b[q].status != Initial
  {
  }

  /** Opening one untouched square: what happens to the counted sets. */
  lemma OpenOne(b: Board, c: Coordinate)
    requires c in b && b[c].status == Initial
    ensures var a := b[c := b[c].(status := Opened)];
      Opens(b, a) && NewlyOpened(b, a, c) &&
      MarkedSquares(a) == MarkedSquares(b) && Mines(a) == Mines(b) &&
      Untouched(a) == Untouched(b) - {c} && c in Untouched(b) &&
      (MinesCounted(b) ==> MinesCounted(a)) &&
      OpenedSafe(a) == (if b[c].mine then OpenedSafe(b) else OpenedSafe(b) + {c}) && c !in OpenedSafe(b)
  {
    var a := b[c := b[c].(status := Opened)];
    assert MarkedSquares(a) == MarkedSquares(b);
    assert Mines(a) == Mines(b);
    assert Untouched(a) == Untouched(b) - {c};
    if b[c].mine {
      assert OpenedSafe(a) == OpenedSafe(b);
    } else {
      assert OpenedSafe(a) == OpenedSafe(b) + {c};
    }
  }

  /** Opening one untouched square keeps the board consistent, counting it when it is safe. */
  lemma OpenConsistent(b: Board, width: int, height: int, openedCount: int, markedCount: int, c: Coordinate)
    requires Consistent(b, width, height, openedCount, markedCount)
    requires c in b && b[c].status == Initial
    ensures Consistent(b[c := b[c].(status := Opened)], width, height,
      openedCount + (if b[c].mine then 0 else 1), markedCount)
  {
    OpenOne(b, c);
    assert LastSquare(width, height) in b;
  }

  /** A target that is not untouched, or off the grid, is left alone. */
  lemma FloodNone(b: Board, c: Coordinate)
    requires c !in b || b[c].status != Initial
    ensures FloodOpened(b, b, c)
  {
    var rank: Coordinate -> nat := q => 0;
    assert RankedFrom(b, b, c, rank);
  }

  /** A target that is a mine or has a non-zero counter is opened alone. */
  lemma FloodOne(b: Board, c: Coordinate)
    requires c in b && b[c].status == Initial && (b[c].mine || b[c].aroundMineCount != 0)
    ensures FloodOpened(b, b[c := b[c].(status := Opened)], c)
  {
    var a := b[c := b[c].(status := Opened)];
    assert forall q :: NewlyOpened(b, a, q) ==> q == c;
    var rank: Coordinate -> nat := q => 0;
    assert RankedFrom(b, a, c, rank);
  }

  /**
   * The flood from the zero square `c` part-way: `c` has been opened, and everything opened so
   * far behaves as the finished flood requires, except that `c`'s own block may still hold
   * untouched squares.
   */
  ghost predicate Spreading(mid: Board, b: Board, c: Coordinate) {
    Opens(mid, b) && NewlyOpened(mid, b, c) && Spreads(b, c) &&
    SafeBeyond(mid, b, c) && ClosedBut(mid, b, c) && Reached(mid, b, c)
  }

  /** Opening an untouched zero square without a mine starts its flood. */
  lemma FloodStart(b: Board, c: Coordinate)
    requires c in b && b[c].status == Initial && !b[c].mine && b[c].aroundMineCount == 0
    ensures Spreading(b, b[c := b[c].(status := Opened)], c)
    ensures Untouched(b[c := b[c].(status := Opened)]) < Untouched(b)
  {
    var a := b[c := b[c].(status := Opened)];
    OpenOne(b, c);
    assert forall q :: NewlyOpened(b, a, q) ==> q == c;
    var rank: Coordinate -> nat := q => 0;
    assert RankedFrom(b, a, c, rank);
  }

  /**
   * One recursive call of the flood on a neighbour `t` of the zero square `c` keeps what the
   * flood from `c` has established so far.
   */
  lemma FloodStep(mid: Board, b: Board, b': Board, c: Coordinate, t: Coordinate)
    requires Spreading(mid, b, c)
    requires t in b && Near(c, t) && !b[t].mine
    requires FloodOpened(b, b', t)
    ensures Spreading(mid, b', c) && Untouched(b') <= Untouched(b)
    ensures b'[t].status != Initial
    ensures forall q :: q in b && b[q].status != Initial ==> b'[q].status != Initial
  {
    var r1 :| RankedFrom(mid, b, c, r1);
    var r2 :| RankedFrom(b, b', t, r2);
    var rank := RankStep(mid, b, b', c, t, r1, r2);
    forall q | NewlyOpened(mid, b', q) && q != c
      ensures !mid[q].mine
    {
      if !NewlyOpened(mid, b, q) {
        assert NewlyOpened(b, b', q);
      }
    }
    forall p, q | NewlyOpened(mid, b', p) && p != c && Spreads(b', p) && q in b' && Near(p, q)
      ensures b'[q].status != Initial
    {
      if NewlyOpened(mid, b, p) {
        assert b[q].status != Initial;
      } else {
        assert NewlyOpened(b, b', p);
      }
    }
  }

  /**
   * The order of one recursive call on the neighbour `t` of `c` extends the order of the flood
   * from `c`: the squares the call opened rank after `c`, in the call's own order.
   */
  lemma RankStep(mid: Board, b: Board, b': Board, c: Coordinate, t: Coordinate,
                 r1: Coordinate -> nat, r2: Coordinate -> nat) returns (rank: Coordinate -> nat)
    requires Opens(mid, b) && Opens(b, b') && NewlyOpened(mid, b, c) && Spreads(b, c) && Near(c, t)
    requires RankedFrom(mid, b, c, r1) && RankedFrom(b, b', t, r2)
    ensures RankedFrom(mid, b', c, rank)
  {
    rank := q => if NewlyOpened(b, b', q) then r1(c) + 1 + r2(q) else r1(q);
    forall q | NewlyOpened(mid, b', q) && q != c
      ensures exists p :: NewlyOpened(mid, b', p) && Spreads(b', p) && Near(p, q) && rank(p) < rank(q)
    {
      if NewlyOpened(mid, b, q) {
        var p :| NewlyOpened(mid, b, p) && Spreads(b, p) && Near(p, q) && r1(p) < r1(q);
        assert NewlyOpened(mid, b', p) && Spreads(b', p);
      } else {
        assert NewlyOpened(b, b', q);
        if q == t {
          assert NewlyOpened(mid, b', c) && Spreads(b', c) && Near(c, q);
        } else {
          var p :| NewlyOpened(b, b', p) && Spreads(b', p) && Near(p, q) && r2(p) < r2(q);
          assert NewlyOpened(mid, b', p);
        }
      }
    }
  }

  /**
   * Once every square of its block is touched, the zero square `c` closes the flood; `qs` lists
   * the block's squares on a `width × height` grid.
   */
  lemma FloodFinish(mid: Board, b: Board, c: Coordinate, qs: seq<Coordinate>, width: int, height: int)
    requires Spreading(mid, b, c) && Covers(b, width, height)
    requires forall q :: q in qs <==> InBounds(width, height, q) && Near(c, q)
    requires forall k :: 0 <= k < |qs| ==> qs[k] in b && b[qs[k]].status != Initial
    ensures FloodOpened(mid, b, c)
  {
    forall q | q in b && Near(c, q)
      ensures b[q].status != Initial
    {
      var k :| 0 <= k < |qs| && qs[k] == q;
    }
  }
}
