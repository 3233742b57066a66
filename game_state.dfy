/** The snake game's rule engine: a fixed grid, the snake's body, a short queue
    of pending turns, the current heading, the score and the game-over flag,
    all updated in place by `ChangeDirection` and by the per-tick `Move`. */
module SnakeGame {
  import opened Geometry
  import opened Rules

  /** `p` comes before `q` in row-major order. */
  predicate Before(p: Position, q: Position)
  {
    p.row < q.row || (p.row == q.row && p.column < q.column)
  }

  /** The coordinates of a `rows` by `columns` grid. */
  ghost function GridCells(rows: int, columns: int): (s: set<Position>)
    ensures forall p :: p in s <==> 0 <= p.row < rows && 0 <= p.column < columns
  {
    var s := set r, c | 0 <= r < rows && 0 <= c < columns :: Position(r, c);
    assert forall p: Position :: 0 <= p.row < rows && 0 <= p.column < columns ==> Position(p.row, p.column) in s;
    s
  }

  class GameState {
    const rows: int
    const columns: int
    const grid: array2<GridValue>
    var dir: Direction
    var score: int
    var gameOver: bool
    /** Pending turns, oldest first. */
    var directionChanges: seq<Direction>
    /** The body, head first and tail last. */
    var snakePositions: seq<Position>
    /** The grid's contents as a board, updated together with `grid`. */
    ghost var board: Board

    /** The grid array has the game's dimensions. */
    predicate Shape()
    {
      grid.Length0 == rows && grid.Length1 == columns
    }

    /** `board` holds exactly the grid's coordinates, each with the grid's value. */
    ghost predicate Mirrors()
      reads this`board, grid
    {
      Shape() && board.Keys == GridCells(rows, columns) &&
      forall p :: p in board ==> board[p] == grid[p.row, p.column]
    }

    /** The object invariant: the rules' invariant on the board and body, the
        turn queue chained and at most two long, and the score equal to the
        number of cells the snake has grown by since its 3-cell start. */
    ghost predicate Valid()
      reads this, grid
    {
      Mirrors() && Consistent(board, snakePositions) &&
      QueueChain(dir, directionChanges) && |directionChanges| <= 2 &&
      score == |snakePositions| - 3
    }

    /** A new game: all-Empty grid, a 3-cell snake on the middle row in columns
        3 (head), 2 and 1 (tail) heading Right, and food on one Empty cell. */
    constructor (rows: int, columns: int)
      requires rows >= 1 && columns >= 4
      ensures Valid() && fresh(grid)
      ensures this.rows == rows && this.columns == columns
      ensures snakePositions == [Position(rows / 2, 3), Position(rows / 2, 2), Position(rows / 2, 1)]
      ensures dir == Right && score == 0 && !gameOver && directionChanges == []
      ensures FoodPlaced(StartBoard(GridCells(rows, columns), rows / 2), board)
    {
      this.rows := rows;
      this.columns := columns;
      var g := NewGrid(rows, columns);
      grid := g;
      dir := Right;
      score := 0;
      gameOver := false;
      directionChanges := [];
      snakePositions := [];
      board := Blank(GridCells(rows, columns));
      new;
      Populate();
    }

    /** Places the initial snake and then the first food on an all-Empty grid. */
    method Populate()
      requires Mirrors() && rows >= 1 && columns >= 4 && snakePositions == []
      requires board == Blank(GridCells(rows, columns))
      modifies this`snakePositions, this`board, grid
      ensures Mirrors() && Consistent(board, snakePositions)
      ensures snakePositions == [Position(rows / 2, 3), Position(rows / 2, 2), Position(rows / 2, 1)]
      ensures FoodPlaced(StartBoard(GridCells(rows, columns), rows / 2), board)
    {
      AddSnake();
      AddFood();
      StartConsistent(GridCells(rows, columns), rows / 2, board);
    }

    /** Stores `v` in the grid cell at `p`, keeping `board` in step. */
    method Paint(p: Position, v: GridValue)
      requires Mirrors() && p in board
      modifies this`board, grid
      ensures Mirrors()
      ensures board == old(board)[p := v]
    {
      grid[p.row, p.column] := v;
      board := board[p := v];
    }

    /** A fresh grid of the given dimensions with every cell Empty. */
    static method NewGrid(rows: int, columns: int) returns (g: array2<GridValue>)
      requires rows >= 0 && columns >= 0
      ensures fresh(g) && g.Length0 == rows && g.Length1 == columns
      ensures forall i, j :: 0 <= i < rows && 0 <= j < columns ==> g[i, j] == Empty
    {
      g := new GridValue[rows, columns]((r, c) => Empty);
    }

    /** Paints the initial 3-cell snake onto the middle row, columns 1 to 3 of an
        all-Empty grid, each new cell becoming the head. */
    method AddSnake()
      requires Mirrors() && rows >= 1 && columns >= 4 && snakePositions == []
      requires board == Blank(GridCells(rows, columns))
      modifies this`snakePositions, this`board, grid
      ensures Mirrors()
      ensures snakePositions == [Position(rows / 2, 3), Position(rows / 2, 2), Position(rows / 2, 1)]
      ensures board == StartBoard(GridCells(rows, columns), rows / 2)
    {
      var r := rows / 2;
      for c := 1 to 4
        invariant Mirrors()
        invariant |snakePositions| == c - 1
        invariant forall k :: 0 <= k < c - 1 ==> snakePositions[k] == Position(r, c - 1 - k)
        invariant board == if c == 1 then Blank(GridCells(rows, columns))
                           else if c == 2 then Blank(GridCells(rows, columns))[Position(r, 1) := Snake]
                           else if c == 3 then Blank(GridCells(rows, columns))[Position(r, 1) := Snake][Position(r, 2) := Snake]
                           else StartBoard(GridCells(rows, columns), r)
      {
        Paint(Position(r, c), Snake);
        snakePositions := [Position(r, c)] + snakePositions;
      }
    }

    /** Every Empty cell of the grid, in row-major order. */
    method EmptyPosition() returns (empty: seq<Position>)
      requires Mirrors()
      ensures forall p :: p in empty <==> p in board && board[p] == Empty
      ensures forall i, j :: 0 <= i < j < |empty| ==> Before(empty[i], empty[j])
    {
      empty := [];
      for r := 0 to rows
        invariant forall p :: p in empty <==> p in board && p.row < r && board[p] == Empty
        invariant forall i, j :: 0 <= i < j < |empty| ==> Before(empty[i], empty[j])
        invariant forall i :: 0 <= i < |empty| ==> Before(empty[i], Position(r, 0))
      {
        empty := ScanRow(r, empty);
      }
    }

    /** `found` followed by the Empty cells of row `r`, left to right. */
    method ScanRow(r: int, found: seq<Position>) returns (empty: seq<Position>)
      requires Mirrors() && 0 <= r < rows
      requires forall i, j :: 0 <= i < j < |found| ==> Before(found[i], found[j])
      requires forall i :: 0 <= i < |found| ==> Before(found[i], Position(r, 0))
      ensures forall p :: p in empty <==>
                p in found || (p in board && p.row == r && board[p] == Empty)
      ensures forall i, j :: 0 <= i < j < |empty| ==> Before(empty[i], empty[j])
      ensures forall i :: 0 <= i < |empty| ==> Before(empty[i], Position(r + 1, 0))
    {
      empty := found;
      for c := 0 to columns
        invariant forall p :: p in empty <==>
                    p in found || (p in board && p.row == r && p.column < c && board[p] == Empty)
        invariant forall i, j :: 0 <= i < j < |empty| ==> Before(empty[i], empty[j])
        invariant forall i :: 0 <= i < |empty| ==> Before(empty[i], Position(r, c))
      {
        if grid[r, c] == Empty {
          assert board[Position(r, c)] == Empty;
          empty := empty + [Position(r, c)];
        }
      }
    }

    /** Turns one Empty cell, whichever, into Food; does nothing when no cell
        is Empty. */
    method AddFood()
      requires Mirrors()
      modifies this`board, grid
      ensures Mirrors()
      ensures FoodPlaced(old(board), board)
    {
      var empty := EmptyPosition();
      if |empty| == 0 {
        assert CellsWith(board, Empty) == {};
        return;
      }
      var i :| 0 <= i < |empty|;
      var pos := empty[i];
      assert pos in empty;
      Paint(pos, Food);
      assert pos in CellsWith(old(board), Empty);
    }

    /** The head cell; under the invariant a Snake cell of the grid. */
    function HeadPosition(): (p: Position)
      requires |snakePositions| > 0
      reads this
      ensures Coupled(board, snakePositions) ==> p in board && board[p] == Snake
    {
      snakePositions[0]
    }

    /** The tail cell; under the invariant a Snake cell of the grid. */
    function TailPosition(): (p: Position)
      requires |snakePositions| > 0
      reads this
      ensures Coupled(board, snakePositions) ==> p in board && board[p] == Snake
    {
      snakePositions[|snakePositions| - 1]
    }

    /** Makes `pos` the new head and marks its cell Snake. */
    method AddHead(pos: Position)
      requires Mirrors() && pos in board
      modifies this`snakePositions, this`board, grid
      ensures Mirrors()
      ensures snakePositions == [pos] + old(snakePositions)
      ensures board == old(board)[pos := Snake]
    {
      snakePositions := [pos] + snakePositions;
      Paint(pos, Snake);
    }

    /** Clears the tail's cell and drops the tail from the body. */
    method RemoveTail()
      requires Mirrors() && |snakePositions| > 0 && snakePositions[|snakePositions| - 1] in board
      modifies this`snakePositions, this`board, grid
      ensures Mirrors()
      ensures snakePositions == old(snakePositions[..|snakePositions| - 1])
      ensures board == old(board)[old(snakePositions[|snakePositions| - 1]) := Empty]
    {
      var tail := snakePositions[|snakePositions| - 1];
      Paint(tail, Empty);
      snakePositions := snakePositions[..|snakePositions| - 1];
    }

    /** The heading the snake will have once every pending turn is applied. */
    function GetLastDirection(): (d: Direction)
      reads this
      ensures d == Drain(dir, directionChanges)
    {
      DrainIsLast(dir, directionChanges);
      if |directionChanges| == 0 then dir else directionChanges[|directionChanges| - 1]
    }

    /** Whether `newDir` may be queued: under the chain invariant, exactly when
        fewer than two turns are pending and the queue stays chained with it. */
    function CanChangeDirection(newDir: Direction): (ok: bool)
      reads this
      ensures QueueChain(dir, directionChanges) ==>
                (ok <==> |directionChanges| < 2 && QueueChain(dir, directionChanges + [newDir]))
    {
      var lastDirection := GetLastDirection();
      ChainAppend(dir, directionChanges, newDir);
      if |directionChanges| < 2 then newDir != lastDirection && newDir != lastDirection.Opposite()
      else false
    }

    /** Queues `newDir` when it is accepted; otherwise nothing changes. */
    method ChangeDirection(newDir: Direction)
      requires Valid()
      modifies this`directionChanges
      ensures Valid()
      ensures directionChanges ==
                if old(CanChangeDirection(newDir)) then old(directionChanges) + [newDir]
                else old(directionChanges)
    {
      if CanChangeDirection(newDir) {
        directionChanges := directionChanges + [newDir];
      }
    }

    /** Whether `p` lies beyond the grid's edge. */
    function OutsideGrid(p: Position): (outside: bool)
      ensures outside <==> p !in GridCells(rows, columns)
    {
      p.row < 0 || p.row >= rows || p.column < 0 || p.column >= columns
    }

    /** What the head meets at `p`: the rules' classification of `p` on the
        current board and body, read off the grid (`Rules.ClassifyMeaning`
        says what each answer means under the invariant). */
    function WillHit(p: Position): (hit: GridValue)
      requires Mirrors() && |snakePositions| > 0
      reads this, grid
      ensures hit == Classify(board, snakePositions, p)
    {
      if OutsideGrid(p) then Outside
      else if p != TailPosition() then grid[p.row, p.column]
      else Empty
    }

    /** One tick: apply the oldest pending turn, then move the head one cell,
        ending the game on a wall or the body, sliding into an Empty cell (or
        the cell the tail leaves), or growing onto Food with a point scored and
        new food placed. */
    method Move()
      requires Valid()
      modifies this, grid
      ensures Valid()
      ensures old(directionChanges) == [] ==> dir == old(dir) && directionChanges == []
      ensures old(directionChanges) != [] ==>
                dir == old(directionChanges[0]) && directionChanges == old(directionChanges[1..])
      ensures dir != old(dir).Opposite()
      ensures old(gameOver) ==> gameOver
      ensures score >= old(score)
      ensures var newHead := old(HeadPosition()).Translate(dir);
              var hit := Classify(old(board), old(snakePositions), newHead);
              hit == Outside || hit == Snake ==>
                gameOver && score == old(score) &&
                snakePositions == old(snakePositions) && board == old(board)
      ensures var newHead := old(HeadPosition()).Translate(dir);
              var hit := Classify(old(board), old(snakePositions), newHead);
              hit == Empty ==>
                gameOver == old(gameOver) && score == old(score) &&
                snakePositions == [newHead] + old(snakePositions[..|snakePositions| - 1]) &&
                board == old(board)[old(TailPosition()) := Empty][newHead := Snake]
      ensures var newHead := old(HeadPosition()).Translate(dir);
              var hit := Classify(old(board), old(snakePositions), newHead);
              hit == Food ==>
                gameOver == old(gameOver) && score == old(score) + 1 &&
                snakePositions == [newHead] + old(snakePositions) &&
                FoodPlaced(old(board)[newHead := Snake], board)
    {
      if |directionChanges| > 0 {
        dir := directionChanges[0];
        directionChanges := directionChanges[1..];
      }
      assert QueueChain(dir, directionChanges) && dir != old(dir).Opposite();

      var newHeadPosition := HeadPosition().Translate(dir);
      var hit := WillHit(newHeadPosition);
      if hit == Outside || hit == Snake {
        gameOver := true;
      } else if hit == Empty {
        Slide(newHeadPosition);
      } else if hit == Food {
        Grow(newHeadPosition);
      }
    }

    /** The Empty branch of a tick: the tail leaves its cell and `newHead` becomes
        the head. */
    method Slide(newHead: Position)
      requires Valid()
      requires Classify(board, snakePositions, newHead) == Empty
      modifies this`snakePositions, this`board, grid
      ensures Valid()
      ensures snakePositions == [newHead] + old(snakePositions[..|snakePositions| - 1])
      ensures board == old(board)[old(TailPosition()) := Empty][newHead := Snake]
    {
      SlideKeepsConsistent(board, snakePositions, newHead);
      ClassifyMeaning(board, snakePositions, newHead);
      RemoveTail();
      AddHead(newHead);
    }

    /** The Food branch of a tick: `newHead` becomes the head, the body keeps its
        tail, a point is scored and new food is placed. */
    method Grow(newHead: Position)
      requires Valid()
      requires Classify(board, snakePositions, newHead) == Food
      modifies this`snakePositions, this`score, this`board, grid
      ensures Valid()
      ensures snakePositions == [newHead] + old(snakePositions)
      ensures score == old(score) + 1
      ensures FoodPlaced(old(board)[newHead := Snake], board)
    {
      ghost var before, body := board, snakePositions;
      ClassifyMeaning(before, body, newHead);
      AddHead(newHead);
      score := score + 1;
      AddFood();
      GrowKeepsConsistent(before, body, newHead, board);
    }
  }
}
