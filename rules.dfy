/** The rules of the game stated over plain values: a board maps every grid
    coordinate to the kind of cell stored there, and the snake's body is the
    head-to-tail sequence of its coordinates. The engine in game_state.dfy is
    proved against these definitions. */
module Rules {
  import opened Geometry

  type Board = map<Position, GridValue>

  /** The coordinates of the board that hold `v`. */
  ghost function CellsWith(board: Board, v: GridValue): set<Position>
  {
    set p | p in board && board[p] == v
  }

  /** The board of the given coordinates with every cell Empty. */
  ghost function Blank(cells: set<Position>): (board: Board)
    ensures board.Keys == cells
    ensures forall p :: p in board ==> board[p] == Empty
  {
    map p | p in cells :: Empty
  }

  /** No coordinate appears twice in the body. */
  ghost predicate NoDup(body: seq<Position>)
  {
    forall i, j :: 0 <= i < j < |body| ==> body[i] != body[j]
  }

  /** The board's Snake cells are exactly the body's cells, all on the board. */
  ghost predicate Coupled(board: Board, body: seq<Position>)
  {
    (forall p :: p in body ==> p in board) &&
    (forall p :: p in board ==> (board[p] == Snake <==> p in body))
  }

  /** `Outside` is never stored on the board. */
  ghost predicate NoOutside(board: Board)
  {
    forall p :: p in board ==> board[p] != Outside
  }

  /** Exactly one Food cell, or none at all when no Empty cell is left for one. */
  ghost predicate FoodOk(board: Board)
  {
    |CellsWith(board, Food)| == 1 ||
    (CellsWith(board, Food) == {} && CellsWith(board, Empty) == {})
  }

  /** The invariant that every reachable game state keeps. */
  ghost predicate Consistent(board: Board, body: seq<Position>)
  {
    |body| > 0 && NoDup(body) && Coupled(board, body) && NoOutside(board) && FoodOk(board)
  }

  /** `after` is `before` with food placed: unchanged when no cell is Empty,
      otherwise one previously Empty cell, whichever, turned into Food. */
  ghost predicate FoodPlaced(before: Board, after: Board)
  {
    if CellsWith(before, Empty) == {} then after == before
    else exists p :: p in CellsWith(before, Empty) && after == before[p := Food]
  }

  /** What a snake whose body is `body` meets when its head moves to `p`: Outside
      off the board, Empty on the tail cell (the tail leaves in the same tick),
      and otherwise whatever the board stores there. */
  ghost function Classify(board: Board, body: seq<Position>, p: Position): GridValue
    requires |body| > 0
  {
    if p !in board then Outside
    else if p == body[|body| - 1] then Empty
    else board[p]
  }

  /** Under the invariant the classification is a collision exactly when the
      target is off the board or on the body apart from its tail, and food
      exactly when the board stores food there. */
  lemma ClassifyMeaning(board: Board, body: seq<Position>, p: Position)
    requires Consistent(board, body)
    ensures Classify(board, body, p) == Outside <==> p !in board
    ensures Classify(board, body, p) == Snake <==> p in body[..|body| - 1]
    ensures Classify(board, body, p) == Food <==> p in board && board[p] == Food
    ensures Classify(board, body, p) == Empty <==>
              p in board && (p == body[|body| - 1] || board[p] == Empty)
  {
    var n := |body|;
    if p in body[..n - 1] {
      var i :| 0 <= i < n - 1 && body[i] == p;
      assert p != body[n - 1];
    }
  }

  /** A body that moves one cell (head added at `head`, tail dropped) keeps the
      invariant, also when the new head is the cell the tail leaves. */
  lemma SlideKeepsConsistent(board: Board, body: seq<Position>, head: Position)
    requires Consistent(board, body)
    requires Classify(board, body, head) == Empty
    ensures Consistent(board[body[|body| - 1] := Empty][head := Snake], [head] + body[..|body| - 1])
  {
    var n := |body|;
    var tail := body[n - 1];
    var after := board[tail := Empty][head := Snake];
    var body' := [head] + body[..n - 1];
    ClassifyMeaning(board, body, head);
    assert head !in body[..n - 1];
    forall i, j | 0 <= i < j < |body'| ensures body'[i] != body'[j] {
      if i > 0 {
        assert body'[i] == body[i - 1] && body'[j] == body[j - 1];
      }
    }
    forall p | p in board ensures after[p] == Snake <==> p in body' {
      if p != head && p != tail {
        assert p in body <==> p in body[..n - 1] by {
          if p in body {
            var i :| 0 <= i < n && body[i] == p;
            assert i < n - 1;
            assert body[..n - 1][i] == p;
          }
        }
      }
    }
    forall p | p in body' ensures p in after {
      if p != head {
        assert p in body;
      }
    }
    assert CellsWith(after, Food) == CellsWith(board, Food);
    if head != tail {
      assert head in CellsWith(board, Empty);
    } else {
      assert after == board;
    }
  }

  /** A body that grows onto a Food cell no longer leaves any food on the board
      and keeps the rest of the invariant. */
  lemma EatClearsFood(board: Board, body: seq<Position>, head: Position)
    requires Consistent(board, body)
    requires head in board && board[head] == Food
    ensures var after := board[head := Snake];
            |[head] + body| > 0 && NoDup([head] + body) && Coupled(after, [head] + body) &&
            NoOutside(after) && CellsWith(after, Food) == {}
  {
    var after := board[head := Snake];
    var body' := [head] + body;
    assert head !in body;
    forall i, j | 0 <= i < j < |body'| ensures body'[i] != body'[j] {
      if i > 0 {
        assert body'[i] == body[i - 1] && body'[j] == body[j - 1];
      }
    }
    var food := CellsWith(board, Food);
    assert head in food;
    assert |food - {head}| == |food| - 1;
    assert CellsWith(after, Food) == food - {head};
  }

  /** Placing food on a board without food re-establishes the invariant. */
  lemma PlaceFoodKeepsConsistent(board: Board, body: seq<Position>, after: Board)
    requires |body| > 0 && NoDup(body) && Coupled(board, body) && NoOutside(board)
    requires CellsWith(board, Food) == {}
    requires FoodPlaced(board, after)
    ensures Consistent(after, body)
  {
    if CellsWith(board, Empty) != {} {
      var p :| p in CellsWith(board, Empty) && after == board[p := Food];
      assert CellsWith(after, Food) == {p};
    }
  }

  /** Growing onto food and then placing new food keeps the invariant. */
  lemma GrowKeepsConsistent(board: Board, body: seq<Position>, head: Position, after: Board)
    requires Consistent(board, body)
    requires Classify(board, body, head) == Food
    requires FoodPlaced(board[head := Snake], after)
    ensures Consistent(after, [head] + body)
  {
    ClassifyMeaning(board, body, head);
    EatClearsFood(board, body, head);
    PlaceFoodKeepsConsistent(board[head := Snake], [head] + body, after);
  }

  /** `to` is a real turn away from `from`: neither straight on nor a reversal. */
  predicate Turns(from: Direction, to: Direction)
  {
    to != from && to != from.Opposite()
  }

  /** Every queued direction is a real turn from the one it follows, the first
      following the current direction. */
  ghost predicate QueueChain(current: Direction, queue: seq<Direction>)
    decreases |queue|
  {
    queue == [] || (Turns(current, queue[0]) && QueueChain(queue[0], queue[1..]))
  }

  /** The direction the snake ends up with once every queued turn has been
      applied, one per tick. */
  ghost function Drain(current: Direction, queue: seq<Direction>): Direction
    decreases |queue|
  {
    if queue == [] then current else Drain(queue[0], queue[1..])
  }

  /** Draining the queue leaves the last queued direction, or the current one
      when nothing is queued. */
  lemma {:induction false} DrainIsLast(current: Direction, queue: seq<Direction>)
    ensures Drain(current, queue) == if queue == [] then current else queue[|queue| - 1]
    decreases |queue|
  {
    if queue != [] {
      DrainIsLast(queue[0], queue[1..]);
    }
  }

  /** Appending `d` keeps the chain exactly when `d` turns away from the
      direction the queue drains to. */
  lemma {:induction false} ChainAppend(current: Direction, queue: seq<Direction>, d: Direction)
    ensures QueueChain(current, queue + [d]) <==> QueueChain(current, queue) && Turns(Drain(current, queue), d)
    decreases |queue|
  {
    if queue != [] {
      assert (queue + [d])[0] == queue[0];
      assert (queue + [d])[1..] == queue[1..] + [d];
      ChainAppend(queue[0], queue[1..], d);
    }
  }

  /** Applying a chained queue one entry per tick never reverses the snake:
      no applied direction is the opposite of the one before it. */
  lemma {:induction false} ChainNeverReverses(current: Direction, queue: seq<Direction>)
    requires QueueChain(current, queue)
    ensures forall i :: 0 <= i < |queue| ==>
              queue[i] != (if i == 0 then current else queue[i - 1]).Opposite()
    decreases |queue|
  {
    if queue != [] {
      ChainNeverReverses(queue[0], queue[1..]);
      forall i | 1 <= i < |queue|
        ensures queue[i] != queue[i - 1].Opposite()
      {
        assert queue[i] == queue[1..][i - 1];
        if i > 1 {
          assert queue[i - 1] == queue[1..][i - 2];
        }
      }
    }
  }

  /** The board of a new game before food is placed: every cell of `cells`
      Empty except the three body cells on row `r`, columns 1 to 3. */
  ghost function StartBoard(cells: set<Position>, r: int): Board
  {
    Blank(cells)[Position(r, 1) := Snake][Position(r, 2) := Snake][Position(r, 3) := Snake]
  }

  /** A new game, a 3-cell snake heading right on an otherwise Empty board with
      food then placed, satisfies the invariant. */
  lemma StartConsistent(cells: set<Position>, r: int, after: Board)
    requires Position(r, 1) in cells && Position(r, 2) in cells && Position(r, 3) in cells
    requires FoodPlaced(StartBoard(cells, r), after)
    ensures Consistent(after, [Position(r, 3), Position(r, 2), Position(r, 1)])
  {
    var body := [Position(r, 3), Position(r, 2), Position(r, 1)];
    var start := StartBoard(cells, r);
    assert Coupled(start, body);
    assert CellsWith(start, Food) == {};
    PlaceFoodKeepsConsistent(start, body, after);
  }
}
