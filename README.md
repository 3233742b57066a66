# Snake game rule engine in Dafny

This project models the rule engine of a grid-based snake game, the class
`GameState` of SnakeWpf/GameState.cs. It has the following state:

- a fixed `rows` by `columns` grid of cell kinds (Empty, Snake, Food);
- the snake's body, head first;
- a queue of at most two pending turns;
- the current heading, the score and the game-over flag.

A new game places a 3-cell snake on the middle row, heading Right, and
food on a random Empty cell. `ChangeDirection` queues a turn when the
turn is acceptable. `Move` is one tick. It applies the oldest pending
turn, then classifies the cell in front of the head. A wall or the body
ends the game. An Empty cell, or the cell the tail is leaving, moves the
snake. Food grows the snake, scores a point and places new food.

The project has three files:

- `geometry.dfy` (module `Geometry`) holds the value types: `Direction`
  with `Opposite`, `Position` with `Translate`, and `GridValue`.
- `rules.dfy` (module `Rules`) states the rules over plain values. A
  `Board` maps each grid coordinate to its cell kind. It contains:
  - the invariant `Consistent`: the body has no repeated cell; the
    board's Snake cells are exactly the body's cells; Outside is never
    stored; and the food is right (see below);
  - the food placement relation `FoodPlaced`;
  - the classification `Classify`;
  - the turn-queue predicates `Turns`, `QueueChain` and `Drain`;
  - the lemmas that each step keeps the invariant.
- `game_state.dfy` (module `SnakeGame`) holds the class `GameState`. It
  keeps the grid as an `array2`, the body and the queue as sequences, and
  updates them in place as the source does. A ghost field `board` mirrors
  the grid cell by cell. `Mirrors()` states the mirroring, and every grid
  write goes through `Paint`, which updates both. `Valid()` is the object
  invariant:
  - the board mirrors the grid;
  - `Consistent(board, snakePositions)` holds;
  - every queued turn turns away from the heading before it, neither
    straight on nor reversed;
  - at most two turns are queued;
  - `score` is the body length minus 3.

The food invariant proved is the one the code keeps: exactly one Food cell,
or no Food and no Empty cell at all. A grid with no Empty cell can still
hold its single Food cell, because AddFood runs only after the snake eats.
So "no Empty cell implies no Food" is not an invariant of this code, and
the model does not claim it.

The two non-collision branches of `Move` (SnakeWpf/GameState.cs:160-170)
are written as the methods `Slide` and `Grow`. `Populate` holds the
constructor's calls `AddSnake(); AddFood();`. Each does exactly the
statements of the source, in the same order.

## Model

| member | source | states |
|---|---|---|
| SnakeGame.GameState.constructor | SnakeWpf/GameState.cs:20-29 | A new game satisfies the invariant. The body is [(rows/2,3), (rows/2,2), (rows/2,1)], head first. The heading is Right, the score is 0, the game is not over and no turn is queued. The grid is the all-Empty grid with those three cells Snake, then food placed on one Empty cell. |
| SnakeGame.GameState.Populate | SnakeWpf/GameState.cs:27-28 | On an all-Empty grid, placing the snake and then food gives the starting body and a board that satisfies the invariant. |
| SnakeGame.GameState.NewGrid | SnakeWpf/GameState.cs:24 | The new grid has the requested dimensions and every cell Empty. Empty is the first, default value of the cell kind. |
| SnakeGame.GameState.AddSnake | SnakeWpf/GameState.cs:31-39 | Painting columns 1 to 3 of the middle row, each cell becoming the new head, leaves the body as (r,3), (r,2), (r,1). Exactly those cells of the all-Empty board become Snake. |
| SnakeGame.GameState.EmptyPosition | SnakeWpf/GameState.cs:41-53 | The result holds a position exactly when that grid cell is Empty. The positions are in strictly increasing row-major order, so none repeats. |
| SnakeGame.GameState.ScanRow | SnakeWpf/GameState.cs:45-51 | Scanning one row left to right appends exactly that row's Empty cells, in column order, to the positions already found. All earlier positions come before the row. |
| SnakeGame.GameState.AddFood | SnakeWpf/GameState.cs:55-61 | With no Empty cell the grid is unchanged. Otherwise one cell that was Empty, whichever, becomes Food and no other cell changes. |
| SnakeGame.GameState.Paint | SnakeWpf/GameState.cs:81 | A write of one grid cell changes that cell of the board and no other. |
| SnakeGame.GameState.HeadPosition | SnakeWpf/GameState.cs:63-66 | When the board and body are coupled, the head is a grid cell marked Snake. |
| SnakeGame.GameState.TailPosition | SnakeWpf/GameState.cs:68-71 | When the board and body are coupled, the tail is a grid cell marked Snake. |
| SnakeGame.GameState.AddHead | SnakeWpf/GameState.cs:78-82 | The new position is put at the front of the body and its cell becomes Snake. Nothing else changes. |
| SnakeGame.GameState.RemoveTail | SnakeWpf/GameState.cs:84-89 | The last body cell is dropped from the body and its cell becomes Empty. Nothing else changes. |
| SnakeGame.GameState.GetLastDirection | SnakeWpf/GameState.cs:91-103 | The result is the heading reached once every queued turn is applied, `Drain`. |
| SnakeGame.GameState.CanChangeDirection | SnakeWpf/GameState.cs:105-115 | On a well-formed queue, the turn is accepted exactly when fewer than two turns are queued and appending it keeps every queued turn neither straight on nor reversed. |
| SnakeGame.GameState.ChangeDirection | SnakeWpf/GameState.cs:117-123 | An accepted turn is appended to the queue, and a rejected one changes nothing. The invariant is kept, so the queue never exceeds two. |
| SnakeGame.GameState.OutsideGrid | SnakeWpf/GameState.cs:125-131 | True exactly when the position is not a coordinate of the grid. |
| SnakeGame.GameState.WillHit | SnakeWpf/GameState.cs:133-144 | The value read off the grid equals `Classify` on the board. That is Outside off the grid, Empty on the current tail cell, and otherwise the stored cell kind. |
| SnakeGame.GameState.Move | SnakeWpf/GameState.cs:146-171 | The invariant is kept. The front of a non-empty queue becomes the heading and leaves the queue; an empty queue leaves both unchanged. The heading never reverses. On Outside or Snake the game is over and body, board and score are unchanged. On Empty the new head is added in front of the body without its tail, the tail cell is cleared and the score is unchanged. On Food the body grows by the new head, the score rises by one and food is placed on the updated board. The game-over flag is never cleared and the score never decreases. |
| SnakeGame.GameState.Slide | SnakeWpf/GameState.cs:160-164 | Moving into an Empty target, or the cell the tail leaves, drops the tail and adds the head while keeping the invariant. |
| SnakeGame.GameState.Grow | SnakeWpf/GameState.cs:165-170 | Moving onto food adds the head and keeps the tail. It adds one point, places food on the updated board and keeps the invariant. |
| Rules.ClassifyMeaning | SnakeWpf/GameState.cs:133-144 | Under the invariant, each answer has one meaning. Outside: the target is off the grid. Snake: the target is a body cell other than the tail. Food: the target holds food. Empty: the target is the tail or an Empty cell. |
| Rules.SlideKeepsConsistent | SnakeWpf/GameState.cs:160-164 | Clearing the tail and adding the head on an Empty target keeps the invariant. This includes the case where the new head is the old tail cell. |
| Rules.EatClearsFood | SnakeWpf/GameState.cs:165-168 | Growing onto the food cell keeps the body free of repeats and coupled to the board, and leaves no food on the board. |
| Rules.PlaceFoodKeepsConsistent | SnakeWpf/GameState.cs:55-61 | Placing food on a coupled board without food establishes the full invariant, food rule included. |
| Rules.GrowKeepsConsistent | SnakeWpf/GameState.cs:165-170 | Growing onto food and then placing food keeps the invariant. |
| Rules.StartConsistent | SnakeWpf/GameState.cs:20-39 | The starting snake on an otherwise Empty grid, with food then placed, satisfies the invariant. |
| Rules.DrainIsLast | SnakeWpf/GameState.cs:91-103 | Applying every queued turn leaves the last queued turn, or the current heading when the queue is empty. |
| Rules.ChainAppend | SnakeWpf/GameState.cs:105-123 | Appending a turn keeps the queue well formed exactly when the queue was well formed and the turn turns away from the heading the queue ends in. |
| Rules.ChainNeverReverses | SnakeWpf/GameState.cs:146-152 | Applying a well-formed queue one turn per tick never makes a heading the opposite of the one before it. |

## Left out

- `System.Random` (SnakeWpf/GameState.cs:18, 59) becomes a nondeterministic choice among the Empty cells. No distribution is modelled.
- The `LinkedList` fields (SnakeWpf/GameState.cs:15-16) are sequences. Their O(1) deque mechanics are not modelled.
- The lazy `IEnumerable` of `EmptyPosition` is computed into a sequence.
- The accessor `SnakePositions()` (SnakeWpf/GameState.cs:73-76) only returns the body. It is not modelled separately; the field `snakePositions` is readable.
- `Position`, `Direction` and `GridValue` are defined in files that are not part of this model. They are given simple datatypes: `Translate` adds a unit offset, and rows grow downwards.
- The WPF window, rendering, keyboard input and the tick timer are not part of this model.
- SnakeGame.GameState.constructor: requires `rows >= 1` and `columns >= 4`. On a smaller grid the source writes outside the array and throws. The model does not reproduce that exception.
- SnakeGame.GameState.Move: has no game-over guard, as in the source. After the game ends, further calls still move the snake. "Nothing changes once the game is over" holds only if the caller stops calling `Move`.
- SnakeGame.GameState.WillHit: its contract ties the result to `Classify`. What each answer means about the body is proved once, in `Rules.ClassifyMeaning`, not repeated on `WillHit`.
- The score is a 32-bit `int` in the source. Its wrap-around is not modelled. Under the invariant the score is the body length minus 3, so it stays below `rows * columns`.
