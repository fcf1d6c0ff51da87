# Rusticade core, modelled in Dafny

Rusticade is a terminal arcade written in Rust on top of the `ruscii`
library. This project models two deterministic parts of it:

- **The breakout brick grid.** The game-state constructor of the breakout
  game builds its bricks in a nested loop. It covers rows y = 2 .. 6 and
  columns x from 5 up to (excluding) `dimension.x - 5`. It pushes the point
  `(x, y)` for every odd x. `Breakout.Layout` is a row-by-row reference
  definition of that grid. `Breakout.NewBricks` is the imperative nested loop,
  proved equal to it. Lemmas state what the grid is:
  - bounds and parity;
  - completeness;
  - strict row-major order, and hence no duplicates;
  - size.
- **The arcade state record.** `ArcadeState` stores the terminal
  dimension, a games vector, the current and last game, a name and a list of
  high scores. `Arcade.New` is the constructor. `Arcade.Update` is the
  per-frame step: it advances `current_game` on every frame whose number is a
  multiple of ten and leaves every other field alone. `Arcade.Run` folds
  `Update` over a sequence of frames.

`Vec2` is a plain pair of `i32` values. `u64` and `usize` are newtypes over
`int`, and `usize` is taken to be 64 bits wide. The source's integer overflows
would panic in a debug build (`dimension.x - 5` in `i32`, `current_game + 1`
in `usize`). Both are modelled as preconditions that the caller must meet:
`Breakout.WidthOk` and `Arcade.CanUpdate`.

The source's constructor `GameState::new` never returns its state: the
initialiser is commented out, so as written the function does not compile.
Only the brick loop inside it is modelled, as a method that returns the brick
sequence. `GameState` declares fields for a ball, its movement, misses and a score
(games/breakout.rs:13-21), but nothing initialises or updates them: the
breakout file has no paddle, ball, collision, scoring or lives logic, and
only the five-row, odd-column brick loop runs.

## Model

| member | source | states |
|---|---|---|
| Breakout.NewBricks | games/breakout.rs:28-35 | The nested loop yields exactly the reference grid for the arena width. Its bricks are exactly the odd columns in [5, width-5) on rows 2..6. They come in strict row-major order, and there are 5 × (odd columns in range) of them. The height of `dimension` plays no part. |
| Breakout.PushRows | games/breakout.rs:29-35 | The outer loop appends the five rows y = 2 .. 6 in ascending order, each exactly as the inner loop builds it, so it yields the reference grid. |
| Breakout.PushRow | games/breakout.rs:30-34 | The inner loop appends to the bricks so far exactly one row's bricks, left to right. |
| Breakout.LayoutMembers | games/breakout.rs:29-33 | A point is in the grid if and only if y is in [2,7), x is in [5, width-5) and x is odd. This gives both bounds and parity, and completeness. |
| Breakout.LayoutSorted | games/breakout.rs:29-33 | The grid is strictly ordered by row, then by column, so no brick appears twice. |
| Breakout.LayoutLength | games/breakout.rs:29-33 | The grid holds five times the number of odd integers in [5, width-5), and is empty when the width is at most 10. |
| Arcade.New | src/main.rs:80-90 | A fresh arcade keeps the given dimension. It starts at game 0 with last game 0, games (0,0), the name "Space Invaders" and no high scores. |
| Arcade.Update | src/main.rs:93-97 | The current game grows, by exactly one, if and only if the frame number is a multiple of ten. No other field changes. |
| Arcade.Run | src/main.rs:93-97 | After a run of frames, the current game has advanced by the number of frames that were multiples of ten. Every other field is unchanged. |
| Arcade.RunMonotone | src/main.rs:93-97 | The current game never decreases along a run of frames: every prefix ends at or below the full run. |
| Arcade.RunFromNew | src/main.rs:80-97 | From a fresh arcade, the state after a run is the fresh state with the current game set to the count of frames that were multiples of ten; no other field moves. |

## Left out

- `secret_num` (src/main.rs:40-73): a number-guessing loop built from standard input and output, a thread-local random generator and string parsing. It is all I/O and foreign calls.
- `main` (src/main.rs:100-106): only sets up the `ruscii` application and FPS counter.
- The other fields of `GameState` and its commented-out initialiser (games/breakout.rs:11-22, 36-48): they are never built, so no values are assumed for them.
- Paddle, ball, collision, scoring and lives: `GameState` declares fields for them (games/breakout.rs:13-21), but nothing initialises or updates them, so there is no behaviour to model.
- Rendering, keyboard types and the terminal library's `Vec2` arithmetic: external. `Vec2` is a plain pair of `i32`.
- Arcade.Update: when `current_game` is already `usize::MAX`, Rust panics in a debug build and wraps to 0 in a release build. The model leaves this case out with the precondition `CanUpdate`.
- Arcade.Run: like `Update`, requires that `current_game` plus the number of advancing frames stays within `usize`, so the panic or wrap-around of an overflowing run is not modelled; the same precondition carries over to Arcade.RunMonotone and Arcade.RunFromNew.
- Arcade.RunMonotone: requires no `usize` overflow over the whole run, for the reason given for Arcade.Run.
- Arcade.RunFromNew: requires no `usize` overflow over the whole run, for the reason given for Arcade.Run.
- Breakout.NewBricks: a `dimension.x` within 5 of `i32::MIN` makes `dimension.x - 5` overflow. The model excludes that width with the precondition `WidthOk` instead of modelling the panic or the wrap.
