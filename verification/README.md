# Box search strategy, modelled in Dafny

The program asks whether two people searching a grid of boxes for a coin are
equally likely to win. Alice searches row by row (left to right, then the next
row); Bob searches column by column (top to bottom, then the next column). A
*stack* of `rows * columns` boxes is filled with a fixed number of coins at
random; whoever reaches a coin in fewer steps wins, equal step counts tie, and
an *experiment* repeats this for many trials and tallies the results.

This project models the whole simulation apart from its console output:

- `Grid` — the `Box` (`Empty` or `Coin`), the `Stack` (dimensions plus a flat,
  row-major box sequence), `box_at`'s index computation, and a coin count.
- `Generator` — `Stack::stack_boxes` and `Stack::new`: the all-coins and
  no-coins shortcuts and the coin-placement loop.
- `Scan` — `RowwiseIterator::next` and `ColumnwiseIterator::next` as step
  functions on a `(row, column)` cursor. They are tied to a closed form: after
  `k` steps the row-wise cursor is at `(k / columns, k % columns)` and the
  column-wise one at `(k % rows, k / rows)`.
- `Trial` — `position(|b| b.is_coin())` on each iterator, `unwrap_or(usize::MAX)`,
  and the comparison that picks the winner.
- `Experiment` — the trial loop of `Experiment::run` and its integer tally.
- `Display` — the `X`/`O` text form of a stack.
- `Options` and `Arith` are helpers: an `Option` type, and division facts
  about row-major indices.

`usize` is modelled as `nat`. `USIZE_MAX` (2^64 - 1) is the "no coin found"
sentinel. A valid stack's box count is at most `USIZE_MAX`, so every real
position lies below the sentinel. The iterators only read the stack: in the
model the stack is an immutable value, so neither traversal can change it.

## Model

| member | source | states |
|---|---|---|
| Grid.CellIndex | src/main.rs:107-111 | the flat index of an in-range cell is below `rows * columns`, and dividing it by `columns` gives back the row (quotient) and the column (remainder), so distinct cells use distinct boxes |
| Grid.CellOfIndex | src/main.rs:107-111 | every flat index below `rows * columns` is the index of exactly the cell `(i / columns, i % columns)`, which lies in the grid |
| Grid.Box.IsCoin | src/main.rs:164-168 | `is_coin` holds exactly for a box that is not empty, that is, for `Coin` |
| Grid.BoxAt | src/main.rs:107-111 | for an in-range cell, `box_at` is the box whose flat position divides by `columns` back to that cell: quotient `row`, remainder `column` |
| Grid.CountCoins | src/main.rs:121-146 | a grid never holds more coins than boxes |
| Grid.AllCoins | src/main.rs:125-128 | the coin count equals the box count exactly when every box holds a coin |
| Grid.NoCoins | src/main.rs:130-133 | the coin count is zero exactly when every box is empty |
| Grid.CountAfterPlacing | src/main.rs:141-142 | putting a coin into an empty box raises the coin count by exactly one |
| Grid.SomeBoxEmpty | src/main.rs:135-139 | while fewer coins than boxes are placed, an empty box is left to draw, so the placement loop can always make progress |
| Generator.PlaceCoin | src/main.rs:137-142 | an accepted draw turns the drawn empty box into a coin, changes no other box, never takes a coin away, and adds one to the coin count |
| Generator.StackBoxes | src/main.rs:121-146 | for non-zero dimensions and at most `rows * columns` coins, the result has `rows * columns` boxes and exactly `num_coins` coins; it is all coins when `num_coins == rows * columns` and all empty when `num_coins == 0`; the loop keeps "coins placed + coins remaining == num_coins" |
| Generator.NewStack | src/main.rs:99-105 | the new stack has the requested dimensions, one box per cell, and exactly `num_coins` coins |
| Scan.RowwiseNext | src/main.rs:198-217 | `next` yields nothing exactly when the cursor is off the grid, and then leaves the cursor alone; otherwise it yields the cursor's cell with `box_at` of that cell, and the cursor's row-major rank `row * columns + column` goes up by one while its column stays in range |
| Scan.ColumnwiseNext | src/main.rs:220-239 | `next` yields nothing exactly when the cursor is off the grid, and then leaves the cursor alone; otherwise it yields the cursor's cell with `box_at` of that cell, and the cursor's column-major rank `column * rows + row` goes up by one while its row stays in range |
| Scan.CursorAt | src/main.rs:202-204 | the closed-form cursor after `k` steps is inside the grid exactly when `k < rows * columns` |
| Scan.NextFromCursorAt | src/main.rs:198-239 | from the cursor after `k < rows * columns` steps, `next` yields item `k` of the traversal (`(k / columns, k % columns)` row-wise, `(k % rows, k / rows)` column-wise, with that cell's box) and leaves the cursor after `k + 1` steps; after `rows * columns` steps it yields nothing |
| Scan.StartIsCursorAtZero | src/main.rs:113-119 | both iterators are created at the closed-form cursor for zero steps, `(0, 0)` |
| Scan.DriveYieldsItems | src/main.rs:198-239 | calling `next` `m` times from the cursor after `k` steps yields items `k` to `k + m - 1` of the traversal, in order |
| Scan.DriveExhausted | src/main.rs:202-204 | once the cursor is off the grid, every further call to `next` yields nothing |
| Scan.DriveCursorAt | src/main.rs:209-213 | `m` calls to `next` from the cursor after `k` steps leave the cursor after `k + m` steps |
| Scan.DriveFromStart | src/main.rs:113-119 | a fresh iterator, called `rows * columns` times, yields its whole traversal in order |
| Scan.IteratorYieldsTraversal | src/main.rs:198-239 | a fresh iterator called `rows * columns + extra` times yields exactly the `rows * columns` traversal items and then `None` on every later call |
| Scan.Rank | src/main.rs:198-239 | every cell `(row, column)` is reached at some step below `rows * columns`: step `row * columns + column` row-wise, `column * rows + row` column-wise |
| Scan.VisitsEveryCell | src/main.rs:206-207 | the item at a cell's rank names that cell and carries its box |
| Scan.VisitsEachCellOnce | src/main.rs:198-239 | no other step of a traversal reaches that cell, so each traversal visits every cell exactly once |
| Scan.FirstAndLastCells | src/main.rs:113-119 | both traversals start at `(0, 0)` and end at `(rows - 1, columns - 1)` |
| Scan.ThinGridOrdersAgree | src/main.rs:198-239 | with one row or one column, the row-wise and column-wise traversals are the same sequence |
| Trial.PositionFrom | src/main.rs:65-66 | the position is absent exactly when no item from `from` on holds a coin; otherwise it is the first item from `from` on that holds a coin |
| Trial.Search | src/main.rs:65-66 | driving an iterator until it yields a coin or runs out gives the position of the first coin in that traversal |
| Trial.FirstCoin | src/main.rs:65-66 | `position(..).unwrap_or(usize::MAX)` is `USIZE_MAX` exactly when the traversal holds no coin; otherwise it is a real index below `rows * columns` where the first coin is |
| Trial.Decide | src/main.rs:68-72 | row-wise wins exactly when its position is strictly smaller, column-wise wins exactly when its position is strictly smaller, and the trial ties exactly when they are equal |
| Trial.RowWinsIff | src/main.rs:65-72 | row-wise wins exactly when it meets a coin at some step `k` while column-wise meets none in its first `k + 1` steps |
| Trial.ColumnWinsIff | src/main.rs:65-72 | column-wise wins exactly when it meets a coin at some step `k` while row-wise meets none in its first `k + 1` steps |
| Trial.NoCoinsTie | src/main.rs:65-72 | with no coins both positions are `USIZE_MAX` and the trial ties |
| Trial.CornerCoinTie | src/main.rs:65-72 | with a coin at `(0, 0)` both positions are 0 and the trial ties |
| Trial.AllCoinsTie | src/main.rs:65-72 | when every box holds a coin both positions are 0 and the trial ties |
| Trial.ThinGridTie | src/main.rs:65-72 | with one row or one column every trial ties |
| Experiment.CountsPartition | src/main.rs:75 | every outcome is exactly one of row-wins, column-wins or tie, so the three counts add up to the number of trials |
| Experiment.Play | src/main.rs:62-66 | one trial's body builds a stack of the configured shape and coin count and computes both searches' positions, whose comparison is that stack's outcome |
| Experiment.Run | src/main.rs:57-75 | for any `usize` trial count, with a runnable grid whenever a trial is played, the row-wise and column-wise win counts after `trials` trials are the numbers of such outcomes among the generated stacks; their sum never exceeds `trials`, so `ties = trials - (wins)` does not underflow and equals the number of tied trials; with zero trials any grid parameters give an all-zero tally; and with no coins, all coins, one row or one column, both win counts are zero |
| Experiment.DegenerateTies | src/main.rs:61-73 | every stack generated for a configuration with no coins, all coins, one row or one column ties |
| Display.LinesLayout | src/main.rs:151-159 | within the first `n` rendered rows, the character for cell `(row, column)` is the glyph of its box, and each row ends with a newline |
| Display.RenderLayout | src/main.rs:149-161 | the text has `rows` lines of `columns + 1` characters; a cell's character is `X` exactly when its box holds a coin, and each line ends with a newline |

## Left out

- The report printed by `Experiment::run` (src/main.rs:77-80): it is console output with `f64` percentages. Its denominator is `alice_wins + bob_wins`, which is zero when every trial ties.
- Random number generation (src/main.rs:136): `thread_rng().gen_range` is replaced by a nondeterministic choice of a box that is still empty. The source's retry on a box that already holds a coin changes nothing, so the model leaves it out. The distribution of the draws is not modelled.
- Generator.StackBoxes: requires `num_coins <= rows * columns`. The source does not check this, and with more coins than boxes its placement loop never ends.
- Generator.StackBoxes: requires `rows * columns` to fit in a `usize`. The source's multiplication panics on overflow in a debug build and wraps in a release build. The wrapped case is not modelled.
- Generator.StackBoxes: returns normally for any box count up to `USIZE_MAX`. The source's `vec!` allocation panics with "capacity overflow" once `rows * columns` one-byte boxes exceed `isize::MAX`, and can also fail for lack of memory. Allocation limits are not modelled.
- Experiment.Run: requires `trials` to fit in a `usize`, because it is a `usize` in the source.
- The `assert!`/`assert_ne!` panics in `box_at` and `stack_boxes` become preconditions. The model describes the calls that do not panic.
- `main`'s four fixed configurations, `Experiment::new` and `Default` (src/main.rs:21-55): these are constructors with constant arguments.
- `Deref for BoxAt` (src/main.rs:178-184): it only projects the box. The model's `Located` datatype exposes that box as a field.
- Write errors from the formatter in `Display for Stack` are not modelled. The model renders to a string, which cannot fail.
- Whether the two strategies are equally likely to win: that is a statistical question, not something the code guarantees.
