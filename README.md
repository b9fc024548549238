# crossterm-display, modelled in Dafny

crossterm-display is a small double-buffered terminal renderer. A
`TerminalDisplay` holds a working frame `chars` of `h` rows by `w` cells.
It may also hold a baseline `prev_chars`: the frame last sent to the terminal.
The methods do the following:

- `write` and `clear` change the working frame.
- `resize` reallocates it and drops the baseline.
- `render` sends the frame to stdout and then rotates the buffers. Without a baseline it repaints every row in full; with one it repaints only the cells that differ.

The repository's example is Conway's Game of Life. It runs on a torus, is drawn through a `TerminalDisplay`, and is steered by keyboard events.

The model has seven modules:

- `Output` (`output.dfy`): the commands the renderer sends and the sink that receives them.
  - The sink is the class `Sink`. It holds a log of accepted commands and a count of attempted operations.
  - An oracle `fails` says which numbered operation returns an I/O error.
  - `Perform` is the effect of issuing a list of commands with Rust's `?`: the first failure stops everything that follows.
- `Cells` (`cell.dfy`): the `Cell` value, its empty constructors and `Cell::render`.
- `Frames` (`frame.dfy`): frames as sequences of rows.
  - It gives the specification of what `render` sends: `FullRow`, `DeltaRun`, `RowOutput`, `FrameOutput` and `RenderOutput`.
  - It proves that what is sent before a failure begins the whole output.
- `Display` (`display.dfy`): the class `TerminalDisplay`.
  - Its fields are the source's, and its methods update them in place.
  - `Valid()` is the invariant: `chars` is `h`×`w`, and so is `prev_chars` when it is present.
- `FrameFacts` (`frame_facts.dfy`): what a render sends, described independently of its definition:
  - the moves of a full repaint;
  - the number of commands and of written bytes of a full repaint;
  - the moves of a delta repaint;
  - what an unchanged frame sends;
  - what a frame with one changed cell sends.
- `Screen` (`screen.dfy`): an interpreter for the commands on an idealised terminal (cursor, pen and cells). On it, every byte takes exactly one column. With it, the model proves that after a render that terminal shows the frame. See "## Left out" for where a real terminal differs.
- `GameOfLife` (`gol.dfy`):
  - the iterator chain of `count_nbors`;
  - the rules and `next_state`;
  - drawing a board into a display;
  - `handle_event`.

`GRAYISH` is the constant `Rgb(0x18, 0x18, 0x18)` (`rgb_color` at examples/gol.rs:11-15).

## Model

| member | source | states |
|---|---|---|
| Cells.Cell.EmptyColored | src/lib.rs:35-42 | the empty cell of a colour is a space, white on that colour, attribute reset |
| Cells.Cell.Empty | src/lib.rs:30-32 | `empty()` is `empty_colored(Black)` |
| Cells.Cell.Default | src/lib.rs:22-26 | the default cell is `empty()` |
| Cells.EmptyColoredInjective | src/lib.rs:35-42 | two empty cells are equal exactly when their backgrounds are (derived structural equality) |
| Cells.Cell.Render | src/lib.rs:44-50 | the sink receives attribute, foreground, background, then the byte, in that order, stopping at the first failing operation |
| Output.Sink.Emit | src/lib.rs:45-48 | one queued command is appended when its operation succeeds; every attempt is counted |
| Output.PerformStopsAtFirstFailure | src/lib.rs:44-50 | a sequence of `?` operations fails exactly at the first failing one; the sink then holds the commands before it |
| Display.TerminalDisplay.constructor | src/lib.rs:78-87 | a new display has the given size, an all-empty frame and no baseline |
| Display.TerminalDisplay.InitChars | src/lib.rs:89-99 | `init_chars(w, h)` is exactly `h` rows of exactly `w` empty cells |
| Display.TerminalDisplay.Resize | src/lib.rs:103-109 | resize installs an all-empty `h`×`w` frame, sets `w` and `h`, drops the baseline and keeps the invariant |
| Display.TerminalDisplay.Write | src/lib.rs:112-114 | `write(x, y, c)` needs `x < w` and `y < h`; it sets that cell and leaves every other cell, the baseline and the size unchanged |
| Display.TerminalDisplay.Render | src/lib.rs:117-140 | the sink receives exactly the specified render output, stopping at the first failure; on success the frame becomes the baseline and the frame is emptied; on failure both buffers are unchanged |
| Display.TerminalDisplay.RenderRow | src/lib.rs:119-133 | one row is sent in full without a baseline and as a delta with one |
| Display.TerminalDisplay.RenderFullRow | src/lib.rs:127-131 | a full row is one move to column 0, then every cell in column order |
| Display.TerminalDisplay.RenderDeltaRow | src/lib.rs:120-126 | a delta row is a move and the cell for each column whose cell differs from the baseline's, left to right |
| Display.TerminalDisplay.RenderCellAt | src/lib.rs:122-125 | one changed cell is a move to its position, then the cell |
| Display.TerminalDisplay.Clear | src/lib.rs:143-147 | every cell becomes `empty()`; baseline and size are unchanged |
| Display.TerminalDisplay.ClearColored | src/lib.rs:150-154 | every cell becomes `empty_colored(c)`; baseline and size are unchanged |
| Display.TerminalDisplay.QueueClear | src/lib.rs:156-161 | the sink receives a clear of the whole screen, then a move to the origin; no buffer changes |
| Frames.UniformUnique | src/lib.rs:143-154 | two frames filled with the same cell are equal, so clearing twice gives what clearing once gives |
| Frames.FrameWithinRender | src/lib.rs:119-134 | the rows sent so far are a prefix of the whole render output, so a failure mid-render is the failure of the render |
| FrameFacts.FullRepaint | src/lib.rs:127-131 | without a baseline the moves are exactly `(0, y)` for each row; there are `h·(1+4w)+1` commands, `w·h` bytes written, and a flush last |
| FrameFacts.DeltaRepaintMoves | src/lib.rs:120-126 | with a baseline there is a move to `(x, y)` exactly where the baseline's cell differs from the frame's |
| FrameFacts.UnchangedFrameOnlyFlushes | src/lib.rs:120-134 | rendering a frame identical to the baseline sends only the flush |
| FrameFacts.SingleChange | src/lib.rs:120-134 | a frame differing from the baseline in one cell sends one move to that cell, the cell, and the flush |
| Screen.RenderPaints | src/lib.rs:117-140 | on the idealised one-column-per-byte terminal, starting from one showing the baseline (any terminal when there is none), the render output makes it show the frame and leaves every position outside the display as it was |
| Screen.ClearPaints | src/lib.rs:156-161 | after the clear commands the terminal shows empty cells everywhere, with the cursor at the origin |
| Screen.SinkShowsFrame | src/lib.rs:117-140 | after a successful render, the commands the sink has accepted leave the idealised one-column-per-byte terminal showing the rendered frame |
| GameOfLife.Range | examples/gol.rs:35 | `lo..=hi` is the integers from `lo` to `hi` in increasing order |
| GameOfLife.CartesianProduct | examples/gol.rs:26-31 | the product has as many pairs as the lengths of `xs` and `ys` multiplied |
| GameOfLife.CartesianProductOrder | examples/gol.rs:26-31 | with `m` the length of `ys`, the pair at position `i·m+j` is `(xs[i], ys[j])`: x-major, with `ys` restarted for each `x` |
| GameOfLife.CartesianProductMembers | examples/gol.rs:26-31 | a pair occurs exactly when its parts occur in `xs` and `ys` |
| GameOfLife.RemoveCentre | examples/gol.rs:36 | the filter keeps exactly the pairs other than the centre |
| GameOfLife.WrapAll | examples/gol.rs:37-38 | every wrapped coordinate is in `[0, w)×[0, h)` |
| GameOfLife.CountAlive | examples/gol.rs:39-40 | the sum counts at most one per position |
| GameOfLife.NeighbourhoodIsEight | examples/gol.rs:35-36 | the filtered block is the eight offsets around the centre, x-major |
| GameOfLife.CountNbors | examples/gol.rs:33-41 | `count_nbors` is at most 8 |
| GameOfLife.CountNborsIsNeighbours | examples/gol.rs:33-41 | `count_nbors` is the number of live cells among the eight torus neighbours |
| GameOfLife.OneColumnCountsItself | examples/gol.rs:33-41 | the centre is filtered before wrapping, so on a board one column wide the left and right offsets land on the cell itself: a live cell counts itself twice, and the lines above and below three times each |
| GameOfLife.Rule | examples/gol.rs:54-66 | the `match` gives life exactly for three neighbours, or two for a live cell; the `unreachable!` arm needs a live cell with a count above 8, and a dead cell stays dead with any count |
| GameOfLife.Sized | examples/gol.rs:44-46 | `sized(w, h)` is `h` rows of `w` dead cells |
| GameOfLife.Step | examples/gol.rs:47-70 | the next generation has the board's dimensions |
| GameOfLife.StepFollowsRules | examples/gol.rs:54-66 | a cell of the next generation is alive exactly when it has three live torus neighbours, or is alive with two (B3/S23) |
| GameOfLife.NextState | examples/gol.rs:47-70 | the nested loops produce the next generation; the unused read of `self[1][2]` demands 2 rows and 3 columns |
| GameOfLife.BoardCell | examples/gol.rs:74-83 | a position is drawn as `'#'` when alive and `' '` otherwise, white on `GRAYISH`, attribute reset |
| GameOfLife.RenderBoard | examples/gol.rs:71-88 | every board position gets its cell in the display and every other cell is unchanged; the board must fit the display |
| GameOfLife.Toggle | examples/gol.rs:121-128 | only the cell under the cursor flips |
| GameOfLife.HandleEvent | examples/gol.rs:91-149 | the new cursor, board and flag are those of the event's effect, and `q` is reported as a quit |
| GameOfLife.ArrowsKeepCursorInside | examples/gol.rs:104-119 | an arrow key keeps a cursor inside `[0, w)×[0, h)` when `w, h > 0` |
| GameOfLife.ArrowsUndo | examples/gol.rs:107-119 | Down then Up, and Right then Left, restore the cursor, across the wrap-around too |
| GameOfLife.ToggleTwice | examples/gol.rs:121-128 | toggling twice restores the board |
| GameOfLife.AutoTwice | examples/gol.rs:134-137 | `a` flips `auto` and changes nothing else; `a` then `A` restores it |
| GameOfLife.QuitAndIgnored | examples/gol.rs:101-147 | only `q`/`Q` quit; a non-key event or an unbound key changes nothing |

## Left out

- The stdout handle and `terminal::size()` are not modelled. The constructor takes `w`, `h` and a sink.
- Output is modelled as a log of abstract commands. Colours and attributes are compared for equality only; crossterm's escape-sequence encoding is not modelled.
- `queue`, `write_all` and `flush` are each one sink operation, and each may fail. Partial writes and buffering inside stdout are not modelled.
- The commented-out move to the origin at the start of `render` is dead code. It is not modelled.
- `Cell.ch` is a byte. The example's character literals are modelled as their bytes: 32 for `' '` and 35 for `'#'`. Passing a `char` where a `u8` is expected is not modelled.
- `main` is not modelled: the frame loop, raw mode, cursor hiding, event polling and reading, and `sleep` are all terminal and OS I/O. This includes the initial glider and the `'@'` cursor cell.
- GameOfLife.HandleEvent: the `q` branch disables raw mode and exits the process. Here it is the outcome `Quit`, with nothing else changed.
- GameOfLife.HandleEvent: a zero modulus panics. `i32` overflow of `cur ± 1` panics in debug builds and wraps in release builds. Both are excluded by a precondition (`CanHandle`), so the release-build wrap-around is not modelled.
- GameOfLife.HandleEvent: a cursor outside the board would make the toggle's `as usize` index panic. Staying on the board is a precondition.
- GameOfLife.CountNbors: `Indexable` is a simpler and stronger condition than what one call needs. It asks for a non-empty first row (`gol[0]` and a nonzero modulus) and every row at least as long. One call reads only the three lines around `y`, so a short row elsewhere does not make it panic. `next_state`, the only caller, panics on any board with a short row, so no completed run is excluded.
- GameOfLife.NextState: the board must be rectangular (`IsBoard`). With rows of different lengths the source either indexes past `res` or reads past a short row in `count_nbors`; those panics are not modelled.
- GameOfLife.RenderBoard: `GoL::render` always returns `Ok(())`, so the model returns nothing.
- The screen interpreter (`Screen`) is a simplified terminal:
  - a clear blanks every cell to `Cell::empty()`, not to the current background;
  - writing past the right edge does not wrap to the next line;
  - the attribute is the last one set, not a set of accumulated attributes;
  - every byte takes exactly one column and advances the cursor by one. Control bytes (tab, line feed, carriage return, backspace, escape) and the bytes of multi-byte UTF-8 characters are not modelled. On a real terminal, such a byte in a full repaint shifts the rest of its row, because no move separates the cells of a row. The baseline still records the intended frame, so later delta renders do not repair the shift. `Screen.RenderPaints` and `Screen.SinkShowsFrame` therefore hold only for frames of printable single-byte characters on a real terminal.
- Display.TerminalDisplay.Fill is a shared helper for `clear` and `clear_colored`. It replaces each row wholesale rather than with `fill` in place, so aliasing of rows is not modelled.
- FrameFacts.DeltaRepaintMoves: it states where the moves go, not their order. The row-major order, and the cell that follows each move, are carried by the definitions of `DeltaRun` and `FrameOutput`, which `Render`'s contract uses.
