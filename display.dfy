/** `TerminalDisplay`: a working frame `chars`, an optional baseline
    `prevChars` (the frame last sent to the terminal), and the sink they are
    rendered to. */
module Display {
  import opened Output
  import opened Cells
  import opened Frames

  class TerminalDisplay {
    /** The handle to the terminal (stdout). */
    const stdout: Sink
    /** The frame last rendered successfully; `None` forces a full repaint. */
    var prevChars: Option<Grid>
    /** The frame being assembled for the next render. */
    var chars: Grid
    /** The width of the display. */
    var w: u16
    /** The height of the display. */
    var h: u16

    /** `chars` is `h` by `w`, and so is `prevChars` when present. */
    ghost predicate Valid()
      reads this
    {
      Fits(chars, prevChars, w, h)
    }

    /** A display of the given size, with an all-empty frame and no baseline.
        The size is a parameter: querying the terminal is not modelled. */
    constructor (w: u16, h: u16, stdout: Sink)
      ensures Valid() && this.w == w && this.h == h && this.stdout == stdout
      ensures IsUniform(chars, w, h, Cell.Empty()) && prevChars == None
    {
      var blank := InitChars(w, h);
      this.stdout := stdout;
      prevChars := None;
      chars := blank;
      this.w := w;
      this.h := h;
    }

    /** A new frame buffer: `h` rows of `w` empty cells. */
    static method InitChars(w: u16, h: u16) returns (chars: Grid)
      ensures IsUniform(chars, w, h, Cell.Empty())
    {
      chars := [];
      for y := 0 to h
        invariant IsUniform(chars, w, y, Cell.Empty())
      {
        var row := [];
        for x := 0 to w
          invariant |row| == x && forall i :: 0 <= i < x ==> row[i] == Cell.Empty()
        {
          row := row + [Cell.Empty()];
        }
        chars := chars + [row];
      }
    }

    /** Changes the size: a new all-empty frame, and no baseline any more, so
        that the next render repaints everything. */
    method Resize(w: u16, h: u16)
      modifies this
      ensures Valid() && this.w == w && this.h == h
      ensures IsUniform(chars, w, h, Cell.Empty()) && prevChars == None
    {
      prevChars := None;
      chars := InitChars(w, h);
      this.w := w;
      this.h := h;
    }

    /** Writes one cell of the frame; indexing outside the display panics,
        hence the precondition. */
    method Write(x: nat, y: nat, c: Cell)
      requires Valid() && x < w && y < h
      modifies this
      ensures Valid() && w == old(w) && h == old(h) && prevChars == old(prevChars)
      ensures chars[y][x] == c
      ensures forall j, i :: 0 <= j < h && 0 <= i < w && (j, i) != (y, x) ==> chars[j][i] == old(chars)[j][i]
    {
      chars := chars[y := chars[y][x := c]];
    }

    /** Sends the frame to the sink and rotates the buffers. Without a
        baseline every row is sent in full; with one, only the cells that
        differ from it, each after a move to its position. One flush ends a
        render. On success the frame becomes the baseline and the working
        frame is emptied; on a sink error nothing else is sent and neither
        buffer changes. */
    method Render() returns (ok: bool)
      requires Valid()
      modifies this, stdout
      ensures Valid() && w == old(w) && h == old(h)
      ensures stdout.State(ok) == Perform(stdout.fails, old(stdout.out), old(stdout.count), RenderOutput(old(chars), old(prevChars), w, h))
      ensures ok ==> prevChars == Some(old(chars)) && IsUniform(chars, w, h, Cell.Empty())
      ensures !ok ==> chars == old(chars) && prevChars == old(prevChars)
    {
      ghost var fails, out0, count0 := stdout.fails, stdout.out, stdout.count;
      for y := 0 to |chars|
        modifies stdout
        invariant stdout.State(true) == Perform(fails, out0, count0, FrameOutput(chars, prevChars, w, h, y))
      {
        ok := RenderRow(y);
        PerformAppend(fails, out0, count0, FrameOutput(chars, prevChars, w, h, y), RowOutput(chars, prevChars, w, h, y));
        if !ok {
          FrameWithinRender(chars, prevChars, w, h, y + 1);
          PerformFailsEarly(fails, out0, count0, FrameOutput(chars, prevChars, w, h, y + 1), RenderOutput(chars, prevChars, w, h));
          return;
        }
      }
      ok := stdout.Emit(Flush);
      PerformAppend(fails, out0, count0, FrameOutput(chars, prevChars, w, h, h), [Flush]);
      if !ok {
        return;
      }
      prevChars := Some(chars);
      chars := InitChars(w, h);
    }

    /** Row `y` of `render`: in full without a baseline, as a delta with one. */
    method RenderRow(y: u16) returns (ok: bool)
      requires Valid() && y < h
      modifies stdout
      ensures stdout.State(ok) == Perform(stdout.fails, old(stdout.out), old(stdout.count), RowOutput(chars, prevChars, w, h, y))
    {
      if prevChars.Some? {
        ok := RenderDeltaRow(chars[y], prevChars.value[y], y);
      } else {
        ok := RenderFullRow(chars[y], y);
      }
    }

    /** The full-repaint branch of `render` for row `y`: one move to the
        start of the row, then every cell in column order. */
    method RenderFullRow(row: seq<Cell>, y: u16) returns (ok: bool)
      modifies stdout
      ensures stdout.State(ok) == Perform(stdout.fails, old(stdout.out), old(stdout.count), FullRow(row, y, |row|))
    {
      ghost var fails, out0, count0 := stdout.fails, stdout.out, stdout.count;
      ok := stdout.Emit(MoveTo(0, y));
      if !ok {
        FullRowPrefix(row, y, 0, |row|);
        PerformFailsEarly(fails, out0, count0, FullRow(row, y, 0), FullRow(row, y, |row|));
        return;
      }
      for x := 0 to |row|
        invariant stdout.State(true) == Perform(fails, out0, count0, FullRow(row, y, x))
      {
        ok := row[x].Render(stdout);
        PerformAppend(fails, out0, count0, FullRow(row, y, x), row[x].Commands());
        if !ok {
          FullRowPrefix(row, y, x + 1, |row|);
          PerformFailsEarly(fails, out0, count0, FullRow(row, y, x + 1), FullRow(row, y, |row|));
          return;
        }
      }
    }

    /** The delta-repaint branch of `render` for row `y`: a move and the cell
        wherever the cell differs from the baseline's. */
    method RenderDeltaRow(row: seq<Cell>, prevRow: seq<Cell>, y: u16) returns (ok: bool)
      requires |row| == |prevRow| < 0x1_0000
      modifies stdout
      ensures stdout.State(ok) == Perform(stdout.fails, old(stdout.out), old(stdout.count), DeltaRun(row, prevRow, y, |row|))
    {
      ghost var fails, out0, count0 := stdout.fails, stdout.out, stdout.count;
      ok := true;
      for x := 0 to |row|
        invariant stdout.State(true) == Perform(fails, out0, count0, DeltaRun(row, prevRow, y, x))
      {
        ghost var before := DeltaRun(row, prevRow, y, x);
        if prevRow[x] != row[x] {
          ok := RenderCellAt(x, y, row[x]);
          PerformAppend(fails, out0, count0, before, [MoveTo(x, y)] + row[x].Commands());
          assert DeltaRun(row, prevRow, y, x + 1) == before + ([MoveTo(x, y)] + row[x].Commands());
          if !ok {
            DeltaRunPrefix(row, prevRow, y, x + 1, |row|);
            PerformFailsEarly(fails, out0, count0, DeltaRun(row, prevRow, y, x + 1), DeltaRun(row, prevRow, y, |row|));
            return;
          }
        } else {
          assert before + [] == before;
          assert DeltaRun(row, prevRow, y, x + 1) == before;
        }
      }
    }

    /** One changed cell of a delta repaint: a move to `(x, y)`, then the cell. */
    method RenderCellAt(x: u16, y: u16, c: Cell) returns (ok: bool)
      modifies stdout
      ensures stdout.State(ok) == Perform(stdout.fails, old(stdout.out), old(stdout.count), [MoveTo(x, y)] + c.Commands())
    {
      ghost var fails, out0, count0 := stdout.fails, stdout.out, stdout.count;
      ok := stdout.Emit(MoveTo(x, y));
      PerformAppend(fails, out0, count0, [MoveTo(x, y)], c.Commands());
      if !ok {
        return;
      }
      ok := c.Render(stdout);
    }

    /** Overwrites every cell of the frame with `c`, row by row. */
    method Fill(c: Cell)
      requires Valid()
      modifies this
      ensures Valid() && w == old(w) && h == old(h) && prevChars == old(prevChars)
      ensures IsUniform(chars, w, h, c)
    {
      for y := 0 to |chars|
        invariant Valid() && w == old(w) && h == old(h) && prevChars == old(prevChars)
        invariant forall j, i :: 0 <= j < y && 0 <= i < w ==> chars[j][i] == c
      {
        chars := chars[y := seq(|chars[y]|, _ => c)];
      }
    }

    /** Empties the frame (black background). The baseline is kept. */
    method Clear()
      requires Valid()
      modifies this
      ensures Valid() && w == old(w) && h == old(h) && prevChars == old(prevChars)
      ensures IsUniform(chars, w, h, Cell.Empty())
    {
      Fill(Cell.Empty());
    }

    /** Empties the frame with the given background. The baseline is kept. */
    method ClearColored(color: Color)
      requires Valid()
      modifies this
      ensures Valid() && w == old(w) && h == old(h) && prevChars == old(prevChars)
      ensures IsUniform(chars, w, h, Cell.EmptyColored(color))
    {
      Fill(Cell.EmptyColored(color));
    }

    /** Queues a clear of the whole terminal and a move to the origin; the
        buffers are not touched. */
    method QueueClear() returns (ok: bool)
      modifies stdout
      ensures stdout.State(ok) == Perform(stdout.fails, old(stdout.out), old(stdout.count), [ClearAll, MoveTo(0, 0)])
    {
      ghost var fails, out0, count0 := stdout.fails, stdout.out, stdout.count;
      ok := stdout.Emit(ClearAll);
      PerformAppend(fails, out0, count0, [ClearAll], [MoveTo(0, 0)]);
      if !ok {
        return;
      }
      ok := stdout.Emit(MoveTo(0, 0));
      assert [ClearAll] + [MoveTo(0, 0)] == [ClearAll, MoveTo(0, 0)];
    }
  }
}
