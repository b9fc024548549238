/** What the output of `render` looks like: where it moves the cursor, how
    much a full repaint sends, and what a delta repaint sends for an unchanged
    or a one-cell change. */
module FrameFacts {
  import opened Output
  import opened Cells
  import opened Frames

  /** The number of bytes written by `cmds` (one per rendered cell). */
  function Writes(cmds: seq<Command>): (n: nat)
    ensures n <= |cmds|
    decreases |cmds|
  {
    if cmds == [] then 0 else (if cmds[0].WriteByte? then 1 else 0) + Writes(cmds[1..])
  }

  lemma {:induction false} WritesAppend(a: seq<Command>, b: seq<Command>)
    ensures Writes(a + b) == Writes(a) + Writes(b)
    decreases |a|
  {
    if a != [] {
      assert (a + b)[0] == a[0] && (a + b)[1..] == a[1..] + b;
      WritesAppend(a[1..], b);
    } else {
      assert a + b == b;
    }
  }

  /** `cmds` holds a move to `(x, y)`. */
  predicate MovesTo(cmds: seq<Command>, x: u16, y: u16)
    decreases |cmds|
  {
    cmds != [] && (cmds[0] == MoveTo(x, y) || MovesTo(cmds[1..], x, y))
  }

  lemma {:induction false} MovesToIn(cmds: seq<Command>, x: u16, y: u16)
    ensures MovesTo(cmds, x, y) <==> MoveTo(x, y) in cmds
    decreases |cmds|
  {
    if cmds != [] {
      MovesToIn(cmds[1..], x, y);
      assert cmds == [cmds[0]] + cmds[1..];
    }
  }

  lemma {:induction false} MovesToAppend(a: seq<Command>, b: seq<Command>, x: u16, y: u16)
    ensures MovesTo(a + b, x, y) <==> MovesTo(a, x, y) || MovesTo(b, x, y)
    decreases |a|
  {
    if a != [] {
      assert (a + b)[0] == a[0] && (a + b)[1..] == a[1..] + b;
      MovesToAppend(a[1..], b, x, y);
    } else {
      assert a + b == b;
    }
  }

  /** A cell's commands hold no move and write exactly one byte. */
  lemma CellCommandsShape(c: Cell, x: u16, y: u16)
    ensures !MovesTo(c.Commands(), x, y)
    ensures Writes(c.Commands()) == 1 && |c.Commands()| == 4
  {
    var cmds := c.Commands();
    assert cmds[3..][1..] == [];
    assert Writes(cmds[3..]) == 1 && !MovesTo(cmds[3..], x, y);
    assert Writes(cmds[2..]) == Writes(cmds[3..]) && !MovesTo(cmds[2..], x, y);
    assert Writes(cmds[1..]) == Writes(cmds[2..]) && !MovesTo(cmds[1..], x, y);
  }

  // ----- Full repaint

  lemma {:induction false} FullRowMoves(row: seq<Cell>, y: u16, n: nat, x: u16, y': u16)
    requires n <= |row|
    ensures MovesTo(FullRow(row, y, n), x, y') <==> x == 0 && y' == y
    decreases n
  {
    if n > 0 {
      FullRowMoves(row, y, n - 1, x, y');
      CellCommandsShape(row[n - 1], x, y');
      MovesToAppend(FullRow(row, y, n - 1), row[n - 1].Commands(), x, y');
    } else {
      assert [MoveTo(0, y)][1..] == [];
    }
  }

  lemma {:induction false} FullRowSize(row: seq<Cell>, y: u16, n: nat)
    requires n <= |row|
    ensures |FullRow(row, y, n)| == 1 + 4 * n && Writes(FullRow(row, y, n)) == n
    decreases n
  {
    if n == 0 {
      assert Writes([MoveTo(0, y)]) == Writes([]);
    } else {
      FullRowSize(row, y, n - 1);
      CellCommandsShape(row[n - 1], 0, 0);
      WritesAppend(FullRow(row, y, n - 1), row[n - 1].Commands());
    }
  }

  lemma {:induction false} FullFrameMoves(g: Grid, w: u16, h: u16, n: nat, x: u16, y: u16)
    requires Fits(g, None, w, h) && n <= h
    ensures MovesTo(FrameOutput(g, None, w, h, n), x, y) <==> x == 0 && y < n
    decreases n
  {
    if n > 0 {
      var done, row := FrameOutput(g, None, w, h, n - 1), FullRow(g[n - 1], n - 1, w);
      assert FrameOutput(g, None, w, h, n) == done + row;
      FullFrameMoves(g, w, h, n - 1, x, y);
      FullRowMoves(g[n - 1], n - 1, w, x, y);
      MovesToAppend(done, row, x, y);
    } else {
      assert FrameOutput(g, None, w, h, 0) == [];
    }
  }

  lemma {:induction false} FullFrameSize(g: Grid, w: u16, h: u16, n: nat)
    requires Fits(g, None, w, h) && n <= h
    ensures |FrameOutput(g, None, w, h, n)| == n * (1 + 4 * w)
    decreases n
  {
    if n > 0 {
      var done, row := FrameOutput(g, None, w, h, n - 1), FullRow(g[n - 1], n - 1, w);
      assert FrameOutput(g, None, w, h, n) == done + row;
      FullFrameSize(g, w, h, n - 1);
      FullRowSize(g[n - 1], n - 1, w);
      PerRow(n, 1 + 4 * w);
    } else {
      assert FrameOutput(g, None, w, h, 0) == [];
    }
  }

  lemma {:induction false} FullFrameWrites(g: Grid, w: u16, h: u16, n: nat)
    requires Fits(g, None, w, h) && n <= h
    ensures Writes(FrameOutput(g, None, w, h, n)) == n * w
    decreases n
  {
    if n > 0 {
      var done, row := FrameOutput(g, None, w, h, n - 1), FullRow(g[n - 1], n - 1, w);
      assert FrameOutput(g, None, w, h, n) == done + row;
      FullFrameWrites(g, w, h, n - 1);
      FullRowSize(g[n - 1], n - 1, w);
      WritesAppend(done, row);
      PerRow(n, w);
    } else {
      assert FrameOutput(g, None, w, h, 0) == [];
    }
  }

  /** `n` lines of `k` are `n - 1` lines of `k` and one more; kept apart so
      that the multiplication stays out of the inductions above. */
  lemma PerRow(n: nat, k: nat)
    requires n > 0
    ensures n * k == (n - 1) * k + k
  {
  }

  /** Without a baseline `render` moves the cursor exactly once per line, to
      its start, sends `1 + 4 * w` commands per line and one flush, and
      writes `w * h` bytes. */
  lemma FullRepaint(g: Grid, w: u16, h: u16)
    requires Fits(g, None, w, h)
    ensures forall x: u16, y: u16 :: MoveTo(x, y) in RenderOutput(g, None, w, h) <==> x == 0 && y < h
    ensures |RenderOutput(g, None, w, h)| == h * (1 + 4 * w) + 1
    ensures Writes(RenderOutput(g, None, w, h)) == w * h
    ensures RenderOutput(g, None, w, h)[h * (1 + 4 * w)] == Flush
  {
    forall x: u16, y: u16
      ensures MoveTo(x, y) in RenderOutput(g, None, w, h) <==> x == 0 && y < h
    {
      FullFrameMoves(g, w, h, h, x, y);
      MovesToAppend(FrameOutput(g, None, w, h, h), [Flush], x, y);
      MovesToIn(RenderOutput(g, None, w, h), x, y);
    }
    FullFrameSize(g, w, h, h);
    FullFrameWrites(g, w, h, h);
    WritesAppend(FrameOutput(g, None, w, h, h), [Flush]);
    assert Writes([Flush]) == Writes([]);
  }

  // ----- Delta repaint

  lemma {:induction false} DeltaRunMoves(row: seq<Cell>, prevRow: seq<Cell>, y: u16, n: nat, x: u16, y': u16)
    requires n <= |row| == |prevRow| < 0x1_0000
    ensures MovesTo(DeltaRun(row, prevRow, y, n), x, y') <==> y' == y && x < n && prevRow[x] != row[x]
    decreases n
  {
    if n > 0 {
      var done := DeltaRun(row, prevRow, y, n - 1);
      DeltaRunMoves(row, prevRow, y, n - 1, x, y');
      if prevRow[n - 1] != row[n - 1] {
        var cell := [MoveTo(n - 1, y)] + row[n - 1].Commands();
        assert DeltaRun(row, prevRow, y, n) == done + cell;
        CellCommandsShape(row[n - 1], x, y');
        assert cell[1..] == row[n - 1].Commands();
        MovesToAppend(done, cell, x, y');
      } else {
        assert DeltaRun(row, prevRow, y, n) == done + [];
        assert done + [] == done;
      }
    } else {
      assert DeltaRun(row, prevRow, y, 0) == [];
    }
  }

  lemma {:induction false} DeltaFrameMoves(g: Grid, p: Grid, w: u16, h: u16, n: nat, x: u16, y: u16)
    requires Fits(g, Some(p), w, h) && n <= h
    ensures MovesTo(FrameOutput(g, Some(p), w, h, n), x, y) <==> y < n && x < w && p[y][x] != g[y][x]
    decreases n
  {
    if n > 0 {
      var done, row := FrameOutput(g, Some(p), w, h, n - 1), DeltaRun(g[n - 1], p[n - 1], n - 1, w);
      assert FrameOutput(g, Some(p), w, h, n) == done + row;
      DeltaFrameMoves(g, p, w, h, n - 1, x, y);
      DeltaRunMoves(g[n - 1], p[n - 1], n - 1, w, x, y);
      MovesToAppend(done, row, x, y);
    } else {
      assert FrameOutput(g, Some(p), w, h, 0) == [];
    }
  }

  /** With a baseline `render` moves the cursor to a position exactly when
      the frame differs from the baseline there. */
  lemma DeltaRepaintMoves(g: Grid, p: Grid, w: u16, h: u16)
    requires Fits(g, Some(p), w, h)
    ensures forall x: u16, y: u16 ::
              MoveTo(x, y) in RenderOutput(g, Some(p), w, h) <==> y < h && x < w && p[y][x] != g[y][x]
  {
    forall x: u16, y: u16
      ensures MoveTo(x, y) in RenderOutput(g, Some(p), w, h) <==> y < h && x < w && p[y][x] != g[y][x]
    {
      DeltaFrameMoves(g, p, w, h, h, x, y);
      MovesToAppend(FrameOutput(g, Some(p), w, h, h), [Flush], x, y);
      MovesToIn(RenderOutput(g, Some(p), w, h), x, y);
    }
  }

  lemma {:induction false} DeltaRunSame(row: seq<Cell>, prevRow: seq<Cell>, y: u16, n: nat)
    requires n <= |row| == |prevRow| < 0x1_0000 && row == prevRow
    ensures DeltaRun(row, prevRow, y, n) == []
    decreases n
  {
    if n > 0 {
      DeltaRunSame(row, prevRow, y, n - 1);
    }
  }

  lemma {:induction false} FrameSame(g: Grid, w: u16, h: u16, n: nat)
    requires Fits(g, Some(g), w, h) && n <= h
    ensures FrameOutput(g, Some(g), w, h, n) == []
    decreases n
  {
    if n > 0 {
      var done, row := FrameOutput(g, Some(g), w, h, n - 1), DeltaRun(g[n - 1], g[n - 1], n - 1, w);
      assert FrameOutput(g, Some(g), w, h, n) == done + row;
      FrameSame(g, w, h, n - 1);
      DeltaRunSame(g[n - 1], g[n - 1], n - 1, w);
      assert done + row == [];
    } else {
      assert FrameOutput(g, Some(g), w, h, 0) == [];
    }
  }

  /** Rendering a frame identical to the baseline sends nothing but the
      flush. */
  lemma UnchangedFrameOnlyFlushes(g: Grid, w: u16, h: u16)
    requires IsGrid(g, w, h)
    ensures RenderOutput(g, Some(g), w, h) == [Flush]
  {
    FrameSame(g, w, h, h);
  }

  lemma {:induction false} DeltaRunOne(prevRow: seq<Cell>, x0: nat, c: Cell, y: u16, n: nat)
    requires x0 < |prevRow| < 0x1_0000 && n <= |prevRow| && c != prevRow[x0]
    ensures DeltaRun(prevRow[x0 := c], prevRow, y, n) == if x0 < n then [MoveTo(x0, y)] + c.Commands() else []
    decreases n
  {
    if n > 0 {
      DeltaRunOne(prevRow, x0, c, y, n - 1);
    }
  }

  /** Rows that equal the baseline's send nothing. */
  lemma {:induction false} QuietAbove(g: Grid, p: Grid, w: u16, h: u16, n: nat)
    requires Fits(g, Some(p), w, h) && n <= h
    requires forall y: nat :: y < n ==> g[y] == p[y]
    ensures FrameOutput(g, Some(p), w, h, n) == []
    decreases n
  {
    if n > 0 {
      var done, row := FrameOutput(g, Some(p), w, h, n - 1), DeltaRun(g[n - 1], p[n - 1], n - 1, w);
      assert FrameOutput(g, Some(p), w, h, n) == done + row;
      assert done == [] by { QuietAbove(g, p, w, h, n - 1); }
      assert row == [] by { DeltaRunSame(g[n - 1], p[n - 1], n - 1, w); }
      assert done + row == [];
    } else {
      assert FrameOutput(g, Some(p), w, h, 0) == [];
    }
  }

  /** When only row `y0` differs from the baseline, the frame up to any
      later row is what row `y0` sends. */
  lemma {:induction false} OnlyChangedRow(g: Grid, p: Grid, w: u16, h: u16, y0: nat, n: nat)
    requires Fits(g, Some(p), w, h) && y0 < n <= h
    requires forall y: nat :: y < h && y != y0 ==> g[y] == p[y]
    ensures FrameOutput(g, Some(p), w, h, n) == DeltaRun(g[y0], p[y0], y0, w)
    decreases n
  {
    var done, row := FrameOutput(g, Some(p), w, h, n - 1), DeltaRun(g[n - 1], p[n - 1], n - 1, w);
    assert FrameOutput(g, Some(p), w, h, n) == done + row;
    if n - 1 == y0 {
      assert done == [] by { QuietAbove(g, p, w, h, n - 1); }
      assert done + row == row;
    } else {
      assert done == DeltaRun(g[y0], p[y0], y0, w) by { OnlyChangedRow(g, p, w, h, y0, n - 1); }
      assert row == [] by { DeltaRunSame(g[n - 1], p[n - 1], n - 1, w); }
      assert done + row == done;
    }
  }

  /** Changing one cell of the baseline makes `render` send exactly one move,
      to that cell, then the cell, then the flush. */
  lemma SingleChange(p: Grid, w: u16, h: u16, x0: nat, y0: nat, c: Cell)
    requires IsGrid(p, w, h) && x0 < w && y0 < h && c != p[y0][x0]
    ensures Fits(p[y0 := p[y0][x0 := c]], Some(p), w, h)
    ensures RenderOutput(p[y0 := p[y0][x0 := c]], Some(p), w, h) == [MoveTo(x0, y0)] + c.Commands() + [Flush]
  {
    var g := p[y0 := p[y0][x0 := c]];
    assert IsGrid(g, w, h);
    OnlyChangedRow(g, p, w, h, y0, h);
    DeltaRunOne(p[y0], x0, c, y0, w);
  }
}
