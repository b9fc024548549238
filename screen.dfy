/** What the commands do to a terminal: a cursor, a pen (attribute and
    colours), and the cells written so far. This is the meaning the renderer
    relies on, stated independently of how the commands are produced, so that
    "the terminal shows the frame after a render" can be proved. */
module Screen {
  import opened Output
  import opened Cells
  import opened Frames

  /** A terminal: the cursor `(cx, cy)`, the pen, and the cells written since
      the last clear. A position not in `cells` shows an empty cell. */
  datatype Term = Term(cx: int, cy: int, attr: Attribute, fg: Color, bg: Color, cells: map<(int, int), Cell>)

  /** The cell the terminal shows at column `x` of line `y`. */
  function At(t: Term, x: int, y: int): Cell
  {
    if (x, y) in t.cells then t.cells[(x, y)] else Cell.Empty()
  }

  /** One command: a move sets the cursor, the style commands set the pen, a
      byte is written with the pen at the cursor, which then advances by one.
      Every byte takes one column: control bytes and multi-byte characters,
      which a real terminal places differently, are not distinguished. */
  function Apply(t: Term, c: Command): Term
  {
    match c
    case MoveTo(x, y) => t.(cx := x, cy := y)
    case SetAttribute(a) => t.(attr := a)
    case SetForeground(f) => t.(fg := f)
    case SetBackground(b) => t.(bg := b)
    case WriteByte(ch) => t.(cells := t.cells[(t.cx, t.cy) := Cell(ch, t.fg, t.bg, t.attr)], cx := t.cx + 1)
    case ClearAll => t.(cells := map[])
    case Flush => t
  }

  /** The commands applied in order. */
  function Run(t: Term, cmds: seq<Command>): Term
    decreases |cmds|
  {
    if cmds == [] then t else Run(Apply(t, cmds[0]), cmds[1..])
  }

  /** The terminal shows the `h` by `w` grid `g` in its top-left corner. */
  predicate Shows(t: Term, g: Grid, w: nat, h: nat)
    requires IsGrid(g, w, h)
  {
    forall y, x :: 0 <= y < h && 0 <= x < w ==> At(t, x, y) == g[y][x]
  }

  /** Running `a + b` is running `a`, then `b`. */
  lemma {:induction false} RunAppend(t: Term, a: seq<Command>, b: seq<Command>)
    ensures Run(t, a + b) == Run(Run(t, a), b)
    decreases |a|
  {
    if a == [] {
      assert a + b == b;
    } else {
      assert (a + b)[0] == a[0] && (a + b)[1..] == a[1..] + b;
      RunAppend(Apply(t, a[0]), a[1..], b);
    }
  }

  /** A rendered cell lands at the cursor with exactly its own character,
      colours and attribute, and the cursor moves one column right. */
  lemma {:induction false} RunCell(t: Term, c: Cell)
    ensures Run(t, c.Commands()) ==
            t.(cx := t.cx + 1, attr := c.attr, fg := c.fg, bg := c.bg, cells := t.cells[(t.cx, t.cy) := c])
  {
    var cmds := c.Commands();
    var t1 := Apply(t, cmds[0]);
    var t2 := Apply(t1, cmds[1]);
    var t3 := Apply(t2, cmds[2]);
    var t4 := Apply(t3, cmds[3]);
    assert Run(t4, cmds[4..]) == t4;
    assert Run(t3, cmds[3..]) == t4;
    assert Run(t2, cmds[2..]) == t4;
    assert Run(t1, cmds[1..]) == t4;
  }

  /** A move to `(x, y)` followed by a cell draws the cell at `(x, y)` and
      touches nothing else. */
  lemma {:induction false} RunCellAt(t: Term, x: u16, y: u16, c: Cell)
    ensures var r := Run(t, [MoveTo(x, y)] + c.Commands());
            && At(r, x, y) == c
            && forall i, j :: (i, j) != (x, y) ==> At(r, i, j) == At(t, i, j)
  {
    RunAppend(t, [MoveTo(x, y)], c.Commands());
    assert Run(t, [MoveTo(x, y)]) == Apply(t, MoveTo(x, y));
    RunCell(Apply(t, MoveTo(x, y)), c);
  }

  /** A full repaint of the first `n` cells of row `y` shows them in columns
      `0..n` of line `y`, leaves the cursor after them, and changes no other
      position. */
  lemma {:induction false} FullRowPaints(t: Term, row: seq<Cell>, y: u16, n: nat)
    requires n <= |row|
    ensures var r := Run(t, FullRow(row, y, n));
            && r.cx == n && r.cy == y
            && (forall x :: 0 <= x < n ==> At(r, x, y) == row[x])
            && (forall i, j :: (j != y || i < 0 || n <= i) ==> At(r, i, j) == At(t, i, j))
    decreases n
  {
    if n == 0 {
      assert Run(t, FullRow(row, y, 0)) == Apply(t, MoveTo(0, y));
    } else {
      var done := FullRow(row, y, n - 1);
      FullRowPaints(t, row, y, n - 1);
      var mid := Run(t, done);
      RunAppend(t, done, row[n - 1].Commands());
      RunCell(mid, row[n - 1]);
      var r := Run(mid, row[n - 1].Commands());
      assert Run(t, FullRow(row, y, n)) == r;
      forall x | 0 <= x < n
        ensures At(r, x, y) == row[x]
      {
        if x < n - 1 {
          assert At(r, x, y) == At(mid, x, y);
        }
      }
      forall i, j | j != y || i < 0 || n <= i
        ensures At(r, i, j) == At(t, i, j)
      {
        assert At(r, i, j) == At(mid, i, j);
      }
    }
  }

  /** A delta repaint of the first `n` cells of row `y` draws exactly the
      changed cells among them and leaves every other position as it was. */
  lemma {:induction false} DeltaRowPaints(t: Term, row: seq<Cell>, prevRow: seq<Cell>, y: u16, n: nat)
    requires n <= |row| == |prevRow| < 0x1_0000
    ensures var r := Run(t, DeltaRun(row, prevRow, y, n));
            && (forall x :: 0 <= x < n ==> At(r, x, y) == if prevRow[x] != row[x] then row[x] else At(t, x, y))
            && (forall i, j :: (j != y || i < 0 || n <= i) ==> At(r, i, j) == At(t, i, j))
    decreases n
  {
    if n > 0 {
      DeltaRowPaints(t, row, prevRow, y, n - 1);
      var mid := Run(t, DeltaRun(row, prevRow, y, n - 1));
      var r := Run(t, DeltaRun(row, prevRow, y, n));
      DeltaStepPaints(t, row, prevRow, y, n);
      forall x | 0 <= x < n
        ensures At(r, x, y) == if prevRow[x] != row[x] then row[x] else At(t, x, y)
      {
        if x < n - 1 {
          assert At(r, x, y) == At(mid, x, y);
        }
      }
      forall i, j | j != y || i < 0 || n <= i
        ensures At(r, i, j) == At(t, i, j)
      {
        assert At(r, i, j) == At(mid, i, j);
      }
    }
  }

  /** Column `n - 1` of a delta repaint changes that position only, and only
      when its cell differs from the baseline's. */
  lemma {:induction false} DeltaStepPaints(t: Term, row: seq<Cell>, prevRow: seq<Cell>, y: u16, n: nat)
    requires 0 < n <= |row| == |prevRow| < 0x1_0000
    ensures var mid, r := Run(t, DeltaRun(row, prevRow, y, n - 1)), Run(t, DeltaRun(row, prevRow, y, n));
            && At(r, n - 1, y) == (if prevRow[n - 1] != row[n - 1] then row[n - 1] else At(mid, n - 1, y))
            && forall i, j :: (i, j) != (n - 1, y) ==> At(r, i, j) == At(mid, i, j)
  {
    var done := DeltaRun(row, prevRow, y, n - 1);
    if prevRow[n - 1] != row[n - 1] {
      var cell := [MoveTo(n - 1, y)] + row[n - 1].Commands();
      assert DeltaRun(row, prevRow, y, n) == done + cell;
      RunAppend(t, done, cell);
      RunCellAt(Run(t, done), n - 1, y, row[n - 1]);
    } else {
      assert DeltaRun(row, prevRow, y, n) == done + [];
      assert done + [] == done;
    }
  }

  /** Row `y` of a render, from a terminal that shows the baseline when there
      is one, shows row `y` of the frame and changes no other position. */
  lemma {:induction false} RowPaints(t: Term, g: Grid, prev: Option<Grid>, w: u16, h: u16, y: nat)
    requires Fits(g, prev, w, h) && y < h
    requires prev.Some? ==> forall x :: 0 <= x < w ==> At(t, x, y) == prev.value[y][x]
    ensures var r := Run(t, RowOutput(g, prev, w, h, y));
            && (forall x :: 0 <= x < w ==> At(r, x, y) == g[y][x])
            && (forall i, j :: (j != y || i < 0 || w <= i) ==> At(r, i, j) == At(t, i, j))
  {
    match prev
    case None =>
      FullRowPaints(t, g[y], y, w);
    case Some(p) =>
      DeltaRowPaints(t, g[y], p[y], y, w);
  }

  /** Rows `0..n` of a render show rows `0..n` of the frame and change
      nothing outside them. */
  lemma {:induction false} FramePaints(t: Term, g: Grid, prev: Option<Grid>, w: u16, h: u16, n: nat)
    requires Fits(g, prev, w, h) && n <= h
    requires prev.Some? ==> Shows(t, prev.value, w, h)
    ensures var r := Run(t, FrameOutput(g, prev, w, h, n));
            && (forall y, x :: 0 <= y < n && 0 <= x < w ==> At(r, x, y) == g[y][x])
            && (forall i, j :: !(0 <= j < n && 0 <= i < w) ==> At(r, i, j) == At(t, i, j))
    decreases n
  {
    if n > 0 {
      var done, row := FrameOutput(g, prev, w, h, n - 1), RowOutput(g, prev, w, h, n - 1);
      FramePaints(t, g, prev, w, h, n - 1);
      var mid := Run(t, done);
      if prev.Some? {
        var y := n - 1;
        forall x | 0 <= x < w
          ensures At(mid, x, y) == prev.value[y][x]
        {
          assert At(mid, x, y) == At(t, x, y);
        }
      }
      RowPaints(mid, g, prev, w, h, n - 1);
      RunAppend(t, done, row);
      var r := Run(mid, row);
      assert Run(t, FrameOutput(g, prev, w, h, n)) == r;
      forall y, x | 0 <= y < n && 0 <= x < w
        ensures At(r, x, y) == g[y][x]
      {
        if y < n - 1 {
          assert At(r, x, y) == At(mid, x, y);
        }
      }
      forall i, j | !(0 <= j < n && 0 <= i < w)
        ensures At(r, i, j) == At(t, i, j)
      {
        assert At(r, i, j) == At(mid, i, j);
      }
    }
  }

  /** The point of `render`: on a terminal that shows the baseline (any
      terminal when there is none), the commands of a render make it show the
      frame, and every position outside the display keeps what it showed. */
  lemma RenderPaints(t: Term, g: Grid, prev: Option<Grid>, w: u16, h: u16)
    requires Fits(g, prev, w, h)
    requires prev.Some? ==> Shows(t, prev.value, w, h)
    ensures var r := Run(t, RenderOutput(g, prev, w, h));
            && Shows(r, g, w, h)
            && forall i, j :: !(0 <= j < h && 0 <= i < w) ==> At(r, i, j) == At(t, i, j)
  {
    FramePaints(t, g, prev, w, h, h);
    RunAppend(t, FrameOutput(g, prev, w, h, h), [Flush]);
  }

  /** After `queue_clear`'s two commands the terminal shows empty cells
      everywhere, with the cursor at the origin. */
  lemma ClearPaints(t: Term)
    ensures var r := Run(t, [ClearAll, MoveTo(0, 0)]);
            && r.cx == 0 && r.cy == 0
            && forall i, j :: At(r, i, j) == Cell.Empty()
  {
    assert Run(t, [ClearAll, MoveTo(0, 0)]) == Apply(Apply(t, ClearAll), MoveTo(0, 0));
  }

  /** The renderer and the terminal together: if the commands a sink had
      accepted left a terminal showing the baseline, then after a successful
      render the commands it has accepted leave it showing the rendered
      frame. */
  lemma SinkShowsFrame(fails: nat -> bool, out0: seq<Command>, count0: nat, t: Term,
                       g: Grid, prev: Option<Grid>, w: u16, h: u16)
    requires Fits(g, prev, w, h)
    requires prev.Some? ==> Shows(Run(t, out0), prev.value, w, h)
    requires Perform(fails, out0, count0, RenderOutput(g, prev, w, h)).ok
    ensures Shows(Run(t, Perform(fails, out0, count0, RenderOutput(g, prev, w, h)).out), g, w, h)
  {
    var cmds := RenderOutput(g, prev, w, h);
    PerformStopsAtFirstFailure(fails, out0, count0, cmds);
    assert cmds[..|cmds|] == cmds;
    RunAppend(t, out0, cmds);
    RenderPaints(Run(t, out0), g, prev, w, h);
  }
}
