/** Frame buffers and the commands `TerminalDisplay::render` sends for them:
    a full repaint when there is no baseline, a delta repaint against the
    baseline otherwise. */
module Frames {
  import opened Output
  import opened Cells

  /** A frame buffer: rows of cells, row-major (`Vec<Vec<Cell>>`). */
  type Grid = seq<seq<Cell>>

  /** `g` has exactly `h` rows of exactly `w` cells. */
  predicate IsGrid(g: Grid, w: nat, h: nat)
  {
    |g| == h && forall y :: 0 <= y < h ==> |g[y]| == w
  }

  /** `g` is an `h` by `w` grid holding `c` everywhere. */
  predicate IsUniform(g: Grid, w: nat, h: nat, c: Cell)
  {
    IsGrid(g, w, h) && forall y, x :: 0 <= y < h && 0 <= x < w ==> g[y][x] == c
  }

  /** The frame and the optional baseline both have the display's size. */
  predicate Fits(g: Grid, prev: Option<Grid>, w: u16, h: u16)
  {
    IsGrid(g, w, h) && (prev.Some? ==> IsGrid(prev.value, w, h))
  }

  /** A uniform grid is determined by its size and its cell, so filling a
      grid twice with the same cell gives what filling it once gives. */
  lemma UniformUnique(a: Grid, b: Grid, w: nat, h: nat, c: Cell)
    requires IsUniform(a, w, h, c) && IsUniform(b, w, h, c)
    ensures a == b
  {
    forall y | 0 <= y < h
      ensures a[y] == b[y]
    {
      assert forall x :: 0 <= x < w ==> a[y][x] == b[y][x];
    }
  }

  datatype Option<T> = None | Some(value: T)

  /** The commands of a full repaint of the first `n` cells of row `y`: one
      move to the start of the row, then the cells back to back. */
  function FullRow(row: seq<Cell>, y: u16, n: nat): seq<Command>
    requires n <= |row|
  {
    if n == 0 then [MoveTo(0, y)] else FullRow(row, y, n - 1) + row[n - 1].Commands()
  }

  /** The commands of a delta repaint of the first `n` cells of row `y`: a
      move to `(x, y)` and the cell, for each column `x` whose cell differs
      from the baseline's. */
  function DeltaRun(row: seq<Cell>, prevRow: seq<Cell>, y: u16, n: nat): seq<Command>
    requires n <= |row| == |prevRow| < 0x1_0000
  {
    if n == 0 then []
    else DeltaRun(row, prevRow, y, n - 1) +
         if prevRow[n - 1] != row[n - 1] then [MoveTo(n - 1, y)] + row[n - 1].Commands() else []
  }

  /** The commands `render` sends for row `y` of `g`. */
  function RowOutput(g: Grid, prev: Option<Grid>, w: u16, h: u16, y: nat): seq<Command>
    requires Fits(g, prev, w, h) && y < h
  {
    match prev
    case None => FullRow(g[y], y, w)
    case Some(p) => DeltaRun(g[y], p[y], y, w)
  }

  /** The commands `render` sends for rows `0..n` of `g`. */
  function FrameOutput(g: Grid, prev: Option<Grid>, w: u16, h: u16, n: nat): seq<Command>
    requires Fits(g, prev, w, h) && n <= h
  {
    if n == 0 then [] else FrameOutput(g, prev, w, h, n - 1) + RowOutput(g, prev, w, h, n - 1)
  }

  /** Everything a successful `render` sends: the rows, then one flush. */
  function RenderOutput(g: Grid, prev: Option<Grid>, w: u16, h: u16): seq<Command>
    requires Fits(g, prev, w, h)
  {
    FrameOutput(g, prev, w, h, h) + [Flush]
  }

  // ----- Prefixes: what is sent while a row is half done begins the whole

  /** `a` is a prefix of `c`. */
  predicate IsPrefix(a: seq<Command>, c: seq<Command>)
  {
    |a| <= |c| && c[..|a|] == a
  }

  lemma {:induction false} PrefixRefl(a: seq<Command>)
    ensures IsPrefix(a, a)
  {
    assert a[..|a|] == a;
  }

  lemma {:induction false} PrefixExtends(a: seq<Command>, b: seq<Command>, c: seq<Command>)
    requires IsPrefix(a, b)
    ensures IsPrefix(a, b + c)
  {
    assert (b + c)[..|a|] == b[..|a|];
  }

  lemma {:induction false} PrefixTrans(a: seq<Command>, b: seq<Command>, c: seq<Command>)
    requires IsPrefix(a, b) && IsPrefix(b, c)
    ensures IsPrefix(a, c)
  {
    assert c[..|b|][..|a|] == c[..|a|];
  }

  lemma {:induction false} FullRowPrefix(row: seq<Cell>, y: u16, a: nat, b: nat)
    requires a <= b <= |row|
    ensures IsPrefix(FullRow(row, y, a), FullRow(row, y, b))
    decreases b
  {
    if a < b {
      FullRowPrefix(row, y, a, b - 1);
      PrefixExtends(FullRow(row, y, a), FullRow(row, y, b - 1), row[b - 1].Commands());
    } else {
      PrefixRefl(FullRow(row, y, a));
    }
  }

  lemma {:induction false} DeltaRunPrefix(row: seq<Cell>, prevRow: seq<Cell>, y: u16, a: nat, b: nat)
    requires a <= b <= |row| == |prevRow| < 0x1_0000
    ensures IsPrefix(DeltaRun(row, prevRow, y, a), DeltaRun(row, prevRow, y, b))
    decreases b
  {
    if a < b {
      DeltaRunPrefix(row, prevRow, y, a, b - 1);
      PrefixExtends(DeltaRun(row, prevRow, y, a), DeltaRun(row, prevRow, y, b - 1),
        if prevRow[b - 1] != row[b - 1] then [MoveTo(b - 1, y)] + row[b - 1].Commands() else []);
    } else {
      PrefixRefl(DeltaRun(row, prevRow, y, a));
    }
  }

  lemma {:induction false} FrameOutputPrefix(g: Grid, prev: Option<Grid>, w: u16, h: u16, a: nat, b: nat)
    requires Fits(g, prev, w, h) && a <= b <= h
    ensures IsPrefix(FrameOutput(g, prev, w, h, a), FrameOutput(g, prev, w, h, b))
    decreases b
  {
    if a < b {
      var start, upTo, row := FrameOutput(g, prev, w, h, a), FrameOutput(g, prev, w, h, b - 1), RowOutput(g, prev, w, h, b - 1);
      assert FrameOutput(g, prev, w, h, b) == upTo + row;
      assert IsPrefix(start, upTo) by { FrameOutputPrefix(g, prev, w, h, a, b - 1); }
      PrefixExtends(start, upTo, row);
    } else {
      PrefixRefl(FrameOutput(g, prev, w, h, a));
    }
  }

  /** Rows `0..n` begin the whole output of `render`. */
  lemma {:induction false} FrameWithinRender(g: Grid, prev: Option<Grid>, w: u16, h: u16, n: nat)
    requires Fits(g, prev, w, h) && n <= h
    ensures IsPrefix(FrameOutput(g, prev, w, h, n), RenderOutput(g, prev, w, h))
  {
    FrameOutputPrefix(g, prev, w, h, n, h);
    PrefixExtends(FrameOutput(g, prev, w, h, h), FrameOutput(g, prev, w, h, h), [Flush]);
    PrefixTrans(FrameOutput(g, prev, w, h, n), FrameOutput(g, prev, w, h, h), RenderOutput(g, prev, w, h));
  }
}
