/** One position of the screen: a character byte with its colours and
    attribute. Two cells are equal exactly when all four fields are. */
module Cells {
  import opened Output

  /** The byte of the space character. */
  const SPACE: byte := 32

  datatype Cell = Cell(ch: byte, fg: Color, bg: Color, attr: Attribute)
  {
    /** An empty cell with the given background: a space, white on `color`,
        with the attribute reset. */
    static function EmptyColored(color: Color): (c: Cell)
      ensures c.ch == SPACE && c.fg == White && c.attr == Reset
      ensures c.bg == color
    {
      Cell(SPACE, White, color, Reset)
    }

    /** An empty cell with a black background. */
    static function Empty(): (c: Cell)
      ensures c == EmptyColored(Black)
    {
      EmptyColored(Black)
    }

    /** The `Default` of a cell: the empty cell. */
    static function Default(): (c: Cell)
      ensures c == Empty()
    {
      Empty()
    }

    /** What `render` sends: the attribute, the foreground, the background,
        then the character as a single byte. */
    function Commands(): (cmds: seq<Command>)
    {
      [SetAttribute(attr), SetForeground(fg), SetBackground(bg), WriteByte(ch)]
    }

    /** Renders the cell to the sink, returning at the first failure. */
    method Render(q: Sink) returns (ok: bool)
      modifies q
      ensures q.State(ok) == Perform(q.fails, old(q.out), old(q.count), Commands())
    {
      ghost var out0, count0, cmds := q.out, q.count, Commands();
      ok := q.Emit(SetAttribute(attr));
      if !ok {
        PerformFailsEarly(q.fails, out0, count0, cmds[..1], cmds);
        return;
      }
      ok := q.Emit(SetForeground(fg));
      PerformAppend(q.fails, out0, count0, cmds[..1], [cmds[1]]);
      assert cmds[..1] + [cmds[1]] == cmds[..2];
      if !ok {
        PerformFailsEarly(q.fails, out0, count0, cmds[..2], cmds);
        return;
      }
      ok := q.Emit(SetBackground(bg));
      PerformAppend(q.fails, out0, count0, cmds[..2], [cmds[2]]);
      assert cmds[..2] + [cmds[2]] == cmds[..3];
      if !ok {
        PerformFailsEarly(q.fails, out0, count0, cmds[..3], cmds);
        return;
      }
      ok := q.Emit(WriteByte(ch));
      PerformAppend(q.fails, out0, count0, cmds[..3], [cmds[3]]);
      assert cmds[..3] + [cmds[3]] == cmds;
    }
  }

  /** Empty cells differ exactly when their backgrounds do. */
  lemma EmptyColoredInjective(a: Color, b: Color)
    ensures Cell.EmptyColored(a) == Cell.EmptyColored(b) <==> a == b
  {
  }
}
