/** Conway's Game of Life on a torus, drawn through a `TerminalDisplay`, with
    a keyboard-driven cursor. */
module GameOfLife {
  import opened Output
  import opened Cells
  import opened Frames
  import opened Display

  /** The background colour of the board, `rgb_color(0x18, 0x18, 0x18)`. */
  const GRAYISH: Color := Rgb(0x18, 0x18, 0x18)

  /** The byte of `'#'`, drawn for a live cell. */
  const HASH: byte := 35

  /** Rows of cells, `true` for alive (`Vec<Vec<bool>>`). */
  type Board = seq<seq<bool>>

  /** What `count_nbors` needs not to panic: a first row (`gol[0]`) that is
      not empty (a zero modulus panics), and every row at least as long. */
  predicate Indexable(g: Board)
  {
    |g| > 0 && |g[0]| > 0 && forall y :: 0 <= y < |g| ==> |g[y]| >= |g[0]|
  }

  /** A non-empty rectangular board. */
  predicate IsBoard(g: Board)
  {
    |g| > 0 && |g[0]| > 0 && forall y :: 0 <= y < |g| ==> |g[y]| == |g[0]|
  }

  // ----- The iterator chain of `count_nbors`

  /** The inclusive range `lo..=hi`. */
  function Range(lo: int, hi: int): (r: seq<int>)
    ensures |r| == if lo <= hi then hi - lo + 1 else 0
    ensures forall i :: 0 <= i < |r| ==> r[i] == lo + i
    decreases if lo <= hi then hi - lo + 1 else 0
  {
    if hi < lo then [] else [lo] + Range(lo + 1, hi)
  }

  /** `cartesian_product`: for each `x` of `xs` in turn, every `y` of `ys`. */
  function CartesianProduct<T>(xs: seq<T>, ys: seq<T>): (r: seq<(T, T)>)
    ensures |r| == |xs| * |ys|
    decreases |xs|
  {
    if xs == [] then []
    else seq(|ys|, j requires 0 <= j < |ys| => (xs[0], ys[j])) + CartesianProduct(xs[1..], ys)
  }

  /** The pair at position `i * |ys| + j` is `(xs[i], ys[j])`: the pairs come
      x-major, with `ys` restarted for each `x`. */
  lemma {:induction false} CartesianProductOrder<T>(xs: seq<T>, ys: seq<T>, i: nat, j: nat)
    requires i < |xs| && j < |ys|
    ensures i * |ys| + j < |xs| * |ys|
    ensures CartesianProduct(xs, ys)[i * |ys| + j] == (xs[i], ys[j])
    decreases i
  {
    var first := seq(|ys|, k requires 0 <= k < |ys| => (xs[0], ys[k]));
    var rest := CartesianProduct(xs[1..], ys);
    assert CartesianProduct(xs, ys) == first + rest;
    if i > 0 {
      CartesianProductOrder(xs[1..], ys, i - 1, j);
      assert i * |ys| + j == |ys| + ((i - 1) * |ys| + j);
    }
  }

  /** A pair is produced exactly when its first part is in `xs` and its
      second in `ys`. */
  lemma {:induction false} CartesianProductMembers<T>(xs: seq<T>, ys: seq<T>, p: (T, T))
    ensures p in CartesianProduct(xs, ys) <==> p.0 in xs && p.1 in ys
    decreases |xs|
  {
    if xs != [] {
      var first := seq(|ys|, k requires 0 <= k < |ys| => (xs[0], ys[k]));
      assert CartesianProduct(xs, ys) == first + CartesianProduct(xs[1..], ys);
      CartesianProductMembers(xs[1..], ys, p);
      if p.0 == xs[0] && p.1 in ys {
        var k :| 0 <= k < |ys| && ys[k] == p.1;
        assert first[k] == p;
      }
      if p in first {
        var k :| 0 <= k < |first| && first[k] == p;
        assert p.1 == ys[k];
      }
      assert xs == [xs[0]] + xs[1..];
    }
  }

  /** `.filter(|arg| arg != &(x, y))`. */
  function RemoveCentre(ps: seq<(int, int)>, c: (int, int)): (r: seq<(int, int)>)
    ensures |r| <= |ps|
    ensures forall p :: p in r <==> p in ps && p != c
    decreases |ps|
  {
    if ps == [] then []
    else (if ps[0] != c then [ps[0]] else []) + RemoveCentre(ps[1..], c)
  }

  /** `.map(|(nx, ny)| (nx.rem_euclid(w), ny.rem_euclid(h)))`; Rust's
      `rem_euclid` is Dafny's `%` for a positive modulus. */
  function WrapAll(ps: seq<(int, int)>, w: int, h: int): (r: seq<(int, int)>)
    requires w > 0 && h > 0
    ensures |r| == |ps|
    ensures forall i :: 0 <= i < |r| ==> 0 <= r[i].0 < w && 0 <= r[i].1 < h
  {
    seq(|ps|, i requires 0 <= i < |ps| => (ps[i].0 % w, ps[i].1 % h))
  }

  /** `.map(|(nx, ny)| gol[ny][nx] as u8).sum()`: how many of the positions
      hold a live cell. */
  function CountAlive(g: Board, ps: seq<(int, int)>): (n: nat)
    requires forall i :: 0 <= i < |ps| ==> 0 <= ps[i].1 < |g| && 0 <= ps[i].0 < |g[ps[i].1]|
    ensures n <= |ps|
    decreases |ps|
  {
    if ps == [] then 0
    else (if g[ps[0].1][ps[0].0] then 1 else 0) + CountAlive(g, ps[1..])
  }

  // ----- Neighbours

  /** Whether the cell at column `x` of line `y` of the torus is alive. */
  function AliveAt(g: Board, x: int, y: int): bool
    requires Indexable(g)
  {
    g[y % |g|][x % |g[0]|]
  }

  function Bit(b: bool): nat
  {
    if b then 1 else 0
  }

  /** The live cells among the eight offsets around `(x, y)`, each wrapped
      onto the torus separately. */
  function Neighbours(g: Board, x: int, y: int): nat
    requires Indexable(g)
  {
    Bit(AliveAt(g, x - 1, y - 1)) + Bit(AliveAt(g, x - 1, y)) + Bit(AliveAt(g, x - 1, y + 1)) +
    Bit(AliveAt(g, x, y - 1)) + Bit(AliveAt(g, x, y + 1)) +
    Bit(AliveAt(g, x + 1, y - 1)) + Bit(AliveAt(g, x + 1, y)) + Bit(AliveAt(g, x + 1, y + 1))
  }

  /** The 3 by 3 block around `(x, y)` without its centre, x-major. */
  lemma {:induction false} NeighbourhoodIsEight(x: int, y: int)
    ensures RemoveCentre(CartesianProduct(Range(x - 1, x + 1), Range(y - 1, y + 1)), (x, y)) ==
            [(x - 1, y - 1), (x - 1, y), (x - 1, y + 1), (x, y - 1), (x, y + 1), (x + 1, y - 1), (x + 1, y), (x + 1, y + 1)]
  {
    var xs, ys := Range(x - 1, x + 1), Range(y - 1, y + 1);
    assert xs == [x - 1, x, x + 1] && ys == [y - 1, y, y + 1];
    var block := CartesianProduct(xs, ys);
    assert CartesianProduct(xs[2..], ys) == [(x + 1, y - 1), (x + 1, y), (x + 1, y + 1)] + CartesianProduct(xs[3..], ys);
    assert CartesianProduct(xs[1..], ys) == [(x, y - 1), (x, y), (x, y + 1)] + CartesianProduct(xs[2..], ys);
    var before, after := [(x - 1, y - 1), (x - 1, y), (x - 1, y + 1), (x, y - 1)], [(x, y + 1), (x + 1, y - 1), (x + 1, y), (x + 1, y + 1)];
    assert block == before + [(x, y)] + after;
    RemoveOnce(before, after, (x, y));
  }

  /** Filtering out a pair that does not occur changes nothing. */
  lemma {:induction false} RemoveAbsent(ps: seq<(int, int)>, c: (int, int))
    requires c !in ps
    ensures RemoveCentre(ps, c) == ps
    decreases |ps|
  {
    if ps != [] {
      RemoveAbsent(ps[1..], c);
      assert ps == [ps[0]] + ps[1..];
    }
  }

  /** Filtering out a pair that occurs once removes just that occurrence. */
  lemma {:induction false} RemoveOnce(a: seq<(int, int)>, b: seq<(int, int)>, c: (int, int))
    requires c !in a && c !in b
    ensures RemoveCentre(a + [c] + b, c) == a + b
    decreases |a|
  {
    if a == [] {
      assert (a + [c] + b)[1..] == b;
      RemoveAbsent(b, c);
    } else {
      assert (a + [c] + b)[0] == a[0] && (a + [c] + b)[1..] == a[1..] + [c] + b;
      RemoveOnce(a[1..], b, c);
      assert a + b == [a[0]] + (a[1..] + b);
    }
  }

  /** `count_nbors`: the iterator chain over the block around `(x, y)`. It
      counts the eight neighbours of the torus; the centre is filtered out
      before wrapping, so on a board one cell wide or high a cell can be
      counted among its own neighbours. */
  function CountNbors(g: Board, x: int, y: int): (n: nat)
    requires Indexable(g)
    ensures n <= 8
  {
    NeighbourhoodIsEight(x, y);
    var around := RemoveCentre(CartesianProduct(Range(x - 1, x + 1), Range(y - 1, y + 1)), (x, y));
    CountAlive(g, WrapAll(around, |g[0]|, |g|))
  }

  /** `count_nbors` counts the eight neighbours of the torus. */
  lemma CountNborsIsNeighbours(g: Board, x: int, y: int)
    requires Indexable(g)
    ensures CountNbors(g, x, y) == Neighbours(g, x, y)
  {
    NeighbourhoodIsEight(x, y);
    var around := RemoveCentre(CartesianProduct(Range(x - 1, x + 1), Range(y - 1, y + 1)), (x, y));
    CountEight(g, WrapAll(around, |g[0]|, |g|));
  }

  lemma {:induction false} CountEight(g: Board, ps: seq<(int, int)>)
    requires Indexable(g) && |ps| == 8
    requires forall i :: 0 <= i < 8 ==> 0 <= ps[i].1 < |g| && 0 <= ps[i].0 < |g[0]|
    ensures CountAlive(g, ps) == Bit(g[ps[0].1][ps[0].0]) + Bit(g[ps[1].1][ps[1].0]) + Bit(g[ps[2].1][ps[2].0]) +
                                 Bit(g[ps[3].1][ps[3].0]) + Bit(g[ps[4].1][ps[4].0]) + Bit(g[ps[5].1][ps[5].0]) +
                                 Bit(g[ps[6].1][ps[6].0]) + Bit(g[ps[7].1][ps[7].0])
  {
    assert CountAlive(g, ps[8..]) == 0;
    assert CountAlive(g, ps[7..]) == Bit(g[ps[7].1][ps[7].0]);
    assert CountAlive(g, ps[6..]) == Bit(g[ps[6].1][ps[6].0]) + CountAlive(g, ps[7..]);
    assert CountAlive(g, ps[5..]) == Bit(g[ps[5].1][ps[5].0]) + CountAlive(g, ps[6..]);
    assert CountAlive(g, ps[4..]) == Bit(g[ps[4].1][ps[4].0]) + CountAlive(g, ps[5..]);
    assert CountAlive(g, ps[3..]) == Bit(g[ps[3].1][ps[3].0]) + CountAlive(g, ps[4..]);
    assert CountAlive(g, ps[2..]) == Bit(g[ps[2].1][ps[2].0]) + CountAlive(g, ps[3..]);
    assert CountAlive(g, ps[1..]) == Bit(g[ps[1].1][ps[1].0]) + CountAlive(g, ps[2..]);
  }

  /** On a board one column wide the left and right offsets wrap back to
      the column itself, so a live cell counts itself twice, and each of the
      lines above and below counts three times. */
  lemma OneColumnCountsItself(g: Board, y: nat)
    requires IsBoard(g) && |g[0]| == 1 && y < |g|
    ensures CountNbors(g, 0, y) ==
            2 * Bit(g[y][0]) + 3 * Bit(g[(y - 1) % |g|][0]) + 3 * Bit(g[(y + 1) % |g|][0])
  {
    CountNborsIsNeighbours(g, 0, y);
    OneColumnNeighbours(g, y);
  }

  lemma OneColumnNeighbours(g: Board, y: nat)
    requires IsBoard(g) && |g[0]| == 1 && y < |g|
    ensures Neighbours(g, 0, y) ==
            2 * Bit(g[y][0]) + 3 * Bit(g[(y - 1) % |g|][0]) + 3 * Bit(g[(y + 1) % |g|][0])
  {
    var up, down := (y - 1) % |g|, (y + 1) % |g|;
    assert (-1) % 1 == 0 && 1 % 1 == 0 && 0 % 1 == 0;
    assert y % |g| == y;
    assert AliveAt(g, -1, y - 1) == AliveAt(g, 0, y - 1) == AliveAt(g, 1, y - 1) == g[up][0];
    assert AliveAt(g, -1, y + 1) == AliveAt(g, 0, y + 1) == AliveAt(g, 1, y + 1) == g[down][0];
    assert AliveAt(g, -1, y) == AliveAt(g, 1, y) == g[y][0];
    var a, b, c := Bit(g[up][0]), Bit(g[y][0]), Bit(g[down][0]);
    assert Neighbours(g, 0, y) == a + b + c + a + c + a + b + c;
  }

  // ----- The rules and one generation

  /** The `match` of `next_state`: a live cell survives with two or three
      neighbours, a dead cell is born with exactly three (B3/S23). A live
      cell with more than eight is the `unreachable!` arm; a dead cell stays
      dead with any count. */
  function Rule(alive: bool, nbors: nat): (next: bool)
    requires alive ==> nbors <= 8
    ensures next <==> nbors == 3 || (alive && nbors == 2)
  {
    if alive && nbors <= 1 then false
    else if alive && (nbors == 2 || nbors == 3) then true
    else if alive && 3 <= nbors <= 8 then false
    else if !alive && nbors == 3 then true
    else if !alive then false
    else assert false; false
  }

  /** `sized(w, h)`: `h` rows of `w` dead cells. */
  function Sized(w: nat, h: nat): (g: Board)
    ensures |g| == h && forall y :: 0 <= y < h ==> |g[y]| == w
    ensures forall y, x :: 0 <= y < h && 0 <= x < w ==> !g[y][x]
  {
    seq(h, _ => seq(w, _ => false))
  }

  /** One generation of the whole board. */
  function Step(g: Board): (r: Board)
    requires IsBoard(g)
    ensures IsBoard(r) && |r| == |g| && |r[0]| == |g[0]|
  {
    seq(|g|, y requires 0 <= y < |g| => seq(|g[y]|, x requires 0 <= x < |g[y]| => Rule(g[y][x], CountNbors(g, x, y))))
  }

  /** In the next generation a cell is alive exactly when it has three live
      neighbours, or is alive and has two. */
  lemma StepFollowsRules(g: Board, x: nat, y: nat)
    requires IsBoard(g) && y < |g| && x < |g[0]|
    ensures Step(g)[y][x] <==> Neighbours(g, x, y) == 3 || (g[y][x] && Neighbours(g, x, y) == 2)
  {
    CountNborsIsNeighbours(g, x, y);
  }

  /** `next_state`, cell by cell into a fresh board. The source reads
      `self[1][2]` into a binding it never uses, so a board needs two rows
      and three columns. */
  method NextState(g: Board) returns (res: Board)
    requires IsBoard(g) && |g| >= 2 && |g[0]| >= 3
    ensures res == Step(g)
  {
    res := Sized(|g[0]|, |g|);
    var unused := g[1][2];
    for y := 0 to |g|
      invariant |res| == |g| && forall j :: 0 <= j < |g| ==> |res[j]| == |g[0]|
      invariant forall j, i :: 0 <= j < y && 0 <= i < |g[0]| ==> res[j][i] == Rule(g[j][i], CountNbors(g, i, j))
    {
      for x := 0 to |g[y]|
        invariant |res| == |g| && forall j :: 0 <= j < |g| ==> |res[j]| == |g[0]|
        invariant forall j, i :: (0 <= j < y && 0 <= i < |g[0]|) || (j == y && 0 <= i < x) ==>
                    res[j][i] == Rule(g[j][i], CountNbors(g, i, j))
      {
        var nbors := CountNbors(g, x, y);
        res := res[y := res[y][x := Rule(g[y][x], nbors)]];
      }
    }
    StepPointwise(g, res);
  }

  /** A board of the right size holding the rule's verdict everywhere is the
      next generation. */
  lemma StepPointwise(g: Board, res: Board)
    requires IsBoard(g) && |res| == |g| && forall j :: 0 <= j < |g| ==> |res[j]| == |g[0]|
    requires forall j, i :: 0 <= j < |g| && 0 <= i < |g[0]| ==> res[j][i] == Rule(g[j][i], CountNbors(g, i, j))
    ensures res == Step(g)
  {
    var next := Step(g);
    forall j | 0 <= j < |g|
      ensures res[j] == next[j]
    {
      assert |res[j]| == |next[j]|;
    }
  }

  // ----- Drawing

  /** The cell drawn for a board position. */
  function BoardCell(alive: bool): (c: Cell)
    ensures c.ch == (if alive then HASH else SPACE)
    ensures c.fg == White && c.bg == GRAYISH && c.attr == Reset
  {
    Cell(if alive then HASH else SPACE, White, GRAYISH, Reset)
  }

  /** `GoL::render`: writes every board position into the display, which
      must be large enough (`write` panics otherwise), and nothing else. */
  method RenderBoard(board: Board, td: TerminalDisplay)
    requires td.Valid() && |board| <= td.h && forall y :: 0 <= y < |board| ==> |board[y]| <= td.w
    modifies td
    ensures td.Valid() && td.w == old(td.w) && td.h == old(td.h) && td.prevChars == old(td.prevChars)
    ensures forall y, x :: 0 <= y < td.h && 0 <= x < td.w ==>
              td.chars[y][x] == if y < |board| && x < |board[y]| then BoardCell(board[y][x]) else old(td.chars)[y][x]
  {
    for y := 0 to |board|
      invariant td.Valid() && td.w == old(td.w) && td.h == old(td.h) && td.prevChars == old(td.prevChars)
      invariant forall j, i :: 0 <= j < td.h && 0 <= i < td.w ==>
                  td.chars[j][i] == if j < y && i < |board[j]| then BoardCell(board[j][i]) else old(td.chars)[j][i]
    {
      for x := 0 to |board[y]|
        invariant td.Valid() && td.w == old(td.w) && td.h == old(td.h) && td.prevChars == old(td.prevChars)
        invariant forall j, i :: 0 <= j < td.h && 0 <= i < td.w ==>
                    td.chars[j][i] == if (j < y && i < |board[j]|) || (j == y && i < x) then BoardCell(board[j][i]) else old(td.chars)[j][i]
      {
        td.Write(x, y, BoardCell(board[y][x]));
      }
    }
  }

  // ----- Input

  /** A 32-bit signed integer (`i32`). */
  type i32 = x: int | -0x8000_0000 <= x < 0x8000_0000

  datatype KeyCode = Up | Down | Left | Right | Enter | Char(c: char) | OtherKey

  /** A terminal event; only key presses are handled. */
  datatype Event = Key(code: KeyCode) | OtherEvent

  /** What `handle_event` may change: the cursor `(column, line)`, the board
      and the auto-step flag. */
  datatype Ui = Ui(cur: (i32, i32), gol: Board, auto: bool)

  /** The result of an event: go on with a new state, or quit. */
  datatype Outcome = Continue(ui: Ui) | Quit

  /** `v.rem_euclid(m)` does not panic: `m` is not zero, and the one overflowing
      case, the least `i32` by minus one, is excluded. */
  predicate RemOk(v: int, m: int)
  {
    m != 0 && !(v == -0x8000_0000 && m == -1)
  }

  /** The cursor is on the board, so toggling under it does not panic. */
  predicate OnBoard(ui: Ui)
  {
    0 <= ui.cur.1 < |ui.gol| && 0 <= ui.cur.0 < |ui.gol[ui.cur.1]|
  }

  /** What `handle_event` needs not to panic: no `i32` overflow and a nonzero
      modulus when moving, the cursor on the board when toggling, and what
      `next_state` needs when stepping. */
  predicate CanHandle(ev: Event, ui: Ui, w: i32, h: i32)
  {
    match ev
    case OtherEvent => true
    case Key(code) =>
      match code
      case Up => -0x8000_0000 <= ui.cur.1 - 1 && RemOk(ui.cur.1 - 1, h)
      case Down => ui.cur.1 + 1 < 0x8000_0000 && RemOk(ui.cur.1 + 1, h)
      case Left => -0x8000_0000 <= ui.cur.0 - 1 && RemOk(ui.cur.0 - 1, w)
      case Right => ui.cur.0 + 1 < 0x8000_0000 && RemOk(ui.cur.0 + 1, w)
      case Enter => OnBoard(ui)
      case Char(c) =>
        if c == ' ' then OnBoard(ui)
        else if c == 'n' || c == 'N' then IsBoard(ui.gol) && |ui.gol| >= 2 && |ui.gol[0]| >= 3
        else true
      case OtherKey => true
  }

  /** The board with the cell under the cursor flipped. */
  function Toggle(ui: Ui): (r: Ui)
    requires OnBoard(ui)
    ensures r.cur == ui.cur && r.auto == ui.auto && |r.gol| == |ui.gol|
    ensures forall y :: 0 <= y < |ui.gol| ==> |r.gol[y]| == |ui.gol[y]|
    ensures forall y, x :: 0 <= y < |ui.gol| && 0 <= x < |ui.gol[y]| ==>
              r.gol[y][x] == (if (x, y) == ui.cur then !ui.gol[y][x] else ui.gol[y][x])
  {
    var (cx, cy) := ui.cur;
    ui.(gol := ui.gol[cy := ui.gol[cy][cx := !ui.gol[cy][cx]]])
  }

  /** The effect of one event, as `handle_event` has it. */
  function Handle(ev: Event, ui: Ui, w: i32, h: i32): Outcome
    requires CanHandle(ev, ui, w, h)
  {
    match ev
    case OtherEvent => Continue(ui)
    case Key(code) =>
      match code
      case Up => Continue(ui.(cur := (ui.cur.0, (ui.cur.1 - 1) % h)))
      case Right => Continue(ui.(cur := ((ui.cur.0 + 1) % w, ui.cur.1)))
      case Down => Continue(ui.(cur := (ui.cur.0, (ui.cur.1 + 1) % h)))
      case Left => Continue(ui.(cur := ((ui.cur.0 - 1) % w, ui.cur.1)))
      case Enter => Continue(Toggle(ui))
      case Char(c) =>
        if c == ' ' then Continue(Toggle(ui))
        else if c == 'n' || c == 'N' then Continue(ui.(gol := Step(ui.gol)))
        else if c == 'a' || c == 'A' then Continue(ui.(auto := !ui.auto))
        else if c == 'q' || c == 'Q' then Quit
        else Continue(ui)
      case OtherKey => Continue(ui)
  }

  /** `handle_event`, updating the cursor, the board and the flag it is
      given; `quit` reports the exit on `q`. */
  method HandleEvent(ev: Event, cur: (i32, i32), w: i32, h: i32, gol: Board, auto: bool)
    returns (cur': (i32, i32), gol': Board, auto': bool, quit: bool)
    requires CanHandle(ev, Ui(cur, gol, auto), w, h)
    ensures quit <==> Handle(ev, Ui(cur, gol, auto), w, h) == Quit
    ensures !quit ==> Handle(ev, Ui(cur, gol, auto), w, h) == Continue(Ui(cur', gol', auto'))
  {
    cur', gol', auto', quit := cur, gol, auto, false;
    if !ev.Key? {
      return;
    }
    match ev.code {
      case Up => cur' := (cur.0, (cur.1 - 1) % h);
      case Right => cur' := ((cur.0 + 1) % w, cur.1);
      case Down => cur' := (cur.0, (cur.1 + 1) % h);
      case Left => cur' := ((cur.0 - 1) % w, cur.1);
      case Enter =>
        var (cx, cy) := cur;
        gol' := gol[cy := gol[cy][cx := !gol[cy][cx]]];
      case Char(c) =>
        if c == ' ' {
          var (cx, cy) := cur;
          gol' := gol[cy := gol[cy][cx := !gol[cy][cx]]];
        } else if c == 'n' || c == 'N' {
          gol' := NextState(gol);
        } else if c == 'a' || c == 'A' {
          auto' := !auto;
        } else if c == 'q' || c == 'Q' {
          quit := true;
        }
      case OtherKey =>
    }
  }

  // ----- Properties of the event handling

  /** An arrow key keeps a cursor that is on a `w` by `h` display on it. */
  lemma ArrowsKeepCursorInside(ev: Event, ui: Ui, w: i32, h: i32)
    requires w > 0 && h > 0 && 0 <= ui.cur.0 < w && 0 <= ui.cur.1 < h
    requires ev.Key? && ev.code in {Up, Down, Left, Right}
    ensures CanHandle(ev, ui, w, h)
    ensures var o := Handle(ev, ui, w, h); o.Continue? && 0 <= o.ui.cur.0 < w && 0 <= o.ui.cur.1 < h
  {
  }

  /** Stepping forward and back on a cycle of length `m`. */
  lemma WrapForwardBack(c: int, m: int)
    requires 0 <= c < m
    ensures ((c + 1) % m - 1) % m == c
  {
  }

  /** Down then Up, and Right then Left, bring the cursor back. */
  lemma ArrowsUndo(ui: Ui, w: i32, h: i32)
    requires w > 0 && h > 0 && 0 <= ui.cur.0 < w && 0 <= ui.cur.1 < h
    ensures var d := Handle(Key(Down), ui, w, h).ui;
            CanHandle(Key(Up), d, w, h) && Handle(Key(Up), d, w, h) == Continue(ui)
    ensures var r := Handle(Key(Right), ui, w, h).ui;
            CanHandle(Key(Left), r, w, h) && Handle(Key(Left), r, w, h) == Continue(ui)
  {
    WrapForwardBack(ui.cur.1, h);
    WrapForwardBack(ui.cur.0, w);
  }

  /** Toggling twice restores the board. */
  lemma ToggleTwice(ui: Ui)
    requires OnBoard(ui)
    ensures OnBoard(Toggle(ui)) && Toggle(Toggle(ui)) == ui
  {
    var (cx, cy) := ui.cur;
    assert Toggle(Toggle(ui)).gol[cy] == ui.gol[cy];
  }

  /** Flipping the flag twice restores it, and nothing else changes. */
  lemma AutoTwice(ui: Ui, w: i32, h: i32)
    ensures Handle(Key(Char('a')), ui, w, h) == Continue(ui.(auto := !ui.auto))
    ensures Handle(Key(Char('A')), Handle(Key(Char('a')), ui, w, h).ui, w, h) == Continue(ui)
  {
  }

  /** Only `q` and `Q` quit; a non-key event and a key with no binding change
      nothing. */
  lemma QuitAndIgnored(ev: Event, ui: Ui, w: i32, h: i32)
    requires CanHandle(ev, ui, w, h)
    ensures Handle(ev, ui, w, h) == Quit <==> ev == Key(Char('q')) || ev == Key(Char('Q'))
    ensures !ev.Key? || ev.code == OtherKey || (ev.code.Char? && ev.code.c !in " nNaAqQ") ==>
              Handle(ev, ui, w, h) == Continue(ui)
  {
  }
}
